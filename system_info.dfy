// src/system_info.rs: the gaming-oriented system report. Every value comes
// from a file or a command's output; here those texts are the inputs (`None`
// when a file cannot be read), and the helpers that turn them into the
// report are modelled. Byte counts stay numbers: `format_bytes` is floating
// point and is not part of this model.
module SystemInfo {
  import opened Options
  import opened Strings
  import opened Sorting
  import Paths

  const UNKNOWN := "Unknown"

  // ---------------------------------------------------------------- proton versions

  const PROTON := "proton"

  /** The characters `trim_start_matches(['-', ' ', '_'])` strips. */
  predicate IsVersionSeparator(c: char)
  {
    c == '-' || c == ' ' || c == '_'
  }

  /** `trim_start_matches(['-', ' ', '_'])`. */
  function TrimSeparators(s: string): (r: string)
    ensures |r| <= |s| && r == s[|s| - |r|..]
    ensures forall i :: 0 <= i < |s| - |r| ==> IsVersionSeparator(s[i])
    ensures r == [] || !IsVersionSeparator(r[0])
  {
    if s != [] && IsVersionSeparator(s[0]) then TrimSeparators(s[1..]) else s
  }

  lemma {:induction false} TrimSeparatorsOf(seps: string, version: string)
    requires forall i :: 0 <= i < |seps| ==> IsVersionSeparator(seps[i])
    requires version == [] || !IsVersionSeparator(version[0])
    ensures TrimSeparators(seps + version) == version
    decreases |seps|
  {
    if seps != [] {
      assert (seps + version)[1..] == seps[1..] + version;
      TrimSeparatorsOf(seps[1..], version);
    }
  }

  /**
   * `extract_version_from_name`: the text after the first `proton` in any
   * case, without leading separators; "Unknown" when there is no `proton` or
   * nothing after it. The byte index found in the lower-cased name is used on
   * the name itself, which is the same position for ASCII names.
   */
  function ExtractVersionFromName(name: string): (r: string)
    ensures r != []
    ensures !Contains(ToLower(name), PROTON) ==> r == UNKNOWN
    ensures r == UNKNOWN || (|r| <= |name| && r == name[|name| - |r|..])
  {
    match Find(ToLower(name), PROTON)
    case None => UNKNOWN
    case Some(i) => VersionAfter(name, i)
  }

  /** The version after a `proton` at `i`: the rest without leading separators, or "Unknown" when empty. */
  function VersionAfter(name: string, i: nat): (r: string)
    requires i + |PROTON| <= |name|
    ensures r != [] && (r == UNKNOWN || (|r| <= |name| && r == name[|name| - |r|..]))
  {
    var version := TrimSeparators(name[i + |PROTON|..]);
    if version != [] then version else UNKNOWN
  }

  /**
   * `read_proton_version_file`, after reading `<dir>/version`: the file
   * holds `"<timestamp> <name>"`, so two or more words give the words after
   * the first, joined by single spaces; a single word is returned trimmed;
   * an unreadable or blank file gives nothing.
   */
  function ReadProtonVersionFile(content: Option<string>): (r: Option<string>)
    ensures r.Some? <==> content.Some? && Trim(content.value) != []
    ensures r.Some? && |Words(content.value)| >= 2 ==> Words(r.value) == Words(content.value)[1..]
    ensures r.Some? && |Words(content.value)| < 2 ==> r.value == Words(content.value)[0]
  {
    match content
    case None => None
    case Some(c) =>
      var parts := Words(c);
      WordsEmptyIffTrimEmpty(c);
      if |parts| >= 2 then
        WordsOfJoin(parts[1..]);
        Some(Join(parts[1..], " "))
      else if Trim(c) != [] then
        SingleWordIsTrim(c);
        Some(Trim(c))
      else None
  }

  /** The version file's usual form gives back the name after the timestamp. */
  lemma VersionAfterTimestamp(stamp: string, words: seq<string>)
    requires stamp != [] && NoWhitespace(stamp)
    requires words != [] && forall i :: 0 <= i < |words| ==> words[i] != [] && NoWhitespace(words[i])
    ensures ReadProtonVersionFile(Some(stamp + " " + Join(words, " "))) == Some(Join(words, " "))
  {
    var c := stamp + " " + Join(words, " ");
    WordsAppendSpace(stamp, Join(words, " "));
    WordsOfJoin(words);
    assert Words(c) == [stamp] + words;
    assert Words(c)[1..] == words;
  }

  /** The version a found Proton directory is listed with. */
  function ProtonVersion(fileName: string, versionFile: Option<string>): (r: string)
    ensures r != []
    ensures ReadProtonVersionFile(versionFile).None? ==> r == ExtractVersionFromName(fileName)
  {
    match ReadProtonVersionFile(versionFile)
    case Some(v) =>
      assert Words(v) != [];
      v
    case None => ExtractVersionFromName(fileName)
  }

  /** A pattern absent from a prefix of `s` does not start before the prefix's last `|p| - 1` characters. */
  lemma NoMatchInPrefix(s: string, p: string, t: string, k: nat)
    requires p != [] && k + |p| - 1 <= |t| <= |s| && t == s[..|t|]
    requires !Contains(t, p)
    ensures forall j :: 0 <= j < k ==> !(p <= s[j..])
  {
    forall j | 0 <= j < k ensures !(p <= s[j..]) {
      if p <= s[j..] {
        assert t[j..j + |p|] == s[j..j + |p|] == p;
        ContainsAt(t, p, j);
      }
    }
  }

  lemma ToLowerSlice(s: string, i: nat, j: nat)
    requires i <= j <= |s|
    ensures ToLower(s)[i..j] == ToLower(s[i..j])
  {
    assert forall k :: 0 <= k < j - i ==> ToLower(s)[i..j][k] == ToLower(s[i..j])[k];
  }

  /**
   * `<prefix><Proton, in any case><separators><version>` names `version`,
   * as in `GE-Proton10-28`, `Proton 9.0` and `Proton-8.0`, when no earlier
   * `proton` ends inside the tag.
   */
  lemma ExtractVersionAfterTag(pre: string, tag: string, seps: string, version: string)
    requires ToLower(tag) == PROTON
    requires !Contains(ToLower(pre + tag[..|PROTON| - 1]), PROTON)
    requires forall i :: 0 <= i < |seps| ==> IsVersionSeparator(seps[i])
    requires version != [] && !IsVersionSeparator(version[0])
    ensures ExtractVersionFromName(pre + tag + seps + version) == version
  {
    var name := pre + tag + seps + version;
    var low := ToLower(name);
    var k := |pre|;
    var n := |PROTON|;
    assert low[k..k + n] == PROTON by {
      assert name[k..k + n] == tag;
      ToLowerSlice(name, k, k + n);
    }
    assert forall j :: 0 <= j < k ==> !(PROTON <= low[j..]) by {
      var head := pre + tag[..n - 1];
      assert name[..k + n - 1] == head;
      ToLowerSlice(name, 0, k + n - 1);
      NoMatchInPrefix(low, PROTON, ToLower(head), k);
    }
    FindFirstAt(low, PROTON, k);
    assert name[k + n..] == seps + version by {
      ConcatAssoc(pre + tag, seps, version);
      DropConcat(pre + tag, seps + version);
    }
    TrimSeparatorsOf(seps, version);
    ExtractVersionAt(name, k, version);
  }

  lemma ExtractVersionAt(name: string, k: nat, version: string)
    requires Find(ToLower(name), PROTON) == Some(k)
    requires k + |PROTON| <= |name| && TrimSeparators(name[k + |PROTON|..]) == version && version != []
    ensures ExtractVersionFromName(name) == version
  {
    assert VersionAfter(name, k) == version;
  }

  // ---------------------------------------------------------------- kernel tweaks

  /** `KernelTweaks`: the three sysctl-style values and whether each suits gaming. */
  datatype KernelTweaks = KernelTweaks(vmMaxMapCount: nat, vmMaxMapCountOk: bool,
                                       swappiness: nat, swappinessOk: bool,
                                       clocksource: string, clocksourceOk: bool)

  /** The Arch Linux default, the least `vm.max_map_count` counted as good. */
  const MIN_MAX_MAP_COUNT: nat := 1048576
  const DEFAULT_SWAPPINESS: nat := 60
  const MAX_GOOD_SWAPPINESS: nat := 10
  const TSC := "tsc"

  /** `s.trim().parse::<uN>()` on a file's content, with a default for an unreadable file or a bad number. */
  function ParsedOr(content: Option<string>, bits: nat, default: nat): (r: nat)
    ensures r < Pow2(bits) || r == default
  {
    match content
    case None => default
    case Some(s) => ParseUnsigned(Trim(s), bits).UnwrapOr(default)
  }

  predicate IsTsc(clocksource: string)
  {
    clocksource == TSC
  }

  /**
   * `get_kernel_tweaks` on the contents of `vm/max_map_count`,
   * `vm/swappiness` and `current_clocksource`.
   */
  function GetKernelTweaks(maxMapCount: Option<string>, swappiness: Option<string>,
                           clocksource: Option<string>): (r: KernelTweaks)
    ensures r.vmMaxMapCountOk <==> r.vmMaxMapCount >= MIN_MAX_MAP_COUNT
    ensures r.swappinessOk <==> r.swappiness <= MAX_GOOD_SWAPPINESS
    ensures r.clocksourceOk <==> IsTsc(r.clocksource)
    ensures r.vmMaxMapCount < Pow2(64) && (r.swappiness < Pow2(8) || r.swappiness == DEFAULT_SWAPPINESS)
  {
    var count := ParsedOr(maxMapCount, 64, 0);
    var swap := ParsedOr(swappiness, 8, DEFAULT_SWAPPINESS);
    var clock := match clocksource case None => UNKNOWN case Some(s) => Trim(s);
    KernelTweaks(count, count >= MIN_MAX_MAP_COUNT, swap, swap <= MAX_GOOD_SWAPPINESS, clock, IsTsc(clock))
  }

  /** Unreadable files give 0, 60 and "Unknown", and none of the three counts as good. */
  lemma UnreadableTweaksNotOk()
    ensures var r := GetKernelTweaks(None, None, None);
      r.vmMaxMapCount == 0 && r.swappiness == DEFAULT_SWAPPINESS && r.clocksource == UNKNOWN &&
      !r.vmMaxMapCountOk && !r.swappinessOk && !r.clocksourceOk
  {
  }

  /** A number written in the file, with trailing whitespace such as a newline, is the number parsed. */
  lemma ParsedNumber(n: nat, bits: nat, post: string, default: nat)
    requires n < Pow2(bits)
    requires forall i :: 0 <= i < |post| ==> IsWhitespace(post[i])
    ensures ParsedOr(Some(NatToString(n) + post), bits, default) == n
  {
    var d := NatToString(n);
    TrimDigitsBeforeWhitespace(d, post);
    ParseNatToString(n, bits);
  }

  /** `vm.max_map_count` is good exactly from 1048576 up, as a `u64`. */
  lemma MaxMapCountThreshold(n: nat, newline: string, swappiness: Option<string>, clocksource: Option<string>)
    requires n < Pow2(64) && (newline == [] || newline == "\n")
    ensures GetKernelTweaks(Some(NatToString(n) + newline), swappiness, clocksource).vmMaxMapCountOk <==> n >= MIN_MAX_MAP_COUNT
  {
    ParsedNumber(n, 64, newline, 0);
  }

  /** Swappiness up to 10 is good; a value beyond `u8` falls back to 60, which is not. */
  lemma SwappinessThreshold(n: nat, newline: string, maxMapCount: Option<string>, clocksource: Option<string>)
    requires newline == [] || newline == "\n"
    ensures var r := GetKernelTweaks(maxMapCount, Some(NatToString(n) + newline), clocksource);
      (n < Pow2(8) ==> r.swappiness == n && (r.swappinessOk <==> n <= MAX_GOOD_SWAPPINESS)) &&
      (n >= Pow2(8) ==> r.swappiness == DEFAULT_SWAPPINESS && !r.swappinessOk)
  {
    var d := NatToString(n);
    TrimDigitsBeforeWhitespace(d, newline);
    if n < Pow2(8) {
      ParseNatToString(n, 8);
    } else {
      assert IsAsciiDigit(d[0]);
      assert UnsignedDigits(d) == d;
    }
  }

  /** The clocksource is good exactly when the file holds `tsc`, whatever whitespace surrounds it. */
  lemma ClocksourceOk(content: Option<string>, maxMapCount: Option<string>, swappiness: Option<string>)
    ensures GetKernelTweaks(maxMapCount, swappiness, content).clocksourceOk <==> content.Some? && IsTsc(Trim(content.value))
  {
  }

  // ---------------------------------------------------------------- zram

  /**
   * Whether `s[start + 1..end]` can be taken: the first `]` comes after the
   * first `[`, or one of them is missing. Otherwise the slice panics.
   */
  predicate BracketsInOrder(s: string)
  {
    match FindChar(s, '[')
    case None => true
    case Some(a) =>
      match FindChar(s, ']')
      case None => true
      case Some(b) => a < b
  }

  /**
   * The active compression algorithm in `comp_algorithm`
   * (`lzo-rle lzo lz4 [zstd] deflate`): the text between the first `[` and
   * the first `]`, or else the first word.
   */
  function SelectedAlgorithm(s: string): (r: Option<string>)
    requires BracketsInOrder(s)
    ensures '[' in s && ']' in s ==> r.Some? && ']' !in r.value
    ensures r.None? ==> Words(s) == []
  {
    match FindChar(s, '[')
    case Some(a) =>
      (match FindChar(s, ']')
       case Some(b) =>
         assert s[a + 1..b] == s[..b][a + 1..];
         Some(s[a + 1..b])
       case None => if Words(s) == [] then None else Some(Words(s)[0]))
    case None => if Words(s) == [] then None else Some(Words(s)[0])
  }

  /** The bracketed name is the active one. */
  lemma BracketedAlgorithm(pre: string, algo: string, post: string)
    requires '[' !in pre && ']' !in pre && ']' !in algo
    ensures BracketsInOrder(pre + "[" + algo + "]" + post)
    ensures SelectedAlgorithm(pre + "[" + algo + "]" + post) == Some(algo)
  {
    var s := pre + "[" + algo + "]" + post;
    var a := |pre|;
    var b := |pre| + 1 + |algo|;
    assert s[a] == '[' && s[..a] == pre;
    FindCharAt(s, '[', a);
    assert s[b] == ']' && s[..b] == pre + "[" + algo;
    FindCharAt(s, ']', b);
    assert s[a + 1..b] == algo;
  }

  /** Without a `[` the first word is taken. */
  lemma WithoutOpeningBracket(s: string)
    requires '[' !in s
    ensures BracketsInOrder(s)
    ensures SelectedAlgorithm(s) == if Words(s) == [] then None else Some(Words(s)[0])
  {
    FindCharAbsent(s, '[');
  }

  /** Without brackets the first listed algorithm is taken. */
  lemma UnbracketedAlgorithm(first: string, rest: string)
    requires first != [] && NoWhitespace(first)
    requires '[' !in first + " " + rest
    ensures SelectedAlgorithm(first + " " + rest) == Some(first)
  {
    var s := first + " " + rest;
    WithoutOpeningBracket(s);
    WordsAppendSpace(first, rest);
    assert Words(s)[0] == first;
  }

  /** The algorithm reported: "Unknown" when the file is unreadable or blank. */
  function AlgorithmOf(content: Option<string>): (r: string)
    requires content.Some? ==> BracketsInOrder(content.value)
    ensures content.None? ==> r == UNKNOWN
  {
    match content
    case None => UNKNOWN
    case Some(s) => SelectedAlgorithm(s).UnwrapOr(UNKNOWN)
  }

  const ZRAM_DEVICE := "/dev/zram"

  /** A `/proc/swaps` line for a zram device that has the size and used columns. */
  predicate IsZramSwap(line: string)
  {
    Contains(line, ZRAM_DEVICE) && |Words(line)| >= 4
  }

  /** `parts[i].parse::<u64>().unwrap_or(0)`. */
  function U64Or0(s: string): (r: nat)
    ensures r < Pow2(64)
  {
    ParseUnsigned(s, 64).UnwrapOr(0)
  }

  /** `(used_kb, total_kb)` from the first zram line of `/proc/swaps`, or `(0, 0)`. */
  function SwapUsage(lines: seq<string>): (r: (nat, nat))
    ensures r.0 < Pow2(64) && r.1 < Pow2(64)
  {
    if lines == [] then (0, 0)
    else if IsZramSwap(lines[0]) then ZramUsage(lines[0])
    else SwapUsage(lines[1..])
  }

  /** `(used_kb, total_kb)` of one zram line: its fourth and third columns. */
  function ZramUsage(line: string): (r: (nat, nat))
    requires IsZramSwap(line)
    ensures r.0 < Pow2(64) && r.1 < Pow2(64)
  {
    var parts := Words(line);
    (U64Or0(parts[3]), U64Or0(parts[2]))
  }

  function SwapUsageOf(swaps: Option<string>): (nat, nat)
  {
    match swaps
    case None => (0, 0)
    case Some(s) => SwapUsage(Lines(s))
  }

  /** The zram line that counts is the first one; the lines after it do not matter. */
  lemma {:induction false} SwapUsageOfFirst(lines: seq<string>, k: nat)
    requires k < |lines| && IsZramSwap(lines[k])
    requires NoZramBefore(lines, k)
    ensures SwapUsage(lines) == ZramUsage(lines[k])
    decreases k
  {
    if k > 0 {
      NoZramBeforeTail(lines, k);
      assert lines[1..][k - 1] == lines[k];
      SwapUsageOfFirst(lines[1..], k - 1);
    }
  }

  /** No line before the `k`-th is a zram line. */
  predicate NoZramBefore(lines: seq<string>, k: nat)
    requires k <= |lines|
  {
    forall j :: 0 <= j < k ==> !IsZramSwap(lines[j])
  }

  lemma NoZramBeforeTail(lines: seq<string>, k: nat)
    requires 0 < k <= |lines| && NoZramBefore(lines, k)
    ensures !IsZramSwap(lines[0]) && NoZramBefore(lines[1..], k - 1)
  {
    assert forall j :: 0 <= j < k - 1 ==> lines[1..][j] == lines[j + 1];
  }

  /** Without a zram line nothing is in use. */
  lemma {:induction false} SwapUsageWithoutZram(lines: seq<string>)
    requires forall j :: 0 <= j < |lines| ==> !IsZramSwap(lines[j])
    ensures SwapUsage(lines) == (0, 0)
    decreases |lines|
  {
    if lines != [] {
      SwapUsageWithoutZram(lines[1..]);
    }
  }

  /** The swaps loop of `get_zram_info`, which stops at the first zram line with four columns. */
  method ScanSwaps(swaps: Option<string>) returns (usedKb: nat, totalKb: nat)
    ensures (usedKb, totalKb) == SwapUsageOf(swaps)
  {
    usedKb, totalKb := 0, 0;
    if swaps.Some? {
      var lines := Lines(swaps.value);
      var i := 0;
      while i < |lines|
        invariant 0 <= i <= |lines|
        invariant SwapUsage(lines[i..]) == SwapUsage(lines)
      {
        assert lines[i..][0] == lines[i];
        if Contains(lines[i], ZRAM_DEVICE) {
          var parts := Words(lines[i]);
          if |parts| >= 4 {
            totalKb := U64Or0(parts[2]);
            usedKb := U64Or0(parts[3]);
            break;
          }
        }
        assert lines[i..][1..] == lines[i + 1..];
        i := i + 1;
      }
    }
  }

  /** 2^64, the modulus of `u64` arithmetic. */
  const U64_MODULUS: nat := 0x1_0000_0000_0000_0000

  /** `(used_kb * 100) / total_kb` in `u64`; the product wraps around in a release build. */
  function UsagePercentValue(usedKb: nat, totalKb: nat): (v: nat)
    requires totalKb > 0
    ensures usedKb * 100 < U64_MODULUS ==> v * totalKb <= usedKb * 100 < (v + 1) * totalKb
    ensures usedKb * 100 < U64_MODULUS && usedKb <= totalKb ==> v <= 100
  {
    PercentFacts(usedKb, totalKb);
    ((usedKb * 100) % U64_MODULUS) / totalKb
  }

  lemma PercentFacts(usedKb: nat, totalKb: nat)
    requires totalKb > 0
    ensures var v := ((usedKb * 100) % U64_MODULUS) / totalKb;
      (usedKb * 100 < U64_MODULUS ==> v * totalKb <= usedKb * 100 < (v + 1) * totalKb) &&
      (usedKb * 100 < U64_MODULUS && usedKb <= totalKb ==> v <= 100)
  {
    var p := (usedKb * 100) % U64_MODULUS;
    var v := p / totalKb;
    if usedKb * 100 < U64_MODULUS {
      assert p == usedKb * 100;
      DivisionBounds(p, totalKb);
      if usedKb <= totalKb {
        PercentAtMost100(usedKb, totalKb, v);
      }
    }
  }

  lemma DivisionBounds(p: nat, d: nat)
    requires d > 0
    ensures (p / d) * d <= p < (p / d + 1) * d
  {
  }

  lemma PercentAtMost100(used: nat, total: nat, v: nat)
    requires 0 < total && used <= total && v * total <= used * 100
    ensures v <= 100
  {
    assert v * total <= 100 * total;
  }

  /** The `usage_percent` text: the percentage followed by `%`, and `0%` for an empty swap. */
  function UsagePercent(usedKb: nat, totalKb: nat): (r: string)
    ensures |r| >= 2 && r[|r| - 1] == '%' && AllAsciiDigits(r[..|r| - 1])
    ensures DigitsValue(r[..|r| - 1]) == if totalKb > 0 then UsagePercentValue(usedKb, totalKb) else 0
  {
    var digits := if totalKb > 0 then NatToString(UsagePercentValue(usedKb, totalKb)) else NatToString(0);
    assert (digits + "%")[..|digits|] == digits;
    digits + "%"
  }

  /** `ZramInfo`, with sizes in bytes. */
  datatype ZramInfo = ZramInfo(enabled: bool, diskSize: nat, algorithm: string, usedBytes: nat, usagePercent: string)

  /** `ZramInfo::default()`, reported when there is no zram device or it has no size. */
  const ZRAM_OFF := ZramInfo(false, 0, "", 0, "")

  /**
   * `get_zram_info` on whether `/sys/block/zram0` exists and the contents of
   * its `disksize` and `comp_algorithm` and of `/proc/swaps`.
   */
  method GetZramInfo(deviceExists: bool, disksize: Option<string>, compAlgorithm: Option<string>,
                     swaps: Option<string>) returns (info: ZramInfo)
    requires deviceExists && ParsedOr(disksize, 64, 0) > 0 && compAlgorithm.Some? ==> BracketsInOrder(compAlgorithm.value)
    ensures !deviceExists || ParsedOr(disksize, 64, 0) == 0 ==> info == ZRAM_OFF
    ensures deviceExists && ParsedOr(disksize, 64, 0) > 0 ==>
      info.enabled && info.diskSize == ParsedOr(disksize, 64, 0) && info.algorithm == AlgorithmOf(compAlgorithm) &&
      info.usedBytes == (SwapUsageOf(swaps).0 * 1024) % U64_MODULUS &&
      info.usagePercent == UsagePercent(SwapUsageOf(swaps).0, SwapUsageOf(swaps).1)
  {
    if !deviceExists {
      return ZRAM_OFF;
    }
    var size := ParsedOr(disksize, 64, 0);
    if size == 0 {
      return ZRAM_OFF;
    }
    var algorithm := AlgorithmOf(compAlgorithm);
    var usedKb, totalKb := ScanSwaps(swaps);
    info := ZramInfo(true, size, algorithm, (usedKb * 1024) % U64_MODULUS, UsagePercent(usedKb, totalKb));
  }

  // ---------------------------------------------------------------- GPUs

  /** An `lspci -mm` line whose class field is a VGA, 3D or display controller. */
  predicate IsGpuLine(line: string)
  {
    Contains(line, "\"VGA") || Contains(line, "\"3D") || Contains(line, "\"Display")
  }

  /**
   * The name pushed for a GPU line: `"<vendor> <device>"`, the fourth and
   * sixth pieces between quotes, or the line with its quotes removed when it
   * has fewer pieces.
   */
  function GpuName(line: string): (r: string)
    ensures '"' !in r
  {
    var parts := Split(line, '"');
    if |parts| >= 6 then parts[3] + " " + parts[5]
    else
      ReplaceCharRemovesIt(line, '"');
      Replace(line, "\"", "")
  }

  /** Quoted `lspci -mm` fields give the vendor and the device. */
  lemma GpuNameOfFields(fields: seq<string>)
    requires |fields| >= 6 && forall i :: 0 <= i < |fields| ==> '"' !in fields[i]
    ensures GpuName(Join(fields, "\"")) == fields[3] + " " + fields[5]
  {
    SplitJoin(fields, '"');
  }

  /** The names of the GPU lines, in order. */
  function GpuNames(lines: seq<string>): (r: seq<string>)
    ensures |r| <= |lines|
    ensures forall i :: 0 <= i < |r| ==> '"' !in r[i]
  {
    if lines == [] then []
    else
      var last := lines[|lines| - 1];
      GpuNames(lines[..|lines| - 1]) + if IsGpuLine(last) then [GpuName(last)] else []
  }

  /** Step 1 of `get_gpu_info`: the loop over `lspci -mm` that pushes each GPU. */
  method CollectGpus(lspci: string) returns (gpus: seq<string>)
    ensures gpus == GpuNames(Lines(lspci))
  {
    var lines := Lines(lspci);
    gpus := [];
    var i := 0;
    while i < |lines|
      invariant 0 <= i <= |lines|
      invariant gpus == GpuNames(lines[..i])
    {
      assert lines[..i + 1][..i] == lines[..i];
      if IsGpuLine(lines[i]) {
        gpus := gpus + [GpuName(lines[i])];
      }
      i := i + 1;
    }
    assert lines[..i] == lines;
  }

  const UNKNOWN_GPU := "Unknown GPU"

  /** A line of the list of several GPUs, numbered from 1. */
  function NumberedGpu(i: nat, gpu: string): string
  {
    "GPU " + NatToString(i + 1) + ": " + gpu
  }

  function NumberedGpus(gpus: seq<string>): (r: seq<string>)
    ensures |r| == |gpus| && forall i :: 0 <= i < |r| ==> r[i] == NumberedGpu(i, gpus[i])
  {
    seq(|gpus|, i requires 0 <= i < |gpus| => NumberedGpu(i, gpus[i]))
  }

  /** The `gpu_info` text: "Unknown GPU", the only GPU as it is, or one numbered line per GPU. */
  function GpuList(gpus: seq<string>): (r: string)
    ensures gpus == [] ==> r == UNKNOWN_GPU
    ensures |gpus| == 1 ==> r == gpus[0]
  {
    if gpus == [] then UNKNOWN_GPU
    else if |gpus| == 1 then gpus[0]
    else Join(NumberedGpus(gpus), "\n")
  }

  /** Several GPUs give back, line by line, `GPU <i>: <name>` for the i-th GPU counted from 1. */
  lemma GpuListLines(gpus: seq<string>)
    requires |gpus| >= 2 && forall i :: 0 <= i < |gpus| ==> '\n' !in gpus[i]
    ensures var lines := Split(GpuList(gpus), '\n');
      |lines| == |gpus| && forall i :: 0 <= i < |gpus| ==> lines[i] == NumberedGpu(i, gpus[i])
  {
    var numbered := NumberedGpus(gpus);
    forall i | 0 <= i < |numbered| ensures '\n' !in numbered[i] {
      var digits := NatToString(i + 1);
      assert forall k :: 0 <= k < |digits| ==> IsAsciiDigit(digits[k]);
      assert numbered[i] == "GPU " + digits + ": " + gpus[i];
    }
    SplitJoin(numbered, '\n');
  }

  // ---------------------------------------------------------------- disks

  /** `DiskInfo`: one row of `df --output=target,size,used,pcent`. */
  datatype DiskInfo = DiskInfo(mountPoint: string, size: string, used: string, usagePercent: string)

  /** System mounts left out of the report. */
  predicate IsSkippedMount(m: string)
  {
    StartsWith(m, "/snap") || StartsWith(m, "/boot") || m == "/efi"
  }

  /** A `df` row: four or more columns and a mount point that is not skipped. */
  function DiskRow(line: string): (r: Option<DiskInfo>)
    ensures r.Some? <==> |Words(line)| >= 4 && !IsSkippedMount(Words(line)[0])
    ensures r.Some? ==> r.value.mountPoint == Words(line)[0] && !IsSkippedMount(r.value.mountPoint)
  {
    var parts := Words(line);
    if |parts| >= 4 && !IsSkippedMount(parts[0]) then Some(DiskInfo(parts[0], parts[1], parts[2], parts[3]))
    else None
  }

  function DiskRows(lines: seq<string>): (r: seq<DiskInfo>)
    ensures |r| <= |lines|
    ensures forall i :: 0 <= i < |r| ==> !IsSkippedMount(r[i].mountPoint)
  {
    if lines == [] then []
    else
      var last := lines[|lines| - 1];
      DiskRows(lines[..|lines| - 1]) + match DiskRow(last) case Some(d) => [d] case None => []
  }

  /** `lines().skip(1)`: the rows after the header. */
  function AfterHeader(output: string): seq<string>
  {
    var lines := Lines(output);
    if lines == [] then [] else lines[1..]
  }

  /** `get_disk_info` on the output of `df`, or `None` when it cannot be run. */
  method GetDiskInfo(output: Option<string>) returns (disks: seq<DiskInfo>)
    ensures disks == match output case None => [] case Some(o) => DiskRows(AfterHeader(o))
  {
    disks := [];
    if output.Some? {
      var rows := AfterHeader(output.value);
      var i := 0;
      while i < |rows|
        invariant 0 <= i <= |rows|
        invariant disks == DiskRows(rows[..i])
      {
        assert rows[..i + 1][..i] == rows[..i];
        var parts := Words(rows[i]);
        if |parts| >= 4 {
          var mountPoint := parts[0];
          if !IsSkippedMount(mountPoint) {
            disks := disks + [DiskInfo(mountPoint, parts[1], parts[2], parts[3])];
          }
        }
        i := i + 1;
      }
      assert rows[..i] == rows;
    }
  }

  /** A row of four columns is reported as those columns unless its mount point is skipped. */
  lemma DiskRowOfColumns(mount: string, size: string, used: string, pcent: string)
    requires forall w :: w in [mount, size, used, pcent] ==> w != [] && NoWhitespace(w)
    ensures DiskRow(Join([mount, size, used, pcent], " ")) ==
      if IsSkippedMount(mount) then None else Some(DiskInfo(mount, size, used, pcent))
  {
    var ws := [mount, size, used, pcent];
    assert forall i :: 0 <= i < |ws| ==> ws[i] in ws;
    WordsOfJoin(ws);
  }

  /** The header line is never a disk, whatever it holds. */
  lemma DfHeaderSkipped(header: string, rest: string)
    requires '\n' !in header
    ensures AfterHeader(header + "\n" + rest) == Lines(rest)
  {
    var s := header + "\n" + rest;
    assert s[|header|] == '\n' && s[..|header|] == header;
    FindCharAt(s, '\n', |header|);
    assert s[|header| + 1..] == rest;
  }

  /** Some row gives the disk `d`. */
  predicate SomeRowGives(lines: seq<string>, d: DiskInfo)
  {
    exists k :: 0 <= k < |lines| && DiskRow(lines[k]) == Some(d)
  }

  /** A disk is reported exactly when some row after the header gives it. */
  lemma {:induction false} DiskRowsMembers(lines: seq<string>, d: DiskInfo)
    ensures d in DiskRows(lines) <==> SomeRowGives(lines, d)
    decreases |lines|
  {
    if lines != [] {
      DiskRowsMembers(lines[..|lines| - 1], d);
      DiskRowsSnoc(lines, d);
      SomeRowGivesSnoc(lines, d);
    }
  }

  lemma DiskRowsSnoc(lines: seq<string>, d: DiskInfo)
    requires lines != []
    ensures d in DiskRows(lines) <==> d in DiskRows(lines[..|lines| - 1]) || DiskRow(lines[|lines| - 1]) == Some(d)
  {
  }

  lemma SomeRowGivesSnoc(lines: seq<string>, d: DiskInfo)
    requires lines != []
    ensures SomeRowGives(lines, d) <==> SomeRowGives(lines[..|lines| - 1], d) || DiskRow(lines[|lines| - 1]) == Some(d)
  {
    ExistsSnoc(lines, lines[..|lines| - 1], DiskRow, d);
  }

  lemma ExistsSnoc<T, U>(xs: seq<T>, init: seq<T>, f: T -> Option<U>, d: U)
    requires xs != [] && init == xs[..|xs| - 1]
    ensures (exists k :: 0 <= k < |xs| && f(xs[k]) == Some(d)) <==>
      (exists k :: 0 <= k < |init| && f(init[k]) == Some(d)) || f(xs[|xs| - 1]) == Some(d)
  {
    if k :| 0 <= k < |xs| && f(xs[k]) == Some(d) {
      if k < |init| {
        assert init[k] == xs[k];
      }
    }
    if k :| 0 <= k < |init| && f(init[k]) == Some(d) {
      assert xs[k] == init[k];
    }
  }

  // ---------------------------------------------------------------- OS name

  const PRETTY_NAME_KEY := "PRETTY_NAME="
  const DEFAULT_OS_NAME := "Linux"

  predicate IsPrettyNameLine(line: string)
  {
    StartsWith(line, PRETTY_NAME_KEY)
  }

  /** `trim_start_matches("PRETTY_NAME=").trim_matches('"')`. */
  function PrettyNameValue(line: string): (r: string)
    ensures r == [] || (r[0] != '"' && r[|r| - 1] != '"')
  {
    TrimMatchesChar(TrimStartMatches(line, PRETTY_NAME_KEY), '"')
  }

  /** The value of the first `PRETTY_NAME=` line. */
  function FirstPrettyName(lines: seq<string>): (r: Option<string>)
    ensures r.None? <==> forall k :: 0 <= k < |lines| ==> !IsPrettyNameLine(lines[k])
  {
    if lines == [] then None
    else if IsPrettyNameLine(lines[0]) then Some(PrettyNameValue(lines[0]))
    else
      var r := FirstPrettyName(lines[1..]);
      assert forall k :: 1 <= k < |lines| ==> lines[k] == lines[1..][k - 1];
      r
  }

  /** `get_os_name` on `/etc/os-release`: the first `PRETTY_NAME`, else "Linux". */
  function GetOsName(osRelease: Option<string>): string
  {
    match osRelease
    case None => DEFAULT_OS_NAME
    case Some(c) => FirstPrettyName(Lines(c)).UnwrapOr(DEFAULT_OS_NAME)
  }

  /** The first `PRETTY_NAME=` line decides, whatever follows it. */
  lemma {:induction false} OsNameFromFirstLine(content: string, k: nat)
    requires k < |Lines(content)| && IsPrettyNameLine(Lines(content)[k])
    requires forall j :: 0 <= j < k ==> !IsPrettyNameLine(Lines(content)[j])
    ensures GetOsName(Some(content)) == PrettyNameValue(Lines(content)[k])
  {
    FirstPrettyNameAt(Lines(content), k);
  }

  lemma {:induction false} FirstPrettyNameAt(lines: seq<string>, k: nat)
    requires k < |lines| && IsPrettyNameLine(lines[k])
    requires forall j :: 0 <= j < k ==> !IsPrettyNameLine(lines[j])
    ensures FirstPrettyName(lines) == Some(PrettyNameValue(lines[k]))
    decreases k
  {
    if k > 0 {
      assert !IsPrettyNameLine(lines[0]);
      FirstPrettyNameAt(lines[1..], k - 1);
    }
  }

  /** Without a `PRETTY_NAME=` line, or without the file, the name is "Linux". */
  lemma OsNameDefault(osRelease: Option<string>)
    requires osRelease.Some? ==> forall k :: 0 <= k < |Lines(osRelease.value)| ==> !IsPrettyNameLine(Lines(osRelease.value)[k])
    ensures GetOsName(osRelease) == DEFAULT_OS_NAME
  {
  }

  /** `PRETTY_NAME="<name>"` gives the name without its quotes. */
  lemma QuotedPrettyName(name: string)
    requires name == [] || (name[0] != '"' && name[|name| - 1] != '"')
    ensures PrettyNameValue(PRETTY_NAME_KEY + "\"" + name + "\"") == name
  {
    var quoted := "\"" + name + "\"";
    assert quoted[0] != PRETTY_NAME_KEY[0];
    var line := PRETTY_NAME_KEY + quoted;
    assert PRETTY_NAME_KEY + "\"" + name + "\"" == line;
    TrimStartMatchesOnce(PRETTY_NAME_KEY, quoted);
    assert PrettyNameValue(line) == TrimMatchesChar(quoted, '"');
    assert quoted == ['"'] + name + ['"'];
    TrimMatchesCharAround('"', name);
  }

  // ---------------------------------------------------------------- the Proton list

  /** The Steam directories searched under the home directory, in order. */
  const HOME_SEARCH_PATHS: seq<string> := [
    ".steam/steam/steamapps/common",
    ".local/share/Steam/steamapps/common",
    ".steam/root/compatibilitytools.d",
    ".steam/steam/compatibilitytools.d",
    ".local/share/Steam/compatibilitytools.d",
    ".steam/compatibilitytools.d",
    ".local/share/Steam/compatibility-tools.d",
    ".var/app/com.valvesoftware.Steam/data/Steam/compatibilitytools.d",
    "snap/steam/common/.steam/steam/compatibilitytools.d"
  ]

  /** The system-wide directories searched after them. */
  const SYSTEM_SEARCH_PATHS: seq<Paths.Path> := [
    "/usr/share/steam/compatibilitytools.d",
    "/usr/local/share/steam/compatibilitytools.d"
  ]

  /** `search_paths`: the home directories (`$HOME`, or `/` when unset) and then the system ones. */
  function SearchPaths(home: Option<string>): (r: seq<Paths.Path>)
    ensures |r| == |HOME_SEARCH_PATHS| + |SYSTEM_SEARCH_PATHS|
    ensures forall i :: 0 <= i < |HOME_SEARCH_PATHS| ==> r[i] == Paths.Join(home.UnwrapOr("/"), HOME_SEARCH_PATHS[i])
    ensures r[|HOME_SEARCH_PATHS|..] == SYSTEM_SEARCH_PATHS
  {
    var h := home.UnwrapOr("/");
    seq(|HOME_SEARCH_PATHS|, i requires 0 <= i < |HOME_SEARCH_PATHS| => Paths.Join(h, HOME_SEARCH_PATHS[i]))
      + SYSTEM_SEARCH_PATHS
  }

  /**
   * An entry of a searched directory: its name when it is valid Unicode, and
   * the content of its `version` file when that can be read.
   */
  datatype CompatEntry = CompatEntry(fileName: Option<string>, versionFile: Option<string>)

  /** The directories whose lower-cased name contains `proton` are Proton builds. */
  predicate IsProtonName(name: string)
  {
    Contains(ToLower(name), PROTON)
  }

  /** What one entry pushes: its name and version, when it is a Proton build. */
  function EntryVersion(e: CompatEntry): (r: seq<(string, string)>)
    ensures |r| <= 1
    ensures r != [] <==> e.fileName.Some? && IsProtonName(e.fileName.value)
    ensures r != [] ==> r[0] == (e.fileName.value, ProtonVersion(e.fileName.value, e.versionFile))
  {
    match e.fileName
    case Some(n) => if IsProtonName(n) then [(n, ProtonVersion(n, e.versionFile))] else []
    case None => []
  }

  /** The pairs the loops push for a run of entries, in order. */
  function FoundVersions(entries: seq<CompatEntry>): (r: seq<(string, string)>)
    ensures |r| <= |entries|
  {
    if entries == [] then [] else FoundVersions(entries[..|entries| - 1]) + EntryVersion(entries[|entries| - 1])
  }

  /** The entries of the searched directories, in search order; a directory that cannot be read has none. */
  function Listed(paths: seq<Paths.Path>, listing: map<Paths.Path, seq<CompatEntry>>): seq<CompatEntry>
  {
    if paths == [] then []
    else
      var p := paths[|paths| - 1];
      Listed(paths[..|paths| - 1], listing) + if p in listing then listing[p] else []
  }

  lemma FoundVersionsAppend(a: seq<CompatEntry>, b: seq<CompatEntry>)
    ensures FoundVersions(a + b) == FoundVersions(a) + FoundVersions(b)
    decreases |b|
  {
    if b != [] {
      var init := b[..|b| - 1];
      assert (a + b)[..|a + b| - 1] == a + init;
      FoundVersionsAppend(a, init);
      ConcatAssoc(FoundVersions(a), FoundVersions(init), EntryVersion(b[|b| - 1]));
    } else {
      assert a + b == a;
    }
  }

  /** `sort_by(|a, b| a.0.cmp(&b.0))`. */
  function DirNameOrder(a: (string, string), b: (string, string)): Ordering
  {
    StrCmp(a.0, b.0)
  }

  /** `dedup_by(|a, b| a.0 == b.0)`. */
  predicate SameDirName(a: (string, string), b: (string, string))
  {
    a.0 == b.0
  }

  /** The list returned: sorted by directory name, one entry per name. */
  function ProtonList(found: seq<(string, string)>): seq<(string, string)>
  {
    DedupBy(SortBy(found, DirNameOrder), SameDirName)
  }

  /**
   * `get_proton_versions` on the home directory and the listing of each
   * directory that can be read.
   */
  method GetProtonVersions(home: Option<string>, listing: map<Paths.Path, seq<CompatEntry>>)
    returns (versions: seq<(string, string)>)
    ensures versions == ProtonList(FoundVersions(Listed(SearchPaths(home), listing)))
  {
    var searchPaths := SearchPaths(home);
    versions := [];
    var i := 0;
    while i < |searchPaths|
      invariant 0 <= i <= |searchPaths|
      invariant versions == FoundVersions(Listed(searchPaths[..i], listing))
    {
      var path := searchPaths[i];
      var entries := if path in listing then listing[path] else [];
      ListedStep(searchPaths, listing, i);
      FoundVersionsAppend(Listed(searchPaths[..i], listing), entries);
      versions := PushProtonEntries(versions, entries);
      i := i + 1;
    }
    assert searchPaths[..i] == searchPaths;
    versions := SortBy(versions, DirNameOrder);
    versions := DedupBy(versions, SameDirName);
  }

  lemma ListedStep(paths: seq<Paths.Path>, listing: map<Paths.Path, seq<CompatEntry>>, i: nat)
    requires i < |paths|
    ensures Listed(paths[..i + 1], listing) ==
      Listed(paths[..i], listing) + if paths[i] in listing then listing[paths[i]] else []
  {
    assert paths[..i + 1][..i] == paths[..i];
  }

  /** The inner loop: each Proton entry of one directory is pushed. */
  method PushProtonEntries(versions: seq<(string, string)>, entries: seq<CompatEntry>)
    returns (r: seq<(string, string)>)
    ensures r == versions + FoundVersions(entries)
  {
    r := versions;
    var j := 0;
    while j < |entries|
      invariant 0 <= j <= |entries|
      invariant r == versions + FoundVersions(entries[..j])
    {
      assert entries[..j + 1][..j] == entries[..j];
      ConcatAssoc(versions, FoundVersions(entries[..j]), EntryVersion(entries[j]));
      match entries[j].fileName {
        case Some(n) =>
          if IsProtonName(n) {
            r := r + [(n, ProtonVersion(n, entries[j].versionFile))];
          }
        case None =>
      }
      j := j + 1;
    }
    assert entries[..j] == entries;
  }

  lemma DirNameOrderIsTotal()
    ensures Antisymmetric(DirNameOrder) && Transitive(DirNameOrder)
    ensures forall a, b :: SameDirName(a, b) <==> DirNameOrder(a, b) == Equal
  {
    forall a, b ensures DirNameOrder(a, b) == DirNameOrder(b, a).Reverse() && (SameDirName(a, b) <==> DirNameOrder(a, b) == Equal) {
      StrCmpAntisymmetric(a.0, b.0);
      StrCmpEqual(a.0, b.0);
    }
    forall a, b, c | DirNameOrder(a, b) != Greater && DirNameOrder(b, c) != Greater
      ensures DirNameOrder(a, c) != Greater
    {
      StrCmpTransitive(a.0, b.0, c.0);
    }
  }

  /** The list is strictly increasing by name, so no name appears twice. */
  lemma ProtonListSortedDistinct(found: seq<(string, string)>)
    ensures var r := ProtonList(found);
      forall i, j :: 0 <= i < j < |r| ==> StrCmp(r[i].0, r[j].0) == Less && r[i].0 != r[j].0
  {
    DirNameOrderIsTotal();
    SortDedupDistinct(found, DirNameOrder, SameDirName);
  }

  /** Every listed pair is one that was found. */
  lemma ProtonListFromFound(found: seq<(string, string)>)
    ensures forall p :: p in ProtonList(found) ==> p in found
  {
    var sorted := SortBy(found, DirNameOrder);
    SortByPermutes(found, DirNameOrder);
    DedupPermutesSubset(sorted, SameDirName);
    forall p | p in ProtonList(found) ensures p in found {
      assert p in multiset(ProtonList(found));
    }
  }

  /** Every name found is listed. */
  lemma ProtonListCoversNames(found: seq<(string, string)>, k: nat)
    requires k < |found|
    ensures exists j :: 0 <= j < |ProtonList(found)| && ProtonList(found)[j].0 == found[k].0
  {
    var sorted := SortBy(found, DirNameOrder);
    SortByPermutes(found, DirNameOrder);
    assert found[k] in multiset(sorted);
    var i :| 0 <= i < |sorted| && sorted[i] == found[k];
    DedupRepresents(sorted, SameDirName, i);
    var r := ProtonList(found);
    var j :| 0 <= j < |r| && (r[j] == sorted[i] || SameDirName(sorted[i], r[j]));
    assert r[j].0 == found[k].0;
  }

  /** An entry that lists as `(name, version)`. */
  predicate ListsAs(e: CompatEntry, name: string, version: string)
  {
    e.fileName == Some(name) && IsProtonName(name) && version == ProtonVersion(name, e.versionFile)
  }

  lemma EntryListsAs(e: CompatEntry, name: string, version: string)
    ensures ListsAs(e, name, version) <==> (name, version) in EntryVersion(e)
  {
  }

  /** What is found is exactly the Proton builds among the entries, each with its version. */
  lemma FoundVersionsMembers(entries: seq<CompatEntry>, name: string, version: string)
    ensures (name, version) in FoundVersions(entries) <==>
      exists k :: 0 <= k < |entries| && ListsAs(entries[k], name, version)
  {
    if (name, version) in FoundVersions(entries) {
      var k := FoundVersionsSound(entries, name, version);
    }
    forall k | 0 <= k < |entries| && ListsAs(entries[k], name, version)
      ensures (name, version) in FoundVersions(entries)
    {
      FoundVersionsComplete(entries, name, version, k);
    }
  }

  lemma {:induction false} FoundVersionsSound(entries: seq<CompatEntry>, name: string, version: string)
    returns (k: nat)
    requires (name, version) in FoundVersions(entries)
    ensures k < |entries| && ListsAs(entries[k], name, version)
    decreases |entries|
  {
    assert entries != [];
    var init := entries[..|entries| - 1];
    var last := entries[|entries| - 1];
    assert FoundVersions(entries) == FoundVersions(init) + EntryVersion(last);
    EntryListsAs(last, name, version);
    if (name, version) in FoundVersions(init) {
      k := FoundVersionsSound(init, name, version);
      assert entries[k] == init[k];
    } else {
      k := |entries| - 1;
    }
  }

  lemma {:induction false} FoundVersionsComplete(entries: seq<CompatEntry>, name: string, version: string, k: nat)
    requires k < |entries| && ListsAs(entries[k], name, version)
    ensures (name, version) in FoundVersions(entries)
    decreases |entries|
  {
    var init := entries[..|entries| - 1];
    var last := entries[|entries| - 1];
    if k < |init| {
      assert init[k] == entries[k];
      FoundVersionsComplete(init, name, version, k);
    } else {
      EntryListsAs(last, name, version);
    }
  }
}
