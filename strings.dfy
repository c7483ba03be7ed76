// Rust's `str` operations used by the launcher, on strings as sequences of
// Unicode scalar values. Case folding is ASCII only.
module Strings {
  import opened Options

  /** Rust's `char::is_whitespace`: the Unicode White_Space property. */
  predicate IsWhitespace(c: char)
  {
    ('\t' <= c <= '\r') || c == ' ' || c == '\U{85}' || c == '\U{A0}' || c == '\U{1680}'
    || ('\U{2000}' <= c <= '\U{200A}') || c == '\U{2028}' || c == '\U{2029}' || c == '\U{202F}'
    || c == '\U{205F}' || c == '\U{3000}'
  }

  predicate IsAsciiDigit(c: char)
  {
    '0' <= c <= '9'
  }

  predicate IsAsciiAlpha(c: char)
  {
    ('a' <= c <= 'z') || ('A' <= c <= 'Z')
  }

  predicate IsAsciiAlphanumeric(c: char)
  {
    IsAsciiAlpha(c) || IsAsciiDigit(c)
  }

  predicate AllAsciiDigits(s: string)
  {
    forall i :: 0 <= i < |s| ==> IsAsciiDigit(s[i])
  }

  predicate NoWhitespace(s: string)
  {
    forall i :: 0 <= i < |s| ==> !IsWhitespace(s[i])
  }

  // ---------------------------------------------------------------- case

  function LowerChar(c: char): char
  {
    if 'A' <= c <= 'Z' then (c as int + 32) as char else c
  }

  function UpperChar(c: char): char
  {
    if 'a' <= c <= 'z' then (c as int - 32) as char else c
  }

  /** `to_ascii_lowercase`, also standing for `to_lowercase` on ASCII text. */
  function ToLower(s: string): (r: string)
    ensures |r| == |s|
    ensures forall i :: 0 <= i < |s| ==> r[i] == LowerChar(s[i])
  {
    seq(|s|, i requires 0 <= i < |s| => LowerChar(s[i]))
  }

  lemma ToLowerIdempotent(s: string)
    ensures ToLower(ToLower(s)) == ToLower(s)
  {
    assert forall i :: 0 <= i < |s| ==> ToLower(ToLower(s))[i] == ToLower(s)[i];
  }

  lemma ToLowerAppend(a: string, b: string)
    ensures ToLower(a + b) == ToLower(a) + ToLower(b)
  {
    assert forall i :: 0 <= i < |a| + |b| ==> ToLower(a + b)[i] == (ToLower(a) + ToLower(b))[i];
  }

  /** `eq_ignore_ascii_case`. */
  predicate EqIgnoreCase(a: string, b: string)
  {
    ToLower(a) == ToLower(b)
  }

  // ---------------------------------------------------------------- prefixes

  predicate StartsWith(s: string, p: string)
  {
    p <= s
  }

  predicate EndsWith(s: string, p: string)
  {
    |p| <= |s| && s[|s| - |p|..] == p
  }

  /** `strip_prefix`. */
  function StripPrefix(s: string, p: string): (r: Option<string>)
    ensures r.Some? <==> StartsWith(s, p)
    ensures r.Some? ==> s == p + r.value
  {
    if p <= s then Some(s[|p|..]) else None
  }

  /** `trim_start_matches(p)`: removes every leading repetition of `p`. */
  function TrimStartMatches(s: string, p: string): (r: string)
    ensures |r| <= |s| && r == s[|s| - |r|..]
    ensures p != [] ==> !StartsWith(r, p)
    decreases |s|
  {
    if p != [] && p <= s then TrimStartMatches(s[|p|..], p) else s
  }

  /** `trim_end_matches(p)`: removes every trailing repetition of `p`. */
  function TrimEndMatches(s: string, p: string): (r: string)
    ensures |r| <= |s| && r == s[..|r|]
    ensures p != [] ==> !EndsWith(r, p)
    decreases |s|
  {
    if p != [] && EndsWith(s, p) then TrimEndMatches(s[..|s| - |p|], p) else s
  }

  /** One leading `p` goes when what follows does not start with `p`. */
  lemma TrimStartMatchesOnce(p: string, rest: string)
    requires p != [] && !(p <= rest)
    ensures TrimStartMatches(p + rest, p) == rest
  {
    assert p <= p + rest && (p + rest)[|p|..] == rest;
  }

  /** `trim_matches(c)` removes one `c` on each side of text that has none at its ends. */
  lemma TrimMatchesCharAround(c: char, s: string)
    requires s == [] || (s[0] != c && s[|s| - 1] != c)
    ensures TrimMatchesChar([c] + s + [c], c) == s
  {
    var t := [c] + s + [c];
    assert [c] <= t && t[1..] == s + [c];
    if s == [] {
      assert [c] <= s + [c] && (s + [c])[1..] == [];
    } else {
      assert (s + [c])[0] == s[0] && !([c] <= s + [c]);
      assert TrimStartMatches(t, [c]) == s + [c];
      assert EndsWith(s + [c], [c]) && (s + [c])[..|s|] == s;
      assert !EndsWith(s, [c]);
      assert TrimEndMatches(s + [c], [c]) == TrimEndMatches(s, [c]) == s;
    }
  }

  /** `trim_matches(c)` keeps text that has no `c` at its ends. */
  lemma TrimMatchesCharNone(c: char, s: string)
    requires s == [] || (s[0] != c && s[|s| - 1] != c)
    ensures TrimMatchesChar(s, c) == s
  {
    TrimStartMatchesNone(s, [c]);
    assert s != [] ==> s[|s| - 1..] == [s[|s| - 1]];
    TrimEndMatchesNone(s, [c]);
  }

  lemma TrimStartMatchesNone(s: string, p: string)
    requires !(p <= s)
    ensures TrimStartMatches(s, p) == s
  {
  }

  lemma TrimEndMatchesNone(s: string, p: string)
    requires !EndsWith(s, p)
    ensures TrimEndMatches(s, p) == s
  {
  }

  /** `trim_matches(c)` for a single character. */
  function TrimMatchesChar(s: string, c: char): (r: string)
    ensures r == [] || (r[0] != c && r[|r| - 1] != c)
  {
    TrimEndMatches(TrimStartMatches(s, [c]), [c])
  }

  // ---------------------------------------------------------------- trim

  /** `trim_start`. */
  function TrimStart(s: string): (r: string)
    ensures |r| <= |s| && r == s[|s| - |r|..]
    ensures forall i :: 0 <= i < |s| - |r| ==> IsWhitespace(s[i])
    ensures r == [] || !IsWhitespace(r[0])
  {
    if s != [] && IsWhitespace(s[0]) then TrimStart(s[1..]) else s
  }

  /** `trim_end`. */
  function TrimEnd(s: string): (r: string)
    ensures |r| <= |s| && r == s[..|r|]
    ensures forall i :: |r| <= i < |s| ==> IsWhitespace(s[i])
    ensures r == [] || !IsWhitespace(r[|r| - 1])
  {
    if s != [] && IsWhitespace(s[|s| - 1]) then TrimEnd(s[..|s| - 1]) else s
  }

  /** `trim`: the text between the leading and the trailing whitespace. */
  function Trim(s: string): (r: string)
    ensures |r| <= |s|
    ensures r == [] || (!IsWhitespace(r[0]) && !IsWhitespace(r[|r| - 1]))
  {
    TrimEnd(TrimStart(s))
  }

  /** `trim` returns a slice of its input, so it adds no character. */
  lemma TrimAddsNothing(s: string, c: char)
    requires c !in s
    ensures c !in Trim(s)
  {
    var t := TrimStart(s);
    assert t == s[|s| - |t|..];
    assert c !in t;
    assert Trim(s) == t[..|Trim(s)|];
  }

  lemma TrimOfNoWhitespace(s: string)
    requires NoWhitespace(s)
    ensures Trim(s) == s
  {
  }

  lemma TrimIdempotent(s: string)
    ensures Trim(Trim(s)) == Trim(s)
  {
    var t := Trim(s);
    if t != [] {
      assert TrimStart(t) == t;
      assert TrimEnd(t) == t;
    }
  }

  /** Text whose ends are not whitespace is its own trim. */
  lemma TrimOfEnds(s: string)
    requires s != [] && !IsWhitespace(s[0]) && !IsWhitespace(s[|s| - 1])
    ensures Trim(s) == s
  {
    assert TrimStart(s) == s;
  }

  /** Trimming drops one trailing whitespace character after trimmed text. */
  lemma TrimDropsLastWhitespace(a: string, w: char)
    requires a != [] && Trim(a) == a && IsWhitespace(w)
    ensures Trim(a + [w]) == a
  {
    assert TrimStart(a + [w]) == a + [w];
    assert (a + [w])[..|a|] == a;
    assert TrimEnd(a) == a;
  }

  /** Trimming skips one leading whitespace character before trimmed text. */
  lemma TrimSkipsFirstWhitespace(w: char, a: string)
    requires a != [] && Trim(a) == a && IsWhitespace(w)
    ensures Trim([w] + a) == a
  {
    assert ([w] + a)[1..] == a;
    assert TrimStart(a) == a;
  }

  // ---------------------------------------------------------------- search

  /** `find`: the first index at which `p` occurs. */
  function Find(s: string, p: string): (r: Option<nat>)
    ensures r.Some? ==> r.value + |p| <= |s| && s[r.value..r.value + |p|] == p
    ensures r.Some? ==> forall j :: 0 <= j < r.value ==> !(p <= s[j..])
    ensures r.None? ==> forall j :: 0 <= j <= |s| ==> !(p <= s[j..])
    decreases |s|
  {
    if p <= s then Some(0)
    else if s == [] then None
    else
      match Find(s[1..], p)
      case None =>
        NotFoundShift(s, p);
        None
      case Some(k) =>
        FoundShift(s, p, k);
        Some(k + 1)
  }

  lemma NotFoundShift(s: string, p: string)
    requires s != [] && !(p <= s)
    requires forall j :: 0 <= j <= |s[1..]| ==> !(p <= s[1..][j..])
    ensures forall j :: 0 <= j <= |s| ==> !(p <= s[j..])
  {
    forall j | 1 <= j <= |s| ensures !(p <= s[j..]) {
      assert s[j..] == s[1..][j - 1..];
    }
  }

  lemma FoundShift(s: string, p: string, k: nat)
    requires s != [] && !(p <= s)
    requires k + |p| <= |s[1..]| && s[1..][k..k + |p|] == p
    requires forall j :: 0 <= j < k ==> !(p <= s[1..][j..])
    ensures k + 1 + |p| <= |s| && s[k + 1..k + 1 + |p|] == p
    ensures forall j :: 0 <= j < k + 1 ==> !(p <= s[j..])
  {
    assert s[1..][k..k + |p|] == s[k + 1..k + 1 + |p|];
    forall j | 1 <= j < k + 1 ensures !(p <= s[j..]) {
      assert s[j..] == s[1..][j - 1..];
    }
  }

  /** `contains` for a string pattern. */
  predicate Contains(s: string, p: string)
  {
    Find(s, p).Some?
  }

  lemma ContainsAt(s: string, p: string, i: nat)
    requires i + |p| <= |s| && s[i..i + |p|] == p
    ensures Contains(s, p)
  {
    assert p <= s[i..];
  }

  lemma ContainsWitness(s: string, p: string) returns (i: nat)
    requires Contains(s, p)
    ensures i + |p| <= |s| && s[i..i + |p|] == p
  {
    i := Find(s, p).value;
  }

  /** An occurrence with none before it is the one `find` returns. */
  lemma FindFirstAt(s: string, p: string, k: nat)
    requires k + |p| <= |s| && s[k..k + |p|] == p
    requires forall j :: 0 <= j < k ==> !(p <= s[j..])
    ensures Find(s, p) == Some(k)
  {
    assert s[k..][..|p|] == s[k..k + |p|];
    assert p <= s[k..];
    if Find(s, p).Some? {
      var v := Find(s, p).value;
      if v < k {
        PrefixAt(s, p, v);
      }
    }
  }

  lemma PrefixAt(s: string, p: string, j: nat)
    requires j + |p| <= |s| && s[j..j + |p|] == p
    ensures p <= s[j..]
  {
    assert s[j..][..|p|] == s[j..j + |p|];
  }

  /** Index of the first occurrence of character `c`. */
  function FindChar(s: string, c: char): (r: Option<nat>)
    ensures r.Some? ==> r.value < |s| && s[r.value] == c && c !in s[..r.value]
    ensures r.None? ==> c !in s
  {
    if s == [] then None
    else if s[0] == c then Some(0)
    else
      match FindChar(s[1..], c)
      case None =>
        assert s == [s[0]] + s[1..];
        None
      case Some(k) =>
        assert s[..k + 1] == [s[0]] + s[1..][..k];
        Some(k + 1)
  }

  lemma FindCharAbsent(s: string, c: char)
    requires c !in s
    ensures FindChar(s, c) == None
  {
  }

  /** The first occurrence of `c` is wherever `c` occurs with none before it. */
  lemma FindCharAt(s: string, c: char, k: nat)
    requires k < |s| && s[k] == c && c !in s[..k]
    ensures FindChar(s, c) == Some(k)
  {
    assert s[k] in s;
  }

  /** A pattern with a character that never occurs is not contained. */
  lemma NotContainsChar(s: string, p: string, k: nat)
    requires k < |p| && p[k] !in s
    ensures !Contains(s, p)
  {
    if Contains(s, p) {
      var i := ContainsWitness(s, p);
      assert false;
    }
  }

  /** Index of the last occurrence of character `c` (`rfind`). */
  function RFindChar(s: string, c: char): (r: Option<nat>)
    ensures r.Some? ==> r.value < |s| && s[r.value] == c && c !in s[r.value + 1..]
    ensures r.None? ==> c !in s
  {
    if s == [] then None
    else if s[|s| - 1] == c then Some(|s| - 1)
    else
      var r := RFindChar(s[..|s| - 1], c);
      assert r.Some? ==> s[r.value + 1..] == s[..|s| - 1][r.value + 1..] + [s[|s| - 1]];
      assert r.None? ==> s == s[..|s| - 1] + [s[|s| - 1]];
      r
  }
  lemma RFindCharAt(s: string, c: char, k: nat)
    requires k < |s| && s[k] == c && c !in s[k + 1..]
    ensures RFindChar(s, c) == Some(k)
  {
  }



  // ---------------------------------------------------------------- split and join

  /** `split(c)`: the pieces between occurrences of `c`; never empty. */
  function Split(s: string, c: char): (r: seq<string>)
    ensures |r| >= 1
    ensures forall i :: 0 <= i < |r| ==> c !in r[i]
    decreases |s|
  {
    match FindChar(s, c)
    case None => [s]
    case Some(i) => [s[..i]] + Split(s[i + 1..], c)
  }

  /** The text after the last `c`, or all of `s` when it has none. */
  function AfterLast(s: string, c: char): string
  {
    match RFindChar(s, c)
    case None => s
    case Some(i) => s[i + 1..]
  }

  /** The last piece of `split(c)` is the text after the last `c`, or all of `s`. */
  lemma {:induction false} SplitLast(s: string, c: char)
    ensures Split(s, c)[|Split(s, c)| - 1] == AfterLast(s, c)
    decreases |s|
  {
    var first := FindChar(s, c);
    if first.None? {
      SplitAbsent(s, c);
    } else {
      SplitLast(s[first.value + 1..], c);
      SplitLastStep(s, c, first.value);
    }
  }

  lemma SplitLastStep(s: string, c: char, i: nat)
    requires FindChar(s, c) == Some(i)
    requires var rest := Split(s[i + 1..], c); rest[|rest| - 1] == AfterLast(s[i + 1..], c)
    ensures Split(s, c)[|Split(s, c)| - 1] == AfterLast(s, c)
  {
    SplitAfterFirst(s, c, i);
    RFindAfterFirst(s, c, i);
  }

  lemma SplitAbsent(s: string, c: char)
    requires FindChar(s, c).None?
    ensures Split(s, c) == [s] && AfterLast(s, c) == s
  {
    assert RFindChar(s, c) == None;
  }

  lemma SplitAfterFirst(s: string, c: char, i: nat)
    requires FindChar(s, c) == Some(i)
    ensures var parts, rest := Split(s, c), Split(s[i + 1..], c);
      parts[|parts| - 1] == rest[|rest| - 1]
  {
    SplitFirst(s, c, i);
    LastOfCons(s[..i], Split(s[i + 1..], c));
  }

  lemma SplitFirst(s: string, c: char, i: nat)
    requires FindChar(s, c) == Some(i)
    ensures Split(s, c) == [s[..i]] + Split(s[i + 1..], c)
  {
  }

  lemma LastOfCons<T>(x: T, rest: seq<T>)
    requires rest != []
    ensures ([x] + rest)[|rest|] == rest[|rest| - 1]
  {
  }

  /** The last `c` of `s` is the last one after its first `c`, when there is one. */
  lemma RFindAfterFirst(s: string, c: char, i: nat)
    requires FindChar(s, c) == Some(i)
    ensures AfterLast(s, c) == AfterLast(s[i + 1..], c)
  {
    var t := s[i + 1..];
    match RFindChar(t, c)
    case None =>
      RFindCharAt(s, c, i);
    case Some(j) =>
      assert s[i + 1 + j + 1..] == t[j + 1..];
      RFindCharAt(s, c, i + 1 + j);
  }

  /** `split(sep)` for a non-empty string separator. */
  function SplitStr(s: string, sep: string): (r: seq<string>)
    requires |sep| > 0
    ensures |r| >= 1
    decreases |s|
  {
    match Find(s, sep)
    case None => [s]
    case Some(i) => [s[..i]] + SplitStr(s[i + |sep|..], sep)
  }

  /** `split_once(c)`. */
  function SplitOnce(s: string, c: char): (r: Option<(string, string)>)
    ensures r.None? <==> c !in s
    ensures r.Some? ==> s == r.value.0 + [c] + r.value.1 && c !in r.value.0
  {
    match FindChar(s, c)
    case None => None
    case Some(i) =>
      assert s == s[..i] + [c] + s[i + 1..];
      Some((s[..i], s[i + 1..]))
  }

  /** `parts.join(sep)`. */
  function Join(parts: seq<string>, sep: string): string
  {
    if parts == [] then []
    else if |parts| == 1 then parts[0]
    else parts[0] + sep + Join(parts[1..], sep)
  }

  /** Splitting a join on a separator no part contains gives the parts back. */
  lemma {:induction false} SplitJoin(parts: seq<string>, c: char)
    requires parts != []
    requires forall i :: 0 <= i < |parts| ==> c !in parts[i]
    ensures Split(Join(parts, [c]), c) == parts
    decreases |parts|
  {
    if |parts| > 1 {
      var s := Join(parts, [c]);
      var tail := Join(parts[1..], [c]);
      assert s == parts[0] + [c] + tail;
      assert s[..|parts[0]|] == parts[0];
      FindCharAt(s, c, |parts[0]|);
      assert s[|parts[0]| + 1..] == tail;
      SplitJoin(parts[1..], c);
    }
  }

  /** `replace(from, to)` for a non-empty pattern, left to right. */
  function Replace(s: string, from: string, to: string): string
    requires |from| > 0
    decreases |s|
  {
    match Find(s, from)
    case None => s
    case Some(i) => s[..i] + to + Replace(s[i + |from|..], from, to)
  }

  /** Replacing a character by nothing removes every occurrence of it. */
  lemma {:induction false} ReplaceCharRemovesIt(s: string, c: char)
    ensures c !in Replace(s, [c], [])
    decreases |s|
  {
    forall j | 0 <= j < |s| ensures ([c] <= s[j..]) <==> s[j] == c {
      assert s[j..][0] == s[j];
    }
    match Find(s, [c])
    case None =>
    case Some(i) =>
      ReplaceCharRemovesIt(s[i + 1..], c);
      assert c !in s[..i];
  }

  lemma ReplaceAbsent(s: string, from: string, to: string)
    requires |from| > 0 && !Contains(s, from)
    ensures Replace(s, from, to) == s
  {
  }

  // ---------------------------------------------------------------- words

  function TakeWord(s: string): (r: nat)
    ensures r <= |s|
    ensures forall i :: 0 <= i < r ==> !IsWhitespace(s[i])
    ensures r == |s| || IsWhitespace(s[r])
  {
    if s == [] || IsWhitespace(s[0]) then 0 else 1 + TakeWord(s[1..])
  }

  /** `split_whitespace`: the maximal runs of non-whitespace characters. */
  function Words(s: string): (r: seq<string>)
    ensures forall i :: 0 <= i < |r| ==> r[i] != [] && NoWhitespace(r[i])
    decreases |s|
  {
    var t := TrimStart(s);
    if t == [] then []
    else
      FirstWordShape(t);
      var n := TakeWord(t);
      var rest := Words(t[n..]);
      WordsConsShape(t[..n], rest);
      [t[..n]] + rest
  }

  /** Text that starts with a non-whitespace character starts with a word. */
  lemma FirstWordShape(t: string)
    requires t != [] && !IsWhitespace(t[0])
    ensures 0 < TakeWord(t) <= |t| && t[..TakeWord(t)] != [] && NoWhitespace(t[..TakeWord(t)])
  {
    var w := t[..TakeWord(t)];
    assert forall i :: 0 <= i < |w| ==> w[i] == t[i];
  }

  lemma WordsConsShape(w: string, rest: seq<string>)
    requires w != [] && NoWhitespace(w)
    requires forall i :: 0 <= i < |rest| ==> rest[i] != [] && NoWhitespace(rest[i])
    ensures forall i :: 0 <= i < |[w] + rest| ==> ([w] + rest)[i] != [] && NoWhitespace(([w] + rest)[i])
  {
    forall i | 0 <= i < |[w] + rest|
      ensures ([w] + rest)[i] != [] && NoWhitespace(([w] + rest)[i])
    {
      if i > 0 {
        assert ([w] + rest)[i] == rest[i - 1];
      }
    }
  }

  lemma WordsOfWord(s: string)
    requires s != [] && NoWhitespace(s)
    ensures Words(s) == [s]
  {
    assert TrimStart(s) == s;
    TakeWordPrefix(s, []);
    assert s + [] == s;
    assert Words(s[|s|..]) == [];
  }

  lemma WordsAppendSpace(a: string, rest: string)
    requires a != [] && NoWhitespace(a)
    ensures Words(a + " " + rest) == [a] + Words(rest)
  {
    var s := a + " " + rest;
    assert TrimStart(s) == s;
    TakeWordPrefix(a, " " + rest);
    assert s == a + (" " + rest);
    assert s[..|a|] == a;
    assert s[|a|..] == " " + rest;
    WordsSkipSpace(rest);
  }

  lemma WordsSkipSpace(rest: string)
    ensures Words(" " + rest) == Words(rest)
  {
    assert (" " + rest)[1..] == rest;
    assert TrimStart(" " + rest) == TrimStart(rest);
  }

  /** Any whitespace character ends a word, and a leading one is skipped. */
  lemma WordsAppendWhitespace(a: string, w: char, rest: string)
    requires NoWhitespace(a) && IsWhitespace(w)
    ensures Words(a + [w] + rest) == (if a == [] then [] else [a]) + Words(rest)
  {
    var tail := [w] + rest;
    WordsSkipWhitespace(w, rest);
    ConcatAssoc(a, [w], rest);
    if a != [] {
      WordsAfterWord(a, tail);
    }
  }

  /** A word followed by whitespace is the first word. */
  lemma WordsAfterWord(a: string, tail: string)
    requires a != [] && NoWhitespace(a) && tail != [] && IsWhitespace(tail[0])
    ensures Words(a + tail) == [a] + Words(tail)
  {
    var s := a + tail;
    WordsOfWordStart(s);
    assert TakeWord(s) == |a| by {
      TakeWordPrefix(a, tail);
    }
    assert s[..|a|] == a && s[|a|..] == tail;
  }

  /** A leading whitespace character does not change the words. */
  lemma WordsSkipWhitespace(w: char, rest: string)
    requires IsWhitespace(w)
    ensures Words([w] + rest) == Words(rest)
  {
    assert ([w] + rest)[1..] == rest;
    assert TrimStart([w] + rest) == TrimStart(rest);
  }

  /** Text that starts with a word: that word, then the words after it. */
  lemma WordsOfWordStart(s: string)
    requires s != [] && !IsWhitespace(s[0])
    ensures Words(s) == [s[..TakeWord(s)]] + Words(s[TakeWord(s)..])
  {
    assert TrimStart(s) == s;
  }

  /** A whitespace character after `a` closes `a` as a word of its own. */
  lemma WordsAfterWhitespace(words: seq<string>, a: string, text: string)
    requires NoWhitespace(a) && text != [] && IsWhitespace(text[0])
    ensures words + Words(a + text) == (if a != [] then words + [a] else words) + Words(text[1..])
  {
    assert a + text == a + [text[0]] + text[1..];
    WordsAppendWhitespace(a, text[0], text[1..]);
    var tail := Words(text[1..]);
    if a != [] {
      ConcatAssoc(words, [a], tail);
    } else {
      assert [] + tail == tail;
    }
  }

  /** Words joined by single spaces split back into the same words. */
  lemma {:induction false} WordsOfJoin(ws: seq<string>)
    requires forall i :: 0 <= i < |ws| ==> ws[i] != [] && NoWhitespace(ws[i])
    ensures Words(Join(ws, " ")) == ws
    decreases |ws|
  {
    if |ws| == 1 {
      WordsOfWord(ws[0]);
    } else if |ws| > 1 {
      PlainWordsTail(ws);
      WordsOfJoin(ws[1..]);
      WordsOfJoinStep(ws);
    }
  }

  lemma PlainWordsTail(ws: seq<string>)
    requires ws != [] && forall i :: 0 <= i < |ws| ==> ws[i] != [] && NoWhitespace(ws[i])
    ensures ws[0] != [] && NoWhitespace(ws[0])
    ensures forall i :: 0 <= i < |ws[1..]| ==> ws[1..][i] != [] && NoWhitespace(ws[1..][i])
  {
    forall i | 0 <= i < |ws[1..]| ensures ws[1..][i] != [] && NoWhitespace(ws[1..][i]) {
      assert ws[1..][i] == ws[i + 1];
    }
  }

  lemma WordsOfJoinStep(ws: seq<string>)
    requires |ws| > 1 && ws[0] != [] && NoWhitespace(ws[0])
    requires Words(Join(ws[1..], " ")) == ws[1..]
    ensures Words(Join(ws, " ")) == ws
  {
    WordsAppendSpace(ws[0], Join(ws[1..], " "));
    assert ws == [ws[0]] + ws[1..];
  }

  /** Text has no words exactly when it trims to nothing. */
  lemma WordsEmptyIffTrimEmpty(s: string)
    ensures Words(s) == [] <==> Trim(s) == []
  {
    var t := TrimStart(s);
    if t != [] {
      assert !IsWhitespace(t[0]);
      assert TrimEnd(t) != [];
    }
  }

  /** Text of one word trims to that word. */
  lemma SingleWordIsTrim(s: string)
    requires |Words(s)| == 1
    ensures Trim(s) == Words(s)[0]
  {
    var t := TrimStart(s);
    var n := TakeWord(t);
    assert Words(t[n..]) == [];
    assert forall i :: 0 <= i < |t[n..]| ==> IsWhitespace(t[n..][i]);
    TrimEndOfWhitespaceTail(t, n);
  }

  lemma {:induction false} TrimEndOfWhitespaceTail(t: string, n: nat)
    requires 1 <= n <= |t| && !IsWhitespace(t[n - 1])
    requires forall i :: 0 <= i < |t[n..]| ==> IsWhitespace(t[n..][i])
    ensures TrimEnd(t) == t[..n]
    decreases |t|
  {
    if n < |t| {
      assert IsWhitespace(t[n..][|t| - 1 - n]);
      var u := t[..|t| - 1];
      assert forall i :: 0 <= i < |u[n..]| ==> u[n..][i] == t[n..][i];
      TrimEndOfWhitespaceTail(u, n);
      assert u[..n] == t[..n];
    }
  }

  lemma ConcatAssoc<T>(a: seq<T>, b: seq<T>, c: seq<T>)
    ensures a + (b + c) == (a + b) + c
  {
  }

  lemma PrefixOfConcat<T>(a: seq<T>, b: seq<T>, c: seq<T>, d: seq<T>, e: seq<T>)
    ensures a <= a + b + c + d + e
  {
    var s := a + b + c + d + e;
    assert s[..|a|] == a by {
      forall i | 0 <= i < |a| ensures s[i] == a[i] {
      }
    }
  }

  lemma Regroup<T>(a: seq<T>, b: seq<T>, c: seq<T>, d: seq<T>, e: seq<T>)
    ensures a + b + c + d + e == a + (b + c + (d + e))
  {
  }

  lemma DropConcat<T>(a: seq<T>, b: seq<T>)
    ensures (a + b)[|a|..] == b
  {
  }

  lemma TakeDropConcat<T>(s: seq<T>, k: nat)
    requires k <= |s|
    ensures s[..k] + s[k..] == s
  {
  }

  lemma TakeWordPrefix(a: string, b: string)
    requires NoWhitespace(a) && (b == [] || IsWhitespace(b[0]))
    ensures TakeWord(a + b) == |a|
    decreases |a|
  {
    if a != [] {
      assert (a + b)[1..] == a[1..] + b;
      TakeWordPrefix(a[1..], b);
    }
  }

  // ---------------------------------------------------------------- lines

  function StripCR(s: string): string
  {
    if s != [] && s[|s| - 1] == '\r' then s[..|s| - 1] else s
  }

  /**
   * `lines()`: split after each `\n`, drop the `\n` and then one `\r`
   * before it; a trailing `\n` does not start an empty final line.
   */
  function Lines(s: string): (r: seq<string>)
    ensures forall i :: 0 <= i < |r| ==> '\n' !in r[i]
    decreases |s|
  {
    if s == [] then []
    else
      match FindChar(s, '\n')
      case None => [s]
      case Some(i) =>
        assert '\n' !in StripCR(s[..i]);
        [StripCR(s[..i])] + Lines(s[i + 1..])
  }

  // ---------------------------------------------------------------- numbers

  function DigitValue(c: char): nat
    requires IsAsciiDigit(c)
  {
    c as int - '0' as int
  }

  function DigitsValue(s: string): nat
    requires AllAsciiDigits(s)
  {
    if s == [] then 0 else 10 * DigitsValue(s[..|s| - 1]) + DigitValue(s[|s| - 1])
  }

  /** The digits of a number's text: everything after an optional leading `+`. */
  function UnsignedDigits(s: string): (d: string)
    ensures d == s || "+" + d == s
  {
    if s != [] && s[0] == '+' then
      assert s == "+" + s[1..];
      s[1..]
    else s
  }

  /**
   * `<uN>::from_str`: an optional `+`, then one or more ASCII digits,
   * with a value below `2^bits`.
   */
  function ParseUnsigned(s: string, bits: nat): (r: Option<nat>)
    ensures r.Some? ==> r.value < Pow2(bits)
  {
    var d := UnsignedDigits(s);
    if d == [] || !AllAsciiDigits(d) then None
    else if DigitsValue(d) < Pow2(bits) then Some(DigitsValue(d))
    else None
  }

  /** What `from_str` accepts: a non-empty run of digits whose value fits. */
  lemma ParseUnsignedAccepts(s: string, bits: nat)
    ensures ParseUnsigned(s, bits).Some? <==>
      (UnsignedDigits(s) != [] && AllAsciiDigits(UnsignedDigits(s)) && DigitsValue(UnsignedDigits(s)) < Pow2(bits))
    ensures ParseUnsigned(s, bits).Some? ==> ParseUnsigned(s, bits).value == DigitsValue(UnsignedDigits(s))
  {
  }

  function Pow2(n: nat): (r: nat)
    ensures r >= 1
  {
    if n == 0 then 1 else 2 * Pow2(n - 1)
  }

  function DigitChar(d: nat): char
    requires d < 10
  {
    ('0' as int + d) as char
  }

  /** Decimal formatting of a natural number (`{}` in `format!`). */
  function NatToString(n: nat): (r: string)
    ensures r != [] && AllAsciiDigits(r)
    ensures DigitsValue(r) == n
  {
    if n < 10 then [DigitChar(n)]
    else
      var p := NatToString(n / 10);
      var r := p + [DigitChar(n % 10)];
      assert r[..|r| - 1] == p;
      r
  }

  lemma ParseNatToString(n: nat, bits: nat)
    requires n < Pow2(bits)
    ensures ParseUnsigned(NatToString(n), bits) == Some(n)
  {
  }

  /** Whitespace after digits is what `trim` removes. */
  lemma TrimDigitsBeforeWhitespace(d: string, post: string)
    requires d != [] && AllAsciiDigits(d)
    requires forall i :: 0 <= i < |post| ==> IsWhitespace(post[i])
    ensures Trim(d + post) == d
  {
    assert IsAsciiDigit(d[0]) && IsAsciiDigit(d[|d| - 1]);
    var t := d + post;
    assert TrimStart(t) == t;
    assert t[|d|..] == post && t[..|d|] == d;
    TrimEndOfWhitespaceTail(t, |d|);
  }

  /** A run of ASCII digits never holds whitespace. */
  lemma DigitsHaveNoWhitespace(s: string)
    requires AllAsciiDigits(s)
    ensures NoWhitespace(s)
  {
    forall i | 0 <= i < |s| ensures !IsWhitespace(s[i]) {
      assert IsAsciiDigit(s[i]);
    }
  }
}
