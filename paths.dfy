// `std::path::Path` queries used by the scanners, on paths as strings.
// A file name is the text after the last `/`; its extension is the text after
// its last `.` when that dot is not the first character.
module Paths {
  import opened Options
  import opened Strings

  type Path = string

  predicate IsAbsolute(p: Path)
  {
    StartsWith(p, "/")
  }

  /** Index just after the last `/`, or 0. */
  function NameStart(p: Path): (r: nat)
    ensures r <= |p|
    ensures '/' !in p[r..]
    ensures r > 0 ==> p[r - 1] == '/'
  {
    match RFindChar(p, '/')
    case None => 0
    case Some(i) => i + 1
  }

  /** `file_name`: the last component, `None` when it is empty. */
  function FileName(p: Path): (r: Option<string>)
    ensures r.Some? ==> r.value != [] && '/' !in r.value && EndsWith(p, r.value)
  {
    var n := p[NameStart(p)..];
    if n == [] || n == ".." then None else Some(n)
  }

  /** Position of the dot that starts the extension of a file name. */
  function ExtensionDot(name: string): (r: Option<nat>)
    ensures r.Some? ==> 0 < r.value < |name| && name[r.value] == '.' && '.' !in name[r.value + 1..]
  {
    if name == ".." then None
    else
      match RFindChar(name, '.')
      case None => None
      case Some(i) => if i == 0 then None else Some(i)
  }

  /** `extension`. */
  function Extension(p: Path): (r: Option<string>)
    ensures r.Some? ==> '.' !in r.value && '/' !in r.value
  {
    match FileName(p)
    case None => None
    case Some(name) =>
      match ExtensionDot(name)
      case None => None
      case Some(i) => Some(name[i + 1..])
  }

  /** `file_stem`. */
  function FileStem(p: Path): (r: Option<string>)
    ensures r.Some? <==> FileName(p).Some?
    ensures r.Some? ==> r.value != []
  {
    match FileName(p)
    case None => None
    case Some(name) =>
      match ExtensionDot(name)
      case None => Some(name)
      case Some(i) => Some(name[..i])
  }

  lemma StemAndExtension(p: Path)
    requires FileName(p).Some?
    ensures Extension(p).None? ==> FileStem(p) == FileName(p)
    ensures Extension(p).Some? ==> FileStem(p).value + "." + Extension(p).value == FileName(p).value
  {
    var name := FileName(p).value;
    match ExtensionDot(name)
    case None =>
    case Some(i) =>
      assert name == name[..i] + "." + name[i + 1..];
  }

  /** `PathBuf::join`: an absolute argument replaces the base. */
  function Join(base: Path, p: Path): (r: Path)
    ensures IsAbsolute(p) ==> r == p
  {
    if IsAbsolute(p) then p
    else if base == [] || base[|base| - 1] == '/' then base + p
    else base + "/" + p
  }

  /** `with_extension(ext)`: replaces or adds the extension of the file name. */
  function WithExtension(p: Path, ext: string): (r: Path)
  {
    match FileStem(p)
    case None => p
    case Some(stem) =>
      var prefix := p[..NameStart(p)] + stem;
      if ext == [] then prefix else prefix + "." + ext
  }

  lemma WithExtensionSameDirectory(p: Path, ext: string)
    requires FileName(p).Some? && ext != [] && '.' !in ext && '/' !in ext
    ensures Extension(WithExtension(p, ext)) == Some(ext)
    ensures FileStem(WithExtension(p, ext)) == FileStem(p)
  {
    WithExtensionIs(p, ext);
    StemHasNoSlash(p);
    RenamedPath(p[..NameStart(p)], FileStem(p).value, ext);
  }

  /** A directory prefix, then `stem.ext`: that stem and that extension. */
  lemma RenamedPath(pre: string, stem: string, ext: string)
    requires pre == [] || pre[|pre| - 1] == '/'
    requires stem != [] && '/' !in stem && ext != [] && '.' !in ext && '/' !in ext
    ensures Extension(pre + (stem + "." + ext)) == Some(ext)
    ensures FileStem(pre + (stem + "." + ext)) == Some(stem)
  {
    var name := stem + "." + ext;
    assert name != ".." by {
      assert |name| >= 3;
    }
    FileNameAfter(pre, name);
    RenamedParts(stem, ext, name, pre + name);
  }

  lemma WithExtensionIs(p: Path, ext: string)
    requires FileName(p).Some? && ext != []
    ensures WithExtension(p, ext) == p[..NameStart(p)] + (FileStem(p).value + "." + ext)
  {
    var pre, stem := p[..NameStart(p)], FileStem(p).value;
    assert (pre + stem) + "." + ext == pre + (stem + "." + ext);
  }

  lemma RenamedParts(stem: string, ext: string, name: string, r: Path)
    requires stem != [] && ext != [] && '.' !in ext
    requires name == stem + "." + ext && FileName(r) == Some(name)
    ensures Extension(r) == Some(ext) && FileStem(r) == Some(stem)
  {
    ExtensionDotAt(stem, ext);
    PartsOfName(r, name, |stem|);
    assert name[|stem| + 1..] == ext;
    assert name[..|stem|] == stem;
  }

  lemma PartsOfName(p: Path, name: string, i: nat)
    requires FileName(p) == Some(name) && ExtensionDot(name) == Some(i)
    ensures Extension(p) == Some(name[i + 1..]) && FileStem(p) == Some(name[..i])
  {
  }

  lemma StemHasNoSlash(p: Path)
    requires FileName(p).Some?
    ensures '/' !in FileStem(p).value
  {
    var name := FileName(p).value;
    assert forall k :: 0 <= k <= |name| ==> '/' !in name[..k];
  }

  lemma FileNameAfter(pre: string, name: string)
    requires '/' !in name && name != [] && name != ".."
    requires pre == [] || pre[|pre| - 1] == '/'
    ensures FileName(pre + name) == Some(name)
  {
    NameStartAfter(pre, name);
    assert (pre + name)[|pre|..] == name;
  }

  lemma NameStartAfter(pre: string, name: string)
    requires '/' !in name
    requires pre == [] || pre[|pre| - 1] == '/'
    ensures NameStart(pre + name) == |pre|
  {
    var s := pre + name;
    if pre != [] {
      assert s[|pre| - 1] in s;
      var i := RFindChar(s, '/').value;
      assert forall k :: |pre| <= k < |s| ==> s[k] == name[k - |pre|];
      assert forall j :: 0 <= j <= |pre| - 1 ==> s[|pre| - 1] in s[j..];
    } else {
      assert s == name;
    }
  }

  lemma ExtensionDotAt(stem: string, ext: string)
    requires stem != [] && ext != [] && '.' !in ext
    ensures ExtensionDot(stem + "." + ext) == Some(|stem|)
  {
    var name := stem + "." + ext;
    assert name[|stem|] in name;
    assert |name| > 2;
    var i := RFindChar(name, '.').value;
    assert forall k :: |stem| < k < |name| ==> name[k] == ext[k - |stem| - 1];
    assert forall j :: 0 <= j <= |stem| ==> name[|stem|] in name[j..];
  }

  /** A file `stem.ext` inside a directory has the expected name, stem and extension. */
  lemma FileInDirectory(dir: Path, stem: string, ext: string)
    requires dir == [] || dir[|dir| - 1] == '/'
    requires stem != [] && '/' !in stem && ext != [] && '.' !in ext && '/' !in ext
    ensures FileName(dir + stem + "." + ext) == Some(stem + "." + ext)
    ensures Extension(dir + stem + "." + ext) == Some(ext)
    ensures FileStem(dir + stem + "." + ext) == Some(stem)
  {
    var name := stem + "." + ext;
    assert dir + stem + "." + ext == dir + name;
    assert '/' !in name by {
      forall k | 0 <= k < |name| ensures name[k] != '/' {
        if k < |stem| {
          assert name[k] == stem[k];
        } else if k > |stem| {
          assert name[k] == ext[k - |stem| - 1];
        }
      }
    }
    assert name != ".." by {
      assert |name| >= 3;
    }
    FileNameAfter(dir, name);
    RenamedParts(stem, ext, name, dir + name);
  }
}
