// src/image_cache.rs: cover images kept on disk under a cache directory, one
// file per game named after the game with unsafe characters replaced. The
// download, decoding and resizing in `save_image` are I/O; the files on disk
// are the set `existing`.
module ImageCache {
  import opened Options
  import opened Strings
  import Paths

  /** `ImageCache { cache_dir }`. */
  datatype ImageCache = ImageCache(cacheDir: Paths.Path)

  // ---------------------------------------------------------------- names

  /** The characters a sanitised name keeps. */
  predicate Kept(c: char)
  {
    IsAsciiAlphanumeric(c) || c == '-'
  }

  function SafeChar(c: char): char
  {
    if Kept(c) then c else '_'
  }

  /** `sanitize_name`: each character kept, or replaced by `_`. */
  function SanitizeName(name: string): (r: string)
    ensures |r| == |name|
    ensures forall i :: 0 <= i < |r| ==> r[i] == SafeChar(name[i])
  {
    seq(|name|, i requires 0 <= i < |name| => SafeChar(name[i]))
  }

  /** A sanitised name consists of alphanumerics, `-` and `_`; in particular it has no `/` and no `.`. */
  lemma SanitizedCharacters(name: string)
    ensures forall i :: 0 <= i < |SanitizeName(name)| ==> Kept(SanitizeName(name)[i]) || SanitizeName(name)[i] == '_'
    ensures '/' !in SanitizeName(name) && '.' !in SanitizeName(name)
  {
    var r := SanitizeName(name);
    forall i | 0 <= i < |r| ensures r[i] != '/' && r[i] != '.' {
    }
  }

  /** Sanitising twice is sanitising once. */
  lemma SanitizeIdempotent(name: string)
    ensures SanitizeName(SanitizeName(name)) == SanitizeName(name)
  {
    var r := SanitizeName(name);
    assert forall i :: 0 <= i < |r| ==> SanitizeName(r)[i] == r[i];
  }

  /** A name made of kept characters is its own sanitised form. */
  lemma SanitizeKeepsSafeNames(name: string)
    requires forall i :: 0 <= i < |name| ==> Kept(name[i])
    ensures SanitizeName(name) == name
  {
  }

  // ---------------------------------------------------------------- paths

  /** `get_image_path`: `cache_dir/<sanitised name>.<extension>`. */
  function GetImagePath(cache: ImageCache, gameName: string, extension: string): Paths.Path
  {
    Paths.Join(cache.cacheDir, SanitizeName(gameName) + "." + extension)
  }

  /** The image file sits directly in the cache directory. */
  lemma ImagePathInCache(cache: ImageCache, gameName: string, extension: string)
    ensures var dir := cache.cacheDir; var file := SanitizeName(gameName) + "." + extension;
      GetImagePath(cache, gameName, extension) ==
        if dir == [] || dir[|dir| - 1] == '/' then dir + file else dir + "/" + file
  {
    SanitizedCharacters(gameName);
    var file := SanitizeName(gameName) + "." + extension;
    assert !Paths.IsAbsolute(file) by {
      if SanitizeName(gameName) == [] {
        assert file[0] == '.';
      } else {
        assert file[0] == SanitizeName(gameName)[0];
      }
    }
  }

  /** Two games share an image path for an extension exactly when their sanitised names agree. */
  lemma ImagePathsCollide(cache: ImageCache, a: string, b: string, extension: string)
    ensures GetImagePath(cache, a, extension) == GetImagePath(cache, b, extension) <==> SanitizeName(a) == SanitizeName(b)
  {
    ImagePathInCache(cache, a, extension);
    ImagePathInCache(cache, b, extension);
    var sa := SanitizeName(a) + "." + extension;
    var sb := SanitizeName(b) + "." + extension;
    var dir := cache.cacheDir;
    var prefix := if dir == [] || dir[|dir| - 1] == '/' then dir else dir + "/";
    assert GetImagePath(cache, a, extension) == prefix + sa;
    assert GetImagePath(cache, b, extension) == prefix + sb;
    if prefix + sa == prefix + sb {
      assert sa == (prefix + sa)[|prefix|..];
      assert sb == (prefix + sb)[|prefix|..];
      assert SanitizeName(a) == sa[..|SanitizeName(a)|];
      assert SanitizeName(b) == sb[..|SanitizeName(b)|];
    }
  }

  // ---------------------------------------------------------------- lookup

  const IMAGE_EXTENSIONS: seq<string> := ["png", "jpg", "jpeg", "webp"]

  /** The first cached image that exists, trying `exts` in order. */
  function FirstImage(cache: ImageCache, gameName: string, exts: seq<string>, existing: set<Paths.Path>): (r: Option<Paths.Path>)
    ensures r.Some? ==> r.value in existing
    ensures r.Some? ==> exists k :: 0 <= k < |exts| && r.value == GetImagePath(cache, gameName, exts[k])
    ensures r.None? ==> forall k :: 0 <= k < |exts| ==> GetImagePath(cache, gameName, exts[k]) !in existing
  {
    if exts == [] then None
    else if GetImagePath(cache, gameName, exts[0]) in existing then Some(GetImagePath(cache, gameName, exts[0]))
    else
      var r := FirstImage(cache, gameName, exts[1..], existing);
      assert forall k :: 0 <= k < |exts[1..]| ==> exts[1..][k] == exts[k + 1];
      assert forall k :: 1 <= k < |exts| ==> exts[k] == exts[1..][k - 1];
      r
  }

  /** `find_existing_image`: png, then jpg, then jpeg, then webp. */
  function FindExistingImage(cache: ImageCache, gameName: string, existing: set<Paths.Path>): Option<Paths.Path>
  {
    FirstImage(cache, gameName, IMAGE_EXTENSIONS, existing)
  }

  /** An image is found only when no image for an earlier extension exists. */
  lemma {:induction false} FirstImageIsFirst(cache: ImageCache, gameName: string, exts: seq<string>,
                                             existing: set<Paths.Path>, k: nat)
    requires k < |exts| && FirstImage(cache, gameName, exts, existing) == Some(GetImagePath(cache, gameName, exts[k]))
    requires forall j :: 0 <= j < k ==> exts[j] != exts[k]
    ensures forall j :: 0 <= j < k ==> GetImagePath(cache, gameName, exts[j]) !in existing
    decreases |exts|
  {
    if k > 0 {
      if GetImagePath(cache, gameName, exts[0]) in existing {
        ImagePathsDiffer(cache, gameName, exts[0], exts[k]);
      } else {
        FirstImageIsFirst(cache, gameName, exts[1..], existing, k - 1);
        forall j | 0 <= j < k ensures GetImagePath(cache, gameName, exts[j]) !in existing {
          if j > 0 {
            assert exts[j] == exts[1..][j - 1];
          }
        }
      }
    }
  }

  /** Different extensions give different paths. */
  lemma ImagePathsDiffer(cache: ImageCache, gameName: string, e1: string, e2: string)
    requires e1 != e2
    ensures GetImagePath(cache, gameName, e1) != GetImagePath(cache, gameName, e2)
  {
    ImagePathInCache(cache, gameName, e1);
    ImagePathInCache(cache, gameName, e2);
    var dir := cache.cacheDir;
    var d := if dir == [] || dir[|dir| - 1] == '/' then dir else dir + "/";
    SuffixesDiffer(d, SanitizeName(gameName) + ".", e1, e2);
  }

  lemma SuffixesDiffer(d: string, n: string, e1: string, e2: string)
    requires e1 != e2
    ensures d + (n + e1) != d + (n + e2)
  {
    assert (d + (n + e1))[|d| + |n|..] == e1;
    assert (d + (n + e2))[|d| + |n|..] == e2;
  }

  /** A png in the cache is always the one found. */
  lemma PngFoundFirst(cache: ImageCache, gameName: string, existing: set<Paths.Path>)
    requires GetImagePath(cache, gameName, "png") in existing
    ensures FindExistingImage(cache, gameName, existing) == Some(GetImagePath(cache, gameName, "png"))
  {
    assert IMAGE_EXTENSIONS[0] == "png";
  }

  // ---------------------------------------------------------------- saving

  /** `url.split('.').next_back()`: the text after the last `.`, or the whole URL. */
  function UrlExtension(url: string): (r: string)
    ensures r == AfterLast(url, '.')
  {
    var parts := Split(url, '.');
    SplitLast(url, '.');
    parts[|parts| - 1]
  }

  /** What `save_image` does: return the cached file, or download into this path. */
  datatype SaveAction = AlreadyCached(path: Paths.Path) | Download(url: string, path: Paths.Path)

  /** `save_image` up to the download: an existing file is returned without fetching. */
  function SaveImage(cache: ImageCache, gameName: string, url: string, existing: set<Paths.Path>): (r: SaveAction)
    ensures r.path == GetImagePath(cache, gameName, UrlExtension(url))
    ensures r.AlreadyCached? <==> r.path in existing
    ensures r.Download? ==> r.url == url
  {
    var path := GetImagePath(cache, gameName, UrlExtension(url));
    if path in existing then AlreadyCached(path) else Download(url, path)
  }

  /** A URL ending in `.<ext>` stores its image under that extension. */
  lemma SaveImageExtension(cache: ImageCache, gameName: string, base: string, ext: string, existing: set<Paths.Path>)
    requires '.' !in ext
    ensures SaveImage(cache, gameName, base + "." + ext, existing).path == GetImagePath(cache, gameName, ext)
  {
    var url := base + "." + ext;
    assert url[|base|] == '.' && url[|base| + 1..] == ext;
    RFindCharAt(url, '.', |base|);
  }

  /**
   * An image saved, or already cached, under one of the looked-up extensions
   * is found by `find_existing_image`.
   */
  lemma SavedImageIsFound(cache: ImageCache, gameName: string, url: string, existing: set<Paths.Path>)
    requires UrlExtension(url) in IMAGE_EXTENSIONS
    requires GetImagePath(cache, gameName, UrlExtension(url)) in existing
    ensures FindExistingImage(cache, gameName, existing).Some?
  {
    var k :| 0 <= k < |IMAGE_EXTENSIONS| && IMAGE_EXTENSIONS[k] == UrlExtension(url);
  }
}
