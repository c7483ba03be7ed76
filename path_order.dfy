// How `PathBuf` values compare and test equal: component by component
// (`Path::components`), not byte by byte, so `/a/b/` equals `/a/b` and
// `/a//./b`, and `/a/b` sorts before `/a-b`.
module PathOrder {
  import opened Options
  import opened Strings
  import opened Sorting
  import opened Paths

  /** `std::path::Component` on Unix; the declaration order is the sort order. */
  datatype Component = RootDir | CurDir | ParentDir | Normal(name: string)

  /** Components of the `/`-separated pieces after the first: empty pieces and `.` vanish. */
  function PieceComponents(pieces: seq<string>): (r: seq<Component>)
    ensures forall i :: 0 <= i < |r| ==> r[i] == ParentDir || (r[i].Normal? && r[i].name != [] && r[i].name != ".")
  {
    if pieces == [] then []
    else
      var rest := PieceComponents(pieces[1..]);
      if pieces[0] == [] || pieces[0] == "." then rest
      else if pieces[0] == ".." then [ParentDir] + rest
      else [Normal(pieces[0])] + rest
  }

  /** `Path::components`: a root, a leading `.`, then the non-empty pieces other than `.`. */
  function Components(p: Path): seq<Component>
  {
    var pieces := Split(p, '/');
    if IsAbsolute(p) || pieces[0] == "." then [if IsAbsolute(p) then RootDir else CurDir] + PieceComponents(pieces[1..])
    else PieceComponents(pieces)
  }

  function Rank(c: Component): nat
  {
    match c
    case RootDir => 0
    case CurDir => 1
    case ParentDir => 2
    case Normal(_) => 3
  }

  /** The derived order of `Component`: by variant, then by name. */
  function ComponentCmp(a: Component, b: Component): Ordering
  {
    if Rank(a) < Rank(b) then Less
    else if Rank(a) > Rank(b) then Greater
    else if a.Normal? then StrCmp(a.name, b.name)
    else Equal
  }

  /** Lexicographic order of component lists. */
  function ComponentsCmp(a: seq<Component>, b: seq<Component>): Ordering
  {
    if a == [] && b == [] then Equal
    else if a == [] then Less
    else if b == [] then Greater
    else ComponentCmp(a[0], b[0]).Then(ComponentsCmp(a[1..], b[1..]))
  }

  /** `Path::cmp`. */
  function PathCmp(a: Path, b: Path): Ordering
  {
    ComponentsCmp(Components(a), Components(b))
  }

  /** `PathBuf == PathBuf`. */
  predicate SamePath(a: Path, b: Path)
  {
    Components(a) == Components(b)
  }

  lemma ComponentCmpFacts(a: Component, b: Component, c: Component)
    ensures ComponentCmp(a, b) == ComponentCmp(b, a).Reverse()
    ensures ComponentCmp(a, b) == Equal <==> a == b
    ensures ComponentCmp(a, b) != Greater && ComponentCmp(b, c) != Greater ==> ComponentCmp(a, c) != Greater
  {
    if a.Normal? && b.Normal? {
      StrCmpAntisymmetric(a.name, b.name);
      StrCmpEqual(a.name, b.name);
      if c.Normal? && StrCmp(a.name, b.name) != Greater && StrCmp(b.name, c.name) != Greater {
        StrCmpTransitive(a.name, b.name, c.name);
      }
    }
  }

  lemma {:induction false} ComponentsCmpAntisymmetric(a: seq<Component>, b: seq<Component>)
    ensures ComponentsCmp(a, b) == ComponentsCmp(b, a).Reverse()
    ensures ComponentsCmp(a, b) == Equal <==> a == b
  {
    if a != [] && b != [] {
      ComponentCmpFacts(a[0], b[0], b[0]);
      ComponentsCmpAntisymmetric(a[1..], b[1..]);
      assert a == [a[0]] + a[1..] && b == [b[0]] + b[1..];
    }
  }

  lemma {:induction false} ComponentsCmpTransitive(a: seq<Component>, b: seq<Component>, c: seq<Component>)
    requires ComponentsCmp(a, b) != Greater && ComponentsCmp(b, c) != Greater
    ensures ComponentsCmp(a, c) != Greater
  {
    if a != [] && b != [] && c != [] {
      ComponentCmpFacts(a[0], b[0], c[0]);
      ComponentCmpFacts(b[0], c[0], a[0]);
      ComponentCmpFacts(a[0], c[0], b[0]);
      if a[0] == b[0] && b[0] == c[0] {
        ComponentsCmpTransitive(a[1..], b[1..], c[1..]);
      } else if a[0] == b[0] {
        assert ComponentCmp(b[0], c[0]) == Less;
      } else if b[0] == c[0] {
        assert ComponentCmp(a[0], b[0]) == Less;
      } else {
        assert ComponentCmp(a[0], b[0]) == Less && ComponentCmp(b[0], c[0]) == Less;
        assert ComponentCmp(a[0], c[0]) != Greater;
      }
    }
  }

  /** The path order is a total preorder whose ties are exactly the equal paths. */
  lemma PathCmpIsTotalOrder()
    ensures Antisymmetric(PathCmp) && Transitive(PathCmp)
    ensures forall a, b :: SamePath(a, b) <==> PathCmp(a, b) == Equal
  {
    forall a, b ensures PathCmp(a, b) == PathCmp(b, a).Reverse() && (SamePath(a, b) <==> PathCmp(a, b) == Equal) {
      ComponentsCmpAntisymmetric(Components(a), Components(b));
    }
    forall a, b, c | PathCmp(a, b) != Greater && PathCmp(b, c) != Greater ensures PathCmp(a, c) != Greater {
      ComponentsCmpTransitive(Components(a), Components(b), Components(c));
    }
  }

  /** A trailing slash does not change a path's identity. */
  lemma TrailingSlashSamePath(p: Path)
    requires p != []
    ensures SamePath(p + "/", p)
  {
    SplitTrailing(p);
    var pieces := Split(p, '/');
    assert Split(p + "/", '/') == pieces + [[]];
    PieceComponentsDropsEmpty(pieces[1..]);
    PieceComponentsDropsEmpty(pieces);
    assert (pieces + [[]])[1..] == pieces[1..] + [[]];
  }

  lemma {:induction false} PieceComponentsDropsEmpty(pieces: seq<string>)
    ensures PieceComponents(pieces + [[]]) == PieceComponents(pieces)
  {
    if pieces == [] {
      assert PieceComponents([[]]) == PieceComponents([]);
    } else {
      assert (pieces + [[]])[1..] == pieces[1..] + [[]];
      PieceComponentsDropsEmpty(pieces[1..]);
    }
  }

  /** Splitting text with one more `/` at the end adds one empty piece. */
  lemma {:induction false} SplitTrailing(s: string)
    ensures Split(s + "/", '/') == Split(s, '/') + [[]]
    decreases |s|
  {
    match FindChar(s, '/')
    case None =>
      FindCharAt(s + "/", '/', |s|);
      assert (s + "/")[..|s|] == s && (s + "/")[|s| + 1..] == [];
    case Some(i) =>
      SplitAppendAfterFirst(s, i);
      SplitTrailing(s[i + 1..]);
  }

  /** Text appended after the first `/` lands in the pieces after the first. */
  lemma SplitAppendAfterFirst(s: string, i: nat)
    requires FindChar(s, '/') == Some(i)
    ensures Split(s + "/", '/') == [s[..i]] + Split(s[i + 1..] + "/", '/')
  {
    FindCharPrefix(s, "/", i);
    assert (s + "/")[..i] == s[..i];
    assert (s + "/")[i + 1..] == s[i + 1..] + "/";
  }

  lemma FindCharPrefix(s: string, t: string, i: nat)
    requires FindChar(s, '/') == Some(i)
    ensures FindChar(s + t, '/') == Some(i)
  {
    FindCharAt(s + t, '/', i);
    assert (s + t)[..i] == s[..i];
  }
}
