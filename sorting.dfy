// `slice::sort_by` (stable) and `Vec::dedup_by`, as functions on sequences,
// and the lexicographic order of `String::cmp`.
module Sorting {
  /** Rust's `std::cmp::Ordering`. */
  datatype Ordering = Less | Equal | Greater
  {
    function Reverse(): Ordering
    {
      match this
      case Less => Greater
      case Equal => Equal
      case Greater => Less
    }

    /** `Ordering::then`: the second comparison decides only ties. */
    function Then(other: Ordering): Ordering
    {
      if Equal? then other else this
    }
  }

  /** A comparator that answers the same question both ways round. */
  ghost predicate Antisymmetric<T(!new)>(cmp: (T, T) -> Ordering)
  {
    forall a, b :: cmp(a, b) == cmp(b, a).Reverse()
  }

  ghost predicate Transitive<T(!new)>(cmp: (T, T) -> Ordering)
  {
    forall a, b, c :: cmp(a, b) != Greater && cmp(b, c) != Greater ==> cmp(a, c) != Greater
  }

  ghost predicate StrictTransitive<T(!new)>(cmp: (T, T) -> Ordering)
  {
    forall a, b, c :: cmp(a, b) == Less && cmp(b, c) == Less ==> cmp(a, c) == Less
  }

  /** Every neighbour pair is in order. */
  ghost predicate Sorted<T>(s: seq<T>, cmp: (T, T) -> Ordering)
  {
    forall i :: 0 < i < |s| ==> cmp(s[i - 1], s[i]) != Greater
  }

  /** Every pair is in order. */
  ghost predicate SortedPairwise<T>(s: seq<T>, cmp: (T, T) -> Ordering)
  {
    forall i, j :: 0 <= i < j < |s| ==> cmp(s[i], s[j]) != Greater
  }

  // ---------------------------------------------------------------- sort

  /** Inserts `x` after every element that is not greater than it. */
  function Insert<T>(x: T, t: seq<T>, cmp: (T, T) -> Ordering): (r: seq<T>)
    ensures |r| == |t| + 1
    ensures r[0] == x || (t != [] && r[0] == t[0])
  {
    if t == [] then [x]
    else if cmp(x, t[0]) == Less then [x] + t
    else [t[0]] + Insert(x, t[1..], cmp)
  }

  /** The stable sort `sort_by(cmp)`. */
  function SortBy<T>(s: seq<T>, cmp: (T, T) -> Ordering): (r: seq<T>)
    ensures |r| == |s|
  {
    if s == [] then [] else Insert(s[|s| - 1], SortBy(s[..|s| - 1], cmp), cmp)
  }

  lemma {:induction false} InsertPermutes<T>(x: T, t: seq<T>, cmp: (T, T) -> Ordering)
    ensures multiset(Insert(x, t, cmp)) == multiset(t) + multiset{x}
  {
    if t != [] && cmp(x, t[0]) != Less {
      InsertPermutes(x, t[1..], cmp);
      assert t == [t[0]] + t[1..];
    }
  }

  lemma {:induction false} InsertSorted<T(!new)>(x: T, t: seq<T>, cmp: (T, T) -> Ordering)
    requires Antisymmetric(cmp)
    requires Sorted(t, cmp)
    ensures Sorted(Insert(x, t, cmp), cmp)
  {
    if t != [] && cmp(x, t[0]) != Less {
      InsertSorted(x, t[1..], cmp);
      var r := Insert(x, t, cmp);
      var u := Insert(x, t[1..], cmp);
      assert r == [t[0]] + u;
      assert cmp(t[0], x) != Greater by {
        assert cmp(x, t[0]) == cmp(t[0], x).Reverse();
      }
      assert cmp(t[0], u[0]) != Greater;
      forall i | 0 < i < |r| ensures cmp(r[i - 1], r[i]) != Greater {
        if i > 1 {
          assert r[i - 1] == u[i - 2] && r[i] == u[i - 1];
        }
      }
    }
  }

  lemma {:induction false} SortByPermutes<T>(s: seq<T>, cmp: (T, T) -> Ordering)
    ensures multiset(SortBy(s, cmp)) == multiset(s)
  {
    if s != [] {
      SortByPermutes(s[..|s| - 1], cmp);
      InsertPermutes(s[|s| - 1], SortBy(s[..|s| - 1], cmp), cmp);
      assert s == s[..|s| - 1] + [s[|s| - 1]];
    }
  }

  lemma {:induction false} SortBySorted<T(!new)>(s: seq<T>, cmp: (T, T) -> Ordering)
    requires Antisymmetric(cmp)
    ensures Sorted(SortBy(s, cmp), cmp)
  {
    if s != [] {
      SortBySorted(s[..|s| - 1], cmp);
      InsertSorted(s[|s| - 1], SortBy(s[..|s| - 1], cmp), cmp);
    }
  }

  lemma {:induction false} SortedIsPairwise<T(!new)>(s: seq<T>, cmp: (T, T) -> Ordering)
    requires Transitive(cmp) && Sorted(s, cmp)
    ensures SortedPairwise(s, cmp)
  {
    if |s| > 1 {
      var p := s[..|s| - 1];
      SortedIsPairwise(p, cmp);
      forall i, j | 0 <= i < j < |s| ensures cmp(s[i], s[j]) != Greater {
        if j < |s| - 1 {
          assert s[i] == p[i] && s[j] == p[j];
        } else if i < j - 1 {
          assert s[i] == p[i] && s[j - 1] == p[j - 1];
        }
      }
    }
  }

  lemma SortedSubsequence<T>(s: seq<T>, idx: seq<nat>, r: seq<T>, cmp: (T, T) -> Ordering)
    requires SortedPairwise(s, cmp)
    requires |idx| == |r|
    requires forall k :: 0 <= k < |idx| ==> idx[k] < |s| && r[k] == s[idx[k]]
    requires forall k, l :: 0 <= k < l < |idx| ==> idx[k] < idx[l]
    ensures SortedPairwise(r, cmp)
  {
  }

  // ---------------------------------------------------------------- dedup

  /**
   * `dedup_by(same)`: each element is dropped when `same(element, last kept)`,
   * so the first element of every run is the one kept.
   */
  function DedupBy<T>(s: seq<T>, same: (T, T) -> bool): (r: seq<T>)
    ensures |r| <= |s|
    ensures s != [] ==> r != [] && r[0] == s[0]
    ensures forall i :: 0 < i < |r| ==> !same(r[i], r[i - 1])
  {
    if s == [] then []
    else
      var d := DedupBy(s[..|s| - 1], same);
      var x := s[|s| - 1];
      if d != [] && same(x, d[|d| - 1]) then d
      else
        assert |s| > 1 ==> s[..|s| - 1][0] == s[0];
        d + [x]
  }

  /** One more element is dropped when it is `same` as the last one kept, and kept otherwise. */
  lemma DedupBySingle<T>(a: T, same: (T, T) -> bool)
    ensures DedupBy([a], same) == [a]
  {
    assert [a][..0] == [];
  }

  lemma DedupByPair<T>(a: T, b: T, same: (T, T) -> bool)
    ensures DedupBy([a, b], same) == if same(b, a) then [a] else [a, b]
  {
    assert [a, b][..1] == [a];
    DedupBySingle(a, same);
  }

  lemma DedupByTriple<T>(a: T, b: T, c: T, same: (T, T) -> bool)
    ensures var d := DedupBy([a, b], same);
      DedupBy([a, b, c], same) == if same(c, d[|d| - 1]) then d else d + [c]
  {
    assert [a, b, c][..2] == [a, b];
  }

  /** The kept elements, with the positions in `s` they come from. */
  lemma {:induction false} DedupSubsequence<T>(s: seq<T>, same: (T, T) -> bool) returns (idx: seq<nat>)
    ensures |idx| == |DedupBy(s, same)|
    ensures forall k :: 0 <= k < |idx| ==> idx[k] < |s| && DedupBy(s, same)[k] == s[idx[k]]
    ensures forall k, l :: 0 <= k < l < |idx| ==> idx[k] < idx[l]
  {
    if s == [] {
      idx := [];
    } else {
      var p := s[..|s| - 1];
      var pidx := DedupSubsequence(p, same);
      var d := DedupBy(p, same);
      if d != [] && same(s[|s| - 1], d[|d| - 1]) {
        idx := pidx;
      } else {
        idx := pidx + [|s| - 1];
      }
    }
  }

  /** Every dropped element is `same` as an element that was kept. */
  lemma {:induction false} DedupRepresents<T>(s: seq<T>, same: (T, T) -> bool, i: nat)
    requires i < |s|
    ensures exists j :: 0 <= j < |DedupBy(s, same)| && (DedupBy(s, same)[j] == s[i] || same(s[i], DedupBy(s, same)[j]))
  {
    var p := s[..|s| - 1];
    var d := DedupBy(p, same);
    var r := DedupBy(s, same);
    if i < |s| - 1 {
      DedupRepresents(p, same, i);
      var j :| 0 <= j < |d| && (d[j] == p[i] || same(p[i], d[j]));
      assert r[j] == d[j];
    } else if d != [] && same(s[i], d[|d| - 1]) {
      assert r[|d| - 1] == d[|d| - 1];
    } else {
      assert r[|r| - 1] == s[i];
    }
  }

  lemma {:induction false} DedupPermutesSubset<T>(s: seq<T>, same: (T, T) -> bool)
    ensures multiset(DedupBy(s, same)) <= multiset(s)
  {
    if s != [] {
      DedupPermutesSubset(s[..|s| - 1], same);
      assert s == s[..|s| - 1] + [s[|s| - 1]];
    }
  }

  /**
   * Sorting by a total order and then removing neighbours that compare
   * `Equal` leaves no two elements that compare `Equal`.
   */
  lemma SortDedupDistinct<T(!new)>(s: seq<T>, cmp: (T, T) -> Ordering, same: (T, T) -> bool)
    requires Antisymmetric(cmp) && Transitive(cmp)
    requires forall a, b :: same(a, b) <==> cmp(a, b) == Equal
    ensures forall i, j :: 0 <= i < j < |DedupBy(SortBy(s, cmp), same)| ==>
              cmp(DedupBy(SortBy(s, cmp), same)[i], DedupBy(SortBy(s, cmp), same)[j]) == Less
  {
    var sorted := SortBy(s, cmp);
    var r := DedupBy(sorted, same);
    SortBySorted(s, cmp);
    SortedIsPairwise(sorted, cmp);
    var idx := DedupSubsequence(sorted, same);
    SortedSubsequence(sorted, idx, r, cmp);
    forall i, j | 0 <= i < j < |r| ensures cmp(r[i], r[j]) == Less {
      assert cmp(r[j - 1], r[j]) != Equal && cmp(r[j - 1], r[j]) != Greater;
      assert cmp(r[j], r[j - 1]) == Greater by {
        assert cmp(r[j - 1], r[j]) == cmp(r[j], r[j - 1]).Reverse();
      }
      if i < j - 1 {
        assert cmp(r[i], r[j - 1]) != Greater;
        // otherwise r[j] <= r[i] <= r[j - 1]
        assert cmp(r[j], r[i]) == Greater;
        assert cmp(r[i], r[j]) == cmp(r[j], r[i]).Reverse();
      }
    }
  }

  /** Every element of the input is `same` as, or equal to, an element that sort and dedup keep. */
  lemma SortDedupCovers<T>(s: seq<T>, cmp: (T, T) -> Ordering, same: (T, T) -> bool)
    ensures forall a :: a in s ==>
      exists k :: 0 <= k < |DedupBy(SortBy(s, cmp), same)| &&
        (DedupBy(SortBy(s, cmp), same)[k] == a || same(a, DedupBy(SortBy(s, cmp), same)[k]))
  {
    var sorted := SortBy(s, cmp);
    var r := DedupBy(sorted, same);
    SortByPermutes(s, cmp);
    forall a | a in s ensures exists k :: 0 <= k < |r| && (r[k] == a || same(a, r[k])) {
      assert a in multiset(sorted);
      var i :| 0 <= i < |sorted| && sorted[i] == a;
      DedupRepresents(sorted, same, i);
    }
  }

  /** The last element is the last one kept, or was dropped as `same` as it. */
  lemma DedupLast<T>(s: seq<T>, same: (T, T) -> bool)
    requires s != []
    ensures var d := DedupBy(s, same);
      d[|d| - 1] == s[|s| - 1] || same(s[|s| - 1], d[|d| - 1])
  {
  }

  /** Position `m` starts a run: it is first, or not `same` as the element just before it. */
  ghost predicate StartsRun<T>(s: seq<T>, m: int, same: (T, T) -> bool)
  {
    0 <= m < |s| && (m == 0 || !same(s[m], s[m - 1]))
  }

  /** Every element of `r` is the element of `s` at the start of a run. */
  ghost predicate KeepsRunStarts<T>(s: seq<T>, r: seq<T>, same: (T, T) -> bool)
  {
    forall k :: 0 <= k < |r| ==> exists m :: StartsRun(s, m, same) && r[k] == s[m]
  }

  /** For a transitive `same`, each kept element starts a run. */
  lemma {:induction false} DedupKeepsRunStarts<T(!new)>(s: seq<T>, same: (T, T) -> bool)
    requires forall a, b, c :: same(a, b) && same(b, c) ==> same(a, c)
    ensures KeepsRunStarts(s, DedupBy(s, same), same)
  {
    if s != [] {
      var p := s[..|s| - 1];
      var x := s[|s| - 1];
      var d := DedupBy(p, same);
      var r := DedupBy(s, same);
      DedupKeepsRunStarts(p, same);
      forall k | 0 <= k < |r| ensures exists m :: StartsRun(s, m, same) && r[k] == s[m] {
        if k < |d| {
          var m :| StartsRun(p, m, same) && d[k] == p[m];
          assert r[k] == d[k] && s[m] == p[m] && (m > 0 ==> s[m - 1] == p[m - 1]);
          assert StartsRun(s, m, same);
        } else {
          var m := |s| - 1;
          assert r[k] == x && !(d != [] && same(x, d[|d| - 1]));
          if m > 0 {
            DedupLast(p, same);
            assert s[m - 1] == p[|p| - 1];
          }
          assert r[k] == s[m] && StartsRun(s, m, same);
        }
      }
    } else {
      assert DedupBy(s, same) == [];
    }
  }

  /** The elements that compare `Equal` to `x`, in order. */
  function Matching<T>(s: seq<T>, x: T, cmp: (T, T) -> Ordering): seq<T>
  {
    if s == [] then [] else (if cmp(s[0], x) == Equal then [s[0]] else []) + Matching(s[1..], x, cmp)
  }

  lemma {:induction false} MatchingAppend<T>(a: seq<T>, b: seq<T>, x: T, cmp: (T, T) -> Ordering)
    ensures Matching(a + b, x, cmp) == Matching(a, x, cmp) + Matching(b, x, cmp)
  {
    if a == [] {
      assert a + b == b;
    } else {
      var h := if cmp(a[0], x) == Equal then [a[0]] else [];
      MatchingAppend(a[1..], b, x, cmp);
      assert (a + b)[0] == a[0] && (a + b)[1..] == a[1..] + b;
      assert Matching(a + b, x, cmp) == h + (Matching(a[1..], x, cmp) + Matching(b, x, cmp));
      assert h + (Matching(a[1..], x, cmp) + Matching(b, x, cmp)) == (h + Matching(a[1..], x, cmp)) + Matching(b, x, cmp);
    }
  }

  lemma {:induction false} NoMatching<T>(s: seq<T>, x: T, cmp: (T, T) -> Ordering)
    requires forall i :: 0 <= i < |s| ==> cmp(s[i], x) != Equal
    ensures Matching(s, x, cmp) == []
  {
    if s != [] {
      NoMatching(s[1..], x, cmp);
    }
  }

  /** The first element `Equal` to `x` heads the matching elements. */
  lemma {:induction false} MatchingFirst<T>(s: seq<T>, x: T, cmp: (T, T) -> Ordering, m: nat)
    requires m < |s| && cmp(s[m], x) == Equal
    requires forall j :: 0 <= j < m ==> cmp(s[j], x) != Equal
    ensures Matching(s, x, cmp) != [] && Matching(s, x, cmp)[0] == s[m]
  {
    if m > 0 {
      MatchingFirst(s[1..], x, cmp, m - 1);
    }
  }

  /** The head of the matching elements is the first element `Equal` to `x`. */
  lemma {:induction false} MatchingHead<T>(s: seq<T>, x: T, cmp: (T, T) -> Ordering) returns (i: nat)
    requires Matching(s, x, cmp) != []
    ensures i < |s| && s[i] == Matching(s, x, cmp)[0] && cmp(s[i], x) == Equal
    ensures forall j :: 0 <= j < i ==> cmp(s[j], x) != Equal
  {
    if cmp(s[0], x) == Equal {
      i := 0;
    } else {
      var i' := MatchingHead(s[1..], x, cmp);
      i := i' + 1;
      forall j | 0 <= j < i ensures cmp(s[j], x) != Equal {
        if j > 0 {
          assert s[j] == s[1..][j - 1];
        }
      }
    }
  }

  /** `a < b <= c` gives `a < c`. */
  lemma StrictLeq<T(!new)>(a: T, b: T, c: T, cmp: (T, T) -> Ordering)
    requires Antisymmetric(cmp) && Transitive(cmp)
    requires cmp(a, b) == Less && cmp(b, c) != Greater
    ensures cmp(a, c) == Less
  {
    assert cmp(c, a) == cmp(a, c).Reverse();
    assert cmp(b, a) == cmp(a, b).Reverse();
    assert cmp(b, c) != Greater && cmp(c, a) != Greater ==> cmp(b, a) != Greater;
  }

  /** `a <= b < c` gives `a < c`. */
  lemma LeqStrict<T(!new)>(a: T, b: T, c: T, cmp: (T, T) -> Ordering)
    requires Antisymmetric(cmp) && Transitive(cmp)
    requires cmp(a, b) != Greater && cmp(b, c) == Less
    ensures cmp(a, c) == Less
  {
    assert cmp(c, a) == cmp(a, c).Reverse();
    assert cmp(c, b) == cmp(b, c).Reverse();
    assert cmp(c, a) != Greater && cmp(a, b) != Greater ==> cmp(c, b) != Greater;
  }

  /** Two elements `Equal` to the same `x` are `Equal` to each other. */
  lemma EqualToBoth<T(!new)>(a: T, b: T, x: T, cmp: (T, T) -> Ordering)
    requires Antisymmetric(cmp) && Transitive(cmp)
    ensures cmp(a, x) == Equal && cmp(b, x) == Equal ==> cmp(a, b) == Equal
  {
    assert cmp(x, b) == cmp(b, x).Reverse();
    assert cmp(b, a) == cmp(a, b).Reverse();
    assert cmp(x, a) == cmp(a, x).Reverse();
    assert cmp(a, x) != Greater && cmp(x, b) != Greater ==> cmp(a, b) != Greater;
    assert cmp(b, x) != Greater && cmp(x, a) != Greater ==> cmp(b, a) != Greater;
  }

  /** An element below the head of a sorted list is below all of it, so none of it matches that element's class. */
  lemma BelowSortedNoMatch<T(!new)>(y: T, t: seq<T>, x: T, cmp: (T, T) -> Ordering)
    requires Antisymmetric(cmp) && Transitive(cmp) && SortedPairwise(t, cmp)
    requires t != [] && cmp(y, t[0]) == Less && cmp(y, x) == Equal
    ensures Matching(t, x, cmp) == []
  {
    forall i | 0 <= i < |t| ensures cmp(t[i], x) != Equal {
      if i > 0 {
        StrictLeq(y, t[0], t[i], cmp);
      }
      EqualToBoth(y, t[i], x, cmp);
    }
    NoMatching(t, x, cmp);
  }

  /** Inserting into a sorted list puts `y` after every element `Equal` to it. */
  lemma {:induction false} InsertMatching<T(!new)>(y: T, t: seq<T>, x: T, cmp: (T, T) -> Ordering)
    requires Antisymmetric(cmp) && Transitive(cmp) && Sorted(t, cmp)
    ensures Matching(Insert(y, t, cmp), x, cmp) == Matching(t, x, cmp) + (if cmp(y, x) == Equal then [y] else [])
  {
    if t == [] {
      assert Insert(y, t, cmp) == [y] && [y][1..] == [];
    } else if cmp(y, t[0]) == Less {
      assert Insert(y, t, cmp) == [y] + t;
      assert ([y] + t)[1..] == t;
      if cmp(y, x) == Equal {
        SortedIsPairwise(t, cmp);
        BelowSortedNoMatch(y, t, x, cmp);
      }
    } else {
      assert Sorted(t[1..], cmp);
      InsertMatching(y, t[1..], x, cmp);
      assert Insert(y, t, cmp)[1..] == Insert(y, t[1..], cmp);
      assert Insert(y, t, cmp)[0] == t[0];
    }
  }

  /** `sort_by` is stable: the elements `Equal` to any `x` keep their order. */
  lemma {:induction false} SortByMatching<T(!new)>(s: seq<T>, x: T, cmp: (T, T) -> Ordering)
    requires Antisymmetric(cmp) && Transitive(cmp)
    ensures Matching(SortBy(s, cmp), x, cmp) == Matching(s, x, cmp)
  {
    if s != [] {
      var p := s[..|s| - 1];
      var y := s[|s| - 1];
      var tail := if cmp(y, x) == Equal then [y] else [];
      SortByMatching(p, x, cmp);
      SortBySorted(p, cmp);
      InsertMatching(y, SortBy(p, cmp), x, cmp);
      assert Matching(SortBy(s, cmp), x, cmp) == Matching(p, x, cmp) + tail;
      assert s == p + [y];
      MatchingAppend(p, [y], x, cmp);
      assert [y][1..] == [] && Matching([y], x, cmp) == tail + [];
    }
  }

  /** In a sorted list, everything before the start of a run of `Equal` elements is below it. */
  lemma RunStartIsFirst<T(!new)>(sorted: seq<T>, m: nat, cmp: (T, T) -> Ordering)
    requires Antisymmetric(cmp) && Transitive(cmp) && SortedPairwise(sorted, cmp)
    requires m < |sorted| && (m == 0 || cmp(sorted[m], sorted[m - 1]) != Equal)
    ensures forall j :: 0 <= j < m ==> cmp(sorted[j], sorted[m]) == Less
  {
    if m > 0 {
      var u := sorted[m - 1];
      assert cmp(u, sorted[m]) == cmp(sorted[m], u).Reverse();
      forall j | 0 <= j < m - 1 ensures cmp(sorted[j], sorted[m]) == Less {
        LeqStrict(sorted[j], u, sorted[m], cmp);
      }
    }
  }

  /** The first of a run in the sorted list is the first of its class in the input. */
  lemma FirstOfClass<T(!new)>(s: seq<T>, cmp: (T, T) -> Ordering, m: nat) returns (i: nat)
    requires Antisymmetric(cmp) && Transitive(cmp)
    requires m < |SortBy(s, cmp)|
    requires forall j :: 0 <= j < m ==> cmp(SortBy(s, cmp)[j], SortBy(s, cmp)[m]) == Less
    ensures i < |s| && s[i] == SortBy(s, cmp)[m]
    ensures forall j :: 0 <= j < i ==> cmp(s[j], s[i]) != Equal
  {
    var sorted := SortBy(s, cmp);
    var x := sorted[m];
    assert cmp(x, x) == Equal by { assert cmp(x, x) == cmp(x, x).Reverse(); }
    MatchingFirst(sorted, x, cmp, m);
    SortByMatching(s, x, cmp);
    i := MatchingHead(s, x, cmp);
  }

  /** Being `Equal` under a total order is transitive. */
  lemma SameIsTransitive<T(!new)>(cmp: (T, T) -> Ordering, same: (T, T) -> bool)
    requires Antisymmetric(cmp) && Transitive(cmp)
    requires forall a, b :: same(a, b) <==> cmp(a, b) == Equal
    ensures forall a, b, c :: same(a, b) && same(b, c) ==> same(a, c)
  {
    forall a, b, c | same(a, b) && same(b, c) ensures same(a, c) {
      EqualToBoth(a, c, b, cmp);
      assert cmp(c, b) == cmp(b, c).Reverse();
    }
  }

  /** A run start of the sorted list is the first of its class in the input. */
  lemma RunStartFirstFound<T(!new)>(s: seq<T>, cmp: (T, T) -> Ordering, m: nat) returns (i: nat)
    requires Antisymmetric(cmp) && Transitive(cmp)
    requires SortedPairwise(SortBy(s, cmp), cmp)
    requires m < |SortBy(s, cmp)| && (m == 0 || cmp(SortBy(s, cmp)[m], SortBy(s, cmp)[m - 1]) != Equal)
    ensures i < |s| && s[i] == SortBy(s, cmp)[m] && forall j :: 0 <= j < i ==> cmp(s[j], s[i]) != Equal
  {
    RunStartIsFirst(SortBy(s, cmp), m, cmp);
    i := FirstOfClass(s, cmp, m);
  }

  /** Run starts under `same` are run starts under `cmp` where the two agree. */
  lemma RunStartNotEqual<T>(s: seq<T>, m: int, cmp: (T, T) -> Ordering, same: (T, T) -> bool)
    requires forall a, b :: same(a, b) <==> cmp(a, b) == Equal
    requires StartsRun(s, m, same)
    ensures 0 <= m < |s| && (m == 0 || cmp(s[m], s[m - 1]) != Equal)
  {
  }

  /** Where `same` and `Equal` agree, so do "no earlier equal" and "no earlier same". */
  lemma NoneEqualNoneSame<T>(s: seq<T>, i: nat, cmp: (T, T) -> Ordering, same: (T, T) -> bool)
    requires forall a, b :: same(a, b) <==> cmp(a, b) == Equal
    requires i < |s| && forall j :: 0 <= j < i ==> cmp(s[j], s[i]) != Equal
    ensures forall j :: 0 <= j < i ==> !same(s[j], s[i])
  {
  }

  /** The position in `s` of the `k`-th kept element, which starts a run. */
  lemma RunStartOf<T(!new)>(s: seq<T>, same: (T, T) -> bool, k: nat) returns (m: nat)
    requires forall a, b, c :: same(a, b) && same(b, c) ==> same(a, c)
    requires k < |DedupBy(s, same)|
    ensures StartsRun(s, m, same) && DedupBy(s, same)[k] == s[m]
  {
    DedupKeepsRunStarts(s, same);
    m :| StartsRun(s, m, same) && DedupBy(s, same)[k] == s[m];
  }

  /** The `k`-th element kept by sort and dedup is the first of its class in the input. */
  lemma KeptIsFirstFound<T(!new)>(s: seq<T>, cmp: (T, T) -> Ordering, same: (T, T) -> bool, k: nat)
    requires Antisymmetric(cmp) && Transitive(cmp)
    requires forall a, b :: same(a, b) <==> cmp(a, b) == Equal
    requires k < |DedupBy(SortBy(s, cmp), same)|
    ensures exists i :: 0 <= i < |s| && s[i] == DedupBy(SortBy(s, cmp), same)[k] &&
                        forall j :: 0 <= j < i ==> !same(s[j], s[i])
  {
    var sorted := SortBy(s, cmp);
    SameIsTransitive(cmp, same);
    var m := RunStartOf(sorted, same, k);
    SortBySorted(s, cmp);
    SortedIsPairwise(sorted, cmp);
    RunStartNotEqual(sorted, m, cmp, same);
    var i := RunStartFirstFound(s, cmp, m);
    NoneEqualNoneSame(s, i, cmp, same);
  }

  /**
   * Sorting by a total order and then removing neighbours that compare
   * `Equal` keeps, of every class of `Equal` elements, the one found first.
   */
  lemma SortDedupKeepsFirst<T(!new)>(s: seq<T>, cmp: (T, T) -> Ordering, same: (T, T) -> bool)
    requires Antisymmetric(cmp) && Transitive(cmp)
    requires forall a, b :: same(a, b) <==> cmp(a, b) == Equal
    ensures forall k :: 0 <= k < |DedupBy(SortBy(s, cmp), same)| ==>
      exists i :: 0 <= i < |s| && s[i] == DedupBy(SortBy(s, cmp), same)[k] &&
                  forall j :: 0 <= j < i ==> !same(s[j], s[i])
  {
    var r := DedupBy(SortBy(s, cmp), same);
    forall k | 0 <= k < |r|
      ensures exists i :: 0 <= i < |s| && s[i] == r[k] && forall j :: 0 <= j < i ==> !same(s[j], s[i])
    {
      KeptIsFirstFound(s, cmp, same, k);
    }
  }

  // ---------------------------------------------------------------- string order

  /** `String::cmp`: lexicographic by code point, which is UTF-8 byte order. */
  function StrCmp(a: string, b: string): Ordering
  {
    if a == [] && b == [] then Equal
    else if a == [] then Less
    else if b == [] then Greater
    else if a[0] < b[0] then Less
    else if a[0] > b[0] then Greater
    else StrCmp(a[1..], b[1..])
  }

  lemma {:induction false} StrCmpEqual(a: string, b: string)
    ensures StrCmp(a, b) == Equal <==> a == b
  {
    if a != [] && b != [] && a[0] == b[0] {
      StrCmpEqual(a[1..], b[1..]);
      assert a == [a[0]] + a[1..] && b == [b[0]] + b[1..];
    }
  }

  lemma {:induction false} StrCmpAntisymmetric(a: string, b: string)
    ensures StrCmp(a, b) == StrCmp(b, a).Reverse()
  {
    if a != [] && b != [] && a[0] == b[0] {
      StrCmpAntisymmetric(a[1..], b[1..]);
    }
  }

  lemma {:induction false} StrCmpTransitive(a: string, b: string, c: string)
    requires StrCmp(a, b) != Greater && StrCmp(b, c) != Greater
    ensures StrCmp(a, c) != Greater
  {
    if a != [] && b != [] && c != [] && a[0] == b[0] && b[0] == c[0] {
      StrCmpTransitive(a[1..], b[1..], c[1..]);
    }
  }

  lemma StrCmpIsAntisymmetric()
    ensures Antisymmetric(StrCmp)
  {
    forall a, b ensures StrCmp(a, b) == StrCmp(b, a).Reverse() {
      StrCmpAntisymmetric(a, b);
    }
  }

  lemma StrCmpIsTransitive()
    ensures Transitive(StrCmp)
  {
    forall a, b, c | StrCmp(a, b) != Greater && StrCmp(b, c) != Greater
      ensures StrCmp(a, c) != Greater
    {
      StrCmpTransitive(a, b, c);
    }
  }
}
