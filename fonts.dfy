// Font-size hierarchy of the PDF prototypes (infer_font_hierarchy in test1.py
// and in test.py). The distinct font sizes are sorted from largest to
// smallest; the largest gets level 1 and each next size keeps the level of the
// previous one unless the gap between them is larger than the tolerance, in
// which case the level goes up by one. test.py tests the previous size with
// Python truthiness, so a previous size of 0.0 never opens a new level there.

module Fonts {
  import opened Util
  import opened Sections

  function Abs(x: real): real { if x < 0.0 then -x else x }

  /** The sizes strictly decrease. */
  ghost predicate Descending(sizes: seq<real>) {
    forall p, q :: 0 <= p < q < |sizes| ==> sizes[p] > sizes[q]
  }

  function Elems(sizes: seq<real>): set<real> {
    set x | x in sizes
  }

  /** A finite non-empty set of sizes has a largest member. */
  lemma {:induction false} SetMax(s: set<real>) returns (x: real)
    requires s != {}
    ensures x in s && forall y :: y in s ==> y <= x
    decreases |s|
  {
    RealSetMember(s);
    var a :| a in s;
    if s - {a} == {} {
      x := a;
      assert s == {a};
    } else {
      var b := SetMax(s - {a});
      x := if a < b then b else a;
      forall y | y in s ensures y <= x {
        if y != a {
          assert y in s - {a};
        }
      }
    }
  }

  /** Two descending enumerations of the same set are the same sequence. */
  lemma {:induction false} DescendingUnique(a: seq<real>, b: seq<real>)
    requires Descending(a) && Descending(b) && Elems(a) == Elems(b)
    ensures a == b
    decreases |a|
  {
    assert a != [] ==> a[0] in Elems(a);
    assert b != [] ==> b[0] in Elems(b);
    if a != [] && b != [] {
      assert forall q :: 0 <= q < |b| ==> b[q] <= b[0];
      assert forall q :: 0 <= q < |a| ==> a[q] <= a[0];
      assert a[0] == b[0];
      var a', b' := a[1..], b[1..];
      assert Elems(a') == Elems(a) - {a[0]} by {
        assert forall x :: x in a' <==> x in a && x != a[0];
      }
      assert Elems(b') == Elems(b) - {b[0]} by {
        assert forall x :: x in b' <==> x in b && x != b[0];
      }
      DescendingUnique(a', b');
      assert a == [a[0]] + a' && b == [b[0]] + b';
    }
  }

  lemma ElemsSnoc(sizes: seq<real>, x: real)
    ensures Elems(sizes + [x]) == Elems(sizes) + {x}
  {
    assert forall y :: y in sizes + [x] <==> y in sizes || y == x;
  }

  lemma DescendingSnoc(sizes: seq<real>, x: real)
    requires Descending(sizes) && forall p :: 0 <= p < |sizes| ==> x < sizes[p]
    ensures Descending(sizes + [x])
  {
    var u := sizes + [x];
    forall p, q | 0 <= p < q < |u| ensures u[p] > u[q] {
      assert u[p] == sizes[p];
    }
  }

  /** The loop state of the sort: `done` holds the largest sizes in order, `rest` the others. */
  ghost predicate SortState(done: seq<real>, rest: set<real>, s: set<real>) {
    && Descending(done)
    && Elems(done) + rest == s && Elems(done) !! rest
    && forall y, p :: y in rest && 0 <= p < |done| ==> y < done[p]
  }

  lemma SortStep(done: seq<real>, rest: set<real>, s: set<real>, x: real)
    requires SortState(done, rest, s)
    requires x in rest && forall y :: y in rest ==> y <= x
    ensures SortState(done + [x], rest - {x}, s)
  {
    ElemsSnoc(done, x);
    DescendingSnoc(done, x);
    forall y, p | y in rest - {x} && 0 <= p < |done + [x]| ensures y < (done + [x])[p] {
      if p < |done| {
        assert (done + [x])[p] == done[p];
      }
    }
  }

  /** sorted(sizes, reverse=True) of a set: the largest remaining size is taken each time. */
  method SortDescending(s: set<real>) returns (sizes: seq<real>)
    ensures Descending(sizes) && Elems(sizes) == s
  {
    var rest := s;
    sizes := [];
    while rest != {}
      invariant SortState(sizes, rest, s)
      decreases |rest|
    {
      ghost var top := SetMax(rest);
      var x :| x in rest && forall y :: y in rest ==> y <= x;
      SortStep(sizes, rest, s, x);
      sizes := sizes + [x];
      rest := rest - {x};
    }
  }

  /**
   * Whether the level goes up between two consecutive sizes: the gap is larger
   * than the tolerance and, in test.py (`falsyZero`), the previous size is not 0.0.
   */
  predicate Breaks(prev: real, s: real, tolerance: real, falsyZero: bool) {
    (!falsyZero || prev != 0.0) && Abs(prev - s) > tolerance
  }

  /** The level of each size in the descending list. */
  function Levels(sizes: seq<real>, tolerance: real, falsyZero: bool): (lv: seq<int>)
    ensures |lv| == |sizes|
  {
    if |sizes| <= 1 then (if sizes == [] then [] else [1])
    else
      var k := |sizes| - 1;
      var init := Levels(sizes[..k], tolerance, falsyZero);
      init + [init[k - 1] + if Breaks(sizes[k - 1], sizes[k], tolerance, falsyZero) then 1 else 0]
  }

  /**
   * The largest size is level 1, and from one size to the next the level goes
   * up by one exactly when the gap breaks, otherwise it stays.
   */
  lemma {:induction false} LevelsSteps(sizes: seq<real>, tolerance: real, falsyZero: bool)
    ensures sizes != [] ==> Levels(sizes, tolerance, falsyZero)[0] == 1
    ensures forall p, q :: 0 <= p && q == p + 1 && q < |sizes| ==>
      Levels(sizes, tolerance, falsyZero)[q] ==
        Levels(sizes, tolerance, falsyZero)[p] + if Breaks(sizes[p], sizes[q], tolerance, falsyZero) then 1 else 0
  {
    if |sizes| > 1 {
      var k := |sizes| - 1;
      LevelsSteps(sizes[..k], tolerance, falsyZero);
      assert forall p :: 0 <= p < k ==> sizes[..k][p] == sizes[p];
    }
  }

  /** Levels never go down along the list and stay between 1 and the number of sizes. */
  lemma {:induction false} LevelsBounded(sizes: seq<real>, tolerance: real, falsyZero: bool)
    ensures forall p, q :: 0 <= p <= q < |sizes| ==>
      1 <= Levels(sizes, tolerance, falsyZero)[p] <= Levels(sizes, tolerance, falsyZero)[q] <= q + 1
  {
    if |sizes| > 1 {
      LevelsBounded(sizes[..|sizes| - 1], tolerance, falsyZero);
    }
  }

  /** The dictionary filled by the loop: each size of the list mapped to its level. */
  function LevelMap(sizes: seq<real>, lv: seq<int>): map<real, int>
    requires |lv| == |sizes|
  {
    if sizes == [] then map[]
    else
      var k := |sizes| - 1;
      LevelMap(sizes[..k], lv[..k])[sizes[k] := lv[k]]
  }

  /** The keys of the dictionary are the sizes of the list. */
  lemma {:induction false} LevelMapKeys(sizes: seq<real>, lv: seq<int>)
    requires |lv| == |sizes|
    ensures LevelMap(sizes, lv).Keys == Elems(sizes)
  {
    if sizes != [] {
      var k := |sizes| - 1;
      LevelMapKeys(sizes[..k], lv[..k]);
      assert sizes == sizes[..k] + [sizes[k]];
      ElemsSnoc(sizes[..k], sizes[k]);
    }
  }

  /** The sizes being distinct, a size keeps the level of its place. */
  lemma {:induction false} LevelMapAtOne(sizes: seq<real>, lv: seq<int>, p: int)
    requires |lv| == |sizes| && Descending(sizes) && 0 <= p < |sizes|
    ensures sizes[p] in LevelMap(sizes, lv) && LevelMap(sizes, lv)[sizes[p]] == lv[p]
  {
    var k := |sizes| - 1;
    if p < k {
      var init := sizes[..k];
      assert Descending(init) by {
        assert forall i :: 0 <= i < k ==> init[i] == sizes[i];
      }
      LevelMapAtOne(init, lv[..k], p);
      assert init[p] == sizes[p] && sizes[p] != sizes[k];
      assert lv[..k][p] == lv[p];
    }
  }

  /** The sizes being distinct, each size keeps its own level. */
  lemma LevelMapAt(sizes: seq<real>, lv: seq<int>)
    requires |lv| == |sizes| && Descending(sizes)
    ensures forall p :: 0 <= p < |sizes| ==> sizes[p] in LevelMap(sizes, lv) && LevelMap(sizes, lv)[sizes[p]] == lv[p]
  {
    forall p | 0 <= p < |sizes| ensures sizes[p] in LevelMap(sizes, lv) && LevelMap(sizes, lv)[sizes[p]] == lv[p] {
      LevelMapAtOne(sizes, lv, p);
    }
  }

  /** One more size: its level follows from the level of the size before it. */
  lemma LevelsNext(sizes: seq<real>, k: nat, tolerance: real, falsyZero: bool)
    requires k < |sizes|
    ensures Levels(sizes[..k + 1], tolerance, falsyZero) == Levels(sizes[..k], tolerance, falsyZero) +
      [if k == 0 then 1 else Levels(sizes[..k], tolerance, falsyZero)[k - 1] + if Breaks(sizes[k - 1], sizes[k], tolerance, falsyZero) then 1 else 0]
  {
    assert sizes[..k + 1][..k] == sizes[..k];
  }

  /** One more size: the dictionary gains it with its level. */
  lemma LevelMapNext(sizes: seq<real>, lv: seq<int>, k: nat)
    requires k < |sizes| && |lv| == k + 1
    ensures LevelMap(sizes[..k + 1], lv) == LevelMap(sizes[..k], lv[..k])[sizes[k] := lv[k]]
  {
    assert sizes[..k + 1][..k] == sizes[..k];
  }

  /** The level loop over the sorted sizes. */
  method AssignLevels(sizes: seq<real>, tolerance: real, falsyZero: bool) returns (levels: map<real, int>)
    ensures levels == LevelMap(sizes, Levels(sizes, tolerance, falsyZero))
  {
    levels := map[];
    var level := 1;
    var prev: Option<real> := None;
    for k := 0 to |sizes|
      invariant levels == LevelMap(sizes[..k], Levels(sizes[..k], tolerance, falsyZero))
      invariant k == 0 <==> prev.None?
      invariant k > 0 ==> prev == Some(sizes[k - 1]) && level == Levels(sizes[..k], tolerance, falsyZero)[k - 1]
      invariant k == 0 ==> level == 1
    {
      var s := sizes[k];
      LevelsNext(sizes, k, tolerance, falsyZero);
      ghost var lv := Levels(sizes[..k + 1], tolerance, falsyZero);
      assert lv[..k] == Levels(sizes[..k], tolerance, falsyZero);
      LevelMapNext(sizes, lv, k);
      if prev.Some? && Breaks(prev.value, s, tolerance, falsyZero) {
        level := level + 1;
      }
      assert level == lv[k];
      levels := levels[s := level];
      prev := Some(s);
    }
    assert sizes[..|sizes|] == sizes;
  }

  /** The sizes the hierarchy is built from: all of them, or only the positive ones (test1.py). */
  function SizeSet(elements: seq<Element>, positiveOnly: bool): set<real> {
    set k | 0 <= k < |elements| && (!positiveOnly || elements[k].size > 0.0) :: elements[k].size
  }

  /** Every finite set of sizes has a descending enumeration. */
  lemma {:induction false} DescendingExists(s: set<real>)
    ensures exists sizes :: Descending(sizes) && Elems(sizes) == s
    decreases |s|
  {
    if s == {} {
      var e: seq<real> := [];
      assert Descending(e) && Elems(e) == s;
    } else {
      var x := SetMax(s);
      DescendingExists(s - {x});
      var t :| Descending(t) && Elems(t) == s - {x};
      var u := [x] + t;
      assert forall y :: y in u <==> y == x || y in t;
      assert forall y :: y in Elems(u) <==> y == x || y in Elems(t);
      assert Elems(u) == s;
      forall q | 0 <= q < |t| ensures t[q] < x {
        assert t[q] in Elems(t);
      }
      forall p, q | 0 <= p < q < |u| ensures u[p] > u[q] {
        assert u[q] == t[q - 1];
        if p > 0 {
          assert u[p] == t[p - 1];
        }
      }
    }
  }

  /** The font hierarchy, specified on the descending list of the sizes. */
  ghost function Hierarchy(elements: seq<Element>, tolerance: real, positiveOnly: bool, falsyZero: bool): map<real, int> {
    DescendingExists(SizeSet(elements, positiveOnly));
    var sizes :| Descending(sizes) && Elems(sizes) == SizeSet(elements, positiveOnly);
    LevelMap(sizes, Levels(sizes, tolerance, falsyZero))
  }

  /** The hierarchy is the level map of any descending list of the sizes, there being only one. */
  lemma HierarchyIs(elements: seq<Element>, tolerance: real, positiveOnly: bool, falsyZero: bool, sizes: seq<real>)
    requires Descending(sizes) && Elems(sizes) == SizeSet(elements, positiveOnly)
    ensures Hierarchy(elements, tolerance, positiveOnly, falsyZero) == LevelMap(sizes, Levels(sizes, tolerance, falsyZero))
  {
    forall t | Descending(t) && Elems(t) == SizeSet(elements, positiveOnly) ensures t == sizes {
      DescendingUnique(t, sizes);
    }
  }

  /**
   * Read on any descending list of the sizes: the keys are exactly the sizes,
   * and each size has the level of its place in the list.
   */
  lemma HierarchyOn(elements: seq<Element>, tolerance: real, positiveOnly: bool, falsyZero: bool, sizes: seq<real>)
    requires Descending(sizes) && Elems(sizes) == SizeSet(elements, positiveOnly)
    ensures Hierarchy(elements, tolerance, positiveOnly, falsyZero) == LevelMap(sizes, Levels(sizes, tolerance, falsyZero))
    ensures Hierarchy(elements, tolerance, positiveOnly, falsyZero).Keys == SizeSet(elements, positiveOnly)
    ensures forall p :: 0 <= p < |sizes| ==>
      Hierarchy(elements, tolerance, positiveOnly, falsyZero)[sizes[p]] == Levels(sizes, tolerance, falsyZero)[p]
  {
    HierarchyIs(elements, tolerance, positiveOnly, falsyZero, sizes);
    var lv := Levels(sizes, tolerance, falsyZero);
    LevelMapKeys(sizes, lv);
    LevelMapAt(sizes, lv);
  }

  /** A larger size never has a deeper level, and the largest size is level 1. */
  lemma HierarchyMonotone(elements: seq<Element>, tolerance: real, positiveOnly: bool, falsyZero: bool)
    ensures var h := Hierarchy(elements, tolerance, positiveOnly, falsyZero);
      forall a, b :: a in h && b in h && a >= b ==> 1 <= h[a] <= h[b]
    ensures var h := Hierarchy(elements, tolerance, positiveOnly, falsyZero);
      forall a :: a in h && (forall b :: b in h ==> b <= a) ==> h[a] == 1
  {
    var S := SizeSet(elements, positiveOnly);
    DescendingExists(S);
    var sizes :| Descending(sizes) && Elems(sizes) == S;
    HierarchyOn(elements, tolerance, positiveOnly, falsyZero, sizes);
    LevelsBounded(sizes, tolerance, falsyZero);
    LevelsSteps(sizes, tolerance, falsyZero);
    var h := Hierarchy(elements, tolerance, positiveOnly, falsyZero);
    forall a, b | a in h && b in h && a >= b ensures 1 <= h[a] <= h[b] {
      var p :| 0 <= p < |sizes| && sizes[p] == a;
      var q :| 0 <= q < |sizes| && sizes[q] == b;
      assert p <= q;
    }
    forall a | a in h && (forall b :: b in h ==> b <= a) ensures h[a] == 1 {
      var p :| 0 <= p < |sizes| && sizes[p] == a;
      assert sizes[0] in h;
      assert p == 0;
    }
  }

  /** infer_font_hierarchy: sort the distinct sizes from largest down, then assign levels. */
  method InferFontHierarchy(elements: seq<Element>, tolerance: real, positiveOnly: bool, falsyZero: bool)
    returns (levels: map<real, int>)
    ensures levels == Hierarchy(elements, tolerance, positiveOnly, falsyZero)
  {
    var sizes := SortDescending(SizeSet(elements, positiveOnly));
    HierarchyOn(elements, tolerance, positiveOnly, falsyZero, sizes);
    if sizes == [] {
      return map[];
    }
    levels := AssignLevels(sizes, tolerance, falsyZero);
  }
}
