// Hybrid scoring and mutual-best-match alignment of two content sequences
// (src/alignment/semantic_aligner.py). The semantic (cosine) matrix is an
// input; the type and proximity matrices are filled in nested loops, blended
// with the configured weights, and a pair (i, j) is accepted when j is the
// first best column of row i, i the first best row of column j, and the
// blended score reaches the threshold. Unmatched items become omission and
// addition records and everything is stably sorted by English page.

module SemanticAligner {
  import opened Util
  import opened Content
  import opened Config
  import opened Matrices

  // ---------------------------------------------------------------------
  // Score matrices

  function Abs(x: real): real { if x < 0.0 then -x else x }

  /** The type score of an (English, German) pair: bonus when their 'type' fields agree. */
  function TypeScore(e: ContentItem, g: ContentItem, settings: Settings): real {
    if e.kind == g.kind then settings.typeMatchBonus else settings.typeMismatchPenalty
  }

  /** 1 - |i/n - j/m|: 1 for equal relative positions, falling linearly with their distance. */
  function Proximity(n: nat, m: nat, i: nat, j: nat): real
    requires i < n && j < m
  {
    1.0 - Abs(i as real / n as real - j as real / m as real)
  }

  function TypeScores(eng: seq<ContentItem>, ger: seq<ContentItem>, settings: Settings): (T: Matrix)
    ensures IsMatrix(T, |eng|, |ger|)
    ensures forall i, j :: 0 <= i < |eng| && 0 <= j < |ger| ==> T[i][j] == TypeScore(eng[i], ger[j], settings)
  {
    seq(|eng|, i requires 0 <= i < |eng| => seq(|ger|, j requires 0 <= j < |ger| => TypeScore(eng[i], ger[j], settings)))
  }

  function Proximities(n: nat, m: nat): (P: Matrix)
    ensures IsMatrix(P, n, m)
    ensures forall i, j :: 0 <= i < n && 0 <= j < m ==> P[i][j] == Proximity(n, m, i, j)
  {
    seq(n, i requires 0 <= i < n => seq(m, j requires 0 <= j < m => Proximity(n, m, i, j)))
  }

  /** The contents of a 2-D array as a matrix value. */
  function Rows(a: array2<real>): (M: Matrix)
    reads a
    ensures IsMatrix(M, a.Length0, a.Length1)
    ensures forall i, j :: 0 <= i < a.Length0 && 0 <= j < a.Length1 ==> M[i][j] == a[i, j]
  {
    seq(a.Length0, i reads a requires 0 <= i < a.Length0 =>
      seq(a.Length1, j reads a requires 0 <= j < a.Length1 => a[i, j]))
  }

  lemma RowsAre(a: array2<real>, M: Matrix)
    requires IsMatrix(M, a.Length0, a.Length1)
    requires forall i, j :: 0 <= i < a.Length0 && 0 <= j < a.Length1 ==> M[i][j] == a[i, j]
    ensures Rows(a) == M
  {
    var R := Rows(a);
    forall i | 0 <= i < a.Length0 ensures R[i] == M[i] {
      assert forall j :: 0 <= j < a.Length1 ==> R[i][j] == M[i][j];
    }
  }

  /** _calculate_type_matrix */
  method TypeMatrix(eng: seq<ContentItem>, ger: seq<ContentItem>, settings: Settings) returns (t: array2<real>)
    ensures fresh(t) && t.Length0 == |eng| && t.Length1 == |ger|
    ensures forall i, j :: 0 <= i < |eng| && 0 <= j < |ger| ==> t[i, j] == TypeScore(eng[i], ger[j], settings)
  {
    t := new real[|eng|, |ger|]((i, j) => 0.0);
    for i := 0 to |eng|
      invariant forall i', j :: 0 <= i' < i && 0 <= j < |ger| ==> t[i', j] == TypeScore(eng[i'], ger[j], settings)
    {
      for j := 0 to |ger|
        invariant forall i', j' :: 0 <= i' < i && 0 <= j' < |ger| ==> t[i', j'] == TypeScore(eng[i'], ger[j'], settings)
        invariant forall j' :: 0 <= j' < j ==> t[i, j'] == TypeScore(eng[i], ger[j'], settings)
      {
        if eng[i].kind == ger[j].kind {
          t[i, j] := settings.typeMatchBonus;
        } else {
          t[i, j] := settings.typeMismatchPenalty;
        }
      }
    }
  }

  /** _calculate_proximity_matrix; a division happens only inside the loops, where both counts are positive. */
  method ProximityMatrix(n: nat, m: nat) returns (p: array2<real>)
    ensures fresh(p) && p.Length0 == n && p.Length1 == m
    ensures forall i, j :: 0 <= i < n && 0 <= j < m ==> p[i, j] == Proximity(n, m, i, j)
  {
    p := new real[n, m]((i, j) => 0.0);
    for i := 0 to n
      invariant forall i', j :: 0 <= i' < i && 0 <= j < m ==> p[i', j] == Proximity(n, m, i', j)
    {
      for j := 0 to m
        invariant forall i', j' :: 0 <= i' < i && 0 <= j' < m ==> p[i', j'] == Proximity(n, m, i', j')
        invariant forall j' :: 0 <= j' < j ==> p[i, j'] == Proximity(n, m, i, j')
      {
        var normPosEng := i as real / n as real;
        var normPosGer := j as real / m as real;
        p[i, j] := 1.0 - Abs(normPosEng - normPosGer);
      }
    }
  }

  /** Proximity scores lie in [0, 1] and are 1 exactly when the relative positions i/n and j/m coincide. */
  lemma ProximityRange(n: nat, m: nat, i: nat, j: nat)
    requires i < n && j < m
    ensures 0.0 < Proximity(n, m, i, j) <= 1.0
    ensures Proximity(n, m, i, j) == 1.0 <==> i * m == j * n
  {
    var x := i as real / n as real;
    var y := j as real / m as real;
    assert 0.0 <= x < 1.0 by {
      assert i as real < n as real;
    }
    assert 0.0 <= y < 1.0 by {
      assert j as real < m as real;
    }
    assert x * (n as real) == i as real;
    assert y * (m as real) == j as real;
    if x == y {
      assert (i * m) as real == x * (n as real) * (m as real);
      assert (j * n) as real == y * (m as real) * (n as real);
    }
    if i * m == j * n {
      assert x * (n as real) * (m as real) == y * (m as real) * (n as real);
      assert (x - y) * ((n * m) as real) == 0.0;
    }
  }

  /** The weighted blend W_SEMANTIC*semantic + W_TYPE*type + W_PROXIMITY*proximity, entry by entry. */
  function Blend(settings: Settings, S: Matrix, T: Matrix, P: Matrix, n: nat, m: nat): (B: Matrix)
    requires IsMatrix(S, n, m) && IsMatrix(T, n, m) && IsMatrix(P, n, m)
    ensures IsMatrix(B, n, m)
    ensures forall i, j :: 0 <= i < n && 0 <= j < m ==>
      B[i][j] == settings.wSemantic * S[i][j] + settings.wType * T[i][j] + settings.wProximity * P[i][j]
  {
    seq(n, i requires 0 <= i < n => seq(m, j requires 0 <= j < m =>
      settings.wSemantic * S[i][j] + settings.wType * T[i][j] + settings.wProximity * P[i][j]))
  }

  /** The blended matrix of two content sequences and their semantic matrix. */
  function Blended(eng: seq<ContentItem>, ger: seq<ContentItem>, S: Matrix, settings: Settings): (B: Matrix)
    requires IsMatrix(S, |eng|, |ger|)
    ensures IsMatrix(B, |eng|, |ger|)
  {
    Blend(settings, S, TypeScores(eng, ger, settings), Proximities(|eng|, |ger|), |eng|, |ger|)
  }

  // ---------------------------------------------------------------------
  // Mutual best match

  /** An output record by index: English index, German index, reported similarity. */
  datatype Link = Link(eng: Option<nat>, ger: Option<nat>, similarity: real)

  /** An output record as the source builds it: the items themselves. */
  datatype AlignedPair = AlignedPair(english: Option<ContentItem>, german: Option<ContentItem>, similarity: real)

  /**
   * The blended and semantic matrices with the two argmax vectors taken from
   * the blended one: bestGer[i] is np.argmax(blended, axis=1)[i] and
   * bestEng[j] is np.argmax(blended, axis=0)[j].
   */
  datatype Scores = Scores(blended: Matrix, semantic: Matrix, bestGer: seq<nat>, bestEng: seq<nat>) {
    ghost predicate Valid() {
      IsMatrix(blended, |bestGer|, |bestEng|) && IsMatrix(semantic, |bestGer|, |bestEng|)
      && (forall i :: 0 <= i < |bestGer| ==> bestGer[i] < |bestEng|)
      && (forall j :: 0 <= j < |bestEng| ==> bestEng[j] < |bestGer|)
    }
  }

  /** The two argmax vectors of a blended matrix with at least one row and one column. */
  function ScoresOf(B: Matrix, S: Matrix, n: nat, m: nat): (sc: Scores)
    requires IsMatrix(B, n, m) && IsMatrix(S, n, m) && n > 0 && m > 0
    ensures sc.Valid() && sc.blended == B && sc.semantic == S && |sc.bestGer| == n && |sc.bestEng| == m
    ensures forall i :: 0 <= i < n ==> sc.bestGer[i] == RowArgmax(B, i)
    ensures forall j :: 0 <= j < m ==> sc.bestEng[j] == ColArgmax(B, j)
  {
    Scores(B, S, seq(n, i requires 0 <= i < n => RowArgmax(B, i)), seq(m, j requires 0 <= j < m => ColArgmax(B, j)))
  }

  /** Row i is accepted: its best column j has i as best row, and the blended score reaches the threshold. */
  predicate Accepted(sc: Scores, threshold: real, i: nat)
    requires sc.Valid() && i < |sc.bestGer|
  {
    var j := sc.bestGer[i];
    sc.bestEng[j] == i && sc.blended[i][j] >= threshold
  }

  /** The pair records produced for rows 0 .. k-1, reporting the semantic score. */
  function Pairs(sc: Scores, threshold: real, k: nat): (ps: seq<Link>)
    requires sc.Valid() && k <= |sc.bestGer|
    ensures forall l :: l in ps ==> l.eng.Some? && l.eng.value < k && l.ger.Some? && l.ger.value < |sc.bestEng|
  {
    if k == 0 then [] else Pairs(sc, threshold, k - 1) + RowPair(sc, threshold, k - 1)
  }

  /** The pair record contributed by row i: one when the row is accepted, none otherwise. */
  function RowPair(sc: Scores, threshold: real, i: nat): (r: seq<Link>)
    requires sc.Valid() && i < |sc.bestGer|
    ensures |r| <= 1
    ensures forall l :: l in r ==> l.eng == Some(i) && l.ger.Some? && l.ger.value < |sc.bestEng|
    ensures forall l :: l in r <==> Accepted(sc, threshold, i) && l == Link(Some(i), Some(sc.bestGer[i]), sc.semantic[i][sc.bestGer[i]])
  {
    var j := sc.bestGer[i];
    if Accepted(sc, threshold, i) then [Link(Some(i), Some(j), sc.semantic[i][j])] else []
  }

  /** Indices of the English items that are in a record. */
  function EngIndices(links: seq<Link>): set<nat> {
    set l | l in links && l.eng.Some? :: l.eng.value
  }

  /** Indices of the German items that are in a record (used_german_indices). */
  function GerIndices(links: seq<Link>): set<nat> {
    set l | l in links && l.ger.Some? :: l.ger.value
  }

  /** Omission records for the English indices below k that are not matched, in index order. */
  function Omissions(matched: set<nat>, k: nat): (r: seq<Link>)
    ensures forall l :: l in r ==> l.eng.Some? && l.eng.value < k && l.eng.value !in matched && l.ger.None? && l.similarity == 0.0
  {
    if k == 0 then []
    else Omissions(matched, k - 1) + if k - 1 !in matched then [Link(Some(k - 1), None, 0.0)] else []
  }

  /** Addition records for the German indices below k that are not used, in index order. */
  function Additions(used: set<nat>, k: nat): (r: seq<Link>)
    ensures forall l :: l in r ==> l.ger.Some? && l.ger.value < k && l.ger.value !in used && l.eng.None? && l.similarity == 0.0
  {
    if k == 0 then []
    else Additions(used, k - 1) + if k - 1 !in used then [Link(None, Some(k - 1), 0.0)] else []
  }

  // ---------------------------------------------------------------------
  // Stable sort by English page, records without an English item last

  /** The sort key: the English item's page, or None (float('inf')) when there is no English item. */
  function PageKey(eng: seq<ContentItem>, l: Link): Option<int> {
    if l.eng.Some? && l.eng.value < |eng| then Some(eng[l.eng.value].page) else None
  }

  predicate KeyLe(a: Option<int>, b: Option<int>) {
    b.None? || (a.Some? && a.value <= b.value)
  }

  predicate SortedByPage(eng: seq<ContentItem>, s: seq<Link>) {
    forall i, j :: 0 <= i < j < |s| ==> KeyLe(PageKey(eng, s[i]), PageKey(eng, s[j]))
  }

  /** Inserts x after every record whose key is at most x's key. */
  function Insert(eng: seq<ContentItem>, r: seq<Link>, x: Link): seq<Link> {
    if r == [] || KeyLe(PageKey(eng, r[|r| - 1]), PageKey(eng, x)) then r + [x]
    else Insert(eng, r[..|r| - 1], x) + [r[|r| - 1]]
  }

  /** list.sort(key=...): a stable sort by PageKey. */
  function SortByPage(eng: seq<ContentItem>, s: seq<Link>): seq<Link> {
    if s == [] then [] else Insert(eng, SortByPage(eng, s[..|s| - 1]), s[|s| - 1])
  }

  /** The records of s with a given key, in order. */
  function WithKey(eng: seq<ContentItem>, s: seq<Link>, k: Option<int>): seq<Link> {
    if s == [] then []
    else WithKey(eng, s[..|s| - 1], k) + if PageKey(eng, s[|s| - 1]) == k then [s[|s| - 1]] else []
  }

  /** A record's English (english = true) or German index. */
  function Idx(l: Link, english: bool): Option<nat> {
    if english then l.eng else l.ger
  }

  /** Number of records whose English (english = true) or German index is o. */
  function CountIdx(s: seq<Link>, english: bool, o: Option<nat>): nat {
    if s == [] then 0
    else CountIdx(s[..|s| - 1], english, o) + if Idx(s[|s| - 1], english) == o then 1 else 0
  }

  lemma {:induction false} WithKeyAppend(eng: seq<ContentItem>, a: seq<Link>, b: seq<Link>, k: Option<int>)
    ensures WithKey(eng, a + b, k) == WithKey(eng, a, k) + WithKey(eng, b, k)
  {
    if b == [] {
      assert a + b == a;
    } else {
      assert (a + b)[..|a + b| - 1] == a + b[..|b| - 1];
      WithKeyAppend(eng, a, b[..|b| - 1], k);
    }
  }

  lemma {:induction false} CountIdxAppend(a: seq<Link>, b: seq<Link>, english: bool, o: Option<nat>)
    ensures CountIdx(a + b, english, o) == CountIdx(a, english, o) + CountIdx(b, english, o)
  {
    if b == [] {
      assert a + b == a;
    } else {
      assert (a + b)[..|a + b| - 1] == a + b[..|b| - 1];
      CountIdxAppend(a, b[..|b| - 1], english, o);
    }
  }

  /** Insertion adds x and nothing else. */
  lemma {:induction false} InsertMembers(eng: seq<ContentItem>, r: seq<Link>, x: Link)
    ensures |Insert(eng, r, x)| == |r| + 1
    ensures forall l :: l in Insert(eng, r, x) <==> l in r || l == x
  {
    if !(r == [] || KeyLe(PageKey(eng, r[|r| - 1]), PageKey(eng, x))) {
      var init := r[..|r| - 1];
      InsertMembers(eng, init, x);
      assert r == init + [r[|r| - 1]];
    }
  }

  /** Insertion adds one to the count of x's indices. */
  lemma {:induction false} InsertCount(eng: seq<ContentItem>, r: seq<Link>, x: Link, e: bool, o: Option<nat>)
    ensures CountIdx(Insert(eng, r, x), e, o) == CountIdx(r, e, o) + if Idx(x, e) == o then 1 else 0
  {
    var ins := Insert(eng, r, x);
    if r == [] || KeyLe(PageKey(eng, r[|r| - 1]), PageKey(eng, x)) {
      assert ins == r + [x];
      assert ins[..|ins| - 1] == r;
    } else {
      var init := r[..|r| - 1];
      InsertCount(eng, init, x, e, o);
      var mid := Insert(eng, init, x);
      assert ins == mid + [r[|r| - 1]];
      assert ins[..|ins| - 1] == mid;
    }
  }

  /** Insertion places x after every record of its key: the records of each key keep their order. */
  lemma {:induction false} InsertWithKey(eng: seq<ContentItem>, r: seq<Link>, x: Link, k: Option<int>)
    ensures WithKey(eng, Insert(eng, r, x), k) == WithKey(eng, r, k) + if PageKey(eng, x) == k then [x] else []
  {
    var ins := Insert(eng, r, x);
    if r == [] || KeyLe(PageKey(eng, r[|r| - 1]), PageKey(eng, x)) {
      assert ins == r + [x];
      assert ins[..|ins| - 1] == r;
    } else {
      var init := r[..|r| - 1];
      var y := r[|r| - 1];
      InsertWithKey(eng, init, x, k);
      var mid := Insert(eng, init, x);
      assert ins == mid + [y];
      assert ins[..|ins| - 1] == mid;
      assert PageKey(eng, x) != PageKey(eng, y) by {
        assert !KeyLe(PageKey(eng, y), PageKey(eng, x));
      }
    }
  }

  /** Insertion into a sorted sequence keeps it sorted. */
  lemma {:induction false} InsertSorted(eng: seq<ContentItem>, r: seq<Link>, x: Link)
    requires SortedByPage(eng, r)
    ensures SortedByPage(eng, Insert(eng, r, x))
  {
    var ins := Insert(eng, r, x);
    if r == [] || KeyLe(PageKey(eng, r[|r| - 1]), PageKey(eng, x)) {
      assert ins == r + [x];
    } else {
      var init := r[..|r| - 1];
      var y := r[|r| - 1];
      assert r == init + [y];
      assert SortedByPage(eng, init);
      InsertSorted(eng, init, x);
      InsertMembers(eng, init, x);
      var mid := Insert(eng, init, x);
      assert ins == mid + [y];
      forall i, j | 0 <= i < j < |ins| ensures KeyLe(PageKey(eng, ins[i]), PageKey(eng, ins[j])) {
        if j == |ins| - 1 {
          // every element of mid is either in init (before y in r) or x, whose key is below y's
          assert ins[i] == mid[i] && ins[i] in mid;
          if ins[i] != x {
            var p :| 0 <= p < |init| && init[p] == ins[i];
            assert r[p] == ins[i];
          }
        } else {
          assert ins[i] == mid[i] && ins[j] == mid[j];
        }
      }
    }
  }

  lemma InsertProperties(eng: seq<ContentItem>, r: seq<Link>, x: Link)
    requires SortedByPage(eng, r)
    ensures SortedByPage(eng, Insert(eng, r, x))
    ensures |Insert(eng, r, x)| == |r| + 1
    ensures forall l :: l in Insert(eng, r, x) <==> l in r || l == x
    ensures forall k :: (WithKey(eng, Insert(eng, r, x), k)
      == WithKey(eng, r, k) + if PageKey(eng, x) == k then [x] else [])
    ensures forall e, o :: (CountIdx(Insert(eng, r, x), e, o)
      == CountIdx(r, e, o) + if Idx(x, e) == o then 1 else 0)
  {
    InsertSorted(eng, r, x);
    InsertMembers(eng, r, x);
    forall k ensures WithKey(eng, Insert(eng, r, x), k) == WithKey(eng, r, k) + if PageKey(eng, x) == k then [x] else [] {
      InsertWithKey(eng, r, x, k);
    }
    forall e, o ensures CountIdx(Insert(eng, r, x), e, o) == CountIdx(r, e, o) + if Idx(x, e) == o then 1 else 0 {
      InsertCount(eng, r, x, e, o);
    }
  }

  lemma {:induction false} SortProperties(eng: seq<ContentItem>, s: seq<Link>)
    ensures SortedByPage(eng, SortByPage(eng, s))
    ensures |SortByPage(eng, s)| == |s|
    ensures forall l :: l in SortByPage(eng, s) <==> l in s
    ensures forall k :: WithKey(eng, SortByPage(eng, s), k) == WithKey(eng, s, k)
    ensures forall e, o :: CountIdx(SortByPage(eng, s), e, o) == CountIdx(s, e, o)
  {
    if s != [] {
      var init := s[..|s| - 1];
      SortProperties(eng, init);
      InsertProperties(eng, SortByPage(eng, init), s[|s| - 1]);
      assert s == init + [s[|s| - 1]];
    }
  }

  // ---------------------------------------------------------------------
  // align_content

  /** The scores of two non-empty content sequences. */
  function ScoresFor(eng: seq<ContentItem>, ger: seq<ContentItem>, S: Matrix, settings: Settings): (sc: Scores)
    requires IsMatrix(S, |eng|, |ger|) && |eng| > 0 && |ger| > 0
    ensures sc.Valid() && |sc.bestGer| == |eng| && |sc.bestEng| == |ger|
  {
    ScoresOf(Blended(eng, ger, S, settings), S, |eng|, |ger|)
  }

  /** The mutual-best pairs of two non-empty content sequences. */
  function MatchedPairs(eng: seq<ContentItem>, ger: seq<ContentItem>, S: Matrix, settings: Settings): seq<Link>
    requires IsMatrix(S, |eng|, |ger|) && |eng| > 0 && |ger| > 0
  {
    Pairs(ScoresFor(eng, ger, S, settings), settings.similarityThreshold, |eng|)
  }

  /** Pairs, then omissions, then additions: the records before sorting. */
  function Unsorted(eng: seq<ContentItem>, ger: seq<ContentItem>, S: Matrix, settings: Settings): seq<Link>
    requires IsMatrix(S, |eng|, |ger|) && |eng| > 0 && |ger| > 0
  {
    var pairs := MatchedPairs(eng, ger, S, settings);
    pairs + Omissions(EngIndices(pairs), |eng|) + Additions(GerIndices(pairs), |ger|)
  }

  /** The index-level result of align_content. */
  function Alignment(eng: seq<ContentItem>, ger: seq<ContentItem>, S: Matrix, settings: Settings): seq<Link>
    requires IsMatrix(S, |eng|, |ger|)
  {
    if |eng| == 0 || |ger| == 0 then [] else SortByPage(eng, Unsorted(eng, ger, S, settings))
  }

  /** Replaces indices by the items they designate. */
  function Resolve(eng: seq<ContentItem>, ger: seq<ContentItem>, links: seq<Link>): (r: seq<AlignedPair>)
    ensures |r| == |links|
  {
    seq(|links|, k requires 0 <= k < |links| =>
      AlignedPair(
        if links[k].eng.Some? && links[k].eng.value < |eng| then Some(eng[links[k].eng.value]) else None,
        if links[k].ger.Some? && links[k].ger.value < |ger| then Some(ger[links[k].ger.value]) else None,
        links[k].similarity))
  }

  // ---------------------------------------------------------------------
  // Properties of the pairs

  lemma CountIdxOne(x: Link, e: bool, o: Option<nat>)
    ensures CountIdx([x], e, o) == if Idx(x, e) == o then 1 else 0
  {
    assert [x][..0] == [];
  }

  lemma {:induction false} CountIdxPositive(s: seq<Link>, e: bool, o: Option<nat>)
    ensures CountIdx(s, e, o) > 0 <==> exists l :: l in s && Idx(l, e) == o
  {
    if s != [] {
      var init, x := s[..|s| - 1], s[|s| - 1];
      assert s == init + [x];
      CountIdxPositive(init, e, o);
      if CountIdx(init, e, o) > 0 {
        var l :| l in init && Idx(l, e) == o;
        assert l in s;
      }
    }
  }

  /** Every pair belongs to an accepted row, sits in that row's best column and reports the semantic score. */
  lemma {:induction false} PairsSound(sc: Scores, threshold: real, k: nat, l: Link)
    requires sc.Valid() && k <= |sc.bestGer|
    requires l in Pairs(sc, threshold, k)
    ensures l.eng.Some? && l.eng.value < k && Accepted(sc, threshold, l.eng.value)
    ensures l.ger == Some(sc.bestGer[l.eng.value]) && l.similarity == sc.semantic[l.eng.value][l.ger.value]
  {
    var added := RowPair(sc, threshold, k - 1);
    assert Pairs(sc, threshold, k) == Pairs(sc, threshold, k - 1) + added;
    if l !in added {
      PairsSound(sc, threshold, k - 1, l);
    }
  }

  /** Every accepted row contributes its pair. */
  lemma {:induction false} PairsComplete(sc: Scores, threshold: real, k: nat, i: nat)
    requires sc.Valid() && k <= |sc.bestGer|
    requires i < k && Accepted(sc, threshold, i)
    ensures Link(Some(i), Some(sc.bestGer[i]), sc.semantic[i][sc.bestGer[i]]) in Pairs(sc, threshold, k)
  {
    if i < k - 1 {
      PairsComplete(sc, threshold, k - 1, i);
    }
  }

  /** Pairs come in increasing English order. */
  lemma {:induction false} PairsOrdered(sc: Scores, threshold: real, k: nat)
    requires sc.Valid() && k <= |sc.bestGer|
    ensures forall a, b :: 0 <= a < b < |Pairs(sc, threshold, k)| ==>
      Pairs(sc, threshold, k)[a].eng.value < Pairs(sc, threshold, k)[b].eng.value
  {
    if k > 0 {
      PairsOrdered(sc, threshold, k - 1);
      var prev := Pairs(sc, threshold, k - 1);
      forall a | 0 <= a < |prev| ensures prev[a].eng.value < k - 1 {
        assert prev[a] in prev;
      }
    }
  }

  /** No English and no German item is in two pairs. */
  lemma PairsInjective(sc: Scores, threshold: real)
    requires sc.Valid()
    ensures forall a, b :: 0 <= a < b < |Pairs(sc, threshold, |sc.bestGer|)| ==>
      Pairs(sc, threshold, |sc.bestGer|)[a].eng != Pairs(sc, threshold, |sc.bestGer|)[b].eng &&
      Pairs(sc, threshold, |sc.bestGer|)[a].ger != Pairs(sc, threshold, |sc.bestGer|)[b].ger
  {
    var ps := Pairs(sc, threshold, |sc.bestGer|);
    PairsOrdered(sc, threshold, |sc.bestGer|);
    forall a, b | 0 <= a < b < |ps| ensures ps[a].ger != ps[b].ger {
      assert ps[a] in ps && ps[b] in ps;
      PairsSound(sc, threshold, |sc.bestGer|, ps[a]);
      PairsSound(sc, threshold, |sc.bestGer|, ps[b]);
      // an accepted row is the best row of its column, so the column determines the row
    }
  }

  lemma {:induction false} PairsCountEng(sc: Scores, threshold: real, k: nat, i: nat)
    requires sc.Valid() && k <= |sc.bestGer| && i < |sc.bestGer|
    ensures CountIdx(Pairs(sc, threshold, k), true, Some(i)) == if i < k && Accepted(sc, threshold, i) then 1 else 0
  {
    if k > 0 {
      var added := RowPair(sc, threshold, k - 1);
      PairsCountEng(sc, threshold, k - 1, i);
      CountIdxAppend(Pairs(sc, threshold, k - 1), added, true, Some(i));
      if added != [] {
        assert added == [added[0]];
        CountIdxOne(added[0], true, Some(i));
      }
    }
  }

  /** A German item is in at most one pair: the one of the best row of its column, when that row is accepted with it. */
  lemma {:induction false} PairsCountGer(sc: Scores, threshold: real, k: nat, j: nat)
    requires sc.Valid() && k <= |sc.bestGer| && j < |sc.bestEng|
    ensures CountIdx(Pairs(sc, threshold, k), false, Some(j))
      == (var i := sc.bestEng[j]; if i < k && Accepted(sc, threshold, i) && sc.bestGer[i] == j then 1 else 0)
  {
    if k > 0 {
      var added := RowPair(sc, threshold, k - 1);
      PairsCountGer(sc, threshold, k - 1, j);
      CountIdxAppend(Pairs(sc, threshold, k - 1), added, false, Some(j));
      if added != [] {
        assert added == [added[0]];
        CountIdxOne(added[0], false, Some(j));
      }
    }
  }

  lemma {:induction false} OmissionsCount(matched: set<nat>, k: nat, i: nat, j: nat)
    ensures CountIdx(Omissions(matched, k), true, Some(i)) == if i < k && i !in matched then 1 else 0
    ensures CountIdx(Omissions(matched, k), false, Some(j)) == 0
  {
    if k > 0 {
      var added := if k - 1 !in matched then [Link(Some(k - 1), None, 0.0)] else [];
      OmissionsCount(matched, k - 1, i, j);
      CountIdxAppend(Omissions(matched, k - 1), added, true, Some(i));
      CountIdxAppend(Omissions(matched, k - 1), added, false, Some(j));
      if added != [] {
        CountIdxOne(added[0], true, Some(i));
        CountIdxOne(added[0], false, Some(j));
      }
    }
  }

  lemma {:induction false} AdditionsCount(used: set<nat>, k: nat, i: nat, j: nat)
    ensures CountIdx(Additions(used, k), false, Some(j)) == if j < k && j !in used then 1 else 0
    ensures CountIdx(Additions(used, k), true, Some(i)) == 0
  {
    if k > 0 {
      var added := if k - 1 !in used then [Link(None, Some(k - 1), 0.0)] else [];
      AdditionsCount(used, k - 1, i, j);
      CountIdxAppend(Additions(used, k - 1), added, true, Some(i));
      CountIdxAppend(Additions(used, k - 1), added, false, Some(j));
      if added != [] {
        CountIdxOne(added[0], true, Some(i));
        CountIdxOne(added[0], false, Some(j));
      }
    }
  }

  /** Raising the similarity threshold never adds a pair. */
  lemma {:induction false} PairsThresholdMonotone(sc: Scores, lower: real, higher: real, k: nat)
    requires sc.Valid() && k <= |sc.bestGer| && lower <= higher
    ensures forall l :: l in Pairs(sc, higher, k) ==> l in Pairs(sc, lower, k)
    ensures |Pairs(sc, higher, k)| <= |Pairs(sc, lower, k)|
  {
    if k > 0 {
      PairsThresholdMonotone(sc, lower, higher, k - 1);
      assert Accepted(sc, higher, k - 1) ==> Accepted(sc, lower, k - 1);
    }
  }

  // ---------------------------------------------------------------------
  // Counting indices across the records

  /** The sum over i < n of the number of records whose index is i. */
  function SumCount(s: seq<Link>, e: bool, n: nat): nat {
    if n == 0 then 0 else SumCount(s, e, n - 1) + CountIdx(s, e, Some(n - 1))
  }

  lemma {:induction false} SumCountAppend(a: seq<Link>, b: seq<Link>, e: bool, n: nat)
    ensures SumCount(a + b, e, n) == SumCount(a, e, n) + SumCount(b, e, n)
  {
    if n > 0 {
      SumCountAppend(a, b, e, n - 1);
      CountIdxAppend(a, b, e, Some(n - 1));
    }
  }

  lemma {:induction false} SumCountOne(x: Link, e: bool, n: nat)
    ensures SumCount([x], e, n) == if Idx(x, e).Some? && Idx(x, e).value < n then 1 else 0
  {
    if n > 0 {
      SumCountOne(x, e, n - 1);
      CountIdxOne(x, e, Some(n - 1));
    }
  }

  lemma {:induction false} SumCountEmpty(e: bool, n: nat)
    ensures SumCount([], e, n) == 0
  {
    if n > 0 {
      SumCountEmpty(e, n - 1);
    }
  }

  /** When every record has an index below n, each record is counted once. */
  lemma {:induction false} SumCountAll(s: seq<Link>, e: bool, n: nat)
    requires forall l :: l in s ==> Idx(l, e).Some? && Idx(l, e).value < n
    ensures SumCount(s, e, n) == |s|
  {
    if s == [] {
      SumCountEmpty(e, n);
    } else {
      var init, x := s[..|s| - 1], s[|s| - 1];
      assert s == init + [x];
      SumCountAll(init, e, n);
      SumCountAppend(init, [x], e, n);
      SumCountOne(x, e, n);
    }
  }

  /** Records without an index of that side are not counted. */
  lemma {:induction false} SumCountNone(s: seq<Link>, e: bool, n: nat)
    requires forall l :: l in s ==> Idx(l, e).None?
    ensures SumCount(s, e, n) == 0
  {
    if s == [] {
      SumCountEmpty(e, n);
    } else {
      var init, x := s[..|s| - 1], s[|s| - 1];
      assert s == init + [x];
      SumCountNone(init, e, n);
      SumCountAppend(init, [x], e, n);
      SumCountOne(x, e, n);
    }
  }

  lemma {:induction false} SumCountOnes(s: seq<Link>, e: bool, n: nat)
    requires forall i :: 0 <= i < n ==> CountIdx(s, e, Some(i)) == 1
    ensures SumCount(s, e, n) == n
  {
    if n > 0 {
      SumCountOnes(s, e, n - 1);
    }
  }

  // ---------------------------------------------------------------------
  // Properties of the alignment

  /**
   * Row i is paired with column j exactly when j is the first maximum of row i
   * of the blended matrix, i the first maximum of column j, and the score
   * reaches the threshold.
   */
  lemma MutualBestMeaning(B: Matrix, S: Matrix, n: nat, m: nat, threshold: real, i: nat, j: nat)
    requires IsMatrix(B, n, m) && IsMatrix(S, n, m) && i < n && j < m
    ensures (Accepted(ScoresOf(B, S, n, m), threshold, i) && ScoresOf(B, S, n, m).bestGer[i] == j)
      <==> IsFirstMax(B[i], j) && IsFirstMax(Column(B, j), i) && B[i][j] >= threshold
  {
    FirstMaxUnique(B[i], j);
    FirstMaxUnique(Column(B, j), i);
  }

  lemma {:induction false} WithKeyNone(eng: seq<ContentItem>, s: seq<Link>)
    ensures (forall l :: l in s ==> l.eng.Some? && l.eng.value < |eng|) ==> WithKey(eng, s, None) == []
    ensures (forall l :: l in s ==> l.eng.None?) ==> WithKey(eng, s, None) == s
  {
    if s != [] {
      var init := s[..|s| - 1];
      assert s == init + [s[|s| - 1]];
      assert forall l :: l in init ==> l in s;
      WithKeyNone(eng, init);
    }
  }

  /** English item i is in exactly one record before sorting. */
  lemma UnsortedCoversEng(eng: seq<ContentItem>, ger: seq<ContentItem>, S: Matrix, settings: Settings, i: nat)
    requires IsMatrix(S, |eng|, |ger|) && |eng| > 0 && |ger| > 0 && i < |eng|
    ensures CountIdx(Unsorted(eng, ger, S, settings), true, Some(i)) == 1
  {
    var pairs := MatchedPairs(eng, ger, S, settings);
    var om := Omissions(EngIndices(pairs), |eng|);
    var ad := Additions(GerIndices(pairs), |ger|);
    assert Unsorted(eng, ger, S, settings) == pairs + om + ad;
    CountIdxAppend(pairs + om, ad, true, Some(i));
    CountIdxAppend(pairs, om, true, Some(i));
    PairsCountEng(ScoresFor(eng, ger, S, settings), settings.similarityThreshold, |eng|, i);
    OmissionsCount(EngIndices(pairs), |eng|, i, 0);
    AdditionsCount(GerIndices(pairs), |ger|, i, 0);
    CountIdxPositive(pairs, true, Some(i));
    if i in EngIndices(pairs) {
      var l :| l in pairs && l.eng == Some(i);
      assert Idx(l, true) == Some(i);
    }
  }

  /** German item j is in exactly one record before sorting. */
  lemma UnsortedCoversGer(eng: seq<ContentItem>, ger: seq<ContentItem>, S: Matrix, settings: Settings, j: nat)
    requires IsMatrix(S, |eng|, |ger|) && |eng| > 0 && |ger| > 0 && j < |ger|
    ensures CountIdx(Unsorted(eng, ger, S, settings), false, Some(j)) == 1
  {
    var pairs := MatchedPairs(eng, ger, S, settings);
    var om := Omissions(EngIndices(pairs), |eng|);
    var ad := Additions(GerIndices(pairs), |ger|);
    assert Unsorted(eng, ger, S, settings) == pairs + om + ad;
    CountIdxAppend(pairs + om, ad, false, Some(j));
    CountIdxAppend(pairs, om, false, Some(j));
    PairsCountGer(ScoresFor(eng, ger, S, settings), settings.similarityThreshold, |eng|, j);
    OmissionsCount(EngIndices(pairs), |eng|, 0, j);
    AdditionsCount(GerIndices(pairs), |ger|, 0, j);
    CountIdxPositive(pairs, false, Some(j));
    if j in GerIndices(pairs) {
      var l :| l in pairs && l.ger == Some(j);
      assert Idx(l, false) == Some(j);
    }
  }

  /** Each English and each German item is in exactly one record before sorting. */
  lemma UnsortedCoverage(eng: seq<ContentItem>, ger: seq<ContentItem>, S: Matrix, settings: Settings)
    requires IsMatrix(S, |eng|, |ger|) && |eng| > 0 && |ger| > 0
    ensures forall i :: 0 <= i < |eng| ==> CountIdx(Unsorted(eng, ger, S, settings), true, Some(i)) == 1
    ensures forall j :: 0 <= j < |ger| ==> CountIdx(Unsorted(eng, ger, S, settings), false, Some(j)) == 1
  {
    forall i | 0 <= i < |eng| ensures CountIdx(Unsorted(eng, ger, S, settings), true, Some(i)) == 1 {
      UnsortedCoversEng(eng, ger, S, settings, i);
    }
    forall j | 0 <= j < |ger| ensures CountIdx(Unsorted(eng, ger, S, settings), false, Some(j)) == 1 {
      UnsortedCoversGer(eng, ger, S, settings, j);
    }
  }

  /**
   * align_content returns nothing when either side is empty; otherwise every
   * English and every German item appears in exactly one record.
   */
  lemma AlignmentCoverage(eng: seq<ContentItem>, ger: seq<ContentItem>, S: Matrix, settings: Settings)
    requires IsMatrix(S, |eng|, |ger|)
    ensures |eng| == 0 || |ger| == 0 ==> Alignment(eng, ger, S, settings) == []
    ensures |ger| > 0 ==> forall i :: 0 <= i < |eng| ==> CountIdx(Alignment(eng, ger, S, settings), true, Some(i)) == 1
    ensures |eng| > 0 ==> forall j :: 0 <= j < |ger| ==> CountIdx(Alignment(eng, ger, S, settings), false, Some(j)) == 1
  {
    if |eng| > 0 && |ger| > 0 {
      UnsortedCoverage(eng, ger, S, settings);
      SortProperties(eng, Unsorted(eng, ger, S, settings));
    }
  }

  /** There are at most min(n, m) pairs, and n + m - pairs records in all. */
  lemma AlignmentSize(eng: seq<ContentItem>, ger: seq<ContentItem>, S: Matrix, settings: Settings)
    requires IsMatrix(S, |eng|, |ger|) && |eng| > 0 && |ger| > 0
    ensures |MatchedPairs(eng, ger, S, settings)| <= |eng|
    ensures |MatchedPairs(eng, ger, S, settings)| <= |ger|
    ensures |Alignment(eng, ger, S, settings)| == |eng| + |ger| - |MatchedPairs(eng, ger, S, settings)|
  {
    var n, m := |eng|, |ger|;
    var pairs := MatchedPairs(eng, ger, S, settings);
    var om := Omissions(EngIndices(pairs), n);
    var ad := Additions(GerIndices(pairs), m);
    var u := Unsorted(eng, ger, S, settings);
    assert u == pairs + om + ad;
    UnsortedCoverage(eng, ger, S, settings);
    SumCountOnes(u, true, n);
    SumCountAppend(pairs + om, ad, true, n);
    SumCountAppend(pairs, om, true, n);
    SumCountAll(pairs, true, n);
    SumCountAll(om, true, n);
    SumCountNone(ad, true, n);
    SumCountOnes(u, false, m);
    SumCountAppend(pairs + om, ad, false, m);
    SumCountAppend(pairs, om, false, m);
    SumCountAll(pairs, false, m);
    SumCountNone(om, false, m);
    SumCountAll(ad, false, m);
    SortProperties(eng, u);
  }

  /**
   * The records are sorted by English page and the sort is stable: records
   * with equal keys keep their order, and the records without an English item
   * come last, as the additions in German order.
   */
  lemma AlignmentOrder(eng: seq<ContentItem>, ger: seq<ContentItem>, S: Matrix, settings: Settings)
    requires IsMatrix(S, |eng|, |ger|) && |eng| > 0 && |ger| > 0
    ensures SortedByPage(eng, Alignment(eng, ger, S, settings))
    ensures forall k :: WithKey(eng, Alignment(eng, ger, S, settings), k) == WithKey(eng, Unsorted(eng, ger, S, settings), k)
    ensures WithKey(eng, Alignment(eng, ger, S, settings), None)
      == Additions(GerIndices(MatchedPairs(eng, ger, S, settings)), |ger|)
  {
    var pairs := MatchedPairs(eng, ger, S, settings);
    var om := Omissions(EngIndices(pairs), |eng|);
    var ad := Additions(GerIndices(pairs), |ger|);
    SortProperties(eng, pairs + om + ad);
    WithKeyAppend(eng, pairs + om, ad, None);
    WithKeyAppend(eng, pairs, om, None);
    WithKeyNone(eng, pairs);
    WithKeyNone(eng, om);
    WithKeyNone(eng, ad);
  }

  /**
   * Every record is a pair, an omission or an addition: a pair reports the
   * semantic score of its two items and its blended score reached the
   * threshold; omissions and additions report 0.0.
   */
  lemma AlignmentRecords(eng: seq<ContentItem>, ger: seq<ContentItem>, S: Matrix, settings: Settings, l: Link)
    requires IsMatrix(S, |eng|, |ger|)
    requires l in Alignment(eng, ger, S, settings)
    ensures l.eng.Some? || l.ger.Some?
    ensures l.eng.Some? ==> l.eng.value < |eng|
    ensures l.ger.Some? ==> l.ger.value < |ger|
    ensures l.eng.Some? && l.ger.Some? ==>
      l.similarity == S[l.eng.value][l.ger.value]
      && Blended(eng, ger, S, settings)[l.eng.value][l.ger.value] >= settings.similarityThreshold
    ensures l.eng.None? || l.ger.None? ==> l.similarity == 0.0
  {
    var pairs := MatchedPairs(eng, ger, S, settings);
    SortProperties(eng, Unsorted(eng, ger, S, settings));
    if l in pairs {
      PairsSound(ScoresFor(eng, ger, S, settings), settings.similarityThreshold, |eng|, l);
    }
  }

  /** Raising the similarity threshold never adds a pair. */
  lemma ThresholdMonotone(eng: seq<ContentItem>, ger: seq<ContentItem>, S: Matrix, settings: Settings, higher: real)
    requires IsMatrix(S, |eng|, |ger|) && |eng| > 0 && |ger| > 0 && settings.similarityThreshold <= higher
    ensures forall l :: (l in MatchedPairs(eng, ger, S, settings.(similarityThreshold := higher))
      ==> l in MatchedPairs(eng, ger, S, settings))
    ensures |MatchedPairs(eng, ger, S, settings.(similarityThreshold := higher))| <= |MatchedPairs(eng, ger, S, settings)|
  {
    var raised := settings.(similarityThreshold := higher);
    MatrixExt(Blended(eng, ger, S, raised), Blended(eng, ger, S, settings), |eng|, |ger|);
    assert ScoresFor(eng, ger, S, raised) == ScoresFor(eng, ger, S, settings);
    PairsThresholdMonotone(ScoresFor(eng, ger, S, settings), settings.similarityThreshold, higher, |eng|);
  }

  /** The mutual-best-match loop of align_content: accepted pairs and used_german_indices. */
  method MutualBestPairs(scores: Scores, threshold: real) returns (pairs: seq<Link>, used: set<nat>)
    requires scores.Valid()
    ensures pairs == Pairs(scores, threshold, |scores.bestGer|)
    ensures used == GerIndices(pairs)
  {
    pairs, used := [], {};
    for engIdx := 0 to |scores.bestGer|
      invariant pairs == Pairs(scores, threshold, engIdx)
      invariant used == GerIndices(pairs)
    {
      var gerIdx := scores.bestGer[engIdx];
      var isMutualBestMatch := scores.bestEng[gerIdx] == engIdx;
      var score := scores.blended[engIdx][gerIdx];
      if isMutualBestMatch && score >= threshold {
        pairs := pairs + [Link(Some(engIdx), Some(gerIdx), scores.semantic[engIdx][gerIdx])];
        used := used + {gerIdx};
      }
    }
  }

  /** The two loops that append omission and addition records. */
  method AppendUnmatched(pairs: seq<Link>, n: nat, m: nat) returns (links: seq<Link>)
    ensures links == pairs + Omissions(EngIndices(pairs), n) + Additions(GerIndices(pairs), m)
  {
    var matchedEnglishIndices := EngIndices(pairs);
    var usedGermanIndices := GerIndices(pairs);
    links := pairs;
    for idx := 0 to n
      invariant links == pairs + Omissions(matchedEnglishIndices, idx)
    {
      if idx !in matchedEnglishIndices {
        SnocAssoc(pairs, Omissions(matchedEnglishIndices, idx), Link(Some(idx), None, 0.0));
        links := links + [Link(Some(idx), None, 0.0)];
      } else {
        assert Omissions(matchedEnglishIndices, idx + 1) == Omissions(matchedEnglishIndices, idx) + [];
      }
    }
    ghost var front := pairs + Omissions(matchedEnglishIndices, n);
    for idx := 0 to m
      invariant links == front + Additions(usedGermanIndices, idx)
    {
      if idx !in usedGermanIndices {
        SnocAssoc(front, Additions(usedGermanIndices, idx), Link(None, Some(idx), 0.0));
        links := links + [Link(None, Some(idx), 0.0)];
      } else {
        assert Additions(usedGermanIndices, idx + 1) == Additions(usedGermanIndices, idx) + [];
      }
    }
  }

  method AlignContent(eng: seq<ContentItem>, ger: seq<ContentItem>, semantic: Matrix, settings: Settings)
    returns (result: seq<AlignedPair>)
    requires IsMatrix(semantic, |eng|, |ger|)
    ensures result == Resolve(eng, ger, Alignment(eng, ger, semantic, settings))
  {
    if |eng| == 0 || |ger| == 0 {
      return [];
    }
    var numEng, numGer := |eng|, |ger|;
    var typeMatrix := TypeMatrix(eng, ger, settings);
    var proximityMatrix := ProximityMatrix(numEng, numGer);
    RowsAre(typeMatrix, TypeScores(eng, ger, settings));
    RowsAre(proximityMatrix, Proximities(numEng, numGer));
    var blended := Blend(settings, semantic, Rows(typeMatrix), Rows(proximityMatrix), numEng, numGer);
    assert blended == Blended(eng, ger, semantic, settings);
    var scores := ScoresOf(blended, semantic, numEng, numGer);
    var pairs, used := MutualBestPairs(scores, settings.similarityThreshold);
    var alignedPairs := AppendUnmatched(pairs, numEng, numGer);
    assert alignedPairs == Unsorted(eng, ger, semantic, settings);
    alignedPairs := SortByPage(eng, alignedPairs);
    result := Resolve(eng, ger, alignedPairs);
  }
}
