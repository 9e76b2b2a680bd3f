// Heading alignment of the PDF prototypes (align_sections in test1.py and in
// test.py). With sentence embeddings available, every English heading takes
// the first German heading of highest cosine similarity when that similarity
// reaches the threshold, German headings may be taken more than once.
// Without them, English headings are taken in order and each takes the first
// unused German heading of strictly highest string-similarity ratio, when that
// ratio is positive and at least 0.3; a German heading is used at most once.
// Both score tables are inputs: the cosine similarities of the heading
// embeddings, and difflib's ratio of the lower-cased headings.

module HeadingAlign {
  import opened Util
  import opened Matrices

  /** An English section index, the German section index it is paired with, and the score. */
  datatype Match = Match(eng: nat, ger: nat, score: real)

  /** The permissive threshold of the string-similarity fallback. */
  const FallbackThreshold: real := 0.3

  function GerSet(ms: seq<Match>): set<nat> {
    set k | 0 <= k < |ms| :: ms[k].ger
  }

  /** English indices strictly increase along the matches. */
  ghost predicate EngIncreasing(ms: seq<Match>) {
    forall p, q :: 0 <= p < q < |ms| ==> ms[p].eng < ms[q].eng
  }

  // ---------------------------------------------------------------------
  // Similarity branch

  /** Rows 0..k-1 whose first argmax reaches the threshold, with that column and score. */
  function SimilarityMatches(sim: Matrix, threshold: real, k: nat): (r: seq<Match>)
    requires k <= |sim| && forall i :: 0 <= i < |sim| ==> |sim[i]| > 0
  {
    if k == 0 then []
    else
      var i := k - 1;
      var j := FirstMax(sim[i]);
      SimilarityMatches(sim, threshold, i) + if sim[i][j] >= threshold then [Match(i, j, sim[i][j])] else []
  }

  /** Every pair joins a row to its first maximum, at a score of at least the threshold, in row order. */
  lemma {:induction false} SimilaritySound(sim: Matrix, threshold: real, k: nat)
    requires k <= |sim| && forall i :: 0 <= i < |sim| ==> |sim[i]| > 0
    ensures forall p :: 0 <= p < |SimilarityMatches(sim, threshold, k)| ==>
      var mt := SimilarityMatches(sim, threshold, k)[p];
      mt.eng < k && IsFirstMax(sim[mt.eng], mt.ger) && mt.score == sim[mt.eng][mt.ger] && mt.score >= threshold
    ensures EngIncreasing(SimilarityMatches(sim, threshold, k))
  {
    if k > 0 {
      SimilaritySound(sim, threshold, k - 1);
    }
  }

  /** Some pair has English index i. */
  ghost predicate Paired(ms: seq<Match>, i: nat) {
    exists p :: 0 <= p < |ms| && ms[p].eng == i
  }

  lemma PairedAppend(a: seq<Match>, b: seq<Match>, i: nat)
    ensures Paired(a + b, i) <==> Paired(a, i) || Paired(b, i)
  {
    var u := a + b;
    if Paired(a, i) {
      var p :| 0 <= p < |a| && a[p].eng == i;
      assert u[p] == a[p];
    }
    if Paired(b, i) {
      var p :| 0 <= p < |b| && b[p].eng == i;
      assert u[|a| + p] == b[p];
    }
    if Paired(u, i) {
      var p :| 0 <= p < |u| && u[p].eng == i;
      if p < |a| {
        assert a[p] == u[p];
      } else {
        assert b[p - |a|] == u[p];
      }
    }
  }

  /** Row k-1 is paired among the first k rows exactly when its maximum reaches the threshold. */
  lemma SimilarityLast(sim: Matrix, threshold: real, k: nat)
    requires 0 < k <= |sim| && forall i :: 0 <= i < |sim| ==> |sim[i]| > 0
    ensures Paired(SimilarityMatches(sim, threshold, k), k - 1) <==> sim[k - 1][FirstMax(sim[k - 1])] >= threshold
  {
    var r0 := SimilarityMatches(sim, threshold, k - 1);
    var j := FirstMax(sim[k - 1]);
    var tail := if sim[k - 1][j] >= threshold then [Match(k - 1, j, sim[k - 1][j])] else [];
    SimilaritySound(sim, threshold, k - 1);
    PairedAppend(r0, tail, k - 1);
    assert !Paired(r0, k - 1);
    if sim[k - 1][j] >= threshold {
      assert tail[0].eng == k - 1;
    }
  }

  /** A later row does not change whether an earlier row is paired. */
  lemma SimilarityKeeps(sim: Matrix, threshold: real, k: nat, i: nat)
    requires 0 < k <= |sim| && forall i :: 0 <= i < |sim| ==> |sim[i]| > 0
    requires i < k - 1
    ensures Paired(SimilarityMatches(sim, threshold, k), i) <==> Paired(SimilarityMatches(sim, threshold, k - 1), i)
  {
    var r0 := SimilarityMatches(sim, threshold, k - 1);
    var j := FirstMax(sim[k - 1]);
    var tail := if sim[k - 1][j] >= threshold then [Match(k - 1, j, sim[k - 1][j])] else [];
    PairedAppend(r0, tail, i);
    assert !Paired(tail, i);
  }

  /** A row is paired exactly when the maximum of its row reaches the threshold. */
  lemma {:induction false} SimilarityComplete(sim: Matrix, threshold: real, k: nat, i: nat)
    requires k <= |sim| && forall i :: 0 <= i < |sim| ==> |sim[i]| > 0
    requires i < k
    ensures Paired(SimilarityMatches(sim, threshold, k), i) <==> sim[i][FirstMax(sim[i])] >= threshold
  {
    if i < k - 1 {
      SimilarityKeeps(sim, threshold, k, i);
      SimilarityComplete(sim, threshold, k - 1, i);
    } else {
      SimilarityLast(sim, threshold, k);
    }
  }

  /** German headings may be taken twice: two English rows with the same best column. */
  lemma SimilarityReusesGerman()
    ensures SimilarityMatches([[0.9], [0.7]], 0.55, 2) == [Match(0, 0, 0.9), Match(1, 0, 0.7)]
  {
    assert FirstMax([0.9]) == 0;
    assert FirstMax([0.7]) == 0;
  }

  /**
   * The similarity branch: no pairs when either side is empty, else every
   * English row in order, paired with its first argmax column if the score
   * reaches the threshold.
   */
  method SimilarityAlign(sim: Matrix, n: nat, m: nat, threshold: real) returns (matches: seq<Match>)
    requires IsMatrix(sim, n, m)
    ensures matches == if n == 0 || m == 0 then [] else SimilarityMatches(sim, threshold, n)
  {
    if n == 0 || m == 0 {
      return [];
    }
    matches := [];
    for i := 0 to n
      invariant matches == SimilarityMatches(sim, threshold, i)
    {
      var j := FirstMax(sim[i]);
      var score := sim[i][j];
      if score >= threshold {
        matches := matches + [Match(i, j, score)];
      }
    }
  }

  // ---------------------------------------------------------------------
  // Fallback branch

  /**
   * The scan of the first k columns of a row: the first unused column whose
   * score is strictly better than everything before it, starting from 0.0.
   */
  function BestUnused(row: seq<real>, used: set<nat>, k: nat): (Option<nat>, real)
    requires k <= |row|
  {
    if k == 0 then (None, 0.0)
    else
      var best := BestUnused(row, used, k - 1);
      if (k - 1) !in used && row[k - 1] > best.1 then (Some(k - 1), row[k - 1]) else best
  }

  /** j is the first unused column of strictly highest positive score among the first k. */
  ghost predicate IsBestUnused(row: seq<real>, used: set<nat>, k: nat, j: nat)
    requires k <= |row|
  {
    && j < k && j !in used && row[j] > 0.0
    && (forall c :: 0 <= c < k && c !in used ==> row[c] <= row[j])
    && (forall c :: 0 <= c < j && c !in used ==> row[c] < row[j])
  }

  /** What the scan finds: the first strictly-best unused positive column, or nothing when no unused column is positive. */
  lemma {:induction false} BestUnusedMeaning(row: seq<real>, used: set<nat>, k: nat)
    requires k <= |row|
    ensures BestUnused(row, used, k).0.Some? ==>
      IsBestUnused(row, used, k, BestUnused(row, used, k).0.value)
      && BestUnused(row, used, k).1 == row[BestUnused(row, used, k).0.value]
    ensures BestUnused(row, used, k).0.None? <==> forall c :: 0 <= c < k && c !in used ==> row[c] <= 0.0
    ensures BestUnused(row, used, k).0.None? ==> BestUnused(row, used, k).1 == 0.0
  {
    if k > 0 {
      BestUnusedMeaning(row, used, k - 1);
    }
  }

  /** The loop state of the fallback: the pairs so far and the German headings used. */
  datatype Greedy = Greedy(matches: seq<Match>, used: set<nat>)

  /** The fallback over English rows 0..k-1. */
  function Fallback(ratio: Matrix, m: nat, k: nat): Greedy
    requires k <= |ratio| && forall i :: 0 <= i < |ratio| ==> |ratio[i]| == m
  {
    if k == 0 then Greedy([], {})
    else
      var g := Fallback(ratio, m, k - 1);
      var i := k - 1;
      var best := BestUnused(ratio[i], g.used, m);
      if best.0.Some? && best.1 >= FallbackThreshold then
        Greedy(g.matches + [Match(i, best.0.value, best.1)], g.used + {best.0.value})
      else g
  }

  lemma GerSetSnoc(ms: seq<Match>, mt: Match)
    ensures GerSet(ms + [mt]) == GerSet(ms) + {mt.ger}
  {
    var u := ms + [mt];
    assert forall p :: 0 <= p < |ms| ==> u[p] == ms[p];
    assert forall x :: x in GerSet(u) ==> x in GerSet(ms) + {mt.ger};
    assert forall p :: 0 <= p < |ms| ==> ms[p].ger in GerSet(u);
    assert u[|ms|].ger in GerSet(u);
  }

  /** The used set is the set of paired German indices; English and German indices never repeat. */
  lemma {:induction false} FallbackInjective(ratio: Matrix, m: nat, k: nat)
    requires k <= |ratio| && forall i :: 0 <= i < |ratio| ==> |ratio[i]| == m
    ensures Fallback(ratio, m, k).used == GerSet(Fallback(ratio, m, k).matches)
    ensures forall p :: 0 <= p < |Fallback(ratio, m, k).matches| ==>
      Fallback(ratio, m, k).matches[p].eng < k && Fallback(ratio, m, k).matches[p].ger < m
    ensures EngIncreasing(Fallback(ratio, m, k).matches)
    ensures forall p, q :: 0 <= p < q < |Fallback(ratio, m, k).matches| ==>
      Fallback(ratio, m, k).matches[p].ger != Fallback(ratio, m, k).matches[q].ger
  {
    if k > 0 {
      FallbackInjective(ratio, m, k - 1);
      var g := Fallback(ratio, m, k - 1);
      var best := BestUnused(ratio[k - 1], g.used, m);
      BestUnusedMeaning(ratio[k - 1], g.used, m);
      if best.0.Some? && best.1 >= FallbackThreshold {
        var ms := g.matches + [Match(k - 1, best.0.value, best.1)];
        assert forall p :: 0 <= p < |g.matches| ==> ms[p] == g.matches[p];
        GerSetSnoc(g.matches, Match(k - 1, best.0.value, best.1));
      }
    }
  }

  /** Earlier rows' pairs are kept as later rows are processed. */
  lemma {:induction false} FallbackPrefix(ratio: Matrix, m: nat, i: nat, k: nat)
    requires k <= |ratio| && forall i :: 0 <= i < |ratio| ==> |ratio[i]| == m
    requires i <= k
    ensures Fallback(ratio, m, i).matches <= Fallback(ratio, m, k).matches
    decreases k - i
  {
    if i < k {
      FallbackPrefix(ratio, m, i, k - 1);
    }
  }

  /**
   * Each pair takes the first strictly-best German heading not used by the
   * pairs before it, with a ratio of at least 0.3; a row without a pair had
   * no unused German heading of positive ratio, or its best ratio was below 0.3.
   */
  lemma {:induction false} FallbackChoice(ratio: Matrix, m: nat, k: nat)
    requires k <= |ratio| && forall i :: 0 <= i < |ratio| ==> |ratio[i]| == m
    ensures forall p :: 0 <= p < |Fallback(ratio, m, k).matches| ==>
      var mt := Fallback(ratio, m, k).matches[p];
      && mt.eng < k
      && IsBestUnused(ratio[mt.eng], GerSet(Fallback(ratio, m, k).matches[..p]), m, mt.ger)
      && mt.score == ratio[mt.eng][mt.ger] && mt.score >= FallbackThreshold
  {
    if k > 0 {
      FallbackChoice(ratio, m, k - 1);
      FallbackInjective(ratio, m, k - 1);
      var g := Fallback(ratio, m, k - 1);
      var best := BestUnused(ratio[k - 1], g.used, m);
      BestUnusedMeaning(ratio[k - 1], g.used, m);
      if best.0.Some? && best.1 >= FallbackThreshold {
        var ms := g.matches + [Match(k - 1, best.0.value, best.1)];
        assert ms[..|g.matches|] == g.matches;
        assert forall p :: 0 <= p < |g.matches| ==> ms[p] == g.matches[p] && ms[..p] == g.matches[..p];
      }
    }
  }

  /** A row is left unpaired exactly when its scan finds nothing or a ratio below 0.3. */
  lemma FallbackSkips(ratio: Matrix, m: nat, i: nat)
    requires i < |ratio| && forall i :: 0 <= i < |ratio| ==> |ratio[i]| == m
    ensures var best := BestUnused(ratio[i], Fallback(ratio, m, i).used, m);
      Fallback(ratio, m, i + 1).matches == Fallback(ratio, m, i).matches
      <==> !(best.0.Some? && best.1 >= FallbackThreshold)
  {
  }

  /** With no German headings nothing is paired. */
  lemma {:induction false} FallbackNoGerman(ratio: Matrix, k: nat)
    requires k <= |ratio| && forall i :: 0 <= i < |ratio| ==> |ratio[i]| == 0
    ensures Fallback(ratio, 0, k).matches == []
  {
    if k > 0 {
      FallbackNoGerman(ratio, k - 1);
    }
  }

  /** The fallback branch: a scan of the unused German headings per English heading. */
  method FallbackAlign(ratio: Matrix, n: nat, m: nat) returns (matches: seq<Match>)
    requires IsMatrix(ratio, n, m)
    ensures matches == Fallback(ratio, m, n).matches
  {
    matches := [];
    var used: set<nat> := {};
    for i := 0 to n
      invariant matches == Fallback(ratio, m, i).matches
      invariant used == Fallback(ratio, m, i).used
    {
      var bestJ: Option<nat> := None;
      var bestScore := 0.0;
      for j := 0 to m
        invariant (bestJ, bestScore) == BestUnused(ratio[i], used, j)
      {
        if j in used {
          continue;
        }
        var score := ratio[i][j];
        if score > bestScore {
          bestScore := score;
          bestJ := Some(j);
        }
      }
      if bestJ.Some? && bestScore >= FallbackThreshold {
        used := used + {bestJ.value};
        matches := matches + [Match(i, bestJ.value, bestScore)];
      }
    }
  }
}
