// The second PDF prototype (test.py): font levels from all font sizes (a
// previous size of 0.0 never opens a new level), the section hierarchy with
// the heading word limit fixed at 10, the heading alignment with a
// confidence band per record, and the bilingual dictionary.

module PrototypeV2 {
  import opened Util
  import opened Matrices
  import opened Sections
  import opened HeadingAlign
  import opened Bilingual
  import Fonts

  const Tolerance: real := 0.8
  const HeadingThresholdLevel: int := 3
  const HeadingWordLimit: nat := 10
  const AlignThreshold: real := 0.55
  const MaxWords: int := 300

  /**
   * infer_font_hierarchy: every distinct size gets a level; the keys are
   * exactly the sizes, a larger size never has a deeper level, and the
   * largest is level 1.
   */
  method InferFontHierarchy(elements: seq<Element>, tolerance: real) returns (levels: map<real, int>)
    ensures levels == Fonts.Hierarchy(elements, tolerance, false, true)
    ensures levels.Keys == set k | 0 <= k < |elements| :: elements[k].size
    ensures forall a, b :: a in levels && b in levels && a >= b ==> 1 <= levels[a] <= levels[b]
    ensures forall a :: a in levels && (forall b :: b in levels ==> b <= a) ==> levels[a] == 1
  {
    levels := Fonts.InferFontHierarchy(elements, tolerance, false, true);
    Fonts.HierarchyMonotone(elements, tolerance, false, true);
    Fonts.DescendingExists(Fonts.SizeSet(elements, false));
    ghost var sizes :| Fonts.Descending(sizes) && Fonts.Elems(sizes) == Fonts.SizeSet(elements, false);
    Fonts.HierarchyOn(elements, tolerance, false, true, sizes);
  }

  /** build_hierarchy: a non-bold heading has at most 10 words. */
  method BuildHierarchy(elements: seq<Element>, fontLevels: map<real, int>, threshold: int)
    returns (sections: seq<Section>)
    ensures sections == Hierarchy(Rules(fontLevels, MaxLevelOf(fontLevels, threshold), threshold, HeadingWordLimit), elements)
  {
    sections := Sections.BuildHierarchy(elements, fontLevels, threshold, 10);
  }

  /** confidence_band: "High" from 0.8, "Medium" from 0.55, else "Low". */
  function ConfidenceBand(score: real): string {
    if score >= 0.8 then "High" else if score >= 0.55 then "Medium" else "Low"
  }

  function Rank(band: string): nat {
    if band == "High" then 2 else if band == "Medium" then 1 else 0
  }

  /** A higher score never gets a lower band, and the alignment threshold 0.55 is the lowest score rated above "Low". */
  lemma ConfidenceMonotone(a: real, b: real)
    ensures a <= b ==> Rank(ConfidenceBand(a)) <= Rank(ConfidenceBand(b))
    ensures ConfidenceBand(a) != "Low" <==> a >= AlignThreshold
    ensures ConfidenceBand(a) in {"High", "Medium", "Low"}
  {
  }

  /** The pairs chosen: none when a side is empty; else the similarity branch or the fallback. */
  function Matches(n: nat, m: nat, sim: Option<Matrix>, ratio: Matrix, threshold: real): seq<Match>
    requires sim.Some? ==> IsMatrix(sim.value, n, m)
    requires IsMatrix(ratio, n, m)
  {
    if n == 0 || m == 0 then []
    else if sim.Some? then SimilarityMatches(sim.value, threshold, n)
    else Fallback(ratio, m, n).matches
  }

  lemma MatchesInRange(n: nat, m: nat, sim: Option<Matrix>, ratio: Matrix, threshold: real)
    requires sim.Some? ==> IsMatrix(sim.value, n, m)
    requires IsMatrix(ratio, n, m)
    ensures InRange(Matches(n, m, sim, ratio, threshold), n, m)
  {
    if n > 0 && m > 0 {
      if sim.Some? {
        SimilaritySound(sim.value, threshold, n);
      } else {
        FallbackInjective(ratio, m, n);
      }
    }
  }

  /** The records of the pairs, each with the confidence band of its score. */
  function Records(eng: seq<Section>, ger: seq<Section>, ms: seq<Match>): seq<Aligned>
    requires InRange(ms, |eng|, |ger|)
  {
    seq(|ms|, p requires 0 <= p < |ms| => Record(eng, ger, ms[p], Some(ConfidenceBand(ms[p].score))))
  }

  /** align_sections with its explicit check for an empty side. */
  method AlignSections(eng: seq<Section>, ger: seq<Section>, sim: Option<Matrix>, ratio: Matrix, threshold: real)
    returns (aligned: seq<Aligned>)
    requires sim.Some? ==> IsMatrix(sim.value, |eng|, |ger|)
    requires IsMatrix(ratio, |eng|, |ger|)
    ensures InRange(Matches(|eng|, |ger|, sim, ratio, threshold), |eng|, |ger|)
    ensures aligned == Records(eng, ger, Matches(|eng|, |ger|, sim, ratio, threshold))
  {
    MatchesInRange(|eng|, |ger|, sim, ratio, threshold);
    if |eng| == 0 || |ger| == 0 {
      return [];
    }
    var ms: seq<Match>;
    if sim.Some? {
      ms := SimilarityAlign(sim.value, |eng|, |ger|, threshold);
    } else {
      ms := FallbackAlign(ratio, |eng|, |ger|);
    }
    aligned := [];
    for p := 0 to |ms|
      invariant aligned == Records(eng, ger, ms)[..p]
    {
      aligned := aligned + [Record(eng, ger, ms[p], Some(ConfidenceBand(ms[p].score)))];
    }
  }

  /**
   * In the similarity branch with a threshold of at least 0.55 (the default)
   * every record is rated "High" or "Medium"; only the fallback, which
   * accepts ratios from 0.3, can produce "Low" records.
   */
  lemma RecordsRated(eng: seq<Section>, ger: seq<Section>, sim: Option<Matrix>, ratio: Matrix, threshold: real)
    requires sim.Some? && IsMatrix(sim.value, |eng|, |ger|)
    requires IsMatrix(ratio, |eng|, |ger|)
    requires threshold >= AlignThreshold
    ensures InRange(Matches(|eng|, |ger|, sim, ratio, threshold), |eng|, |ger|)
    ensures forall p :: 0 <= p < |Matches(|eng|, |ger|, sim, ratio, threshold)| ==>
      Records(eng, ger, Matches(|eng|, |ger|, sim, ratio, threshold))[p].confidence.value in {"High", "Medium"}
  {
    MatchesInRange(|eng|, |ger|, sim, ratio, threshold);
    var n, m := |eng|, |ger|;
    if n > 0 && m > 0 && sim.Some? {
      SimilaritySound(sim.value, threshold, n);
    }
  }

  /** The fallback accepts a ratio of 0.4, whose band is "Low". */
  lemma FallbackRatesLow()
    ensures Matches(1, 1, None, [[0.4]], AlignThreshold) == [Match(0, 0, 0.4)]
    ensures ConfidenceBand(0.4) == "Low"
  {
    assert BestUnused([0.4], {}, 1) == (Some(0), 0.4);
    assert Fallback([[0.4]], 1, 1).matches == [Match(0, 0, 0.4)];
  }
}
