// The first PDF prototype (test1.py): font levels from the positive font
// sizes, the section hierarchy with a configurable heading word limit, the
// heading alignment (embeddings when the model is available, else the
// string-similarity fallback) and the bilingual chunked dictionary.

module PrototypeV1 {
  import opened Util
  import opened Matrices
  import opened Sections
  import opened HeadingAlign
  import opened Bilingual
  import Fonts

  const Tolerance: real := 0.8
  const HeadingThresholdLevel: int := 3
  const HeadingWordLimit: nat := 12
  const SemanticThreshold: real := 0.55
  const MaxWords: int := 300

  /**
   * infer_font_hierarchy: only positive sizes get a level; the keys are
   * exactly those sizes, a larger size never has a deeper level, and the
   * largest is level 1.
   */
  method InferFontHierarchy(elements: seq<Element>, tolerance: real) returns (levels: map<real, int>)
    ensures levels == Fonts.Hierarchy(elements, tolerance, true, false)
    ensures levels.Keys == Fonts.SizeSet(elements, true)
    ensures forall s :: s in levels ==> s > 0.0
    ensures forall a, b :: a in levels && b in levels && a >= b ==> 1 <= levels[a] <= levels[b]
    ensures forall a :: a in levels && (forall b :: b in levels ==> b <= a) ==> levels[a] == 1
  {
    levels := Fonts.InferFontHierarchy(elements, tolerance, true, false);
    Fonts.HierarchyMonotone(elements, tolerance, true, false);
    Fonts.DescendingExists(Fonts.SizeSet(elements, true));
    ghost var sizes :| Fonts.Descending(sizes) && Fonts.Elems(sizes) == Fonts.SizeSet(elements, true);
    Fonts.HierarchyOn(elements, tolerance, true, false, sizes);
  }

  /** build_hierarchy with its heading_word_limit parameter (12 by default). */
  method BuildHierarchy(elements: seq<Element>, fontLevels: map<real, int>, threshold: int, wordLimit: nat)
    returns (sections: seq<Section>)
    ensures sections == Hierarchy(Rules(fontLevels, MaxLevelOf(fontLevels, threshold), threshold, wordLimit), elements)
  {
    sections := Sections.BuildHierarchy(elements, fontLevels, threshold, wordLimit);
  }

  /**
   * The pairs chosen: with embedding similarities, none when a side is
   * empty, else each English heading's first argmax above the threshold;
   * without, the fallback scan.
   */
  function Matches(n: nat, m: nat, sim: Option<Matrix>, ratio: Matrix, threshold: real): seq<Match>
    requires sim.Some? ==> IsMatrix(sim.value, n, m)
    requires IsMatrix(ratio, n, m)
  {
    if sim.Some? then (if n == 0 || m == 0 then [] else SimilarityMatches(sim.value, threshold, n))
    else Fallback(ratio, m, n).matches
  }

  lemma MatchesInRange(n: nat, m: nat, sim: Option<Matrix>, ratio: Matrix, threshold: real)
    requires sim.Some? ==> IsMatrix(sim.value, n, m)
    requires IsMatrix(ratio, n, m)
    ensures InRange(Matches(n, m, sim, ratio, threshold), n, m)
  {
    if sim.Some? && n > 0 && m > 0 {
      SimilaritySound(sim.value, threshold, n);
    } else if sim.None? {
      FallbackInjective(ratio, m, n);
    }
  }

  /** The records of the pairs, without a confidence band. */
  function Records(eng: seq<Section>, ger: seq<Section>, ms: seq<Match>): seq<Aligned>
    requires InRange(ms, |eng|, |ger|)
  {
    seq(|ms|, p requires 0 <= p < |ms| => Record(eng, ger, ms[p], None))
  }

  /**
   * align_sections: the similarity table is present when the embedding model
   * is; the string-similarity ratios of the lower-cased headings are the
   * fallback's input.
   */
  method AlignSections(eng: seq<Section>, ger: seq<Section>, sim: Option<Matrix>, ratio: Matrix, threshold: real)
    returns (aligned: seq<Aligned>)
    requires sim.Some? ==> IsMatrix(sim.value, |eng|, |ger|)
    requires IsMatrix(ratio, |eng|, |ger|)
    ensures InRange(Matches(|eng|, |ger|, sim, ratio, threshold), |eng|, |ger|)
    ensures aligned == Records(eng, ger, Matches(|eng|, |ger|, sim, ratio, threshold))
  {
    var ms: seq<Match>;
    if sim.Some? {
      ms := SimilarityAlign(sim.value, |eng|, |ger|, threshold);
    } else {
      ms := FallbackAlign(ratio, |eng|, |ger|);
    }
    MatchesInRange(|eng|, |ger|, sim, ratio, threshold);
    aligned := [];
    for p := 0 to |ms|
      invariant aligned == Records(eng, ger, ms)[..p]
    {
      aligned := aligned + [Record(eng, ger, ms[p], None)];
    }
  }

  /**
   * With no English or no German sections nothing is aligned, in both
   * branches (the fallback has no explicit check: its scan finds nothing).
   */
  lemma AlignNothing(n: nat, m: nat, sim: Option<Matrix>, ratio: Matrix, threshold: real)
    requires sim.Some? ==> IsMatrix(sim.value, n, m)
    requires IsMatrix(ratio, n, m)
    requires n == 0 || m == 0
    ensures Matches(n, m, sim, ratio, threshold) == []
  {
    if sim.None? {
      if m == 0 {
        FallbackNoGerman(ratio, n);
      }
    }
  }

  /** At most one record per English section, in the order of the English sections. */
  lemma AlignOrdered(n: nat, m: nat, sim: Option<Matrix>, ratio: Matrix, threshold: real)
    requires sim.Some? ==> IsMatrix(sim.value, n, m)
    requires IsMatrix(ratio, n, m)
    ensures EngIncreasing(Matches(n, m, sim, ratio, threshold))
  {
    if sim.Some? && n > 0 && m > 0 {
      SimilaritySound(sim.value, threshold, n);
    } else if sim.None? {
      FallbackInjective(ratio, m, n);
    }
  }
}
