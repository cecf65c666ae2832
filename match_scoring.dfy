/** SourceAFIS.Matching.MatchScoring: the score of a pairing is a weighted sum of five
    statistics gathered by MatchAnalysis. The `float` factors and the fraction are reals
    here, so rounding is not modelled. MatchAnalysis itself is not part of this model:
    only the statistics it hands over are. */
module MatchScoring {

  /** The statistics read by `Compute`. */
  datatype MatchAnalysis = MatchAnalysis(
    PairCount: int,
    CorrectTypeCount: int,
    SupportedCount: int,
    PairFraction: real,
    EdgeCount: int)
  {
    predicate NonNegative()
    {
      PairCount >= 0 && CorrectTypeCount >= 0 && SupportedCount >= 0 && PairFraction >= 0.0 && EdgeCount >= 0
    }

    /** Every statistic at most the matching one of `other`. */
    predicate AtMost(other: MatchAnalysis)
    {
      && PairCount <= other.PairCount && CorrectTypeCount <= other.CorrectTypeCount
      && SupportedCount <= other.SupportedCount && PairFraction <= other.PairFraction
      && EdgeCount <= other.EdgeCount
    }

    /** Statistic-wise sum. */
    function Plus(other: MatchAnalysis): MatchAnalysis
    {
      MatchAnalysis(
        PairCount + other.PairCount, CorrectTypeCount + other.CorrectTypeCount,
        SupportedCount + other.SupportedCount, PairFraction + other.PairFraction,
        EdgeCount + other.EdgeCount)
    }
  }

  const NoStatistics: MatchAnalysis := MatchAnalysis(0, 0, 0, 0.0, 0)

  datatype MatchScoring = MatchScoring(
    PairCountFactor: real,
    PairFractionFactor: real,
    CorrectTypeFactor: real,
    SupportedCountFactor: real,
    EdgeCountFactor: real)
  {
    predicate NonNegative()
    {
      && PairCountFactor >= 0.0 && PairFractionFactor >= 0.0 && CorrectTypeFactor >= 0.0
      && SupportedCountFactor >= 0.0 && EdgeCountFactor >= 0.0
    }

    /** `Compute`: the weighted sum of the statistics. */
    function Compute(analysis: MatchAnalysis): (score: real)
      ensures NonNegative() && analysis.NonNegative() ==> score >= 0.0
      ensures analysis == NoStatistics ==> score == 0.0
    {
      PairCountFactor * analysis.PairCount as real
        + CorrectTypeFactor * analysis.CorrectTypeCount as real
        + SupportedCountFactor * analysis.SupportedCount as real
        + PairFractionFactor * analysis.PairFraction
        + EdgeCountFactor * analysis.EdgeCount as real
    }
  }

  /** The tuned defaults of the factors. */
  const DefaultScoring: MatchScoring := MatchScoring(0.48, 8.26, 0.1, 0.4, 0.208)

  lemma DefaultsNonNegative()
    ensures DefaultScoring.NonNegative()
  {
  }

  /** The score is additive in the statistics. */
  lemma ComputeAdditive(scoring: MatchScoring, a: MatchAnalysis, b: MatchAnalysis)
    ensures scoring.Compute(a.Plus(b)) == scoring.Compute(a) + scoring.Compute(b)
  {
  }

  lemma ScaleMonotone(factor: real, a: real, b: real)
    requires factor >= 0.0 && a <= b
    ensures factor * a <= factor * b
  {
    assert factor * b - factor * a == factor * (b - a);
  }

  /** With non-negative factors, more of any statistic never lowers the score. */
  lemma ComputeMonotone(scoring: MatchScoring, a: MatchAnalysis, b: MatchAnalysis)
    requires scoring.NonNegative() && a.AtMost(b)
    ensures scoring.Compute(a) <= scoring.Compute(b)
  {
    var extra := MatchAnalysis(
      b.PairCount - a.PairCount, b.CorrectTypeCount - a.CorrectTypeCount,
      b.SupportedCount - a.SupportedCount, b.PairFraction - a.PairFraction,
      b.EdgeCount - a.EdgeCount);
    assert extra.NonNegative();
    assert a.Plus(extra) == b;
    ComputeAdditive(scoring, a, extra);
  }

  /** Without edges the edge factor has no say in the score. */
  lemma NoEdgesNoEdgeTerm(scoring: MatchScoring, analysis: MatchAnalysis, edgeFactor: real)
    requires analysis.EdgeCount == 0
    ensures scoring.Compute(analysis) == scoring.(EdgeCountFactor := edgeFactor).Compute(analysis)
  {
  }
}
