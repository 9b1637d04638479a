/** calculateStringSimilarity of lib/match.ts, with exact rational
    arithmetic in place of floating point. */
module Similarity {
  import opened Levenshtein

  /** 0 <= d / len <= 1 when 0 <= d <= len, and d / len > 0 when d > 0. */
  lemma RatioBounds(d: nat, len: nat)
    requires 0 < len && d <= len
    ensures 0.0 <= (d as real) / (len as real) <= 1.0
    ensures d > 0 ==> (d as real) / (len as real) > 0.0
    ensures (d as real) / (len as real) == 1.0 <==> d == len
  {
    var q := (d as real) / (len as real);
    assert q * (len as real) == d as real;
  }

  /** calculateStringSimilarity (lib/match.ts:83-97): 0 when either string
      is empty, 1 when both are equal, otherwise 1 - d / max(|a|, |b|).
      The result always lies in [0, 1] and is 1 exactly for two equal
      non-empty strings. */
  function StringSimilarity(a: string, b: string): (r: real)
    ensures 0.0 <= r <= 1.0
    ensures (|a| == 0 || |b| == 0) ==> r == 0.0
    ensures r == 1.0 <==> (|a| > 0 && a == b)
  {
    if |a| == 0 || |b| == 0 then 0.0
    else if a == b then 1.0
    else
      var d := Distance(a, b);
      DistanceBounds(a, b);
      DistanceZeroIff(a, b);
      RatioBounds(d, MaxLength(a, b));
      1.0 - (d as real) / (MaxLength(a, b) as real)
  }

  /** similarity(a, b) = similarity(b, a). */
  lemma {:induction false} SimilaritySymmetric(a: string, b: string)
    ensures StringSimilarity(a, b) == StringSimilarity(b, a)
  {
    DistanceSymmetric(a, b);
  }

  /** For two non-empty strings the equal-strings shortcut agrees with the
      general formula, and the formula is the only thing that can lower the
      score below 1. */
  lemma {:induction false} SimilarityFormula(a: string, b: string)
    requires |a| > 0 && |b| > 0
    ensures StringSimilarity(a, b) == 1.0 - (Distance(a, b) as real) / (MaxLength(a, b) as real)
  {
    DistanceZeroIff(a, b);
  }

  /** The score is 0 exactly when a string is empty or every position of the
      longer string has to be edited. */
  lemma {:induction false} SimilarityZeroIff(a: string, b: string)
    ensures StringSimilarity(a, b) == 0.0 <==> (|a| == 0 || |b| == 0 || Distance(a, b) == MaxLength(a, b))
  {
    if |a| > 0 && |b| > 0 {
      SimilarityFormula(a, b);
      DistanceBounds(a, b);
      RatioBounds(Distance(a, b), MaxLength(a, b));
    }
  }

  /** A one-letter typo (an extra letter) scores 1 - 1 / n, where n is the
      length of the longer string. */
  lemma {:induction false} InsertionTypoScore(u: string, c: char, v: string)
    requires |u + v| > 0
    ensures StringSimilarity(u + v, u + [c] + v) == 1.0 - 1.0 / ((|u| + |v| + 1) as real)
  {
    InsertionDistance(u, c, v);
    SimilarityFormula(u + v, u + [c] + v);
  }

  /** A one-letter typo (a wrong letter) scores 1 - 1 / n, where n is the
      common length. */
  lemma {:induction false} SubstitutionTypoScore(u: string, c: char, d: char, v: string)
    requires c != d
    ensures StringSimilarity(u + [c] + v, u + [d] + v) == 1.0 - 1.0 / ((|u| + |v| + 1) as real)
  {
    SubstitutionDistance(u, c, d, v);
    SimilarityFormula(u + [c] + v, u + [d] + v);
  }
}
