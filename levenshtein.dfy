/** levenshteinDistance of lib/match.ts: the dynamic-programming edit
    distance, specified by the recurrence it tabulates. */
module Levenshtein {

  /** `Math.min` of three naturals. */
  function Min3(x: nat, y: nat, z: nat): (r: nat)
    ensures r <= x && r <= y && r <= z
    ensures r == x || r == y || r == z
  {
    if x <= y && x <= z then x else if y <= z then y else z
  }

  /** `Math.max(str1.length, str2.length)`. */
  function MaxLength(a: string, b: string): (r: nat)
    ensures r >= |a| && r >= |b| && (r == |a| || r == |b|)
  {
    if |a| >= |b| then |a| else |b|
  }

  /** Edit distance: the cost of turning `a` into `b` by single-character
      deletions, insertions and substitutions, each costing 1, computed by
      the recurrence on the last characters that fills cell [i][j] of the
      table from the three cells above, to the left and diagonally above. */
  function Distance(a: string, b: string): nat
    decreases |a| + |b|
  {
    if |a| == 0 then |b|
    else if |b| == 0 then |a|
    else
      var i, j := |a| - 1, |b| - 1;
      Min3(Distance(a[..i], b) + 1,
           Distance(a, b[..j]) + 1,
           Distance(a[..i], b[..j]) + (if a[i] == b[j] then 0 else 1))
  }

  /** levenshteinDistance (lib/match.ts:104-136): allocates the
      (|a|+1) x (|b|+1) table, initialises column 0 and row 0 with their
      index, fills the remaining cells row by row and returns the
      bottom-right cell, which is the edit distance of `a` and `b`. */
  method LevenshteinDistance(a: string, b: string) returns (d: nat)
    ensures d == Distance(a, b)
  {
    var m, n := |a|, |b|;
    var dp := new nat[m + 1, n + 1];

    for i := 0 to m + 1
      invariant forall k :: 0 <= k < i ==> dp[k, 0] == k
    {
      dp[i, 0] := i;
    }

    for j := 0 to n + 1
      invariant forall k :: 0 <= k <= m ==> dp[k, 0] == k
      invariant forall k :: 0 <= k < j ==> dp[0, k] == k
    {
      dp[0, j] := j;
    }

    DistanceEdges(a, b);
    for i := 1 to m + 1
      invariant forall p, q :: 0 <= p < i && 0 <= q <= n ==> dp[p, q] == Distance(a[..p], b[..q])
      invariant forall k :: i <= k <= m ==> dp[k, 0] == k
    {
      FillRow(a, b, dp, i);
    }

    assert a[..m] == a && b[..n] == b;
    d := dp[m, n];
  }

  /** The inner loop of lib/match.ts:124-131: fills row `i` of the table
      from row `i - 1` and the cell to the left. */
  method FillRow(a: string, b: string, dp: array2<nat>, i: nat)
    requires dp.Length0 == |a| + 1 && dp.Length1 == |b| + 1
    requires 1 <= i <= |a|
    requires forall q :: 0 <= q <= |b| ==> dp[i - 1, q] == Distance(a[..i - 1], b[..q])
    requires dp[i, 0] == Distance(a[..i], b[..0])
    modifies dp
    ensures forall q :: 0 <= q <= |b| ==> dp[i, q] == Distance(a[..i], b[..q])
    ensures forall p, q :: 0 <= p <= |a| && p != i && 0 <= q <= |b| ==> dp[p, q] == old(dp[p, q])
  {
    for j := 1 to |b| + 1
      invariant forall q :: 0 <= q < j ==> dp[i, q] == Distance(a[..i], b[..q])
      invariant forall p, q :: 0 <= p <= |a| && p != i && 0 <= q <= |b| ==> dp[p, q] == old(dp[p, q])
    {
      FillCell(a, b, dp, i, j);
    }
  }

  /** The body of the inner loop (lib/match.ts:125-130): cell [i][j] is the
      cheapest of a deletion, an insertion and a substitution (free when the
      characters agree). */
  method FillCell(a: string, b: string, dp: array2<nat>, i: nat, j: nat)
    requires dp.Length0 == |a| + 1 && dp.Length1 == |b| + 1
    requires 1 <= i <= |a| && 1 <= j <= |b|
    requires dp[i - 1, j] == Distance(a[..i - 1], b[..j])
    requires dp[i, j - 1] == Distance(a[..i], b[..j - 1])
    requires dp[i - 1, j - 1] == Distance(a[..i - 1], b[..j - 1])
    modifies dp
    ensures dp[i, j] == Distance(a[..i], b[..j])
    ensures forall p, q :: 0 <= p <= |a| && 0 <= q <= |b| && (p != i || q != j) ==> dp[p, q] == old(dp[p, q])
  {
    var cost := if a[i - 1] == b[j - 1] then 0 else 1;
    DistanceCell(a, b, i, j);
    dp[i, j] := Min3(dp[i - 1, j] + 1, dp[i, j - 1] + 1, dp[i - 1, j - 1] + cost);
  }

  /** Row 0 and column 0 of the table hold their index. */
  lemma DistanceEdges(a: string, b: string)
    ensures forall k :: 0 <= k <= |b| ==> Distance(a[..0], b[..k]) == k
    ensures forall k :: 0 <= k <= |a| ==> Distance(a[..k], b[..0]) == k
  {
  }

  /** The recurrence for one inner cell, on prefixes of `a` and `b`. */
  lemma DistanceCell(a: string, b: string, i: nat, j: nat)
    requires 1 <= i <= |a| && 1 <= j <= |b|
    ensures Distance(a[..i], b[..j])
         == Min3(Distance(a[..i - 1], b[..j]) + 1,
                 Distance(a[..i], b[..j - 1]) + 1,
                 Distance(a[..i - 1], b[..j - 1]) + (if a[i - 1] == b[j - 1] then 0 else 1))
  {
    assert a[..i][..i - 1] == a[..i - 1] && b[..j][..j - 1] == b[..j - 1];
  }

  // ---- properties of the specification -----------------------------------

  /** d(a, b) = d(b, a). */
  lemma {:induction false} DistanceSymmetric(a: string, b: string)
    ensures Distance(a, b) == Distance(b, a)
    decreases |a| + |b|
  {
    if |a| > 0 && |b| > 0 {
      var i, j := |a| - 1, |b| - 1;
      DistanceSymmetric(a[..i], b);
      DistanceSymmetric(a, b[..j]);
      DistanceSymmetric(a[..i], b[..j]);
    }
  }

  /** | |a| - |b| | <= d(a, b) <= max(|a|, |b|). */
  lemma {:induction false} DistanceBounds(a: string, b: string)
    ensures |a| - |b| <= Distance(a, b) && |b| - |a| <= Distance(a, b)
    ensures Distance(a, b) <= MaxLength(a, b)
    decreases |a| + |b|
  {
    if |a| > 0 && |b| > 0 {
      var i, j := |a| - 1, |b| - 1;
      DistanceBounds(a[..i], b);
      DistanceBounds(a, b[..j]);
      DistanceBounds(a[..i], b[..j]);
    }
  }

  /** d(a, b) = 0 exactly when a = b. */
  lemma {:induction false} DistanceZeroIff(a: string, b: string)
    ensures Distance(a, b) == 0 <==> a == b
    decreases |a| + |b|
  {
    if |a| > 0 && |b| > 0 {
      var i, j := |a| - 1, |b| - 1;
      DistanceZeroIff(a[..i], b[..j]);
      assert a == a[..i] + [a[i]] && b == b[..j] + [b[j]];
    }
  }

  /** A common suffix never increases the distance. */
  lemma {:induction false} DistanceCommonSuffix(a: string, b: string, v: string)
    ensures Distance(a + v, b + v) <= Distance(a, b)
    decreases |v|
  {
    if v != [] {
      var w := v[..|v| - 1];
      assert (a + v)[..|a + v| - 1] == a + w && (b + v)[..|b + v| - 1] == b + w;
      assert (a + v)[|a + v| - 1] == (b + v)[|b + v| - 1];
      assert Distance(a + v, b + v) <= Distance(a + w, b + w);
      DistanceCommonSuffix(a, b, w);
    } else {
      assert a + v == a && b + v == b;
    }
  }

  /** One inserted character costs exactly one edit. */
  lemma {:induction false} InsertionDistance(u: string, c: char, v: string)
    ensures Distance(u + v, u + [c] + v) == 1
  {
    DistanceZeroIff(u, u);
    assert Distance(u, u + [c]) <= 1 by {
      if u != [] {
        assert (u + [c])[..|u|] == u;
      }
    }
    DistanceCommonSuffix(u, u + [c], v);
    DistanceBounds(u + v, u + [c] + v);
  }

  /** One substituted character costs exactly one edit. */
  lemma {:induction false} SubstitutionDistance(u: string, c: char, d: char, v: string)
    requires c != d
    ensures Distance(u + [c] + v, u + [d] + v) == 1
  {
    DistanceZeroIff(u, u);
    assert Distance(u + [c], u + [d]) <= 1 by {
      assert (u + [c])[..|u|] == u && (u + [d])[..|u|] == u;
    }
    DistanceCommonSuffix(u + [c], u + [d], v);
    assert (u + [c] + v)[|u|] != (u + [d] + v)[|u|];
    DistanceZeroIff(u + [c] + v, u + [d] + v);
  }
}
