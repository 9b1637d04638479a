/** The ranking step of findBestMatch (lib/match.ts:51):
    `matches.sort((a, b) => b.similarity - a.similarity)`, a stable sort by
    descending similarity. It is modelled by an in-place insertion sort,
    specified by the function StableSort; StableSortUnique shows that every
    stable descending sort of the same list gives the same result. */
module Ranking {
  import opened Entities

  /** Non-increasing in similarity. */
  predicate SortedDesc(s: seq<Match>) {
    forall i, j :: 0 <= i < j < |s| ==> s[i].similarity >= s[j].similarity
  }

  /** The matches of `s` whose similarity is exactly `v`, in the order of `s`.
      A sort is stable when it leaves this list unchanged for every `v`. */
  function WithScore(s: seq<Match>, v: real): (r: seq<Match>)
    ensures |r| <= |s|
  {
    if s == [] then []
    else WithScore(s[..|s| - 1], v) + (if s[|s| - 1].similarity == v then [s[|s| - 1]] else [])
  }

  /** `WithScore(s, v)` holds the matches of `s` that score `v`, and only those. */
  lemma {:induction false} WithScoreIn(s: seq<Match>, v: real, m: Match)
    ensures m in WithScore(s, v) <==> m in s && m.similarity == v
  {
    if s != [] {
      var init, last := s[..|s| - 1], s[|s| - 1];
      assert s == init + [last];
      WithScoreIn(init, v, m);
    }
  }

  lemma {:induction false} WithScoreAppend(a: seq<Match>, b: seq<Match>, v: real)
    ensures WithScore(a + b, v) == WithScore(a, v) + WithScore(b, v)
    decreases |b|
  {
    if b == [] {
      assert a + b == a;
    } else {
      var init, last := b[..|b| - 1], b[|b| - 1];
      assert (a + b)[..|a + b| - 1] == a + init;
      WithScoreAppend(a, init, v);
    }
  }

  /** The first match of `s` that scores `v` heads `WithScore(s, v)`. */
  lemma {:induction false} WithScoreFirst(s: seq<Match>, k: nat, v: real)
    requires k < |s| && s[k].similarity == v
    requires forall i :: 0 <= i < k ==> s[i].similarity != v
    ensures WithScore(s, v) != [] && WithScore(s, v)[0] == s[k]
  {
    var init := s[..|s| - 1];
    if k == |s| - 1 {
      if WithScore(init, v) != [] {
        var m := WithScore(init, v)[0];
        WithScoreIn(init, v, m);
      }
    } else {
      WithScoreFirst(init, k, v);
    }
  }

  /** Index of the first match with the highest similarity. */
  function ArgMax(s: seq<Match>): (k: nat)
    requires |s| > 0
    ensures k < |s|
    ensures forall i :: 0 <= i < |s| ==> s[i].similarity <= s[k].similarity
    ensures forall i :: 0 <= i < k ==> s[i].similarity < s[k].similarity
  {
    if |s| == 1 then 0
    else
      var k := ArgMax(s[..|s| - 1]);
      if s[|s| - 1].similarity > s[k].similarity then |s| - 1 else k
  }

  // ---- stable insertion ---------------------------------------------------

  /** Inserts `x` into `t` after every element that scores at least as high,
      scanning from the back as the in-place insertion sort does. */
  function Insert(t: seq<Match>, x: Match): (r: seq<Match>)
    ensures |r| == |t| + 1
    decreases |t|
  {
    if t == [] then [x]
    else if t[|t| - 1].similarity >= x.similarity then t + [x]
    else Insert(t[..|t| - 1], x) + [t[|t| - 1]]
  }

  lemma {:induction false} InsertMultiset(t: seq<Match>, x: Match)
    ensures multiset(Insert(t, x)) == multiset(t) + multiset{x}
    decreases |t|
  {
    if t != [] {
      var init, last := t[..|t| - 1], t[|t| - 1];
      assert t == init + [last];
      if last.similarity < x.similarity {
        InsertMultiset(init, x);
      }
    }
  }

  lemma {:induction false} InsertSorted(t: seq<Match>, x: Match)
    requires SortedDesc(t)
    ensures SortedDesc(Insert(t, x))
    decreases |t|
  {
    if t != [] {
      var init, last := t[..|t| - 1], t[|t| - 1];
      if last.similarity < x.similarity {
        InsertSorted(init, x);
        InsertMultiset(init, x);
        var r := Insert(init, x);
        forall m | m in r ensures m.similarity >= last.similarity {
          assert m in multiset(r);
          if m != x {
            assert m in init;
          }
        }
        assert forall i :: 0 <= i < |r| ==> r[i] in r;
      }
    }
  }

  /** WithScore of a list with one more match at the end. */
  lemma WithScoreSnoc(s: seq<Match>, m: Match, v: real)
    ensures WithScore(s + [m], v) == WithScore(s, v) + (if m.similarity == v then [m] else [])
  {
    assert (s + [m])[..|s|] == s;
  }

  lemma {:induction false} InsertWithScore(t: seq<Match>, x: Match, v: real)
    ensures WithScore(Insert(t, x), v) == WithScore(t, v) + (if x.similarity == v then [x] else [])
    decreases |t|
  {
    if t == [] {
      WithScoreSnoc([], x, v);
      assert Insert(t, x) == [] + [x];
    } else {
      var init, last := t[..|t| - 1], t[|t| - 1];
      assert t == init + [last];
      if last.similarity >= x.similarity {
        WithScoreSnoc(t, x, v);
      } else {
        var xs := if x.similarity == v then [x] else [];
        var ls := if last.similarity == v then [last] else [];
        assert xs == [] || ls == [];
        InsertWithScore(init, x, v);
        WithScoreSnoc(Insert(init, x), last, v);
        WithScoreSnoc(init, last, v);
        assert WithScore(Insert(t, x), v) == WithScore(init, v) + xs + ls;
        assert WithScore(t, v) == WithScore(init, v) + ls;
      }
    }
  }

  lemma EntitiesOfAppend(a: seq<Match>, b: seq<Match>)
    ensures EntitiesOf(a + b) == EntitiesOf(a) + EntitiesOf(b)
  {
  }

  lemma {:induction false} InsertEntities(t: seq<Match>, x: Match)
    ensures multiset(EntitiesOf(Insert(t, x))) == multiset(EntitiesOf(t)) + multiset{x.entity}
    decreases |t|
  {
    if t == [] {
      assert EntitiesOf([x]) == [x.entity];
    } else {
      var init, last := t[..|t| - 1], t[|t| - 1];
      EntitiesOfAppend(init, [last]);
      assert t == init + [last];
      if last.similarity >= x.similarity {
        EntitiesOfAppend(t, [x]);
      } else {
        InsertEntities(init, x);
        EntitiesOfAppend(Insert(init, x), [last]);
      }
    }
  }

  /** Where the inner loop of the insertion sort stops, `Insert` puts `x`. */
  lemma {:induction false} InsertAt(t: seq<Match>, x: Match, j: nat)
    requires j <= |t|
    requires j == 0 || t[j - 1].similarity >= x.similarity
    requires forall k :: j <= k < |t| ==> t[k].similarity < x.similarity
    ensures Insert(t, x) == t[..j] + [x] + t[j..]
    decreases |t|
  {
    if j < |t| {
      var init := t[..|t| - 1];
      InsertAt(init, x, j);
      assert t[j..] == init[j..] + [t[|t| - 1]];
    }
  }

  // ---- the stable sort ----------------------------------------------------

  /** Stable sort by descending similarity: insertion of each element, in
      roster order, into the sorted list of those before it. */
  function StableSort(s: seq<Match>): (r: seq<Match>)
    ensures |r| == |s|
  {
    if s == [] then [] else Insert(StableSort(s[..|s| - 1]), s[|s| - 1])
  }

  /** The sorted list is a permutation of the input. */
  lemma {:induction false} StableSortMultiset(s: seq<Match>)
    ensures multiset(StableSort(s)) == multiset(s)
  {
    if s != [] {
      var init, last := s[..|s| - 1], s[|s| - 1];
      assert s == init + [last];
      StableSortMultiset(init);
      InsertMultiset(StableSort(init), last);
    }
  }

  lemma {:induction false} StableSortSorted(s: seq<Match>)
    ensures SortedDesc(StableSort(s))
  {
    if s != [] {
      StableSortSorted(s[..|s| - 1]);
      InsertSorted(StableSort(s[..|s| - 1]), s[|s| - 1]);
    }
  }

  /** Matches of equal similarity keep their relative input order. */
  lemma {:induction false} StableSortStable(s: seq<Match>, v: real)
    ensures WithScore(StableSort(s), v) == WithScore(s, v)
  {
    if s != [] {
      StableSortStable(s[..|s| - 1], v);
      InsertWithScore(StableSort(s[..|s| - 1]), s[|s| - 1], v);
    }
  }

  /** Every entity is ranked as many times as it occurs in the input. */
  lemma {:induction false} StableSortEntities(s: seq<Match>)
    ensures multiset(EntitiesOf(StableSort(s))) == multiset(EntitiesOf(s))
  {
    if s != [] {
      var init, last := s[..|s| - 1], s[|s| - 1];
      StableSortEntities(init);
      InsertEntities(StableSort(init), last);
      assert StableSort(s) == Insert(StableSort(init), last);
      assert s == init + [last];
      EntitiesOfAppend(init, [last]);
      assert EntitiesOf(s) == EntitiesOf(init) + [last.entity];
    }
  }

  /** No match scores `v`: `WithScore(s, v)` is empty. */
  lemma {:induction false} WithScoreAbsent(s: seq<Match>, v: real)
    requires forall i :: 0 <= i < |s| ==> s[i].similarity != v
    ensures WithScore(s, v) == []
  {
    if s != [] {
      WithScoreAbsent(s[..|s| - 1], v);
    }
  }

  /** In a descending list, a score that occurs is at least the last one. */
  lemma WithScoreAboveLast(s: seq<Match>, v: real)
    requires s != [] && SortedDesc(s) && WithScore(s, v) != []
    ensures v >= s[|s| - 1].similarity
  {
    if v < s[|s| - 1].similarity {
      WithScoreAbsent(s, v);
    }
  }

  /** Two non-empty descending lists that agree on `WithScore` end with the
      same match. */
  lemma SameLast(x: seq<Match>, y: seq<Match>)
    requires x != [] && y != []
    requires SortedDesc(x) && SortedDesc(y)
    requires forall v :: WithScore(x, v) == WithScore(y, v)
    ensures x[|x| - 1] == y[|y| - 1]
  {
    var xi, xl := x[..|x| - 1], x[|x| - 1];
    var yi, yl := y[..|y| - 1], y[|y| - 1];
    assert WithScore(x, xl.similarity) == WithScore(xi, xl.similarity) + [xl];
    assert WithScore(y, yl.similarity) == WithScore(yi, yl.similarity) + [yl];
    WithScoreAboveLast(y, xl.similarity);
    WithScoreAboveLast(x, yl.similarity);
    var k := xl.similarity;
    var w := WithScore(x, k);
    assert w == WithScore(y, k);
    assert w[|w| - 1] == xl && w[|w| - 1] == yl;
  }

  /** Removing the same last match from two lists that agree on `WithScore`
      keeps them in agreement. */
  lemma InitsAgree(x: seq<Match>, y: seq<Match>, xi: seq<Match>, yi: seq<Match>, m: Match)
    requires x == xi + [m] && y == yi + [m]
    requires forall v :: WithScore(x, v) == WithScore(y, v)
    ensures forall v :: WithScore(xi, v) == WithScore(yi, v)
  {
    forall v ensures WithScore(xi, v) == WithScore(yi, v) {
      WithScoreSnoc(xi, m, v);
      WithScoreSnoc(yi, m, v);
      assert WithScore(x, v) == WithScore(y, v);
      if m.similarity != v {
        var a, b := WithScore(xi, v), WithScore(yi, v);
        assert a + [] == a && b + [] == b;
        assert WithScore(x, v) == a && WithScore(y, v) == b;
      } else {
        var w, a, b := WithScore(x, v), WithScore(xi, v), WithScore(yi, v);
        assert w == a + [m] && w == b + [m];
        assert |a| == |b|;
        assert a == w[..|a|] && b == w[..|b|];
      }
    }
  }

  /** Two descending lists that agree on `WithScore` for every score are equal. */
  lemma {:induction false} SortedStableUnique(x: seq<Match>, y: seq<Match>)
    requires SortedDesc(x) && SortedDesc(y)
    requires forall v :: WithScore(x, v) == WithScore(y, v)
    ensures x == y
    decreases |x|
  {
    if x == [] || y == [] {
      if x != [] {
        WithScoreIn(x, x[0].similarity, x[0]);
      }
      if y != [] {
        WithScoreIn(y, y[0].similarity, y[0]);
      }
    } else {
      var xi, yi := x[..|x| - 1], y[..|y| - 1];
      SameLast(x, y);
      assert x == xi + [x[|x| - 1]] && y == yi + [y[|y| - 1]];
      InitsAgree(x, y, xi, yi, x[|x| - 1]);
      assert SortedDesc(xi) && SortedDesc(yi);
      SortedStableUnique(xi, yi);
    }
  }

  /** Any stable sort by descending similarity (such as `Array.prototype.sort`
      with the comparator `b.similarity - a.similarity`) agrees with StableSort. */
  lemma {:induction false} StableSortUnique(s: seq<Match>, r: seq<Match>)
    requires SortedDesc(r)
    requires forall v :: WithScore(r, v) == WithScore(s, v)
    ensures r == StableSort(s)
  {
    StableSortSorted(s);
    forall v ensures WithScore(r, v) == WithScore(StableSort(s), v) {
      StableSortStable(s, v);
    }
    SortedStableUnique(r, StableSort(s));
  }

  /** Sorting a list that is already in descending order leaves it unchanged. */
  lemma {:induction false} StableSortOfSorted(s: seq<Match>)
    requires SortedDesc(s)
    ensures StableSort(s) == s
  {
    StableSortUnique(s, s);
  }

  /** The head of the sorted list is the first match of highest similarity. */
  lemma {:induction false} StableSortHead(s: seq<Match>)
    requires |s| > 0
    ensures StableSort(s)[0] == s[ArgMax(s)]
  {
    var r, k := StableSort(s), ArgMax(s);
    StableSortSorted(s);
    StableSortMultiset(s);
    assert r[0] in multiset(s);
    assert s[k] in multiset(r);
    var i :| 0 <= i < |r| && r[i] == s[k];
    var v := r[0].similarity;
    assert v == s[k].similarity;
    WithScoreFirst(r, 0, v);
    WithScoreFirst(s, k, v);
    StableSortStable(s, v);
  }

  // ---- the in-place sort ----------------------------------------------------

  /** One step of the insertion sort: shifts the matches of `a[..i]` that
      score lower than `a[i]` one place right and puts `a[i]` in the gap. */
  method InsertLast(a: array<Match>, i: nat)
    requires i < a.Length
    modifies a
    ensures a[..i + 1] == Insert(old(a[..i]), old(a[i]))
    ensures a[i + 1..] == old(a[i + 1..])
  {
    ghost var sorted := a[..i];
    var x := a[i];
    var j := i;
    while j > 0 && a[j - 1].similarity < x.similarity
      invariant 0 <= j <= i
      invariant a[..j] == sorted[..j]
      invariant a[j + 1..i + 1] == sorted[j..]
      invariant forall k :: j <= k < i ==> sorted[k].similarity < x.similarity
      invariant a[i + 1..] == old(a[i + 1..])
    {
      a[j] := a[j - 1];
      j := j - 1;
    }
    assert j == 0 || sorted[j - 1].similarity >= x.similarity by {
      if j > 0 { assert a[j - 1] == a[..j][j - 1]; }
    }
    a[j] := x;
    InsertAt(sorted, x, j);
    assert a[..i + 1] == a[..j] + [a[j]] + a[j + 1..i + 1];
  }

  /** `matches.sort((a, b) => b.similarity - a.similarity)` on the array of
      matches: a stable insertion sort, in place. */
  method SortBySimilarity(a: array<Match>)
    modifies a
    ensures a[..] == StableSort(old(a[..]))
  {
    ghost var input := a[..];
    for i := 0 to a.Length
      invariant a[..i] == StableSort(input[..i])
      invariant a[i..] == input[i..]
    {
      assert a[i] == input[i];
      InsertLast(a, i);
      assert input[..i + 1][..i] == input[..i];
    }
    assert input[..a.Length] == input;
  }
}
