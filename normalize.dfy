/** normalizeString of lib/match.ts: a chain of four string passes,
    `toLowerCase`, `replace(/[^\w\s]/g, "")`, `replace(/\s+/g, " ")` and
    `trim`, each written here as its own function. */
module Normalize {
  import opened CharClasses

  /** The word characters of `s`, in order. */
  function Words(s: string): (r: string)
    ensures |r| <= |s|
    ensures forall i :: 0 <= i < |r| ==> IsWord(r[i])
  {
    if s == [] then [] else (if IsWord(s[0]) then [s[0]] else []) + Words(s[1..])
  }

  lemma {:induction false} WordsAppend(a: string, b: string)
    ensures Words(a + b) == Words(a) + Words(b)
  {
    if a == [] {
      assert a + b == b;
    } else {
      assert (a + b)[1..] == a[1..] + b;
      WordsAppend(a[1..], b);
    }
  }

  /** `Words(s)` is empty exactly when `s` holds no word character. */
  lemma {:induction false} WordsEmpty(s: string)
    ensures Words(s) == [] <==> forall i :: 0 <= i < |s| ==> !IsWord(s[i])
  {
    if s != [] {
      WordsEmpty(s[1..]);
      assert forall i :: 1 <= i < |s| ==> s[i] == s[1..][i - 1];
    }
  }

  // ---- pass 1: toLowerCase -----------------------------------------------

  function LowerCase(s: string): (r: string)
    ensures |r| == |s|
    ensures forall i :: 0 <= i < |r| ==> !IsUpper(r[i])
    ensures forall i :: 0 <= i < |s| ==> (IsWord(r[i]) <==> IsWord(s[i])) && (IsSpace(r[i]) <==> IsSpace(s[i]))
    ensures forall i :: 0 <= i < |s| ==> if IsUpper(s[i]) then r[i] as int == s[i] as int + 32 else r[i] == s[i]
  {
    seq(|s|, i requires 0 <= i < |s| => ToLower(s[i]))
  }

  lemma LowerCaseOfLower(s: string)
    requires forall i :: 0 <= i < |s| ==> !IsUpper(s[i])
    ensures LowerCase(s) == s
  {
  }

  lemma {:induction false} WordsOfLowerCase(s: string)
    ensures Words(LowerCase(s)) == [] <==> Words(s) == []
  {
    WordsEmpty(s);
    WordsEmpty(LowerCase(s));
  }

  // ---- pass 2: replace(/[^\w\s]/g, "") -----------------------------------

  /** Deletes every character that is neither a word character nor white space. */
  function RemoveSpecial(s: string): (r: string)
    ensures |r| <= |s|
    ensures forall i :: 0 <= i < |r| ==> IsWord(r[i]) || IsSpace(r[i])
    ensures (forall i :: 0 <= i < |s| ==> !IsUpper(s[i])) ==> forall i :: 0 <= i < |r| ==> !IsUpper(r[i])
    ensures Words(r) == Words(s)
    ensures |s| == 1 ==> r == (if IsWord(s[0]) || IsSpace(s[0]) then s else [])
  {
    if s == [] then []
    else if IsWord(s[0]) || IsSpace(s[0]) then [s[0]] + RemoveSpecial(s[1..])
    else RemoveSpecial(s[1..])
  }

  /** The filter works character by character: it distributes over
      concatenation, so with the one-character case it is fixed entirely. */
  lemma {:induction false} RemoveSpecialAppend(a: string, b: string)
    ensures RemoveSpecial(a + b) == RemoveSpecial(a) + RemoveSpecial(b)
  {
    if a == [] {
      assert a + b == b;
    } else {
      assert (a + b)[1..] == a[1..] + b;
      RemoveSpecialAppend(a[1..], b);
    }
  }

  lemma {:induction false} RemoveSpecialKeeps(s: string)
    requires forall i :: 0 <= i < |s| ==> IsWord(s[i]) || IsSpace(s[i])
    ensures RemoveSpecial(s) == s
  {
    if s != [] {
      RemoveSpecialKeeps(s[1..]);
    }
  }

  // ---- pass 3: replace(/\s+/g, " ") --------------------------------------

  /** Drops the run of white space at the front of `s`. */
  function DropSpaces(s: string): (r: string)
    ensures |r| <= |s| && r == s[|s| - |r|..]
    ensures forall i :: 0 <= i < |s| - |r| ==> IsSpace(s[i])
    ensures r == [] || !IsSpace(r[0])
    ensures Words(r) == Words(s)
  {
    if s != [] && IsSpace(s[0]) then DropSpaces(s[1..]) else s
  }

  /** Replaces every maximal run of white space by one ' '. */
  function CollapseSpaces(s: string): (r: string)
    requires forall i :: 0 <= i < |s| ==> IsWord(s[i]) || IsSpace(s[i])
    ensures r == [] <==> s == []
    ensures r != [] ==> (r[0] == ' ' <==> IsSpace(s[0]))
    decreases |s|
  {
    if s == [] then []
    else if IsSpace(s[0]) then [' '] + CollapseSpaces(DropSpaces(s))
    else [s[0]] + CollapseSpaces(s[1..])
  }

  /** The shape of a collapsed string: only ' ' and word characters, never
      two ' ' in a row, and a ' ' at the end exactly when the input ends with
      white space. */
  lemma {:induction false} CollapseSpacesShape(s: string)
    requires forall i :: 0 <= i < |s| ==> IsWord(s[i]) || IsSpace(s[i])
    ensures var r := CollapseSpaces(s);
      && (r != [] ==> (r[|r| - 1] == ' ' <==> IsSpace(s[|s| - 1])))
      && (forall i :: 0 <= i < |r| ==> r[i] == ' ' || IsWord(r[i]))
      && (forall i :: 0 <= i < |r| - 1 ==> r[i] != ' ' || r[i + 1] != ' ')
    decreases |s|
  {
    if s != [] {
      var c, d := s[0], s[1..];
      if IsSpace(s[0]) {
        c, d := ' ', DropSpaces(s);
      }
      assert d != [] ==> d[|d| - 1] == s[|s| - 1];
      assert CollapseSpaces(s) == [c] + CollapseSpaces(d);
      CollapseSpacesShape(d);
      ConsShape(c, CollapseSpaces(d));
    }
  }

  /** Putting a word character, or a ' ' before a non-space, in front of a
      single-spaced run keeps it single-spaced. */
  lemma {:induction false} ConsShape(c: char, x: string)
    requires c == ' ' || IsWord(c)
    requires c == ' ' ==> x == [] || x[0] != ' '
    requires forall i :: 0 <= i < |x| ==> x[i] == ' ' || IsWord(x[i])
    requires forall i :: 0 <= i < |x| - 1 ==> x[i] != ' ' || x[i + 1] != ' '
    ensures forall i :: 0 <= i < |[c] + x| ==> ([c] + x)[i] == ' ' || IsWord(([c] + x)[i])
    ensures forall i :: 0 <= i < |[c] + x| - 1 ==> ([c] + x)[i] != ' ' || ([c] + x)[i + 1] != ' '
    ensures ([c] + x)[0] == c && ([c] + x)[|x|] == if x == [] then c else x[|x| - 1]
  {
    var r := [c] + x;
    assert forall i :: 1 <= i < |r| ==> r[i] == x[i - 1];
  }

  /** Collapsing keeps the word characters, so also their case. */
  lemma {:induction false} CollapseSpacesWords(s: string)
    requires forall i :: 0 <= i < |s| ==> IsWord(s[i]) || IsSpace(s[i])
    ensures Words(CollapseSpaces(s)) == Words(s)
    ensures (forall i :: 0 <= i < |s| ==> !IsUpper(s[i])) ==>
      forall i :: 0 <= i < |CollapseSpaces(s)| ==> !IsUpper(CollapseSpaces(s)[i])
    decreases |s|
  {
    if s != [] {
      var r := CollapseSpaces(s);
      var head, tail := r[..1], r[1..];
      assert r == head + tail;
      WordsAppend(head, tail);
      if IsSpace(s[0]) {
        CollapseSpacesWords(DropSpaces(s));
      } else {
        CollapseSpacesWords(s[1..]);
        assert Words(s) == [s[0]] + Words(s[1..]);
      }
    }
  }

  lemma {:induction false} CollapseSpacesKeeps(s: string)
    requires forall i :: 0 <= i < |s| ==> s[i] == ' ' || IsWord(s[i])
    requires forall i :: 0 <= i < |s| - 1 ==> s[i] != ' ' || s[i + 1] != ' '
    ensures CollapseSpaces(s) == s
  {
    if s != [] {
      var tail := s[1..];
      assert forall i :: 0 <= i < |tail| ==> tail[i] == s[i + 1];
      if IsSpace(s[0]) {
        assert tail == [] || !IsSpace(tail[0]) by {
          if tail != [] {
            assert s[0] == ' ';
            assert tail[0] == s[1];
          }
        }
        assert DropSpaces(tail) == tail;
        assert DropSpaces(s) == tail;
      }
      CollapseSpacesKeeps(tail);
    }
  }

  // ---- pass 4: trim ------------------------------------------------------

  /** The number of white-space characters at the front of `s`. */
  function LeadingSpaces(s: string): (n: nat)
    ensures n <= |s|
    ensures forall i :: 0 <= i < n ==> IsSpace(s[i])
    ensures n < |s| ==> !IsSpace(s[n])
  {
    if s != [] && IsSpace(s[0]) then 1 + LeadingSpaces(s[1..]) else 0
  }

  /** The number of white-space characters at the end of `s`. */
  function TrailingSpaces(s: string): (n: nat)
    ensures n <= |s|
    ensures forall i :: |s| - n <= i < |s| ==> IsSpace(s[i])
    ensures n < |s| ==> !IsSpace(s[|s| - 1 - n])
  {
    if s != [] && IsSpace(s[|s| - 1]) then 1 + TrailingSpaces(s[..|s| - 1]) else 0
  }

  /** `trim`: deletes the white space at both ends of `s` and nothing else. */
  function Trim(s: string): (r: string)
    ensures LeadingSpaces(s) + |r| <= |s|
    ensures r == s[LeadingSpaces(s)..LeadingSpaces(s) + |r|]
    ensures forall i :: LeadingSpaces(s) + |r| <= i < |s| ==> IsSpace(s[i])
    ensures r == [] || (!IsSpace(r[0]) && !IsSpace(r[|r| - 1]))
  {
    var t := s[LeadingSpaces(s)..];
    t[..|t| - TrailingSpaces(t)]
  }

  /** trim keeps the word characters. */
  lemma {:induction false} TrimWords(s: string)
    ensures Words(Trim(s)) == Words(s)
  {
    var lo := LeadingSpaces(s);
    var r := Trim(s);
    var hi := lo + |r|;
    assert s == s[..lo] + r + s[hi..];
    WordsAppend(s[..lo] + r, s[hi..]);
    WordsAppend(s[..lo], r);
    SpacesHaveNoWords(s[..lo]);
    SpacesHaveNoWords(s[hi..]);
  }

  /** White space holds no word character. */
  lemma {:induction false} SpacesHaveNoWords(p: string)
    requires forall i :: 0 <= i < |p| ==> IsSpace(p[i])
    ensures Words(p) == []
  {
    if p != [] {
      SpacesHaveNoWords(p[1..]);
    }
  }

  lemma TrimKeeps(s: string)
    requires s == [] || (!IsSpace(s[0]) && !IsSpace(s[|s| - 1]))
    ensures Trim(s) == s
  {
  }

  // ---- the whole chain ---------------------------------------------------

  /** Word characters and ' ', with no ' ' at either end and no two in a row. */
  predicate SingleSpaced(x: string) {
    && (forall i :: 0 <= i < |x| ==> x[i] == ' ' || IsWord(x[i]))
    && (x != [] ==> x[0] != ' ' && x[|x| - 1] != ' ')
    && (forall i :: 0 <= i < |x| - 1 ==> x[i] != ' ' || x[i + 1] != ' ')
  }

  /** The canonical form `normalizeString` produces: a single-spaced string
      without capitals. */
  predicate IsNormalized(s: string) {
    SingleSpaced(s) && forall i :: 0 <= i < |s| ==> !IsUpper(s[i])
  }

  /** normalizeString (lib/match.ts:71-77). The result is in canonical form and
      keeps every word character of the lower-cased input, in order. */
  function NormalizeString(s: string): (r: string)
    ensures IsNormalized(r)
    ensures Words(r) == Words(LowerCase(s))
  {
    var c := CollapseSpaces(RemoveSpecial(LowerCase(s)));
    CollapseSpacesShape(RemoveSpecial(LowerCase(s)));
    CollapseSpacesWords(RemoveSpecial(LowerCase(s)));
    TrimNormalizes(c);
    TrimWords(c);
    Trim(c)
  }

  /** Trimming a string whose only white space is single ' ' characters
      yields a canonical string. */
  lemma TrimNormalizes(c: string)
    requires forall i :: 0 <= i < |c| ==> c[i] == ' ' || (IsWord(c[i]) && !IsUpper(c[i]))
    requires forall i :: 0 <= i < |c| - 1 ==> c[i] != ' ' || c[i + 1] != ' '
    ensures IsNormalized(Trim(c))
  {
    var r := Trim(c);
    var lo := LeadingSpaces(c);
    assert forall i :: 0 <= i < |r| ==> r[i] == c[lo + i];
    forall i | 0 <= i < |r| - 1 ensures r[i] != ' ' || r[i + 1] != ' ' {
      assert r[i] == c[lo + i] && r[i + 1] == c[lo + i + 1];
    }
  }

  /** A canonical string is left unchanged. */
  lemma {:induction false} NormalizeKeepsNormalized(s: string)
    requires IsNormalized(s)
    ensures NormalizeString(s) == s
  {
    LowerCaseOfLower(s);
    assert forall i :: 0 <= i < |s| ==> IsWord(s[i]) || IsSpace(s[i]);
    RemoveSpecialKeeps(s);
    CollapseSpacesKeeps(s);
    TrimKeeps(s);
  }

  /** normalizeString is idempotent. */
  lemma {:induction false} NormalizeIdempotent(s: string)
    ensures NormalizeString(NormalizeString(s)) == NormalizeString(s)
  {
    NormalizeKeepsNormalized(NormalizeString(s));
  }

  /** The fixed points of normalizeString are exactly the canonical strings. */
  lemma {:induction false} NormalizeFixedPoints(s: string)
    ensures NormalizeString(s) == s <==> IsNormalized(s)
  {
    if IsNormalized(s) {
      NormalizeKeepsNormalized(s);
    }
  }

  /** normalizeString yields "" exactly when the input has no word character,
      for instance a name made only of white space or punctuation. */
  lemma {:induction false} NormalizeEmptyIff(s: string)
    ensures NormalizeString(s) == [] <==> forall i :: 0 <= i < |s| ==> !IsWord(s[i])
  {
    var r := NormalizeString(s);
    WordsOfLowerCase(s);
    WordsEmpty(s);
    WordsEmpty(r);
    if r != [] {
      assert IsWord(r[0]);
    }
  }

  // ---- the chain as words joined by single spaces ------------------------

  /** The maximal runs of non-white-space characters of `s`, in order. */
  function Tokens(s: string): (r: seq<string>)
    ensures s != [] && !IsSpace(s[0]) ==> |r| > 0
  {
    if s == [] then []
    else
      var t := Tokens(s[1..]);
      if IsSpace(s[0]) then t
      else if |s| > 1 && !IsSpace(s[1]) then [[s[0]] + t[0]] + t[1..]
      else [[s[0]]] + t
  }

  /** The tokens `ts` with one ' ' between each two of them. */
  function Join(ts: seq<string>): (r: string)
    ensures |ts| == 1 ==> r == ts[0]
  {
    if ts == [] then []
    else if |ts| == 1 then ts[0]
    else ts[0] + " " + Join(ts[1..])
  }

  /** Every token is a non-empty run of non-white-space characters. */
  lemma {:induction false} TokensAreRuns(s: string)
    ensures forall k :: 0 <= k < |Tokens(s)| ==>
      |Tokens(s)[k]| > 0 && forall i :: 0 <= i < |Tokens(s)[k]| ==> !IsSpace(Tokens(s)[k][i])
  {
    if s != [] {
      TokensAreRuns(s[1..]);
    }
  }

  /** White space in front of `s` adds no token. */
  lemma {:induction false} TokensAfterSpaces(p: string, s: string)
    requires forall i :: 0 <= i < |p| ==> IsSpace(p[i])
    ensures Tokens(p + s) == Tokens(s)
  {
    if p == [] {
      assert p + s == s;
    } else {
      assert (p + s)[1..] == p[1..] + s;
      TokensAfterSpaces(p[1..], s);
    }
  }

  /** White space behind `s` adds no token. */
  lemma {:induction false} TokensBeforeSpaces(s: string, p: string)
    requires forall i :: 0 <= i < |p| ==> IsSpace(p[i])
    ensures Tokens(s + p) == Tokens(s)
  {
    if s == [] {
      assert s + p == p;
      TokensAfterSpaces(p, []);
      assert p + [] == p;
    } else {
      assert (s + p)[1..] == s[1..] + p;
      TokensBeforeSpaces(s[1..], p);
      if |s| > 1 {
        assert (s + p)[1] == s[1];
      } else if |p| > 0 {
        assert (s + p)[1] == p[0];
      }
    }
  }

  /** Dropping the leading run of white space keeps the tokens. */
  lemma {:induction false} TokensDropSpaces(s: string)
    ensures Tokens(DropSpaces(s)) == Tokens(s)
  {
    var r := DropSpaces(s);
    assert s == s[..|s| - |r|] + r;
    TokensAfterSpaces(s[..|s| - |r|], r);
  }

  /** Collapsing runs of white space keeps the tokens. */
  lemma {:induction false} TokensCollapse(s: string)
    requires forall i :: 0 <= i < |s| ==> IsWord(s[i]) || IsSpace(s[i])
    ensures Tokens(CollapseSpaces(s)) == Tokens(s)
    decreases |s|
  {
    if s != [] {
      if IsSpace(s[0]) {
        var d := DropSpaces(s);
        TokensCollapse(d);
        TokensDropSpaces(s);
        TokensCons(' ', CollapseSpaces(d));
      } else {
        var rest := s[1..];
        TokensCollapse(rest);
        assert s == [s[0]] + rest;
        TokensSameFront(s[0], rest, CollapseSpaces(rest));
      }
    }
  }

  /** Two strings with the same tokens that agree on whether they start with
      white space still have the same tokens after a common first character. */
  lemma {:induction false} TokensSameFront(c: char, x: string, y: string)
    requires Tokens(x) == Tokens(y)
    requires x == [] <==> y == []
    requires x != [] ==> (IsSpace(x[0]) <==> IsSpace(y[0]))
    ensures Tokens([c] + x) == Tokens([c] + y)
  {
    TokensCons(c, x);
    TokensCons(c, y);
  }

  /** The tokens of a string with one more character in front. */
  lemma {:induction false} TokensCons(c: char, x: string)
    ensures Tokens([c] + x) ==
      if IsSpace(c) then Tokens(x)
      else if x != [] && !IsSpace(x[0]) then [[c] + Tokens(x)[0]] + Tokens(x)[1..]
      else [[c]] + Tokens(x)
  {
    assert ([c] + x)[1..] == x;
  }

  /** trim keeps the tokens. */
  lemma {:induction false} TokensTrim(s: string)
    ensures Tokens(Trim(s)) == Tokens(s)
  {
    var lo := LeadingSpaces(s);
    var u := s[lo..];
    var hi := |u| - TrailingSpaces(u);
    assert s == s[..lo] + u;
    TokensAfterSpaces(s[..lo], u);
    assert u == u[..hi] + u[hi..];
    TokensBeforeSpaces(u[..hi], u[hi..]);
  }

  /** Past its first character, a single-spaced string continues with a
      single-spaced string, directly or after one ' '. */
  lemma {:induction false} SingleSpacedTail(x: string)
    requires SingleSpaced(x) && |x| > 1
    ensures x[1] != ' ' ==> SingleSpaced(x[1..])
    ensures x[1] == ' ' ==> |x| > 2 && x[2] != ' ' && SingleSpaced(x[2..])
  {
    var y := x[1..];
    assert forall i :: 0 <= i < |y| ==> y[i] == x[i + 1];
    if x[1] == ' ' {
      var z := x[2..];
      assert forall i :: 0 <= i < |z| ==> z[i] == x[i + 2];
    }
  }

  lemma {:induction false} JoinGlue(c: char, t: seq<string>)
    requires |t| > 0
    ensures Join([[c] + t[0]] + t[1..]) == [c] + Join(t)
  {
    var u := [[c] + t[0]] + t[1..];
    assert |u| == |t| && u[0] == [c] + t[0];
    if |t| > 1 {
      var rest := Join(t[1..]);
      assert u[1..] == t[1..];
      assert Join(u) == ([c] + t[0]) + " " + rest;
      assert Join(t) == t[0] + " " + rest;
      assert ([c] + t[0]) + " " + rest == [c] + (t[0] + " " + rest);
    }
  }

  lemma {:induction false} JoinSplit(c: char, t: seq<string>)
    requires |t| > 0
    ensures Join([[c]] + t) == [c] + " " + Join(t)
  {
    assert ([[c]] + t)[1..] == t;
  }

  /** A single-spaced string is the join of its own tokens. */
  lemma {:induction false} JoinTokens(x: string)
    requires SingleSpaced(x)
    ensures Join(Tokens(x)) == x
    decreases |x|
  {
    if |x| > 1 {
      var c, y := x[0], x[1..];
      SingleSpacedTail(x);
      if x[1] != ' ' {
        JoinTokens(y);
        JoinGlue(c, Tokens(y));
        assert x == [c] + y;
      } else {
        var z := x[2..];
        JoinTokens(z);
        assert y[1..] == z;
        JoinSplit(c, Tokens(z));
        assert x == [c] + " " + z;
      }
    }
  }

  /** normalizeString in one sentence: the runs of word characters left
      after lower-casing and deleting special characters, joined by single
      spaces. */
  lemma {:induction false} NormalizeJoinsTokens(s: string)
    ensures NormalizeString(s) == Join(Tokens(RemoveSpecial(LowerCase(s))))
  {
    var e := RemoveSpecial(LowerCase(s));
    var c := CollapseSpaces(e);
    TokensCollapse(e);
    TokensTrim(c);
    assert SingleSpaced(NormalizeString(s));
    JoinTokens(NormalizeString(s));
  }
}
