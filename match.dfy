/** findBestMatch of lib/match.ts: scores every roster entity against the
    candidate name, ranks the scores and reports the best one. */
module EntityMatch {
  import opened Entities
  import opened CharClasses
  import opened Normalize
  import opened Similarity
  import opened Ranking

  /** The marker the name extractor returns when it found no name
      (lib/llm.ts:156). */
  const UnknownInsured: string := "Unknown Insured"

  /** `{ matchedEntity: null, confidence: 0, allMatches: [] }`. */
  const NoMatch: MatchResult := MatchResult(None, 0.0, [])

  /** The roster paired with the similarity of each normalised entity name to
      the normalised candidate, in roster order (lib/match.ts:38-42). */
  function Score(normalizedName: string, entities: seq<Entity>): (r: seq<Match>)
    ensures |r| == |entities|
    ensures EntitiesOf(r) == entities
    ensures forall k :: 0 <= k < |r| ==> r[k].similarity == StringSimilarity(normalizedName, NormalizeString(entities[k].name))
  {
    seq(|entities|, k requires 0 <= k < |entities| =>
      Match(entities[k], StringSimilarity(normalizedName, NormalizeString(entities[k].name))))
  }

  /** True when findBestMatch returns without scoring anything. */
  predicate ShortCircuits(name: string, entities: seq<Entity>) {
    name == [] || |entities| == 0 || name == UnknownInsured
  }

  /** The value findBestMatch returns (lib/match.ts:19-65). */
  function BestMatch(name: string, entities: seq<Entity>): MatchResult {
    if ShortCircuits(name, entities) then NoMatch
    else
      var ranked := StableSort(Score(NormalizeString(name), entities));
      MatchResult(Some(ranked[0].entity), ranked[0].similarity, ranked)
  }

  /** findBestMatch (lib/match.ts:19-65): the two guards, the scoring `map`,
      the in-place sort of the fresh `matches` array, and the projection of
      its head. The roster is a value and is never changed. */
  method FindBestMatch(name: string, entities: seq<Entity>) returns (result: MatchResult)
    ensures result == BestMatch(name, entities)
    ensures ShortCircuits(name, entities) ==> result == NoMatch
    ensures !ShortCircuits(name, entities) ==>
      && |result.allMatches| == |entities|
      && multiset(EntitiesOf(result.allMatches)) == multiset(entities)
      && SortedDesc(result.allMatches)
      && result.matchedEntity == Some(result.allMatches[0].entity)
      && result.confidence == result.allMatches[0].similarity
  {
    if name == [] || |entities| == 0 {
      return NoMatch;
    }
    if name == UnknownInsured {
      return NoMatch;
    }
    var normalizedName := NormalizeString(name);
    var scored := Score(normalizedName, entities);
    var ranked := Rank(scored);
    result := MatchResult(Some(ranked[0].entity), ranked[0].similarity, ranked);
    StableSortSorted(scored);
    StableSortEntities(scored);
  }

  /** `matches.sort(...)` on the fresh array built by the `map`. */
  method Rank(scored: seq<Match>) returns (ranked: seq<Match>)
    ensures ranked == StableSort(scored)
  {
    var matches := new Match[|scored|](k requires 0 <= k < |scored| => scored[k]);
    assert matches[..] == scored;
    SortBySimilarity(matches);
    ranked := matches[..];
  }

  // ---- properties of the result ---------------------------------------------

  /** An empty name, an empty roster or the "Unknown Insured" marker, and only
      these, give the empty result; the marker is compared before any
      normalisation, so the roster does not matter. */
  lemma {:induction false} ShortCircuitIff(name: string, entities: seq<Entity>)
    ensures BestMatch(name, entities) == NoMatch <==> ShortCircuits(name, entities)
    ensures BestMatch(name, entities).allMatches == [] <==> ShortCircuits(name, entities)
    ensures BestMatch(name, entities).matchedEntity == None <==> ShortCircuits(name, entities)
  {
  }

  /** Otherwise `allMatches` ranks every roster entity exactly as many times
      as it occurs in the roster, each with its own score. */
  lemma {:induction false} RankedIsPermutation(name: string, entities: seq<Entity>)
    requires !ShortCircuits(name, entities)
    ensures var r := BestMatch(name, entities).allMatches;
      && |r| == |entities|
      && multiset(r) == multiset(Score(NormalizeString(name), entities))
      && multiset(EntitiesOf(r)) == multiset(entities)
      && forall k :: 0 <= k < |r| ==>
           r[k].similarity == StringSimilarity(NormalizeString(name), NormalizeString(r[k].entity.name))
  {
    var s := Score(NormalizeString(name), entities);
    var r := StableSort(s);
    StableSortMultiset(s);
    StableSortEntities(s);
    forall k | 0 <= k < |r|
      ensures r[k].similarity == StringSimilarity(NormalizeString(name), NormalizeString(r[k].entity.name))
    {
      assert r[k] in multiset(s);
      var i :| 0 <= i < |s| && s[i] == r[k];
    }
  }

  /** `allMatches` is non-increasing in similarity, and entities with equal
      scores keep their roster order. */
  lemma {:induction false} RankedIsSortedAndStable(name: string, entities: seq<Entity>)
    requires !ShortCircuits(name, entities)
    ensures SortedDesc(BestMatch(name, entities).allMatches)
    ensures forall v :: WithScore(BestMatch(name, entities).allMatches, v)
                     == WithScore(Score(NormalizeString(name), entities), v)
  {
    var s := Score(NormalizeString(name), entities);
    StableSortSorted(s);
    forall v ensures WithScore(StableSort(s), v) == WithScore(s, v) {
      StableSortStable(s, v);
    }
  }

  /** The ranking is the one any stable descending sort would produce. */
  lemma {:induction false} RankedIsTheStableSort(name: string, entities: seq<Entity>, r: seq<Match>)
    requires !ShortCircuits(name, entities)
    requires SortedDesc(r)
    requires forall v :: WithScore(r, v) == WithScore(Score(NormalizeString(name), entities), v)
    ensures BestMatch(name, entities).allMatches == r
  {
    StableSortUnique(Score(NormalizeString(name), entities), r);
  }

  /** `matchedEntity` and `confidence` come from the head of `allMatches`; the
      confidence is the highest score over the roster and the entity is the
      first one in roster order that reaches it. */
  lemma {:induction false} BestIsFirstMaximum(name: string, entities: seq<Entity>)
    requires !ShortCircuits(name, entities)
    ensures var res, s := BestMatch(name, entities), Score(NormalizeString(name), entities);
      && res.matchedEntity == Some(res.allMatches[0].entity)
      && res.confidence == res.allMatches[0].similarity
      && res.matchedEntity == Some(entities[ArgMax(s)])
      && res.confidence == s[ArgMax(s)].similarity
      && (forall k :: 0 <= k < |entities| ==> s[k].similarity <= res.confidence)
      && (forall k :: 0 <= k < ArgMax(s) ==> s[k].similarity < res.confidence)
  {
    var s := Score(NormalizeString(name), entities);
    var res := BestMatch(name, entities);
    assert res.allMatches == StableSort(s);
    HeadIsFirstMaximum(s, entities);
  }

  /** The ranking-level fact behind BestIsFirstMaximum, for any scored roster. */
  lemma HeadIsFirstMaximum(s: seq<Match>, entities: seq<Entity>)
    requires |s| > 0 && EntitiesOf(s) == entities
    ensures StableSort(s)[0].entity == entities[ArgMax(s)]
    ensures StableSort(s)[0].similarity == s[ArgMax(s)].similarity
  {
    StableSortHead(s);
    assert s[ArgMax(s)].entity == EntitiesOf(s)[ArgMax(s)];
  }

  /** A name with no word character (white space or punctuation only) passes
      the guards but normalises to "", so every score is 0 and the first
      roster entity is returned with confidence 0, the roster in its order. */
  lemma {:induction false} NoWordNameMatchesFirst(name: string, entities: seq<Entity>)
    requires !ShortCircuits(name, entities)
    requires forall i :: 0 <= i < |name| ==> !IsWord(name[i])
    ensures BestMatch(name, entities).matchedEntity == Some(entities[0])
    ensures BestMatch(name, entities).confidence == 0.0
    ensures BestMatch(name, entities).allMatches == seq(|entities|, k requires 0 <= k < |entities| => Match(entities[k], 0.0))
  {
    NormalizeEmptyIff(name);
    ZeroScores(NormalizeString(name), entities);
  }

  /** An empty normalised name scores 0 against every entity, and the
      ranking keeps the roster order. */
  lemma ZeroScores(normalizedName: string, entities: seq<Entity>)
    requires normalizedName == []
    ensures StableSort(Score(normalizedName, entities))
         == seq(|entities|, k requires 0 <= k < |entities| => Match(entities[k], 0.0))
  {
    var s := Score(normalizedName, entities);
    assert s == seq(|entities|, k requires 0 <= k < |entities| => Match(entities[k], 0.0));
    StableSortOfSorted(s);
  }

  /** When some roster entity normalises to the same non-empty string as the
      name, the confidence is 1 and the first such entity is the match. */
  lemma {:induction false} ExactMatchWins(name: string, entities: seq<Entity>, k: nat)
    requires !ShortCircuits(name, entities) && k < |entities|
    requires NormalizeString(name) != [] && NormalizeString(entities[k].name) == NormalizeString(name)
    requires forall i :: 0 <= i < k ==> NormalizeString(entities[i].name) != NormalizeString(name)
    ensures BestMatch(name, entities).matchedEntity == Some(entities[k])
    ensures BestMatch(name, entities).confidence == 1.0
  {
    var s := Score(NormalizeString(name), entities);
    BestIsFirstMaximum(name, entities);
    var j := ArgMax(s);
    assert s[k].similarity == 1.0;
    assert s[j].similarity == 1.0;
    assert j == k;
  }
}
