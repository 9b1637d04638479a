/** The records of lib/match.ts: an entity of the roster, one scored
    candidate of the ranked list, and the result of a match. */
module Entities {

  datatype Option<+T> = None | Some(value: T)

  /** `Entity` (lib/match.ts:5-8). */
  datatype Entity = Entity(internalId: string, name: string)

  /** One element of `allMatches`: an entity and its similarity score. */
  datatype Match = Match(entity: Entity, similarity: real)

  /** `MatchResult` (lib/match.ts:10-14); `matchedEntity == None` stands for `null`. */
  datatype MatchResult = MatchResult(matchedEntity: Option<Entity>, confidence: real, allMatches: seq<Match>)

  /** The entities of a list of matches, in order. */
  function EntitiesOf(s: seq<Match>): (r: seq<Entity>)
    ensures |r| == |s|
    ensures forall k :: 0 <= k < |s| ==> r[k] == s[k].entity
  {
    seq(|s|, k requires 0 <= k < |s| => s[k].entity)
  }
}
