# Insured-entity name matching, modelled in Dafny

The matching engine of the claims assistant lives in `lib/match.ts`. It takes
a candidate name, which is what the extractor found in a claim document, and
a roster of known entities. It returns the best-matching entity, a
confidence in [0, 1], and the whole roster ranked by similarity. This
project models that engine and proves what it promises. The engine has four
parts:

- `normalizeString` lower-cases the name, deletes every character that is
  neither a word character (`\w`) nor white space (`\s`), collapses each run
  of white space to one `' '`, and trims both ends.
- `levenshteinDistance` fills a dynamic-programming table of edit
  distances.
- `calculateStringSimilarity` returns 0 when a string is empty and 1 when
  both strings are equal. Otherwise it returns `1 - distance / maxLength`.
- `findBestMatch` first applies two guards: an empty name, an empty roster,
  or the marker `"Unknown Insured"` returns the empty result. Otherwise it
  scores every entity's normalised name against the normalised candidate,
  sorts the scores in descending order, and reports the head.

Files, one module each:

| file | module | models |
|---|---|---|
| `chars.dfy` | `CharClasses` | the `\w` and `\s` classes and ASCII lower-casing |
| `normalize.dfy` | `Normalize` | `normalizeString` as its four passes, plus a token-level description of their composition |
| `levenshtein.dfy` | `Levenshtein` | the edit-distance recurrence `Distance`, and the table-filling method proved equal to it |
| `similarity.dfy` | `Similarity` | `calculateStringSimilarity` on exact rationals |
| `entities.dfy` | `Entities` | `Entity`, `MatchResult` and the `{ entity, similarity }` pairs |
| `ranking.dfy` | `Ranking` | the descending stable sort, both as the function `StableSort` and as an in-place insertion sort on an array |
| `match.dfy` | `EntityMatch` | `findBestMatch` as a method, the function `BestMatch` that specifies it, and the properties of its result |

How the code works is modelled as follows:

- **Imperative parts.** The table-filling loops are a method on an
  `array2<nat>`, proved to return `Distance(a, b)`. The `sort` of the fresh
  `matches` array is an in-place insertion sort on an `array<Match>`, proved
  to produce `StableSort` of its input.
- **Pure parts.** The string passes and the similarity formula are
  functions.
- **Ranking.** `StableSortUnique` proves that every list sorted by
  descending similarity that keeps the roster order among equal scores
  equals `StableSort`. This means the result does not depend on which
  stable algorithm the JavaScript engine uses.

## Model

| member | source | states |
|---|---|---|
| CharClasses.IsWord | lib/match.ts:74 | `\w` without the `u` flag: the ASCII letters, digits and `_` |
| CharClasses.IsSpace | lib/match.ts:74-76 | `\s`, which is also the set `trim` removes: the ECMAScript WhiteSpace and LineTerminator code points, namely tab, line feed, vertical tab, form feed, carriage return, space, U+00A0, U+1680, U+2000 to U+200A, U+2028, U+2029, U+202F, U+205F, U+3000 and U+FEFF |
| CharClasses.ToLower | lib/match.ts:73 | lower-cases exactly the ASCII capitals (code point + 32) and leaves every other character alone, so word and white-space characters are kept |
| Normalize.LowerCase | lib/match.ts:73 | the string keeps its length, holds no ASCII capital, keeps each position's word or white-space class, moves each capital up by 32 code points and leaves every other character unchanged |
| Normalize.RemoveSpecial | lib/match.ts:74 | only word and white-space characters remain, and every word character is kept in order. A string without capitals stays without capitals. A single character is kept exactly when it is a word or white-space character |
| Normalize.RemoveSpecialAppend | lib/match.ts:74 | the filter distributes over concatenation, so with the one-character case it deletes exactly the special characters and keeps everything else, white space included, in order |
| Normalize.RemoveSpecialKeeps | lib/match.ts:74 | a string made only of word and white-space characters is not changed |
| Normalize.DropSpaces | lib/match.ts:75 | removes exactly the leading run of white space, which is a suffix of the input that starts with a non-space, and keeps the word characters |
| Normalize.CollapseSpaces | lib/match.ts:75 | the result is empty exactly when the input is, and starts with `' '` exactly when the input starts with white space |
| Normalize.CollapseSpacesShape | lib/match.ts:75 | the result holds only `' '` and word characters, never has two `' '` in a row, and ends with `' '` exactly when the input ends with white space |
| Normalize.CollapseSpacesWords | lib/match.ts:75 | collapsing keeps every word character in order, and keeps a string without capitals free of capitals |
| Normalize.CollapseSpacesKeeps | lib/match.ts:75 | a string of word characters and single `' '` is not changed |
| Normalize.TokensCollapse | lib/match.ts:75 | collapsing keeps the sequence of maximal non-space runs |
| Normalize.LeadingSpaces | lib/match.ts:76 | counts the white space at the front: every counted character is white space and the next one is not |
| Normalize.TrailingSpaces | lib/match.ts:76 | counts the white space at the end: every counted character is white space and the one before is not |
| Normalize.Trim | lib/match.ts:76 | the result is the slice of the input between the leading and the trailing white space, and neither end of it is white space |
| Normalize.TrimWords | lib/match.ts:76 | trimming keeps every word character |
| Normalize.TokensTrim | lib/match.ts:76 | trimming keeps the sequence of maximal non-space runs |
| Normalize.TrimKeeps | lib/match.ts:76 | a string with no white space at either end is not changed |
| Normalize.TokensAreRuns | lib/match.ts:75-76 | every token is a non-empty run of non-white-space characters |
| Normalize.JoinTokens | lib/match.ts:75-76 | a string of word characters with single inner `' '` is the join of its own tokens by `' '` |
| Normalize.NormalizeString | lib/match.ts:71-77 | the result is canonical: only lower-case word characters and `' '`, no space at either end, no two spaces in a row. Its word characters are those of the lower-cased input, in order |
| Normalize.NormalizeJoinsTokens | lib/match.ts:71-77 | normalizeString equals the join, by single spaces, of the word runs of the lower-cased input once special characters are deleted |
| Normalize.NormalizeKeepsNormalized | lib/match.ts:71-77 | a canonical string is its own normal form |
| Normalize.NormalizeIdempotent | lib/match.ts:71-77 | normalising twice gives the same result as normalising once |
| Normalize.NormalizeFixedPoints | lib/match.ts:71-77 | a string is its own normal form if and only if it is canonical |
| Normalize.NormalizeEmptyIff | lib/match.ts:71-77 | the normal form is empty if and only if the input holds no word character, for example a name made only of white space or punctuation |
| Levenshtein.Min3 | lib/match.ts:126-130 | `Math.min` of three values: at most each of them and equal to one of them |
| Levenshtein.Distance | lib/match.ts:104-136 | the edit distance as the recurrence the table fills: the length of the other string when one is empty, otherwise the cheapest of deleting the last character of `a`, inserting the last character of `b`, or matching the two last characters (free when they agree) |
| Levenshtein.LevenshteinDistance | lib/match.ts:104-136 | the table method returns the edit distance `Distance(a, b)` |
| Levenshtein.FillRow | lib/match.ts:124-131 | after the inner loop, row i holds the distances of `a[..i]` to every prefix of `b`, and no other row changed |
| Levenshtein.FillCell | lib/match.ts:125-130 | cell [i][j] becomes the distance of `a[..i]` and `b[..j]`, and no other cell changed |
| Levenshtein.DistanceEdges | lib/match.ts:113-120 | row 0 and column 0 of the table hold their own index |
| Levenshtein.DistanceCell | lib/match.ts:125-130 | the distance of two prefixes is the cheapest of a deletion, an insertion and a substitution, where the substitution is free when the characters agree |
| Levenshtein.DistanceSymmetric | lib/match.ts:100-104 | d(a, b) = d(b, a) |
| Levenshtein.DistanceBounds | lib/match.ts:100-104 | the length difference is at most d(a, b), and d(a, b) is at most the longer length |
| Levenshtein.DistanceZeroIff | lib/match.ts:100-104 | d(a, b) = 0 if and only if a = b |
| Levenshtein.DistanceCommonSuffix | lib/match.ts:100-104 | appending the same suffix to both strings never increases the distance |
| Levenshtein.InsertionDistance | lib/match.ts:100-104 | one inserted character is exactly one edit |
| Levenshtein.SubstitutionDistance | lib/match.ts:100-104 | one replaced character is exactly one edit |
| Levenshtein.MaxLength | lib/match.ts:95 | the larger of the two lengths |
| Similarity.RatioBounds | lib/match.ts:93-96 | `distance / maxLength` lies in [0, 1], is positive when the distance is, and is 1 exactly when the distance equals the length |
| Similarity.StringSimilarity | lib/match.ts:83-97 | the score lies in [0, 1]. It is 0 when either string is empty, and it is 1 if and only if the strings are equal and non-empty |
| Similarity.SimilaritySymmetric | lib/match.ts:83-97 | the score does not depend on the argument order |
| Similarity.SimilarityFormula | lib/match.ts:90-96 | for two non-empty strings the score is `1 - d / max(length)`, which includes the equal-strings shortcut |
| Similarity.SimilarityZeroIff | lib/match.ts:83-97 | the score is 0 if and only if a string is empty or the distance equals the longer length |
| Similarity.InsertionTypoScore | lib/match.ts:90-96 | one extra letter scores `1 - 1 / n`, where n is the longer length |
| Similarity.SubstitutionTypoScore | lib/match.ts:90-96 | one wrong letter scores `1 - 1 / n`, where n is the length |
| Ranking.WithScoreIn | lib/match.ts:51 | `WithScore(s, v)` holds exactly the matches of `s` that score `v` |
| Ranking.WithScoreAppend | lib/match.ts:51 | WithScore distributes over concatenation |
| Ranking.WithScoreFirst | lib/match.ts:51 | the first match that scores `v` heads `WithScore(s, v)` |
| Ranking.ArgMax | lib/match.ts:60-62 | the first index holding the highest similarity |
| Ranking.Insert | lib/match.ts:51 | one step of the stable descending sort: the new match goes after every element that scores at least as high, and the list grows by one |
| Ranking.StableSort | lib/match.ts:51 | the sorted list: each match inserted in input order into the sorted list of those before it, with the input's length |
| Ranking.InsertMultiset | lib/match.ts:51 | one insertion step adds exactly the inserted match |
| Ranking.InsertSorted | lib/match.ts:51 | one insertion step keeps a descending list descending |
| Ranking.InsertWithScore | lib/match.ts:51 | one insertion step puts the new match after every earlier match of the same score |
| Ranking.InsertAt | lib/match.ts:51 | the insertion puts the match just after the last element that scores at least as high |
| Ranking.StableSortMultiset | lib/match.ts:51 | sorting is a permutation of its input |
| Ranking.StableSortEntities | lib/match.ts:51 | every entity is ranked as many times as it occurs in the input |
| Ranking.StableSortSorted | lib/match.ts:51 | the sorted list is non-increasing in similarity |
| Ranking.StableSortStable | lib/match.ts:51 | matches of equal similarity keep their input order |
| Ranking.SortedStableUnique | lib/match.ts:51 | two descending lists that agree on the order of each score are equal |
| Ranking.StableSortUnique | lib/match.ts:51 | every stable descending sort of the input equals StableSort |
| Ranking.StableSortOfSorted | lib/match.ts:51 | an input that is already descending is not changed |
| Ranking.StableSortHead | lib/match.ts:51 | the head of the sorted list is the first match of highest similarity in the input |
| Ranking.InsertLast | lib/match.ts:51 | moves `a[i]` into place within the sorted prefix `a[..i]`, so the prefix becomes Insert of the old prefix and the old `a[i]`, and the rest of the array is not changed |
| Ranking.SortBySimilarity | lib/match.ts:51 | the array ends up as StableSort of its old contents |
| EntityMatch.Score | lib/match.ts:38-42 | one match per roster entity, in roster order, each scoring the similarity of the normalised candidate to that entity's normalised name |
| EntityMatch.ShortCircuits | lib/match.ts:24-33 | the two guards: an empty name, an empty roster, or the name exactly `"Unknown Insured"` before normalisation |
| EntityMatch.BestMatch | lib/match.ts:19-65 | the value findBestMatch returns: the empty result when it short-circuits, otherwise the stable descending ranking of the scored roster with its head as the match and its head's score as the confidence |
| EntityMatch.Rank | lib/match.ts:38-51 | sorting the fresh array built from the scores gives StableSort of the scores |
| EntityMatch.FindBestMatch | lib/match.ts:19-65 | the method returns BestMatch. On the short-circuit path the result is empty. Otherwise it ranks every entity once per roster occurrence, in descending order, and reports the head's entity and score |
| EntityMatch.ShortCircuitIff | lib/match.ts:24-33 | the result is the empty one, and equally has no match and no ranked list, if and only if the name is empty, the roster is empty, or the name is "Unknown Insured" |
| EntityMatch.RankedIsPermutation | lib/match.ts:38-63 | `allMatches` is a permutation of the scored roster, each entity as many times as in the roster, each with its own score |
| EntityMatch.RankedIsSortedAndStable | lib/match.ts:50-51 | `allMatches` is descending in similarity, and entities with equal scores keep their roster order |
| EntityMatch.RankedIsTheStableSort | lib/match.ts:50-51 | any descending, roster-order-preserving ranking of the scores is `allMatches` |
| EntityMatch.BestIsFirstMaximum | lib/match.ts:59-64 | `matchedEntity` and `confidence` are the head of `allMatches`. The confidence is the highest roster score, and the entity is the first in roster order that reaches it |
| EntityMatch.HeadIsFirstMaximum | lib/match.ts:59-64 | the same fact for any scored roster |
| EntityMatch.ZeroScores | lib/match.ts:38-51 | an empty normalised name scores 0 everywhere, and the ranking is the roster order |
| EntityMatch.NoWordNameMatchesFirst | lib/match.ts:35-64 | a non-empty name with no word character gets the first roster entity at confidence 0, with the roster in its own order at score 0 |
| EntityMatch.ExactMatchWins | lib/match.ts:35-64 | when an entity's normal form equals the candidate's non-empty normal form, confidence is 1 and the first such entity is returned |

## Left out

- Logging: the `Date` timestamp and every `console.log` in `lib/match.ts` are left out. They do not affect the result.
- `normalizedEntityName` is left out of the scored records, because only the logging reads it (lib/match.ts:41-48).
- Floating point: similarity is an exact `real`. IEEE rounding of `distance / maxLength` could make two scores that differ as rationals compare equal as doubles, and so change the order of near-ties.
- CharClasses.ToLower: lower-cases only ASCII capitals. `String.prototype.toLowerCase` follows Unicode case mapping. Two non-ASCII capitals lower-case to ASCII word characters: U+0130 `'İ'` becomes `"i\u0307"` and U+212A (Kelvin sign) becomes `'k'`. The source keeps the resulting `i` or `k`, while the model leaves the capital unchanged and then deletes it as a special character. Other non-ASCII letters are deleted either way.
- Characters are Unicode scalar values, while JavaScript counts and indexes UTF-16 code units. On the `findBestMatch` path this makes no difference, because `[^\w\s]` without the `u` flag deletes both surrogate halves of a character outside the Basic Multilingual Plane, just as the model deletes the whole character. It matters only for a direct call of `calculateStringSimilarity` on such characters, where JavaScript's lengths and distances count two units for each of them.
- Values of the wrong type, such as a `null` or `undefined` name, are not modelled. The model takes every argument as a string and the roster as an immutable sequence.
- The roster is a value. `findBestMatch` never changes it, and the model shows this by construction rather than by a frame condition.
- The sort algorithm: the engine's own stable sort (ECMAScript has required `Array.prototype.sort` to be stable since ES2019) is replaced by an insertion sort. `StableSortUnique` shows that any stable descending sort gives the same list.
- Tie order: the code sorts a list in roster order with a stable sort, so equal scores stay in roster order. The model follows the code and proves that order.
- Concrete example matches, such as a particular typo against a particular roster, are not proved by evaluating those strings. Their general forms are proved instead: `InsertionTypoScore`, `SubstitutionTypoScore`, `ExactMatchWins` and `NoWordNameMatchesFirst`.
- The name extractor (`lib/llm.ts`, including its local fallback heuristic), the file parser (`lib/parser.ts`), the page (`app/page.tsx`) and the UI components are not part of this model. The model takes the candidate name as an input.
