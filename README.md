# Job-listing duplicate sweep and country enrichment, modelled in Dafny

This project models the two data-cleaning passes of a job-board back end that
keeps its listings in a hosted table store.

**The duplicate sweep** (`processDuplicatesAndSendWebhook`) works in these steps:

1. It groups the tickets by category and sub-category.
2. It visits every pair of tickets in a group once, in nested-loop order. A pair
   whose sorted id key was already visited in the group is skipped.
3. It runs a three-stage cascade on the first 400 characters of both
   requirement texts:
   - Jaccard similarity of the lower-cased whitespace tokens, at least 0.08;
   - Levenshtein similarity of the normalised texts, at least 0.55;
   - a yes/no question to a language model.
4. For every confirmed pair it retires one ticket. The anonymous poster's ticket
   goes when exactly one of the two is anonymous; otherwise the later ticket goes.
5. It reports the retired ids, the number of tickets and the number retired.

**The country enrichment** (`updateCountries`) walks over every row of the jobs
table:

- A row with neither a city nor requirements is marked for deletion.
- Every other row is sent to a language-model extractor. The row is queued
  for retry when any of these happens:
  - the request fails;
  - the reply is not JSON;
  - a property of the reply is not a string;
  - the country is missing or blacklisted (`null`, `unknown`, `not sure`,
    `don't know`, `invalid`, `n/a`, in any case, anywhere in the text).
- Otherwise the row yields a sparse update record. The record holds only the
  valid fields that differ from the stored ones. A city that differs from the
  stored one, ignoring case, counts as a correction.

Both language models are oracles, passed in as function parameters:

- `Duplicates.Arbiter` maps the two excerpts to the reply's content, or to
  `None` when the request fails.
- `CountryUpdater.Extractor` maps the prompt text to the parsed reply.

The model is built as follows:

- Pure logic is written as functions with lemmas.
- The loops of the source are written as methods with loop invariants:
  - the `groupBy` reduce;
  - the Levenshtein table, kept as a two-dimensional array;
  - the nested pair loops that carry `seenPairs`, `toDelete` and `gptRequests`;
  - the row loop.
- Each method is proved against a declarative specification function. The
  properties the source relies on are then proved about those functions.

Modules:

| module | file | content |
|---|---|---|
| `Wrappers` | `wrappers.dfy` | `Option` |
| `Text` | `text.dfy` | JavaScript whitespace and lower-casing, `trim`, `replace(/\s+/g, ' ')`, `split(/\s+/)`, `slice`, substring search |
| `Jaccard` | `jaccard.dfy` | token sets and the Jaccard ratio |
| `Levenshtein` | `levenshtein.dfy` | edit distance, the table algorithm, normalised similarity |
| `Grouping` | `grouping.dfy` | `groupBy` |
| `Duplicates` | `duplicates.dfy` | the cascade, the elimination rule, the pair loops, the sweep |
| `CountryUpdater` | `country_updater.dfy` | `isValidField`, the per-row decision, the row loop |

Four facts about the code shape the model:

- `jaccardSimilarity("", "")` is 1. Splitting an empty text yields one empty
  token, so the union is never empty.
- There is one sweep, keyed by category and sub-category.
- A pair is never skipped because one of its tickets is already retired. Only
  a repeated id key is skipped.
- The report is one payload, sent at the end.

## Model

| member | source | states |
|---|---|---|
| Text.LowerChar | duplicateProcessor.js:100 | lower-casing keeps whitespace as whitespace, maps `A`–`Z` to `a`–`z`, leaves other ASCII alone and never produces ASCII from a non-ASCII character |
| Text.LowerIdempotent | countryUpdater.js:158 | lower-casing an already lower-cased text changes nothing, so comparing lower-cased values is stable |
| Text.Trim | countryUpdater.js:59-60 | `trim` returns a slice of the input that neither starts nor ends with whitespace, and everything cut off on either side is whitespace |
| Text.TrimOfTrimmed | countryUpdater.js:122-125 | a text that neither starts nor ends with whitespace is its own `trim` |
| Text.CollapseSpaces | duplicateProcessor.js:108-109 | `replace(/\s+/g, ' ')` leaves only single plain spaces, empty exactly when its input is, starting with whitespace exactly when its input does |
| Text.CollapseOfSpaceRun | duplicateProcessor.js:108-109 | a non-empty whitespace run becomes exactly one space |
| Text.CollapseAtWord | duplicateProcessor.js:108-109 | a run never reaches across a non-space character, so the text on either side of one is collapsed on its own; with the empty text and a single run this fixes the result completely |
| Text.CollapseKeepsWords | duplicateProcessor.js:108-109 | collapsing keeps every non-whitespace character, in order |
| Text.TrimKeepsWords | duplicateProcessor.js:108-109 | `trim` removes whitespace only: every other character stays, in order |
| Text.Normalize | duplicateProcessor.js:108-109 | the normalised text has single spaces only, none at either end, and is no longer than the input |
| Text.TrimCollapsed | duplicateProcessor.js:108-109 | trimming a whitespace-collapsed text leaves it in normal form |
| Text.NormalizeKeepsWords | duplicateProcessor.js:108-109 | normalising keeps every non-whitespace character of the lower-cased text, in order; only whitespace changes |
| Text.Split | duplicateProcessor.js:100-101 | `split(/\s+/)` yields at least one piece, and no piece holds whitespace |
| Text.SplitJoinsToCollapsed | duplicateProcessor.js:100-101 | the pieces of `split(/\s+/)` joined by single spaces give the text with its whitespace collapsed, so they are exactly the words between the whitespace runs |
| Text.Prefix | duplicateProcessor.js:43-44 | `slice(0, n)` is a prefix of the text of length `min(n, length)` |
| Text.Occurs | countryUpdater.js:11 | substring search succeeds exactly when the pattern occurs at some position |
| Jaccard.TokenSet | duplicateProcessor.js:100-101 | the token set is never empty and its tokens hold no whitespace |
| Jaccard.TokenSetIsWords | duplicateProcessor.js:100-101 | the tokens are exactly the pieces of the split lower-cased text, and those pieces joined by single spaces rebuild that text with its whitespace collapsed |
| Jaccard.Jaccard | duplicateProcessor.js:99-105 | the ratio lies in [0, 1], and the union it divides by is never empty |
| Jaccard.JaccardSymmetric | duplicateProcessor.js:99-105 | the ratio does not depend on argument order |
| Jaccard.JaccardOneIffSameTokens | duplicateProcessor.js:99-105 | the ratio is 1 exactly when both token sets are equal |
| Jaccard.JaccardZeroIffDisjoint | duplicateProcessor.js:99-105 | the ratio is 0 exactly when the token sets share nothing |
| Jaccard.JaccardOfEmptyTexts | duplicateProcessor.js:100-104 | two empty texts have ratio 1 (one empty token each), not 0 and not a division by zero |
| Levenshtein.DistanceSymmetric | duplicateProcessor.js:116-127 | the edit distance does not depend on argument order |
| Levenshtein.DistanceToItself | duplicateProcessor.js:116-127 | a text is at distance 0 from itself |
| Levenshtein.DistanceZeroIffEqual | duplicateProcessor.js:110-127 | distance 0 happens exactly for equal texts |
| Levenshtein.DistanceAtMostMax | duplicateProcessor.js:127-128 | the distance never exceeds the longer length, so the similarity is never negative |
| Levenshtein.DistanceAtLeastLengthGap | duplicateProcessor.js:116-127 | the distance is at least the difference of the lengths |
| Levenshtein.DistanceOfPrefixes | duplicateProcessor.js:118-123 | the recurrence each table cell applies, stated on the prefixes the cell stands for |
| Levenshtein.DistanceTable | duplicateProcessor.js:112-127 | the bottom-right cell of the filled table is the edit distance of the two texts |
| Levenshtein.FillRow | duplicateProcessor.js:117-124 | after the inner loop, every cell of row `i` holds the distance of the matching prefixes, and every cell outside row `i` is unchanged |
| Levenshtein.Similarity | duplicateProcessor.js:110-128 | the similarity lies in [0, 1] and is 1 exactly for equal normalised texts |
| Levenshtein.SimilaritySymmetric | duplicateProcessor.js:107-129 | the similarity does not depend on argument order |
| Levenshtein.LevenshteinSimilarity | duplicateProcessor.js:107-129 | the method returns the similarity of the normalised texts, in [0, 1], and 1 exactly when they normalise to the same text |
| Grouping.GroupBy | duplicateProcessor.js:90-97 | the reduce yields one group per distinct key, in order of first appearance, each holding the items with that key in input order |
| Grouping.DistinctKeysExact | duplicateProcessor.js:90-97 | the group keys are exactly the keys of the items, none repeated |
| Grouping.MembersExact | duplicateProcessor.js:90-97 | a group holds exactly the items with its key |
| Grouping.MembersOfAbsentKey | duplicateProcessor.js:93 | a key no item carries has no members, so a new group starts empty |
| Grouping.EachItemInExactlyOneGroup | duplicateProcessor.js:90-97 | every item lands in the group of its own key and in no other group |
| Grouping.MembersKeepOrder | duplicateProcessor.js:94 | a group keeps the input order of its items |
| Grouping.MembersPositions | duplicateProcessor.js:94 | two members of a group, the first one earlier, come from two input positions in the same order, both with the group's key |
| Grouping.MembersNoDuplicates | duplicateProcessor.js:94 | a group of an input without repeats has no repeats |
| Duplicates.KeyOf | duplicateProcessor.js:39 | the pair key holds the two ids in ascending order |
| Duplicates.KeyOfIdentifiesUnorderedPairs | duplicateProcessor.js:39-41 | two id pairs have the same key exactly when they are the same unordered pair |
| Duplicates.DuplicateAnswers | duplicateProcessor.js:157-161 | a reply counts as a duplicate exactly when it is present and its trimmed text is `yes` in any mix of cases; a failed request counts as "no" |
| Duplicates.CapitalisedYesIsDuplicate | duplicateProcessor.js:157-158 | `Yes` followed by a newline counts as a duplicate; `yes.` does not |
| Duplicates.IdenticalExcerptsAreCandidates | duplicateProcessor.js:43-52 | two tickets with the same excerpt pass both filters, so the model alone decides |
| Duplicates.DisjointExcerptsAreNotCandidates | duplicateProcessor.js:46-47 | two excerpts with no common token never reach the model |
| Duplicates.Retiree | duplicateProcessor.js:54-59 | the retired id is one of the pair's two ids |
| Duplicates.RetireePolicy | duplicateProcessor.js:54-59 | a lone anonymous ticket is retired whichever way round the pair comes; otherwise the later ticket is retired |
| Duplicates.EvaluatePair | duplicateProcessor.js:43-52 | the cascade rejects at the lexical filter, rejects at the edit filter, answers "distinct" or answers "duplicate", each exactly under its condition |
| Duplicates.ComparePair | duplicateProcessor.js:43-60 | the model is asked exactly for pairs passing both filters; `toDelete` gains the retiree exactly for confirmed pairs, stays without repeats and keeps its order |
| Duplicates.SetAdd | duplicateProcessor.js:60 | `toDelete.add` adds the id once, keeps the existing order and never repeats an id |
| Duplicates.VisitPair | duplicateProcessor.js:39-62 | a pair whose key was seen changes nothing; otherwise its key is recorded, its retiree is added if confirmed, and the request count grows if it passes both filters |
| Duplicates.FreshIffUnseen | duplicateProcessor.js:39-41 | a pair is evaluated exactly when no earlier pair of the group has the same key |
| Duplicates.FreshAtMostOnce | duplicateProcessor.js:39-41 | two evaluated pairs of a group with the same key are the same pair |
| Duplicates.DistinctIdsMakeEveryPairFresh | duplicateProcessor.js:39-41 | when a group's ids are distinct, no pair is skipped |
| Duplicates.CompareRow | duplicateProcessor.js:37-63 | after the inner loop for ticket `i`, the seen keys, retirees and request count are those of every pair visited so far |
| Duplicates.CompareWithinGroup | duplicateProcessor.js:33-64 | after one group, `toDelete` has gained exactly the group's retirees without repeats, and the request count has grown by the group's evaluated pairs that pass both filters |
| Duplicates.ProcessDuplicates | duplicateProcessor.js:29-70 | the payload lists every retired id once and nothing else; `total` is the number of tickets and `found` the number listed; the request count is the number of evaluated pairs passing both filters |
| Duplicates.NoDuplicatesCardinality | duplicateProcessor.js:68-70 | a list without repeats is as long as its set, so `found` equals the length of `duplicates` |
| Duplicates.GroupsPartitionTickets | duplicateProcessor.js:29 | the groups are non-empty and partition the tickets; two tickets share a group exactly when their category keys agree |
| Duplicates.RetiredComesFromConfirmedPair | duplicateProcessor.js:32-60 | soundness: every retired id is the retiree of two input tickets at positions `a < b`, of the same category, that pass both filters and that the model calls duplicates |
| Duplicates.FoundAtMostTotal | duplicateProcessor.js:67-70 | every retired id is an input ticket's id, so `found` never exceeds `total` |
| Duplicates.ConfirmedPairIsRetired | duplicateProcessor.js:29-60 | completeness, for unique ids: the retiree of every confirmed same-category pair is reported |
| CountryUpdater.AnyOccursMeaning | countryUpdater.js:11 | the alternation matches exactly when one of its phrases occurs at some position |
| CountryUpdater.IsValidFieldMeaning | countryUpdater.js:10-12 | a value is valid exactly when it is present, non-empty, and contains no blacklisted phrase in its lower-cased text |
| CountryUpdater.IsValidFieldIgnoresCase | countryUpdater.js:11 | the test is case-insensitive: a value and its lower-cased form are valid together |
| CountryUpdater.BuildUpdate | countryUpdater.js:140-170 | the record and the `changed` and correction flags built field by field agree with the row's decided outcome; nothing unchanged is ever a correction |
| CountryUpdater.UpdateCountries | countryUpdater.js:54-175 | the delete, retry and update lists and the correction count are those of the rows' outcomes in order; each row either calls the model or is deleted |
| CountryUpdater.OutcomeCases | countryUpdater.js:57-138 | a row is deleted exactly when it is blank; it is retried exactly when the request, the parse, a property's type or the country fails; an update needs a valid country |
| CountryUpdater.UpdateRecordShape | countryUpdater.js:140-174 | an update record carries the row id and each field exactly when the source writes it, with the trimmed reply value; a city change is a correction exactly when the stored city was non-empty; at least one field is written |
| CountryUpdater.UpdateConverges | countryUpdater.js:143-169 | writing an update record and running the pass again with the same extractor leaves the row unchanged |
| CountryUpdater.OutcomesPartitionRows | countryUpdater.js:57-175 | deleted, retried, updated and unchanged rows add up to all rows |
| CountryUpdater.CorrectionsAtMostUpdates | countryUpdater.js:153-174 | the number of corrected cities never exceeds the number of update records |
| CountryUpdater.DeletedRowsAreBlank | countryUpdater.js:62-66 | every deleted id is that of a blank input row, and every retried row is a non-blank input row |
| CountryUpdater.UpdateRecordsAreSparse | countryUpdater.js:140-174 | every update record names a non-blank input row, writes at least one field, and writes only valid values |

## Left out

- Network calls are not modelled, and neither are credentials or the
  environment:
  - the table-store fetch (`duplicateProcessor.js:10-27`);
  - `fetchAllRows` and its paging by `offset` (`countryUpdater.js:14-29`);
  - the webhook post;
  - the bulk update and delete calls (`countryUpdater.js:177-207`).

  The passes start from the rows already fetched and stop at the lists they
  would send.
- Rate limiting (`sleep(DELAY)`), console output, timing and the `results`
  message strings are not modelled. They do not affect the decisions.
- The report's `timestamp` is not modelled, because it is a clock read.
- `index.js` is not part of this model. It only wires the two passes to HTTP
  routes.
- Both language models are oracles.
  - The prompts' wording is not modelled.
  - Replies are assumed to be a function of the prompt, which is what
    `temperature: 0` aims at.
  - The country extractor's prompt is modelled as the exact user message.
- Floating point is replaced by exact rationals. Rounding of the two
  similarity ratios next to the 0.08 and 0.55 thresholds is not modelled.
- `toLowerCase` covers ASCII, Latin-1 and basic Cyrillic capitals. Other
  scripts are left unchanged.
- Strings are sequences of Unicode scalar values, not UTF-16 code units. Lengths and
  `slice(0, 400)` therefore differ from the source for characters outside
  the Basic Multilingual Plane.
- Table columns holding a value that is neither a string nor absent are
  not modelled. All columns are typed as strings.
  - A non-string City or Requirements in `updateCountries`, or a
    non-string Requirements in the sweep, makes `trim` or `slice` throw,
    which aborts the whole run.
  - A non-string stored Country, Region or Phone number throws nothing. It
    is only compared with `!==`, so in the source it differs from every
    extracted string and is rewritten on every run. Because of the string
    typing, CountryUpdater.UpdateConverges does not cover such rows.
  - Non-string category, sub-category or Username columns of a ticket
    throw nothing. They are only interpolated into the group key or
    compared.

  Properties of the parsed extractor reply that are not strings are
  modelled, and send the row to the retry list.
- Duplicates.KeyOf: the key is the ordered pair of numeric ids, not the string
  `[a, b].sort().join('-')`. For non-negative integer ids both identify the
  same unordered pairs. The lexicographic order of the ids inside the string
  is not modelled.
- Duplicates.ProcessDuplicates: states the set of reported ids and that none
  repeats, but not their order. The order is the order in which pairs are
  confirmed.
- Duplicates.CompareRow, Duplicates.ComparePair, Levenshtein.FillRow and
  CountryUpdater.BuildUpdate are loop bodies of the source lifted into methods
  of their own. Their behaviour is the source's. Only the structure differs.
