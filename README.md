# Simaja OCR post-processing, modelled in Dafny

Simaja is a web application for a family tree of "Sims 4" households. It has
a screenshot-OCR feature. The recognised text of a Simology panel is turned
into a Sim's name, age, traits, aspiration, career and skill levels. Each of
these gets a confidence score and a Swedish translation. This project models
that pipeline and proves what it promises:

- **Similarity engine** (`similarity.dfy`, module `SimilarityEngine`). The
  Levenshtein matrix is filled in place by nested loops and proved equal to
  the edit-distance recurrence. The 0-100 similarity score is built on it.
- **OCR normaliser** (`normalize.dfy`, `OcrNormalize`). It lower-cases and
  trims, then rewrites `1`→`l`, `0`→`o`, `5`→`s` and `rn`→`m`.
- **Matchers** (`matching.dfy`, `Matching`; `matchall.dfy`, `MatchAll`).
  `findBestMatch` has an exact-match short-circuit, the containment bonus of
  85 and first-wins tie-breaking. `findAllMatches` runs a phrase pass at 95,
  then a greedy token pass, then a stable sort.
- **Field extractors** (`extractors.dfy`, `Extractors`). These are
  `extractPotentialName` and `extractSkillLevel`. Both regular expressions
  are written out as recognisers. The skill pattern finds the leftmost match
  and, within it, the split that backtracking picks.
- **Vocabulary** (`sims4_data.dfy`, `Sims4Data`). It holds the five
  bilingual tables, the candidate pools, the translation to Swedish and the
  option lists.
- **Parse orchestrator and validator** (`ocr_service.dfy`, `OcrService`).
  These are `parseSimData` and `validateOcrResult`.
- **Navigation guard** (`router.dfy`, `Router`). It holds the route table
  and the `beforeEach` redirect rule.
- `text.dfy` (`Text`) has the character classes, lower-casing, `trim`,
  `includes` and `split`. `wrappers.dfy` has `Option`, used where the
  source returns `null`.

The source's loops are methods: `levenshteinDistance`, `findBestMatch`,
both passes of `findAllMatches`, `extractPotentialName`,
`getAllAspirationNames`, `aspirationToSwedish`, `getAspirationOptions`, and
the trait and skill loops of `parseSimData`. Each method is proved to return
what a loop-free specification function describes. The properties are proved
about those functions as lemmas. The expression-only code is functions:
`calculateSimilarity`, `normalizeOcrText`, `extractSkillLevel`, translation,
the pools, `validateOcrResult` and the guard.

Modelling choices:

- Strings are `seq<char>`.
- Lower-casing covers ASCII and `ÅÄÖ` only.
- `trim` and `\s` use JavaScript's whitespace and line-terminator set.
- `Math.round` is exact rational rounding, with halves rounded up.
- `parseSimData` takes the vocabulary tables as a parameter;
  `Sims4Data.Sims4` holds the tables of the source.
- An absent `rawText` is `None`.

Where the code and its prose description differ, the model follows the
code:

- `findBestMatch` treats only the empty string as empty input. Input made of
  whitespace normalises to the empty string, which every candidate contains.
  So the first candidate wins at 85 (`Matching.BlankInputMatchesFirst`).
  `parseSimData` never passes such input.
- The clean-up step of `extractPotentialName` never changes an accepted
  line. A trimmed line that matches the name pattern holds no `|`, `1` or
  `0` (`Extractors.CleanupKeepsNameLine`).
- `parseSimData` matches the age, aspiration and career against the whole
  text, not against one line. Against a text more than twice as long as
  every label, a threshold above 50 can only be met by containment, at
  confidence 85 or more (`Matching.LongInputNeedsContainment`).

## Model

| member | source | states |
|---|---|---|
| `SimilarityEngine.LevenshteinDistance` | src/utils/fuzzyMatch.js:12-45 | The bottom-right cell of the filled matrix is the edit distance of the two strings, with insertion, deletion and substitution each costing 1 |
| `SimilarityEngine.DistanceStep` | src/utils/fuzzyMatch.js:30-41 | Each inner cell follows from its three neighbours: free when the characters agree, otherwise 1 plus the cheapest neighbour |
| `SimilarityEngine.DistanceToEmpty` | src/utils/fuzzyMatch.js:20-27 | The distance to or from the empty string is the other string's length (the first row and column) |
| `SimilarityEngine.DistanceSelf` | src/utils/fuzzyMatch.js:12-45 | A string is at distance 0 from itself |
| `SimilarityEngine.DistanceSymmetric` | src/utils/fuzzyMatch.js:12-45 | The distance does not depend on argument order |
| `SimilarityEngine.DistanceAtMostLonger` | src/utils/fuzzyMatch.js:12-45 | The distance never exceeds the longer length, which is why the score cannot be negative |
| `SimilarityEngine.DistanceAtLeastGap` | src/utils/fuzzyMatch.js:12-45 | The distance is at least the difference of the two lengths |
| `SimilarityEngine.RoundPercent` | src/utils/fuzzyMatch.js:66 | `Math.round(100·num/den)` for num ≤ den: in [0, 100] and within one half of the exact percentage, with halves rounded up |
| `SimilarityEngine.Similarity` | src/utils/fuzzyMatch.js:53-67 | 0 when either string is empty; 100 when the lower-cased, trimmed forms agree; always within [0, 100] |
| `SimilarityEngine.SimilaritySymmetric` | src/utils/fuzzyMatch.js:53-67 | `calculateSimilarity(a, b) == calculateSimilarity(b, a)` |
| `SimilarityEngine.SimilaritySelf` | src/utils/fuzzyMatch.js:59 | A non-empty string scores 100 against itself |
| `SimilarityEngine.TrimmedScoreAtMostRatio` | src/utils/fuzzyMatch.js:61-66 | Two different forms score at most the rounded share of the longer length covered by the shorter one, so at most 50 when one is less than half the other's length |
| `Text.Trim` | src/utils/fuzzyMatch.js:56-57 | `trim` returns a contiguous piece of its input with no whitespace at either end, and leaves an already trimmed string alone |
| `Text.TrimEmptyIff` | src/services/ocrService.js:88 | The trimmed text is empty exactly when every character is whitespace |
| `Text.ContainsIff` | src/utils/fuzzyMatch.js:147 | `includes` holds exactly when the second string occurs at some position of the first |
| `Text.SplitJoin` | src/services/ocrService.js:158 | `split('\n')` loses nothing: the pieces joined with the separators give back the text |
| `Text.SplitWhereNone` | src/services/ocrService.js:158 | A text without a separator splits into exactly one piece, itself |
| `OcrNormalize.NormalizedShape` | src/utils/fuzzyMatch.js:99-111 | `''` for empty input; otherwise the result is lower-cased and trimmed and holds no `1`, `0`, `5` or `rn` |
| `OcrNormalize.ReplaceRnRemovesAll` | src/utils/fuzzyMatch.js:108 | The global `rn`→`m` rewrite leaves no `rn` behind |
| `OcrNormalize.ReplaceRnIdentity` | src/utils/fuzzyMatch.js:108 | Without an `rn` the rewrite changes nothing |
| `OcrNormalize.NormalizeIdempotent` | src/utils/fuzzyMatch.js:99-111 | Normalising twice is the same as normalising once |
| `Matching.Score` | src/utils/fuzzyMatch.js:139-153 | A candidate's score is in [0, 100] and is at least 85 when either normalised form contains the other |
| `Matching.FindBestMatch` | src/utils/fuzzyMatch.js:120-161 | The loop returns exactly the first exact normalised match at 100, or else the first candidate with the strictly highest score when it reaches the threshold |
| `Matching.BestMatchSound` | src/utils/fuzzyMatch.js:120-161 | No result for empty input or no candidates; any result is an element of the candidates, with confidence in (0, 100] and at least the threshold unless it is a 100 exact match |
| `Matching.BestMatchExact` | src/utils/fuzzyMatch.js:130-136 | The first candidate whose normalised form equals the normalised input is returned at 100, whatever the threshold |
| `Matching.BestMatchSelf` | src/utils/fuzzyMatch.js:134-135 | A non-empty input listed among the candidates is always found at 100 |
| `Matching.BestMatchIsBest` | src/utils/fuzzyMatch.js:141-154 | Without an exact match the result is the earliest candidate reaching the highest score, at that score |
| `Matching.BestMatchBelowThreshold` | src/utils/fuzzyMatch.js:156-160 | When every candidate scores below the threshold, bonus included, there is no result |
| `Matching.ShortCandidateScore` | src/utils/fuzzyMatch.js:139-153 | A candidate less than half the input's length and with no containment either way scores at most 50 |
| `Matching.LongInputNeedsContainment` | src/utils/fuzzyMatch.js:139-157 | Against an input more than twice as long as every candidate, a threshold above 50 is met only by a candidate contained in the input, at 85 or more |
| `Matching.BlankInputMatchesFirst` | src/utils/fuzzyMatch.js:121-153 | Whitespace-only input is not rejected: it normalises to `''`, which every candidate contains, so the first candidate wins at 85 |
| `MatchAll.Words` | src/utils/fuzzyMatch.js:176 | Each token compared is longer than two characters and holds no whitespace, `,` or `.` |
| `MatchAll.PhrasePass` | src/utils/fuzzyMatch.js:179-188 | The first loop records, in candidate order and at 95, each unused candidate whose normalised form occurs in the normalised text, and marks it used |
| `MatchAll.PhraseHitsFacts` | src/utils/fuzzyMatch.js:180-188 | Phrase hits are distinct candidates at 95 whose normalised form occurs in the text, and no such candidate is missed |
| `MatchAll.TokenHitsFacts` | src/utils/fuzzyMatch.js:191-203 | The token pass keeps earlier matches as a prefix and adds at most one match per token. Each added match is an unused candidate whose raw similarity to a token reaches the threshold |
| `MatchAll.SortSorted` | src/utils/fuzzyMatch.js:205 | The sorted matches have non-increasing confidence |
| `MatchAll.SortPermutes` | src/utils/fuzzyMatch.js:205 | Sorting is a permutation of the matches |
| `MatchAll.SortStable` | src/utils/fuzzyMatch.js:205 | The matches of each confidence keep their relative order |
| `MatchAll.SortDistinct` | src/utils/fuzzyMatch.js:205 | Sorting keeps the set of candidates and their distinctness |
| `MatchAll.FindAllMatches` | src/utils/fuzzyMatch.js:170-206 | The two loops and the sort return exactly the phrase hits then the token hits, sorted stably by falling confidence, and `[]` for empty text or no candidates |
| `MatchAll.AllMatchesShape` | src/utils/fuzzyMatch.js:170-206 | The result is `[]` for empty text or no candidates. No candidate appears twice, confidences never rise, and it is a stable permutation of the matches in discovery order |
| `MatchAll.AllMatchesSound` | src/utils/fuzzyMatch.js:184-203 | Every match is a candidate found either by the phrase pass at exactly 95 or by the token pass at or above the threshold |
| `MatchAll.AllMatchesFindsPhrases` | src/utils/fuzzyMatch.js:180-188 | Every candidate whose normalised form occurs in the normalised text is in the result at 95 |
| `Extractors.NonEmptyTrimmedFacts` | src/utils/fuzzyMatch.js:218 | Every non-blank line is kept trimmed, and every kept line is a trimmed line of the text |
| `Extractors.CleanupKeepsNameLine` | src/utils/fuzzyMatch.js:229-236 | The `\|`/`1`/`0` clean-up and trim leave an accepted name line unchanged |
| `Extractors.ExtractPotentialName` | src/utils/fuzzyMatch.js:214-242 | The line loop returns the first trimmed line that is not all digits, is 2-50 characters long and matches the name pattern, or null |
| `Extractors.PotentialNameFacts` | src/utils/fuzzyMatch.js:214-242 | A name found is the trim of a line of the text that passes every test, and no earlier line trims to one that passes; null means no trimmed line passes |
| `Extractors.PotentialNameSkipsNumbers` | src/utils/fuzzyMatch.js:220-237 | A line of digits followed by a trimmed name line gives that name: the numeric line is skipped, so `"123\nMaja Andersson\n"` gives `Maja Andersson` |
| `Extractors.SkillPatternMatchIs` | src/utils/fuzzyMatch.js:251 | The pattern's match is the leftmost occurrence. At that start it is the split backtracking prefers: longest name group, then longest separators, then one or two digits taken greedily |
| `Extractors.DecimalValue` | src/utils/fuzzyMatch.js:255 | `parseInt` of one or two ASCII digits is their decimal value |
| `Extractors.ExtractSkillLevel` | src/utils/fuzzyMatch.js:249-263 | A result has level 1-15 and a trimmed name of more than two name-class characters that occurs in the line |
| `Extractors.SkillSplit` | src/utils/fuzzyMatch.js:251 | A line of letters, a separator run (not opening with whitespace when longer than one) and one or two digits matches at its start with the letters as name group, the run as separators and the digits as level group, as backtracking picks |
| `Extractors.SkillLineLevel` | src/utils/fuzzyMatch.js:249-263 | Such a line with more than two letters gives that name with the digits' value when the value is 1-15, and null otherwise |
| `Extractors.ExtractSkillLevelColon` | src/utils/fuzzyMatch.js:249-263 | `"Cooking: 7"` gives `{Cooking, 7}` |
| `Extractors.ExtractSkillLevelSpace` | src/utils/fuzzyMatch.js:249-263 | `"Cooking 7"` gives `{Cooking, 7}`: the name group gives the space back to the separator |
| `Extractors.ExtractSkillLevelLong` | src/utils/fuzzyMatch.js:249-263 | `"Cooking: 123"` gives `{Cooking, 12}`: the level group takes at most two digits |
| `Extractors.ExtractSkillLevelTooHigh` | src/utils/fuzzyMatch.js:249-263 | `"Cooking: 16"` gives null |
| `Extractors.ExtractSkillLevelZero` | src/utils/fuzzyMatch.js:249-263 | `"Cooking: 0"` gives null |
| `Extractors.SkillLevelNeedsDigit` | src/utils/fuzzyMatch.js:251 | A level is only found in a line holding an ASCII digit |
| `Sims4Data.AllNames` | src/data/sims4Data.js:248-250 | The trait, career, skill and age pools are every `en` label in table order followed by every `sv` label, twice the table's length |
| `Sims4Data.AllNamesMembers` | src/data/sims4Data.js:262-272 | A pool holds exactly the labels of its table, in either language |
| `Sims4Data.GetAllAspirationNames` | src/data/sims4Data.js:252-260 | The nested loops produce `en`, `sv` pairs entry by entry across the categories in declaration order |
| `Sims4Data.Interleaved` | src/data/sims4Data.js:255-257 | The aspiration pool has twice as many labels as entries, entry `i`'s `en` at `2i` and its `sv` at `2i+1` |
| `Sims4Data.InterleavedMembers` | src/data/sims4Data.js:252-260 | The aspiration pool holds exactly the labels of the aspiration entries |
| `Sims4Data.FlattenMembers` | src/data/sims4Data.js:100-153 | An aspiration entry is in the flattened list exactly when some category holds it |
| `Sims4Data.Translate` | src/data/sims4Data.js:275-301 | The `*ToSwedish` helpers give the `sv` of the first entry whose `en` equals the input ignoring case, and the input itself when none does |
| `Sims4Data.TranslateIntoSwedish` | src/data/sims4Data.js:275-301 | Translating any label of a table, in either language, gives a Swedish label of that table |
| `Sims4Data.TranslateIgnoresCase` | src/data/sims4Data.js:276 | Inputs that differ only in case translate alike |
| `Sims4Data.DuplicateResolvesToFirst` | src/data/sims4Data.js:275-278 | A label listed twice always resolves to its first listing |
| `Sims4Data.JealousListedTwice` | src/data/sims4Data.js:55-85 | `Jealous` is listed at lines 55 and 85; translation stops at the entry of line 55 or earlier |
| `Sims4Data.AspirationToSwedish` | src/data/sims4Data.js:280-286 | The category loop returns the first category's first case-insensitive hit, the same as translating over all entries in order, and returns unknown input verbatim |
| `Sims4Data.SortedOptionsCorrect` | src/data/sims4Data.js:304-325 | The trait, career and skill option lists are sorted and are a permutation of the table's `sv` column |
| `Sims4Data.SortedPermutationUnique` | src/data/sims4Data.js:305 | Any sorted permutation of the labels is the same list, so the order of `sort()` fixes the result |
| `Sims4Data.LexLeqTotal` | src/data/sims4Data.js:305 | The string order of `sort()` is total |
| `Sims4Data.SvLabels` | src/data/sims4Data.js:328-330 | `getAgeOptions` is the `sv` column in table order |
| `Sims4Data.GetAspirationOptions` | src/data/sims4Data.js:309-315 | The loop maps each category name to its entries' `sv` labels, the keys being exactly the categories |
| `Sims4Data.OptionsMapValues` | src/data/sims4Data.js:311-313 | A category's option list is its `sv` labels in entry order |
| `OcrService.ParseSimData` | src/services/ocrService.js:77-178 | The method fills the result field by field, exactly as the field-by-field specification of `parseSimData` says |
| `OcrService.ParseSimBlank` | src/services/ocrService.js:78-90 | Blank or absent text gives every value `''` at confidence 0, no traits, no skills, and carries `rawText` through |
| `OcrService.ParseSimName` | src/services/ocrService.js:92-96 | A name found is a trimmed line of the text passing the name tests, at confidence exactly 80; otherwise the name stays unset |
| `OcrService.ParseSimMatchedFields` | src/services/ocrService.js:98-155 | Age, aspiration and career are each unset or a Swedish label of their table, recognised at or above 80, 70 and 70 |
| `OcrService.NamesMatchTranslates` | src/services/ocrService.js:100-104 | A match against a bilingual pool translates to a Swedish label of the table, with the matcher's confidence in [threshold, 100] |
| `OcrService.InterleavedMatchTranslates` | src/services/ocrService.js:134-142 | The same for the interleaved aspiration pool |
| `OcrService.KeepUniqueTraits` | src/services/ocrService.js:112-131 | The trait loop, with its `break` at three, keeps what the trait specification says |
| `OcrService.UniqueTraitsCapped` | src/services/ocrService.js:116 | Once three traits are kept, later matches change nothing |
| `OcrService.UniqueTraitsDistinct` | src/services/ocrService.js:112-131 | At most three traits are kept, pairwise different ignoring case |
| `OcrService.UniqueTraitsFromMatches` | src/services/ocrService.js:118-127 | Each kept trait is the translation of a trait match, with that match's own confidence |
| `OcrService.UniqueTraitsComplete` | src/services/ocrService.js:115-129 | With fewer than three kept, every match's translation is among them, ignoring case |
| `OcrService.UniqueTraitsInOrder` | src/services/ocrService.js:115 | Traits from earlier matches come first: a prefix of the matches gives a prefix of the traits |
| `OcrService.ParseSimTraits` | src/services/ocrService.js:107-131 | Parsed traits are at most three Swedish traits, distinct ignoring case, each at 75 or more; blank text has none |
| `OcrService.CollectSkills` | src/services/ocrService.js:158-175 | The line loop appends, in line order, one skill for each line where both the level pattern and the skill match succeed |
| `OcrService.SkillOfFacts` | src/services/ocrService.js:161-174 | A skill has level 1-15, a Swedish skill name and a match confidence of 70 or more |
| `OcrService.SkillsOfAppend` | src/services/ocrService.js:161-175 | The skills of two blocks of lines are the first block's then the second's: no dedup and no cap |
| `OcrService.SkillsOfFacts` | src/services/ocrService.js:161-175 | Every skill comes from one line, at most one per line |
| `OcrService.ParseSimSkills` | src/services/ocrService.js:158-175 | Every parsed skill has level 1-15, a Swedish skill name and confidence of 70 or more, and there are no more skills than lines |
| `OcrService.ValidateOcrResult` | src/services/ocrService.js:201-220 | Missing text or trimmed text under 10 characters gives the unreadable verdict. Otherwise the result is valid, with an empty reason, exactly when a name, age or aspiration is non-empty above 50 or some trait exists; if not, it is invalid with the Simology reason |
| `OcrService.ParseThenValidate` | src/services/ocrService.js:88-220 | Blank text parses to an unreadable result. Readable text validates exactly when a name line, a trait, or a confident age or aspiration was found, so a name line alone suffices |
| `Router.OnlyLoginIsPublic` | src/router/index.js:4-53 | Only the `Login` route has `requiresAuth: false` |
| `Router.RoutesDistinct` | src/router/index.js:4-53 | No two routes share a name or a path |
| `Router.ResolveRedirectPaths` | src/router/index.js:6-21 | `/login`, `/` and `/onboarding` resolve to the Login, Dashboard and Onboarding routes |
| `Router.Guard` | src/router/index.js:61-75 | The guard only ever redirects to `/login`, `/` or `/onboarding` |
| `Router.GuardRules` | src/router/index.js:66-74 | Each redirect fires exactly when its rule applies and no earlier one does. The Login→`/` rule comes before the onboarding rule, and in every other case navigation proceeds |
| `Router.RedirectTargetsPass` | src/router/index.js:61-75 | `/login` passes for a visitor, `/onboarding` for a user who has not finished onboarding, `/` for one who has |
| `Router.RedirectsSettle` | src/router/index.js:61-75 | Any redirect chain ends within two hops, on a target the guard lets through |
| `Router.OneRedirectMostly` | src/router/index.js:61-75 | One hop suffices except for a signed-in, not-onboarded user opening Login, who goes via `/` to `/onboarding` |

## Left out

- The Tesseract worker and image recognition are not modelled: `initWorker`, `terminateWorker`, `extractTextFromImage` and `processScreenshot` (src/services/ocrService.js:21-70, 186-194). They are asynchronous calls into a foreign library behind module-level state. `parseSimData` is modelled on a given `rawText`.
- The `source: 'ocr'` tag of every field is not modelled; it is a constant.
- The `OCR_CORRECTIONS` table (src/utils/fuzzyMatch.js:73-92) is never read by the code and is not modelled.
- `src/stores/sims.js`, `src/stores/auth.js` and `tailwind.config.js` are not part of this model. They are database and session I/O and styling.
- The route components, `createRouter` and `createWebHistory` are not modelled; the guard reads only the target's name and `meta.requiresAuth`. Dynamic paths such as `/sims/:simId` are not resolved.
- Non-string arguments such as `null` candidate lists are not modelled. Strings are sequences, so only the empty case remains.
- `skillToSwedish` ignores the skills' `maxLevel` column; the model keeps it in the table and ignores it too.
- `RoundPercent`: JavaScript computes `Math.round((1 - d / L) * 100)` in binary floating point. At an exact .5 the double result may fall on either side. The model rounds the exact rational value half-up.
- `Text.Lower`: `toLowerCase` is modelled for ASCII and `ÅÄÖ` only, not the full Unicode case mapping. `sort()` compares UTF-16 code units, which equal characters for these labels.
- `MatchAll.Words`, `SimilarityEngine.Distance`, `OcrService.ValidateOcrResult`: lengths, indexing and edits count Unicode scalar values (Dafny `char`), while JavaScript's `.length` and indexing count UTF-16 code units. The two agree on text without characters outside the Basic Multilingual Plane, which includes every table label. On other text they differ: five emoji have `.length` 10 in JavaScript but 5 here, and `"😀"` against `"😁"` differs in one code unit of two in JavaScript but in one character of one here. The same holds for `SimilarityEngine.LevenshteinDistance`, `SimilarityEngine.Similarity` and the `w.length > 2` word filter (src/utils/fuzzyMatch.js:32, 176; src/services/ocrService.js:202).
- `Sims4Data.GetAspirationOptions`: a Dafny map has no key order, so the object's category insertion order is not modelled.
