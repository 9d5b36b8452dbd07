# SymptoCheckAI symptom matching, in Dafny

SymptoCheckAI suggests diseases for a comma-separated list of symptoms. It loads a CSV
table in which each row names a disease and up to seventeen symptoms. It then ranks the
diseases by how similar their symptom lists are to the user's text. The repository
holds two versions of the classifier:

- `app/services/ml_service.py` normalises every symptom (lower case, separators to
  spaces, letters only, single spaces). It maps each comma-separated piece of the
  query onto the known vocabulary by fuzzy matching (cutoff 60) before ranking.
- `symptom_classifier.py` keeps the fields only stripped and lower-cased. It ranks
  against the lower-cased query as a whole, and attaches the description of each
  reported disease.

Both versions rank records the same way. They sort by descending similarity, keeping
record order among equal scores. They report each disease once, using its best-ranked
record, and stop as soon as `top_n` entries are collected.

The model is split into modules:

| module | file | models |
|---|---|---|
| `Wrappers` | `wrappers.dfy` | `Option` and `Result` |
| `Text` | `text.dfy` | the Python `str` operations the code uses: `isspace`, `lower`, `strip`, `split`, `join`, and `str(i)` |
| `Normalize` | `normalize.dfy` | `normalize_symptom` |
| `Fuzzy` | `fuzzy.dfy` | `map_to_known_symptoms`, with `process.extractOne` as a parameter |
| `Dataset` | `dataset.dfy` | rows and records, the record list both loaders build, and the corpus |
| `Vocabulary` | `vocabulary.dfy` | `get_all_symptoms` and Python's order on strings |
| `Ranking` | `ranking.dfy` | the stable descending sort, the walk that keeps the first record of each disease, the `top_n` stop, and the result entries |
| `MlService` | `ml_service.dfy` | `SymptomClassifier` of `app/services/ml_service.py` |
| `StandaloneClassifier` | `standalone_classifier.dfy` | `SymptomClassifier` of `symptom_classifier.py` |

Two parts of each classifier are parameters rather than code:

- The similarity scores (TF-IDF vectors and cosine similarity) are a function
  `similarity` from the query text to one score per record.
- The fuzzy matcher is a function `bestMatch` from query, candidates and cutoff to an
  optional `(choice, score)`. Where a property depends on the matcher, the lemma
  requires only what `extractOne` promises with a cutoff (`Fuzzy.HonoursCutoff`): the
  choice is one of the candidates and its score is at least the cutoff.

The loaders take the CSV rows as maps from column name to field. The classifiers are
never changed after construction, so they are datatypes. The loops of the source are
methods proved equal to specification functions, and the properties are lemmas about
those functions.

## Model

| member | source | states |
|---|---|---|
| `Text.Lower` | app/services/ml_service.py:8 | lower-casing leaves no ASCII capital letter; when the text has no U+0130, every character is replaced in place by its lower-case form (ASCII capitals by their small letters, everything else but U+212A unchanged) |
| `Text.LowerKeepsLettersAndSpaces` | app/services/ml_service.py:8 | text made only of small letters and spaces is its own lower case |
| `Text.LowerChar` | app/services/ml_service.py:8 | an ASCII capital lowers to its small letter, U+212A (Kelvin sign) to `k`, and every other character except U+0130 to itself; no result holds an ASCII capital |
| `Text.LowerConcat` | app/services/ml_service.py:8 | lower-casing works piece by piece: the lower case of `a + b` is that of `a` followed by that of `b` |
| `Text.Strip` | app/services/ml_service.py:11 | `strip()` returns the input from the end of its leading whitespace, up to a point after which only whitespace follows; the result is empty exactly when the input is all whitespace, and otherwise neither starts nor ends with whitespace |
| `Text.StripKeepsTrimmed` | app/services/ml_service.py:11 | text without whitespace at either end is unchanged by `strip()` |
| `Text.StripKeepsNonSpace` | app/services/ml_service.py:11 | `strip()` removes whitespace only: the characters of any class that excludes whitespace are the same, in the same order, before and after |
| `Text.StripTrailingRun` | app/services/ml_service.py:11 | whitespace appended to a text does not change its `strip()` |
| `Text.StripLeadingRun` | app/services/ml_service.py:11 | whitespace put before a text does not change its `strip()` |
| `Text.StripAroundSpace` | app/services/ml_service.py:11 | for a text ending and a text starting with a character that is not whitespace, `strip()` of the two joined by a space is their two `strip()`s joined by a space |
| `Text.Split` | app/services/ml_service.py:47 | `split(",")` gives at least one piece, and no piece holds the separator |
| `Text.JoinSplit` | app/services/ml_service.py:47 | joining the pieces of `split(sep)` with `sep` gives back the text |
| `Text.SplitAfterPiece` | app/services/ml_service.py:47 | splitting text that starts with a separator-free piece glues that piece to the front of the first part of the rest |
| `Text.SplitJoin` | app/services/ml_service.py:42 | splitting `sep.join(parts)` on `sep` gives back the parts when no part holds `sep` |
| `Text.Decimal` | app/services/ml_service.py:31 | the column number in `Symptom_{i}` is written as a non-empty string of decimal digits that denotes the number, without a leading zero |
| `Dataset.SymptomColumnIsInjective` | app/services/ml_service.py:30-31 | different column numbers give different `Symptom_{i}` names (also symptom_classifier.py:39) |
| `Normalize.SeparatorsToSpaces` | app/services/ml_service.py:9 | replacing `_` and `-` by spaces keeps the length and every other character in place |
| `Normalize.KeepLettersAndSpaces` | app/services/ml_service.py:10 | removing everything but small ASCII letters and whitespace leaves only such characters, each taken from the input |
| `Normalize.CollapseSpaces` | app/services/ml_service.py:11 | collapsing whitespace runs gives empty exactly for empty input, keeps a leading character that is not whitespace, and leaves single spaces and characters of the input that are not whitespace |
| `Normalize.NormalizeSymptom` | app/services/ml_service.py:7-12 | every text, empty included, normalises to a token: small letters and single inner spaces only |
| `Normalize.StripOfCollapsedIsToken` | app/services/ml_service.py:11 | stripping letters and single spaces yields a token |
| `Normalize.KeepLettersAndSpacesKeepsTokens` | app/services/ml_service.py:10 | the letter filter leaves letters and spaces unchanged |
| `Normalize.LettersAndSingleSpacesTail` | app/services/ml_service.py:11 | the tail of a string of small letters and single spaces is one too, and a leading space is followed by a letter |
| `Normalize.CollapseSpacesKeepsTokens` | app/services/ml_service.py:11 | collapsing whitespace leaves text with single spaces unchanged |
| `Normalize.NormalizeKeepsTokens` | app/services/ml_service.py:7-12 | a token is already in normal form |
| `Normalize.NormalizeIsIdempotent` | app/services/ml_service.py:7-12 | normalising twice equals normalising once |
| `Normalize.NormalizeKeepsLetters` | app/services/ml_service.py:7-12 | the small ASCII letters of the normal form are exactly those of the lower-cased text, in order |
| `Normalize.SeparatorsToSpacesKeepsLetters` | app/services/ml_service.py:9 | replacing `_` and `-` keeps the small letters of the text, in order |
| `Normalize.SeparatorsToSpacesAt` | app/services/ml_service.py:9 | replacing works piece by piece, a `_` or `-` between two pieces becoming a space |
| `Normalize.KeepLettersAndSpacesIsFilter` | app/services/ml_service.py:10 | the result is exactly the input's small ASCII letters and whitespace characters, in order |
| `Normalize.KeepLettersAndSpacesAt` | app/services/ml_service.py:10 | the filter works piece by piece and keeps a whitespace character between two pieces |
| `Normalize.CollapseSpacesKeepsNonSpace` | app/services/ml_service.py:11 | collapsing keeps exactly the input's characters that are not whitespace, in order |
| `Normalize.CollapseSpacesKeepsSpaceFree` | app/services/ml_service.py:11 | text without whitespace is unchanged |
| `Normalize.CollapseSpacesOfRun` | app/services/ml_service.py:11 | a non-empty run of whitespace collapses to one space, and no text to no text |
| `Normalize.CollapseSpacesLast` | app/services/ml_service.py:11 | text ending with a character that is not whitespace collapses to text ending with that character |
| `Normalize.CollapseSpacesConcat` | app/services/ml_service.py:11 | text cut just after a character that is not whitespace collapses as its two parts collapsed one after the other |
| `Normalize.CollapseSpacesRun` | app/services/ml_service.py:11 | a run of whitespace between text not ending and text not starting with whitespace becomes exactly one space between the two collapsed parts |
| `Normalize.StripCollapseAtSpace` | app/services/ml_service.py:11 | collapsing and stripping text around a whitespace character gives the results for both sides joined by one space, when both are non-empty |
| `Normalize.CleanAtSeparator` | app/services/ml_service.py:8-10 | lower-casing, replacing separators and filtering text around `_`, `-` or whitespace give the results for both sides around a whitespace character |
| `Normalize.NormalizeAtSeparator` | app/services/ml_service.py:7-12 | `_`, `-` and whitespace separate words: normalising `a`, a separator and `b` gives the normal forms of `a` and `b` joined by one space, when both are non-empty |
| `Fuzzy.AnswersHonourCutoff` | app/services/ml_service.py:18 | with a matcher that honours its cutoff, each match for a segment is a known symptom scoring at least 60 |
| `Fuzzy.MappedFailsAtFirstUnmatched` | app/services/ml_service.py:16-18 | mapping raises exactly when some segment has no match, and raises at the first such segment |
| `Fuzzy.MappingFailsAtFirstUnmatchedSegment` | app/services/ml_service.py:16-18 | mapping segments raises exactly when the matcher finds nothing for some normalised segment, and raises at the first such segment |
| `Fuzzy.KeptAscend` | app/services/ml_service.py:16-20 | the segments whose match is kept are listed in strictly ascending order |
| `Fuzzy.KeptAreTheNonEmptyMatches` | app/services/ml_service.py:19-20 | a segment's match is kept exactly when there is a match and it is not the empty string |
| `Fuzzy.MappedAlongKept` | app/services/ml_service.py:16-20 | on success every segment has a match, and mapped symptom `k` is the match of the `k`-th kept segment |
| `Fuzzy.MappedFollowsSegments` | app/services/ml_service.py:16-20 | on success the result holds, in segment order, the match of each segment whose match is not empty, and nothing else |
| `Fuzzy.MappedAreKnownAndAboveCutoff` | app/services/ml_service.py:14-21 | on success every mapped symptom is a known symptom scored at least 60 for some segment, and there are no more mapped symptoms than segments |
| `Fuzzy.StrictlyIncreasingBounded` | app/services/ml_service.py:16-20 | a strictly increasing list of positions below `n` has at most `n` entries, so the kept segments number at most the segments |
| `Fuzzy.MappedFailureIsFinal` | app/services/ml_service.py:16-18 | once a prefix of the segments raises, the whole mapping raises with the same error |
| `Fuzzy.MappedConcat` | app/services/ml_service.py:14-21 | segments map independently: mapping a concatenation is mapping the parts and concatenating, with the error index counted from the start |
| `Fuzzy.MapToKnownSymptoms` | app/services/ml_service.py:14-21 | the loop returns exactly the mapping specification: the kept matches in order, or the first unmatched segment |
| `Dataset.SymptomFieldsUpTo` | app/services/ml_service.py:30-34 | the columns `Symptom_1`..`Symptom_m` give at most `m` symptoms (also symptom_classifier.py:39) |
| `Dataset.SymptomFieldsUpToMembers` | app/services/ml_service.py:30-34 | a string is among the symptoms of the first `m` columns exactly when one of those columns is there, passes the field test and cleans to it (also symptom_classifier.py:39) |
| `Dataset.RecordsFailAtFirstMissingDisease` | app/services/ml_service.py:35 | loading raises exactly when some row has no `Disease` column, and at the first such row (also symptom_classifier.py:40) |
| `Dataset.RecordsFollowRows` | app/services/ml_service.py:28-40 | on success there is one record per row with a non-empty symptom list, in row order, with that row's disease and symptoms (also symptom_classifier.py:38-42) |
| `Dataset.KeptRowsAscend` | app/services/ml_service.py:28-40 | the rows that become records are listed in strictly ascending order |
| `Dataset.KeptRowsAreTheNonEmpty` | app/services/ml_service.py:36 | a row becomes a record exactly when its symptom list is not empty (also symptom_classifier.py:41) |
| `Dataset.RecordsAlongKeptRows` | app/services/ml_service.py:35-40 | on success every row has a disease and record `k` carries the disease and symptoms of the `k`-th kept row (also symptom_classifier.py:40-42) |
| `Dataset.RecordsFailureIsFinal` | app/services/ml_service.py:28-40 | once a prefix of the rows fails to load, loading all rows fails with the same error |
| `Dataset.Corpus` | app/services/ml_service.py:42 | one corpus entry per record, in order: its symptoms joined by single spaces (also symptom_classifier.py:44) |
| `Dataset.CorpusSplitsIntoSymptoms` | app/services/ml_service.py:42 | a corpus entry splits on spaces back into the record's symptoms when no symptom holds a space |
| `Vocabulary.LessIsIrreflexive` | app/services/ml_service.py:80 | no string sorts before itself |
| `Vocabulary.LessIsAsymmetric` | app/services/ml_service.py:80 | two strings never sort before each other both ways |
| `Vocabulary.LessIsTransitive` | app/services/ml_service.py:80 | the string order is transitive |
| `Vocabulary.LessIsTotal` | app/services/ml_service.py:80 | any two different strings are ordered one way or the other |
| `Vocabulary.LeastExists` | app/services/ml_service.py:80 | every non-empty finite set of strings has a least element |
| `Vocabulary.SortedList` | app/services/ml_service.py:80 | `sorted(list(s))` is strictly ascending, has the same elements as `s`, and has one entry per element |
| `Vocabulary.AscendingListIsUnique` | app/services/ml_service.py:80 | two strictly ascending lists with the same elements are equal, so the sorted vocabulary is determined by the symptom set |
| `Vocabulary.SymptomSet` | app/services/ml_service.py:77-79 | the set holds a string exactly when some record lists it |
| `Vocabulary.KnownSymptoms` | app/services/ml_service.py:76-80 | the vocabulary is strictly ascending and holds a string exactly when some record lists it |
| `Vocabulary.AllSymptoms` | app/services/ml_service.py:76-80 | the set-update loop followed by `sorted` returns the vocabulary |
| `Ranking.InsertRanked` | app/services/ml_service.py:58 | inserting a new index into a rank-sorted list keeps it rank-sorted, adds exactly that index, and grows the list by one |
| `Ranking.RankOrderOf` | app/services/ml_service.py:57-58 | the first `n` indices come out rank-sorted, each exactly once |
| `Ranking.RankOrder` | app/services/ml_service.py:57-58 | the sorted index list holds every record index once, higher score first and equal scores in index order |
| `Ranking.RankSortedIsUnique` | app/services/ml_service.py:58 | two rank-sorted lists of the same indices are equal |
| `Ranking.RankOrderIsTheSort` | app/services/ml_service.py:58 | every stable descending sort of the scores equals `RankOrder` |
| `Ranking.NamesAlongExtend` | app/services/ml_service.py:63-65 | walking one more index adds exactly its disease to the seen set |
| `Ranking.FirstPositionsLocate` | app/services/ml_service.py:62-70 | the emitted records sit in the walk at strictly ascending positions |
| `Ranking.FirstPositionsAreFirst` | app/services/ml_service.py:64 | no record earlier in the walk has the disease of an emitted record |
| `Ranking.FirstPositionsCoverAt` | app/services/ml_service.py:64-70 | the disease at any position of the walk is emitted at or before that position |
| `Ranking.FirstOfEachNameCount` | app/services/ml_service.py:60-70 | without the stop, the walk emits one record per distinct disease |
| `Ranking.FirstOfEachNamePrefix` | app/services/ml_service.py:62-72 | walking a prefix of the order emits a prefix of what the whole walk emits |
| `Ranking.NamesAlongRankOrder` | app/services/ml_service.py:62-65 | walking a full rank order meets every disease |
| `Ranking.PickedAreDistinctAndRanked` | app/services/ml_service.py:57-72 | no disease is reported twice, and the reports come in ranking order |
| `Ranking.PickedAreBestOfTheirDisease` | app/services/ml_service.py:62-70 | each report comes from the best-ranked record of its disease |
| `Ranking.PickedCount` | app/services/ml_service.py:60-72 | the number of reports is `min(top_n, #diseases)` for `top_n >= 1`, and 1 for `top_n <= 0` when there are records |
| `Ranking.PickedCoverAllWhenShort` | app/services/ml_service.py:60-72 | when fewer reports than the bound come back, every disease is reported |
| `Ranking.TopDistinct` | app/services/ml_service.py:60-72 | the loop with the `seen` set and the `len(results) >= top_n` stop returns the first-of-each-disease list cut at the bound |
| `Ranking.RankAndReport` | app/services/ml_service.py:57-72 | sorting, the first-of-each-disease walk with the `top_n` stop, and the entry building return exactly the report of the scores |
| `Ranking.ReportProperties` | app/services/ml_service.py:57-74 | the returned entries number `min(top_n, #diseases)` (1 when `top_n <= 0`), have distinct diseases and non-increasing similarity, and each carries the disease, score and symptom list of the best-ranked record of its disease (also symptom_classifier.py:52-68) |
| `MlService.NormalizedSymptomsMembers` | app/services/ml_service.py:29-34 | a string is among a row's symptoms exactly when some present, non-blank `Symptom_i` field normalises to it; every symptom is a token; a row yields at most 17 symptoms |
| `MlService.ExtractSymptoms` | app/services/ml_service.py:29-34 | the column loop over `range(1, 18)` returns the normalised non-blank fields in column order |
| `MlService.LoadedRecordsAreClean` | app/services/ml_service.py:28-40 | every loaded record has between 1 and 17 symptoms, each a token |
| `MlService.LoadRecords` | app/services/ml_service.py:28-40 | the row loop returns exactly the record list of the rows, or the first row without a disease |
| `MlService.Load` | app/services/ml_service.py:24-42 | the constructor yields the records and their corpus, or the loading error |
| `MlService.Segments` | app/services/ml_service.py:47 | the query splits into one segment per comma-separated piece, at least one; no segment holds a comma or has whitespace at either end |
| `MlService.SegmentsAreStrippedPieces` | app/services/ml_service.py:47 | segment `i` is the `i`-th piece of `split(",")` stripped, and the pieces joined with commas give back the text |
| `MlService.SegmentsOfJoined` | app/services/ml_service.py:47 | joining trimmed, comma-free pieces with commas gives a text whose segments are exactly those pieces |
| `MlService.Predict` | app/services/ml_service.py:46-74 | `predict` (with `top_n` 5 unless given) returns exactly the prediction specification: the mapping error, `[]` when nothing maps, or the report for the scores of the concatenated mapped symptoms |
| `MlService.PredictionFailsWithMapping` | app/services/ml_service.py:47-49 | `predict` raises exactly when mapping its segments raises, with the same error |
| `MlService.PredictionFailsAtFirstUnmatchedSegment` | app/services/ml_service.py:47-49 | `predict` raises exactly when some segment of the text has no known symptom at or above the cutoff, and it raises at the first such segment |
| `MlService.PredictionIsEmptyOnlyWhenNothingMapped` | app/services/ml_service.py:49-52 | with a matcher honouring its cutoff, a successful `predict` returns `[]` exactly when no segment maps to a symptom |
| `StandaloneClassifier.RawSymptomsMembers` | symptom_classifier.py:39 | a string is among a row's symptoms exactly when it is the stripped, lower-cased field of a present, non-empty `Symptom_i` column; no symptom has an ASCII capital; a row yields at most 17 symptoms |
| `StandaloneClassifier.DescribedDiseases` | symptom_classifier.py:40-43 | a disease has a description exactly when some row names it |
| `StandaloneClassifier.LastRowExtends` | symptom_classifier.py:43 | the last row naming a disease stays the last one when a following row names another disease |
| `StandaloneClassifier.DescriptionsFromLastRow` | symptom_classifier.py:43 | the description of a described disease comes from the last row that names it |
| `StandaloneClassifier.LoadedDiseasesHaveDescriptions` | symptom_classifier.py:38-43 | every loaded record's disease has a description entry |
| `StandaloneClassifier.Load` | symptom_classifier.py:33-44 | the constructor yields the records, the descriptions and the corpus, or the loading error |
| `StandaloneClassifier.Predict` | symptom_classifier.py:48-68 | `predict` (with `top_n` 5 unless given) returns exactly the prediction specification for the scores of the lower-cased text |
| `StandaloneClassifier.PredictionProperties` | symptom_classifier.py:52-68 | the entries number `min(top_n, #diseases)`, have distinct diseases and non-increasing similarity, each comes from the best-ranked record of its disease, and each carries the stored description or `""` |

## Behaviour of the code that the model keeps

The model follows the code in these places, even where the application's own
description of itself says otherwise:

- When no known symptom scores at least 60 for a segment, `process.extractOne`
  returns `None`. Unpacking that `None` raises, so `predict` fails. The model returns
  `Failure(NoMatch(i))` for the first such segment; it does not skip the segment.
- `matched_symptoms` in a result is the symptom list of the reported record, not the
  user's mapped symptoms.
- The mapped symptoms are concatenated with no separator (`"".join`) before
  vectorising.
- Neither `predict` filters out zero similarities, explains its results or triages.
- In `symptom_classifier.py` a blank `Symptom_i` field counts as present and gives
  an empty symptom; `ml_service.py` skips such fields.

## Left out

- TF-IDF vectorising and cosine similarity (app/services/ml_service.py:43-44 and
  55-56, symptom_classifier.py:45-46 and 50-51) are the `similarity` parameter. The
  only assumption is one score per record. The `ValueError` the vectorizer raises on
  an empty corpus is therefore not modelled.
- rapidfuzz's scoring inside `process.extractOne` is the `bestMatch` parameter.
  Lemmas that need the cutoff promise require `Fuzzy.HonoursCutoff`.
- `round(float(sim), 3)` is left out: entries carry the unrounded score. Rounding is
  monotone, so non-increasing scores stay non-increasing once rounded.
- Opening and decoding the CSV file and parsing it with `csv.DictReader` are left out.
  The loaders take the rows as maps from column name to field.
- Dataset.Records: the model treats a `Disease` field that `csv.DictReader` fills
  with `None` (a short row) like a missing column, which is an error. The source
  would carry `None` on as the disease name.
- StandaloneClassifier.DescriptionOf: a `Description` field filled with `None` gives
  `""` in the model. The source stores `None`.
- Text.Lower: only ASCII letters, U+0130 and U+212A are case-mapped. These are the
  only characters whose Python lower case contains an ASCII letter, so
  `normalize_symptom` is exact. The plain `lower()` in symptom_classifier.py:39 and
  :49 is exact only for text without other non-ASCII capitals.
- Normalize.NormalizeAtSeparator: proved only when both sides have a non-empty normal
  form. When one side normalises to nothing, the result is the other side's normal
  form, with no extra space; the model does not state that case.
- `list.sort` and `sorted` are library calls, so they are modelled as functions
  (`Ranking.RankOrder`, `Vocabulary.SortedList`). Each comes with a lemma that it is
  the only possible outcome of the sort.
- The FastAPI application, its routes, the empty-input HTTP 400 check
  (symptom_classifier.py:75-76), the static UI and logging are left out.
- The `/api/symptoms` route of symptom_classifier.py:81 calls a
  `get_all_symptoms` that its class does not define. It is not part of this model.
