# Primitive Members MBTI quiz — verified model of the matching and question flow

This project models, in Dafny, the two pieces of logic in the quiz app:

- **The result page** (`src/pages/Result/Result.tsx`). It reads the stored answers and truncates them to the number of questions. Each member scores one point per question where the user's 0-based choice plus one equals the member's 1-based expected answer. Members are ranked by a stable descending sort and the first one is the best match. Its description is found by fuzzy name matching over a bracketed alias, and its photo by name, then by student number. Photos are parsed from file names `studentNumber_name.ext`. The description text becomes display lines with blank lines dropped.
- **The question page** (`src/pages/Question/Question.tsx`). It starts from the stored answers: they are truncated to the question count and dropped when they already cover every question. Each click writes the answer into the current slot and persists the whole array. The page then advances, or navigates to `/result` after the last question.

The modules, one file each: `Wrappers` (Option), `Seqs` (filter, find, the subsequence relation and the minimum used for `Math.min` and `slice` lengths), `Text` (whitespace, trim, substring, split), `Storage` (the storage slot and `readStoredSelections`), `Catalog` (record types), `Images`, `Descriptions`, `Matching`, `ResultPage`, `QuestionFlow` (a `QuestionPage` class plus the pure transition `Next` it is proved against), and `EndToEnd` (the two pages together).

Behaviour of the code worth noting:
- Description lookup ignores whitespace only after the first character. `memberName.slice(1)` makes the first character significant, so `" ab"` and `"ab"` can resolve differently. `Descriptions.SpaceAfterFirstIgnored` states the property that does hold.
- Negative integers in storage are kept, because the filter only tests `Number.isInteger`.
- Member photos are imported eagerly (`eager: true`), so a photo is a plain `src` string.

## Model

| member | source | states |
|---|---|---|
| `Seqs.Filter` | src/pages/Result/Result.tsx:169 | keeps exactly the elements satisfying the predicate, each one taken from the input |
| `Seqs.FilterIsSubsequence` | src/pages/Result/Result.tsx:169 | a filter's result is a subsequence of its input (order preserved) |
| `Seqs.FilterAppend` | src/pages/Result/Result.tsx:169 | filtering distributes over concatenation |
| `Seqs.FilterCount` | src/pages/Result/Result.tsx:169 | filtering keeps every copy of a satisfying element and drops every copy of any other |
| `Seqs.Min` | src/pages/Question/Question.tsx:86 | `Math.min` is at most both arguments and equals one of them |
| `Seqs.FindFirst` | src/pages/Result/Result.tsx:121-123 | `find`: the index of an element satisfying the predicate with none before it; no index exactly when none satisfies it |
| `Text.RemoveWhitespace` | src/pages/Result/Result.tsx:86 | `replace(/\s+/g, "")` leaves no whitespace character |
| `Text.RemoveWhitespaceStep` | src/pages/Result/Result.tsx:86 | a whitespace head is deleted and any other head is kept in front of the rest, so every non-whitespace character survives in order |
| `Text.RemoveWhitespaceCount` | src/pages/Result/Result.tsx:86 | every copy of each non-whitespace character is kept and no whitespace character is |
| `Text.TrimStart` | src/pages/Result/Result.tsx:86 | no contract of its own; `Text.TrimStartSuffix` states that it drops exactly the leading whitespace run |
| `Text.TrimEnd` | src/pages/Result/Result.tsx:86 | no contract of its own; `Text.TrimEndPrefix` states that it drops exactly the trailing whitespace run |
| `Text.Trim` | src/pages/Result/Result.tsx:169 | `.trim()`; no contract of its own, its meaning is stated by `Text.TrimStartSuffix`, `Text.TrimEndPrefix` and `Text.TrimEmptyIffBlank` |
| `Text.TrimStartSuffix` | src/pages/Result/Result.tsx:169 | trimming the start drops exactly the leading whitespace run and leaves a suffix starting with a visible character |
| `Text.TrimEndPrefix` | src/pages/Result/Result.tsx:169 | trimming the end drops exactly the trailing whitespace run and leaves a prefix ending with a visible character |
| `Text.TrimEmptyIffBlank` | src/pages/Result/Result.tsx:169 | `line.trim().length > 0` holds exactly when the line has a non-whitespace character |
| `Text.TrimWhitespaceFree` | src/pages/Result/Result.tsx:86 | the `.trim()` after removing whitespace changes nothing |
| `Text.NormalizeName` | src/pages/Result/Result.tsx:86 | a normalised name contains no whitespace |
| `Text.NormalizeNameIdempotent` | src/pages/Result/Result.tsx:86 | normalising twice equals normalising once |
| `Text.NormalizeNameCons` | src/pages/Result/Result.tsx:86 | a visible leading character survives normalisation in front of the normalised rest |
| `Text.NormalizeNameWs` | src/pages/Result/Result.tsx:86 | a leading whitespace character vanishes under normalisation |
| `Text.NormalizeNameDropsWhitespace` | src/pages/Result/Result.tsx:86 | a whitespace character at any position vanishes under normalisation |
| `Text.FilterKeepsAll` | src/pages/Result/Result.tsx:86 | removing whitespace from a whitespace-free string changes nothing |
| `Text.Contains` | src/pages/Result/Result.tsx:108 | `includes` holds exactly when the needle occurs at some position, so the empty needle is always contained |
| `Text.ContainsEmpty` | src/pages/Result/Result.tsx:108 | every string includes the empty string |
| `Text.Split` | src/pages/Result/Result.tsx:168 | `split` yields at least one piece and no piece contains the separator |
| `Text.JoinSplit` | src/pages/Result/Result.tsx:168 | joining the pieces of a split with the separator gives back the string |
| `Text.SplitNoSeparator` | src/pages/Result/Result.tsx:76 | a string without the separator splits into itself alone |
| `Text.SplitAtSeparator` | src/pages/Result/Result.tsx:76 | the text before the first separator is the first piece |
| `Storage.IntegersOfMembership` | src/pages/Question/Question.tsx:34 | an integer is read back exactly when the stored array holds it as an integer element |
| `Storage.IntegersOf` | src/pages/Question/Question.tsx:34 | the integer filter keeps at most as many values as there are elements; `Storage.IntegersOfMembership` and `Storage.IntegersOfAppend` fix the content and order |
| `Storage.IntegersOfAppend` | src/pages/Result/Result.tsx:58 | the integer filter distributes over concatenation, so order is preserved |
| `Storage.ReadStoredSelections` | src/pages/Question/Question.tsx:18-38 | a missing value, a parse failure or a non-array reads as no answers; an array reads as at most its length of integers |
| `Storage.Persist` | src/pages/Question/Question.tsx:40-46 | the written array holds one integer element per selection, in order |
| `Storage.ReadAfterPersist` | src/pages/Question/Question.tsx:40-46 | reading back what was written gives the same selections |
| `Storage.ReadMixedArray` | src/pages/Question/Question.tsx:34 | an array `[1, "x", 2]` reads as `[1, 2]` |
| `Images.LastSegment` | src/pages/Result/Result.tsx:74 | the file name contains no `/` |
| `Images.LastSegmentIsTail` | src/pages/Result/Result.tsx:74 | the file name is a suffix of the path, preceded by `/` unless it is the whole path |
| `Images.LastSegmentOfFile` | src/pages/Result/Result.tsx:74 | the last segment of `dir/file` is `file` |
| `Images.StripImageExtension` | src/pages/Result/Result.tsx:75 | the name is unchanged exactly when it ends in none of png/jpg/jpeg/webp (ASCII case ignored); otherwise one such extension is cut off |
| `Images.StripAddedExtension` | src/pages/Result/Result.tsx:75 | a base name with one image extension appended loses exactly that extension |
| `Images.BaseNameOfAsset` | src/pages/Result/Result.tsx:74-75 | the file name of `dir/base.ext`, with its image extension removed, is `base` |
| `Images.ParseImage` | src/pages/Result/Result.tsx:73-83 | a parsed image has a non-empty student number and name without `_`, and keeps its `src` |
| `Images.ParseImageOfFileName` | src/pages/Result/Result.tsx:72-84 | parsing `dir/studentNumber_name.ext` recovers the student number, the name and the source |
| `Images.ParseImageOfBase` | src/pages/Result/Result.tsx:73-82 | for `dir/base.ext`, the entry is kept exactly when the first two `_`-pieces of `base` exist and are non-empty, and then they are its student number and name |
| `Images.ParseImageExtraPieces` | src/pages/Result/Result.tsx:76-82 | `dir/sn_name_rest.ext` keeps `sn` and `name`; pieces after the second `_` are ignored |
| `Images.ParseImageEmptyNumber` | src/pages/Result/Result.tsx:76-80 | a file name starting with `_` (empty student number) is dropped |
| `Images.SplitFirstTwo` | src/pages/Result/Result.tsx:76 | the first two `_`-pieces of `a_b_rest` are `a` and `b` |
| `Images.ParseImageEmptyName` | src/pages/Result/Result.tsx:76-80 | a file name `sn_.ext` (empty name) is dropped |
| `Images.ParseImageNoUnderscore` | src/pages/Result/Result.tsx:76-80 | a file name with no `_` (missing name) is dropped |
| `Images.ParseImages` | src/pages/Result/Result.tsx:72-84 | every kept image comes from an entry that parses to it, and every entry that parses is kept |
| `Images.ParseImagesAppend` | src/pages/Result/Result.tsx:72-84 | parsing distributes over concatenation, so the order of kept images is the order of entries |
| `Images.NameHit` | src/pages/Result/Result.tsx:122 | the `find` test `normalizeName(image.name).includes(nameKey)`; no contract of its own, used by `Images.FindByName` and `Images.ResolveImage` |
| `Images.NumberHit` | src/pages/Result/Result.tsx:129 | the `find` test on equal student numbers; no contract of its own, used by `Images.FindByNumber` and `Images.ResolveImage` |
| `Images.FindByName` | src/pages/Result/Result.tsx:121-123 | the position of the first image whose normalised name contains the key, or none when no image does |
| `Images.FindByNumber` | src/pages/Result/Result.tsx:128-130 | the position of the first image with an equal student number, or none when no image has it |
| `Images.ResolveImage` | src/pages/Result/Result.tsx:118-132 | the first name match's `src`; with no name match, the first student-number match's `src`; with neither, the empty string |
| `Descriptions.BracketAt` | src/pages/Result/Result.tsx:89 | a match at `i` is a `[`, a non-empty run without `]`, then `]`; no match means no `[` at `i`, no later `]`, or `[]` |
| `Descriptions.FirstBracketIndex` | src/pages/Result/Result.tsx:89 | the position of a bracket match at or after a given position, with no match between the two; none exactly when no match follows |
| `Descriptions.ExtractBracketName` | src/pages/Result/Result.tsx:88-91 | the content of the leftmost non-empty bracket pair, or the whole name when there is none |
| `Descriptions.ExtractAlias` | src/pages/Result/Result.tsx:88-91 | `prefix[alias]rest` with no `[` in the prefix yields the alias |
| `Descriptions.FirstCloseAfterAlias` | src/pages/Result/Result.tsx:89 | after a run without `]`, the first `]` is the one closing the run |
| `Descriptions.BracketAtAlias` | src/pages/Result/Result.tsx:89 | a `[` followed by a non-empty alias and `]` matches with the alias as content |
| `Descriptions.Tail` | src/pages/Result/Result.tsx:97 | `slice(1)`: the empty string stays empty; otherwise the first character followed by the result is the string |
| `Descriptions.NonEmptyOf` | src/pages/Result/Result.tsx:97-99 | `[a, b].filter(Boolean)`: at most two strings, each non-empty and one of `a` and `b`, with each non-empty one present |
| `Descriptions.Candidates` | src/pages/Result/Result.tsx:97-99 | at most two candidates, all non-empty and whitespace-free; the normalised name and the normalised name without its first character are among them when non-empty, and nothing else is |
| `Descriptions.ComparedName` | src/pages/Result/Result.tsx:102-103 | the compared name contains no whitespace |
| `Descriptions.Overlaps` | src/pages/Result/Result.tsx:106-109 | the `candidates.some(...)` test, in both `includes` directions; no contract of its own, used by `Descriptions.FindDescription` and `Descriptions.ResolveDescription` |
| `Descriptions.FindDescription` | src/pages/Result/Result.tsx:101-113 | the first description whose compared name contains, or is contained in, a candidate; none exactly when no description does |
| `Descriptions.ResolveDescription` | src/pages/Result/Result.tsx:93-116 | the returned entry is the first matching one in list order; nothing is returned exactly when no entry matches |
| `Descriptions.EmptyComparedNameMatches` | src/pages/Result/Result.tsx:105-109 | an entry whose compared name normalises to empty matches any member that has a candidate |
| `Descriptions.BlankNameResolvesNothing` | src/pages/Result/Result.tsx:97-99 | a member name of only whitespace has no candidates and resolves to nothing |
| `Descriptions.BlankNormalizesEmpty` | src/pages/Result/Result.tsx:86 | a string of only whitespace normalises to the empty string |
| `Descriptions.InnerWhitespaceIgnored` | src/pages/Result/Result.tsx:97-99 | names with the same visible first character whose rests normalise alike resolve to the same description |
| `Descriptions.SameNormalFormsResolveAlike` | src/pages/Result/Result.tsx:97-99 | names whose full and tail normalisations agree resolve to the same description |
| `Descriptions.SpaceAfterFirstIgnored` | src/pages/Result/Result.tsx:93-116 | inserting a whitespace character after the first character of a name does not change the description it resolves to |
| `Descriptions.SpacedNameResolvesAlike` | src/pages/Result/Result.tsx:93-116 | "김 철수" and "김철수" resolve to the same description in every list |
| `Descriptions.IsNonBlankLine` | src/pages/Result/Result.tsx:169 | `line.trim().length > 0` holds exactly when the line has a non-whitespace character |
| `Descriptions.NonBlankLines` | src/pages/Result/Result.tsx:167-169 | every kept line has a visible character and no `\n`; every copy of each non-blank piece of the `\n`-split is kept and no blank piece is |
| `Descriptions.DescriptionLines` | src/pages/Result/Result.tsx:166-170 | no description gives no lines; every kept line has a visible character and no `\n`; every copy of each non-blank piece of the split is kept and no blank piece is |
| `Descriptions.DescriptionLinesInOrder` | src/pages/Result/Result.tsx:166-170 | the kept lines are a subsequence of the `\n`-split of the text |
| `Matching.Score` | src/pages/Result/Result.tsx:150-155 | `0 <= score <= min(|answer|, |selections|)` |
| `Matching.ScoreCountsAgreements` | src/pages/Result/Result.tsx:150-155 | the score is the number of positions `i` below both lengths with `selections[i] + 1 == answer[i]` |
| `Matching.ScoreMembers` | src/pages/Result/Result.tsx:148-158 | one entry per member, in catalog order, each carrying that member's score |
| `Matching.InsertPermutes` | src/pages/Result/Result.tsx:159 | an insertion step adds exactly the inserted entry to the multiset |
| `Matching.InsertSorted` | src/pages/Result/Result.tsx:159 | an insertion step keeps a ranking ordered by non-increasing score |
| `Matching.InsertStable` | src/pages/Result/Result.tsx:159 | an insertion step places the entry after all earlier entries of equal score |
| `Matching.InsertLastStable` | src/pages/Result/Result.tsx:159 | inserting the last entry into a stable ranking of the others keeps each score's entries in input order |
| `Matching.WithScoreNone` | src/pages/Result/Result.tsx:159 | no entry of a given score means an empty run for that score |
| `Matching.Rank` | src/pages/Result/Result.tsx:159 | the ranking is ordered by non-increasing score, is a permutation of the input, and keeps entries of each score in input order (stability) |
| `Matching.RankHeadIsTop` | src/pages/Result/Result.tsx:159-161 | the first ranked entry scores at least as much as every member |
| `Matching.HeadOfWithScore` | src/pages/Result/Result.tsx:159-161 | the first entry of a ranking heads the run of its own score |
| `Matching.RankHeadIsEarliestTopScorer` | src/pages/Result/Result.tsx:159-161 | the first ranked entry has the maximal score and is the earliest entry having it |
| `Matching.BestMatch` | src/pages/Result/Result.tsx:161 | none exactly when there are no members; otherwise a member with the highest score, and every member listed before it scores less |
| `ResultPage.ResultSelections` | src/pages/Result/Result.tsx:141 | the selections used are a prefix of the stored ones, of length `min(stored, questions)` |
| `ResultPage.Title` | src/pages/Result/Result.tsx:192 | the heading is the description's name when one was found, else the member's name |
| `ResultPage.ShowResult` | src/pages/Result/Result.tsx:141-184 | the empty state is shown exactly when there are no members or no selections; otherwise the best match with its resolved image, title and lines |
| `ResultPage.ShownMemberIsBest` | src/pages/Result/Result.tsx:161-172 | the member shown scores highest and no member listed before it scores as much |
| `ResultPage.NothingStoredShowsNoAnswers` | src/pages/Result/Result.tsx:172 | unreadable storage or an empty question list shows the empty state |
| `QuestionFlow.InitialSelections` | src/pages/Question/Question.tsx:60-67 | a prefix of the stored selections; the stored ones when shorter than the question count, else empty; shorter than the question count when there are questions |
| `QuestionFlow.WriteSlot` | src/pages/Question/Question.tsx:76-77 | the copy has the answer at the current index, every other slot unchanged, and grows only when the index is at its end |
| `QuestionFlow.Next` | src/pages/Question/Question.tsx:75-87 | the new selections are the slot-written copy and are what storage now reads back; after the last question the index stays and the route becomes `/result`; otherwise the index grows by one |
| `QuestionFlow.NextKeepsInv` | src/pages/Question/Question.tsx:69-86 | answering keeps the index below the question count and `|selections| == currentIndex` before the last answer |
| `QuestionFlow.NextAdvances` | src/pages/Question/Question.tsx:81-86 | an answer before the last one appends exactly that answer and increments the index |
| `QuestionFlow.Run` | src/pages/Question/Question.tsx:75-86 | any sequence of answers keeps the page in a legal state |
| `QuestionFlow.LastAnswer` | src/pages/Question/Question.tsx:81-84 | the last answer appends the answer and navigates to `/result` |
| `QuestionFlow.RunStep` | src/pages/Question/Question.tsx:75-86 | a run is the first answer followed by the run of the rest |
| `QuestionFlow.RunToEnd` | src/pages/Question/Question.tsx:60-86 | answering every remaining question appends the answers and ends on `/result` |
| `QuestionFlow.FullRun` | src/pages/Question/Question.tsx:60-86 | from a fresh start, answering all N questions leaves N selections and persists exactly the chosen indices |
| `QuestionFlow.QuestionPage.CurrentQuestion` | src/pages/Question/Question.tsx:72 | a current question exists exactly when the index is below the question count |
| `QuestionFlow.QuestionPage.constructor` | src/pages/Question/Question.tsx:58-70 | the page starts at `|initialSelections|` and leaves storage untouched; with no questions the index is 0 and there is no current question |
| `QuestionFlow.QuestionPage.Answer` | src/pages/Question/Question.tsx:75-87 | only an index of one of the current question's choices is accepted; the new state is `Next` of the old one, with only slot `currentIndex` written and the persisted array equal to the new selections |
| `EndToEnd.CompletedRunReachesResult` | src/pages/Result/Result.tsx:141 | after a full run the result page reads back exactly the answers given, and shows a profile exactly when there are members |
| `EndToEnd.ExactMatchWins` | src/pages/Result/Result.tsx:148-161 | answers 1, 0, 1: a member expecting 2, 1, 2 (score 3) beats one expecting 1, 1, 2 (score 2) |
| `EndToEnd.TieGoesToFirstListed` | src/pages/Result/Result.tsx:148-161 | two members tied at score 2: the first listed is the best match |

## Left out

- Rendering: the JSX markup, CSS classes, the quote/description paragraph styling and the external form and homepage links. `src/App.tsx` (route table) and `src/components/Hero.tsx` (landing page) have no logic and are not part of this model.
- The progress bar percentage (`progressValue`): floating-point arithmetic with no effect on the flow.
- Browser storage and JSON: `window.localStorage`, `JSON.parse` and `JSON.stringify` are replaced by the `StoredValue` datatype. A missing `window`, a missing item and an empty string are all `Absent`. Every number `Number.isInteger` accepts is an `Integer` element. `Persist` treats integers as surviving `JSON.stringify`/`JSON.parse` exactly, which JavaScript numbers only guarantee up to 2^53.
- `import.meta.glob`: the `(path, src)` entries are an input, in the order `Object.entries` yields them.
- React hooks: `useState`, `useMemo` and `useNavigate` become plain fields and a `route` field. The functional update `setCurrentIndex((prev) => ...)` is treated as reading the current index, since at most one update happens per click. Navigating away unmounts the page in the app; the model keeps `Answer` callable after it, where the code would overwrite the last slot again.
- Regular expressions: `\s+`, `\[([^\]]+)\]` and the extension pattern are hand-written string functions. `IsWhitespace` is exactly the ECMAScript WhiteSpace and LineTerminator set. The `i` flag compares ASCII letters only, which is exact for these extensions.
- String encoding: JavaScript strings are UTF-16 code units and the model's characters are Unicode scalar values. `slice(1)` on a name starting with a character outside the Basic Multilingual Plane removes half a surrogate pair in JavaScript, which the model does not capture.
- `Array.prototype.sort`: the engine's algorithm is not modelled. `Matching.Rank` is a stable insertion sort, and a stable sort by score has exactly one result, the one `Rank` is proved to have.
- Storage.ReadStoredSelections: stored numbers are unbounded integers. In JavaScript every integer-valued double passes `Number.isInteger`, including values of 2^53 and above that no longer represent distinct integers.
- Matching.Score: `value + 1` and `===` are computed on IEEE doubles in JavaScript and on unbounded integers here. The two agree while the stored selection plus one stays below 2^53. At and above 2^53 the sum can round: a stored `9007199254740992` against an expected answer of `9007199254740992` scores 1 in JavaScript and 0 here.
- The static JSON catalogs: questions, members, descriptions and images are parameters, not concrete data.
- Storage.ReadStoredSelections: its own contract only bounds the length; the exact content is stated by `Storage.IntegersOfMembership`, `Storage.IntegersOfAppend` and `Storage.ReadAfterPersist`, to keep the verifier's work small.
