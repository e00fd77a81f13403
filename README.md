# kompetansekartlegging spreadsheet scripts, modelled in Dafny

This project models the computing core of the Apps Script code behind the
kompetansekartlegging (competence survey) spreadsheets:

- **2022 data sheet** (`2022/FetchAllData.ts`). `generateDataSheet` builds the question
  header, the answer matrix (one row per user), and the "not answered" roster. It uses
  `transpose`, `getUserBlocklist`, `getUserList`, `getCategoriesData`,
  `getAllUserQuestionAnswers`, `getQuestions` and `getQuestionsWithCategory`.
- **2021 competency sheet** (`2021/FetchAllData.ts`). `deriveTaxonomy`, and the shaping
  of the `getCompetencyData` output.
- **T-shape** (`2021/FindTShape.ts`, `2022/FindTShape.ts`). `calcTShape` names the three
  strongest competence areas of each user.
- **Report generator** (`form-generate-docs/GenerateDocuments.js`):
  - `reorderDataset`;
  - the employee/row matching of `getDataForAnsatte`, `getMissingAnsatte`,
    `getMissingEmployees` and `getDataForEmployeesInGroup`;
  - `getCategories`, `getGroupManagers`, `getLedereList`;
  - `getKompVsMotTitlePosArray`;
  - the hex/UUID formatting of `getHmacSHA256SigAsUUID`.

The modules, and the JavaScript semantics they rest on:

| module | contents |
|---|---|
| `Values` | Spreadsheet cells (`Undef`, text, numbers), `Option`, and `Result`. A `Result` is a value or the `TypeError`/`RangeError` the script throws. |
| `ArrayOps` | `filter`, `map`, a `map` whose callback throws, `slice`, `flat`. `sort(compare)` is a stable insertion sort, and `undefined` entries go last. |
| `Strings` | Code-unit string order (`<`, `>`, default `sort()`), `substring`, `trim`, `split`/`join`, `reverse`, `toLowerCase`, `replace(/\s+/g, '')`. |
| `Objects` | Objects used as dictionaries: association lists in key-insertion order, with `obj[k]` and `obj[k] = v`. |
| `SurveyTypes` | The records the survey API returns. |
| `Catalog` | The 2022 catalog functions and the question lists `compQuestions` and `jobQuestions`. |
| `AnswerMatrix` | The 2022 sheet pipeline. |
| `Taxonomy` | The 2021 taxonomy. |
| `TShapeCells`, `TShape2022`, `TShape2021` | The two T-shape versions. |
| `ReportRows`, `ReportCategories`, `ReportManagers`, `Pseudonym` | The report generator. |

The style follows the source:
- A JavaScript loop that builds a value step by step is a Dafny `method` with a loop. It is
  proved equal to a recursive specification function, and the lemmas state what that
  function means.
- Pipelines of `map`/`filter`/`sort` are functions.
- An exception is an `Err` result with the same error type. Its message is the one V8 (the Apps Script runtime) gives at the same point of failure.

## Model

| member | source | states |
|---|---|---|
| ArrayOps.MapAll | 2022/FetchAllData.ts:93-151 | A `map` whose callback may throw succeeds exactly when every element's callback succeeds, and then holds each element's result in order |
| ArrayOps.MapAllFirstFailure | 2022/FetchAllData.ts:93-151 | A failing map throws the exception of its first failing element, and every earlier element succeeded |
| ArrayOps.FilterMembers | 2022/FetchAllData.ts:153 | `filter` keeps only elements of the array, and keeps every element that passes |
| ArrayOps.SortBy | 2022/FetchAllData.ts:152 | `sort(compare)` returns a permutation of its input |
| ArrayOps.SortBySorted | 2022/FetchAllData.ts:152 | With a consistent comparator, the sorted array is ordered |
| ArrayOps.SortByIsStable | 2022/FetchAllData.ts:63-71 | `sort` is stable: sorting an array already ordered by one key by a second key keeps the first order among elements the second key does not separate |
| ArrayOps.SortUndefinedLastKeeps | 2022/FetchAllData.ts:71 | Sorting an array that holds `undefined` keeps every defined value as often as before, sorted when the comparator is consistent, keeps the number of `undefined` entries, and puts none of them before a defined entry |
| ArrayOps.FilterPicks | 2022/FetchAllData.ts:153 | `filter` keeps exactly the passing elements, in their order and each as often as the array holds it |
| ArrayOps.FilterMultiset | 2022/FetchAllData.ts:153 | `filter` keeps each passing value as often as the array holds it, and no other value |
| ArrayOps.KeepUnlistedIsFilter | 2022/FetchAllData.ts:153 | Dropping the listed keys is a `filter` by "key not listed" |
| ArrayOps.Prefix | 2022/FindTShape.ts:22-23 | `slice(0, n)` / `substr(0, n)` is a prefix of length min(n, length) |
| ArrayOps.KeepUnlisted | 2022/FetchAllData.ts:153 | `filter(x => !listed.includes(key(x)))` keeps exactly the elements whose key is not listed, and only those |
| Strings.LessTransitive | 2022/FetchAllData.ts:152 | String `<` is transitive |
| Strings.LessTotal | 2022/FetchAllData.ts:152 | Distinct strings are ordered one way or the other by `<` |
| Strings.AfterIsStrictWeakOrder | 2022/FetchAllData.ts:190 | The comparator of the default `sort()` is a strict weak order |
| Strings.Substring | form-generate-docs/GenerateDocuments.js:686-690 | `substring(start, end)` is the exact slice when `end` is within the string, the rest of the string from `start` when only `end` is past it, and empty when `start` is past it |
| Strings.RemoveSpaces | form-generate-docs/GenerateDocuments.js:642 | `replace(/\s+/g, '')` leaves no white space, changes nothing in a string without any, and is the `filter` of the other characters |
| Strings.RemoveSpacesKeepsOthers | form-generate-docs/GenerateDocuments.js:642 | Removing the white space keeps every other character, once each and in order |
| Strings.Trim | form-generate-docs/GenerateDocuments.js:614 | `trim()` gives a slice of the string that has no white space at either end and drops only white space |
| Strings.LowerCases | form-generate-docs/GenerateDocuments.js:642 | `toLowerCase()` maps each capital A-Z to its small letter, keeps every character that is not a letter, leaves no capital A-Z, and is idempotent |
| Strings.JoinSplit | form-generate-docs/GenerateDocuments.js:614 | Joining the pieces of `split(sep)` with `sep` gives the string back |
| Strings.SplitJoin | form-generate-docs/GenerateDocuments.js:614 | Splitting the join of separator-free pieces gives the pieces back |
| Strings.ReverseInvolutive | form-generate-docs/GenerateDocuments.js:614 | `reverse()` keeps the elements, and reversing twice gives the array back |
| Objects.Get | form-generate-docs/GenerateDocuments.js:583 | `obj[key]` is `undefined` exactly when no entry has the key |
| Objects.GetAssign | form-generate-docs/GenerateDocuments.js:565 | After `obj[key] = v`, reading `key` gives `v`, and every other key reads as before |
| Objects.AssignKeys | form-generate-docs/GenerateDocuments.js:584 | An assignment keeps the keys in place, and appends a new key last |
| Objects.AssignDistinct | form-generate-docs/GenerateDocuments.js:584 | An assignment keeps every key unique |
| Objects.AssignKept | 2021/FetchAllData.ts:30 | An assignment adds its entry and keeps every entry under another key; no other entry appears |
| Objects.LastValueIsLast | form-generate-docs/GenerateDocuments.js:564-566 | The reference reading is `undefined` exactly when no entry has the key; otherwise it is the value of the last entry with that key |
| Objects.AssignAllLastWins | form-generate-docs/GenerateDocuments.js:564-566 | An object filled by a `forEach` of assignments holds, under each key, the value of the last entry with that key |
| Objects.AssignAllDistinct | form-generate-docs/GenerateDocuments.js:564-566 | That object holds each key once |
| Catalog.UserListIsSortedDirectory | 2022/FetchAllData.ts:184-193 | `getUserList` throws exactly when a user has no attributes. Otherwise it is sorted, excludes the test user, holds only first-attribute values, and holds every other user's value, each as often as users carry it |
| Catalog.SortCategoriesOrdersByIndex | 2022/FetchAllData.ts:201-204 | `getCategoriesData` returns a permutation of the categories in ascending index order |
| Catalog.FindCategory | 2022/FetchAllData.ts:65 | `find` returns the first category with the id, and is `undefined` exactly when none has it |
| Catalog.SortQuestionsOrdersByCategoryId | 2022/FetchAllData.ts:271-277 | `getQuestions` returns a permutation of the questions, ordered by category id |
| Catalog.QuestionsWithCategoryJoins | 2022/FetchAllData.ts:285-298 | Each row is the question's five fields, then the four fields of the first category with the question's category id. The category fields are `undefined` exactly when no category has that id |
| Catalog.CompQuestionsShowJoined | 2022/FetchAllData.ts:64-70 | `compQuestions` shows each joined question/category pair as its column `[category text, topic, id, category]`; a question without a category stays `undefined` |
| Catalog.CompJoinedContent | 2022/FetchAllData.ts:61-70 | There is one entry per knowledge/motivation question; each defined entry is such a question joined to the category that `find` returns |
| Catalog.CompJoinedOrdered | 2022/FetchAllData.ts:63-71 | `compQuestions` is ordered by category index, with question index breaking ties |
| Catalog.CompQuestionsUndefined | 2022/FetchAllData.ts:64-71 | `compQuestions` holds an `undefined` exactly when a knowledge/motivation question has an unknown category |
| Catalog.UnknownCategoryLeavesUndefined | 2022/FetchAllData.ts:64-70 | A knowledge/motivation question whose category id matches no category leaves an `undefined` |
| Catalog.JobQuestionsKeepAll | 2022/FetchAllData.ts:74-87 | Every custom-scale question has exactly one `jobQuestions` column, kept even when its category is unknown; no other question has one |
| Catalog.JobQuestionsOrdered | 2022/FetchAllData.ts:74-87 | When every category is known, `jobQuestions` holds one named column per custom-scale question, in non-decreasing category-name order |
| Catalog.SortedByName | 2022/FetchAllData.ts:87 | Sorting named columns by name puts them in name order |
| Catalog.NormalizeAnswersKeepsQuestions | 2022/FetchAllData.ts:221-235 | The normalised answers are, in order, the inlined forms of exactly the answers that have a question |
| Catalog.NormalizedMotivationIsKnowledge | 2022/FetchAllData.ts:231 | A normalised motivation is absent, or a copy of the knowledge value. The k-th kept answer's motivation is its source answer's knowledge when that answer had a motivation, and absent otherwise |
| Catalog.AllUserQuestionAnswersNormalizesEach | 2022/FetchAllData.ts:212-246 | The answer sets, sorted by email, are a permutation of the normalised fetched sets |
| AnswerMatrix.LookupIsLastAnswer | 2022/FetchAllData.ts:96-107 | A question id is in the `Map` exactly when some filed answer has it, and maps to the last such answer |
| AnswerMatrix.SplitAnswers | 2022/FetchAllData.ts:99-107 | The `forEach` files answers with a `customScaleValue` into `jobs`, and all others into `answers` |
| AnswerMatrix.PushJobCells | 2022/FetchAllData.ts:109-120 | The job loop appends the job cell of each job question, in order |
| AnswerMatrix.PushScoreCells | 2022/FetchAllData.ts:122-148 | The two competence loops throw "Q is undefined" exactly when a question is `undefined`; otherwise they append all knowledge cells, then all motivation cells |
| AnswerMatrix.PushMotivationCells | 2022/FetchAllData.ts:135-148 | The motivation loop appends one motivation cell per question |
| AnswerMatrix.BuildRow | 2022/FetchAllData.ts:93-151 | The row builder computes the row the layout lemmas describe |
| AnswerMatrix.RowLayout | 2022/FetchAllData.ts:93-151 | A row fails exactly when a competence question is `undefined`. Otherwise it holds email, username and date, then the job cells, knowledge cells and motivation cells, in question order |
| AnswerMatrix.JobCellIsLastScaleAnswer | 2022/FetchAllData.ts:114-119 | A job cell is `""` exactly when no scale answer has the question's id; otherwise it is the value of the last such answer |
| AnswerMatrix.ScoreCellsAreLastScoreAnswer | 2022/FetchAllData.ts:127-147 | Knowledge and motivation cells are `""` together, exactly when no non-scale answer has the id; otherwise they show the last such answer |
| AnswerMatrix.TransposeRoundTrip | 2022/FetchAllData.ts:22-24 | Transposing a non-empty rectangular array swaps rows and columns, and transposing twice gives it back |
| AnswerMatrix.QuestionHeaderShape | 2022/FetchAllData.ts:160 | The transposed question list fails exactly when it is empty or holds `undefined`; otherwise each column is the four fields of its question |
| AnswerMatrix.UserBlocklistColumn | 2022/FetchAllData.ts:26-31 | On a one-column blocklist sheet, the blocklist is that column below its first two rows |
| AnswerMatrix.RowsFail | 2022/FetchAllData.ts:93-151 | Mapping the answer sets throws exactly when there is an answer set and a competence question is `undefined`, and the exception is "Q is undefined" |
| AnswerMatrix.MatrixKeepsUnblockedRows | 2022/FetchAllData.ts:152-153 | The matrix is sorted by email and holds each row that is not blocklisted as often as the rows do, and no blocklisted row |
| AnswerMatrix.NotAnsweredRoster | 2022/FetchAllData.ts:156-157 | The roster lists, as one-cell rows, exactly the directory emails that start no matrix row; a blocklisted email is always on it; a sorted directory gives a sorted roster |
| AnswerMatrix.NotAnsweredInDirectoryOrder | 2022/FetchAllData.ts:156-157 | The roster holds one row per directory position whose email starts no matrix row, in directory order |
| AnswerMatrix.SheetFails | 2022/FetchAllData.ts:36-177 | The sheet fails exactly when a competence question is `undefined`, the question list is empty, or no answer set is left after the blocklist |
| AnswerMatrix.MatrixEmpty | 2022/FetchAllData.ts:152-164 | The matrix is empty exactly when every answer set's email is blocklisted |
| AnswerMatrix.SheetLayout | 2022/FetchAllData.ts:89-164 | A successful sheet has a four-row header as wide as the question list, a matrix with the layout above, and the roster of that matrix |
| AnswerMatrix.MatrixRowsFromAnswerSets | 2022/FetchAllData.ts:93-153 | Every matrix row is as wide as the header plus three, and is the row of some answer set |
| AnswerMatrix.MatrixRowsOfAnswerSets | 2022/FetchAllData.ts:93-153 | The row of every answer set that is not blocklisted is in the matrix |
| AnswerMatrix.UnknownCategoryAfterSort | 2022/FetchAllData.ts:58-71 | Sorting the questions first does not change whether a competence question has an unknown category |
| AnswerMatrix.DataSheetFailures | 2022/FetchAllData.ts:36-177 | The whole pipeline passes on the directory failure. With answer sets present, a knowledge/motivation question with an unknown category makes it throw "Q is undefined" |
| AnswerMatrix.DataSheetRowsFromAnswerSets | 2022/FetchAllData.ts:36-177 | The pipeline's matrix holds the row of every normalised answer set that is not blocklisted, and nothing else |
| Taxonomy.DeriveTaxonomy | 2021/FetchAllData.ts:25-35 | With no user, reading `data[0].answers` throws; otherwise the loop builds the taxonomy of the first user's answers |
| Taxonomy.TaxonomyShape | 2021/FetchAllData.ts:28-32 | The taxonomy has one key per category of the answers, and each category holds only the topic and id of its last answer |
| Taxonomy.EntryStaysLast | 2021/FetchAllData.ts:30-31 | An answer of another category does not disturb a category's last answer |
| Taxonomy.CompetencyData | 2021/FetchAllData.ts:58-70 | With no user it throws. Otherwise the header is `epost`, `timestamp` and the sorted categories; then one `[email, updatedAt]` row per user |
| Taxonomy.CompetencyHeader | 2021/FetchAllData.ts:62 | The sorted keys hold every category of the answers exactly once, in strictly ascending order |
| Taxonomy.SortedDistinctAscending | 2021/FetchAllData.ts:62 | `sort()` of strings without repeats is strictly ascending |
| TShapeCells.ColumnNamesShape | 2022/FindTShape.ts:22 | Naming fails exactly when a column has no category; otherwise it gives each cell's category name, cut to 12 characters |
| TShape2022.RankingIsRankedSelection | 2022/FindTShape.ts:19-21 | The ranking holds exactly the cells of value at least 1.0, in descending value order, with column order kept on ties |
| TShape2022.TopCategoriesNamesRanking | 2022/FindTShape.ts:18-23 | A row fails exactly when a qualifying cell lies past the last category; otherwise it names the first min(3, n) ranked cells |
| TShape2022.CalcTShapeRows | 2022/FindTShape.ts:17-24 | One output row per input row; the function fails exactly when a row does |
| TShape2021.RankingIsRankedCells | 2021/FindTShape.ts:17-18 | The ranking holds every cell once with its column, in non-increasing value order |
| TShape2021.TopCategoriesNamesRanking | 2021/FindTShape.ts:16-20 | A row fails exactly when it is longer than the category list; otherwise it names the first min(3, length) ranked cells |
| TShape2021.CalcTShapeRows | 2021/FindTShape.ts:15-21 | One output row per input row; the function fails exactly when a row is longer than the category list |
| ReportRows.EvensOddsPositions | form-generate-docs/GenerateDocuments.js:244-245 | The `i % 2` filters keep exactly the elements at even positions, and exactly those at odd positions |
| ReportRows.InterleaveEvensOdds | form-generate-docs/GenerateDocuments.js:244-245 | Interleaving the even and odd halves gives the array back |
| ReportRows.EvensOddsInterleave | form-generate-docs/GenerateDocuments.js:244-245 | Halves of matching length are recovered from their interleaving |
| ReportRows.ReorderRowLayout | form-generate-docs/GenerateDocuments.js:239-248 | A reordered row is the Google id, then the cells at columns 2, 4, …, then those at 3, 5, …; nothing is lost |
| ReportRows.OverviewHeadersAlign | form-generate-docs/GenerateDocuments.js:428-430 | The overview titles are split from the header row the same way, so each title sits over the answer from its own column |
| ReportRows.FindEmployee | form-generate-docs/GenerateDocuments.js:442 | `find` is `undefined` exactly when no employee has the id; otherwise it is the first employee with that id |
| ReportRows.HasRowForWitness | form-generate-docs/GenerateDocuments.js:516 | The row search succeeds exactly when a row carries the id in the searched column |
| ReportRows.GetMissingAnsatte | form-generate-docs/GenerateDocuments.js:513-525 | The `forEach` computes the placeholder list of the specification function |
| ReportRows.GetMissingEmployees | form-generate-docs/GenerateDocuments.js:527-537 | The `forEach` computes the placeholder list of the specification function |
| ReportRows.AbsentMembers | form-generate-docs/GenerateDocuments.js:513-537 | The employees left without a row are exactly those with no row; there are some exactly when an employee has no row |
| ReportRows.AbsentInOrder | form-generate-docs/GenerateDocuments.js:513-537 | The employees without a row are kept in employee order, each as often as listed |
| ReportRows.MissingAnsatteRows | form-generate-docs/GenerateDocuments.js:513-525 | It throws exactly when an employee has no row and the first row is missing or empty; otherwise it gives one id-then-holes placeholder per missing employee, as wide as the first row |
| ReportRows.MissingEmployeesRows | form-generate-docs/GenerateDocuments.js:527-537 | It throws exactly when an employee has no row and the first row is missing or shorter than two; otherwise it gives one `''`-padded placeholder per missing employee |
| ReportRows.OverviewRows | form-generate-docs/GenerateDocuments.js:437-442 | With the placeholders, every employee has a row and every row belongs to an employee, so the name lookup never fails |
| ReportRows.DataForEmployeesInGroup | form-generate-docs/GenerateDocuments.js:547-566 | The filter/concat/map and the dictionary loop compute the dictionary of the specification function |
| ReportRows.GroupRows | form-generate-docs/GenerateDocuments.js:547-552 | Every mapped row finds its employee, so the `{ googleid }` stand-in is never used; every employee has a row |
| ReportRows.EmployeesInGroupKeys | form-generate-docs/GenerateDocuments.js:563-566 | The dictionary holds each key once, and has an entry under every employee's id |
| ReportRows.EmployeesInGroupEntry | form-generate-docs/GenerateDocuments.js:550-566 | Under each key is the response of the last row with that key, carrying the employee whose id gave the key |
| ReportCategories.GetCategories | form-generate-docs/GenerateDocuments.js:573-593 | The nested loops build the categories object of the specification function |
| ReportCategories.RowFoldGet | form-generate-docs/GenerateDocuments.js:582-589 | After a row, a key its columns reach holds its old list followed by the row's non-empty strings under that key; other keys are unchanged |
| ReportCategories.AllFoldGet | form-generate-docs/GenerateDocuments.js:581-590 | A key is defined exactly when some row reaches a column with that title, and then holds the non-empty strings of those columns in row-major order |
| ReportCategories.CategoriesBuckets | form-generate-docs/GenerateDocuments.js:573-593 | `getCategories` maps each reached title to its column strings, and columns sharing a title share one list |
| ReportCategories.CategoriesDistinct | form-generate-docs/GenerateDocuments.js:581-590 | The categories object holds each title once |
| ReportCategories.TitlePositions | form-generate-docs/GenerateDocuments.js:750-759 | The loop pushes one position per category, and then drops the last |
| ReportCategories.TitlePosIsOffset | form-generate-docs/GenerateDocuments.js:750-759 | Each title position is 3 plus the size of the blocks above it |
| ReportCategories.TitlesInColumn | form-generate-docs/GenerateDocuments.js:766-773 | In the flattened column, row `titlePos[i]` holds title `i`, and the rows below it hold that category's competences in order |
| ReportManagers.DisplayNameSwapsParts | form-generate-docs/GenerateDocuments.js:614 | "Surname,Given" is shown as "Given Surname", trimmed |
| ReportManagers.DisplayNameWithoutComma | form-generate-docs/GenerateDocuments.js:614 | A name without a comma is only trimmed |
| ReportManagers.AssignAllRowEntries | form-generate-docs/GenerateDocuments.js:641-643 | The header loop performs one assignment per header, in order |
| ReportManagers.BuildLeaderRecord | form-generate-docs/GenerateDocuments.js:639-645 | The loop body builds the leader record of the specification function |
| ReportManagers.LedereList | form-generate-docs/GenerateDocuments.js:632-648 | The method computes the list of the specification function |
| ReportManagers.LeaderRecordReads | form-generate-docs/GenerateDocuments.js:639-645 | A leader fails exactly when a header is not a string. Otherwise each key is held once; `visningsnavn` is the first and last names joined by a space; every other key holds the cell of the last column with that key |
| ReportManagers.LedereListLeaders | form-generate-docs/GenerateDocuments.js:632-648 | It throws exactly when a leader fails or has no `googleid` value. Otherwise it keeps the leaders with a non-empty Google id, and only those |
| ReportManagers.LedereListInRowOrder | form-generate-docs/GenerateDocuments.js:632-648 | A successful list holds, in row order, one leader per row whose Google id is a non-empty string |
| ReportManagers.CollectGroup | form-generate-docs/GenerateDocuments.js:607-621 | The inner `forEach` builds the group of the specification function |
| ReportManagers.GroupManagers | form-generate-docs/GenerateDocuments.js:600-624 | The method computes the groups of the specification function |
| ReportManagers.GroupFails | form-generate-docs/GenerateDocuments.js:608-614 | A group fails exactly when one of its rows has a name that is not a string |
| ReportManagers.GroupEmployees | form-generate-docs/GenerateDocuments.js:608-621 | Every employee comes from a row of the leader, carries the leader's id, and shows its name as the display name |
| ReportManagers.GroupCoversRows | form-generate-docs/GenerateDocuments.js:608-621 | Every row whose column 6 holds the leader's id gives an employee of the group |
| Pseudonym.HexValue | form-generate-docs/GenerateDocuments.js:683 | Reading a hex digit back is the inverse of writing it |
| Pseudonym.ByteHexDigits | form-generate-docs/GenerateDocuments.js:683 | `(chr + 256).toString(16).slice(-2)` gives two lower-case hex digits spelling the byte modulo 256 |
| Pseudonym.SignatureUnhex | form-generate-docs/GenerateDocuments.js:682-684 | The joined hex string has two digits per byte, and decoding it gives back every byte modulo 256 |
| Pseudonym.SignaturePrefix | form-generate-docs/GenerateDocuments.js:682-690 | The first 32 hex digits are those of the first 16 bytes |
| Pseudonym.GroupedShape | form-generate-docs/GenerateDocuments.js:685-691 | 8-4-4-4-12 grouping gives a UUID-shaped string, and removing the dashes gives the digits back |
| Pseudonym.UuidOfSignature | form-generate-docs/GenerateDocuments.js:681-692 | The result is UUID-shaped, and its hex digits spell the first 16 bytes modulo 256 |
| Pseudonym.UnsignedInjective | form-generate-docs/GenerateDocuments.js:683 | Signed bytes are told apart by their values modulo 256 |
| Pseudonym.UuidIdentifiesPrefix | form-generate-docs/GenerateDocuments.js:681-692 | Two signatures give the same UUID exactly when their first 16 bytes agree |

## Left out

- Spreadsheet and network I/O are parameters or are left out:
  - `UrlFetchApp`, `_fetch` and the HTTP status check;
  - `SpreadsheetApp` reads and the sheets-are-`null` checks;
  - writing ranges, clearing sheets, formatting, backgrounds;
  - `console.log`;
  - the "Last updated" date (`toLocaleString`).
  The functions take the fetched data or the sheet values as arguments.
- The HMAC-SHA256 computation of `getHmacSHA256SigAsUUID` is a foreign call. The signature bytes are a parameter (`Pseudonym`).
- Numbers are integers in sheet cells and reals in the T-shape rows. Floating-point rounding is not modelled.
- Default `sort()` and string `<`/`>` compare UTF-16 code units. Here they compare characters (`Strings.Less`).
- `toLowerCase` is modelled only on ASCII and Latin-1 letters.
- The overview sheet's final `.sort((a, b) => a[0].localeCompare(b[0]))` (`GenerateDocuments.js` 445) is locale-dependent and is left out. `ReportRows.OverviewRows` states the rows before that sort.
- Comparators that return `-1` on ties (`a > b ? 1 : -1`) break the contract of `sort`. The model's stable insertion sort gives one of the orders an engine may give. The lemmas claim only order and permutation, and for such comparators only what holds for any tie order.
- Catalog.JobQuestionsOrdered: the id sort before the name sort (`FetchAllData.ts` 76 and 87) uses such comparators, so nothing is claimed about the order of questions that share a category name.
- Catalog.SortCategoriesOrdersByIndex: on equal indexes the source comparator returns a boolean (`a.text < b.text`). It is modelled as a sort by index alone, and nothing is claimed about the order of categories that share an index.
- `Object.keys` puts integer-like keys first. The model keeps keys in insertion order, which holds for the non-numeric titles and ids these sheets use. The special key `__proto__` is not modelled.
- Inherited `Object.prototype` members are not modelled. In `getCategories` (`GenerateDocuments.js` 583-587) a title such as `constructor` or `toString` finds an inherited function, so `typeof categories[t]` is not `'undefined'`, no list is created, and the `push` of a non-empty string throws. `ReportCategories` treats every title as an own key and creates its list.
- Shared mutation is modelled as fresh values:
  - `getGroupManagers` adds `ansatte` to each leader object; here each leader's group is a `Group` value.
  - `getDataForEmployeesInGroup` writes `competencies` and `motivations` into the employee objects; here each response is a `Response` value.
  The aliasing between the returned objects and the employee list is not modelled.
- The implicit global `i` of `getCategories` and `getLedereList`, and the global `data` that `getDataForEmployeesInGroup` assigns, are local here.
- The T-shape category name uses `substr(0, 12)` on a string. A non-string category cell, which would throw, is not modelled.
- In the 2022 pipeline the model follows the code as written, including where it looks unintended:
  - a duplicate answer is resolved by the last one (`Map.set`, `FetchAllData.ts` 103-105);
  - a knowledge/motivation question with an unknown category leaves an `undefined` in `compQuestions` (66-70, whose sort at 71 carries the comment "FIX THIS"), which throws "Q is undefined" (124-125) once there is an answer set;
  - the normalised motivation copies the knowledge value: line 231 tests `a.motivation` but assigns `a.knowledge`;
  - a custom-scale question with an unknown category keeps an undefined category name (81-84).
- The `getCategories` export of `2022/FetchAllData.ts` (254-259) and `getQuestionsData` are thin wrappers and are not modelled separately.
