# Classroom app core, modelled in Dafny

The app is a single-page tool that a physical-education teacher uses to
keep cycles, classes, students, attendance sessions and documents in the
browser's IndexedDB. All of its logic lives in React handlers in
`index.tsx`. This project lifts the deterministic parts of those handlers
into pure functions over an in-memory store and proves what they promise.

- **Store.** One map per collection, from record id to record. `put` is a
  map update and `delete` is a map removal. The screen's lists (what
  `getAll` returned when the screen last loaded) are explicit sequences,
  tied to the maps by `Entities.Lists`.
- **Fresh ids, clock and free-text dates.** `crypto.randomUUID` is a
  supplied sequence of ids. The clock is a time string and a current
  `YYYY-MM` month. The `new Date(str)` fallback is a function parameter.

Modules, one per file:

| module | file | what it holds |
|---|---|---|
| `Wrappers` | wrappers.dfy | `Option` |
| `Text` | text.dfy | whitespace, trim, split on whitespace, join, ASCII lower case, substring search, digits |
| `Sheet` | sheet.dfy | spreadsheet cells (blank, integer, text), JavaScript truthiness and `String()` |
| `Entities` | entities.dfy | the records, the store, `put`/`delete` and their in-order repetition |
| `Seqs` | seqs.dfy | order-keeping filter, `Set`-style de-duplication, dropping missing results |
| `Calendar` | calendar.dfy | proleptic Gregorian day counts (for `Date.prototype.toISOString`) |
| `Dates`, `DateLaws` | dates.dfy | `parseExcelDate` and its laws |
| `Import` | import.dfy | Massar detection, header auto-mapping, `executeImport` |
| `Hierarchy` | hierarchy.dfy | virtual classes, cycle grouping, the classes-in-cycle view |
| `Cascade` | cascade.dfy | copy a class into a cycle; the student, class and cycle delete cascades |
| `Documents` | documents.dfy | recursive document/folder delete |
| `Attendance` | attendance.dfy | session creation, `updateAttendance`, `calculateStats` |

Three behaviours of the code that are easy to misread:

- **Massar import.** The Massar branch decides whether to keep a row from
  the name cell alone (index.tsx:981) and never reads the official-id
  cell for that, so a row without an id is kept, with an empty id. The
  generic branch keeps such rows too, with the id `"undefined"`; see
  Findings.
- **Serial 43567.** The serial arithmetic gives `"2019-04-12"` for serial
  43567 (`DateLaws.SerialExample`).
- **The `/nom|prenom/i` name filter.** It is modelled as "the lower-cased
  name contains `nom`". The regex canonicalises case with upper-casing,
  and the only characters that upper-case to `N`, `O` or `M` are those
  letters themselves. So, over any string, this is the same test. A
  match on `prenom` always contains `nom`.

## Model

| member | source | states |
|---|---|---|
| Dates.NormalizeDate | index.tsx:274-311 | a falsy cell or an all-whitespace text gives `2000-01-01`; a non-zero integer serial inside the JavaScript date range gives the ISO date `serial - 25569` days after 1970-01-01; a serial outside that range falls through to the text rules applied to its trimmed `String(n)`; any other text is normalised after trimming |
| Dates.SerialDate | index.tsx:278-281 | a serial gives a date exactly when its instant lies inside the JavaScript `Date` range of ±8.64e15 ms around 1970 |
| Dates.NormalizeText | index.tsx:286-310 | the day-first pattern wins over year-first and both give a valid `YYYY-MM-DD`; text matching neither goes to the free-text parser, falling back on `2000-01-01` |
| Dates.MatchDayFirst | index.tsx:287 | it matches exactly when the text starts with 1-2 digits, a separator, 1-2 digits, a separator and 4 digits, and it returns those parts |
| Dates.MatchYearFirst | index.tsx:296 | it matches exactly when the text starts with 4 digits, a separator, 1-2 digits, a separator and 1-2 digits, and it returns those parts |
| Dates.DayFirstUnique | index.tsx:287 | the digit-run lengths of a day-first match are determined by the text, so the match is unambiguous |
| Dates.YearFirstUnique | index.tsx:296 | the same for a year-first match |
| DateLaws.DayFirstRule | index.tsx:288-293 | a day-first text gives year, then zero-padded month, then zero-padded day, taken from the matched runs |
| DateLaws.YearFirstRule | index.tsx:297-302 | a year-first text that is not day-first keeps the year and zero-pads month and day |
| DateLaws.DayFirstWins | index.tsx:287-303 | `"01-02-2020"` reads day-first as `"2020-02-01"` |
| DateLaws.PaddedDayFirst | index.tsx:288-293 | `"5/3/2021"` gives `"2021-03-05"` |
| DateLaws.YearFirstExample | index.tsx:296-302 | `"2021/3/5"` gives `"2021-03-05"` |
| DateLaws.IsoFixedPoint | index.tsx:283-302 | an ISO date is returned unchanged |
| DateLaws.Idempotent | index.tsx:274-311 | normalising a normalised date changes nothing |
| DateLaws.BlankInputs | index.tsx:274-284 | blank, empty, zero and whitespace-only cells give the sentinel |
| DateLaws.SerialRoundTrip | index.tsx:278-281 | a serial whose year has four digits yields an ISO date with a month in 1..12 that reads back as the same day count |
| DateLaws.SerialExample | index.tsx:277-281 | serial 43567 is `"2019-04-12"` |
| DateLaws.IsoTextReads | index.tsx:280 | the ISO text of a date with a four-digit year reads back as its year, month and day |
| Calendar.DaysCivilRoundTrip | index.tsx:279-280 | every day count converts to a calendar date that converts back to the same count |
| Calendar.CivilDaysRoundTrip | index.tsx:279-280 | every valid calendar date converts to a day count that converts back to the same date |
| Text.Trim | index.tsx:283 | `trim()` leaves no white space at either end and is empty exactly for all-white-space text |
| Text.TrimInfix | index.tsx:283 | `trim()` removes only white space, and only at the two ends |
| Text.TrimTrimmed | index.tsx:283 | text without white space at either end is trimmed to itself |
| Text.SplitWs | index.tsx:984 | `split(/\s+/)` of a trimmed text gives at least one piece: one empty piece for `''`, otherwise its words |
| Text.Words | index.tsx:984 | every word is a non-empty run without white space, and there are none exactly for all-white-space text |
| Text.Lower | index.tsx:946 | `toLowerCase()` keeps the length and lower-cases character by character |
| Text.IntToString | index.tsx:283 | `String(n)` is the decimal digits of `n`, with a leading `-` for a negative number, no leading zeros, and `"0"` for zero |
| Text.OneWord | index.tsx:984-990 | trimmed text with one word is that word |
| Sheet.FalsyCells | index.tsx:935 | exactly `undefined`, `0` and `''` are falsy |
| Sheet.Show | index.tsx:1030 | `String(v)` is the text itself, `"undefined"` for a missing cell and the digits of a number |
| Seqs.Filter | index.tsx:2084 | `filter` keeps exactly the elements passing the test, and keeps distinct elements distinct |
| Seqs.FilterOne | index.tsx:2084 | a one-element list keeps its element exactly when it passes the test |
| Seqs.FilterAppend | index.tsx:2084 | filtering a concatenation filters each part and concatenates, so with the one-element case the kept elements stay in order with their multiplicity |
| Seqs.Dedup | index.tsx:829 | `new Set(names)` holds each name once, exactly the names given |
| Seqs.SomeIndices | index.tsx:1000 | the positions of the kept results are increasing, each holding a result |
| Seqs.SomeIndicesComplete | index.tsx:1000 | every position holding a result is among them |
| Seqs.SomesInOrder | index.tsx:1000 | `filter(s => s !== null)` keeps the present results in order: the `j`-th kept value is the one at the `j`-th kept position |
| Seqs.SomesMembers | index.tsx:1000 | a value is kept exactly when some position holds it |
| Seqs.SomesOne | index.tsx:1000 | a single mapped value is kept exactly when present |
| Import.FindFrom | index.tsx:946-958 | `findIndex` with a role's rule: it returns the first header that fits, with all earlier ones not fitting; no fit anywhere means not found; it throws only on a blank header reached before any fit |
| Import.AutoMap | index.tsx:941-961 | the header mapping fails exactly when one of the three searches reaches a blank header; first-name and class are never auto-mapped |
| Import.AutoMapFirstFit | index.tsx:947-959 | each mapped role holds the first fitting header, or stays `''` when no header fits |
| Import.AutoMapExample | index.tsx:946-959 | headers `Nom`, `DateNaissance`, `CodeMassar` map to last name, birth date and id respectively |
| Import.MassarDetection | index.tsx:934-937 | a sheet is taken for a Massar export exactly when it has more than 15 rows and cell [15][2] is neither missing, `''` nor 0 |
| Import.Upload | index.tsx:933-964 | an empty sheet changes nothing; a sheet is Massar exactly when it has more than 15 rows and cell [15][2] is truthy; a Massar sheet is kept whole; otherwise row 0 becomes the headers, the rest the data, and the mapping is replaced by the auto-mapping when that succeeds |
| Import.MassarName | index.tsx:983-990 | the last name is the first word and the first name the remaining words, so together they are exactly the name's words; each part is its words joined with single spaces |
| Import.MassarNameParts | index.tsx:984-990 | for any white space in the name, the last name is exactly the first word and the first name exactly the remaining words joined with single spaces |
| Import.GenericName | index.tsx:1012-1021 | the first name is the last word (none for a one-word name), the last name the words before it, so together they are exactly the words; each part is its words joined with single spaces |
| Import.GenericNameParts | index.tsx:1012-1021 | for any white space in the name, a one-word name is the last name alone; otherwise the first name is exactly the last word and the last name exactly the words before it joined with single spaces |
| Import.SingleWordName | index.tsx:984-990 | a one-word name becomes the last name with an empty first name, under the Massar rule and the generic rule alike |
| Import.MassarNameRoundTrip | index.tsx:984-987 | for two or more words, splitting and re-joining with single spaces gives back the name |
| Import.GenericNameRoundTrip | index.tsx:1013-1016 | for two or more words, the split re-joins to the name |
| Import.MassarNameExample | index.tsx:984-990 | `"EL AMRANI Youssef"` gives last name `EL` and first name `AMRANI Youssef` |
| Import.LooksLikeHeaderNom | index.tsx:981 | the header-row filter `/nom|prenom/i` holds exactly when the lower-cased name contains `nom` |
| Import.MassarRow | index.tsx:976-999 | a Massar row gives no student exactly when its trimmed name is empty or looks like a header; otherwise the name splits as above into single-space-joined parts and the id, official id (column 2, trimmed), birth date (column 5, normalised) and target class are set |
| Import.IndexOf | index.tsx:1004-1006 | `headers.indexOf`: the first present header equal to the mapped one, or -1 when there is none |
| Import.BirthOf | index.tsx:1022-1025 | the birth date is the sentinel unless the date column is mapped and the cell is truthy |
| Import.GenericStudent | index.tsx:1009-1033 | every field of the generic row's student: the split name (empty when no name column), the birth date, and the class from the class column or the target |
| Import.GenericRowAsWritten | index.tsx:1026-1034 | the row is kept exactly when its student has a non-empty id text and some name; the id text is `String(cell)` |
| Import.GenericRow | index.tsx:1026-1034 | with a blank id cell the row is dropped; otherwise it is kept or dropped as written |
| Import.BlankIdKeptAsWritten | index.tsx:1030-1034 | a named row with a blank id cell is kept as written, with id text `"undefined"`, and dropped by the corrected filter |
| Import.BlankIdExample | index.tsx:1030-1034 | the concrete row `["LAST FIRST"]` with no id cell yields a student with id `"undefined"` as written and nothing once corrected |
| Import.MassarResults | index.tsx:975-999 | the `map` over `fileData.slice(15)`: one result per data row from row 15 on, none for a sheet of 15 rows or fewer, data row `15 + i` read by the Massar rule with fresh id `ids[i]` |
| Import.MassarStudents | index.tsx:974-1000 | a sheet of 15 rows or fewer gives no students; otherwise the kept data rows' students, one per kept row, in row order; a student appears exactly when some data row yields it |
| Import.GenericResults | index.tsx:1009-1033 | the `map` over the generic rows: one result per row, row `i` read as written with fresh id `ids[i]` |
| Import.GenericStudents | index.tsx:1009-1034 | the generic import as written: the kept rows' students, one per kept row, in row order; a student appears exactly when some row yields it |
| Import.GenericStudentsKept | index.tsx:1030-1034 | every student of the generic import as written has some name and a non-empty id text equal to `String` of its row's id cell |
| Import.GenericStudentsOne | index.tsx:1009-1034 | a one-row table imports exactly that row's student when it is kept, and nothing otherwise |
| Import.BlankIdImported | index.tsx:1030-1034 | as written, the one-row table `["Last First"]` with id column 1 imports a student whose official id is `"undefined"` |
| Import.CorrectedResults | index.tsx:1009-1033 | the same `map` with the corrected id filter: row `i` read by the corrected rule |
| Import.CorrectedGenericStudents | index.tsx:1009-1034 | the corrected generic import: the rows kept by the corrected rule, one student each, in row order; a student appears exactly when some row yields it |
| Import.CorrectedGenericStudentsOne | index.tsx:1009-1034 | with the corrected filter, a one-row table imports exactly that row's student when it is kept |
| Import.BlankIdDropped | index.tsx:1030-1034 | with the corrected filter, the same one-row table imports nothing |
| Import.GenericStudentsHaveIds | index.tsx:1030-1034 | every student of the corrected generic import has a present id cell whose text is its official id, and some name |
| Import.Produce | index.tsx:971-1035 | the import is blocked exactly when the sheet is not Massar and no id column is mapped; otherwise it yields the Massar students, or the generic students as written, for the target class |
| Import.Commit | index.tsx:1037-1039 | saving the new students changes only the student map and keeps every id already stored |
| Import.CommitStores | index.tsx:1037-1039 | after the saves an id is stored exactly when it was stored before or is a saved student's id |
| Import.ExecuteImport | index.tsx:970-1044 | a blocked import writes nothing and keeps the dialog; otherwise the produced students are saved in order and the rows are cleared |
| Import.GenericStudentsTarget | index.tsx:1007-1031 | with no class column every generic student goes to the target class |
| Import.MassarStudentsTarget | index.tsx:998 | every Massar student goes to the target class |
| Import.ImportedIntoTarget | index.tsx:971-1031 | with a selected class, or in Massar mode, every imported student is in the target class |
| Entities.PutIdempotent | index.tsx:344-365 | `put` is an upsert: putting the same record twice is putting it once, and it adds an entry only for a new id |
| Entities.PutAllStores | index.tsx:1037-1039 | after saving records in order, a key is stored exactly when it was stored before or is a saved record's id |
| Entities.PutAllKeeps | index.tsx:1037-1039 | records whose ids are not among the saved ones are left unchanged |
| Entities.PutAllLastWins | index.tsx:1037-1039 | the last saved record with a given id is the one stored |
| Entities.RemoveAllKeys | index.tsx:1053-1055 | deleting ids one by one removes exactly those ids |
| Hierarchy.VirtualNames | index.tsx:828-836 | the names needing a virtual class are distinct and are exactly the student class names that no stored class carries |
| Hierarchy.EffectiveClasses | index.tsx:827-838 | the effective class list is the stored classes followed by one virtual class per such name |
| Hierarchy.VirtualClassIff | index.tsx:827-838 | a name has a virtual class exactly when some student carries it and no stored class does |
| Hierarchy.VirtualClassesDistinct | index.tsx:831-836 | virtual classes have distinct names, id `virtual-<name>` and no cycle |
| Hierarchy.OneVirtualClass | index.tsx:827-838 | one student of an unknown class and no stored classes give exactly one virtual class |
| Hierarchy.ClassesInView | index.tsx:1197 | the classes shown for a cycle are those with that cycle; for `unassigned`, those without one |
| Hierarchy.GroupByCycle | index.tsx:660-669 | one group per cycle in order, holding exactly that cycle's classes, plus an `unassigned` group, present exactly when some class has no cycle |
| Hierarchy.ClassInOneGroup | index.tsx:660-669 | with distinct non-empty cycle ids, no class is in two groups, and a class is shown exactly when it has no cycle or its cycle exists |
| Hierarchy.VirtualClassesUnassigned | index.tsx:1100 | every virtual class is listed among the unassigned classes |
| Cascade.TargetCycle | index.tsx:890 | copies land in no cycle exactly for the `unassigned` target, otherwise in the target cycle |
| Cascade.Sources | index.tsx:896-899 | the source sessions are exactly the listed sessions with the class's name and matching cycle, two absent cycles counting as a match |
| Cascade.Duplicates | index.tsx:901-908 | each copy equals its source except for a fresh id and the target cycle |
| Cascade.CopyClass | index.tsx:874-913 | a class of the same name in the target writes nothing; otherwise one new class and the session copies are written; students, cycles and documents are untouched |
| Cascade.CopiedSession | index.tsx:901-908 | with distinct fresh ids, every source session's copy is stored under its fresh id |
| Cascade.CopyKeepsSessions | index.tsx:901-908 | a stored session whose id is not a fresh id keeps its content, so the source sessions are not altered |
| Cascade.CopySessionKeys | index.tsx:901-908 | the copy adds exactly the fresh ids of the copies to the stored sessions |
| Cascade.CopyExample | index.tsx:896-899 | copying an unassigned class takes its unassigned session and not the same-named session of another cycle |
| Cascade.NamedIdsIn | index.tsx:1053 | the ids collected for a class are exactly those of the listed students with its name |
| Cascade.ListedNamedIds | index.tsx:1053 | when the list is the store's listing, these are exactly the stored students with that class name |
| Cascade.DeleteStudent | index.tsx:1049-1050 | deleting a student removes only that id |
| Cascade.DeleteClass | index.tsx:1051-1056 | the class record is removed unless its id starts with `virtual-`; cycles, sessions and documents are untouched; surviving students are unchanged |
| Cascade.DeleteClassStudents | index.tsx:1053-1056 | after deleting a class, a student survives exactly when its class name differs |
| Cascade.DropClassesKeys | index.tsx:1059-1061 | deleting the cycle's classes one by one removes exactly their ids |
| Cascade.DropStudentsOfAllKeys | index.tsx:1060-1065 | deleting each class's students removes exactly the ids collected for some class |
| Cascade.DeleteCycle | index.tsx:1057-1066 | deleting a cycle removes the cycle record; sessions and documents are untouched; survivors are unchanged |
| Cascade.DeleteCycleClasses | index.tsx:1058-1061 | a class record survives exactly when no listed class of the cycle has its id |
| Cascade.DeleteCycleStudents | index.tsx:1058-1065 | a student survives exactly when no listed class of the cycle carries its class name |
| Cascade.ConfirmDelete | index.tsx:1046-1071 | no delete touches sessions or documents, only a cycle delete touches cycles, and surviving students are unchanged |
| Documents.Children | index.tsx:1859 | a folder's children are exactly the listed documents whose parent is that folder |
| Documents.Below | index.tsx:1858-1864 | `findChildren(pid)` with depth left reports every listed document whose parent is `pid` |
| Documents.Walk | index.tsx:1860-1863 | the walk over siblings reports each sibling's id |
| Documents.BelowSound | index.tsx:1857-1864 | everything the recursive walk finds lies on a chain of folders below the start |
| Documents.BelowComplete | index.tsx:1857-1864 | everything on such a chain within the depth bound is found |
| Documents.BelowIff | index.tsx:1857-1864 | the walk finds exactly the documents below the folder |
| Documents.DeleteIds | index.tsx:1856-1864 | the target comes first; a file deletes only itself |
| Documents.DeleteDocumentKeys | index.tsx:1854-1872 | a stored document survives exactly when it is neither the target nor, for a folder, below it |
| Documents.DeleteDocument | index.tsx:1854-1872 | deleting never adds or alters a record: every surviving document is stored unchanged |
| Documents.FileDeletedAlone | index.tsx:1864-1868 | deleting a file removes only that file |
| Attendance.FindClass | index.tsx:1594 | `find` returns the first class with that id, or nothing when none has it |
| Attendance.Roster | index.tsx:1597-1607 | one `present` record per listed student of the class, in list order |
| Attendance.RosterIds | index.tsx:1597-1607 | the roster covers exactly the listed students of the class |
| Attendance.CreateSession | index.tsx:1592-1614 | no selection or an unknown class creates nothing; otherwise a session for the class's name and cycle, with its all-present roster and empty notes, is saved |
| Attendance.UpdateAttendance | index.tsx:1638-1644 | only the named student's records change status; ids, notes, order and length are kept; with no session nothing happens |
| Attendance.UpdateIdempotent | index.tsx:1638-1644 | setting the same mark twice is setting it once |
| Attendance.UpdateCommutes | index.tsx:1638-1644 | marks for different students commute |
| Attendance.Records | index.tsx:2054-2059 | the records visited by the nested `forEach` are exactly the records of the sessions |
| Attendance.RecordsAppend | index.tsx:2054-2059 | the records of two session lists are the records of each, in order |
| Attendance.CountStatus | index.tsx:2054-2059 | the running count of records with a status is at most the number of records |
| Attendance.Absences | index.tsx:2063-2070 | a student's absence tally is at most the number of records |
| Attendance.CountsAreFilters | index.tsx:2054-2070 | the running counts equal the number of records a `filter` on the same test keeps |
| Attendance.CountAppend | index.tsx:2054-2070 | present and absence counts add up over concatenated records |
| Attendance.SessionAddsCounts | index.tsx:2054-2070 | one more session adds exactly its own present and absent marks to the tallies |
| Attendance.Rate | index.tsx:2061 | the rate is 0 without records, otherwise `100·present/total` rounded half up, and never above 100 |
| Attendance.RateExact | index.tsx:2061 | a whole percentage is returned exactly |
| Attendance.RateExamples | index.tsx:2061 | 1 of 3 gives 33, 2 of 3 give 67, 1 of 8 (12.5) gives 13 |
| Attendance.SessionsInMonth | index.tsx:2049 | the sessions counted this month are exactly those whose date starts with the month |
| Attendance.Candidates | index.tsx:2073-2078 | the at-risk candidates are exactly the listed students with more than three absences, each with their own tally; at most one entry per listed student, and distinct when the students are |
| Attendance.Insert | index.tsx:2079 | inserting keeps the list sorted, most absences first, and adds exactly the new entry |
| Attendance.SortDesc | index.tsx:2079 | the sort yields a list sorted most absences first with the same entries |
| Attendance.InsertPermutes | index.tsx:2079 | inserting adds exactly one copy of the entry |
| Attendance.SortPermutes | index.tsx:2079 | sorting is a permutation |
| Attendance.AtRisk | index.tsx:2072-2080 | at most five entries, most absences first, each a listed student with more than three absences and their true tally |
| Attendance.AtRiskFromCandidates | index.tsx:2072-2080 | the at-risk list takes its entries from the candidates, none more often than there, and holds five of them, or all when fewer qualify |
| Attendance.AtRiskTop | index.tsx:2072-2080 | a qualifying student is left out only when the list is full and everyone in it has at least as many absences |
| Attendance.CycleStats | index.tsx:2083-2090 | one entry per cycle, in order, counting the sessions held in that cycle |
| Attendance.CalculateStats | index.tsx:2037-2100 | the dashboard figures: student and class counts, this month's sessions, the rounded rate (at most 100), the at-risk list and the per-cycle session counts |

## Left out

- The IndexedDB layer (`openDB`, `dbAction`, `API`) is replaced by maps. Its asynchrony, transactions and partial failures are not modelled. Each handler's sequence of awaited writes is modelled as its final store.
- XLSX decoding and `FileReader` are left out. The model starts from decoded rows of cells, and a cell is blank, an integer or a text.
- Dates.NormalizeDate: fractional serials, and `Math.round` of the millisecond value, are not modelled. The free-text `new Date(str)` fallback is an opaque parameter.
- Numbers are shown with `String()` only for integers. Exponent and fraction formatting are not modelled.
- `toLowerCase` is modelled for ASCII letters only. Other characters are left unchanged.
- Fresh UUIDs are a supplied sequence: row `k` of the import slice (from row 15 in Massar mode) takes `ids[k]`. The Massar branch draws a UUID only for a row that passes its name test (index.tsx:981 returns before the call at 993), while the generic branch draws one for every row before its filter. The model differs only in which fresh id each student receives.
- `toLocaleTimeString` and the current month are parameters.
- Documents.Below: the walk takes a depth bound `fuel`. On a cycle of parent links the source's `findChildren` (index.tsx:1858-1864) recurses until the stack overflows, which throws before the delete loop at index.tsx:1867, so nothing is deleted; the model deletes what the bounded walk reaches instead. With acyclic parent links and a bound at least the tree's depth, the two agree.
- Attendance.Rate: the floating-point product `(present/total)*100` is modelled as the exact rational, so no binary rounding error is modelled.
- Attendance.SortDesc: stability is built into `Insert`, which places an entry after equal tallies. No lemma states it.
- `loadData`'s session sort by `Date` and all `localeCompare` orderings are display only.
- The remaining parts are UI and are not modelled: `SmartDocumentViewer`, photo upload, class creation, rendering, translations, alerts and navigation.
- Cascade.DeleteCycle: sessions of deleted classes stay in the store, as in the source.

## Findings

| source | as written | input that shows it | evidently intended | confidence | as-written member | corrected member |
|---|---|---|---|---|---|---|
| index.tsx:1030-1034 | the generic import stores `String(row[idxMassar])`; for a missing id cell that is the text `"undefined"`, which passes the keep-filter | the row `["EL AMRANI"]` under a mapping whose id column is 1 | a row without an id is dropped, as the keep-filter's check of the id intends | not executed | Import.BlankIdImported | Import.CorrectedGenericStudents |

`Import.Produce` and `Import.ExecuteImport` follow the code as written. `Import.CorrectedGenericStudents` is the generic import with the intended filter, and `Import.GenericStudentsHaveIds` proves the intended property about it.
