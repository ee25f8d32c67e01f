# SQLiteOptimierer: `LookForDoubles` in Dafny

This project models `Program.LookForDoubles` of SQLiteOptimierer and proves
properties of the model. `LookForDoubles` cleans the semicolon-separated
`Donts` lists of the `Templates` table in place and reports on them in
`duplicates.txt`.

A run has two passes over `Templates`.

1. **First pass.** For each row it reads the display name, `Donts` (null is
   read as the empty string) and `TemplateID`. It then:
   - splits `Donts` on `;`, dropping empty pieces;
   - reports the trimmed entries that occur more than once, compared with
     case;
   - builds `cleanedString`: the trimmed entries, duplicates removed ignoring
     case, first occurrence kept, joined with `;`;
   - writes `cleanedString` back with an `UPDATE` and reports it, but only
     when it differs from the stored value.
2. **Reference set.** Between the passes, the `Template` column of
   `GeneralDonts` is loaded into a case-insensitive hash set. Each value is
   trimmed; null and empty values are skipped. The size of the set is
   reported.
3. **Second pass.** It reads every row again, now with the cleaned values, and
   reports the entries that are also in the reference set. Nothing is written
   in this pass.

The modules follow the program's structure:

| file | module | what it holds |
|---|---|---|
| `wrappers.dfy` | `Wrappers` | `Option` |
| `text.dfy` | `Text` | the following .NET string operations: `Char.IsWhiteSpace`, `Trim`, the `Ordinal` and `OrdinalIgnoreCase` comparers, `string.Join`, `Int32.ToString` |
| `linq.dfy` | `Linq` | the LINQ operators the method uses: `Distinct` with a comparer, `GroupBy`/`Where`/`Select` for repeated keys, `Where` against a set; with their reference descriptions (`FirstOccurrences`, `Count`, `Subsequence`) |
| `list_field.dfy` | `ListField` | the field codec: `Split(';', RemoveEmptyEntries)`, `Select(x => x.Trim())`, `string.Join(";", …)` |
| `cleaning.dfy` | `Cleaning` | the per-field duplicate report and `cleanedString` |
| `reports.dfy` | `Reports` | the report lines, their wording, and the `StreamWriter` over `duplicates.txt` |
| `templates.dfy` | `Templates` | the `Templates` rows, the display-name rule, the table with its `UPDATE`, and the first loop |
| `general_donts.dfy` | `GeneralDonts` | the case-insensitive `HashSet`, its loader, and the second loop |
| `program.dfy` | `Program` | `LookForDoubles` as a whole |
| `scenarios.dfy` | `Scenarios` | concrete fields worked through the pipeline |

The model is stated against plain functions:
- `CleanRows` is the table after the first pass.
- `PassALog` and `PassBLog` are the lines each pass writes.
- `RunReport` is the whole of `duplicates.txt`.

The methods that mutate the table and the writer are proved to produce exactly
these. The lemmas then say what the functions mean. The main ones:
- which lines appear, and why;
- the cleaned value is free of case-insensitive duplicates;
- the cleaned value keeps the first spelling of each entry, in order;
- cleaning a cleaned value changes it again exactly when an empty entry was
  kept beside other entries;
- the size line reads back as the set's size;
- an `UPDATE` keyed by the unique `TemplateID` touches one row.

### Behaviour of the code worth knowing

- `Split(';', RemoveEmptyEntries)` drops only pieces that are empty *before*
  trimming. A white-space-only piece such as `" "` becomes an empty entry.
  So `"A; ;B"` is rewritten to `"A;;B"`, and the next run rewrites that to
  `"A;B"`. The model keeps this behaviour:
  - `Cleaning.CleanIdempotentIff` says exactly when a second run writes
    again;
  - `Scenarios.BlankPieceScenario` shows the two rewrites.
- The duplicate report groups by the trimmed entry with the default,
  case-sensitive comparer. The kept entries are de-duplicated ignoring case.
  So `"A;a"` reports nothing but is still rewritten to `"A"`
  (`Scenarios.CaseOnlyScenario`).
- A value with no duplicates is still rewritten when it is not stored in
  canonical form. For example, `"A; B"` (a padded entry) becomes `"A;B"`, and
  so does a value with empty pieces such as `"A;;B"`
  (`Scenarios.PaddedEntryScenario`).
  A value already in canonical form is never rewritten
  (`Cleaning.CanonicalNotWritten`).
- The second pass only reports overlaps; it removes nothing. Every
  overlapping occurrence is reported, with no de-duplication. Because the
  second pass reads the already cleaned values, an entry still appears only
  once there (`Program.CleanedOverlapsOnce`).
- Only the `Donts` field and one reference column are handled.

## Model

| member | source | states |
|---|---|---|
| Text.UpperChar | Program.cs:55 | ignoring case maps each of `a`–`z` to its own capital (code point minus 32) and leaves every other character as it is |
| Text.Comparer.Key | Program.cs:55 | the comparison key of a string has the string's length; under `Ordinal` it is the string itself, under `OrdinalIgnoreCase` each character is upper-cased |
| Text.IgnoreCaseDistinguishesLetters | Program.cs:41-43 | the ordinal comparer used by `GroupBy` separates `"A"` from `"a"`; `OrdinalIgnoreCase` identifies them; neither identifies `"A"` with `"B"` |
| Text.LeadingWhite | Program.cs:54 | the length of the white-space run at the start: everything before it is white space and the next character is not |
| Text.TrailingWhite | Program.cs:54 | the length of the white-space run at the end, with the same two properties |
| Text.Trim | Program.cs:54 | `Trim()` gives a string with no white space at either end, made of the input's characters, and empty exactly when the input is all white space |
| Text.TrimIsSlice | Program.cs:54 | `Trim()` returns the slice of the input between a white-space prefix and a white-space suffix; with `Text.Trim` the slice starts and ends with a non-white character, so it is exactly the middle part |
| Text.TrimOfTrimmed | Program.cs:54 | trimming a string with no white space at its ends changes nothing |
| Text.TrimIdempotent | Program.cs:54 | trimming twice equals trimming once |
| Text.JoinLength | Program.cs:59 | `string.Join` of n strings is their total length plus n−1 separators |
| Text.NatToString | Program.cs:94-95 | the decimal text of a count is digits only, with no leading zero |
| Text.IntToString | Program.cs:38 | the text of `GetInt32(2).ToString()` starts with `-` exactly when the id is negative, and the digits (after the sign) read back as the id's absolute value |
| Text.NatToStringRoundTrip | Program.cs:94-95 | the decimal text of a number reads back as that number |
| Linq.CountMember | Program.cs:42 | an element is counted at least once exactly when it is in the list |
| Linq.CountTwice | Program.cs:42 | a count of two or more means two distinct positions hold the element |
| Linq.RepeatedBreaksNoDuplicates | Program.cs:42 | an element occurring twice leaves a list with two equal elements under any comparer |
| Linq.NoDuplicatesKeyCount | Program.cs:78 | a list with no two elements equal under the comparer has as many comparison keys as elements |
| Linq.DistinctIsFirstOccurrences | Program.cs:55 | `Distinct` equals the reference description: the elements at positions with no earlier equal element, in order |
| Linq.FirstOccurrencesMembers | Program.cs:55 | an element is among the first occurrences exactly when some position holds it and no earlier position holds an equal one |
| Linq.FirstOccurrencesSubsequence | Program.cs:55 | the first occurrences are the input with some elements left out, order kept |
| Linq.FirstOccurrencesKeys | Program.cs:55 | the first occurrences have the input's comparison keys and no two equal elements |
| Linq.DistinctSnoc | Program.cs:55 | one more element is kept by `Distinct` exactly when its key is new |
| Linq.DistinctSpec | Program.cs:55 | `Distinct` keeps no two equal elements, keeps order, keeps exactly the first occurrences, loses no key and never grows |
| Linq.NoDuplicatesDistinctIdentity | Program.cs:55 | `Distinct` leaves a duplicate-free list unchanged |
| Linq.DistinctIdempotent | Program.cs:55 | `Distinct` twice equals `Distinct` once |
| Linq.GroupByCounts | Program.cs:41 | `GroupBy` yields one group per distinct key, in first-occurrence order, each with the number of elements that have that key |
| Linq.RepeatedGroupKeysMembers | Program.cs:42-43 | `Where(g => g.Count() > 1).Select(g => g.Key)` gives exactly the keys of groups with more than one element |
| Linq.RepeatedGroupKeysOrder | Program.cs:42-43 | those keys come in group order |
| Linq.RepeatedKeysSpec | Program.cs:41-43 | the repeated keys are exactly the values occurring at least twice, each once, in first-occurrence order |
| Linq.WhereKeyInSpec | Program.cs:110 | `Where(x => set.Contains(x))` keeps order and keeps every occurrence of a value in the set and none of a value outside it |
| Linq.WhereKeyInMembers | Program.cs:110 | a value is kept exactly when it occurs and its key is in the set |
| ListField.SplitAll | Program.cs:40 | `Split(';')` gives at least one piece and no piece holds `;` |
| ListField.JoinSplitAll | Program.cs:40 | joining the pieces back with `;` gives the original string |
| ListField.SplitAllJoin | Program.cs:40 | splitting a `;`-join of pieces free of `;` gives those pieces back |
| ListField.RemoveEmpty | Program.cs:40 | with `RemoveEmptyEntries` no piece is empty |
| ListField.RemoveEmptySpec | Program.cs:40 | dropping empty pieces keeps order and total length; it changes nothing when no piece is empty and shortens the list otherwise |
| ListField.RemoveEmptyMembers | Program.cs:40 | a piece survives exactly when it occurs and is non-empty |
| ListField.Pieces | Program.cs:40 | each piece of a stored field is non-empty and free of `;` |
| ListField.Decode | Program.cs:53-54 | each entry of a field is trimmed and free of `;` |
| ListField.TrimAllOfTrimmed | Program.cs:54 | `Select(x => x.Trim())` leaves already trimmed entries unchanged |
| ListField.PiecesOfEncode | Program.cs:40-59 | splitting a joined list gives the list without its empty entries |
| ListField.DecodeOfEncode | Program.cs:53-59 | decoding a joined list of trimmed, `;`-free entries gives it back without empty entries, exactly when none is empty |
| ListField.DecodeNormalizes | Program.cs:53-59 | decode, join, decode equals one decode minus its empty entries |
| ListField.BlankPieceDecodesToEmptyEntry | Program.cs:37-54 | a field holding only a blank decodes to one empty entry; the empty field (also a null `Donts`) decodes to none |
| ListField.DecodeEmptyEntry | Program.cs:53-54 | an empty entry appears exactly when some piece is all white space |
| Cleaning.DuplicateKeysSpec | Program.cs:41-43 | the duplicate report is exactly the entries occurring at least twice compared with case, each once, in first-occurrence order |
| Cleaning.CleanedTokensSpec | Program.cs:53-57 | the kept entries: no two equal ignoring case; in order; exactly the first occurrences, in their own spelling; every entry has a kept equal; all trimmed and free of `;` |
| Cleaning.DecodeOfClean | Program.cs:53-59 | reading `cleanedString` back gives the kept entries without the empty one |
| Cleaning.CleanedValueHasNoDuplicates | Program.cs:53-59 | a cleaned value holds no two entries equal ignoring case and no empty entry |
| Cleaning.CleanIdempotentIff | Program.cs:53-62 | cleaning the cleaned value changes nothing exactly when the kept entries hold no empty entry, or only it |
| Cleaning.CleanEmpty | Program.cs:37-62 | an empty or null field cleans to the empty string, so it is never written |
| Cleaning.UnchangedMeansClean | Program.cs:59-62 | a field left unwritten holds no entries equal ignoring case and no blank entry |
| Cleaning.CanonicalNotWritten | Program.cs:53-62 | a value whose entries have no duplicates ignoring case and that is stored exactly as they join is never rewritten |
| Cleaning.ReportedDuplicatesForceWrite | Program.cs:41-62 | a field with reported duplicates is always rewritten |
| Cleaning.CleanIdempotent | Program.cs:53-62 | with no blank piece, a second run does not write the field again |
| Reports.LinesAppend | Program.cs:45-73 | the text of lines written one group after another is the two texts in sequence |
| Reports.LoadedCountReadsBack | Program.cs:94-95 | in the text `GeneralDonts geladen: … Werte`, the digits between prefix and suffix denote the count |
| Reports.ReportFile.constructor | Program.cs:31-32 | the report file, opened for overwriting, starts empty |
| Reports.ReportFile.WriteLine | Program.cs:32-116 | writing a line appends exactly that line and its text |
| Templates.DisplayName | Program.cs:29 | a non-null, non-empty name is the display name; otherwise the template (possibly null) is; so it is null exactly when the name is null or empty and the template is null |
| Templates.ReadablePrefix | Program.cs:34-38 | the reader gets no further than the number of rows |
| Templates.ReadablePrefixSpec | Program.cs:34-38 | every row before the stopping point is readable by its query and the row at the stopping point is not |
| Templates.CleanRowSpec | Program.cs:62-68 | after the first pass a row's `Donts` is the cleaned value and everything else is unchanged; the row changes exactly when it is written; a null `Donts` is never written |
| Templates.CleanRowHasNoDuplicates | Program.cs:53-68 | a row after the first pass holds no entries equal ignoring case and no empty entry |
| Templates.SecondWriteIff | Program.cs:53-68 | a second run rewrites a row exactly when its kept entries contain an empty entry among others |
| Templates.CleanRows | Program.cs:34-75 | the first pass keeps the number of rows |
| Templates.RowReportsCleaned | Program.cs:62-73 | a row gives a `bereinigt` line exactly when it is written, with its id and the cleaned value |
| Templates.RowReportsDuplicates | Program.cs:45-50 | a row gives a `hat Dubletten` line exactly when it has repeated entries, with its display name and those entries |
| Templates.PassALogCleanedLines | Program.cs:34-75 | the first pass writes one `bereinigt` line for each rewritten row, and no others |
| Templates.PassALogDuplicateLines | Program.cs:34-75 | the first pass writes one `hat Dubletten` line for each row with repeated entries, and no others |
| Templates.PassALogKinds | Program.cs:34-75 | the first pass writes only those two kinds of line |
| Templates.WithDonts | Program.cs:64-68 | the `UPDATE` keeps the number of rows |
| Templates.WithDontsTouchesOneRow | Program.cs:64-68 | with unique `TemplateID`s, `UPDATE … WHERE TemplateID = @id` changes just that row's `Donts` and keeps the ids unique |
| Templates.TemplatesTable.constructor | Program.cs:64-68 | a table is made from rows with unique ids |
| Templates.WithDontsKeepsIds | Program.cs:64-68 | the `UPDATE` changes no `TemplateID` |
| Templates.TemplatesTable.SetDonts | Program.cs:64-68 | the table after the `UPDATE` is the rows with that id's `Donts` set, and its ids stay unique |
| Templates.ReportDuplicates | Program.cs:41-50 | one row's duplicate check appends its `hat Dubletten` line, if any |
| Templates.WriteCleaned | Program.cs:59-73 | one row's rewrite stores the cleaned row and appends its `bereinigt` line, if the value changed |
| Templates.CleanRecord | Program.cs:36-73 | one iteration of the first loop cleans row k and appends that row's lines |
| Templates.CleanDuplicates | Program.cs:34-75 | the first loop cleans every row up to the first unreadable one, leaves the rest, writes exactly the lines of those rows, and says whether it read every row |
| GeneralDonts.CaseInsensitiveSet.constructor | Program.cs:78 | the `HashSet` starts empty |
| GeneralDonts.CaseInsensitiveSet.Contains | Program.cs:110 | `Contains` holds exactly when an element equal ignoring case is stored |
| GeneralDonts.CaseInsensitiveSet.Count | Program.cs:94 | `Count` is the number of distinct keys stored |
| GeneralDonts.CaseInsensitiveSet.Add | Program.cs:89 | `Add` stores a value exactly when no equal one is present, keeping the first spelling; either way its key is then in the set |
| GeneralDonts.TrimmedCells | Program.cs:85-87 | one trimmed text per reference row |
| GeneralDonts.CandidatesSpec | Program.cs:83-90 | the values offered to `Add` are exactly the non-empty trimmed non-null cells |
| GeneralDonts.ReferenceKeysSpec | Program.cs:78-92 | a value is in the reference set exactly when some non-null cell trims to a non-empty value equal to it ignoring case |
| GeneralDonts.LoadGeneralDonts | Program.cs:78-92 | the loader's set holds the distinct candidates, first spelling kept, and its keys are the reference keys |
| GeneralDonts.OverlapEntriesSpec | Program.cs:106-110 | the overlaps of a field keep order, and keep every occurrence of an entry in the set and none of one outside it |
| GeneralDonts.OverlapEntriesFound | Program.cs:110-112 | a field has overlaps exactly when one of its entries is in the set |
| GeneralDonts.OverlapReportLine | Program.cs:112-117 | a row gives a `hat Überschneidungen` line exactly when it has overlaps, with its display name and those entries |
| GeneralDonts.PassBLogLines | Program.cs:101-118 | the second pass writes one such line for each row with overlaps, and no others |
| GeneralDonts.ReportOverlaps | Program.cs:103-117 | one row of the second loop appends its overlap line, if any |
| GeneralDonts.FindOverlaps | Program.cs:101-118 | the second loop writes exactly the overlap lines of the rows up to the first unreadable one, and says whether it read every row |
| Program.CleanedRowsReadable | Program.cs:98-103 | when the first query reads every row, so does the second, since cleaning keeps the display name |
| Program.CleanedOverlapsOnce | Program.cs:53-110 | in the second pass no two reported overlaps of a row are equal ignoring case |
| Program.RunReportCleanedLines | Program.cs:26-118 | a complete run writes one `bereinigt` line per rewritten row, and no others |
| Program.RunReportLoadedLine | Program.cs:26-118 | a complete run writes exactly one size line, giving the size of the reference set |
| Program.RunReportOverlapLines | Program.cs:26-118 | a complete run writes one overlap line per row whose cleaned value meets the reference set, and no others |
| Program.ReportReferences | Program.cs:78-118 | after the first loop: the size line, then the overlap lines of every row |
| Program.LookForDoubles | Program.cs:26-118 | the run cleans every row up to the first unreadable one; it writes the full report when every row was read, and otherwise only the first pass's lines for the rows read |
| Scenarios.GroupByFive | Program.cs:41 | `GroupBy` of `A;B;A;c;C` gives `A` twice, then `B`, `c` and `C` once each |
| Scenarios.GroupByExample | Program.cs:41-43 | for entries `A;B;A;c;C` only `A` is reported as repeated |
| Scenarios.DistinctExample | Program.cs:55 | for the same entries the kept entries are `A;B;c` |
| Scenarios.DuplicateScenario | Program.cs:40-59 | `"A;B;A;c;C"` reports `A` as repeated and cleans to `"A;B;c"` |
| Scenarios.CaseOnlyScenario | Program.cs:41-59 | `"A;a"` reports nothing and cleans to `"A"` |
| Scenarios.DecodeBlankPiece | Program.cs:53-54 | `"A; ;B"` decodes to `A`, an empty entry, `B` |
| Scenarios.DecodeEmptyEntryExample | Program.cs:53-54 | `"A;;B"` decodes to `A`, `B` |
| Scenarios.PaddedEntryScenario | Program.cs:40-62 | `"A; B"` reports no duplicate and is still rewritten, to `"A;B"` |
| Scenarios.BlankPieceScenario | Program.cs:53-62 | `"A; ;B"` cleans to `"A;;B"`, which cleans again to `"A;B"` |

## Left out

- SQLite:
  - the connection, the commands and the readers are not modelled;
  - the table is a sequence of rows, the reference column a sequence of
    nullable strings;
  - the `UPDATE`'s string `@id` is compared as the integer `TemplateID`, as
    SQLite's type affinity does.
- Console output (`Console.WriteLine` of every message) and the closing
  `Fertig` line are not modelled: they go to the console only.
- File I/O and encoding: `duplicates.txt` is the sequence of written
  `ReportLine`s; `Reports.ReportFile.Text` gives their wording.
- The schema export before `LookForDoubles` and the commented-out `VACUUM`
  are outside the model, as are `LogWriter.cs` and `IniRW.cs`.
- Exceptions: reading a null display name (`GetString(0)`) or a `TemplateID`
  outside 32 bits (`GetInt32(2)`) stops the run. The model stops the loop
  there and returns `ok == false`. The rows updated before that point stay
  updated, since nothing runs in a transaction. The report is modelled as the
  lines handed to the writer. `Program.cs` has no `catch`, and the
  `StreamWriter` buffers, so after an unhandled exception the file may hold
  only a prefix of those lines.
- `TemplateID` is taken to be the key of `Templates`: unique, and never null.
  `Templates.TemplatesTable.Valid` states the uniqueness. The source never
  shows the schema. With repeated ids the `UPDATE` would rewrite every row
  with that id. A null `TemplateID`, on which `GetInt32(2)` throws, is not
  represented, because `TemplateRow.templateId` is an `int`.
- Text.UpperChar: upper-cases ASCII letters only, not the full Unicode
  mapping `OrdinalIgnoreCase` applies; strings are sequences of `char`,
  without UTF-16 surrogate handling.
- Linq.GroupByCounts: a group is its key and element count, not its elements;
  only the count and the key are used.
- GeneralDonts.FindOverlaps: gets the reference set's keys once, as a value;
  the set is not changed by the second pass.
- Templates.CleanDuplicates: the rows being read and the rows being updated
  are one sequence. The reader does not see updates to rows it has already
  passed, and updates to rows ahead of it do not occur.
