# CSV table store: registry, locks, keys, pages and queries

A model of the two iterations of a small CSV-backed table store and proofs
about it. The two iterations are kept apart, as in the repository.

- **Single-file iteration (`Skelet.cpp`)**:
  - an in-memory registry of tables. It is a linked list headed by
    `tableHead` in which every node has a lock flag that `locker` toggles.
  - `createFiles`, which writes each table's files and registers it.
  - `insert`, which reads a table's CSV document. It either overwrites the
    row keyed `rowCount+1` or appends a new row with that key.
  - the query side: `findColumnIndex`, `getColumnValue`,
    `checkWhereCondition`, the index selection and value cleaning of
    `printColumns`, and the parsing done by `select`.
- **Paged iteration (`insert.cpp`)**:
  - `TableExist`;
  - the text lock, `isloker`/`loker`;
  - the primary-key counter file;
  - the count of pages `1.csv`, `2.csv`, …, and the choice of page in
    `createNewCsvFile`;
  - `insert`: it validates the command, locks the table, bumps the key,
    writes the quoted values as one CSV row, and unlocks.

Modules:

- `CppStream`: the C++ stream operations the code parses everything with.
  These are `std::getline` with a delimiter and `operator>>` into a string
  on a string stream, modelled as `IStream` values. Both follow libstdc++'s
  flag and target rules. Over a whole text they read `Fields(s, d)` and
  `Tokens(s)`.
- `CppNumbers`: `std::stoi`, `>>` into an `int`, `std::to_string`, `<<` on
  an `int`, and 32-bit wrap-around.
- `SkeletRegistry`: the table list as a sequence, and the
  functions that specify its searches and its lock toggle.
- `SkeletStore`: class `Database`. Its fields are the list `tableHead`, the
  CSV documents (`csvFiles`) and the plain text files (`textFiles`). Its
  methods are `isLocked`, `locker`, `isTableExist`, `addTable`,
  `createFiles` and `insert`.
- `SkeletQuery`: the query functions and loops of `Skelet.cpp`.
- `PagedCommand`: the command reading and the row-writing loop of
  `insert.cpp`.
- `PagedStorage`: class `Storage`, whose field `files` maps each lock, key
  or page file of a schema to its text. Its methods are `isloker`,
  `loker`, `findCsvFileCount`, `createNewCsvFile` and `insert`.

Throughout the model:

- A file that cannot be opened for reading is one missing from the map.
- A failed open for writing is a `Faults` parameter.
- Output printed by `printColumns`/`select` is returned as values.

Where the repository's design description and the code differ, the model
follows the code:

- The paged `insert` only appends. It never updates a row by key.
- The lock is not released on the early returns after locking. A
  key-file or page-file open failure leaves the table locked.
- The values are the text between single quotes, with the command's words
  glued together. Blanks inside a quoted value are therefore dropped.
- `checkWhereCondition` knows only one `=` clause. `select` never applies
  the WHERE text it finds.
- `printColumns` prints the selected columns in header order, not in the
  order they were requested.
- The data loop of `printColumns` reads the wrong field for every selected
  column after the first (see "## Findings"). `PrintColumns` takes a flag,
  `asWritten`, that chooses between the loop as written and the corrected
  loop, and its contract states the rows for each.
- The single-file iteration's lock file holds `Status: unlocked`.

## Model

| member | source | states |
|---|---|---|
| CppStream.Getline | Skelet.cpp:227 | one `getline` on a valid stream fails exactly when no field is left; otherwise it yields the next pending field and leaves the rest pending, and a failed one leaves nothing pending |
| CppStream.Extract | insert.cpp:136 | one `>>` fails exactly when no word is left; otherwise it yields the next whitespace-delimited word; on failure the target keeps its old value |
| CppStream.GetlineStep | Skelet.cpp:325 | a loop's `getline` advances the count of fields consumed by one and returns the field at that count while any is left |
| CppStream.ExtractStep | insert.cpp:157 | a loop's `>>` returns the word at the count consumed, or leaves the target unchanged once the words are exhausted |
| CppStream.ReadFields | Skelet.cpp:128-132 | `while (getline(ss, value, ','))` collects exactly `Fields(values, ',')` |
| CppStream.FieldsOfJoin | Skelet.cpp:175-184 | splitting a join of delimiter-free strings (last one non-empty) on the delimiter gives back the strings |
| CppStream.FieldsHaveNoDelimiter | Skelet.cpp:227 | no field read by `getline` holds the delimiter |
| CppStream.TokensOfJoin | insert.cpp:134-159 | the words of blank-joined words are those words |
| CppStream.TokensAreWords | insert.cpp:157 | every word `>>` reads is non-empty and holds no whitespace |
| CppStream.RemoveSpacesErases | Skelet.cpp:253-254 | erasing `isspace` characters leaves none, never lengthens, and changes nothing in a text without any |
| CppStream.RemoveCharErases | Skelet.cpp:384 | `erase(remove(...,' '))` leaves no blank and changes nothing in a text without one |
| CppStream.ConcatOfTokensHasNoSpace | insert.cpp:156-159 | gluing words read by `>>` gives a text without whitespace |
| CppNumbers.NatTextValue | Skelet.cpp:149 | `to_string` of a natural number reads back as that number |
| CppNumbers.Stoi | Skelet.cpp:138 | `stoi` yields the leading integer when it fits in an `int` and fails (throws) otherwise |
| CppNumbers.StreamInt | insert.cpp:181 | `>>` into an `int` yields the leading integer, 0 for none, and clamps an out-of-range one into `int` |
| CppNumbers.Wrap32 | insert.cpp:189 | `++` on an `int` stays in range, is exact in range and agrees modulo 2^32 |
| CppNumbers.StoiOfText | Skelet.cpp:137-138 | `stoi` reads back the text `to_string` wrote |
| CppNumbers.StreamIntOfText | insert.cpp:181-190 | `>>` reads back the counter `<<` wrote |
| SkeletRegistry.FirstMatch | Skelet.cpp:56-65 | the list searches stop at the first node with the name, or at the end |
| SkeletRegistry.LockedIn | Skelet.cpp:56-65 | `isLocked` is the flag of the first node with the name, and false for an unregistered name |
| SkeletRegistry.ToggledChangesOnlyFirstMatch | Skelet.cpp:68-77 | `locker` flips the lock of the first matching node only; names, files and all other nodes stay; with no match nothing changes |
| SkeletRegistry.ToggledTwice | Skelet.cpp:68-77 | two `locker` calls restore the list |
| SkeletRegistry.PrependedShadows | Skelet.cpp:160-164 | after `addTable` the name is registered, found at the head and unlocked; other names keep their registration and lock |
| SkeletStore.StopRowStops | Skelet.cpp:136-145 | the scan of `insert` passes only readable keys that differ from `rowCount+1` and stops at an unreadable or matching one |
| SkeletStore.SetCell | Skelet.cpp:140 | `SetCell` writes one cell, growing the row when needed, and leaves the other cells |
| SkeletStore.Overwritten | Skelet.cpp:139-141 | cells `0..n-1` take the new values, later cells stay |
| SkeletStore.InsertAppends | Skelet.cpp:135-151 | a row is appended exactly when no row's key equals `rowCount+1`; the new last row is `[rowCount+1]` followed by the comma-split values, and earlier rows stay |
| SkeletStore.InsertOverwrites | Skelet.cpp:135-145 | on a match the row count is unchanged, only the first matching row changes, and only in its cells `0..n-1` |
| SkeletStore.InsertAborts | Skelet.cpp:136-138 | a missing key cell or a key `stoi` rejects aborts with the rows unchanged, exactly when the scan meets one before any match |
| SkeletStore.OverwriteRow | Skelet.cpp:139-141 | the `SetCell` loop produces `Overwritten(row, values)` |
| SkeletStore.ScanKeys | Skelet.cpp:136-145 | the scan loop stops at `StopRow` |
| SkeletStore.ApplyInsert | Skelet.cpp:127-151 | the split, scan and overwrite-or-append of `insert` give `InsertRows` |
| SkeletStore.HeaderLine | Skelet.cpp:175-184 | the header written is `"PrimaryKey,"` followed by the columns joined with `,` |
| SkeletStore.HeaderFields | Skelet.cpp:175-184 | that header reads back as `PrimaryKey` followed by the column names |
| SkeletStore.CreatedStep | Skelet.cpp:168-191 | one table of `createFiles` adds its node, its empty document and its lock and key files |
| SkeletStore.CreatedFilesOfTable | Skelet.cpp:167-193 | after `createFiles` with distinct names, each table has its header document, `Status: unlocked` lock file and `Primary Key: 1` key file |
| SkeletStore.Database.IsLocked | Skelet.cpp:56-65 | returns the first matching node's flag, false when unregistered |
| SkeletStore.Database.Locker | Skelet.cpp:68-77 | the list becomes `Toggled(list, name)`; files unchanged |
| SkeletStore.Database.IsTableExist | Skelet.cpp:80-90 | true exactly when a node has the name |
| SkeletStore.Database.AddTable | Skelet.cpp:160-164 | prepends an unlocked node; the name is then registered and unlocked |
| SkeletStore.Database.Insert | Skelet.cpp:105-156 | nothing changes for a missing or locked table; otherwise the table ends unlocked with the document updated by `InsertRows`, or ends locked when the document is missing or the scan aborts |
| SkeletStore.Database.CreateFiles | Skelet.cpp:167-193 | prepends the created nodes and adds the created documents and text files |
| SkeletStore.Database.CreateTable | Skelet.cpp:169-191 | one table's lock file, header document, key file and registry node |
| SkeletQuery.FirstIndex | Skelet.cpp:227-233 | the position of the first equal field, or the length |
| SkeletQuery.FindColumnIndex | Skelet.cpp:223-234 | the index of the first header field equal to the name, or `(size_t)-1` when none is |
| SkeletQuery.ReadFieldTimes | Skelet.cpp:242-244 | `n` `getline`s yield the n-th pending field and leave the rest |
| SkeletQuery.GetColumnValue | Skelet.cpp:237-248 | the line's field at the column's index, `""` for an absent column |
| SkeletQuery.StripQuotes | Skelet.cpp:267-269 | one pair of enclosing single quotes is removed, a lone quote becomes empty, anything else is kept |
| SkeletQuery.CheckWhereCondition | Skelet.cpp:251-286 | false without `=`; true with a non-empty literal only when a `таблица1.`/`таблица2.` column of the matching line holds it |
| SkeletQuery.ConditionSidesOf | Skelet.cpp:253-269 | a `left=right` condition splits at its `=` with the right side unquoted |
| SkeletQuery.QualifierOf | Skelet.cpp:273-276 | `qualifier.column` splits at its first dot |
| SkeletQuery.WhereOnFirstTable | Skelet.cpp:251-286 | `таблица1.col='lit'` holds exactly when line1's `col` value is `lit` |
| SkeletQuery.WhereOnUnknownTable | Skelet.cpp:272-285 | with another qualifier or none, the condition holds exactly when the literal is empty |
| SkeletQuery.CleanValueOf | Skelet.cpp:380-385 | a printed value has no blank, loses its enclosing double quotes, and is otherwise as stored |
| SkeletQuery.SelectIndexes | Skelet.cpp:318-339 | the selected positions are strictly increasing, each names a requested column, and every requested header field is selected |
| SkeletQuery.SelectStep | Skelet.cpp:325-339 | one header field read keeps the scan's invariant |
| SkeletQuery.SelectKeeps | Skelet.cpp:326-338 | selecting a field exactly when it is requested keeps the selection ascending, requested and complete |
| SkeletQuery.IsRequested | Skelet.cpp:326-337 | the inner loop finds a field exactly when it is among the requested names |
| SkeletQuery.SkipFields | Skelet.cpp:372-375 | the skip loop consumes one field per step up to the target |
| SkeletQuery.ReadAt | Skelet.cpp:372-377 | after the skip, the `getline` yields the field at the position reached |
| SkeletQuery.ShowAt | Skelet.cpp:372-388 | the value read is cleaned in place and shown; the cleaned value is what the next column starts from |
| SkeletQuery.ProjectLineAsWritten | Skelet.cpp:362-391 | as written, the k-th selected column shows the cleaned field `k` places to its right |
| SkeletQuery.AsWrittenStep | Skelet.cpp:370-390 | one selected column of the loop as written keeps its invariant |
| SkeletQuery.ProjectLine | Skelet.cpp:362-391 | with the field read counted, each selected column shows its own cleaned field |
| SkeletQuery.ProjectStep | Skelet.cpp:370-390 | one selected column of the corrected loop keeps its invariant |
| SkeletQuery.ProjectLineCounterexample | Skelet.cpp:318-391 | the header `PrimaryKey,a,b,c` selects positions 1 and 2 for the request `a b`; on the row `key,x,y,z` the loop as written then prints `x,z` where `x,y` is meant |
| SkeletQuery.SelectAB | Skelet.cpp:318-339 | the selection made for the request `a b` under the header `PrimaryKey,a,b,c` is positions 1 and 2 |
| SkeletQuery.SelectionOfAB | Skelet.cpp:318-339 | an ascending, requested and complete selection for that header and request can only be positions 1 and 2 |
| SkeletQuery.PlainFieldPrints | Skelet.cpp:380-385 | a field without comma, blank or double quote prints as stored |
| SkeletQuery.SelectedIsFirstMatch | Skelet.cpp:318-339 | a selected column whose name is not repeated earlier is the first header field with that name |
| SkeletQuery.HeaderOfSelection | Skelet.cpp:342-354 | the header printed is the requested columns in header order, each found by `findColumnIndex` at its own position |
| SkeletQuery.SelectedCovers | Skelet.cpp:325-339 | every requested header field appears in the printed header |
| SkeletQuery.SelectedFirstMatches | Skelet.cpp:325-339 | an unrepeated printed name's first header position is its selected position |
| SkeletQuery.RowsByName | Skelet.cpp:362-392 | under the k-th printed name, each printed row shows the field k places right of the name's first header position as the loop is written, and the field at that position itself in the corrected loop |
| SkeletQuery.ProjectHeader | Skelet.cpp:342-354 | the header loop prints the header field at each selected position |
| SkeletQuery.ProjectRows | Skelet.cpp:362-392 | one printed row per data line. Each row is that line's values as the loop is written (`ProjectLineAsWritten`) or in the corrected loop (`ProjectLine`) |
| SkeletQuery.RowStep | Skelet.cpp:364-392 | one data line read keeps the row loop's invariant, as written or corrected, and adds one row |
| SkeletQuery.PrintColumns | Skelet.cpp:307-400 | the printed columns are the requested header fields, each once, in header order (strictly ascending positions, each requested, every requested one included), and the header shows their names. There is one printed row per data line. As written, the k-th printed column shows the field k places right of its own; the corrected loop shows the column's own field |
| SkeletQuery.TrimBlanks | Skelet.cpp:432-437 | the trimming loops remove leading and trailing blanks only |
| SkeletQuery.WherePosition | Skelet.cpp:419-425 | the first `WHERE` starting before the last five positions, or none |
| SkeletQuery.FindWhere | Skelet.cpp:419-425 | the search loop finds `WherePosition` |
| SkeletQuery.FirstWordSkipped | Skelet.cpp:409-411 | after the first `>>` the text after the first word is left |
| SkeletQuery.GetlineUpTo | Skelet.cpp:414 | `getline(ss, columns, 'F')` reads up to the first `F` and leaves the words after it |
| SkeletQuery.TrimmedTokens | Skelet.cpp:439-445 | trimming blanks does not change the words of the column text |
| SkeletQuery.SplitColumns | Skelet.cpp:457-477 | the column loop keeps exactly the words of the column text |
| SkeletQuery.TrimmedWord | Skelet.cpp:461-466 | trimming a word read by `>>` leaves it as it is |
| SkeletQuery.ReadSelectParts | Skelet.cpp:409-416 | the stream reads give the column text and the table name |
| SkeletQuery.SelectPartsRead | Skelet.cpp:409-416 | the chain of reads on a fresh stream yields `ColumnText` and `SelectedTable` |
| SkeletQuery.SecondWordRead | Skelet.cpp:415-416 | two `>>` in a row read the second pending word, or leave the target |
| SkeletQuery.ColumnsRead | Skelet.cpp:411-414 | the first `>>` and the `getline` up to `F` read the column text |
| SkeletQuery.WordsLeftAfterColumns | Skelet.cpp:414 | after the column text, the words after the first `F` are pending |
| SkeletQuery.TableNameRead | Skelet.cpp:415-416 | the two `>>` after the columns read the table name |
| SkeletQuery.SelectedTableIsWord | Skelet.cpp:416 | the table name read holds no whitespace |
| SkeletQuery.AfterSelect | Skelet.cpp:411 | `>>` skips `SELECT` and leaves the blank-led rest |
| SkeletQuery.FromIsFirstF | Skelet.cpp:414 | when no column name holds `F`, the first `F` is the one of `FROM` |
| SkeletQuery.SelectedColumnsOf | Skelet.cpp:409-414 | `SELECT <cols> FROM …` selects exactly `cols` when no name holds `F` |
| SkeletQuery.SelectedTableOf | Skelet.cpp:409-416 | and reads the word after `FROM` as the table |
| SkeletQuery.WhereTextOf | Skelet.cpp:419-429 | the condition is the text after the first `WHERE ` when nothing before it holds `W` |
| SkeletQuery.WherePartOf | Skelet.cpp:419-429 | in `SELECT <cols> FROM <t> WHERE <c>` without other `W`, the condition is `c` |
| SkeletQuery.NoWhereText | Skelet.cpp:419-429 | a query without `W` has no condition |
| SkeletQuery.WellFormedSelect | Skelet.cpp:404-445 | a well-formed `SELECT <cols> FROM <t> WHERE <c>` parses into `cols`, `t` and `c` |
| SkeletQuery.ColumnStartingWithF | Skelet.cpp:413-416 | a first column starting with `F` ends the column list before it, and the table name read is `FROM` |
| SkeletQuery.ParseSelect | Skelet.cpp:404-477 | the reads, WHERE search, trimming and column split of `select` give `SelectSpec` |
| SkeletQuery.TrimTableName | Skelet.cpp:431-437 | trimming leaves the table name read |
| SkeletQuery.ColumnNames | Skelet.cpp:439-477 | the trimmed column text splits into its words |
| SkeletQuery.Select | Skelet.cpp:404-484 | a missing `<t>.csv` is reported; otherwise the named columns, or the whole table when none is named |
| PagedCommand.InsertCommandAccepts | insert.cpp:134-164 | the command is accepted exactly when word 2 is `INTO`, word 3 a known table, word 4 `VALUES` and the glued rest is in parentheses |
| PagedCommand.TableExist | insert.cpp:3-12 | true exactly when the table is in the list |
| PagedCommand.ParseInsert | insert.cpp:134-164 | the word-by-word reading of the command gives `InsertCommand` |
| PagedCommand.GlueWords | insert.cpp:156-159 | the loop glues the remaining words together |
| PagedCommand.EmittedSkips | insert.cpp:212-213 | characters outside quotes are dropped |
| PagedCommand.EmittedRun | insert.cpp:213-222 | a quoted run is written followed by `,` or, before `)` or at the end, a newline |
| PagedCommand.EmitRow | insert.cpp:212-224 | the row-writing loop writes `Emitted(values)` |
| PagedCommand.EmitAt | insert.cpp:213-223 | one step of that loop keeps its invariant and advances |
| PagedCommand.WriteRun | insert.cpp:214-222 | one quoted run and its separator are written |
| PagedCommand.CopyRun | insert.cpp:214-217 | the inner loop copies up to the closing quote |
| PagedCommand.EmittedHasNoQuote | insert.cpp:212-224 | the row written holds no single quote |
| PagedCommand.EmittedList | insert.cpp:211-224 | `('v1','v2',…)` is written as `v1,v2,…` and a newline |
| PagedCommand.EmittedNoValues | insert.cpp:212-224 | `()` writes nothing after the key |
| PagedCommand.EmittedListAfter | insert.cpp:212-224 | text without quotes before the list changes nothing |
| PagedCommand.EmittedPrefix | insert.cpp:212-213 | a quote-free prefix is dropped |
| PagedCommand.QuotedListNoSpace | insert.cpp:156-159 | a quoted list of blank-free values holds no whitespace |
| PagedCommand.WellFormedInsert | insert.cpp:134-164 | `INSERT INTO <t> VALUES ('v1',…)` for a known table is accepted with those values |
| PagedStorage.WordsOfState | insert.cpp:29-32 | `locked` and `unlocked` read back as themselves |
| PagedStorage.ToggleInverts | insert.cpp:50-60 | `loker` writes a text read as locked exactly when the old one was not |
| PagedStorage.ToggleTwice | insert.cpp:50-60 | two toggles restore the lock state, and the text itself when it was `locked` or `unlocked` |
| PagedStorage.LokerFlips | insert.cpp:35-62 | `loker` flips `isloker` and leaves all other files |
| PagedStorage.LokerTwice | insert.cpp:35-62 | two `loker` calls restore the lock, and the files when the text was `locked`/`unlocked` |
| PagedStorage.PageCountUnique | insert.cpp:84-108 | at most one k has pages `1..k` present and page `k+1` absent |
| PagedStorage.LastPageFromCounts | insert.cpp:88-104 | counting on from page n ends at such a k |
| PagedStorage.PageCountCounts | insert.cpp:84-108 | `PageCount` is that unique k |
| PagedStorage.ChosenPageRule | insert.cpp:118-123 | page k+1 is chosen exactly when page k holds at least `TableSize` data rows, page k otherwise |
| PagedStorage.NegativeSizeNeverFull | insert.cpp:112-119 | a negative `TableSize`, compared as a `size_t`, counts page k as full only from 2^64 + `TableSize` rows on |
| PagedStorage.WithPageCopiesHeader | insert.cpp:125-130 | a new page receives page 1's first word and a newline; existing files stay |
| PagedStorage.KeyReadBack | insert.cpp:181-190 | a counter written is read back, and the next key is it plus one (wrapping) |
| PagedStorage.PageEffectRule | insert.cpp:193-224 | the page step fails exactly when page k is absent or unwritable; otherwise the row `key,values` is appended to the chosen page |
| PagedStorage.PageEffectFrames | insert.cpp:193-227 | the page step changes only the chosen page and the lock. Every other page of the table, the key file and other tables stay, and a missing page to count in changes nothing |
| PagedStorage.KeyEffectRule | insert.cpp:173-191 | the key step fails exactly when the key file is absent or unwritable, and otherwise writes the next key |
| PagedStorage.InsertRefusals | insert.cpp:134-169 | a malformed command, an unknown table and a locked table are refused with no file changed |
| PagedStorage.InsertStages | insert.cpp:171 | after the first `loker` the key file, the pages and other tables are as before |
| PagedStorage.InsertKey | insert.cpp:173-191 | past the lock, the counter file then holds the next key |
| PagedStorage.InsertPage | insert.cpp:193-224 | past the key step, the row goes to the page `createNewCsvFile` chose, after its old text |
| PagedStorage.LockAfterLoker | insert.cpp:171 | the first `loker` writes `locked` |
| PagedStorage.InsertUnlocks | insert.cpp:171-227 | a fully successful insert ends with the table unlocked |
| PagedStorage.InsertFailureStaysLocked | insert.cpp:171-208 | an insert that fails after locking leaves the table locked |
| PagedStorage.InsertWithoutLockFile | insert.cpp:39-42 | without a lock file none is created |
| PagedStorage.InsertOthersUntouched | insert.cpp:133-228 | files of other tables never change |
| PagedStorage.InsertOthersAndLock | insert.cpp:133-228 | other tables stay and no lock file appears |
| PagedStorage.InsertedKey | insert.cpp:181-191 | the row's key is the new counter, and the counter file holds it |
| PagedStorage.InsertKeysAdvance | insert.cpp:181-191 | two successful inserts in a row use consecutive keys (modulo 2^32) |
| PagedStorage.Storage.IsLoker | insert.cpp:14-33 | true exactly when the lock file's first word is `locked` |
| PagedStorage.Storage.Loker | insert.cpp:35-62 | the files become `LokerEffect` of the old ones |
| PagedStorage.Storage.FindCsvFileCount | insert.cpp:84-108 | returns k with pages `1..k` present and page `k+1` absent |
| PagedStorage.Storage.CreateNewCsvFile | insert.cpp:110-131 | a missing current page aborts; otherwise the number becomes the chosen page, and a new page gets page 1's header |
| PagedStorage.Storage.Insert | insert.cpp:133-228 | the outcome and files are `InsertEffect` of the old files |

## Left out

- Console output, `main`'s interactive loop, `chcp` and the debug line of
  `isTableExist`. These are plumbing. `main`'s cutting of an `INSERT`
  command into a table name and values is plumbing too.
- `loadJson` and `createScheme`: JSON parsing. `createFiles` takes the
  structure as a sequence of (table, columns) pairs in the JSON object's
  iteration order.
- Hard-coded absolute paths and the building of path strings. A file is
  named by a `FilePath` value or by the file-name functions.
- The internals of the CSV library:
  - A document is its header line and a grid of rows.
  - `SetCell` pads only the row it writes when the row is too short. The
    library's own resizing or `out_of_range` for a short row is not
    modelled.
  - In the paged iteration the row count is the number of lines after the
    first.
  - A missing document or a missing key cell is an abort outcome.
- The save of the document in `insert`, `printFullTable`, `countCsv` and
  `copyColumnNames`. These are file I/O. `select` returns `WholeTable`
  where it would print the whole table.
- `copyNameColonk` is not a member of its own. Its effect (the first word
  of page 1 and a newline) is part of `WithPage`.
- `new`/`delete` of the list nodes. The lists are sequences.
- The empty WHERE filtering block at the end of `select`. It does nothing.
- Failures to open a file that exists for reading, in `isloker` and
  `loker`: they are treated like a missing file.
- Stream-open failures in the single-file iteration. The model has no
  fault parameter there.
- PagedStorage.Storage.FindCsvFileCount: the `int` counter is unbounded.
  The model does not wrap it after 2^31 - 1 pages.
- PagedStorage.Storage.Insert: the uninitialised `currentPK` left by `>>`
  on a blank key file is a parameter, `indeterminate`.
- SkeletQuery.Select: requires the query to have at least five
  characters. For a shorter query the WHERE loop's bound `size() - 5`
  wraps and `substr` throws. `main` only passes commands that start with
  `SELECT`.
- SkeletQuery.ProjectLine, SkeletQuery.ProjectLineAsWritten and
  SkeletQuery.PrintColumns: say nothing about a selected position beyond
  the fields of a short line. There the failed `getline` leaves the
  previous value, already cleaned, and it is printed again.
- SkeletQuery.GetColumnValue: says nothing when the line has no field at
  the column's index. There `getColumnValue` returns the last field read,
  or `""` when the line is empty or ends with `,`.
- SkeletQuery.CheckWhereCondition: states the match only for a non-empty
  literal. An empty literal also equals the empty value of an unused
  qualifier. WhereOnUnknownTable states that case.

## Findings

| source | as written | input that shows it | evidently intended | confidence | as-written member | corrected member |
|---|---|---|---|---|---|---|
| Skelet.cpp:370-377 | the skip loop counts the fields it skips but not the field it then reads, so the k-th selected column shows the field k places to its right | header `PrimaryKey,a,b,c`, row `1,x,y,z`, query `SELECT a b FROM t`: prints `x,z` | `x,y`: each selected column shows its own field | high, not executed | SkeletQuery.ProjectLineAsWritten (with SkeletQuery.ProjectLineCounterexample), and SkeletQuery.PrintColumns with `asWritten` | SkeletQuery.ProjectLine, and SkeletQuery.PrintColumns without `asWritten` |
