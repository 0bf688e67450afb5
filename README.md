# RawDatabase record store, modelled in Dafny

`RawDatabase` (in `index.js`) is a record store kept in plain text files. A
hyphenated key such as `users-active` names the file
`<baseDir>/users/active<fileExtension>`. A record is one non-blank line of
that file. The store has seven operations:

- `createRow` appends a row unless a row equal to it, ignoring case and outer
  whitespace, is already there.
- `getPaginatedRows` sorts every record and returns one page of them together
  with the record count.
- `getIndexRow` returns the line at a 1-based position.
- `deleteByTerm` and `deleteByIndex` remove records.
- `upgradeByTerm` and `upgradeByIndex` replace one record.

Every rewrite stores the remaining records joined by line feeds, with one line
feed after the last. The two reads pick a strategy by file size. Above
`largeFileSizeLimit` they stream the file line by line. Otherwise they read
the whole file and split it.

The project has these modules:

- `Optional`: JavaScript's `null` as `None`.
- `Text`: the string primitives the code relies on.
  - `trim` over a fixed whitespace set.
  - `split` and `join` on one character, with round-trip lemmas.
  - ASCII `toLowerCase` and `includes`.
  - The lines a `readline` interface delivers.
- `Ordering`: the comparator of `getPaginatedRows`.
  - The order is lexicographic on character codes. It is proved to be a
    total order.
  - `Sort` is insertion sort. It returns a sorted permutation, and any sorted
    permutation equals it.
  - A descending sort is the ascending sort reversed.
- `Paths`: `splitPath` and how a key comes back out of its path.
- `Records`: each operation as a pure function of what reading the file finds
  (`Missing`, `Unreadable` or `Content(data)`). A rewrite yields
  `Some(newContent)`, or `None` when nothing is written.
- `RecordLaws`: lemmas about those functions.
  - The records each rewrite leaves.
  - When a file stays well-formed.
  - Reading back what was written.
  - That pages cover all records.
  - Where the two read strategies agree and where they differ.
- `Database`: the imperative part.
  - `FileSystem` is a class whose `files` map and `dirs` set change.
    - Its `unreadable`, `readOnly` and `blockedDirs` sets stand for I/O
      failures.
  - `RawDatabase` is a class whose methods follow `index.js` statement by
    statement.
    - The streaming reads are `while` loops over the delivered lines:
      `CollectRecords` and `ScanToIndex`.
    - Each method is proved equal to its function in `Records`. For mutators
      the proof also covers the new file map and says that nothing else
      changes.

## Model

| member | source | states |
|---|---|---|
| Database.RawDatabase.constructor | index.js:7-12 | The store keeps its key. `baseDir`, `fileExtension` and `largeFileSizeLimit` take the option when it is truthy, and otherwise `./data`, `.dat` and 200000. |
| Database.TextOr | index.js:9-10 | `value \|\| fallback` for strings: an absent or empty option falls back and any other is kept. |
| Database.NumberOr | index.js:11 | `value \|\| fallback` for numbers: an absent option or 0 falls back and any other number is kept. |
| Paths.SplitPath | index.js:14-21 | The key always has at least one part, and the directory always has at least one segment, the base directory. |
| Paths.SplitPathShape | index.js:15-18 | The parts joined by `-` are the key, and no part contains `-`. The file name is the last part plus the extension. The directory is the base directory and the other parts. The file path joins them with `/`. The key can be rebuilt from the path. |
| Paths.FileTail | index.js:15-18 | Take a key whose `-`-separated parts are none of empty, `.` or `..`, with no `/` in the key or the extension. The file path is then the base directory, `/`, and segments that split back exactly and determine the key. None of those segments is empty, `.` or `..`. |
| Paths.FilePathInjective | index.js:15-18 | Two such keys (no empty, `.` or `..` part, no `/`) that give the same file path, under the same base directory and extension, are the same key. |
| Database.FileSystem.Lookup | index.js:36-43 | A read finds the content exactly when the path is readable and present. It finds `Missing` (ENOENT) exactly when the path is readable and absent, and `Unreadable` otherwise. |
| Database.FileSystem.MakeDirs | index.js:26-29 | `mkdir -p` succeeds exactly when the directory is not blocked. On success the directory is added. No file changes. |
| Database.FileSystem.WriteFile | index.js:39 | A write succeeds exactly when the path is writable. It then replaces that one file's content. On failure nothing changes. |
| Database.FileSystem.AppendFile | index.js:51 | An append succeeds exactly when the path is writable. It adds to the end of the prior content, or of an empty file when none exists. No other file changes. |
| Database.RawDatabase.CreateRow | index.js:23-56 | The directory set grows exactly when `mkdir` is allowed. The answer is true exactly when the directory was made, `Records.CreateRow` has content to write, and the write succeeds. Then the file holds exactly that content and no other file changes. |
| Records.CreateRow | index.js:31-52 | Once the directory exists, a create writes exactly when the row is not blank and the file is missing, or readable without a duplicate of the row. The written content starts with the old content and ends with the row and one line feed. |
| RecordLaws.DuplicateOfTidy | index.js:45-47 | On a file of one or more tidy records, a row counts as a duplicate exactly when some record equals it lower-cased, after the row is trimmed. |
| RecordLaws.CreateWrites | index.js:31-52 | A create that writes had a non-blank row and a readable or missing file. It writes the prior content (empty for a missing file), the row and one line feed. |
| RecordLaws.CreateAddsOneRecord | index.js:45-52 | Applies to a record (non-blank, no line feed) when the file is missing or ends with a line feed. A successful create then adds exactly the new row as the last record and keeps the others. |
| RecordLaws.CreateRejectsRepeat | index.js:45-49 | After a record (non-blank, no line feed) was created, creating any row equal to it up to case and outer whitespace writes nothing, provided the file ended with a line feed or was missing. |
| RecordLaws.CreateKeepsWellFormed | index.js:39-51 | Creating a record in a missing or well-formed file leaves a well-formed file: its records, each followed by one line feed. |
| RecordLaws.CreateIsSnoc | index.js:39-51 | Creating a row in the file holding `lines` stores exactly the serialisation of `lines` with the row appended. |
| RecordLaws.CreateThenReadBack | index.js:23-143 | After creating any record (non-blank, no line feed) in a missing file or a file of n ≥ 1 tidy records, `getIndexRow(n + 1)` returns that record trimmed, under either strategy. |
| RecordLaws.LastRowReadBack | index.js:107-143 | A record appended after n tidy records is read back trimmed at position n + 1, whatever the size limit. |
| RecordLaws.WholeLinesAfterCreate | index.js:133 | For one or more tidy records followed by a record, the whole-file branch's `data.trim().split('\n')` gives the tidy records and the new record with its trailing whitespace removed. |
| Database.RawDatabase.GetPaginatedRows | index.js:58-105 | Absent `quantity`, `asc` and `page` default to 10, true and 1. The result is `Records.PaginatedRows` of the current file, and nothing changes. |
| Database.Given | index.js:58 | A destructuring default: only an absent property falls back. |
| Database.PageOfFile | index.js:61-101 | Once the file is read, the rows collected by the size-selected strategy are sorted, and the result is exactly `Records.Paginate` of those rows. |
| Database.CollectRecords | index.js:78-83 | The streaming loop pushes each non-blank line trimmed, in order, and counts as many as it pushed. |
| Records.PaginatedRows | index.js:102-104 | A missing or unreadable file gives no rows and a total of 0. |
| Records.Paginate | index.js:96-101 | A page is in sort order and drawn from the records as a sub-multiset. The total is the unpaginated record count. |
| Records.PageWindow | index.js:63-99 | A page is `slice(startIndex, endIndex)` of the sorted records, where `startIndex = (page - 1) * quantity` and `endIndex = startIndex + quantity`. |
| Records.PageBounds | index.js:63-64 | For a positive page and size, a page holds at most `quantity` rows, and none once `(page - 1) * quantity` reaches the record count. |
| Records.PageZeroIsEmpty | index.js:63-99 | Page 0 ends at index 0, so it has no rows but still reports the total. |
| Records.NegativeSizeDropsFromEnd | index.js:63-99 | A negative `quantity` on page 1 returns every sorted record except the last `-quantity`, since `slice` counts a negative end back from the last element. |
| Records.SliceIndex | index.js:99 | A `slice` bound: a negative one counts back from the length, and the result is clamped to `0..length`. |
| Records.Slice | index.js:99 | `slice` returns a contiguous run of the input starting at the normalised first bound. For non-negative bounds it holds at most `end - start` elements, and none when it starts past the end. |
| Records.SliceWindow | index.js:99 | For `0 <= start <= end`, `slice` is the window from `start` to `min(end, length)`, or empty past the end. |
| Records.SliceOfSorted | index.js:96-99 | A slice of a sorted sequence is sorted and is a sub-multiset of it. |
| RecordLaws.PageRows | index.js:63-64 | Page `k >= 1` is the window of `quantity` sorted records starting at `(k - 1) * quantity`. |
| RecordLaws.OffsetIsProduct | index.js:63 | Counting up one page at a time reaches `(k - 1) * quantity`. |
| RecordLaws.WindowsPrefix | index.js:63-99 | Windows 1 to k laid end to end are the prefix of the sorted records up to the end of window k. |
| RecordLaws.PagesCoverAll | index.js:58-101 | Take N records and a page size Q. The `rows` of pages 1 to ceil(N/Q), laid end to end, are all the records in sorted order. Page ceil(N/Q)+1 is empty with the same total. |
| RecordLaws.PagesAreWindows | index.js:63-99 | The rows of pages 1 to k, laid end to end, are windows 1 to k of the sorted records. |
| RecordLaws.PagePastEnd | index.js:63-101 | A page starting at or past the last record is empty and still reports the total. |
| Ordering.Sort | index.js:96 | The sorted result is ordered by the comparator, is a permutation of the input, and has the same length. |
| Ordering.Insert | index.js:96 | Inserting into a sorted sequence keeps it sorted and adds exactly one element. |
| Ordering.SortedUnique | index.js:96 | Two sorted permutations of the same strings are equal, so every correct sort returns the same rows. |
| Ordering.SortIsCanonical | index.js:96 | Any sorted permutation of the input is what `Sort` returns. |
| Ordering.SortDescendingIsReversed | index.js:96 | Sorting with `b.localeCompare(a)` gives the ascending order reversed. |
| Ordering.LeTotal | index.js:96 | Any two strings are comparable. |
| Ordering.LeAntisymmetric | index.js:96 | Strings that compare both ways are equal. |
| Ordering.LeTransitive | index.js:96 | The order is transitive. |
| Database.RawDatabase.GetIndexRow | index.js:107-143 | The result is `Records.IndexRow` of the current file, and nothing changes. |
| Database.RowOfFile | index.js:113-139 | Once the file is read, the size-selected branch gives exactly `Records.IndexRow` of the content. |
| Database.ScanToIndex | index.js:123-130 | The loop stops at line `index` and returns it trimmed. If the count never reaches `index`, the result stays null and every line is counted. |
| Records.IndexRow | index.js:107-143 | A missing or unreadable file gives null. A found row is never empty and has no outer whitespace. |
| Records.TrimmedRow | index.js:135-139 | `line.trim() \|\| null`: a present result is non-empty and already trimmed. |
| RecordLaws.IndexRowOfTidy | index.js:107-143 | For a file of tidy records, `getIndexRow(i)` is record i for `1 <= i <= n` and null otherwise, under either strategy. |
| RecordLaws.EmptyFileIndex | index.js:107-143 | A file holding only a line feed has no row at any index. |
| RecordLaws.SizeLimitBoundary | index.js:68-112 | `size > largeFileSizeLimit` is strict. With the limit at the file size, both reads use the whole-file branch. With the limit one below, both stream. |
| RecordLaws.WholeRowsAreRecords | index.js:90-92 | Every row the whole-file branch collects is a record: not blank, no line feed. |
| RecordLaws.WholeRowsEmpty | index.js:90-93 | The whole-file branch collects nothing exactly when the file is blank. |
| RecordLaws.StreamedRowsShape | index.js:78-83 | Every row the streaming branch collects is tidy, and it collects nothing exactly when the file is blank. |
| RecordLaws.TrimmedRecordsHas | index.js:78-83 | A string is collected by the streaming loop exactly when some non-blank line trims to it. |
| RecordLaws.IndexStreamedFindsRows | index.js:78-130 | Some index finds `x` in the streaming branch of `getIndexRow` exactly when the streaming branch of `getPaginatedRows` collects `x`. |
| RecordLaws.IndexWholeFindsRows | index.js:91-136 | Some index finds `x` in the whole-file branch of `getIndexRow` exactly when the whole-file branch of `getPaginatedRows` collects a row that trims to `x`. |
| RecordLaws.StrategiesAgree | index.js:68-137 | On a file of tidy records, both strategies collect exactly the records, and both find the same row at every index. |
| RecordLaws.LimitIrrelevantOnTidyFiles | index.js:68-137 | On a file of tidy records, the size limit changes neither the page nor the indexed row. |
| RecordLaws.InnerWhitespaceKeptWhole | index.js:78-92 | On a file with an indented second line, the whole-file branch keeps the indentation and the streaming branch trims it. |
| RecordLaws.CreateAfterEmptied | index.js:45-51 | Deleting the only record of a file leaves a lone line feed, and creating a tidy record then writes a blank line before it. On that file index 1 finds the record when the file is read whole and null when it is streamed, where the record sits at index 2. |
| RecordLaws.LeadingBlankLineShiftsIndex | index.js:123-136 | With a leading blank line, index 1 is the first record in the whole-file branch, which trims the content first. In the streaming branch it is the blank line, so the result is null. |
| Records.NonBlank | index.js:152 | The filter keeps exactly the non-blank lines. None of the kept lines is blank, and every kept line comes from the input. Every non-blank input line is kept. Nothing is dropped exactly when no line is blank. |
| RecordLaws.BlankIffNoRecords | index.js:150-152 | `data.trim()` is empty exactly when the file has no non-blank line. |
| RecordLaws.RecordsOfSerialize | index.js:152-157 | Reading back a file written from records gives exactly those records. |
| Records.Serialize | index.js:157 | `lines.join('\n') + '\n'` always ends in a line feed. |
| RecordLaws.SerializeWellFormed | index.js:157 | Writing one or more records gives a well-formed file. |
| Database.RawDatabase.Store | index.js:157 | Writes the new content when there is some and the path is writable, and otherwise changes nothing. |
| Records.DeleteByTerm | index.js:145-162 | A delete by term writes exactly when the file is readable, not blank, and some record matches. What it writes ends in a line feed. |
| Database.RawDatabase.DeleteByTerm | index.js:145-162 | The answer is true exactly when `Records.DeleteByTerm` writes and the write succeeds. The file then holds that content, and nothing else changes. |
| Records.Without | index.js:153 | The filter drops every matching record. Every kept record comes from the input, and every non-matching input record is kept. The result has the input's length exactly when nothing matches. |
| RecordLaws.WithoutConcat | index.js:153 | Filtering distributes over concatenation, so the kept records stay in their input order. |
| RecordLaws.DeleteByTermLaw | index.js:148-157 | A delete by term writes exactly when some record matches, without regard to case. The records left are the non-matching ones, in order. |
| RecordLaws.DeleteByEmptyTerm | index.js:150-157 | The empty term matches every record. A non-blank file is then rewritten as a single line feed. |
| Records.DeleteByIndex | index.js:164-180 | A delete by index writes exactly when the file is readable, not blank, and `1 <= index <= count`. What it writes ends in a line feed. |
| Database.RawDatabase.DeleteByIndex | index.js:164-180 | The answer is true exactly when `Records.DeleteByIndex` writes and the write succeeds. The file then holds that content, and nothing else changes. |
| RecordLaws.DeleteByIndexLaw | index.js:168-175 | A delete by index writes exactly when `1 <= index <= count`. It then leaves the records before and after that one, one fewer in total. |
| RecordLaws.DeleteThenReadByIndex | index.js:171-175 | After deleting record i from a file of tidy records, index n finds nothing, and index i finds the former record i+1. |
| Records.UpgradeByIndex | index.js:182-198 | An update by index writes exactly when the file is readable, not blank, and `1 <= index <= count`. What it writes ends in a line feed. |
| Database.RawDatabase.UpgradeByIndex | index.js:182-198 | The answer is true exactly when `Records.UpgradeByIndex` writes and the write succeeds. The file then holds that content, and nothing else changes. |
| RecordLaws.UpgradeByIndexLaw | index.js:186-193 | An update by index writes exactly when `1 <= index <= count`. For a record-shaped replacement, the records are the old ones with that one replaced. |
| Records.UpgradeByTerm | index.js:200-218 | An update by term writes exactly when the file is readable, not blank, and some record matches. What it writes ends in a line feed. |
| Database.RawDatabase.UpgradeByTerm | index.js:200-218 | The answer is true exactly when `Records.UpgradeByTerm` writes and the write succeeds. The file then holds that content, and nothing else changes. |
| Records.FindFirst | index.js:208-210 | `findIndex` gives the first matching position, or -1 exactly when no record matches. |
| RecordLaws.UpgradeByTermLaw | index.js:204-213 | An update by term writes exactly when some record matches. It replaces the first matching record, and no earlier record matches. |
| RecordLaws.RewritesAreWellFormed | index.js:145-218 | Each rewrite leaves a well-formed file, under a condition per operation. For the updates, the replacement must be a record. For the deletes, at least one record must remain. |
| Text.Split | index.js:15 | `split` gives at least one piece, and no piece contains the separator. |
| Text.JoinSplit | index.js:15-17 | Joining the pieces of a split with the same separator restores the string. |
| Text.SplitJoin | index.js:152-157 | Splitting a join of separator-free pieces gives the pieces back. |
| Text.ReadLines | index.js:78 | No line that `readline` delivers contains a line feed. |
| Text.BlankIffTrimEmpty | index.js:31 | `s.trim()` is empty exactly when `s` is all whitespace. |
| Text.TrimIdempotent | index.js:127 | Trimming twice is trimming once. |
| Text.TrimStart | index.js:31 | Removing leading whitespace leaves a suffix whose dropped prefix is all whitespace and whose first character is not whitespace. |
| Text.TrimEnd | index.js:31 | Removing trailing whitespace leaves a prefix whose dropped suffix is all whitespace and whose last character is not whitespace. |
| Text.TrimShape | index.js:31 | `s.trim()` is a contiguous piece of `s` with only whitespace before and after it, and it neither starts nor ends with whitespace. |
| Text.Lower | index.js:45-47 | ASCII `toLowerCase` keeps the length, leaves no upper-case ASCII letter, and keeps every other character. |
| Text.ContainsAt | index.js:153 | `s.includes(t)` holds exactly when `t` occurs in `s` at some position. |
| Text.JoinLength | index.js:157 | A join is as long as its pieces together plus one separator between each pair. |

## Where the code and the documented behaviour differ

The model follows the code in each of these cases.

- **Strategy equivalence.** The two read strategies are documented as
  observably equivalent, but the code makes them differ.
  - The whole-file branch of `getPaginatedRows` trims only the outer ends of
    the file, so inner records keep their whitespace. The streaming branch
    trims each record
    (`RecordLaws.InnerWhitespaceKeptWhole`).
  - `getIndexRow` counts lines differently in the two branches
    (`RecordLaws.LeadingBlankLineShiftsIndex`).
  - They do agree on any file written from tidy records, the lone line feed
    of an emptied file included (`RecordLaws.StrategiesAgree`). Creating tidy
    rows one after another into a missing file only ever produces such files.
  - They stop agreeing once an emptied file is created into again
    (`RecordLaws.CreateAfterEmptied`).
- **What `getIndexRow` counts.** It is documented to count non-blank lines.
  The code counts raw lines, after an outer trim in the whole-file branch. A
  blank line at the position gives null.
- **Well-formed after every write.** The file is documented to be well-formed
  after every write. The code does not ensure this:
  - Deleting every record writes a lone line feed
    (`RecordLaws.DeleteByEmptyTerm`).
  - A create after that appends behind the line feed, so the file starts
    with a blank line. Every streamed index is then one higher than the
    whole-file index of the same record (`RecordLaws.CreateAfterEmptied`).
  - A blank replacement is written as a blank line.
  - `RecordLaws.RewritesAreWellFormed` states when well-formedness does hold.
- **Creating into a file without a final line feed.** Appending to a file whose
  last byte is not a line feed joins the new row onto the last line. Both
  `RecordLaws.CreateAddsOneRecord` and `RecordLaws.CreateRejectsRepeat`
  therefore assume the file ends with a line feed or is missing.
- **Pagination with extreme values.** The slice bounds are not checked, so
  `Array.prototype.slice` rules apply. Page 0 is empty. A negative `quantity`
  or page counts back from the end (`Records.PageZeroIsEmpty`,
  `Records.NegativeSizeDropsFromEnd`).

## Left out

- `cli.js`: the command-line front end is not part of this model.
- Asynchrony: promises, streams, stream `error` events and interleaving
  between concurrent operations. Each operation is one atomic step on the file
  system.
- `fs.promises.stat`: the size comes from the content read, as its length in
  characters rather than its UTF-8 byte length, so the size probe and the read
  cannot disagree.
- Paths.FileTail, Paths.FilePathInjective: state their facts only for keys none of whose `-`-separated parts is empty, `.` or `..`. `path.join` folds such parts, so keys like `b` and `-b`, or `a-b` and `a--b`, share one file.
- `path.join` normalisation: segments are joined with `/` as written. The
  `path.join(dirPath, fileName)` of `createRow` is taken to be the same path as
  `filePath`.
- `mkdir -p` of intermediate directories: only the target directory is
  recorded.
- `localeCompare`: replaced by lexicographic order on character codes. ICU
  collation is not modelled.
- Unicode: `trim` uses a fixed set of whitespace characters (ASCII
  whitespace, NBSP and BOM, but not U+2028, U+2029 or the other space
  separators), and `toLowerCase` is ASCII only.
- `readline`: only `\n` ends a line, and `\r\n` is not treated specially.
- JavaScript values outside the declared types: NaN, non-integer numbers, a
  non-string row, a truthy non-boolean `asc`, and calling `getPaginatedRows`
  with no argument object (which throws before its `try`).
- In-place array updates: `lines.sort`, `splice` and the element assignment
  work on a local array that nothing else can see, so they are modelled on
  sequences.
- Partial writes: a failed write or append changes nothing.
