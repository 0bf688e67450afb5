/**
 * The `RawDatabase` class over a file system it reads and rewrites in place.
 * Each operation locates its file with `splitPath`, reads it, and decides
 * what to write as the functions of `Records` say; the streaming reads of
 * large files are the loops `CollectRecords` and `ScanToIndex` over the lines
 * a `readline` interface delivers.
 */
module Database {
  import opened Optional
  import opened Text
  import opened Ordering
  import opened Paths
  import opened Records

  /**
   * The part of the file system the store touches: the regular files and
   * their contents, and the directories created so far.  `unreadable` holds
   * the paths whose read fails with something other than ENOENT,
   * `readOnly` the paths whose write or append fails, and `blockedDirs`
   * the directories `mkdir -p` cannot create.
   */
  class FileSystem {
    var files: map<string, string>
    var dirs: set<string>
    const unreadable: set<string>
    const readOnly: set<string>
    const blockedDirs: set<string>

    constructor (files0: map<string, string>, unreadable0: set<string>, readOnly0: set<string>, blockedDirs0: set<string>)
      ensures files == files0 && dirs == {}
      ensures unreadable == unreadable0 && readOnly == readOnly0 && blockedDirs == blockedDirs0
    {
      files := files0;
      dirs := {};
      unreadable := unreadable0;
      readOnly := readOnly0;
      blockedDirs := blockedDirs0;
    }

    /** What `fs.promises.readFile(path, 'utf8')` finds. */
    function Lookup(path: string): (r: Stored)
      reads this
      ensures r.Content? <==> path !in unreadable && path in files
      ensures r.Content? ==> r.data == files[path]
      ensures r.Missing? <==> path !in unreadable && path !in files
    {
      if path in unreadable then Unreadable
      else if path in files then Content(files[path])
      else Missing
    }

    method ReadFile(path: string) returns (r: Stored)
      ensures r == Lookup(path)
    {
      r := Lookup(path);
    }

    /** `fs.promises.mkdir(dir, { recursive: true })`: succeeds unless blocked, and touches no file. */
    method MakeDirs(dir: string) returns (ok: bool)
      modifies this
      ensures ok == (dir !in blockedDirs)
      ensures dirs == if ok then old(dirs) + {dir} else old(dirs)
      ensures files == old(files)
    {
      ok := dir !in blockedDirs;
      if ok {
        dirs := dirs + {dir};
      }
    }

    /** `fs.promises.writeFile(path, data)`: replaces the content of one file, or fails and changes nothing. */
    method WriteFile(path: string, data: string) returns (ok: bool)
      modifies this
      ensures ok == (path !in readOnly)
      ensures files == if ok then old(files)[path := data] else old(files)
      ensures dirs == old(dirs)
    {
      ok := path !in readOnly;
      if ok {
        files := files[path := data];
      }
    }

    /** `fs.promises.appendFile(path, data)`: adds to the end of one file, creating it when missing. */
    method AppendFile(path: string, data: string) returns (ok: bool)
      modifies this
      ensures ok == (path !in readOnly)
      ensures files == if ok then old(files)[path := (if path in old(files) then old(files)[path] else "") + data]
                       else old(files)
      ensures dirs == old(dirs)
    {
      ok := path !in readOnly;
      if ok {
        var prior := if path in files then files[path] else "";
        files := files[path := prior + data];
      }
    }
  }

  /** The options object of the constructor; an absent entry is `None`. */
  datatype Options = Options(baseDir: Option<string>, fileExtension: Option<string>, largeFileSizeLimit: Option<int>)

  /** `value || fallback` for a string option: absent and empty strings fall back. */
  function TextOr(value: Option<string>, fallback: string): (r: string)
    ensures value.Some? && value.value != "" ==> r == value.value
    ensures value.None? || value.value == "" ==> r == fallback
  {
    if value.Some? && value.value != "" then value.value else fallback
  }

  /** `value || fallback` for a numeric option: absent and zero fall back, any other number is kept. */
  function NumberOr(value: Option<int>, fallback: int): (r: int)
    ensures value.Some? && value.value != 0 ==> r == value.value
    ensures value.None? || value.value == 0 ==> r == fallback
  {
    if value.Some? && value.value != 0 then value.value else fallback
  }

  /** The argument of `getPaginatedRows`; an absent property is `None`. */
  datatype PageQuery = PageQuery(quantity: Option<int>, asc: Option<bool>, page: Option<int>)

  /** A destructuring default: only an absent value falls back. */
  function Given<T>(value: Option<T>, fallback: T): (r: T)
    ensures value.Some? ==> r == value.value
    ensures value.None? ==> r == fallback
  {
    if value.Some? then value.value else fallback
  }

  /**
   * The streaming branch of `getPaginatedRows`: every non-blank line of the
   * stream is trimmed and pushed, and counted.
   */
  method CollectRecords(raw: seq<string>) returns (lines: seq<string>, total: nat)
    ensures lines == TrimmedRecords(raw)
    ensures total == |lines|
  {
    lines, total := [], 0;
    var i := 0;
    while i < |raw|
      invariant 0 <= i <= |raw|
      invariant lines == TrimmedRecords(raw[..i])
      invariant total == |lines|
    {
      var line := raw[i];
      assert raw[..i + 1][..i] == raw[..i];
      if !IsBlank(line) {
        lines := lines + [Trim(line)];
        total := total + 1;
      }
      i := i + 1;
    }
    assert raw[..|raw|] == raw;
  }

  /**
   * The streaming branch of `getIndexRow`: counts the lines of the stream
   * and stops at the `index`-th, whose trimmed text is the result; an index
   * the count never reaches finds nothing.
   */
  method ScanToIndex(raw: seq<string>, index: int) returns (result: Option<string>, lineCount: nat)
    ensures result == if 1 <= index <= |raw| then Some(Trim(raw[index - 1])) else None
    ensures lineCount == if 1 <= index <= |raw| then index else |raw|
  {
    lineCount := 0;
    result := None;
    var i := 0;
    while i < |raw|
      invariant 0 <= i <= |raw| && lineCount == i
      invariant result == None && !(1 <= index <= i)
    {
      lineCount := lineCount + 1;
      if lineCount == index {
        result := Some(Trim(raw[i]));
        break;
      }
      i := i + 1;
    }
  }

  /**
   * The body of `getPaginatedRows` once the file is read: collects the rows
   * by the strategy the size selects, sorts them and cuts out the page.
   */
  method PageOfFile(data: string, limit: int, quantity: int, asc: bool, page: int) returns (r: PageResult)
    ensures r == Paginate(CollectedRows(data, limit), quantity, asc, page)
  {
    var startIndex := PageStart(page, quantity);
    var endIndex := startIndex + quantity;
    var lines, total;
    if IsLargeFile(data, limit) {
      lines, total := CollectRecords(ReadLines(data));
    } else {
      lines := WholeFileRows(data);
      total := |lines|;
    }
    var sortedLines := Sort(lines, asc);
    r := PageResult(Slice(sortedLines, startIndex, endIndex), total);
    PageWindow(lines, quantity, asc, page, startIndex, endIndex);
  }

  /**
   * The body of `getIndexRow` once the file is read: the row at `index`,
   * counted from 1, by the strategy the size selects, or `None`.
   */
  method RowOfFile(data: string, limit: int, index: int) returns (r: Option<string>)
    ensures r == IndexRow(Content(data), limit, index)
  {
    var result: Option<string> := None;
    if IsLargeFile(data, limit) {
      var lineCount;
      result, lineCount := ScanToIndex(ReadLines(data), index);
      r := if result.Some? then OrNull(result.value) else None;
      assert r == IndexStreamed(data, index);
    } else {
      var fileLines := Split(Trim(data), '\n');
      if index > 0 && index <= |fileLines| {
        result := Some(Trim(fileLines[index - 1]));
      }
      r := if result.Some? then OrNull(result.value) else None;
      assert r == IndexWhole(data, index);
    }
  }

  class RawDatabase {
    const fs: FileSystem
    const file: string
    const baseDir: string
    const fileExtension: string
    const largeFileSizeLimit: int

    /** `new RawDatabase(file, options)` with the defaults `./data`, `.dat` and 200000. */
    constructor (fs: FileSystem, file: string, options: Options)
      ensures this.fs == fs && this.file == file
      ensures baseDir == TextOr(options.baseDir, "./data")
      ensures fileExtension == TextOr(options.fileExtension, ".dat")
      ensures largeFileSizeLimit == NumberOr(options.largeFileSizeLimit, 200000)
    {
      this.fs := fs;
      this.file := file;
      baseDir := TextOr(options.baseDir, "./data");
      fileExtension := TextOr(options.fileExtension, ".dat");
      largeFileSizeLimit := NumberOr(options.largeFileSizeLimit, 200000);
    }

    /** `splitPath()` for this store's key. */
    function Location(): PathInfo {
      SplitPath(file, baseDir, fileExtension)
    }

    /** What a read of this store's file finds. */
    function Current(): Stored
      reads fs
    {
      fs.Lookup(Location().filePath)
    }

    /**
     * `createRow(newRow)`: creates the directory, then writes exactly what
     * `Records.CreateRow` says to the file and nothing else; it answers true
     * exactly when the directory could be made, that function writes, and
     * the write succeeds.
     */
    method CreateRow(newRow: string) returns (ok: bool)
      modifies fs
      ensures var made := Location().dirPath !in fs.blockedDirs;
        && fs.dirs == (if made then old(fs.dirs) + {Location().dirPath} else old(fs.dirs))
        && ok == (made && Records.CreateRow(old(Current()), newRow).Some? && Location().filePath !in fs.readOnly)
        && fs.files == if ok then old(fs.files)[Location().filePath := Records.CreateRow(old(Current()), newRow).value]
                       else old(fs.files)
    {
      var loc := Location();
      var made := fs.MakeDirs(loc.dirPath);
      if !made {
        return false;
      }
      if IsBlank(newRow) {
        return false;
      }
      var stored := fs.ReadFile(loc.filePath);
      match stored
      case Missing =>
        ok := fs.WriteFile(loc.filePath, newRow + "\n");
      case Unreadable =>
        ok := false;
      case Content(data) =>
        if IsDuplicate(data, newRow) {
          ok := false;
        } else {
          ok := fs.AppendFile(loc.filePath, newRow + "\n");
          ConcatAssoc(data, newRow, "\n");
        }
    }

    /** `getPaginatedRows({ quantity = 10, asc = true, page = 1 })`, which changes nothing. */
    method GetPaginatedRows(query: PageQuery) returns (r: PageResult)
      ensures r == PaginatedRows(Current(), largeFileSizeLimit, Given(query.quantity, 10), Given(query.asc, true), Given(query.page, 1))
    {
      var quantity := Given(query.quantity, 10);
      var asc := Given(query.asc, true);
      var page := Given(query.page, 1);
      var stored := fs.ReadFile(Location().filePath);
      match stored
      case Content(data) =>
        r := PageOfFile(data, largeFileSizeLimit, quantity, asc, page);
      case _ =>
        r := PageResult([], 0);
    }

    /** `getIndexRow(index)`, which changes nothing. */
    method GetIndexRow(index: int) returns (r: Option<string>)
      ensures r == IndexRow(Current(), largeFileSizeLimit, index)
    {
      var stored := fs.ReadFile(Location().filePath);
      match stored
      case Content(data) =>
        r := RowOfFile(data, largeFileSizeLimit, index);
      case _ =>
        r := None;
    }

    /** Writes `next` to this store's file when there is something to write; the answer says whether it was written. */
    method Store(next: Option<string>) returns (ok: bool)
      modifies fs
      ensures ok == (next.Some? && Location().filePath !in fs.readOnly)
      ensures fs.files == if ok then old(fs.files)[Location().filePath := next.value] else old(fs.files)
      ensures fs.dirs == old(fs.dirs)
    {
      if next.None? {
        return false;
      }
      ok := fs.WriteFile(Location().filePath, next.value);
    }

    /** `deleteByTerm(term)`: rewrites the file as `Records.DeleteByTerm` says and touches nothing else. */
    method DeleteByTerm(term: string) returns (ok: bool)
      modifies fs
      ensures ok == (Records.DeleteByTerm(old(Current()), term).Some? && Location().filePath !in fs.readOnly)
      ensures fs.files == if ok then old(fs.files)[Location().filePath := Records.DeleteByTerm(old(Current()), term).value]
                          else old(fs.files)
      ensures fs.dirs == old(fs.dirs)
    {
      var stored := fs.ReadFile(Location().filePath);
      var next := None;
      if stored.Content? && !IsBlank(stored.data) {
        var lines := RecordLines(stored.data);
        var updatedLines := Without(lines, term);
        if |lines| != |updatedLines| {
          next := Some(Serialize(updatedLines));
        }
      }
      ok := Store(next);
    }

    /** `deleteByIndex(index)`: removes record `index` (from 1) as `Records.DeleteByIndex` says. */
    method DeleteByIndex(index: int) returns (ok: bool)
      modifies fs
      ensures ok == (Records.DeleteByIndex(old(Current()), index).Some? && Location().filePath !in fs.readOnly)
      ensures fs.files == if ok then old(fs.files)[Location().filePath := Records.DeleteByIndex(old(Current()), index).value]
                          else old(fs.files)
      ensures fs.dirs == old(fs.dirs)
    {
      var stored := fs.ReadFile(Location().filePath);
      var next := None;
      if stored.Content? && !IsBlank(stored.data) {
        var lines := RecordLines(stored.data);
        if 1 <= index <= |lines| {
          lines := lines[..index - 1] + lines[index..];
          next := Some(Serialize(lines));
        }
      }
      ok := Store(next);
    }

    /** `upgradeByIndex(index, newData)`: replaces record `index` (from 1) as `Records.UpgradeByIndex` says. */
    method UpgradeByIndex(index: int, newData: string) returns (ok: bool)
      modifies fs
      ensures ok == (Records.UpgradeByIndex(old(Current()), index, newData).Some? && Location().filePath !in fs.readOnly)
      ensures fs.files == if ok then old(fs.files)[Location().filePath := Records.UpgradeByIndex(old(Current()), index, newData).value]
                          else old(fs.files)
      ensures fs.dirs == old(fs.dirs)
    {
      var stored := fs.ReadFile(Location().filePath);
      var next := None;
      if stored.Content? && !IsBlank(stored.data) {
        var lines := RecordLines(stored.data);
        if 1 <= index <= |lines| {
          lines := lines[index - 1 := newData];
          next := Some(Serialize(lines));
        }
      }
      ok := Store(next);
    }

    /** `upgradeByTerm(term, newData)`: replaces the first matching record as `Records.UpgradeByTerm` says. */
    method UpgradeByTerm(term: string, newData: string) returns (ok: bool)
      modifies fs
      ensures ok == (Records.UpgradeByTerm(old(Current()), term, newData).Some? && Location().filePath !in fs.readOnly)
      ensures fs.files == if ok then old(fs.files)[Location().filePath := Records.UpgradeByTerm(old(Current()), term, newData).value]
                          else old(fs.files)
      ensures fs.dirs == old(fs.dirs)
    {
      var stored := fs.ReadFile(Location().filePath);
      var next := None;
      if stored.Content? && !IsBlank(stored.data) {
        var lines := RecordLines(stored.data);
        var index := FindFirst(lines, term);
        if index != -1 {
          lines := lines[index := newData];
          next := Some(Serialize(lines));
        }
      }
      ok := Store(next);
    }
  }
}
