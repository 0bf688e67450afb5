/**
 * What each operation of the record store does to the content of its file,
 * as pure functions of what a read of the file finds.  A file's records are
 * its non-blank lines; every rewrite stores the records joined by line feeds
 * with one line feed after the last.
 */
module Records {
  import opened Optional
  import opened Text
  import opened Ordering

  /** What reading a file path finds: ENOENT, another I/O fault, or the content. */
  datatype Stored = Missing | Unreadable | Content(data: string)

  /** The `{ rows, total }` object `getPaginatedRows` resolves to. */
  datatype PageResult = PageResult(rows: seq<string>, total: nat)

  /** `lines.filter(line => line.trim() !== '')`: the non-blank lines in order. */
  function NonBlank(lines: seq<string>): (r: seq<string>)
    ensures |r| <= |lines|
    ensures forall i :: 0 <= i < |r| ==> !IsBlank(r[i])
    ensures (|r| == |lines|) <==> (forall i :: 0 <= i < |lines| ==> !IsBlank(lines[i]))
    ensures forall x :: x in r ==> x in lines
    ensures forall x {:trigger x in r} :: x in lines && !IsBlank(x) ==> x in r
  {
    if lines == [] then []
    else if IsBlank(lines[0]) then NonBlank(lines[1..])
    else [lines[0]] + NonBlank(lines[1..])
  }

  /** The records of a file as the delete and update operations see them. */
  function RecordLines(data: string): seq<string> {
    NonBlank(Split(data, '\n'))
  }

  /** `lines.join('\n') + '\n'`: the content every rewrite stores, which ends in a line feed. */
  function Serialize(lines: seq<string>): (r: string)
    ensures |r| >= 1 && r[|r| - 1] == '\n'
  {
    Join(lines, '\n') + "\n"
  }

  /** A string that reads back as one record: not blank and without a line feed. */
  predicate IsRecord(line: string) {
    !IsBlank(line) && '\n' !in line
  }

  predicate AllRecords(lines: seq<string>) {
    forall i :: 0 <= i < |lines| ==> IsRecord(lines[i])
  }

  /** A file holding exactly its records, each ended by one line feed, with no blank line. */
  predicate WellFormed(data: string) {
    |RecordLines(data)| >= 1 && data == Serialize(RecordLines(data))
  }

  // ---------------------------------------------------------------- reading

  /** A `slice` argument as an index into `len` elements: a negative one counts back from the end, then it is clamped to `0..len`. */
  function SliceIndex(i: int, len: nat): (k: nat)
    ensures k <= len
    ensures 0 <= i <= len ==> k == i
    ensures i < 0 && 0 <= len + i ==> k == len + i
    ensures (i > len ==> k == len) && (len + i < 0 ==> k == 0)
  {
    if i < 0 then (if len + i < 0 then 0 else len + i)
    else if i > len then len
    else i
  }

  /** `array.slice(start, end)`: the elements from the first index up to, not including, the second; none when they cross. */
  function Slice(s: seq<string>, start: int, end: int): (r: seq<string>)
    ensures |r| <= |s|
    ensures forall k :: 0 <= k < |r| ==> SliceIndex(start, |s|) + k < |s| && r[k] == s[SliceIndex(start, |s|) + k]
    ensures 0 <= start <= end ==> |r| <= end - start
    ensures 0 <= start && |s| <= start ==> r == []
  {
    var first := SliceIndex(start, |s|);
    var last := SliceIndex(end, |s|);
    if first < last then s[first..last] else []
  }

  /** For non-negative bounds `slice` is the clamped window. */
  lemma SliceWindow(s: seq<string>, start: nat, end: nat)
    requires start <= end
    ensures Slice(s, start, end) == if start >= |s| then [] else s[start..if end <= |s| then end else |s|]
  {
  }

  /** The whole-file branch: `data.trim().split('\n').filter(line => line.trim())`; only the outer ends of the file are trimmed. */
  function WholeFileRows(data: string): seq<string> {
    NonBlank(Split(Trim(data), '\n'))
  }

  /** The streaming branch: every non-blank line, trimmed, in order. */
  function TrimmedRecords(lines: seq<string>): (r: seq<string>)
    ensures |r| <= |lines|
  {
    if lines == [] then []
    else
      var last := lines[|lines| - 1];
      TrimmedRecords(lines[..|lines| - 1]) + (if IsBlank(last) then [] else [Trim(last)])
  }

  function StreamedRows(data: string): seq<string> {
    TrimmedRecords(ReadLines(data))
  }

  /** `fileStats.size > this.largeFileSizeLimit`: strictly above the limit streams. */
  predicate IsLargeFile(data: string, limit: int) {
    |data| > limit
  }

  /** The rows `getPaginatedRows` collects before sorting. */
  function CollectedRows(data: string, limit: int): seq<string> {
    if IsLargeFile(data, limit) then StreamedRows(data) else WholeFileRows(data)
  }

  lemma SliceOfSorted(s: seq<string>, start: int, end: int, asc: bool)
    requires Sorted(s, asc)
    ensures Sorted(Slice(s, start, end), asc)
    ensures multiset(Slice(s, start, end)) <= multiset(s)
  {
    var w := Slice(s, start, end);
    var first := SliceIndex(start, |s|);
    forall i, j | 0 <= i < j < |w|
      ensures Precedes(w[i], w[j], asc)
    {
      assert w[i] == s[first + i] && w[j] == s[first + j];
    }
    var last := SliceIndex(end, |s|);
    if first < last {
      assert s == s[..first] + s[first..last] + s[last..];
      assert multiset(s) == multiset(s[..first]) + multiset(s[first..last]) + multiset(s[last..]);
    }
  }

  /** A slice of a sorted permutation of the records is sorted and drawn from the records. */
  lemma PageOfSorted(s: seq<string>, records: seq<string>, start: int, end: int, asc: bool)
    requires Sorted(s, asc) && multiset(s) == multiset(records)
    ensures Sorted(Slice(s, start, end), asc)
    ensures multiset(Slice(s, start, end)) <= multiset(records)
  {
    SliceOfSorted(s, start, end, asc);
  }

  /** `(page - 1) * quantity`: the first index of a page, never negative for a positive page and size. */
  function PageStart(page: int, quantity: int): (start: int)
    ensures page >= 1 && quantity >= 0 ==> start >= 0
  {
    (page - 1) * quantity
  }

  /**
   * Sorts the rows by direction and returns page `page` of `quantity` rows
   * with the unpaginated count: the rows in sorted order and drawn from the
   * input (see `PageBounds` for the size of a page).
   */
  function Paginate(records: seq<string>, quantity: int, asc: bool, page: int): (r: PageResult)
    ensures r.total == |records|
    ensures Sorted(r.rows, asc)
    ensures multiset(r.rows) <= multiset(records)
  {
    var start := PageStart(page, quantity);
    var end := start + quantity;
    var rows := Slice(Sort(records, asc), start, end);
    PageOfSorted(Sort(records, asc), records, start, end, asc);
    assert multiset(rows) <= multiset(records);
    PageResult(rows, |records|)
  }

  /** A page is the slice of the sorted rows from `(page - 1) * quantity` to `page * quantity`, with their count. */
  lemma PageWindow(records: seq<string>, quantity: int, asc: bool, page: int, startIndex: int, endIndex: int)
    requires startIndex == PageStart(page, quantity) && endIndex == startIndex + quantity
    ensures Paginate(records, quantity, asc, page) == PageResult(Slice(Sort(records, asc), startIndex, endIndex), |records|)
  {
    var rows := Slice(Sort(records, asc), startIndex, endIndex);
    PageOfSorted(Sort(records, asc), records, startIndex, endIndex, asc);
    assert multiset(rows) <= multiset(records);
  }

  /** For a positive page and size a page holds at most `quantity` rows, and none once it starts past the end. */
  lemma PageBounds(records: seq<string>, quantity: int, asc: bool, page: int)
    requires quantity >= 1 && page >= 1
    ensures |Paginate(records, quantity, asc, page).rows| <= quantity
    ensures (page - 1) * quantity >= |records| ==> Paginate(records, quantity, asc, page).rows == []
  {
    var start := PageStart(page, quantity);
    assert 0 <= start == (page - 1) * quantity;
    PageWindow(records, quantity, asc, page, start, start + quantity);
  }

  /** Page 0 ends where page 1 starts, so it holds nothing. */
  lemma PageZeroIsEmpty(records: seq<string>, quantity: int, asc: bool)
    requires quantity >= 1
    ensures Paginate(records, quantity, asc, 0) == PageResult([], |records|)
  {
    var start := PageStart(0, quantity);
    assert start == -quantity;
    PageWindow(records, quantity, asc, 0, start, start + quantity);
  }

  /** A negative size on page 1 counts its end back from the last row: all but the last `-quantity` sorted rows. */
  lemma NegativeSizeDropsFromEnd(records: seq<string>, quantity: int, asc: bool)
    requires quantity < 0 && |records| + quantity >= 0
    ensures Paginate(records, quantity, asc, 1).rows == Sort(records, asc)[..|records| + quantity]
  {
    var start := PageStart(1, quantity);
    assert start == 0;
    PageWindow(records, quantity, asc, 1, start, start + quantity);
  }

  /** `getPaginatedRows`: a missing or unreadable file gives no rows and a zero total. */
  function PaginatedRows(stored: Stored, limit: int, quantity: int, asc: bool, page: int): (r: PageResult)
    ensures !stored.Content? ==> r == PageResult([], 0)
  {
    match stored
    case Content(data) => Paginate(CollectedRows(data, limit), quantity, asc, page)
    case _ => PageResult([], 0)
  }

  /** `result || null`: an empty string reads as absent. */
  function OrNull(s: string): Option<string> {
    if s == "" then None else Some(s)
  }

  /** A present trimmed line is non-empty and already trimmed. */
  function TrimmedRow(line: string): (r: Option<string>)
    ensures r.Some? ==> r.value != "" && Trim(r.value) == r.value
  {
    TrimIdempotent(line);
    if Trim(line) == "" then None else Some(Trim(line))
  }

  /** The whole-file branch of `getIndexRow`: position `index` of `data.trim().split('\n')`, trimmed. */
  function IndexWhole(data: string, index: int): Option<string> {
    var fileLines := Split(Trim(data), '\n');
    if index > 0 && index <= |fileLines| then TrimmedRow(fileLines[index - 1]) else None
  }

  /** The streaming branch of `getIndexRow`: the `index`-th raw line, trimmed. */
  function IndexStreamed(data: string, index: int): Option<string> {
    var lines := ReadLines(data);
    if 1 <= index <= |lines| then TrimmedRow(lines[index - 1]) else None
  }

  /** `getIndexRow`: a found row is never empty and carries no outer whitespace. */
  function IndexRow(stored: Stored, limit: int, index: int): (r: Option<string>)
    ensures !stored.Content? ==> r == None
    ensures r.Some? ==> r.value != "" && Trim(r.value) == r.value
  {
    match stored
    case Content(data) =>
      if IsLargeFile(data, limit) then IndexStreamed(data, index) else IndexWhole(data, index)
    case _ => None
  }

  // -------------------------------------------------------------- rewriting

  /** `line.toLowerCase().includes(term.toLowerCase())`. */
  predicate Matches(line: string, term: string) {
    Contains(Lower(line), Lower(term))
  }

  /** `lines.filter(line => !Matches(line, term))`: drops every matching line, keeps the rest in order. */
  function Without(lines: seq<string>, term: string): (r: seq<string>)
    ensures |r| <= |lines|
    ensures forall i :: 0 <= i < |r| ==> !Matches(r[i], term)
    ensures (|r| == |lines|) <==> (forall i :: 0 <= i < |lines| ==> !Matches(lines[i], term))
    ensures forall x :: x in r ==> x in lines
    ensures forall x {:trigger x in r} :: x in lines && !Matches(x, term) ==> x in r
  {
    if lines == [] then []
    else if Matches(lines[0], term) then Without(lines[1..], term)
    else [lines[0]] + Without(lines[1..], term)
  }

  /** `lines.findIndex(...)`: the first matching position, or -1 when no line matches. */
  function FindFirst(lines: seq<string>, term: string): (k: int)
    ensures -1 <= k < |lines|
    ensures k >= 0 ==> Matches(lines[k], term)
    ensures k >= 0 ==> forall j :: 0 <= j < k ==> !Matches(lines[j], term)
    ensures k == -1 <==> forall j :: 0 <= j < |lines| ==> !Matches(lines[j], term)
  {
    if lines == [] then -1
    else if Matches(lines[0], term) then 0
    else
      var k := FindFirst(lines[1..], term);
      if k == -1 then -1 else k + 1
  }

  /**
   * `deleteByTerm`: the new content, or None when nothing is written.  It
   * writes exactly when the file is readable, not blank, and some record
   * contains the term; what it writes ends in a line feed.
   */
  function DeleteByTerm(stored: Stored, term: string): (r: Option<string>)
    ensures r.Some? <==> (stored.Content? && !IsBlank(stored.data)
      && exists i :: 0 <= i < |RecordLines(stored.data)| && Matches(RecordLines(stored.data)[i], term))
    ensures r.Some? ==> |r.value| >= 1 && r.value[|r.value| - 1] == '\n'
  {
    match stored
    case Content(data) =>
      if IsBlank(data) then None
      else
        var lines := RecordLines(data);
        var updatedLines := Without(lines, term);
        if |lines| == |updatedLines| then None else Some(Serialize(updatedLines))
    case _ => None
  }

  /**
   * `deleteByIndex`: writes exactly when the file is readable, not blank, and
   * `index` is a 1-based position among its records; what it writes ends in a
   * line feed.
   */
  function DeleteByIndex(stored: Stored, index: int): (r: Option<string>)
    ensures r.Some? <==> stored.Content? && !IsBlank(stored.data) && 1 <= index <= |RecordLines(stored.data)|
    ensures r.Some? ==> |r.value| >= 1 && r.value[|r.value| - 1] == '\n'
  {
    match stored
    case Content(data) =>
      if IsBlank(data) then None
      else
        var lines := RecordLines(data);
        if index < 1 || index > |lines| then None
        else Some(Serialize(lines[..index - 1] + lines[index..]))
    case _ => None
  }

  /**
   * `upgradeByIndex`: writes exactly when the file is readable, not blank,
   * and `index` is a 1-based position among its records; what it writes ends
   * in a line feed.
   */
  function UpgradeByIndex(stored: Stored, index: int, newData: string): (r: Option<string>)
    ensures r.Some? <==> stored.Content? && !IsBlank(stored.data) && 1 <= index <= |RecordLines(stored.data)|
    ensures r.Some? ==> |r.value| >= 1 && r.value[|r.value| - 1] == '\n'
  {
    match stored
    case Content(data) =>
      if IsBlank(data) then None
      else
        var lines := RecordLines(data);
        if index < 1 || index > |lines| then None
        else Some(Serialize(lines[index - 1 := newData]))
    case _ => None
  }

  /**
   * `upgradeByTerm`: writes exactly when the file is readable, not blank, and
   * some record contains the term; what it writes ends in a line feed.
   */
  function UpgradeByTerm(stored: Stored, term: string, newData: string): (r: Option<string>)
    ensures r.Some? <==> (stored.Content? && !IsBlank(stored.data)
      && exists i :: 0 <= i < |RecordLines(stored.data)| && Matches(RecordLines(stored.data)[i], term))
    ensures r.Some? ==> |r.value| >= 1 && r.value[|r.value| - 1] == '\n'
  {
    match stored
    case Content(data) =>
      if IsBlank(data) then None
      else
        var lines := RecordLines(data);
        var index := FindFirst(lines, term);
        if index == -1 then None else Some(Serialize(lines[index := newData]))
    case _ => None
  }

  /** `newRow.trim().toLowerCase()` and `line.trim().toLowerCase()` agree. */
  predicate SameRecord(line: string, newRow: string) {
    Lower(Trim(line)) == Lower(Trim(newRow))
  }

  /** The duplicate check of `createRow`, over `data.trim().split('\n')`. */
  predicate IsDuplicate(data: string, newRow: string) {
    var fileLines := Split(Trim(data), '\n');
    exists i :: 0 <= i < |fileLines| && SameRecord(fileLines[i], newRow)
  }

  /**
   * `createRow` once its directory exists: the new content, or None when
   * nothing is written.  It writes exactly when the row is not blank and the
   * file is missing, or readable without a duplicate of the row.  A write
   * keeps the old content in front and ends in the row and a line feed.
   */
  function CreateRow(stored: Stored, newRow: string): (r: Option<string>)
    ensures r.Some? <==> (!IsBlank(newRow)
      && (stored.Missing? || (stored.Content? && !IsDuplicate(stored.data, newRow))))
    ensures r.Some? && stored.Content? ==> stored.data <= r.value
    ensures r.Some? ==> |r.value| > |newRow| && r.value[|r.value| - |newRow| - 1..] == newRow + "\n"
  {
    if IsBlank(newRow) then None
    else
      match stored
      case Missing =>
        AppendedLine("", newRow);
        assert "" + newRow + "\n" == newRow + "\n";
        Some(newRow + "\n")
      case Unreadable => None
      case Content(data) =>
        if IsDuplicate(data, newRow) then None
        else
          AppendedLine(data, newRow);
          Some(data + newRow + "\n")
  }

  /** Appending a line keeps the old content in front and ends in the line and a line feed. */
  lemma AppendedLine(d: string, x: string)
    ensures var c := d + x + "\n";
      d <= c && |c| > |x| && c[|c| - |x| - 1..] == x + "\n"
  {
    var c := d + x + "\n";
    assert c[..|d|] == d && c[|d|..] == x + "\n";
  }
}
