/**
 * Properties of the record-level operations: what a rewrite leaves in the
 * file, when the two read strategies agree and where they do not, how
 * pages cover the records, and the create/read and delete/read round trips.
 */
module RecordLaws {
  import opened Optional
  import opened Text
  import opened Ordering
  import opened Records

  // ------------------------------------------------------ string facts

  lemma TrimKeepsOut(s: string, c: char)
    requires c !in s
    ensures c !in TrimStart(s) && c !in TrimEnd(s) && c !in Trim(s)
  {
  }

  /** Trimming what `trimEnd` left gives the full trim. */
  lemma TrimAfterTrimEnd(s: string)
    ensures Trim(TrimEnd(s)) == Trim(s)
  {
    var t := TrimEnd(s);
    if AllSpace(s) {
      BlankIffTrimEmpty(s);
      assert t == [];
    } else {
      assert t != [];
      var w := s[|t|..];
      assert s == t + w;
      assert !AllSpace(t) by { assert !IsSpace(t[|t| - 1]); }
      TrimStartConcat(t, w);
      TrimEndBeforeSpace(TrimStart(t), w);
      var u := TrimStart(t);
      assert u != [];
      assert u[|u| - 1] == t[|t| - 1];
    }
  }

  lemma NotAllSpaceBeforeNewline(p: string)
    requires !AllSpace(p + "\n")
    ensures !AllSpace(p)
  {
    var i :| 0 <= i < |p + "\n"| && !IsSpace((p + "\n")[i]);
    assert i < |p| && p[i] == (p + "\n")[i];
  }

  // ------------------------------------------------------ records of a file

  lemma {:induction false} NonBlankConcat(a: seq<string>, b: seq<string>)
    ensures NonBlank(a + b) == NonBlank(a) + NonBlank(b)
    decreases |a|
  {
    if a != [] {
      var ab := a + b;
      assert ab[0] == a[0] && ab[1..] == a[1..] + b;
      NonBlankConcat(a[1..], b);
      if IsBlank(a[0]) {
        assert NonBlank(ab) == NonBlank(ab[1..]);
      } else {
        assert NonBlank(ab) == [a[0]] + NonBlank(ab[1..]);
      }
    } else {
      assert a + b == b;
    }
  }

  /** The delete filter works line by line: filtering two runs of lines is filtering each. */
  lemma {:induction false} WithoutConcat(a: seq<string>, b: seq<string>, term: string)
    ensures Without(a + b, term) == Without(a, term) + Without(b, term)
    decreases |a|
  {
    if a != [] {
      var ab := a + b;
      assert ab[0] == a[0] && ab[1..] == a[1..] + b;
      WithoutConcat(a[1..], b, term);
      if Matches(a[0], term) {
        assert Without(ab, term) == Without(ab[1..], term);
      } else {
        assert Without(ab, term) == [a[0]] + Without(ab[1..], term);
      }
    } else {
      assert a + b == b;
    }
  }

  lemma {:induction false} NonBlankKeepsNonBlank(lines: seq<string>)
    requires forall i :: 0 <= i < |lines| ==> !IsBlank(lines[i])
    ensures NonBlank(lines) == lines
    decreases |lines|
  {
    if lines != [] {
      NonBlankKeepsNonBlank(lines[1..]);
    }
  }

  lemma {:induction false} NonBlankEmpty(lines: seq<string>)
    ensures NonBlank(lines) == [] <==> forall i :: 0 <= i < |lines| ==> IsBlank(lines[i])
    decreases |lines|
  {
    if lines != [] {
      var tail := lines[1..];
      NonBlankEmpty(tail);
      if IsBlank(lines[0]) {
        assert NonBlank(lines) == NonBlank(tail);
        assert (forall i :: 0 <= i < |lines| ==> IsBlank(lines[i]))
           <==> (forall i :: 0 <= i < |tail| ==> IsBlank(tail[i])) by {
          if forall i :: 0 <= i < |tail| ==> IsBlank(tail[i]) {
            forall i | 0 <= i < |lines| ensures IsBlank(lines[i]) {
              if i > 0 { assert lines[i] == tail[i - 1]; }
            }
          }
        }
      } else {
        assert NonBlank(lines) == [lines[0]] + NonBlank(tail);
      }
    }
  }

  predicate PiecesAllSpace(parts: seq<string>) {
    forall i :: 0 <= i < |parts| ==> AllSpace(parts[i])
  }

  lemma AllSpaceCons(c: char, t: string)
    ensures AllSpace([c] + t) <==> IsSpace(c) && AllSpace(t)
  {
    var u := [c] + t;
    assert u[0] == c;
    assert forall i :: 0 <= i < |t| ==> u[i + 1] == t[i];
  }

  lemma PiecesCons(h: string, t: seq<string>)
    ensures PiecesAllSpace([h] + t) <==> AllSpace(h) && PiecesAllSpace(t)
  {
    var u := [h] + t;
    assert u[0] == h;
    assert forall i :: 0 <= i < |t| ==> u[i + 1] == t[i];
  }

  lemma {:induction false} AllSpacePieces(s: string)
    ensures AllSpace(s) <==> PiecesAllSpace(Split(s, '\n'))
    decreases |s|
  {
    if |s| > 0 {
      AllSpacePieces(s[1..]);
      assert s == [s[0]] + s[1..];
      AllSpaceCons(s[0], s[1..]);
      if s[0] == '\n' {
        PiecesCons("", Split(s[1..], '\n'));
      } else {
        var rest := Split(s[1..], '\n');
        PiecesCons([s[0]] + rest[0], rest[1..]);
        AllSpaceCons(s[0], rest[0]);
        assert rest == [rest[0]] + rest[1..];
        PiecesCons(rest[0], rest[1..]);
      }
    }
  }

  /** A blank file is exactly one without records, so the blank guards change no outcome. */
  lemma BlankIffNoRecords(data: string)
    ensures IsBlank(data) <==> RecordLines(data) == []
  {
    var parts := Split(data, '\n');
    BlankIffTrimEmpty(data);
    AllSpacePieces(data);
    NonBlankEmpty(parts);
    forall i | 0 <= i < |parts|
      ensures IsBlank(parts[i]) <==> AllSpace(parts[i])
    {
      BlankIffTrimEmpty(parts[i]);
    }
  }

  /** Every record read from a file is non-blank and free of line feeds. */
  lemma RecordLinesAreRecords(data: string)
    ensures AllRecords(RecordLines(data))
  {
    var r := RecordLines(data);
    forall i | 0 <= i < |r|
      ensures IsRecord(r[i])
    {
      assert r[i] in r;
    }
  }

  /** Rewriting records and reading them back gives the same records. */
  lemma RecordsOfSerialize(lines: seq<string>)
    requires AllRecords(lines)
    ensures RecordLines(Serialize(lines)) == lines
  {
    var j := Join(lines, '\n');
    assert Serialize(lines) == j + ['\n'] + "";
    SplitConcat(j, "", '\n');
    if lines == [] {
      assert Split(Serialize(lines), '\n') == ["", ""];
    } else {
      SplitJoin(lines, '\n');
      NonBlankConcat(lines, [""]);
      NonBlankKeepsNonBlank(lines);
    }
  }

  /** Records written back make a well-formed file when at least one remains. */
  lemma SerializeWellFormed(lines: seq<string>)
    requires AllRecords(lines) && |lines| >= 1
    ensures WellFormed(Serialize(lines))
  {
    RecordsOfSerialize(lines);
  }

  // ------------------------------------------------------ rewrites

  /**
   * `deleteByIndex` writes exactly when the position is in range (a blank file
   * has none), and the file then holds the old records without the one at
   * that position, the others in order.
   */
  lemma DeleteByIndexLaw(data: string, index: int)
    ensures var lines := RecordLines(data);
      var r := DeleteByIndex(Content(data), index);
      && (r.Some? <==> 1 <= index <= |lines|)
      && (r.Some? ==> RecordLines(r.value) == lines[..index - 1] + lines[index..])
      && (r.Some? ==> |RecordLines(r.value)| == |lines| - 1)
  {
    var lines := RecordLines(data);
    BlankIffNoRecords(data);
    if 1 <= index <= |lines| {
      var kept := lines[..index - 1] + lines[index..];
      RemovedAreRecords(data, index);
      RecordsOfSerialize(kept);
      assert DeleteByIndex(Content(data), index) == Some(Serialize(kept));
    } else {
      assert DeleteByIndex(Content(data), index) == None;
    }
  }

  lemma RemovedAreRecords(data: string, index: int)
    requires 1 <= index <= |RecordLines(data)|
    ensures AllRecords(RecordLines(data)[..index - 1] + RecordLines(data)[index..])
  {
    var lines := RecordLines(data);
    RecordLinesAreRecords(data);
    var kept := lines[..index - 1] + lines[index..];
    forall i | 0 <= i < |kept| ensures IsRecord(kept[i]) {
      if i < index - 1 { assert kept[i] == lines[i]; } else { assert kept[i] == lines[i + 1]; }
    }
  }

  /**
   * `upgradeByIndex` writes exactly when the position is in range, and a
   * replacement that is itself a record takes that position alone.
   */
  lemma UpgradeByIndexLaw(data: string, index: int, newData: string)
    ensures var lines := RecordLines(data);
      var r := UpgradeByIndex(Content(data), index, newData);
      && (r.Some? <==> 1 <= index <= |lines|)
      && (r.Some? && IsRecord(newData) ==> RecordLines(r.value) == lines[index - 1 := newData])
  {
    var lines := RecordLines(data);
    BlankIffNoRecords(data);
    if 1 <= index <= |lines| {
      var updated := lines[index - 1 := newData];
      assert UpgradeByIndex(Content(data), index, newData) == Some(Serialize(updated));
      if IsRecord(newData) {
        RecordLinesAreRecords(data);
        ReplacedAreRecords(lines, index - 1, newData);
        RecordsOfSerialize(updated);
      }
    } else {
      assert UpgradeByIndex(Content(data), index, newData) == None;
    }
  }

  lemma ReplacedAreRecords(lines: seq<string>, k: int, newData: string)
    requires 0 <= k < |lines| && IsRecord(newData) && AllRecords(lines)
    ensures AllRecords(lines[k := newData])
  {
  }

  /**
   * `deleteByTerm` writes exactly when some record matches, and the file then
   * holds the records that do not match, in order.
   */
  lemma DeleteByTermLaw(data: string, term: string)
    ensures var lines := RecordLines(data);
      var r := DeleteByTerm(Content(data), term);
      && (r.Some? <==> exists i :: 0 <= i < |lines| && Matches(lines[i], term))
      && (r.Some? ==> RecordLines(r.value) == Without(lines, term))
  {
    var lines := RecordLines(data);
    BlankIffNoRecords(data);
    var kept := Without(lines, term);
    if |kept| == |lines| {
      assert DeleteByTerm(Content(data), term) == None;
    } else {
      assert DeleteByTerm(Content(data), term) == Some(Serialize(kept));
      KeptAreRecords(data, term);
      RecordsOfSerialize(kept);
    }
  }

  lemma KeptAreRecords(data: string, term: string)
    ensures AllRecords(Without(RecordLines(data), term))
  {
    var lines := RecordLines(data);
    RecordLinesAreRecords(data);
    var kept := Without(lines, term);
    forall i | 0 <= i < |kept| ensures IsRecord(kept[i]) {
      assert kept[i] in kept;
      var j :| 0 <= j < |lines| && lines[j] == kept[i];
    }
  }

  /** Every line contains the empty term: a non-blank file is emptied down to a single line feed. */
  lemma DeleteByEmptyTerm(data: string)
    ensures DeleteByTerm(Content(data), "") == if IsBlank(data) then None else Some("\n")
  {
    var lines := RecordLines(data);
    BlankIffNoRecords(data);
    var kept := Without(lines, "");
    if kept != [] {
      MatchesEmpty(kept[0]);
    }
    if !IsBlank(data) {
      assert DeleteByTerm(Content(data), "") == Some(Serialize(kept));
      assert Serialize([]) == "\n";
    }
  }

  lemma MatchesEmpty(line: string)
    ensures Matches(line, "")
  {
    assert Lower("") == "";
    assert "" <= Lower(line);
  }

  /**
   * `upgradeByTerm` writes exactly when some record matches; the first
   * matching record is the one replaced, and a replacement that is itself a
   * record takes that position alone.
   */
  lemma UpgradeByTermLaw(data: string, term: string, newData: string)
    ensures var lines := RecordLines(data);
      var r := UpgradeByTerm(Content(data), term, newData);
      && (r.Some? <==> exists i :: 0 <= i < |lines| && Matches(lines[i], term))
      && (r.Some? ==> var k := FindFirst(lines, term);
            && 0 <= k < |lines| && Matches(lines[k], term)
            && (forall j :: 0 <= j < k ==> !Matches(lines[j], term))
            && (IsRecord(newData) ==> RecordLines(r.value) == lines[k := newData]))
  {
    var lines := RecordLines(data);
    BlankIffNoRecords(data);
    var k := FindFirst(lines, term);
    if k == -1 {
      assert UpgradeByTerm(Content(data), term, newData) == None;
    } else {
      assert UpgradeByTerm(Content(data), term, newData) == Some(Serialize(lines[k := newData]));
      if IsRecord(newData) {
        RecordLinesAreRecords(data);
        ReplacedAreRecords(lines, k, newData);
        RecordsOfSerialize(lines[k := newData]);
      }
    }
  }

  /**
   * Rewrites normalise the file: a successful replacement by a record, or a
   * deletion that leaves a record, stores a well-formed file whatever the old
   * content looked like.
   */
  lemma RewritesAreWellFormed(data: string, index: int, term: string, newData: string)
    ensures IsRecord(newData) && UpgradeByIndex(Content(data), index, newData).Some? ==>
      WellFormed(UpgradeByIndex(Content(data), index, newData).value)
    ensures IsRecord(newData) && UpgradeByTerm(Content(data), term, newData).Some? ==>
      WellFormed(UpgradeByTerm(Content(data), term, newData).value)
    ensures DeleteByIndex(Content(data), index).Some? && |RecordLines(data)| >= 2 ==>
      WellFormed(DeleteByIndex(Content(data), index).value)
    ensures DeleteByTerm(Content(data), term).Some? && Without(RecordLines(data), term) != [] ==>
      WellFormed(DeleteByTerm(Content(data), term).value)
  {
    var lines := RecordLines(data);
    UpgradeByIndexLaw(data, index, newData);
    UpgradeByTermLaw(data, term, newData);
    DeleteByIndexLaw(data, index);
    DeleteByTermLaw(data, term);
  }

  // ------------------------------------------------------ create

  /** `trim` of a content ending in a record and a line feed ends in that record trimmed. */
  lemma LastLineAfterCreate(d: string, newRow: string)
    requires IsRecord(newRow)
    requires EndsLine(d)
    ensures var fileLines := Split(Trim(d + newRow + "\n"), '\n');
      Trim(fileLines[|fileLines| - 1]) == Trim(newRow)
  {
    if AllSpace(d) {
      LastLineAfterBlank(d, newRow);
    } else {
      var p := d[..|d| - 1];
      SplitLast(d);
      NotAllSpaceBeforeNewline(p);
      LastLineAfterRecords(p, newRow);
      assert d + newRow + "\n" == p + "\n" + newRow + "\n";
    }
  }

  lemma SplitLast(d: string)
    requires |d| > 0
    ensures d == d[..|d| - 1] + [d[|d| - 1]]
  {
  }

  lemma LastLineAfterBlank(d: string, newRow: string)
    requires IsRecord(newRow) && AllSpace(d)
    ensures var fileLines := Split(Trim(d + newRow + "\n"), '\n');
      Trim(fileLines[|fileLines| - 1]) == Trim(newRow)
  {
    TrimAfterBlank(d, newRow);
    TrimKeepsOut(newRow, '\n');
    SplitNoSep(Trim(newRow), '\n');
    TrimIdempotent(newRow);
  }

  lemma LastLineAfterRecords(p: string, newRow: string)
    requires IsRecord(newRow) && !AllSpace(p)
    ensures var fileLines := Split(Trim(p + "\n" + newRow + "\n"), '\n');
      Trim(fileLines[|fileLines| - 1]) == Trim(newRow)
  {
    TrimAfterRecords(p, newRow);
    var a, b := TrimStart(p), TrimEnd(newRow);
    SplitConcat(a, b, '\n');
    TrimKeepsOut(newRow, '\n');
    SplitNoSep(b, '\n');
    TrimAfterTrimEnd(newRow);
  }

  lemma TrimAfterBlank(d: string, newRow: string)
    requires AllSpace(d) && !AllSpace(newRow)
    ensures Trim(d + newRow + "\n") == Trim(newRow)
  {
    TrimStartAfterBlank(d, newRow);
    TrimEndBeforeSpace(TrimStart(newRow), "\n");
  }

  lemma TrimStartAfterBlank(d: string, newRow: string)
    requires AllSpace(d) && !AllSpace(newRow)
    ensures TrimStart(d + newRow + "\n") == TrimStart(newRow) + "\n"
  {
    ConcatAssoc(d, newRow, "\n");
    TrimStartAfterSpace(d, newRow + "\n");
    TrimStartConcat(newRow, "\n");
  }

  lemma TrimAfterRecords(p: string, newRow: string)
    requires !AllSpace(p) && !AllSpace(newRow)
    ensures Trim(p + "\n" + newRow + "\n") == TrimStart(p) + "\n" + TrimEnd(newRow)
  {
    TrimStartOfRecords(p, newRow);
    TrimEndOfRecords(TrimStart(p) + "\n", newRow);
  }

  lemma TrimStartOfRecords(p: string, newRow: string)
    requires !AllSpace(p)
    ensures TrimStart(p + "\n" + newRow + "\n") == TrimStart(p) + "\n" + newRow + "\n"
  {
    var q := TrimStart(p);
    ConcatAssoc(p + "\n", newRow, "\n");
    ConcatAssoc(p, "\n", newRow + "\n");
    TrimStartConcat(p, "\n" + (newRow + "\n"));
    ConcatAssoc(q + "\n", newRow, "\n");
    ConcatAssoc(q, "\n", newRow + "\n");
  }

  lemma TrimEndOfRecords(x: string, newRow: string)
    requires !AllSpace(newRow)
    ensures TrimEnd(x + newRow + "\n") == x + TrimEnd(newRow)
  {
    TrimEndBeforeSpace(x + newRow, "\n");
    TrimEndConcat(x, newRow);
  }

  /** The content a create appends to: the file's content, a missing file counting as empty. */
  function Prior(stored: Stored): string {
    if stored.Content? then stored.data else ""
  }

  /** Empty, or ending in a line feed: what every write of the store leaves behind. */
  predicate EndsLine(d: string) {
    d == "" || d[|d| - 1] == '\n'
  }

  /** A create that writes was given a non-blank row for a readable file, and appends the row and a line feed. */
  lemma CreateWrites(stored: Stored, newRow: string)
    requires CreateRow(stored, newRow).Some?
    ensures !IsBlank(newRow) && !stored.Unreadable?
    ensures CreateRow(stored, newRow).value == Prior(stored) + newRow + "\n"
  {
    if stored.Missing? {
      assert "" + newRow + "\n" == newRow + "\n";
    }
  }

  /**
   * Creating a record twice: once the first create has written, a second
   * create of the same record, up to case and outer whitespace, is rejected.
   * Holds for a missing file and for any file that is empty or ends in a line
   * feed, which every write of the store leaves.
   */
  lemma CreateRejectsRepeat(stored: Stored, newRow: string, again: string)
    requires IsRecord(newRow) && SameRecord(again, newRow)
    requires stored.Missing? || (stored.Content? && EndsLine(stored.data))
    requires CreateRow(stored, newRow).Some?
    ensures CreateRow(Content(CreateRow(stored, newRow).value), again) == None
  {
    CreateWrites(stored, newRow);
    RejectsAfterAppend(Prior(stored), newRow, again);
  }

  lemma RejectsAfterAppend(d: string, newRow: string, again: string)
    requires IsRecord(newRow) && SameRecord(again, newRow) && EndsLine(d)
    ensures CreateRow(Content(d + newRow + "\n"), again) == None
  {
    LastLineAfterCreate(d, newRow);
  }

  /** A line without a line feed, followed by one, splits into the line and an empty piece. */
  lemma SplitOfLine(x: string)
    requires '\n' !in x
    ensures Split(x + "\n", '\n') == [x, ""]
  {
    assert x + "\n" == x + ['\n'] + "";
    SplitConcat(x, "", '\n');
    SplitNoSep(x, '\n');
  }

  lemma RecordsOfLine(x: string)
    requires IsRecord(x)
    ensures RecordLines(x + "\n") == [x]
  {
    SplitOfLine(x);
    NonBlankConcat([x], [""]);
    NonBlankKeepsNonBlank([x]);
    assert NonBlank([""]) == [];
  }

  /** Appending a record and a line feed to content that ends a line adds exactly that record. */
  lemma RecordsAfterAppend(d: string, newRow: string)
    requires IsRecord(newRow) && EndsLine(d)
    ensures RecordLines(d + newRow + "\n") == RecordLines(d) + [newRow]
  {
    RecordsOfLine(newRow);
    if d == "" {
      assert d + newRow + "\n" == newRow + "\n";
      assert RecordLines("") == [];
    } else {
      var p := d[..|d| - 1];
      SplitLast(d);
      RecordsAfterLine(p, newRow);
      assert d + newRow + "\n" == p + ['\n'] + (newRow + "\n");
    }
  }

  lemma RecordsAfterLine(p: string, newRow: string)
    requires IsRecord(newRow)
    ensures RecordLines(p + "\n") == NonBlank(Split(p, '\n'))
    ensures RecordLines(p + ['\n'] + (newRow + "\n")) == NonBlank(Split(p, '\n')) + [newRow]
  {
    RecordsBeforeLineFeed(p);
    RecordsBeforeRow(p, newRow);
  }

  lemma RecordsBeforeLineFeed(p: string)
    ensures RecordLines(p + "\n") == NonBlank(Split(p, '\n'))
  {
    var sp := Split(p, '\n');
    assert p + "\n" == p + ['\n'] + "";
    SplitConcat(p, "", '\n');
    NonBlankConcat(sp, [""]);
    assert NonBlank([""]) == [];
  }

  lemma RecordsBeforeRow(p: string, newRow: string)
    requires IsRecord(newRow)
    ensures RecordLines(p + ['\n'] + (newRow + "\n")) == NonBlank(Split(p, '\n')) + [newRow]
  {
    SplitConcat(p, newRow + "\n", '\n');
    SplitOfLine(newRow);
    NonBlankConcat(Split(p, '\n'), [newRow, ""]);
    RecordsOfLine(newRow);
  }

  /** A create that writes adds exactly its row as the last record. */
  lemma CreateAddsOneRecord(stored: Stored, newRow: string)
    requires IsRecord(newRow)
    requires stored.Missing? || (stored.Content? && EndsLine(stored.data))
    requires CreateRow(stored, newRow).Some?
    ensures var before := if stored.Missing? then [] else RecordLines(stored.data);
      RecordLines(CreateRow(stored, newRow).value) == before + [newRow]
  {
    CreateWrites(stored, newRow);
    RecordsAfterAppend(Prior(stored), newRow);
    if stored.Missing? {
      assert RecordLines("") == [];
    }
  }

  /** A well-formed file stays well formed when a record is created in it. */
  lemma CreateKeepsWellFormed(stored: Stored, newRow: string)
    requires IsRecord(newRow)
    requires stored.Missing? || (stored.Content? && WellFormed(stored.data))
    requires CreateRow(stored, newRow).Some?
    ensures WellFormed(CreateRow(stored, newRow).value)
  {
    var c := CreateRow(stored, newRow).value;
    CreateWrites(stored, newRow);
    if stored.Content? {
      var d := stored.data;
      var before := RecordLines(d);
      assert d == Join(before, '\n') + "\n";
      assert EndsLine(d);
      CreateAddsOneRecord(stored, newRow);
      JoinAppend(before, newRow);
      assert c == Join(before, '\n') + "\n" + newRow + "\n";
      assert Join(before, '\n') + "\n" + newRow == Join(before, '\n') + ['\n'] + newRow;
    } else {
      CreateAddsOneRecord(stored, newRow);
      assert c == Serialize([newRow]);
    }
  }

  lemma {:induction false} JoinAppend(lines: seq<string>, x: string)
    requires |lines| >= 1
    ensures Join(lines + [x], '\n') == Join(lines, '\n') + ['\n'] + x
    decreases |lines|
  {
    if |lines| > 1 {
      assert (lines + [x])[1..] == lines[1..] + [x];
      JoinAppend(lines[1..], x);
    }
  }

  // ------------------------------------------------------ read strategies

  predicate AllTidy(lines: seq<string>) {
    forall i :: 0 <= i < |lines| ==> Tidy(lines[i])
  }

  lemma TidyAreRecords(lines: seq<string>)
    requires AllTidy(lines)
    ensures AllRecords(lines)
  {
    forall i | 0 <= i < |lines| ensures IsRecord(lines[i]) {
      TidyTrim(lines[i]);
    }
  }

  /** A join of tidy records starts with the first record's first character. */
  lemma JoinFirst(lines: seq<string>)
    requires |lines| >= 1 && Tidy(lines[0])
    ensures var j := Join(lines, '\n'); |j| > 0 && j[0] == lines[0][0]
  {
    if |lines| > 1 {
      var j := Join(lines[1..], '\n');
      assert Join(lines, '\n') == lines[0] + ['\n'] + j;
      assert (lines[0] + ['\n'] + j)[0] == lines[0][0];
    }
  }

  /** A join of tidy records ends with the last record's last character. */
  lemma {:induction false} JoinLast(lines: seq<string>)
    requires |lines| >= 1 && Tidy(lines[|lines| - 1])
    ensures var j := Join(lines, '\n'); |j| > 0 && j[|j| - 1] == lines[|lines| - 1][|lines[|lines| - 1]| - 1]
    decreases |lines|
  {
    if |lines| > 1 {
      var rest := lines[1..];
      assert rest[|rest| - 1] == lines[|lines| - 1];
      JoinLast(rest);
      var j := Join(rest, '\n');
      assert Join(lines, '\n') == lines[0] + ['\n'] + j;
      LastOfConcat(lines[0] + ['\n'], j);
    }
  }

  lemma LastOfConcat(p: string, j: string)
    requires |j| > 0
    ensures (p + j)[|p + j| - 1] == j[|j| - 1]
  {
  }

  lemma JoinEnds(lines: seq<string>)
    requires |lines| >= 1 && AllTidy(lines)
    ensures var j := Join(lines, '\n');
      |j| > 0 && j[0] == lines[0][0] && j[|j| - 1] == lines[|lines| - 1][|lines[|lines| - 1]| - 1]
  {
    JoinFirst(lines);
    JoinLast(lines);
  }

  /** A file of tidy records trims to the records joined by line feeds. */
  lemma TrimOfTidyFile(lines: seq<string>)
    requires |lines| >= 1 && AllTidy(lines)
    ensures Trim(Serialize(lines)) == Join(lines, '\n')
  {
    var j := Join(lines, '\n');
    JoinEnds(lines);
    assert TrimStart(j + "\n") == j + "\n";
    assert (j + "\n")[..|j + "\n"| - 1] == j;
    assert TrimEnd(j) == j;
  }

  lemma {:induction false} TrimmedTidy(lines: seq<string>)
    requires AllTidy(lines)
    ensures TrimmedRecords(lines) == lines
    decreases |lines|
  {
    if lines != [] {
      var init, last := lines[..|lines| - 1], lines[|lines| - 1];
      assert forall i :: 0 <= i < |init| ==> init[i] == lines[i];
      assert lines == init + [last];
      TrimmedTidy(init);
      TrimmedSnocTidy(init, last);
    }
  }

  lemma TrimmedSnocTidy(init: seq<string>, last: string)
    requires Tidy(last)
    ensures TrimmedRecords(init + [last]) == TrimmedRecords(init) + [last]
  {
    assert (init + [last])[..|init|] == init;
    TidyTrim(last);
  }

  /** `readline` returns the records of a rewritten file, or one empty line for `"\n"`. */
  lemma ReadLinesOfSerialize(lines: seq<string>)
    requires forall i :: 0 <= i < |lines| ==> '\n' !in lines[i]
    ensures ReadLines(Serialize(lines)) == if lines == [] then [""] else lines
  {
    var j := Join(lines, '\n');
    assert Serialize(lines) == j + ['\n'] + "";
    SplitConcat(j, "", '\n');
    if lines != [] {
      SplitJoin(lines, '\n');
      assert (lines + [""])[..|lines|] == lines;
    }
  }

  /** A file of exactly `limit` characters is read whole; one character more and it is streamed. */
  lemma SizeLimitBoundary(data: string, index: int)
    ensures !IsLargeFile(data, |data|) && (|data| >= 1 ==> IsLargeFile(data, |data| - 1))
    ensures CollectedRows(data, |data|) == WholeFileRows(data)
    ensures |data| >= 1 ==> CollectedRows(data, |data| - 1) == StreamedRows(data)
    ensures IndexRow(Content(data), |data|, index) == IndexWhole(data, index)
    ensures |data| >= 1 ==> IndexRow(Content(data), |data| - 1, index) == IndexStreamed(data, index)
  {
  }

  /** The whole-file branch collects only records, untrimmed. */
  lemma WholeRowsAreRecords(data: string)
    ensures AllRecords(WholeFileRows(data))
  {
    var parts := Split(Trim(data), '\n');
    var rows := NonBlank(parts);
    forall i | 0 <= i < |rows| ensures IsRecord(rows[i]) {
      assert rows[i] in rows;
      var j :| 0 <= j < |parts| && parts[j] == rows[i];
    }
  }

  /** The whole-file branch collects nothing exactly when the file is blank. */
  lemma WholeRowsEmpty(data: string)
    ensures WholeFileRows(data) == [] <==> IsBlank(data)
  {
    var t := Trim(data);
    BlankIffTrimEmpty(data);
    BlankIffTrimEmpty(t);
    TrimIdempotent(data);
    AllSpacePieces(t);
    NonBlankEmpty(Split(t, '\n'));
  }

  /** A record trimmed is tidy. */
  lemma TrimOfRecordIsTidy(x: string)
    requires IsRecord(x)
    ensures Tidy(Trim(x))
  {
    var k := TrimShape(x);
    BlankIffTrimEmpty(x);
    TrimKeepsOut(x, '\n');
  }

  /** The streaming branch trims every non-blank line it reads, so lines without line feeds give tidy rows. */
  lemma {:induction false} TrimmedRecordsTidy(lines: seq<string>)
    requires forall i :: 0 <= i < |lines| ==> '\n' !in lines[i]
    ensures AllTidy(TrimmedRecords(lines))
    decreases |lines|
  {
    if lines != [] {
      var init, last := lines[..|lines| - 1], lines[|lines| - 1];
      assert forall i :: 0 <= i < |init| ==> init[i] == lines[i];
      TrimmedRecordsTidy(init);
      if !IsBlank(last) {
        TrimOfRecordIsTidy(last);
      }
    }
  }

  /** The streaming branch collects nothing exactly when every line is blank. */
  lemma {:induction false} TrimmedRecordsEmpty(lines: seq<string>)
    ensures TrimmedRecords(lines) == [] <==> forall i :: 0 <= i < |lines| ==> IsBlank(lines[i])
    decreases |lines|
  {
    if lines != [] {
      var init, last := lines[..|lines| - 1], lines[|lines| - 1];
      TrimmedRecordsEmpty(init);
      if IsBlank(last) {
        assert (forall i :: 0 <= i < |lines| ==> IsBlank(lines[i]))
           <==> (forall i :: 0 <= i < |init| ==> IsBlank(init[i])) by {
          if forall i :: 0 <= i < |init| ==> IsBlank(init[i]) {
            forall i | 0 <= i < |lines| ensures IsBlank(lines[i]) {
              if i < |init| { assert lines[i] == init[i]; }
            }
          }
        }
      }
    }
  }

  /** Every line `readline` delivers is blank exactly when the whole content is. */
  lemma ReadLinesBlank(data: string)
    ensures (forall i :: 0 <= i < |ReadLines(data)| ==> IsBlank(ReadLines(data)[i])) <==> IsBlank(data)
  {
    var parts := Split(data, '\n');
    AllSpacePieces(data);
    var lines := ReadLines(data);
    if parts[|parts| - 1] == "" {
      assert forall i :: 0 <= i < |lines| ==> lines[i] == parts[i];
      assert AllSpace(parts[|parts| - 1]);
    }
  }

  /** The streaming branch collects only tidy rows, and nothing exactly when the file is blank. */
  lemma StreamedRowsShape(data: string)
    ensures AllTidy(StreamedRows(data))
    ensures StreamedRows(data) == [] <==> IsBlank(data)
  {
    TrimmedRecordsTidy(ReadLines(data));
    TrimmedRecordsEmpty(ReadLines(data));
    ReadLinesBlank(data);
  }

  /** Line `i` of `lines` is not blank and trims to `x`. */
  predicate Yields(lines: seq<string>, i: int, x: string) {
    0 <= i < |lines| && !IsBlank(lines[i]) && Trim(lines[i]) == x
  }

  /** The streaming branch collects a row exactly when some non-blank line trims to it. */
  lemma {:induction false} TrimmedRecordsHas(lines: seq<string>, x: string)
    ensures x in TrimmedRecords(lines) <==> exists i :: Yields(lines, i, x)
    decreases |lines|
  {
    if lines != [] {
      var n := |lines| - 1;
      var init, last := lines[..n], lines[n];
      assert lines == init + [last];
      TrimmedRecordsHas(init, x);
      TrimmedSnocHas(init, last, x);
      YieldsSnoc(init, last, x);
    }
  }

  lemma TrimmedSnocHas(init: seq<string>, last: string, x: string)
    ensures x in TrimmedRecords(init + [last])
        <==> x in TrimmedRecords(init) || (!IsBlank(last) && Trim(last) == x)
  {
    assert (init + [last])[..|init|] == init;
  }

  lemma YieldsSnoc(init: seq<string>, last: string, x: string)
    ensures (exists i :: Yields(init + [last], i, x))
        <==> (exists i :: Yields(init, i, x)) || (!IsBlank(last) && Trim(last) == x)
  {
    var lines := init + [last];
    if exists i :: Yields(lines, i, x) {
      var i :| Yields(lines, i, x);
      if i < |init| {
        assert Yields(init, i, x);
      }
    }
    if exists i :: Yields(init, i, x) {
      var i :| Yields(init, i, x);
      assert Yields(lines, i, x);
    }
    if !IsBlank(last) && Trim(last) == x {
      assert Yields(lines, |init|, x);
    }
  }

  /**
   * What `getIndexRow` can find on a streamed file is exactly what
   * `getPaginatedRows` collects from it: some index finds `x` exactly when
   * `x` is one of the streamed rows.
   */
  lemma IndexStreamedFindsRows(data: string, x: string)
    ensures (exists index :: IndexStreamed(data, index) == Some(x)) <==> x in StreamedRows(data)
  {
    var lines := ReadLines(data);
    TrimmedRecordsHas(lines, x);
    if exists index :: IndexStreamed(data, index) == Some(x) {
      var index :| IndexStreamed(data, index) == Some(x);
      BlankIffTrimEmpty(lines[index - 1]);
      assert Yields(lines, index - 1, x);
    }
    if exists i :: Yields(lines, i, x) {
      var i :| Yields(lines, i, x);
      BlankIffTrimEmpty(lines[i]);
      assert IndexStreamed(data, i + 1) == Some(x);
    }
  }

  /**
   * What `getIndexRow` can find on a file read whole is, trimmed, what
   * `getPaginatedRows` collects from it: some index finds `x` exactly when
   * some collected row trims to `x`.
   */
  lemma IndexWholeFindsRows(data: string, x: string)
    ensures (exists index :: IndexWhole(data, index) == Some(x))
        <==> exists row :: row in WholeFileRows(data) && Trim(row) == x
  {
    var fileLines := Split(Trim(data), '\n');
    NonBlankHas(fileLines, x);
    if exists index :: IndexWhole(data, index) == Some(x) {
      var index :| IndexWhole(data, index) == Some(x);
      IndexWholeYields(data, index, x);
    }
    if exists i :: Yields(fileLines, i, x) {
      var i :| Yields(fileLines, i, x);
      IndexWholeYields(data, i + 1, x);
    }
  }

  /** Position `index` of the whole-file branch finds `x` exactly when that line is not blank and trims to `x`. */
  lemma IndexWholeYields(data: string, index: int, x: string)
    ensures IndexWhole(data, index) == Some(x) <==> Yields(Split(Trim(data), '\n'), index - 1, x)
  {
    var fileLines := Split(Trim(data), '\n');
    if 1 <= index <= |fileLines| {
      BlankIffTrimEmpty(fileLines[index - 1]);
    }
  }

  /** The non-blank filter keeps a line trimming to `x` exactly when some non-blank line trims to `x`. */
  lemma NonBlankHas(parts: seq<string>, x: string)
    ensures (exists row :: row in NonBlank(parts) && Trim(row) == x) <==> exists i :: Yields(parts, i, x)
  {
    if exists row :: row in NonBlank(parts) && Trim(row) == x {
      var row :| row in NonBlank(parts) && Trim(row) == x;
      KeptYields(parts, row, x);
    }
    if exists i :: Yields(parts, i, x) {
      var i :| Yields(parts, i, x);
      assert parts[i] in parts;
    }
  }

  lemma KeptYields(parts: seq<string>, row: string, x: string)
    requires row in NonBlank(parts) && Trim(row) == x
    ensures exists i :: Yields(parts, i, x)
  {
    var rows := NonBlank(parts);
    var j :| 0 <= j < |rows| && rows[j] == row;
    var i :| 0 <= i < |parts| && parts[i] == row;
    assert Yields(parts, i, x);
  }

  /**
   * On a file of tidy records the duplicate check of `createRow` compares the
   * new row, trimmed, with each record, ignoring case.
   */
  lemma DuplicateOfTidy(lines: seq<string>, newRow: string)
    requires |lines| >= 1 && AllTidy(lines)
    ensures IsDuplicate(Serialize(lines), newRow)
        <==> exists i :: 0 <= i < |lines| && Lower(lines[i]) == Lower(Trim(newRow))
  {
    TidyLinesSplit(lines);
    SameAsTidy(lines, newRow);
  }

  /** The whole-file branch splits a file of tidy records into exactly those records. */
  lemma TidyLinesSplit(lines: seq<string>)
    requires |lines| >= 1 && AllTidy(lines)
    ensures Split(Trim(Serialize(lines)), '\n') == lines
  {
    TrimOfTidyFile(lines);
    SplitJoin(lines, '\n');
  }

  /** A tidy record is its own trim, so comparing it with a row up to case and outer whitespace ignores its trim. */
  lemma SameAsTidy(lines: seq<string>, newRow: string)
    requires AllTidy(lines)
    ensures (exists i :: 0 <= i < |lines| && SameRecord(lines[i], newRow))
        <==> exists i :: 0 <= i < |lines| && Lower(lines[i]) == Lower(Trim(newRow))
  {
    forall i | 0 <= i < |lines| ensures Trim(lines[i]) == lines[i] {
      TidyTrim(lines[i]);
    }
  }

  /** The file a store holds after every record was deleted: one line feed, read as no records by both strategies. */
  lemma EmptyFileReads()
    ensures Trim("\n") == "" && ReadLines("\n") == [""]
    ensures WholeFileRows("\n") == [] && StreamedRows("\n") == []
    ensures forall index :: IndexWhole("\n", index) == None && IndexStreamed("\n", index) == None
  {
    LineFeedTrims();
    LineFeedReadsBlank();
    BlankLineRows();
  }

  lemma LineFeedTrims()
    ensures Trim("\n") == ""
  {
    assert TrimStart("\n") == TrimStart("");
  }

  lemma LineFeedReadsBlank()
    ensures ReadLines("\n") == [""]
  {
    assert "\n" == "" + ['\n'] + "";
    SplitConcat("", "", '\n');
  }

  /** A single empty line holds no record. */
  lemma BlankLineRows()
    ensures NonBlank(Split("", '\n')) == [] && TrimmedRecords([""]) == []
    ensures TrimmedRow("") == None
  {
    assert Split("", '\n') == [""];
    assert TrimmedRecords([""]) == TrimmedRecords([]) + [];
  }

  lemma EmptyFileIndex(limit: int, index: int)
    ensures IndexRow(Content(Serialize([])), limit, index) == None
  {
    var data := Serialize([]);
    assert data == "\n";
    EmptyFileReads();
    if IsLargeFile(data, limit) {
      assert IndexRow(Content(data), limit, index) == IndexStreamed(data, index);
    } else {
      assert IndexRow(Content(data), limit, index) == IndexWhole(data, index);
    }
  }

  lemma WholeRowsOfTidy(lines: seq<string>)
    requires |lines| >= 1 && AllTidy(lines)
    ensures Split(Trim(Serialize(lines)), '\n') == lines
    ensures WholeFileRows(Serialize(lines)) == lines
  {
    TrimOfTidyFile(lines);
    TidyAreRecords(lines);
    SplitJoin(lines, '\n');
    NonBlankKeepsNonBlank(lines);
  }

  lemma StreamedRowsOfTidy(lines: seq<string>)
    requires |lines| >= 1 && AllTidy(lines)
    ensures ReadLines(Serialize(lines)) == lines
    ensures StreamedRows(Serialize(lines)) == lines
  {
    TidyAreRecords(lines);
    ReadLinesOfSerialize(lines);
    TrimmedTidy(lines);
  }

  lemma IndexOfTidy(lines: seq<string>, index: int)
    requires |lines| >= 1 && AllTidy(lines)
    ensures IndexWhole(Serialize(lines), index) == (if 1 <= index <= |lines| then Some(lines[index - 1]) else None)
    ensures IndexStreamed(Serialize(lines), index) == (if 1 <= index <= |lines| then Some(lines[index - 1]) else None)
  {
    WholeRowsOfTidy(lines);
    StreamedRowsOfTidy(lines);
    if 1 <= index <= |lines| {
      TidyTrim(lines[index - 1]);
    }
  }

  /**
   * On a file of tidy records the two strategies agree: both collect exactly
   * the records, and both find the record at every position and nothing
   * outside `[1, count]`.
   */
  lemma StrategiesAgree(lines: seq<string>)
    requires AllTidy(lines)
    ensures WholeFileRows(Serialize(lines)) == lines
    ensures StreamedRows(Serialize(lines)) == lines
    ensures forall index :: IndexWhole(Serialize(lines), index) == IndexStreamed(Serialize(lines), index)
                         == (if 1 <= index <= |lines| then Some(lines[index - 1]) else None)
  {
    if lines == [] {
      assert Serialize(lines) == "\n";
      EmptyFileReads();
    } else {
      WholeRowsOfTidy(lines);
      StreamedRowsOfTidy(lines);
      forall index: int
        ensures IndexWhole(Serialize(lines), index) == IndexStreamed(Serialize(lines), index)
             == (if 1 <= index <= |lines| then Some(lines[index - 1]) else None)
      {
        IndexOfTidy(lines, index);
      }
    }
  }

  /** On a file of tidy records the size limit changes neither read. */
  lemma LimitIrrelevantOnTidyFiles(lines: seq<string>, limit1: int, limit2: int, quantity: int, asc: bool, page: int, index: int)
    requires AllTidy(lines)
    ensures PaginatedRows(Content(Serialize(lines)), limit1, quantity, asc, page)
         == PaginatedRows(Content(Serialize(lines)), limit2, quantity, asc, page)
    ensures IndexRow(Content(Serialize(lines)), limit1, index) == IndexRow(Content(Serialize(lines)), limit2, index)
  {
    CollectedOfTidy(lines, limit1);
    CollectedOfTidy(lines, limit2);
    if lines == [] {
      EmptyFileIndex(limit1, index);
      EmptyFileIndex(limit2, index);
    } else {
      IndexRowOfTidy(lines, limit1, index);
      IndexRowOfTidy(lines, limit2, index);
    }
  }

  lemma CollectedOfTidy(lines: seq<string>, limit: int)
    requires AllTidy(lines)
    ensures CollectedRows(Serialize(lines), limit) == lines
  {
    StrategiesAgree(lines);
  }

  lemma TidyTrims(x: string)
    requires Tidy(x)
    ensures TrimStart(x) == x && TrimEnd(x) == x && Trim(x) == x
    ensures !AllSpace(x) && Split(x, '\n') == [x]
  {
    SplitNoSep(x, '\n');
  }

  lemma TrimLeadingBlank(x: string)
    requires Tidy(x)
    ensures Trim("\n" + x + "\n") == x
  {
    TidyTrims(x);
    ConcatAssoc("\n", x, "\n");
    TrimStartAfterSpace("\n", x + "\n");
    TrimStartConcat(x, "\n");
    TrimEndBeforeSpace(x, "\n");
  }

  lemma SplitLeadingBlank(x: string)
    requires '\n' !in x
    ensures Split("\n" + x + "\n", '\n') == ["", x, ""]
  {
    assert "\n" + x + "\n" == "" + ['\n'] + (x + "\n");
    SplitConcat("", x + "\n", '\n');
    SplitOfLine(x);
  }

  /**
   * A leading blank line shifts the positions of the streaming branch by one
   * but is trimmed away by the whole-file branch: position 1 of `"\n" + x + "\n"`
   * is `x` for the one and absent for the other.
   */
  lemma LeadingBlankLineShiftsIndex(x: string)
    requires Tidy(x)
    ensures IndexWhole("\n" + x + "\n", 1) == Some(x)
    ensures IndexStreamed("\n" + x + "\n", 1) == None
  {
    TidyTrims(x);
    TrimLeadingBlank(x);
    SplitLeadingBlank(x);
    assert Trim("") == "";
  }

  /**
   * Emptying a file and creating a record again.  Deleting the only record
   * leaves a lone line feed, and the next create appends after it, so the
   * file starts with a blank line.  The whole-file branch then finds the
   * record at position 1; the streaming branch, once the file is over the
   * limit, finds nothing there and the record only at position 2.
   */
  lemma CreateAfterEmptied(x: string)
    requires Tidy(x)
    ensures DeleteByIndex(Content(x + "\n"), 1) == Some("\n")
    ensures CreateRow(Content("\n"), x) == Some("\n" + x + "\n")
    ensures var c := "\n" + x + "\n";
      && IndexRow(Content(c), |c|, 1) == Some(x)
      && IndexRow(Content(c), |c| - 1, 1) == None
      && IndexRow(Content(c), |c| - 1, 2) == Some(x)
  {
    var c := "\n" + x + "\n";
    EmptiedByDelete(x);
    CreateOnLineFeed(x);
    LeadingBlankLineShiftsIndex(x);
    StreamedSecondLine(x);
    SizeLimitBoundary(c, 1);
    SizeLimitBoundary(c, 2);
  }

  lemma EmptiedByDelete(x: string)
    requires Tidy(x)
    ensures DeleteByIndex(Content(x + "\n"), 1) == Some("\n")
  {
    TidyTrims(x);
    assert Serialize([x]) == x + "\n";
    RecordsOfSerialize([x]);
    assert !IsSpace((x + "\n")[0]);
    assert [x][..0] + [x][1..] == [];
    assert Serialize([]) == "\n";
  }

  lemma CreateOnLineFeed(x: string)
    requires Tidy(x)
    ensures CreateRow(Content("\n"), x) == Some("\n" + x + "\n")
  {
    TidyTrims(x);
    LineFeedTrims();
    assert Split("", '\n') == [""];
    assert Trim("") == "";
    assert |Lower(Trim(x))| > 0;
    assert !IsDuplicate("\n", x);
  }

  lemma StreamedSecondLine(x: string)
    requires Tidy(x)
    ensures IndexStreamed("\n" + x + "\n", 2) == Some(x)
  {
    TidyTrims(x);
    SplitLeadingBlank(x);
    assert ReadLines("\n" + x + "\n") == ["", x];
  }

  lemma TrimIndented(b: string)
    requires Tidy(b)
    ensures TrimEnd(" " + b) == " " + b && Trim(" " + b) == b && !AllSpace(" " + b)
  {
    TidyTrims(b);
    TrimEndConcat(" ", b);
    TrimStartAfterSpace(" ", b);
    assert (" " + b)[1] == b[0];
  }

  lemma WholeOfIndented(a: string, b: string)
    requires Tidy(a) && Tidy(b)
    ensures WholeFileRows(a + "\n" + (" " + b) + "\n") == [a, " " + b]
  {
    TidyTrims(a);
    TrimIndented(b);
    WholeOfPair(a, " " + b);
  }

  /** Two lines whose outer ends are not whitespace come back whole from the whole-file branch. */
  lemma WholeOfPair(a: string, m: string)
    requires !AllSpace(a) && !AllSpace(m) && '\n' !in a && '\n' !in m
    requires TrimStart(a) == a && TrimEnd(m) == m
    ensures WholeFileRows(a + "\n" + m + "\n") == [a, m]
  {
    TrimAfterRecords(a, m);
    assert Trim(a + "\n" + m + "\n") == a + "\n" + m;
    SplitTwo(a, m);
    NonBlankPair(a, m);
  }

  lemma NonBlankPair(a: string, m: string)
    requires !IsBlank(a) && !IsBlank(m)
    ensures NonBlank([a, m]) == [a, m]
  {
    assert [a, m][1..] == [m];
    assert [m][1..] == [];
  }

  lemma SplitTwo(a: string, m: string)
    requires '\n' !in a && '\n' !in m
    ensures Split(a + "\n" + m, '\n') == [a, m]
  {
    SplitConcat(a, m, '\n');
    SplitNoSep(a, '\n');
    SplitNoSep(m, '\n');
  }

  lemma ReadTwoLines(a: string, m: string)
    requires '\n' !in a && '\n' !in m
    ensures ReadLines(a + "\n" + m + "\n") == [a, m]
  {
    ConcatAssoc(a + "\n", m, "\n");
    ConcatAssoc(a, "\n", m + "\n");
    SplitConcat(a, m + "\n", '\n');
    SplitNoSep(a, '\n');
    SplitOfLine(m);
  }

  lemma StreamedOfIndented(a: string, b: string)
    requires Tidy(a) && Tidy(b)
    ensures StreamedRows(a + "\n" + (" " + b) + "\n") == [a, b]
  {
    TidyTrims(a);
    TrimIndented(b);
    ReadTwoLines(a, " " + b);
    TrimmedPair(a, " " + b);
  }

  lemma TrimmedPair(x: string, y: string)
    requires !IsBlank(x) && !IsBlank(y)
    ensures TrimmedRecords([x, y]) == [Trim(x), Trim(y)]
  {
    assert [x, y][..1] == [x];
    assert [x][..0] == [];
  }

  /**
   * The whole-file branch trims only the file, so an indented inner line keeps
   * its indentation; the streaming branch trims every line.
   */
  lemma InnerWhitespaceKeptWhole(a: string, b: string)
    requires Tidy(a) && Tidy(b)
    ensures WholeFileRows(a + "\n" + (" " + b) + "\n") == [a, " " + b]
    ensures StreamedRows(a + "\n" + (" " + b) + "\n") == [a, b]
  {
    WholeOfIndented(a, b);
    StreamedOfIndented(a, b);
  }

  // ------------------------------------------------------ round trips

  /** Writing one more record appends it and a line feed to the old content (nothing, for no records). */
  lemma SerializeSnoc(lines: seq<string>, x: string)
    ensures Serialize(lines + [x]) == (if lines == [] then "" else Serialize(lines)) + x + "\n"
  {
    if lines == [] {
      assert lines + [x] == [x];
      assert "" + x + "\n" == x + "\n";
    } else {
      JoinAppend(lines, x);
      assert Join(lines, '\n') + ['\n'] + x + "\n" == Join(lines, '\n') + "\n" + x + "\n";
    }
  }

  /**
   * Creating a record in a missing file or a file of one or more tidy records
   * and reading the position after the old records gives the record back
   * trimmed, under either strategy.  A file emptied down to a line feed is
   * not covered: see `CreateAfterEmptied`.
   */
  lemma CreateThenReadBack(lines: seq<string>, newRow: string, limit: int)
    requires AllTidy(lines) && IsRecord(newRow)
    requires CreateRow(if lines == [] then Missing else Content(Serialize(lines)), newRow).Some?
    ensures var c := CreateRow(if lines == [] then Missing else Content(Serialize(lines)), newRow).value;
      IndexRow(Content(c), limit, |lines| + 1) == Some(Trim(newRow))
  {
    CreateIsSnoc(lines, newRow);
    LastRowReadBack(lines, newRow, limit);
  }

  /** A record appended after tidy records is read back at the next position, trimmed, whichever strategy the size selects. */
  lemma LastRowReadBack(lines: seq<string>, newRow: string, limit: int)
    requires AllTidy(lines) && IsRecord(newRow)
    ensures IndexRow(Content(Serialize(lines + [newRow])), limit, |lines| + 1) == Some(Trim(newRow))
  {
    StreamedLastRow(lines, newRow);
    WholeLastRow(lines, newRow);
    BothStrategies(Serialize(lines + [newRow]), limit, |lines| + 1, Some(Trim(newRow)));
  }

  /** When both branches of `getIndexRow` find the same answer, the size limit does not matter. */
  lemma BothStrategies(data: string, limit: int, index: int, v: Option<string>)
    requires IndexStreamed(data, index) == v && IndexWhole(data, index) == v
    ensures IndexRow(Content(data), limit, index) == v
  {
  }

  /** The streaming branch reads a record appended after tidy records back at the next position, trimmed. */
  lemma StreamedLastRow(lines: seq<string>, newRow: string)
    requires AllTidy(lines) && IsRecord(newRow)
    ensures IndexStreamed(Serialize(lines + [newRow]), |lines| + 1) == Some(Trim(newRow))
  {
    var all := lines + [newRow];
    SnocLineFree(lines, newRow);
    ReadLinesOfSerialize(all);
    TrimmedLikeRecord(newRow, newRow);
    assert all[|lines|] == newRow;
  }

  lemma SnocLineFree(lines: seq<string>, x: string)
    requires AllTidy(lines) && '\n' !in x
    ensures var all := lines + [x]; forall i :: 0 <= i < |all| ==> '\n' !in all[i]
  {
    var all := lines + [x];
    forall i | 0 <= i < |all| ensures '\n' !in all[i] {
      if i < |lines| { assert all[i] == lines[i]; }
    }
  }

  /** The whole-file branch reads a record appended after tidy records back at the next position, trimmed. */
  lemma WholeLastRow(lines: seq<string>, newRow: string)
    requires AllTidy(lines) && IsRecord(newRow)
    ensures IndexWhole(Serialize(lines + [newRow]), |lines| + 1) == Some(Trim(newRow))
  {
    if lines == [] {
      assert lines + [newRow] == [newRow];
      WholeOfSingleRow(newRow);
    } else {
      WholeLinesAfterCreate(lines, newRow);
      var e := TrimEnd(newRow);
      assert (lines + [e])[|lines|] == e;
      TrimAfterTrimEnd(newRow);
      TrimmedLikeRecord(e, newRow);
    }
  }

  /** A file holding one record and a line feed reads it at position 1, trimmed. */
  lemma WholeOfSingleRow(newRow: string)
    requires IsRecord(newRow)
    ensures IndexWhole(Serialize([newRow]), 1) == Some(Trim(newRow))
  {
    assert Serialize([newRow]) == "" + newRow + "\n";
    TrimAfterBlank("", newRow);
    TrimKeepsOut(newRow, '\n');
    SplitNoSep(Trim(newRow), '\n');
    TrimIdempotent(newRow);
    TrimmedLikeRecord(Trim(newRow), newRow);
  }

  /** A line that trims like a record reads back as that record trimmed. */
  lemma TrimmedLikeRecord(p: string, newRow: string)
    requires IsRecord(newRow) && Trim(p) == Trim(newRow)
    ensures TrimmedRow(p) == Some(Trim(newRow))
  {
    BlankIffTrimEmpty(newRow);
  }

  /** After a create, the whole-file branch splits the tidy records and then the new row without its trailing whitespace. */
  lemma WholeLinesAfterCreate(lines: seq<string>, newRow: string)
    requires |lines| >= 1 && AllTidy(lines) && IsRecord(newRow)
    ensures Split(Trim(Serialize(lines + [newRow])), '\n') == lines + [TrimEnd(newRow)]
  {
    var j := Join(lines, '\n');
    var e := TrimEnd(newRow);
    SerializeSnoc(lines, newRow);
    assert Serialize(lines) + newRow + "\n" == j + "\n" + newRow + "\n";
    JoinFirst(lines);
    assert !AllSpace(j) by { assert !IsSpace(j[0]); }
    TrimAfterRecords(j, newRow);
    assert TrimStart(j) == j;
    assert j + "\n" + e == j + ['\n'] + e;
    SplitConcat(j, e, '\n');
    SplitJoin(lines, '\n');
    TrimKeepsOut(newRow, '\n');
    SplitNoSep(e, '\n');
  }

  /** A create that writes to a store of records leaves the records with the new one after them. */
  lemma CreateIsSnoc(lines: seq<string>, newRow: string)
    requires CreateRow(if lines == [] then Missing else Content(Serialize(lines)), newRow).Some?
    ensures CreateRow(if lines == [] then Missing else Content(Serialize(lines)), newRow).value
         == Serialize(lines + [newRow])
  {
    CreateWrites(if lines == [] then Missing else Content(Serialize(lines)), newRow);
    SerializeSnoc(lines, newRow);
  }

  lemma TidyRemove(lines: seq<string>, i: int)
    requires AllTidy(lines) && 1 <= i <= |lines|
    ensures AllTidy(lines[..i - 1] + lines[i..])
    ensures |lines[..i - 1] + lines[i..]| == |lines| - 1
    ensures i < |lines| ==> (lines[..i - 1] + lines[i..])[i - 1] == lines[i]
  {
    var kept := lines[..i - 1] + lines[i..];
    forall k | 0 <= k < |kept| ensures Tidy(kept[k]) {
      if k < i - 1 { assert kept[k] == lines[k]; } else { assert kept[k] == lines[k + 1]; }
    }
  }

  /** `getIndexRow` on a file of tidy records, whichever strategy the size selects. */
  lemma IndexRowOfTidy(lines: seq<string>, limit: int, index: int)
    requires |lines| >= 1 && AllTidy(lines)
    ensures IndexRow(Content(Serialize(lines)), limit, index)
         == if 1 <= index <= |lines| then Some(lines[index - 1]) else None
  {
    IndexOfTidy(lines, index);
    BothStrategies(Serialize(lines), limit, index, if 1 <= index <= |lines| then Some(lines[index - 1]) else None);
  }

  lemma EmptyAfterRemoval(kept: seq<string>, limit: int, n: int, i: int)
    requires kept == []
    ensures IndexRow(Content(Serialize(kept)), limit, n) == None
    ensures IndexRow(Content(Serialize(kept)), limit, i) == None
  {
    EmptyFileIndex(limit, n);
    EmptyFileIndex(limit, i);
  }

  lemma ReadAfterRemoval(kept: seq<string>, n: int, i: int, limit: int)
    requires AllTidy(kept) && |kept| == n - 1 && 1 <= i <= n
    ensures IndexRow(Content(Serialize(kept)), limit, n) == None
    ensures IndexRow(Content(Serialize(kept)), limit, i) == if i < n then Some(kept[i - 1]) else None
  {
    if n == 1 {
      EmptyAfterRemoval(kept, limit, n, i);
    } else {
      IndexRowOfTidy(kept, limit, n);
      IndexRowOfTidy(kept, limit, i);
    }
  }

  lemma DeleteOfTidy(lines: seq<string>, i: int)
    requires AllTidy(lines) && 1 <= i <= |lines|
    ensures DeleteByIndex(Content(Serialize(lines)), i) == Some(Serialize(lines[..i - 1] + lines[i..]))
  {
    TidyAreRecords(lines);
    RecordsOfSerialize(lines);
    BlankIffNoRecords(Serialize(lines));
  }

  /**
   * Deleting position `i` of a file of `n` tidy records: position `n` is now
   * empty and position `i` holds the record that was at `i + 1`.
   */
  lemma DeleteThenReadByIndex(lines: seq<string>, i: int, limit: int)
    requires AllTidy(lines) && 1 <= i <= |lines|
    ensures DeleteByIndex(Content(Serialize(lines)), i).Some?
    ensures var c := DeleteByIndex(Content(Serialize(lines)), i).value;
      && IndexRow(Content(c), limit, |lines|) == None
      && IndexRow(Content(c), limit, i) == if i < |lines| then Some(lines[i]) else None
  {
    DeleteOfTidy(lines, i);
    TidyRemove(lines, i);
    ReadAfterRemoval(lines[..i - 1] + lines[i..], |lines|, i, limit);
  }

  // ------------------------------------------------------ pagination

  function Min(a: int, b: int): int {
    if a <= b then a else b
  }

  /** `k * q`, counted up one page at a time. */
  function Offset(k: nat, q: nat): nat {
    if k == 0 then 0 else Offset(k - 1, q) + q
  }

  lemma {:induction false} OffsetIsProduct(k: nat, q: nat)
    ensures Offset(k, q) == k * q
    decreases k
  {
    if k > 0 {
      OffsetIsProduct(k - 1, q);
      assert k * q == (k - 1) * q + q;
    }
  }

  /** Windows `1..k` of `q` elements of `s`, each starting where the previous one ended, laid end to end. */
  function Windows(s: seq<string>, q: nat, k: nat): seq<string> {
    if k == 0 then [] else Windows(s, q, k - 1) + Window(s, Offset(k - 1, q), q)
  }

  /** The `q` elements of `s` from index `a`, as far as they exist. */
  function Window(s: seq<string>, a: nat, q: nat): seq<string> {
    if a >= |s| then [] else s[a..Min(a + q, |s|)]
  }

  /** Page `k` of `getPaginatedRows` is window `k` of the sorted rows. */
  lemma PageRows(records: seq<string>, quantity: int, asc: bool, k: int)
    requires quantity >= 1 && k >= 1
    ensures Paginate(records, quantity, asc, k).rows == Window(Sort(records, asc), Offset(k - 1, quantity), quantity)
  {
    var a := Offset(k - 1, quantity);
    OffsetIsProduct(k - 1, quantity);
    PageWindow(records, quantity, asc, k, a, a + quantity);
    SliceWindow(Sort(records, asc), a, a + quantity);
  }

  lemma PrefixThenWindow(s: seq<string>, a: nat, q: nat)
    ensures s[..Min(a, |s|)] + Window(s, a, q) == s[..Min(a + q, |s|)]
  {
    if a < |s| {
      assert s[..a] + s[a..Min(a + q, |s|)] == s[..Min(a + q, |s|)];
    }
  }

  /** The first `k` windows are the prefix of `s` up to the end of window `k`. */
  lemma {:induction false} WindowsPrefix(s: seq<string>, q: nat, k: nat)
    ensures Windows(s, q, k) == s[..Min(Offset(k, q), |s|)]
    decreases k
  {
    if k > 0 {
      WindowsPrefix(s, q, k - 1);
      PrefixThenWindow(s, Offset(k - 1, q), q);
    }
  }

  /** The number of pages needed for `n` rows covers them all. */
  lemma LastPageCovers(n: nat, quantity: int)
    requires quantity >= 1
    ensures (n + quantity - 1) / quantity >= 0
    ensures (n + quantity - 1) / quantity * quantity >= n
  {
    var last := (n + quantity - 1) / quantity;
    assert n + quantity - 1 == last * quantity + (n + quantity - 1) % quantity;
  }

  /** A page starting at or past the end is empty and still reports the total. */
  lemma PagePastEnd(records: seq<string>, quantity: int, asc: bool, page: int)
    requires quantity >= 1 && page >= 1 && (page - 1) * quantity >= |records|
    ensures Paginate(records, quantity, asc, page) == PageResult([], |records|)
  {
  }

  lemma WholePrefix(s: seq<string>, m: int)
    requires m >= |s|
    ensures s[..Min(m, |s|)] == s
  {
  }

  /** Enough windows to reach the end of `s` hold all of `s`. */
  lemma WindowsCoverAll(s: seq<string>, q: nat, last: nat)
    requires q >= 1 && last == (|s| + q - 1) / q
    ensures Windows(s, q, last) == s
  {
    LastPageCovers(|s|, q);
    WindowsPrefix(s, q, last);
    OffsetIsProduct(last, q);
    WholePrefix(s, Offset(last, q));
  }

  /** The rows of pages `1..k` of `getPaginatedRows`, laid end to end. */
  function Pages(records: seq<string>, quantity: int, asc: bool, k: nat): seq<string> {
    if k == 0 then [] else Pages(records, quantity, asc, k - 1) + Paginate(records, quantity, asc, k).rows
  }

  /** Pages `1..k` are windows `1..k` of the sorted records. */
  lemma {:induction false} PagesAreWindows(records: seq<string>, quantity: int, asc: bool, k: nat)
    requires quantity >= 1
    ensures Pages(records, quantity, asc, k) == Windows(Sort(records, asc), quantity, k)
    decreases k
  {
    if k > 0 {
      PagesAreWindows(records, quantity, asc, k - 1);
      PagesStep(records, quantity, asc, k);
      WindowsStep(Sort(records, asc), quantity, k);
    } else {
      assert Pages(records, quantity, asc, k) == [];
      assert Windows(Sort(records, asc), quantity, k) == [];
    }
  }

  lemma WindowsStep(s: seq<string>, q: nat, k: nat)
    requires k >= 1
    ensures Windows(s, q, k) == Windows(s, q, k - 1) + Window(s, Offset(k - 1, q), q)
  {
  }

  /** Page `k` adds window `k` of the sorted records. */
  lemma PagesStep(records: seq<string>, quantity: int, asc: bool, k: nat)
    requires quantity >= 1 && k >= 1
    ensures Pages(records, quantity, asc, k)
         == Pages(records, quantity, asc, k - 1) + Window(Sort(records, asc), Offset(k - 1, quantity), quantity)
  {
    PageRows(records, quantity, asc, k);
  }

  /**
   * With `n` records and pages of `q`, the rows of pages `1..ceil(n/q)`
   * laid end to end are all the records in sorted order, and the next page
   * is empty with the same total.
   */
  lemma PagesCoverAll(records: seq<string>, quantity: int, asc: bool)
    requires quantity >= 1
    ensures var last := (|records| + quantity - 1) / quantity;
      && Pages(records, quantity, asc, last) == Sort(records, asc)
      && Paginate(records, quantity, asc, last + 1) == PageResult([], |records|)
  {
    var last := (|records| + quantity - 1) / quantity;
    SortedWindowsCover(records, quantity, asc);
    PagesAreWindows(records, quantity, asc, last);
    PageAfterLast(records, quantity, asc);
  }

  lemma SortedWindowsCover(records: seq<string>, quantity: int, asc: bool)
    requires quantity >= 1
    ensures Windows(Sort(records, asc), quantity, (|records| + quantity - 1) / quantity) == Sort(records, asc)
  {
    WindowsCoverAll(Sort(records, asc), quantity, (|records| + quantity - 1) / quantity);
  }

  lemma PageAfterLast(records: seq<string>, quantity: int, asc: bool)
    requires quantity >= 1
    ensures Paginate(records, quantity, asc, (|records| + quantity - 1) / quantity + 1)
         == PageResult([], |records|)
  {
    var last := (|records| + quantity - 1) / quantity;
    LastPageCovers(|records|, quantity);
    assert last + 1 - 1 == last;
    PagePastEnd(records, quantity, asc, last + 1);
  }
}
