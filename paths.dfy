/**
 * `splitPath`: a hyphenated key names a file.  The last segment plus the
 * extension is the file name; the base directory followed by the earlier
 * segments is the directory.  Directories are kept as segment sequences joined
 * with `/`, without `path.join`'s normalisation.
 */
module Paths {
  import opened Text

  datatype PathInfo = PathInfo(
    dirSegments: seq<string>,
    dirPath: string,
    fileParts: seq<string>,
    filePath: string,
    fileName: string)

  function SplitPath(key: string, baseDir: string, fileExtension: string): (p: PathInfo)
    ensures |p.fileParts| >= 1 && |p.dirSegments| >= 1
  {
    var fileParts := Split(key, '-');
    var fileName := fileParts[|fileParts| - 1] + fileExtension;
    var dirSegments := [baseDir] + fileParts[..|fileParts| - 1];
    var dirPath := Join(dirSegments, '/');
    PathInfo(dirSegments, dirPath, fileParts, dirPath + "/" + fileName, fileName)
  }

  lemma {:induction false} JoinSnoc(s: seq<string>, x: string, sep: char)
    requires |s| >= 1
    ensures Join(s + [x], sep) == Join(s, sep) + [sep] + x
    decreases |s|
  {
    if |s| > 1 {
      assert (s + [x])[1..] == s[1..] + [x];
      JoinSnoc(s[1..], x, sep);
    }
  }

  /** A character missing from a string is missing from every piece of its split. */
  lemma {:induction false} SplitKeepsOut(s: string, sep: char, c: char)
    requires c !in s
    ensures forall i :: 0 <= i < |Split(s, sep)| ==> c !in Split(s, sep)[i]
    decreases |s|
  {
    if |s| > 0 {
      SplitKeepsOut(s[1..], sep, c);
    }
  }

  /**
   * The file name is the last segment of the key with the extension after
   * it, the directory is the base directory followed by the other segments in
   * order, the file path is the directory, a slash and the file name, and the
   * segments joined with hyphens give back the key.
   */
  lemma SplitPathShape(key: string, baseDir: string, fileExtension: string)
    ensures var p := SplitPath(key, baseDir, fileExtension);
      && Join(p.fileParts, '-') == key
      && (forall i :: 0 <= i < |p.fileParts| ==> '-' !in p.fileParts[i])
      && p.fileName == p.fileParts[|p.fileParts| - 1] + fileExtension
      && p.dirSegments == [baseDir] + p.fileParts[..|p.fileParts| - 1]
      && p.filePath == Join(p.dirSegments + [p.fileName], '/')
      && key == Join(p.dirSegments[1..] + [p.fileName[..|p.fileName| - |fileExtension|]], '-')
  {
    JoinSplit(key, '-');
    PathIsJoin(key, baseDir, fileExtension);
    KeyFromPath(key, baseDir, fileExtension);
  }

  lemma PathIsJoin(key: string, baseDir: string, fileExtension: string)
    ensures var p := SplitPath(key, baseDir, fileExtension);
      p.filePath == Join(p.dirSegments + [p.fileName], '/')
  {
    var p := SplitPath(key, baseDir, fileExtension);
    JoinSnoc(p.dirSegments, p.fileName, '/');
  }

  lemma KeyFromPath(key: string, baseDir: string, fileExtension: string)
    ensures var p := SplitPath(key, baseDir, fileExtension);
      key == Join(p.dirSegments[1..] + [p.fileName[..|p.fileName| - |fileExtension|]], '-')
  {
    JoinSplit(key, '-');
    RebuildParts(Split(key, '-'), baseDir, fileExtension);
  }

  /** Dropping the base directory and the extension again gives back the segments. */
  lemma RebuildParts(parts: seq<string>, baseDir: string, fileExtension: string)
    requires |parts| >= 1
    ensures var last := parts[|parts| - 1] + fileExtension;
      ([baseDir] + parts[..|parts| - 1])[1..] + [last[..|last| - |fileExtension|]] == parts
  {
    var n := |parts|;
    var last := parts[n - 1];
    assert (last + fileExtension)[..|last + fileExtension| - |fileExtension|] == last;
    assert ([baseDir] + parts[..n - 1])[1..] == parts[..n - 1];
    assert parts[..n - 1] + [last] == parts;
  }

  /** The key whose file path ends in the segments `tail` (the last one carrying the extension). */
  function KeyOfTail(tail: seq<string>, extLength: nat): string
    requires |tail| >= 1 && |tail[|tail| - 1]| >= extLength
  {
    var last := tail[|tail| - 1];
    Join(tail[..|tail| - 1] + [last[..|last| - extLength]], '-')
  }

  /** A directory or file segment that `path.join` keeps as written: not empty, not `.` and not `..`. */
  predicate PlainSegment(s: string) {
    s != "" && s != "." && s != ".."
  }

  /** A plain segment stays plain with any extension after it. */
  lemma PlainWithExtension(s: string, ext: string)
    requires PlainSegment(s)
    ensures PlainSegment(s + ext)
  {
    assert (s + ext)[..|s|] == s;
  }

  /** A key whose every hyphen-separated segment is plain. */
  predicate PlainKey(key: string) {
    var parts := Split(key, '-');
    forall i :: 0 <= i < |parts| ==> PlainSegment(parts[i])
  }

  /**
   * For a plain key without slashes, under an extension without slashes, the
   * file path is the base directory followed by one path segment per key
   * segment.  No segment is empty or a dot segment, so `path.join` folds none
   * of them away: it only normalises the base directory, which all keys share.
   */
  lemma FileTail(key: string, baseDir: string, fileExtension: string) returns (tail: seq<string>)
    requires PlainKey(key) && '/' !in key && '/' !in fileExtension
    ensures |tail| >= 1 && |tail[|tail| - 1]| >= |fileExtension|
    ensures SplitPath(key, baseDir, fileExtension).filePath == baseDir + "/" + Join(tail, '/')
    ensures Split(Join(tail, '/'), '/') == tail
    ensures key == KeyOfTail(tail, |fileExtension|)
    ensures forall i :: 0 <= i < |tail| ==> PlainSegment(tail[i])
  {
    var p := SplitPath(key, baseDir, fileExtension);
    var n := |p.fileParts|;
    tail := p.fileParts[..n - 1] + [p.fileName];
    SplitPathShape(key, baseDir, fileExtension);
    assert p.dirSegments + [p.fileName] == [baseDir] + tail;
    assert ([baseDir] + tail)[1..] == tail;
    SplitKeepsOut(key, '-', '/');
    assert forall i :: 0 <= i < |tail| ==> '/' !in tail[i] by {
      forall i | 0 <= i < |tail|
        ensures '/' !in tail[i]
      {
        if i == n - 1 {
          assert tail[i] == p.fileParts[n - 1] + fileExtension;
        } else {
          assert tail[i] == p.fileParts[i];
        }
      }
    }
    forall i | 0 <= i < |tail|
      ensures PlainSegment(tail[i])
    {
      if i == n - 1 {
        PlainWithExtension(p.fileParts[n - 1], fileExtension);
      } else {
        assert tail[i] == p.fileParts[i];
      }
    }
    SplitJoin(tail, '/');
    assert tail[..n - 1] == p.dirSegments[1..];
  }

  /**
   * Plain keys without slashes name distinct files: two such keys with the
   * same file path are the same key.  Keys with an empty, `.` or `..` segment
   * are excluded because `path.join` folds those segments and such keys can
   * share a file (`b` and `-b`, or `a-b` and `a--b`).
   */
  lemma FilePathInjective(k1: string, k2: string, baseDir: string, fileExtension: string)
    requires PlainKey(k1) && PlainKey(k2)
    requires '/' !in k1 && '/' !in k2 && '/' !in fileExtension
    requires SplitPath(k1, baseDir, fileExtension).filePath == SplitPath(k2, baseDir, fileExtension).filePath
    ensures k1 == k2
  {
    var t1 := FileTail(k1, baseDir, fileExtension);
    var t2 := FileTail(k2, baseDir, fileExtension);
    var prefix := baseDir + "/";
    var j1, j2 := Join(t1, '/'), Join(t2, '/');
    assert (prefix + j1)[|prefix|..] == j1;
    assert (prefix + j2)[|prefix|..] == j2;
    assert j1 == j2;
  }
}
