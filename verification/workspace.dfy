/**
 The workspace manager's pure part: the list file handed to ffmpeg's concat
 demuxer (`create_ffmpeg_file_list`) and the choice of files that
 `cleanup_ts_files` deletes.
 */
module Workspace {
  import opened Strings
  import opened Filenames
  import opened Results

  /** `os.path.join(a, b)` on POSIX: an absolute `b` replaces `a`; otherwise
      `b` is appended, with a `/` in between unless `a` is empty or already
      ends with one. */
  function PathJoin(a: string, b: string): string {
    if |b| > 0 && b[0] == '/' then b
    else if a == "" || a[|a| - 1] == '/' then a + b
    else a + "/" + b
  }

  /** An absolute `b` is the joined path; otherwise the joined path starts
      with `a`, ends with `b`, and holds at most one extra character between
      them, a `/` that separates them whenever `a` is non-empty, and none at
      all when `a` is empty or already ends with `/`. */
  lemma PathJoinShape(a: string, b: string)
    ensures b != [] && b[0] == '/' ==> PathJoin(a, b) == b
    ensures (b == [] || b[0] != '/') ==>
      && StartsWith(PathJoin(a, b), a) && EndsWith(PathJoin(a, b), b)
      && |a| + |b| <= |PathJoin(a, b)| <= |a| + 1 + |b|
      && (a != "" ==> PathJoin(a, b)[|PathJoin(a, b)| - |b| - 1] == '/')
    ensures (b == [] || b[0] != '/') && (a == "" || a[|a| - 1] == '/') ==>
      |PathJoin(a, b)| == |a| + |b|
  {
    var path := PathJoin(a, b);
    if b == [] || b[0] != '/' {
      if a == "" || a[|a| - 1] == '/' {
        assert path == a + b;
      } else {
        assert path == a + "/" + b;
      }
      assert path[..|a|] == a;
      assert path[|path| - |b|..] == b;
    }
  }

  /** Where a segment is saved, and so where the list file points:
      `os.path.join(folder, sanitize_filename(url))`. */
  function SegmentPath(folder: string, url: string): string {
    PathJoin(folder, Sanitize(url))
  }

  /** The segment path is inside `folder` and its final component is the
      sanitized name; for a folder not ending in `/` it is exactly
      `folder/name`, since the sanitized name never starts with `/`. */
  lemma SegmentPathShape(folder: string, url: string)
    ensures StartsWith(SegmentPath(folder, url), folder)
    ensures AfterLast(SegmentPath(folder, url), '/') == Sanitize(url)
    ensures folder != "" && folder[|folder| - 1] != '/' ==>
      SegmentPath(folder, url) == folder + "/" + Sanitize(url)
  {
    var name := Sanitize(url);
    var path := SegmentPath(folder, url);
    if name != [] {
      assert name[0] != '/' by {
        assert name[0] in name;
      }
    }
    assert path[..|folder|] == folder;
    assert path[|path| - |name|..] == name;
    AfterLastUnique(path, '/', name);
  }

  /** One line of the list file: `file '<path>'`. */
  function FileListLine(folder: string, url: string): string {
    "file '" + SegmentPath(folder, url) + "'"
  }

  /** The lines of the list file: one per segment URL, in the same order. */
  function FileListLines(urls: seq<string>, folder: string): (lines: seq<string>)
    ensures |lines| == |urls|
    ensures forall i :: 0 <= i < |urls| ==> lines[i] == "file '" + SegmentPath(folder, urls[i]) + "'"
    decreases |urls|
  {
    if |urls| == 0 then [] else [FileListLine(folder, urls[0])] + FileListLines(urls[1..], folder)
  }

  /** The path a `file '<path>'` line names: the text between the quotes. */
  function ListedPath(line: string): Option<string> {
    if |line| >= 7 && line[..6] == "file '" && line[|line| - 1] == '\'' then Some(line[6..|line| - 1])
    else None
  }

  /** One list line, read back, gives the path it was made from, and it
      holds no newline when neither the folder nor the URL does. */
  lemma FileListLineReadBack(folder: string, url: string)
    requires '\n' !in folder && '\n' !in url
    ensures '\n' !in FileListLine(folder, url)
    ensures ListedPath(FileListLine(folder, url)) == Some(SegmentPath(folder, url))
  {
    SanitizeKeepsAbsence(url, '\n');
    var path := SegmentPath(folder, url);
    assert '\n' !in path;
    var e := FileListLine(folder, url);
    assert e[..6] == "file '" && e[6..|e| - 1] == path;
    forall k | 0 <= k < |e|
      ensures e[k] != '\n'
    {
      if 6 <= k < |e| - 1 {
        assert e[k] == path[k - 6];
      }
    }
  }

  /** Reading the list file back gives, line by line, the paths the segments
      were saved under, in segment order, as long as neither the folder nor
      the URLs contain a newline. */
  lemma FileListReadBack(urls: seq<string>, folder: string)
    requires '\n' !in folder
    requires forall i :: 0 <= i < |urls| ==> '\n' !in urls[i]
    ensures |Split(Unlines(FileListLines(urls, folder)), '\n')| == |urls| + 1
    ensures Split(Unlines(FileListLines(urls, folder)), '\n')[|urls|] == ""
    ensures forall i :: 0 <= i < |urls| ==>
      ListedPath(Split(Unlines(FileListLines(urls, folder)), '\n')[i]) == Some(SegmentPath(folder, urls[i]))
  {
    var entries := FileListLines(urls, folder);
    forall i | 0 <= i < |urls|
      ensures '\n' !in entries[i]
      ensures ListedPath(entries[i]) == Some(SegmentPath(folder, urls[i]))
    {
      FileListLineReadBack(folder, urls[i]);
    }
    UnlinesReadBack(entries);
  }

  /** The files `cleanup_ts_files` deletes: names ending in `.ts`. */
  predicate IsTsFile(name: string) {
    EndsWith(name, ".ts")
  }

  /** `cleanup_ts_files` over a directory listing: removes, in listing order,
      every name ending in `.ts`, and leaves every other name in place. */
  method CleanupTsFiles(listing: seq<string>) returns (removed: seq<string>, remaining: set<string>)
    ensures forall n :: n in removed <==> n in listing && IsTsFile(n)
    ensures forall n :: n in remaining <==> n in listing && !IsTsFile(n)
  {
    removed := [];
    remaining := set n | n in listing;
    var i := 0;
    while i < |listing|
      invariant 0 <= i <= |listing|
      invariant forall n :: n in removed <==> n in listing[..i] && IsTsFile(n)
      invariant forall n :: n in remaining <==> n in listing && !(n in listing[..i] && IsTsFile(n))
    {
      var name := listing[i];
      if IsTsFile(name) {
        remaining := remaining - {name};
        removed := removed + [name];
      }
      assert listing[..i + 1] == listing[..i] + [name];
      i := i + 1;
    }
    assert listing[..|listing|] == listing;
  }
}
