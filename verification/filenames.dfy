/**
 Local file names: the name a URL's resource is saved under
 (`sanitize_filename`), and the collision-free output name
 (`get_unique_filename`, with `os.path.splitext`).

 The existence test `os.path.exists(os.path.join(folder, name))` is modelled
 as membership of `name` in a finite set of the names already taken in the
 folder.
 */
module Filenames {
  import opened Strings

  /** `sanitize_filename`: `url.split('/')[-1].split('?')[0]`. */
  function Sanitize(url: string): (name: string)
    ensures '/' !in name && '?' !in name
  {
    var segments := Split(url, '/');
    var last := segments[|segments| - 1];
    SplitFirst(last, '?');
    BeforeFirstKeepsAbsence(last, '?', '/');
    Split(last, '?')[0]
  }

  /** `Sanitize` in terms of the pieces of the two splits. */
  lemma SanitizeSplits(url: string)
    ensures var segments := Split(url, '/');
      Sanitize(url) == Split(segments[|segments| - 1], '?')[0]
  {
  }

  /** The saved name is what follows the last `/` of the URL, cut before the
      first `?` that follows. */
  lemma SanitizeIsLastSegmentBeforeQuery(url: string)
    ensures Sanitize(url) == BeforeFirst(AfterLast(url, '/'), '?')
  {
    SanitizeSplits(url);
    SplitLast(url, '/');
    SplitFirst(AfterLast(url, '/'), '?');
  }

  /** The saved name is a piece of the URL: a character the URL lacks does
      not appear in it. */
  lemma SanitizeKeepsAbsence(url: string, c: char)
    requires c !in url
    ensures c !in Sanitize(url)
  {
    SanitizeIsLastSegmentBeforeQuery(url);
    AfterLastKeepsAbsence(url, '/', c);
    BeforeFirstKeepsAbsence(AfterLast(url, '/'), '?', c);
  }

  /** The name a segment URL is saved under depends only on its playlist
      line: neither the base URL (ending in `/`) nor the token (empty, or a
      `?` and then no `/`) changes it. */
  lemma SanitizeIgnoresBaseAndToken(baseUrl: string, line: string, token: string)
    requires |baseUrl| >= 1 && baseUrl[|baseUrl| - 1] == '/'
    requires token == "" || (token[0] == '?' && '/' !in token)
    ensures Sanitize(baseUrl + line + token) == Sanitize(line)
  {
    var prefix := baseUrl + line;
    assert baseUrl + line + token == prefix + token;
    SanitizeIsLastSegmentBeforeQuery(prefix + token);
    SanitizeIsLastSegmentBeforeQuery(line);
    AfterLastAppendFree(prefix, token, '/');
    AfterLastAfterSep(baseUrl, line, '/');
    BeforeFirstAppend(AfterLast(line, '/'), token, '?');
  }

  /** A token holding a `/` (as a percent-decoded `%2F` would) takes over the
      saved name: every segment URL of the playlist then maps to the same
      file name, whatever its line. */
  lemma SanitizeTokenWithSlash(baseUrl: string, line: string, before: string, after: string)
    requires '/' !in after
    ensures Sanitize(baseUrl + line + "?__gda__=" + before + "/" + after) == BeforeFirst(after, '?')
  {
    var url := baseUrl + line + "?__gda__=" + before + "/" + after;
    assert url[|url| - |after|..] == after;
    assert url[|url| - |after| - 1] == '/';
    AfterLastUnique(url, '/', after);
    SanitizeIsLastSegmentBeforeQuery(url);
  }

  /** Sanitizing a name that has already been sanitized changes nothing. */
  lemma SanitizeIdempotent(url: string)
    ensures Sanitize(Sanitize(url)) == Sanitize(url)
  {
    var name := Sanitize(url);
    SplitWithoutSep(name, '/');
    SplitWithoutSep(name, '?');
  }

  /** A name free of `/` and `?` is its own sanitized form. */
  lemma SanitizePlainName(name: string)
    requires '/' !in name && '?' !in name
    ensures Sanitize(name) == name
  {
    SplitWithoutSep(name, '/');
    SplitWithoutSep(name, '?');
  }

  /** Every character of `p[lo..hi]` is a `.`. */
  predicate DotsBetween(p: string, lo: int, hi: int) {
    forall i :: lo <= i < hi && 0 <= i < |p| ==> p[i] == '.'
  }

  /** Where `os.path.splitext` cuts `p`: at the last `.` when it lies in the
      final path component and is preceded there by some character other
      than `.`, else at the end (no extension). */
  function ExtStart(p: string): (e: nat)
    ensures e <= |p|
  {
    var sepIndex := LastIndexOf(p, '/');
    var dotIndex := LastIndexOf(p, '.');
    if dotIndex > sepIndex && !DotsBetween(p, sepIndex + 1, dotIndex) then dotIndex else |p|
  }

  /** When there is an extension it starts at a `.` and holds no further
      `.` and no `/`. */
  lemma ExtensionShape(p: string)
    ensures ExtStart(p) == |p|
      || (p[ExtStart(p)] == '.' && forall j :: ExtStart(p) < j < |p| ==> p[j] != '.' && p[j] != '/')
  {
  }

  /** A character that does not occur after index `i` is absent from `p[i + 1..]`. */
  lemma AbsentAfter(p: string, c: char, i: int)
    requires -1 <= i < |p|
    requires forall j :: i < j < |p| ==> p[j] != c
    ensures c !in p[i + 1..]
  {
    var t := p[i + 1..];
    forall k | 0 <= k < |t|
      ensures t[k] != c
    {
      assert t[k] == p[i + 1 + k];
    }
  }

  /** `os.path.splitext` on a POSIX path: the extension starts at the last
      `.` of the final path component, unless everything before that `.` in
      the component is dots (a leading-dot name such as `.profile` has no
      extension). */
  function SplitExt(p: string): (parts: (string, string))
    ensures parts.0 + parts.1 == p
    ensures parts.1 == [] || (parts.1[0] == '.' && '.' !in parts.1[1..] && '/' !in parts.1)
  {
    var e := ExtStart(p);
    ExtensionShape(p);
    if e < |p| then
      AbsentAfter(p, '.', e);
      AbsentAfter(p, '/', e);
      assert p[e..][1..] == p[e + 1..];
      assert p[e..] == [p[e]] + p[e + 1..];
      assert p[..e] + p[e..] == p;
      (p[..e], p[e..])
    else
      assert p[..e] + p[e..] == p;
      (p[..e], p[e..])
  }

  /** The name holds a `.` with some character other than `.` before it. */
  predicate HasInnerDot(name: string) {
    exists i, j :: 0 <= i < j < |name| && name[i] != '.' && name[j] == '.'
  }

  /** A `.` in the final path component with a character other than `.`
      before it there gives the path an extension. */
  lemma DotGivesExtension(p: string, i: nat, j: nat)
    requires i < j < |AfterLast(p, '/')|
    requires AfterLast(p, '/')[i] != '.' && AfterLast(p, '/')[j] == '.'
    ensures ExtStart(p) < |p|
  {
    AfterLastAt(p, '/', i);
    AfterLastAt(p, '/', j);
    var sepIndex := LastIndexOf(p, '/');
    var dotIndex := LastIndexOf(p, '.');
    assert sepIndex + 1 + j <= dotIndex;
    assert !DotsBetween(p, sepIndex + 1, dotIndex);
  }

  /** An extension comes from a `.` of the final path component with a
      character other than `.` before it, and is a tail of that component. */
  lemma ExtensionHasInnerDot(p: string)
    requires ExtStart(p) < |p|
    ensures HasInnerDot(AfterLast(p, '/'))
    ensures EndsWith(AfterLast(p, '/'), SplitExt(p).1)
  {
    var name := AfterLast(p, '/');
    var off := LastIndexOf(p, '/') + 1;
    var dotIndex := LastIndexOf(p, '.');
    assert ExtStart(p) == dotIndex;
    var k :| off <= k < dotIndex && p[k] != '.';
    assert name[k - off] == p[k];
    assert name[dotIndex - off] == p[dotIndex];
    assert SplitExt(p).1 == p[dotIndex..];
    assert name[dotIndex - off..] == p[dotIndex..];
  }

  /** Conversely, such a `.` gives the path an extension. */
  lemma InnerDotGivesExtension(p: string)
    requires HasInnerDot(AfterLast(p, '/'))
    ensures ExtStart(p) < |p|
  {
    var name := AfterLast(p, '/');
    var i, j :| 0 <= i < j < |name| && name[i] != '.' && name[j] == '.';
    DotGivesExtension(p, i, j);
  }

  /** The extension is non-empty exactly when the final path component holds
      a `.` preceded by some character other than `.`; it is then the tail of
      that component from its last `.`. */
  lemma SplitExtHasExtension(p: string)
    ensures SplitExt(p).1 != [] <==> HasInnerDot(AfterLast(p, '/'))
    ensures SplitExt(p).1 != [] ==> EndsWith(AfterLast(p, '/'), SplitExt(p).1)
  {
    assert SplitExt(p).1 != [] <==> ExtStart(p) < |p|;
    if ExtStart(p) < |p| {
      ExtensionHasInnerDot(p);
    }
    if HasInnerDot(AfterLast(p, '/')) {
      InnerDotGivesExtension(p);
    }
  }

  /** The `k`-th probe for a taken name: `f"{base}_{k}{ext}"`. */
  function Probe(base: string, ext: string, k: nat): string {
    base + "_" + NatToString(k) + ext
  }

  /** Probes with different counters name different files. */
  lemma ProbeInjective(base: string, ext: string, j: nat, k: nat)
    requires Probe(base, ext, j) == Probe(base, ext, k)
    ensures j == k
  {
    var pj := Probe(base, ext, j);
    var pk := Probe(base, ext, k);
    var dj := NatToString(j);
    var dk := NatToString(k);
    assert |dj| == |dk|;
    assert pj[|base| + 1..|base| + 1 + |dj|] == dj;
    assert pk[|base| + 1..|base| + 1 + |dk|] == dk;
    NatToStringInjective(j, k);
  }

  /** The names of the probes `1..n`. */
  function Probes(base: string, ext: string, n: int): (names: set<string>)
    ensures forall k: nat :: 1 <= k <= n ==> Probe(base, ext, k) in names
    decreases n
  {
    if n <= 0 then {} else Probes(base, ext, n - 1) + {Probe(base, ext, n)}
  }

  /** The probes `1..n` are `n` different names. */
  lemma {:induction false} ProbesCount(base: string, ext: string, n: nat)
    ensures |Probes(base, ext, n)| == n
    ensures forall m: nat :: m > n ==> Probe(base, ext, m) !in Probes(base, ext, n)
    decreases n
  {
    if n > 0 {
      ProbesCount(base, ext, n - 1);
      forall m: nat | m > n
        ensures Probe(base, ext, m) !in Probes(base, ext, n)
      {
        if Probe(base, ext, m) == Probe(base, ext, n) {
          ProbeInjective(base, ext, m, n);
        }
      }
    }
  }

  lemma SubsetSize<T>(a: set<T>, b: set<T>)
    requires a <= b
    ensures |a| <= |b|
  {
    assert b == a + (b - a);
  }

  /** What `get_unique_filename` promises: a free name; the requested name
      itself when it is free; otherwise `base_k + ext` for the least `k >= 1`
      whose name is free, where `base, ext = os.path.splitext(filename)`. */
  ghost predicate IsUniqueName(existing: set<string>, filename: string, r: string) {
    var (base, ext) := SplitExt(filename);
    && r !in existing
    && (filename !in existing ==> r == filename)
    && (filename in existing ==>
          exists k: nat :: 1 <= k && r == Probe(base, ext, k)
            && forall j: nat :: 1 <= j < k ==> Probe(base, ext, j) in existing)
  }

  /** At most one name meets that promise. */
  lemma UniqueNameIsDetermined(existing: set<string>, filename: string, r1: string, r2: string)
    requires IsUniqueName(existing, filename, r1) && IsUniqueName(existing, filename, r2)
    ensures r1 == r2
  {
    var (base, ext) := SplitExt(filename);
    if filename in existing {
      var k1: nat :| 1 <= k1 && r1 == Probe(base, ext, k1)
        && forall j: nat :: 1 <= j < k1 ==> Probe(base, ext, j) in existing;
      var k2: nat :| 1 <= k2 && r2 == Probe(base, ext, k2)
        && forall j: nat :: 1 <= j < k2 ==> Probe(base, ext, j) in existing;
    }
  }

  /** `get_unique_filename`: try the requested name, then `base_1 + ext`,
      `base_2 + ext`, ... until one is free. The loop ends because the probes
      are pairwise different names and only finitely many are taken. */
  method UniqueFilename(existing: set<string>, filename: string) returns (unique: string)
    ensures IsUniqueName(existing, filename, unique)
  {
    var (base, ext) := SplitExt(filename);
    var counter: nat := 1;
    unique := filename;
    while unique in existing
      invariant counter >= 1
      invariant counter == 1 ==> unique == filename
      invariant counter > 1 ==> unique == Probe(base, ext, counter - 1) && filename in existing
      invariant Probes(base, ext, counter - 2) <= existing
      decreases |existing| - (counter - 1)
    {
      if counter > 1 {
        assert Probes(base, ext, counter - 1) <= existing;
        ProbesCount(base, ext, counter - 1);
        SubsetSize(Probes(base, ext, counter - 1), existing);
      }
      unique := Probe(base, ext, counter);
      counter := counter + 1;
    }
    if counter > 1 {
      var k: nat := counter - 1;
      forall j: nat | 1 <= j < k
        ensures Probe(base, ext, j) in existing
      {
        assert Probe(base, ext, j) in Probes(base, ext, counter - 2);
      }
    }
  }

  /** `os.path.splitext` examples: an ordinary extension, a leading-dot name,
      and a `.` that lies in a directory name rather than the file name. */
  lemma SplitExtExamples()
    ensures SplitExt("video.mp4") == ("video", ".mp4")
    ensures SplitExt(".profile") == (".profile", "")
    ensures SplitExt("a.d/name") == ("a.d/name", "")
  {
    LastIndexOfIs("video.mp4", '.', 5);
    LastIndexOfIs("video.mp4", '/', -1);
    assert !DotsBetween("video.mp4", 0, 5) by {
      assert "video.mp4"[0] == 'v';
    }
    assert ExtStart("video.mp4") == 5;
    assert "video.mp4"[..5] == "video" && "video.mp4"[5..] == ".mp4";
    LastIndexOfIs(".profile", '.', 0);
    LastIndexOfIs(".profile", '/', -1);
    LastIndexOfIs("a.d/name", '.', 1);
    LastIndexOfIs("a.d/name", '/', 3);
    assert ExtStart(".profile") == |".profile"|;
    assert ExtStart("a.d/name") == |"a.d/name"|;
    assert ".profile"[..8] == ".profile" && "a.d/name"[..8] == "a.d/name";
  }

  /** The probes of `video.mp4`: `video_1.mp4`, `video_2.mp4`. */
  lemma VideoProbes()
    ensures SplitExt("video.mp4") == ("video", ".mp4")
    ensures Probe("video", ".mp4", 1) == "video_1.mp4"
    ensures Probe("video", ".mp4", 2) == "video_2.mp4"
  {
    SplitExtExamples();
    assert NatToString(1) == "1" && NatToString(2) == "2";
  }

  /** In an empty folder the requested name is kept; with `video.mp4` and
      `video_1.mp4` taken, `video.mp4` becomes `video_2.mp4`. */
  lemma UniqueNameExamples(r: string)
    requires IsUniqueName({"video.mp4", "video_1.mp4"}, "video.mp4", r)
    ensures IsUniqueName({}, "video.mp4", "video.mp4")
    ensures r == "video_2.mp4"
  {
    VideoProbes();
    var existing := {"video.mp4", "video_1.mp4"};
    assert IsUniqueName(existing, "video.mp4", "video_2.mp4") by {
      assert forall j: nat :: 1 <= j < 2 ==> Probe("video", ".mp4", j) in existing;
    }
    UniqueNameIsDetermined(existing, "video.mp4", r, "video_2.mp4");
  }
}
