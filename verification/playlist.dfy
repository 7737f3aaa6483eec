/**
 The playlist parser (`extract_ts_urls_from_m3u8`): every URI line of the
 playlist, in file order, becomes one absolute segment URL, and the URL list
 is written out one URL per line.

 The playlist arrives as the sequence of lines that iterating over the open
 file yields; decoding the file and splitting it into lines is not modelled.
 */
module Playlist {
  import opened Strings

  /** A URI line in the sense of section 4.1 of RFC 8216: after `strip()` it
      is non-empty and does not start with `#` (tags and comments do). */
  predicate IsUriLine(line: string) {
    var l := Strip(line);
    l != [] && !StartsWith(l, "#")
  }

  /** A line is a URI line exactly when its stripped text is non-empty and
      its first character is not `#`. */
  lemma UriLineByFirstChar(line: string)
    ensures IsUriLine(line) <==> Strip(line) != [] && Strip(line)[0] != '#'
  {
    var l := Strip(line);
    if l != [] {
      assert l[..1] == [l[0]];
    }
  }

  /** The URL made from one URI line: the base URL, the stripped line, and the
      token appended when there is one. An absolute URI line is not treated
      specially. */
  function SegmentUrl(line: string, baseUrl: string, gdaParam: string): (url: string)
    ensures url == baseUrl + Strip(line) + gdaParam
  {
    var l := Strip(line);
    var l' := if gdaParam != "" then l + gdaParam else l;
    baseUrl + l'
  }

  /** The segment URLs of a playlist: one per URI line, in line order. */
  function SegmentUrls(lines: seq<string>, baseUrl: string, gdaParam: string): seq<string>
    decreases |lines|
  {
    if |lines| == 0 then []
    else
      var line := lines[|lines| - 1];
      SegmentUrls(lines[..|lines| - 1], baseUrl, gdaParam)
        + (if IsUriLine(line) then [SegmentUrl(line, baseUrl, gdaParam)] else [])
  }

  /** The number of URI lines. */
  function CountUriLines(lines: seq<string>): nat
    decreases |lines|
  {
    if |lines| == 0 then 0
    else (if IsUriLine(lines[0]) then 1 else 0) + CountUriLines(lines[1..])
  }

  /** The URLs of consecutive parts of a playlist follow each other: the
      parser keeps line order. */
  lemma {:induction false} SegmentUrlsAppend(a: seq<string>, b: seq<string>, baseUrl: string, gdaParam: string)
    ensures SegmentUrls(a + b, baseUrl, gdaParam) == SegmentUrls(a, baseUrl, gdaParam) + SegmentUrls(b, baseUrl, gdaParam)
    decreases |b|
  {
    if |b| == 0 {
      assert a + b == a;
    } else {
      var ab := a + b;
      var b' := b[..|b| - 1];
      var line := b[|b| - 1];
      var tail := if IsUriLine(line) then [SegmentUrl(line, baseUrl, gdaParam)] else [];
      assert ab[..|ab| - 1] == a + b';
      assert ab[|ab| - 1] == line;
      assert SegmentUrls(ab, baseUrl, gdaParam) == SegmentUrls(a + b', baseUrl, gdaParam) + tail;
      assert SegmentUrls(b, baseUrl, gdaParam) == SegmentUrls(b', baseUrl, gdaParam) + tail;
      SegmentUrlsAppend(a, b', baseUrl, gdaParam);
    }
  }

  /** A single line contributes its URL when it is a URI line, and nothing
      when it is blank, a tag or a comment. */
  lemma SegmentUrlsOfLine(line: string, baseUrl: string, gdaParam: string)
    ensures SegmentUrls([line], baseUrl, gdaParam) ==
      if IsUriLine(line) then [baseUrl + Strip(line) + gdaParam] else []
  {
    assert [line][..0] == [];
  }

  /** There are exactly as many segment URLs as URI lines. */
  lemma {:induction false} SegmentUrlsCount(lines: seq<string>, baseUrl: string, gdaParam: string)
    ensures |SegmentUrls(lines, baseUrl, gdaParam)| == CountUriLines(lines)
    decreases |lines|
  {
    if |lines| > 0 {
      assert lines == [lines[0]] + lines[1..];
      SegmentUrlsAppend([lines[0]], lines[1..], baseUrl, gdaParam);
      SegmentUrlsOfLine(lines[0], baseUrl, gdaParam);
      SegmentUrlsCount(lines[1..], baseUrl, gdaParam);
    }
  }

  /** Every segment URL is the base URL, then a stripped URI line of the
      playlist, then the token: no blank, tag or comment line shows up in
      the result. */
  lemma {:induction false} SegmentUrlsFromUriLines(lines: seq<string>, baseUrl: string, gdaParam: string)
    ensures forall u :: u in SegmentUrls(lines, baseUrl, gdaParam) ==>
      exists k :: 0 <= k < |lines| && IsUriLine(lines[k]) && u == baseUrl + Strip(lines[k]) + gdaParam
    decreases |lines|
  {
    if |lines| > 0 {
      var init := lines[..|lines| - 1];
      var line := lines[|lines| - 1];
      var tail := if IsUriLine(line) then [SegmentUrl(line, baseUrl, gdaParam)] else [];
      assert SegmentUrls(lines, baseUrl, gdaParam) == SegmentUrls(init, baseUrl, gdaParam) + tail;
      SegmentUrlsFromUriLines(init, baseUrl, gdaParam);
      forall u | u in SegmentUrls(lines, baseUrl, gdaParam)
        ensures exists k :: 0 <= k < |lines| && IsUriLine(lines[k]) && u == baseUrl + Strip(lines[k]) + gdaParam
      {
        if u in SegmentUrls(init, baseUrl, gdaParam) {
          var k :| 0 <= k < |init| && IsUriLine(init[k]) && u == baseUrl + Strip(init[k]) + gdaParam;
          assert lines[k] == init[k];
        } else {
          assert u in tail;
          assert IsUriLine(lines[|lines| - 1]);
        }
      }
    }
  }

  /** So every segment URL starts with the base URL and ends with the token. */
  lemma SegmentUrlsShape(lines: seq<string>, baseUrl: string, gdaParam: string)
    ensures forall u :: u in SegmentUrls(lines, baseUrl, gdaParam) ==>
      StartsWith(u, baseUrl) && EndsWith(u, gdaParam)
  {
    SegmentUrlsFromUriLines(lines, baseUrl, gdaParam);
    forall u | u in SegmentUrls(lines, baseUrl, gdaParam)
      ensures StartsWith(u, baseUrl) && EndsWith(u, gdaParam)
    {
      var k :| 0 <= k < |lines| && IsUriLine(lines[k]) && u == baseUrl + Strip(lines[k]) + gdaParam;
      ConcatEnds(baseUrl, Strip(lines[k]), gdaParam);
    }
  }

  /** The URL list file, read back line by line, holds the returned URLs in
      order, for lines as iterating over a file yields them (a newline, if
      any, only as the last character, where `strip()` removes it), as long
      as neither the base URL nor the token contains a newline. */
  lemma UrlListReadBack(lines: seq<string>, baseUrl: string, gdaParam: string)
    requires forall k :: 0 <= k < |lines| && |lines[k]| > 0 ==> '\n' !in lines[k][..|lines[k]| - 1]
    requires '\n' !in baseUrl && '\n' !in gdaParam
    ensures Split(Unlines(SegmentUrls(lines, baseUrl, gdaParam)), '\n')
      == SegmentUrls(lines, baseUrl, gdaParam) + [""]
  {
    var urls := SegmentUrls(lines, baseUrl, gdaParam);
    SegmentUrlsFromUriLines(lines, baseUrl, gdaParam);
    forall i | 0 <= i < |urls|
      ensures '\n' !in urls[i]
    {
      assert urls[i] in urls;
      var k :| 0 <= k < |lines| && IsUriLine(lines[k]) && urls[i] == baseUrl + Strip(lines[k]) + gdaParam;
      StripDropsFinalSpace(lines[k], '\n');
    }
    UnlinesReadBack(urls);
  }

  /** The text of the URL list file: `f.write(url + '\n')` for each URL in
      turn. */
  method WriteUrlList(urls: seq<string>) returns (text: string)
    ensures text == Unlines(urls)
  {
    text := "";
    var j := 0;
    while j < |urls|
      invariant 0 <= j <= |urls|
      invariant text == Unlines(urls[..j])
    {
      UnlinesSnoc(urls[..j], urls[j]);
      assert urls[..j + 1] == urls[..j] + [urls[j]];
      text := text + urls[j] + "\n";
      j := j + 1;
    }
    assert urls[..|urls|] == urls;
  }

  /** `extract_ts_urls_from_m3u8`: the segment URLs of the playlist, and the
      text written to the URL list file. There is one URL per URI line
      (`SegmentUrlsCount`). */
  method ExtractTsUrls(lines: seq<string>, baseUrl: string, gdaParam: string)
    returns (tsUrls: seq<string>, listText: string)
    ensures tsUrls == SegmentUrls(lines, baseUrl, gdaParam)
    ensures listText == Unlines(tsUrls)
  {
    tsUrls := [];
    var i := 0;
    while i < |lines|
      invariant 0 <= i <= |lines|
      invariant tsUrls == SegmentUrls(lines[..i], baseUrl, gdaParam)
    {
      var line := Strip(lines[i]);
      assert lines[..i + 1][..i] == lines[..i];
      assert lines[..i + 1][i] == lines[i];
      if line != [] && !StartsWith(line, "#") {
        if gdaParam != [] {
          line := line + gdaParam;
        }
        tsUrls := tsUrls + [baseUrl + line];
      }
      i := i + 1;
    }
    assert lines[..|lines|] == lines;
    listText := WriteUrlList(tsUrls);
  }

  /** Two non-URI lines followed by two URI lines without surrounding
      whitespace give one URL for each of the latter, in order. */
  lemma TwoTagsTwoSegments(lines: seq<string>, baseUrl: string)
    requires |lines| == 4
    requires !IsUriLine(lines[0]) && !IsUriLine(lines[1])
    requires IsUriLine(lines[2]) && IsUriLine(lines[3])
    requires Strip(lines[2]) == lines[2] && Strip(lines[3]) == lines[3]
    ensures SegmentUrls(lines, baseUrl, "") == [baseUrl + lines[2], baseUrl + lines[3]]
  {
    assert lines[..1][..0] == [] && lines[..1][0] == lines[0];
    assert lines[..2][..1] == lines[..1] && lines[..2][1] == lines[1];
    assert lines[..3][..2] == lines[..2] && lines[..3][2] == lines[2];
    assert lines[..4] == lines && lines[..3] == lines[..4][..3];
    assert SegmentUrls(lines[..1], baseUrl, "") == [];
    assert SegmentUrls(lines[..2], baseUrl, "") == [];
    assert SegmentUrls(lines[..3], baseUrl, "") == [baseUrl + lines[2]];
  }

  /** A playlist of two tags and two relative segment lines under base URL
      `https://cdn/x/` without a token gives the two segment URLs in order. */
  lemma TwoSegmentExample()
    ensures SegmentUrls(["#EXTM3U", "#EXTINF:10,", "seg1.ts", "seg2.ts"], "https://cdn/x/", "")
      == ["https://cdn/x/" + "seg1.ts", "https://cdn/x/" + "seg2.ts"]
  {
    var lines := ["#EXTM3U", "#EXTINF:10,", "seg1.ts", "seg2.ts"];
    forall k | 0 <= k < 4
      ensures Strip(lines[k]) == lines[k]
      ensures IsUriLine(lines[k]) <==> lines[k][0] != '#'
    {
      StripUnchanged(lines[k]);
      UriLineByFirstChar(lines[k]);
    }
    TwoTagsTwoSegments(lines, "https://cdn/x/");
  }
}
