/**
 The URL resolver: the segment base URL (`get_base_url`) and the signed-access
 token (`extract_gda_param`) derived from the playlist URL.

 The playlist URL arrives already split by `urlparse` into scheme, network
 location and path, with its query already decoded into name/value pairs in
 the order they appear (percent-decoding is not modelled).
 */
module Urls {
  import opened Strings

  /** One decoded `name=value` pair of the query string. */
  datatype QueryParam = QueryParam(name: string, value: string)

  /** The parts of a playlist URL that the resolver reads. */
  datatype ParsedUrl = ParsedUrl(scheme: string, netloc: string, path: string, params: seq<QueryParam>)

  /** The query parameter carrying the time-limited access token. */
  const GdaName: string := "__gda__"

  /** The directory part of a URL path, as `'/'.join(path.split('/')[:-1]) + '/'`
      computes it: the path up to and including its last `/`, or `/` alone
      when the path has no `/`. */
  function BasePath(path: string): (base: string)
    ensures |base| >= 1 && base[|base| - 1] == '/'
    ensures '/' in path ==> base <= path && '/' !in path[|base|..]
    ensures '/' !in path ==> base == "/"
  {
    var segments := Split(path, '/');
    SplitJoin(path, '/');
    var n := |segments|;
    if n >= 2 then
      JoinSnoc(segments, '/');
      assert path == Join(segments[..n - 1], '/') + "/" + segments[n - 1];
      Join(segments[..n - 1], '/') + "/"
    else
      assert path == segments[0];
      Join(segments[..n - 1], '/') + "/"
  }

  /** `get_base_url`: scheme, `://`, network location, then the directory part
      of the path. The query takes no part in it. */
  function BaseUrl(url: ParsedUrl): string
  {
    url.scheme + "://" + url.netloc + BasePath(url.path)
  }

  /** The base URL starts with `scheme://netloc`, ends with `/`, and what lies
      between is the playlist path cut just after its last `/` (or `/` when the
      path has none); changing the query never changes it. */
  lemma BaseUrlShape(url: ParsedUrl, params: seq<QueryParam>)
    ensures StartsWith(BaseUrl(url), url.scheme + "://" + url.netloc)
    ensures BaseUrl(url)[|BaseUrl(url)| - 1] == '/'
    ensures '/' in url.path ==>
      exists rest :: url.scheme + "://" + url.netloc + url.path == BaseUrl(url) + rest && '/' !in rest
    ensures '/' !in url.path ==> BaseUrl(url) == url.scheme + "://" + url.netloc + "/"
    ensures BaseUrl(url.(params := params)) == BaseUrl(url)
  {
    var origin := url.scheme + "://" + url.netloc;
    var base := BasePath(url.path);
    assert BaseUrl(url) == origin + base;
    assert (origin + base)[..|origin|] == origin;
    if '/' in url.path {
      var rest := url.path[|base|..];
      assert url.path == base + rest;
      assert origin + url.path == (origin + base) + rest;
    }
  }

  /** For a playlist at `<dir><file>`, where `dir` ends with `/` and `file`
      holds no `/`, the base URL is `scheme://netloc<dir>`. */
  lemma BaseUrlOfPlaylistPath(url: ParsedUrl, dir: string, file: string)
    requires url.path == dir + file
    requires |dir| >= 1 && dir[|dir| - 1] == '/' && '/' !in file
    ensures BaseUrl(url) == url.scheme + "://" + url.netloc + dir
  {
    var path := url.path;
    assert path[|dir| - 1] == '/';
    var base := BasePath(path);
    assert base == path[..|base|] == dir;
  }

  /** `https://cdn.example.com/a/b/playlist.m3u8?x=y` has base URL
      `https://cdn.example.com/a/b/`. */
  lemma BaseUrlExample()
    ensures BaseUrl(ParsedUrl("https", "cdn.example.com", "/a/b/" + "playlist.m3u8", [QueryParam("x", "y")]))
      == "https" + "://" + "cdn.example.com" + "/a/b/"
  {
    BaseUrlOfPlaylistPath(ParsedUrl("https", "cdn.example.com", "/a/b/" + "playlist.m3u8", [QueryParam("x", "y")]),
      "/a/b/", "playlist.m3u8");
  }

  /** `parse_qs(query).get(name)`: the values given for `name`, in order,
      with the blank ones dropped (parse_qs keeps no blank values by default). */
  function QueryValues(params: seq<QueryParam>, name: string): (values: seq<string>)
    ensures forall i :: 0 <= i < |values| ==> values[i] != "" && QueryParam(name, values[i]) in params
    decreases |params|
  {
    if |params| == 0 then []
    else
      var rest := QueryValues(params[1..], name);
      if params[0].name == name && params[0].value != "" then [params[0].value] + rest else rest
  }

  /** `extract_gda_param`: `?__gda__=<value>` for the first non-blank value of
      `__gda__` in the query, and the empty string when there is none. */
  function GdaParam(url: ParsedUrl): string
  {
    var values := QueryValues(url.params, GdaName);
    var first := if |values| == 0 then "" else values[0];
    if first != "" then "?__gda__=" + first else ""
  }

  /** Whether the pair at index `i` gives `name` a non-blank value. */
  predicate Gives(params: seq<QueryParam>, name: string, i: int)
    requires 0 <= i < |params|
  {
    params[i].name == name && params[i].value != ""
  }

  /** Index `i` is the first pair that gives `name` a non-blank value. */
  predicate FirstGives(params: seq<QueryParam>, name: string, i: int) {
    && 0 <= i < |params|
    && Gives(params, name, i)
    && forall j :: 0 <= j < i ==> !Gives(params, name, j)
  }

  /** The values of `name` are empty exactly when no pair gives it a non-blank value. */
  lemma {:induction false} QueryValuesEmpty(params: seq<QueryParam>, name: string)
    ensures QueryValues(params, name) == [] <==> forall i :: 0 <= i < |params| ==> !Gives(params, name, i)
    decreases |params|
  {
    if |params| > 0 {
      var tail := params[1..];
      QueryValuesEmpty(tail, name);
      forall i | 1 <= i < |params|
        ensures Gives(params, name, i) == Gives(tail, name, i - 1)
      {
        assert params[i] == tail[i - 1];
      }
      if forall i :: 0 <= i < |params| ==> !Gives(params, name, i) {
        assert !Gives(params, name, 0);
        assert forall i :: 0 <= i < |tail| ==> !Gives(tail, name, i) by {
          forall i | 0 <= i < |tail| ensures !Gives(tail, name, i) {
            assert !Gives(params, name, i + 1);
          }
        }
      } else {
        var k :| 0 <= k < |params| && Gives(params, name, k);
        if k > 0 {
          assert Gives(tail, name, k - 1);
        }
      }
    }
  }

  /** The first value of `name` comes from the first pair that gives it a
      non-blank value; later occurrences do not matter. */
  lemma {:induction false} QueryValuesFirst(params: seq<QueryParam>, name: string, i: nat)
    requires FirstGives(params, name, i)
    ensures |QueryValues(params, name)| >= 1 && QueryValues(params, name)[0] == params[i].value
    decreases i
  {
    if i > 0 {
      assert !Gives(params, name, 0);
      forall j | 0 <= j < i - 1
        ensures !Gives(params[1..], name, j)
      {
        assert !Gives(params, name, j + 1);
      }
      QueryValuesFirst(params[1..], name, i - 1);
    }
  }

  /** Among the pairs that give `name` a non-blank value, a first one. */
  lemma {:induction false} FirstGiving(params: seq<QueryParam>, name: string, k: nat) returns (i: nat)
    requires k < |params| && Gives(params, name, k)
    ensures i <= k && FirstGives(params, name, i)
    decreases k
  {
    if j :| 0 <= j < k && Gives(params, name, j) {
      i := FirstGiving(params, name, j);
    } else {
      i := k;
    }
  }

  /** The token is empty exactly when `__gda__` is absent or all its values
      are blank; otherwise it is `?__gda__=` followed by the value of the first
      pair that gives `__gda__` a non-blank value. */
  lemma GdaParamCases(url: ParsedUrl)
    ensures GdaParam(url) == "" <==> forall i :: 0 <= i < |url.params| ==> !Gives(url.params, GdaName, i)
    ensures forall i :: FirstGives(url.params, GdaName, i) ==> GdaParam(url) == "?__gda__=" + url.params[i].value
  {
    QueryValuesEmpty(url.params, GdaName);
    if k :| 0 <= k < |url.params| && Gives(url.params, GdaName, k) {
      var i := FirstGiving(url.params, GdaName, k);
      QueryValuesFirst(url.params, GdaName, i);
      forall i' | FirstGives(url.params, GdaName, i')
        ensures i' == i
      {
      }
    }
  }

  /** A query `__gda__=<token>` gives the suffix `?__gda__=<token>`; a query
      without `__gda__` gives none. */
  lemma GdaParamExamples(scheme: string, netloc: string, path: string, token: string)
    requires token != ""
    ensures GdaParam(ParsedUrl(scheme, netloc, path, [QueryParam(GdaName, token)])) == "?__gda__=" + token
    ensures GdaParam(ParsedUrl(scheme, netloc, path, [QueryParam("x", "y")])) == ""
  {
    assert [QueryParam(GdaName, token)][1..] == [];
    assert [QueryParam("x", "y")][1..] == [];
  }

  /** A blank first `__gda__` is dropped by parse_qs, so a later non-blank
      one supplies the token. */
  lemma GdaParamSkipsBlank(scheme: string, netloc: string, path: string, token: string)
    requires token != ""
    ensures GdaParam(ParsedUrl(scheme, netloc, path, [QueryParam(GdaName, ""), QueryParam(GdaName, token)]))
      == "?__gda__=" + token
  {
    var params := [QueryParam(GdaName, ""), QueryParam(GdaName, token)];
    assert !Gives(params, GdaName, 0);
    QueryValuesFirst(params, GdaName, 1);
  }
}
