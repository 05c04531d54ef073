/** Taking URLs and paths apart: parse_tululu.py's `parse_url` and the split
    of the `--json_path` argument, tululu.py's `url_serializing` and
    `check_url`. `unquote` and `urlsplit` are library calls; their result is
    the input here. */
module Urls {
  import opened Wrappers
  import opened Text
  import opened Http

  /** The five parts `urlsplit` returns for a URL that `unquote` has already
      decoded. */
  datatype SplitUrl = SplitUrl(scheme: string, netloc: string, path: string, query: string, fragment: string)

  /** `path.split('.')[-1]`: the text after the last dot, or the whole path
      when it has no dot. */
  function Extension(path: string): string
  {
    Last(Split(path, "."))
  }

  /** `path.split('.')[0].split('/')[-1]`: the last `/`-segment of the text
      before the first dot. */
  function ImageName(path: string): string
  {
    Last(Split(Split(path, ".")[0], "/"))
  }

  /** The extension is exactly what follows the last dot of the path. */
  lemma ExtensionAfterLastDot(path: string)
    ensures '.' !in Extension(path)
    ensures Extension(path) == RPartition(path, '.').2
    ensures '.' in path ==> path == RPartition(path, '.').0 + "." + Extension(path)
    ensures '.' !in path ==> Extension(path) == path
  {
    SplitLastAfterLastSep(path, '.');
  }

  /** The image name has neither a slash nor a dot, and is what follows the
      last slash of the text before the first dot. */
  lemma ImageNameClean(path: string)
    ensures '/' !in ImageName(path) && '.' !in ImageName(path)
    ensures ImageName(path) == RPartition(Split(path, ".")[0], '/').2
  {
    var stem := Split(path, ".")[0];
    SplitFirstBeforeFirstSep(path, '.');
    SplitLastAfterLastSep(stem, '/');
    var p := RPartition(stem, '/');
    assert multiset(stem) == multiset(p.0) + multiset(p.1) + multiset(p.2);
  }

  // ------------------------------------------------------------- parse_url

  /** The three fields `parse_url` returns. */
  datatype PathFields = PathFields(bookId: string, extension: string, imageName: string)

  /** parse_tululu.py's `parse_url`: nothing for an empty path; otherwise the
      path stripped of slashes minus its first character, the extension with
      a dot in front, and the image name. */
  function ParseUrl(u: SplitUrl): (r: Option<PathFields>)
    ensures r.None? <==> u.path == []
    ensures r.Some? ==> r.value.extension == "." + Extension(u.path)
    ensures r.Some? ==> r.value.imageName == ImageName(u.path)
  {
    if u.path == [] then None
    else
      var stripped := Strip(u.path, {'/'});
      Some(PathFields(if stripped == [] then [] else stripped[1..], "." + Extension(u.path), ImageName(u.path)))
  }

  /** The path of a book's detail page, as parse_tululu.py's `get_book` builds it. */
  function BookPagePath(bookId: int): string
  {
    "/b" + IntText(bookId) + "/"
  }

  /** `parse_url` inverts the detail-page URL: the book id it reads back is
      the decimal text of the id the URL was built from, and different ids
      read back differently. */
  lemma ParseUrlBookPage(u: SplitUrl, bookId: int)
    requires u.path == BookPagePath(bookId)
    ensures ParseUrl(u).Some? && ParseUrl(u).value.bookId == IntText(bookId)
  {
    var t := IntText(bookId);
    var body := "b" + t;
    assert u.path == ['/'] + body + ['/'];
    assert body[|body| - 1] == t[|t| - 1];
    StripFrame(body, '/');
    assert body[1..] == t;
  }

  /** Asset fields: the extension is a dot followed by dot-free text; the
      image name holds neither a slash nor a dot. */
  lemma ParseUrlAssetFields(u: SplitUrl)
    requires u.path != []
    ensures ParseUrl(u).value.extension[0] == '.'
    ensures '.' !in ParseUrl(u).value.extension[1..]
    ensures '/' !in ParseUrl(u).value.imageName && '.' !in ParseUrl(u).value.imageName
  {
    ExtensionAfterLastDot(u.path);
    ImageNameClean(u.path);
    assert ParseUrl(u).value.extension[1..] == Extension(u.path);
  }

  // ------------------------------------------------------- url_serializing

  /** The name and the value of a query `k=v` holding a single `=`. */
  function QueryPair(query: string): (kv: (string, string))
    requires multiset(query)['='] == 1
    ensures query == kv.0 + "=" + kv.1
    ensures '=' !in kv.0 && '=' !in kv.1
  {
    var p := RPartition(query, '=');
    assert '=' in multiset(query);
    assert multiset(query) == multiset(p.0) + multiset(p.1) + multiset(p.2);
    (p.0, p.2)
  }

  /** The dictionary tululu.py's `url_serializing` builds: a `ValueError`
      unless an empty query or one with exactly one `=`; otherwise the
      entries of the host, the query's key and value, and the path's
      extension and image name. */
  function Serialized(u: SplitUrl): (r: Result<map<string, string>, Failure>)
    ensures r.Err? <==> u.query != [] && multiset(u.query)['='] != 1
    ensures r.Err? ==> r.error == ValueError
    ensures r.Ok? ==> "site_name" in r.value
  {
    if u.query != [] && multiset(u.query)['='] != 1 then Err(ValueError)
    else
      Ok(Entries(u.netloc,
                 if u.query == [] then None else Some(QueryPair(u.query)),
                 if u.path == [] then None else Some((Extension(u.path), ImageName(u.path)))))
  }

  /** The dictionary filled key by key: the site name, then the query's key
      when there is a query, then the extension and the image name when the
      path is non-empty, each later entry replacing an earlier one of the
      same key. */
  function Entries(host: string, query: Option<(string, string)>, path: Option<(string, string)>): (m: map<string, string>)
    ensures m.Keys == {"site_name"}
                      + (if query.Some? then {query.value.0} else {})
                      + (if path.Some? then {"extension", "image_name"} else {})
    ensures m["site_name"] == if query.Some? && query.value.0 == "site_name" then query.value.1 else host
    ensures path.Some? ==> m["extension"] == path.value.0 && m["image_name"] == path.value.1
    ensures query.Some? && (path.None? || query.value.0 !in {"extension", "image_name"}) ==>
              m[query.value.0] == query.value.1
  {
    assert "site_name"[0] != "extension"[0] && "site_name"[0] != "image_name"[0];
    assert "extension"[0] != "image_name"[0];
    var site := map["site_name" := host];
    var withQuery := if query.None? then site else site[query.value.0 := query.value.1];
    if path.None? then withQuery
    else withQuery["extension" := path.value.0]["image_name" := path.value.1]
  }

  /** tululu.py's `url_serializing`, which fills its dictionary step by step. */
  method UrlSerializing(u: SplitUrl) returns (r: Result<map<string, string>, Failure>)
    ensures r == Serialized(u)
  {
    var data := map["site_name" := u.netloc];
    if u.query != [] {
      var parts := Split(u.query, "=");
      SplitCharCount(u.query, '=');
      if |parts| != 2 {
        return Err(ValueError);
      }
      SplitOnce(u.query, '=');
      data := data[parts[0] := parts[1]];
    }
    if u.path != [] {
      data := data["extension" := Extension(u.path)];
      data := data["image_name" := ImageName(u.path)];
    }
    return Ok(data);
  }

  // -------------------------------------------------------------- check_url

  /** tululu.py's `check_url` as written: it serializes both URLs and compares
      their `site_name` entries, which a query key `site_name` overwrites. */
  function CheckUrl(url: SplitUrl, base: SplitUrl): (o: Outcome<Failure>)
    ensures o == Pass <==>
              Serialized(url).Ok? && Serialized(base).Ok?
              && Serialized(url).value["site_name"] == Serialized(base).value["site_name"]
    ensures o.Fail? ==> o.error in {ValueError, HttpError(ForeignSite)}
    ensures Serialized(url).Err? ==> o == Fail(ValueError)
  {
    match Serialized(url)
    case Err(e) => Fail(e)
    case Ok(m) =>
      match Serialized(base)
      case Err(e) => Fail(e)
      case Ok(b) => if m["site_name"] == b["site_name"] then Pass else Fail(HttpError(ForeignSite))
  }

  /** A query `k=v` whose key and value hold no `=` adds key `k` with value
      `v`. */
  lemma KeyValueQuery(k: string, v: string)
    requires '=' !in k && '=' !in v
    ensures multiset(k + "=" + v)['='] == 1
    ensures QueryPair(k + "=" + v) == (k, v)
  {
    assert multiset(k + "=" + v) == multiset(k) + multiset("=") + multiset(v);
    assert '=' !in multiset(k) && '=' !in multiset(v);
    var kv := QueryPair(k + "=" + v);
    LastSeparatorUnique(kv.0, kv.1, k, v, '=');
  }

  /** A URL on any host and with any path passes `check_url` against a base
      whose host it names in the query `site_name=<host>`, though the hosts
      differ. */
  lemma CheckUrlAcceptsForeignHost(host: string, foreign: string, path: string)
    requires '=' !in host && foreign != host
    ensures CheckUrl(SplitUrl("http", foreign, path, "site_name=" + host, ""), SplitUrl("https", host, "", "", "")) == Pass
    ensures CheckHost(SplitUrl("http", foreign, path, "site_name=" + host, ""), SplitUrl("https", host, "", "", "")).Fail?
  {
    var url := SplitUrl("http", foreign, path, "site_name=" + host, "");
    var base := SplitUrl("https", host, "", "", "");
    assert Serialized(url).Ok? && Serialized(url).value["site_name"] == host by {
      assert url.query == "site_name" + "=" + host;
      KeyValueQuery("site_name", host);
    }
    assert Serialized(base).Ok? && Serialized(base).value["site_name"] == host;
  }

  /** The check tululu.py's `check_url` is meant to make: the URL is on the
      base URL's host. */
  function CheckHost(url: SplitUrl, base: SplitUrl): (o: Outcome<Failure>)
    ensures o == Pass <==> url.netloc == base.netloc
    ensures o.Fail? ==> o.error == HttpError(ForeignSite)
  {
    if url.netloc == base.netloc then Pass else Fail(HttpError(ForeignSite))
  }

  /** Where no query names `site_name`, the check as written and the
      intended one agree. */
  lemma CheckUrlAgreesWithCheckHost(url: SplitUrl, base: SplitUrl)
    requires Serialized(url).Ok? && Serialized(base).Ok?
    requires url.query == [] || QueryPair(url.query).0 != "site_name"
    requires base.query == [] || QueryPair(base.query).0 != "site_name"
    ensures CheckUrl(url, base) == CheckHost(url, base)
  {
  }

  // ------------------------------------------------------- --json_path split

  /** parse_tululu.py's choice of folder and file name for the JSON catalogue:
      with a non-empty `--json_path`, the text before and after its last
      slash; otherwise the destination folder and `books.json`. */
  function JsonTarget(jsonPath: Option<string>, destFolder: string): (r: (string, string))
    ensures jsonPath.None? || jsonPath == Some([]) ==> r == (destFolder, "books.json")
    ensures jsonPath.Some? && jsonPath.value != [] ==> '/' !in r.1
    ensures jsonPath.Some? && '/' in jsonPath.value ==> jsonPath.value == r.0 + "/" + r.1
    ensures jsonPath.Some? && jsonPath.value != [] && '/' !in jsonPath.value ==> r == ([], jsonPath.value)
  {
    if jsonPath.Some? && jsonPath.value != [] then
      var p := RPartition(jsonPath.value, '/');
      (p.0, p.2)
    else (destFolder, "books.json")
  }
}
