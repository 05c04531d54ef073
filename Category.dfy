/** parse_tululu_category.py: walk the listing pages of the science-fiction
    category and gather the links to the book pages they list. Fetching a
    page is the `fetch` parameter, `urljoin` the `join` parameter, and the
    site root a parameter too, since the module imports a name tululu.py
    does not define. */
module Category {
  import opened Wrappers
  import opened Text
  import opened Http

  /** The first `a` tag inside one `d_book` table, with its `href` if it has
      one. */
  datatype Anchor = Anchor(href: Option<string>)

  /** A listing page as BeautifulSoup sees it: its `d_book` tables in
      document order, each with its first `a` tag if it has one. */
  type Listing = seq<Option<Anchor>>

  /** `urljoin(TULULU_URL, url.find('a')['href'])` for one table:
      subscripting the `None` of a table without a link is a `TypeError`, a
      link without `href` a `KeyError`. */
  function BookLink(table: Option<Anchor>, root: string, join: (string, string) -> string): (r: Result<string, Failure>)
    ensures table.None? ==> r == Err(TypeError)
    ensures table.Some? && table.value.href.None? ==> r == Err(KeyError)
    ensures r.Ok? <==> table.Some? && table.value.href.Some?
    ensures r.Ok? ==> r.value == join(root, table.value.href.value)
  {
    match table
    case None => Err(TypeError)
    case Some(Anchor(None)) => Err(KeyError)
    case Some(Anchor(Some(href))) => Ok(join(root, href))
  }

  /** The list comprehension over the tables: one link per table, in order;
      the first table without a usable link raises. */
  function Links(tables: Listing, root: string, join: (string, string) -> string): (r: Result<seq<string>, Failure>)
    ensures r.Ok? <==> forall i :: 0 <= i < |tables| ==> BookLink(tables[i], root, join).Ok?
    ensures r.Ok? ==> |r.value| == |tables|
    ensures r.Ok? ==> forall i :: 0 <= i < |tables| ==> r.value[i] == BookLink(tables[i], root, join).value
  {
    if tables == [] then Ok([])
    else
      assert forall i :: 0 < i < |tables| ==> tables[i] == tables[1..][i - 1];
      match BookLink(tables[0], root, join)
      case Err(e) => Err(e)
      case Ok(link) =>
        match Links(tables[1..], root, join)
        case Err(e) => Err(e)
        case Ok(rest) => Ok([link] + rest)
  }

  /** A page whose links cannot all be read fails with the error of its first
      table without a usable link. */
  lemma {:induction false} LinksFirstBadTable(tables: Listing, root: string, join: (string, string) -> string)
    requires Links(tables, root, join).Err?
    ensures exists k :: 0 <= k < |tables|
                        && (forall i :: 0 <= i < k ==> BookLink(tables[i], root, join).Ok?)
                        && BookLink(tables[k], root, join) == Err(Links(tables, root, join).error)
  {
    if BookLink(tables[0], root, join).Ok? {
      var rest := tables[1..];
      assert Links(rest, root, join).Err? && Links(tables, root, join).error == Links(rest, root, join).error;
      LinksFirstBadTable(rest, root, join);
      var k :| 0 <= k < |rest|
               && (forall i :: 0 <= i < k ==> BookLink(rest[i], root, join).Ok?)
               && BookLink(rest[k], root, join) == Err(Links(rest, root, join).error);
      forall i | 0 <= i < k + 1
        ensures BookLink(tables[i], root, join).Ok?
      {
        if i > 0 {
          assert tables[i] == rest[i - 1];
        }
      }
      assert tables[k + 1] == rest[k];
    }
  }

  /** `get_links_from_one_page`: fetch the page and `raise_for_status`
      (redirects are not checked here), then read its links. */
  function GetLinksFromOnePage(reply: Reply<Listing>, root: string, join: (string, string) -> string): (r: Result<seq<string>, Failure>)
    ensures reply.Unreachable? ==> r == Err(ConnectionError)
    ensures reply.Failed? ==> r == Err(RequestError)
    ensures reply.Answered? && IsErrorStatus(reply.response.status) ==>
              r == Err(HttpError(BadStatus(reply.response.status)))
    ensures reply.Answered? && !IsErrorStatus(reply.response.status) ==>
              r == Links(reply.response.content, root, join)
  {
    match reply
    case Unreachable => Err(ConnectionError)
    case Failed => Err(RequestError)
    case Answered(response) =>
      match RaiseForStatus(response)
      case Fail(e) => Err(e)
      case Pass => Links(response.content, root, join)
  }

  /** A redirected listing page is read like any other. */
  lemma RedirectsFollowed(status: int, history: seq<int>, tables: Listing, root: string, join: (string, string) -> string)
    requires !IsErrorStatus(status)
    ensures GetLinksFromOnePage(Answered(Response(status, history, tables)), root, join)
              == GetLinksFromOnePage(Answered(Response(status, [], tables)), root, join)
  {
  }

  // ------------------------------------------------------------ page URLs

  /** The address of listing page `p`: the category path with a trailing
      slash, then another slash, then the number. */
  function PageUrl(root: string, p: int): (url: string)
    ensures url == root + "/l55//" + IntText(p)
  {
    var category := root + "/l55/";
    category + "/" + IntText(p)
  }

  /** The pages `range(1, n)` lists: 1 up to `n - 1`, none when `n <= 1`. */
  function PageUrls(root: string, n: int): (urls: seq<string>)
    ensures |urls| == if n > 1 then n - 1 else 0
    ensures forall i :: 0 <= i < |urls| ==> urls[i] == PageUrl(root, i + 1)
  {
    seq(if n > 1 then n - 1 else 0, i => PageUrl(root, i + 1))
  }

  /** Different page numbers give different addresses, so no page is
      fetched twice. */
  lemma PageUrlsDistinct(root: string, n: int)
    ensures forall i, j :: 0 <= i < j < |PageUrls(root, n)| ==> PageUrls(root, n)[i] != PageUrls(root, n)[j]
  {
    var urls := PageUrls(root, n);
    forall i, j | 0 <= i < j < |urls|
      ensures urls[i] != urls[j]
    {
      if urls[i] == urls[j] {
        assert urls[i] == root + "/l55//" + IntText(i + 1) + "";
        assert urls[j] == root + "/l55//" + IntText(j + 1) + "";
        IntTextFramed(root + "/l55//", "", i + 1, j + 1);
        assert false;
      }
    }
  }

  // --------------------------------------------------------------- the walk

  /** The links of pages read one after the other: their links
      concatenated, or the error of the first page that fails. */
  function Gather(pages: seq<Result<seq<string>, Failure>>): Result<seq<string>, Failure>
  {
    if pages == [] then Ok([])
    else Then(Gather(pages[..|pages| - 1]), pages[|pages| - 1])
  }

  /** The links gathered so far, extended by one more page's. */
  function Then(gathered: Result<seq<string>, Failure>, page: Result<seq<string>, Failure>): Result<seq<string>, Failure>
  {
    if gathered.Err? then gathered
    else if page.Err? then page
    else Ok(gathered.value + page.value)
  }

  /** What reading each of the given addresses gives. */
  function Pages(urls: seq<string>, fetch: string -> Reply<Listing>, root: string, join: (string, string) -> string): (pages: seq<Result<seq<string>, Failure>>)
    ensures |pages| == |urls|
    ensures forall i :: 0 <= i < |urls| ==> pages[i] == GetLinksFromOnePage(fetch(urls[i]), root, join)
  {
    seq(|urls|, i requires 0 <= i < |urls| => GetLinksFromOnePage(fetch(urls[i]), root, join))
  }

  /** What reading the given pages in order gives. */
  function Walk(urls: seq<string>, fetch: string -> Reply<Listing>, root: string, join: (string, string) -> string): Result<seq<string>, Failure>
  {
    Gather(Pages(urls, fetch, root, join))
  }

  /** Extending in two steps is extending once by both pages. */
  lemma ThenAssociative(a: Result<seq<string>, Failure>, b: Result<seq<string>, Failure>, c: Result<seq<string>, Failure>)
    ensures Then(Then(a, b), c) == Then(a, Then(b, c))
  {
    if a.Ok? && b.Ok? && c.Ok? {
      assert (a.value + b.value) + c.value == a.value + (b.value + c.value);
    }
  }

  /** One more page extends what was gathered. */
  lemma GatherSnoc(pages: seq<Result<seq<string>, Failure>>, page: Result<seq<string>, Failure>)
    ensures Gather(pages + [page]) == Then(Gather(pages), page)
  {
    assert (pages + [page])[..|pages|] == pages;
  }

  /** One step of a left-to-right reading: a page that succeeds extends the
      links gathered so far, and one that fails decides the whole result. */
  lemma GatherStep(pages: seq<Result<seq<string>, Failure>>, i: nat, links: seq<string>)
    requires i < |pages| && Gather(pages[..i]) == Ok(links)
    ensures pages[i].Ok? ==> Gather(pages[..i + 1]) == Ok(links + pages[i].value)
    ensures pages[i].Err? ==> Gather(pages) == pages[i]
  {
    assert pages[..i + 1] == pages[..i] + [pages[i]];
    GatherSnoc(pages[..i], pages[i]);
    assert pages[..i + 1] + pages[i + 1..] == pages;
    GatherAppend(pages[..i + 1], pages[i + 1..]);
  }

  /** Reading two runs of pages one after the other is reading the first
      and extending by the second: the links are concatenated with no
      reordering or deduplication, and once a page has failed the pages
      after it change nothing. */
  lemma {:induction false} GatherAppend(ps: seq<Result<seq<string>, Failure>>, qs: seq<Result<seq<string>, Failure>>)
    ensures Gather(ps + qs) == Then(Gather(ps), Gather(qs))
  {
    if qs == [] {
      assert ps + qs == ps;
      if Gather(ps).Ok? {
        assert Gather(ps).value + [] == Gather(ps).value;
      }
    } else {
      var init, last := qs[..|qs| - 1], qs[|qs| - 1];
      GatherAppend(ps, init);
      assert ps + qs == (ps + init) + [last];
      GatherSnoc(ps + init, last);
      ThenAssociative(Gather(ps), Gather(init), last);
    }
  }

  /** The pages succeed together exactly when each does; otherwise the
      result is the error of the first page that fails. */
  lemma {:induction false} GatherFailsAtFirstBadPage(pages: seq<Result<seq<string>, Failure>>)
    ensures Gather(pages).Ok? <==> forall i :: 0 <= i < |pages| ==> pages[i].Ok?
    ensures Gather(pages).Err? ==>
              exists k :: 0 <= k < |pages| && (forall i :: 0 <= i < k ==> pages[i].Ok?) && pages[k] == Gather(pages)
  {
    if pages != [] {
      var init := pages[..|pages| - 1];
      GatherFailsAtFirstBadPage(init);
      assert forall i :: 0 <= i < |init| ==> init[i] == pages[i];
      if Gather(init).Err? {
        var k :| 0 <= k < |init| && (forall i :: 0 <= i < k ==> init[i].Ok?) && init[k] == Gather(init);
        assert pages[k] == Gather(pages);
      } else if Gather(pages).Err? {
        assert pages[|pages| - 1] == Gather(pages);
      }
    }
  }

  /** Walking two runs of addresses one after the other is walking the
      first and extending by the second. */
  lemma WalkAppend(us: seq<string>, vs: seq<string>, fetch: string -> Reply<Listing>, root: string, join: (string, string) -> string)
    ensures Walk(us + vs, fetch, root, join) == Then(Walk(us, fetch, root, join), Walk(vs, fetch, root, join))
  {
    assert Pages(us + vs, fetch, root, join) == Pages(us, fetch, root, join) + Pages(vs, fetch, root, join);
    GatherAppend(Pages(us, fetch, root, join), Pages(vs, fetch, root, join));
  }

  /** The walk succeeds exactly when every page does; otherwise it fails
      with the error of the first page that fails. */
  lemma WalkFailsAtFirstBadPage(urls: seq<string>, fetch: string -> Reply<Listing>, root: string, join: (string, string) -> string)
    ensures Walk(urls, fetch, root, join).Ok? <==>
              forall i :: 0 <= i < |urls| ==> GetLinksFromOnePage(fetch(urls[i]), root, join).Ok?
    ensures Walk(urls, fetch, root, join).Err? ==>
              exists k :: 0 <= k < |urls|
                          && (forall i :: 0 <= i < k ==> GetLinksFromOnePage(fetch(urls[i]), root, join).Ok?)
                          && GetLinksFromOnePage(fetch(urls[k]), root, join) == Walk(urls, fetch, root, join)
  {
    GatherFailsAtFirstBadPage(Pages(urls, fetch, root, join));
  }

  /** A walk over one page gives exactly that page's links. */
  lemma WalkOnePage(url: string, fetch: string -> Reply<Listing>, root: string, join: (string, string) -> string)
    ensures Walk([url], fetch, root, join) == GetLinksFromOnePage(fetch(url), root, join)
  {
    var page := GetLinksFromOnePage(fetch(url), root, join);
    assert Pages([url], fetch, root, join) == [] + [page];
    GatherSnoc([], page);
    if page.Ok? {
      assert [] + page.value == page.value;
    }
  }

  /** The loop of `get_many_of_references`: fetch the given pages in
      order, extending the list with each page's links; the first page that
      raises ends the walk. Also returns the addresses requested, in order. */
  method ReadPages(references: seq<string>, fetch: string -> Reply<Listing>, root: string, join: (string, string) -> string)
    returns (r: Result<seq<string>, Failure>, requested: seq<string>)
    ensures r == Walk(references, fetch, root, join)
    ensures requested <= references
    ensures r.Ok? ==> requested == references
    ensures r.Err? ==> requested != [] && GetLinksFromOnePage(fetch(requested[|requested| - 1]), root, join) == r
    ensures forall i :: 0 <= i < |requested| - 1 ==> GetLinksFromOnePage(fetch(requested[i]), root, join).Ok?
  {
    ghost var pages := Pages(references, fetch, root, join);
    var links: seq<string> := [];
    requested := [];
    for i := 0 to |references|
      invariant requested == references[..i]
      invariant Gather(pages[..i]) == Ok(links)
      invariant forall j :: 0 <= j < i ==> GetLinksFromOnePage(fetch(requested[j]), root, join).Ok?
    {
      var reference := references[i];
      var page := GetLinksFromOnePage(fetch(reference), root, join);
      GatherStep(pages, i, links);
      requested := requested + [reference];
      if page.Err? {
        return page, requested;
      }
      links := links + page.value;
    }
    assert pages[..|references|] == pages;
    return Ok(links), requested;
  }

  /** `get_many_of_references(page_number)`: the addresses of pages 1 up to
      `page_number - 1`, read in order. */
  method GetManyOfReferences(pageNumber: int, fetch: string -> Reply<Listing>, root: string, join: (string, string) -> string)
    returns (r: Result<seq<string>, Failure>, requested: seq<string>)
    ensures r == Walk(PageUrls(root, pageNumber), fetch, root, join)
    ensures requested <= PageUrls(root, pageNumber)
    ensures r.Ok? ==> requested == PageUrls(root, pageNumber)
    ensures r.Err? ==> requested != [] && GetLinksFromOnePage(fetch(requested[|requested| - 1]), root, join) == r
    ensures forall i :: 0 <= i < |requested| - 1 ==> GetLinksFromOnePage(fetch(requested[i]), root, join).Ok?
  {
    var references := PageUrls(root, pageNumber);
    r, requested := ReadPages(references, fetch, root, join);
  }
}
