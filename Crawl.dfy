/** parse_tululu.py's `main` loop: walk the book ids from `start_page` to
    `end_page`, keeping every book that downloads, skipping the ones the site
    does not have, and retrying the same id after a connection error. What
    each `get_book` call ends in is the input, one outcome per call, in
    order; a finite sequence of them bounds how far the walk is followed. */
module Crawl {
  import opened Wrappers
  import opened Http
  import opened Books

  /** How one `get_book` call ends, as the loop sees it. */
  datatype BookOutcome =
    | Fetched(book: Book)    // returned a book
    | Missing                // raised `requests.HTTPError`
    | ConnectionLost         // raised `requests.ConnectionError`
    | Crashed(error: Failure) // raised anything else, which nothing catches

  /** The `except` clauses of the loop, applied to what `get_book` gave. */
  function Classify(r: Result<Book, Failure>): (o: BookOutcome)
    ensures o.Fetched? <==> r.Ok?
    ensures o.Fetched? ==> o.book == r.value
    ensures o.Missing? <==> r.Err? && r.error.HttpError?
    ensures o.ConnectionLost? <==> r == Err(ConnectionError)
    ensures o.Crashed? ==> r == Err(o.error) && !r.error.HttpError? && r.error != ConnectionError
  {
    match r
    case Ok(book) => Fetched(book)
    case Err(HttpError(_)) => Missing
    case Err(ConnectionError) => ConnectionLost
    case Err(e) => Crashed(e)
  }

  /** A detail page that redirects means the book is missing: the loop
      reports it and moves on. */
  lemma RedirectedPageIsMissing(bookId: int, destFolder: string, web: Web, lib: UrlLib, cwd: string)
    requires web.page(BookPageUrl(bookId)).Answered?
    requires !IsErrorStatus(web.page(BookPageUrl(bookId)).response.status)
    requires web.page(BookPageUrl(bookId)).response.history != []
    ensures Classify(GetBook(bookId, destFolder, false, false, web, lib, cwd).result) == Missing
  {
  }

  /** A detail page that cannot be reached is fetched again. */
  lemma UnreachablePageIsRetried(bookId: int, destFolder: string, web: Web, lib: UrlLib, cwd: string)
    requires web.page(BookPageUrl(bookId)).Unreachable?
    ensures Classify(GetBook(bookId, destFolder, false, false, web, lib, cwd).result) == ConnectionLost
  {
  }

  /** A book whose page parses and whose text and cover both arrive is
      kept. */
  lemma DownloadedBookIsKept(bookId: int, destFolder: string, web: Web, lib: UrlLib, cwd: string)
    requires FetchBook(bookId, destFolder, web, lib).Ok?
    requires GetContent(web.file(TxtUrl(bookId))).Ok?
    requires GetContent(web.file(FetchBook(bookId, destFolder, web, lib).value.coverUrl)).Ok?
    ensures Classify(GetBook(bookId, destFolder, false, false, web, lib, cwd).result)
            == Fetched(FetchBook(bookId, destFolder, web, lib).value)
  {
  }

  /** A detail page that raises another exception of `requests` (a read
      timeout, too many redirects) ends the run. */
  lemma FailedPageCrashes(bookId: int, destFolder: string, web: Web, lib: UrlLib, cwd: string)
    requires web.page(BookPageUrl(bookId)).Failed?
    ensures Classify(GetBook(bookId, destFolder, false, false, web, lib, cwd).result) == Crashed(RequestError)
  {
  }

  /** A book whose page parses but whose text redirects is missing: the
      loop reports it and moves on, though the page was fine. */
  lemma RedirectedTextIsMissing(bookId: int, destFolder: string, web: Web, lib: UrlLib, cwd: string)
    requires FetchBook(bookId, destFolder, web, lib).Ok?
    requires web.file(TxtUrl(bookId)).Answered?
    requires !IsErrorStatus(web.file(TxtUrl(bookId)).response.status)
    requires web.file(TxtUrl(bookId)).response.history != []
    ensures Classify(GetBook(bookId, destFolder, false, false, web, lib, cwd).result) == Missing
  {
  }

  /** A book whose page and text arrive but whose cover cannot be reached
      is fetched again from the start. */
  lemma UnreachableCoverIsRetried(bookId: int, destFolder: string, web: Web, lib: UrlLib, cwd: string)
    requires FetchBook(bookId, destFolder, web, lib).Ok?
    requires GetContent(web.file(TxtUrl(bookId))).Ok?
    requires web.file(FetchBook(bookId, destFolder, web, lib).value.coverUrl).Unreachable?
    ensures Classify(GetBook(bookId, destFolder, false, false, web, lib, cwd).result) == ConnectionLost
  {
  }

  /** A detail page without an `h1` raises an `IndexError`, which nothing
      catches. */
  lemma PageWithoutHeadingCrashes(bookId: int, destFolder: string, web: Web, lib: UrlLib, cwd: string)
    requires GetContent(web.page(BookPageUrl(bookId))).Ok?
    requires GetContent(web.page(BookPageUrl(bookId))).value.h1s == []
    ensures Classify(GetBook(bookId, destFolder, false, false, web, lib, cwd).result) == Crashed(IndexError)
  {
  }

  predicate NoCrash(os: seq<BookOutcome>)
  {
    forall i :: 0 <= i < |os| ==> !os[i].Crashed?
  }

  // ---------------------------------------------------- the loop, step by step

  /** The loop's variables: the id to fetch next, the books kept so far, and
      (not in the code) the ids those books were fetched under. */
  datatype State = State(bookId: int, books: seq<Book>, ids: seq<int>)

  /** One iteration: a book is kept and the id advances; a missing book only
      advances the id; a connection error leaves everything as it was, so
      the same id is fetched again. */
  function Next(s: State, o: BookOutcome): (t: State)
    requires !o.Crashed?
    ensures t.bookId == s.bookId + (if o.ConnectionLost? then 0 else 1)
    ensures o.ConnectionLost? ==> t == s
    ensures t.books == s.books + (if o.Fetched? then [o.book] else [])
    ensures t.ids == s.ids + (if o.Fetched? then [s.bookId] else [])
  {
    match o
    case Fetched(book) => State(s.bookId + 1, s.books + [book], s.ids + [s.bookId])
    case Missing => State(s.bookId + 1, s.books, s.ids)
    case ConnectionLost => s
  }

  /** The state after the given outcomes, starting at `start`. */
  function Replay(start: int, os: seq<BookOutcome>): State
    requires NoCrash(os)
  {
    if os == [] then State(start, [], [])
    else Next(Replay(start, os[..|os| - 1]), os[|os| - 1])
  }

  // --------------------------------------------------------- the same, at once

  /** The outcomes that settle an id: everything but connection errors. */
  function Decided(os: seq<BookOutcome>): (ds: seq<BookOutcome>)
    ensures |ds| <= |os|
    ensures forall i :: 0 <= i < |ds| ==> !ds[i].ConnectionLost?
  {
    if os == [] then []
    else Decided(os[..|os| - 1]) + (if os[|os| - 1].ConnectionLost? then [] else [os[|os| - 1]])
  }

  /** The books of the fetched outcomes, in order. */
  function FetchedBooks(os: seq<BookOutcome>): seq<Book>
  {
    if os == [] then []
    else FetchedBooks(os[..|os| - 1]) + (if os[|os| - 1].Fetched? then [os[|os| - 1].book] else [])
  }

  /** The ids of the fetched books: the n-th settled outcome settles id
      `start + n`. */
  function SuccessIds(start: int, ds: seq<BookOutcome>): seq<int>
  {
    if ds == [] then []
    else SuccessIds(start, ds[..|ds| - 1]) + (if ds[|ds| - 1].Fetched? then [start + |ds| - 1] else [])
  }

  /** Appending one outcome extends the settled outcomes and the fetched
      books by at most that outcome. */
  lemma Snoc(os: seq<BookOutcome>, o: BookOutcome)
    ensures Decided(os + [o]) == Decided(os) + (if o.ConnectionLost? then [] else [o])
    ensures FetchedBooks(os + [o]) == FetchedBooks(os) + (if o.Fetched? then [o.book] else [])
    ensures NoCrash(os + [o]) <==> NoCrash(os) && !o.Crashed?
  {
    assert (os + [o])[..|os|] == os;
    assert forall i :: 0 <= i < |os| ==> (os + [o])[i] == os[i];
  }

  /** Replaying one more outcome is one more step. */
  lemma ReplaySnoc(start: int, os: seq<BookOutcome>, o: BookOutcome)
    requires NoCrash(os) && !o.Crashed?
    ensures NoCrash(os + [o])
    ensures Replay(start, os + [o]) == Next(Replay(start, os), o)
  {
    Snoc(os, o);
    assert (os + [o])[..|os|] == os;
  }

  /** Replaying step by step gives the closed form: the id has advanced once
      per settled outcome, the books are the fetched ones, and their ids are
      the positions of the fetched outcomes among the settled ones. */
  lemma {:induction false} ReplayClosedForm(start: int, os: seq<BookOutcome>)
    requires NoCrash(os)
    ensures Replay(start, os) == State(start + |Decided(os)|, FetchedBooks(os), SuccessIds(start, Decided(os)))
  {
    if os != [] {
      var init, o := os[..|os| - 1], os[|os| - 1];
      assert NoCrash(init) by {
        assert forall i :: 0 <= i < |init| ==> init[i] == os[i];
      }
      ReplayClosedForm(start, init);
      var ds := Decided(init);
      assert !o.Crashed?;
      if o.ConnectionLost? {
        assert Decided(os) == ds;
        assert FetchedBooks(os) == FetchedBooks(init);
      } else {
        assert Decided(os) == ds + [o];
        assert Decided(os)[..|Decided(os)| - 1] == ds;
        assert SuccessIds(start, Decided(os)) == SuccessIds(start, ds) + (if o.Fetched? then [start + |ds|] else []);
      }
    }
  }

  /** The kept ids are strictly increasing and each lies between `start` and
      the id reached. */
  lemma {:induction false} SuccessIdsOrdered(start: int, ds: seq<BookOutcome>)
    ensures forall i, j :: 0 <= i < j < |SuccessIds(start, ds)| ==> SuccessIds(start, ds)[i] < SuccessIds(start, ds)[j]
    ensures forall i :: 0 <= i < |SuccessIds(start, ds)| ==> start <= SuccessIds(start, ds)[i] < start + |ds|
  {
    if ds != [] {
      SuccessIdsOrdered(start, ds[..|ds| - 1]);
    }
  }

  /** An id is kept exactly when the outcome that settled it fetched a book. */
  lemma {:induction false} SuccessIdsExact(start: int, ds: seq<BookOutcome>, k: int)
    ensures k in SuccessIds(start, ds) <==> start <= k < start + |ds| && ds[k - start].Fetched?
  {
    if ds != [] {
      var init := ds[..|ds| - 1];
      SuccessIdsExact(start, init, k);
      SuccessIdsOrdered(start, init);
      if start <= k < start + |init| {
        assert ds[k - start] == init[k - start];
      }
    }
  }

  /** As many kept ids as kept books. */
  lemma {:induction false} SuccessIdsMatchBooks(start: int, os: seq<BookOutcome>)
    ensures |SuccessIds(start, Decided(os))| == |FetchedBooks(os)|
  {
    if os != [] {
      var init, o := os[..|os| - 1], os[|os| - 1];
      SuccessIdsMatchBooks(start, init);
      if o.ConnectionLost? {
        assert Decided(os) == Decided(init);
      } else {
        assert Decided(os) == Decided(init) + [o];
        assert Decided(os)[..|Decided(os)| - 1] == Decided(init);
      }
    }
  }

  /** Retrying after connection errors: the id is fetched again, and only
      the outcome after the errors counts. */
  lemma RetryThenSuccess(start: int, book: Book)
    ensures Replay(start, [ConnectionLost, ConnectionLost, Fetched(book)]) == State(start + 1, [book], [start])
  {
    var os := [ConnectionLost, ConnectionLost, Fetched(book)];
    assert os[..2] == [ConnectionLost, ConnectionLost];
    assert os[..2][..1] == [ConnectionLost];
    assert os[..2][..1][..0] == [];
    assert Replay(start, os[..2][..1]) == State(start, [], []);
    assert Replay(start, os[..2]) == State(start, [], []);
  }

  /** Ids 1 to 3 with book 2 missing keep books 1 and 3, in that order. */
  lemma OneMissingOfThree(a: Book, c: Book)
    ensures Replay(1, [Fetched(a), Missing, Fetched(c)]) == State(4, [a, c], [1, 3])
  {
    var os := [Fetched(a), Missing, Fetched(c)];
    assert os[..2] == [Fetched(a), Missing];
    assert os[..2][..1] == [Fetched(a)];
    assert os[..2][..1][..0] == [];
    assert Replay(1, os[..2][..1]) == State(2, [a], [1]);
    assert Replay(1, os[..2]) == State(3, [a], [1]);
  }

  // ------------------------------------------------------------ progress bar

  /** The items `tqdm(range(end_page))` yields: `end_page` of them, none for
      a page number below 1. */
  function ProgressTotal(endPage: int): nat
  {
    if endPage > 0 then endPage else 0
  }

  /** The items left after `n` advances, never below zero. */
  function TicksLeft(endPage: int, n: nat): nat
  {
    if n <= ProgressTotal(endPage) then ProgressTotal(endPage) - n else 0
  }

  // ------------------------------------------------------------- the crawler

  /** The loop's variables as the code updates them in place. */
  class Crawler {
    const startPage: int
    const endPage: int
    var bookId: int
    var books: seq<Book>
    /** Progress-bar items not yet taken. */
    var ticks: nat
    /** The ids the kept books were fetched under. */
    ghost var ids: seq<int>
    /** The outcomes so far. */
    ghost var seen: seq<BookOutcome>

    ghost predicate Valid()
      reads this
    {
      NoCrash(seen)
      && State(bookId, books, ids) == Replay(startPage, seen)
      && startPage <= bookId <= endPage + 1
      && ticks == TicksLeft(endPage, |Decided(seen)|)
    }

    /** The state before the loop: the first id, no books, a full bar. */
    constructor(startPage: int, endPage: int)
      requires startPage <= endPage
      ensures Valid()
      ensures this.startPage == startPage && this.endPage == endPage
      ensures seen == [] && bookId == startPage && books == [] && ticks == ProgressTotal(endPage)
    {
      this.startPage := startPage;
      this.endPage := endPage;
      bookId := startPage;
      books := [];
      ticks := ProgressTotal(endPage);
      ids := [];
      seen := [];
    }

    /** One iteration of the loop body after `get_book`: keep the book,
        advance the id and take a progress-bar item, unless the connection
        failed. Taking an item from an empty bar raises `StopIteration`,
        reported as `exhausted`. */
    method Step(o: BookOutcome) returns (exhausted: bool)
      requires Valid() && bookId <= endPage && !o.Crashed?
      modifies this
      ensures Valid()
      ensures seen == old(seen) + [o]
      ensures State(bookId, books, ids) == Next(old(State(bookId, books, ids)), o)
      ensures exhausted <==> !o.ConnectionLost? && old(ticks) == 0
      ensures |Decided(seen)| == |Decided(old(seen))| + (if o.ConnectionLost? then 0 else 1)
    {
      ghost var before := seen;
      Snoc(before, o);
      ReplaySnoc(startPage, before, o);
      if o.Fetched? {
        books := books + [o.book];
        ids := ids + [bookId];
      }
      exhausted := false;
      if !o.ConnectionLost? {
        bookId := bookId + 1;
        if ticks == 0 {
          exhausted := true;
        } else {
          ticks := ticks - 1;
        }
      }
      seen := before + [o];
    }

    /** The `for` loop of `main`, fed one outcome per `get_book` call until
        the last id is settled; `used` is how many outcomes it took. A
        crash ends it with the crashing outcome not recorded. */
    method Drive(outcomes: seq<BookOutcome>) returns (r: RunResult, used: nat)
      requires Valid() && seen == []
      modifies this
      ensures Valid() && used <= |outcomes|
      ensures r.Aborted? && r.cause.Uncaught? ==>
                used >= 1 && seen == outcomes[..used - 1] && outcomes[used - 1] == Crashed(r.cause.error)
      ensures !(r.Aborted? && r.cause.Uncaught?) ==> seen == outcomes[..used]
      ensures r.Saved? ==> bookId == endPage + 1 && r.books == books
      ensures r == Aborted(ProgressBarExhausted) ==> |Decided(seen)| == ProgressTotal(endPage) + 1
      ensures r == Unfinished ==> used == |outcomes| && bookId <= endPage
      ensures r != Aborted(ProgressBarExhausted) ==> |Decided(seen)| <= ProgressTotal(endPage)
      ensures r != StartAfterEnd
    {
      used := 0;
      while bookId <= endPage
        invariant Valid()
        invariant used <= |outcomes| && seen == outcomes[..used]
        invariant |Decided(seen)| <= ProgressTotal(endPage)
        decreases |outcomes| - used
      {
        if used == |outcomes| {
          return Unfinished, used;
        }
        var o := outcomes[used];
        if o.Crashed? {
          return Aborted(Uncaught(o.error)), used + 1;
        }
        assert outcomes[..used + 1] == seen + [o];
        var exhausted := Step(o);
        used := used + 1;
        if exhausted {
          return Aborted(ProgressBarExhausted), used;
        }
      }
      return Saved(books), used;
    }
  }

  // ------------------------------------------------------------------- main

  /** What ends a run early. */
  datatype Abort =
    | Uncaught(error: Failure) // an exception the loop does not catch
    | ProgressBarExhausted     // `StopIteration` from the progress bar

  /** How `main` ends: the arguments are refused (with exit status 0, as
      `sys.exit()` with no argument gives), the books are saved, the run
      dies, or the given outcomes run out first. */
  datatype RunResult = StartAfterEnd | Saved(books: seq<Book>) | Aborted(cause: Abort) | Unfinished

  /** parse_tululu.py's `main` from the argument check to `save_json_file`,
      fed one outcome per `get_book` call; `used` is how many it took. */
  method Run(startPage: int, endPage: int, outcomes: seq<BookOutcome>) returns (r: RunResult, used: nat)
    ensures used <= |outcomes|
    ensures r == StartAfterEnd <==> startPage > endPage
    ensures r == StartAfterEnd ==> used == 0
    ensures r.Saved? ==>
              NoCrash(outcomes[..used])
              && |Decided(outcomes[..used])| == endPage - startPage + 1
              && r.books == FetchedBooks(outcomes[..used])
              && 1 <= startPage
    ensures r == Aborted(ProgressBarExhausted) ==>
              NoCrash(outcomes[..used])
              && |Decided(outcomes[..used])| == ProgressTotal(endPage) + 1
              && startPage < 1
    ensures r.Aborted? && r.cause.Uncaught? ==>
              used >= 1 && NoCrash(outcomes[..used - 1]) && outcomes[used - 1] == Crashed(r.cause.error)
    ensures r == Unfinished ==>
              used == |outcomes| && NoCrash(outcomes) && |Decided(outcomes)| < endPage - startPage + 1
              && |Decided(outcomes)| <= ProgressTotal(endPage)
    ensures (1 <= startPage <= endPage && NoCrash(outcomes) && |Decided(outcomes)| >= endPage - startPage + 1)
              ==> r.Saved?
  {
    if startPage > endPage {
      return StartAfterEnd, 0;
    }
    var crawler := new Crawler(startPage, endPage);
    r, used := crawler.Drive(outcomes);
    ghost var seen := crawler.seen;
    assert crawler.bookId == startPage + |Decided(seen)| && crawler.books == FetchedBooks(seen) by {
      ReplayClosedForm(startPage, seen);
    }
    if r.Aborted? && r.cause.Uncaught? {
      assert !NoCrash(outcomes) by {
        assert outcomes[used - 1].Crashed?;
      }
    } else if r == Unfinished {
      assert outcomes[..used] == outcomes;
    }
  }
}
