/** One book, as parse_tululu.py fetches it: the detail page, the record
    `parse_book_page` builds from it, and `get_book`, which then downloads the
    text and the cover unless told to skip them. Also tululu.py's
    `download_txt`, which writes a text only when there is one. */
module Books {
  import opened Wrappers
  import opened Text
  import opened Http
  import opened Urls
  import opened Headings

  /** parse_tululu.py's `TULULU_URL`. */
  const TululuUrl: string := "https://tululu.org"

  /** The detail page of a book: `f'{TULULU_URL}/b{book_id}/'`. */
  function BookPageUrl(bookId: int): string
  {
    TululuUrl + BookPagePath(bookId)
  }

  /** The text of a book: `txt.php` with the id as the `id` parameter. */
  function TxtUrl(bookId: int): string
  {
    TululuUrl + "/txt.php?id=" + IntText(bookId)
  }

  /** Different books have different detail pages and different texts. */
  lemma BookUrlsDistinct(a: int, b: int)
    requires a != b
    ensures BookPageUrl(a) != BookPageUrl(b) && TxtUrl(a) != TxtUrl(b)
  {
    if BookPageUrl(a) == BookPageUrl(b) {
      BookPageUrlInjective(a, b);
    }
    if TxtUrl(a) == TxtUrl(b) {
      TxtUrlInjective(a, b);
    }
  }

  /** The detail-page address determines the id. */
  lemma BookPageUrlInjective(a: int, b: int)
    requires BookPageUrl(a) == BookPageUrl(b)
    ensures a == b
  {
    CommonPrefix(TululuUrl, BookPagePath(a), BookPagePath(b));
    IntTextFramed("/b", "/", a, b);
  }

  /** The text address determines the id. */
  lemma TxtUrlInjective(a: int, b: int)
    requires TxtUrl(a) == TxtUrl(b)
    ensures a == b
  {
    assert TxtUrl(a) == TululuUrl + "/txt.php?id=" + IntText(a) + "";
    assert TxtUrl(b) == TululuUrl + "/txt.php?id=" + IntText(b) + "";
    IntTextFramed(TululuUrl + "/txt.php?id=", "", a, b);
  }

  // ------------------------------------------------------------------ paths

  /** `str(Path(folder, name))` for a folder and a name without slashes at
      their ends: an empty side adds nothing. */
  function PathIn(folder: string, name: string): string
  {
    if folder == [] then name else if name == [] then folder else folder + "/" + name
  }

  /** A file with a non-empty extension inside a named sub-folder. */
  lemma InFolder(folder: string, sub: string, name: string, ext: string)
    requires sub != [] && ext != []
    ensures PathIn(PathIn(folder, sub), name + ext) == PathIn(folder, sub) + "/" + name + ext
  {
  }

  // --------------------------------------------------------------- the page

  /** A book as parse_tululu.py records it in the catalogue. */
  datatype Book = Book(
    title: string,
    author: string,
    imgSrc: string,
    bookPath: string,
    genres: seq<string>,
    coverUrl: string,
    comments: seq<string>)

  /** What BeautifulSoup selects on a detail page: the texts of the `h1`s, the
      `src` of the first `.bookimage img[src]` if there is one, the genre
      links and the comments. */
  datatype Markup = Markup(h1s: seq<string>, coverSrc: Option<string>, genres: seq<string>, comments: seq<string>)

  /** The library calls the page code makes: `urljoin`, and `urlsplit` after
      `unquote`. */
  datatype UrlLib = UrlLib(join: (string, string) -> string, split: string -> SplitUrl)

  /** The cover's address: its `src` resolved against the book's page. */
  function CoverUrl(page: Markup, bookId: int, lib: UrlLib): string
    requires page.coverSrc.Some?
  {
    lib.join(BookPageUrl(bookId), page.coverSrc.value)
  }

  /** parse_tululu.py's `parse_book_page`. It fails as the code does, in the
      code's order: no `h1` or a heading that is not "title :: author"; no
      cover image (`None['src']`, a `TypeError`); a cover address with an
      empty path (`None.get`, an `AttributeError`). */
  function ParseBookPage(page: Markup, bookId: int, destFolder: string, lib: UrlLib): (r: Result<Book, Failure>)
    ensures TitleAndAuthor(page.h1s).Err? ==> r == Err(TitleAndAuthor(page.h1s).error)
    ensures TitleAndAuthor(page.h1s).Ok? && page.coverSrc.None? ==> r == Err(TypeError)
    ensures TitleAndAuthor(page.h1s).Ok? && page.coverSrc.Some? && lib.split(CoverUrl(page, bookId, lib)).path == [] ==>
              r == Err(AttributeError)
    ensures r.Ok? <==> TitleAndAuthor(page.h1s).Ok? && page.coverSrc.Some?
                       && lib.split(CoverUrl(page, bookId, lib)).path != []
    ensures r.Ok? ==> (r.value.title, r.value.author) == TitleAndAuthor(page.h1s).value
    ensures r.Ok? ==> r.value.coverUrl == CoverUrl(page, bookId, lib)
                      && r.value.genres == page.genres && r.value.comments == page.comments
    ensures r.Ok? ==> r.value.bookPath == PathIn(destFolder, "books") + "/" + r.value.title + ".txt"
    ensures r.Ok? ==> var cover := ParseUrl(lib.split(r.value.coverUrl)).value;
                      r.value.imgSrc == PathIn(destFolder, "covers") + "/" + cover.imageName + cover.extension
  {
    match TitleAndAuthor(page.h1s)
    case Err(e) => Err(e)
    case Ok((title, author)) =>
      if page.coverSrc.None? then Err(TypeError)
      else
        var coverUrl := CoverUrl(page, bookId, lib);
        match ParseUrl(lib.split(coverUrl))
        case None => Err(AttributeError)
        case Some(cover) =>
          InFolder(destFolder, "covers", cover.imageName, cover.extension);
          InFolder(destFolder, "books", title, ".txt");
          Ok(Book(title, author,
                  PathIn(PathIn(destFolder, "covers"), cover.imageName + cover.extension),
                  PathIn(PathIn(destFolder, "books"), title + ".txt"),
                  page.genres, coverUrl, page.comments))
  }

  // --------------------------------------------------------------- get_book

  /** Everything the network can answer: the detail pages (already parsed by
      BeautifulSoup) and the files, each by address. */
  datatype Web = Web(page: string -> Reply<Markup>, file: string -> Reply<Bytes>)

  /** One call of `get_book`: what it returned or raised, the addresses it
      requested, in order, and the files it wrote, in order. */
  datatype Attempt = Attempt(result: Result<Book, Failure>, requested: seq<string>, written: seq<(string, Bytes)>)

  /** `create_path(name, folder)`: the name inside the folder inside the
      working directory. */
  function CreatePath(cwd: string, folder: string, name: string): string
  {
    PathIn(PathIn(cwd, folder), name)
  }

  /** `download_txt` as `get_book` calls it: the text fetched with
      `get_content`, to be written inside `books` under the title with
      `.txt` added. */
  function TextDownload(bookId: int, destFolder: string, title: string, web: Web, cwd: string): (r: Result<(string, Bytes), Failure>)
    ensures r.Err? <==> GetContent(web.file(TxtUrl(bookId))).Err?
    ensures r.Err? ==> r.error == GetContent(web.file(TxtUrl(bookId))).error
    ensures r.Ok? ==> r.value == (CreatePath(cwd, PathIn(destFolder, "books"), title + ".txt"),
                                  GetContent(web.file(TxtUrl(bookId))).value)
  {
    match GetContent(web.file(TxtUrl(bookId)))
    case Err(e) => Err(e)
    case Ok(text) => Ok((CreatePath(cwd, PathIn(destFolder, "books"), title + ".txt"), text))
  }

  /** `download_image` as `get_book` calls it: the cover fetched with
      `get_content`, to be written inside `covers` under the image name, with
      the extension appended to the path `create_path` returns. */
  function CoverDownload(coverUrl: string, cover: PathFields, destFolder: string, web: Web, cwd: string): (r: Result<(string, Bytes), Failure>)
    ensures r.Err? <==> GetContent(web.file(coverUrl)).Err?
    ensures r.Err? ==> r.error == GetContent(web.file(coverUrl)).error
    ensures r.Ok? ==> r.value == (CreatePath(cwd, PathIn(destFolder, "covers"), cover.imageName) + cover.extension,
                                  GetContent(web.file(coverUrl)).value)
  {
    match GetContent(web.file(coverUrl))
    case Err(e) => Err(e)
    case Ok(image) => Ok((CreatePath(cwd, PathIn(destFolder, "covers"), cover.imageName) + cover.extension, image))
  }

  /** The first half of `get_book`: `get_content` on the detail page, then
      `parse_book_page` on what came back. */
  function FetchBook(bookId: int, destFolder: string, web: Web, lib: UrlLib): (r: Result<Book, Failure>)
    ensures GetContent(web.page(BookPageUrl(bookId))).Err? ==> r == Err(GetContent(web.page(BookPageUrl(bookId))).error)
    ensures GetContent(web.page(BookPageUrl(bookId))).Ok? ==>
              r == ParseBookPage(GetContent(web.page(BookPageUrl(bookId))).value, bookId, destFolder, lib)
    ensures r.Ok? ==> ParseUrl(lib.split(r.value.coverUrl)).Some?
    ensures r.Ok? ==> r.value.bookPath == PathIn(destFolder, "books") + "/" + r.value.title + ".txt"
    ensures r.Ok? ==> var cover := ParseUrl(lib.split(r.value.coverUrl)).value;
                      r.value.imgSrc == PathIn(destFolder, "covers") + "/" + cover.imageName + cover.extension
  {
    match GetContent(web.page(BookPageUrl(bookId)))
    case Err(e) => Err(e)
    case Ok(page) => ParseBookPage(page, bookId, destFolder, lib)
  }

  /** The second half of `get_book`, once the page has given `book` and its
      cover's fields: the text unless `skipTxt`, then the cover unless
      `skipImages`. */
  function Downloads(bookId: int, destFolder: string, skipImages: bool, skipTxt: bool,
                     book: Book, cover: PathFields, web: Web, cwd: string): (a: Attempt)
    ensures |a.requested| >= 1 && a.requested[0] == BookPageUrl(bookId)
    ensures a.result.Ok? ==> a.result == Ok(book)
    ensures (skipTxt || TextDownload(bookId, destFolder, book.title, web, cwd).Ok?)
            && (skipImages || CoverDownload(book.coverUrl, cover, destFolder, web, cwd).Ok?) ==>
              a.result == Ok(book)
    ensures !skipTxt && TextDownload(bookId, destFolder, book.title, web, cwd).Err? ==>
              a.result == Err(TextDownload(bookId, destFolder, book.title, web, cwd).error)
    ensures (skipTxt || TextDownload(bookId, destFolder, book.title, web, cwd).Ok?) && !skipImages
            && CoverDownload(book.coverUrl, cover, destFolder, web, cwd).Err? ==>
              a.result == Err(CoverDownload(book.coverUrl, cover, destFolder, web, cwd).error)
    ensures a.result.Ok? && !skipTxt ==>
              TextDownload(bookId, destFolder, book.title, web, cwd).Ok? && |a.written| >= 1
              && a.written[0] == TextDownload(bookId, destFolder, book.title, web, cwd).value
    ensures a.result.Ok? && !skipImages ==>
              CoverDownload(book.coverUrl, cover, destFolder, web, cwd).Ok? && |a.written| >= 1
              && a.written[|a.written| - 1] == CoverDownload(book.coverUrl, cover, destFolder, web, cwd).value
  {
    var pageUrl := BookPageUrl(bookId);
    var textUrls := if skipTxt then [] else [TxtUrl(bookId)];
    var text := if skipTxt then Ok([])
                else match TextDownload(bookId, destFolder, book.title, web, cwd)
                     case Err(e) => Err(e)
                     case Ok(w) => Ok([w]);
    match text
    case Err(e) => Attempt(Err(e), [pageUrl] + textUrls, [])
    case Ok(textWritten) =>
      if skipImages then Attempt(Ok(book), [pageUrl] + textUrls, textWritten)
      else
        match CoverDownload(book.coverUrl, cover, destFolder, web, cwd)
        case Err(e) => Attempt(Err(e), [pageUrl] + textUrls + [book.coverUrl], textWritten)
        case Ok(w) => Attempt(Ok(book), [pageUrl] + textUrls + [book.coverUrl], textWritten + [w])
  }

  /** parse_tululu.py's `get_book`: fetch and parse the detail page, then
      download the text unless `skipTxt` and the cover unless `skipImages`.
      Whatever raises ends the call, leaving behind what was already written. */
  function GetBook(bookId: int, destFolder: string, skipImages: bool, skipTxt: bool,
                   web: Web, lib: UrlLib, cwd: string): (a: Attempt)
    ensures |a.requested| >= 1 && a.requested[0] == BookPageUrl(bookId)
    ensures FetchBook(bookId, destFolder, web, lib).Err? ==>
              a == Attempt(FetchBook(bookId, destFolder, web, lib), [BookPageUrl(bookId)], [])
    ensures FetchBook(bookId, destFolder, web, lib).Ok? ==>
              var book := FetchBook(bookId, destFolder, web, lib).value;
              a == Downloads(bookId, destFolder, skipImages, skipTxt, book, ParseUrl(lib.split(book.coverUrl)).value, web, cwd)
    ensures a.result.Ok? ==> a.result == FetchBook(bookId, destFolder, web, lib)
  {
    match FetchBook(bookId, destFolder, web, lib)
    case Err(e) => Attempt(Err(e), [BookPageUrl(bookId)], [])
    case Ok(book) =>
      Downloads(bookId, destFolder, skipImages, skipTxt, book, ParseUrl(lib.split(book.coverUrl)).value, web, cwd)
  }

  /** A successful call requested the page, then the text unless skipped,
      then the cover unless skipped, and wrote one file per download. */
  lemma GetBookRequests(bookId: int, destFolder: string, skipImages: bool, skipTxt: bool,
                        web: Web, lib: UrlLib, cwd: string)
    requires GetBook(bookId, destFolder, skipImages, skipTxt, web, lib, cwd).result.Ok?
    ensures var a := GetBook(bookId, destFolder, skipImages, skipTxt, web, lib, cwd);
            a.requested == [BookPageUrl(bookId)]
                           + (if skipTxt then [] else [TxtUrl(bookId)])
                           + (if skipImages then [] else [a.result.value.coverUrl])
            && |a.written| == (if skipTxt then 0 else 1) + (if skipImages then 0 else 1)
  {
    var book := FetchBook(bookId, destFolder, web, lib).value;
    DownloadsRequests(bookId, destFolder, skipImages, skipTxt, book, ParseUrl(lib.split(book.coverUrl)).value, web, cwd);
  }

  lemma DownloadsRequests(bookId: int, destFolder: string, skipImages: bool, skipTxt: bool,
                          book: Book, cover: PathFields, web: Web, cwd: string)
    requires Downloads(bookId, destFolder, skipImages, skipTxt, book, cover, web, cwd).result.Ok?
    ensures var a := Downloads(bookId, destFolder, skipImages, skipTxt, book, cover, web, cwd);
            a.requested == [BookPageUrl(bookId)]
                           + (if skipTxt then [] else [TxtUrl(bookId)])
                           + (if skipImages then [] else [book.coverUrl])
            && |a.written| == (if skipTxt then 0 else 1) + (if skipImages then 0 else 1)
  {
  }

  /** With both skip flags set, only the detail page is requested and nothing
      is written. */
  lemma SkipBoth(bookId: int, destFolder: string, web: Web, lib: UrlLib, cwd: string)
    ensures GetBook(bookId, destFolder, true, true, web, lib, cwd).requested == [BookPageUrl(bookId)]
    ensures GetBook(bookId, destFolder, true, true, web, lib, cwd).written == []
  {
  }

  /** With `skipTxt` the text is never downloaded: after the page only the
      cover can be requested. */
  lemma SkipTxtRespected(bookId: int, destFolder: string, skipImages: bool,
                         web: Web, lib: UrlLib, cwd: string)
    ensures var a := GetBook(bookId, destFolder, skipImages, true, web, lib, cwd);
            a.requested == [BookPageUrl(bookId)]
                           + (if skipImages || FetchBook(bookId, destFolder, web, lib).Err? then []
                              else [FetchBook(bookId, destFolder, web, lib).value.coverUrl])
            && |a.written| <= 1
  {
    var fetched := FetchBook(bookId, destFolder, web, lib);
    if fetched.Ok? {
      var book := fetched.value;
      DownloadsSkipTxt(bookId, destFolder, skipImages, book, ParseUrl(lib.split(book.coverUrl)).value, web, cwd);
    }
  }

  lemma DownloadsSkipTxt(bookId: int, destFolder: string, skipImages: bool,
                         book: Book, cover: PathFields, web: Web, cwd: string)
    ensures var a := Downloads(bookId, destFolder, skipImages, true, book, cover, web, cwd);
            a.requested == [BookPageUrl(bookId)] + (if skipImages then [] else [book.coverUrl])
            && |a.written| <= 1
  {
  }

  /** With `skipImages` nothing is requested after the text. */
  lemma SkipImagesRespected(bookId: int, destFolder: string, skipTxt: bool,
                            web: Web, lib: UrlLib, cwd: string)
    ensures GetBook(bookId, destFolder, true, skipTxt, web, lib, cwd).requested
              == [BookPageUrl(bookId)] + (if skipTxt || FetchBook(bookId, destFolder, web, lib).Err? then [] else [TxtUrl(bookId)])
  {
    var fetched := FetchBook(bookId, destFolder, web, lib);
    if fetched.Ok? {
      var book := fetched.value;
      DownloadsSkipImages(bookId, destFolder, skipTxt, book, ParseUrl(lib.split(book.coverUrl)).value, web, cwd);
    }
  }

  lemma DownloadsSkipImages(bookId: int, destFolder: string, skipTxt: bool,
                            book: Book, cover: PathFields, web: Web, cwd: string)
    ensures Downloads(bookId, destFolder, true, skipTxt, book, cover, web, cwd).requested
              == [BookPageUrl(bookId)] + (if skipTxt then [] else [TxtUrl(bookId)])
  {
  }

  /** A successful call wrote the text where the record says, below the
      working directory, with the bytes the server sent. */
  lemma TextWrittenAtBookPath(bookId: int, destFolder: string, skipImages: bool,
                              web: Web, lib: UrlLib, cwd: string)
    requires cwd != []
    requires GetBook(bookId, destFolder, skipImages, false, web, lib, cwd).result.Ok?
    ensures var a := GetBook(bookId, destFolder, skipImages, false, web, lib, cwd);
            |a.written| >= 1 && GetContent(web.file(TxtUrl(bookId))).Ok?
            && a.written[0] == (cwd + "/" + a.result.value.bookPath, GetContent(web.file(TxtUrl(bookId))).value)
  {
    var book := FetchBook(bookId, destFolder, web, lib).value;
    DownloadsText(bookId, destFolder, skipImages, book, ParseUrl(lib.split(book.coverUrl)).value, web, cwd);
  }

  lemma DownloadsText(bookId: int, destFolder: string, skipImages: bool,
                      book: Book, cover: PathFields, web: Web, cwd: string)
    requires cwd != []
    requires book.bookPath == PathIn(destFolder, "books") + "/" + book.title + ".txt"
    requires Downloads(bookId, destFolder, skipImages, false, book, cover, web, cwd).result.Ok?
    ensures var a := Downloads(bookId, destFolder, skipImages, false, book, cover, web, cwd);
            |a.written| >= 1 && GetContent(web.file(TxtUrl(bookId))).Ok?
            && a.written[0] == (cwd + "/" + book.bookPath, GetContent(web.file(TxtUrl(bookId))).value)
  {
    TextPath(cwd, PathIn(destFolder, "books"), book.title);
  }

  /** Where `download_txt` puts a text: inside the books folder under the
      title with `.txt` added. */
  lemma TextPath(cwd: string, folder: string, title: string)
    requires cwd != [] && folder != []
    ensures CreatePath(cwd, folder, title + ".txt") == cwd + "/" + (folder + "/" + title + ".txt")
  {
  }

  /** A successful call wrote the cover where the record says, provided the
      image has a name: for an empty name `create_path` yields the `covers`
      folder itself and the extension lands after it. */
  lemma CoverWrittenAtImgSrc(bookId: int, destFolder: string, skipTxt: bool,
                             web: Web, lib: UrlLib, cwd: string)
    requires cwd != []
    requires GetBook(bookId, destFolder, false, skipTxt, web, lib, cwd).result.Ok?
    ensures var a := GetBook(bookId, destFolder, false, skipTxt, web, lib, cwd);
            var cover := ParseUrl(lib.split(a.result.value.coverUrl)).value;
            |a.written| >= 1
            && (cover.imageName != [] ==> a.written[|a.written| - 1].0 == cwd + "/" + a.result.value.imgSrc)
            && (cover.imageName == [] ==>
                  a.written[|a.written| - 1].0 == cwd + "/" + PathIn(destFolder, "covers") + cover.extension)
  {
    var book := FetchBook(bookId, destFolder, web, lib).value;
    DownloadsCover(bookId, destFolder, skipTxt, book, ParseUrl(lib.split(book.coverUrl)).value, web, cwd);
  }

  lemma DownloadsCover(bookId: int, destFolder: string, skipTxt: bool,
                       book: Book, cover: PathFields, web: Web, cwd: string)
    requires cwd != []
    requires book.imgSrc == PathIn(destFolder, "covers") + "/" + cover.imageName + cover.extension
    requires Downloads(bookId, destFolder, false, skipTxt, book, cover, web, cwd).result.Ok?
    ensures var a := Downloads(bookId, destFolder, false, skipTxt, book, cover, web, cwd);
            |a.written| >= 1
            && (cover.imageName != [] ==> a.written[|a.written| - 1].0 == cwd + "/" + book.imgSrc)
            && (cover.imageName == [] ==>
                  a.written[|a.written| - 1].0 == cwd + "/" + PathIn(destFolder, "covers") + cover.extension)
  {
    CoverPath(cwd, PathIn(destFolder, "covers"), cover);
  }

  /** Where `download_image` puts a cover: inside the covers folder under
      the image name, or, for an empty name, next to the folder. */
  lemma CoverPath(cwd: string, folder: string, cover: PathFields)
    requires cwd != [] && folder != []
    ensures cover.imageName != [] ==>
              CreatePath(cwd, folder, cover.imageName) + cover.extension
                == cwd + "/" + (folder + "/" + cover.imageName + cover.extension)
    ensures cover.imageName == [] ==>
              CreatePath(cwd, folder, cover.imageName) + cover.extension == cwd + "/" + folder + cover.extension
  {
  }

  /** The text can be on disk although the book is not in the catalogue: when
      the cover download fails after the text download. */
  lemma TextWrittenForFailedBook(bookId: int, destFolder: string, web: Web, lib: UrlLib, cwd: string)
    requires FetchBook(bookId, destFolder, web, lib).Ok?
    requires GetContent(web.file(TxtUrl(bookId))).Ok?
    requires GetContent(web.file(FetchBook(bookId, destFolder, web, lib).value.coverUrl)).Err?
    ensures GetBook(bookId, destFolder, false, false, web, lib, cwd).result.Err?
    ensures |GetBook(bookId, destFolder, false, false, web, lib, cwd).written| == 1
  {
  }

  // ------------------------------------------------- tululu.py download_txt

  /** tululu.py's `download_txt` once the id is known: the text is fetched
      with `get_books_file` (whose errors propagate), and only a non-empty
      text is saved, under the title of the book's page; `None` stands for a
      missing or empty text. `title` is what `parse_book_page` gave: an
      exception, `None` when the page redirected, or the title. */
  function DownloadTxt(file: Reply<Bytes>, title: Result<Option<string>, Failure>,
                       cwd: string, folder: string): (r: Result<Option<string>, Failure>)
    ensures GetBooksFile(file).Err? ==> r == Err(GetBooksFile(file).error)
    ensures r.Ok? && r.value.Some? ==>
              GetContent(file).Ok? && |GetContent(file).value| > 0
              && title.Ok? && title.value.Some?
              && r.value.value == CreatePath(cwd, folder, title.value.value) + ".txt"
    ensures r == Ok(None) <==> GetBooksFile(file).Ok? && (GetBooksFile(file).value.None? || GetBooksFile(file).value.value == [])
  {
    match GetBooksFile(file)
    case Err(e) => Err(e)
    case Ok(book) =>
      if book.Some? && |book.value| > 0 then
        match title
        case Err(e) => Err(e)
        case Ok(None) => Err(AttributeError)
        case Ok(Some(name)) => Ok(Some(CreatePath(cwd, folder, name) + ".txt"))
      else Ok(None)
  }

  /** A saved text's path ends in `.txt`; a path is returned exactly when the
      fetched text is non-empty and the page gave a title. */
  lemma DownloadTxtGate(file: Reply<Bytes>, title: Result<Option<string>, Failure>, cwd: string, folder: string)
    ensures var r := DownloadTxt(file, title, cwd, folder);
            r.Ok? && r.value.Some? ==> ".txt" <= r.value.value[|r.value.value| - 4..]
    ensures DownloadTxt(file, title, cwd, folder).Ok? && DownloadTxt(file, title, cwd, folder).value.Some?
            <==> GetContent(file).Ok? && |GetContent(file).value| > 0 && title.Ok? && title.value.Some?
  {
  }
}
