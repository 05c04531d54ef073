# tululu book crawler, modelled in Dafny

The crawler downloads books from the tululu.org online library. The model covers these parts.

**`parse_tululu.py`**
- The `main` loop walks book ids from `start_page` to `end_page`:
  - A book that is returned is appended to the catalogue.
  - A missing book (`requests.HTTPError`) is reported and skipped.
  - A connection error (`requests.ConnectionError`) makes the loop retry the same id.
- `get_book` fetches the detail page, parses it with `parse_book_page`, and downloads the text and the cover unless told to skip them.
- Along the way the model covers:
  - the response checks of `get_content`;
  - the dissection of the cover address by `parse_url`;
  - the split of the `--json_path` argument.

**`tululu.py`**
- The older variants of `parse_book_title`, `parse_book_genre` and `download_txt`.
- `url_serializing`.
- The two redirect guards.
- `check_url`.

**`parse_tululu_category.py`**
- The walk over the science-fiction listing pages.
- It gathers the book links of each page, in page order.

Each file in the project covers one part:

- **`Wrappers.dfy`**: `Option`, `Result`, and `Outcome`, the last being pass or fail with an exception.
- **`Text.dfy`**: the Python `str` operations the parsing code uses. These are `split`, `strip`, `replace`, `rpartition` and `str(int)`, with their exact left-to-right semantics.
- **`Http.dfy`**: the exceptions, `raise_for_status`, the redirect guards, `get_content` and `get_books_file`.
- **`Urls.dfy`**:
  - `parse_url`;
  - `url_serializing`, as a method that fills the dictionary step by step, proved equal to a specification function;
  - `check_url`;
  - the `--json_path` split.
- **`Headings.dfy`**: the title/author heading rules of both scripts and the genre line.
- **`Books.dfy`**:
  - `parse_book_page`, `get_book` with its skip flags, and tululu.py's `download_txt` gate;
  - one `get_book` call is described by what it returned or raised, the addresses it requested, and the files it wrote, all in order.
- **`Crawl.dfy`**:
  - the main loop: a pure step function `Next` and its fold `Replay`, proved equal to a closed form;
  - the class `Crawler`, whose fields the loop updates in place;
  - `Run`, the loop itself, proved against the closed form.
- **`Category.dfy`**:
  - the listing walk: the page addresses and a specification `Walk`;
  - `GetManyOfReferences`, the `for` loop that extends the link list.

**Library calls become inputs.** `unquote` + `urlsplit`, `urljoin`, BeautifulSoup's selections and the network are inputs:
- `SplitUrl` is the split URL.
- `UrlLib` holds the join and split functions.
- `Markup` holds the selected texts of a detail page; `Listing` does the same for a listing page.
- `Web` maps each address to what `requests.get` answers. That is `Unreachable` (a `requests.ConnectionError`), `Failed` (any other exception `requests` raises, such as a read timeout or too many redirects), or a response with a status, the redirect history's status codes, and the content.

**The crawl loop's outcomes are an input.** Each call of `get_book` ends in a given outcome, taken in order from a finite sequence. Running out of outcomes before the loop ends gives `Unfinished`.

**The working directory is a parameter.** The model does not normalise paths.

**Places where the code and its description differ; the model follows the code:**
- `sys.exit()` in `main` is called without an argument, so refusing `start_page > end_page` exits with status 0, not an error status.
- `main` never passes the skip flags to `get_book`. Both downloads always run.
- The progress bar is a generator over `tqdm(range(end_page))`. It yields `max(end_page, 0)` items, and the loop takes one per settled id. So a run with `start_page < 1` takes one item too many, and `StopIteration` ends it before the catalogue is saved.
- parse_tululu_category.py imports `TULULU_URL` from tululu.py, but tululu.py defines `TULULU_URl`. The listing walk therefore takes the site root as a parameter.
- `get_book` writes the cover to `create_path(image_name, folder) + extension`. The record's `img_src` is built with `Path(dest_folder, 'covers', image_name + extension)`. The two agree only when the image name is non-empty (`Books.CoverWrittenAtImgSrc`).

## Model

| member | source | states |
|---|---|---|
| Http.RaiseForStatus | parse_tululu.py:30 | fails exactly for a status from 400 to 599, with that status as the cause |
| Http.CheckForRedirect | parse_tululu.py:199-203 | fails exactly when the redirect history is non-empty |
| Http.CheckFor302Redirect | tululu.py:222-228 | fails exactly when the history has two hops and the second answered 302 |
| Http.StrictRuleIsNarrower | tululu.py:213-228 | whatever the 302 rule rejects the simple rule rejects too; one hop, or three hops, pass the 302 rule |
| Http.GetContent | parse_tululu.py:17-32 | unreachable gives a connection error, and any other exception of `requests` passes through as such; an error status raises before the redirect check, even with no redirect; content is returned only for a non-error status with an empty history |
| Http.GetBooksFile | tululu.py:34-52 | equals `get_content` except that a redirect gives no content instead of an exception |
| Text.Strip | parse_tululu.py:106 | the result is a contiguous slice of the input whose ends are not in the stripped set, and everything removed from either end is in the set |
| Text.SplitJoin | parse_tululu.py:106 | joining the parts of a split with the separator gives the string back |
| Text.SplitCharCount | tululu.py:26 | splitting on one character gives one more part than the character occurs |
| Text.RPartition | parse_tululu.py:299-300 | the three pieces concatenate to the input; the last holds no separator; the middle is the separator exactly when it occurs; without one the first piece is empty |
| Text.IntTextInjective | parse_tululu.py:234 | different ids have different decimal texts |
| Urls.ExtensionAfterLastDot | parse_tululu.py:49 | the extension holds no dot and is the text after the last dot, or the whole path when there is none |
| Urls.ImageNameClean | parse_tululu.py:50 | the image name holds neither `/` nor `.` and is the text after the last `/` of the text before the first dot |
| Urls.ParseUrl | parse_tululu.py:35-50 | nothing exactly when the path is empty; otherwise the extension is a dot followed by the path's extension and the image name as above |
| Urls.ParseUrlBookPage | parse_tululu.py:48 | for the detail-page path `/b{n}/` that get_book builds, the book id read back is the decimal text of `n` |
| Urls.ParseUrlAssetFields | parse_tululu.py:47-50 | the extension starts with a dot and holds no other; the image name holds no `/` and no `.` |
| Urls.QueryPair | tululu.py:26 | a query holding one `=` is exactly key, `=`, value, with no `=` in either |
| Urls.Serialized | tululu.py:12-31 | fails with a ValueError exactly when the query is non-empty and does not hold exactly one `=` |
| Urls.Entries | tululu.py:24-30 | the keys are `site_name`, the query's key when there is a query, and `extension` and `image_name` when the path is non-empty; `site_name` is the host unless the query's key is `site_name`; the path entries are recorded, and the query's value is recorded under its key unless the path entries overwrite it |
| Urls.UrlSerializing | tululu.py:12-31 | the dictionary filled step by step equals the specification `Serialized`, error included |
| Urls.CheckUrl | tululu.py:231-236 | passes exactly when both URLs serialize and their `site_name` entries agree; fails with a ValueError or an HTTPError otherwise |
| Urls.KeyValueQuery | tululu.py:26-27 | a query `k=v` whose key and value hold no `=` holds exactly one `=` and yields key `k` and value `v` |
| Urls.CheckUrlAcceptsForeignHost | tululu.py:234 | a URL on a foreign host, with any path, passes the check as written when its query names the base host, though the intended host check rejects it |
| Urls.CheckHost | tululu.py:231-236 | the intended check: passes exactly when the two hosts are equal |
| Urls.CheckUrlAgreesWithCheckHost | tululu.py:234 | when no query names `site_name`, the check as written and the host check agree |
| Urls.JsonTarget | parse_tululu.py:299-300 | without `--json_path` the destination folder and `books.json`; otherwise the name holds no `/`, and the folder, a `/` and the name rebuild the argument, the folder being empty when it has no `/` |
| Headings.Clean | parse_tululu.py:106 | a cleaned part is no longer than the original, has no whitespace at either end and holds no `": "` |
| Headings.CleanKeepsClean | parse_tululu.py:106 | a part that is already trimmed and free of `": "` is unchanged by cleaning |
| Headings.ParseBookTitle | parse_tululu.py:95-106 | one cleaned element per `" :: "`-separated part of the heading |
| Headings.TitleAndAuthor | parse_tululu.py:66 | no `h1` is an IndexError; unpacking succeeds exactly when the first heading has two parts, a ValueError otherwise |
| Headings.TitleAndAuthorOfHeading | parse_tululu.py:66 | a heading `title :: author` gives back the cleaned title and author, whatever later headings say |
| Headings.TitleAndAuthorRoundTrip | parse_tululu.py:105-106 | clean titles and authors survive the round trip exactly |
| Headings.TitleAndAuthorSound | parse_tululu.py:105-106 | every accepted heading is two separator-free parts around one separator, and the result is those parts cleaned |
| Headings.TitleWithoutAuthorFails | parse_tululu.py:66 | a heading without the separator fails with a ValueError |
| Headings.TitleWithId | tululu.py:71-85 | no `h1` is an AttributeError; two parts are required (a ValueError otherwise); the title starts with the id and `". "`, and the author is trimmed |
| Headings.TitleVariantsAgree | tululu.py:82-84 | the two variants accept the same headings; the title is `"{id}. "` plus the stripped first part where the other variant replaces `": "`, and the authors differ only by that replacement |
| Headings.TitleWithIdOfHeading | tululu.py:82-84 | for a clean heading the title is `"{id}. "` followed by the title, and the author is the author |
| Headings.GenreItems | tululu.py:115 | one item per comma-separated part, so one more than the commas; item `i` is part `i` stripped, and each item is trimmed |
| Headings.ParseBookGenre | tululu.py:102-115 | no span gives nothing; otherwise the first span alone decides, a ValueError unless it holds exactly one `:`, and the genres are the items after it |
| Headings.GenreFirstSpanOnly | tululu.py:113-115 | spans after the first are never looked at |
| Headings.GenreLineRoundTrip | tululu.py:113-115 | a line written as caption, `:`, comma-joined genres gives back the genres, stripped |
| Books.BookPageUrlInjective | parse_tululu.py:234 | different ids give different detail-page addresses |
| Books.TxtUrlInjective | parse_tululu.py:166-167 | different ids give different text addresses |
| Books.BookUrlsDistinct | parse_tululu.py:166-167 | different ids have different detail-page addresses and different text addresses |
| Books.InFolder | parse_tululu.py:71-72 | a file with an extension inside a named sub-folder is the sub-folder's path, a `/` and the file name |
| Books.ParseBookPage | parse_tululu.py:53-75 | errors in the code's order: the heading's error; a TypeError without a cover image; an AttributeError when the cover address has no path. On success: the heading's title and author; the cover address resolved against the detail page; `book_path` is `books/<title>.txt` and `img_src` is `covers/<image name><extension>` inside the destination folder |
| Books.TextDownload | parse_tululu.py:154-171 | fails exactly when fetching the text fails, with the exception `get_content` raised; otherwise the text goes to `<cwd>/<dest>/books/<title>.txt` |
| Books.CoverDownload | parse_tululu.py:138-151 | fails exactly when fetching the cover fails, with the exception `get_content` raised; otherwise the cover goes to the `covers` path of the image name, with the extension appended |
| Books.FetchBook | parse_tululu.py:234-236 | a failed page fetch is that failure; otherwise the result is `parse_book_page` of the page; a book carries the path fields above |
| Books.Downloads | parse_tululu.py:237-246 | the detail page is the first address requested; the call returns the parsed book unchanged exactly when every download not skipped succeeds, having written the text first and the cover last; a failed text download is the call's exception, and so is a failed cover download after the text succeeded or was skipped |
| Books.GetBook | parse_tululu.py:220-246 | a failure of the page or its parsing stops before any download; otherwise the downloads follow; a returned book is the parsed one |
| Books.GetBookRequests | parse_tululu.py:234-245 | a successful call requested the page, then the text unless skipped, then the cover unless skipped, and wrote one file per download |
| Books.SkipBoth | parse_tululu.py:238-245 | with both flags only the page is requested and nothing is written |
| Books.SkipTxtRespected | parse_tululu.py:238-239 | with `skip_txt` only the page and (unless skipped) the cover are requested, and at most one file is written |
| Books.SkipImagesRespected | parse_tululu.py:240-245 | with `skip_images` nothing is requested after the text |
| Books.TextWrittenAtBookPath | parse_tululu.py:72 | a successful call wrote the fetched text at the working directory followed by the record's `book_path` |
| Books.CoverWrittenAtImgSrc | parse_tululu.py:71 | a successful call wrote the cover at the record's `img_src` when the image has a name, and next to the `covers` folder otherwise |
| Books.TextWrittenForFailedBook | parse_tululu.py:238-245 | when the cover download fails the call fails, yet the text has been written |
| Books.DownloadTxt | tululu.py:139-157 | `get_books_file` errors propagate; a path is returned only for non-empty content and a page title, and it is the title inside the folder with `.txt` added; nothing for a missing or empty text |
| Books.DownloadTxtGate | tululu.py:153-157 | a returned path ends in `.txt`, and one is returned exactly when the content is non-empty and the page gave a title |
| Crawl.Classify | parse_tululu.py:312-320 | a book is kept, an HTTPError means missing, a ConnectionError means retry, and any other exception escapes |
| Crawl.DownloadedBookIsKept | parse_tululu.py:312-314 | a book whose page parses and whose text and cover both arrive is kept, as the parsed record |
| Crawl.RedirectedPageIsMissing | parse_tululu.py:313-316 | a redirected detail page makes the loop skip the book |
| Crawl.UnreachablePageIsRetried | parse_tululu.py:317-320 | an unreachable detail page makes the loop retry the id |
| Crawl.FailedPageCrashes | parse_tululu.py:312-320 | a detail page whose request raises another `requests` exception (a read timeout, too many redirects) ends the run |
| Crawl.RedirectedTextIsMissing | parse_tululu.py:237-239 | a book whose page parses but whose text redirects is skipped as missing |
| Crawl.UnreachableCoverIsRetried | parse_tululu.py:240-245 | a book whose page and text arrive but whose cover cannot be reached is retried |
| Crawl.PageWithoutHeadingCrashes | parse_tululu.py:312-320 | a detail page without `h1` raises an IndexError that nothing catches |
| Crawl.Next | parse_tululu.py:310-323 | the id advances by exactly one after a book or an HTTPError and is unchanged after a ConnectionError; only a book is appended |
| Crawl.Snoc | parse_tululu.py:310-323 | one more outcome adds at most itself to the settled outcomes and its book to the fetched ones |
| Crawl.ReplaySnoc | parse_tululu.py:310-323 | folding one more outcome that is not a crash is one more loop step `Next` after the fold of the earlier ones |
| Crawl.ReplayClosedForm | parse_tululu.py:310-323 | after any outcomes, the id has advanced once per settled outcome; the books are the fetched ones in order, under the ids of their positions |
| Crawl.SuccessIdsOrdered | parse_tululu.py:313-314 | the ids of the kept books strictly increase and lie between the start and the id reached |
| Crawl.SuccessIdsExact | parse_tululu.py:313-314 | an id is kept exactly when the outcome that settled it was a book |
| Crawl.SuccessIdsMatchBooks | parse_tululu.py:313-314 | there are as many kept ids as kept books |
| Crawl.RetryThenSuccess | parse_tululu.py:317-322 | two connection errors and then a book keep that book under the first id and advance by one |
| Crawl.OneMissingOfThree | parse_tululu.py:313-322 | ids 1 to 3 with 2 missing keep books 1 and 3 in order |
| Crawl.Crawler.constructor | parse_tululu.py:297-309 | the loop starts at `start_page` with no books and a full progress bar |
| Crawl.Crawler.Step | parse_tululu.py:321-323 | the state moves by `Next`, the bounds `start_page <= book_id <= end_page + 1` are kept, and taking from an empty progress bar is reported |
| Crawl.Crawler.Drive | parse_tululu.py:310-323 | the loop consumes outcomes one by one from the start state: the outcomes seen are exactly those consumed, the crashing one excluded; a saved run has settled every id and returns the collected books; an exhausted progress bar comes after `max(end, 0) + 1` settled outcomes, and otherwise no more than `max(end, 0)` were settled; an unfinished run used every outcome before passing `end_page` |
| Crawl.Run | parse_tululu.py:293-324 | `start_page > end_page` exits before the loop. A saved catalogue holds the fetched books after exactly `end - start + 1` settled outcomes, and is reached only when `start_page >= 1`. The progress bar gives out exactly when `start_page < 1`, after `max(end, 0) + 1` settled outcomes. A run left unfinished settled no more than `max(end, 0)` outcomes. An uncaught exception ends the run at the first crash. A run that starts at 1 or later, has no crash and has enough outcomes is saved |
| Category.BookLink | parse_tululu_category.py:13 | a table without a link is a TypeError, a link without `href` a KeyError, otherwise the `href` joined against the site root |
| Category.Links | parse_tululu_category.py:12-13 | succeeds exactly when every table has a link with an `href`, giving one link per table in document order |
| Category.LinksFirstBadTable | parse_tululu_category.py:13 | a page whose links cannot all be read fails with the error of its first table without a usable link |
| Category.GetLinksFromOnePage | parse_tululu_category.py:8-14 | unreachable is a connection error, an error status raises, and otherwise the page's links; redirects are not checked |
| Category.RedirectsFollowed | parse_tululu_category.py:9-10 | a redirected listing page is read like any other |
| Category.PageUrl | parse_tululu_category.py:18-19 | a page address is the root, `/l55//` with its double slash, and the page number |
| Category.PageUrls | parse_tululu_category.py:19 | for argument `n` the pages 1 to `n - 1` in ascending order, none when `n <= 1` |
| Category.PageUrlsDistinct | parse_tululu_category.py:19 | no page address occurs twice |
| Category.GatherStep | parse_tululu_category.py:21-22 | one more successful page extends the gathered links by its own; a failing page is the result of the whole gathering |
| Category.GatherAppend | parse_tululu_category.py:20-23 | gathering two runs of page results is gathering the first and then the second; a failure in the first sticks |
| Category.GatherFailsAtFirstBadPage | parse_tululu_category.py:21-22 | gathering succeeds exactly when every page does; otherwise its failure is that of the first failing page |
| Category.WalkAppend | parse_tululu_category.py:20-23 | walking two runs of pages concatenates their links, with no reordering or deduplication; once a page of the first run has failed, the second run changes nothing |
| Category.WalkFailsAtFirstBadPage | parse_tululu_category.py:10 | the walk succeeds exactly when every page does; otherwise it fails with the first failing page's error |
| Category.WalkOnePage | parse_tululu_category.py:21-22 | a single page contributes exactly its own links |
| Category.ReadPages | parse_tululu_category.py:20-23 | the loop's result equals the specification `Walk` of the given addresses; the addresses requested are a prefix of them, all of them on success, ending at the page that failed otherwise, every earlier page having succeeded |
| Category.GetManyOfReferences | parse_tululu_category.py:17-23 | the loop's result equals the specification `Walk`; the addresses requested are a prefix of the page addresses, all of them on success, ending at the page that failed otherwise |

## Left out

- HTTP requests, BeautifulSoup's HTML selection, `urljoin`, `unquote` and `urlsplit` are library calls. Their results are inputs (`Web`, `Markup`, `Listing`, `UrlLib`, `SplitUrl`).
- Writes to disk by `get_book` (`save_to_file` for the text and the cover) are modelled as the list of files the call would write. No file system is modelled, and neither is the directory creation in `create_path` and `main`.
- The `.env` file that `main` writes (parse_tululu.py:301-303) and the catalogue dump by `save_json_file` (parse_tululu.py:206-217, called at 324) are not modelled. `Crawl.Run`'s `Saved` result says which books would be dumped, not the file.
- `time.sleep(30)` before a retry, the printed messages, and the progress bar's display are timing and output. Only the progress bar's item count is modelled.
- Command-line parsing with `argparse`: the parsed values are parameters.
- `sanitize_filename` on the destination folder is not modelled. The folder is taken as already sanitised.
- `Path` normalisation is not modelled: `PathIn` joins with one `/` and assumes no slashes at the ends of either side. Titles and image names holding `/` are not treated specially, and may be empty.
- `parse_book_comments` and the genre links of parse_tululu.py are BeautifulSoup selections. They are passed through as strings; a `None` from `.string` is not represented.
- main.py is a fetch-and-write loop over ten fixed addresses, and render_website.py is templating plus a web server. Neither is part of this model.
- tululu.py's `download_image`, `parse_book_page` and `parse_cover_url` are not part of this model beyond `check_for_302_redirect`. `Books.DownloadTxt` takes their outcome, the page's title or its failure, as an input.
- Books.DownloadTxt: does not model how the id is read back from the URL with `url_serializing(url).get('id')`. The text is the given reply.
- Crawl.Run: does not model termination under endless connection errors, which the code does not guarantee. The outcomes form a finite sequence, and running out of them yields `Unfinished`.
- Crawl.Crawler.Step: after `StopIteration` the state is not used again, because the exception escapes `main`.

## Findings

| source | as written | input that shows it | evidently intended | confidence | as-written member | corrected member |
|---|---|---|---|---|---|---|
| tululu.py:234 | `check_url` compares the `site_name` entries of the two serialized URLs, and a query key `site_name` overwrites the host in that entry | `http://example.com/?site_name=tululu.org` passes the check against `https://tululu.org` | pass only when the URL's host equals the base URL's host | not executed | Urls.CheckUrlAcceptsForeignHost | Urls.CheckHost |
