/** The text rules applied to a book page's headings: the `h1` that holds
    "title :: author" (parse_tululu.py's and tululu.py's `parse_book_title`)
    and the genre line of tululu.py's `parse_book_genre`. Selecting the
    elements is BeautifulSoup's work; the texts of the selected elements, in
    document order, are the inputs here. */
module Headings {
  import opened Wrappers
  import opened Text
  import opened Http

  /** What separates the title from the author in the `h1`. */
  const TitleSeparator: string := " :: "

  /** One part of the heading, cleaned as parse_tululu.py does it: stripped
      of whitespace, then every `": "` turned into `". "`. */
  function Clean(part: string): (r: string)
    ensures |r| <= |part|
    ensures Trimmed(r, Whitespace)
    ensures !Occurs(": ", r)
  {
    var stripped := Strip(part, Whitespace);
    ColonSpaceReplaced(stripped);
    ColonSpaceGone(stripped);
    ColonSpaceKeepsTrimmed(stripped);
    Replace(stripped, ": ", ". ")
  }

  /** A part that is already trimmed and holds no `": "` comes through
      cleaning unchanged. */
  lemma CleanKeepsClean(part: string)
    requires Trimmed(part, Whitespace) && !Occurs(": ", part)
    ensures Clean(part) == part
  {
    StripTrimmed(part, Whitespace);
    ReplaceAbsent(part, ": ", ". ");
  }

  /** parse_tululu.py's `parse_book_title` on the first `h1`'s text: one
      cleaned element per `" :: "`-separated part. */
  function ParseBookTitle(text: string): (parts: seq<string>)
    ensures |parts| == |Split(text, TitleSeparator)| >= 1
    ensures forall i :: 0 <= i < |parts| ==> parts[i] == Clean(Split(text, TitleSeparator)[i])
    ensures forall i :: 0 <= i < |parts| ==> Trimmed(parts[i], Whitespace) && !Occurs(": ", parts[i])
  {
    var raw := Split(text, TitleSeparator);
    seq(|raw|, i requires 0 <= i < |raw| => Clean(raw[i]))
  }

  /** `book_title, book_author = parse_book_title(soup)` in parse_tululu.py's
      `parse_book_page`: the first `h1` (an `IndexError` when there is none),
      unpacked into exactly two names (a `ValueError` otherwise). */
  function TitleAndAuthor(h1s: seq<string>): (r: Result<(string, string), Failure>)
    ensures h1s == [] ==> r == Err(IndexError)
    ensures h1s != [] && |Split(h1s[0], TitleSeparator)| != 2 ==> r == Err(ValueError)
    ensures r.Ok? <==> h1s != [] && |Split(h1s[0], TitleSeparator)| == 2
  {
    if h1s == [] then Err(IndexError)
    else
      var parts := ParseBookTitle(h1s[0]);
      if |parts| != 2 then Err(ValueError) else Ok((parts[0], parts[1]))
  }

  /** A heading put together from a title and an author gives them back,
      cleaned, provided the separator first occurs between them; later `h1`s
      play no part. */
  lemma TitleAndAuthorOfHeading(title: string, author: string, later: seq<string>)
    requires !Occurs(TitleSeparator, title + " ::") && !Occurs(TitleSeparator, author)
    ensures TitleAndAuthor([title + TitleSeparator + author] + later) == Ok((Clean(title), Clean(author)))
  {
    HeadingParts(title, author);
  }

  /** Clean titles and authors survive the round trip exactly. */
  lemma TitleAndAuthorRoundTrip(title: string, author: string)
    requires !Occurs(TitleSeparator, title + " ::") && !Occurs(TitleSeparator, author)
    requires Trimmed(title, Whitespace) && !Occurs(": ", title)
    requires Trimmed(author, Whitespace) && !Occurs(": ", author)
    ensures TitleAndAuthor([title + TitleSeparator + author]) == Ok((title, author))
  {
    TitleAndAuthorOfHeading(title, author, []);
    CleanKeepsClean(title);
    CleanKeepsClean(author);
  }

  /** Every title and author `TitleAndAuthor` returns comes from a split of
      the heading into two parts around one separator. */
  lemma TitleAndAuthorSound(h1s: seq<string>)
    requires TitleAndAuthor(h1s).Ok?
    ensures exists a, b :: h1s[0] == a + TitleSeparator + b
                           && !Occurs(TitleSeparator, a) && !Occurs(TitleSeparator, b)
                           && TitleAndAuthor(h1s).value == (Clean(a), Clean(b))
  {
    var parts := Split(h1s[0], TitleSeparator);
    SplitJoin(h1s[0], TitleSeparator);
    SplitPartsFree(h1s[0], TitleSeparator);
    assert Join(parts, TitleSeparator) == parts[0] + TitleSeparator + parts[1];
    assert !Occurs(TitleSeparator, parts[0]) && !Occurs(TitleSeparator, parts[1]);
  }

  /** A heading without the separator is one part, and unpacking it fails. */
  lemma TitleWithoutAuthorFails(text: string)
    requires !Occurs(TitleSeparator, text)
    ensures TitleAndAuthor([text]) == Err(ValueError)
  {
    SplitAbsent(text, TitleSeparator);
  }

  // ------------------------------------------------------ tululu.py variant

  /** tululu.py's `parse_book_title`: the first `h1` (`find` gives `None` and
      `.text` an `AttributeError` when there is none), split into exactly two
      stripped parts; the title gets the book id and `". "` in front and
      `": "` is left as it is. */
  function TitleWithId(h1s: seq<string>, bookId: string): (r: Result<(string, string), Failure>)
    ensures h1s == [] ==> r == Err(AttributeError)
    ensures r.Ok? <==> h1s != [] && |Split(h1s[0], TitleSeparator)| == 2
    ensures r.Err? && h1s != [] ==> r.error == ValueError
    ensures r.Ok? ==> bookId + ". " <= r.value.0
    ensures r.Ok? ==> Trimmed(r.value.1, Whitespace)
  {
    if h1s == [] then Err(AttributeError)
    else
      var parts := Split(h1s[0], TitleSeparator);
      if |parts| != 2 then Err(ValueError)
      else Ok((bookId + ". " + Strip(parts[0], Whitespace), Strip(parts[1], Whitespace)))
  }

  /** The two variants accept the same headings; they differ only in the id
      prefix and, where a part holds `": "`, in its replacement. */
  lemma TitleVariantsAgree(h1s: seq<string>, bookId: string)
    ensures TitleWithId(h1s, bookId).Ok? <==> TitleAndAuthor(h1s).Ok?
    ensures TitleAndAuthor(h1s).Ok? ==>
              var parts := Split(h1s[0], TitleSeparator);
              TitleAndAuthor(h1s).value.0 == Replace(Strip(parts[0], Whitespace), ": ", ". ")
              && TitleWithId(h1s, bookId).value.0 == bookId + ". " + Strip(parts[0], Whitespace)
              && TitleAndAuthor(h1s).value.1 == Replace(TitleWithId(h1s, bookId).value.1, ": ", ". ")
  {
  }

  /** With a clean heading the tululu.py title is the parse_tululu.py title
      with the id in front, and the authors are equal. */
  lemma TitleWithIdOfHeading(title: string, author: string, bookId: string)
    requires !Occurs(TitleSeparator, title + " ::") && !Occurs(TitleSeparator, author)
    requires Trimmed(title, Whitespace) && Trimmed(author, Whitespace)
    ensures TitleWithId([title + TitleSeparator + author], bookId) == Ok((bookId + ". " + title, author))
  {
    HeadingParts(title, author);
    StripTrimmed(title, Whitespace);
    StripTrimmed(author, Whitespace);
  }

  /** The heading splits into the title and the author. */
  lemma HeadingParts(title: string, author: string)
    requires !Occurs(TitleSeparator, title + " ::") && !Occurs(TitleSeparator, author)
    ensures Split(title + TitleSeparator + author, TitleSeparator) == [title, author]
  {
    assert TitleSeparator[..|TitleSeparator| - 1] == " ::";
    SplitAtFirst(title, author, TitleSeparator);
    SplitAbsent(author, TitleSeparator);
  }

  // ------------------------------------------------------------ genre line

  /** The genres after the caption: split on commas, each stripped. */
  function GenreItems(genre: string): (items: seq<string>)
    ensures |items| == multiset(genre)[','] + 1
    ensures |items| == |Split(genre, ",")|
    ensures forall i :: 0 <= i < |items| ==> items[i] == Strip(Split(genre, ",")[i], Whitespace)
    ensures forall i :: 0 <= i < |items| ==> Trimmed(items[i], Whitespace)
  {
    var raw := Split(genre, ",");
    SplitCharCount(genre, ',');
    seq(|raw|, i requires 0 <= i < |raw| => Strip(raw[i], Whitespace))
  }

  /** tululu.py's `parse_book_genre` over the texts of the `d_book` spans:
      nothing when there is none; otherwise the first span alone decides, its
      text unpacked around exactly one colon (a `ValueError` otherwise), and
      what follows the colon split into genres. */
  function ParseBookGenre(spans: seq<string>): (r: Result<Option<seq<string>>, Failure>)
    ensures spans == [] <==> r == Ok(None)
    ensures r.Err? <==> spans != [] && multiset(spans[0])[':'] != 1
    ensures r.Err? ==> r.error == ValueError
    ensures r.Ok? && spans != [] ==> r.value == Some(GenreItems(RPartition(spans[0], ':').2))
  {
    if spans == [] then Ok(None)
    else
      var parts := Split(spans[0], ":");
      SplitCharCount(spans[0], ':');
      if |parts| != 2 then Err(ValueError)
      else
        SplitOnce(spans[0], ':');
        Ok(Some(GenreItems(parts[1])))
  }

  /** Spans after the first are never looked at. */
  lemma GenreFirstSpanOnly(first: string, rest: seq<string>)
    ensures ParseBookGenre([first] + rest) == ParseBookGenre([first])
  {
  }

  /** A genre line written as a caption, a colon and comma-separated genres
      gives the genres back, stripped. */
  lemma GenreLineRoundTrip(caption: string, genres: seq<string>)
    requires |genres| >= 1 && ':' !in caption
    requires forall i :: 0 <= i < |genres| ==> ':' !in genres[i] && ',' !in genres[i]
    ensures ParseBookGenre([caption + ":" + Join(genres, ",")])
              == Ok(Some(seq(|genres|, i requires 0 <= i < |genres| => Strip(genres[i], Whitespace))))
  {
    var joined := Join(genres, ",");
    JoinAvoids(genres, ",", ':');
    SplitAroundOnly(caption, ':', joined);
    JoinSplitChar(genres, ',');
  }
}
