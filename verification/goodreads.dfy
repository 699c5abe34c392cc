/**
 * The Goodreads scraper once the pages are fetched: the author-search URL,
 * the author link found on the results page, and one record per book row of
 * the author page.  A page is the sequence of its book rows, each given by
 * the text of its title element and of its series element, either of which
 * may be missing.
 */
module Goodreads {
  import opened Strings
  import opened Optional
  import opened Cells

  const SearchPrefix := "https://www.goodreads.com/search?q="
  const SearchSuffix := "&search_type=authors"
  const Site := "https://www.goodreads.com"

  /** The author-search URL for `name`: spaces in the name become `+`. */
  function SearchUrl(name: string): (url: string)
    ensures |url| == |SearchPrefix| + |name| + |SearchSuffix|
    ensures url[..|SearchPrefix|] == SearchPrefix && url[|SearchPrefix| + |name|..] == SearchSuffix
    ensures forall i :: 0 <= i < |name| ==> url[|SearchPrefix| + i] == (if name[i] == ' ' then '+' else name[i])
  {
    var q := ReplaceChar(name, ' ', '+');
    var url := SearchPrefix + q + SearchSuffix;
    assert url[..|SearchPrefix|] == SearchPrefix;
    assert url[|SearchPrefix| + |name|..] == SearchSuffix;
    url
  }

  /** The query part of the search URL has no spaces left. */
  lemma SearchUrlHasNoSpace(name: string)
    ensures ' ' !in SearchUrl(name)
  {
    var q := ReplaceChar(name, ' ', '+');
    assert forall i :: 0 <= i < |q| ==> q[i] != ' ';
    assert ' ' !in SearchPrefix && ' ' !in q && ' ' !in SearchSuffix;
    assert SearchUrl(name) == SearchPrefix + q + SearchSuffix;
  }

  /** The `href` of the first author link, made absolute when it is site-relative. */
  function AbsoluteLink(href: string): (link: string)
    ensures |href| <= |link| && link[|link| - |href|..] == href
    ensures !StartsWith(link, "/")
    ensures !StartsWith(href, "/") ==> link == href
    ensures StartsWith(href, "/") ==> link == Site + href
  {
    if StartsWith(href, "/") then
      assert (Site + href)[|Site|..] == href;
      assert (Site + href)[..1] == "h";
      Site + href
    else href
  }

  /** Making a link absolute twice is making it absolute once. */
  lemma AbsoluteLinkIdempotent(href: string)
    ensures AbsoluteLink(AbsoluteLink(href)) == AbsoluteLink(href)
  {
  }

  /** `search_goodreads_author` after the fetch: the first author link on the results page, if any. */
  function SearchAuthor(firstHref: Option<string>): (url: Option<string>)
    ensures url.Some? <==> firstHref.Some?
    ensures url.Some? ==> url.value == AbsoluteLink(firstHref.value)
  {
    match firstHref
    case None => None
    case Some(href) => Some(AbsoluteLink(href))
  }

  /** One book row of an author page: the texts of its title and series elements. */
  datatype Entry = Entry(titleText: Option<string>, seriesText: Option<string>)

  /** The series title and order read off a series text. */
  datatype SeriesSplit = SeriesSplit(title: string, order: string)

  /** `info.rsplit('(', 1)` and the cleaning of both halves. */
  function SplitAtLastParen(info: string): (r: SeriesSplit)
    requires '(' in info
    ensures Stripped(r.title) && Stripped(r.order)
    ensures '(' !in r.order && ')' !in r.order && '#' !in r.order
  {
    var n := FindLast(info, |info|, '(');
    NotInSlice(info, n, |info|, '(');
    var order := RemoveChar(RemoveChar(info[n..], ')'), '#');
    StripKeeps(order, '(');
    StripKeeps(order, ')');
    StripKeeps(order, '#');
    SeriesSplit(Strip(info[..n - 1]), Strip(order))
  }

  /** The series fields of a book: both empty unless the series text holds a `(`. */
  function SplitSeries(seriesText: Option<string>): (r: SeriesSplit)
    ensures seriesText.None? || '(' !in seriesText.value ==> r == SeriesSplit("", "")
    ensures Stripped(r.title) && Stripped(r.order)
    ensures '(' !in r.order && ')' !in r.order && '#' !in r.order
  {
    match seriesText
    case Some(text) =>
      if '(' in text then
        StripKeeps(text, '(');
        SplitAtLastParen(Strip(text))
      else SeriesSplit("", "")
    case None => SeriesSplit("", "")
  }

  /** The split is at the last `(`: the title is what precedes it and the order what follows, cleaned. */
  lemma {:induction false} SplitAtParen(pre: string, post: string)
    requires '(' !in post
    ensures SplitAtLastParen(pre + "(" + post)
         == SeriesSplit(Strip(pre), Strip(RemoveChar(RemoveChar(post, ')'), '#')))
  {
    var info := pre + "(" + post;
    var n := |pre| + 1;
    assert info[n - 1] == '(';
    assert forall k :: n <= k < |info| ==> info[k] == post[k - n];
    assert FindLast(info, |info|, '(') == n;
    assert info[..n - 1] == pre && info[n..] == post;
  }

  const UnknownTitle := "Unknown Title"
  const DefaultFormats := "Ebook, Paperback, Audiobook"

  /** The five columns every scraped record has. */
  const RecordKeys: set<string> := {"Book Title", "Series Title", "Series Order", "Published Date", "Formats Available"}

  /** The shown title: the stripped title text, or "Unknown Title" when the row has none. */
  function TitleOf(titleText: Option<string>): (t: string)
    ensures titleText.None? ==> t == UnknownTitle
    ensures titleText.Some? ==> t == Strip(titleText.value)
  {
    match titleText
    case None => UnknownTitle
    case Some(s) => Strip(s)
  }

  /** The record of one book row. */
  function ToRecord(e: Entry): (r: Row)
    ensures r.Keys == RecordKeys
    ensures r["Book Title"] == Text(TitleOf(e.titleText))
    ensures r["Series Title"] == Text(SplitSeries(e.seriesText).title)
    ensures r["Series Order"] == Text(SplitSeries(e.seriesText).order)
    ensures r["Published Date"] == Text("") && r["Formats Available"] == Text(DefaultFormats)
  {
    var s := SplitSeries(e.seriesText);
    map[
      "Book Title" := Text(TitleOf(e.titleText)),
      "Series Title" := Text(s.title),
      "Series Order" := Text(s.order),
      "Published Date" := Text(""),
      "Formats Available" := Text(DefaultFormats)]
  }

  /** `scrape_goodreads_books` after the fetch: one record per book row, in page order. */
  method ScrapeBooks(page: seq<Entry>) returns (books: seq<Row>)
    ensures |books| == |page|
    ensures forall i :: 0 <= i < |books| ==> books[i] == ToRecord(page[i])
  {
    books := [];
    var i := 0;
    while i < |page|
      invariant i <= |page| && |books| == i
      invariant forall k :: 0 <= k < i ==> books[k] == ToRecord(page[k])
    {
      books := books + [ToRecord(page[i])];
      i := i + 1;
    }
  }
}
