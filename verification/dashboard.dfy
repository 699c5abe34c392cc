/**
 * The per-book decisions of the HTML dashboard builder: URL and field
 * cleaning, the standalone/series label, the audiobook verdict, the choice of
 * a published date among the candidate columns, and the shaping of one book
 * line from the scraped row and the title parser.
 */
module Dashboard {
  import opened Strings
  import opened Optional
  import opened Cells
  import opened Search
  import opened SeriesTitle

  // ---------------------------------------------------------------- escape

  /** The entity `html.escape` writes for one character (quotes included). */
  function EscapeChar(c: char): (e: string)
    ensures |e| >= 1 && '<' !in e && '>' !in e && '"' !in e && '\'' !in e
    ensures e[0] == c || e[0] == '&'
    ensures e[|e| - 1] == c || e[|e| - 1] == ';'
  {
    if c == '&' then "&amp;"
    else if c == '<' then "&lt;"
    else if c == '>' then "&gt;"
    else if c == '"' then "&quot;"
    else if c == '\'' then "&#x27;"
    else [c]
  }

  /** `html.escape(s)`. */
  function Escape(s: string): (r: string)
    ensures |r| >= |s|
    ensures '<' !in r && '>' !in r && '"' !in r && '\'' !in r
    decreases |s|
  {
    if |s| == 0 then "" else EscapeChar(s[0]) + Escape(s[1..])
  }

  /** Reading the entities back: the inverse of `Escape`. */
  function Unescape(s: string): string
    decreases |s|
  {
    if |s| == 0 then ""
    else if StartsWith(s, "&amp;") then "&" + Unescape(s[5..])
    else if StartsWith(s, "&lt;") then "<" + Unescape(s[4..])
    else if StartsWith(s, "&gt;") then ">" + Unescape(s[4..])
    else if StartsWith(s, "&quot;") then "\"" + Unescape(s[6..])
    else if StartsWith(s, "&#x27;") then "'" + Unescape(s[6..])
    else [s[0]] + Unescape(s[1..])
  }

  /** Unescaping the entity `ent` of `c` in front of `rest`. */
  lemma UnescapeEntity(c: char, ent: string, rest: string)
    requires (c, ent) in {('&', "&amp;"), ('<', "&lt;"), ('>', "&gt;"), ('"', "&quot;"), ('\'', "&#x27;")}
    ensures Unescape(ent + rest) == [c] + Unescape(rest)
  {
    var e := ent + rest;
    assert e[..|ent|] == ent && e[|ent|..] == rest;
    assert e[0] == '&' && e[1] == ent[1];
  }

  /** Unescaping a character that starts no entity in front of `rest`. */
  lemma UnescapePlain(c: char, rest: string)
    requires c != '&'
    ensures Unescape([c] + rest) == [c] + Unescape(rest)
  {
    var e := [c] + rest;
    assert e[1..] == rest;
    NotStartsWith(e, "&amp;");
    NotStartsWith(e, "&lt;");
    NotStartsWith(e, "&gt;");
    NotStartsWith(e, "&quot;");
    NotStartsWith(e, "&#x27;");
  }

  /** Unescaping one escaped character in front of `rest`. */
  lemma UnescapeChar(c: char, rest: string)
    ensures Unescape(EscapeChar(c) + rest) == [c] + Unescape(rest)
  {
    if c in "&<>\"'" {
      UnescapeEntity(c, EscapeChar(c), rest);
    } else {
      UnescapePlain(c, rest);
    }
  }

  /** Escaping loses nothing: the original text can be read back. */
  lemma {:induction false} UnescapeEscape(s: string)
    ensures Unescape(Escape(s)) == s
    decreases |s|
  {
    if |s| > 0 {
      UnescapeChar(s[0], Escape(s[1..]));
      UnescapeEscape(s[1..]);
    }
  }

  /** Text without markup characters is left as it is. */
  lemma {:induction false} EscapePlain(s: string)
    requires forall i :: 0 <= i < |s| ==> s[i] !in "&<>\"'"
    ensures Escape(s) == s
    decreases |s|
  {
    if |s| > 0 {
      EscapePlain(s[1..]);
    }
  }

  /** The escaped text begins and ends with the original's end characters or with an entity's `&` and `;`. */
  lemma {:induction false} EscapeEnds(s: string)
    requires |s| > 0
    ensures var r := Escape(s); (r[0] == s[0] || r[0] == '&') && (r[|r| - 1] == s[|s| - 1] || r[|r| - 1] == ';')
    decreases |s|
  {
    var e := EscapeChar(s[0]);
    var t := Escape(s[1..]);
    var r := Escape(s);
    assert r == e + t;
    assert r[0] == e[0];
    if |s| > 1 {
      EscapeEnds(s[1..]);
      assert s[1..][|s| - 2] == s[|s| - 1];
      assert r[|r| - 1] == t[|t| - 1];
    } else {
      assert t == [];
      assert r[|r| - 1] == e[|e| - 1];
    }
  }

  /** Escaping keeps a stripped text stripped. */
  lemma EscapeStripped(s: string)
    requires Stripped(s)
    ensures Stripped(Escape(s))
  {
    if |s| > 0 {
      EscapeEnds(s);
      assert !IsSpace('&') && !IsSpace(';');
    }
  }

  // ---------------------------------------------------------------- clean_url

  /** `clean_url(url)`: `None` for a blank value, else the stripped URL with a scheme. */
  function CleanUrl(url: Cell): (r: Option<string>)
    ensures r.None? <==> !Truthy(url) || IsNa(url) || Strip(Str(url)) == ""
    ensures r.Some? ==> Stripped(r.value)
    ensures r.Some? ==> StartsWith(r.value, "http://") || StartsWith(r.value, "https://")
    ensures r.Some? ==> var u := Strip(Str(url)); |u| <= |r.value| && r.value[|r.value| - |u|..] == u
    ensures r.Some? ==> var u := Strip(Str(url));
      (StartsWith(u, "http://") || StartsWith(u, "https://") ==> r.value == u) &&
      (!StartsWith(u, "http://") && !StartsWith(u, "https://") ==> r.value == "https://" + u)
  {
    if !Truthy(url) || IsNa(url) || Strip(Str(url)) == "" then None
    else
      var u := Strip(Str(url));
      if StartsWith(u, "http://") || StartsWith(u, "https://") then Some(u)
      else
        assert ("https://" + u)[8..] == u;
        Some("https://" + u)
  }

  /** A value that is only whitespace has no URL. */
  lemma CleanUrlBlank(s: string)
    requires AllSpace(s)
    ensures CleanUrl(Text(s)).None?
  {
    StripAllSpace(s);
  }

  /** A URL that already names its scheme is only stripped. */
  lemma CleanUrlKeepsScheme(url: Cell)
    requires CleanUrl(url).Some?
    requires StartsWith(Strip(Str(url)), "http://") || StartsWith(Strip(Str(url)), "https://")
    ensures CleanUrl(url).value == Strip(Str(url))
  {
  }

  /** Cleaning a cleaned URL changes nothing. */
  lemma CleanUrlIdempotent(url: Cell)
    requires CleanUrl(url).Some?
    ensures CleanUrl(Text(CleanUrl(url).value)) == CleanUrl(url)
  {
    var r := CleanUrl(url).value;
    StrippedFixed(r);
    CleanUrlLink(r);
  }

  /** A stripped link that names its scheme is its own cleaning. */
  lemma CleanUrlLink(r: string)
    requires Stripped(r) && Strip(r) == r
    requires StartsWith(r, "http://") || StartsWith(r, "https://")
    ensures CleanUrl(Text(r)) == Some(r)
  {
    assert r != "";
    assert Str(Text(r)) == r && Truthy(Text(r)) && !IsNa(Text(r));
  }

  // ---------------------------------------------------------------- clean_field

  /** The stripped texts `clean_field` treats as empty. */
  predicate Blankish(t: string) {
    t == "" || t == "nan" || t == "None"
  }

  /** `clean_field(v)`: "" for a missing or blank value, else the stripped text, escaped. */
  function CleanField(v: Cell): (r: string)
    ensures r == "" <==> IsNa(v) || Blankish(Strip(Str(v)))
    ensures r != "" ==> Unescape(r) == Strip(Str(v))
    ensures Stripped(r)
  {
    if IsNa(v) || Blankish(Strip(Str(v))) then ""
    else
      var t := Strip(Str(v));
      UnescapeEscape(t);
      EscapeStripped(t);
      Escape(t)
  }

  // ---------------------------------------------------------------- labels

  datatype Kind = Standalone | Series

  /** `determine_standalone_series(series_title, _)`. */
  function KindOf(series: string): (k: Kind)
    ensures k == Series <==> Strip(series) != "" && Lower(series) != "nan"
  {
    if series != "" && Strip(series) != "" && Lower(series) != "nan" then Series else Standalone
  }

  /** On a stripped series name the label is "Series" exactly for a name other than "" and "nan". */
  lemma KindOfStripped(series: string)
    requires Stripped(series)
    ensures KindOf(series) == Series <==> series != "" && Lower(series) != "nan"
  {
    StrippedFixed(series);
  }

  /** A series name of only whitespace is a standalone. */
  lemma KindOfBlank(series: string)
    requires AllSpace(series)
    ensures KindOf(series) == Standalone
  {
    StripAllSpace(series);
  }

  datatype Availability = Yes | Maybe | No

  /** The author record names an Audible page that is neither blank nor a placeholder. */
  predicate AudibleListed(author: Row) {
    && Truthy(Get(author, "Audible Page"))
    && var u := Strip(Str(GetOr(author, "Audible Page", Text(""))));
       u != "" && Lower(u) != "nan" && Lower(u) != "none"
  }

  /** `determine_audiobook_status(_, role, author_data)`; `author_data` is truthy when non-empty. */
  function AudiobookStatus(role: string, author: Row): (a: Availability)
    ensures a == Yes <==> Lower(role) == "narrator"
    ensures a == Maybe <==> Lower(role) != "narrator" && |author| > 0 && AudibleListed(author)
  {
    if role != "" && Lower(role) == "narrator" then Yes
    else if |author| > 0 && AudibleListed(author) then Maybe
    else No
  }

  /** A narrator's books are audiobooks whatever the author record says. */
  lemma NarratorAlwaysYes(role: string, author: Row, other: Row)
    requires Lower(role) == "narrator"
    ensures AudiobookStatus(role, author) == AudiobookStatus(role, other) == Yes
  {
  }

  /** A missing, NaN or placeholder Audible page never makes a non-narrator a "Maybe". */
  lemma PlaceholderAudibleIsNo(role: string, author: Row)
    requires Lower(role) != "narrator"
    requires "Audible Page" in author
    requires var v := author["Audible Page"];
      v == Null || v == NaN || (v.Text? && (Strip(v.s) == "" || Lower(Strip(v.s)) == "nan" || Lower(Strip(v.s)) == "none"))
    ensures AudiobookStatus(role, author) == No
  {
  }

  // ---------------------------------------------------------------- published date

  /** The columns a date may be found in, in the order they are tried. */
  const DateFields: seq<string> := [
    "Published Date", "Release Date", "Publication Date", "Date Published",
    "Published", "Release", "Publication", "Date", "Pub Date", "Publish Date"
  ]

  /** `int(x)` of a float: truncation toward zero. */
  function Truncate(x: real): int {
    if x >= 0.0 then x.Floor else -((-x).Floor)
  }

  predicate InYearRange(y: int) {
    1900 <= y <= 2030
  }

  /** `\b(\d{4})\b` matches at `i`: four digits with no word character on either side. */
  predicate YearGroupAt(s: string, i: nat) {
    && i + 4 <= |s|
    && (i == 0 || !IsWordChar(s[i - 1]))
    && IsDigit(s[i]) && IsDigit(s[i + 1]) && IsDigit(s[i + 2]) && IsDigit(s[i + 3])
    && (i + 4 == |s| || !IsWordChar(s[i + 4]))
  }

  /** The year group tried at every position. */
  function YearFrom(s: string): nat -> Option<string> {
    (i: nat) => if YearGroupAt(s, i) then Some(s[i..i + 4]) else None
  }

  /** `re.search(r'\b(\d{4})\b', s)`: the leftmost year group. */
  function FirstYear(s: string): (r: Option<Found<string>>)
    ensures r.Some? ==> YearGroupAt(s, r.value.at) && r.value.value == s[r.value.at..r.value.at + 4]
  {
    Least(YearFrom(s), 0, |s|)
  }

  /** What one date column contributes: the loop stops with `Take`, or goes on with `Skip`. */
  datatype Verdict = Skip | Take(date: string)

  /** A four-digit year in range, or a non-empty text without a year group. */
  predicate DateShape(d: string) {
    d != "" && ((|d| == 4 && AllDigits(d) && InYearRange(Value(d))) || FirstYear(d).None?)
  }

  /** `str(y)` of a year in range is four digits that read back as `y`. */
  lemma YearString(y: int)
    requires InYearRange(y)
    ensures var d := NatToString(y); |d| == 4 && AllDigits(d) && Value(d) == y && DateShape(d)
  {
    var d := NatToString(y);
    ValueOfNatToString(y);
    assert NatToString(y / 10) + [DigitChar(y % 10)] == d;
    assert NatToString(y / 100) + [DigitChar(y / 10 % 10)] == NatToString(y / 10);
    assert NatToString(y / 1000) + [DigitChar(y / 100 % 10)] == NatToString(y / 100);
    assert |NatToString(y / 1000)| == 1;
  }

  /** A year found in a column: it decides when in range. */
  function YearVerdict(y: int): (d: Verdict)
    ensures d.Take? <==> InYearRange(y)
    ensures d.Take? ==> |d.date| == 4 && AllDigits(d.date) && Value(d.date) == y && DateShape(d.date)
  {
    if InYearRange(y) then YearString(y); Take(NatToString(y)) else Skip
  }

  /** A cleaned text column: its leftmost year group decides, and without one the text is the date. */
  function TextVerdict(text: string): (d: Verdict)
    ensures d.Take? ==> DateShape(d.date)
  {
    if text == "" then Skip
    else
      match FirstYear(text)
      case None => Take(text)
      case Some(m) => YearVerdict(Value(m.value))
  }

  /** One column of the loop, given its value. */
  function DateVerdict(v: Cell): (d: Verdict)
    ensures d.Take? ==> DateShape(d.date)
  {
    match v
    case Null => Skip
    case NaN => Skip
    case Number(x, _) => if x == 0.0 then Skip else YearVerdict(Truncate(x))
    case Text(s) => if s == "" then Skip else TextVerdict(CleanField(v))
  }

  /** The verdict of column `i` of `DateFields`, as a search step. */
  function FieldVerdict(book: Row): nat -> Option<string> {
    (i: nat) =>
      if i < |DateFields| then
        match DateVerdict(Get(book, DateFields[i]))
        case Take(d) => Some(d)
        case Skip => None
      else None
  }

  /** The published date shown for a book: the first column that decides, else "". */
  function PublishedDate(book: Row): (d: string)
    ensures d == "" || DateShape(d)
  {
    match Least(FieldVerdict(book), 0, |DateFields| - 1)
    case Some(m) => m.value
    case None => ""
  }

  /** The first column that decides gives the date; the ones before it were skipped. */
  lemma PublishedDateAt(book: Row, i: nat)
    requires i < |DateFields| && DateVerdict(Get(book, DateFields[i])).Take?
    requires forall j :: 0 <= j < i ==> DateVerdict(Get(book, DateFields[j])) == Skip
    ensures PublishedDate(book) == DateVerdict(Get(book, DateFields[i])).date
  {
    forall j | 0 <= j < i
      ensures FieldVerdict(book)(j).None?
    {
    }
    LeastAt(FieldVerdict(book), 0, i, |DateFields| - 1);
  }

  /** The date is "" exactly when every column is skipped. */
  lemma PublishedDateEmpty(book: Row)
    ensures PublishedDate(book) == "" <==> forall j :: 0 <= j < |DateFields| ==> DateVerdict(Get(book, DateFields[j])) == Skip
  {
    LeastNone(FieldVerdict(book), 0, |DateFields| - 1);
    if PublishedDate(book) == "" {
      forall j | 0 <= j < |DateFields|
        ensures DateVerdict(Get(book, DateFields[j])) == Skip
      {
        assert FieldVerdict(book)(j).None?;
      }
    }
  }

  /** A number whose integer part is a year in range gives that year. */
  lemma NumberYear(x: real, repr: string)
    requires InYearRange(Truncate(x))
    ensures DateVerdict(Number(x, repr)).Take?
    ensures var d := DateVerdict(Number(x, repr)).date; |d| == 4 && AllDigits(d) && Value(d) == Truncate(x)
  {
    YearString(Truncate(x));
  }

  /** A number out of range is passed over. */
  lemma NumberOutOfRange(x: real, repr: string)
    requires !InYearRange(Truncate(x))
    ensures DateVerdict(Number(x, repr)) == Skip
  {
  }

  /** A text column is read through `clean_field`; a blank one is passed over. */
  lemma TextColumn(s: string)
    ensures DateVerdict(Text(s)) == TextVerdict(CleanField(Text(s)))
  {
  }

  /** A text without any year group is shown as it is. */
  lemma TextWithoutYear(text: string)
    requires text != ""
    requires forall i :: !YearGroupAt(text, i)
    ensures TextVerdict(text) == Take(text)
  {
    LeastNone(YearFrom(text), 0, |text|);
  }

  /** Only the leftmost year group counts: in range it is the date, out of range the column is passed over. */
  lemma TextFirstYear(text: string, i: nat)
    requires YearGroupAt(text, i)
    requires forall j :: 0 <= j < i ==> !YearGroupAt(text, j)
    ensures var y := Value(text[i..i + 4]);
      TextVerdict(text) == if InYearRange(y) then Take(NatToString(y)) else Skip
  {
    forall j | 0 <= j < i
      ensures YearFrom(text)(j).None?
    {
    }
    LeastAt(YearFrom(text), 0, i, |text|);
  }

  // ---------------------------------------------------------------- one book line

  /** The cells of one book line of the dashboard table. */
  datatype BookLine = BookLine(
    title: string, kind: Kind, series: string, order: string,
    published: string, formats: string, audiobook: Availability, penName: string)

  /** The existing cleaned value when there is one, else the parsed one. */
  function Prefer(existing: string, parsed: string): (r: string)
    ensures existing != "" ==> r == existing
    ensures existing == "" ==> r == parsed
  {
    if existing != "" then existing else parsed
  }

  /** The book line for one row of `person`'s books. */
  function DisplayBook(person: string, role: string, author: Row, book: Row): (b: BookLine)
    ensures b.kind == Series <==> b.series != "" && Lower(b.series) != "nan"
    ensures b.published == "" || DateShape(b.published)
    ensures var raw := GetOr(book, "Book Title", Text("")); var parsed := ParseSeries(raw);
      (parsed.cleanTitle != "" ==> b.title == Escape(parsed.cleanTitle)) &&
      (parsed.cleanTitle == "" ==> b.title == CleanField(raw))
    ensures var stored := CleanField(GetOr(book, "Series Title", Text("")));
      (stored != "" ==> b.series == stored) &&
      (stored == "" ==> b.series == ParseSeries(GetOr(book, "Book Title", Text(""))).seriesName)
    ensures var stored := CleanField(GetOr(book, "Series Order", Text("")));
      (stored != "" ==> b.order == stored) &&
      (stored == "" ==> b.order == ParseSeries(GetOr(book, "Book Title", Text(""))).seriesOrder)
    ensures b.published == PublishedDate(book) && b.audiobook == AudiobookStatus(role, author)
    ensures b.formats == CleanField(GetOr(book, "Formats Available", Text("")))
    ensures var pen := CleanField(GetOr(book, "Pen Name", Text("")));
      b.penName == if Lower(pen) == Lower(person) then "" else pen
  {
    var raw := GetOr(book, "Book Title", Text(""));
    var parsed := ParseSeries(raw);
    var title := if parsed.cleanTitle != "" then Escape(parsed.cleanTitle) else CleanField(raw);
    var series := Prefer(CleanField(GetOr(book, "Series Title", Text(""))), parsed.seriesName);
    var order := Prefer(CleanField(GetOr(book, "Series Order", Text(""))), parsed.seriesOrder);
    var pen := CleanField(GetOr(book, "Pen Name", Text("")));
    assert Stripped(series);
    BookLine(
      title, KindOf(series), series, order,
      PublishedDate(book), CleanField(GetOr(book, "Formats Available", Text(""))),
      AudiobookStatus(role, author),
      if Lower(pen) == Lower(person) then "" else pen)
  }

  /**
   * A book with no series columns whose title reads "Title (Series, #3)"
   * shows the title, the series and the number taken from it, as part of a series.
   */
  lemma DisplayParsedSeries(person: string, role: string, author: Row, book: Row,
                            title: string, series: string, order: string)
    requires PlainTitle(title) && '&' !in title && '<' !in title && '>' !in title && '"' !in title && '\'' !in title
    requires |series| >= 1 && Stripped(series) && ',' !in series && '(' !in series && Lower(series) != "nan"
    requires |order| >= 1 && AllDigits(order)
    requires book == map["Book Title" := Text(title + " (" + series + ", #" + order + ")")]
    ensures var b := DisplayBook(person, role, author, book);
      b.title == title && b.series == series && b.order == order && b.kind == Series
  {
    ParseCommaNumbered(title, series, order);
    forall i | 0 <= i < |title|
      ensures title[i] !in "&<>\"'"
    {
      assert title[i] in title;
    }
    EscapePlain(title);
    StripAllSpace("");
  }
}
