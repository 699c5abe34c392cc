/**
 * The link finder for the author roster: three web searches per author, the
 * choice of one result per link column, the cleaning of the chosen link, the
 * rule that only a newly found link replaces a stored one, and the Verified
 * flag.  The search engine is a parameter mapping a query to the result
 * links of its page.
 */
module AuthorLinks {
  import opened Strings
  import opened Optional
  import opened Cells

  // ---------------------------------------------------------------- queries

  const SearchPrefix := "https://html.duckduckgo.com/html/?q="

  /** The search URL for a query: spaces become `+`. */
  function SearchUrl(query: string): (url: string)
    ensures |url| == |SearchPrefix| + |query| && url[..|SearchPrefix|] == SearchPrefix
    ensures forall i :: 0 <= i < |query| ==> url[|SearchPrefix| + i] == (if query[i] == ' ' then '+' else query[i])
  {
    var url := SearchPrefix + ReplaceChar(query, ' ', '+');
    assert url[..|SearchPrefix|] == SearchPrefix;
    url
  }

  /** The three link columns, in the order they are searched. */
  datatype Column = Website | AmazonPage | GoodreadsPage

  function ColumnName(c: Column): string {
    match c
    case Website => "Website"
    case AmazonPage => "Amazon Page"
    case GoodreadsPage => "Goodreads Page"
  }

  /** The query for one column: the author's name, a space and the column's fixed suffix. */
  function Query(name: Cell, c: Column): (q: string)
    ensures StartsWith(q, Str(name) + " ")
    ensures c == Website ==> q == Str(name) + " official site"
    ensures c == AmazonPage ==> q == Str(name) + " Amazon author"
    ensures c == GoodreadsPage ==> q == Str(name) + " Goodreads author"
  {
    var suffix := match c
      case Website => "official site"
      case AmazonPage => "Amazon author"
      case GoodreadsPage => "Goodreads author";
    var q := Str(name) + " " + suffix;
    assert q[..|Str(name) + " "|] == Str(name) + " ";
    q
  }

  // ---------------------------------------------------------------- choosing a result

  /** The first link that passes `ok`, or "" when none does. */
  function FirstWhere(links: seq<string>, ok: string -> bool): (r: string)
    ensures r == "" || (r in links && ok(r))
    decreases |links|
  {
    if |links| == 0 then ""
    else if ok(links[0]) then links[0]
    else FirstWhere(links[1..], ok)
  }

  /** The first passing link is chosen: every link before it fails. */
  lemma {:induction false} FirstWhereAt(links: seq<string>, ok: string -> bool, i: nat)
    requires i < |links| && ok(links[i])
    requires forall j :: 0 <= j < i ==> !ok(links[j])
    ensures FirstWhere(links, ok) == links[i]
    decreases i
  {
    if i > 0 {
      FirstWhereAt(links[1..], ok, i - 1);
    }
  }

  /** "" is chosen exactly when no link passes (links being non-empty, as the result page yields them). */
  lemma {:induction false} FirstWhereNone(links: seq<string>, ok: string -> bool)
    requires forall j :: 0 <= j < |links| ==> links[j] != ""
    ensures FirstWhere(links, ok) == "" <==> forall j :: 0 <= j < |links| ==> !ok(links[j])
    decreases |links|
  {
    if |links| > 0 {
      FirstWhereNone(links[1..], ok);
      assert forall j :: 1 <= j < |links| ==> links[j] == links[1..][j - 1];
    }
  }

  /** `find_best_match(links, domain)`: the first link containing the domain. */
  function FindBestMatch(links: seq<string>, domain: string): (r: string)
    ensures r == "" || (r in links && Contains(r, domain))
  {
    FirstWhere(links, (l: string) => Contains(l, domain))
  }

  /** The first link that contains the domain is the one returned. */
  lemma FindBestMatchFirst(links: seq<string>, domain: string, i: nat)
    requires i < |links| && Contains(links[i], domain)
    requires forall j :: 0 <= j < i ==> !Contains(links[j], domain)
    ensures FindBestMatch(links, domain) == links[i]
  {
    FirstWhereAt(links, (l: string) => Contains(l, domain), i);
  }

  /** With no link containing the domain the match is "". */
  lemma FindBestMatchNone(links: seq<string>, domain: string)
    requires forall j :: 0 <= j < |links| ==> !Contains(links[j], domain)
    ensures FindBestMatch(links, domain) == ""
  {
    FirstWhereEmpty(links, (l: string) => Contains(l, domain));
  }

  /** When every link fails, "" is chosen. */
  lemma {:induction false} FirstWhereEmpty(links: seq<string>, ok: string -> bool)
    requires forall j :: 0 <= j < |links| ==> !ok(links[j])
    ensures FirstWhere(links, ok) == ""
    decreases |links|
  {
    if |links| > 0 {
      assert forall j :: 0 <= j < |links| - 1 ==> links[1..][j] == links[j + 1];
      FirstWhereEmpty(links[1..], ok);
    }
  }

  const ExcludedDomains: seq<string> := ["amazon.com", "goodreads.com", "facebook.com", "twitter.com", "instagram.com"]

  /** A link on one of the big sites rather than the author's own. */
  predicate Excluded(link: string) {
    exists k :: 0 <= k < |ExcludedDomains| && Contains(link, ExcludedDomains[k])
  }

  /** The Website choice: the first result on none of the excluded sites. */
  function WebsiteChoice(links: seq<string>): (r: string)
    ensures r == "" || (r in links && !Excluded(r))
  {
    FirstWhere(links, (l: string) => !Excluded(l))
  }

  /** The first result on none of the excluded sites is the Website. */
  lemma WebsiteChoiceFirst(links: seq<string>, i: nat)
    requires i < |links| && !Excluded(links[i])
    requires forall j :: 0 <= j < i ==> Excluded(links[j])
    ensures WebsiteChoice(links) == links[i]
  {
    FirstWhereAt(links, (l: string) => !Excluded(l), i);
  }

  /** When every result is on an excluded site the Website is "". */
  lemma WebsiteChoiceNone(links: seq<string>)
    requires forall j :: 0 <= j < |links| ==> Excluded(links[j])
    ensures WebsiteChoice(links) == ""
  {
    FirstWhereEmpty(links, (l: string) => !Excluded(l));
  }

  /** The result chosen for one column. */
  function Choose(c: Column, links: seq<string>): (r: string)
    ensures r == "" || r in links
    ensures c == Website ==> r == "" || !Excluded(r)
    ensures c == AmazonPage ==> r == "" || Contains(r, "amazon.com")
    ensures c == GoodreadsPage ==> r == "" || Contains(r, "goodreads.com")
  {
    match c
    case Website => WebsiteChoice(links)
    case AmazonPage => FindBestMatch(links, "amazon.com")
    case GoodreadsPage => FindBestMatch(links, "goodreads.com")
  }

  // ---------------------------------------------------------------- clean_link

  predicate IsDelimiter(c: char) {
    c == '?' || c == '#'
  }

  /** The first `?` or `#` at or after `i`, or `|s|`. */
  function FindDelimiter(s: string, i: nat): (j: nat)
    requires i <= |s|
    ensures i <= j <= |s|
    ensures forall k :: i <= k < j ==> !IsDelimiter(s[k])
    ensures j == |s| || IsDelimiter(s[j])
    decreases |s| - i
  {
    if i == |s| || IsDelimiter(s[i]) then i else FindDelimiter(s, i + 1)
  }

  /**
   * `re.sub(r'(\?.*)|(\#.*)', '', link)`: every `?` or `#` starts a match
   * that runs to the end of its line, since `.` does not cross a newline.
   */
  function CleanLink(s: string): (r: string)
    ensures |r| <= |s|
    ensures forall k :: 0 <= k < |r| ==> !IsDelimiter(r[k])
    decreases |s|
  {
    var i := FindDelimiter(s, 0);
    if i == |s| then s
    else
      var j := Find(s, i, '\n');
      s[..i] + CleanLink(s[j..])
  }

  /** On a one-line link the parameters and the fragment are cut off: the rest is a prefix. */
  lemma CleanLinkOneLine(s: string)
    requires '\n' !in s
    ensures CleanLink(s) == s[..FindDelimiter(s, 0)]
  {
    var i := FindDelimiter(s, 0);
    if i < |s| {
      assert forall k :: i <= k < |s| ==> s[k] != '\n';
      assert s[|s|..] == [];
    }
  }

  /** A text without delimiters is left as it is. */
  lemma CleanLinkPlain(s: string)
    requires forall k :: 0 <= k < |s| ==> !IsDelimiter(s[k])
    ensures CleanLink(s) == s
  {
    assert FindDelimiter(s, 0) == |s|;
  }

  /** Cleaning twice is cleaning once. */
  lemma CleanLinkIdempotent(s: string)
    ensures CleanLink(CleanLink(s)) == CleanLink(s)
  {
    CleanLinkPlain(CleanLink(s));
  }

  // ---------------------------------------------------------------- one roster row

  /** The links found for one row, column by column, already cleaned. */
  datatype Found = Found(website: string, amazon: string, goodreads: string)

  function FoundFor(f: Found, c: Column): string {
    match c
    case Website => f.website
    case AmazonPage => f.amazon
    case GoodreadsPage => f.goodreads
  }

  /** The three searches of one row. */
  function SearchRow(name: Cell, results: string -> seq<string>): (f: Found)
    ensures forall c :: FoundFor(f, c) == CleanLink(Choose(c, results(Query(name, c))))
  {
    Found(
      CleanLink(Choose(Website, results(Query(name, Website)))),
      CleanLink(Choose(AmazonPage, results(Query(name, AmazonPage)))),
      CleanLink(Choose(GoodreadsPage, results(Query(name, GoodreadsPage)))))
  }

  /** `links_found[col] or df.at[idx, col]`: a found link replaces the stored value, an empty one keeps it. */
  function Override(found: string, stored: Cell): (v: Cell)
    ensures found != "" ==> v == Text(found)
    ensures found == "" ==> v == stored
  {
    if found != "" then Text(found) else stored
  }

  /** The row with every found link written over its column. */
  function WriteLinks(row: Row, f: Found): (r: Row)
    ensures r.Keys == row.Keys + {"Website", "Amazon Page", "Goodreads Page"}
    ensures forall c :: r[ColumnName(c)] == Override(FoundFor(f, c), Get(row, ColumnName(c)))
    ensures forall k :: k in row && k !in {"Website", "Amazon Page", "Goodreads Page"} ==> r[k] == row[k]
  {
    row["Website" := Override(f.website, Get(row, "Website"))]
       ["Amazon Page" := Override(f.amazon, Get(row, "Amazon Page"))]
       ["Goodreads Page" := Override(f.goodreads, Get(row, "Goodreads Page"))]
  }

  // ---------------------------------------------------------------- the Verified flag

  /** The test as written: `all(df.at[idx, col] for col in ...)` on Python truthiness. */
  function AllLinkedAsWritten(row: Row): (linked: bool)
    ensures AllLinked(row) ==> linked
    ensures linked && !IsNa(Get(row, "Website")) && !IsNa(Get(row, "Amazon Page")) && !IsNa(Get(row, "Goodreads Page"))
      ==> AllLinked(row)
    ensures Get(row, "Website") == NaN && Get(row, "Amazon Page") == NaN && Get(row, "Goodreads Page") == NaN ==> linked
  {
    Truthy(Get(row, "Website")) && Truthy(Get(row, "Amazon Page")) && Truthy(Get(row, "Goodreads Page"))
  }

  /** A stored link cell that holds a link: truthy and not pandas' missing value. */
  predicate HasLink(v: Cell) {
    Truthy(v) && !IsNa(v)
  }

  predicate AllLinked(row: Row) {
    HasLink(Get(row, "Website")) && HasLink(Get(row, "Amazon Page")) && HasLink(Get(row, "Goodreads Page"))
  }

  /**
   * Empty cells of the roster file read as NaN, which is truthy: as written, a
   * row with no stored links and no links found is marked verified.
   */
  lemma NaNLinksVerifiedAsWritten()
    ensures var row: Row := map["Website" := NaN, "Amazon Page" := NaN, "Goodreads Page" := NaN, "Verified" := NaN];
      var next := WriteLinks(row, Found("", "", ""));
      AllLinkedAsWritten(next) && !AllLinked(next)
  {
  }

  /** One pass of the loop body over a row. */
  function UpdateRow(row: Row, results: string -> seq<string>): (r: Row)
    ensures Get(row, "Verified") == Text("Yes") ==> r == row
    ensures Get(row, "Verified") != Text("Yes") ==>
      Get(r, "Verified") == (if AllLinked(r) then Text("Yes") else Get(row, "Verified"))
  {
    if Get(row, "Verified") == Text("Yes") then row
    else
      var linked := WriteLinks(row, SearchRow(Get(row, "Author Name"), results));
      if AllLinked(linked) then linked["Verified" := Text("Yes")] else linked
  }

  /** The Verified flag is never taken back: a verified row stays verified and keeps its links. */
  lemma VerifiedStays(row: Row, results: string -> seq<string>)
    requires Get(row, "Verified") == Text("Yes")
    ensures UpdateRow(row, results) == row
  {
  }

  /** A row becomes verified exactly when, after the update, all three columns hold a link. */
  lemma VerifiedWhenLinked(row: Row, results: string -> seq<string>)
    ensures var r := UpdateRow(row, results);
      Get(r, "Verified") == Text("Yes") <==> AllLinked(r) || Get(row, "Verified") == Text("Yes")
  {
  }

  /**
   * An unverified row gets, in each link column, the link found for it or
   * else its stored value; every column other than the links and the flag is
   * left as it was.
   */
  lemma UpdateRowWrites(row: Row, results: string -> seq<string>, c: Column)
    requires Get(row, "Verified") != Text("Yes")
    ensures Get(UpdateRow(row, results), ColumnName(c))
      == Override(FoundFor(SearchRow(Get(row, "Author Name"), results), c), Get(row, ColumnName(c)))
  {
    var linked := WriteLinks(row, SearchRow(Get(row, "Author Name"), results));
    assert linked[ColumnName(c)] == Override(FoundFor(SearchRow(Get(row, "Author Name"), results), c), Get(row, ColumnName(c)));
  }

  /** Every column other than the three links and the flag passes through an update unchanged. */
  lemma UpdateRowKeeps(row: Row, results: string -> seq<string>, k: string)
    requires k in row && k !in {"Website", "Amazon Page", "Goodreads Page", "Verified"}
    ensures k in UpdateRow(row, results) && UpdateRow(row, results)[k] == row[k]
  {
  }

  /** A stored link survives a search that finds nothing for its column. */
  lemma StoredLinkKept(row: Row, results: string -> seq<string>, c: Column)
    requires Get(row, "Verified") != Text("Yes")
    requires FoundFor(SearchRow(Get(row, "Author Name"), results), c) == ""
    ensures Get(UpdateRow(row, results), ColumnName(c)) == Get(row, ColumnName(c))
  {
    var linked := WriteLinks(row, SearchRow(Get(row, "Author Name"), results));
    assert linked[ColumnName(c)] == Get(row, ColumnName(c));
  }

  /** The columns the loop relies on, given their defaults when the file lacks them. */
  function WithDefaults(row: Row): (r: Row)
    ensures forall k :: k in row ==> k in r && r[k] == row[k]
    ensures "Website" in r && "Amazon Page" in r && "Goodreads Page" in r && "Verified" in r
    ensures "Website" !in row ==> r["Website"] == Text("")
    ensures "Amazon Page" !in row ==> r["Amazon Page"] == Text("")
    ensures "Goodreads Page" !in row ==> r["Goodreads Page"] == Text("")
    ensures "Verified" !in row ==> r["Verified"] == Text("No")
    ensures r.Keys == row.Keys + {"Website", "Amazon Page", "Goodreads Page", "Verified"}
  {
    var r1 := if "Website" in row then row else row["Website" := Text("")];
    var r2 := if "Amazon Page" in r1 then r1 else r1["Amazon Page" := Text("")];
    var r3 := if "Goodreads Page" in r2 then r2 else r2["Goodreads Page" := Text("")];
    if "Verified" in r3 then r3 else r3["Verified" := Text("No")]
  }

  /** The whole roster: every row updated on its own, in order. */
  method UpdateAll(rows: seq<Row>, results: string -> seq<string>) returns (out: seq<Row>)
    ensures |out| == |rows|
    ensures forall i :: 0 <= i < |rows| ==> out[i] == UpdateRow(WithDefaults(rows[i]), results)
  {
    out := [];
    var i := 0;
    while i < |rows|
      invariant i <= |rows| && |out| == i
      invariant forall k :: 0 <= k < i ==> out[k] == UpdateRow(WithDefaults(rows[k]), results)
    {
      out := out + [UpdateRow(WithDefaults(rows[i]), results)];
      i := i + 1;
    }
  }
}
