/**
 * The spreadsheet backlist builder: one sheet per author of the scraped
 * backlist, named after the author within the 31 characters a sheet title
 * may have, with the header on row 7 and one 14-cell row per book from row 8,
 * every odd row shaded.
 */
module Workbook {
  import opened Strings
  import opened Cells

  const Headers: seq<string> := [
    "Book Title", "Series Title", "Series Order", "Published Date",
    "Formats Available", "Buy Links", "Rent Links", "Audiobook (Y/N)",
    "Narrators", "Kindle Unlimited (Y/N)", "Kobo+ (Y/N)",
    "Genre", "Standalone/Series", "Other Notes"
  ]

  /** The longest sheet title a workbook accepts. */
  const MaxTitle := 31

  // ---------------------------------------------------------------- tab names

  /** The characters the sheet-name cleaning removes: `\ / * ? : " < > |`. */
  predicate Forbidden(c: char) {
    c in "\\/*?:\"<>|"
  }

  /** The sheet-name cleaning: every forbidden character is dropped, the rest kept in order. */
  function Sanitise(name: string): (r: string)
    ensures |r| <= |name|
    ensures forall i :: 0 <= i < |r| ==> !Forbidden(r[i])
    ensures forall c :: !Forbidden(c) ==> (c in r <==> c in name)
    decreases |name|
  {
    if |name| == 0 then ""
    else if Forbidden(name[0]) then Sanitise(name[1..])
    else
      assert name == [name[0]] + name[1..];
      [name[0]] + Sanitise(name[1..])
  }

  /** A name within the limit is kept; a longer one becomes its first 28 characters and "...". */
  function Shorten(name: string): (r: string)
    ensures |r| <= MaxTitle
    ensures |name| <= MaxTitle ==> r == name
    ensures |name| > MaxTitle ==> |r| == MaxTitle && r[..28] == name[..28] && r[28..] == "..."
  {
    if |name| <= MaxTitle then name else name[..28] + "..."
  }

  /** The cleaning of a single character: a forbidden one is dropped, any other kept. */
  lemma SanitiseOne(c: char)
    ensures Sanitise([c]) == if Forbidden(c) then "" else [c]
  {
    assert [c][1..] == "";
  }

  /** The cleaning works character by character: cleaning a concatenation cleans each part. */
  lemma {:induction false} SanitiseAppend(a: string, b: string)
    ensures Sanitise(a + b) == Sanitise(a) + Sanitise(b)
    decreases |a|
  {
    if |a| == 0 {
      assert a + b == b;
    } else {
      assert (a + b)[0] == a[0];
      assert (a + b)[1..] == a[1..] + b;
      SanitiseAppend(a[1..], b);
    }
  }

  /** The tab name as written: the cleaned name is computed and then overwritten by the shortened raw name. */
  function TabNameAsWritten(author: string): (r: string)
    ensures |r| <= MaxTitle
    ensures |author| <= MaxTitle ==> r == author
    ensures |author| > MaxTitle ==> |r| == MaxTitle && r[..28] == author[..28] && r[28..] == "..."
  {
    var cleaned := Sanitise(author);
    Shorten(author)
  }

  /** As written, an author name with a slash keeps it in the tab name, which a sheet title may not hold. */
  lemma SlashSurvivesAsWritten()
    ensures '/' in TabNameAsWritten("AC/DC")
  {
    assert TabNameAsWritten("AC/DC")[2] == '/';
  }

  /** The tab name as evidently intended: cleaned, then shortened. */
  function TabName(author: string): (r: string)
    ensures |r| <= MaxTitle
    ensures forall i :: 0 <= i < |r| ==> !Forbidden(r[i])
    ensures |Sanitise(author)| <= MaxTitle ==> r == Sanitise(author)
  {
    var cleaned := Sanitise(author);
    var r := Shorten(cleaned);
    assert forall i :: 28 <= i < |r| && |cleaned| > MaxTitle ==> r[i] == '.';
    assert forall i :: 0 <= i < 28 && |cleaned| > MaxTitle ==> r[i] == cleaned[i];
    r
  }

  /** A name with no forbidden character is left as it is by the cleaning. */
  lemma {:induction false} SanitiseClean(name: string)
    requires forall i :: 0 <= i < |name| ==> !Forbidden(name[i])
    ensures Sanitise(name) == name
    decreases |name|
  {
    if |name| > 0 {
      SanitiseClean(name[1..]);
    }
  }

  /** The corrected name agrees with the written one whenever the author needs no cleaning. */
  lemma TabNameAgrees(author: string)
    requires forall i :: 0 <= i < |author| ==> !Forbidden(author[i])
    ensures TabName(author) == TabNameAsWritten(author)
  {
    SanitiseClean(author);
  }

  // ---------------------------------------------------------------- authors

  /** `x` first appears in the author column at `k`. */
  predicate FirstAt(column: seq<Cell>, x: string, k: nat) {
    k < |column| && column[k] == Text(x) && forall j :: 0 <= j < k ==> column[j] != Text(x)
  }

  /**
   * `scraped_data["Author"].dropna().unique()`: the authors, each once, in
   * the order of their first row, with the row each first appears at.
   */
  method DistinctAuthors(column: seq<Cell>) returns (authors: seq<string>, firsts: seq<nat>)
    requires forall k :: 0 <= k < |column| ==> column[k].Text? || IsNa(column[k])
    ensures |firsts| == |authors|
    ensures forall i :: 0 <= i < |authors| ==> FirstAt(column, authors[i], firsts[i])
    ensures forall i, j :: 0 <= i < j < |firsts| ==> firsts[i] < firsts[j]
    ensures forall k :: 0 <= k < |column| && column[k].Text? ==> column[k].s in authors
    ensures forall i, j :: 0 <= i < j < |authors| ==> authors[i] != authors[j]
  {
    authors, firsts := [], [];
    var k := 0;
    while k < |column|
      invariant k <= |column| && |firsts| == |authors|
      invariant forall i :: 0 <= i < |authors| ==> FirstAt(column, authors[i], firsts[i]) && firsts[i] < k
      invariant forall i, j :: 0 <= i < j < |firsts| ==> firsts[i] < firsts[j]
      invariant forall m :: 0 <= m < k && column[m].Text? ==> column[m].s in authors
      invariant forall i, j :: 0 <= i < j < |authors| ==> authors[i] != authors[j]
    {
      if column[k].Text? && column[k].s !in authors {
        forall j | 0 <= j < k
          ensures column[j] != column[k]
        {
          if column[j].Text? {
            assert column[j].s in authors;
          }
        }
        authors, firsts := authors + [column[k].s], firsts + [k];
      }
      k := k + 1;
    }
  }

  // ---------------------------------------------------------------- book rows

  /** The first row number that holds a book; the header is on the row before. */
  const FirstBookRow := 8
  /** The column that gets the date number format. */
  const DateColumn := 4


  /** A book row: its five scraped values, then a blank cell under every other header. */
  function BookRow(values: seq<Cell>): (cells: seq<Cell>)
    requires |values| == 5
    ensures |cells| == |Headers|
    ensures cells[..5] == values
    ensures forall c :: 5 <= c < |cells| ==> cells[c] == Text("")
  {
    values + seq(9, _ => Text(""))
  }

  /** The date format goes on the column under "Published Date", which holds the book's published date. */
  lemma DateColumnHoldsDate(row: Row)
    ensures Headers[DateColumn - 1] == "Published Date"
    ensures BookRow(Values(row))[DateColumn - 1] == Get(row, "Published Date")
  {
    assert BookRow(Values(row))[..5][3] == Values(row)[3];
  }

  /** One written sheet row: its number, its cells and whether it is shaded. */
  datatype SheetRow = SheetRow(number: nat, cells: seq<Cell>, gray: bool)

  /** The book rows of one author's sheet, in data order. */
  method BookRows(books: seq<seq<Cell>>) returns (rows: seq<SheetRow>)
    requires forall b :: 0 <= b < |books| ==> |books[b]| == 5
    ensures |rows| == |books|
    ensures forall b :: 0 <= b < |rows| ==> rows[b].number == FirstBookRow + b && rows[b].cells == BookRow(books[b])
    ensures forall b :: 0 <= b < |rows| ==> (rows[b].gray <==> b % 2 == 1)
  {
    rows := [];
    var idx := FirstBookRow;
    while idx - FirstBookRow < |books|
      invariant FirstBookRow <= idx && idx - FirstBookRow <= |books| && |rows| == idx - FirstBookRow
      invariant forall b :: 0 <= b < |rows| ==> rows[b].number == FirstBookRow + b && rows[b].cells == BookRow(books[b])
      invariant forall b :: 0 <= b < |rows| ==> rows[b].gray == (rows[b].number % 2 == 1)
    {
      rows := rows + [SheetRow(idx, BookRow(books[idx - FirstBookRow]), idx % 2 == 1)];
      idx := idx + 1;
    }
  }

  // ---------------------------------------------------------------- sheets

  /** `scraped_data[scraped_data["Author"] == author]`: the author's rows, in table order. */
  function BooksOf(table: seq<Row>, author: string): (rows: seq<Row>)
    ensures |rows| <= |table|
    ensures forall i :: 0 <= i < |rows| ==> Get(rows[i], "Author") == Text(author)
    decreases |table|
  {
    if |table| == 0 then []
    else if Get(table[0], "Author") == Text(author) then [table[0]] + BooksOf(table[1..], author)
    else BooksOf(table[1..], author)
  }

  /** No row of the author is left out, and no other row is let in. */
  lemma {:induction false} BooksOfComplete(table: seq<Row>, author: string, k: nat)
    requires k < |table|
    ensures table[k] in BooksOf(table, author) <==> Get(table[k], "Author") == Text(author)
    decreases k
  {
    if k > 0 {
      assert table[1..][k - 1] == table[k];
      BooksOfComplete(table[1..], author, k - 1);
    }
  }

  /** A one-row table: the row is kept exactly when it is the author's. */
  lemma BooksOfOne(r: Row, author: string)
    ensures BooksOf([r], author) == if Get(r, "Author") == Text(author) then [r] else []
  {
    assert [r][1..] == [];
  }

  /** The filter works row by row, so it keeps table order and repeated rows. */
  lemma {:induction false} BooksOfAppend(t1: seq<Row>, t2: seq<Row>, author: string)
    ensures BooksOf(t1 + t2, author) == BooksOf(t1, author) + BooksOf(t2, author)
    decreases |t1|
  {
    if |t1| > 0 {
      assert (t1 + t2)[1..] == t1[1..] + t2;
      BooksOfAppend(t1[1..], t2, author);
    } else {
      assert t1 + t2 == t2;
    }
  }

  /** The five scraped values of a book, under the first five headers. */
  function Values(row: Row): (v: seq<Cell>)
    ensures |v| == 5 && forall c :: 0 <= c < 5 ==> v[c] == Get(row, Headers[c])
  {
    seq(5, c requires 0 <= c < 5 => Get(row, Headers[c]))
  }

  /** One author's sheet: its title and its book rows. */
  datatype Sheet = Sheet(title: string, rows: seq<SheetRow>)

  /** The author column of the table. */
  function AuthorColumn(table: seq<Row>): (column: seq<Cell>)
    ensures |column| == |table| && forall k :: 0 <= k < |table| ==> column[k] == Get(table[k], "Author")
  {
    seq(|table|, k requires 0 <= k < |table| => Get(table[k], "Author"))
  }

  /**
   * `sheet` is the one written for `author`: the cleaned tab name, and for the
   * author's `b`-th book the sheet row `FirstBookRow + b` holding that book's
   * values, shaded exactly when its row number is odd.
   */
  predicate SheetFits(table: seq<Row>, author: string, sheet: Sheet) {
    var books := BooksOf(table, author);
    && sheet.title == TabName(author) && |sheet.rows| == |books|
    && forall b :: 0 <= b < |sheet.rows| ==>
         sheet.rows[b] == SheetRow(FirstBookRow + b, BookRow(Values(books[b])), (FirstBookRow + b) % 2 == 1)
  }

  /** The sheet of one author. */
  method SheetOf(table: seq<Row>, author: string) returns (sheet: Sheet)
    ensures SheetFits(table, author, sheet)
  {
    var books := BooksOf(table, author);
    var values := seq(|books|, b requires 0 <= b < |books| => Values(books[b]));
    var rows := BookRows(values);
    sheet := Sheet(TabName(author), rows);
  }

  /** One sheet per given author, in the same order. */
  method SheetsFor(table: seq<Row>, authors: seq<string>) returns (sheets: seq<Sheet>)
    ensures |sheets| == |authors|
    ensures forall i :: 0 <= i < |sheets| ==> SheetFits(table, authors[i], sheets[i])
  {
    sheets := [];
    var i := 0;
    while i < |authors|
      invariant i <= |authors| && |sheets| == i
      invariant forall m :: 0 <= m < i ==> SheetFits(table, authors[m], sheets[m])
    {
      var sheet := SheetOf(table, authors[i]);
      sheets := sheets + [sheet];
      i := i + 1;
    }
  }

  /** The author sheets of the workbook, one per distinct author, in order of first appearance. */
  method BuildSheets(table: seq<Row>) returns (authors: seq<string>, firsts: seq<nat>, sheets: seq<Sheet>)
    requires forall k :: 0 <= k < |table| ==> Get(table[k], "Author").Text? || IsNa(Get(table[k], "Author"))
    ensures |sheets| == |authors| && |firsts| == |authors|
    ensures forall i :: 0 <= i < |authors| ==> FirstAt(AuthorColumn(table), authors[i], firsts[i])
    ensures forall i, j :: 0 <= i < j < |firsts| ==> firsts[i] < firsts[j]
    ensures forall i, j :: 0 <= i < j < |authors| ==> authors[i] != authors[j]
    ensures forall k :: 0 <= k < |table| && Get(table[k], "Author").Text? ==> Get(table[k], "Author").s in authors
    ensures forall i :: 0 <= i < |sheets| ==> SheetFits(table, authors[i], sheets[i]) && |sheets[i].title| <= MaxTitle
  {
    authors, firsts := DistinctAuthors(AuthorColumn(table));
    sheets := SheetsFor(table, authors);
  }
}
