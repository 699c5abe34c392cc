/**
 * The incremental scrape of the pipeline: every roster row whose author is
 * not yet in the stored backlist is searched under the canonical name and
 * each of its pen names, every book found is stamped with the canonical
 * author, the pen name it was found under and the role, and the store
 * becomes the existing rows followed by the new ones.
 *
 * The web search and the page scrape are parameters: `search` maps a name to
 * the author page found for it, if any, and `scrape` maps a page to its book
 * records.
 */
module Coordinator {
  import opened Strings
  import opened Optional
  import opened Cells
  import opened Folds

  /** The search and scrape steps the fold is parameterised by. */
  datatype Web = Web(search: string -> Option<string>, scrape: string -> seq<Row>)

  /** A name the roster loop treats as missing. */
  predicate BlankName(name: string) {
    name == "" || Lower(name) == "nan"
  }

  // ---------------------------------------------------------------- the roster row as written

  /** `str(row.get("Author Name", "")).strip()`: a blank roster cell reads as `None`, whose text is "None". */
  function ScrapeNameAsWritten(row: Row): (name: string)
    ensures Stripped(name)
    ensures "Author Name" !in row ==> name == ""
    ensures forall s :: GetOr(row, "Author Name", Text("")) == Text(s) ==> name == Strip(s)
    ensures GetOr(row, "Author Name", Text("")) == Null ==> name == "None"
  {
    StrippedFixed("None");
    Strip(Str(GetOr(row, "Author Name", Text(""))))
  }

  /** A row whose author cell is empty is not skipped as written: it is scraped under the name "None". */
  lemma BlankAuthorScrapedAsNone()
    ensures var row: Row := map["Author Name" := Null];
      ScrapeNameAsWritten(row) == "None" && !BlankName(ScrapeNameAsWritten(row))
  {
    StrippedFixed("None");
  }

  /** `str(row.get("Role", "")).strip() or "Author"`. */
  function RoleAsWritten(row: Row): (role: string)
    ensures role != "" && Stripped(role)
    ensures "Role" !in row ==> role == "Author"
    ensures GetOr(row, "Role", Text("")) == Null ==> role == "None"
  {
    StrippedFixed("None");
    var r := Strip(Str(GetOr(row, "Role", Text(""))));
    if r != "" then r else "Author"
  }

  /** A row whose role cell is empty gets the role "None" as written, not the default. */
  lemma BlankRoleIsNone()
    ensures RoleAsWritten(map["Role" := Null]) == "None"
  {
    StrippedFixed("None");
  }

  // ---------------------------------------------------------------- the roster row as intended

  /** The author a roster row names: `None` when the cell is missing, blank or "nan". */
  function CanonicalName(row: Row): (name: Option<string>)
    ensures name.Some? ==> !BlankName(name.value) && Stripped(name.value)
    ensures name.Some? ==> name.value == ScrapeNameAsWritten(row)
    ensures IsNa(Get(row, "Author Name")) ==> name.None?
  {
    var v := GetOr(row, "Author Name", Text(""));
    if IsNa(v) || BlankName(Strip(Str(v))) then None else Some(Strip(Str(v)))
  }

  /** The two readings differ only on a missing cell, which the corrected one skips. */
  lemma CanonicalNameAgrees(row: Row)
    requires !IsNa(Get(row, "Author Name"))
    ensures CanonicalName(row).None? <==> BlankName(ScrapeNameAsWritten(row))
  {
  }

  /** The role of a roster row: "Author" when the cell is missing or blank. */
  function RoleOf(row: Row): (role: string)
    ensures role != "" && Stripped(role)
    ensures IsNa(Get(row, "Role")) ==> role == "Author"
    ensures !IsNa(Get(row, "Role")) ==> role == RoleAsWritten(row)
  {
    var v := GetOr(row, "Role", Text(""));
    if IsNa(v) || Strip(Str(v)) == "" then "Author" else Strip(Str(v))
  }

  // ---------------------------------------------------------------- pen names

  /** The stripped, non-empty pieces, in order. */
  function NonBlank(pieces: seq<string>): (names: seq<string>)
    ensures |names| <= |pieces|
    ensures forall i :: 0 <= i < |names| ==> names[i] != "" && Stripped(names[i])
    ensures forall i :: 0 <= i < |pieces| && Strip(pieces[i]) != "" ==> Strip(pieces[i]) in names
    ensures forall n :: n in names ==> exists i :: 0 <= i < |pieces| && n == Strip(pieces[i])
    decreases |pieces|
  {
    if |pieces| == 0 then []
    else
      var rest := NonBlank(pieces[1..]);
      assert forall i :: 1 <= i < |pieces| ==> pieces[i] == pieces[1..][i - 1];
      if Strip(pieces[0]) == "" then rest
      else [Strip(pieces[0])] + rest
  }

  /** One piece is kept, stripped, exactly when it is not blank. */
  lemma NonBlankOne(piece: string)
    ensures NonBlank([piece]) == if Strip(piece) == "" then [] else [Strip(piece)]
  {
    assert [piece][1..] == [];
  }

  /** The pieces of a concatenation are kept in order: first those of the first part, then those of the second. */
  lemma {:induction false} NonBlankAppend(a: seq<string>, b: seq<string>)
    ensures NonBlank(a + b) == NonBlank(a) + NonBlank(b)
    decreases |a|
  {
    if |a| == 0 {
      assert a + b == b;
    } else {
      assert (a + b)[0] == a[0];
      assert (a + b)[1..] == a[1..] + b;
      NonBlankAppend(a[1..], b);
    }
  }

  /** Pieces that are already stripped and non-empty are all kept. */
  lemma {:induction false} NonBlankKeeps(pieces: seq<string>)
    requires forall i :: 0 <= i < |pieces| ==> pieces[i] != "" && Stripped(pieces[i])
    ensures NonBlank(pieces) == pieces
    decreases |pieces|
  {
    if |pieces| > 0 {
      StrippedFixed(pieces[0]);
      NonBlankKeeps(pieces[1..]);
    }
  }

  /** The pen names of the "Other Names" cell: the comma-separated, stripped, non-empty pieces. */
  function PenNames(other: Cell): (names: seq<string>)
    ensures forall i :: 0 <= i < |names| ==> names[i] != "" && Stripped(names[i]) && ',' !in names[i]
  {
    var raw := if IsNa(other) then "" else Str(other);
    var pieces := Split(raw, ',');
    SplitPiecesFree(raw, ',');
    NonBlankFree(pieces, ',');
    NonBlank(pieces)
  }

  /** Dropping and stripping pieces adds no separator. */
  lemma {:induction false} NonBlankFree(pieces: seq<string>, c: char)
    requires forall i :: 0 <= i < |pieces| ==> c !in pieces[i]
    ensures forall i :: 0 <= i < |NonBlank(pieces)| ==> c !in NonBlank(pieces)[i]
    decreases |pieces|
  {
    if |pieces| > 0 {
      NonBlankFree(pieces[1..], c);
      StripKeeps(pieces[0], c);
    }
  }

  /** A comma-joined list of clean names is read back as that list. */
  lemma PenNamesOfList(names: seq<string>)
    requires |names| >= 1
    requires forall i :: 0 <= i < |names| ==> names[i] != "" && Stripped(names[i]) && ',' !in names[i]
    ensures PenNames(Text(Join(names, ','))) == names
  {
    SplitJoin(names, ',');
    NonBlankKeeps(names);
  }

  /** Pieces that strip to the given non-empty names are read as those names. */
  lemma {:induction false} NonBlankStrips(pieces: seq<string>, names: seq<string>)
    requires |pieces| == |names|
    requires forall i :: 0 <= i < |pieces| ==> names[i] != "" && Strip(pieces[i]) == names[i]
    ensures NonBlank(pieces) == names
    decreases |pieces|
  {
    if |pieces| > 0 {
      NonBlankStrips(pieces[1..], names[1..]);
    }
  }

  /**
   * Names separated by commas with whitespace around them, as in
   * "Pen One, Pen Two", are read back as the bare names.
   */
  lemma PenNamesPadded(pieces: seq<string>, names: seq<string>)
    requires |pieces| == |names| >= 1
    requires forall i :: 0 <= i < |pieces| ==> ',' !in pieces[i] && names[i] != "" && Strip(pieces[i]) == names[i]
    ensures PenNames(Text(Join(pieces, ','))) == names
  {
    SplitJoin(pieces, ',');
    NonBlankStrips(pieces, names);
  }

  /** The usual way of listing two pen names: "A, B" gives A and B. */
  lemma PenNamesTwo(a: string, b: string)
    requires a != "" && b != "" && Stripped(a) && Stripped(b) && ',' !in a && ',' !in b
    ensures PenNames(Text(a + ", " + b)) == [a, b]
  {
    var pb := " " + b;
    StrippedFixed(a);
    StripOf(" ", b, "");
    assert " " + b + "" == pb;
    assert ',' !in pb by {
      assert forall k :: 1 <= k < |pb| ==> pb[k] == b[k - 1];
    }
    var pieces := [a, pb];
    assert pieces[1..] == [pb];
    assert Join(pieces, ',') == a + [','] + pb;
    assert a + [','] + pb == a + ", " + b;
    PenNamesPadded(pieces, [a, b]);
  }

  /** The names a row is searched under: the canonical name, then its pen names. */
  function NamesToScrape(name: string, row: Row): (names: seq<string>)
    ensures |names| >= 1 && names[0] == name
    ensures names[1..] == PenNames(Get(row, "Other Names"))
  {
    [name] + PenNames(Get(row, "Other Names"))
  }

  // ---------------------------------------------------------------- stamping and the fold

  /** A found book stamped with its author, the pen name it was found under, and the role. */
  function Stamp(book: Row, name: string, role: string, pen: string): (r: Row)
    ensures r.Keys == book.Keys + {"Author", "Pen Name", "Role"}
    ensures r["Author"] == Text(name) && r["Role"] == Text(role)
    ensures r["Pen Name"] == Text(if pen != name then pen else "")
    ensures forall k :: k in book && k !in {"Author", "Pen Name", "Role"} ==> r[k] == book[k]
  {
    book["Author" := Text(name)]["Pen Name" := Text(if pen != name then pen else "")]["Role" := Text(role)]
  }

  /** The stamped books found under one name; an empty page link counts as none found. */
  function BooksUnder(web: Web, name: string, role: string, pen: string): (books: seq<Row>)
    ensures forall i :: 0 <= i < |books| ==> Get(books[i], "Author") == Text(name) && Get(books[i], "Role") == Text(role)
    ensures forall i :: 0 <= i < |books| ==> Get(books[i], "Pen Name") == Text(if pen != name then pen else "")
    ensures web.search(pen).None? || web.search(pen) == Some("") ==> books == []
    ensures web.search(pen).Some? && web.search(pen).value != "" ==>
      var found := web.scrape(web.search(pen).value);
      |books| == |found| && forall i :: 0 <= i < |books| ==> books[i] == Stamp(found[i], name, role, pen)
  {
    match web.search(pen)
    case None => []
    case Some(url) =>
      if url == "" then []
      else
        var found := web.scrape(url);
        seq(|found|, i requires 0 <= i < |found| => Stamp(found[i], name, role, pen))
  }

  /** The books found under each of `pens`, in order. */
  function BooksUnderAll(web: Web, name: string, role: string, pens: seq<string>): (books: seq<Row>)
    ensures forall i :: 0 <= i < |books| ==> Get(books[i], "Author") == Text(name) && Get(books[i], "Role") == Text(role)
    decreases |pens|
  {
    if |pens| == 0 then [] else BooksUnder(web, name, role, pens[0]) + BooksUnderAll(web, name, role, pens[1..])
  }

  /** The names are searched in order: the books of a split list are those of each part, in turn. */
  lemma {:induction false} BooksUnderAllAppend(web: Web, name: string, role: string, p1: seq<string>, p2: seq<string>)
    ensures BooksUnderAll(web, name, role, p1 + p2) == BooksUnderAll(web, name, role, p1) + BooksUnderAll(web, name, role, p2)
    decreases |p1|
  {
    if |p1| == 0 {
      assert p1 + p2 == p2;
    } else {
      assert (p1 + p2)[0] == p1[0];
      assert (p1 + p2)[1..] == p1[1..] + p2;
      BooksUnderAllAppend(web, name, role, p1[1..], p2);
    }
  }

  /** Every book found under one of the names is among the books of all of them. */
  lemma {:induction false} BooksUnderAllHas(web: Web, name: string, role: string, pens: seq<string>, k: nat, b: Row)
    requires k < |pens| && b in BooksUnder(web, name, role, pens[k])
    ensures b in BooksUnderAll(web, name, role, pens)
    decreases k
  {
    if k > 0 {
      assert pens[1..][k - 1] == pens[k];
      BooksUnderAllHas(web, name, role, pens[1..], k - 1, b);
    }
  }

  /** The author column of the stored backlist: the names already scraped. */
  predicate AlreadyScraped(store: seq<Row>, name: string) {
    exists i :: 0 <= i < |store| && Get(store[i], "Author") == Text(name)
  }

  /** The new books of one roster row. */
  function RowBooks(web: Web, store: seq<Row>, row: Row): (books: seq<Row>)
    ensures CanonicalName(row).None? ==> books == []
    ensures CanonicalName(row).Some? && AlreadyScraped(store, CanonicalName(row).value) ==> books == []
    ensures CanonicalName(row).Some? && !AlreadyScraped(store, CanonicalName(row).value) ==>
      var name := CanonicalName(row).value;
      books == BooksUnderAll(web, name, RoleOf(row), NamesToScrape(name, row))
    ensures forall i :: 0 <= i < |books| ==>
      CanonicalName(row).Some? && Get(books[i], "Author") == Text(CanonicalName(row).value) && Get(books[i], "Role") == Text(RoleOf(row))
  {
    match CanonicalName(row)
    case None => []
    case Some(name) =>
      if AlreadyScraped(store, name) then []
      else BooksUnderAll(web, name, RoleOf(row), NamesToScrape(name, row))
  }

  /** A new book's author: a non-blank name the stored backlist did not have. */
  predicate FreshAuthor(store: seq<Row>, book: Row) {
    && Get(book, "Author").Text?
    && !BlankName(Get(book, "Author").s)
    && !AlreadyScraped(store, Get(book, "Author").s)
  }

  /** The roster step of the fold. */
  function RowStep(web: Web, store: seq<Row>): Row -> seq<Row> {
    (row: Row) => RowBooks(web, store, row)
  }

  /** The new books of the whole roster, row by row. */
  function NewBooks(web: Web, store: seq<Row>, roster: seq<Row>): seq<Row> {
    ConcatMap(RowStep(web, store), roster)
  }

  /** Every new book is by an author the store did not have. */
  lemma NewBooksFresh(web: Web, store: seq<Row>, roster: seq<Row>)
    ensures forall b :: b in NewBooks(web, store, roster) ==> FreshAuthor(store, b)
  {
    forall b | b in NewBooks(web, store, roster)
      ensures FreshAuthor(store, b)
    {
      var j := ConcatMapFrom(RowStep(web, store), roster, b);
      var books := RowBooks(web, store, roster[j]);
      var i :| 0 <= i < |books| && books[i] == b;
    }
  }

  /** The fold distributes over a split roster: rows contribute in roster order. */
  lemma NewBooksConcat(web: Web, store: seq<Row>, r1: seq<Row>, r2: seq<Row>)
    ensures NewBooks(web, store, r1 + r2) == NewBooks(web, store, r1) + NewBooks(web, store, r2)
  {
    ConcatMapAppend(RowStep(web, store), r1, r2);
  }

  /** One run of the scrape phase: the stored rows, then the new ones. */
  function Run(web: Web, store: seq<Row>, roster: seq<Row>): (next: seq<Row>)
    ensures |store| <= |next| && next[..|store|] == store
    ensures next[|store|..] == NewBooks(web, store, roster)
    ensures forall i :: |store| <= i < |next| ==> FreshAuthor(store, next[i])
    ensures NewBooks(web, store, roster) == [] ==> next == store
  {
    NewBooksFresh(web, store, roster);
    store + NewBooks(web, store, roster)
  }

  /**
   * Every book scraped from the page found under any name of a roster row
   * whose author is new ends up, stamped, among the new rows of the store.
   */
  lemma FoundBookStored(web: Web, store: seq<Row>, roster: seq<Row>, j: nat, k: nat, i: nat)
    requires j < |roster| && CanonicalName(roster[j]).Some?
    requires !AlreadyScraped(store, CanonicalName(roster[j]).value)
    requires k < |NamesToScrape(CanonicalName(roster[j]).value, roster[j])|
    requires var pen := NamesToScrape(CanonicalName(roster[j]).value, roster[j])[k];
      web.search(pen).Some? && web.search(pen).value != "" && i < |web.scrape(web.search(pen).value)|
    ensures var name := CanonicalName(roster[j]).value;
      var pen := NamesToScrape(name, roster[j])[k];
      Stamp(web.scrape(web.search(pen).value)[i], name, RoleOf(roster[j]), pen) in Run(web, store, roster)[|store|..]
  {
    var name := CanonicalName(roster[j]).value;
    var pens := NamesToScrape(name, roster[j]);
    var pen := pens[k];
    var b := Stamp(web.scrape(web.search(pen).value)[i], name, RoleOf(roster[j]), pen);
    var under := BooksUnder(web, name, RoleOf(roster[j]), pen);
    assert under[i] == b;
    BooksUnderAllHas(web, name, RoleOf(roster[j]), pens, k, b);
    assert b in RowStep(web, store)(roster[j]);
    ConcatMapHas(RowStep(web, store), roster, j, b);
    assert Run(web, store, roster)[|store|..] == NewBooks(web, store, roster);
  }

  /** A row that brought books is skipped by every later run, whatever the web returns then. */
  lemma RescrapeSkipsDone(web: Web, later: Web, store: seq<Row>, roster: seq<Row>, j: nat)
    requires j < |roster| && RowBooks(web, store, roster[j]) != []
    ensures RowBooks(later, Run(web, store, roster), roster[j]) == []
  {
    var b := RowBooks(web, store, roster[j])[0];
    var name := CanonicalName(roster[j]).value;
    ConcatMapHas(RowStep(web, store), roster, j, b);
    var next := Run(web, store, roster);
    var k :| 0 <= k < |NewBooks(web, store, roster)| && NewBooks(web, store, roster)[k] == b;
    assert next[|store| + k] == b && Get(b, "Author") == Text(name);
    assert AlreadyScraped(next, name);
  }

  /** A found book keeps its own fields, and its pen name is blank exactly when it was found under the canonical name. */
  lemma StampPenName(book: Row, name: string, role: string, pen: string)
    requires pen != ""
    ensures Stamp(book, name, role, pen)["Pen Name"] == Text("") <==> pen == name
  {
  }
}
