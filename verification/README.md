# author_backlist in Dafny

A model of the deterministic core of the author-backlist scripts. These scripts read a roster of
convention authors and narrators, find their books on Goodreads, look up their web links, and build
an HTML dashboard and a spreadsheet workbook. The model keeps the pure rules these scripts are made of:

- parsing a Goodreads title into its title, series and series number;
- cleaning URLs and fields;
- the standalone/series label, the audiobook verdict and the published-date choice;
- the incremental scrape, as a fold over the roster;
- turning one Goodreads book row into a record;
- choosing and cleaning the author links, and the Verified flag;
- naming the workbook's tabs and laying out its book rows.

The web search, the page fetch and the file reads and writes are parameters or are left out.

Modules, one per file:

- `Optional`, `Cells`, `Strings`, `Search`, `Folds` hold the shared vocabulary:
  - an option type;
  - spreadsheet cell values, where Python's `None`, pandas' `NaN`, text and numbers are kept apart, because `str(None)` is "None" and `NaN` is truthy;
  - Python's `strip`, `split`, `lower` and `in` on strings;
  - the least position at which a matcher succeeds, which is how `re.match` and `re.search` choose a match;
  - a concatenating map over a sequence.
- `SeriesTitle` covers `parse_series_from_title`. Each of its three regular expressions is a hand-written matcher that reproduces the groups the backtracking engine picks: the lazy first group, no end anchor, and the fallback of `[^,]+` onto a space.
- `Dashboard` covers `clean_url`, `clean_field`, `html.escape` with its inverse, the standalone/series and audiobook labels, the published-date loop, and one book line of the dashboard.
- `Coordinator` covers the scrape phase of `full_pipeline.py`, as a fold over the roster with the Goodreads search and scrape as function parameters.
- `Goodreads` covers `scrape_goodreads_backlist.py` once the pages are fetched. A page is a sequence of book entries, each with an optional title text and an optional series text.
- `AuthorLinks` covers `fetch_author_links.py`. The search engine is a function from a query to its result links.
- `Workbook` covers the tab names, the author list and the book rows of `excel_backlist_builder.py`.

## Model

| member | source | states |
|---|---|---|
| SeriesTitle.ParseSeries | full_pipeline.py:123-168 | a missing, empty or NaN title gives three empty parts; every part returned is stripped |
| SeriesTitle.FirstMatch | full_pipeline.py:137-138 | a pattern match ends its lazy first group at or before the first newline, and the rest of the pattern matches from that point |
| SeriesTitle.NoParenNoMatch | full_pipeline.py:137-156 | none of the three patterns matches a title without "(" |
| SeriesTitle.ParseSeriesWithoutParen | full_pipeline.py:131-168 | a title without "(" comes back stripped, with empty series and order |
| SeriesTitle.ParseSeriesOrderIsNumber | full_pipeline.py:136-165 | the order is always empty or a non-empty run of decimal digits |
| SeriesTitle.CommaTail | full_pipeline.py:137 | what pattern 1 captures as the series has no comma, and the order is a non-empty digit run |
| SeriesTitle.MatchAtParen | full_pipeline.py:137-156 | when a title has a single "(" after its text, each pattern matches exactly when its tail matches at that parenthesis, and group 1 ends there |
| SeriesTitle.ParseFirstPattern | full_pipeline.py:136-143 | when pattern 1 matches, the result is the stripped text before the parenthesis and its stripped groups, whatever patterns 2 and 3 would give |
| SeriesTitle.ParseCommaNumbered | full_pipeline.py:136-143 | "Title (Series, #n)" is read back as exactly (Title, Series, n), for a series without "," or "(" |
| SeriesTitle.NumberedNotCommaNumbered | full_pipeline.py:137-139 | pattern 1 does not match "Title (Series #n)" unless the series ends in a comma: after a comma inside the series comes more of the series, not "#" or "Book digits)", so the chain goes on to pattern 2 |
| SeriesTitle.ParseSecondPattern | full_pipeline.py:145-152 | when pattern 1 fails and pattern 2 matches, the result is the stripped text before the parenthesis and pattern 2's stripped groups |
| SeriesTitle.ParseNumbered | full_pipeline.py:137-152 | "Title (Series #n)" is read back as exactly (Title, Series, n); the series may hold commas, but not as its last character, and holds no "(", ")" or "#" |
| SeriesTitle.ParseNumberedWithComma | full_pipeline.py:137-152 | "Emma (Bath, Kent #2)" is read by pattern 2 as the series "Bath, Kent" numbered 2 |
| SeriesTitle.BareNotNumbered | full_pipeline.py:137-152 | patterns 1 and 2 do not match "Title (Name)" when the name has no "#" and no "book" in any letter case; digits and commas in the name do not matter |
| SeriesTitle.ParseThirdPattern | full_pipeline.py:154-165 | when patterns 1 and 2 fail and pattern 3 matches, the result is the stripped text before the parenthesis, the stripped group and the keyword rule's order |
| SeriesTitle.FromBare | full_pipeline.py:157-165 | a bare parenthetical gives the order "1" or "" and nothing else |
| SeriesTitle.ParseBare | full_pipeline.py:154-165 | "Title (Name)" gives (Title, Name, "1") when Name contains series, saga, chronicles, trilogy or duology in any letter case, else (Title, Name, ""); Name may hold digits and commas but no parenthesis, "#" or "book" |
| SeriesTitle.ParseBareWithDigit | full_pipeline.py:154-165 | "Dune (Saga 2)" is read as the series "Saga 2" numbered 1: a digit without "#" or "Book" does not make it a numbered title |
| SeriesTitle.ParseBareWithComma | full_pipeline.py:137-165 | "Emma (Saga, Bath)" is read as the series "Saga, Bath" numbered 1: a comma without "#" or "Book" after it does not make pattern 1 match |
| Dashboard.Escape | full_pipeline.py:121 | the escaped text holds none of `< > " '` and is never shorter than the input |
| Dashboard.UnescapeEscape | full_pipeline.py:121 | escaping loses nothing: reading the entities back gives the original text |
| Dashboard.EscapePlain | full_pipeline.py:688 | text without `& < > " '` is unchanged by escaping |
| Dashboard.EscapeStripped | full_pipeline.py:121 | escaping a stripped text leaves it stripped |
| Dashboard.CleanUrl | full_pipeline.py:105-114 | None exactly for a falsy, NaN or blank value; otherwise the stripped input itself when it begins with http:// or https://, and the stripped input behind "https://" when it does not |
| Dashboard.CleanUrlBlank | full_pipeline.py:107-108 | a value of only whitespace has no URL |
| Dashboard.CleanUrlKeepsScheme | full_pipeline.py:110-112 | a URL that already has its scheme is only stripped |
| Dashboard.CleanUrlLink | full_pipeline.py:105-114 | a stripped URL that already names its scheme is its own cleaning |
| Dashboard.CleanUrlIdempotent | full_pipeline.py:105-114 | cleaning a cleaned URL gives it back unchanged |
| Dashboard.CleanField | full_pipeline.py:118-121 | "" exactly for NaN, None or a value that strips to "", "nan" or "None"; otherwise a stripped text whose unescaping is the stripped value |
| Dashboard.KindOf | full_pipeline.py:183-188 | the label is Series exactly when the series name strips to something non-empty and is not "nan" in any letter case |
| Dashboard.KindOfStripped | full_pipeline.py:183-188 | on a stripped series name the label is Series exactly when the name is neither "" nor "nan" |
| Dashboard.KindOfBlank | full_pipeline.py:185-188 | a series name of only whitespace is a Standalone |
| Dashboard.AudiobookStatus | full_pipeline.py:190-203 | Yes exactly for the role "narrator" in any case; Maybe exactly for a non-narrator whose non-empty record lists an Audible page that is not blank, "nan" or "none"; No otherwise |
| Dashboard.NarratorAlwaysYes | full_pipeline.py:193-194 | a narrator's verdict is Yes whatever the author record holds |
| Dashboard.PlaceholderAudibleIsNo | full_pipeline.py:197-203 | a None, NaN, blank, "nan" or "none" Audible page gives a non-narrator No |
| Dashboard.FirstYear | full_pipeline.py:732 | a found year group is four digits with no word character on either side, and its value is the text at that position |
| Dashboard.YearString | full_pipeline.py:723 | `str(year)` of a year in 1900..2030 is four digits that read back as the year |
| Dashboard.YearVerdict | full_pipeline.py:722-724 | a year decides the date exactly when it is in 1900..2030, and the date it gives is four digits that read back as the year |
| Dashboard.TextVerdict | full_pipeline.py:729-744 | a text column decides only with a date that is a year in range or a non-empty text without a year group |
| Dashboard.DateVerdict | full_pipeline.py:705-744 | whatever a column decides is a year in range or a non-empty text without a year group |
| Dashboard.PublishedDate | full_pipeline.py:699-744 | the shown date is "" or a year in range or a non-empty text without a year group |
| Dashboard.PublishedDateAt | full_pipeline.py:705-744 | the columns are tried in their fixed order and the first that decides gives the date |
| Dashboard.PublishedDateEmpty | full_pipeline.py:699-744 | the date is "" exactly when every candidate column is passed over |
| Dashboard.NumberYear | full_pipeline.py:714-724 | a number whose integer part is in 1900..2030 gives that year as four digits |
| Dashboard.NumberOutOfRange | full_pipeline.py:720-726 | a number whose integer part is out of range moves the loop to the next column |
| Dashboard.TextColumn | full_pipeline.py:727-730 | a text column is judged on its `clean_field` value |
| Dashboard.TextWithoutYear | full_pipeline.py:741-744 | a non-empty text without any four-digit group is the date as it stands |
| Dashboard.TextFirstYear | full_pipeline.py:732-740 | only the leftmost year group counts: in range it is the date, out of range the column is passed over |
| Dashboard.Prefer | full_pipeline.py:690-696 | the existing value is kept when present, and the parsed one is used only when the existing one is empty |
| Dashboard.DisplayBook | full_pipeline.py:684-760 | the title is the escaped title left after removing the series part, or the cleaned raw title when nothing is left; a non-blank Series Title or Series Order cell is shown whatever the title says, and a blank one is replaced by what the title parses to; the label is Series exactly when the shown series is neither "" nor "nan"; the date is the published-date rule's and is blank or shaped like a date; formats are the cleaned Formats Available cell and the audiobook mark is the author's; the pen name is shown unless it equals the person's name ignoring letter case, and is then blank |
| Dashboard.DisplayParsedSeries | full_pipeline.py:684-696 | a book with no series columns titled "Title (Series, #n)" shows Title, Series and n, labelled Series |
| Coordinator.ScrapeNameAsWritten | full_pipeline.py:55 | as written, the name read is stripped; a missing column gives "", a text cell gives that text stripped, and an empty cell (None) gives "None" |
| Coordinator.BlankAuthorScrapedAsNone | full_pipeline.py:55-56 | as written, an empty roster name reads as "None", which is not treated as blank |
| Coordinator.RoleAsWritten | full_pipeline.py:63 | as written, the role is stripped and never blank; a missing column gives "Author", but an empty cell (None) gives "None" |
| Coordinator.BlankRoleIsNone | full_pipeline.py:63 | as written, an empty role cell becomes the role "None" rather than "Author" |
| Coordinator.CanonicalName | full_pipeline.py:55-58 | a name is given only for a stripped, non-blank, non-"nan" cell, and it is the text the source reads; an empty cell gives none |
| Coordinator.CanonicalNameAgrees | full_pipeline.py:55-56 | on a present cell the corrected reading skips exactly the rows the written one skips |
| Coordinator.RoleOf | full_pipeline.py:63 | the role is never blank; an empty cell gives "Author", and a present cell gives what the source reads |
| Coordinator.NonBlank | full_pipeline.py:67 | the kept pen names are stripped and non-empty; every piece that is not blank is kept in stripped form, and every kept name is a stripped piece |
| Coordinator.NonBlankOne | full_pipeline.py:67 | a single piece is kept, stripped, exactly when it is not blank |
| Coordinator.NonBlankAppend | full_pipeline.py:67 | the comprehension keeps order: the names of two runs of pieces are those of the first run followed by those of the second |
| Coordinator.NonBlankKeeps | full_pipeline.py:67 | pieces that are already stripped and non-empty are all kept, in order |
| Coordinator.PenNames | full_pipeline.py:64-67 | every pen name is stripped, non-empty and free of commas |
| Coordinator.PenNamesOfList | full_pipeline.py:64-67 | a comma-joined list of clean names is read back as the same list |
| Coordinator.NonBlankStrips | full_pipeline.py:67 | pieces that each strip to a non-empty name give exactly those names, in order |
| Coordinator.PenNamesPadded | full_pipeline.py:64-67 | comma-separated names with whitespace around them are read back as the bare names, in order |
| Coordinator.PenNamesTwo | full_pipeline.py:64-67 | "A, B" gives the pen names A and B |
| Coordinator.NamesToScrape | full_pipeline.py:69 | the canonical name comes first, followed by the pen names |
| Coordinator.Stamp | full_pipeline.py:83-86 | a stamped book gains exactly the Author, Pen Name and Role fields, with the given values, and keeps every other field |
| Coordinator.StampPenName | full_pipeline.py:85 | the pen name is blank exactly when the book was found under the canonical name |
| Coordinator.BooksUnder | full_pipeline.py:78-87 | a search that finds no page, or an empty link, adds no books; otherwise every book scraped from the page is kept, in page order, stamped with the canonical author, the role and that name's pen name |
| Coordinator.BooksUnderAll | full_pipeline.py:78-87 | every book found under any of the names carries the canonical author and the role |
| Coordinator.BooksUnderAllAppend | full_pipeline.py:78-87 | the names are searched in order: the books of a split list of names are those of the first part followed by those of the second |
| Coordinator.BooksUnderAllHas | full_pipeline.py:78-87 | every book found under one of the names is among the row's books |
| Coordinator.RowBooks | full_pipeline.py:54-87 | a blank row and a row whose author is already stored add no books; any other row adds the books found under its canonical name and then under each pen name, carrying the row's author and role |
| Coordinator.FoundBookStored | full_pipeline.py:53-96 | every book on the page found under any name of a roster row with a new author is, stamped, among the new rows of the saved store |
| Coordinator.NewBooksFresh | full_pipeline.py:53-89 | every new book is by a non-blank author the store did not have |
| Coordinator.NewBooksConcat | full_pipeline.py:53-89 | the roster rows contribute their books in roster order |
| Coordinator.Run | full_pipeline.py:91-96 | the new store begins with the old store unchanged and continues with books by fresh authors only; with no new books it is the old store; the part after the old store is exactly the books the roster rows bring |
| Coordinator.RescrapeSkipsDone | full_pipeline.py:43-61 | a row that brought books adds nothing on a later run, whatever the web returns then |
| Goodreads.SearchUrl | scrape_goodreads_backlist.py:15 | the URL is the fixed prefix, the name with each space replaced by "+", and the fixed suffix |
| Goodreads.SearchUrlHasNoSpace | scrape_goodreads_backlist.py:15 | the search URL holds no space |
| Goodreads.AbsoluteLink | scrape_goodreads_backlist.py:22-23 | a site-relative href starting with "/" gets "https://www.goodreads.com" in front; any other href is kept as it is; either way the link ends with the href and never starts with "/" |
| Goodreads.AbsoluteLinkIdempotent | scrape_goodreads_backlist.py:22-24 | making an absolute link absolute again changes nothing |
| Goodreads.SearchAuthor | scrape_goodreads_backlist.py:19-27 | an author page is found exactly when the results page has an author link |
| Goodreads.SplitAtLastParen | scrape_goodreads_backlist.py:43-46 | both halves are stripped, and the order holds no "(", ")" or "#" |
| Goodreads.SplitSeries | scrape_goodreads_backlist.py:41-49 | no series text, or one without "(", gives an empty title and order; the halves are always stripped, and the order is free of "(", ")" and "#" |
| Goodreads.SplitAtParen | scrape_goodreads_backlist.py:44-46 | the split is at the last "(": the title is the stripped text before it, and the order is the text after it with ")" and "#" removed, stripped |
| Goodreads.TitleOf | scrape_goodreads_backlist.py:38-39 | a missing title element gives "Unknown Title"; otherwise the title is the stripped text |
| Goodreads.ToRecord | scrape_goodreads_backlist.py:51-61 | a record has exactly the five columns, the blank date and the default formats, whatever the page says |
| Goodreads.ScrapeBooks | scrape_goodreads_backlist.py:36-63 | one record per book row, in page order |
| AuthorLinks.SearchUrl | fetch_author_links.py:15 | the URL is the fixed prefix followed by the query, with each space replaced by "+" |
| AuthorLinks.Query | fetch_author_links.py:47-51 | the query is the author's name, a space and "official site", "Amazon author" or "Goodreads author" for the Website, Amazon and Goodreads columns |
| AuthorLinks.FirstWhere | fetch_author_links.py:21-25 | the result is "" or a candidate that passes the test |
| AuthorLinks.FirstWhereAt | fetch_author_links.py:21-24 | the first passing candidate is the result |
| AuthorLinks.FirstWhereNone | fetch_author_links.py:21-25 | among non-empty candidates, "" comes back exactly when none passes |
| AuthorLinks.FirstWhereEmpty | fetch_author_links.py:25 | when no candidate passes, the result is "" |
| AuthorLinks.FindBestMatch | fetch_author_links.py:21-25 | the match is "" or a link that contains the domain |
| AuthorLinks.FindBestMatchFirst | fetch_author_links.py:21-24 | the first link containing the domain is the match |
| AuthorLinks.FindBestMatchNone | fetch_author_links.py:25 | with no link containing the domain the match is "" |
| AuthorLinks.Choose | fetch_author_links.py:56-62 | the chosen link is "" or one of the results; for Website it is on none of the excluded sites, for Amazon it contains "amazon.com" and for Goodreads "goodreads.com" |
| AuthorLinks.WebsiteChoice | fetch_author_links.py:59 | the Website is "" or a result on none of the excluded sites |
| AuthorLinks.WebsiteChoiceFirst | fetch_author_links.py:59 | the first result on none of the excluded sites is the Website |
| AuthorLinks.WebsiteChoiceNone | fetch_author_links.py:59 | when every result is on an excluded site the Website is "" |
| AuthorLinks.CleanLink | fetch_author_links.py:27-28 | the cleaned link is no longer than the input and holds no "?" or "#" |
| AuthorLinks.CleanLinkOneLine | fetch_author_links.py:28 | on a one-line link, the result is the input up to its first "?" or "#" |
| AuthorLinks.CleanLinkPlain | fetch_author_links.py:28 | a link without "?" and "#" is unchanged |
| AuthorLinks.CleanLinkIdempotent | fetch_author_links.py:27-28 | cleaning twice is cleaning once |
| AuthorLinks.SearchRow | fetch_author_links.py:53-64 | each column's link is the cleaned choice from the results of that column's own query |
| AuthorLinks.Override | fetch_author_links.py:67-69 | a non-empty found link replaces the stored value; an empty one keeps it |
| AuthorLinks.WriteLinks | fetch_author_links.py:67-69 | each link column follows the override rule, and every other column is unchanged |
| AuthorLinks.AllLinkedAsWritten | fetch_author_links.py:72-73 | as written, the truthiness test accepts every row whose three links are non-empty text, agrees with the corrected test on present cells, and also accepts three empty (NaN) cells |
| AuthorLinks.NaNLinksVerifiedAsWritten | fetch_author_links.py:72-73 | as written, a row whose link cells are all empty (NaN) passes the Verified test with no link at all |
| AuthorLinks.UpdateRow | fetch_author_links.py:39-73 | a verified row is left untouched; any other row is marked "Yes" when all three columns hold a link, and otherwise keeps its flag |
| AuthorLinks.VerifiedStays | fetch_author_links.py:40-41 | a verified row stays verified and keeps its links |
| AuthorLinks.VerifiedWhenLinked | fetch_author_links.py:72-73 | after the update a row is verified exactly when it was verified already or all three columns hold a link |
| AuthorLinks.UpdateRowWrites | fetch_author_links.py:53-69 | for an unverified row, each link column ends up holding the cleaned link chosen from its own search when that is non-empty, and its stored value otherwise |
| AuthorLinks.UpdateRowKeeps | fetch_author_links.py:39-73 | an update changes no column other than the three links and the Verified flag |
| AuthorLinks.StoredLinkKept | fetch_author_links.py:67-69 | a stored link survives a search that finds nothing for its column |
| AuthorLinks.WithDefaults | fetch_author_links.py:34-37 | existing columns are kept as they are; a missing link column is added holding "" and a missing Verified column holding "No"; no other column is added |
| AuthorLinks.UpdateAll | fetch_author_links.py:39-76 | every roster row is updated on its own, in order, with its default columns |
| Workbook.Sanitise | excel_backlist_builder.py:44 | the cleaned name is no longer than the input and holds no forbidden character; every other character is kept |
| Workbook.SanitiseClean | excel_backlist_builder.py:44 | a name without forbidden characters is left unchanged |
| Workbook.SanitiseOne | excel_backlist_builder.py:44 | a single forbidden character is removed and any other single character kept |
| Workbook.SanitiseAppend | excel_backlist_builder.py:44 | the cleaning works character by character and keeps order: cleaning a concatenation concatenates the cleaned parts |
| Workbook.Shorten | excel_backlist_builder.py:45 | a name of at most 31 characters is kept; a longer one becomes its first 28 characters followed by "...", 31 in all |
| Workbook.SlashSurvivesAsWritten | excel_backlist_builder.py:44-46 | as written, "AC/DC" keeps its "/" in the tab name |
| Workbook.TabName | excel_backlist_builder.py:44-45 | the tab name has at most 31 characters and no forbidden character, and it is the cleaned name whenever that fits |
| Workbook.TabNameAsWritten | excel_backlist_builder.py:44-45 | as written, the tab name is the raw author name, shortened to its first 28 characters and "..." when longer than 31; nothing forbidden is removed |
| Workbook.TabNameAgrees | excel_backlist_builder.py:44-45 | for a name without forbidden characters the corrected tab name is the one the source writes |
| Workbook.DistinctAuthors | excel_backlist_builder.py:41 | the non-null authors are listed once each, in order of first appearance, and none is missed |
| Workbook.DateColumnHoldsDate | excel_backlist_builder.py:78-90 | the column that gets the date format sits under the "Published Date" header and, in every book row, holds that book's published date |
| Workbook.BookRow | excel_backlist_builder.py:79-82 | a book row has one cell per header: the five book values, then blanks |
| Workbook.BookRows | excel_backlist_builder.py:78-88 | book rows are numbered from 8 in data order, and exactly the odd-numbered ones are shaded |
| Workbook.BooksOf | excel_backlist_builder.py:43 | only the author's own rows are selected |
| Workbook.BooksOfOne | excel_backlist_builder.py:43 | a single row is kept exactly when its Author is the author |
| Workbook.BooksOfAppend | excel_backlist_builder.py:43 | selecting from two tables one after the other gives the two selections one after the other, so table order and repeated rows are kept |
| Workbook.BooksOfComplete | excel_backlist_builder.py:43 | a table row is selected exactly when it is the author's |
| Workbook.SheetOf | excel_backlist_builder.py:42-90 | an author's sheet is titled with the corrected tab name (the cleaned, shortened name; line 45 writes the raw name, see Findings) and has one row per book of the author: sheet row 8 + b holds the b-th book's values followed by blank cells, and is shaded gray exactly when its row number is odd |
| Workbook.SheetsFor | excel_backlist_builder.py:42-90 | there is one sheet per author, in order, each titled with the corrected tab name and holding, from row 8 on, the values of that author's books in table order, shaded on odd rows |
| Workbook.BuildSheets | excel_backlist_builder.py:40-46 | there is one sheet per distinct non-null author, each author listed once and none missed, in the order of the row each first appears at; every sheet is titled with its author's corrected tab name, at most 31 characters, and holds, from row 8 on, the values of that author's books in table order, shaded on odd rows |

## Left out

- The network: the Goodreads and DuckDuckGo fetches, `raise_for_status`, and `time.sleep`. Searches and page scrapes are function parameters.
- HTML parsing with BeautifulSoup. A Goodreads page is its sequence of book entries, and a results page is its first author href or its result links.
- Reading and writing the spreadsheets and CSV files, the openpyxl styling, the merged "Connect with" block, the workbook's Dashboard sheet, and its footer.
- The HTML/CSS/JavaScript dashboard template and `format_yes_no_maybe`'s HTML spans. The audiobook verdict is an enum.
- The lookup of the author's roster record (`author_row`, full_pipeline.py:72-76). The record is passed to `AudiobookStatus`, with an empty map for `None`.
- `entries_to_scrape` (full_pipeline.py:50-51). It is computed only to be printed.
- Python's `lower()`, `\d`, `\w` and `\s`: only ASCII letters are lower-cased and only ASCII digits and word characters are recognised. Whitespace is the `str.isspace` set, without the rarer Unicode separators.
- Printing floats: a number cell carries its `str()` text alongside its value.
- Date and timestamp cells that pandas may produce for the date columns. A date column holds None, NaN, a number or a text.
- The 4-argument call of the scraper at full_pipeline.py:82 against its 1-parameter definition. The scraper is a parameter.
- Columns filled with NaN by `pd.concat` when the stored and new rows have different columns.
- The `itertuples` positional fields of excel_backlist_builder.py:80-81. Which DataFrame columns land in the first five cells depends on the file's column order. The model puts the values under the five book headers there.
- Duplicate tab names from two authors that shorten to the same 31 characters, which openpyxl renames.
- SeriesTitle.ParseCommaNumbered: the round trip is proved for "(Series, #n)" only, and for a series without "(": the proof relies on the title holding a single "(". The matcher itself accepts such a series. The "(Series, Book n)" form and its other letter cases are handled by the same matcher but have no lemma of their own.
- SeriesTitle.ParseNumbered: the round trip is proved for "(Series #n)" only. The "(Series Book n)" form has no lemma of its own. A series ending in a comma is left out because pattern 1 takes that title first, reading it as "(Series, #n)". A series holding "(", ")" or "#" is left out too: the matcher handles it (pattern 2 reads "T (A(B #2)" as the series "A(B"), but the proof relies on a single "(" and on no order-like text inside the series.
- AuthorLinks.CleanLinkOneLine: the prefix property is stated for links without a newline. Across lines, each `?` or `#` removes only the rest of its own line, and `CleanLink` models that.

## Findings

| source | as written | input that shows it | evidently intended | confidence | as-written member | corrected member |
|---|---|---|---|---|---|---|
| full_pipeline.py:55-56 | `str(row.get("Author Name", "")).strip()` turns an empty roster cell (None from openpyxl) into "None", which passes the blank check | a roster row whose Author Name cell is empty | skip the row as missing | medium, not executed | Coordinator.BlankAuthorScrapedAsNone | Coordinator.CanonicalName |
| full_pipeline.py:63 | `str(row.get("Role", "")).strip() or "Author"` gives "None" for an empty role cell | a roster row whose Role cell is empty | the role defaults to "Author" | medium, not executed | Coordinator.BlankRoleIsNone | Coordinator.RoleOf |
| fetch_author_links.py:72-73 | `all(df.at[idx, col] ...)` tests truthiness, and the empty cells `read_csv` gives are NaN, which is truthy | a row with all three link cells empty and no links found | mark the row verified only when all three links are present | high, not executed | AuthorLinks.NaNLinksVerifiedAsWritten | AuthorLinks.UpdateRow |
| excel_backlist_builder.py:44-45 | the cleaned tab name of line 44 is overwritten by the raw author name on line 45 | the author "AC/DC" | shorten the cleaned name, so no forbidden character reaches the sheet title | high, not executed | Workbook.SlashSurvivesAsWritten | Workbook.TabName |
