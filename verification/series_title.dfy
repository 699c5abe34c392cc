/**
 * `parse_series_from_title` of the dashboard builder: splitting a Goodreads
 * title such as "Fix Her Up (Hot & Hammered, #1)" into the bare title, the
 * series name and the position in the series.
 *
 * The source tries three regular expressions, in order, with `re.match` and
 * `re.IGNORECASE`:
 *
 *   1. `^(.*?)\s*\(\s*([^,]+),\s*(?:#|Book\s*)(\d+)\s*\)`   "(Name, #3)"  "(Name, Book 3)"
 *   2. `^(.*?)\s*\(\s*([^#]+?)(?:\s*#|Book\s*)(\d+)\s*\)`   "(Name #3)"   "(Name Book 3)"
 *   3. `^(.*?)\s*\(\s*([^)]+)\s*\)`                          "(Name)"
 *
 * Each is modelled by a hand-written matcher that reproduces the
 * backtracking engine's choice of groups.  Group 1 is lazy, so the match
 * uses the least end position of group 1 from which the rest of the pattern
 * matches, and `.` never crosses a newline; nothing is anchored at the end.
 * Everything after group 1 is decided by the first `(` reached through the
 * `\s*`, and is computed by a `...Tail` function from that parenthesis.
 */
module SeriesTitle {
  import opened Strings
  import opened Optional
  import opened Cells
  import opened Search

  /** Groups 2 and 3 of a match; `order` is "" for pattern 3, which has no group 3. */
  datatype Groups = Groups(series: string, order: string)

  /** The three patterns, in the order the source tries them. */
  datatype Shape = CommaNumbered | Numbered | Bare

  /** The `(clean_title, series_name, series_order)` triple. */
  datatype SeriesInfo = SeriesInfo(cleanTitle: string, seriesName: string, seriesOrder: string)

  /** `Book` at `i`, in any letter case. */
  predicate BookAt(t: string, i: nat) {
    && i + 4 <= |t|
    && LowerChar(t[i]) == 'b' && LowerChar(t[i + 1]) == 'o'
    && LowerChar(t[i + 2]) == 'o' && LowerChar(t[i + 3]) == 'k'
  }

  /** `(\d+)\s*\)` at `b`: the digit run, when whitespace and `)` follow it. */
  function DigitsThenClose(t: string, b: nat): (o: Option<string>)
    requires b <= |t|
    ensures o.Some? ==> |o.value| >= 1 && AllDigits(o.value)
  {
    var d := SkipDigits(t, b);
    var e := SkipSpaces(t, d);
    if b < d && e < |t| && t[e] == ')' then
      assert forall k :: 0 <= k < d - b ==> t[b..d][k] == t[b + k];
      Some(t[b..d])
    else None
  }

  /** Pattern 1 after the comma and its spaces: `(?:#|Book\s*)(\d+)\s*\)` at `q`. */
  function HashOrBookNumber(t: string, q: nat): (o: Option<string>)
    requires q <= |t|
    ensures o.Some? ==> |o.value| >= 1 && AllDigits(o.value)
  {
    var viaHash := if q < |t| && t[q] == '#' then DigitsThenClose(t, q + 1) else None;
    if viaHash.Some? then viaHash
    else if BookAt(t, q) then DigitsThenClose(t, SkipSpaces(t, q + 4))
    else None
  }

  /** Pattern 2 after its series group: `(?:\s*#|Book\s*)(\d+)\s*\)` at `e`. */
  function SpacedHashOrBookNumber(t: string, e: nat): (o: Option<string>)
    requires e <= |t|
    ensures o.Some? ==> |o.value| >= 1 && AllDigits(o.value)
  {
    var viaHash := SpacedHash(t, e);
    if viaHash.Some? then viaHash
    else if BookAt(t, e) then DigitsThenClose(t, SkipSpaces(t, e + 4))
    else None
  }

  /** `\s*#(\d+)\s*\)` at `e`, one leading space at a time. */
  function SpacedHash(t: string, e: nat): (o: Option<string>)
    requires e <= |t|
    ensures o.Some? ==> |o.value| >= 1 && AllDigits(o.value)
    decreases |t| - e
  {
    if e < |t| && IsSpace(t[e]) then SpacedHash(t, e + 1)
    else if e < |t| && t[e] == '#' then DigitsThenClose(t, e + 1)
    else None
  }

  /** `SpacedHash` reads past the whole whitespace run before it looks for `#`. */
  lemma {:induction false} SpacedHashSkips(t: string, e: nat)
    requires e <= |t|
    ensures SpacedHash(t, e) == SpacedHash(t, SkipSpaces(t, e))
    decreases |t| - e
  {
    if e < |t| && IsSpace(t[e]) {
      SpacedHashSkips(t, e + 1);
    }
  }

  /** Pattern 1 from the `(` at `p`: `\s*([^,]+),\s*(?:#|Book\s*)(\d+)\s*\)`. */
  function CommaTail(t: string, p: nat): (g: Option<Groups>)
    requires p < |t| && t[p] == '('
    ensures g.Some? ==> ',' !in g.value.series && |g.value.order| >= 1 && AllDigits(g.value.order)
  {
    var s0 := SkipSpaces(t, p + 1);
    var c := Find(t, s0, ',');
    if c == |t| || c == p + 1 then None
    else CommaOrder(t, s0, c)
  }

  /**
   * Pattern 1 from its comma at `c`, the series group starting at `s0`.
   * `[^,]+` runs to the first comma; when `\s*` has eaten everything before
   * it, backtracking gives the group the last space instead.
   */
  function CommaOrder(t: string, s0: nat, c: nat): (g: Option<Groups>)
    requires 0 < c < |t| && s0 <= c
    requires forall k :: s0 <= k < c ==> t[k] != ','
    requires s0 < c || IsSpace(t[c - 1])
    ensures g.Some? ==> ',' !in g.value.series && |g.value.order| >= 1 && AllDigits(g.value.order)
  {
    match HashOrBookNumber(t, SkipSpaces(t, c + 1))
    case None => None
    case Some(d) =>
      var lo := if s0 < c then s0 else c - 1;
      NotInSlice(t, lo, c, ',');
      Some(Groups(t[lo..c], d))
  }

  /** Pattern 2's order part tried at every position: the series group may end at `j`. */
  function OrderFrom(t: string): nat -> Option<string> {
    (j: nat) => if j <= |t| then SpacedHashOrBookNumber(t, j) else None
  }

  /** The lazy `([^#]+?)` of pattern 2: the least end in `[e, h]` after which the order follows. */
  function LazySeriesEnd(t: string, e: nat, h: nat): (r: Option<Found<string>>)
    requires h <= |t|
    ensures r.Some? ==> e <= r.value.at <= h && SpacedHashOrBookNumber(t, r.value.at) == Some(r.value.value)
  {
    Least(OrderFrom(t), e, h)
  }

  /** Pattern 2 from the `(` at `p`: `\s*([^#]+?)(?:\s*#|Book\s*)(\d+)\s*\)`. */
  function NumberedTail(t: string, p: nat): (g: Option<Groups>)
    requires p < |t| && t[p] == '('
    ensures g.Some? ==> '#' !in g.value.series && |g.value.order| >= 1 && AllDigits(g.value.order)
  {
    var s0 := SkipSpaces(t, p + 1);
    var h := Find(t, s0, '#');
    match LazySeriesEnd(t, s0 + 1, h)
    case Some(m) =>
      NotInSlice(t, s0, m.at, '#');
      Some(Groups(t[s0..m.at], m.value))
    case None =>
      // Every end failed with `\s*` greedy; giving back one space lets the
      // group be that space and the alternation start right at `s0`.
      if s0 > p + 1 then
        match SpacedHashOrBookNumber(t, s0)
        case Some(d) =>
          assert IsSpace(t[s0 - 1]);
          NotInSlice(t, s0 - 1, s0, '#');
          Some(Groups(t[s0 - 1..s0], d))
        case None => None
      else None
  }

  /** Pattern 3 from the `(` at `p`: `\s*([^)]+)\s*\)`. */
  function BareTail(t: string, p: nat): (g: Option<Groups>)
    requires p < |t| && t[p] == '('
    ensures g.Some? ==> ')' !in g.value.series && g.value.order == ""
  {
    var s0 := SkipSpaces(t, p + 1);
    var r := Find(t, s0, ')');
    if r == |t| || r == p + 1 then None
    else
      var lo := if s0 < r then s0 else r - 1;
      assert IsSpace(t[r - 1]) || r - 1 >= s0;
      NotInSlice(t, lo, r, ')');
      Some(Groups(t[lo..r], ""))
  }

  /** Everything after group 1, with group 1 ending at `k`: `\s*\(` and then the pattern's tail. */
  function RestAt(shape: Shape, t: string, k: nat): (g: Option<Groups>)
    requires k <= |t|
    ensures g.Some? ==> SkipSpaces(t, k) < |t| && t[SkipSpaces(t, k)] == '('
    ensures g.Some? && shape != Bare ==> |g.value.order| >= 1 && AllDigits(g.value.order)
  {
    var p := SkipSpaces(t, k);
    if p < |t| && t[p] == '(' then
      match shape
      case CommaNumbered => CommaTail(t, p)
      case Numbered => NumberedTail(t, p)
      case Bare => BareTail(t, p)
    else None
  }

  /** Everything after group 1 tried at every position: group 1 may end at `k`. */
  function RestFrom(shape: Shape, t: string): nat -> Option<Groups> {
    (k: nat) => if k <= |t| then RestAt(shape, t, k) else None
  }

  /**
   * `re.match` of the pattern: the least end of group 1 from which the rest
   * matches.  Since `.` does not match a newline, group 1 cannot run past the
   * first one.
   */
  function FirstMatch(shape: Shape, t: string): (m: Option<Found<Groups>>)
    ensures m.Some? ==> m.value.at <= Find(t, 0, '\n') && RestAt(shape, t, m.value.at) == Some(m.value.value)
  {
    Least(RestFrom(shape, t), 0, Find(t, 0, '\n'))
  }

  /** Without a `(` no pattern matches. */
  lemma NoParenNoMatch(shape: Shape, t: string)
    requires '(' !in t
    ensures FirstMatch(shape, t).None?
  {
    var m := FirstMatch(shape, t);
    if m.Some? {
      assert false;
    }
  }

  const SeriesKeywords: seq<string> := ["series", "saga", "chronicles", "trilogy", "duology"]

  /** Whether a bare parenthetical reads as a series name. */
  predicate HasSeriesKeyword(name: string) {
    exists i :: 0 <= i < |SeriesKeywords| && Contains(Lower(name), SeriesKeywords[i])
  }

  /** `parse_series_from_title(title_text)`. */
  function ParseSeries(title: Cell): (r: SeriesInfo)
    ensures !Truthy(title) || IsNa(title) ==> r == SeriesInfo("", "", "")
    ensures Stripped(r.cleanTitle) && Stripped(r.seriesName) && Stripped(r.seriesOrder)
  {
    if !Truthy(title) || IsNa(title) then SeriesInfo("", "", "")
    else ParseStripped(Strip(Str(title)))
  }

  /** The pattern chain on the stripped title `t`: the first pattern that matches decides. */
  function ParseStripped(t: string): (r: SeriesInfo)
    requires Stripped(t)
    ensures Stripped(r.cleanTitle) && Stripped(r.seriesName) && Stripped(r.seriesOrder)
  {
    match FirstMatch(CommaNumbered, t)
    case Some(m) => FromNumbered(t, m)
    case None =>
      match FirstMatch(Numbered, t)
      case Some(m) => FromNumbered(t, m)
      case None =>
        match FirstMatch(Bare, t)
        case Some(m) => FromBare(t, m)
        case None => SeriesInfo(t, "", "")
  }

  /** A pattern-3 match: order "1" exactly when the parenthetical names a series. */
  function FromBare(t: string, m: Found<Groups>): (r: SeriesInfo)
    requires m.at <= |t|
    ensures Stripped(r.cleanTitle) && Stripped(r.seriesName)
    ensures r.seriesOrder == "1" || r.seriesOrder == ""
  {
    var name := Strip(m.value.series);
    SeriesInfo(Strip(t[..m.at]), name, if HasSeriesKeyword(name) then "1" else "")
  }

  /** A title without a `(` matches no pattern: it comes back stripped, with no series and no order. */
  lemma ParseSeriesWithoutParen(title: Cell)
    requires Truthy(title) && !IsNa(title) && '(' !in Strip(Str(title))
    ensures ParseSeries(title) == SeriesInfo(Strip(Str(title)), "", "")
  {
    var t := Strip(Str(title));
    NoParenNoMatch(CommaNumbered, t);
    NoParenNoMatch(Numbered, t);
    NoParenNoMatch(Bare, t);
  }

  lemma DigitsStripped(s: string)
    requires AllDigits(s)
    ensures Strip(s) == s
  {
    if |s| > 0 {
      assert IsDigit(s[0]) && IsDigit(s[|s| - 1]);
    }
    StrippedFixed(s);
  }

  /** The stripped groups of a pattern-1 or pattern-2 match. */
  function FromNumbered(t: string, m: Found<Groups>): (r: SeriesInfo)
    requires m.at <= |t|
    ensures Stripped(r.cleanTitle) && Stripped(r.seriesName) && Stripped(r.seriesOrder)
  {
    SeriesInfo(Strip(t[..m.at]), Strip(m.value.series), Strip(m.value.order))
  }

  /** The series order is empty or a decimal numeral: `"1"` for a named series, else the digits the title carried. */
  lemma ParseSeriesOrderIsNumber(title: Cell)
    ensures var o := ParseSeries(title).seriesOrder; o == "" || (|o| >= 1 && AllDigits(o))
  {
    if Truthy(title) && !IsNa(title) {
      var t := Strip(Str(title));
      match FirstMatch(CommaNumbered, t)
      case Some(m) => DigitsStripped(m.value.order);
      case None =>
        match FirstMatch(Numbered, t)
        case Some(m) => DigitsStripped(m.value.order);
        case None =>
    }
  }

  /**
   * Where a title's only `(` sits: at `n + 1`, after one space that follows
   * the non-blank, newline-free text before it.
   */
  predicate ParenAfter(t: string, n: nat) {
    && 1 <= n && n + 1 < |t|
    && !IsSpace(t[n - 1]) && t[n] == ' ' && t[n + 1] == '('
    && (forall k :: 0 <= k < |t| && k != n + 1 ==> t[k] != '(')
    && (forall k :: 0 <= k < n ==> t[k] != '\n')
  }

  /** With a single `(`, the rest of a pattern can only start at the space before it or at it. */
  lemma RestOnlyAtParen(shape: Shape, t: string, n: nat, j: nat)
    requires ParenAfter(t, n) && j <= |t| && j != n && j != n + 1
    ensures RestAt(shape, t, j).None?
  {
    var p := SkipSpaces(t, j);
    if j < n {
      assert p <= n - 1;
    }
    assert !(p < |t| && t[p] == '(');
  }

  /** Starting the rest at the space before the `(` or at the `(` itself reads the same. */
  lemma RestAtParen(shape: Shape, t: string, n: nat)
    requires ParenAfter(t, n)
    ensures RestAt(shape, t, n + 1) == RestAt(shape, t, n)
  {
    assert SkipSpaces(t, n) == n + 1 == SkipSpaces(t, n + 1);
  }

  /** With a single `(`, a pattern matches exactly when its rest matches at the space before it, and group 1 is the text up to that space. */
  lemma MatchAtParen(shape: Shape, t: string, n: nat)
    requires ParenAfter(t, n)
    ensures FirstMatch(shape, t) == if RestAt(shape, t, n).Some? then Some(Found(n, RestAt(shape, t, n).value)) else None
  {
    var hi := Find(t, 0, '\n');
    assert n <= hi;
    if RestAt(shape, t, n).Some? {
      LeastBelow(RestFrom(shape, t), 0, hi, n);
      var at := FirstMatch(shape, t).value.at;
      if at < n {
        RestOnlyAtParen(shape, t, n, at);
      }
    } else {
      forall j | 0 <= j <= hi
        ensures RestFrom(shape, t)(j).None?
      {
        if j == n + 1 {
          RestAtParen(shape, t, n);
        } else if j != n {
          RestOnlyAtParen(shape, t, n, j);
        }
      }
      LeastNone(RestFrom(shape, t), 0, hi);
    }
  }

  /** The text before ` (`: non-blank at both ends, with neither `(` nor a newline. */
  predicate PlainTitle(title: string) {
    |title| >= 1 && Stripped(title) && '(' !in title && '\n' !in title
  }

  /** `title + " (" + rest` has its only `(` right after the space that ends `title`. */
  lemma ParenAfterTitle(title: string, rest: string)
    requires PlainTitle(title) && '(' !in rest
    ensures ParenAfter(title + " (" + rest, |title|)
  {
    var t := title + " (" + rest;
    var n := |title|;
    assert forall k :: 0 <= k < n ==> t[k] == title[k];
    assert forall k :: n + 2 <= k < |t| ==> t[k] == rest[k - n - 2];
  }

  /** `(\d+)\s*\)` on digits that run straight into the `)`. */
  lemma DigitsThenCloseAt(t: string, b: nat, d: nat)
    requires b < d < |t| && t[d] == ')'
    requires forall k :: b <= k < d ==> IsDigit(t[k])
    ensures DigitsThenClose(t, b) == Some(t[b..d])
  {
    SkipDigitsIs(t, b, d);
  }

  /** Pattern 1's `#digits)` at `q`. */
  lemma HashNumberAt(t: string, q: nat, d: nat)
    requires q + 1 < d < |t| && t[q] == '#' && t[d] == ')'
    requires forall k :: q + 1 <= k < d ==> IsDigit(t[k])
    ensures HashOrBookNumber(t, q) == Some(t[q + 1..d])
  {
    DigitsThenCloseAt(t, q + 1, d);
  }

  /** Pattern 1's tail on `(series, #order)` laid out at `p`, the comma at `c` and the `)` at `d`. */
  lemma CommaTailAt(t: string, p: nat, c: nat, d: nat)
    requires p + 1 < c && c + 3 < d < |t|
    requires t[p] == '(' && !IsSpace(t[p + 1])
    requires forall k :: p + 1 <= k < c ==> t[k] != ','
    requires t[c] == ',' && t[c + 1] == ' ' && t[c + 2] == '#' && t[d] == ')'
    requires forall k :: c + 3 <= k < d ==> IsDigit(t[k])
    ensures CommaTail(t, p) == Some(Groups(t[p + 1..c], t[c + 3..d]))
  {
    assert SkipSpaces(t, p + 1) == p + 1;
    FindIs(t, p + 1, c, ',');
    CommaOrderAt(t, p + 1, c, d);
  }

  /** Pattern 1's `, #order)` at the comma `c`, the series group starting at `s0`. */
  lemma CommaOrderAt(t: string, s0: nat, c: nat, d: nat)
    requires s0 < c && c + 3 < d < |t|
    requires forall k :: s0 <= k < c ==> t[k] != ','
    requires t[c] == ',' && t[c + 1] == ' ' && t[c + 2] == '#' && t[d] == ')'
    requires forall k :: c + 3 <= k < d ==> IsDigit(t[k])
    ensures CommaOrder(t, s0, c) == Some(Groups(t[s0..c], t[c + 3..d]))
  {
    SkipOneSpace(t, c + 1);
    HashNumberAt(t, c + 2, d);
  }

  /** A non-blank stripped title goes straight to the pattern chain. */
  lemma ParseSeriesOfStripped(t: string)
    requires |t| >= 1 && Stripped(t)
    ensures ParseSeries(Text(t)) == ParseStripped(t)
  {
    StrippedFixed(t);
  }

  /** When pattern 1 matches, its stripped groups are the result. */
  lemma ParseFirstPattern(t: string, m: Found<Groups>)
    requires |t| >= 1 && Stripped(t) && FirstMatch(CommaNumbered, t) == Some(m)
    ensures m.at <= |t| && ParseSeries(Text(t)) == FromNumbered(t, m)
  {
    ParseSeriesOfStripped(t);
  }

  /** A `\s*` that starts on one space before a non-space stops right after it. */
  lemma SkipOneSpace(t: string, n: nat)
    requires n + 1 < |t| && t[n] == ' ' && !IsSpace(t[n + 1])
    ensures SkipSpaces(t, n) == n + 1
  {
  }

  /** Pattern 1's rest read from the space before the `(` at `n + 1`. */
  lemma CommaRestAt(t: string, n: nat, c: nat, d: nat)
    requires n + 2 < c && c + 3 < d < |t|
    requires t[n] == ' ' && t[n + 1] == '(' && !IsSpace(t[n + 2])
    requires forall k :: n + 2 <= k < c ==> t[k] != ','
    requires t[c] == ',' && t[c + 1] == ' ' && t[c + 2] == '#' && t[d] == ')'
    requires forall k :: c + 3 <= k < d ==> IsDigit(t[k])
    ensures RestAt(CommaNumbered, t, n) == Some(Groups(t[n + 2..c], t[c + 3..d]))
  {
    SkipOneSpace(t, n);
    CommaTailAt(t, n + 1, c, d);
  }

  /** Where the pieces of "Title (Series, #3)" sit. */
  lemma CommaNumberedLayout(title: string, series: string, order: string)
    requires PlainTitle(title)
    requires |series| >= 1 && Stripped(series) && ',' !in series && '(' !in series
    requires |order| >= 1 && AllDigits(order)
    ensures var t := title + " (" + series + ", #" + order + ")";
      var n := |title|;
      var c := n + 2 + |series|;
      var d := c + 3 + |order|;
      && d < |t| && Stripped(t) && ParenAfter(t, n) && t[..n] == title
      && t[n + 2..c] == series && t[c + 3..d] == order && !IsSpace(t[n + 2])
      && (forall k :: n + 2 <= k < c ==> t[k] != ',')
      && t[c] == ',' && t[c + 1] == ' ' && t[c + 2] == '#' && t[d] == ')'
      && (forall k :: c + 3 <= k < d ==> IsDigit(t[k]))
  {
    var t := title + " (" + series + ", #" + order + ")";
    var n := |title|;
    var c := n + 2 + |series|;
    var d := c + 3 + |order|;
    assert |t| == d + 1;
    assert forall k :: 0 <= k < n ==> t[k] == title[k];
    assert t[n] == ' ' && t[n + 1] == '(';
    assert forall k :: n + 2 <= k < c ==> t[k] == series[k - n - 2];
    assert t[c] == ',' && t[c + 1] == ' ' && t[c + 2] == '#' && t[d] == ')';
    assert forall k :: c + 3 <= k < d ==> t[k] == order[k - c - 3];
    assert t[..n] == title && t[n + 2..c] == series && t[c + 3..d] == order;
    assert t[0] == title[0];
  }

  /** Pattern 1 matches "Title (Series, #3)" with group 1 ending right after the title. */
  lemma CommaNumberedMatch(title: string, series: string, order: string)
    requires PlainTitle(title)
    requires |series| >= 1 && Stripped(series) && ',' !in series && '(' !in series
    requires |order| >= 1 && AllDigits(order)
    ensures var t := title + " (" + series + ", #" + order + ")";
      && |t| >= 1 && Stripped(t) && t[..|title|] == title
      && FirstMatch(CommaNumbered, t) == Some(Found(|title|, Groups(series, order)))
  {
    var t := title + " (" + series + ", #" + order + ")";
    var n := |title|;
    CommaNumberedLayout(title, series, order);
    var c := n + 2 + |series|;
    var d := c + 3 + |order|;
    assert t[n + 2..c] == series && t[c + 3..d] == order;
    CommaRestAt(t, n, c, d);
    assert RestAt(CommaNumbered, t, n) == Some(Groups(series, order));
    MatchAtParen(CommaNumbered, t, n);
  }

  /** "Title (Series, #3)" splits into the title, the series and the number. */
  lemma ParseCommaNumbered(title: string, series: string, order: string)
    requires PlainTitle(title)
    requires |series| >= 1 && Stripped(series) && ',' !in series && '(' !in series
    requires |order| >= 1 && AllDigits(order)
    ensures ParseSeries(Text(title + " (" + series + ", #" + order + ")")) == SeriesInfo(title, series, order)
  {
    var t := title + " (" + series + ", #" + order + ")";
    CommaNumberedMatch(title, series, order);
    ParseFirstPattern(t, Found(|title|, Groups(series, order)));
    StrippedFixed(title);
    StrippedFixed(series);
    DigitsStripped(order);
  }

  /** Pattern 1 cannot match when neither `#` nor `Book` follows the `(`, whatever commas there are. */
  lemma CommaRestNeedsOrder(t: string, n: nat)
    requires n + 2 < |t| && t[n] == ' ' && t[n + 1] == '(' && !IsSpace(t[n + 2])
    requires forall k :: n + 2 <= k < |t| ==> t[k] != '#'
    requires forall j :: n + 2 <= j <= |t| ==> !BookAt(t, j)
    ensures RestAt(CommaNumbered, t, n).None?
  {
    SkipOneSpace(t, n);
    var c := Find(t, n + 2, ',');
    if c < |t| {
      assert !BookAt(t, SkipSpaces(t, c + 1));
    }
  }

  /** The order part of pattern 2 succeeds at the space before `#digits)`. */
  lemma OrderAtHash(t: string, m: nat, d: nat)
    requires m + 2 < d < |t| && t[m] == ' ' && t[m + 1] == '#' && t[d] == ')'
    requires forall k :: m + 2 <= k < d ==> IsDigit(t[k])
    ensures SpacedHashOrBookNumber(t, m) == Some(t[m + 2..d])
  {
    SkipOneSpace(t, m);
    SpacedHashSkips(t, m);
    DigitsThenCloseAt(t, m + 2, d);
  }

  /**
   * Inside a series name that holds neither `#` nor `)`, the order part of
   * pattern 2 fails: `\s*#` cannot reach the `#` across the name's last
   * character, and a `Book` inside the name is not followed by `digits)`.
   */
  lemma NoOrderInsideName(t: string, s0: nat, m: nat, j: nat)
    requires s0 <= j < m && m + 2 < |t|
    requires forall k :: s0 <= k < m ==> t[k] != '#' && t[k] != ')'
    requires !IsSpace(t[m - 1]) && t[m] == ' ' && t[m + 1] == '#' && IsDigit(t[m + 2])
    ensures SpacedHashOrBookNumber(t, j).None?
  {
    NoHashInsideName(t, s0, m, j);
    if BookAt(t, j) {
      NoBookNumberInsideName(t, s0, m, j);
    }
  }

  /** `\s*#` cannot cross the name's last character to reach the `#` after it. */
  lemma NoHashInsideName(t: string, s0: nat, m: nat, j: nat)
    requires s0 <= j < m < |t|
    requires forall k :: s0 <= k < m ==> t[k] != '#'
    requires !IsSpace(t[m - 1])
    ensures SpacedHash(t, j).None?
  {
    SpacedHashSkips(t, j);
    assert SkipSpaces(t, j) <= m - 1;
  }

  /** A `Book` inside the name is not followed by `digits)`. */
  lemma NoBookNumberInsideName(t: string, s0: nat, m: nat, j: nat)
    requires s0 <= j && j + 4 <= m && m + 2 < |t|
    requires forall k :: s0 <= k < m ==> t[k] != ')'
    requires !IsSpace(t[m - 1]) && t[m] == ' ' && t[m + 1] == '#'
    ensures DigitsThenClose(t, SkipSpaces(t, j + 4)).None?
  {
    var b := SkipSpaces(t, j + 4);
    assert b <= m + 1;
    var e := SkipSpaces(t, SkipDigits(t, b));
    assert b == m + 1 || e <= m + 1;
  }

  /** No end inside the series name lets pattern 2's order part match. */
  lemma NoOrderBeforeHash(t: string, s0: nat, m: nat)
    requires s0 < m && m + 2 < |t|
    requires forall k :: s0 <= k < m ==> t[k] != '#' && t[k] != ')'
    requires !IsSpace(t[m - 1]) && t[m] == ' ' && t[m + 1] == '#' && IsDigit(t[m + 2])
    ensures forall j :: s0 + 1 <= j < m ==> OrderFrom(t)(j).None?
  {
    forall j | s0 + 1 <= j < m
      ensures OrderFrom(t)(j).None?
    {
      NoOrderInsideName(t, s0, m, j);
    }
  }

  /** The lazy series group ends at the first end after which the order part matches. */
  lemma LazyEndFrom(t: string, s0: nat, m: nat, v: string)
    requires s0 < m <= |t| && SpacedHashOrBookNumber(t, m) == Some(v)
    requires forall j :: s0 + 1 <= j < m ==> OrderFrom(t)(j).None?
    ensures Least(OrderFrom(t), s0 + 1, m + 1) == Some(Found(m, v))
  {
    assert OrderFrom(t)(m) == Some(v);
    LeastAt(OrderFrom(t), s0 + 1, m, m + 1);
  }

  /** The lazy series group of pattern 2 on `series #order)` ends at the space before `#`. */
  lemma LazyEndAtHash(t: string, s0: nat, m: nat, d: nat)
    requires s0 < m && m + 2 < d < |t|
    requires !IsSpace(t[m - 1])
    requires forall k :: s0 <= k < m ==> t[k] != '#' && t[k] != ')'
    requires t[m] == ' ' && t[m + 1] == '#' && t[d] == ')'
    requires forall k :: m + 2 <= k < d ==> IsDigit(t[k])
    ensures Least(OrderFrom(t), s0 + 1, m + 1) == Some(Found(m, t[m + 2..d]))
  {
    OrderAtHash(t, m, d);
    NoOrderBeforeHash(t, s0, m);
    LazyEndFrom(t, s0, m, t[m + 2..d]);
  }

  /** Pattern 2's tail on `(series #order)`: the lazy series group stops at the space before `#`. */
  lemma NumberedTailAt(t: string, p: nat, m: nat, d: nat)
    requires p + 1 < m && m + 2 < d < |t|
    requires t[p] == '(' && !IsSpace(t[p + 1]) && !IsSpace(t[m - 1])
    requires forall k :: p + 1 <= k < m ==> t[k] != '#' && t[k] != ')'
    requires t[m] == ' ' && t[m + 1] == '#' && t[d] == ')'
    requires forall k :: m + 2 <= k < d ==> IsDigit(t[k])
    ensures NumberedTail(t, p) == Some(Groups(t[p + 1..m], t[m + 2..d]))
  {
    assert SkipSpaces(t, p + 1) == p + 1;
    FindIs(t, p + 1, m + 1, '#');
    LazyEndAtHash(t, p + 1, m, d);
  }

  /** Pattern 2's rest read from the space before the `(` at `n + 1`. */
  lemma NumberedRestAt(t: string, n: nat, m: nat, d: nat)
    requires n + 2 < m && m + 2 < d < |t|
    requires t[n] == ' ' && t[n + 1] == '(' && !IsSpace(t[n + 2]) && !IsSpace(t[m - 1])
    requires forall k :: n + 2 <= k < m ==> t[k] != '#' && t[k] != ')'
    requires t[m] == ' ' && t[m + 1] == '#' && t[d] == ')'
    requires forall k :: m + 2 <= k < d ==> IsDigit(t[k])
    ensures RestAt(Numbered, t, n) == Some(Groups(t[n + 2..m], t[m + 2..d]))
  {
    SkipOneSpace(t, n);
    NumberedTailAt(t, n + 1, m, d);
  }

  /** Where the pieces of "Title (Series #3)" sit. */
  lemma NumberedLayout(title: string, series: string, order: string)
    requires PlainTitle(title)
    requires |series| >= 1 && Stripped(series)
    requires series[|series| - 1] != ',' && '(' !in series && '#' !in series && ')' !in series
    requires |order| >= 1 && AllDigits(order)
    ensures var t := title + " (" + series + " #" + order + ")";
      var n := |title|;
      var m := n + 2 + |series|;
      var d := m + 2 + |order|;
      && d < |t| && Stripped(t) && ParenAfter(t, n) && t[..n] == title
      && t[n + 2..m] == series && t[m + 2..d] == order
      && !IsSpace(t[n + 2]) && !IsSpace(t[m - 1]) && t[m - 1] != ','
      && (forall k :: n + 2 <= k < m ==> t[k] != '#' && t[k] != ')')
      && t[m] == ' ' && t[m + 1] == '#' && t[d] == ')'
      && (forall k :: m + 2 <= k < d ==> IsDigit(t[k]))
      && (forall k :: m <= k < |t| ==> t[k] != ',')
  {
    var t := title + " (" + series + " #" + order + ")";
    var n := |title|;
    var m := n + 2 + |series|;
    var d := m + 2 + |order|;
    assert |t| == d + 1;
    assert forall k :: 0 <= k < n ==> t[k] == title[k];
    assert t[n] == ' ' && t[n + 1] == '(';
    assert forall k :: n + 2 <= k < m ==> t[k] == series[k - n - 2];
    assert t[m] == ' ' && t[m + 1] == '#' && t[d] == ')';
    assert forall k :: m + 2 <= k < d ==> t[k] == order[k - m - 2];
    assert t[..n] == title && t[n + 2..m] == series && t[m + 2..d] == order;
    assert t[0] == title[0];
  }

  /** Pattern 2 matches "Title (Series #3)" with group 1 ending right after the title. */
  lemma NumberedMatch(title: string, series: string, order: string)
    requires PlainTitle(title)
    requires |series| >= 1 && Stripped(series)
    requires series[|series| - 1] != ',' && '(' !in series && '#' !in series && ')' !in series
    requires |order| >= 1 && AllDigits(order)
    ensures var t := title + " (" + series + " #" + order + ")";
      && |t| >= 1 && Stripped(t) && t[..|title|] == title
      && FirstMatch(Numbered, t) == Some(Found(|title|, Groups(series, order)))
  {
    var t := title + " (" + series + " #" + order + ")";
    var n := |title|;
    NumberedLayout(title, series, order);
    var m := n + 2 + |series|;
    var d := m + 2 + |order|;
    assert t[n + 2..m] == series && t[m + 2..d] == order;
    NumberedRestAt(t, n, m, d);
    assert RestAt(Numbered, t, n) == Some(Groups(series, order));
    MatchAtParen(Numbered, t, n);
  }

  /** Pattern 1 does not match "Title (Series #3)": whatever follows a comma in the series is neither `#` nor `Book digits)`. */
  lemma NumberedNotCommaNumbered(title: string, series: string, order: string)
    requires PlainTitle(title)
    requires |series| >= 1 && Stripped(series)
    requires series[|series| - 1] != ',' && '(' !in series && '#' !in series && ')' !in series
    requires |order| >= 1 && AllDigits(order)
    ensures FirstMatch(CommaNumbered, title + " (" + series + " #" + order + ")").None?
  {
    var t := title + " (" + series + " #" + order + ")";
    NumberedLayout(title, series, order);
    CommaRestBeforeHash(t, |title|, |title| + 2 + |series|);
    MatchAtParen(CommaNumbered, t, |title|);
  }

  /** Inside a name free of `#` and `)` that stands before ` #`, pattern 1's order part fails. */
  lemma NoHashOrBookInsideName(t: string, s0: nat, m: nat, q: nat)
    requires s0 <= q < m && m + 2 < |t|
    requires forall k :: s0 <= k < m ==> t[k] != '#' && t[k] != ')'
    requires !IsSpace(t[m - 1]) && t[m] == ' ' && t[m + 1] == '#'
    ensures HashOrBookNumber(t, q).None?
  {
    if BookAt(t, q) {
      assert q + 4 <= m;
      NoBookNumberInsideName(t, s0, m, q);
    }
  }

  /**
   * Pattern 1 fails on "(series #order)" when the series does not end in a comma:
   * a comma inside the series is followed by more of the series, where no `#`
   * stands and a `Book` is not followed by `digits)`.
   */
  lemma CommaRestBeforeHash(t: string, n: nat, m: nat)
    requires n + 2 < m && m + 2 < |t|
    requires t[n] == ' ' && t[n + 1] == '(' && !IsSpace(t[n + 2])
    requires forall k :: n + 2 <= k < m ==> t[k] != '#' && t[k] != ')'
    requires !IsSpace(t[m - 1]) && t[m - 1] != ',' && t[m] == ' ' && t[m + 1] == '#'
    requires forall k :: m <= k < |t| ==> t[k] != ','
    ensures RestAt(CommaNumbered, t, n).None?
  {
    SkipOneSpace(t, n);
    CommaTailBeforeHash(t, n + 1, m);
  }

  /** `CommaRestBeforeHash` from the `(` at `p`. */
  lemma CommaTailBeforeHash(t: string, p: nat, m: nat)
    requires p + 1 < m && m + 2 < |t|
    requires t[p] == '(' && !IsSpace(t[p + 1])
    requires forall k :: p + 1 <= k < m ==> t[k] != '#' && t[k] != ')'
    requires !IsSpace(t[m - 1]) && t[m - 1] != ',' && t[m] == ' ' && t[m + 1] == '#'
    requires forall k :: m <= k < |t| ==> t[k] != ','
    ensures CommaTail(t, p).None?
  {
    assert SkipSpaces(t, p + 1) == p + 1;
    var c := Find(t, p + 1, ',');
    if c < |t| && c != p + 1 {
      CommaOrderInsideName(t, p + 1, c, m);
    }
  }

  /** Pattern 1 from a comma inside such a series: the series goes on after it, so the order part fails. */
  lemma CommaOrderInsideName(t: string, s0: nat, c: nat, m: nat)
    requires s0 < c < m - 1 && m + 2 < |t|
    requires forall k :: s0 <= k < c ==> t[k] != ','
    requires t[c] == ','
    requires forall k :: s0 <= k < m ==> t[k] != '#' && t[k] != ')'
    requires !IsSpace(t[m - 1]) && t[m] == ' ' && t[m + 1] == '#'
    ensures CommaOrder(t, s0, c).None?
  {
    var q := SkipSpaces(t, c + 1);
    assert q <= m - 1;
    NoHashOrBookInsideName(t, s0, m, q);
  }

  /** When only pattern 2 matches, its stripped groups are the result. */
  lemma ParseSecondPattern(t: string, m: Found<Groups>)
    requires |t| >= 1 && Stripped(t)
    requires FirstMatch(CommaNumbered, t).None? && FirstMatch(Numbered, t) == Some(m)
    ensures m.at <= |t| && ParseSeries(Text(t)) == FromNumbered(t, m)
  {
    ParseSeriesOfStripped(t);
  }

  /** "Title (Series #3)" splits into the title, the series and the number. */
  lemma ParseNumbered(title: string, series: string, order: string)
    requires PlainTitle(title)
    requires |series| >= 1 && Stripped(series)
    requires series[|series| - 1] != ',' && '(' !in series && '#' !in series && ')' !in series
    requires |order| >= 1 && AllDigits(order)
    ensures ParseSeries(Text(title + " (" + series + " #" + order + ")")) == SeriesInfo(title, series, order)
  {
    var t := title + " (" + series + " #" + order + ")";
    NumberedMatch(title, series, order);
    NumberedNotCommaNumbered(title, series, order);
    ParseSecondPattern(t, Found(|title|, Groups(series, order)));
    StrippedFixed(title);
    StrippedFixed(series);
    DigitsStripped(order);
  }

  /** "Emma (Bath, Kent #2)": the comma does not stop pattern 2 from reading the series. */
  lemma ParseNumberedWithComma()
    ensures ParseSeries(Text("Emma (Bath, Kent #2)")) == SeriesInfo("Emma", "Bath, Kent", "2")
  {
    assert "Emma" + " (" + "Bath, Kent" + " #" + "2" + ")" == "Emma (Bath, Kent #2)";
    ParseNumbered("Emma", "Bath, Kent", "2");
  }

  /**
   * A name with none of the characters the numbered patterns look for and
   * without the word `book` in any letter case; digits are allowed, since
   * both numbered patterns need a `#` or `Book` before the number.
   */
  predicate PlainName(name: string) {
    && |name| >= 1 && Stripped(name)
    && (forall i :: 0 <= i < |name| ==> name[i] !in "()#")
    && (forall i :: 0 <= i < |name| ==> !BookAt(name, i))
  }

  /** Without a `#` from `from` on and without `Book` at `j`, pattern 2's order part fails at `j`. */
  lemma NoOrderWithoutHash(t: string, from: nat, j: nat)
    requires from <= j <= |t|
    requires forall k :: from <= k < |t| ==> t[k] != '#'
    requires !BookAt(t, j)
    ensures SpacedHashOrBookNumber(t, j).None?
  {
    SpacedHashSkips(t, j);
  }

  /** Pattern 2 cannot match when neither `#` nor `Book` follows the `(`. */
  lemma NumberedRestNeedsOrder(t: string, n: nat)
    requires n + 2 < |t| && t[n] == ' ' && t[n + 1] == '(' && !IsSpace(t[n + 2])
    requires forall k :: n + 2 <= k < |t| ==> t[k] != '#'
    requires forall j :: n + 2 <= j <= |t| ==> !BookAt(t, j)
    ensures RestAt(Numbered, t, n).None?
  {
    SkipOneSpace(t, n);
    assert SkipSpaces(t, n + 2) == n + 2;
    FindNone(t, n + 2, '#');
    forall j | n + 3 <= j <= |t|
      ensures OrderFrom(t)(j).None?
    {
      NoOrderWithoutHash(t, n + 2, j);
    }
    LeastNone(OrderFrom(t), n + 3, |t|);
  }

  /** Pattern 3's rest read from the space before the `(` at `n + 1`. */
  lemma BareRestAt(t: string, n: nat, d: nat)
    requires n + 2 < d < |t| && t[n] == ' ' && t[n + 1] == '(' && !IsSpace(t[n + 2])
    requires forall k :: n + 2 <= k < d ==> t[k] != ')'
    requires t[d] == ')'
    ensures RestAt(Bare, t, n) == Some(Groups(t[n + 2..d], ""))
  {
    SkipOneSpace(t, n);
    assert SkipSpaces(t, n + 2) == n + 2;
    FindIs(t, n + 2, d, ')');
  }

  /** Where the pieces of "Title (Name)" sit. */
  lemma BareLayout(title: string, name: string)
    requires PlainTitle(title) && PlainName(name)
    ensures var t := title + " (" + name + ")";
      var n := |title|;
      var d := n + 2 + |name|;
      && d + 1 == |t| && Stripped(t) && ParenAfter(t, n) && t[..n] == title
      && t[n + 2..d] == name && !IsSpace(t[n + 2])
      && (forall k :: n + 2 <= k < |t| ==> t[k] != '#')
      && (forall j :: n + 2 <= j <= |t| ==> !BookAt(t, j))
      && (forall k :: n + 2 <= k < d ==> t[k] != ')')
      && t[d] == ')'
  {
    var t := title + " (" + name + ")";
    var n := |title|;
    var d := n + 2 + |name|;
    assert forall k :: 0 <= k < n ==> t[k] == title[k];
    assert t[n] == ' ' && t[n + 1] == '(' && t[d] == ')';
    assert forall k :: n + 2 <= k < d ==> t[k] == name[k - n - 2];
    assert t[..n] == title && t[n + 2..d] == name;
    assert t[0] == title[0];
    forall j | n + 2 <= j <= |t|
      ensures !BookAt(t, j)
    {
      if j + 4 <= d {
        assert !BookAt(name, j - n - 2);
      }
    }
  }

  /** Neither numbered pattern matches "Title (Name)". */
  lemma BareNotNumbered(title: string, name: string)
    requires PlainTitle(title) && PlainName(name)
    ensures var t := title + " (" + name + ")";
      FirstMatch(CommaNumbered, t).None? && FirstMatch(Numbered, t).None?
  {
    var t := title + " (" + name + ")";
    var n := |title|;
    BareLayout(title, name);
    CommaRestNeedsOrder(t, n);
    MatchAtParen(CommaNumbered, t, n);
    NumberedRestNeedsOrder(t, n);
    MatchAtParen(Numbered, t, n);
  }

  /** Pattern 3 matches "Title (Name)" with group 1 ending right after the title. */
  lemma BareMatch(title: string, name: string)
    requires PlainTitle(title) && PlainName(name)
    ensures var t := title + " (" + name + ")";
      && |t| >= 1 && Stripped(t) && t[..|title|] == title
      && FirstMatch(Bare, t) == Some(Found(|title|, Groups(name, "")))
  {
    var t := title + " (" + name + ")";
    var n := |title|;
    BareLayout(title, name);
    var d := n + 2 + |name|;
    assert t[n + 2..d] == name;
    BareRestAt(t, n, d);
    assert RestAt(Bare, t, n) == Some(Groups(name, ""));
    MatchAtParen(Bare, t, n);
  }

  /** When only pattern 3 matches, the stripped parenthetical is the series, numbered 1 if it names one. */
  lemma ParseThirdPattern(t: string, m: Found<Groups>)
    requires |t| >= 1 && Stripped(t)
    requires FirstMatch(CommaNumbered, t).None? && FirstMatch(Numbered, t).None?
    requires FirstMatch(Bare, t) == Some(m)
    ensures m.at <= |t| && ParseSeries(Text(t)) == FromBare(t, m)
  {
    ParseSeriesOfStripped(t);
  }

  /**
   * "Title (Name)": the parenthetical becomes the series; it is numbered 1
   * when it contains one of the series keywords and left unnumbered otherwise.
   */
  lemma ParseBare(title: string, name: string)
    requires PlainTitle(title) && PlainName(name)
    ensures ParseSeries(Text(title + " (" + name + ")"))
         == SeriesInfo(title, name, if HasSeriesKeyword(name) then "1" else "")
  {
    var t := title + " (" + name + ")";
    BareNotNumbered(title, name);
    BareMatch(title, name);
    ParseThirdPattern(t, Found(|title|, Groups(name, "")));
    StrippedFixed(title);
    StrippedFixed(name);
  }

  /** A parenthetical with a digit in it, "Dune (Saga 2)", is still read as a bare series numbered 1. */
  lemma ParseBareWithDigit()
    ensures ParseSeries(Text("Dune (Saga 2)")) == SeriesInfo("Dune", "Saga 2", "1")
  {
    var name := "Saga 2";
    assert forall i :: 0 <= i < |name| ==> !BookAt(name, i);
    assert "Dune" + " (" + name + ")" == "Dune (Saga 2)";
    assert Contains(Lower(name), SeriesKeywords[1]);
    ParseBare("Dune", name);
  }

  /** A comma without `#` or `Book` after it, "Emma (Saga, Bath)", leaves pattern 1 behind too. */
  lemma ParseBareWithComma()
    ensures ParseSeries(Text("Emma (Saga, Bath)")) == SeriesInfo("Emma", "Saga, Bath", "1")
  {
    var name := "Saga, Bath";
    assert forall i :: 0 <= i < |name| ==> !BookAt(name, i);
    assert "Emma" + " (" + name + ")" == "Emma (Saga, Bath)";
    assert Contains(Lower(name), SeriesKeywords[1]);
    ParseBare("Emma", name);
  }
}
