/** renderHome: the reading statistics and the "latest 4" list
    (script.js:225-326). */
module HomeScreen {
  import opened JsArray
  import opened Records

  /** The filter predicate of the completed count. */
  function Finished(): Book -> bool
  {
    (b: Book) => b.isComplete
  }

  /** The filter predicate of the unfinished count. */
  function Unfinished(): Book -> bool
  {
    (b: Book) => !b.isComplete
  }

  /** Math.round(part / whole * 100) for 0 <= part <= whole, and 0 for an
      empty whole: the integer nearest to 100·part/whole, a half rounding up. */
  function RoundedPercent(part: nat, whole: nat): (r: nat)
    requires part <= whole
    ensures r <= 100
    ensures whole == 0 ==> r == 0
    ensures whole > 0 ==> 2 * whole * r <= 200 * part + whole < 2 * whole * r + 2 * whole
    ensures part == 0 ==> r == 0
    ensures 0 < part == whole ==> r == 100
  {
    if whole == 0 then 0
    else
      RoundingFacts(part, whole);
      (200 * part + whole) / (2 * whole)
  }

  lemma RoundingFacts(part: nat, whole: nat)
    requires 0 < whole && part <= whole
    ensures var r := (200 * part + whole) / (2 * whole);
      && 2 * whole * r <= 200 * part + whole < 2 * whole * r + 2 * whole
      && r <= 100
      && (part == 0 ==> r == 0)
      && (part == whole ==> r == 100)
  {
    var a, d := 200 * part + whole, 2 * whole;
    var r := a / d;
    DivBounds(a, d);
    assert d * r + d == d * (r + 1);
    assert a < d * 101;
    MulLessCancel(d, r, 101);
    if part == 0 {
      assert d * r < d * 1;
      MulLessCancel(d, r, 1);
    }
    if part == whole {
      assert d * 100 < d * (r + 1);
      MulLessCancel(d, 100, r + 1);
    }
  }

  lemma DivBounds(a: nat, d: nat)
    requires d > 0
    ensures d * (a / d) <= a < d * (a / d) + d
  {
  }

  lemma MulLessCancel(d: nat, x: nat, y: nat)
    requires d * x < d * y
    ensures x < y
  {
    if y <= x {
      MulMonotone(d, y, x);
      assert false;
    }
  }

  lemma MulMonotone(d: nat, x: nat, y: nat)
    requires x <= y
    ensures d * x <= d * y
  {
  }

  /** The two bars of the home page and the counts behind them. */
  datatype Stats = Stats(total: nat, complete: nat, incomplete: nat, percentComplete: nat, percentUnread: int)

  /** The statistics block of renderHome. */
  function HomeStats(books: seq<Book>): (s: Stats)
  {
    var complete := |Filter(books, Finished())|;
    Stats(|books|, complete, |books| - complete, RoundedPercent(complete, |books|), 100 - RoundedPercent(complete, |books|))
  }

  /** Both bars are percentages that add up to 100; an empty collection
      shows 0% read, a non-empty, fully read one 100%, one with nothing read 0%; the
      counts split the collection by the completion flag. */
  lemma HomeStatsBounds(books: seq<Book>)
    ensures var s := HomeStats(books);
      && s.percentComplete <= 100 && 0 <= s.percentUnread <= 100
      && s.percentComplete + s.percentUnread == 100
      && (books == [] ==> s.percentComplete == 0 && s.percentUnread == 100)
      && (0 < s.complete == |books| ==> s.percentComplete == 100)
      && (s.complete == 0 ==> s.percentComplete == 0)
      && s.complete == |Filter(books, Finished())| && s.incomplete == |Filter(books, Unfinished())|
      && s.complete + s.incomplete == s.total == |books|
  {
    FilterSplit(books, Finished(), Unfinished());
  }

  /** [...books].slice(-4).reverse(): the last four records, newest first. */
  function Latest(books: seq<Book>): (r: seq<Book>)
    ensures |r| == if |books| < 4 then |books| else 4
    ensures forall i :: 0 <= i < |r| ==> r[i] == books[|books| - 1 - i]
  {
    Reverse(SliceFrom(books, -4))
  }

  /** One row of the "latest" list: the record and the percentage its bar
      and label show. */
  datatype LatestRow = LatestRow(book: Book, percent: int)

  function LatestRows(books: seq<Book>): (rows: seq<LatestRow>)
    ensures |rows| == |Latest(books)|
    ensures forall i :: 0 <= i < |rows| ==> rows[i].book == books[|books| - 1 - i] && rows[i].percent == rows[i].book.progress
  {
    var latest := Latest(books);
    seq(|latest|, i requires 0 <= i < |latest| => LatestRow(latest[i], latest[i].progress))
  }
}
