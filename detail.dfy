/** renderBookDetail: opening a record, the status chip, the colour of the
    progress bar while the slider moves, and what releasing the slider
    commits (script.js:974-1064). The commit itself is Storage.Shelf.CommitSlider. */
module DetailScreen {
  import opened Records

  /** The id in the query string ("" when there is none) names a record to
      show, or the page alerts and goes back home. */
  function OpenDetail(books: seq<Book>, id: string): (r: Option<Book>)
    ensures r.Some? <==> id != "" && FindById(books, id).Some?
    ensures r.Some? ==> r == FindById(books, id)
  {
    if id == "" then None else FindById(books, id)
  }

  /** The colour of the progress bar. */
  datatype BarColour = Green | Blue | Orange

  /** The status chip: "Selesai" or "Belum selesai". */
  datatype Status = Finished | Unfinished

  /** Chip and bar as the page first draws them: green and "Selesai" for a
      record that reads as finished, orange and "Belum selesai" otherwise. */
  function InitialLook(b: Book): (Status, BarColour)
  {
    if IsDone(b) then (Finished, Green) else (Unfinished, Orange)
  }

  /** The bar colour while the slider is dragged to `v`. */
  function SliderColour(v: int): BarColour
  {
    if v == 100 then Green else if v >= 50 then Blue else Orange
  }

  function ColourRank(c: BarColour): nat
  {
    match c
    case Orange => 0
    case Blue => 1
    case Green => 2
  }

  /** On the slider's range, green means exactly 100, blue 50 to 99, orange
      below 50; and dragging further right never moves the colour back. */
  lemma SliderColourThresholds(v: int, w: int)
    requires 0 <= v <= w <= 100
    ensures SliderColour(v) == Green <==> v == 100
    ensures SliderColour(v) == Blue <==> 50 <= v < 100
    ensures SliderColour(v) == Orange <==> v < 50
    ensures ColourRank(SliderColour(v)) <= ColourRank(SliderColour(w))
  {
  }

  /** The status chip after a commit. */
  function StatusAfterCommit(v: int): Status
  {
    if v == 100 then Finished else Unfinished
  }

  /** The fields releasing the slider writes. */
  function SetProgress(b: Book, v: int): Book
  {
    b.(progress := v, isComplete := v == 100)
  }

  function ProgressTo(v: int): Book -> Book
  {
    (b: Book) => SetProgress(b, v)
  }

  /** Releasing the slider on record `id` at `v`. */
  function CommitProgress(books: seq<Book>, id: string, v: int): seq<Book>
  {
    UpdateFirst(books, id, ProgressTo(v))
  }

  /** After the commit the record shown holds progress `v` and reads as
      finished exactly when `v` is 100, whatever it held before, and the chip
      says so; no other record changes and a missing record changes nothing. */
  lemma CommitProgressSpec(books: seq<Book>, id: string, v: int)
    ensures var r := CommitProgress(books, id, v);
      && |r| == |books|
      && (forall i :: 0 <= i < |books| && i != FindIndex(books, id) ==> r[i] == books[i])
      && (FindById(books, id).None? ==> r == books)
      && (FindIndex(books, id) >= 0 ==> r[FindIndex(books, id)] == SetProgress(books[FindIndex(books, id)], v))
      && (FindById(books, id).Some? ==>
            FindById(r, id) == Some(FindById(books, id).value.(progress := v, isComplete := v == 100)))
      && (FindById(r, id).Some? && 0 <= v <= 100 ==>
            (IsDone(FindById(r, id).value) <==> StatusAfterCommit(v) == Finished))
  {
    UpdateFirstChangesOne(books, id, ProgressTo(v));
    var k := FindIndex(books, id);
    if k >= 0 {
      var r := CommitProgress(books, id, v);
      assert r[k].id == id;
      assert forall i :: 0 <= i < k ==> r[i].id != id;
      assert FindIndex(r, id) == k;
    }
  }

  /** Committing a value on the slider's range keeps the collection well
      formed. */
  lemma CommitProgressWellFormed(books: seq<Book>, id: string, v: int)
    requires WellFormed(books) && 0 <= v <= 100
    ensures WellFormed(CommitProgress(books, id, v))
  {
    UpdateFirstWellFormed(books, id, ProgressTo(v));
  }

  /** Opening the page and dragging disagree on a half-read record: the
      page first draws a bar at 50 to 99 orange, the slider at the same
      value draws it blue. */
  lemma FirstDrawAndDragDiffer(b: Book)
    requires !b.isComplete && 50 <= b.progress < 100
    ensures InitialLook(b).1 == Orange && SliderColour(b.progress) == Blue
  {
  }
}
