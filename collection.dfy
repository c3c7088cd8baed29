/** renderSave and the effective createSaveCard: the collection split into
    an unfinished and a finished list, and what each card shows
    (script.js:528-674). The card's mark and delete buttons change the stored
    collection and are methods of Storage.Shelf. */
module SaveScreen {
  import opened JsArray
  import opened Records
  import HomeScreen

  /** The two lists of the Save page, each with its own count label. */
  datatype Buckets = Buckets(incomplete: seq<Book>, complete: seq<Book>)

  /** books.filter(b => !b.isComplete) and books.filter(b => b.isComplete). */
  function Partition(books: seq<Book>): Buckets
  {
    Buckets(Filter(books, HomeScreen.Unfinished()), Filter(books, HomeScreen.Finished()))
  }

  /** The unfinished list holds exactly the records not flagged complete and
      the finished list exactly the flagged ones, each in stored order; every
      record lands in exactly one list, so the two counts add up to the total. */
  lemma PartitionSpec(books: seq<Book>)
    ensures var r := Partition(books);
      && (forall b :: b in r.incomplete <==> b in books && !b.isComplete)
      && (forall b :: b in r.complete <==> b in books && b.isComplete)
      && multiset(r.incomplete) + multiset(r.complete) == multiset(books)
      && |r.incomplete| + |r.complete| == |books|
      && IsSubsequence(r.incomplete, books) && IsSubsequence(r.complete, books)
  {
    FilterMembers(books, HomeScreen.Unfinished());
    FilterMembers(books, HomeScreen.Finished());
    FilterSplit(books, HomeScreen.Unfinished(), HomeScreen.Finished());
    FilterIsSubsequence(books, HomeScreen.Unfinished());
    FilterIsSubsequence(books, HomeScreen.Finished());
  }

  /** The bucket counts are the home page's counts. */
  lemma PartitionMatchesHome(books: seq<Book>)
    ensures |Partition(books).complete| == HomeScreen.HomeStats(books).complete
    ensures |Partition(books).incomplete| == HomeScreen.HomeStats(books).incomplete
  {
    HomeScreen.HomeStatsBounds(books);
  }

  /** The mark button a card carries. */
  datatype MarkButton = MarkIncomplete | MarkComplete

  /** The colour of a card's bar and percentage. */
  datatype CardColour = Accent | Orange

  /** What createSaveCard shows for a record. */
  datatype Card = Card(book: Book, percent: int, colour: CardColour, button: MarkButton)

  function CardOf(b: Book): Card
  {
    if IsDone(b) then Card(b, b.progress, Accent, MarkIncomplete)
    else Card(b, b.progress, Orange, MarkComplete)
  }

  /** Every card of the finished list offers "mark incomplete"; a card of
      the unfinished list offers "mark complete" unless its progress is at
      100, the state an edit that unticks the completion box leaves behind. */
  lemma CardButtons(books: seq<Book>)
    ensures forall b :: b in Partition(books).complete ==> CardOf(b).button == MarkIncomplete
    ensures forall b :: b in Partition(books).incomplete ==> (CardOf(b).button == MarkComplete <==> b.progress != 100)
  {
    PartitionSpec(books);
  }
}
