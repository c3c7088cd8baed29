/** renderExplore / updateExplore: the category and title filters, the
    result list and its count label (script.js:330-521). The mark and delete
    buttons of its items change the stored collection and are methods of
    Storage.Shelf. */
module ExploreScreen {
  import opened JsText
  import opened JsArray
  import opened Records

  /** The category button that imposes no category constraint. */
  const AllCategories := "Semua"

  /** The category buttons, in order; the first starts active. */
  const CategoryButtons: seq<string> :=
    ["Semua", "Fiction", "Non Fiksi", "Teknologi", "self-help", "Sejarah", "Sains", "biography", "business", "Lainnya"]

  /** The category filter: the lower-cased category contains the lower-cased
      active category. */
  function InCategory(activeCat: string): Book -> bool
  {
    (b: Book) => Includes(Lower(b.category), Lower(activeCat))
  }

  /** The search filter: the lower-cased title contains the (already
      lower-cased) term. */
  function TitleHas(term: string): Book -> bool
  {
    (b: Book) => Includes(Lower(b.title), term)
  }

  /** The list updateExplore renders: the category filter unless "Semua" is
      active, then the title filter unless the search box is empty. */
  function ExploreList(books: seq<Book>, activeCat: string, search: string): seq<Book>
  {
    var term := Lower(search);
    var byCategory := if activeCat != AllCategories then Filter(books, InCategory(activeCat)) else books;
    if term != "" then Filter(byCategory, TitleHas(term)) else byCategory
  }

  /** Whether a record passes both filters. */
  predicate Matches(b: Book, activeCat: string, search: string)
  {
    && (activeCat != AllCategories ==> Includes(Lower(b.category), Lower(activeCat)))
    && (search != "" ==> Includes(Lower(b.title), Lower(search)))
  }

  function MatchesAll(activeCat: string, search: string): Book -> bool
  {
    (b: Book) => Matches(b, activeCat, search)
  }

  /** The two filters in a row are one filter by both conditions. */
  lemma ExploreListIsOneFilter(books: seq<Book>, activeCat: string, search: string)
    ensures ExploreList(books, activeCat, search) == Filter(books, MatchesAll(activeCat, search))
  {
    var term := Lower(search);
    assert term != "" <==> search != "";
    if activeCat != AllCategories && term != "" {
      FilterFilter(books, InCategory(activeCat), TitleHas(term), MatchesAll(activeCat, search));
    } else if activeCat != AllCategories {
      assert forall b: Book :: MatchesAll(activeCat, search)(b) == InCategory(activeCat)(b);
      FilterSame(books, InCategory(activeCat), MatchesAll(activeCat, search));
    } else if term != "" {
      assert forall b: Book :: MatchesAll(activeCat, search)(b) == TitleHas(term)(b);
      FilterSame(books, TitleHas(term), MatchesAll(activeCat, search));
    } else {
      FilterKeepsAll(books, MatchesAll(activeCat, search));
    }
  }

  lemma {:induction false} FilterSame(s: seq<Book>, p: Book -> bool, q: Book -> bool)
    requires forall b: Book :: p(b) == q(b)
    ensures Filter(s, p) == Filter(s, q)
  {
    if s != [] {
      FilterSame(s[1..], p, q);
    }
  }

  /** The result is the records passing both filters, each as often as it is
      stored and in stored order: with "Semua" there is no category
      constraint, with an empty search box no title constraint. */
  lemma ExploreListSpec(books: seq<Book>, activeCat: string, search: string)
    ensures var r := ExploreList(books, activeCat, search);
      && (forall b :: b in r <==> b in books && Matches(b, activeCat, search))
      && (forall b :: multiset(r)[b] == if Matches(b, activeCat, search) then multiset(books)[b] else 0)
      && IsSubsequence(r, books)
  {
    ExploreListIsOneFilter(books, activeCat, search);
    FilterMembers(books, MatchesAll(activeCat, search));
    FilterCount(books, MatchesAll(activeCat, search));
    FilterIsSubsequence(books, MatchesAll(activeCat, search));
  }

  /** One item of the result list: the record, its percentage, and whether
      it reads as finished (finished items get the "selesai" badge and the
      "mark incomplete" button, the others "mark complete"). */
  datatype ExploreItem = ExploreItem(book: Book, percent: int, done: bool)

  /** What updateExplore renders: the items, the number in the count label
      and whether the "no results" card is shown. */
  datatype ExploreView = ExploreView(items: seq<ExploreItem>, count: nat, noResults: bool)

  function ItemOf(b: Book): ExploreItem
  {
    ExploreItem(b, b.progress, IsDone(b))
  }

  function Explore(books: seq<Book>, activeCat: string, search: string): ExploreView
  {
    var list := ExploreList(books, activeCat, search);
    ExploreView(seq(|list|, i requires 0 <= i < |list| => ItemOf(list[i])), |list|, |list| == 0)
  }

  /** The count label and the "no results" card agree with the items, and
      the items are the filtered records in order. */
  lemma ExploreViewSpec(books: seq<Book>, activeCat: string, search: string)
    ensures var v, list := Explore(books, activeCat, search), ExploreList(books, activeCat, search);
      && v.count == |v.items| == |list|
      && (v.noResults <==> v.items == [])
      && forall i :: 0 <= i < |v.items| ==> v.items[i].book == list[i] && v.items[i].done == IsDone(list[i])
  {
  }

  /** A search term that no title contains (ignoring case) gives a count of
      0 and the "no results" card. */
  lemma NoTitleMatches(books: seq<Book>, activeCat: string, search: string)
    requires search != ""
    requires forall i :: 0 <= i < |books| ==> !Includes(Lower(books[i].title), Lower(search))
    ensures Explore(books, activeCat, search).count == 0
    ensures Explore(books, activeCat, search).noResults
  {
    ExploreListSpec(books, activeCat, search);
    var r := ExploreList(books, activeCat, search);
    assert forall b :: b in books ==> !Matches(b, activeCat, search);
    assert multiset(r) == multiset{};
  }
}
