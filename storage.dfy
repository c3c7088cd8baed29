/** The browser storage slot that holds the collection and the handlers
    that read and rewrite it: findBookById and removeBookById, the mark and
    delete buttons of the Save cards and of the Explore items, the detail
    page's slider commit and the add/edit submit (script.js:8-39, 466-521,
    626-674, 918-968, 1042-1063). Each handler loads the collection, changes
    it and saves it back, or saves nothing when the source returns early. */
module Storage {
  import opened JsArray
  import opened Records
  import opened ExploreScreen
  import FormScreen
  import DetailScreen

  /** The localStorage entry under "bookshelf_books_v1": absent (or empty),
      holding text that does not parse, or holding a serialised collection. */
  datatype Slot = Missing | Unreadable | Stored(books: seq<Book>)

  /** loadBooks: the stored collection, or the empty one when the entry is
      absent or does not parse. */
  function Decode(slot: Slot): (r: seq<Book>)
    ensures slot.Stored? ==> r == slot.books
    ensures !slot.Stored? ==> r == []
  {
    match slot
    case Stored(books) => books
    case _ => []
  }

  /** The storage of one browser profile. */
  class Shelf {
    var slot: Slot

    constructor(initial: Slot)
      ensures slot == initial
    {
      slot := initial;
    }

    /** loadBooks. */
    function Books(): seq<Book>
      reads this
    {
      Decode(slot)
    }

    /** saveBooks: the entry holds `books` and loads back as `books`. */
    method SaveBooks(books: seq<Book>)
      modifies this
      ensures slot == Stored(books) && Books() == books
    {
      slot := Stored(books);
    }

    /** findBookById: reads the collection and changes nothing. */
    method FindBookById(id: string) returns (r: Option<Book>)
      ensures r == FindById(Books(), id)
      ensures r.None? <==> forall i :: 0 <= i < |Books()| ==> Books()[i].id != id
      ensures r.Some? ==> r.value.id == id
    {
      var books := Books();
      r := FindById(books, id);
    }

    /** removeBookById: saves and returns the collection without any record
        holding `id`; it saves even when nothing was removed. */
    method RemoveBookById(id: string) returns (r: seq<Book>)
      modifies this
      ensures r == RemoveById(old(Books()), id)
      ensures slot == Stored(r)
      ensures forall i :: 0 <= i < |r| ==> r[i].id != id
      ensures WellFormed(old(Books())) ==> WellFormed(Books())
    {
      var books := Books();
      if WellFormed(books) {
        RemoveByIdWellFormed(books, id);
      }
      r := RemoveById(books, id);
      forall i | 0 <= i < |r|
        ensures r[i].id != id
      {
        assert multiset(r)[r[i]] > 0;
      }
      SaveBooks(r);
    }

    /** The mark button of a Save card drawn from `card`: the card decides
        the direction (finished cards clear, others complete), the first
        stored record holding the card's id receives it, and the collection
        is saved; when no record holds the id nothing is saved. */
    method MarkFromSaveCard(card: Book)
      modifies this
      ensures var books, k := old(Books()), FindIndex(old(Books()), card.id);
        && (k == -1 ==> slot == old(slot))
        && (k >= 0 ==> slot == Stored(books[k := if IsDone(card) then Cleared(books[k]) else Completed(books[k])]))
      ensures FindById(old(Books()), card.id) == Some(card) ==> Books() == UpdateFirst(old(Books()), card.id, Flip())
      ensures WellFormed(old(Books())) ==> WellFormed(Books())
    {
      var books := Books();
      var k := FindIndex(books, card.id);
      if k != -1 {
        var marked := if IsDone(card) then Cleared(books[k]) else Completed(books[k]);
        ghost var before := books;
        books := books[k := marked];
        if WellFormed(before) {
          ReplaceWellFormed(before, k, marked);
        }
        SaveBooks(books);
      }
    }

    /** The delete button of a Save card, after the confirmation dialog:
        with `confirmed` and a record holding `id`, the first such record is
        removed and the collection saved; otherwise nothing is saved. */
    method DeleteFromSaveCard(id: string, confirmed: bool)
      modifies this
      ensures confirmed && FindIndex(old(Books()), id) >= 0 ==> slot == Stored(DeleteFirst(old(Books()), id))
      ensures !confirmed || FindIndex(old(Books()), id) == -1 ==> slot == old(slot)
      ensures WellFormed(old(Books())) ==> WellFormed(Books())
    {
      if confirmed {
        var books := Books();
        var k := FindIndex(books, id);
        if k != -1 {
          if WellFormed(books) {
            DeleteFirstWellFormed(books, id);
          }
          books := books[..k] + books[k + 1..];
          SaveBooks(books);
        }
      }
    }

    /** Releasing the detail page's slider at `v` on record `id`: the first
        record holding `id` takes progress `v` and is flagged complete
        exactly when `v` is 100, and the collection is saved; when no record
        holds the id nothing is saved. */
    method CommitSlider(id: string, v: int)
      modifies this
      ensures FindIndex(old(Books()), id) >= 0 ==> slot == Stored(DetailScreen.CommitProgress(old(Books()), id, v))
      ensures FindIndex(old(Books()), id) == -1 ==> slot == old(slot)
      ensures WellFormed(old(Books())) && 0 <= v <= 100 ==> WellFormed(Books())
    {
      var books := Books();
      var k := FindIndex(books, id);
      if k != -1 {
        ghost var before := books;
        books := books[k := books[k].(progress := v, isComplete := v == 100)];
        assert books == DetailScreen.CommitProgress(before, id, v);
        if WellFormed(before) && 0 <= v <= 100 {
          DetailScreen.CommitProgressWellFormed(before, id, v);
        }
        SaveBooks(books);
      }
    }

    /** The add/edit form's submit: the outcome is FormScreen.Submit's, and
        the collection is saved exactly when the outcome is a save. */
    method SubmitForm(f: FormScreen.FormInput, editId: string, newId: string, now: string) returns (r: FormScreen.SubmitResult)
      modifies this
      ensures r == FormScreen.Submit(old(Books()), f, editId, newId, now)
      ensures r.Saved? ==> slot == Stored(r.books)
      ensures !r.Saved? ==> slot == old(slot)
      ensures WellFormed(old(Books())) && (editId == "" ==> FindIndex(old(Books()), newId) == -1) ==> WellFormed(Books())
    {
      var books := Books();
      r := FormScreen.Submit(books, f, editId, newId, now);
      if WellFormed(books) && (editId == "" ==> FindIndex(books, newId) == -1) {
        FormScreen.SubmitWellFormed(books, f, editId, newId, now);
      }
      if r.Saved? {
        SaveBooks(r.books);
      }
    }
  }

  /** The Explore page: the collection it loaded when it was drawn (the
      list, the filters and the item buttons all work on this copy), the
      active category button, the search box, and the storage it saves to. */
  class ExplorePage {
    var books: seq<Book>
    var activeCat: string
    var search: string
    const shelf: Shelf

    /** renderExplore: loads the collection once; "Semua" starts active and
        the search box empty. */
    constructor(shelf: Shelf)
      ensures this.shelf == shelf && books == shelf.Books()
      ensures activeCat == AllCategories == CategoryButtons[0] && search == ""
      ensures InSync()
      ensures View().items == Explore(books, AllCategories, "").items && View().count == |books|
    {
      this.shelf := shelf;
      books := shelf.Books();
      activeCat := AllCategories;
      search := "";
    }

    /** The page's copy is what storage holds. */
    predicate InSync()
      reads this, shelf
    {
      books == shelf.Books()
    }

    /** What updateExplore shows for the current state. */
    function View(): ExploreView
      reads this
    {
      Explore(books, activeCat, search)
    }

    /** A category button click: it becomes the only active one. */
    method SelectCategory(c: string)
      modifies this
      ensures activeCat == c && books == old(books) && search == old(search)
    {
      activeCat := c;
    }

    /** Typing in the search box. */
    method SetSearch(s: string)
      modifies this
      ensures search == s && books == old(books) && activeCat == old(activeCat)
    {
      search := s;
    }

    /** The mark button of the item showing the record at position `i` of
        the page's copy: the record flips between finished and unfinished
        in place and the whole copy is saved. */
    method Mark(i: nat)
      requires i < |books|
      modifies this, shelf
      ensures books == old(books)[i := Toggle(old(books)[i])]
      ensures IsDone(books[i]) == !IsDone(old(books)[i])
      ensures activeCat == old(activeCat) && search == old(search)
      ensures shelf.slot == Stored(books) && InSync()
      ensures WellFormed(old(books)) ==> WellFormed(books)
    {
      ToggleFlips(books[i]);
      if WellFormed(books) {
        ReplaceWellFormed(books, i, Toggle(books[i]));
      }
      books := books[i := Toggle(books[i])];
      shelf.SaveBooks(books);
    }

    /** The delete button of the item showing the record at position `i`,
        after the confirmation dialog: findIndex on its id and splice with no
        guard. The id is always found, so this removes the first record
        holding it (with duplicate ids, not necessarily position `i`) and
        saves; without confirmation nothing changes. */
    method Delete(i: nat, confirmed: bool)
      requires i < |books|
      modifies this, shelf
      ensures confirmed ==> books == DeleteFirst(old(books), old(books)[i].id) && shelf.slot == Stored(books) && InSync()
      ensures confirmed ==> |books| == |old(books)| - 1
      ensures !confirmed ==> books == old(books) && shelf.slot == old(shelf.slot)
      ensures activeCat == old(activeCat) && search == old(search)
      ensures WellFormed(old(books)) ==> WellFormed(books)
    {
      if confirmed {
        var id := books[i].id;
        var idx := FindIndex(books, id);
        SpliceAtFindIndex(books, id);
        if WellFormed(books) {
          DeleteFirstWellFormed(books, id);
        }
        books := SpliceOne(books, idx);
        shelf.SaveBooks(books);
      }
    }
  }
}
