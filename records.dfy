/** The book record and the lookups and edits by id that every handler of
    the shelf is built from (script.js: findBookById, removeBookById, and the
    findIndex / splice / field-assignment steps of the click handlers). */
module Records {
  import opened JsArray

  datatype Option<T> = None | Some(value: T)

  /** One library entry, as stored in the JSON array. A missing cover is
      None (the source stores null). */
  datatype Book = Book(
    id: string,
    title: string,
    author: string,
    year: string,
    description: string,
    category: string,
    cover: Option<string>,
    isComplete: bool,
    progress: int,
    createdAt: string)

  /** No two records share an id. */
  ghost predicate UniqueIds(books: seq<Book>)
  {
    forall i, j :: 0 <= i < j < |books| ==> books[i].id != books[j].id
  }

  /** Every progress is a percentage. */
  ghost predicate ProgressInRange(books: seq<Book>)
  {
    forall i :: 0 <= i < |books| ==> 0 <= books[i].progress <= 100
  }

  ghost predicate WellFormed(books: seq<Book>)
  {
    UniqueIds(books) && ProgressInRange(books)
  }

  /** How the list views and the detail page read a record: finished when it
      is flagged complete or its progress is at 100. */
  predicate IsDone(b: Book)
  {
    b.isComplete || b.progress == 100
  }

  /** The "mark complete" assignment. */
  function Completed(b: Book): Book
  {
    b.(isComplete := true, progress := 100)
  }

  /** The "mark incomplete" assignment. */
  function Cleared(b: Book): Book
  {
    b.(isComplete := false, progress := 0)
  }

  /** The mark button of a list item: "mark incomplete" on a finished
      record, "mark complete" on any other. */
  function Toggle(b: Book): Book
  {
    if IsDone(b) then Cleared(b) else Completed(b)
  }

  /** The mark button always flips how the record reads, touches only the
      two completion fields, and leaves them consistent. */
  lemma ToggleFlips(b: Book)
    ensures IsDone(Toggle(b)) == !IsDone(b)
    ensures Toggle(b).isComplete == !IsDone(b)
    ensures Toggle(b).progress == if IsDone(b) then 0 else 100
    ensures Toggle(b).(isComplete := b.isComplete, progress := b.progress) == b
  {
  }

  /** Pressing the mark button twice gives the record back exactly when its
      completion fields were already in one of the two states the button
      writes: (true, 100) or (false, 0). */
  lemma ToggleTwice(b: Book)
    ensures Toggle(Toggle(b)) == b <==> (b.isComplete, b.progress) in {(true, 100), (false, 0)}
  {
    if IsDone(b) {
      assert Toggle(Toggle(b)) == Completed(b);
    } else {
      assert Toggle(Toggle(b)) == Cleared(b);
    }
  }

  /** Array.prototype.findIndex on the id: the first position holding `id`,
      or -1 when there is none. */
  function FindIndex(books: seq<Book>, id: string): (r: int)
    ensures -1 <= r < |books|
    ensures r == -1 <==> forall i :: 0 <= i < |books| ==> books[i].id != id
    ensures r >= 0 ==> books[r].id == id && forall i :: 0 <= i < r ==> books[i].id != id
  {
    if books == [] then -1
    else if books[0].id == id then 0
    else
      var k := FindIndex(books[1..], id);
      if k == -1 then -1 else k + 1
  }

  /** With unique ids, the record holding `id` is found at its own position. */
  lemma FindIndexUnique(books: seq<Book>, i: nat)
    requires UniqueIds(books) && i < |books|
    ensures FindIndex(books, books[i].id) == i
  {
  }

  /** findBookById: the first record holding `id`, or nothing. */
  function FindById(books: seq<Book>, id: string): (r: Option<Book>)
    ensures r.None? <==> forall i :: 0 <= i < |books| ==> books[i].id != id
    ensures r.Some? ==> r.value.id == id
    ensures r.Some? ==> exists k :: 0 <= k < |books| && books[k] == r.value && forall i :: 0 <= i < k ==> books[i].id != id
  {
    var k := FindIndex(books, id);
    if k == -1 then None else Some(books[k])
  }

  /** The filter predicate of removeBookById. */
  function Other(id: string): Book -> bool
  {
    (b: Book) => b.id != id
  }

  /** removeBookById: every record holding `id` is dropped, every other one
      kept (as often as it occurs) in its original order. */
  function RemoveById(books: seq<Book>, id: string): (r: seq<Book>)
    ensures forall b :: multiset(r)[b] == if b.id == id then 0 else multiset(books)[b]
    ensures IsSubsequence(r, books)
  {
    FilterIsSubsequence(books, Other(id));
    FilterCount(books, Other(id));
    Filter(books, Other(id))
  }

  /** The in-place edit of the Save card, the slider and the edit form:
      the first record holding `id` is replaced by `f` of itself. */
  function UpdateFirst(books: seq<Book>, id: string, f: Book -> Book): seq<Book>
  {
    var k := FindIndex(books, id);
    if k == -1 then books else books[k := f(books[k])]
  }

  /** The mark button as an edit of one record. */
  function Flip(): Book -> Book
  {
    (b: Book) => Toggle(b)
  }

  /** Marking the same id twice gives the collection back when the record
      marked was in one of the two states the button writes. */
  lemma FlipTwice(books: seq<Book>, id: string)
    requires FindIndex(books, id) >= 0 ==>
      (books[FindIndex(books, id)].isComplete, books[FindIndex(books, id)].progress) in {(true, 100), (false, 0)}
    ensures UpdateFirst(UpdateFirst(books, id, Flip()), id, Flip()) == books
  {
    var k := FindIndex(books, id);
    UpdateFirstChangesOne(books, id, Flip());
    if k >= 0 {
      var once := UpdateFirst(books, id, Flip());
      assert once[k].id == id;
      assert FindIndex(once, id) == k;
      ToggleTwice(books[k]);
      assert once[k := Toggle(once[k])] == books;
    }
  }

  /** Only the first record holding `id` changes, and only to `f` of
      itself; without such a record nothing changes. */
  lemma UpdateFirstChangesOne(books: seq<Book>, id: string, f: Book -> Book)
    ensures |UpdateFirst(books, id, f)| == |books|
    ensures FindIndex(books, id) == -1 ==> UpdateFirst(books, id, f) == books
    ensures forall i :: 0 <= i < |books| && i != FindIndex(books, id) ==> UpdateFirst(books, id, f)[i] == books[i]
    ensures forall i :: 0 <= i < |books| && books[i].id != id ==> UpdateFirst(books, id, f)[i] == books[i]
    ensures FindIndex(books, id) >= 0 ==> UpdateFirst(books, id, f)[FindIndex(books, id)] == f(books[FindIndex(books, id)])
  {
  }

  /** An edit that keeps ids and percentages in range keeps the collection
      well formed. */
  lemma UpdateFirstWellFormed(books: seq<Book>, id: string, f: Book -> Book)
    requires WellFormed(books)
    requires forall b: Book :: f(b).id == b.id
    requires forall b: Book :: 0 <= b.progress <= 100 ==> 0 <= f(b).progress <= 100
    ensures WellFormed(UpdateFirst(books, id, f))
  {
  }

  /** Appending a record whose id is not stored yet and whose progress is
      a percentage keeps the collection well formed. */
  lemma AppendWellFormed(books: seq<Book>, b: Book)
    requires WellFormed(books) && FindIndex(books, b.id) == -1 && 0 <= b.progress <= 100
    ensures WellFormed(books + [b])
  {
    var r := books + [b];
    forall i, j | 0 <= i < j < |r|
      ensures r[i].id != r[j].id
    {
      if j == |books| {
        assert r[i] == books[i];
      }
    }
  }

  /** The Save-card delete: findIndex, then splice(idx, 1) behind an
      `idx !== -1` guard. */
  function DeleteFirst(books: seq<Book>, id: string): seq<Book>
  {
    var k := FindIndex(books, id);
    if k == -1 then books else books[..k] + books[k + 1..]
  }

  /** The delete removes exactly one record, the first holding `id`, when
      there is one, keeping the others in order; otherwise nothing changes. */
  lemma DeleteFirstSpec(books: seq<Book>, id: string)
    ensures FindIndex(books, id) == -1 ==> DeleteFirst(books, id) == books
    ensures FindIndex(books, id) >= 0 ==>
      |DeleteFirst(books, id)| == |books| - 1 &&
      multiset(DeleteFirst(books, id)) == multiset(books) - multiset{books[FindIndex(books, id)]}
    ensures FindIndex(books, id) >= 0 ==>
      var r, k := DeleteFirst(books, id), FindIndex(books, id);
      && (forall i :: 0 <= i < k ==> r[i] == books[i])
      && (forall i :: k <= i < |books| - 1 ==> r[i] == books[i + 1])
    ensures IsSubsequence(DeleteFirst(books, id), books)
  {
    var k := FindIndex(books, id);
    if k >= 0 {
      assert DeleteFirst(books, id) == books[..k] + books[k + 1..];
      Cut(books, k);
    } else {
      SubsequenceRefl(books);
    }
  }

  /** Cutting position `k` out removes one copy of `s[k]`, keeps what is
      before it, moves up what is after it, and keeps the order. */
  lemma Cut(s: seq<Book>, k: nat)
    requires k < |s|
    ensures var r := s[..k] + s[k + 1..];
      && |r| == |s| - 1
      && multiset(r) == multiset(s) - multiset{s[k]}
      && (forall i :: 0 <= i < k ==> r[i] == s[i])
      && (forall i :: k <= i < |s| - 1 ==> r[i] == s[i + 1])
      && IsSubsequence(r, s)
  {
    CutPositions(s, k);
    CutCount(s, k);
    DropIsSubsequence(s, k);
  }

  lemma CutPositions(s: seq<Book>, k: nat)
    requires k < |s|
    ensures var r := s[..k] + s[k + 1..];
      && (forall i :: 0 <= i < k ==> r[i] == s[i])
      && (forall i :: k <= i < |s| - 1 ==> r[i] == s[i + 1])
  {
  }

  lemma CutCount(s: seq<Book>, k: nat)
    requires k < |s|
    ensures multiset(s[..k] + s[k + 1..]) == multiset(s) - multiset{s[k]}
  {
    assert s == s[..k] + [s[k]] + s[k + 1..];
  }

  lemma {:induction false} SubsequenceRefl(s: seq<Book>)
    ensures IsSubsequence(s, s)
  {
    if s != [] {
      SubsequenceRefl(s[1..]);
    }
  }

  lemma {:induction false} DropIsSubsequence(s: seq<Book>, k: nat)
    requires k < |s|
    ensures IsSubsequence(s[..k] + s[k + 1..], s)
  {
    var r := s[..k] + s[k + 1..];
    if k == 0 {
      assert r == s[1..];
      SubsequenceRefl(s[1..]);
    } else {
      DropIsSubsequence(s[1..], k - 1);
      assert r[0] == s[0];
      assert r[1..] == s[1..][..k - 1] + s[1..][k..];
    }
  }

  /** With unique ids, deleting the first holder of `id` is removeBookById. */
  lemma DeleteFirstIsRemoveById(books: seq<Book>, id: string)
    requires UniqueIds(books)
    ensures DeleteFirst(books, id) == RemoveById(books, id)
  {
    var k := FindIndex(books, id);
    if k == -1 {
      KeepsOthers(books, id);
    } else {
      forall i | k < i < |books|
        ensures books[i].id != id
      {
        assert books[k].id != books[i].id;
      }
      FilterAroundHolder(books, k, id);
      assert RemoveById(books, id) == Filter(books, Other(id));
    }
  }

  /** Filtering out `id` from a collection whose only holder of `id` sits at
      `k` cuts position `k` out. */
  lemma FilterAroundHolder(books: seq<Book>, k: nat, id: string)
    requires k < |books| && books[k].id == id
    requires forall i :: 0 <= i < k ==> books[i].id != id
    requires forall i :: k < i < |books| ==> books[i].id != id
    ensures Filter(books, Other(id)) == books[..k] + books[k + 1..]
  {
    var pre, post, p := books[..k], books[k + 1..], Other(id);
    SplitAt(books, k);
    KeepsBefore(books, k, id);
    KeepsAfter(books, k, id);
    assert [books[k]][1..] == [];
    assert Filter([books[k]], p) == [];
    FilterConcat([books[k]], post, p);
    assert Filter([books[k]] + post, p) == post;
    FilterConcat(pre, [books[k]] + post, p);
    assert Filter(pre + ([books[k]] + post), p) == pre + post;
  }

  lemma SplitAt(s: seq<Book>, k: nat)
    requires k < |s|
    ensures s == s[..k] + ([s[k]] + s[k + 1..])
  {
  }

  lemma KeepsBefore(books: seq<Book>, k: nat, id: string)
    requires k <= |books|
    requires forall i :: 0 <= i < k ==> books[i].id != id
    ensures Filter(books[..k], Other(id)) == books[..k]
  {
    var pre := books[..k];
    forall i | 0 <= i < |pre|
      ensures pre[i].id != id
    {
      assert pre[i] == books[i];
    }
    KeepsOthers(pre, id);
  }

  lemma KeepsAfter(books: seq<Book>, k: nat, id: string)
    requires k < |books|
    requires forall i :: k < i < |books| ==> books[i].id != id
    ensures Filter(books[k + 1..], Other(id)) == books[k + 1..]
  {
    var post := books[k + 1..];
    forall i | 0 <= i < |post|
      ensures post[i].id != id
    {
      assert post[i] == books[k + 1 + i];
    }
    KeepsOthers(post, id);
  }

  /** removeBookById keeps a collection with no record holding `id` as it is. */
  lemma KeepsOthers(books: seq<Book>, id: string)
    requires forall i :: 0 <= i < |books| ==> books[i].id != id
    ensures Filter(books, Other(id)) == books
  {
    FilterKeepsAll(books, Other(id));
  }

  /** The Explore delete: findIndex then splice(idx, 1) with no guard. When
      the id is held this is the Save-card delete; when it is not, splice's
      -1 start drops the last record. */
  lemma SpliceAtFindIndex(books: seq<Book>, id: string)
    ensures FindIndex(books, id) >= 0 ==> SpliceOne(books, FindIndex(books, id)) == DeleteFirst(books, id)
    ensures FindIndex(books, id) == -1 && books != [] ==> SpliceOne(books, FindIndex(books, id)) == books[..|books| - 1]
  {
  }

  /** Deleting keeps the collection well formed. */
  lemma DeleteFirstWellFormed(books: seq<Book>, id: string)
    requires WellFormed(books)
    ensures WellFormed(DeleteFirst(books, id))
  {
    var k := FindIndex(books, id);
    if k >= 0 {
      var r := DeleteFirst(books, id);
      assert forall i :: 0 <= i < |r| ==> r[i] == books[if i < k then i else i + 1];
    }
  }

  /** removeBookById keeps the collection well formed. */
  lemma RemoveByIdWellFormed(books: seq<Book>, id: string)
    requires WellFormed(books)
    ensures WellFormed(RemoveById(books, id))
  {
    DeleteFirstIsRemoveById(books, id);
    DeleteFirstWellFormed(books, id);
  }

  /** Overwriting a record with one of the same id and an in-range progress
      keeps the collection well formed. */
  lemma ReplaceWellFormed(books: seq<Book>, i: nat, b: Book)
    requires WellFormed(books) && i < |books| && b.id == books[i].id && 0 <= b.progress <= 100
    ensures WellFormed(books[i := b])
  {
  }
}
