/** renderAddBook: the add/edit form. Edit mode pre-fills the form from
    the record and preselects its category; submitting validates the trimmed
    fields, resolves the category, and either appends a new record or
    overwrites the edited one in place (script.js:677-968). */
module FormScreen {
  import opened JsText
  import JsArray
  import opened Records
  import Routing

  /** One category control of the form page: its data-category attribute
      ("" when it has none), its text, and whether it is marked active. */
  datatype CategoryButton = CategoryButton(dataCategory: string, text: string, active: bool)

  /** The category of a record submitted with no active control. */
  const DefaultCategory := "Other"

  /** What an active control stands for at submit: its data-category, or
      else its trimmed text. */
  function ButtonCategory(b: CategoryButton): string
  {
    if b.dataCategory != "" then b.dataCategory else Trim(b.text)
  }

  /** Position `i` holds the first active control. */
  predicate FirstActive(buttons: seq<CategoryButton>, i: int)
  {
    0 <= i < |buttons| && buttons[i].active && forall j :: 0 <= j < i ==> !buttons[j].active
  }

  /** No control is active. */
  predicate NoneActive(buttons: seq<CategoryButton>)
  {
    forall i :: 0 <= i < |buttons| ==> !buttons[i].active
  }

  /** The submit's category: that of the first active control, "Other" when
      none is active. */
  function ResolveCategory(buttons: seq<CategoryButton>): (r: string)
    ensures NoneActive(buttons) ==> r == DefaultCategory
    ensures forall i :: FirstActive(buttons, i) ==> r == ButtonCategory(buttons[i])
  {
    if buttons == [] then DefaultCategory
    else if buttons[0].active then ButtonCategory(buttons[0])
    else
      var r := ResolveCategory(buttons[1..]);
      assert forall i :: FirstActive(buttons, i) ==> FirstActive(buttons[1..], i - 1);
      r
  }

  /** A click on control `i`: every control loses the active mark, then
      the clicked one gets it. */
  function ClickCategory(buttons: seq<CategoryButton>, i: nat): (r: seq<CategoryButton>)
    requires i < |buttons|
    ensures |r| == |buttons|
  {
    seq(|buttons|, j requires 0 <= j < |buttons| => buttons[j].(active := j == i))
  }

  /** After a click the clicked control is the only active one and the
      submit takes its category; the controls are otherwise unchanged. */
  lemma ClickThenResolve(buttons: seq<CategoryButton>, i: nat)
    requires i < |buttons|
    ensures var r := ClickCategory(buttons, i);
      && (forall j :: 0 <= j < |r| ==> (r[j].active <==> j == i))
      && (forall j :: 0 <= j < |r| ==> r[j].dataCategory == buttons[j].dataCategory && r[j].text == buttons[j].text)
      && ResolveCategory(r) == ButtonCategory(buttons[i])
  {
    var r := ClickCategory(buttons, i);
    assert FirstActive(r, i);
    assert ButtonCategory(r[i]) == ButtonCategory(buttons[i]);
  }

  /** How edit mode compares categories: lower-cased, then trimmed. */
  function Normalize(s: string): string
  {
    Trim(Lower(s))
  }

  /** The key of a control in edit mode: its data-category, else its text,
      normalised. */
  function ButtonKey(b: CategoryButton): string
  {
    Normalize(if b.dataCategory != "" then b.dataCategory else b.text)
  }

  /** Edit-mode preselection: a non-empty stored category marks active
      exactly the controls whose key is the normalised category; an empty
      one leaves the controls as they are. */
  function Preselect(buttons: seq<CategoryButton>, category: string): (r: seq<CategoryButton>)
    ensures |r| == |buttons|
  {
    if category == "" then buttons
    else seq(|buttons|, i requires 0 <= i < |buttons| => buttons[i].(active := ButtonKey(buttons[i]) == Normalize(category)))
  }

  /** The category a control submits, normalised, is its key. */
  lemma NormalizeButtonCategory(b: CategoryButton)
    ensures Normalize(ButtonCategory(b)) == ButtonKey(b)
  {
    if b.dataCategory == "" {
      LowerTrimCommute(b.text);
      TrimIdempotent(Lower(b.text));
    }
  }

  /** Preselecting a stored category that some control matches, up to
      case and surrounding spaces, and submitting untouched gives back that
      category up to case and surrounding spaces. */
  lemma PreselectThenResolve(buttons: seq<CategoryButton>, category: string, i: nat)
    requires category != "" && i < |buttons| && ButtonKey(buttons[i]) == Normalize(category)
    ensures Normalize(ResolveCategory(Preselect(buttons, category))) == Normalize(category)
  {
    var m := FirstWithKey(buttons, Normalize(category), i);
    PreselectMarks(buttons, category, m);
    NormalizeButtonCategory(buttons[m]);
  }

  /** The first control whose key is `key`, given one at `i`. */
  lemma FirstWithKey(buttons: seq<CategoryButton>, key: string, i: nat) returns (m: nat)
    requires i < |buttons| && ButtonKey(buttons[i]) == key
    ensures m <= i && ButtonKey(buttons[m]) == key
    ensures forall j :: 0 <= j < m ==> ButtonKey(buttons[j]) != key
  {
    var keys := seq(|buttons|, j requires 0 <= j < |buttons| => ButtonKey(buttons[j]));
    assert keys[i] == key;
    m := FirstPosition(keys, key);
    forall j | 0 <= j < m
      ensures ButtonKey(buttons[j]) != key
    {
      assert keys[j] != key;
    }
  }

  /** Preselection marks control `m` as the first active one when it is the
      first whose key is the normalised category; the category it submits
      is unchanged by the marking. */
  lemma PreselectMarks(buttons: seq<CategoryButton>, category: string, m: nat)
    requires category != "" && m < |buttons| && ButtonKey(buttons[m]) == Normalize(category)
    requires forall j :: 0 <= j < m ==> ButtonKey(buttons[j]) != Normalize(category)
    ensures FirstActive(Preselect(buttons, category), m)
    ensures ResolveCategory(Preselect(buttons, category)) == ButtonCategory(buttons[m])
  {
    var p := Preselect(buttons, category);
    forall j | 0 <= j < m
      ensures !p[j].active
    {
      assert p[j].active == (ButtonKey(buttons[j]) == Normalize(category));
    }
    assert ButtonCategory(p[m]) == ButtonCategory(buttons[m]);
  }

  /** Preselecting a stored category that no control matches and
      submitting untouched gives "Other". */
  lemma PreselectNoMatch(buttons: seq<CategoryButton>, category: string)
    requires category != ""
    requires forall i :: 0 <= i < |buttons| ==> ButtonKey(buttons[i]) != Normalize(category)
    ensures ResolveCategory(Preselect(buttons, category)) == DefaultCategory
  {
    assert NoneActive(Preselect(buttons, category));
  }

  /** The first position of `x` in `s`, when there is one. */
  lemma {:induction false} FirstPosition(s: seq<string>, x: string) returns (m: nat)
    requires x in s
    ensures m < |s| && s[m] == x
    ensures forall i :: 0 <= i < m ==> s[i] != x
  {
    if s[0] == x {
      m := 0;
    } else {
      var m' := FirstPosition(s[1..], x);
      m := m' + 1;
    }
  }

  /** The form at the moment of submit: the raw text fields, the category
      controls, the completion checkbox and currentCoverData (None for null,
      Some("") for a falsy string). */
  datatype FormInput = FormInput(
    title: string,
    author: string,
    year: string,
    description: string,
    buttons: seq<CategoryButton>,
    checked: bool,
    cover: Option<string>)

  /** The validation: title, author and year are non-empty once trimmed. */
  predicate Accepts(f: FormInput)
  {
    Trim(f.title) != "" && Trim(f.author) != "" && Trim(f.year) != ""
  }

  /** `value || null`: a non-empty string is kept, anything else is null. */
  function CoverOrNull(c: Option<string>): Option<string>
  {
    match c
    case Some(s) => if s != "" then c else None
    case None => None
  }

  /** The record the create submit appends. */
  function NewBook(id: string, now: string, f: FormInput): Book
  {
    Book(id, Trim(f.title), Trim(f.author), Trim(f.year), Trim(f.description), ResolveCategory(f.buttons),
      CoverOrNull(f.cover), f.checked, if f.checked then 100 else 0, now)
  }

  /** The tri-state cover rule of the edit submit: null clears the cover, a
      non-empty string replaces it, a falsy string leaves it. */
  function EditedCover(prior: Option<string>, c: Option<string>): Option<string>
  {
    match c
    case None => None
    case Some(s) => if s != "" then c else prior
  }

  /** The field-by-field overwrite of the edit submit. */
  function Edit(f: FormInput): Book -> Book
  {
    (b: Book) => b.(title := Trim(f.title), author := Trim(f.author), year := Trim(f.year),
      description := Trim(f.description), category := ResolveCategory(f.buttons),
      cover := EditedCover(b.cover, f.cover), isComplete := f.checked,
      progress := if f.checked then 100 else b.progress)
  }

  /** How a submit ends: rejected with an alert, an edit whose record is no
      longer stored (nothing happens), or the new collection is saved and the
      browser goes to `next`. */
  datatype SubmitResult = Rejected | NotFound | Saved(books: seq<Book>, next: Routing.Page)

  /** form.onsubmit; `editId` is "" in create mode, `newId` and `now` are
      what uid() and the clock give. */
  function Submit(books: seq<Book>, f: FormInput, editId: string, newId: string, now: string): SubmitResult
  {
    if !Accepts(f) then Rejected
    else if editId != "" then
      if FindIndex(books, editId) == -1 then NotFound
      else Saved(UpdateFirst(books, editId, Edit(f)), Routing.Explore)
    else Saved(books + [NewBook(newId, now, f)], Routing.Home)
  }

  /** A submit is rejected, and nothing is saved, exactly when the trimmed
      title, author or year is empty, that is when one of them is all
      spaces. */
  lemma SubmitRejectsBlank(books: seq<Book>, f: FormInput, editId: string, newId: string, now: string)
    ensures Submit(books, f, editId, newId, now) == Rejected <==> Trim(f.title) == "" || Trim(f.author) == "" || Trim(f.year) == ""
    ensures Submit(books, f, editId, newId, now) == Rejected <==> AllSpace(f.title) || AllSpace(f.author) || AllSpace(f.year)
  {
    TrimEmpty(f.title);
    TrimEmpty(f.author);
    TrimEmpty(f.year);
    if Accepts(f) {
      SubmitAccepted(books, f, editId, newId, now);
    }
  }

  lemma SubmitAccepted(books: seq<Book>, f: FormInput, editId: string, newId: string, now: string)
    requires Accepts(f)
    ensures !Submit(books, f, editId, newId, now).Rejected?
  {
    // Splitting on the three ways an accepted submit ends lets each
    // branch of Submit be checked on its own.
    if editId == "" {
    } else if FindIndex(books, editId) == -1 {
    } else {
    }
  }

  /** A valid create appends exactly one record after the existing ones,
      with the trimmed fields, the checkbox as its completion, progress 100
      or 0 to match, the given id and time, the chosen cover when there
      is a non-empty one and none otherwise, the first active control's
      category or "Other" when no control is active, and goes home. */
  lemma SubmitCreate(books: seq<Book>, f: FormInput, newId: string, now: string)
    requires Accepts(f)
    ensures var r := Submit(books, f, "", newId, now);
      && r.Saved? && r.next == Routing.Home
      && |r.books| == |books| + 1 && r.books[..|books|] == books
      && var b := r.books[|books|];
      && b.id == newId && b.createdAt == now
      && b.title == Trim(f.title) && b.author == Trim(f.author) && b.year == Trim(f.year)
      && b.description == Trim(f.description)
      && b.isComplete == f.checked && b.progress == (if f.checked then 100 else 0)
      && (b.cover.Some? ==> f.cover == b.cover && b.cover.value != "")
      && (f.cover.Some? && f.cover.value != "" ==> b.cover == f.cover)
      && (f.cover.None? || f.cover == Some("") ==> b.cover.None?)
      && b.category == ResolveCategory(f.buttons)
      && (NoneActive(f.buttons) ==> b.category == DefaultCategory)
      && (forall i :: FirstActive(f.buttons, i) ==> b.category == ButtonCategory(f.buttons[i]))
  {
    var r := Submit(books, f, "", newId, now);
    assert r.books[..|books|] == books;
  }

  /** A valid edit of a stored id changes only the first record holding it:
      id and creation time stay, the text fields take the trimmed input, the
      cover follows the tri-state rule, the completion flag follows the
      checkbox and progress becomes 100 when it is ticked and stays otherwise;
      then the browser goes to Explore. An id no longer stored saves nothing. */
  lemma SubmitEdit(books: seq<Book>, f: FormInput, editId: string, newId: string, now: string)
    requires Accepts(f) && editId != ""
    ensures FindIndex(books, editId) == -1 ==> Submit(books, f, editId, newId, now) == NotFound
    ensures FindIndex(books, editId) >= 0 ==>
      var r, k := Submit(books, f, editId, newId, now), FindIndex(books, editId);
      && r.Saved? && r.next == Routing.Explore
      && |r.books| == |books|
      && (forall i :: 0 <= i < |books| && i != k ==> r.books[i] == books[i])
      && var was, b := books[k], r.books[k];
      && b.id == was.id && b.createdAt == was.createdAt
      && b.title == Trim(f.title) && b.author == Trim(f.author) && b.year == Trim(f.year)
      && b.description == Trim(f.description) && b.category == ResolveCategory(f.buttons)
      && (f.cover == None ==> b.cover == None)
      && (f.cover.Some? && f.cover.value != "" ==> b.cover == f.cover)
      && (f.cover == Some("") ==> b.cover == was.cover)
      && b.isComplete == f.checked
      && b.progress == (if f.checked then 100 else was.progress)
  {
    UpdateFirstChangesOne(books, editId, Edit(f));
  }

  /** Every saved submit keeps ids unique and percentages in range, given
      that a created record's id is not stored yet. */
  lemma SubmitWellFormed(books: seq<Book>, f: FormInput, editId: string, newId: string, now: string)
    requires WellFormed(books)
    requires editId == "" ==> FindIndex(books, newId) == -1
    ensures Submit(books, f, editId, newId, now).Saved? ==> WellFormed(Submit(books, f, editId, newId, now).books)
  {
    if Accepts(f) && editId != "" {
      EditWellFormed(books, f, editId);
    } else if Accepts(f) {
      CreateWellFormed(books, f, newId, now);
    }
  }

  lemma EditWellFormed(books: seq<Book>, f: FormInput, editId: string)
    requires WellFormed(books)
    ensures WellFormed(UpdateFirst(books, editId, Edit(f)))
  {
    EditKeepsIdAndRange(f);
    UpdateFirstWellFormed(books, editId, Edit(f));
  }

  lemma CreateWellFormed(books: seq<Book>, f: FormInput, newId: string, now: string)
    requires WellFormed(books) && FindIndex(books, newId) == -1
    ensures WellFormed(books + [NewBook(newId, now, f)])
  {
    AppendWellFormed(books, NewBook(newId, now, f));
  }

  /** The overwrite keeps the id and keeps a percentage in range. */
  lemma EditKeepsIdAndRange(f: FormInput)
    ensures forall b: Book :: Edit(f)(b).id == b.id
    ensures forall b: Book :: 0 <= b.progress <= 100 ==> 0 <= Edit(f)(b).progress <= 100
  {
  }

  /** A record as the form writes it: trimmed fields, title, author and year
      non-empty, no empty-string cover, and progress 100 whenever it is
      flagged complete. */
  predicate AsFormWrites(b: Book)
  {
    && NoSpaceEnds(b.title) && b.title != "" && NoSpaceEnds(b.author) && b.author != ""
    && NoSpaceEnds(b.year) && b.year != "" && NoSpaceEnds(b.description)
    && b.cover != Some("")
    && (b.isComplete ==> b.progress == 100)
  }

  /** The form edit mode fills in for `b`. */
  function FormOf(b: Book, buttons: seq<CategoryButton>): FormInput
  {
    FormInput(b.title, b.author, b.year, b.description, Preselect(buttons, b.category), b.isComplete, CoverOrNull(b.cover))
  }

  /** The form state edit mode starts from: the record's fields, the
      checkbox ticked when it is flagged complete, its cover as
      currentCoverData when it has a non-empty one (else null), and the
      category preselected; None when the id names no record (the page
      alerts and goes home). */
  function EditForm(books: seq<Book>, editId: string, buttons: seq<CategoryButton>): (r: Option<FormInput>)
    ensures r.None? <==> editId == "" || FindById(books, editId).None?
    ensures r.Some? ==> r.value == FormOf(FindById(books, editId).value, buttons)
  {
    if editId == "" then None else
    match FindById(books, editId)
    case None => None
    case Some(b) => Some(FormOf(b, buttons))
  }

  /** Opening a record in edit mode and submitting the form untouched saves
      the collection unchanged, for a record as the form itself writes it
      whose category is what its first matching control submits. */
  lemma UntouchedEditKeepsRecord(books: seq<Book>, k: nat, buttons: seq<CategoryButton>, j: nat, newId: string, now: string)
    requires k < |books| && FindIndex(books, books[k].id) == k && books[k].id != ""
    requires AsFormWrites(books[k])
    requires j < |buttons| && books[k].category == ButtonCategory(buttons[j]) != ""
    requires forall i :: 0 <= i < j ==> ButtonKey(buttons[i]) != ButtonKey(buttons[j])
    ensures EditForm(books, books[k].id, buttons) == Some(FormOf(books[k], buttons))
    ensures Submit(books, FormOf(books[k], buttons), books[k].id, newId, now) == Saved(books, Routing.Explore)
  {
    var b := books[k];
    assert FindById(books, b.id) == Some(b);
    UntouchedForm(b, buttons, j);
    SubmitEditFound(books, FormOf(b, buttons), b.id, newId, now);
    JsArray.UpdateWithSelf(books, k);
  }

  /** A valid edit of a stored id saves the collection with the first
      record holding it overwritten. */
  lemma SubmitEditFound(books: seq<Book>, f: FormInput, editId: string, newId: string, now: string)
    requires Accepts(f) && editId != "" && FindIndex(books, editId) >= 0
    ensures var k := FindIndex(books, editId);
      Submit(books, f, editId, newId, now) == Saved(books[k := Edit(f)(books[k])], Routing.Explore)
  {
  }

  /** Preselecting a category that a control submits, with no earlier
      control of the same key, makes the submit resolve to it again. */
  lemma PreselectResolvesTo(buttons: seq<CategoryButton>, j: nat, category: string)
    requires j < |buttons| && category == ButtonCategory(buttons[j]) != ""
    requires forall i :: 0 <= i < j ==> ButtonKey(buttons[i]) != ButtonKey(buttons[j])
    ensures ResolveCategory(Preselect(buttons, category)) == category
  {
    NormalizeButtonCategory(buttons[j]);
    PreselectMarks(buttons, category, j);
  }

  /** The untouched form of such a record passes validation, and its
      overwrite leaves the record as it is. */
  lemma UntouchedForm(b: Book, buttons: seq<CategoryButton>, j: nat)
    requires AsFormWrites(b)
    requires j < |buttons| && b.category == ButtonCategory(buttons[j]) != ""
    requires forall i :: 0 <= i < j ==> ButtonKey(buttons[i]) != ButtonKey(buttons[j])
    ensures Accepts(FormOf(b, buttons)) && Edit(FormOf(b, buttons))(b) == b
  {
    var f := FormOf(b, buttons);
    PreselectResolvesTo(buttons, j, b.category);
    assert ResolveCategory(f.buttons) == b.category;
    EditUntouched(b, f);
  }

  /** The overwrite with a record's own field values leaves it as it is. */
  lemma EditUntouched(b: Book, f: FormInput)
    requires AsFormWrites(b)
    requires f.title == b.title && f.author == b.author && f.year == b.year && f.description == b.description
    requires ResolveCategory(f.buttons) == b.category && f.checked == b.isComplete && f.cover == CoverOrNull(b.cover)
    ensures Accepts(f) && Edit(f)(b) == b
  {
    TrimOfTrimmed(b.title);
    TrimOfTrimmed(b.author);
    TrimOfTrimmed(b.year);
    TrimOfTrimmed(b.description);
    CoverKept(b.cover);
    EditSameFields(b, f);
  }

  /** An overwrite that writes back each field's own value. */
  lemma EditSameFields(b: Book, f: FormInput)
    requires Trim(f.title) == b.title && Trim(f.author) == b.author && Trim(f.year) == b.year
    requires Trim(f.description) == b.description && ResolveCategory(f.buttons) == b.category
    requires EditedCover(b.cover, f.cover) == b.cover
    requires f.checked == b.isComplete && (b.isComplete ==> b.progress == 100)
    ensures Edit(f)(b) == b
  {
  }

  /** A cover as the form writes it survives the round trip through the
      form's currentCoverData. */
  lemma CoverKept(c: Option<string>)
    requires c != Some("")
    ensures EditedCover(c, CoverOrNull(c)) == c
  {
  }
}
