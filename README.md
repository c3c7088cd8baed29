# Bookshelf record collection, modelled in Dafny

The bookshelf web app keeps a reading list in the browser: a JSON array of
book records under one localStorage key. Every page of the app works on that
array. The home page shows read/unread statistics and the four newest
records. The Explore page filters by category and title and can mark or
delete items. The Save page splits the collection into an unfinished and a
finished list. The add/edit form validates and writes a record. The detail
page moves a progress slider. A small dispatcher picks the page renderer
from the URL path.

This project models that record-collection logic of `script.js`, with the
DOM stripped away, and proves its properties:

- `JsText`, `JsArray`: the JavaScript built-ins the logic relies on
  (`toLowerCase`, `trim`, `includes`, `filter`, `slice`, `splice`,
  `reverse`), with their edge cases (negative `slice`/`splice` starts, the
  `-1` of a failed `findIndex`).
- `Records`: the record, lookup by id (`findIndex`, `find`), removal by id,
  the mark toggle, and the in-place edit and delete of the first record
  holding an id.
- `HomeScreen`, `ExploreScreen`, `SaveScreen`, `DetailScreen`, `FormScreen`,
  `Routing`: the derived views and decision rules of each page, as
  functions with lemmas.
- `Storage`: the storage slot as a class `Shelf` whose methods are the
  handlers that load, change and save the collection, and the Explore page
  as a class `ExplorePage` holding the copy of the collection it works on.

## Model

| member | source | states |
|---|---|---|
| JsText.Lower | script.js:383 | lower-casing keeps the length and maps every character by itself |
| JsText.TrimStart | script.js:904 | what is dropped is a run of spaces and what is left starts with a non-space |
| JsText.TrimEnd | script.js:904 | what is dropped is a run of spaces and what is left ends with a non-space |
| JsText.Trim | script.js:904-907 | neither end of the result is a space |
| JsText.TrimEmpty | script.js:904-907 | trim leaves nothing exactly when the input is all spaces |
| JsText.TrimSlice | script.js:904-907 | the result of trim is a slice of the input with only spaces on either side of it |
| JsText.TrimOfTrimmed | script.js:904-907 | a string with no space at either end trims to itself |
| JsText.TrimIdempotent | script.js:915 | trimming twice is trimming once |
| JsText.LowerCharKeepsSpace | script.js:751 | lower-casing neither creates nor removes a space |
| JsText.TrimStartLower | script.js:751 | dropping leading spaces commutes with lower-casing |
| JsText.TrimEndLower | script.js:751 | dropping trailing spaces commutes with lower-casing |
| JsText.LowerTrimCommute | script.js:751-755 | `toLowerCase().trim()` equals `trim().toLowerCase()` |
| JsText.Includes | script.js:383-387 | `includes` is true exactly when the needle occurs at some position of the haystack |
| JsArray.Filter | script.js:383-387 | the filtered array is no longer than the input |
| JsArray.FilterMembers | script.js:383-387 | an element is in the result exactly when it is in the input and passes the test |
| JsArray.FilterCount | script.js:36 | each passing element occurs as often as in the input, each failing one not at all |
| JsArray.FilterIsSubsequence | script.js:380-388 | the result keeps the input's order |
| JsArray.FilterSplit | script.js:557-558 | a filter and its negation together hold every element exactly once |
| JsArray.FilterFilter | script.js:380-388 | two filters in a row are one filter by both tests |
| JsArray.FilterConcat | script.js:36 | filtering distributes over concatenation |
| JsArray.FilterKeepsAll | script.js:36 | a filter every element passes changes nothing |
| JsArray.SliceSpliceEnds | script.js:294 | slice(-m) keeps the last m elements (all of them when there are fewer), splice(-1, 1) drops the last element, and splice(k, 1) inside the array cuts out exactly element k, as used at script.js:507 and 661 |
| JsArray.Reverse | script.js:294 | the reversed array has element `i` from position `n-1-i` |
| Records.ToggleFlips | script.js:475-491 | marking flips whether the record reads as finished and touches only the two completion fields |
| Records.ToggleTwice | script.js:630-648 | marking twice restores the record exactly when it was (true, 100) or (false, 0) |
| Records.FindIndex | script.js:505-506 | `findIndex` is the first position holding the id, or -1 exactly when none does |
| Records.FindIndexUnique | script.js:633 | with unique ids the record is found at its own position |
| Records.FindById | script.js:29-32 | `findBookById` gives nothing exactly when no record holds the id, else the first record holding it |
| Records.RemoveById | script.js:34-39 | `removeBookById` drops every record holding the id, keeps every other one as often as it occurs, in order |
| Records.FlipTwice | script.js:630-648 | marking the same id twice restores the collection when the marked record was in a state the button writes |
| Records.UpdateFirstChangesOne | script.js:924-927 | an edit by id changes only the first record holding it, to the edit of itself; an absent id changes nothing |
| Records.UpdateFirstWellFormed | script.js:924-950 | an edit that keeps ids and in-range progress keeps ids unique and progress in range |
| Records.AppendWellFormed | script.js:964 | appending a record with a new id and in-range progress keeps the collection well formed |
| Records.DeleteFirstSpec | script.js:658-663 | the guarded delete removes exactly the first record holding the id: the records before it stay in place, the ones after it move up by one, and an absent id changes nothing |
| Records.DeleteFirstIsRemoveById | script.js:34-39 | with unique ids, the guarded delete equals `removeBookById` |
| Records.SpliceAtFindIndex | script.js:505-507 | the unguarded delete is the guarded one when the id is held, and drops the last record when it is not |
| Records.DeleteFirstWellFormed | script.js:658-663 | deleting keeps the collection well formed |
| Records.RemoveByIdWellFormed | script.js:34-39 | `removeBookById` keeps the collection well formed |
| Records.ReplaceWellFormed | script.js:477-488 | overwriting a record with one of the same id and in-range progress keeps the collection well formed |
| Routing.LastSegment | script.js:215 | `split("/").pop()` is the part after the last '/', with no '/' in it |
| Routing.LastSegmentOfJoin | script.js:215 | the directories in front of a file name do not matter |
| Routing.DispatchFinds | script.js:214-221 | every page's file under any directory renders that page, and a path ending in '/' renders the home page |
| Routing.DispatchTotal | script.js:214-221 | any other last segment renders nothing |
| HomeScreen.RoundedPercent | script.js:231 | the percentage is the integer nearest to 100·part/whole, a half rounding up, within 0..100, 0 for an empty whole |
| HomeScreen.HomeStatsBounds | script.js:228-232 | both bars lie in 0..100 and add up to 100, an empty collection shows 0% read, the counts split the collection by the completion flag |
| HomeScreen.Latest | script.js:294 | the latest list has min(4, n) records and its element `i` is `books[n-1-i]` |
| HomeScreen.LatestRows | script.js:294-310 | each row of the latest list shows the record and its own progress |
| ExploreScreen.ExploreListIsOneFilter | script.js:380-388 | the category filter then the title filter is one filter by both conditions |
| ExploreScreen.ExploreListSpec | script.js:376-388 | the list holds exactly the records passing both filters ("Semua" meaning no category test, an empty term no title test), each as often as stored, in stored order |
| ExploreScreen.ExploreViewSpec | script.js:393-519 | the count label and the "no results" card agree with the items, which are the filtered records in order |
| ExploreScreen.NoTitleMatches | script.js:387-395 | a term no title contains gives a count of 0 and the "no results" card |
| SaveScreen.PartitionSpec | script.js:557-561 | unflagged records go to the unfinished list and flagged ones to the finished list, each in order, each record in exactly one, the counts summing to the total |
| SaveScreen.PartitionMatchesHome | script.js:557-561 | the Save page's counts are the home page's counts |
| SaveScreen.CardButtons | script.js:577-611 | finished cards offer "mark incomplete"; an unfinished-list card offers "mark complete" unless its progress is 100 |
| DetailScreen.OpenDetail | script.js:975-990 | the page opens a record exactly when the id is present and some record holds it, and then it is the first such record |
| DetailScreen.SliderColourThresholds | script.js:1027-1039 | green exactly at 100, blue from 50 to 99, orange below 50, never moving back as the slider moves right |
| DetailScreen.CommitProgressSpec | script.js:1042-1063 | the first record holding the id, at its own position, becomes that record with progress v and completion v == 100, the chip agrees, no other record changes and an absent id changes nothing |
| DetailScreen.CommitProgressWellFormed | script.js:1042-1053 | a commit within 0..100 keeps the collection well formed |
| DetailScreen.FirstDrawAndDragDiffer | script.js:1014-1039 | an unfinished record at 50..99 is drawn orange on opening but blue on the slider |
| FormScreen.ResolveCategory | script.js:909-916 | the submit takes the category of the first active control, "Other" when none is active |
| FormScreen.ClickCategory | script.js:696-714 | a click keeps the number of controls |
| FormScreen.ClickThenResolve | script.js:704-916 | after a click exactly the clicked control is active and the submit takes its category |
| FormScreen.Preselect | script.js:748-762 | preselection keeps the number of controls |
| FormScreen.NormalizeButtonCategory | script.js:751-755 | the category a control submits, normalised, is the key edit mode compares it by |
| FormScreen.PreselectThenResolve | script.js:748-916 | preselecting a stored category some control matches and submitting untouched gives it back up to case and spaces |
| FormScreen.PreselectMarks | script.js:753-759 | the first control whose key matches is the first active one after preselection, and the submit takes its category |
| FormScreen.PreselectNoMatch | script.js:748-762 | a stored category no control matches submits as "Other" |
| FormScreen.SubmitRejectsBlank | script.js:903-921 | a submit is rejected, saving nothing, exactly when the trimmed title, author or year is empty, that is exactly when one of them is all spaces |
| FormScreen.SubmitCreate | script.js:951-965 | a valid create appends one record after the others with the trimmed fields, completion from the checkbox, progress 100 or 0, the given id and time, the chosen cover when it is non-empty and none otherwise, the first active control's category or "Other" with no active control, and goes home |
| FormScreen.SubmitEdit | script.js:923-950 | a valid edit changes only the first record holding the id: id and creation time stay, fields are overwritten, the cover follows the null/truthy/falsy rule, progress becomes 100 when ticked else stays; an absent id saves nothing |
| FormScreen.SubmitWellFormed | script.js:923-965 | a saved submit keeps ids unique and progress in range, given a new id for a create |
| FormScreen.EditForm | script.js:717-746 | edit mode fills the form exactly when the id is non-empty and some record holds it, from the first such record |
| FormScreen.UntouchedEditKeepsRecord | script.js:717-950 | opening a record as the form writes it in edit mode and submitting untouched saves the collection unchanged |
| FormScreen.SubmitEditFound | script.js:923-950 | a valid edit of a held id saves the collection with that record overwritten and goes to Explore |
| Storage.Decode | script.js:10-18 | loading gives the stored collection, or the empty one when the entry is absent or does not parse |
| Storage.Shelf.SaveBooks | script.js:20-22 | after saving, loading gives back exactly the saved collection |
| Storage.Shelf.FindBookById | script.js:29-32 | the lookup is `find` on the loaded collection and changes nothing |
| Storage.Shelf.RemoveBookById | script.js:34-39 | the saved and returned collection is `removeBookById`'s and holds no record with the id |
| Storage.Shelf.MarkFromSaveCard | script.js:630-648 | the card's state decides the direction, only the first record holding the id changes, nothing is saved when none does |
| Storage.Shelf.DeleteFromSaveCard | script.js:655-666 | a confirmed delete of a held id saves the collection without its first holder; otherwise nothing is saved |
| Storage.Shelf.CommitSlider | script.js:1042-1053 | the saved collection is the slider commit's; nothing is saved when no record holds the id |
| Storage.Shelf.SubmitForm | script.js:902-966 | the outcome is the submit's and the collection is saved exactly when the outcome is a save |
| Storage.ExplorePage.constructor | script.js:330-374 | the page starts from the stored collection, "Semua" (the first category button) active and an empty search, so it lists every stored record |
| Storage.ExplorePage.SelectCategory | script.js:363-367 | a category click changes only the active category |
| Storage.ExplorePage.SetSearch | script.js:372-377 | typing changes only the search term |
| Storage.ExplorePage.Mark | script.js:472-491 | the item's record flips in place, nothing else changes, and the page's copy is saved |
| Storage.ExplorePage.Delete | script.js:501-510 | a confirmed delete removes the first record holding the item's id and saves; otherwise nothing changes |

## Left out

- The DOM: templates, CSS classes, images and event wiring. The pages are
  modelled by the values their templates are filled from.
- JSON encoding. The storage entry is `Storage.Slot`, holding the
  collection itself. A parse failure is the `Unreadable` case.
- Storage.Decode: a stored JSON value that parses but is not an array of
  records (`"null"`, say) is not modelled.
- `uid()` and `new Date().toISOString()` depend on the clock and
  `Math.random`. They are the parameters `newId` and `now`. Uniqueness is a
  precondition where it matters.
- `confirm` is the boolean parameter `confirmed`. `alert` and `location.href`
  have no state to model. Where a handler navigates, the model returns the
  target page.
- FileReader, drag and drop and `setTimeout` for the cover image
  (script.js:771-898). Only the cover value at submit time is modelled. The
  create-mode default category selection uses the `:contains` selector
  (script.js:772), which is not a valid CSS selector, so it is not modelled.
- `navigator.share` and `window.open` (script.js:1067-1089), the
  favourite button, the edit-mode submit label, and the `placeholderImage`
  helpers.
- `createBookCard` (script.js:42-112) is never called. The first
  `createSaveCard` (script.js:114-208) is replaced by the later declaration
  of the same name. Neither is modelled.
- HomeScreen.RoundedPercent: computes the rounding exactly. The source
  rounds a floating-point quotient. Both agree except where the float
  lands just below a half: for 57 of 200 the exact value is 28.5, which
  rounds to 29, while the float `0.285 * 100` is `28.499…`, which rounds
  to 28.
- JsText.Lower: lower-cases ASCII letters only. `toLowerCase` also maps
  other scripts.
- Records missing a field are not modelled. Every record holds all
  fields, so the `|| ""` and `|| 0` defaults of the source are identities.
  The slider value is an `int`, so the `parseInt` step is not modelled.
- Storage.ExplorePage.Mark: states the page's copy of the collection and
  what it saves. A write to storage from another tab while the page is open
  would be overwritten. The model has one shelf per page and does not
  capture concurrent tabs.
