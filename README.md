# OML movie catalog — a Dafny model of the catalog store

OML is a client-side movie catalog. Its script (`script.js`) keeps one global list of movie
records, `movies`, which it saves to the browser's local storage under the key `oml_movies`. At
start-up it reconciles what was stored with a bundled seed list. The editor form edits or adds
records. Star clicks in the detail view set per-person ratings. Small helpers format quotes,
rewrite trailer links and filter the list by title.

This project models that catalog store and proves what it does:

- `options.dfy` (module `Options`): the optional value used for JavaScript's missing values.
- `text.dfy` (module `Text`): the library string operations the store relies on, written out.
  These are `split`/`join` on one character, `trim() === ''`, the first-occurrence search
  behind `includes`, and `replace` with a constant string pattern and a `$`-free replacement.
- `movies.dfy` (module `Movies`): the record (`Movie`) and its rating. The rating is one of
  four shapes: absent, `null`, a plain value, or an object over the person codes O, M and L.
  The module also holds the read of a rating, the rating click, and the record built from the
  editor form.
- `catalog.dfy` (module `Catalog`): the list-level specification. It holds the start-up
  reconciliation, written as a fold over the seed list, together with its closed form and
  lemmas, and the form submission.
- `display.dfy` (module `Display`): the quote label, the trailer embed address and the title
  search.
- `store.dfy` (module `CatalogStore`): the class `Store`. It holds the list (`movies`) and the
  storage entry (`stored`). Its methods are `Init`, `Save`, `SubmitForm` and `Rate`. `Init`,
  `SubmitForm` and `Rate` are proved against the functions of `Catalog` and `Movies`; `Save`
  states its new state directly (storage equals the list).

Local storage is the field `stored: Option<seq<Movie>>`. `None` means nothing has been saved,
and saving copies the list into it. Records are values, so an in-place field update in the
script (`existing.poster = …`, `movie.rating[person] = …`) becomes the replacement of that
record in the list.

Two behaviours of the code are worth stating plainly, and the model follows them:
- An edit is keyed on `editMovieId`, the title the record had when the editor was opened
  (script.js:230, 341), and it overwrites that slot in place. An id that no record carries is
  a silent no-op. A rename to a title no other record carries therefore creates no duplicate
  (`Catalog.EditKeepsTitlesDistinct`). A rename to the title of another record leaves two
  records with that title.
- A rating click updates the record object the detail view was opened on (script.js:122-126).
  The model names that record by its index.

## Model

| member | source | states |
|---|---|---|
| `CatalogStore.Store.constructor` | script.js:12 | before start-up the list is empty and storage holds whatever an earlier session saved |
| `CatalogStore.Store.Save` | script.js:41-43 | saving makes the stored entry equal to the list and leaves the list alone |
| `CatalogStore.Store.Init` | script.js:15-34 | with nothing stored the list becomes exactly the seed, in seed order; otherwise it becomes the reconciliation of the stored list with the seed; either way storage equals the list afterwards |
| `CatalogStore.Store.SubmitForm` | script.js:311-350 | the list becomes the submission of the record built from the form under the editor id, and storage equals the list afterwards |
| `CatalogStore.Store.Rate` | script.js:121-127 | only record `i` changes, only in its rating, which becomes the click's result; the length and every other record are unchanged; storage equals the list afterwards |
| `CatalogStore.ReloadTwice` | script.js:15-34 | a second start with the same seed finds the list the first start saved and leaves it unchanged (after a first start from empty storage this needs distinct seed titles) |
| `Catalog.MergeOne` | script.js:23-28 | one seed record adds at most one record; every stored record keeps its index and all fields except possibly its poster; a record that is added is the seed record itself, at the end |
| `Catalog.Reconcile` | script.js:22-29 | the list grows by at most the seed's length; every stored record keeps its index and all fields except possibly its poster |
| `Catalog.FindTitle` | script.js:23 | reports the index of the first record with the title, or none when no record has it |
| `Catalog.FindTitleIsFirst` | script.js:341 | the reported index is exactly the one whose record has the title with no earlier record having it |
| `Catalog.LastPoster` | script.js:22-25 | there is a poster exactly when some seed record has the title |
| `Catalog.LastPosterIsLast` | script.js:22-25 | the poster reported is that of the last seed record with the title, the one whose write the loop leaves in place |
| `Catalog.Added` | script.js:22-27 | no appended record has a title that was already present, and each one carries the poster of the last seed record with its title |
| `Catalog.AddedDistinct` | script.js:26-27 | the appended records have pairwise different titles |
| `Catalog.AddedFromSeed` | script.js:27 | every appended record is a seed record, except possibly for its poster |
| `Catalog.AddedCoversSeed` | script.js:22-27 | every seed title is either already present or among the appended records |
| `Catalog.ReconcileClosedForm` | script.js:22-29 | the record-by-record loop equals the stored list with its first-of-title records repaired, followed by the appended seed records |
| `Catalog.ReconcileKeepsExisting` | script.js:22-25 | every stored record keeps its index; only the poster of the first record of a seed title changes, to the last such seed poster; all other fields and all other stored records stay exactly the same |
| `Catalog.ReconcileAppends` | script.js:22-27 | the list grows by exactly the appended records, which come after all stored records; each has a title that was missing and is a seed record; their titles are distinct; afterwards every seed title occurs in the list; with distinct seed titles the appended block is exactly the seed records whose title was missing, in seed order |
| `Catalog.ReconcileCoversSeed` | script.js:22-27 | after reconciliation every seed title occurs in the list |
| `Catalog.ReconcileIdempotent` | script.js:22-29 | reconciling an already reconciled list with the same seed changes nothing |
| `Catalog.SeedCopyReconcilesToItself` | script.js:31-33 | a fresh copy of a seed with distinct titles reconciles to itself |
| `Catalog.AddedWithDistinctSeed` | script.js:26-27 | with distinct seed titles, the appended records are exactly the seed records whose title was missing, unchanged and in seed order |
| `Catalog.Submit` | script.js:339-348 | a non-empty id keeps the length; the first record titled like the id is replaced by the new record, whose title may differ, and every other index is unchanged; an id that no record carries leaves the list unchanged; an empty id gives the new record followed by the old list |
| `Catalog.EditKeepsTitlesDistinct` | script.js:341-343 | a rename rewrites the edited slot and creates no duplicate: distinct titles stay distinct when the new title is the edited one or unused |
| `Catalog.AddMayDuplicate` | script.js:345-347 | adding performs no duplicate check: a new record whose title is already present yields two records with that title |
| `Movies.GetRating` | script.js:88-93 | a rating object's stored entry is read as it is; a non-zero read always comes from a stored entry, so a missing rating, `null`, a primitive or a missing key reads 0 |
| `Movies.ClickRatingAsWritten` | script.js:121-126 | the click fails exactly when the rating is `null`; otherwise the result is a rating object that reads the clicked value for the clicked person |
| `Movies.ClickRating` | script.js:121-126 | the result is a rating object that reads the clicked value for the clicked person and the previous read value for the two others; a partial object only gains the clicked key; anything else becomes a three-key object |
| `Movies.ClickAgreesExceptOnNull` | script.js:122-126 | on every rating except `null` the script's click and the intended one give the same result |
| `Movies.NullRatingClickFails` | script.js:122-126 | a `null` rating makes the script's click fail, a missing rating does not, and the intended click sets the value |
| `Movies.ClickOnMissingRating` | script.js:122-126 | a record with no rating, rated 4 by O, reads as O 4, M 0 and L 0 |
| `Movies.BuildMovie` | script.js:314-337 | the submitted record has the typed title and poster, and trailer, music, actors, platforms and comments exactly as typed, empty strings included; its rating is a full three-key object whose unreadable entries read 0; its quotes are the parsed quote lines, each non-blank and a single line |
| `Text.Split` | script.js:323 | splitting always yields at least one piece, and no piece contains the separator |
| `Text.SplitPieceCount` | script.js:323 | text with k separators splits into exactly k + 1 pieces |
| `Text.Join` | script.js:255 | the join starts with the first piece, and with two or more pieces the separator follows it |
| `Text.JoinSeparatorCount` | script.js:255 | joining n separator-free pieces puts exactly n - 1 separators into the text |
| `Text.IsBlank` | script.js:323 | `trim()` gives the empty string exactly when every character is whitespace |
| `Text.TrimStartEmpty` | script.js:323 | trimming the start leaves nothing exactly when the text is all whitespace, and otherwise leaves text that starts with a visible character |
| `Text.TrimEndKeepsVisibleHead` | script.js:323 | trimming the end of text that starts with a visible character leaves it non-empty |
| `Text.JoinOfSplit` | script.js:323 | joining the pieces of a split with the separator gives back the text |
| `Text.SplitOfJoin` | script.js:323 | splitting the join of separator-free pieces gives back the pieces |
| `Text.NonBlank` | script.js:323 | the kept lines are exactly the non-blank ones: every kept line is non-blank and comes from the input, and every non-blank input line is kept |
| `Text.NonBlankConcat` | script.js:323 | filtering two lists one after the other gives the two results one after the other, so kept lines stay in order and keep their multiplicity |
| `Text.NonBlankSingle` | script.js:323 | a single line is kept exactly when it is not blank |
| `Text.NonBlankKeepsAll` | script.js:323 | a list without blank lines passes unchanged |
| `Text.ParseQuotes` | script.js:323 | every parsed quote is non-blank and fits on one line |
| `Text.SplitAtSeparator` | script.js:323 | splitting text around a separator gives the pieces before it followed by the pieces after it |
| `Text.ParseQuotesByLine` | script.js:323 | the text before a line break and the text after it parse separately and the results are concatenated in order; a single line gives itself unless it is blank |
| `Text.QuotesRoundTrip` | script.js:323 | quotes written one per line into the editor (line 255) and read back by the submission come out unchanged when none is blank or multi-line |
| `Text.IndexFrom` | script.js:188 | reports the first occurrence of the pattern at or after the start index, or none exactly when there is no such occurrence (the script searches from index 0 only) |
| `Text.IndexOf` | script.js:188 | reports the first occurrence of the pattern, or none exactly when the pattern occurs nowhere |
| `Text.Contains` | script.js:188-190 | `includes` (here and in the search at line 294) holds exactly when the pattern occurs somewhere: any occurrence makes it hold, and when it holds the pattern occurs at the first-occurrence index |
| `Text.ReplaceFirst` | script.js:189 | only the first occurrence is replaced; text without the pattern is unchanged |
| `Display.QuoteLabel` | script.js:173 | the label always starts with '#'; it equals the quote exactly when the quote already starts with '#', and is '#' followed by the quote otherwise |
| `Display.QuoteLabelIdempotent` | script.js:173 | labelling a label changes nothing |
| `Display.EmbedUrl` | script.js:187-192 | the first "watch?v=" becomes "embed/"; failing that, the first "youtu.be/" becomes "youtube.com/embed/"; any other address is unchanged |
| `Display.Search` | script.js:293-294 | the result holds exactly the records whose lower-cased title contains the lower-cased term, and is no longer than the list |
| `Display.SearchConcat` | script.js:293-294 | searching two lists one after the other gives the two results one after the other, so shown records keep the list's order and multiplicity |
| `Display.SearchSingle` | script.js:294 | a single record is shown exactly when its lower-cased title contains the lower-cased term |
| `Display.SearchEmptyTermKeepsAll` | script.js:293-294 | an empty term shows the whole list in its order |

## Findings

| source | as written | input that shows it | evidently intended | confidence | as-written member | corrected member |
|---|---|---|---|---|---|---|
| script.js:122-126 | the guard `typeof movie.rating !== 'object'` is false for `null`, so a `null` rating is not replaced and `movie.rating[person] = value` throws a TypeError; the click is lost and nothing is saved | a stored record whose `rating` is `null`, then a click on any star | a `null` rating is treated like a missing one and replaced by the all-zero object before the update, as the comment "Ensure rating object exists" and the read side (lines 88-93) indicate | not executed; `null` arises only from stored or seed data, never from the form | `Movies.ClickRatingAsWritten` (shown by `Movies.NullRatingClickFails`) | `Movies.ClickRating` (used by `CatalogStore.Store.Rate`) |

## Left out

- Rendering, modals, tabs, star-icon toggling and event-listener wiring (script.js:45-71, 95-108, 147-165, 290-308, 352) are user interface only. So are the edit form's pre-filling (script.js:224-257) and the placeholder image and YouTube search link (script.js:57, 201-210). The one exception is the quote join of line 255, which `Text.QuotesRoundTrip` covers.
- The FileReader conversion of poster and music uploads (script.js:259-286) is browser I/O. Posters and music are opaque strings.
- The `localStorage` calls and the JSON encoding (script.js:17-19, 42) are not modelled. Storage is the `stored` field, and saving copies the list into it. When the stored entry fails to parse, `JSON.parse` throws out of `init`; that failure is not modelled.
- `parseInt` is not modelled. Form ratings arrive as optional integers, and a missing one becomes 0. Entries of a stored rating object are taken as already-parsed integers, so an unparsable entry is modelled as a missing key.
- `toLowerCase` is the function parameter `lower` of `Display.Search`; `encodeURIComponent` belongs to the search link and is left out.
- Object aliasing is not modelled: records are values. The script shares record objects between the list and the seed (`movies.push(initial)`, `[...initialMovies]`), but the seed is not used again after start-up, so nothing observable depends on it.
- The detail view holds the record object it was opened on, and `CatalogStore.Store.Rate` names that record by its index in the current list. The record cannot be replaced while the view is open: opening the editor closes the detail view (script.js:225), and reopening the view rebinds the star handlers to the record then shown (script.js:117).
- An array stored as a rating counts as an object for `typeof` and is not modelled; the four rating shapes cover the other cases.
