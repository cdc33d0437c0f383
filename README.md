# cosmo-kids-cms: the admin pages' list logic, in Dafny

This project models the data handling of three admin pages of the
cosmo-kids-cms content manager, a Next.js and React app whose records live in
Firestore collections:

- **News & Events** (`src/app/pages/news-events/page.tsx`) shows a list of articles that can be searched and filtered by category. It supports:
  - deleting one article;
  - deleting all articles in one batch;
  - seeding the collection;
  - an edit dialog that works on a copy of one article and saves six of its fields.
- **Gallery** (`src/app/pages/gallery/page.tsx`) keeps its images in page state. It supports:
  - search and category filtering, where the search also covers each image's tags;
  - per-category counters;
  - tag badges (three, then `+n`);
  - delete by id;
  - the category value the edit dialog pre-selects.
- **Classes** (`src/app/pages/classes/page.tsx`) fetches the `classes` collection. It:
  - drops documents missing a name, an age range or a description;
  - sorts the rest by the fixed list `CLASS_ORDER`;
  - edits one class at a time, saving four fields and replacing the listed class by id.

Modules:

- `Seqs` (`seqs.dfy`): order-preserving `filter`, `some` and `indexOf` on sequences, with the subsequence relation and distinctness.
- `Text` (`text.dfy`): `toLowerCase` (ASCII letters), `includes`, `replace` with a one-character string pattern, and the code-point order on strings that document ids are listed by.
- `Gateway` (`gateway.dfy`): an abstract Firestore collection. It is a map from document id to data, plus the order in which `getDocs` lists them. A query without `orderBy` lists documents by ascending id, so the listing is kept sorted by id (`Text.Precedes`, code-point order). It provides `deleteDoc`, `updateDoc` on an existing document, and `addDoc` with a fresh id, which takes its place in that order.
- `NewsEvents`, `Gallery`, `Classes`: one module per page. Each page's state (`useState` hooks) is a class whose methods are the page's handlers. Its pure computations are functions with lemmas.

The class sort is modelled twice:
- `SortBy` is a stable insertion sort, stated as a function.
- `SortClasses` sorts an array in place and is proved to produce `SortBy`.

Stability follows ECMAScript's requirement that `Array.prototype.sort` is stable. The comparator `indexA - indexB` is the key `ByRank(order)`, which is `indexOf` in the order list. A name that is not in the list gets -1, so it sorts *before* every listed name.

## Model

| member | source | states |
|---|---|---|
| Seqs.Filter | src/app/pages/news-events/page.tsx:126-134 | `filter` returns exactly the elements that pass the predicate and never grows the list |
| Seqs.FilterCounts | src/app/pages/classes/page.tsx:101 | `filter` keeps every passing occurrence, duplicates included: each passing value occurs as often as in the input, a failing one not at all |
| Seqs.FilterIsSubsequence | src/app/pages/gallery/page.tsx:142-152 | filtering keeps the survivors in their original relative order |
| Seqs.IndexOf | src/app/pages/classes/page.tsx:105-106 | `indexOf` is -1 exactly when the value is absent; otherwise it is the first position holding the value |
| Text.Lower | src/app/pages/news-events/page.tsx:128-130 | lower-casing keeps the length and lowers each character in place |
| Text.LowerIsLower | src/app/pages/gallery/page.tsx:144-147 | a lowered string has no upper-case letter, and lowering is idempotent |
| Text.ContainsIff | src/app/pages/news-events/page.tsx:128-130 | `includes` holds iff the term occurs at some position |
| Text.ReplaceFirstAtIndexOf | src/app/pages/gallery/page.tsx:563-565 | `replace(" ", "-")` changes only the first occurrence (at `indexOf`), or nothing when there is none |
| Gateway.SnapshotComplete | src/app/pages/news-events/page.tsx:98-107 | a fetch lists every stored document once, under its own id, and nothing else, by strictly ascending id (so no id twice) |
| Gateway.Delete | src/app/pages/news-events/page.tsx:136-139 | `deleteDoc` removes that id, keeps every other document unchanged, and is a no-op on a missing id |
| Gateway.Put | src/app/pages/news-events/page.tsx:587-594 | `updateDoc` writes that document only and keeps the ids and listing order |
| Gateway.InsertId | src/app/pages/news-events/page.tsx:193-196 | a new id joins the listing at its place by id: the listing stays sorted, gains exactly that id and keeps every other |
| Gateway.Add | src/app/pages/news-events/page.tsx:193-195 | `addDoc` stores the new document under a fresh id, listed at its place by ascending id, and keeps every other document |
| Gateway.EmptyListsNothing | src/app/pages/news-events/page.tsx:146-153 | a collection with no documents lists nothing |
| NewsEvents.FilteredArticles | src/app/pages/news-events/page.tsx:126-134 | an article is shown iff its title (or non-empty description) holds the term ignoring case and its category is selected; every passing occurrence is kept, in order |
| NewsEvents.SearchGuardIsRedundant | src/app/pages/news-events/page.tsx:127-131 | for a string description, the `description &&` guard never changes the outcome of the search |
| NewsEvents.SearchIsCaseInsensitive | src/app/pages/news-events/page.tsx:128-130 | terms that lower-case alike select the same articles |
| NewsEvents.AllCategoryIsSearchOnly | src/app/pages/news-events/page.tsx:131-133 | category "All" reduces the view to the search filter |
| NewsEvents.EmptySearchShowsAll | src/app/pages/news-events/page.tsx:89-90 | on mount (empty term, "All"), every article is shown in fetch order |
| NewsEvents.EventsScenario | src/app/pages/news-events/page.tsx:126-134 | News, Events, News filtered to "Events" shows only the Events article |
| NewsEvents.WithField | src/app/pages/news-events/page.tsx:469-474 | a dialog setter changes exactly one field of the working copy and keeps its id and content |
| NewsEvents.FieldsDetermineData | src/app/pages/news-events/page.tsx:587-594 | the six edited fields plus the content determine an article |
| NewsEvents.SaveWritesWorkingCopy | src/app/pages/news-events/page.tsx:587-594 | saving writes all six edited fields of the copy and keeps the stored content |
| NewsEvents.EditRoundTrip | src/app/pages/news-events/page.tsx:582-596 | editing one field and saving makes the stored article equal to the edited copy |
| NewsEvents.NewsEventsPage.constructor | src/app/pages/news-events/page.tsx:87-123 | mount: empty search, "All", nothing selected, list is a snapshot, and the cards on screen are the whole list |
| NewsEvents.NewsEventsPage.SetSearchTerm | src/app/pages/news-events/page.tsx:260 | typing a term refilters the cards: shown iff in the list, matching the new term and the selected category |
| NewsEvents.NewsEventsPage.SetSelectedCategory | src/app/pages/news-events/page.tsx:264-267 | picking "All" leaves the search filter only; any other category shows only articles filed under it |
| NewsEvents.NewsEventsPage.FetchArticles | src/app/pages/news-events/page.tsx:98-107 | the list becomes a snapshot of the collection |
| NewsEvents.NewsEventsPage.DeleteArticle | src/app/pages/news-events/page.tsx:136-139 | deletes that document, then the list is a fresh snapshot |
| NewsEvents.NewsEventsPage.DeleteAllArticles | src/app/pages/news-events/page.tsx:146-154 | after the batch commit, the collection and the list are empty |
| NewsEvents.NewsEventsPage.PopulateDatabase | src/app/pages/news-events/page.tsx:156-197 | each seed is stored under its fresh id, existing documents are kept, nothing else is added, the listing stays sorted by id, and the list is re-fetched |
| NewsEvents.NewsEventsPage.EditArticle | src/app/pages/news-events/page.tsx:141-144 | the clicked article becomes the working copy and the dialog opens |
| NewsEvents.NewsEventsPage.SetField | src/app/pages/news-events/page.tsx:494-499 | the working copy becomes the copy with one field set |
| NewsEvents.NewsEventsPage.Cancel | src/app/pages/news-events/page.tsx:573-578 | closes the dialog and sends nothing |
| NewsEvents.NewsEventsPage.SaveChanges | src/app/pages/news-events/page.tsx:582-597 | with a selection on a stored id: six-field update, re-fetch, close; a missing id or no selection changes nothing |
| Gallery.FilteredImages | src/app/pages/gallery/page.tsx:142-152 | an image is shown iff it passes the search test and its category is selected; every passing occurrence is kept, in order |
| Gallery.SearchCoversTags | src/app/pages/gallery/page.tsx:143-148 | the search test holds iff the title, the description or some tag holds the term, ignoring case |
| Gallery.AllCategoryIsSearchOnly | src/app/pages/gallery/page.tsx:149-151 | category "All" reduces the view to the search filter |
| Gallery.EmptySearchShowsAll | src/app/pages/gallery/page.tsx:133-135 | with the initial empty term and "All", every image is shown |
| Gallery.RemoveById | src/app/pages/gallery/page.tsx:154-156 | delete keeps every occurrence of the images with another id, in order, and drops every image with that id; an absent id changes nothing |
| Gallery.CategoryCount | src/app/pages/gallery/page.tsx:291-293 | a category counter never exceeds the total |
| Gallery.CategoryCountIsMultiplicity | src/app/pages/gallery/page.tsx:309-311 | a counter is the multiplicity of its category name in the grid's category column |
| Gallery.CountersDisjoint | src/app/pages/gallery/page.tsx:277-311 | two counters of different categories together stay within the total |
| Gallery.Badges | src/app/pages/gallery/page.tsx:422-435 | badges show the first min(3, n) tags, and `+(n-3)` iff there are more than three, so together they account for every tag |
| Gallery.SlugShape | src/app/pages/gallery/page.tsx:563-565 | the slug is the lower-cased category with only its first space made a dash |
| Gallery.DailyLifeSlug | src/app/pages/gallery/page.tsx:563-565 | "Daily Life" pre-selects "daily-life" |
| Gallery.CategoriesHaveSelectValues | src/app/pages/gallery/page.tsx:563-581 | every filter category other than "All" (line 130) pre-selects one of the edit dialog's four select values |
| Gallery.GalleryPage.constructor | src/app/pages/gallery/page.tsx:133-140 | mount: initial images, empty search, "All", nothing selected, and the grid shows every image |
| Gallery.GalleryPage.SetSearchTerm | src/app/pages/gallery/page.tsx:341 | typing a term refilters the grid: shown iff in the list, matching the new term and the selected category |
| Gallery.GalleryPage.SetSelectedCategory | src/app/pages/gallery/page.tsx:345-347 | picking "All" leaves the search filter only; any other category shows only images filed under it |
| Gallery.GalleryPage.DeleteImage | src/app/pages/gallery/page.tsx:154-156 | the image list becomes `RemoveById` of the old list, and no card with that id remains on screen |
| Gallery.GalleryPage.EditImage | src/app/pages/gallery/page.tsx:158-161 | selects the image and opens the edit dialog |
| Gallery.GalleryPage.ViewDetails | src/app/pages/gallery/page.tsx:387 | selects the image for the details dialog |
| Gallery.GalleryPage.CloseDetails | src/app/pages/gallery/page.tsx:448-451 | closing the details dialog clears the selection |
| Gallery.GalleryPage.CloseEdit | src/app/pages/gallery/page.tsx:594-600 | both edit-dialog buttons only close it |
| Classes.CompleteClasses | src/app/pages/classes/page.tsx:85-101 | keeps every document with non-empty name, age range and description (each occurrence), with its id, in snapshot order, and no other; distinct ids stay distinct |
| Classes.InsertMembers | src/app/pages/classes/page.tsx:104-108 | insertion adds the new class and nothing else |
| Classes.InsertSorted | src/app/pages/classes/page.tsx:104-108 | inserting into a sorted list keeps it sorted |
| Classes.InsertKeepsDistinctIds | src/app/pages/classes/page.tsx:104-108 | inserting a class with a new id keeps the ids distinct |
| Classes.SortKeepsDistinctIds | src/app/pages/classes/page.tsx:104-108 | sorting a list with distinct ids keeps them distinct |
| Classes.SortIsSorted | src/app/pages/classes/page.tsx:104-108 | the sorted list is ordered by `CLASS_ORDER.indexOf(classname)` |
| Classes.SortIsPermutation | src/app/pages/classes/page.tsx:104-108 | sorting keeps the length and the multiset of classes |
| Classes.SortIsStable | src/app/pages/classes/page.tsx:104-108 | classes of equal rank (such as all unknown names) keep their fetch order |
| Classes.InsertAtGap | src/app/pages/classes/page.tsx:104-108 | insertion puts the class after the last one ranked at most its own |
| Classes.InsertAt | src/app/pages/classes/page.tsx:104-108 | one in-place insertion pass yields `Insert` on the sorted prefix and leaves the tail alone |
| Classes.SortClasses | src/app/pages/classes/page.tsx:104-108 | the in-place sort leaves the array holding `SortBy` of its old contents |
| Classes.FetchClasses | src/app/pages/classes/page.tsx:82-110 | the fetched list holds exactly the complete documents, as a permutation, sorted by rank, with distinct ids when the snapshot has them |
| Classes.UnknownNamesFirst | src/app/pages/classes/page.tsx:104-108 | in the sorted list, a class whose name is not in the order list precedes every listed name |
| Classes.KnownNamesInListOrder | src/app/pages/classes/page.tsx:72-79 | listed names appear in the order of `CLASS_ORDER` |
| Classes.BunniesBeforeLions | src/app/pages/classes/page.tsx:72-79 | "Bouncy Bunnies" is shown before "Smart Lions" |
| Classes.WithField | src/app/pages/classes/page.tsx:298-305 | a dialog setter changes exactly one field of the working copy and keeps its id and detail fields |
| Classes.SaveWritesWorkingCopy | src/app/pages/classes/page.tsx:136-141 | saving writes the four edited fields and keeps the stored detail fields |
| Classes.EditRoundTrip | src/app/pages/classes/page.tsx:133-141 | editing one field and saving makes the stored class equal to the edited copy |
| Classes.ReplaceById | src/app/pages/classes/page.tsx:142-146 | the `map` keeps the length and the id at every position, so distinct ids stay distinct |
| Classes.ReplaceByIdIsPointUpdate | src/app/pages/classes/page.tsx:142-146 | with distinct ids, the list update replaces exactly the entry with that id |
| Classes.ReplaceAbsentIsIdentity | src/app/pages/classes/page.tsx:349-353 | replacing an id that is not listed leaves the list unchanged |
| Classes.ReplaceIdempotent | src/app/pages/classes/page.tsx:142-146 | replacing twice with the same copy equals replacing once |
| Classes.ClassesPage.constructor | src/app/pages/classes/page.tsx:81-126 | mount: one fetch, so the list is the sorted complete classes, whose ids are distinct |
| Classes.ClassesPage.EditClass | src/app/pages/classes/page.tsx:128-131 | the clicked class becomes the working copy and the dialog opens |
| Classes.ClassesPage.SetField | src/app/pages/classes/page.tsx:274-280 | the working copy becomes the copy with one field set |
| Classes.ClassesPage.Cancel | src/app/pages/classes/page.tsx:336 | closes the dialog and sends nothing |
| Classes.ClassesPage.SaveChanges | src/app/pages/classes/page.tsx:133-149 | with a selection on a stored id: four-field update, then the one listed entry with that id becomes the copy (or the list stays as it is when no entry has it), close; ids stay distinct; a missing id or no selection changes nothing |

## Left out

- Firestore, Firebase Storage and the network are abstracted:
  - a collection is `Gateway.Store`;
  - the ids that `addDoc` picks are the `ids` parameter of `PopulateDatabase`;
  - connection errors, permissions and concurrent writers are not modelled;
  - the only failure kept is `updateDoc` on an id that no longer exists.
  - Firestore orders document ids by their UTF-8 bytes; `Text.Precedes` orders by code point, which gives the same order.
- `async`/`await` and React's batching of state updates are not modelled. Each handler runs to completion as one method.
  - In the source, `fetchArticles()` is not awaited, so the model does not capture a list that is briefly stale.
- The storage-image listing (`listAll` and `Promise.all` over `getDownloadURL`) is not modelled. The image select is modelled as setting `imageUrl` to an arbitrary string.
- The News & Events "View Details" dialog only shows the selected article, so it is not modelled.
- Rendering, loading flags, the blog, login, the article editor and the per-class detail editor are outside this model.
  - So are the JSON parsing of article content for display and the fixture values (`mockImages`, the seed articles).
- Text.Lower: lowers ASCII letters only. JavaScript's `toLowerCase` also maps other Unicode letters, so the model's searches are case-insensitive for ASCII only.
- Optional fields are modelled as the empty string. An absent field and `""` are both falsy, but they differ elsewhere, and the model does not capture these differences:
  - `undefined.toLowerCase()` throws, so the source would crash on an article without a title.
  - For an article without a description, the `description &&` guard (news-events page.tsx:129-130) is what keeps the search from throwing. On strings the guard changes nothing (`NewsEvents.SearchGuardIsRedundant`).
- NewsEvents.NewsEventsPage.FetchArticles: the source spreads `doc.data()` after `id`, so a stored `id` field would override the document id. The model assumes documents carry no `id` field.
- Gallery.GalleryPage.CloseEdit: the gallery edit dialog's inputs are uncontrolled (`defaultValue`), so "Save Changes" only closes the dialog and no image changes. Upload is a dialog without a handler and is not modelled.
- Classes.ClassesPage.SaveChanges: the list is not re-sorted after a save, as in the source, so a renamed class keeps its position. The page has two identical save handlers (lines 133-149 and 340-355); both are this one method.
- Classes.ClassesPage.SaveChanges: when the stored class has no `imageUrl` and no image is picked, the source sends `imageUrl: undefined` (classes page.tsx:140, 347). Firestore rejects that unless the app's Firestore instance ignores undefined properties. That setting lives in `src/lib/firebase`, which is not part of this model. The model returns `Saved` in this case.
- Classes.SortClasses: JavaScript's sort algorithm is not specified. Only its result is modelled: the unique stable ordering by the comparator's key.
