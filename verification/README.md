# Camera PWA gallery persistence, modelled in Dafny

The Camera PWA keeps the photos a user takes in a gallery that survives page
reloads. It persists the gallery in the browser's string key/value store
(`localStorage`). The store uses three kinds of keys:

- `'photo_' + n` holds the data URL of photo `n`;
- `savedPhotosIndex` holds the list of live photo numbers;
- `photoCounter` holds a copy of the in-memory counter `photoCounter`. That
  counter numbers the photos.

This project models that persistence logic. It covers saving, removing and
clearing photos, adding a photo, the confirmation-gated clear of the whole
gallery, and the load walk that rebuilds the gallery when the page opens. It
also models two presentation rules: the title and scroll hint chosen from the
photo count, and where a new photo tile goes in the grid.

Layout:

- `index.dfy`, module `PhotoIndex`: the index as `seq<int>`. It defines the
  filter used by removal (`Without`) and the descending sort used by load
  (`SortDescending`). Lemmas cover duplicates, order and idempotence.
- `storage.dfy`, module `GalleryStorage`: the persisted state as a value.
  `Storage` holds `records: map<int, string>`, `index: Option<seq<int>>` and
  `storedCounter: Option<int>`. An absent key is `None`. The functions `Save`,
  `Remove`, `ClearAll` and `Loaded` give each operation's effect. The lemmas
  state the invariants these operations keep and what the load shows.
- `gallery.dfy`, module `Gallery`: class `PhotoGallery` holds `photoCounter`
  and the three storage fields. Its methods update them in place. Each
  storage method's `ensures` ties the new state to the matching function of
  the old state. `CollectPhotos` is the load's `forEach` loop.
- `view.dfy`, module `GalleryView`: the heading rule, applied to the stored
  index, and the tile-placement rule.

A missing index is read as the empty list, as the code's
`JSON.parse(localStorage.getItem('savedPhotosIndex') || '[]')` does. A record
counts as present for the load only when it exists and is not the empty
string, because the code tests `if (savedPhoto)`. The user's answer to
`confirm` is a `bool` parameter.

Points where the code behaves differently from what one might expect, modelled as written:

- Removal deletes the record first and rewrites the index second. The index
  key is always written, even when it was absent; it then holds `[]`.
- Clearing resets the counter to 0, so photo numbers are reused after a
  clear. The issued numbers rise strictly only between clears.
- Load never rewrites storage, so orphans stay in the persisted index. An
  orphan is an indexed number without a record. Load skips orphans when it
  shows photos.
- The counter is restored from the `photoCounter` key when present. It is
  not recomputed from the largest indexed number.
- No write-failure path exists: the code has no handler around `setItem`.

## Model

| member | source | states |
|---|---|---|
| `PhotoIndex.Without` | app.js:232 | The filtered index holds every number of the old index except `n`, with the same multiplicities, and never `n` |
| `PhotoIndex.WithoutAbsent` | app.js:232 | Filtering out a number the index does not hold leaves the index unchanged |
| `PhotoIndex.WithoutIdempotent` | app.js:232 | Filtering a number out twice gives the same index as filtering it out once |
| `PhotoIndex.WithoutIsSubsequence` | app.js:232 | The numbers left after filtering keep their relative order in the old index |
| `PhotoIndex.SubsequenceKeepsIncreasing` | app.js:232 | Dropping elements from a strictly increasing index leaves it strictly increasing |
| `PhotoIndex.WithoutKeepsIncreasing` | app.js:232 | Removal keeps a strictly increasing index strictly increasing |
| `PhotoIndex.WithoutKeepsNoDuplicates` | app.js:232 | Removal never creates a duplicate in an index that had none |
| `PhotoIndex.SortDescending` | app.js:255 | The sort `(a, b) => b - a` returns a permutation of the index, largest first |
| `PhotoIndex.InsertKeepsNonIncreasing` | app.js:255 | Inserting a number into a largest-first sequence keeps it largest first |
| `PhotoIndex.SortKeepsNoDuplicates` | app.js:255 | Sorting an index without duplicates gives a sequence without duplicates |
| `PhotoIndex.SortStrictlyDescending` | app.js:255 | Sorting an index without duplicates gives a strictly descending sequence |
| `GalleryStorage.Save` | app.js:217-226 | Key `photo_n` holds the data URL and every other record is unchanged. The counter key holds the current counter. `n` is appended to the index only when absent; otherwise the index key is untouched |
| `GalleryStorage.Remove` | app.js:228-234 | `photo_n` is deleted and every other record is unchanged. The index key is written and holds the old numbers minus every `n`. The counter key is untouched |
| `GalleryStorage.ClearAll` | app.js:236-245 | Every indexed record is deleted and every record of an unindexed number is unchanged. The index and counter keys are absent |
| `GalleryStorage.SavedIndex` | app.js:221 | The index as every reader parses it: an absent key gives the empty list, a present one its stored list |
| `GalleryStorage.HasRecord` | app.js:256-257 | A number's photo counts as present iff its key exists and its value is a non-empty string, as the `if (savedPhoto)` test decides |
| `GalleryStorage.RestoredCounter` | app.js:248-251 | The counter after load is the stored counter when the key is present, and the old in-memory counter otherwise |
| `GalleryStorage.Resolve` | app.js:255-267 | The load walk keeps the walked order (its numbers are a subsequence of the walked list). Each number with a present, non-empty record is shown as often as it is walked, with that record's data URL; no other number is shown |
| `GalleryStorage.Loaded` | app.js:253-266 | The load shows at most as many photos as the index holds, each with its stored record. Every indexed number with a record is shown as often as it is indexed, and nothing else is shown |
| `GalleryStorage.SaveKeepsNoDuplicates` | app.js:221-225 | Saving any number keeps a duplicate-free index duplicate-free |
| `GalleryStorage.SaveKeepsCounterBound` | app.js:218-225 | Saving a number at most the counter, with a stored counter at most the counter, keeps every indexed number at most the stored counter |
| `GalleryStorage.RemoveKeepsCounterBound` | app.js:228-234 | Removal keeps every indexed number at most the stored counter |
| `GalleryStorage.RemoveKeepsNoDuplicates` | app.js:231-233 | Removal keeps a duplicate-free index duplicate-free |
| `GalleryStorage.RemoveKeepsOrder` | app.js:231-233 | After removal the index is a subsequence of the old index |
| `GalleryStorage.RemoveAbsentKeepsIndex` | app.js:231-233 | Removing a number absent from the index leaves the index contents as they were |
| `GalleryStorage.RemoveIdempotent` | app.js:228-234 | Removing the same photo twice leaves the same storage as removing it once |
| `GalleryStorage.AddKeepsSession` | app.js:114-131 | In a consistent session, adding issues `counter + 1`, which exceeds every indexed number. That number is appended to the index, and the session invariant holds again with the new counter |
| `GalleryStorage.RemoveKeepsSession` | app.js:228-234 | Removal preserves the session invariant: the index stays strictly increasing and positive, every indexed number has a record, and all are bounded by the stored counter, which equals the in-memory one |
| `GalleryStorage.ClearAllStartsOver` | app.js:236-245 | After clearing, the index reads as empty and the load shows nothing. The storage agrees with a counter of 0 |
| `GalleryStorage.LoadStartsSession` | app.js:247-251 | Loading from consistent storage makes the restored counter agree with storage |
| `GalleryStorage.ResolveKeepsDescending` | app.js:255-266 | Walking a strictly descending list shows photos in strictly descending number order |
| `GalleryStorage.ResolveKeepsNonIncreasing` | app.js:255-266 | Walking a largest-first list, duplicates allowed, shows photos largest number first |
| `GalleryStorage.ResolveAllPresent` | app.js:255-257 | When every walked number has a record, the walk shows exactly the walked numbers, in order |
| `GalleryStorage.LoadedInDescendingOrder` | app.js:253-266 | With no duplicate in the index, the load shows photos in strictly descending number order |
| `GalleryStorage.LoadedNonIncreasing` | app.js:253-266 | For any stored index, duplicates included, the load shows photos largest number first |
| `GalleryStorage.LoadedSkipsOrphans` | app.js:255-257 | A photo is shown by the load iff its number is indexed and its record is present and non-empty, with that record as its data URL |
| `GalleryStorage.LoadedShowsWholeIndex` | app.js:253-267 | From consistent storage the load skips nothing: it shows every indexed number, largest first |
| `GalleryStorage.AddedPhotoLoadsFirst` | app.js:114-131 | A photo added in a consistent session is the first photo the next load shows |
| `GalleryStorage.RemovedPhotoNotLoaded` | app.js:228-234 | After removing `n`, the load never shows photo `n` |
| `Gallery.CollectPhotos` | app.js:255-266 | The load's loop over the sorted index returns exactly the photos `Resolve` gives, in order |
| `Gallery.PhotoGallery.constructor` | app.js:17 | A freshly loaded page has counter 0 and the storage a previous session left |
| `Gallery.PhotoGallery.SavePhotoToStorage` | app.js:217-226 | The new storage is `Save` of the old storage, with the current counter. The in-memory counter is untouched |
| `Gallery.PhotoGallery.RemovePhotoFromStorage` | app.js:228-234 | The new storage is `Remove` of the old storage. The counter and the counter key are untouched |
| `Gallery.PhotoGallery.ClearAllPhotosFromStorage` | app.js:236-245 | The loop deletes the indexed records one by one. The new storage is `ClearAll` of the old storage |
| `Gallery.PhotoGallery.AddPhotoToGallery` | app.js:114-131 | The counter rises by exactly 1 and the photo is saved under the new value. In a consistent session the new number exceeds every indexed one, is appended to the index, and the session invariant is kept |
| `Gallery.PhotoGallery.DeleteSinglePhoto` | app.js:146-156 | With confirmation the photo is removed; without it nothing changes. The session invariant is kept |
| `Gallery.PhotoGallery.ClearGallery` | app.js:184-199 | An empty or missing index reports "no photos" and changes nothing. Declining changes nothing. Confirming resets the counter to 0, clears storage and reports the old count |
| `Gallery.PhotoGallery.LoadSavedPhotos` | app.js:247-274 | Storage is not written. The counter becomes the stored one when present and is otherwise kept. The photos shown are `Loaded` of storage. From consistent storage, load starts a consistent session |
| `GalleryView.HeadingFor` | app.js:166-182 | Count 0 gives the plain title and a hidden hint. Any other count is shown in the title. The hint is visible iff the count exceeds 2 |
| `GalleryView.HeadingOf` | app.js:166-182 | The heading counts the stored index's length, orphans included. The title is plain iff the index is empty or absent, and the hint is visible iff it holds more than 2 numbers |
| `GalleryView.HeadingAfterClear` | app.js:195-199 | After clearing, the title shows no number and the hint is hidden |
| `GalleryView.Place` | app.js:125-129 | Placing a tile adds exactly that tile to the grid |
| `GalleryView.PlaceAll` | app.js:125-129 | Placing tiles one after another adds exactly those tiles to the grid and keeps every tile already there |
| `GalleryView.PlaceAllBehindNotice` | app.js:125-129 | While the empty-gallery notice is the grid's first child, new tiles are appended in the order taken |
| `GalleryView.PlaceAllInFront` | app.js:125-129 | When the notice is not first, new tiles go in front, so the grid reads newest first |

## Left out

- Camera handling (opening, switching and closing the camera, the stream and
  facing mode; app.js:20-108): asynchronous platform I/O.
- Frame capture (`drawImage`, `toDataURL`; app.js:50-51): the data URL is an
  opaque string argument.
- DOM construction and markup, `scrollIntoView`, and showing or hiding
  elements. This includes `checkIfGalleryEmpty` (app.js:158-164) and the
  removal of a photo's tile in `deleteSinglePhoto`. Only the placement order
  of new tiles is modelled. Whether the notice is the grid's first child
  depends on the page markup, which is not part of this model.
- `alert`, `confirm` and the timed success messages (`setTimeout`). The
  confirmation answer is a parameter, and `ClearOutcome` stands for the
  alert or message shown.
- `downloadSinglePhoto` (app.js:136-144): a browser download whose file name
  depends on the clock.
- JSON text and `parseInt`. The index is a `seq<int>` and the counter an
  `int`. The store is modelled as typed fields rather than strings, so the
  key `'photo_' + n` is taken as distinct for distinct `n` and distinct from
  the two fixed keys.
- `GalleryView.HeadingFor`: the title text is reduced to whether it shows a
  count and which count. The Spanish strings are not modelled.
- Storage capacity: the model's store never refuses a write. The source does
  not catch a quota error from `setItem`. Such an error would abort the
  operation midway.
- JavaScript number precision: `photoCounter` is an unbounded integer.
- Event-listener wiring and console logging (app.js:277-290).
