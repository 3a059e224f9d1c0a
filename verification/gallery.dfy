/**
 * The page's gallery state: the in-memory `photoCounter` and the browser
 * store it persists to, updated in place by the gallery's operations.
 * Each storage method is specified by the function of the same effect in
 * `GalleryStorage`; the lemmas there carry the properties.
 */
module Gallery {
  import opened PhotoIndex
  import opened GalleryStorage

  /** What the clear-gallery button reports. */
  datatype ClearOutcome =
    | NothingToClear        // the index is empty or missing: the "no photos" alert
    | Declined              // the user answered no to the confirmation
    | Cleared(count: nat)   // that many photos were removed

  /**
   * Walks the sorted index and collects the photos whose record is present,
   * as the load's `forEach` does; numbers without a record are skipped.
   */
  method CollectPhotos(sorted: seq<int>, records: map<int, string>) returns (shown: seq<Photo>)
    ensures shown == Resolve(sorted, records)
  {
    shown := [];
    for i := 0 to |sorted|
      invariant shown == Resolve(sorted[..i], records)
    {
      var photoNumber := sorted[i];
      assert sorted[..i + 1][..i] == sorted[..i];
      if HasRecord(records, photoNumber) {
        shown := shown + [Photo(photoNumber, records[photoNumber])];
      }
    }
    assert sorted[..|sorted|] == sorted;
  }

  class PhotoGallery {
    /** The in-memory counter: the number of the last photo issued. */
    var photoCounter: int
    /** 'photo_' + n keys. */
    var records: map<int, string>
    /** The 'savedPhotosIndex' key. */
    var index: Option<seq<int>>
    /** The 'photoCounter' key. */
    var storedCounter: Option<int>

    /** The persisted part of the state, as a value. */
    function Store(): Storage
      reads this
    {
      Storage(records, index, storedCounter)
    }

    /** A freshly loaded page: the counter starts at 0, storage is what a previous session left. */
    constructor (persisted: Storage)
      ensures photoCounter == 0 && Store() == persisted
    {
      photoCounter := 0;
      records := persisted.records;
      index := persisted.index;
      storedCounter := persisted.storedCounter;
    }

    /** `savePhotoToStorage`: write the record, then the counter, then append to the index if absent. */
    method SavePhotoToStorage(dataUrl: string, photoNumber: int)
      modifies this`records, this`index, this`storedCounter
      ensures Store() == Save(old(Store()), dataUrl, photoNumber, photoCounter)
    {
      records := records[photoNumber := dataUrl];
      storedCounter := Some(photoCounter);
      var savedPhotos := SavedIndex(Store());
      if photoNumber !in savedPhotos {
        index := Some(savedPhotos + [photoNumber]);
      }
    }

    /** `removePhotoFromStorage`: delete the record, then rewrite the index without the number. */
    method RemovePhotoFromStorage(photoNumber: int)
      modifies this`records, this`index
      ensures Store() == Remove(old(Store()), photoNumber)
    {
      records := records - {photoNumber};
      var savedPhotos := SavedIndex(Store());
      index := Some(Without(savedPhotos, photoNumber));
    }

    /** `clearAllPhotosFromStorage`: delete each indexed record, then the index and counter keys. */
    method ClearAllPhotosFromStorage()
      modifies this`records, this`index, this`storedCounter
      ensures Store() == ClearAll(old(Store()))
    {
      var savedPhotos := SavedIndex(Store());
      for i := 0 to |savedPhotos|
        invariant records == old(records) - Members(savedPhotos[..i])
      {
        assert Members(savedPhotos[..i + 1]) == Members(savedPhotos[..i]) + {savedPhotos[i]} by {
          assert savedPhotos[..i + 1] == savedPhotos[..i] + [savedPhotos[i]];
        }
        records := records - {savedPhotos[i]};
      }
      assert savedPhotos[..|savedPhotos|] == savedPhotos;
      index := None;
      storedCounter := None;
    }

    /**
     * The storage part of `addPhotoToGallery`: issue the next number and
     * save the photo under it. In session the number is above every indexed
     * one, lands at the end of the index, and the session invariant holds.
     */
    method AddPhotoToGallery(dataUrl: string)
      modifies this
      ensures photoCounter == old(photoCounter) + 1
      ensures Store() == Save(old(Store()), dataUrl, photoCounter, photoCounter)
      ensures old(InSession(Store(), photoCounter)) && dataUrl != "" ==>
        && (forall k :: k in old(SavedIndex(Store())) ==> k < photoCounter)
        && SavedIndex(Store()) == old(SavedIndex(Store())) + [photoCounter]
        && InSession(Store(), photoCounter)
    {
      ghost var before := Store();
      ghost var counterBefore := photoCounter;
      photoCounter := photoCounter + 1;
      SavePhotoToStorage(dataUrl, photoCounter);
      if InSession(before, counterBefore) && dataUrl != "" {
        AddKeepsSession(before, counterBefore, dataUrl);
      }
    }

    /** `deleteSinglePhoto`: remove the photo only when the user confirms. */
    method DeleteSinglePhoto(photoNumber: int, confirmed: bool)
      modifies this
      ensures photoCounter == old(photoCounter)
      ensures Store() == if confirmed then Remove(old(Store()), photoNumber) else old(Store())
      ensures old(InSession(Store(), photoCounter)) ==> InSession(Store(), photoCounter)
    {
      if confirmed {
        ghost var before := Store();
        RemovePhotoFromStorage(photoNumber);
        if InSession(before, photoCounter) {
          RemoveKeepsSession(before, photoCounter, photoNumber);
        }
      }
    }

    /**
     * The state part of `clearGallery`: refuse on an empty gallery; after a
     * confirmation reset the counter to 0 and clear storage.
     */
    method ClearGallery(confirmed: bool) returns (outcome: ClearOutcome)
      modifies this
      ensures old(SavedIndex(Store())) == [] ==> outcome == NothingToClear && unchanged(this)
      ensures old(SavedIndex(Store())) != [] && !confirmed ==> outcome == Declined && unchanged(this)
      ensures old(SavedIndex(Store())) != [] && confirmed ==>
        && outcome == Cleared(|old(SavedIndex(Store()))|)
        && photoCounter == 0
        && Store() == ClearAll(old(Store()))
        && InSession(Store(), photoCounter)
    {
      var photoCount := |SavedIndex(Store())|;
      if photoCount == 0 {
        return NothingToClear;
      }
      if !confirmed {
        return Declined;
      }
      photoCounter := 0;
      ClearAllPhotosFromStorage();
      ClearAllStartsOver(old(Store()));
      outcome := Cleared(photoCount);
    }

    /**
     * `loadSavedPhotos`: restore the counter when stored, then show the
     * indexed photos largest number first, skipping those without a record.
     * Storage is only read.
     */
    method LoadSavedPhotos() returns (shown: seq<Photo>)
      modifies this`photoCounter
      ensures Store() == old(Store())
      ensures photoCounter == RestoredCounter(Store(), old(photoCounter))
      ensures shown == Loaded(Store())
      ensures Consistent(Store()) && old(photoCounter) >= 0 ==> InSession(Store(), photoCounter)
    {
      if storedCounter.Some? {
        photoCounter := storedCounter.value;
      }
      var sorted := SortDescending(SavedIndex(Store()));
      shown := CollectPhotos(sorted, records);
      if Consistent(Store()) && old(photoCounter) >= 0 {
        LoadStartsSession(Store(), old(photoCounter));
      }
    }
  }
}
