/**
 * The gallery's persisted state in the browser's key/value store and the
 * effect of each storage operation on it, as values.
 *
 * The store holds three kinds of keys:
 *   'photo_' + n        the data URL of photo n          -> `records[n]`
 *   'savedPhotosIndex'  the list of live photo numbers   -> `index`
 *   'photoCounter'      a copy of the in-memory counter  -> `storedCounter`
 * A key that is absent is `None`; a missing index is read as the empty list.
 * The photo data URL is an opaque string.
 */
module GalleryStorage {
  import opened PhotoIndex

  datatype Option<T> = None | Some(value: T)

  datatype Storage = Storage(
    records: map<int, string>,
    index: Option<seq<int>>,
    storedCounter: Option<int>)

  /** A photo as the gallery shows it: its number and its data URL. */
  datatype Photo = Photo(number: int, dataUrl: string)

  /** The index as the code reads it: an absent key parses as `[]`. */
  function SavedIndex(st: Storage): (s: seq<int>)
    ensures st.index == None ==> s == []
    ensures st.index.Some? ==> s == st.index.value
  {
    match st.index
    case None => []
    case Some(s) => s
  }

  /**
   * A number whose record the load walk shows: the key exists and its value
   * is not the empty string (which JavaScript treats as false).
   */
  predicate HasRecord(records: map<int, string>, n: int): (present: bool)
    ensures present <==> n in records.Keys && |records[n]| > 0
  {
    n in records && records[n] != ""
  }

  /** `savePhotoToStorage(dataUrl, photoNumber)` with the in-memory counter at `counter`. */
  function Save(st: Storage, dataUrl: string, photoNumber: int, counter: int): (r: Storage)
    ensures photoNumber in r.records && r.records[photoNumber] == dataUrl
    ensures forall k :: k != photoNumber ==>
      (k in r.records <==> k in st.records) && (k in r.records ==> r.records[k] == st.records[k])
    ensures r.storedCounter == Some(counter)
    ensures SavedIndex(r) == if photoNumber in SavedIndex(st) then SavedIndex(st) else SavedIndex(st) + [photoNumber]
    ensures photoNumber in SavedIndex(st) ==> r.index == st.index
  {
    var saved := SavedIndex(st);
    Storage(
      st.records[photoNumber := dataUrl],
      if photoNumber in saved then st.index else Some(saved + [photoNumber]),
      Some(counter))
  }

  /** `removePhotoFromStorage(photoNumber)`: the record goes, the index is rewritten filtered. */
  function Remove(st: Storage, photoNumber: int): (r: Storage)
    ensures photoNumber !in r.records
    ensures forall k :: k != photoNumber ==>
      (k in r.records <==> k in st.records) && (k in r.records ==> r.records[k] == st.records[k])
    ensures r.index.Some? && photoNumber !in SavedIndex(r)
    ensures multiset(SavedIndex(r)) == multiset(SavedIndex(st))[photoNumber := 0]
    ensures r.storedCounter == st.storedCounter
  {
    Storage(st.records - {photoNumber}, Some(Without(SavedIndex(st), photoNumber)), st.storedCounter)
  }

  /** `clearAllPhotosFromStorage()`: every indexed record goes, then the index and counter keys. */
  function ClearAll(st: Storage): (r: Storage)
    ensures forall k :: k in SavedIndex(st) ==> k !in r.records
    ensures forall k :: k !in SavedIndex(st) ==>
      (k in r.records <==> k in st.records) && (k in r.records ==> r.records[k] == st.records[k])
    ensures r.index == None && r.storedCounter == None
  {
    Storage(st.records - Members(SavedIndex(st)), None, None)
  }

  /** The counter after `loadSavedPhotos()`: the stored one when present, else unchanged. */
  function RestoredCounter(st: Storage, counter: int): (restored: int)
    ensures st.storedCounter.Some? ==> restored == st.storedCounter.value
    ensures st.storedCounter == None ==> restored == counter
  {
    match st.storedCounter
    case None => counter
    case Some(c) => c
  }

  /** The photo numbers of a list of photos, in order. */
  function Numbers(ps: seq<Photo>): (r: seq<int>)
    ensures |r| == |ps|
  {
    seq(|ps|, i requires 0 <= i < |ps| => ps[i].number)
  }

  /**
   * The photos of `ks`, in that order, skipping numbers without a record:
   * every occurrence of a number with a record is shown, no other number is.
   */
  function Resolve(ks: seq<int>, records: map<int, string>): (r: seq<Photo>)
    ensures |r| <= |ks|
    ensures forall p :: p in r ==> p.number in ks && HasRecord(records, p.number) && records[p.number] == p.dataUrl
    ensures forall k :: k in ks && HasRecord(records, k) ==> Photo(k, records[k]) in r
    ensures SubsequenceOf(Numbers(r), ks)
    ensures forall k :: multiset(Numbers(r))[k] == if HasRecord(records, k) then multiset(ks)[k] else 0
  {
    if ks == [] then []
    else
      var init := ks[..|ks| - 1];
      var k := ks[|ks| - 1];
      assert ks == init + [k];
      var prev := Resolve(init, records);
      if HasRecord(records, k) then
        var r := prev + [Photo(k, records[k])];
        assert Numbers(r) == Numbers(prev) + [k];
        SubsequenceAppend(Numbers(prev), init, k);
        r
      else
        SubsequenceExtend(Numbers(prev), init, k);
        prev
  }

  /** What `loadSavedPhotos()` shows, in order. */
  function Loaded(st: Storage): (shown: seq<Photo>)
    ensures |shown| <= |SavedIndex(st)|
    ensures forall p :: p in shown ==> HasRecord(st.records, p.number) && st.records[p.number] == p.dataUrl
    ensures forall k :: multiset(Numbers(shown))[k] == if HasRecord(st.records, k) then multiset(SavedIndex(st))[k] else 0
  {
    Resolve(SortDescending(SavedIndex(st)), st.records)
  }

  // ---------------------------------------------------------------------
  // Invariants of the persisted state

  /** Every indexed number is at most the stored counter, which is then present. */
  predicate CounterBoundsIndex(st: Storage) {
    forall k :: k in SavedIndex(st) ==> st.storedCounter.Some? && k <= st.storedCounter.value
  }

  /**
   * What the gallery's own operations leave in storage: the index lists
   * positive numbers in the order they were issued, each with a record, all
   * bounded by the stored counter.
   */
  predicate Consistent(st: Storage) {
    && StrictlyIncreasing(SavedIndex(st))
    && (forall k :: k in SavedIndex(st) ==> 1 <= k && HasRecord(st.records, k))
    && CounterBoundsIndex(st)
    && (st.storedCounter.Some? ==> st.storedCounter.value >= 0)
  }

  /** Consistent storage together with an in-memory counter that agrees with it. */
  predicate InSession(st: Storage, counter: int) {
    && Consistent(st)
    && 0 <= counter
    && (st.storedCounter.Some? ==> st.storedCounter.value == counter)
  }

  /** Saving never introduces a duplicate into the index. */
  lemma SaveKeepsNoDuplicates(st: Storage, dataUrl: string, photoNumber: int, counter: int)
    requires NoDuplicates(SavedIndex(st))
    ensures NoDuplicates(SavedIndex(Save(st, dataUrl, photoNumber, counter)))
  {
  }

  /** Saving a number not above the counter keeps every indexed number bounded by the stored counter. */
  lemma SaveKeepsCounterBound(st: Storage, dataUrl: string, photoNumber: int, counter: int)
    requires CounterBoundsIndex(st)
    requires photoNumber <= counter
    requires st.storedCounter.Some? ==> st.storedCounter.value <= counter
    ensures CounterBoundsIndex(Save(st, dataUrl, photoNumber, counter))
  {
  }

  lemma RemoveKeepsCounterBound(st: Storage, photoNumber: int)
    requires CounterBoundsIndex(st)
    ensures CounterBoundsIndex(Remove(st, photoNumber))
  {
  }

  lemma RemoveKeepsNoDuplicates(st: Storage, photoNumber: int)
    requires NoDuplicates(SavedIndex(st))
    ensures NoDuplicates(SavedIndex(Remove(st, photoNumber)))
  {
    WithoutKeepsNoDuplicates(SavedIndex(st), photoNumber);
  }

  /** The numbers left in the index keep their relative order. */
  lemma RemoveKeepsOrder(st: Storage, photoNumber: int)
    ensures SubsequenceOf(SavedIndex(Remove(st, photoNumber)), SavedIndex(st))
  {
    WithoutIsSubsequence(SavedIndex(st), photoNumber);
  }

  /** Removing an absent number leaves the index contents as they were. */
  lemma RemoveAbsentKeepsIndex(st: Storage, photoNumber: int)
    requires photoNumber !in SavedIndex(st)
    ensures SavedIndex(Remove(st, photoNumber)) == SavedIndex(st)
  {
    WithoutAbsent(SavedIndex(st), photoNumber);
  }

  /** Removing twice is the same as removing once. */
  lemma RemoveIdempotent(st: Storage, photoNumber: int)
    ensures Remove(Remove(st, photoNumber), photoNumber) == Remove(st, photoNumber)
  {
    WithoutIdempotent(SavedIndex(st), photoNumber);
  }

  /** Adding in session issues a number above every indexed one and appends it. */
  lemma AddKeepsSession(st: Storage, counter: int, dataUrl: string)
    requires InSession(st, counter) && dataUrl != ""
    ensures forall k :: k in SavedIndex(st) ==> k < counter + 1
    ensures SavedIndex(Save(st, dataUrl, counter + 1, counter + 1)) == SavedIndex(st) + [counter + 1]
    ensures InSession(Save(st, dataUrl, counter + 1, counter + 1), counter + 1)
  {
    var n := counter + 1;
    var saved := SavedIndex(st);
    assert n !in saved;
    var s := saved + [n];
    forall i, j | 0 <= i < j < |s| ensures s[i] < s[j] {
      if j == |saved| {
        assert s[i] in saved;
      }
    }
  }

  lemma RemoveKeepsSession(st: Storage, counter: int, photoNumber: int)
    requires InSession(st, counter)
    ensures InSession(Remove(st, photoNumber), counter)
  {
    WithoutKeepsIncreasing(SavedIndex(st), photoNumber);
  }

  /** Clearing leaves an empty gallery that agrees with a counter reset to 0. */
  lemma ClearAllStartsOver(st: Storage)
    ensures SavedIndex(ClearAll(st)) == [] && Loaded(ClearAll(st)) == []
    ensures InSession(ClearAll(st), 0)
  {
  }

  /** Loading from consistent storage starts a session with the restored counter. */
  lemma LoadStartsSession(st: Storage, counter: int)
    requires Consistent(st) && 0 <= counter
    ensures InSession(st, RestoredCounter(st, counter))
  {
  }

  // ---------------------------------------------------------------------
  // What the load walk shows

  lemma {:induction false} ResolveKeepsDescending(ks: seq<int>, records: map<int, string>)
    requires StrictlyDecreasing(ks)
    ensures StrictlyDecreasing(Numbers(Resolve(ks, records)))
  {
    if ks != [] {
      var init := ks[..|ks| - 1];
      var k := ks[|ks| - 1];
      assert ks == init + [k];
      ResolveKeepsDescending(init, records);
      var prev := Resolve(init, records);
      if HasRecord(records, k) {
        var r := prev + [Photo(k, records[k])];
        forall i, j | 0 <= i < j < |r| ensures Numbers(r)[i] > Numbers(r)[j] {
          if j == |r| - 1 {
            assert r[i] == prev[i] && prev[i] in prev;
            var m :| 0 <= m < |init| && init[m] == r[i].number;
            assert ks[m] == init[m];
          } else {
            assert Numbers(r)[i] == Numbers(prev)[i] && Numbers(r)[j] == Numbers(prev)[j];
          }
        }
      }
    }
  }

  lemma {:induction false} ResolveKeepsNonIncreasing(ks: seq<int>, records: map<int, string>)
    requires NonIncreasing(ks)
    ensures NonIncreasing(Numbers(Resolve(ks, records)))
  {
    if ks != [] {
      var init := ks[..|ks| - 1];
      var k := ks[|ks| - 1];
      assert ks == init + [k];
      ResolveKeepsNonIncreasing(init, records);
      var prev := Resolve(init, records);
      if HasRecord(records, k) {
        var r := prev + [Photo(k, records[k])];
        forall i, j | 0 <= i < j < |r| ensures Numbers(r)[i] >= Numbers(r)[j] {
          if j == |r| - 1 {
            assert r[i] == prev[i] && prev[i] in prev;
            var m :| 0 <= m < |init| && init[m] == r[i].number;
            assert ks[m] == init[m];
          } else {
            assert Numbers(r)[i] == Numbers(prev)[i] && Numbers(r)[j] == Numbers(prev)[j];
          }
        }
      }
    }
  }

  lemma {:induction false} ResolveAllPresent(ks: seq<int>, records: map<int, string>)
    requires forall k :: k in ks ==> HasRecord(records, k)
    ensures Numbers(Resolve(ks, records)) == ks
  {
    if ks != [] {
      var init := ks[..|ks| - 1];
      var k := ks[|ks| - 1];
      assert ks == init + [k];
      ResolveAllPresent(init, records);
      assert k in ks;
      var r := Resolve(init, records) + [Photo(k, records[k])];
      assert Numbers(r) == Numbers(Resolve(init, records)) + [k];
    }
  }

  /** With no duplicate in the index, the load shows photos in strictly descending number order. */
  lemma LoadedInDescendingOrder(st: Storage)
    requires NoDuplicates(SavedIndex(st))
    ensures StrictlyDecreasing(Numbers(Loaded(st)))
  {
    SortStrictlyDescending(SavedIndex(st));
    ResolveKeepsDescending(SortDescending(SavedIndex(st)), st.records);
  }

  /** Whatever the index holds, duplicates included, the load shows photos largest number first. */
  lemma LoadedNonIncreasing(st: Storage)
    ensures NonIncreasing(Numbers(Loaded(st)))
  {
    ResolveKeepsNonIncreasing(SortDescending(SavedIndex(st)), st.records);
  }

  /** The load shows exactly the indexed photos whose record is present; the others are skipped. */
  lemma LoadedSkipsOrphans(st: Storage)
    ensures forall p :: p in Loaded(st) <==>
      p.number in SavedIndex(st) && HasRecord(st.records, p.number) && p.dataUrl == st.records[p.number]
  {
    var sorted := SortDescending(SavedIndex(st));
    forall k ensures k in sorted <==> k in SavedIndex(st) {
      assert k in sorted <==> k in multiset(sorted);
    }
  }

  /** From consistent storage nothing is skipped: every indexed number is shown, largest first. */
  lemma LoadedShowsWholeIndex(st: Storage)
    requires Consistent(st)
    ensures Numbers(Loaded(st)) == SortDescending(SavedIndex(st))
  {
    var sorted := SortDescending(SavedIndex(st));
    forall k | k in sorted ensures HasRecord(st.records, k) {
      assert k in multiset(sorted);
    }
    ResolveAllPresent(sorted, st.records);
  }

  /** A strictly descending sequence that holds its own upper bound starts with it. */
  lemma DescendingStartsWithMaximum(s: seq<int>, x: int)
    requires StrictlyDecreasing(s) && x in s
    requires forall i :: 0 <= i < |s| ==> s[i] <= x
    ensures s[0] == x
  {
  }

  /** A photo added in session is the first one the next load shows. */
  lemma AddedPhotoLoadsFirst(st: Storage, counter: int, dataUrl: string)
    requires InSession(st, counter) && dataUrl != ""
    ensures Loaded(Save(st, dataUrl, counter + 1, counter + 1)) != []
    ensures Loaded(Save(st, dataUrl, counter + 1, counter + 1))[0] == Photo(counter + 1, dataUrl)
  {
    var n := counter + 1;
    var after := Save(st, dataUrl, n, n);
    AddKeepsSession(st, counter, dataUrl);
    StrictlyIncreasingHasNoDuplicates(SavedIndex(after));
    LoadedInDescendingOrder(after);
    LoadedSkipsOrphans(after);
    var shown := Loaded(after);
    var numbers := Numbers(shown);
    assert Photo(n, dataUrl) in shown;
    var i :| 0 <= i < |shown| && shown[i] == Photo(n, dataUrl);
    assert numbers[i] == n;
    forall j | 0 <= j < |numbers| ensures numbers[j] <= n {
      assert shown[j] in shown;
    }
    DescendingStartsWithMaximum(numbers, n);
    assert shown[0] in shown;
  }

  /** After removing n, the load never shows n. */
  lemma RemovedPhotoNotLoaded(st: Storage, photoNumber: int)
    ensures forall p :: p in Loaded(Remove(st, photoNumber)) ==> p.number != photoNumber
  {
    LoadedSkipsOrphans(Remove(st, photoNumber));
  }
}
