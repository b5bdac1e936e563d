/** The image collection (`ImageCollection`): the decoded index file, the
    records loaded from it, and the operations that write it back. */
module Collection {
  import opened Wrappers
  import opened Strings
  import opened Paths
  import opened OrderedMaps
  import opened Images

  const ErrorCannotSaveInexistentImage := 179401

  /** A PHP array key: the indexer keys entries by image id; `array_values`
      turns the keys into positions. */
  datatype Key = StrKey(s: string) | IntKey(n: int)

  /** The decoded index file: entries in file order. */
  type Store = OMap<Key, Entry>

  /** The loaded records, keyed by id in registration order. */
  type Items = OMap<string, ImageInfo>

  /** `saveImage()`: overwrite the entry stored under the record's id, or
      fail with `ERROR_CANNOT_SAVE_INEXISTENT_IMAGE` when there is none. */
  function SaveImage(store: Store, i: ImageInfo): (r: Result<Store, int>)
    ensures r.Success? <==> HasKey(store, StrKey(i.id))
    ensures r.Failure? ==> r.error == ErrorCannotSaveInexistentImage
    ensures r.Success? ==> Get(r.value, StrKey(i.id)) == Some(Serialize(i))
    ensures r.Success? ==> forall k :: k != StrKey(i.id) ==> Get(r.value, k) == Get(store, k)
    ensures r.Success? ==> Keys(r.value) == Keys(store)
  {
    if HasKey(store, StrKey(i.id)) then
      var s := Put(store, StrKey(i.id), Serialize(i));
      PutGet(store, StrKey(i.id), Serialize(i));
      PutKeys(store, StrKey(i.id), Serialize(i));
      Success(s)
    else Failure(ErrorCannotSaveInexistentImage)
  }

  /** The `id` field of an entry holds exactly `id`. */
  predicate EntryHasId(e: Entry, id: string)
  {
    KeyId in e && e[KeyId] == FStr(id)
  }

  /** The entries without the first one whose id is `id`. */
  function RemoveFirstWithId(es: seq<Entry>, id: string): (r: seq<Entry>)
    ensures (exists k :: 0 <= k < |es| && EntryHasId(es[k], id)) ==>
      var j := FirstWithId(es, id); r == es[..j] + es[j + 1..]
    ensures !(exists k :: 0 <= k < |es| && EntryHasId(es[k], id)) ==> r == es
  {
    if exists k :: 0 <= k < |es| && EntryHasId(es[k], id) then
      var j := FirstWithId(es, id); es[..j] + es[j + 1..]
    else es
  }

  /** The position of the first entry whose id is `id`. */
  function FirstWithId(es: seq<Entry>, id: string): (j: nat)
    requires exists k :: 0 <= k < |es| && EntryHasId(es[k], id)
    ensures j < |es| && EntryHasId(es[j], id)
    ensures forall k :: 0 <= k < j ==> !EntryHasId(es[k], id)
  {
    if EntryHasId(es[0], id) then 0
    else
      assert exists k :: 0 <= k < |es[1..]| && EntryHasId(es[1..][k], id) by {
        var k :| 0 <= k < |es| && EntryHasId(es[k], id);
        assert es[1..][k - 1] == es[k];
      }
      FirstWithId(es[1..], id) + 1
  }

  /** `array_values()`: the values keyed by their positions. */
  function Reindex(es: seq<Entry>): (r: Store)
    ensures |r| == |es|
    ensures forall k :: 0 <= k < |es| ==> r[k] == (IntKey(k), es[k])
  {
    seq(|es|, k requires 0 <= k < |es| => (IntKey(k), es[k]))
  }

  /** The collection's state that `deleteImage()` touches. */
  datatype State = State(items: Items, store: Store, disk: Disk)

  /** `deleteImage()`: drop the record from the loaded items, delete its
      image, sidecar and thumbnail files, remove the first stored entry with
      its id and write the rest back as a list. */
  function DeleteImage(st: State, i: ImageInfo, cacheFolder: Path): (r: State)
    ensures !HasKey(r.items, i.id)
    ensures forall p :: p in r.disk <==> p in st.disk && p != i.imageFile && p != i.sidecarFile && p != ThumbnailFile(i, cacheFolder)
    ensures forall p :: p in r.disk ==> r.disk[p] == st.disk[p]
    ensures Values(r.store) == RemoveFirstWithId(Values(st.store), i.id)
    ensures forall k :: 0 <= k < |r.store| ==> r.store[k].0 == IntKey(k)
  {
    RemoveFacts(st.items, i.id);
    var disk := st.disk - {i.imageFile, i.sidecarFile, ThumbnailFile(i, cacheFolder)};
    State(Remove(st.items, i.id), Reindex(RemoveFirstWithId(Values(st.store), i.id)), disk)
  }

  /** Deleting removes at most one stored entry: exactly one when some entry
      carries the id, and every other entry (linked records included) is
      kept in order. */
  lemma DeleteImageStore(st: State, i: ImageInfo, cacheFolder: Path)
    ensures var es := Values(st.store);
      var r := DeleteImage(st, i, cacheFolder);
      && ((exists k :: 0 <= k < |es| && EntryHasId(es[k], i.id)) ==> |r.store| == |st.store| - 1)
      && (!(exists k :: 0 <= k < |es| && EntryHasId(es[k], i.id)) ==> Values(r.store) == es)
  {
  }

  /** Deleting a record keeps every other loaded record as it was. */
  lemma DeleteImageKeepsOthers(st: State, i: ImageInfo, cacheFolder: Path, other: string)
    requires UniqueKeys(st.items) && other != i.id
    ensures Get(DeleteImage(st, i, cacheFolder).items, other) == Get(st.items, other)
  {
    RemoveGet(st.items, i.id, other);
  }

  /** After a delete the index is a list, so saving any record fails until
      the index is rebuilt: the ids are no longer keys. */
  lemma SaveAfterDeleteFails(st: State, i: ImageInfo, cacheFolder: Path, j: ImageInfo)
    ensures SaveImage(DeleteImage(st, i, cacheFolder).store, j).Failure?
  {
    var s := DeleteImage(st, i, cacheFolder).store;
    assert forall k :: 0 <= k < |s| ==> s[k].0 == IntKey(k) != StrKey(j.id);
  }

  /** The records loaded from the stored entries, in order. */
  function LoadAll(es: seq<Entry>): (xs: seq<ImageInfo>)
    ensures |xs| == |es| && forall k :: 0 <= k < |es| ==> xs[k] == FromSerialized(es[k])
  {
    seq(|es|, k requires 0 <= k < |es| => FromSerialized(es[k]))
  }

  /** The loop of `registerItems()` over loaded records: each is stored
      under its id, a repeated id replacing the earlier record in place. */
  function Register(xs: seq<ImageInfo>): (r: Items)
    ensures UniqueKeys(r) && |r| <= |xs|
  {
    if |xs| == 0 then []
    else
      var prev := Register(xs[..|xs| - 1]);
      var x := xs[|xs| - 1];
      PutUnique(prev, x.id, x);
      Put(prev, x.id, x)
  }

  /** `registerItems()`: one record per stored entry, keyed by its id; an
      entry with an id seen before replaces that record in place. */
  function RegisterItems(es: seq<Entry>): Items
  {
    Register(LoadAll(es))
  }

  /** Every record has an entry under its id. */
  lemma {:induction false} RegisterCovers(xs: seq<ImageInfo>)
    ensures forall k :: 0 <= k < |xs| ==> HasKey(Register(xs), xs[k].id)
  {
    if |xs| > 0 {
      var init := xs[..|xs| - 1];
      var x := xs[|xs| - 1];
      var prev := Register(init);
      RegisterCovers(init);
      PutGet(prev, x.id, x);
      forall k | 0 <= k < |xs| ensures HasKey(Register(xs), xs[k].id) {
        if k < |xs| - 1 {
          assert init[k] == xs[k];
          assert Get(prev, xs[k].id).Some?;
        }
        assert Get(Register(xs), xs[k].id).Some?;
      }
    }
  }

  /** Every entry of the result is one of the records under its own id. */
  lemma {:induction false} RegisterFromRecords(xs: seq<ImageInfo>)
    ensures forall j :: 0 <= j < |Register(xs)| ==> Register(xs)[j].1 in xs && Register(xs)[j].0 == Register(xs)[j].1.id
  {
    if |xs| > 0 {
      var init := xs[..|xs| - 1];
      var x := xs[|xs| - 1];
      var prev := Register(init);
      RegisterFromRecords(init);
      var r := Register(xs);
      assert r == Put(prev, x.id, x);
      forall j | 0 <= j < |r| ensures r[j].1 in xs && r[j].0 == r[j].1.id {
        if r[j] != (x.id, x) {
          if HasKey(prev, x.id) {
            assert j != FirstIndex(prev, x.id);
          } else {
            assert j != |prev|;
          }
          assert j < |prev| && r[j] == prev[j];
          assert prev[j].1 in init;
          var k :| 0 <= k < |init| && init[k] == prev[j].1;
          assert xs[k] == init[k];
        }
      }
    }
  }

  /** With distinct ids every record keeps an entry of its own. */
  lemma {:induction false} RegisterCount(xs: seq<ImageInfo>)
    requires forall j, k :: 0 <= j < k < |xs| ==> xs[j].id != xs[k].id
    ensures |Register(xs)| == |xs|
  {
    if |xs| > 0 {
      var init := xs[..|xs| - 1];
      var x := xs[|xs| - 1];
      var prev := Register(init);
      RegisterCount(init);
      RegisterFromRecords(init);
      assert !HasKey(prev, x.id) by {
        forall j | 0 <= j < |prev| ensures prev[j].0 != x.id {
          var k :| 0 <= k < |init| && init[k] == prev[j].1;
          assert init[k] == xs[k];
        }
      }
    }
  }

  /** Every stored entry has a record under its id. */
  lemma RegisterItemsCovers(es: seq<Entry>)
    ensures forall k :: 0 <= k < |es| ==> HasKey(RegisterItems(es), FromSerialized(es[k]).id)
  {
    RegisterCovers(LoadAll(es));
  }

  /** Every record is one loaded from the stored entries, under its id. */
  lemma RegisterItemsFromEntries(es: seq<Entry>)
    ensures forall j :: 0 <= j < |RegisterItems(es)| ==>
      RegisterItems(es)[j].0 == RegisterItems(es)[j].1.id && RegisterItems(es)[j].1 in LoadAll(es)
  {
    RegisterFromRecords(LoadAll(es));
  }

  /** With distinct ids, every stored entry becomes its own record. */
  lemma RegisterItemsCount(es: seq<Entry>)
    requires forall j, k :: 0 <= j < k < |es| ==> FromSerialized(es[j]).id != FromSerialized(es[k]).id
    ensures |RegisterItems(es)| == |es|
  {
    var xs := LoadAll(es);
    assert forall j, k :: 0 <= j < k < |xs| ==> xs[j].id != xs[k].id;
    RegisterCount(xs);
    assert RegisterItems(es) == Register(xs);
  }

  // ---------------------------------------------------------------------------
  // Ordering and lookup
  // ---------------------------------------------------------------------------

  function Sign(x: int): int
  {
    if x < 0 then -1 else if x > 0 then 1 else 0
  }

  /** `strnatcasecmp`: runs of digits compared by their numeric value, other
      characters by code after folding them to upper case, as C's `toupper`
      does (so `_` sorts after the letters). */
  function NatCaseCmp(a: string, b: string): (r: int)
    ensures -1 <= r <= 1
    decreases |a| + |b|
  {
    if |a| == 0 && |b| == 0 then 0
    else if |a| == 0 then -1
    else if |b| == 0 then 1
    else if IsDigit(a[0]) && IsDigit(b[0]) then
      var da := DigitPrefix(a);
      var db := DigitPrefix(b);
      var va := DigitsValue(da);
      var vb := DigitsValue(db);
      if va != vb then Sign(va - vb) else NatCaseCmp(a[|da|..], b[|db|..])
    else
      var ca := UpperChar(a[0]);
      var cb := UpperChar(b[0]);
      if ca != cb then Sign(ca as int - cb as int) else NatCaseCmp(a[1..], b[1..])
  }

  lemma {:induction false} NatCaseCmpReflexive(a: string)
    ensures NatCaseCmp(a, a) == 0
    decreases |a|
  {
    if |a| > 0 {
      if IsDigit(a[0]) {
        NatCaseCmpReflexive(a[|DigitPrefix(a)|..]);
      } else {
        NatCaseCmpReflexive(a[1..]);
      }
    }
  }

  lemma {:induction false} NatCaseCmpAntisymmetric(a: string, b: string)
    ensures NatCaseCmp(a, b) == -NatCaseCmp(b, a)
    decreases |a| + |b|
  {
    if |a| > 0 && |b| > 0 {
      if IsDigit(a[0]) && IsDigit(b[0]) {
        NatCaseCmpAntisymmetric(a[|DigitPrefix(a)|..], b[|DigitPrefix(b)|..]);
      } else {
        NatCaseCmpAntisymmetric(a[1..], b[1..]);
      }
    }
  }

  /** Numbers sort by value, not by text: "2" before "10". */
  lemma NatCaseCmpNumbers(n: nat, m: nat)
    ensures NatCaseCmp(NatToString(n), NatToString(m)) == Sign(n - m)
  {
    var a := NatToString(n);
    var b := NatToString(m);
    DigitPrefixOfDigits(a);
    DigitPrefixOfDigits(b);
    NatToStringValue(n);
    NatToStringValue(m);
    assert a[|a|..] == [] && b[|b|..] == [];
  }

  /** Case folding goes to upper case: an underscore sorts after a letter,
      whatever the letter's case. */
  lemma NatCaseCmpFoldsUp()
    ensures NatCaseCmp("a_b", "aab") == 1 && NatCaseCmp("a_b", "AAB") == 1
    ensures NatCaseCmp("my_folder", "myfolder") == 1
    ensures NatCaseCmp("Image", "iMAGE") == 0
  {
    assert NatCaseCmp("_b", "ab") == 1;
    assert NatCaseCmp("_b", "AB") == 1;
    assert NatCaseCmp("_folder", "folder") == 1;
    assert NatCaseCmp("e", "E") == 0;
    assert NatCaseCmp("ge", "GE") == 0;
    assert NatCaseCmp("age", "AGE") == 0;
    assert NatCaseCmp("mage", "MAGE") == 0;
  }

  /** `sortItems()`: records ordered by their image paths. */
  function SortItems(a: ImageInfo, b: ImageInfo): (r: int)
    ensures r == -NatCaseCmp(b.imageFile, a.imageFile)
    ensures a.imageFile == b.imageFile ==> r == 0
  {
    NatCaseCmpAntisymmetric(a.imageFile, b.imageFile);
    NatCaseCmpReflexive(a.imageFile);
    NatCaseCmp(a.imageFile, b.imageFile)
  }

  predicate IsHexDigit(c: char)
  {
    IsDigit(c) || 'a' <= c <= 'f' || 'A' <= c <= 'F'
  }

  /** The request parameter validation `setMD5()`: 32 hexadecimal digits. */
  predicate IsMd5(s: string)
  {
    |s| == 32 && forall k :: 0 <= k < |s| ==> IsHexDigit(s[k])
  }

  /** `getFromRequest()`: the record named by the `imageID` parameter, when
      the parameter is a valid, non-empty id of a loaded record. */
  function GetFromRequest(items: Items, param: Option<string>): (r: Option<ImageInfo>)
    ensures r.Some? <==> param.Some? && IsMd5(param.value) && HasKey(items, param.value)
    ensures r.Some? ==> Get(items, param.value) == r
  {
    match param
    case None => None
    case Some(id) =>
      // An invalid value reads as null, which `empty()` rejects.
      var v := if IsMd5(id) then id else "";
      if !PhpEmpty(v) && HasKey(items, v) then Get(items, v) else None
  }
}
