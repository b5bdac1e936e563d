/** The image record (`ImageInfo`): its stored form, its dirty flags, the
    settings text that identifies how it was generated, its search words,
    its low-resolution versions and the flag synchronisation with them. */
module Images {
  import opened Wrappers
  import opened Strings
  import opened Paths
  import opened Properties

  const KeyProperties := "properties"
  const KeyCheckpoint := "checkpoint"
  const KeyId := "id"
  const KeyImageFile := "imageFile"
  const KeyDate := "date"
  const KeyLabel := "label"
  const KeySidecarFile := "sidecarFile"
  const KeyUpscaled := "upscaled"
  const KeyImageSize := "imageSize"
  const KeyModified := "modified"

  /** The keys `serialize()` writes. */
  const SerializedKeys: set<string> := {KeyId, KeyImageFile, KeySidecarFile, KeyDate, KeyCheckpoint,
                                        KeyUpscaled, KeyImageSize, KeyModified, KeyLabel, KeyProperties}

  const ThumbnailWidth := 540

  /** `array{width:int, height:int}`, or the empty array a missing entry reads as. */
  datatype Size = NoSize | Dimensions(width: int, height: int)

  /** A value in a stored index entry. */
  datatype Field = FStr(s: string) | FInt(i: int) | FBool(b: bool) | FSize(size: Size) | FProps(props: PropData)

  /** One record of the index file, as decoded JSON. */
  type Entry = map<string, Field>

  datatype ImageInfo = ImageInfo(
    id: string,
    imageFile: Path,
    sidecarFile: Path,
    date: string,
    checkpoint: string,
    upscaled: bool,
    modified: bool,
    labelText: string,
    imageSize: Size,
    props: ImageProperties,
    dataChanged: bool)

  // ---------------------------------------------------------------------------
  // Stored form
  // ---------------------------------------------------------------------------

  /** `getString` on an entry. */
  function EntryString(e: Entry, k: string): (r: string)
    ensures k in e && e[k].FStr? ==> r == e[k].s
    ensures k !in e ==> r == ""
  {
    if k !in e then ""
    else match e[k]
      case FStr(s) => s
      case FInt(i) => IntToString(i)
      case _ => ""
  }

  /** `getBool` on an entry, for stored booleans. */
  function EntryBool(e: Entry, k: string): (r: bool)
    ensures r <==> k in e && e[k] == FBool(true)
  {
    k in e && e[k] == FBool(true)
  }

  /** `getArray('imageSize')` */
  function EntrySize(e: Entry, k: string): (r: Size)
    ensures k in e && e[k].FSize? ==> r == e[k].size
    ensures !(k in e && e[k].FSize?) ==> r == NoSize
  {
    if k in e && e[k].FSize? then e[k].size else NoSize
  }

  /** `getArray('properties')` */
  function EntryProps(e: Entry, k: string): (r: PropData)
    ensures k in e && e[k].FProps? ==> r == e[k].props
    ensures !(k in e && e[k].FProps?) ==> r == map[]
  {
    if k in e && e[k].FProps? then e[k].props else map[]
  }

  /** The entry with `upscaled` and `modified` set to false where absent. */
  function WithDefaults(e: Entry): (r: Entry)
    ensures KeyUpscaled in r && KeyModified in r
    ensures KeyUpscaled in e ==> r[KeyUpscaled] == e[KeyUpscaled]
    ensures KeyUpscaled !in e ==> r[KeyUpscaled] == FBool(false)
    ensures KeyModified in e ==> r[KeyModified] == e[KeyModified]
    ensures KeyModified !in e ==> r[KeyModified] == FBool(false)
    ensures forall k :: k in e && k != KeyUpscaled && k != KeyModified ==> k in r && r[k] == e[k]
  {
    var e1 := if KeyUpscaled in e then e else e[KeyUpscaled := FBool(false)];
    if KeyModified in e1 then e1 else e1[KeyModified := FBool(false)]
  }

  /** `ImageInfo::fromSerialized`. The stored date is kept as its text:
      it is the ISO rendering both writers store, which re-parsing and
      rendering again leaves as it is. */
  function FromSerialized(e: Entry): (r: ImageInfo)
    ensures r.upscaled <==> KeyUpscaled in e && e[KeyUpscaled] == FBool(true)
    ensures r.modified <==> KeyModified in e && e[KeyModified] == FBool(true)
    ensures KeyLabel !in e ==> r.labelText == ""
    ensures !r.dataChanged
  {
    var d := WithDefaults(e);
    ImageInfo(
      EntryString(d, KeyId),
      EntryString(d, KeyImageFile),
      EntryString(d, KeySidecarFile),
      EntryString(d, KeyDate),
      EntryString(d, KeyCheckpoint),
      EntryBool(d, KeyUpscaled),
      EntryBool(d, KeyModified),
      EntryString(d, KeyLabel),
      EntrySize(d, KeyImageSize),
      ImageProperties(EntryProps(d, KeyProperties)),
      false)
  }

  /** `serialize()`: exactly the ten stored keys. */
  function Serialize(i: ImageInfo): (r: Entry)
    ensures r.Keys == SerializedKeys
    ensures WellFormed(r)
  {
    map[KeyId := FStr(i.id),
        KeyImageFile := FStr(i.imageFile),
        KeySidecarFile := FStr(i.sidecarFile),
        KeyDate := FStr(i.date),
        KeyCheckpoint := FStr(i.checkpoint),
        KeyUpscaled := FBool(i.upscaled),
        KeyImageSize := FSize(i.imageSize),
        KeyModified := FBool(i.modified),
        KeyLabel := FStr(i.labelText),
        KeyProperties := FProps(i.props.Serialize())]
  }

  /** An entry as `serialize()` writes it: the ten keys, each of its kind. */
  predicate WellFormed(e: Entry)
  {
    e.Keys == SerializedKeys
    && e[KeyId].FStr? && e[KeyImageFile].FStr? && e[KeySidecarFile].FStr?
    && e[KeyDate].FStr? && e[KeyCheckpoint].FStr? && e[KeyLabel].FStr?
    && e[KeyUpscaled].FBool? && e[KeyModified].FBool?
    && e[KeyImageSize].FSize? && e[KeyProperties].FProps?
  }

  /** Loading a serialized record gives the record back; only the in-memory
      `dataChanged` flag, which is not stored, starts out false again. */
  lemma SerializeRoundTrip(i: ImageInfo)
    ensures FromSerialized(Serialize(i)) == i.(dataChanged := false)
  {
  }

  /** Serializing a loaded well-formed entry gives the entry back. */
  lemma FromSerializedRoundTrip(e: Entry)
    requires WellFormed(e)
    ensures Serialize(FromSerialized(e)) == e
  {
    var r := Serialize(FromSerialized(e));
    assert forall k :: k in e ==> r[k] == e[k];
  }

  /** An entry written by the indexer has no `modified` and no `label`: it
      loads as unmodified and unlabelled. */
  lemma IndexedEntryDefaults(e: Entry)
    requires KeyModified !in e && KeyLabel !in e
    ensures !FromSerialized(e).modified && FromSerialized(e).labelText == ""
  {
  }

  // ---------------------------------------------------------------------------
  // Dirty flags
  // ---------------------------------------------------------------------------

  /** `setDataChanged()`: mark the record as modified (which protects it
      from the indexer) and as changed. */
  function SetDataChanged(i: ImageInfo): (r: ImageInfo)
    ensures r.modified && r.dataChanged
    ensures r.(modified := i.modified, dataChanged := i.dataChanged) == i
  {
    i.(modified := true, dataChanged := true)
  }

  function SetLabel(i: ImageInfo, labelText: string): (r: ImageInfo)
    ensures r.labelText == labelText && r.modified && r.dataChanged
    ensures r.(labelText := i.labelText, modified := i.modified, dataChanged := i.dataChanged) == i
  {
    SetDataChanged(i.(labelText := labelText))
  }

  /** A property setter run on the record's properties: the new properties,
      and the modified callback (`onPropertiesModified`) run as often as the
      setter called it. */
  function ApplyUpdate(i: ImageInfo, u: Update): (r: ImageInfo)
    ensures r.props == u.props
    ensures u.callbacks > 0 ==> r.modified && r.dataChanged
    ensures i.modified ==> r.modified
    ensures i.dataChanged ==> r.dataChanged
    ensures r.(props := i.props, modified := i.modified, dataChanged := i.dataChanged) == i
  {
    var j := i.(props := u.props);
    if u.callbacks > 0 then SetDataChanged(j) else j
  }

  function SetImageFavorite(i: ImageInfo, favorite: bool): (r: ImageInfo)
    ensures r.props.IsFavorite() == favorite && r.modified && r.dataChanged
  {
    ApplyUpdate(i, SetFavorite(i.props, favorite))
  }

  function SetImageForGallery(i: ImageInfo, forGallery: bool): (r: ImageInfo)
    ensures r.props.IsForGallery() == forGallery && r.modified && r.dataChanged
  {
    ApplyUpdate(i, SetForGallery(i.props, forGallery))
  }

  function SetImageFolderName(i: ImageInfo, name: string): (r: ImageInfo)
    ensures r.props.GetFolderName() == name && r.modified && r.dataChanged
  {
    ApplyUpdate(i, SetFolderName(i.props, name))
  }

  function SetImageUpscaledImage(i: ImageInfo, upscaledId: string): (r: ImageInfo)
    ensures r.props.GetUpscaledImage() == if upscaledId == "" then None else Some(upscaledId)
    ensures r.modified && r.dataChanged
  {
    ApplyUpdate(i, SetUpscaledImage(i.props, upscaledId))
  }

  /** The changes a user can make to a record. */
  datatype Edit =
    | LabelEdit(labelText: string)
    | FavoriteEdit(favorite: bool)
    | ForGalleryEdit(forGallery: bool)
    | FolderEdit(folder: string)
    | UpscaledEdit(upscaledId: string)

  function ApplyEdit(i: ImageInfo, e: Edit): (r: ImageInfo)
    ensures r.modified && r.dataChanged
    ensures r.id == i.id && r.imageFile == i.imageFile && r.sidecarFile == i.sidecarFile
  {
    match e
    case LabelEdit(l) => SetLabel(i, l)
    case FavoriteEdit(b) => SetImageFavorite(i, b)
    case ForGalleryEdit(b) => SetImageForGallery(i, b)
    case FolderEdit(f) => SetImageFolderName(i, f)
    case UpscaledEdit(u) => SetImageUpscaledImage(i, u)
  }

  /** Any sequence of edits: once set, `modified` and `dataChanged` stay set. */
  function ApplyEdits(i: ImageInfo, es: seq<Edit>): (r: ImageInfo)
    ensures |es| > 0 ==> r.modified && r.dataChanged
    ensures i.modified ==> r.modified
    ensures i.dataChanged ==> r.dataChanged
    ensures r.id == i.id
    decreases |es|
  {
    if |es| == 0 then i else ApplyEdits(ApplyEdit(i, es[0]), es[1..])
  }

  // ---------------------------------------------------------------------------
  // Settings text and hash
  // ---------------------------------------------------------------------------

  /** The seven mandatory settings, in order: checkpoint, seed, CFG, positive
      prompt, sampler, sampler steps, scheduler. The seed, CFG and steps are
      numbers, written as text by `implode` or by a `(string)` cast. */
  function Mandatory(i: ImageInfo): (r: seq<string>)
    ensures |r| == 7
  {
    [i.checkpoint, IntToString(i.props.GetSeed()), i.props.GetCfg(), i.props.GetPromptPositive(),
     i.props.GetSampler(), IntToString(i.props.GetSamplerSteps()), i.props.GetScheduler()]
  }

  /** All nine settings: the mandatory ones, the negative prompt and the LoRA summary. */
  function SettingsFields(i: ImageInfo, cat: LoRACatalog): (r: seq<string>)
    ensures |r| == 9 && r[..7] == Mandatory(i)
  {
    Mandatory(i) + [i.props.GetPromptNegative(), GetLoRASummary(i.props, cat)]
  }

  /** Some mandatory setting is the empty string. */
  predicate Degenerate(i: ImageInfo)
  {
    exists k :: 0 <= k < 7 && Mandatory(i)[k] == ""
  }

  /** `getSettingsAsText()` */
  function SettingsText(i: ImageInfo, cat: LoRACatalog): (r: string)
    ensures Degenerate(i) ==> r == i.id
  {
    if Degenerate(i) then i.id else Join(SettingsFields(i, cat), "$$")
  }

  /** `getSettingsHash()`, with the digest as a parameter. */
  function SettingsHash(i: ImageInfo, cat: LoRACatalog, md5: string -> string): string
  {
    md5(SettingsText(i, cat))
  }

  /** The seed, CFG and steps are read as numbers, so they are never the
      empty string: only the checkpoint, the positive prompt, the sampler and
      the scheduler can make the settings degenerate. A missing CFG or steps
      key reads as "0". */
  lemma SeedNeverEmpty(i: ImageInfo)
    ensures Mandatory(i)[1] != "" && Mandatory(i)[2] != "" && Mandatory(i)[5] != ""
    ensures Degenerate(i) <==> (i.checkpoint == "" || i.props.GetPromptPositive() == ""
                                || i.props.GetSampler() == "" || i.props.GetScheduler() == "")
    ensures KeyCfg !in i.props.data ==> Mandatory(i)[2] == "0"
    ensures KeySamplerSteps !in i.props.data ==> Mandatory(i)[5] == "0"
  {
    var m := Mandatory(i);
    if Degenerate(i) {
      var k :| 0 <= k < 7 && m[k] == "";
      assert k != 1 && k != 2 && k != 5;
    }
    if i.checkpoint == "" { assert m[0] == ""; }
    if i.props.GetPromptPositive() == "" { assert m[3] == ""; }
    if i.props.GetSampler() == "" { assert m[4] == ""; }
    if i.props.GetScheduler() == "" { assert m[6] == ""; }
  }

  /** Two records generated with the same settings: same checkpoint, and
      the same settings and LoRA entries in their properties. */
  predicate SameSettings(i: ImageInfo, j: ImageInfo, cat: LoRACatalog)
  {
    var keys := {KeySeed, KeyCfg, KeyPromptPositive, KeyPromptNegative, KeySampler, KeySamplerSteps, KeyScheduler} + cat.ids;
    i.checkpoint == j.checkpoint
    && (forall k :: k in keys ==> (k in i.props.data <==> k in j.props.data))
    && (forall k :: k in keys && k in i.props.data ==> i.props.data[k] == j.props.data[k])
  }

  /** The settings text of a non-degenerate record depends on its settings
      only: not on its id, paths, folder, date, label or flags. */
  lemma SettingsTextStable(i: ImageInfo, j: ImageInfo, cat: LoRACatalog)
    requires SameSettings(i, j, cat) && !Degenerate(i)
    ensures !Degenerate(j)
    ensures SettingsText(i, cat) == SettingsText(j, cat)
  {
    LoRASummaryLocal(i.props, j.props, cat);
    assert Mandatory(i) == Mandatory(j);
    assert SettingsFields(i, cat) == SettingsFields(j, cat);
  }

  /** The settings text splits back into its fields when none holds a `$`. */
  lemma SettingsTextFields(i: ImageInfo, cat: LoRACatalog)
    requires !Degenerate(i)
    requires forall k :: 0 <= k < 9 ==> '$' !in SettingsFields(i, cat)[k]
    ensures Split(SettingsText(i, cat), '$') == Interleave(SettingsFields(i, cat))
  {
    var fs := SettingsFields(i, cat);
    JoinDoubled(fs, '$');
    InterleaveClean(fs, '$');
    SplitJoin(Interleave(fs), '$');
  }

  /** Non-degenerate records whose settings hold no `$` have different
      settings texts when their checkpoint, seed or positive prompt differ. */
  lemma SettingsTextDiffers(i: ImageInfo, j: ImageInfo, cat: LoRACatalog)
    requires !Degenerate(i) && !Degenerate(j)
    requires forall k :: 0 <= k < 9 ==> '$' !in SettingsFields(i, cat)[k]
    requires forall k :: 0 <= k < 9 ==> '$' !in SettingsFields(j, cat)[k]
    requires i.checkpoint != j.checkpoint || i.props.GetSeed() != j.props.GetSeed()
             || i.props.GetPromptPositive() != j.props.GetPromptPositive()
    ensures SettingsText(i, cat) != SettingsText(j, cat)
  {
    if SettingsText(i, cat) == SettingsText(j, cat) {
      SettingsTextFields(i, cat);
      SettingsTextFields(j, cat);
      InterleaveInjective(SettingsFields(i, cat), SettingsFields(j, cat));
      assert Mandatory(i) == Mandatory(j);
      assert IntToString(i.props.GetSeed()) == IntToString(j.props.GetSeed());
      IntToStringInjective(i.props.GetSeed(), j.props.GetSeed());
    }
  }

  /** The fields with an empty field after each but the last: what a double
      separator leaves between them when split on its character. */
  function Interleave(fs: seq<string>): (r: seq<string>)
    ensures |fs| > 0 ==> |r| == 2 * |fs| - 1
    ensures forall k :: 0 <= k < |fs| ==> 2 * k < |r| && r[2 * k] == fs[k]
  {
    if |fs| <= 1 then fs else [fs[0], ""] + Interleave(fs[1..])
  }

  lemma {:induction false} JoinDoubled(fs: seq<string>, c: char)
    requires |fs| > 0
    ensures Join(fs, [c, c]) == Join(Interleave(fs), [c])
    decreases |fs|
  {
    if |fs| > 1 {
      var t := Interleave(fs[1..]);
      var inter := [fs[0], ""] + t;
      assert Interleave(fs) == inter;
      assert inter[1..] == [""] + t;
      assert ([""] + t)[1..] == t;
      assert Join([""] + t, [c]) == [c] + Join(t, [c]);
      assert Join(inter, [c]) == fs[0] + [c] + Join([""] + t, [c]);
      assert Join(t, [c]) == Join(fs[1..], [c, c]) by {
        JoinDoubled(fs[1..], c);
      }
      assert Join(fs, [c, c]) == fs[0] + [c, c] + Join(fs[1..], [c, c]);
    }
  }

  lemma {:induction false} InterleaveClean(fs: seq<string>, c: char)
    requires forall k :: 0 <= k < |fs| ==> c !in fs[k]
    ensures forall k :: 0 <= k < |Interleave(fs)| ==> c !in Interleave(fs)[k]
    decreases |fs|
  {
    if |fs| > 1 {
      InterleaveClean(fs[1..], c);
      var t := Interleave(fs[1..]);
      var r := Interleave(fs);
      assert r == [fs[0], ""] + t;
      forall k | 2 <= k < |r| ensures c !in r[k] {
        assert r[k] == t[k - 2];
      }
      assert c !in r[0] && c !in r[1];
    }
  }

  lemma InterleaveInjective(a: seq<string>, b: seq<string>)
    requires |a| == |b| > 0 && Interleave(a) == Interleave(b)
    ensures a == b
  {
    forall k | 0 <= k < |a| ensures a[k] == b[k] {
      assert Interleave(a)[2 * k] == a[k];
    }
  }

  // ---------------------------------------------------------------------------
  // Search words, thumbnails, low-resolution versions
  // ---------------------------------------------------------------------------

  /** `getSearchWords()`: id, file name, seed, name of the file's folder,
      checkpoint and test name, all lowercased. */
  function SearchWords(i: ImageInfo): (r: seq<string>)
    ensures |r| == 6
    ensures forall k :: 0 <= k < 6 ==> ToLower(r[k]) == r[k]
    ensures r[0] == ToLower(i.id) && r[1] == ToLower(FileName(i.imageFile))
    ensures r[2] == IntToString(i.props.GetSeed())
    ensures r[3] == ToLower(FolderName(i.imageFile)) && r[4] == ToLower(i.checkpoint)
    ensures r[5] == ToLower(i.props.GetTestName())
  {
    var words := [i.id, FileName(i.imageFile), IntToString(i.props.GetSeed()),
                  FolderName(i.imageFile), i.checkpoint, i.props.GetTestName()];
    var r := LowerAll(words);
    assert r[0] == ToLower(words[0]) && r[1] == ToLower(words[1]) && r[3] == ToLower(words[3]);
    assert r[4] == ToLower(words[4]) && r[5] == ToLower(words[5]);
    assert r[2] == IntToString(i.props.GetSeed()) by {
      assert r[2] == ToLower(words[2]);
      IntToStringLower(i.props.GetSeed());
    }
    r
  }

  /** Every word lowercased. */
  function LowerAll(words: seq<string>): (r: seq<string>)
    ensures |r| == |words|
    ensures forall k :: 0 <= k < |r| ==> r[k] == ToLower(words[k]) && ToLower(r[k]) == r[k]
  {
    if |words| == 0 then []
    else
      ToLowerIdempotent(words[0]);
      [ToLower(words[0])] + LowerAll(words[1..])
  }

  /** `getThumbnailFile()`: `<cache>/<id>-540.jpg`. */
  function ThumbnailFile(i: ImageInfo, cacheFolder: Path): (r: Path)
    ensures '/' !in i.id ==> Dir(r) == cacheFolder && FileName(r) == i.id + "-540.jpg"
  {
    var name := i.id + "-" + IntToString(ThumbnailWidth) + ".jpg";
    assert IntToString(ThumbnailWidth) == "540";
    if '/' in i.id then cacheFolder + "/" + name
    else
      DirFileName(cacheFolder, name);
      cacheFolder + "/" + name
  }

  /** The record's upscaled-version link points at `id`. */
  predicate LinksTo(x: ImageInfo, id: string)
  {
    x.props.GetUpscaledImage() == Some(id)
  }

  /** The records of `all` that link to `id`, in order. */
  function LinkedTo(all: seq<ImageInfo>, id: string): (r: seq<ImageInfo>)
    ensures forall x :: x in r <==> x in all && LinksTo(x, id)
    ensures |r| <= |all|
  {
    if |all| == 0 then []
    else
      var rest := LinkedTo(all[1..], id);
      assert forall x :: x in all <==> x == all[0] || x in all[1..];
      if LinksTo(all[0], id) then [all[0]] + rest else rest
  }

  /** `findLowResVersions()`: nothing for a regular image; for an upscaled
      one, a full scan for the records whose link points at it. */
  function FindLowResVersions(i: ImageInfo, all: seq<ImageInfo>): (r: seq<ImageInfo>)
    ensures !i.upscaled ==> r == []
    ensures i.upscaled ==> forall x :: x in r <==> x in all && LinksTo(x, i.id)
  {
    if !i.upscaled then [] else LinkedTo(all, i.id)
  }

  // ---------------------------------------------------------------------------
  // Flag synchronisation
  // ---------------------------------------------------------------------------

  /** One iteration of the `syncProperties()` loop, with the flags and label
      of this record as they were read before the loop. */
  function SyncStep(self: ImageInfo, low: ImageInfo, fav: bool, gallery: bool, labelText: string): (r: (ImageInfo, ImageInfo))
    ensures r.0.props.IsFavorite() == (self.props.IsFavorite() || (!fav && low.props.IsFavorite()))
    ensures r.1.props.IsFavorite() == (low.props.IsFavorite() || fav)
    ensures r.0.props.IsForGallery() == (self.props.IsForGallery() || (!gallery && low.props.IsForGallery()))
    ensures r.1.props.IsForGallery() == (low.props.IsForGallery() || gallery)
    ensures r.0.labelText == (if !PhpEmpty(labelText) || PhpEmpty(low.labelText) then self.labelText else low.labelText)
    ensures r.1.labelText == (if !PhpEmpty(labelText) then labelText else low.labelText)
    ensures r.0.id == self.id && r.1.id == low.id
  {
    var (s1, l1) :=
      if fav then (self, SetImageFavorite(low, true))
      else if low.props.IsFavorite() then (SetImageFavorite(self, true), low)
      else (self, low);
    assert s1.props.IsForGallery() == self.props.IsForGallery() by {
      SettersAreIndependent(self.props, true, "");
    }
    assert l1.props.IsForGallery() == low.props.IsForGallery() by {
      SettersAreIndependent(low.props, true, "");
    }
    var (s2, l2) :=
      if gallery then (s1, SetImageForGallery(l1, true))
      else if l1.props.IsForGallery() then (SetImageForGallery(s1, true), l1)
      else (s1, l1);
    assert s2.props.IsFavorite() == s1.props.IsFavorite() by {
      SettersAreIndependent(s1.props, true, "");
    }
    assert l2.props.IsFavorite() == l1.props.IsFavorite() by {
      SettersAreIndependent(l1.props, true, "");
    }
    if !PhpEmpty(labelText) then (s2, SetLabel(l2, labelText))
    else if !PhpEmpty(l2.labelText) then (SetLabel(s2, l2.labelText), l2)
    else (s2, l2)
  }

  /** The loop of `syncProperties()` over the low-resolution versions. */
  function SyncLoop(self: ImageInfo, lows: seq<ImageInfo>, fav: bool, gallery: bool, labelText: string): (r: (ImageInfo, seq<ImageInfo>))
    ensures |r.1| == |lows|
    decreases |lows|
  {
    if |lows| == 0 then (self, [])
    else
      var (s, l) := SyncStep(self, lows[0], fav, gallery, labelText);
      var (s', ls) := SyncLoop(s, lows[1..], fav, gallery, labelText);
      (s', [l] + ls)
  }

  /** `syncProperties()`: this record and its low-resolution versions after
      the synchronisation. */
  function SyncProperties(self: ImageInfo, all: seq<ImageInfo>): (r: (ImageInfo, seq<ImageInfo>))
    ensures |r.1| == |FindLowResVersions(self, all)|
  {
    SyncLoop(self, FindLowResVersions(self, all), self.props.IsFavorite(), self.props.IsForGallery(), self.labelText)
  }

  /** With a single low-resolution version both favorite flags, and both
      gallery flags, become the OR of the two; a non-empty label on this
      record wins, otherwise the other record's non-empty label is copied. */
  lemma SyncOne(self: ImageInfo, low: ImageInfo)
    ensures var r := SyncLoop(self, [low], self.props.IsFavorite(), self.props.IsForGallery(), self.labelText);
      var either := self.props.IsFavorite() || low.props.IsFavorite();
      var eitherGallery := self.props.IsForGallery() || low.props.IsForGallery();
      && r.0.props.IsFavorite() == either && r.1[0].props.IsFavorite() == either
      && r.0.props.IsForGallery() == eitherGallery && r.1[0].props.IsForGallery() == eitherGallery
      && (!PhpEmpty(self.labelText) ==> r.0.labelText == self.labelText && r.1[0].labelText == self.labelText)
      && (PhpEmpty(self.labelText) && !PhpEmpty(low.labelText) ==> r.0.labelText == low.labelText && r.1[0].labelText == low.labelText)
  {
  }

  /** Some record in `xs` is a favorite. */
  predicate AnyFavorite(xs: seq<ImageInfo>)
  {
    exists k :: 0 <= k < |xs| && xs[k].props.IsFavorite()
  }

  /** Some record in `xs` is marked for the gallery. */
  predicate AnyForGallery(xs: seq<ImageInfo>)
  {
    exists k :: 0 <= k < |xs| && xs[k].props.IsForGallery()
  }

  lemma AnyTail(xs: seq<ImageInfo>)
    requires |xs| > 0
    ensures AnyFavorite(xs) <==> xs[0].props.IsFavorite() || AnyFavorite(xs[1..])
    ensures AnyForGallery(xs) <==> xs[0].props.IsForGallery() || AnyForGallery(xs[1..])
  {
    if AnyFavorite(xs) && !xs[0].props.IsFavorite() {
      var k :| 0 <= k < |xs| && xs[k].props.IsFavorite();
      assert xs[1..][k - 1] == xs[k];
    }
    if AnyForGallery(xs) && !xs[0].props.IsForGallery() {
      var k :| 0 <= k < |xs| && xs[k].props.IsForGallery();
      assert xs[1..][k - 1] == xs[k];
    }
    if AnyFavorite(xs[1..]) {
      var k :| 0 <= k < |xs[1..]| && xs[1..][k].props.IsFavorite();
      assert xs[k + 1] == xs[1..][k];
    }
    if AnyForGallery(xs[1..]) {
      var k :| 0 <= k < |xs[1..]| && xs[1..][k].props.IsForGallery();
      assert xs[k + 1] == xs[1..][k];
    }
  }

  /** Over any number of low-resolution versions this record ends up a
      favorite when it was one, or when it was not one before the loop and
      some version was; likewise for the gallery flag. */
  lemma {:induction false} SyncLoopSelf(self: ImageInfo, lows: seq<ImageInfo>, fav: bool, gallery: bool, labelText: string)
    ensures SyncLoop(self, lows, fav, gallery, labelText).0.props.IsFavorite()
            <==> self.props.IsFavorite() || (!fav && AnyFavorite(lows))
    ensures SyncLoop(self, lows, fav, gallery, labelText).0.props.IsForGallery()
            <==> self.props.IsForGallery() || (!gallery && AnyForGallery(lows))
    decreases |lows|
  {
    if |lows| > 0 {
      var (s, l) := SyncStep(self, lows[0], fav, gallery, labelText);
      SyncLoopSelf(s, lows[1..], fav, gallery, labelText);
      AnyTail(lows);
    }
  }

  /** The loop takes one step on the first version, then carries on with
      the rest. */
  lemma SyncLoopCons(self: ImageInfo, lows: seq<ImageInfo>, fav: bool, gallery: bool, labelText: string)
    requires |lows| > 0
    ensures var st := SyncStep(self, lows[0], fav, gallery, labelText);
      var rest := SyncLoop(st.0, lows[1..], fav, gallery, labelText);
      SyncLoop(self, lows, fav, gallery, labelText) == (rest.0, [st.1] + rest.1)
  {
  }

  /** Each version ends up a favorite when it was one or when this record
      was one before the loop, whatever this record became during it. */
  lemma {:induction false} SyncLoopFavorites(self: ImageInfo, lows: seq<ImageInfo>, fav: bool, gallery: bool, labelText: string)
    ensures var r := SyncLoop(self, lows, fav, gallery, labelText);
      forall k :: 0 <= k < |lows| ==> (r.1[k].props.IsFavorite() <==> lows[k].props.IsFavorite() || fav)
    decreases |lows|
  {
    if |lows| > 0 {
      var st := SyncStep(self, lows[0], fav, gallery, labelText);
      var rest := SyncLoop(st.0, lows[1..], fav, gallery, labelText);
      var r := SyncLoop(self, lows, fav, gallery, labelText);
      SyncLoopCons(self, lows, fav, gallery, labelText);
      SyncLoopFavorites(st.0, lows[1..], fav, gallery, labelText);
      forall k | 0 <= k < |lows| ensures (r.1[k].props.IsFavorite() <==> lows[k].props.IsFavorite() || fav) {
        if k > 0 {
          assert r.1[k] == rest.1[k - 1] && lows[k] == lows[1..][k - 1];
        }
      }
    }
  }

  /** Each version ends up marked for the gallery when it was or when this
      record was before the loop. */
  lemma {:induction false} SyncLoopGallery(self: ImageInfo, lows: seq<ImageInfo>, fav: bool, gallery: bool, labelText: string)
    ensures var r := SyncLoop(self, lows, fav, gallery, labelText);
      forall k :: 0 <= k < |lows| ==> (r.1[k].props.IsForGallery() <==> lows[k].props.IsForGallery() || gallery)
    decreases |lows|
  {
    if |lows| > 0 {
      var st := SyncStep(self, lows[0], fav, gallery, labelText);
      var rest := SyncLoop(st.0, lows[1..], fav, gallery, labelText);
      var r := SyncLoop(self, lows, fav, gallery, labelText);
      SyncLoopCons(self, lows, fav, gallery, labelText);
      SyncLoopGallery(st.0, lows[1..], fav, gallery, labelText);
      forall k | 0 <= k < |lows| ensures (r.1[k].props.IsForGallery() <==> lows[k].props.IsForGallery() || gallery) {
        if k > 0 {
          assert r.1[k] == rest.1[k - 1] && lows[k] == lows[1..][k - 1];
        }
      }
    }
  }

  /** Labels: a non-empty label of this record is copied to every version;
      otherwise the versions keep theirs. */
  lemma {:induction false} SyncLoopLabels(self: ImageInfo, lows: seq<ImageInfo>, fav: bool, gallery: bool, labelText: string)
    ensures var r := SyncLoop(self, lows, fav, gallery, labelText);
      forall k :: 0 <= k < |lows| ==> r.1[k].labelText == (if !PhpEmpty(labelText) then labelText else lows[k].labelText)
    ensures !PhpEmpty(labelText) ==> SyncLoop(self, lows, fav, gallery, labelText).0.labelText == self.labelText
    decreases |lows|
  {
    if |lows| > 0 {
      var st := SyncStep(self, lows[0], fav, gallery, labelText);
      var rest := SyncLoop(st.0, lows[1..], fav, gallery, labelText);
      var r := SyncLoop(self, lows, fav, gallery, labelText);
      SyncLoopCons(self, lows, fav, gallery, labelText);
      SyncLoopLabels(st.0, lows[1..], fav, gallery, labelText);
      forall k | 0 <= k < |lows| ensures r.1[k].labelText == (if !PhpEmpty(labelText) then labelText else lows[k].labelText) {
        if k > 0 {
          assert r.1[k] == rest.1[k - 1] && lows[k] == lows[1..][k - 1];
        }
      }
    }
  }
}
