/** The indexer (`ImageIndexer::analyzeImages` / `analyzeImage`): every PNG
    with a JSON sidecar becomes an entry of the index file, keyed by the
    hash of the image; an entry the user has modified only has its paths
    and folder refreshed. */
module Indexer {
  import opened Wrappers
  import opened Strings
  import opened Paths
  import opened OrderedMaps
  import opened Properties
  import opened Images
  import opened Collection
  import opened Metadata
  import opened FileNames

  const ActionUpdatePaths := 180901
  const ActionSkipNoCheckpoint := 180902
  const ActionImageIndexed := 180903

  /** Width or height from which an image counts as upscaled. */
  const UpscaleThreshold := 2000

  const KeyCustomText := "custom_text"
  const KeyUpscaleFactor := "upscaleFactor"

  /** A decoded sidecar file: its top-level keys (generation dates) with
      their property objects, in file order. */
  type Sidecar = seq<(string, PropData)>

  /** What the indexer asks of the outside world: the decoded sidecar files
      that exist, the MD5 hash of an image file, its pixel size, and the
      conversion of a date string to ISO form. */
  datatype Env = Env(
    sidecars: map<Path, Sidecar>,
    hashFile: Path -> string,
    imageSize: Path -> (int, int),
    isoDate: string -> string)

  /** What happened to one image file. */
  datatype Action =
    | SkippedNoSidecar
    | PathsUpdated
    | AlreadyModified
    | SkippedNoCheckpoint
    | Indexed

  /** `parseText()` is declared for strings: any other `custom_text` is a
      `TypeError` that ends the run. */
  datatype IndexError = CustomTextNotString(imagePath: Path)

  /** The code of the analysis result recorded for an action, if any. */
  function ActionCode(a: Action): (r: Option<int>)
    ensures r.Some? <==> a == PathsUpdated || a == SkippedNoCheckpoint || a == Indexed
  {
    match a
    case PathsUpdated => Some(ActionUpdatePaths)
    case SkippedNoCheckpoint => Some(ActionSkipNoCheckpoint)
    case Indexed => Some(ActionImageIndexed)
    case _ => None
  }

  /** PHP's `empty()` on a property value. */
  predicate EmptyValue(v: PropValue)
  {
    match v
    case PStr(s) => PhpEmpty(s)
    case PInt(i) => i == 0
    case PBool(b) => !b
  }

  /** A property value as a field of an index entry. */
  function ToField(v: PropValue): (r: Field)
    ensures v.PStr? <==> r.FStr?
  {
    match v
    case PStr(s) => FStr(s)
    case PInt(i) => FInt(i)
    case PBool(b) => FBool(b)
  }

  /** The sidecar path: every `.png` in the image path replaced by `.json`. */
  function SidecarPath(imagePath: Path): Path
  {
    ReplaceAll(imagePath, ".png", ".json")
  }

  /** The first date key of the sidecar and its properties; an empty
      sidecar has neither. */
  function FirstRecord(sc: Sidecar): (r: (string, PropData))
    ensures |sc| > 0 ==> r == sc[0]
    ensures |sc| == 0 ==> r.1 == map[]
  {
    if |sc| == 0 then ("", map[]) else sc[0]
  }

  /** The stored entry under `id` has `modified` set to `true`. */
  predicate IsModified(store: Store, id: string)
  {
    var e := Get(store, StrKey(id));
    e.Some? && KeyModified in e.value && e.value[KeyModified] == FBool(true)
  }

  // ---------------------------------------------------------------------------
  // Modified entries: paths and folder only
  // ---------------------------------------------------------------------------

  /** The folder stored in an entry's properties needs rewriting: it is
      missing, empty in PHP's sense (which includes "0"), or different. */
  predicate FolderStale(e: Entry, folder: string)
  {
    var props := EntryProps(e, KeyProperties);
    KeyFolderName !in props || EmptyValue(props[KeyFolderName]) || props[KeyFolderName] != PStr(folder)
  }

  /** The entry with the image path, sidecar path and folder brought up to
      date, each only when it differs; and whether anything was rewritten. */
  function RefreshPaths(e: Entry, file: Path, sidecar: Path, folder: string): (r: (Entry, bool))
    ensures KeyImageFile in r.0 && r.0[KeyImageFile] == FStr(file)
    ensures KeySidecarFile in r.0 && r.0[KeySidecarFile] == FStr(sidecar)
    ensures KeyProperties in r.0 && r.0[KeyProperties].FProps?
    ensures KeyFolderName in r.0[KeyProperties].props && r.0[KeyProperties].props[KeyFolderName] == PStr(folder)
    ensures r.1 <==> !(KeyImageFile in e && e[KeyImageFile] == FStr(file))
                     || !(KeySidecarFile in e && e[KeySidecarFile] == FStr(sidecar))
                     || FolderStale(e, folder)
    ensures !r.1 ==> r.0 == e
  {
    var fileChanged := !(KeyImageFile in e && e[KeyImageFile] == FStr(file));
    var e1 := if fileChanged then e[KeyImageFile := FStr(file)] else e;
    var sidecarChanged := !(KeySidecarFile in e1 && e1[KeySidecarFile] == FStr(sidecar));
    var e2 := if sidecarChanged then e1[KeySidecarFile := FStr(sidecar)] else e1;
    var props := EntryProps(e2, KeyProperties);
    var folderChanged := FolderStale(e2, folder);
    var e3 := if folderChanged then e2[KeyProperties := FProps(props[KeyFolderName := PStr(folder)])] else e2;
    (e3, fileChanged || sidecarChanged || folderChanged)
  }

  /** Refreshing leaves the `modified` flag as it was. */
  lemma RefreshKeepsModified(e: Entry, file: Path, sidecar: Path, folder: string)
    ensures var r := RefreshPaths(e, file, sidecar, folder).0;
      (KeyModified in r <==> KeyModified in e) && (KeyModified in e ==> r[KeyModified] == e[KeyModified])
  {
    assert |KeyModified| == 8 && |KeyImageFile| == 9 && |KeySidecarFile| == 11 && |KeyProperties| == 10;
  }

  /** `after` agrees with `before` on every key but the paths and the
      properties, and on every property but the folder. */
  predicate Protected(before: Entry, after: Entry)
  {
    && (forall k :: k in before && k != KeyImageFile && k != KeySidecarFile && k != KeyProperties ==>
          k in after && after[k] == before[k])
    && (forall k :: k in EntryProps(before, KeyProperties) && k != KeyFolderName ==>
          k in EntryProps(after, KeyProperties) && EntryProps(after, KeyProperties)[k] == EntryProps(before, KeyProperties)[k])
  }

  lemma ProtectedReflexive(e: Entry)
    ensures Protected(e, e)
  {
  }

  lemma ProtectedTransitive(a: Entry, b: Entry, c: Entry)
    requires Protected(a, b) && Protected(b, c)
    ensures Protected(a, c)
  {
  }
  /** Refreshing keeps everything but the two paths and the properties, and
      in the properties everything but the folder. */
  lemma RefreshPathsKeeps(e: Entry, file: Path, sidecar: Path, folder: string)
    ensures var r := RefreshPaths(e, file, sidecar, folder).0;
      r.Keys == e.Keys + {KeyImageFile, KeySidecarFile, KeyProperties} && Protected(e, r)
  {
  }

  // ---------------------------------------------------------------------------
  // New entries
  // ---------------------------------------------------------------------------

  /** The keys the indexer fills in from the file name and the folder. */
  const NameKeys: set<string> := {KeyFolderName, KeySeed, KeyImgBatchNr, KeyTestNumber, KeyTestName}

  /** The properties of a freshly indexed image: the parsed text, the folder
      (always overwritten), and seed, batch number, test number and test
      name from the file name where the text did not set them. */
  function BuildProps(parsed: map<string, string>, np: NameParts, folder: string): (r: PropData)
    ensures forall k :: k in r <==> k in parsed || k in NameKeys
    ensures r[KeyFolderName] == PStr(folder)
    ensures forall k :: k in parsed && k != KeyFolderName ==> r[k] == PStr(parsed[k])
    ensures KeySeed !in parsed ==> r[KeySeed] == PStr(np.seed)
    ensures KeyImgBatchNr !in parsed ==> r[KeyImgBatchNr] == PStr(IntToString(np.imageNumber))
    ensures KeyTestNumber !in parsed ==> r[KeyTestNumber] == PStr(IntToString(np.testNumber))
    ensures KeyTestName !in parsed ==> r[KeyTestName] == PStr(np.testName)
  {
    var p0 := map k | k in parsed :: PStr(parsed[k]);
    var p1 := p0[KeyFolderName := PStr(folder)];
    var p2 := if KeySeed in p1 then p1 else p1[KeySeed := PStr(np.seed)];
    var p3 := if KeyImgBatchNr in p2 then p2 else p2[KeyImgBatchNr := PStr(IntToString(np.imageNumber))];
    var p4 := if KeyTestNumber in p3 then p3 else p3[KeyTestNumber := PStr(IntToString(np.testNumber))];
    if KeyTestName in p4 then p4 else p4[KeyTestName := PStr(np.testName)]
  }

  /** The upscale classification: an `upscaleFactor` in the parsed text, a
      side of at least 2000 pixels, or the file name test. That test is
      `str_contains('upscale', $baseName)`, with the haystack and needle in
      this order: it holds when the base name occurs inside the word
      `upscale`, not when the word occurs in the name. */
  function IsUpscaled(props: PropData, baseName: string, size: (int, int)): (r: bool)
    ensures r <==> KeyUpscaleFactor in props || (exists i :: OccursAt("upscale", baseName, i))
                   || size.0 >= UpscaleThreshold || size.1 >= UpscaleThreshold
  {
    ContainsIff("upscale", baseName);
    KeyUpscaleFactor in props || Contains("upscale", baseName)
      || size.0 >= UpscaleThreshold || size.1 >= UpscaleThreshold
  }

  /** A string longer than the subject is not contained in it. */
  lemma ContainsLonger(s: string, sub: string)
    requires |sub| > |s|
    ensures !Contains(s, sub)
  {
    ContainsIff(s, sub);
  }

  /** Because of the argument order, a small image whose name carries the
      word, such as `1-upscale-2`, counts as regular when the text has no
      upscale factor; a name that is part of the word, such as `scale`,
      counts as upscaled. */
  lemma UpscaleNameTest()
    ensures !IsUpscaled(map[], "1-upscale-2", (512, 512))
    ensures IsUpscaled(map[], "scale", (512, 512))
  {
    ContainsLonger("upscale", "1-upscale-2");
    assert OccursAt("upscale", "scale", 2);
  }

  /** The entry the indexer writes for a new or unmodified image: eight
      keys, no `modified` and no `label`. */
  function NewEntry(id: string, file: Path, sidecar: Path, date: string, checkpoint: PropValue,
                    upscaled: bool, size: (int, int), props: PropData): (r: Entry)
    ensures r.Keys == SerializedKeys - {KeyModified, KeyLabel}
    ensures KeyId in r && r[KeyId] == FStr(id)
    ensures KeyImageFile in r && r[KeyImageFile] == FStr(file)
    ensures KeySidecarFile in r && r[KeySidecarFile] == FStr(sidecar)
    ensures KeyDate in r && r[KeyDate] == FStr(date)
    ensures KeyCheckpoint in r && r[KeyCheckpoint] == ToField(checkpoint)
    ensures KeyUpscaled in r && r[KeyUpscaled] == FBool(upscaled)
    ensures KeyImageSize in r && r[KeyImageSize] == FSize(Dimensions(size.0, size.1))
    ensures KeyProperties in r && r[KeyProperties] == FProps(props)
  {
    map[KeyId := FStr(id),
        KeyImageFile := FStr(file),
        KeySidecarFile := FStr(sidecar),
        KeyDate := FStr(date),
        KeyCheckpoint := ToField(checkpoint),
        KeyUpscaled := FBool(upscaled),
        KeyImageSize := FSize(Dimensions(size.0, size.1)),
        KeyProperties := FProps(props)]
  }

  // ---------------------------------------------------------------------------
  // One image
  // ---------------------------------------------------------------------------

  datatype Step = Step(store: Store, action: Action)

  /** The entry indexed for an image whose sidecar has a non-empty
      checkpoint and a string `custom_text`. */
  function IndexedEntry(env: Env, imagePath: Path, sidecarPath: Path, sc: Sidecar, text: string): (r: Entry)
    ensures KeyModified !in r && KeyLabel !in r
    ensures KeyId in r && r[KeyId] == FStr(env.hashFile(imagePath))
    ensures KeyImageFile in r && r[KeyImageFile] == FStr(imagePath)
    ensures KeySidecarFile in r && r[KeySidecarFile] == FStr(sidecarPath)
    ensures KeyProperties in r && r[KeyProperties].FProps?
    ensures KeyFolderName in r[KeyProperties].props && r[KeyProperties].props[KeyFolderName] == PStr(FolderName(imagePath))
  {
    var (date, properties) := FirstRecord(sc);
    var checkpoint := if KeyCheckpoint in properties then properties[KeyCheckpoint] else PStr("");
    var baseName := BaseName(imagePath);
    var folder := FolderName(imagePath);
    var props := BuildProps(ParseText(text), DecodeFileName(baseName), folder);
    var size := env.imageSize(imagePath);
    NewEntry(env.hashFile(imagePath), imagePath, sidecarPath, env.isoDate(ReplaceAll(date, "/", "-")),
             checkpoint, IsUpscaled(props, baseName, size), size, props)
  }

  /** The branch of `analyzeImage()` for an entry the user has modified:
      refresh its paths and folder. */
  function RefreshStep(store: Store, id: string, imagePath: Path, sidecarPath: Path): (r: Step)
    requires IsModified(store, id)
    ensures r.action == PathsUpdated || r.action == AlreadyModified
    ensures r.action == AlreadyModified ==> r.store == store
    ensures IsModified(r.store, id)
    ensures Get(r.store, StrKey(id)) == Some(RefreshPaths(Get(store, StrKey(id)).value, imagePath, sidecarPath, FolderName(imagePath)).0)
  {
    var before := Get(store, StrKey(id)).value;
    var (e, updated) := RefreshPaths(before, imagePath, sidecarPath, FolderName(imagePath));
    RefreshKeepsModified(before, imagePath, sidecarPath, FolderName(imagePath));
    var st := Put(store, StrKey(id), e);
    PutGet(store, StrKey(id), e);
    assert !updated ==> st == store by {
      if !updated {
        PutSame(store, StrKey(id), e);
      }
    }
    Step(st, if updated then PathsUpdated else AlreadyModified)
  }

  /** The branch of `analyzeImage()` for an image not yet indexed, or
      indexed but not modified: skip it without a checkpoint, fail on a
      non-string text, and otherwise store a fresh entry under its hash. */
  function IndexStep(env: Env, store: Store, imagePath: Path, sidecarPath: Path, sc: Sidecar): (r: Result<Step, IndexError>)
    ensures r.Failure? ==> r.error == CustomTextNotString(imagePath)
    ensures r.Success? ==> r.value.action == SkippedNoCheckpoint || r.value.action == Indexed
    ensures r.Success? && r.value.action == SkippedNoCheckpoint ==> r.value.store == store
    ensures r.Success? && r.value.action == Indexed ==>
      var properties := FirstRecord(sc).1;
      && KeyCheckpoint in properties && !EmptyValue(properties[KeyCheckpoint])
      && Get(r.value.store, StrKey(env.hashFile(imagePath))).Some?
      && KeyModified !in Get(r.value.store, StrKey(env.hashFile(imagePath))).value
  {
    var properties := FirstRecord(sc).1;
    var checkpoint := if KeyCheckpoint in properties then properties[KeyCheckpoint] else PStr("");
    if EmptyValue(checkpoint) then Success(Step(store, SkippedNoCheckpoint))
    else
      var text := if KeyCustomText in properties then properties[KeyCustomText] else PStr("");
      if !text.PStr? then Failure(CustomTextNotString(imagePath))
      else
        var e := IndexedEntry(env, imagePath, sidecarPath, sc, text.s);
        PutGet(store, StrKey(env.hashFile(imagePath)), e);
        Success(Step(Put(store, StrKey(env.hashFile(imagePath)), e), Indexed))
  }

  /** A freshly indexed entry loads as an unmodified, unlabelled record of
      the image, with the folder it lies in. */
  lemma IndexedRecord(env: Env, imagePath: Path, sidecarPath: Path, sc: Sidecar, text: string)
    ensures var i := FromSerialized(IndexedEntry(env, imagePath, sidecarPath, sc, text));
      && !i.modified && i.labelText == ""
      && i.id == env.hashFile(imagePath) && i.imageFile == imagePath && i.sidecarFile == sidecarPath
      && i.props.GetFolderName() == FolderName(imagePath)
  {
    var e := IndexedEntry(env, imagePath, sidecarPath, sc, text);
    IndexedEntryDefaults(e);
    var d := WithDefaults(e);
    assert d[KeyId] == e[KeyId] && d[KeyImageFile] == e[KeyImageFile] && d[KeySidecarFile] == e[KeySidecarFile];
    assert d[KeyProperties] == e[KeyProperties];
  }

  /** `analyzeImage()`: the outcome of one image, classified. Modified
      entries only get their paths refreshed and are never re-indexed; an
      image is indexed only when its sidecar has a non-empty checkpoint,
      and the entry it gets carries no `modified`; nothing but the entry
      under the image's hash changes. */
  function AnalyzeImage(env: Env, store: Store, imagePath: Path, sidecarPath: Path, sc: Sidecar): (r: Result<Step, IndexError>)
    ensures r.Failure? ==> r.error == CustomTextNotString(imagePath) && !IsModified(store, env.hashFile(imagePath))
    ensures IsModified(store, env.hashFile(imagePath)) ==>
      r.Success? && (r.value.action == PathsUpdated || r.value.action == AlreadyModified)
      && IsModified(r.value.store, env.hashFile(imagePath))
    ensures r.Success? && r.value.action == SkippedNoCheckpoint ==> r.value.store == store
    ensures r.Success? && r.value.action == AlreadyModified ==> r.value.store == store
    ensures r.Success? && r.value.action == Indexed ==>
      var properties := FirstRecord(sc).1;
      && !IsModified(store, env.hashFile(imagePath))
      && KeyCheckpoint in properties && !EmptyValue(properties[KeyCheckpoint])
      && Get(r.value.store, StrKey(env.hashFile(imagePath))).Some?
      && KeyModified !in Get(r.value.store, StrKey(env.hashFile(imagePath))).value
    ensures r.Success? ==> r.value.action != SkippedNoSidecar
  {
    var id := env.hashFile(imagePath);
    if IsModified(store, id) then Success(RefreshStep(store, id, imagePath, sidecarPath))
    else IndexStep(env, store, imagePath, sidecarPath, sc)
  }

  /** Analysing an image touches only the entry under its hash. */
  lemma AnalyzeImageFrame(env: Env, store: Store, imagePath: Path, sidecarPath: Path, sc: Sidecar, k: Key)
    requires AnalyzeImage(env, store, imagePath, sidecarPath, sc).Success?
    requires k != StrKey(env.hashFile(imagePath))
    ensures Get(AnalyzeImage(env, store, imagePath, sidecarPath, sc).value.store, k) == Get(store, k)
  {
    var after := AnalyzeImage(env, store, imagePath, sidecarPath, sc).value.store;
    var e := AnalyzeImageWrites(env, store, imagePath, sidecarPath, sc);
    if after != store {
      PutGet(store, StrKey(env.hashFile(imagePath)), e);
    }
  }

  /** A changed index differs by one `Put` under the image's hash. */
  lemma AnalyzeImageWrites(env: Env, store: Store, imagePath: Path, sidecarPath: Path, sc: Sidecar) returns (e: Entry)
    requires AnalyzeImage(env, store, imagePath, sidecarPath, sc).Success?
    ensures var after := AnalyzeImage(env, store, imagePath, sidecarPath, sc).value.store;
      after == store || after == Put(store, StrKey(env.hashFile(imagePath)), e)
  {
    var id := env.hashFile(imagePath);
    if IsModified(store, id) {
      var (e', updated) := RefreshPaths(Get(store, StrKey(id)).value, imagePath, sidecarPath, FolderName(imagePath));
      e := e';
      assert RefreshStep(store, id, imagePath, sidecarPath).store == store || RefreshStep(store, id, imagePath, sidecarPath).store == Put(store, StrKey(id), e);
    } else {
      var properties := FirstRecord(sc).1;
      var text := if KeyCustomText in properties then properties[KeyCustomText] else PStr("");
      e := IndexedEntry(env, imagePath, sidecarPath, sc, if text.PStr? then text.s else "");
    }
  }

  /** A modified entry keeps everything it had except the two paths and the
      folder: checkpoint, date, label, upscale flag and all other properties
      survive re-indexing. */
  lemma ModifiedEntryProtected(env: Env, store: Store, imagePath: Path, sidecarPath: Path, sc: Sidecar)
    requires IsModified(store, env.hashFile(imagePath))
    ensures var r := AnalyzeImage(env, store, imagePath, sidecarPath, sc);
      var id := env.hashFile(imagePath);
      && r.Success?
      && IsModified(r.value.store, id)
      && var after := Get(r.value.store, StrKey(id)).value;
      && KeyImageFile in after && after[KeyImageFile] == FStr(imagePath)
      && KeySidecarFile in after && after[KeySidecarFile] == FStr(sidecarPath)
      && EntryProps(after, KeyProperties)[KeyFolderName := PStr(FolderName(imagePath))] == EntryProps(after, KeyProperties)
      && Protected(Get(store, StrKey(id)).value, after)
  {
    var id := env.hashFile(imagePath);
    var before := Get(store, StrKey(id)).value;
    RefreshPathsKeeps(before, imagePath, sidecarPath, FolderName(imagePath));
    var after := RefreshPaths(before, imagePath, sidecarPath, FolderName(imagePath)).0;
    assert Get(RefreshStep(store, id, imagePath, sidecarPath).store, StrKey(id)) == Some(after);
  }

  /** Refreshing a refreshed entry changes nothing, and reports nothing
      unless the folder name is empty in PHP's sense ("" or "0"), which
      `empty()` always counts as stale. */
  lemma RefreshPathsTwice(e: Entry, file: Path, sidecar: Path, folder: string)
    ensures var r := RefreshPaths(e, file, sidecar, folder).0;
      && RefreshPaths(r, file, sidecar, folder).0 == r
      && (RefreshPaths(r, file, sidecar, folder).1 <==> PhpEmpty(folder))
  {
    var r := RefreshPaths(e, file, sidecar, folder).0;
    var props := EntryProps(r, KeyProperties);
    assert props[KeyFolderName := PStr(folder)] == props;
    assert r[KeyProperties := FProps(props)] == r;
  }

  /** The modified branch reaches its fixpoint in one pass. */
  lemma RefreshStepTwice(store: Store, id: string, imagePath: Path, sidecarPath: Path)
    requires IsModified(store, id)
    ensures var s1 := RefreshStep(store, id, imagePath, sidecarPath).store;
      var r2 := RefreshStep(s1, id, imagePath, sidecarPath);
      && r2.store == s1
      && (r2.action == AlreadyModified <==> !PhpEmpty(FolderName(imagePath)))
  {
    var before := Get(store, StrKey(id)).value;
    var after := RefreshPaths(before, imagePath, sidecarPath, FolderName(imagePath)).0;
    var s1 := RefreshStep(store, id, imagePath, sidecarPath).store;
    RefreshPathsTwice(before, imagePath, sidecarPath, FolderName(imagePath));
    assert Get(s1, StrKey(id)) == Some(after);
    PutSame(s1, StrKey(id), after);
  }

  /** The other branch is idempotent: indexing again writes the same entry. */
  lemma IndexStepTwice(env: Env, store: Store, imagePath: Path, sidecarPath: Path, sc: Sidecar)
    requires IndexStep(env, store, imagePath, sidecarPath, sc).Success?
    ensures var r1 := IndexStep(env, store, imagePath, sidecarPath, sc).value;
      IndexStep(env, r1.store, imagePath, sidecarPath, sc) == Success(r1)
  {
    var r1 := IndexStep(env, store, imagePath, sidecarPath, sc).value;
    if r1.action == Indexed {
      var id := env.hashFile(imagePath);
      var properties := FirstRecord(sc).1;
      var text := if KeyCustomText in properties then properties[KeyCustomText] else PStr("");
      var e := IndexedEntry(env, imagePath, sidecarPath, sc, text.s);
      PutGet(store, StrKey(id), e);
      PutSame(r1.store, StrKey(id), e);
    }
  }

  /** Analysing the same image twice leaves the index as the first pass
      did; on a modified entry the second pass reports no change unless the
      folder name is "" or "0". */
  lemma AnalyzeImageTwice(env: Env, store: Store, imagePath: Path, sidecarPath: Path, sc: Sidecar)
    requires AnalyzeImage(env, store, imagePath, sidecarPath, sc).Success?
    ensures var s1 := AnalyzeImage(env, store, imagePath, sidecarPath, sc).value.store;
      var r2 := AnalyzeImage(env, s1, imagePath, sidecarPath, sc);
      && r2.Success? && r2.value.store == s1
      && (IsModified(store, env.hashFile(imagePath)) ==>
            (r2.value.action == AlreadyModified <==> !PhpEmpty(FolderName(imagePath))))
  {
    var id := env.hashFile(imagePath);
    if IsModified(store, id) {
      RefreshStepTwice(store, id, imagePath, sidecarPath);
    } else {
      var r1 := IndexStep(env, store, imagePath, sidecarPath, sc).value;
      IndexStepTwice(env, store, imagePath, sidecarPath, sc);
      assert !IsModified(r1.store, id);
    }
  }

  // ---------------------------------------------------------------------------
  // The run over all files
  // ---------------------------------------------------------------------------

  /** One file of the loop: skipped when its sidecar does not exist,
      analysed otherwise. */
  function FileStep(env: Env, store: Store, file: Path): (r: Result<Step, IndexError>)
    ensures r.Success? ==> (r.value.action == SkippedNoSidecar <==> SidecarPath(file) !in env.sidecars)
    ensures SidecarPath(file) !in env.sidecars ==> r == Success(Step(store, SkippedNoSidecar))
  {
    var sidecarPath := SidecarPath(file);
    if sidecarPath !in env.sidecars then Success(Step(store, SkippedNoSidecar))
    else AnalyzeImage(env, store, file, sidecarPath, env.sidecars[sidecarPath])
  }

  /** The loop of `analyzeImages()` from a given index: one action per
      file; the first type error ends the run. */
  function AnalyzeFiles(env: Env, store: Store, files: seq<Path>): (r: Result<(Store, seq<Action>), IndexError>)
    ensures r.Success? ==> |r.value.1| == |files|
    ensures |files| > 0 && r.Success? ==>
              FileStep(env, store, files[0]).Success? && r.value.1[0] == FileStep(env, store, files[0]).value.action
    decreases |files|
  {
    if |files| == 0 then Success((store, []))
    else
      var step := FileStep(env, store, files[0]);
      if step.Failure? then Failure(step.error)
      else
        var rest := AnalyzeFiles(env, step.value.store, files[1..]);
        if rest.Failure? then rest else Success((rest.value.0, [step.value.action] + rest.value.1))
  }

  /** A run of the indexer: the backup copy made of an existing index, and
      either the index written at the end with the actions taken, or the
      error that stopped the run before anything was written. */
  datatype Run = Run(backup: Option<Store>, result: Result<(Store, seq<Action>), IndexError>)

  /** `analyzeImages()`: load the existing index (backing it up) or start
      from an empty one, analyse every file, then write the index. */
  function AnalyzeImages(env: Env, existing: Option<Store>, files: seq<Path>): (r: Run)
    ensures r.backup == existing
    ensures r.result.Success? ==> |r.result.value.1| == |files|
  {
    var start := if existing.Some? then existing.value else [];
    Run(existing, AnalyzeFiles(env, start, files))
  }

  /** A successful run is its first step followed by the run over the
      rest of the files. */
  lemma AnalyzeFilesCons(env: Env, store: Store, files: seq<Path>)
    requires |files| > 0 && AnalyzeFiles(env, store, files).Success?
    ensures FileStep(env, store, files[0]).Success?
    ensures var next := FileStep(env, store, files[0]).value.store;
      && AnalyzeFiles(env, next, files[1..]).Success?
      && AnalyzeFiles(env, store, files).value.0 == AnalyzeFiles(env, next, files[1..]).value.0
      && AnalyzeFiles(env, store, files).value.1 == [FileStep(env, store, files[0]).value.action] + AnalyzeFiles(env, next, files[1..]).value.1
  {
  }

  /** An action is `SkippedNoSidecar` exactly for the files whose sidecar
      path is not among the sidecars. */
  lemma {:induction false} AnalyzeFilesSidecars(env: Env, store: Store, files: seq<Path>)
    requires AnalyzeFiles(env, store, files).Success?
    ensures forall k :: 0 <= k < |files| ==>
      (AnalyzeFiles(env, store, files).value.1[k] == SkippedNoSidecar <==> SidecarPath(files[k]) !in env.sidecars)
    decreases |files|
  {
    if |files| > 0 {
      AnalyzeFilesCons(env, store, files);
      var next := FileStep(env, store, files[0]).value.store;
      AnalyzeFilesSidecars(env, next, files[1..]);
      var acts := AnalyzeFiles(env, store, files).value.1;
      var rest := AnalyzeFiles(env, next, files[1..]).value.1;
      forall k | 0 <= k < |files| ensures acts[k] == SkippedNoSidecar <==> SidecarPath(files[k]) !in env.sidecars {
        if k > 0 {
          assert acts[k] == rest[k - 1] && files[k] == files[1..][k - 1];
        }
      }
    }
  }

  /** Without any sidecar the index is written back as it was loaded. */
  lemma {:induction false} AnalyzeFilesNoSidecars(env: Env, store: Store, files: seq<Path>)
    requires forall k :: 0 <= k < |files| ==> SidecarPath(files[k]) !in env.sidecars
    ensures AnalyzeFiles(env, store, files).Success?
    ensures AnalyzeFiles(env, store, files).value.0 == store
    decreases |files|
  {
    if |files| > 0 {
      assert forall k :: 1 <= k < |files| ==> files[1..][k - 1] == files[k];
      AnalyzeFilesNoSidecars(env, store, files[1..]);
    }
  }

  /** A modified entry stays modified through the whole run, and keeps its
      checkpoint, date, label and every property but the folder. */
  lemma {:induction false} AnalyzeFilesProtects(env: Env, store: Store, files: seq<Path>, id: string)
    requires IsModified(store, id)
    requires AnalyzeFiles(env, store, files).Success?
    ensures var s := AnalyzeFiles(env, store, files).value.0;
      && IsModified(s, id)
      && Protected(Get(store, StrKey(id)).value, Get(s, StrKey(id)).value)
    decreases |files|
  {
    var before := Get(store, StrKey(id)).value;
    if |files| == 0 {
      ProtectedReflexive(before);
    } else {
      var next := FileStep(env, store, files[0]).value.store;
      FileStepProtects(env, store, files[0], id);
      AnalyzeFilesProtects(env, next, files[1..], id);
      assert AnalyzeFiles(env, store, files).value.0 == AnalyzeFiles(env, next, files[1..]).value.0;
      ProtectedTransitive(before, Get(next, StrKey(id)).value, Get(AnalyzeFiles(env, next, files[1..]).value.0, StrKey(id)).value);
    }
  }

  /** One file of the loop keeps a modified entry modified and protected. */
  lemma FileStepProtects(env: Env, store: Store, file: Path, id: string)
    requires IsModified(store, id)
    requires FileStep(env, store, file).Success?
    ensures var s := FileStep(env, store, file).value.store;
      IsModified(s, id) && Protected(Get(store, StrKey(id)).value, Get(s, StrKey(id)).value)
  {
    var sidecarPath := SidecarPath(file);
    var before := Get(store, StrKey(id)).value;
    if sidecarPath !in env.sidecars {
      ProtectedReflexive(before);
    } else if env.hashFile(file) == id {
      ModifiedEntryProtected(env, store, file, sidecarPath, env.sidecars[sidecarPath]);
    } else {
      AnalyzeImageFrame(env, store, file, sidecarPath, env.sidecars[sidecarPath], StrKey(id));
      ProtectedReflexive(before);
    }
  }
}
