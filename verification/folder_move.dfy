/** Moving an image to another folder (`ImageInfo::moveToFolder`): both
    files are copied next to the old folder, the record is updated and the
    collection saved, and only then are the old files deleted; the
    low-resolution versions of an upscaled image follow it. */
module FolderMove {
  import opened Wrappers
  import opened Paths
  import opened Properties
  import opened Images

  const ErrorCannotMoveFileExists := 179402

  datatype MoveError =
    | FileExists(path: Path)     // `ERROR_CANNOT_MOVE_FILE_EXISTS`
    | SourceMissing(path: Path)  // the file to copy does not exist
    | SaveFailed                 // writing the collection failed

  /** The files, the loaded records (`getAll()`) and what was last written
      to the index file. */
  datatype World = World(disk: Disk, items: seq<ImageInfo>, saved: seq<Entry>)

  /** The end state, and the error that stopped the move, if any. */
  datatype Outcome = Outcome(world: World, error: Option<MoveError>)

  /** The collection's `save()`: every loaded record, serialized. */
  function SerializeAll(items: seq<ImageInfo>): (r: seq<Entry>)
    ensures |r| == |items| && forall k :: 0 <= k < |items| ==> r[k] == Serialize(items[k])
  {
    seq(|items|, k requires 0 <= k < |items| => Serialize(items[k]))
  }

  /** The folder a record is moved into: a sibling of the folder its image
      is in. */
  function TargetFolder(i: ImageInfo, folder: string): Path
  {
    Dir(Dir(i.imageFile)) + "/" + folder
  }

  /** `resolveTargetFile()`: the file's name inside the target folder. */
  function TargetFile(targetFolder: Path, source: Path): Path
  {
    targetFolder + "/" + FileName(source)
  }

  /** The positions of the records not yet in `folder`. */
  function Pending(w: World, folder: string): set<nat>
  {
    set k: nat | k < |w.items| && w.items[k].props.GetFolderName() != folder
  }

  lemma SubsetCard(a: set<nat>, b: set<nat>)
    requires a <= b
    ensures |a| <= |b|
  {
    assert b == a + (b - a);
  }

  /** Putting one record into `folder` takes its position off the pending set. */
  lemma PendingUpdate(w: World, w2: World, idx: nat, folder: string)
    requires idx < |w.items| == |w2.items|
    requires forall k :: 0 <= k < |w.items| && k != idx ==> w2.items[k] == w.items[k]
    requires w2.items[idx].props.GetFolderName() == folder
    ensures Pending(w2, folder) == Pending(w, folder) - {idx}
  {
  }

  /** The record at its new place: folder property set, both files in the
      target folder. */
  function Moved(i: ImageInfo, folder: string): (m: ImageInfo)
    ensures m.props.GetFolderName() == folder && m.id == i.id && m.upscaled == i.upscaled
  {
    var target := TargetFolder(i, folder);
    SetImageFolderName(i, folder).(imageFile := TargetFile(target, i.imageFile),
                                   sidecarFile := TargetFile(target, i.sidecarFile))
  }

  /** One record's part of `moveToFolder()`, without the recursion. */
  function MoveOne(w: World, idx: nat, folder: string, saveOk: bool): (o: Outcome)
    requires idx < |w.items|
    ensures o.world.items == w.items || o.world.items == w.items[idx := Moved(w.items[idx], folder)]
    ensures w.items[idx].props.GetFolderName() == folder ==> o == Outcome(w, None)
    ensures o.error.None? && w.items[idx].props.GetFolderName() != folder ==>
              o.world.items == w.items[idx := Moved(w.items[idx], folder)]
  {
    var i := w.items[idx];
    if folder == i.props.GetFolderName() then Outcome(w, None)
    else
      var target := TargetFolder(i, folder);
      var newImage := TargetFile(target, i.imageFile);
      var newSidecar := TargetFile(target, i.sidecarFile);
      if newImage in w.disk then Outcome(w, Some(FileExists(newImage)))
      else if newSidecar in w.disk then Outcome(w, Some(FileExists(newSidecar)))
      else if i.imageFile !in w.disk then Outcome(w, Some(SourceMissing(i.imageFile)))
      else
        var d1 := w.disk[newImage := w.disk[i.imageFile]];
        if i.sidecarFile !in d1 then Outcome(w.(disk := d1), Some(SourceMissing(i.sidecarFile)))
        else
          var d2 := d1[newSidecar := d1[i.sidecarFile]];
          var items := w.items[idx := Moved(i, folder)];
          if !saveOk then Outcome(World(d2, items, w.saved), Some(SaveFailed))
          else Outcome(World(d2 - {i.imageFile} - {i.sidecarFile}, items, SerializeAll(items)), None)
  }

  /** A record is pending exactly when its folder is another one. */
  lemma PendingAt(w: World, k: nat, folder: string)
    requires k < |w.items|
    ensures k in Pending(w, folder) <==> w.items[k].props.GetFolderName() != folder
  {
  }

  /** One record's move keeps the positions and ids of the records; the
      pending set never grows, and a completed move shrinks it. */
  lemma MoveOnePending(w: World, idx: nat, folder: string, saveOk: bool)
    requires idx < |w.items|
    ensures var o := MoveOne(w, idx, folder, saveOk);
      && |o.world.items| == |w.items|
      && (forall k :: 0 <= k < |w.items| ==> o.world.items[k].id == w.items[k].id)
      && Pending(o.world, folder) <= Pending(w, folder)
      && (o.error.None? && w.items[idx].props.GetFolderName() != folder ==>
            idx in Pending(w, folder) && Pending(o.world, folder) == Pending(w, folder) - {idx}
            && |Pending(o.world, folder)| < |Pending(w, folder)|)
  {
    var o := MoveOne(w, idx, folder, saveOk);
    if o.world.items != w.items {
      PendingUpdate(w, o.world, idx, folder);
    } else {
      assert Pending(o.world, folder) == Pending(w, folder);
    }
  }

  /** The positions of the records whose upscaled link points at `id`, from
      position `from` on, in order. */
  function IndicesLinkedTo(items: seq<ImageInfo>, id: string, from: nat): (r: seq<nat>)
    requires from <= |items|
    ensures forall j :: 0 <= j < |r| ==> from <= r[j] < |items| && LinksTo(items[r[j]], id)
    ensures forall k :: from <= k < |items| && LinksTo(items[k], id) ==> k in r
    decreases |items| - from
  {
    if from == |items| then []
    else if LinksTo(items[from], id) then [from] + IndicesLinkedTo(items, id, from + 1)
    else IndicesLinkedTo(items, id, from + 1)
  }

  /** The positions of `findLowResVersions()` of the record at `idx`. */
  function LowResIndices(items: seq<ImageInfo>, idx: nat): (r: seq<nat>)
    requires idx < |items|
    ensures forall j :: 0 <= j < |r| ==> r[j] < |items|
    ensures items[idx].upscaled ==> forall k :: 0 <= k < |items| && LinksTo(items[k], items[idx].id) ==> k in r
  {
    if items[idx].upscaled then IndicesLinkedTo(items, items[idx].id, 0) else []
  }

  /** The records at the given positions. */
  function At(items: seq<ImageInfo>, ks: seq<nat>): (r: seq<ImageInfo>)
    requires forall j :: 0 <= j < |ks| ==> ks[j] < |items|
    ensures |r| == |ks| && forall j :: 0 <= j < |ks| ==> r[j] == items[ks[j]]
  {
    if |ks| == 0 then [] else [items[ks[0]]] + At(items, ks[1..])
  }

  /** The records at those positions are exactly `findLowResVersions()`. */
  lemma LowResIndicesAreVersions(items: seq<ImageInfo>, idx: nat)
    requires idx < |items|
    ensures At(items, LowResIndices(items, idx)) == FindLowResVersions(items[idx], items)
  {
    if items[idx].upscaled {
      IndicesLinkedToAreLinked(items, items[idx].id, 0);
      assert items[0..] == items;
    }
  }

  lemma {:induction false} IndicesLinkedToAreLinked(items: seq<ImageInfo>, id: string, from: nat)
    requires from <= |items|
    ensures At(items, IndicesLinkedTo(items, id, from)) == LinkedTo(items[from..], id)
    decreases |items| - from
  {
    if from < |items| {
      IndicesLinkedToAreLinked(items, id, from + 1);
      assert items[from..][1..] == items[from + 1..];
      var ks := IndicesLinkedTo(items, id, from + 1);
      if LinksTo(items[from], id) {
        assert ([from] + ks)[1..] == ks;
      }
    }
  }

  /** `moveToFolder($folder)`: move the record at `idx`, then each of its
      low-resolution versions; the first error stops everything. */
  function MoveToFolder(w: World, idx: nat, folder: string, saveOk: bool): (o: Outcome)
    requires idx < |w.items|
    ensures |o.world.items| == |w.items|
    ensures forall k :: 0 <= k < |w.items| ==> o.world.items[k].id == w.items[k].id
    ensures Pending(o.world, folder) <= Pending(w, folder)
    ensures o.error.None? ==> o.world.items[idx].props.GetFolderName() == folder
    decreases |Pending(w, folder)|, 1, 0
  {
    var o1 := MoveOne(w, idx, folder, saveOk);
    MoveOnePending(w, idx, folder, saveOk);
    if o1.error.Some? || w.items[idx].props.GetFolderName() == folder then o1
    else
      var o2 := MoveList(o1.world, LowResIndices(o1.world.items, idx), folder, saveOk);
      PendingAt(o2.world, idx, folder);
      o2
  }

  /** The loop over the low-resolution versions. */
  function MoveList(w: World, idxs: seq<nat>, folder: string, saveOk: bool): (o: Outcome)
    requires forall j :: 0 <= j < |idxs| ==> idxs[j] < |w.items|
    ensures |o.world.items| == |w.items|
    ensures forall k :: 0 <= k < |w.items| ==> o.world.items[k].id == w.items[k].id
    ensures Pending(o.world, folder) <= Pending(w, folder)
    ensures o.error.None? ==> forall j :: 0 <= j < |idxs| ==> o.world.items[idxs[j]].props.GetFolderName() == folder
    decreases |Pending(w, folder)|, 2, |idxs|
  {
    if |idxs| == 0 then Outcome(w, None)
    else
      var o1 := MoveToFolder(w, idxs[0], folder, saveOk);
      SubsetCard(Pending(o1.world, folder), Pending(w, folder));
      if o1.error.Some? then o1
      else
        var o2 := MoveList(o1.world, idxs[1..], folder, saveOk);
        PendingAt(o1.world, idxs[0], folder);
        PendingAt(o2.world, idxs[0], folder);
        MovedAll(o2.world, idxs, folder, o2.error.None?);
        o2
  }

  /** The first position and the rest of the list in the target folder make
      the whole list. */
  lemma MovedAll(w: World, idxs: seq<nat>, folder: string, done: bool)
    requires 0 < |idxs| && forall j :: 0 <= j < |idxs| ==> idxs[j] < |w.items|
    requires done ==> w.items[idxs[0]].props.GetFolderName() == folder
    requires done ==> forall j :: 0 <= j < |idxs| - 1 ==> w.items[idxs[1..][j]].props.GetFolderName() == folder
    ensures done ==> forall j :: 0 <= j < |idxs| ==> w.items[idxs[j]].props.GetFolderName() == folder
  {
    if done {
      forall j | 0 <= j < |idxs| ensures w.items[idxs[j]].props.GetFolderName() == folder {
        if j > 0 {
          assert idxs[j] == idxs[1..][j - 1];
        }
      }
    }
  }

  // ---------------------------------------------------------------------------
  // Properties of a move
  // ---------------------------------------------------------------------------

  /** Moving a record to the folder it is already in changes nothing. */
  lemma MoveToCurrentFolder(w: World, idx: nat, saveOk: bool)
    requires idx < |w.items|
    ensures var folder := w.items[idx].props.GetFolderName();
      MoveToFolder(w, idx, folder, saveOk) == Outcome(w, None)
  {
  }

  /** When either target file exists the move fails with
      `ERROR_CANNOT_MOVE_FILE_EXISTS` before anything is copied or changed. */
  lemma MoveConflict(w: World, idx: nat, folder: string, saveOk: bool)
    requires idx < |w.items|
    requires folder != w.items[idx].props.GetFolderName()
    requires var i := w.items[idx]; var t := TargetFolder(i, folder);
      TargetFile(t, i.imageFile) in w.disk || TargetFile(t, i.sidecarFile) in w.disk
    ensures var o := MoveToFolder(w, idx, folder, saveOk);
      o.world == w && o.error.Some? && o.error.value.FileExists?
  {
  }

  /** After a successful move of one record: its folder property is the new
      name, both paths are `<parent of the old folder>/<new name>/<same
      file name>`, the new files hold the old contents, the old files are
      gone and the collection was saved with the updated record. */
  lemma MoveSucceeds(w: World, idx: nat, folder: string)
    requires idx < |w.items|
    requires w.items[idx].sidecarFile in w.disk
    requires FileName(w.items[idx].imageFile) != FileName(w.items[idx].sidecarFile)
    requires MoveOne(w, idx, folder, true).error.None?
    requires folder != w.items[idx].props.GetFolderName()
    ensures var i := w.items[idx]; var o := MoveOne(w, idx, folder, true); var m := o.world.items[idx];
      && m.props.GetFolderName() == folder
      && m.imageFile == Dir(Dir(i.imageFile)) + "/" + folder + "/" + FileName(i.imageFile)
      && m.sidecarFile == Dir(Dir(i.imageFile)) + "/" + folder + "/" + FileName(i.sidecarFile)
      && m.imageFile in o.world.disk && o.world.disk[m.imageFile] == w.disk[i.imageFile]
      && m.sidecarFile in o.world.disk && o.world.disk[m.sidecarFile] == w.disk[i.sidecarFile]
      && i.imageFile !in o.world.disk && i.sidecarFile !in o.world.disk
      && o.world.saved == SerializeAll(o.world.items)
  {
    var i := w.items[idx];
    var target := TargetFolder(i, folder);
    var newImage := TargetFile(target, i.imageFile);
    var newSidecar := TargetFile(target, i.sidecarFile);
    var o := MoveOne(w, idx, folder, true);
    assert o.world.items[idx] == Moved(i, folder);
    MovedPaths(i, folder);
    assert newImage != newSidecar by {
      DirFileName(target, FileName(i.imageFile));
      DirFileName(target, FileName(i.sidecarFile));
    }
    MoveSucceedsFiles(w, idx, folder);
  }

  /** Where the moved record's files are. */
  lemma MovedPaths(i: ImageInfo, folder: string)
    ensures Moved(i, folder).imageFile == Dir(Dir(i.imageFile)) + "/" + folder + "/" + FileName(i.imageFile)
    ensures Moved(i, folder).sidecarFile == Dir(Dir(i.imageFile)) + "/" + folder + "/" + FileName(i.sidecarFile)
  {
  }

  /** The disk and the saved index after a successful move of one record. */
  lemma MoveSucceedsFiles(w: World, idx: nat, folder: string)
    requires idx < |w.items|
    requires w.items[idx].sidecarFile in w.disk
    requires MoveOne(w, idx, folder, true).error.None?
    requires folder != w.items[idx].props.GetFolderName()
    ensures var i := w.items[idx]; var o := MoveOne(w, idx, folder, true);
      var target := TargetFolder(i, folder);
      var newImage := TargetFile(target, i.imageFile);
      var newSidecar := TargetFile(target, i.sidecarFile);
      && newImage !in w.disk && newSidecar !in w.disk && i.imageFile in w.disk
      && o.world.disk == w.disk[newImage := w.disk[i.imageFile]][newSidecar := w.disk[i.sidecarFile]] - {i.imageFile} - {i.sidecarFile}
      && o.world.saved == SerializeAll(o.world.items)
  {
    var i := w.items[idx];
    var target := TargetFolder(i, folder);
    var newImage := TargetFile(target, i.imageFile);
    var d1 := w.disk[newImage := w.disk[i.imageFile]];
    assert i.sidecarFile in d1 && d1[i.sidecarFile] == w.disk[i.sidecarFile];
  }

  /** When saving fails the old files are still there, unchanged: they are
      deleted only after the save. */
  lemma SaveFailureKeepsOldFiles(w: World, idx: nat, folder: string)
    requires idx < |w.items|
    requires w.items[idx].sidecarFile in w.disk
    requires MoveOne(w, idx, folder, false).error == Some(SaveFailed)
    ensures var i := w.items[idx]; var o := MoveOne(w, idx, folder, false);
      && i.imageFile in o.world.disk && o.world.disk[i.imageFile] == w.disk[i.imageFile]
      && i.sidecarFile in o.world.disk && o.world.disk[i.sidecarFile] == w.disk[i.sidecarFile]
      && o.world.saved == w.saved
  {
    var i := w.items[idx];
    var target := TargetFolder(i, folder);
    var newImage := TargetFile(target, i.imageFile);
    var newSidecar := TargetFile(target, i.sidecarFile);
    assert folder != i.props.GetFolderName();
    assert newImage !in w.disk && newSidecar !in w.disk && i.imageFile in w.disk;
    var d1 := w.disk[newImage := w.disk[i.imageFile]];
    var d2 := d1[newSidecar := d1[i.sidecarFile]];
    assert MoveOne(w, idx, folder, false).world.disk == d2;
  }

  /** A successful move of an upscaled record also moves every record whose
      link points at it. */
  lemma MoveTakesLowResVersions(w: World, idx: nat, folder: string, saveOk: bool)
    requires idx < |w.items|
    requires folder != w.items[idx].props.GetFolderName()
    requires MoveToFolder(w, idx, folder, saveOk).error.None?
    ensures var o := MoveToFolder(w, idx, folder, saveOk);
      w.items[idx].upscaled ==>
        forall k :: 0 <= k < |w.items| && LinksTo(MoveOne(w, idx, folder, saveOk).world.items[k], w.items[idx].id) ==>
          o.world.items[k].props.GetFolderName() == folder
  {
    var o1 := MoveOne(w, idx, folder, saveOk);
    if w.items[idx].upscaled {
      assert o1.world.items[idx].upscaled && o1.world.items[idx].id == w.items[idx].id;
    }
  }
}
