# ComfyUI image organizer — a Dafny model of its core

The organizer catalogs the PNG images ComfyUI generates. Each image has a
JSON sidecar. The indexer turns every image that has a sidecar into an
entry of one index file, keyed by the MD5 hash of the image. An entry a
user has edited is write-protected: re-indexing only refreshes its paths
and folder. Users label, favourite, move and delete images. A detection
pass links a regular image to its upscaled twin when both were generated
with the same settings. A separate tool rewrites the LoRA paths of
ComfyUI workflow files.

This project models that core as pure functions over immutable datatypes
and proves what the code promises:

- `Properties`: the property bag with its typed getters and its setters.
  Each setter notifies the owning record once.
- `Images`: the image record. This covers its stored form and defaults,
  the dirty flags, the settings text behind the settings hash, search
  words, thumbnail path, low-resolution versions and flag
  synchronisation.
- `Collection`: the index store. This covers saving, deleting,
  registering loaded records, natural-order sorting and lookup by
  request parameter.
- `FolderMove`: moving an image to a sibling folder. The disk is a map
  from path to content.
- `FileNames` and `Metadata`: the two text decoders of the indexer. One
  reads the image file name; the other is the `custom_text` parser.
- `Indexer`: one image's analysis and the loop over all image files.
- `UpscaleLinker`: grouping by settings hash and linking pairs.
- `PathFixer` and `PathFixerMessages`: the workflow path fixer and its
  messages.
- `LoRABuckets`: models, categories and model filtering of a LoRA
  bucket.
- `ImageHandlers`: the browser-side search filter and selection toggle.

Support modules:

- `Wrappers`: `Option` and `Result`.
- `Strings`: ASCII case mapping, PHP `explodeTrim`, `str_replace`,
  `(int)` casts and `empty()`.
- `OrderedMaps`: PHP ordered arrays as sequences of key/value pairs.
- `Paths`: file names and folders.

Everything the code gets from outside is a parameter:

- the MD5 digest and `hash_file`;
- image sizes, and the indexer's conversion of a sidecar date to ISO text;
- the decoded sidecars and the LoRA catalog;
- `sprintf`, `relativizePath` and the JSON encoder;
- the backup timestamp;
- whether the collection's `save()` succeeds.

Verify with

    dafny verify --resource-limit 2000000 --verification-time-limit 0 --warn-contradictory-assumptions *.dfy

## Where the code and its documentation differ

The model follows the code in each of these cases:

- `parseText` does not lowercase or trim keys. It restores placeholders
  and trims backticks only in values. A backticked key therefore keeps
  its backticks and placeholders. `` `a-test`:x `` does not yield the key
  `a-test`.
- The upscale test on the file name is `str_contains('upscale',
  $baseName)`. It holds when the base name is part of the word
  `upscale`, not when the name contains the word (`Indexer.UpscaleNameTest`).
- `deleteImage` removes only the named record and its own files; nothing
  cascades to linked records.
- `detectUpscaledImages` only sets the link on the regular record. No
  flag synchronisation runs as part of linking.
- The seed, CFG and sampler steps are numbers: the seed is read as an
  integer, and CFG and steps pass through a `(string)` cast. None of them
  is ever the empty string, so none makes the settings text fall back to
  the id; a missing CFG or steps reads as "0" (`Images.SeedNeverEmpty`).
- `ImageInfo`'s constructor (src/ComfyUIOrganizer/ImageInfo.php:88) passes
  three arguments, the record first, to the `ImageProperties` constructor,
  which takes the data collection and the callback
  (src/ComfyUIOrganizer/ImageProperties.php:25). `ImageInfo` is not an
  `ArrayDataCollection`, so as written that call raises a `TypeError` and
  no record can be built. The model uses the evident intent:
  the properties hold the record's property data and the callback.

## Model

| member | source | states |
|---|---|---|
| `Properties.GetString` | src/ComfyUIOrganizer/ImageProperties.php:36-49 | A missing key and a boolean read as ""; a string reads as itself; an integer reads as non-empty decimal text that casts back to the integer |
| `Properties.GetInt` | src/ComfyUIOrganizer/ImageProperties.php:31-44 | A missing key reads as 0; an integer as itself; an integer-shaped string as its PHP `(int)` cast, saturated to the 64-bit range; any other string as 0 |
| `Properties.GetNumberText` | src/ComfyUIOrganizer/ImageInfo.php:229 | The text of a numeric getter is never empty: a missing key, a boolean or "" read as "0"; an integer or integer-shaped string as the decimal text of its value; other strings as written |
| `Properties.GetBool` | src/ComfyUIOrganizer/ImageInfo.php:306-307 | A flag is true exactly when the key holds boolean true |
| `Properties.SetKey` | src/ComfyUIOrganizer/ImageProperties.php:61-71 | The named key holds the new value; the key set grows by that key only; every other key keeps its value; the modified callback runs exactly once |
| `Properties.SetFavorite` | src/ComfyUIOrganizer/ImageProperties.php:56-59 | Afterwards `isFavorite()` is the given flag, with one callback |
| `Properties.SetForGallery` | src/ComfyUIOrganizer/ImageInfo.php:318-322 | Afterwards `isForGallery()` is the given flag, with one callback |
| `Properties.SetFolderName` | src/ComfyUIOrganizer/ImageInfo.php:177 | Afterwards `getFolderName()` is the given name, with one callback |
| `Properties.SetUpscaledImage` | src/ComfyUIOrganizer/ImageIndexer.php:313 | Afterwards the upscaled link names the given id (none for ""), with one callback |
| `Properties.SetFavoriteSerialize` | src/ComfyUIOrganizer/ImageProperties.php:51-59 | `setFavorite(b)` then `serialize()` holds `favorite => b` and every other entry as before |
| `Properties.SettersAreIndependent` | src/ComfyUIOrganizer/ImageProperties.php:61-66 | A setter leaves every getter of another key unchanged |
| `Properties.LoRASummaryLocal` | src/ComfyUIOrganizer/ImageInfo.php:241-244 | The LoRA summary depends only on the entries whose keys are catalog LoRA ids |
| `Images.WithDefaults` | src/ComfyUIOrganizer/ImageInfo.php:337-348 | `upscaled` and `modified` are filled with false when absent; every present key is kept as it was |
| `Images.FromSerialized` | src/ComfyUIOrganizer/ImageInfo.php:342-364 | The loaded record is upscaled or modified exactly when the entry holds true there; a missing label loads as ""; a loaded record is not dirty |
| `Images.Serialize` | src/ComfyUIOrganizer/ImageInfo.php:366-380 | The stored entry has exactly the ten record keys, each holding a value of its own kind |
| `Images.SerializeRoundTrip` | src/ComfyUIOrganizer/ImageInfo.php:342-380 | Loading a serialized record gives the record back; only the in-memory dirty flag is reset |
| `Images.FromSerializedRoundTrip` | src/ComfyUIOrganizer/ImageInfo.php:342-380 | Serializing a loaded well-formed entry gives the entry back; stored dates are taken to be in `getISODate()` form, the only form either writer produces |
| `Images.IndexedEntryDefaults` | src/ComfyUIOrganizer/ImageInfo.php:337-360 | An entry without `modified` and `label` loads as unmodified and unlabelled |
| `Images.SetDataChanged` | src/ComfyUIOrganizer/ImageInfo.php:493-501 | Sets `modified` and `dataChanged` and changes nothing else |
| `Images.SetLabel` | src/ComfyUIOrganizer/ImageInfo.php:482-487 | Stores the label and sets both dirty flags; nothing else changes |
| `Images.ApplyUpdate` | src/ComfyUIOrganizer/ImageInfo.php:332-335 | A property setter that ran its callback leaves the record modified and dirty; set flags stay set; nothing but the properties and flags changes |
| `Images.SetImageFavorite` | src/ComfyUIOrganizer/ImageInfo.php:312-316 | Favouriting through the record sets the flag and marks the record modified |
| `Images.SetImageForGallery` | src/ComfyUIOrganizer/ImageInfo.php:318-322 | Setting the gallery flag through the record marks the record modified |
| `Images.SetImageFolderName` | src/ComfyUIOrganizer/ImageInfo.php:176-177 | Setting the folder through the record marks the record modified |
| `Images.SetImageUpscaledImage` | src/ComfyUIOrganizer/ImageIndexer.php:310-313 | Linking an upscaled id through the record marks the record modified |
| `Images.ApplyEdit` | src/ComfyUIOrganizer/ImageInfo.php:482-501 | Any user edit leaves the record modified and dirty, with its id and both paths unchanged |
| `Images.ApplyEdits` | src/ComfyUIOrganizer/ImageInfo.php:489-501 | Over any sequence of edits, once set, `modified` and `dataChanged` are never cleared; a non-empty sequence sets both |
| `Images.SettingsText` | src/ComfyUIOrganizer/ImageInfo.php:222-247 | When a mandatory setting is empty the settings text is the record id |
| `Images.SeedNeverEmpty` | src/ComfyUIOrganizer/ImageInfo.php:226-238 | Seed, CFG and steps are never empty, so the record falls back to its id exactly when the checkpoint, positive prompt, sampler or scheduler is empty; a missing CFG or steps reads as "0" |
| `Images.SettingsTextStable` | src/ComfyUIOrganizer/ImageInfo.php:201-247 | Records with the same generation settings have the same settings text, whatever their id, paths, folder, date or label |
| `Images.SettingsTextFields` | src/ComfyUIOrganizer/ImageInfo.php:241-246 | The settings text splits back on `$` into the nine fields, separated by empty fields, when no field holds a `$` |
| `Images.SettingsTextDiffers` | src/ComfyUIOrganizer/ImageInfo.php:211-247 | Non-degenerate records whose fields hold no `$` have different settings texts when checkpoint or seed differ |
| `Images.SearchWords` | src/ComfyUIOrganizer/ImageInfo.php:121-133 | The six words are, in order, the lowercased id, file name, seed, folder name, checkpoint and test name; each is already in lower case |
| `Images.ThumbnailFile` | src/ComfyUIOrganizer/ImageInfo.php:452-462 | The thumbnail lies directly in the cache folder and is named `<id>-540.jpg` |
| `Images.FindLowResVersions` | src/ComfyUIOrganizer/ImageInfo.php:253-269 | Empty for a regular record; for an upscaled one, exactly the records whose upscaled link names its id |
| `Images.SyncStep` | src/ComfyUIOrganizer/ImageInfo.php:310-329 | One iteration ORs the favourite and gallery flags into the record that lacked them; the record's non-empty label wins, and otherwise the version's non-empty label is copied back |
| `Images.SyncProperties` | src/ComfyUIOrganizer/ImageInfo.php:304-330 | One result per low-resolution version |
| `Images.SyncOne` | src/ComfyUIOrganizer/ImageInfo.php:304-330 | With one version both favourite flags and both gallery flags become the OR of the two; a non-empty label on the record wins, otherwise the version's non-empty label is copied |
| `Images.SyncLoopSelf` | src/ComfyUIOrganizer/ImageInfo.php:312-322 | Over any number of versions the record ends up a favourite (or in the gallery) when it was, or when it was not and some version was |
| `Images.SyncLoopFavorites` | src/ComfyUIOrganizer/ImageInfo.php:312-316 | Each version ends up a favourite exactly when it was one or the record was one before the loop |
| `Images.SyncLoopGallery` | src/ComfyUIOrganizer/ImageInfo.php:318-322 | Each version ends up in the gallery exactly when it was or the record was before the loop |
| `Images.SyncLoopLabels` | src/ComfyUIOrganizer/ImageInfo.php:324-328 | A non-empty record label is copied to every version and kept; otherwise each version keeps its label |
| `Collection.SaveImage` | src/ComfyUIOrganizer/ImageCollection.php:53-72 | Succeeds exactly when the id is a stored key. On success only that entry becomes the serialized record and the key order is kept. Otherwise it fails with `ERROR_CANNOT_SAVE_INEXISTENT_IMAGE` |
| `Collection.RemoveFirstWithId` | src/ComfyUIOrganizer/ImageCollection.php:43-48 | Removes the first entry with the id and keeps the rest in order; without such an entry, nothing changes |
| `Collection.Reindex` | src/ComfyUIOrganizer/ImageCollection.php:50 | `array_values`: the same entries in order, keyed by their positions |
| `Collection.DeleteImage` | src/ComfyUIOrganizer/ImageCollection.php:33-51 | The record leaves the items. Its image, sidecar and thumbnail leave the disk, and every other file keeps its content. The store is the remaining entries re-keyed by position |
| `Collection.DeleteImageStore` | src/ComfyUIOrganizer/ImageCollection.php:41-50 | Exactly one stored entry goes when one carries the id; otherwise the entries are unchanged |
| `Collection.DeleteImageKeepsOthers` | src/ComfyUIOrganizer/ImageCollection.php:35 | Every other loaded record, linked ones included, stays as it was |
| `Collection.SaveAfterDeleteFails` | src/ComfyUIOrganizer/ImageCollection.php:50-58 | After a delete the ids are no longer keys, so saving any record fails |
| `Collection.LoadAll` | src/ComfyUIOrganizer/ImageCollection.php:76-77 | One loaded record per stored entry, in order |
| `Collection.Register` | src/ComfyUIOrganizer/ImageCollection.php:74-79 | The registered items have distinct keys and are no more than the records |
| `Collection.RegisterCovers` | src/ComfyUIOrganizer/ImageCollection.php:74-79 | Every record's id is a key of the registered items |
| `Collection.RegisterFromRecords` | src/ComfyUIOrganizer/ImageCollection.php:74-79 | Every registered item is one of the records, stored under its own id |
| `Collection.RegisterCount` | src/ComfyUIOrganizer/ImageCollection.php:74-79 | With distinct ids every record keeps an item of its own |
| `Collection.RegisterItemsCovers` | src/ComfyUIOrganizer/ImageCollection.php:74-79 | Every stored entry has a record under its id |
| `Collection.RegisterItemsFromEntries` | src/ComfyUIOrganizer/ImageCollection.php:76-77 | Every registered record was loaded from a stored entry and sits under its own id |
| `Collection.RegisterItemsCount` | src/ComfyUIOrganizer/ImageCollection.php:76-78 | With distinct ids, one record per stored entry |
| `Collection.NatCaseCmp` | src/ComfyUIOrganizer/ImageCollection.php:88 | The comparison answers -1, 0 or 1 |
| `Collection.NatCaseCmpFoldsUp` | src/ComfyUIOrganizer/ImageCollection.php:88 | Letters are folded to upper case before comparing, so `a_b` sorts after `aab` and `AAB`, and case alone makes no difference |
| `Collection.NatCaseCmpReflexive` | src/ComfyUIOrganizer/ImageCollection.php:88 | A path compares equal to itself |
| `Collection.NatCaseCmpAntisymmetric` | src/ComfyUIOrganizer/ImageCollection.php:88 | Swapping the arguments negates the answer |
| `Collection.NatCaseCmpNumbers` | src/ComfyUIOrganizer/ImageCollection.php:88 | Decimal numbers compare by value, so "2" sorts before "10" |
| `Collection.SortItems` | src/ComfyUIOrganizer/ImageCollection.php:86-89 | Records are ordered antisymmetrically by image path; equal paths compare equal |
| `Collection.GetFromRequest` | src/ComfyUIOrganizer/ImageCollection.php:91-99 | A record comes back exactly when the parameter is a valid MD5 that is the id of a loaded record, and it is that record |
| `FolderMove.MoveOne` | src/ComfyUIOrganizer/ImageInfo.php:162-189 | Moving to the current folder changes nothing. A completed move updates exactly that record; any other outcome leaves the records as they were |
| `FolderMove.LowResIndicesAreVersions` | src/ComfyUIOrganizer/ImageInfo.php:253-269 | The positions the move recurses into hold exactly `findLowResVersions()` |
| `FolderMove.MoveToFolder` | src/ComfyUIOrganizer/ImageInfo.php:162-199 | The records keep their positions and ids; no record leaves the target folder; on success the moved record is in it |
| `FolderMove.MoveList` | src/ComfyUIOrganizer/ImageInfo.php:194-196 | The recursion over the versions keeps positions and ids; on success every listed record is in the target folder |
| `FolderMove.MoveToCurrentFolder` | src/ComfyUIOrganizer/ImageInfo.php:164-166 | Moving a record to the folder it is in changes nothing |
| `FolderMove.MoveConflict` | src/ComfyUIOrganizer/ImageInfo.php:135-171 | When either target file exists, the move fails with a file-exists error before anything is copied or changed |
| `FolderMove.MoveSucceeds` | src/ComfyUIOrganizer/ImageInfo.php:168-189 | After a successful move: the folder is the new name; both paths are `<parent of old folder>/<new name>/<same file name>` holding the old contents; the old files are gone; the collection was saved with the moved record |
| `FolderMove.MoveSucceedsFiles` | src/ComfyUIOrganizer/ImageInfo.php:173-189 | The disk after a successful move: both copies added, then both old files removed; the saved index is the updated records |
| `FolderMove.SaveFailureKeepsOldFiles` | src/ComfyUIOrganizer/ImageInfo.php:179-189 | When saving fails the old files are still there, unchanged, and the saved index is the old one |
| `FolderMove.MoveTakesLowResVersions` | src/ComfyUIOrganizer/ImageInfo.php:191-196 | A successful move of an upscaled record also puts every record linked to it into the target folder |
| `FileNames.Tokens` | src/ComfyUIOrganizer/ImageIndexer.php:176 | Tokens are non-empty and hold no `-` |
| `FileNames.LastSeedIndex` | src/ComfyUIOrganizer/ImageIndexer.php:180-186 | The seed comes from the last token that starts with `seed`, and there is none when no token does |
| `FileNames.DecodeTokens` | src/ComfyUIOrganizer/ImageIndexer.php:176-186 | The test number is the `(int)` cast of the first token; the image number is the cast of the last (0 without a second token); seed and test name are empty with fewer than three tokens |
| `FileNames.TokensOfJoin` | src/ComfyUIOrganizer/ImageIndexer.php:176 | Clean tokens joined with `-` tokenise back into themselves |
| `FileNames.DecodeFormattedTokens` | src/ComfyUIOrganizer/ImageIndexer.php:178-186 | On the tokens of `<n>-<name…>-seed<s>-<m>`, decoding gives back n and m by value (saturated above the 64-bit range), s, and the name tokens joined with `-` |
| `FileNames.DecodeFormatted` | src/ComfyUIOrganizer/ImageIndexer.php:176-203 | A base name written in the ComfyUI pattern decodes back into its test number, image number, seed and test name |
| `FileNames.DigitCast` | src/ComfyUIOrganizer/ImageIndexer.php:178-179 | `(int)` of a digit string is its decimal value, or the largest PHP integer when the value does not fit |
| `Metadata.Spans` | src/ComfyUIOrganizer/ImageIndexer.php:244 | The captured span interiors hold no backtick |
| `Metadata.Encode` | src/ComfyUIOrganizer/ImageIndexer.php:246-252 | An encoded span holds no `-` and no `:`, and gains no backtick |
| `Metadata.RestoreEncode` | src/ComfyUIOrganizer/ImageIndexer.php:246-263 | Restoring an encoded span gives it back when it holds no `_` and no `:` |
| `Metadata.SegmentName` | src/ComfyUIOrganizer/ImageIndexer.php:260-261 | The name is the text before the first `:`, or the whole segment without one |
| `Metadata.SegmentRawValue` | src/ComfyUIOrganizer/ImageIndexer.php:260-262 | The value is the text between the first and second `:`, or "" without a `:` |
| `Metadata.Pairs` | src/ComfyUIOrganizer/ImageIndexer.php:259-264 | One (name, value) pair per segment, in order |
| `Metadata.CollectKeys` | src/ComfyUIOrganizer/ImageIndexer.php:258-264 | The collected names are exactly the names of the pairs |
| `Metadata.CollectLast` | src/ComfyUIOrganizer/ImageIndexer.php:258-264 | A name's value is that of the last pair carrying it |
| `Metadata.ParseText` | src/ComfyUIOrganizer/ImageIndexer.php:238-267 | Empty text gives an empty map; every segment's name is a key |
| `Metadata.ParseTextEntries` | src/ComfyUIOrganizer/ImageIndexer.php:256-264 | Every key comes from a segment, and its value is that of the last segment with that name |
| `Metadata.ProtectNothing` | src/ComfyUIOrganizer/ImageIndexer.php:251-256 | Text without backticks is split as it is |
| `Metadata.SingleSegment` | src/ComfyUIOrganizer/ImageIndexer.php:244-256 | `` name:`v` `` is a single segment even when v holds `-` |
| `Metadata.ProtectSingle` | src/ComfyUIOrganizer/ImageIndexer.php:251-254 | Protecting `` name:`v` `` encodes exactly its one span |
| `Metadata.ProtectSpan` | src/ComfyUIOrganizer/ImageIndexer.php:251-254 | The global replacement rewrites only the span itself in `` name:`v` `` |
| `Metadata.SingleSegmentParts` | src/ComfyUIOrganizer/ImageIndexer.php:260-263 | The protected segment yields the name and, once restored and trimmed, the original value |
| `Metadata.ParseSingleProperty` | src/ComfyUIOrganizer/ImageIndexer.php:238-267 | `` name:`v` `` parses to `{name: v}`: a `-` inside the backticks does not split |
| `Metadata.TrimTicks` | src/ComfyUIOrganizer/ImageIndexer.php:263 | Trimming backticks around a backtick-free value gives the value |
| `Indexer.ActionCode` | src/ComfyUIOrganizer/ImageIndexer.php:19-21 | An analysis result is recorded exactly for the updated, skipped-no-checkpoint and indexed outcomes |
| `Indexer.RefreshPaths` | src/ComfyUIOrganizer/ImageIndexer.php:116-138 | Afterwards both paths and the folder are current; an update is reported exactly when one of them was stale; with none stale the entry is unchanged |
| `Indexer.RefreshKeepsModified` | src/ComfyUIOrganizer/ImageIndexer.php:114-138 | Refreshing keeps the `modified` flag as it was |
| `Indexer.RefreshPathsKeeps` | src/ComfyUIOrganizer/ImageIndexer.php:122-138 | Refreshing keeps every field but the two paths, and every property but the folder |
| `Indexer.BuildProps` | src/ComfyUIOrganizer/ImageIndexer.php:188-204 | The keys are the parsed ones plus the five name keys. The folder is always the image's folder. Parsed values win, and the name-derived values fill only the absent keys |
| `Indexer.IsUpscaled` | src/ComfyUIOrganizer/ImageIndexer.php:208-214 | Upscaled exactly when `upscaleFactor` is present, or the base name occurs inside the word `upscale`, or a side is at least 2000 pixels |
| `Indexer.UpscaleNameTest` | src/ComfyUIOrganizer/ImageIndexer.php:208 | The reversed test: `1-upscale-2` at 512×512 is not upscaled, while `scale` is |
| `Indexer.NewEntry` | src/ComfyUIOrganizer/ImageIndexer.php:216-225 | A fresh entry has exactly eight keys, without `modified` and `label`, each holding the given value |
| `Indexer.IndexedEntry` | src/ComfyUIOrganizer/ImageIndexer.php:157-225 | A fresh entry carries the image hash, both paths and the image's folder, and no `modified` or `label` |
| `Indexer.RefreshStep` | src/ComfyUIOrganizer/ImageIndexer.php:114-155 | The modified branch only refreshes the entry: the store changes only when it reports an update, and the entry stays modified |
| `Indexer.IndexStep` | src/ComfyUIOrganizer/ImageIndexer.php:157-231 | Without a checkpoint the store is unchanged. A non-string text is an error. An indexed image had a non-empty checkpoint and gets an entry without `modified` |
| `Indexer.IndexedRecord` | src/ComfyUIOrganizer/ImageIndexer.php:216-225 | A fresh entry loads as an unmodified, unlabelled record of the image with its folder |
| `Indexer.AnalyzeImage` | src/ComfyUIOrganizer/ImageIndexer.php:98-231 | Modified entries are never re-indexed, only refreshed, and stay modified. Skips leave the index unchanged. Indexing needs a non-empty checkpoint and writes no `modified` |
| `Indexer.AnalyzeImageFrame` | src/ComfyUIOrganizer/ImageIndexer.php:98-231 | Analysing an image touches no entry but the one under its hash |
| `Indexer.AnalyzeImageWrites` | src/ComfyUIOrganizer/ImageIndexer.php:114-225 | A changed index differs by one write under the image's hash |
| `Indexer.ModifiedEntryProtected` | src/ComfyUIOrganizer/ImageIndexer.php:109-155 | A modified entry keeps everything but its paths and folder, so user edits survive re-indexing |
| `Indexer.RefreshPathsTwice` | src/ComfyUIOrganizer/ImageIndexer.php:122-138 | A refreshed entry needs no second update, unless its folder name is one `empty()` rejects |
| `Indexer.RefreshStepTwice` | src/ComfyUIOrganizer/ImageIndexer.php:114-155 | The modified branch reaches its fixpoint in one pass |
| `Indexer.IndexStepTwice` | src/ComfyUIOrganizer/ImageIndexer.php:174-225 | Indexing an unmodified image again writes the same entry |
| `Indexer.AnalyzeImageTwice` | src/ComfyUIOrganizer/ImageIndexer.php:98-231 | Analysing the same image twice leaves the index as the first pass left it (folder names "" and "0" aside) |
| `Indexer.FileStep` | src/ComfyUIOrganizer/ImageIndexer.php:75-83 | A file is skipped exactly when its `.json` sidecar does not exist, and the skip changes nothing |
| `Indexer.AnalyzeFiles` | src/ComfyUIOrganizer/ImageIndexer.php:75-84 | A completed loop records one action per file |
| `Indexer.AnalyzeImages` | src/ComfyUIOrganizer/ImageIndexer.php:67-96 | The existing index is the backup copy; a completed run records one action per file |
| `Indexer.AnalyzeFilesSidecars` | src/ComfyUIOrganizer/ImageIndexer.php:77-81 | The action of a file is the sidecar skip exactly when its sidecar does not exist |
| `Indexer.AnalyzeFilesNoSidecars` | src/ComfyUIOrganizer/ImageIndexer.php:75-90 | Without any sidecar the index is written back as it was loaded |
| `Indexer.AnalyzeFilesProtects` | src/ComfyUIOrganizer/ImageIndexer.php:75-84 | Through a whole run a modified entry stays modified and keeps all but its paths and folder |
| `Indexer.FileStepProtects` | src/ComfyUIOrganizer/ImageIndexer.php:77-83 | One file of the loop keeps a modified entry modified and protected |
| `UpscaleLinker.AddTag` | src/ComfyUIOrganizer/ImageIndexer.php:344-348 | Appending a record to its hash's list keeps the hashes distinct |
| `UpscaleLinker.Groups` | src/ComfyUIOrganizer/ImageIndexer.php:328-354 | The hash groups have distinct hashes |
| `UpscaleLinker.GroupsStep` | src/ComfyUIOrganizer/ImageIndexer.php:332-349 | One iteration extends the list of the record's own hash and no other |
| `UpscaleLinker.GroupsAreMembers` | src/ComfyUIOrganizer/ImageIndexer.php:328-354 | The list under a hash is exactly its taking-part records in order; a hash with none has no list |
| `UpscaleLinker.GroupsShape` | src/ComfyUIOrganizer/ImageIndexer.php:328-350 | The groups are valid positions, pairwise disjoint, and each is the reference group of its hash |
| `UpscaleLinker.LinkGroup` | src/ComfyUIOrganizer/ImageIndexer.php:285-316 | Handling one group changes no record outside it |
| `UpscaleLinker.LinkGroupKeeps` | src/ComfyUIOrganizer/ImageIndexer.php:294-313 | Linking changes no id and no upscaled flag |
| `UpscaleLinker.LinkAll` | src/ComfyUIOrganizer/ImageIndexer.php:280-317 | Handling every group in turn keeps one record per position |
| `UpscaleLinker.LinkAllAt` | src/ComfyUIOrganizer/ImageIndexer.php:280-317 | With disjoint groups each record is affected by its own group only, as if it were handled first |
| `UpscaleLinker.DetectUpscaledImages` | src/ComfyUIOrganizer/ImageIndexer.php:274-322 | Detection keeps every record's id and upscaled flag |
| `UpscaleLinker.Partner` | src/ComfyUIOrganizer/ImageIndexer.php:285-316 | A record's partner is another valid position |
| `UpscaleLinker.PartnerMeans` | src/ComfyUIOrganizer/ImageIndexer.php:285-316 | u is k's partner exactly when both take part, k is regular and u upscaled, they share a hash, and no third taking-part record has it |
| `UpscaleLinker.LinkGroupPartner` | src/ComfyUIOrganizer/ImageIndexer.php:285-316 | Linking a record's group links it to its partner, or leaves it alone without one |
| `UpscaleLinker.DetectLinksPartners` | src/ComfyUIOrganizer/ImageIndexer.php:274-322 | After detection each record is linked to its partner's id when it has one, and is otherwise unchanged |
| `UpscaleLinker.IneligibleUntouched` | src/ComfyUIOrganizer/ImageIndexer.php:334-341 | Already-linked records and records outside the folder filter are left untouched |
| `UpscaleLinker.LinkedRecordHasUpscaled` | src/ComfyUIOrganizer/ImageIndexer.php:310-313 | A linked record names its partner's id and is marked modified |
| `PathFixerMessages.NewMessageRender` | src/ComfyUIOrganizer/Workflows/PathFixerMessage.php:18-43 | A new message prints as its type's label and `: `, followed by the given text without arguments and by the formatted text with them |
| `PathFixerMessages.TypeLabel` | src/ComfyUIOrganizer/Workflows/PathFixerMessage.php:35-40 | error, warning and success get their own labels; every other type reads as Notice |
| `PathFixerMessages.Render` | src/ComfyUIOrganizer/Workflows/PathFixerMessage.php:33-43 | The rendering starts with the label and `: ` and ends with the text |
| `PathFixerMessages.ToString` | src/ComfyUIOrganizer/Workflows/PathFixerMessage.php:28-31 | The printed text starts with the type's label and `: ` and ends with the message text, with nothing else between |
| `PathFixerMessages.RenderInjective` | src/ComfyUIOrganizer/Workflows/PathFixerMessage.php:33-43 | Two messages render alike exactly when their labels and texts agree |
| `PathFixer.KnownFiles` | src/ComfyUIOrganizer/Workflows/PathFixer.php:58-70 | The known files have distinct keys; one warning per LoRA without a file name |
| `PathFixer.KnownFilesKeys` | src/ComfyUIOrganizer/Workflows/PathFixer.php:59-70 | The keys are exactly the lowercased non-empty file names |
| `PathFixer.EmptyFileNeverKnown` | src/ComfyUIOrganizer/Workflows/PathFixer.php:59-69 | A LoRA with an empty file name is never indexed |
| `PathFixer.MatchKnown` | src/ComfyUIOrganizer/Workflows/PathFixer.php:78-87 | The match is the first known file that equals or ends the disk name |
| `PathFixer.MatchKnownNone` | src/ComfyUIOrganizer/Workflows/PathFixer.php:78-95 | No match exactly when no known file ends the disk name |
| `PathFixer.EntryFor` | src/ComfyUIOrganizer/Workflows/PathFixer.php:97-101 | The entry carries the matched official name and its label, and a path without `/` |
| `PathFixer.AddFile` | src/ComfyUIOrganizer/Workflows/PathFixer.php:72-101 | One disk file keeps the index keys distinct |
| `PathFixer.NoticeFor` | src/ComfyUIOrganizer/Workflows/PathFixer.php:89-95 | A disk file leaves one notice exactly when it matched nothing |
| `PathFixer.IndexMap` | src/ComfyUIOrganizer/Workflows/PathFixer.php:72-102 | The file index has distinct keys |
| `PathFixer.IndexNotices` | src/ComfyUIOrganizer/Workflows/PathFixer.php:72-102 | The disk loop leaves only notices, at most one per file |
| `PathFixer.AddFileGet` | src/ComfyUIOrganizer/Workflows/PathFixer.php:97-101 | A matched file is stored under its lowercased name; every other lookup is unchanged |
| `PathFixer.IndexFilesKeysSound` | src/ComfyUIOrganizer/Workflows/PathFixer.php:72-101 | Every key is the lowercased name of a disk file that matched |
| `PathFixer.IndexFilesKeysComplete` | src/ComfyUIOrganizer/Workflows/PathFixer.php:72-101 | Every matched disk file is a key |
| `PathFixer.IndexFilesKeys` | src/ComfyUIOrganizer/Workflows/PathFixer.php:72-101 | A name is a key exactly when a disk file has it and it matched a known file |
| `PathFixer.MatchedEntry` | src/ComfyUIOrganizer/Workflows/PathFixer.php:78-101 | A matched entry's official name ends the disk name and is a known file with that label |
| `PathFixer.IndexFilesEntries` | src/ComfyUIOrganizer/Workflows/PathFixer.php:72-101 | Every index entry belongs to its key in that sense |
| `PathFixer.BuildFileIndex` | src/ComfyUIOrganizer/Workflows/PathFixer.php:54-103 | The index has distinct keys; the warnings for LoRAs without a file come first, then only notices |
| `PathFixer.ResolvePath` | src/ComfyUIOrganizer/Workflows/PathFixer.php:200-219 | The value is replaced exactly when some entry's official name ends it in lower case and that entry's path differs; it then becomes the first such entry's path with one notice, and otherwise stays with none |
| `PathFixer.ResolvedPathStays` | src/ComfyUIOrganizer/Workflows/PathFixer.php:206 | A value that is already the entry's path, in any case, is left as it is |
| `PathFixer.LoaderValue` | src/ComfyUIOrganizer/Workflows/PathFixer.php:132-145 | Only a non-empty string first widget value of a `LoraLoaderModelOnly` node is a candidate |
| `PathFixer.SetWidget` | src/ComfyUIOrganizer/Workflows/PathFixer.php:152 | The rewritten node is still an object |
| `PathFixer.FixNode` | src/ComfyUIOrganizer/Workflows/PathFixer.php:130-155 | Nodes that are not candidates are untouched. A changed node is a candidate with its first widget value replaced by the resolved path |
| `PathFixer.FixNodes` | src/ComfyUIOrganizer/Workflows/PathFixer.php:130-155 | The list keeps its length and is unchanged when nothing changed |
| `PathFixer.FixNodesAt` | src/ComfyUIOrganizer/Workflows/PathFixer.php:130-155 | Each node of a list is fixed on its own |
| `PathFixer.FixNodesChanged` | src/ComfyUIOrganizer/Workflows/PathFixer.php:130-155 | A list reports a change exactly when one of its nodes changed |
| `PathFixer.FixFields` | src/ComfyUIOrganizer/Workflows/PathFixer.php:130-156 | An object of nodes keeps its size and is unchanged when nothing changed |
| `PathFixer.FixFieldsAt` | src/ComfyUIOrganizer/Workflows/PathFixer.php:130-156 | Each node of an object is fixed on its own, under its key |
| `PathFixer.FixFieldsChanged` | src/ComfyUIOrganizer/Workflows/PathFixer.php:130-156 | An object reports a change exactly when one of its nodes changed |
| `PathFixer.FixDocument` | src/ComfyUIOrganizer/Workflows/PathFixer.php:122-157 | Without a change the document is unchanged |
| `PathFixer.FixEmptyObjects` | src/ComfyUIOrganizer/Workflows/PathFixer.php:168-172 | The repair keeps the length and only turns brackets into braces |
| `PathFixer.ReplaceBrackets` | src/ComfyUIOrganizer/Workflows/PathFixer.php:171 | One replacement keeps the length and only turns brackets into braces |
| `PathFixer.NoBracketsUnchanged` | src/ComfyUIOrganizer/Workflows/PathFixer.php:168-174 | A document without brackets is written as encoded |
| `PathFixer.FixOwn` | src/ComfyUIOrganizer/Workflows/PathFixer.php:171 | `"p":[]` becomes `"p":{}` |
| `PathFixer.FixesEachProperty` | src/ComfyUIOrganizer/Workflows/PathFixer.php:169-172 | `"flags":[]`, `"config":[]` and `"properties":[]` each come out as empty objects |
| `PathFixer.FixPaths` | src/ComfyUIOrganizer/Workflows/PathFixer.php:118-182 | The messages start with those of the file index |
| `PathFixer.FixPathsWrites` | src/ComfyUIOrganizer/Workflows/PathFixer.php:159-179 | Files are written exactly when a node changed. A change copies the backup first, then writes the document, then writes it again with the empty-object repair |
| `PathFixer.NoChangeNotice` | src/ComfyUIOrganizer/Workflows/PathFixer.php:176-179 | Without a change nothing is written and the last message is the no-changes notice |
| `LoRABuckets.SortStrings` | src/ComfyUIOrganizer/LoRAs/LoRABucket.php:36 | The sorted list is strictly increasing and holds the same strings |
| `LoRABuckets.Dedupe` | src/ComfyUIOrganizer/LoRAs/LoRABucket.php:27-34 | The collected models are distinct and are exactly the models seen |
| `LoRABuckets.GetModels` | src/ComfyUIOrganizer/LoRAs/LoRABucket.php:25-39 | Each model of the bucket appears exactly once, in sorted order |
| `LoRABuckets.GetModelsUnique` | src/ComfyUIOrganizer/LoRAs/LoRABucket.php:36 | Any strictly sorted list of exactly the bucket's models is the result |
| `LoRABuckets.Categorize` | src/ComfyUIOrganizer/LoRAs/LoRABucket.php:47-55 | The categories are distinct keys |
| `LoRABuckets.CategorizeGet` | src/ComfyUIOrganizer/LoRAs/LoRABucket.php:49-55 | The list under a category is its records in bucket order; a category with no record has no key |
| `LoRABuckets.CategorizeKeys` | src/ComfyUIOrganizer/LoRAs/LoRABucket.php:47-57 | The categories appear in the order of their first record |
| `LoRABuckets.GetCategorized` | src/ComfyUIOrganizer/LoRAs/LoRABucket.php:45-58 | Distinct categories, each with a non-empty list |
| `LoRABuckets.GetCategorizedPlacesOnce` | src/ComfyUIOrganizer/LoRAs/LoRABucket.php:47-57 | Every record sits under its own category, as often as it occurs in the bucket, under no other category, with the bucket order kept |
| `LoRABuckets.GetCategorizedKeys` | src/ComfyUIOrganizer/LoRAs/LoRABucket.php:45-58 | The keys are distinct and are exactly the categories of the records |
| `LoRABuckets.GetByModel` | src/ComfyUIOrganizer/LoRAs/LoRABucket.php:66-78 | An order-preserving selection of exactly the records whose model equals the name ignoring case, each as often as in the bucket |
| `LoRABuckets.GetByModelIgnoresCase` | src/ComfyUIOrganizer/LoRAs/LoRABucket.php:69-72 | The case of the model name does not matter |
| `LoRABuckets.GetByModelAsBucket` | src/ComfyUIOrganizer/LoRAs/LoRABucket.php:87-90 | The new bucket holds exactly the `getByModel` result |
| `LoRABuckets.GetByModelAsBucketStable` | src/ComfyUIOrganizer/LoRAs/LoRABucket.php:87-90 | Asking the new bucket for the same model returns all its records, and its models all match the name |
| `ImageHandlers.NewHandler` | js/ImageHandler.js:11-18 | A new handler keeps its id and words and is not selected |
| `ImageHandlers.BlankIffEmpty` | js/ImageHandler.js:26-28 | A search is empty after lowercasing and trimming exactly when it is all white space |
| `ImageHandlers.MatchesSearch` | js/ImageHandler.js:24-42 | True exactly when the search is blank or some search word contains the lowercased, trimmed search |
| `ImageHandlers.BlankMatchesAll` | js/ImageHandler.js:26-29 | An empty or white-space search matches every image |
| `ImageHandlers.NoWordsMatchOnlyBlank` | js/ImageHandler.js:32-41 | Without search words only a blank search matches |
| `ImageHandlers.MatchesIgnoresCase` | js/ImageHandler.js:26 | Lowercasing the search does not change whether it matches |
| `ImageHandlers.WordContainingSearchMatches` | js/ImageHandler.js:32-35 | A word containing the normalized search selects the image |
| `ImageHandlers.ToggleSelection` | js/ImageHandler.js:44-61 | The flag flips. With both elements present, the button shows Unselect exactly when the image is selected and the callback receives the new state; a missing element raises the not-found error after the flip |
| `ImageHandlers.ToggleTwice` | js/ImageHandler.js:44-60 | Toggling twice restores the handler, and the callback hears both states in turn |

## Left out

- I/O is modelled by its effect, not by bytes:
  - JSON decoding and encoding, and PHP's `getData`/`putData`;
  - console output and the analysis-result collection (only the action codes are kept);
  - the PNG size reader;
  - `file_get_contents`, whose value is taken to be the text just encoded.
- These are parameters, because the model cannot compute them:
  - MD5, `hash_file`, and the indexer's `Microtime` conversion of a sidecar date to `getISODate()` text;
  - `sprintf` and `FileHelper::relativizePath`;
  - the clock behind both backup names;
  - the LoRA catalog (`LoRAsCollection`, `LoRA`), and how the LoRA summary is written;
  - whether the collection's `save()` succeeds. `ImageCollection::save` is not part of this model; a successful save writes every loaded record serialized.
- Some methods are called but are not in the modelled files. They are plain key getters and setters on the property map, and each setter runs the modified callback once:
  - `isFavorite`, `isForGallery`, the prompt, sampler and scheduler getters, `getBatchNumber` and `getUpscaledImage`;
  - `getSamplerSteps` as an integer getter and `getCFG` as a number getter (`Properties.GetNumberText`), as their `(string)` casts indicate;
  - `setForGallery`, `setFolderName` and `setUpscaledImage`.
  The key names of these are assumptions. `setUpscaledImage` stores the target's id. No cascades are modelled.
- `ArrayDataCollection` and `BaseStringPrimaryCollection` are not part of this model:
  - `Properties.GetBool` and `Images.EntryBool` count only a stored boolean true; string-to-boolean conversions are not modelled.
  - `Collection.Register` takes `registerItem` to store a record under its id, a repeated id replacing the earlier record in place.
  - `getAll()` is taken to return records in registration order.
- The case mapping of `mb_strtolower`, `strtolower` and JavaScript's `toLowerCase` is modelled on ASCII letters only.
- `Collection.NatCaseCmp`: `strnatcasecmp` is modelled as comparison after an ASCII upper-case fold, with digit runs compared by value. It skips white space at every position, and digit runs that start with `0` are compared digit by digit from the left; neither is modelled.
- `LoRABuckets.SortStrings`: PHP's `sort()` is modelled as code-point order on distinct strings. The numeric comparison of numeric strings under `SORT_REGULAR` is not modelled.
- `Collection.GetFromRequest`: the `setMD5()` validation is taken to accept exactly 32 hexadecimal digits.
- `FileNames.DecodeFileName` has no contract of its own. It is `DecodeTokens` on the tokens of the name, and `DecodeTokens` and `FileNames.DecodeFormatted` carry the properties.
- `Metadata.ParseSingleProperty`: proved for one `` name:`value` `` property whose value holds no `` ` ``, `:` or `_` (the placeholders start with `_`). The general multi-span behaviour is given by `Metadata.ParseTextEntries`.
- `Images.SettingsTextDiffers` is stated for fields without a `$`, because the `$$` separator can occur inside a field. It is about the settings text; the hash is a parameter.
- `Indexer.AnalyzeImageTwice` and `Indexer.RefreshPathsTwice` exclude the folder names "" and "0", which `empty()` always reports as stale.
- Float JSON numbers in sidecars and property maps are not modelled. Property values are strings, integers or booleans.
- `Properties.GetInt`: `ArrayDataCollection::getInt` is taken to cast integer-shaped strings and to give 0 for any other string. A numeric string with a fraction or an exponent ("1.5", "1e3") reads as 0, where a PHP `(int)` cast would give 1 and 1000.
- `FileNames.DecodeTokens`: a token with a fraction or an exponent is cast only up to its digits, so "1e3" gives 1 where PHP gives 1000. PHP reads such tokens as floating-point numbers, which the model leaves out. Overflowing digit runs are saturated as in PHP.
- `FileNames.DigitCast` covers plain digit strings, where PHP's cast is exact up to the saturation it states; exponent forms do not occur in digit strings.
- `Properties.GetNumberText`: `getCFG()` is taken to return a number. A fractional CFG is kept as the text it was stored with, not re-rendered as PHP renders a float, and a non-numeric string is kept as written where PHP would give "0". The keys `cfg` and `steps` are assumptions.
- `Images.FromSerialized`: the stored date is kept as its text. Both writers store `getISODate()` text (src/ComfyUIOrganizer/ImageIndexer.php:220, src/ComfyUIOrganizer/ImageInfo.php:372), and the model takes re-parsing such text with `Microtime::createFromString` (src/ComfyUIOrganizer/ImageInfo.php:356) and rendering it again to give the same text. A date in another form would come back re-rendered, and an unparsable date throws and stops loading the collection; neither is modelled. `Images.FromSerializedRoundTrip` relies on the same assumption.
- `Indexer.IndexedEntry`: the date conversion is a total parameter. `Microtime::createFromString` throws on an unparsable date, which ends the indexing run; that failure is not modelled.
- `FolderMove.MoveOne`: copying a source that does not exist is an error. When the sidecar copy fails, the image copy stays on disk.
- `ImageHandlers.ToggleSelection`: the page is reduced to whether the wrapper and the button exist. The `selected` CSS class is not modelled.
- These are outside the modelled core:
  - the web pages and HTML, the AJAX endpoints and the export to the website;
  - thumbnail creation and image display, and `copyToOutput` (which needs transliteration);
  - empty-folder cleanup, the workflow listing, and bootstrapping;
  - the rest of the browser code, apart from the search filter and the toggle.
