/** Rewriting the LoRA paths of a ComfyUI workflow (`PathFixer`): the LoRA
    files on disk are matched with the known LoRAs by the end of their file
    name, and every `LoraLoaderModelOnly` node whose first widget value names
    a known file under another path is pointed at the file's path relative to
    the LoRA folder. */
module PathFixer {
  import opened Wrappers
  import opened Strings
  import opened OrderedMaps
  import opened Paths
  import opened PathFixerMessages

  const LoaderType := "LoraLoaderModelOnly"
  const KeyNodes := "nodes"
  const KeyType := "type"
  const KeyWidgets := "widgets_values"

  const MsgNoFile := "LoRA [%s] has no file specified in any of the JSON files."
  const MsgUnknownFile := "LoRA file [%s] not found in known LoRAs. Missing from collection, or name mismatch?"
  const MsgReplacing := "Replacing LoRA path [%s] with [%s]."
  const MsgBackup := "Created workflow backup under %s."
  const MsgNoChanges := "No changes necessary, workflow paths are up to date."

  /** A LoRA of the collection, with the file name its JSON gives. */
  datatype KnownLoRA = KnownLoRA(id: string, file: string, labelText: string)

  /** An entry of `loraFileIndex`. */
  datatype IndexEntry = IndexEntry(relativePath: string, officialFileName: string, loraLabel: string)

  /** What the fixer reads from outside: the LoRAs of the collection, the
      `.safetensors` files found under the LoRA folder, that folder,
      `FileHelper::relativizePath` and `sprintf`. */
  datatype Env = Env(
    loras: seq<KnownLoRA>,
    files: seq<Path>,
    loraFolder: Path,
    relativize: (Path, Path) -> string,
    sprintf: Formatter)

  // ---------------------------------------------------------------------------
  // buildFileIndex
  // ---------------------------------------------------------------------------

  /** The number of LoRAs without a file name. */
  function CountEmpty(loras: seq<KnownLoRA>): nat
  {
    if |loras| == 0 then 0
    else CountEmpty(loras[..|loras| - 1]) + if PhpEmpty(loras[|loras| - 1].file) then 1 else 0
  }

  /** A LoRA among `loras` has a non-empty file name that lowercases to `k`. */
  ghost predicate NamedFile(loras: seq<KnownLoRA>, k: string)
  {
    exists i :: 0 <= i < |loras| && !PhpEmpty(loras[i].file) && ToLower(loras[i].file) == k
  }

  /** The first loop of `buildFileIndex()`: lowercased file name to label,
      one warning for each LoRA that has no file name. */
  function KnownFiles(loras: seq<KnownLoRA>, sprintf: Formatter): (r: (OMap<string, string>, seq<Message>))
    ensures UniqueKeys(r.0)
    ensures |r.1| == CountEmpty(loras)
    ensures forall j :: 0 <= j < |r.1| ==> r.1[j].kind == TypeWarning
  {
    if |loras| == 0 then ([], [])
    else
      var l := loras[|loras| - 1];
      var prev := KnownFiles(loras[..|loras| - 1], sprintf);
      if PhpEmpty(l.file) then
        (prev.0, prev.1 + [NewMessage(TypeWarning, MsgNoFile, [l.id], sprintf)])
      else
        PutUnique(prev.0, ToLower(l.file), l.labelText);
        (Put(prev.0, ToLower(l.file), l.labelText), prev.1)
  }

  lemma NamedFileStep(loras: seq<KnownLoRA>, k: string)
    requires |loras| > 0
    ensures NamedFile(loras, k) <==>
      (NamedFile(loras[..|loras| - 1], k) || (!PhpEmpty(loras[|loras| - 1].file) && ToLower(loras[|loras| - 1].file) == k))
  {
    var init := loras[..|loras| - 1];
    if NamedFile(loras, k) {
      var i :| 0 <= i < |loras| && !PhpEmpty(loras[i].file) && ToLower(loras[i].file) == k;
      if i < |init| {
        assert init[i] == loras[i];
      }
    }
    if NamedFile(init, k) {
      var i :| 0 <= i < |init| && !PhpEmpty(init[i].file) && ToLower(init[i].file) == k;
      assert init[i] == loras[i];
    }
  }

  /** The known files are exactly the lowercased non-empty file names. */
  lemma {:induction false} KnownFilesKeys(loras: seq<KnownLoRA>, sprintf: Formatter, k: string)
    ensures HasKey(KnownFiles(loras, sprintf).0, k) <==> NamedFile(loras, k)
  {
    if |loras| > 0 {
      var l := loras[|loras| - 1];
      var prev := KnownFiles(loras[..|loras| - 1], sprintf).0;
      KnownFilesKeys(loras[..|loras| - 1], sprintf, k);
      NamedFileStep(loras, k);
      if !PhpEmpty(l.file) {
        KeysHasKey(prev, k);
        PutKeys(prev, ToLower(l.file), l.labelText);
        KeysHasKey(Put(prev, ToLower(l.file), l.labelText), k);
      }
    }
  }

  /** An empty or "0" file name is never a key of the index of known files. */
  lemma EmptyFileNeverKnown(loras: seq<KnownLoRA>, sprintf: Formatter)
    ensures !HasKey(KnownFiles(loras, sprintf).0, "")
    ensures !HasKey(KnownFiles(loras, sprintf).0, "0")
  {
    KnownFilesKeys(loras, sprintf, "");
    KnownFilesKeys(loras, sprintf, "0");
    forall i | 0 <= i < |loras| && !PhpEmpty(loras[i].file)
      ensures ToLower(loras[i].file) != "" && ToLower(loras[i].file) != "0"
    {
      var f := loras[i].file;
      if |f| == 1 {
        assert ToLower(f)[0] == LowerChar(f[0]);
      }
    }
  }

  /** The inner `foreach` with `break`: the position of the first known file
      that equals the disk name or ends it. */
  function MatchKnown(name: string, known: OMap<string, string>): (r: Option<nat>)
    ensures r.Some? ==> r.value < |known| && (name == known[r.value].0 || IsSuffix(known[r.value].0, name))
    ensures r.Some? ==> forall j :: 0 <= j < r.value ==> !IsSuffix(known[j].0, name)
    decreases |known|
  {
    if |known| == 0 then None
    else if name == known[0].0 || IsSuffix(known[0].0, name) then Some(0)
    else
      var rest := MatchKnown(name, known[1..]);
      assert forall j :: 1 <= j < |known| ==> known[j] == known[1..][j - 1];
      if rest.None? then None else Some(rest.value + 1)
  }

  /** No known file matches exactly when none ends the disk name. */
  lemma {:induction false} MatchKnownNone(name: string, known: OMap<string, string>)
    ensures MatchKnown(name, known).None? <==> forall j :: 0 <= j < |known| ==> !IsSuffix(known[j].0, name)
    decreases |known|
  {
    if |known| > 0 && name != known[0].0 && !IsSuffix(known[0].0, name) {
      MatchKnownNone(name, known[1..]);
      assert forall j :: 1 <= j < |known| ==> known[j] == known[1..][j - 1];
    }
  }

  /** The index entry of a disk file matched to the known file at `i`: its
      path relative to the LoRA folder with backslashes, the official name and
      the label. */
  function EntryFor(env: Env, path: Path, known: OMap<string, string>, i: nat): (e: IndexEntry)
    requires i < |known|
    ensures e.officialFileName == known[i].0 && e.loraLabel == known[i].1
    ensures '/' !in e.relativePath
  {
    ReplaceAllRemovesChar(env.relativize(path, env.loraFolder), '/', "\\");
    IndexEntry(ReplaceAll(env.relativize(path, env.loraFolder), "/", "\\"), known[i].0, known[i].1)
  }

  /** The lowercased file name a disk file is indexed under. */
  function LowerName(p: Path): string
  {
    ToLower(FileName(p))
  }

  /** One iteration of the second loop of `buildFileIndex()` on the index:
      a disk file that matches a known file is put under its lowercased
      name. */
  function AddFile(env: Env, known: OMap<string, string>, m: OMap<string, IndexEntry>, path: Path): (r: OMap<string, IndexEntry>)
    requires UniqueKeys(m)
    ensures UniqueKeys(r)
  {
    match MatchKnown(LowerName(path), known)
    case None => m
    case Some(i) =>
      PutUnique(m, LowerName(path), EntryFor(env, path, known, i));
      Put(m, LowerName(path), EntryFor(env, path, known, i))
  }

  /** The same iteration on the messages: a disk file that matches no known
      file leaves a notice. */
  function NoticeFor(env: Env, known: OMap<string, string>, path: Path): (r: seq<Message>)
    ensures |r| <= 1 && forall j :: 0 <= j < |r| ==> r[j].kind == TypeNotice
    ensures |r| == 0 <==> MatchKnown(LowerName(path), known).Some?
  {
    if MatchKnown(LowerName(path), known).None? then [NewMessage(TypeNotice, MsgUnknownFile, [FileName(path)], env.sprintf)] else []
  }

  /** The index the second loop of `buildFileIndex()` builds from the first
      `n` disk files. */
  function IndexMap(env: Env, known: OMap<string, string>, n: nat): (r: OMap<string, IndexEntry>)
    requires n <= |env.files|
    ensures UniqueKeys(r)
  {
    if n == 0 then [] else AddFile(env, known, IndexMap(env, known, n - 1), env.files[n - 1])
  }

  /** The notices the same loop leaves for the first `n` disk files. */
  function IndexNotices(env: Env, known: OMap<string, string>, n: nat): (r: seq<Message>)
    requires n <= |env.files|
    ensures forall j :: 0 <= j < |r| ==> r[j].kind == TypeNotice
    ensures |r| <= n
  {
    if n == 0 then [] else IndexNotices(env, known, n - 1) + NoticeFor(env, known, env.files[n - 1])
  }

  /** One iteration stores the matched file's entry under its name and
      leaves every other lookup as it was. */
  lemma AddFileGet(env: Env, known: OMap<string, string>, m: OMap<string, IndexEntry>, path: Path, name: string)
    requires UniqueKeys(m)
    ensures Get(AddFile(env, known, m, path), name) ==
      if name == LowerName(path) && MatchKnown(name, known).Some? then Some(EntryFor(env, path, known, MatchKnown(name, known).value))
      else Get(m, name)
  {
    match MatchKnown(LowerName(path), known)
    case None =>
    case Some(i) =>
      PutGet(m, LowerName(path), EntryFor(env, path, known, i));
  }

  /** The lowercased names of the given disk files, in order. */
  function LowerNames(ps: seq<Path>): (r: seq<string>)
    ensures |r| == |ps|
  {
    if |ps| == 0 then [] else LowerNames(ps[..|ps| - 1]) + [LowerName(ps[|ps| - 1])]
  }

  /** One of the first `n` disk files has the lowercased name `name`. */
  predicate OnDisk(env: Env, n: nat, name: string)
    requires n <= |env.files|
  {
    name in LowerNames(env.files[..n])
  }

  lemma OnDiskStep(env: Env, n: nat, name: string)
    requires 0 < n <= |env.files|
    ensures OnDisk(env, n, name) <==> OnDisk(env, n - 1, name) || LowerName(env.files[n - 1]) == name
  {
    assert env.files[..n][..n - 1] == env.files[..n - 1];
  }

  /** One step of the loop adds the key of the file it matched, and no other. */
  lemma IndexFilesStep(env: Env, known: OMap<string, string>, n: nat, name: string)
    requires 0 < n <= |env.files|
    ensures HasKey(IndexMap(env, known, n), name) <==>
      HasKey(IndexMap(env, known, n - 1), name)
      || (name == LowerName(env.files[n - 1]) && MatchKnown(name, known).Some?)
  {
    AddFileGet(env, known, IndexMap(env, known, n - 1), env.files[n - 1], name);
  }

  /** A key of the index is the lowercased name of a disk file that matched a
      known file. */
  lemma {:induction false} IndexFilesKeysSound(env: Env, known: OMap<string, string>, n: nat, name: string)
    requires n <= |env.files|
    ensures HasKey(IndexMap(env, known, n), name) ==> OnDisk(env, n, name) && MatchKnown(name, known).Some?
  {
    if n > 0 {
      IndexFilesStep(env, known, n, name);
      IndexFilesKeysSound(env, known, n - 1, name);
      OnDiskStep(env, n, name);
    }
  }

  /** Every disk file that matched a known file is in the index under its
      lowercased name. */
  lemma {:induction false} IndexFilesKeysComplete(env: Env, known: OMap<string, string>, n: nat, name: string)
    requires n <= |env.files|
    ensures OnDisk(env, n, name) && MatchKnown(name, known).Some? ==> HasKey(IndexMap(env, known, n), name)
  {
    if n > 0 {
      OnDiskStep(env, n, name);
      IndexFilesKeysComplete(env, known, n - 1, name);
      IndexFilesStep(env, known, n, name);
    }
  }

  /** A disk file is in the index under its lowercased name exactly when it
      matched a known file; unmatched files only leave a notice. */
  lemma IndexFilesKeys(env: Env, known: OMap<string, string>, n: nat, name: string)
    requires n <= |env.files|
    ensures HasKey(IndexMap(env, known, n), name) <==> OnDisk(env, n, name) && MatchKnown(name, known).Some?
  {
    IndexFilesKeysSound(env, known, n, name);
    IndexFilesKeysComplete(env, known, n, name);
  }

  /** The entry a matched file is stored with belongs to its name: the
      official file name ends it, and it is a known file with that label. */
  lemma MatchedEntry(env: Env, known: OMap<string, string>, path: Path)
    requires UniqueKeys(known) && MatchKnown(LowerName(path), known).Some?
    ensures var e := EntryFor(env, path, known, MatchKnown(LowerName(path), known).value);
      IsSuffix(e.officialFileName, LowerName(path)) && Get(known, e.officialFileName) == Some(e.loraLabel)
  {
    var name := LowerName(path);
    var i := MatchKnown(name, known).value;
    GetAt(known, i);
    if name == known[i].0 {
      assert name[|name| - |name|..] == name;
    }
  }

  /** Every index entry belongs to its key: the official file name ends the
      lowercased disk name, and it is a known file with that label. */
  lemma {:induction false} IndexFilesEntries(env: Env, known: OMap<string, string>, n: nat, name: string)
    requires n <= |env.files| && UniqueKeys(known)
    ensures var g := Get(IndexMap(env, known, n), name);
      g.Some? ==> IsSuffix(g.value.officialFileName, name) && Get(known, g.value.officialFileName) == Some(g.value.loraLabel)
  {
    if n > 0 {
      var prev := IndexMap(env, known, n - 1);
      var path := env.files[n - 1];
      AddFileGet(env, known, prev, path, name);
      if name == LowerName(path) && MatchKnown(name, known).Some? {
        MatchedEntry(env, known, path);
      } else {
        IndexFilesEntries(env, known, n - 1, name);
      }
    }
  }

  /** `buildFileIndex()`: the index and the messages it adds, warnings first. */
  function BuildFileIndex(env: Env): (r: (OMap<string, IndexEntry>, seq<Message>))
    ensures UniqueKeys(r.0)
    ensures |r.1| >= CountEmpty(env.loras)
    ensures forall j :: 0 <= j < |r.1| ==> (r.1[j].kind == TypeWarning <==> j < CountEmpty(env.loras))
  {
    var (known, warnings) := KnownFiles(env.loras, env.sprintf);
    (IndexMap(env, known, |env.files|), warnings + IndexNotices(env, known, |env.files|))
  }

  // ---------------------------------------------------------------------------
  // resolvePath
  // ---------------------------------------------------------------------------

  /** The condition of `resolvePath()`: the official name ends the lowercased
      value, and the lowercased relative path differs from it. */
  predicate Replaces(e: IndexEntry, value: string)
  {
    IsSuffix(e.officialFileName, ToLower(value)) && ToLower(value) != ToLower(e.relativePath)
  }

  /** The entry at `i` is the first that replaces the value. */
  predicate FirstReplacing(entries: seq<IndexEntry>, value: string, i: int)
  {
    0 <= i < |entries| && Replaces(entries[i], value) && forall j :: 0 <= j < i ==> !Replaces(entries[j], value)
  }

  /** `resolvePath()` over the index entries in order: the relative path of
      the first entry that replaces the value, with a notice, or the value
      itself. */
  function ResolvePath(entries: seq<IndexEntry>, value: string, sprintf: Formatter): (r: (string, seq<Message>))
    ensures (exists i :: 0 <= i < |entries| && Replaces(entries[i], value)) <==> r.0 != value
    ensures r.0 == value <==> r.1 == []
    ensures r.0 != value ==> exists i :: 0 <= i < |entries| && FirstReplacing(entries, value, i) && r.0 == entries[i].relativePath
    ensures r.0 != value ==> r.1 == [NewMessage(TypeNotice, MsgReplacing, [value, r.0], sprintf)]
    decreases |entries|
  {
    if |entries| == 0 then (value, [])
    else if Replaces(entries[0], value) then
      var p := entries[0].relativePath;
      assert ToLower(p) != ToLower(value);
      (p, [NewMessage(TypeNotice, MsgReplacing, [value, p], sprintf)])
    else
      var rest := ResolvePath(entries[1..], value, sprintf);
      assert forall j :: 1 <= j < |entries| ==> entries[j] == entries[1..][j - 1];
      rest
  }

  /** A path that is already the relative path of the entry it matches, in
      any case, is left as it is by that entry. */
  lemma ResolvedPathStays(e: IndexEntry, sprintf: Formatter)
    ensures ResolvePath([e], e.relativePath, sprintf).0 == e.relativePath
  {
  }

  // ---------------------------------------------------------------------------
  // The workflow document and fixPaths
  // ---------------------------------------------------------------------------

  /** A decoded JSON value: `json_decode` into PHP arrays, with lists and
      objects kept apart. */
  datatype Json =
    | JNull
    | JBool(b: bool)
    | JNum(n: int)
    | JStr(s: string)
    | JList(elems: seq<Json>)
    | JObject(fields: OMap<string, Json>)

  predicate IsArray(j: Json)
  {
    j.JList? || j.JObject?
  }

  /** `isset($j[$key])` for a string key: present and not null. */
  function Field(j: Json, key: string): (r: Option<Json>)
    ensures r.Some? ==> j.JObject? && r.value != JNull
  {
    if j.JObject? then
      match Get(j.fields, key)
      case Some(v) => if v == JNull then None else Some(v)
      case None => None
    else None
  }

  /** `$j[0] ?? null` on a non-empty array. */
  function First(j: Json): Option<Json>
  {
    match j
    case JList(es) => if |es| > 0 then Some(es[0]) else None
    case JObject(fs) => Get(fs, "0")
    case _ => None
  }

  /** `$j[0] = $v` */
  function SetFirst(j: Json, v: Json): (r: Json)
    requires IsArray(j)
  {
    match j
    case JList(es) => if |es| > 0 then JList(es[0 := v]) else JList([v])
    case JObject(fs) => JObject(Put(fs, "0", v))
  }

  function Count(j: Json): nat
  {
    match j
    case JList(es) => |es|
    case JObject(fs) => |fs|
    case _ => 0
  }

  /** The widget value a loader node would have rewritten: a non-empty
      string in the first place of a non-empty `widgets_values` array of a
      node of type `LoraLoaderModelOnly`. */
  function LoaderValue(node: Json): (r: Option<string>)
    ensures r.Some? ==> !PhpEmpty(r.value)
  {
    var t := Field(node, KeyType);
    var w := Field(node, KeyWidgets);
    if t != Some(JStr(LoaderType)) || w.None? || !IsArray(w.value) || Count(w.value) == 0 then None
    else
      var v := First(w.value);
      if v.Some? && v.value.JStr? && !PhpEmpty(v.value.s) then Some(v.value.s) else None
  }

  /** Replacing the first widget value of a loader node. */
  function SetWidget(node: Json, value: string): (r: Json)
    requires LoaderValue(node).Some?
    ensures r.JObject?
  {
    var w := Field(node, KeyWidgets).value;
    JObject(Put(node.fields, KeyWidgets, SetFirst(w, JStr(value))))
  }

  /** The body of the node loop: a loader node whose value resolves to
      another path gets that path; every other node stays as it is. */
  function FixNode(index: seq<IndexEntry>, node: Json, sprintf: Formatter): (r: (Json, bool, seq<Message>))
    ensures LoaderValue(node).None? ==> r == (node, false, [])
    ensures !r.1 ==> r.0 == node && r.2 == []
    ensures r.1 ==> LoaderValue(node).Some? && r.0 == SetWidget(node, ResolvePath(index, LoaderValue(node).value, sprintf).0)
  {
    match LoaderValue(node)
    case None => (node, false, [])
    case Some(current) =>
      var (path, msgs) := ResolvePath(index, current, sprintf);
      if path == current then (node, false, [])
      else (SetWidget(node, path), true, msgs)
  }

  /** The node loop over a list of nodes. */
  function FixNodes(index: seq<IndexEntry>, nodes: seq<Json>, sprintf: Formatter): (r: (seq<Json>, bool, seq<Message>))
    ensures |r.0| == |nodes|
    ensures !r.1 ==> r.0 == nodes && r.2 == []
    decreases |nodes|
  {
    if |nodes| == 0 then ([], false, [])
    else
      var (n, c, m) := FixNode(index, nodes[0], sprintf);
      var (ns, cs, ms) := FixNodes(index, nodes[1..], sprintf);
      assert nodes == [nodes[0]] + nodes[1..];
      ([n] + ns, c || cs, m + ms)
  }

  /** Each node of the list is fixed on its own. */
  lemma {:induction false} FixNodesAt(index: seq<IndexEntry>, nodes: seq<Json>, sprintf: Formatter, i: nat)
    requires i < |nodes|
    ensures FixNodes(index, nodes, sprintf).0[i] == FixNode(index, nodes[i], sprintf).0
    decreases i
  {
    if i > 0 {
      FixNodesAt(index, nodes[1..], sprintf, i - 1);
    }
  }

  /** The list loop reports a change exactly when some node changed. */
  lemma {:induction false} FixNodesChanged(index: seq<IndexEntry>, nodes: seq<Json>, sprintf: Formatter)
    ensures FixNodes(index, nodes, sprintf).1 <==> exists i :: 0 <= i < |nodes| && FixNode(index, nodes[i], sprintf).1
    decreases |nodes|
  {
    if |nodes| > 0 {
      FixNodesChanged(index, nodes[1..], sprintf);
      if exists i :: 0 <= i < |nodes| && FixNode(index, nodes[i], sprintf).1 {
        var i :| 0 <= i < |nodes| && FixNode(index, nodes[i], sprintf).1;
        if i > 0 {
          assert nodes[1..][i - 1] == nodes[i];
        }
      }
      if exists i :: 0 <= i < |nodes[1..]| && FixNode(index, nodes[1..][i], sprintf).1 {
        var i :| 0 <= i < |nodes[1..]| && FixNode(index, nodes[1..][i], sprintf).1;
        assert nodes[i + 1] == nodes[1..][i];
      }
    }
  }

  /** The node loop over the values of an object of nodes. */
  function FixFields(index: seq<IndexEntry>, fields: OMap<string, Json>, sprintf: Formatter): (r: (OMap<string, Json>, bool, seq<Message>))
    ensures |r.0| == |fields|
    ensures !r.1 ==> r.0 == fields && r.2 == []
    decreases |fields|
  {
    if |fields| == 0 then ([], false, [])
    else
      var (n, c, m) := FixNode(index, fields[0].1, sprintf);
      var (ns, cs, ms) := FixFields(index, fields[1..], sprintf);
      assert fields == [fields[0]] + fields[1..];
      ([(fields[0].0, n)] + ns, c || cs, m + ms)
  }

  /** Each value of the object is fixed on its own, under its own key. */
  lemma {:induction false} FixFieldsAt(index: seq<IndexEntry>, fields: OMap<string, Json>, sprintf: Formatter, i: nat)
    requires i < |fields|
    ensures FixFields(index, fields, sprintf).0[i] == (fields[i].0, FixNode(index, fields[i].1, sprintf).0)
    decreases i
  {
    if i > 0 {
      FixFieldsAt(index, fields[1..], sprintf, i - 1);
    }
  }

  /** The object loop reports a change exactly when some node changed. */
  lemma {:induction false} FixFieldsChanged(index: seq<IndexEntry>, fields: OMap<string, Json>, sprintf: Formatter)
    ensures FixFields(index, fields, sprintf).1 <==> exists i :: 0 <= i < |fields| && FixNode(index, fields[i].1, sprintf).1
    decreases |fields|
  {
    if |fields| > 0 {
      FixFieldsChanged(index, fields[1..], sprintf);
      if exists i :: 0 <= i < |fields| && FixNode(index, fields[i].1, sprintf).1 {
        var i :| 0 <= i < |fields| && FixNode(index, fields[i].1, sprintf).1;
        if i > 0 {
          assert fields[1..][i - 1] == fields[i];
        }
      }
      if exists i :: 0 <= i < |fields[1..]| && FixNode(index, fields[1..][i].1, sprintf).1 {
        var i :| 0 <= i < |fields[1..]| && FixNode(index, fields[1..][i].1, sprintf).1;
        assert fields[i + 1] == fields[1..][i];
      }
    }
  }

  /** The `foreach($data['nodes'] as &$node)` loop: the rewritten document,
      whether anything changed, and the notices of `resolvePath()`. */
  function FixDocument(index: seq<IndexEntry>, data: Json, sprintf: Formatter): (r: (Json, bool, seq<Message>))
    requires Field(data, KeyNodes).Some? && IsArray(Field(data, KeyNodes).value)
    ensures !r.1 ==> r.0 == data
  {
    var nodes := Field(data, KeyNodes).value;
    var fixed :=
      if nodes.JList? then
        var (ns, c, m) := FixNodes(index, nodes.elems, sprintf);
        (JList(ns), c, m)
      else
        var (fs, c, m) := FixFields(index, nodes.fields, sprintf);
        (JObject(fs), c, m);
    if fixed.1 then (JObject(Put(data.fields, KeyNodes, fixed.0)), true, fixed.2)
    else (data, false, fixed.2)
  }

  // ---------------------------------------------------------------------------
  // Writing the file
  // ---------------------------------------------------------------------------

  const FlagsKey := "\"flags\":"
  const ConfigKey := "\"config\":"
  const PropertiesKey := "\"properties\":"

  /** `str_replace('"<p>":[]', '"<p>":{}', $content)` for the key text `p`. */
  function FixProperty(s: string, p: string): string
  {
    ReplaceAll(s, p + "[]", p + "{}")
  }

  /** The post-write repair: the three properties ComfyUI needs as objects,
      written by the encoder as empty lists, become empty objects. */
  function FixEmptyObjects(content: string): (r: string)
    ensures |r| == |content|
    ensures forall i :: 0 <= i < |r| ==> BracketOrSame(content[i], r[i])
  {
    var a := FixProperty(content, FlagsKey);
    var b := FixProperty(a, ConfigKey);
    ReplaceBrackets(content, FlagsKey);
    ReplaceBrackets(a, ConfigKey);
    ReplaceBrackets(b, PropertiesKey);
    FixProperty(b, PropertiesKey)
  }

  /** A character is kept, or an opening bracket became an opening brace, or
      a closing bracket a closing brace. */
  predicate BracketOrSame(before: char, after: char)
  {
    after == before || (before == '[' && after == '{') || (before == ']' && after == '}')
  }

  /** Replacing `<p>[]` by `<p>{}` keeps the length and turns only brackets
      into braces. */
  lemma {:induction false} ReplaceBrackets(s: string, p: string)
    ensures |FixProperty(s, p)| == |s|
    ensures forall i :: 0 <= i < |s| ==> BracketOrSame(s[i], FixProperty(s, p)[i])
    decreases |s|
  {
    var from := p + "[]";
    var to := p + "{}";
    if |s| >= |from| {
      if s[..|from|] == from {
        ReplaceBrackets(s[|from|..], p);
        var rest := FixProperty(s[|from|..], p);
        assert FixProperty(s, p) == to + rest;
        forall i | 0 <= i < |from| ensures BracketOrSame(s[i], to[i]) {
          assert s[i] == from[i];
        }
      } else {
        ReplaceBrackets(s[1..], p);
        assert FixProperty(s, p) == [s[0]] + FixProperty(s[1..], p);
      }
    }
  }

  /** A document without brackets is written as it was encoded. */
  lemma NoBracketsUnchanged(content: string)
    requires '[' !in content
    ensures FixEmptyObjects(content) == content
  {
    NotContainsBracket(content, FlagsKey);
    NotContainsBracket(content, ConfigKey);
    NotContainsBracket(content, PropertiesKey);
  }

  /** Text without `[` does not contain `<p>[]`. */
  lemma NotContainsBracket(s: string, p: string)
    requires '[' !in s
    ensures !Contains(s, p + "[]")
  {
    var sub := p + "[]";
    forall i ensures !OccursAt(s, sub, i) {
      if 0 <= i && i + |sub| <= |s| {
        assert s[i..i + |sub|][|p|] == s[i + |p|] != sub[|p|];
      }
    }
    ContainsIff(s, sub);
  }

  /** In `q[]`, whose only bracket is the last but one character, `p[]`
      occurs only if `p` ends `q`. */
  lemma NotContainsOther(q: string, p: string)
    requires '[' !in q && '[' !in p && !IsSuffix(p, q)
    ensures !Contains(q + "[]", p + "[]")
  {
    var s := q + "[]";
    var sub := p + "[]";
    forall i ensures !OccursAt(s, sub, i) {
      if 0 <= i && i + |sub| <= |s| {
        if i + |p| == |q| {
          var w := s[i..i + |sub|];
          assert w[..|p|] == q[|q| - |p|..] by {
            forall k | 0 <= k < |p| ensures w[..|p|][k] == q[|q| - |p|..][k] {
              assert w[k] == s[i + k] == q[i + k];
            }
          }
          assert q[|q| - |p|..] != p;
        } else {
          assert s[i..i + |sub|][|p|] == q[i + |p|] != sub[|p|];
        }
      }
    }
    ContainsIff(s, sub);
  }

  /** `p[]` turns into `p{}` under its own replacement. */
  lemma FixOwn(p: string)
    ensures FixProperty(p + "[]", p) == p + "{}"
  {
    ReplaceAllAtHead(p + "[]", "", p + "{}");
    assert p + "[]" + "" == p + "[]";
  }

  /** Each of the three properties written as an empty list comes out as an
      empty object. */
  lemma FixesEachProperty()
    ensures FixEmptyObjects(FlagsKey + "[]") == FlagsKey + "{}"
    ensures FixEmptyObjects(ConfigKey + "[]") == ConfigKey + "{}"
    ensures FixEmptyObjects(PropertiesKey + "[]") == PropertiesKey + "{}"
  {
    FixOwn(FlagsKey);
    FixOwn(ConfigKey);
    FixOwn(PropertiesKey);
    NotContainsBracket(FlagsKey + "{}", ConfigKey);
    NotContainsBracket(FlagsKey + "{}", PropertiesKey);
    NotContainsOther(ConfigKey, FlagsKey);
    NotContainsBracket(ConfigKey + "{}", PropertiesKey);
    NotContainsOther(PropertiesKey, FlagsKey);
    NotContainsOther(PropertiesKey, ConfigKey);
  }

  /** The backup name: `.json` becomes `.json.bak.<timestamp>`. */
  function BackupPath(path: Path, stamp: string): Path
  {
    ReplaceAll(path, ".json", ".json.bak." + stamp)
  }

  /** What the fixer does to the file system, in order. */
  datatype FileOp = Copy(source: Path, target: Path) | Write(target: Path, content: string)

  /** The outcome of `fixPaths()`: the messages and the file operations. */
  datatype FixOutcome = FixOutcome(messages: seq<Message>, ops: seq<FileOp>)

  /** `fixPaths()` on the decoded workflow `data` stored at `path`, with the
      JSON encoder and the backup timestamp as parameters. */
  function FixPaths(env: Env, path: Path, data: Json, encode: Json -> string, stamp: string): (r: FixOutcome)
    ensures BuildFileIndex(env).1 <= r.messages
  {
    var (index, indexMsgs) := BuildFileIndex(env);
    var nodes := Field(data, KeyNodes);
    if nodes.None? || !IsArray(nodes.value) then FixOutcome(indexMsgs, [])
    else
      var (fixed, changed, msgs) := FixDocument(Values(index), data, env.sprintf);
      if changed then
        var backup := BackupPath(path, stamp);
        var encoded := encode(fixed);
        FixOutcome(
          indexMsgs + msgs + [NewMessage(TypeNotice, MsgBackup, [FileName(backup)], env.sprintf)],
          [Copy(path, backup), Write(path, encoded), Write(path, FixEmptyObjects(encoded))])
      else
        FixOutcome(indexMsgs + msgs + [NewMessage(TypeNotice, MsgNoChanges, [], env.sprintf)], [])
  }

  /** The document has nodes and the loop changed one of them. */
  predicate Changes(env: Env, data: Json)
  {
    Field(data, KeyNodes).Some? && IsArray(Field(data, KeyNodes).value)
    && FixDocument(Values(BuildFileIndex(env).0), data, env.sprintf).1
  }

  /** The three writes of a change: the backup copy, the encoded document,
      and the document again with the empty-object repair. */
  predicate BackupThenWrite(ops: seq<FileOp>, path: Path, stamp: string)
  {
    |ops| == 3 && ops[0] == Copy(path, BackupPath(path, stamp)) && ops[1].Write? && ops[1].target == path
    && ops[2] == Write(path, FixEmptyObjects(ops[1].content))
  }

  /** Nothing is written unless a node changed; a change copies the file to
      its backup first, writes the encoded document, then writes it again
      with the empty-object repair. */
  lemma FixPathsWrites(env: Env, path: Path, data: Json, encode: Json -> string, stamp: string)
    ensures var r := FixPaths(env, path, data, encode, stamp);
      (|r.ops| == 0 || |r.ops| == 3)
      && (|r.ops| == 3 ==> BackupThenWrite(r.ops, path, stamp))
      && (|r.ops| == 3 <==> Changes(env, data))
  {
  }

  /** Without a change, the last message says so. */
  lemma NoChangeNotice(env: Env, path: Path, data: Json, encode: Json -> string, stamp: string)
    requires Field(data, KeyNodes).Some? && IsArray(Field(data, KeyNodes).value)
    requires !FixDocument(Values(BuildFileIndex(env).0), data, env.sprintf).1
    ensures var r := FixPaths(env, path, data, encode, stamp);
      |r.ops| == 0 && |r.messages| > 0 && r.messages[|r.messages| - 1] == Message(TypeNotice, MsgNoChanges)
  {
  }
}
