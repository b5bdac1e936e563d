/** Upscaled-image detection (`detectUpscaledImages`): the records that are
    not yet linked are grouped by their settings hash, and every group of
    exactly two records, one regular and one upscaled, links the regular
    record to its upscaled twin. */
module UpscaleLinker {
  import opened Wrappers
  import opened OrderedMaps
  import opened Properties
  import opened Images

  /** The folder filter, the LoRA catalog the settings text reads and the
      digest function. */
  datatype Ctx = Ctx(folder: Option<string>, cat: LoRACatalog, md5: string -> string)

  function Hash(c: Ctx, i: ImageInfo): string
  {
    SettingsHash(i, c.cat, c.md5)
  }

  /** A record takes part when it is in the requested folder (if any) and has
      no upscaled image assigned yet. */
  predicate Eligible(c: Ctx, i: ImageInfo)
  {
    (c.folder.None? || i.props.GetFolderName() == c.folder.value)
    && i.props.GetUpscaledImage().None?
  }

  /** The hash under which each record is grouped, or None for a record
      that does not take part. */
  function Tags(items: seq<ImageInfo>, c: Ctx): (t: seq<Option<string>>)
    ensures |t| == |items|
    ensures forall k :: 0 <= k < |items| ==> (t[k].Some? <==> Eligible(c, items[k]))
    ensures forall k :: 0 <= k < |items| && t[k].Some? ==> t[k].value == Hash(c, items[k])
  {
    seq(|items|, k requires 0 <= k < |items| => if Eligible(c, items[k]) then Some(Hash(c, items[k])) else None)
  }

  /** The positions below `n` tagged `h`, in increasing order: the reference
      definition of a hash group. */
  function Members(t: seq<Option<string>>, n: nat, h: string): (r: seq<nat>)
    requires n <= |t|
    ensures forall j :: 0 <= j < |r| ==> r[j] < n && t[r[j]] == Some(h)
    ensures forall j1, j2 :: 0 <= j1 < j2 < |r| ==> r[j1] < r[j2]
  {
    if n == 0 then []
    else
      var prev := Members(t, n - 1, h);
      if t[n - 1] == Some(h) then prev + [n - 1] else prev
  }

  /** Every position below `n` tagged `h` is in the group. */
  lemma {:induction false} MembersComplete(t: seq<Option<string>>, n: nat, h: string, i: nat)
    requires i < n <= |t|
    ensures t[i] == Some(h) ==> i in Members(t, n, h)
  {
    if i < n - 1 {
      MembersComplete(t, n - 1, h, i);
    }
  }

  /** When exactly the positions `a < b` are tagged `h`, the group of `h` is
      `[a, b]`. */
  lemma {:induction false} MembersOfPair(t: seq<Option<string>>, n: nat, h: string, a: nat, b: nat)
    requires n <= |t| && a < b < |t|
    requires t[a] == Some(h) && t[b] == Some(h)
    requires forall x :: 0 <= x < |t| && x != a && x != b ==> t[x] != Some(h)
    ensures Members(t, n, h) == (if a < n then [a] else []) + (if b < n then [b] else [])
  {
    if n > 0 {
      MembersOfPair(t, n - 1, h, a, b);
      var prev := Members(t, n - 1, h);
      if n - 1 == a {
        assert prev == [] && Members(t, n, h) == [a];
      } else if n - 1 == b {
        assert prev == [a] && Members(t, n, h) == [a, b];
      } else {
        assert t[n - 1] != Some(h);
      }
    }
  }

  /** One iteration of `detectSettingHashes()`: an eligible record is
      appended to the list under its hash. */
  function AddTag(g: OMap<string, seq<nat>>, tag: Option<string>, i: nat): (r: OMap<string, seq<nat>>)
    requires UniqueKeys(g)
    ensures UniqueKeys(r)
  {
    match tag
    case None => g
    case Some(h) => Append(g, h, i)
  }

  /** `detectSettingHashes()`: one pass over the records, appending each
      eligible one to the list under its hash. */
  function Groups(t: seq<Option<string>>, n: nat): (g: OMap<string, seq<nat>>)
    requires n <= |t|
    ensures UniqueKeys(g)
  {
    if n == 0 then [] else AddTag(Groups(t, n - 1), t[n - 1], n - 1)
  }

  /** One iteration extends the list of the record's own hash and no other. */
  lemma AddTagGet(g: OMap<string, seq<nat>>, tag: Option<string>, i: nat, h: string)
    requires UniqueKeys(g)
    ensures Get(AddTag(g, tag, i), h) == if tag == Some(h) then Some(Get(g, h).GetOr([]) + [i]) else Get(g, h)
  {
    match tag
    case None =>
    case Some(h') =>
      AppendGet(g, h', i, h);
  }

  /** One step of the pass extends the list of the record's own hash and
      no other. */
  lemma GroupsStep(t: seq<Option<string>>, n: nat, h: string)
    requires 0 < n <= |t|
    ensures Get(Groups(t, n), h) == if t[n - 1] == Some(h) then Some(Get(Groups(t, n - 1), h).GetOr([]) + [n - 1]) else Get(Groups(t, n - 1), h)
  {
    AddTagGet(Groups(t, n - 1), t[n - 1], n - 1, h);
  }

  /** The list under a hash is exactly the reference group, and a hash with
      no eligible record has no list. */
  lemma {:induction false} GroupsAreMembers(t: seq<Option<string>>, n: nat, h: string)
    requires n <= |t|
    ensures Get(Groups(t, n), h) == if Members(t, n, h) == [] then None else Some(Members(t, n, h))
  {
    if n > 0 {
      var before := Members(t, n - 1, h);
      var prev := Get(Groups(t, n - 1), h);
      assert prev == if before == [] then None else Some(before) by {
        GroupsAreMembers(t, n - 1, h);
      }
      GroupsStep(t, n, h);
      if t[n - 1] == Some(h) {
        assert Members(t, n, h) == before + [n - 1];
      } else {
        assert Members(t, n, h) == before;
      }
    }
  }

  /** Every index in a group is a valid position. */
  predicate InRange(items: seq<ImageInfo>, idxs: seq<nat>)
  {
    forall j :: 0 <= j < |idxs| ==> idxs[j] < |items|
  }

  /** The body of the loop for one hash: only a group of two is handled; the
      regular record is the last one that is not upscaled, the upscaled one
      the last that is; with both found, the regular record is linked to the
      upscaled one. */
  function LinkGroup(items: seq<ImageInfo>, idxs: seq<nat>): (r: seq<ImageInfo>)
    requires InRange(items, idxs)
    ensures |r| == |items|
    ensures forall k :: 0 <= k < |items| && k !in idxs ==> r[k] == items[k]
  {
    if |idxs| != 2 then items
    else
      var a := idxs[0];
      var b := idxs[1];
      var regular := if !items[b].upscaled then Some(b) else if !items[a].upscaled then Some(a) else None;
      var upscaled := if items[b].upscaled then Some(b) else if items[a].upscaled then Some(a) else None;
      if regular.Some? && upscaled.Some? then
        items[regular.value := SetImageUpscaledImage(items[regular.value], items[upscaled.value].id)]
      else items
  }

  /** Linking changes a record's properties and flags only: every id and
      every upscaled flag stays as it was. */
  lemma LinkGroupKeeps(items: seq<ImageInfo>, idxs: seq<nat>, k: nat)
    requires InRange(items, idxs) && k < |items|
    ensures LinkGroup(items, idxs)[k].id == items[k].id
    ensures LinkGroup(items, idxs)[k].upscaled == items[k].upscaled
  {
  }

  /** What a group does to one of its records depends only on the records of
      the group. */
  lemma LinkGroupLocal(items: seq<ImageInfo>, other: seq<ImageInfo>, idxs: seq<nat>, k: nat)
    requires InRange(items, idxs) && |other| == |items|
    requires forall j :: 0 <= j < |idxs| ==> other[idxs[j]] == items[idxs[j]]
    requires k in idxs
    ensures LinkGroup(other, idxs)[k] == LinkGroup(items, idxs)[k]
  {
  }

  predicate AllInRange(items: seq<ImageInfo>, gs: OMap<string, seq<nat>>)
  {
    forall j :: 0 <= j < |gs| ==> InRange(items, gs[j].1)
  }

  /** No position is in two groups. */
  predicate Disjoint(gs: OMap<string, seq<nat>>)
  {
    forall j1, j2, k :: 0 <= j1 < j2 < |gs| && k in gs[j1].1 ==> k !in gs[j2].1
  }

  /** The `foreach` over the groups, in their order. */
  function LinkAll(items: seq<ImageInfo>, gs: OMap<string, seq<nat>>): (r: seq<ImageInfo>)
    requires AllInRange(items, gs)
    ensures |r| == |items|
    decreases |gs|
  {
    if |gs| == 0 then items
    else LinkAll(LinkGroup(items, gs[0].1), gs[1..])
  }

  /** Dropping the first group keeps the groups valid for the linked records
      and disjoint. */
  lemma LinkAllTail(items: seq<ImageInfo>, gs: OMap<string, seq<nat>>)
    requires AllInRange(items, gs) && Disjoint(gs) && |gs| > 0
    ensures AllInRange(LinkGroup(items, gs[0].1), gs[1..])
    ensures Disjoint(gs[1..])
    ensures forall j :: 0 <= j < |gs| - 1 ==> gs[1..][j] == gs[j + 1]
  {
    var rest := gs[1..];
    forall j | 0 <= j < |rest| ensures InRange(LinkGroup(items, gs[0].1), rest[j].1) {
      assert rest[j] == gs[j + 1];
    }
    forall j1, j2, i | 0 <= j1 < j2 < |rest| && i in rest[j1].1 ensures i !in rest[j2].1 {
      assert rest[j1] == gs[j1 + 1] && rest[j2] == gs[j2 + 1];
    }
  }

  /** A later group sees the records of its own positions as they were
      before the first group was linked. */
  lemma LinkLaterGroup(items: seq<ImageInfo>, gs: OMap<string, seq<nat>>, j: nat, k: nat)
    requires AllInRange(items, gs) && Disjoint(gs)
    requires 0 < j < |gs| && k in gs[j].1
    ensures LinkGroup(LinkGroup(items, gs[0].1), gs[j].1)[k] == LinkGroup(items, gs[j].1)[k]
  {
    var first := LinkGroup(items, gs[0].1);
    forall i | 0 <= i < |gs[j].1| ensures first[gs[j].1[i]] == items[gs[j].1[i]] {
      assert gs[j].1[i] !in gs[0].1;
    }
    LinkGroupLocal(items, first, gs[j].1, k);
  }

  /** With disjoint groups, each record sees only its own group, as if that
      group had been handled first. */
  lemma {:induction false} LinkAllAt(items: seq<ImageInfo>, gs: OMap<string, seq<nat>>, k: nat)
    requires AllInRange(items, gs) && Disjoint(gs) && k < |items|
    ensures (forall j :: 0 <= j < |gs| ==> k !in gs[j].1) ==> LinkAll(items, gs)[k] == items[k]
    ensures forall j :: 0 <= j < |gs| && k in gs[j].1 ==> LinkAll(items, gs)[k] == LinkGroup(items, gs[j].1)[k]
    decreases |gs|
  {
    if |gs| > 0 {
      var first := LinkGroup(items, gs[0].1);
      var rest := gs[1..];
      LinkAllTail(items, gs);
      LinkAllAt(first, rest, k);
      assert LinkAll(items, gs) == LinkAll(first, rest);
      forall j | 0 <= j < |gs| && k in gs[j].1 ensures LinkAll(items, gs)[k] == LinkGroup(items, gs[j].1)[k] {
        if j == 0 {
          assert forall j' :: 0 <= j' < |rest| ==> k !in rest[j'].1;
        } else {
          assert rest[j - 1] == gs[j];
          LinkLaterGroup(items, gs, j, k);
        }
      }
      if forall j :: 0 <= j < |gs| ==> k !in gs[j].1 {
        assert k !in gs[0].1;
      }
    }
  }

  /** The groups of `detectSettingHashes()` are valid positions, disjoint,
      and each is the reference group of its hash. */
  lemma GroupsShape(t: seq<Option<string>>)
    ensures forall j :: 0 <= j < |Groups(t, |t|)| ==> Groups(t, |t|)[j].1 == Members(t, |t|, Groups(t, |t|)[j].0)
    ensures Disjoint(Groups(t, |t|))
    ensures forall j, i :: 0 <= j < |Groups(t, |t|)| && 0 <= i < |Groups(t, |t|)[j].1| ==> Groups(t, |t|)[j].1[i] < |t|
  {
    var g := Groups(t, |t|);
    forall j | 0 <= j < |g| ensures g[j].1 == Members(t, |t|, g[j].0) {
      GetAt(g, j);
      GroupsAreMembers(t, |t|, g[j].0);
    }
  }

  /** `detectUpscaledImages()` on the records of the collection, in the order
      the collection lists them. */
  function DetectUpscaledImages(items: seq<ImageInfo>, c: Ctx): (r: seq<ImageInfo>)
    ensures |r| == |items|
    ensures forall k :: 0 <= k < |items| ==> r[k].id == items[k].id && r[k].upscaled == items[k].upscaled
  {
    var t := Tags(items, c);
    GroupsShape(t);
    var g := Groups(t, |t|);
    assert AllInRange(items, g);
    assert forall k :: 0 <= k < |items| ==> LinkAll(items, g)[k].id == items[k].id && LinkAll(items, g)[k].upscaled == items[k].upscaled by {
      forall k | 0 <= k < |items|
        ensures LinkAll(items, g)[k].id == items[k].id && LinkAll(items, g)[k].upscaled == items[k].upscaled
      {
        LinkAllAt(items, g, k);
        forall j | 0 <= j < |g| && k in g[j].1 ensures LinkGroup(items, g[j].1)[k].id == items[k].id && LinkGroup(items, g[j].1)[k].upscaled == items[k].upscaled {
          LinkGroupKeeps(items, g[j].1, k);
        }
      }
    }
    LinkAll(items, g)
  }

  /** The record the one at `k` gets linked to, stated without the grouping
      loop: `k` is an eligible regular record, and its hash group holds
      exactly one other record, which is upscaled. */
  function Partner(items: seq<ImageInfo>, c: Ctx, k: nat): (r: Option<nat>)
    requires k < |items|
    ensures r.Some? ==> r.value < |items| && r.value != k
  {
    var t := Tags(items, c);
    var m := Members(t, |t|, Hash(c, items[k]));
    if Eligible(c, items[k]) && !items[k].upscaled && |m| == 2 then
      var o := if m[0] == k then m[1] else m[0];
      if items[o].upscaled then Some(o) else None
    else None
  }

  /** A partner is an eligible upscaled record with the same hash, and no
      third eligible record shares that hash; and the other way round. */
  lemma PartnerMeans(items: seq<ImageInfo>, c: Ctx, k: nat, u: nat)
    requires k < |items| && u < |items|
    ensures Partner(items, c, k) == Some(u) <==> PartnerCondition(items, c, k, u)
  {
    PartnerSound(items, c, k, u);
    PartnerComplete(items, c, k, u);
  }

  /** What makes `u` the partner of `k`: both eligible, `k` the original and
      `u` the upscale, the same hash, and no third eligible record with it. */
  predicate PartnerCondition(items: seq<ImageInfo>, c: Ctx, k: nat, u: nat)
    requires k < |items| && u < |items|
  {
    && u != k && Eligible(c, items[k]) && Eligible(c, items[u])
    && !items[k].upscaled && items[u].upscaled
    && Hash(c, items[u]) == Hash(c, items[k])
    && forall x :: 0 <= x < |items| && x != k && x != u && Eligible(c, items[x]) ==> Hash(c, items[x]) != Hash(c, items[k])
  }

  lemma PartnerSound(items: seq<ImageInfo>, c: Ctx, k: nat, u: nat)
    requires k < |items| && u < |items|
    ensures Partner(items, c, k) == Some(u) ==> PartnerCondition(items, c, k, u)
  {
    if Partner(items, c, k) == Some(u) {
      var t := Tags(items, c);
      var h := Hash(c, items[k]);
      var m := Members(t, |t|, h);
      MembersComplete(t, |t|, h, k);
      assert m[0] == k || m[1] == k;
      forall x | 0 <= x < |items| && x != k && x != u && Eligible(c, items[x])
        ensures Hash(c, items[x]) != h
      {
        MembersComplete(t, |t|, h, x);
      }
    }
  }

  lemma PartnerComplete(items: seq<ImageInfo>, c: Ctx, k: nat, u: nat)
    requires k < |items| && u < |items|
    ensures PartnerCondition(items, c, k, u) ==> Partner(items, c, k) == Some(u)
  {
    if PartnerCondition(items, c, k, u) {
      var t := Tags(items, c);
      var a := if k < u then k else u;
      var b := if k < u then u else k;
      MembersOfPair(t, |t|, Hash(c, items[k]), a, b);
      assert Members(t, |t|, Hash(c, items[k])) == [a, b];
    }
  }

  /** The group of an eligible record, linked, gives that record what its
      partner says. */
  lemma {:induction false} LinkGroupPartner(items: seq<ImageInfo>, c: Ctx, k: nat)
    requires k < |items| && Eligible(c, items[k])
    ensures InRange(items, Members(Tags(items, c), |items|, Hash(c, items[k])))
    ensures LinkGroup(items, Members(Tags(items, c), |items|, Hash(c, items[k])))[k] ==
      match Partner(items, c, k)
      case None => items[k]
      case Some(u) => SetImageUpscaledImage(items[k], items[u].id)
  {
    var t := Tags(items, c);
    var m := Members(t, |t|, Hash(c, items[k]));
    MembersComplete(t, |t|, Hash(c, items[k]), k);
    if |m| == 2 {
      assert m[0] == k || m[1] == k;
    }
  }

  /** After detection, a record is linked to its partner's id when it has
      one, and is otherwise as it was. */
  lemma DetectLinksPartners(items: seq<ImageInfo>, c: Ctx, k: nat)
    requires k < |items|
    ensures DetectUpscaledImages(items, c)[k] ==
      match Partner(items, c, k)
      case None => items[k]
      case Some(u) => SetImageUpscaledImage(items[k], items[u].id)
  {
    var t := Tags(items, c);
    GroupsShape(t);
    var g := Groups(t, |t|);
    LinkAllAt(items, g, k);
    if t[k].Some? {
      var h := t[k].value;
      var m := Members(t, |t|, h);
      MembersComplete(t, |t|, h, k);
      GroupsAreMembers(t, |t|, h);
      var j :| 0 <= j < |g| && g[j] == (h, m);
      LinkGroupPartner(items, c, k);
    } else {
      forall j | 0 <= j < |g| ensures k !in g[j].1 {
        assert forall i :: 0 <= i < |g[j].1| ==> t[g[j].1[i]].Some?;
      }
    }
  }

  /** A record that already has an upscaled image, or lies outside the
      requested folder, is left untouched. */
  lemma IneligibleUntouched(items: seq<ImageInfo>, c: Ctx, k: nat)
    requires k < |items| && !Eligible(c, items[k])
    ensures DetectUpscaledImages(items, c)[k] == items[k]
  {
    DetectLinksPartners(items, c, k);
  }

  /** Detection links a record to its partner: the record then names the
      partner's id as its upscaled image and is marked as modified. */
  lemma LinkedRecordHasUpscaled(items: seq<ImageInfo>, c: Ctx, k: nat, u: nat)
    requires k < |items| && Partner(items, c, k) == Some(u)
    ensures items[u].id != "" ==> DetectUpscaledImages(items, c)[k].props.GetUpscaledImage() == Some(items[u].id)
    ensures DetectUpscaledImages(items, c)[k].modified
  {
    DetectLinksPartners(items, c, k);
  }
}
