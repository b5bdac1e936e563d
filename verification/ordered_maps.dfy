/** PHP arrays used as dictionaries: key/value pairs in insertion order, each
    key at most once. Assigning to an existing key keeps its position;
    assigning to a new key appends. */
module OrderedMaps {
  import opened Wrappers

  type OMap<K, V> = seq<(K, V)>

  predicate UniqueKeys<K(==), V>(m: OMap<K, V>)
  {
    forall i, j :: 0 <= i < j < |m| ==> m[i].0 != m[j].0
  }

  predicate HasKey<K(==), V>(m: OMap<K, V>, k: K)
  {
    exists i :: 0 <= i < |m| && m[i].0 == k
  }

  /** The position of the first pair with key `k`. */
  function FirstIndex<K(==), V>(m: OMap<K, V>, k: K): (i: nat)
    requires HasKey(m, k)
    ensures i < |m| && m[i].0 == k
    ensures forall j :: 0 <= j < i ==> m[j].0 != k
  {
    if m[0].0 == k then 0
    else
      assert HasKey(m[1..], k) by {
        var i :| 0 <= i < |m| && m[i].0 == k;
        assert m[1..][i - 1].0 == k;
      }
      FirstIndex(m[1..], k) + 1
  }

  /** The first position holding `k` is the one `FirstIndex` finds. */
  lemma FirstIndexIs<K, V>(m: OMap<K, V>, k: K, i: int)
    requires 0 <= i < |m| && m[i].0 == k
    requires forall j :: 0 <= j < i ==> m[j].0 != k
    ensures HasKey(m, k) && FirstIndex(m, k) == i
  {
    var f := FirstIndex(m, k);
    assert !(f < i) && !(i < f);
  }

  /** `$m[$k] ?? null`: the value of the first pair with key `k`. */
  function Get<K(==), V>(m: OMap<K, V>, k: K): (r: Option<V>)
    ensures r.Some? <==> HasKey(m, k)
    ensures r.Some? ==> exists i :: 0 <= i < |m| && m[i] == (k, r.value)
  {
    if HasKey(m, k) then Some(m[FirstIndex(m, k)].1) else None
  }

  /** In a map with unique keys, the pair at index `i` is what `Get` finds. */
  lemma GetAt<K, V>(m: OMap<K, V>, i: int)
    requires UniqueKeys(m) && 0 <= i < |m|
    ensures Get(m, m[i].0) == Some(m[i].1)
  {
    FirstIndexIs(m, m[i].0, i);
  }

  /** `$m[$k] = $v`: overwrite the first pair with key `k` in place, or append. */
  function Put<K(==), V>(m: OMap<K, V>, k: K, v: V): (r: OMap<K, V>)
    ensures HasKey(m, k) ==> |r| == |m|
    ensures HasKey(m, k) ==> forall i :: 0 <= i < |m| ==> r[i] == if i == FirstIndex(m, k) then (k, v) else m[i]
    ensures !HasKey(m, k) ==> r == m + [(k, v)]
  {
    if HasKey(m, k) then m[FirstIndex(m, k) := (k, v)] else m + [(k, v)]
  }

  /** A lookup after `Put` sees the new value under `k` and the old ones elsewhere. */
  lemma PutGet<K, V>(m: OMap<K, V>, k: K, v: V)
    ensures Get(Put(m, k, v), k) == Some(v)
    ensures forall k' :: k' != k ==> Get(Put(m, k, v), k') == Get(m, k')
  {
    var r := Put(m, k, v);
    if HasKey(m, k) {
      FirstIndexIs(r, k, FirstIndex(m, k));
    } else {
      FirstIndexIs(r, k, |m|);
    }
    forall k' | k' != k ensures Get(r, k') == Get(m, k') {
      if HasKey(m, k') {
        FirstIndexIs(r, k', FirstIndex(m, k'));
      }
    }
  }

  /** `Put` keeps the keys unique. */
  lemma PutUnique<K, V>(m: OMap<K, V>, k: K, v: V)
    requires UniqueKeys(m)
    ensures UniqueKeys(Put(m, k, v))
  {
  }

  /** `Put` keeps the order of the keys, adding `k` at the end when it is new. */
  lemma PutKeys<K, V>(m: OMap<K, V>, k: K, v: V)
    ensures Keys(Put(m, k, v)) == if HasKey(m, k) then Keys(m) else Keys(m) + [k]
  {
  }

  /** Writing back the value a key already has changes nothing. */
  lemma PutSame<K, V>(m: OMap<K, V>, k: K, v: V)
    requires Get(m, k) == Some(v)
    ensures Put(m, k, v) == m
  {
  }

  /** `unset($m[$k])`: drop the pairs with key `k`, keeping the order of the rest. */
  function Remove<K(==), V>(m: OMap<K, V>, k: K): (r: OMap<K, V>)
    ensures |r| <= |m|
    ensures forall i :: 0 <= i < |r| ==> r[i] in m && r[i].0 != k
    ensures forall i :: 0 <= i < |m| && m[i].0 != k ==> m[i] in r
  {
    if |m| == 0 then []
    else
      var rest := Remove(m[1..], k);
      assert forall i :: 1 <= i < |m| ==> m[i] == m[1..][i - 1];
      assert forall i :: 0 <= i < |rest| ==> rest[i] in m;
      if m[0].0 == k then rest else [m[0]] + rest
  }

  /** After `Remove` the key is gone. */
  lemma {:induction false} RemoveDropsKey<K, V>(m: OMap<K, V>, k: K)
    ensures !HasKey(Remove(m, k), k)
  {
    var r := Remove(m, k);
    forall i | 0 <= i < |r| ensures r[i].0 != k {
    }
  }

  /** Removing a key that is not there changes nothing. */
  lemma {:induction false} RemoveAbsent<K, V>(m: OMap<K, V>, k: K)
    requires !HasKey(m, k)
    ensures Remove(m, k) == m
  {
    if |m| > 0 {
      assert !HasKey(m[1..], k) by {
        forall i | 0 <= i < |m[1..]| ensures m[1..][i].0 != k {
          assert m[1..][i] == m[i + 1];
        }
      }
      RemoveAbsent(m[1..], k);
      assert m == [m[0]] + m[1..];
    }
  }

  /** Removing keeps the remaining keys unique. */
  lemma {:induction false} RemoveUnique<K, V>(m: OMap<K, V>, k: K)
    requires UniqueKeys(m)
    ensures UniqueKeys(Remove(m, k))
  {
    if |m| > 0 {
      var rest := Remove(m[1..], k);
      assert UniqueKeys(m[1..]) by {
        forall i, j | 0 <= i < j < |m[1..]| ensures m[1..][i].0 != m[1..][j].0 {
          assert m[1..][i] == m[i + 1] && m[1..][j] == m[j + 1];
        }
      }
      RemoveUnique(m[1..], k);
      forall i | 0 <= i < |rest| ensures rest[i].0 != m[0].0 {
        var j :| 0 <= j < |m[1..]| && m[1..][j] == rest[i];
        assert m[j + 1] == rest[i];
      }
    }
  }

  /** After `Remove` the key is gone; without it, nothing changed; the
      remaining keys stay unique. */
  lemma RemoveFacts<K, V>(m: OMap<K, V>, k: K)
    ensures !HasKey(Remove(m, k), k)
    ensures !HasKey(m, k) ==> Remove(m, k) == m
    ensures UniqueKeys(m) ==> UniqueKeys(Remove(m, k))
  {
    RemoveDropsKey(m, k);
    if !HasKey(m, k) {
      RemoveAbsent(m, k);
    }
    if UniqueKeys(m) {
      RemoveUnique(m, k);
    }
  }

  /** Removing a key leaves every other lookup as it was. */
  lemma RemoveGet<K, V>(m: OMap<K, V>, k: K, k': K)
    requires UniqueKeys(m) && k' != k
    ensures Get(Remove(m, k), k') == Get(m, k')
  {
    var r := Remove(m, k);
    RemoveFacts(m, k);
    if HasKey(m, k') {
      var i := FirstIndex(m, k');
      assert m[i] in r;
      var j :| 0 <= j < |r| && r[j] == m[i];
      FirstIndexIs(m, k', i);
      GetAt(m, i);
      GetAt(r, j);
    } else {
      assert forall j :: 0 <= j < |r| ==> r[j] in m;
    }
  }

  /** The keys, in order. */
  function Keys<K, V>(m: OMap<K, V>): (r: seq<K>)
    ensures |r| == |m| && forall i :: 0 <= i < |m| ==> r[i] == m[i].0
  {
    if |m| == 0 then [] else [m[0].0] + Keys(m[1..])
  }

  /** `$m[$k][] = $x`: appends to the list under `k`, creating the list
      when the key is missing. */
  function Append<K(==), V>(m: OMap<K, seq<V>>, k: K, x: V): (r: OMap<K, seq<V>>)
    requires UniqueKeys(m)
    ensures UniqueKeys(r)
  {
    PutUnique(m, k, Get(m, k).GetOr([]) + [x]);
    Put(m, k, Get(m, k).GetOr([]) + [x])
  }

  /** Appending extends the list under `k` and leaves the other lists alone. */
  lemma AppendGet<K, V>(m: OMap<K, seq<V>>, k: K, x: V, k': K)
    requires UniqueKeys(m)
    ensures Get(Append(m, k, x), k') == if k' == k then Some(Get(m, k).GetOr([]) + [x]) else Get(m, k')
  {
    PutGet(m, k, Get(m, k).GetOr([]) + [x]);
  }

  /** A key is present exactly when it is in the list of keys. */
  lemma KeysHasKey<K, V>(m: OMap<K, V>, k: K)
    ensures HasKey(m, k) <==> k in Keys(m)
  {
    if HasKey(m, k) {
      var i :| 0 <= i < |m| && m[i].0 == k;
      assert Keys(m)[i] == k;
    }
  }

  /** `array_values($m)`: the values, in order. */
  function Values<K, V>(m: OMap<K, V>): (r: seq<V>)
    ensures |r| == |m| && forall i :: 0 <= i < |m| ==> r[i] == m[i].1
  {
    if |m| == 0 then [] else [m[0].1] + Values(m[1..])
  }
}
