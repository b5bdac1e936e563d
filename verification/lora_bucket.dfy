/** The bucket of LoRA (weighted modifier) records from the reference
    catalog (`LoRABucket`): the distinct models, the records grouped by
    category, and the records of one model. */
module LoRABuckets {
  import opened Wrappers
  import opened Strings
  import opened OrderedMaps

  /** A catalog record (`LoRA`): its ID and the string fields the bucket
      reads. */
  datatype LoRA = LoRA(id: string, labelText: string, file: string, category: string, model: string)

  /** The records of a bucket, in the order `getAll()` returns them. */
  datatype Bucket = Bucket(items: seq<LoRA>)

  // ---------------------------------------------------------------------------
  // Order-preserving selection
  // ---------------------------------------------------------------------------

  /** The elements of `xs` that satisfy `p`, in their order in `xs`. */
  function Filter(xs: seq<LoRA>, p: LoRA -> bool): (r: seq<LoRA>)
    ensures |r| <= |xs|
    ensures forall x :: x in r <==> x in xs && p(x)
  {
    if |xs| == 0 then []
    else
      var init := xs[..|xs| - 1];
      var last := xs[|xs| - 1];
      assert xs == init + [last];
      Filter(init, p) + if p(last) then [last] else []
  }

  /** Appending one element appends it to the selection when it is
      selected. */
  lemma FilterSnoc(xs: seq<LoRA>, x: LoRA, p: LoRA -> bool)
    ensures Filter(xs + [x], p) == Filter(xs, p) + if p(x) then [x] else []
  {
    assert (xs + [x])[..|xs|] == xs;
  }

  /** Each selected element occurs as often as in the input, every other one
      not at all. */
  lemma {:induction false} FilterCount(xs: seq<LoRA>, p: LoRA -> bool)
    ensures forall x :: multiset(Filter(xs, p))[x] == if p(x) then multiset(xs)[x] else 0
  {
    if |xs| > 0 {
      var init := xs[..|xs| - 1];
      var last := xs[|xs| - 1];
      FilterCount(init, p);
      assert xs == init + [last];
      FilterSnoc(init, last, p);
    } else {
      forall x ensures multiset(Filter(xs, p))[x] == if p(x) then multiset(xs)[x] else 0 {
      }
    }
  }

  /** Conditions that agree on every element select the same elements. */
  lemma {:induction false} FilterSameCondition(xs: seq<LoRA>, p: LoRA -> bool, q: LoRA -> bool)
    requires forall x :: p(x) == q(x)
    ensures Filter(xs, p) == Filter(xs, q)
  {
    if |xs| > 0 {
      FilterSameCondition(xs[..|xs| - 1], p, q);
    }
  }

  /** `a` can be obtained from `b` by deleting elements. */
  predicate IsSubsequence<T(==)>(a: seq<T>, b: seq<T>)
    decreases |b|
  {
    if |a| == 0 then true
    else if |b| == 0 then false
    else if a[|a| - 1] == b[|b| - 1] then IsSubsequence(a[..|a| - 1], b[..|b| - 1])
    else IsSubsequence(a, b[..|b| - 1])
  }

  /** Dropping the last element of a subsequence keeps it a subsequence. */
  lemma {:induction false} SubsequenceDropLast<T>(a: seq<T>, b: seq<T>)
    requires |a| > 0 && IsSubsequence(a, b)
    ensures IsSubsequence(a[..|a| - 1], b)
    decreases |b|, 0
  {
    var a' := a[..|a| - 1];
    if |a'| > 0 {
      if a[|a| - 1] == b[|b| - 1] {
        SubsequenceExtend(a', b[..|b| - 1], b[|b| - 1]);
        assert b[..|b| - 1] + [b[|b| - 1]] == b;
      } else {
        SubsequenceDropLast(a, b[..|b| - 1]);
        SubsequenceExtend(a', b[..|b| - 1], b[|b| - 1]);
        assert b[..|b| - 1] + [b[|b| - 1]] == b;
      }
    }
  }

  /** A subsequence stays one when an element is appended to the longer
      sequence. */
  lemma {:induction false} SubsequenceExtend<T>(a: seq<T>, b: seq<T>, x: T)
    requires IsSubsequence(a, b)
    ensures IsSubsequence(a, b + [x])
    decreases |b|, 1
  {
    var b' := b + [x];
    assert b'[..|b'| - 1] == b;
    if |a| > 0 && a[|a| - 1] == x {
      SubsequenceDropLast(a, b);
    }
  }

  /** Selection keeps the selected elements in their original order. */
  lemma {:induction false} FilterIsSubsequence(xs: seq<LoRA>, p: LoRA -> bool)
    ensures IsSubsequence(Filter(xs, p), xs)
  {
    if |xs| > 0 {
      var init := xs[..|xs| - 1];
      var last := xs[|xs| - 1];
      FilterIsSubsequence(init, p);
      var f := Filter(init, p);
      if p(last) {
        assert Filter(xs, p) == f + [last];
        assert (f + [last])[..|f|] == f;
      } else {
        assert Filter(xs, p) == f;
        SubsequenceExtend(f, init, last);
        assert init + [last] == xs;
      }
    }
  }

  /** Selecting from a concatenation concatenates the selections. */
  lemma {:induction false} FilterAppend(xs: seq<LoRA>, ys: seq<LoRA>, p: LoRA -> bool)
    ensures Filter(xs + ys, p) == Filter(xs, p) + Filter(ys, p)
    decreases |ys|
  {
    if |ys| > 0 {
      var ys' := ys[..|ys| - 1];
      var y := ys[|ys| - 1];
      var tail := if p(y) then [y] else [];
      assert (xs + ys)[..|xs + ys| - 1] == xs + ys';
      assert Filter(xs + ys, p) == Filter(xs + ys', p) + tail;
      assert Filter(ys, p) == Filter(ys', p) + tail;
      FilterAppend(xs, ys', p);
    } else {
      assert xs + ys == xs;
    }
  }

  // ---------------------------------------------------------------------------
  // String order
  // ---------------------------------------------------------------------------

  /** `strcmp(a, b) < 0`: `a` comes first in code-point order, a proper
      prefix before the longer string. */
  predicate Before(a: string, b: string)
    decreases |a|
  {
    if |a| == 0 then |b| > 0
    else if |b| == 0 then false
    else if a[0] != b[0] then a[0] < b[0]
    else Before(a[1..], b[1..])
  }

  lemma {:induction false} BeforeIrreflexive(a: string)
    ensures !Before(a, a)
    decreases |a|
  {
    if |a| > 0 {
      BeforeIrreflexive(a[1..]);
    }
  }

  lemma {:induction false} BeforeTransitive(a: string, b: string, c: string)
    requires Before(a, b) && Before(b, c)
    ensures Before(a, c)
    decreases |a|
  {
    if |a| > 0 && a[0] == b[0] && b[0] == c[0] {
      BeforeTransitive(a[1..], b[1..], c[1..]);
    }
  }

  /** Two different strings are ordered one way or the other. */
  lemma {:induction false} BeforeTotal(a: string, b: string)
    requires a != b
    ensures Before(a, b) || Before(b, a)
    decreases |a|
  {
    if |a| > 0 && |b| > 0 && a[0] == b[0] {
      assert a == [a[0]] + a[1..] && b == [b[0]] + b[1..];
      BeforeTotal(a[1..], b[1..]);
    }
  }

  lemma {:induction false} BeforeAsymmetric(a: string, b: string)
    requires Before(a, b)
    ensures !Before(b, a)
    decreases |a|
  {
    if |a| > 0 && a[0] == b[0] {
      BeforeAsymmetric(a[1..], b[1..]);
    }
  }

  /** Each string comes before the next one. */
  predicate StrictlySorted(s: seq<string>)
  {
    forall i :: 0 < i < |s| ==> Before(s[i - 1], s[i])
  }

  /** A strictly sorted sequence has each element once, each before every
      later one. */
  lemma {:induction false} StrictlySortedOrder(s: seq<string>, i: int, j: int)
    requires StrictlySorted(s) && 0 <= i < j < |s|
    ensures Before(s[i], s[j])
    ensures s[i] != s[j]
    decreases j - i
  {
    if i + 1 < j {
      StrictlySortedOrder(s, i, j - 1);
      BeforeTransitive(s[i], s[j - 1], s[j]);
    }
    if s[i] == s[j] {
      BeforeIrreflexive(s[i]);
    }
  }

  predicate Distinct<T(==)>(s: seq<T>)
  {
    forall i, j :: 0 <= i < j < |s| ==> s[i] != s[j]
  }

  // ---------------------------------------------------------------------------
  // sort() of distinct strings
  // ---------------------------------------------------------------------------

  /** Inserts a new string into a strictly sorted sequence. */
  function Insert(x: string, s: seq<string>): (r: seq<string>)
    requires StrictlySorted(s) && x !in s
    ensures StrictlySorted(r)
    ensures |r| == |s| + 1
    ensures forall y :: y in r <==> y == x || y in s
    decreases |s|
  {
    if |s| == 0 then [x]
    else if Before(x, s[0]) then [x] + s
    else
      BeforeTotal(x, s[0]);
      var rest := Insert(x, s[1..]);
      assert forall y :: y in s <==> y == s[0] || y in s[1..] by {
        assert s == [s[0]] + s[1..];
      }
      var r := [s[0]] + rest;
      assert Before(s[0], rest[0]) by {
        assert rest[0] == x || rest[0] in s[1..];
        if rest[0] != x {
          var k :| 0 <= k < |s[1..]| && s[1..][k] == rest[0];
          StrictlySortedOrder(s, 0, k + 1);
        }
      }
      r
  }

  /** `sort()` on strings no two of which are equal: the result is strictly
      increasing and holds the same strings. */
  function SortStrings(s: seq<string>): (r: seq<string>)
    requires Distinct(s)
    ensures StrictlySorted(r)
    ensures |r| == |s|
    ensures forall y :: y in r <==> y in s
    decreases |s|
  {
    if |s| == 0 then []
    else
      var init := s[..|s| - 1];
      assert s == init + [s[|s| - 1]];
      Insert(s[|s| - 1], SortStrings(init))
  }

  /** Only one strictly sorted sequence holds a given set of strings, so any
      correct sort of the models gives the same list. */
  lemma {:induction false} SortedUnique(a: seq<string>, b: seq<string>)
    requires StrictlySorted(a) && StrictlySorted(b)
    requires forall y :: y in a <==> y in b
    ensures a == b
    decreases |a|
  {
    assert |a| > 0 ==> a[0] in a;
    assert |b| > 0 ==> b[0] in b;
    if |a| > 0 && |b| > 0 {
      assert a[0] == b[0] by {
        if a[0] != b[0] {
          var i :| 0 <= i < |b| && b[i] == a[0];
          var j :| 0 <= j < |a| && a[j] == b[0];
          StrictlySortedOrder(b, 0, i);
          StrictlySortedOrder(a, 0, j);
          BeforeAsymmetric(a[0], b[0]);
        }
      }
      assert a == [a[0]] + a[1..] && b == [b[0]] + b[1..];
      forall y | y in a[1..] ensures y in b[1..] {
        var k :| 0 <= k < |a[1..]| && a[1..][k] == y;
        StrictlySortedOrder(a, 0, k + 1);
        assert a[k + 1] == y && y in a;
        var m :| 0 <= m < |b| && b[m] == y;
        assert m != 0 && b[1..][m - 1] == y;
      }
      forall y | y in b[1..] ensures y in a[1..] {
        var k :| 0 <= k < |b[1..]| && b[1..][k] == y;
        StrictlySortedOrder(b, 0, k + 1);
        assert b[k + 1] == y && y in b;
        var m :| 0 <= m < |a| && a[m] == y;
        assert m != 0 && a[1..][m - 1] == y;
      }
      SortedUnique(a[1..], b[1..]);
      assert a == [a[0]] + a[1..] && b == [b[0]] + b[1..];
    }
  }

  // ---------------------------------------------------------------------------
  // getModels
  // ---------------------------------------------------------------------------

  /** The loop of `getModels()` over the first `n` values: a value is
      appended unless the list already holds it (`in_array` with strict
      comparison). */
  function Dedupe(values: seq<string>, n: nat): (r: seq<string>)
    requires n <= |values|
    ensures Distinct(r)
    ensures forall y :: y in r <==> y in values[..n]
    ensures |r| <= n
  {
    if n == 0 then []
    else
      var prev := Dedupe(values, n - 1);
      assert values[..n] == values[..n - 1] + [values[n - 1]];
      if values[n - 1] in prev then prev else prev + [values[n - 1]]
  }

  /** The model of each record, in bucket order. */
  function Models(b: Bucket): (r: seq<string>)
    ensures |r| == |b.items|
    ensures forall i :: 0 <= i < |r| ==> r[i] == b.items[i].model
  {
    seq(|b.items|, i requires 0 <= i < |b.items| => b.items[i].model)
  }

  /** `getModels()`: every model of the bucket once, sorted. */
  function GetModels(b: Bucket): (r: seq<string>)
    ensures StrictlySorted(r)
    ensures Distinct(r)
    ensures forall m :: m in r <==> exists i :: 0 <= i < |b.items| && b.items[i].model == m
  {
    var models := Models(b);
    var unique := Dedupe(models, |models|);
    assert models[..|models|] == models;
    var r := SortStrings(unique);
    forall i, j | 0 <= i < j < |r| ensures r[i] != r[j] {
      StrictlySortedOrder(r, i, j);
    }
    forall m ensures m in r <==> exists i :: 0 <= i < |b.items| && b.items[i].model == m {
      if m in r {
        var i :| 0 <= i < |models| && models[i] == m;
      }
    }
    r
  }

  /** `getModels()` is the one sorted list of the bucket's models: a list
      that is strictly increasing and holds exactly those models is it. */
  lemma GetModelsUnique(b: Bucket, other: seq<string>)
    requires StrictlySorted(other)
    requires forall m :: m in other <==> exists i :: 0 <= i < |b.items| && b.items[i].model == m
    ensures other == GetModels(b)
  {
    SortedUnique(other, GetModels(b));
  }

  // ---------------------------------------------------------------------------
  // getCategorized
  // ---------------------------------------------------------------------------

  /** The condition "belongs to category `c`". */
  function OfCategory(c: string): LoRA -> bool
  {
    (l: LoRA) => l.category == c
  }

  /** The records of category `c`, in bucket order. */
  function InCategory(items: seq<LoRA>, c: string): (r: seq<LoRA>)
    ensures forall l :: l in r <==> l in items && l.category == c
  {
    Filter(items, OfCategory(c))
  }

  /** The category of each record, in bucket order. */
  function Categories(items: seq<LoRA>): (r: seq<string>)
    ensures |r| == |items|
    ensures forall i :: 0 <= i < |r| ==> r[i] == items[i].category
  {
    seq(|items|, i requires 0 <= i < |items| => items[i].category)
  }

  /** The loop of `getCategorized()` over the first `n` records: each record
      is appended to the list under its category. */
  function Categorize(items: seq<LoRA>, n: nat): (r: OMap<string, seq<LoRA>>)
    requires n <= |items|
    ensures UniqueKeys(r)
  {
    if n == 0 then [] else Append(Categorize(items, n - 1), items[n - 1].category, items[n - 1])
  }

  /** The list under each category is the records of that category, in
      bucket order; a category without records has no key. */
  lemma {:induction false} CategorizeGet(items: seq<LoRA>, n: nat, c: string)
    requires n <= |items|
    ensures Get(Categorize(items, n), c) == if InCategory(items[..n], c) == [] then None else Some(InCategory(items[..n], c))
  {
    if n > 0 {
      var prev := Categorize(items, n - 1);
      var l := items[n - 1];
      CategorizeGet(items, n - 1, c);
      AppendGet(prev, l.category, l, c);
      assert items[..n] == items[..n - 1] + [l];
      assert items[..n][..n - 1] == items[..n - 1];
      FilterSnoc(items[..n - 1], l, OfCategory(c));
      var before := InCategory(items[..n - 1], c);
      assert Get(prev, c) == if before == [] then None else Some(before);
      if l.category == c {
        assert Get(prev, c).GetOr([]) == before;
        assert InCategory(items[..n], c) == before + [l];
      } else {
        assert InCategory(items[..n], c) == before;
      }
    }
  }

  /** The categories appear as keys in the order of their first record. */
  lemma {:induction false} CategorizeKeys(items: seq<LoRA>, n: nat)
    requires n <= |items|
    ensures Keys(Categorize(items, n)) == Dedupe(Categories(items), n)
  {
    if n > 0 {
      var prev := Categorize(items, n - 1);
      var l := items[n - 1];
      var cats := Categories(items);
      CategorizeKeys(items, n - 1);
      assert Categorize(items, n) == Put(prev, l.category, Get(prev, l.category).GetOr([]) + [l]);
      PutKeys(prev, l.category, Get(prev, l.category).GetOr([]) + [l]);
      KeysHasKey(prev, l.category);
      assert cats[n - 1] == l.category;
      assert Dedupe(cats, n) == if l.category in Dedupe(cats, n - 1) then Dedupe(cats, n - 1) else Dedupe(cats, n - 1) + [l.category];
    }
  }

  /** `getCategorized()` */
  function GetCategorized(b: Bucket): (r: OMap<string, seq<LoRA>>)
    ensures UniqueKeys(r)
    ensures forall i :: 0 <= i < |r| ==> |r[i].1| > 0
  {
    var r := Categorize(b.items, |b.items|);
    forall i | 0 <= i < |r| ensures |r[i].1| > 0 {
      GetAt(r, i);
      CategorizeGet(b.items, |b.items|, r[i].0);
    }
    r
  }

  /** Every record is placed under its own category as often as it occurs
      in the bucket, under no other category, and each list keeps bucket
      order. */
  lemma GetCategorizedPlacesOnce(b: Bucket, l: LoRA, c: string)
    requires l in b.items
    ensures Get(GetCategorized(b), l.category).Some?
    ensures multiset(Get(GetCategorized(b), l.category).value)[l] == multiset(b.items)[l]
    ensures c != l.category && Get(GetCategorized(b), c).Some? ==> l !in Get(GetCategorized(b), c).value
    ensures Get(GetCategorized(b), c).Some? ==> IsSubsequence(Get(GetCategorized(b), c).value, b.items)
  {
    var n := |b.items|;
    assert b.items[..n] == b.items;
    CategorizeGet(b.items, n, l.category);
    CategorizeGet(b.items, n, c);
    assert l in InCategory(b.items, l.category);
    FilterCount(b.items, OfCategory(l.category));
    FilterIsSubsequence(b.items, OfCategory(c));
  }

  /** The categories are the keys, in the order of their first record. */
  lemma GetCategorizedKeys(b: Bucket)
    ensures Distinct(Keys(GetCategorized(b)))
    ensures forall c :: c in Keys(GetCategorized(b)) <==> exists i :: 0 <= i < |b.items| && b.items[i].category == c
  {
    var n := |b.items|;
    CategorizeKeys(b.items, n);
    var cats := Categories(b.items);
    assert cats[..n] == cats;
    forall c ensures c in cats <==> exists i :: 0 <= i < n && b.items[i].category == c {
      if c in cats {
        var i :| 0 <= i < n && cats[i] == c;
      }
    }
  }

  // ---------------------------------------------------------------------------
  // getByModel, getByModelAsBucket
  // ---------------------------------------------------------------------------

  /** The model comparison of `getByModel()`: equal after `strtolower`. */
  predicate SameModel(l: LoRA, modelName: string)
  {
    ToLower(l.model) == ToLower(modelName)
  }

  /** The condition of `getByModel()` as a selection. */
  function OfModel(modelName: string): LoRA -> bool
  {
    (l: LoRA) => SameModel(l, modelName)
  }

  /** `getByModel()`: the records whose model matches, case-insensitively,
      in bucket order. */
  function GetByModel(b: Bucket, modelName: string): (r: seq<LoRA>)
    ensures forall l :: l in r <==> l in b.items && SameModel(l, modelName)
    ensures forall l :: multiset(r)[l] == if SameModel(l, modelName) then multiset(b.items)[l] else 0
    ensures IsSubsequence(r, b.items)
  {
    FilterIsSubsequence(b.items, OfModel(modelName));
    FilterCount(b.items, OfModel(modelName));
    Filter(b.items, OfModel(modelName))
  }

  /** The model name is compared in lower case, so its case does not
      matter. */
  lemma GetByModelIgnoresCase(b: Bucket, modelName: string)
    ensures GetByModel(b, modelName) == GetByModel(b, ToLower(modelName))
  {
    ToLowerIdempotent(modelName);
    FilterSameCondition(b.items, OfModel(modelName), OfModel(ToLower(modelName)));
  }

  /** `getByModelAsBucket()`: the same records as a new bucket. */
  function GetByModelAsBucket(b: Bucket, modelName: string): (r: Bucket)
    ensures r.items == GetByModel(b, modelName)
    ensures forall i :: 0 <= i < |r.items| ==> SameModel(r.items[i], modelName)
  {
    Bucket(GetByModel(b, modelName))
  }

  /** Selecting twice with the same condition selects nothing more. */
  lemma {:induction false} FilterTwice(xs: seq<LoRA>, p: LoRA -> bool)
    ensures Filter(Filter(xs, p), p) == Filter(xs, p)
  {
    if |xs| > 0 {
      var init := xs[..|xs| - 1];
      var last := xs[|xs| - 1];
      FilterTwice(init, p);
      var tail := if p(last) then [last] else [];
      assert Filter(xs, p) == Filter(init, p) + tail;
      FilterAppend(Filter(init, p), tail, p);
      if p(last) {
        assert tail[..0] == [];
      }
    }
  }

  /** Asking the new bucket for the same model gives back all its records,
      and its models are all the requested one. */
  lemma GetByModelAsBucketStable(b: Bucket, modelName: string)
    ensures GetByModel(GetByModelAsBucket(b, modelName), modelName) == GetByModelAsBucket(b, modelName).items
    ensures forall m :: m in GetModels(GetByModelAsBucket(b, modelName)) ==> ToLower(m) == ToLower(modelName)
  {
    FilterTwice(b.items, OfModel(modelName));
  }
}
