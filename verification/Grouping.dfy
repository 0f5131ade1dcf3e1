/** A HashMap<K, List<T>> filled element by element through
    computeIfAbsent(key(x), k -> new ArrayList<>()).add(x), as both grouping
    phases of the duplicate search do. The map keeps its keys in the order they
    were first added; that order stands for the map's iteration order. */
module Grouping {
  import opened Prefixes

  datatype Buckets<K, T> = Buckets(keys: seq<K>, lists: map<K, seq<T>>)

  /** Keys are listed once each, and exactly the keys of the map are listed. */
  predicate Valid<K(==,!new), T>(b: Buckets<K, T>) {
    && (forall i, j :: 0 <= i < j < |b.keys| ==> b.keys[i] != b.keys[j])
    && (forall k :: k in b.lists ==> k in b.keys)
    && (forall i :: 0 <= i < |b.keys| ==> b.keys[i] in b.lists)
  }

  /** computeIfAbsent(k, ...).add(x). */
  function Add<K(==), T>(b: Buckets<K, T>, k: K, x: T): Buckets<K, T> {
    if k in b.lists then Buckets(b.keys, b.lists[k := b.lists[k] + [x]])
    else Buckets(b.keys + [k], b.lists[k := [x]])
  }

  /** The elements of xs whose key is k, in their order in xs. */
  function Select<K(==), T>(xs: seq<T>, key: T -> K, k: K): (r: seq<T>)
    ensures |r| <= |xs|
  {
    if xs == [] then []
    else Select(xs[..|xs| - 1], key, k) + (if key(xs[|xs| - 1]) == k then [xs[|xs| - 1]] else [])
  }

  lemma {:induction false} SelectHasKey<K, T>(xs: seq<T>, key: T -> K, k: K)
    ensures forall i :: 0 <= i < |Select(xs, key, k)| ==> key(Select(xs, key, k)[i]) == k
  {
    if xs != [] {
      SelectHasKey(xs[..|xs| - 1], key, k);
    }
  }

  lemma {:induction false} SelectMembers<K, T>(xs: seq<T>, key: T -> K, k: K, x: T)
    requires x in Select(xs, key, k)
    ensures x in xs && key(x) == k
  {
    var init := xs[..|xs| - 1];
    if x in Select(init, key, k) {
      SelectMembers(init, key, k, x);
    }
  }

  lemma {:induction false} SelectFindsMembers<K, T>(xs: seq<T>, key: T -> K, i: nat)
    requires i < |xs|
    ensures xs[i] in Select(xs, key, key(xs[i]))
  {
    if i < |xs| - 1 {
      SelectFindsMembers(xs[..|xs| - 1], key, i);
    }
  }

  /** Grouping xs by key, one element after the other. */
  function GroupBy<K(==), T>(xs: seq<T>, key: T -> K): Buckets<K, T> {
    if xs == [] then Buckets([], map[])
    else Add(GroupBy(xs[..|xs| - 1], key), key(xs[|xs| - 1]), xs[|xs| - 1])
  }

  /** Adding keeps the keys listed once each, so the grouping is valid. */
  lemma {:induction false} GroupByValid<K(!new), T>(xs: seq<T>, key: T -> K)
    ensures Valid(GroupBy(xs, key))
  {
    if xs != [] {
      GroupByValid(xs[..|xs| - 1], key);
    }
  }

  /** The bucket of k holds exactly the elements whose key is k, in order;
      there is a bucket for k iff some element has key k. */
  lemma {:induction false} GroupBySelects<K(!new), T>(xs: seq<T>, key: T -> K)
    ensures forall k :: k in GroupBy(xs, key).lists <==> Select(xs, key, k) != []
    ensures forall k :: k in GroupBy(xs, key).lists ==> GroupBy(xs, key).lists[k] == Select(xs, key, k)
  {
    if xs != [] {
      GroupBySelects(xs[..|xs| - 1], key);
    }
  }

  lemma GroupByStep<K(!new), T>(xs: seq<T>, j: nat, key: T -> K)
    requires j < |xs|
    ensures GroupBy(xs[..j + 1], key) == Add(GroupBy(xs[..j], key), key(xs[j]), xs[j])
  {
    assert xs[..j + 1][..j] == xs[..j];
  }

  /** map.values(), in the order of the keys. */
  function Values<K(==,!new), T>(b: Buckets<K, T>): (vs: seq<seq<T>>)
    requires Valid(b)
    ensures |vs| == |b.keys|
    ensures forall i :: 0 <= i < |vs| ==> vs[i] == b.lists[b.keys[i]]
  {
    seq(|b.keys|, i requires 0 <= i < |b.keys| => b.lists[b.keys[i]])
  }

  function Flatten<T>(ss: seq<seq<T>>): seq<T> {
    if ss == [] then [] else Flatten(ss[..|ss| - 1]) + ss[|ss| - 1]
  }

  lemma {:induction false} FlattenAppend<T>(a: seq<seq<T>>, b: seq<seq<T>>)
    ensures Flatten(a + b) == Flatten(a) + Flatten(b)
    decreases |b|
  {
    if b == [] {
      assert a + b == a;
    } else {
      var init, last := b[..|b| - 1], b[|b| - 1];
      var ab := a + b;
      assert ab[..|ab| - 1] == a + init && ab[|ab| - 1] == last;
      FlattenAppend(a, init);
      AppendAssociates(Flatten(a), Flatten(init), last);
    }
  }

  lemma {:induction false} FlattenGrowOne<T>(ss: seq<seq<T>>, i: nat, x: T)
    requires i < |ss|
    ensures multiset(Flatten(ss[i := ss[i] + [x]])) == multiset(Flatten(ss)) + multiset{x}
  {
    var init, last := ss[..|ss| - 1], ss[|ss| - 1];
    var ts := ss[i := ss[i] + [x]];
    assert Flatten(ss) == Flatten(init) + last;
    if i == |ss| - 1 {
      assert ts[..|ts| - 1] == init && ts[|ts| - 1] == last + [x];
      AppendAssociates(Flatten(init), last, [x]);
    } else {
      var init' := init[i := init[i] + [x]];
      assert ts[..|ts| - 1] == init' && ts[|ts| - 1] == last;
      assert Flatten(ts) == Flatten(init') + last;
      FlattenGrowOne(init, i, x);
    }
  }

  lemma ValuesOfAdd<K(!new), T>(b: Buckets<K, T>, k: K, x: T)
    requires Valid(b) && Valid(Add(b, k, x))
    ensures k !in b.lists ==> Values(Add(b, k, x)) == Values(b) + [[x]]
    ensures k in b.lists ==> exists i :: 0 <= i < |b.keys| && b.keys[i] == k
                                        && Values(Add(b, k, x)) == Values(b)[i := Values(b)[i] + [x]]
  {
    var vs, ws := Values(b), Values(Add(b, k, x));
    if k in b.lists {
      var i :| 0 <= i < |b.keys| && b.keys[i] == k;
      var us := vs[i := vs[i] + [x]];
      forall j | 0 <= j < |ws|
        ensures ws[j] == us[j]
      {
        if j != i {
          assert b.keys[j] != k;
        }
      }
      assert ws == us;
    } else {
      var us := vs + [[x]];
      forall j | 0 <= j < |ws|
        ensures ws[j] == us[j]
      {
        if j < |vs| {
          assert b.keys[j] in b.lists;
        }
      }
      assert ws == us;
    }
  }

  /** Every element lands in exactly one bucket: the buckets, laid end to
      end, are a permutation of the input. */
  lemma {:induction false} GroupByIsPartition<K(!new), T>(xs: seq<T>, key: T -> K)
    ensures Valid(GroupBy(xs, key)) && multiset(Flatten(Values(GroupBy(xs, key)))) == multiset(xs)
  {
    GroupByValid(xs, key);
    if xs != [] {
      var init, x := xs[..|xs| - 1], xs[|xs| - 1];
      assert xs == init + [x];
      var b := GroupBy(init, key);
      GroupByIsPartition(init, key);
      GroupByValid(init, key);
      ValuesOfAdd(b, key(x), x);
      var vs := Values(b);
      if key(x) in b.lists {
        var i :| 0 <= i < |b.keys| && b.keys[i] == key(x)
                 && Values(GroupBy(xs, key)) == vs[i := vs[i] + [x]];
        FlattenGrowOne(vs, i, x);
      } else {
        assert Flatten(vs + [[x]]) == Flatten(vs) + [x];
      }
    }
  }

  /** The bucket of k holds exactly the elements of xs whose key is k, in order,
      so two elements share a bucket iff their keys are equal. */
  lemma BucketMembers<K(!new), T>(xs: seq<T>, key: T -> K, i: nat)
    requires i < |xs|
    ensures key(xs[i]) in GroupBy(xs, key).lists
    ensures xs[i] in GroupBy(xs, key).lists[key(xs[i])]
    ensures forall y :: y in GroupBy(xs, key).lists[key(xs[i])] ==> key(y) == key(xs[i])
  {
    GroupBySelects(xs, key);
    SelectFindsMembers(xs, key, i);
    SelectHasKey(xs, key, key(xs[i]));
  }

  /** The elements whose two keys are a and b, in order. */
  function SelectBoth<K1(==), K2(==), T>(xs: seq<T>, key1: T -> K1, key2: T -> K2, a: K1, b: K2): seq<T> {
    if xs == [] then []
    else
      var x := xs[|xs| - 1];
      SelectBoth(xs[..|xs| - 1], key1, key2, a, b) + (if key1(x) == a && key2(x) == b then [x] else [])
  }

  /** Bucketing a bucket again by a second key selects by both keys at once. */
  lemma {:induction false} SelectTwice<K1, K2, T>(xs: seq<T>, key1: T -> K1, key2: T -> K2, a: K1, b: K2)
    ensures Select(Select(xs, key1, a), key2, b) == SelectBoth(xs, key1, key2, a, b)
  {
    if xs != [] {
      var init, x := xs[..|xs| - 1], xs[|xs| - 1];
      SelectTwice(init, key1, key2, a, b);
      var s := Select(init, key1, a);
      if key1(x) == a {
        assert Select(xs, key1, a) == s + [x];
        assert (s + [x])[..|s + [x]| - 1] == s;
      } else {
        assert Select(xs, key1, a) == s + [];
        assert s + [] == s;
      }
    }
  }

  // --------------------------------------------------------------- filter

  /** The elements of xs that satisfy p, in order (List.removeIf of the rest). */
  function Filter<T>(xs: seq<T>, p: T -> bool): (r: seq<T>)
    ensures |r| <= |xs|
    ensures forall i :: 0 <= i < |r| ==> p(r[i])
  {
    if xs == [] then []
    else Filter(xs[..|xs| - 1], p) + (if p(xs[|xs| - 1]) then [xs[|xs| - 1]] else [])
  }

  lemma FilterStep<T>(xs: seq<T>, k: nat, p: T -> bool)
    requires k < |xs|
    ensures Filter(xs[..k + 1], p) == Filter(xs[..k], p) + (if p(xs[k]) then [xs[k]] else [])
  {
    assert xs[..k + 1][..k] == xs[..k];
  }

  lemma {:induction false} FilterAppend<T>(a: seq<T>, b: seq<T>, p: T -> bool)
    ensures Filter(a + b, p) == Filter(a, p) + Filter(b, p)
    decreases |b|
  {
    if b == [] {
      assert a + b == a;
    } else {
      var init, last := b[..|b| - 1], b[|b| - 1];
      var ab := a + b;
      assert ab[..|ab| - 1] == a + init && ab[|ab| - 1] == last;
      FilterAppend(a, init, p);
      AppendAssociates(Filter(a, p), Filter(init, p), if p(last) then [last] else []);
    }
  }

  /** Filtering keeps exactly the satisfying copies of every element. */
  lemma {:induction false} FilterCount<T>(xs: seq<T>, p: T -> bool, x: T)
    ensures multiset(Filter(xs, p))[x] == if p(x) then multiset(xs)[x] else 0
  {
    if xs != [] {
      var init, y := xs[..|xs| - 1], xs[|xs| - 1];
      assert xs == init + [y];
      FilterCount(init, p, x);
    }
  }

  lemma {:induction false} FilterMembers<T>(xs: seq<T>, p: T -> bool, x: T)
    ensures x in Filter(xs, p) <==> x in xs && p(x)
  {
    if xs != [] {
      var init := xs[..|xs| - 1];
      assert xs == init + [xs[|xs| - 1]];
      FilterMembers(init, p, x);
    }
  }

  lemma {:induction false} FilterAll<T>(xs: seq<T>, p: T -> bool)
    requires forall i :: 0 <= i < |xs| ==> p(xs[i])
    ensures Filter(xs, p) == xs
  {
    if xs != [] {
      FilterAll(xs[..|xs| - 1], p);
    }
  }

  lemma {:induction false} FilterNone<T>(xs: seq<T>, p: T -> bool)
    requires forall i :: 0 <= i < |xs| ==> !p(xs[i])
    ensures Filter(xs, p) == []
  {
    if xs != [] {
      FilterNone(xs[..|xs| - 1], p);
    }
  }

  lemma {:induction false} FlattenPrefix<T>(ss: seq<seq<T>>, i: nat)
    requires i <= |ss|
    ensures Flatten(ss[..i]) <= Flatten(ss)
    ensures i < |ss| ==> Flatten(ss[..i + 1]) == Flatten(ss[..i]) + ss[i]
  {
    assert ss == ss[..i] + ss[i..];
    FlattenAppend(ss[..i], ss[i..]);
    if i < |ss| {
      assert ss[..i + 1][..i] == ss[..i];
    }
  }
}
