/** Insertion-ordered dictionaries, as the detector uses them.

    A Python dict iterates its keys in first-insertion order, and assigning to
    a present key keeps that key's position. A `Table` is therefore a sequence
    of (key, value) pairs with distinct keys, kept in insertion order. A
    "group table" maps each key to the list of values filed under it, in the
    order they were filed.
 */
module Tables {

  datatype Option<+T> = None | Some(value: T)

  /** An ordered association list standing for a dict. */
  type Table<K, V> = seq<(K, V)>

  ghost predicate DistinctKeys<K, V>(t: Table<K, V>) {
    forall i, j :: 0 <= i < j < |t| ==> t[i].0 != t[j].0
  }

  /** `d.get(k)`: the value filed under `k`, if any. */
  function Get<K(==,!new), V>(t: Table<K, V>, k: K): (r: Option<V>)
    ensures r.None? <==> forall i :: 0 <= i < |t| ==> t[i].0 != k
    ensures r.Some? ==> exists i :: 0 <= i < |t| && t[i] == (k, r.value)
  {
    if t == [] then None
    else if t[0].0 == k then Some(t[0].1)
    else
      var r := Get(t[1..], k);
      assert r.Some? ==> exists i :: 0 <= i < |t[1..]| && t[1..][i] == (k, r.value);
      r
  }

  /** `d[k] = v`: a present key keeps its position, a new key goes last. */
  function Set<K(==,!new), V>(t: Table<K, V>, k: K, v: V): (r: Table<K, V>)
    ensures Get(r, k) == Some(v)
    ensures forall k' :: k' != k ==> Get(r, k') == Get(t, k')
    ensures Get(t, k).None? ==> r == t + [(k, v)]
  {
    if t == [] then [(k, v)]
    else if t[0].0 == k then [(k, v)] + t[1..]
    else
      var rest := Set(t[1..], k, v);
      assert ([t[0]] + rest)[1..] == rest;
      [t[0]] + rest
  }

  /** Assigning to a present key leaves every key where it was. */
  lemma {:induction false} SetKeepsKeys<K(!new), V>(t: Table<K, V>, k: K, v: V)
    ensures Get(t, k).Some? ==> |Set(t, k, v)| == |t|
    ensures Get(t, k).Some? ==> forall i :: 0 <= i < |t| ==> Set(t, k, v)[i].0 == t[i].0
  {
    if t != [] && t[0].0 != k {
      SetKeepsKeys(t[1..], k, v);
    }
  }

  /** The list filed under `k`, empty when `k` is absent. */
  function Group<K(==,!new), V>(t: Table<K, seq<V>>, k: K): seq<V> {
    match Get(t, k)
    case Some(g) => g
    case None => []
  }

  /** `if d.get(k): d[k].append(v) else: d[k] = []; d[k].append(v)`.
      A present group is never empty, and were it empty the else branch would
      produce the same `[v]`, so this is "append to the group or open it". */
  function AddToGroup<K(==,!new), V>(t: Table<K, seq<V>>, k: K, v: V): (r: Table<K, seq<V>>)
    ensures Get(r, k) == Some(Group(t, k) + [v])
    ensures forall k' :: k' != k ==> Get(r, k') == Get(t, k')
    ensures Get(t, k).None? ==> r == t + [(k, [v])]
    ensures Get(t, k).Some? ==> |r| == |t| && forall i :: 0 <= i < |t| ==> r[i].0 == t[i].0
    ensures DistinctKeys(t) ==> DistinctKeys(r)
  {
    var r := match Get(t, k)
      case Some(g) => Set(t, k, g + [v])
      case None => assert Group(t, k) + [v] == [v]; Set(t, k, [v]);
    SetKeepsKeys(t, k, Group(t, k) + [v]);
    assert DistinctKeys(t) ==> DistinctKeys(r) by {
      if DistinctKeys(t) {
        forall i, j | 0 <= i < j < |r| ensures r[i].0 != r[j].0 {
          if j == |t| {
            assert r[i].0 == t[i].0;
          }
        }
      }
    }
    r
  }

  /** Files each item's value under its key, in order; an item whose key is
      `None` (its lookup failed) is skipped. */
  function Bucket<K(==,!new), V>(t: Table<K, seq<V>>, items: seq<(Option<K>, V)>): (r: Table<K, seq<V>>)
    ensures DistinctKeys(t) ==> DistinctKeys(r)
    decreases |items|
  {
    if items == [] then t
    else
      var last := items[|items| - 1];
      var before := Bucket(t, items[..|items| - 1]);
      if last.0.Some? then AddToGroup(before, last.0.value, last.1) else before
  }

  /** Reference definition: the values of the items keyed `k`, in item order. */
  function Members<K(==,!new), V>(items: seq<(Option<K>, V)>, k: K): (r: seq<V>)
    ensures |r| <= |items|
    decreases |items|
  {
    if items == [] then []
    else
      var last := items[|items| - 1];
      Members(items[..|items| - 1], k) + (if last.0 == Some(k) then [last.1] else [])
  }

  /** The values of the items that carry a key, in item order. */
  function Values<K, V>(items: seq<(Option<K>, V)>): (r: seq<V>)
    ensures |r| <= |items|
    decreases |items|
  {
    if items == [] then []
    else
      var last := items[|items| - 1];
      Values(items[..|items| - 1]) + (if last.0.Some? then [last.1] else [])
  }

  /** A group that already holds `g` after the new members `m` are filed. */
  function Join<V>(g: Option<seq<V>>, m: seq<V>): Option<seq<V>> {
    match g
    case Some(x) => Some(x + m)
    case None => if m == [] then None else Some(m)
  }

  /** The members of the groups with at least two entries, group after group
      in table order: the files a later stage looks at, singletons pruned. */
  function Eligible<K, V>(t: Table<K, seq<V>>): (r: seq<V>)
    ensures forall x :: x in r ==> exists i :: 0 <= i < |t| && |t[i].1| >= 2 && x in t[i].1
    ensures forall i, x :: 0 <= i < |t| && |t[i].1| >= 2 && x in t[i].1 ==> x in r
  {
    if t == [] then []
    else
      var rest := Eligible(t[1..]);
      var head := if |t[0].1| < 2 then [] else t[0].1;
      assert forall x :: x in rest ==> exists i :: 0 <= i < |t[1..]| && |t[1..][i].1| >= 2 && x in t[1..][i].1;
      assert forall i, x :: 0 <= i < |t| && |t[i].1| >= 2 && x in t[i].1 ==> x in head + rest by {
        forall i, x | 0 <= i < |t| && |t[i].1| >= 2 && x in t[i].1
          ensures x in head + rest
        {
          if i > 0 {
            assert t[1..][i - 1] == t[i];
          }
        }
      }
      head + rest
  }

  /** Pruning goes group after group: the files of two tables in a row are
      those of the first followed by those of the second. */
  lemma {:induction false} EligibleAppend<K, V>(a: Table<K, seq<V>>, b: Table<K, seq<V>>)
    ensures Eligible(a + b) == Eligible(a) + Eligible(b)
    decreases |a|
  {
    if a == [] {
      assert a + b == b;
    } else {
      assert (a + b)[1..] == a[1..] + b;
      EligibleAppend(a[1..], b);
    }
  }

  /** A single group passes on all its members, in order, exactly when it
      has at least two; otherwise nothing. */
  lemma EligibleSingle<K, V>(k: K, g: seq<V>)
    ensures Eligible([(k, g)]) == if |g| >= 2 then g else []
  {
    assert [(k, g)][1..] == [];
  }

  /** In a table with distinct keys, the lookup of a stored key finds its own
      entry. */
  lemma {:induction false} GetAt<K(!new), V>(t: Table<K, V>, i: nat)
    requires DistinctKeys(t)
    requires i < |t|
    ensures Get(t, t[i].0) == Some(t[i].1)
  {
    if i > 0 {
      assert t[0].0 != t[i].0;
      assert t[1..][i - 1] == t[i];
      GetAt(t[1..], i - 1);
    }
  }

  /** Each key's group after bucketing is what it held before followed by
      exactly the values keyed to it, in order; nothing else changes. */
  lemma {:induction false} BucketGet<K(!new), V>(t: Table<K, seq<V>>, items: seq<(Option<K>, V)>, k: K)
    ensures Get(Bucket(t, items), k) == Join(Get(t, k), Members(items, k))
    decreases |items|
  {
    if items == [] {
      match Get(t, k) {
        case Some(x) => assert x + [] == x;
        case None =>
      }
    } else {
      var init := items[..|items| - 1];
      var last := items[|items| - 1];
      var before := Bucket(t, init);
      BucketGet(t, init, k);
      var m := Members(init, k);
      assert Members(items, k) == m + (if last.0 == Some(k) then [last.1] else []);
      if last.0 == Some(k) {
        assert Bucket(t, items) == AddToGroup(before, k, last.1);
        assert Group(before, k) == (match Get(t, k) case Some(x) => x + m case None => m);
        match Get(t, k) {
          case Some(x) =>
            assert x + (m + [last.1]) == (x + m) + [last.1];
          case None =>
        }
      } else {
        assert Get(Bucket(t, items), k) == Get(before, k);
        assert m + [] == m;
      }
    }
  }

  /** Bucketing two runs of items one after the other is bucketing the whole. */
  lemma {:induction false} BucketAppend<K(!new), V>(t: Table<K, seq<V>>, a: seq<(Option<K>, V)>, b: seq<(Option<K>, V)>)
    ensures Bucket(Bucket(t, a), b) == Bucket(t, a + b)
    decreases |b|
  {
    if b == [] {
      assert a + b == a;
    } else {
      assert (a + b)[..|a + b| - 1] == a + b[..|b| - 1];
      assert (a + b)[|a + b| - 1] == b[|b| - 1];
      BucketAppend(t, a, b[..|b| - 1]);
    }
  }

  lemma {:induction false} ValuesAppend<K, V>(a: seq<(Option<K>, V)>, b: seq<(Option<K>, V)>)
    ensures Values(a + b) == Values(a) + Values(b)
    decreases |b|
  {
    if b == [] {
      assert a + b == a;
    } else {
      assert (a + b)[..|a + b| - 1] == a + b[..|b| - 1];
      assert (a + b)[|a + b| - 1] == b[|b| - 1];
      ValuesAppend(a, b[..|b| - 1]);
    }
  }
}
