/**
 The insertion-ordered group-by the home screen runs twice: once to gather
 rows into day groups, once to gather day groups into month groups. Each
 input element comes with its key; a linear scan looks for the first group
 with that key; the element is appended to that group, or a new group is
 appended at the end.

 The reference description: the groups are the distinct keys in order of
 first appearance (Dedup), each holding the elements with that key in input
 order (ItemsWithKey).
 */
module GroupBy {

  datatype Group<K, V> = Group(key: K, items: seq<V>)

  function Keys<K, V>(ps: seq<(K, V)>): (ks: seq<K>)
    ensures |ks| == |ps|
    ensures forall i :: 0 <= i < |ps| ==> ks[i] == ps[i].0
  {
    seq(|ps|, i requires 0 <= i < |ps| => ps[i].0)
  }

  function Values<K, V>(ps: seq<(K, V)>): (vs: seq<V>)
    ensures |vs| == |ps|
    ensures forall i :: 0 <= i < |ps| ==> vs[i] == ps[i].1
  {
    seq(|ps|, i requires 0 <= i < |ps| => ps[i].1)
  }

  function GroupKeys<K, V>(gs: seq<Group<K, V>>): (ks: seq<K>)
    ensures |ks| == |gs|
    ensures forall i :: 0 <= i < |gs| ==> ks[i] == gs[i].key
  {
    seq(|gs|, i requires 0 <= i < |gs| => gs[i].key)
  }

  /** All groups' items one after another; its length is the summed length of the groups. */
  function Flatten<K, V>(gs: seq<Group<K, V>>): (vs: seq<V>)
    decreases |gs|
  {
    if |gs| == 0 then [] else Flatten(gs[..|gs| - 1]) + gs[|gs| - 1].items
  }

  predicate Distinct<T(==)>(s: seq<T>) {
    forall i, j :: 0 <= i < j < |s| ==> s[i] != s[j]
  }

  lemma GroupKeysPrefix<K, V>(gs: seq<Group<K, V>>, n: nat)
    requires n <= |gs|
    ensures GroupKeys(gs[..n]) == GroupKeys(gs)[..n]
  {
  }

  // ---------------------------------------------------------------------------
  // The algorithm as the screen runs it

  /** The scan: the first group whose key is `k`, or |gs| when there is none. */
  function KeyIndex<K(==), V>(gs: seq<Group<K, V>>, k: K): (i: nat)
    ensures i <= |gs|
    ensures i < |gs| ==> gs[i].key == k
    ensures forall j :: 0 <= j < i ==> gs[j].key != k
    decreases |gs|
  {
    if |gs| == 0 then 0
    else if gs[0].key == k then 0
    else 1 + KeyIndex(gs[1..], k)
  }

  /**
   One step: append `v` to the group keyed `k`, or open a new group at the end.
   The keys stay as they were for a key already present and gain `k` at the end
   otherwise; either way the group keyed `k` ends with `v`, and every other
   group is left as it was.
   */
  function Place<K(==), V>(gs: seq<Group<K, V>>, k: K, v: V): (r: seq<Group<K, V>>)
    ensures GroupKeys(r) == if k in GroupKeys(gs) then GroupKeys(gs) else GroupKeys(gs) + [k]
    ensures k in GroupKeys(gs) ==> r[KeyIndex(gs, k)].items == gs[KeyIndex(gs, k)].items + [v]
    ensures k !in GroupKeys(gs) ==> r[|gs|] == Group(k, [v])
    ensures forall j :: 0 <= j < |gs| && j != KeyIndex(gs, k) ==> r[j] == gs[j]
  {
    var i := KeyIndex(gs, k);
    if i < |gs| then
      assert GroupKeys(gs)[i] == k;
      var r := gs[i := Group(k, gs[i].items + [v])];
      assert GroupKeys(r) == GroupKeys(gs);
      r
    else
      var r := gs + [Group(k, [v])];
      assert GroupKeys(r) == GroupKeys(gs) + [k];
      r
  }

  /**
   The fold of Place over the input, first element first. Its keys are the
   input's distinct keys in first-appearance order.
   */
  function GroupPairs<K(==), V>(ps: seq<(K, V)>): (r: seq<Group<K, V>>)
    ensures GroupKeys(r) == Dedup(Keys(ps))
    decreases |ps|
  {
    if |ps| == 0 then []
    else
      var n := |ps| - 1;
      KeysSnoc(ps);
      DedupSnoc(Keys(ps[..n]), ps[n].0);
      DedupMembers(Keys(ps[..n]));
      Place(GroupPairs(ps[..n]), ps[n].0, ps[n].1)
  }

  /**
   The same fold written as the screen writes it: an outer loop over the input,
   and for each element the scan of FindKey over the groups built so far.
   */
  method GroupInOrder<K(==), V>(ps: seq<(K, V)>) returns (gs: seq<Group<K, V>>)
    ensures gs == GroupPairs(ps)
  {
    gs := [];
    var n := 0;
    while n < |ps|
      invariant 0 <= n <= |ps|
      invariant gs == GroupPairs(ps[..n])
    {
      var k, v := ps[n].0, ps[n].1;
      var index := FindKey(gs, k);
      ghost var next := GroupPairs(ps[..n + 1]);
      GroupPairsStep(ps, n);
      PlaceAt(gs, k, v, index);
      if index < |gs| {
        gs := gs[index := Group(k, gs[index].items + [v])];
      } else {
        gs := gs + [Group(k, [v])];
      }
      assert gs == next;
      n := n + 1;
    }
    assert ps[..|ps|] == ps;
  }

  /** The inner loop: scan the groups for the first one keyed `k`. */
  method FindKey<K(==), V>(gs: seq<Group<K, V>>, k: K) returns (index: nat)
    ensures index == KeyIndex(gs, k)
  {
    index := 0;
    while index < |gs| && gs[index].key != k
      invariant 0 <= index <= |gs|
      invariant forall j :: 0 <= j < index ==> gs[j].key != k
    {
      index := index + 1;
    }
  }

  /** Place, once the scan has stopped at `index`. */
  lemma PlaceAt<K, V>(gs: seq<Group<K, V>>, k: K, v: V, index: nat)
    requires index == KeyIndex(gs, k)
    ensures index < |gs| ==> Place(gs, k, v) == gs[index := Group(k, gs[index].items + [v])]
    ensures index == |gs| ==> Place(gs, k, v) == gs + [Group(k, [v])]
  {
  }

  /** The fold over one more element is one more Place. */
  lemma GroupPairsStep<K, V>(ps: seq<(K, V)>, n: nat)
    requires n < |ps|
    ensures GroupPairs(ps[..n + 1]) == Place(GroupPairs(ps[..n]), ps[n].0, ps[n].1)
  {
    assert ps[..n + 1][..n] == ps[..n];
  }

  // ---------------------------------------------------------------------------
  // The reference description

  /** The distinct keys, each where it first appears. */
  function Dedup<K(==)>(ks: seq<K>): (r: seq<K>)
    decreases |ks|
  {
    if |ks| == 0 then []
    else
      var n := |ks| - 1;
      if ks[n] in ks[..n] then Dedup(ks[..n]) else Dedup(ks[..n]) + [ks[n]]
  }

  /** The elements with key `k`, in input order. */
  function ItemsWithKey<K(==), V>(ps: seq<(K, V)>, k: K): (vs: seq<V>)
    decreases |ps|
  {
    if |ps| == 0 then []
    else
      var n := |ps| - 1;
      ItemsWithKey(ps[..n], k) + (if ps[n].0 == k then [ps[n].1] else [])
  }

  /** Each element paired with its key under `key`, in order. */
  function KeyedBy<K, V>(vs: seq<V>, key: V -> K): (ps: seq<(K, V)>)
    ensures |ps| == |vs|
    ensures forall i :: 0 <= i < |vs| ==> ps[i] == (key(vs[i]), vs[i])
  {
    seq(|vs|, i requires 0 <= i < |vs| => (key(vs[i]), vs[i]))
  }

  /** The elements whose key under `key` is `k`, in order. */
  function Having<K(==), V>(vs: seq<V>, key: V -> K, k: K): (r: seq<V>)
    decreases |vs|
  {
    if |vs| == 0 then []
    else
      var n := |vs| - 1;
      Having(vs[..n], key, k) + (if key(vs[n]) == k then [vs[n]] else [])
  }

  /** Where `x` first appears in `ks`. */
  function FirstIndex<K(==)>(ks: seq<K>, x: K): (i: nat)
    requires x in ks
    ensures i < |ks| && ks[i] == x && x !in ks[..i]
    decreases |ks|
  {
    if ks[0] == x then 0
    else
      var j := FirstIndex(ks[1..], x);
      assert ks[..j + 1] == [ks[0]] + ks[1..][..j];
      j + 1
  }

  lemma FirstIndexUnique<K>(ks: seq<K>, x: K, i: nat)
    requires i < |ks| && ks[i] == x && x !in ks[..i]
    ensures FirstIndex(ks, x) == i
  {
  }

  lemma FirstIndexExtend<K>(ks: seq<K>, k: K, x: K)
    requires x in ks
    ensures FirstIndex(ks + [k], x) == FirstIndex(ks, x)
  {
    var j := FirstIndex(ks, x);
    assert (ks + [k])[..j] == ks[..j];
    FirstIndexUnique(ks + [k], x, j);
  }

  lemma FirstIndexNew<K>(ks: seq<K>, k: K)
    requires k !in ks
    ensures FirstIndex(ks + [k], k) == |ks|
  {
    assert (ks + [k])[..|ks|] == ks;
    FirstIndexUnique(ks + [k], k, |ks|);
  }

  lemma {:induction false} DedupMembers<K>(ks: seq<K>)
    ensures forall x :: x in Dedup(ks) <==> x in ks
    decreases |ks|
  {
    if |ks| > 0 {
      var n := |ks| - 1;
      DedupMembers(ks[..n]);
      assert ks == ks[..n] + [ks[n]];
    }
  }

  lemma {:induction false} DedupDistinct<K>(ks: seq<K>)
    ensures Distinct(Dedup(ks))
    decreases |ks|
  {
    if |ks| > 0 {
      var n := |ks| - 1;
      DedupDistinct(ks[..n]);
      DedupMembers(ks[..n]);
    }
  }

  /** Dedup lists the keys in the order of their first appearance. */
  lemma {:induction false} DedupFirstSeen<K>(ks: seq<K>)
    ensures forall x :: x in Dedup(ks) ==> x in ks
    ensures forall i, j :: 0 <= i < j < |Dedup(ks)| ==>
      FirstIndex(ks, Dedup(ks)[i]) < FirstIndex(ks, Dedup(ks)[j])
    decreases |ks|
  {
    DedupMembers(ks);
    if |ks| > 0 {
      var n := |ks| - 1;
      var prev, k := ks[..n], ks[n];
      assert ks == prev + [k];
      DedupFirstSeen(prev);
      DedupMembers(prev);
      var d := Dedup(prev);
      forall x | x in d
        ensures FirstIndex(ks, x) == FirstIndex(prev, x) < n
      {
        FirstIndexExtend(prev, k, x);
      }
      if k !in prev {
        FirstIndexNew(prev, k);
        assert Dedup(ks) == d + [k];
      } else {
        assert Dedup(ks) == d;
      }
    }
  }

  lemma {:induction false} ItemsWithKeyAbsent<K, V>(ps: seq<(K, V)>, k: K)
    requires k !in Keys(ps)
    ensures ItemsWithKey(ps, k) == []
    decreases |ps|
  {
    if |ps| > 0 {
      var n := |ps| - 1;
      assert Keys(ps[..n]) == Keys(ps)[..n];
      assert Keys(ps)[n] == ps[n].0;
      ItemsWithKeyAbsent(ps[..n], k);
    }
  }

  /** Selecting by key from keyed elements is filtering the elements by their key. */
  lemma {:induction false} ItemsWithKeyBy<K, V>(vs: seq<V>, key: V -> K, k: K)
    ensures ItemsWithKey(KeyedBy(vs, key), k) == Having(vs, key, k)
    decreases |vs|
  {
    if |vs| > 0 {
      var n := |vs| - 1;
      var ps := KeyedBy(vs, key);
      assert ps[..n] == KeyedBy(vs[..n], key);
      ItemsWithKeyBy(vs[..n], key, k);
    }
  }

  lemma {:induction false} ItemsWithKeyHas<K, V>(ps: seq<(K, V)>, j: nat)
    requires j < |ps|
    ensures ps[j].1 in ItemsWithKey(ps, ps[j].0)
    decreases |ps|
  {
    var n := |ps| - 1;
    if j < n {
      assert ps[..n][j] == ps[j];
      ItemsWithKeyHas(ps[..n], j);
    }
  }

  lemma {:induction false} ItemsWithKeyFrom<K, V>(ps: seq<(K, V)>, k: K, v: V)
    requires v in ItemsWithKey(ps, k)
    ensures (k, v) in ps
    decreases |ps|
  {
    var n := |ps| - 1;
    if v in ItemsWithKey(ps[..n], k) {
      ItemsWithKeyFrom(ps[..n], k, v);
      assert ps[..n] <= ps;
    } else {
      assert ps[n] == (k, v);
    }
  }

  // ---------------------------------------------------------------------------
  // The algorithm meets the reference description

  lemma KeysSnoc<K, V>(ps: seq<(K, V)>)
    requires 0 < |ps|
    ensures Keys(ps) == Keys(ps[..|ps| - 1]) + [ps[|ps| - 1].0]
  {
    assert Keys(ps)[..|ps| - 1] == Keys(ps[..|ps| - 1]);
  }

  lemma DedupSnoc<K>(ks: seq<K>, k: K)
    ensures Dedup(ks + [k]) == if k in ks then Dedup(ks) else Dedup(ks) + [k]
  {
    assert (ks + [k])[..|ks|] == ks;
  }

  /** One step of the fold on the elements, when the keys are distinct: `v` joins the group keyed `k` and no other. */
  lemma PlaceItems<K, V>(gs: seq<Group<K, V>>, k: K, v: V, j: nat)
    requires Distinct(GroupKeys(gs))
    requires j < |Place(gs, k, v)|
    ensures j < |gs| ==> Place(gs, k, v)[j].key == gs[j].key
    ensures j == |gs| ==> Place(gs, k, v)[j].key == k && k !in GroupKeys(gs)
    ensures Place(gs, k, v)[j].items ==
      (if j < |gs| then gs[j].items else []) + (if Place(gs, k, v)[j].key == k then [v] else [])
  {
    var i := KeyIndex(gs, k);
    if i < |gs| && j < |gs| && j != i {
      assert GroupKeys(gs)[j] != GroupKeys(gs)[i];
    }
  }

  /**
   The groups are keyed by the distinct keys in first-appearance order, and
   each holds exactly the elements with its key, in input order.
   */
  lemma {:induction false} GroupPairsSpec<K, V>(ps: seq<(K, V)>)
    ensures GroupKeys(GroupPairs(ps)) == Dedup(Keys(ps))
    ensures forall i :: 0 <= i < |GroupPairs(ps)| ==>
      GroupPairs(ps)[i].items == ItemsWithKey(ps, GroupPairs(ps)[i].key)
    decreases |ps|
  {
    if |ps| > 0 {
      var n := |ps| - 1;
      var prev, k, v := ps[..n], ps[n].0, ps[n].1;
      GroupPairsSpec(prev);
      var gs := GroupPairs(prev);
      var out := GroupPairs(ps);
      assert out == Place(gs, k, v);
      KeysSnoc(ps);
      DedupSnoc(Keys(prev), k);
      DedupMembers(Keys(prev));
      DedupDistinct(Keys(prev));
      forall j | 0 <= j < |out|
        ensures out[j].items == ItemsWithKey(ps, out[j].key)
      {
        PlaceItems(gs, k, v, j);
        if j == |gs| {
          ItemsWithKeyAbsent(prev, k);
        }
      }
    }
  }

  /** The group keys are pairwise distinct, they are exactly the input's keys, and they come in first-appearance order. */
  lemma GroupPairsKeys<K, V>(ps: seq<(K, V)>)
    ensures Distinct(GroupKeys(GroupPairs(ps)))
    ensures forall k :: k in GroupKeys(GroupPairs(ps)) <==> k in Keys(ps)
    ensures forall i, j :: 0 <= i < j < |GroupPairs(ps)| ==>
      FirstIndex(Keys(ps), GroupPairs(ps)[i].key) < FirstIndex(Keys(ps), GroupPairs(ps)[j].key)
  {
    GroupPairsSpec(ps);
    DedupDistinct(Keys(ps));
    DedupMembers(Keys(ps));
    DedupFirstSeen(Keys(ps));
    var gs := GroupPairs(ps);
    forall i | 0 <= i < |gs| ensures gs[i].key == Dedup(Keys(ps))[i] {
      assert GroupKeys(gs)[i] == gs[i].key;
    }
  }

  /**
   Every element sits in the group of its own key: the scan for that key finds
   a group, and the group holds the element.
   */
  lemma GroupPairsCovers<K, V>(ps: seq<(K, V)>)
    ensures forall j :: 0 <= j < |ps| ==>
      KeyIndex(GroupPairs(ps), ps[j].0) < |GroupPairs(ps)| &&
      ps[j].1 in GroupPairs(ps)[KeyIndex(GroupPairs(ps), ps[j].0)].items
  {
    GroupPairsSpec(ps);
    GroupPairsKeys(ps);
    var gs := GroupPairs(ps);
    forall j | 0 <= j < |ps|
      ensures KeyIndex(gs, ps[j].0) < |gs| && ps[j].1 in gs[KeyIndex(gs, ps[j].0)].items
    {
      assert Keys(ps)[j] == ps[j].0;
      assert ps[j].0 in Keys(ps);
      assert ps[j].0 in GroupKeys(gs);
      var i :| 0 <= i < |gs| && GroupKeys(gs)[i] == ps[j].0;
      assert KeyIndex(gs, ps[j].0) <= i;
      ItemsWithKeyHas(ps, j);
    }
  }

  /** Every group holds only elements that came with its key, and no group is empty. */
  lemma GroupPairsHomogeneous<K, V>(ps: seq<(K, V)>)
    ensures forall i, v :: 0 <= i < |GroupPairs(ps)| && v in GroupPairs(ps)[i].items ==>
      (GroupPairs(ps)[i].key, v) in ps
    ensures forall i :: 0 <= i < |GroupPairs(ps)| ==> 0 < |GroupPairs(ps)[i].items|
  {
    GroupPairsSpec(ps);
    GroupPairsKeys(ps);
    var gs := GroupPairs(ps);
    forall i, v | 0 <= i < |gs| && v in gs[i].items
      ensures (gs[i].key, v) in ps
    {
      ItemsWithKeyFrom(ps, gs[i].key, v);
    }
    forall i | 0 <= i < |gs| ensures 0 < |gs[i].items| {
      assert GroupKeys(gs)[i] == gs[i].key;
      assert gs[i].key in GroupKeys(gs);
      assert gs[i].key in Keys(ps);
      var j :| 0 <= j < |ps| && Keys(ps)[j] == gs[i].key;
      ItemsWithKeyHas(ps, j);
    }
  }

  // ---------------------------------------------------------------------------
  // Nothing is lost or duplicated

  function SumOf<T>(s: seq<T>, f: T -> int): (total: int)
    decreases |s|
  {
    if |s| == 0 then 0 else f(s[0]) + SumOf(s[1..], f)
  }

  lemma {:induction false} SumOfAppend<T>(a: seq<T>, b: seq<T>, f: T -> int)
    ensures SumOf(a + b, f) == SumOf(a, f) + SumOf(b, f)
    decreases |a|
  {
    if |a| > 0 {
      assert (a + b)[0] == a[0];
      assert (a + b)[1..] == a[1..] + b;
      SumOfAppend(a[1..], b, f);
    } else {
      assert a + b == b;
    }
  }

  lemma SumOfSnoc<T>(s: seq<T>, f: T -> int)
    requires 0 < |s|
    ensures SumOf(s, f) == SumOf(s[..|s| - 1], f) + f(s[|s| - 1])
  {
    var n := |s| - 1;
    assert s == s[..n] + [s[n]];
    SumOfAppend(s[..n], [s[n]], f);
  }

  lemma {:induction false} FlattenAround<K, V>(gs: seq<Group<K, V>>, i: nat)
    requires i < |gs|
    ensures Flatten(gs) == Flatten(gs[..i]) + gs[i].items + Flatten(gs[i + 1..])
    decreases |gs|
  {
    var n := |gs| - 1;
    if i == n {
      assert gs[..i] == gs[..n];
      assert gs[i + 1..] == [];
    } else {
      FlattenAround(gs[..n], i);
      assert gs[..n][..i] == gs[..i];
      assert gs[..n][i + 1..] == gs[i + 1..n];
      assert gs[i + 1..][..|gs[i + 1..]| - 1] == gs[i + 1..n];
      assert gs[i + 1..][|gs[i + 1..]| - 1] == gs[n];
    }
  }

  /** One step of the fold adds its element to the flattened groups and nothing else. */
  lemma PlaceFlatten<K, V>(gs: seq<Group<K, V>>, k: K, v: V, f: V -> int)
    ensures |Flatten(Place(gs, k, v))| == |Flatten(gs)| + 1
    ensures SumOf(Flatten(Place(gs, k, v)), f) == SumOf(Flatten(gs), f) + f(v)
  {
    var i := KeyIndex(gs, k);
    var out := Place(gs, k, v);
    if i < |gs| {
      FlattenAround(gs, i);
      FlattenAround(out, i);
      assert out[..i] == gs[..i];
      assert out[i + 1..] == gs[i + 1..];
      var a, b, c := Flatten(gs[..i]), gs[i].items, Flatten(gs[i + 1..]);
      SumOfAppend(a + b, c, f);
      SumOfAppend(a, b, f);
      SumOfAppend(a + (b + [v]), c, f);
      SumOfAppend(a, b + [v], f);
      SumOfAppend(b, [v], f);
    } else {
      assert out[..|out| - 1] == gs;
      SumOfAppend(Flatten(gs), [v], f);
    }
  }

  lemma PlaceFlattenMultiset<K, V>(gs: seq<Group<K, V>>, k: K, v: V)
    ensures multiset(Flatten(Place(gs, k, v))) == multiset(Flatten(gs)) + multiset{v}
  {
    var i := KeyIndex(gs, k);
    var out := Place(gs, k, v);
    if i < |gs| {
      FlattenAround(gs, i);
      FlattenAround(out, i);
      assert out[..i] == gs[..i];
      assert out[i + 1..] == gs[i + 1..];
    } else {
      assert out[..|out| - 1] == gs;
    }
  }

  /** The groups hold as many elements as the input, with the same total weight under any `f`. */
  lemma {:induction false} GroupPairsCount<K, V>(ps: seq<(K, V)>, f: V -> int)
    ensures |Flatten(GroupPairs(ps))| == |ps|
    ensures SumOf(Flatten(GroupPairs(ps)), f) == SumOf(Values(ps), f)
    decreases |ps|
  {
    if |ps| > 0 {
      var n := |ps| - 1;
      GroupPairsCount(ps[..n], f);
      CountStep(GroupPairs(ps[..n]), ps, f);
    }
  }

  /** GroupPairsCount's step: placing the last element keeps the count and the weight in line with the input. */
  lemma CountStep<K, V>(gs: seq<Group<K, V>>, ps: seq<(K, V)>, f: V -> int)
    requires 0 < |ps|
    requires |Flatten(gs)| == |ps| - 1
    requires SumOf(Flatten(gs), f) == SumOf(Values(ps[..|ps| - 1]), f)
    ensures |Flatten(Place(gs, ps[|ps| - 1].0, ps[|ps| - 1].1))| == |ps|
    ensures SumOf(Flatten(Place(gs, ps[|ps| - 1].0, ps[|ps| - 1].1)), f) == SumOf(Values(ps), f)
  {
    var n := |ps| - 1;
    PlaceFlatten(gs, ps[n].0, ps[n].1, f);
    ValuesSnoc(ps);
    SumOfAppend(Values(ps[..n]), [ps[n].1], f);
  }

  lemma ValuesSnoc<K, V>(ps: seq<(K, V)>)
    requires 0 < |ps|
    ensures Values(ps) == Values(ps[..|ps| - 1]) + [ps[|ps| - 1].1]
  {
    assert Values(ps)[..|ps| - 1] == Values(ps[..|ps| - 1]);
  }

  /** Flattening the groups gives back a permutation of the input's elements. */
  lemma {:induction false} GroupPairsPermutes<K, V>(ps: seq<(K, V)>)
    ensures multiset(Flatten(GroupPairs(ps))) == multiset(Values(ps))
    decreases |ps|
  {
    if |ps| > 0 {
      var n := |ps| - 1;
      var prev, k, v := ps[..n], ps[n].0, ps[n].1;
      GroupPairsPermutes(prev);
      assert GroupPairs(ps) == Place(GroupPairs(prev), k, v);
      PlaceFlattenMultiset(GroupPairs(prev), k, v);
      ValuesSnoc(ps);
    }
  }

  // ---------------------------------------------------------------------------
  // Grouping again changes nothing

  /** A group's elements, each paired with the group's key. */
  function Tag<K, V>(g: Group<K, V>): (ps: seq<(K, V)>)
    ensures |ps| == |g.items|
    ensures forall i :: 0 <= i < |ps| ==> ps[i] == (g.key, g.items[i])
  {
    seq(|g.items|, i requires 0 <= i < |g.items| => (g.key, g.items[i]))
  }

  lemma TagPrefix<K, V>(g: Group<K, V>, n: nat)
    requires n <= |g.items|
    ensures Tag(g)[..n] == Tag(Group(g.key, g.items[..n]))
  {
  }

  /** The groups taken apart again into keyed elements, group after group. */
  function FlattenPairs<K, V>(gs: seq<Group<K, V>>): (ps: seq<(K, V)>)
    decreases |gs|
  {
    if |gs| == 0 then [] else FlattenPairs(gs[..|gs| - 1]) + Tag(gs[|gs| - 1])
  }

  lemma {:induction false} ItemsWithKeyAppend<K, V>(a: seq<(K, V)>, b: seq<(K, V)>, k: K)
    ensures ItemsWithKey(a + b, k) == ItemsWithKey(a, k) + ItemsWithKey(b, k)
    decreases |b|
  {
    if |b| == 0 {
      assert a + b == a;
    } else {
      var n := |b| - 1;
      assert (a + b)[..|a + b| - 1] == a + b[..n];
      assert (a + b)[|a + b| - 1] == b[n];
      ItemsWithKeyAppend(a, b[..n], k);
    }
  }

  lemma {:induction false} ItemsWithKeyTag<K, V>(g: Group<K, V>, k: K)
    ensures ItemsWithKey(Tag(g), k) == if g.key == k then g.items else []
    decreases |g.items|
  {
    if |g.items| > 0 {
      var n := |g.items| - 1;
      var shorter := Group(g.key, g.items[..n]);
      TagPrefix(g, n);
      ItemsWithKeyTag(shorter, k);
      assert g.items == g.items[..n] + [g.items[n]];
    }
  }

  /** Appending keys already seen leaves the distinct keys as they were. */
  lemma {:induction false} DedupSeen<K>(xs: seq<K>, ys: seq<K>)
    requires forall i :: 0 <= i < |ys| ==> ys[i] in xs
    ensures Dedup(xs + ys) == Dedup(xs)
    decreases |ys|
  {
    if |ys| == 0 {
      assert xs + ys == xs;
    } else {
      var n := |ys| - 1;
      var s := xs + ys;
      assert s[..|s| - 1] == xs + ys[..n];
      assert s[|s| - 1] == ys[n];
      DedupSeen(xs, ys[..n]);
    }
  }

  lemma FlattenPairsSnoc<K, V>(gs: seq<Group<K, V>>, k: K)
    requires 0 < |gs|
    ensures ItemsWithKey(FlattenPairs(gs), k) ==
      ItemsWithKey(FlattenPairs(gs[..|gs| - 1]), k) + (if gs[|gs| - 1].key == k then gs[|gs| - 1].items else [])
  {
    var n := |gs| - 1;
    ItemsWithKeyAppend(FlattenPairs(gs[..n]), Tag(gs[n]), k);
    ItemsWithKeyTag(gs[n], k);
  }

  /** A key no group carries selects nothing from the taken-apart groups. */
  lemma {:induction false} FlattenPairsAbsent<K, V>(gs: seq<Group<K, V>>, k: K)
    requires forall j :: 0 <= j < |gs| ==> gs[j].key != k
    ensures ItemsWithKey(FlattenPairs(gs), k) == []
    decreases |gs|
  {
    if |gs| > 0 {
      var n := |gs| - 1;
      FlattenPairsAbsent(gs[..n], k);
      FlattenPairsSnoc(gs, k);
    }
  }

  lemma DistinctSnoc<T>(s: seq<T>)
    requires Distinct(s) && 0 < |s|
    ensures Distinct(s[..|s| - 1]) && s[|s| - 1] !in s[..|s| - 1]
  {
  }

  /** When no other group shares group i's key, that key selects exactly group i's elements. */
  lemma {:induction false} FlattenPairsItems<K, V>(gs: seq<Group<K, V>>, i: nat)
    requires i < |gs|
    requires forall j :: 0 <= j < |gs| && j != i ==> gs[j].key != gs[i].key
    ensures ItemsWithKey(FlattenPairs(gs), gs[i].key) == gs[i].items
    decreases |gs|
  {
    var n := |gs| - 1;
    var pre := gs[..n];
    var k := gs[i].key;
    FlattenPairsSnoc(gs, k);
    if i < n {
      assert gs[n].key != k;
      FlattenPairsItems(pre, i);
    } else {
      FlattenPairsAbsent(pre, k);
    }
  }

  /** With distinct keys and no empty group, the taken-apart keys first appear in group order. */
  lemma {:induction false} FlattenPairsKeys<K, V>(gs: seq<Group<K, V>>)
    requires Distinct(GroupKeys(gs))
    requires forall i :: 0 <= i < |gs| ==> 0 < |gs[i].items|
    ensures Dedup(Keys(FlattenPairs(gs))) == GroupKeys(gs)
    decreases |gs|
  {
    if |gs| > 0 {
      var n := |gs| - 1;
      var pre, g := gs[..n], gs[n];
      GroupKeysPrefix(gs, n);
      DistinctSnoc(GroupKeys(gs));
      assert GroupKeys(gs)[n] == g.key;
      assert GroupKeys(gs) == GroupKeys(pre) + [g.key];
      FlattenPairsKeys(pre);
      var f := FlattenPairs(pre);
      var tag := Tag(g);
      assert FlattenPairs(gs) == f + tag;
      DedupMembers(Keys(f));
      var head := Keys(f) + [g.key];
      KeysAppendTag(f, g);
      DedupSnoc(Keys(f), g.key);
      DedupSeen(head, Keys(tag)[1..]);
    }
  }

  lemma KeysAppendTag<K, V>(f: seq<(K, V)>, g: Group<K, V>)
    requires 0 < |g.items|
    ensures Keys(f + Tag(g)) == (Keys(f) + [g.key]) + Keys(Tag(g))[1..]
    ensures forall i :: 0 <= i < |Keys(Tag(g))[1..]| ==> Keys(Tag(g))[1..][i] in Keys(f) + [g.key]
  {
    var head := Keys(f) + [g.key];
    assert head[|f|] == g.key;
  }

  lemma KeyedByAppend<K, V>(a: seq<V>, b: seq<V>, key: V -> K)
    ensures KeyedBy(a + b, key) == KeyedBy(a, key) + KeyedBy(b, key)
  {
  }

  lemma KeyedByGroup<K, V>(g: Group<K, V>, key: V -> K)
    requires forall v :: v in g.items ==> key(v) == g.key
    ensures KeyedBy(g.items, key) == Tag(g)
  {
    forall j | 0 <= j < |g.items| ensures KeyedBy(g.items, key)[j] == Tag(g)[j] {
      assert g.items[j] in g.items;
    }
  }

  /** Keying the elements of groups that hold only their own key's elements gives them back paired with their group's key. */
  lemma {:induction false} KeyedByFlatten<K, V>(gs: seq<Group<K, V>>, key: V -> K)
    requires forall i, v :: 0 <= i < |gs| && v in gs[i].items ==> key(v) == gs[i].key
    ensures KeyedBy(Flatten(gs), key) == FlattenPairs(gs)
    decreases |gs|
  {
    if |gs| > 0 {
      var n := |gs| - 1;
      var pre, g := gs[..n], gs[n];
      KeyedByFlatten(pre, key);
      KeyedByAppend(Flatten(pre), g.items, key);
      KeyedByGroup(g, key);
    }
  }

  /** Regrouping the taken-apart groups gives the same groups. */
  lemma GroupPairsIdempotent<K, V>(ps: seq<(K, V)>)
    ensures GroupPairs(FlattenPairs(GroupPairs(ps))) == GroupPairs(ps)
  {
    GroupPairsKeys(ps);
    GroupPairsHomogeneous(ps);
    Regroup(GroupPairs(ps));
  }

  /** Any groups with distinct keys and no empty group come back unchanged from being taken apart and grouped again. */
  lemma Regroup<K, V>(gs: seq<Group<K, V>>)
    requires Distinct(GroupKeys(gs))
    requires forall i :: 0 <= i < |gs| ==> 0 < |gs[i].items|
    ensures GroupPairs(FlattenPairs(gs)) == gs
  {
    FlattenPairsKeys(gs);
    var again := GroupPairs(FlattenPairs(gs));
    GroupPairsSpec(FlattenPairs(gs));
    assert GroupKeys(again) == GroupKeys(gs);
    forall i | 0 <= i < |gs| ensures again[i] == gs[i] {
      assert GroupKeys(again)[i] == GroupKeys(gs)[i];
      forall j | 0 <= j < |gs| && j != i ensures gs[j].key != gs[i].key {
        assert GroupKeys(gs)[j] != GroupKeys(gs)[i];
      }
      FlattenPairsItems(gs, i);
    }
  }

  // ---------------------------------------------------------------------------
  // Reordered groups

  /** An element at two positions occurs at least twice. */
  lemma TwoOccurrences<T>(s: seq<T>, i: nat, j: nat)
    requires i < j < |s| && s[i] == s[j]
    ensures multiset(s)[s[i]] >= 2
  {
    assert s == s[..j] + [s[j]] + s[j + 1..];
    assert s[i] in s[..j];
  }

  /** In a sequence without repeats every element occurs at most once. */
  lemma {:induction false} OneOccurrence<T>(s: seq<T>, x: T)
    requires Distinct(s)
    ensures multiset(s)[x] <= 1
    decreases |s|
  {
    if |s| > 0 {
      var n := |s| - 1;
      DistinctSnoc(s);
      OneOccurrence(s[..n], x);
      assert s == s[..n] + [s[n]];
    }
  }

  /** Reordering groups whose keys are distinct keeps the keys distinct. */
  lemma PermutedKeysDistinct<K, V>(a: seq<Group<K, V>>, b: seq<Group<K, V>>)
    requires multiset(a) == multiset(b)
    requires Distinct(GroupKeys(b))
    ensures Distinct(GroupKeys(a))
  {
    forall i, j | 0 <= i < j < |a| ensures a[i].key != a[j].key {
      assert a[i] in multiset(b) && a[j] in multiset(b);
      var p :| 0 <= p < |b| && b[p] == a[i];
      var q :| 0 <= q < |b| && b[q] == a[j];
      if a[i] == a[j] {
        TwoOccurrences(a, i, j);
        assert Distinct(b) by {
          forall x, y | 0 <= x < y < |b| ensures b[x] != b[y] {
            assert GroupKeys(b)[x] != GroupKeys(b)[y];
          }
        }
        OneOccurrence(b, a[i]);
      } else {
        assert p != q;
        assert GroupKeys(b)[p] != GroupKeys(b)[q];
      }
    }
  }

  /** Groups that hold only their own key's elements come back from keying their elements and grouping again. */
  lemma RegroupKeyed<K, V>(gs: seq<Group<K, V>>, key: V -> K)
    requires Distinct(GroupKeys(gs))
    requires forall i :: 0 <= i < |gs| ==> 0 < |gs[i].items|
    requires forall i, v :: 0 <= i < |gs| && v in gs[i].items ==> key(v) == gs[i].key
    ensures GroupPairs(KeyedBy(Flatten(gs), key)) == gs
  {
    KeyedByFlatten(gs, key);
    Regroup(gs);
  }

  /** RegroupKeyed for any reordering `a` of such groups `b`. */
  lemma RegroupPermuted<K, V>(a: seq<Group<K, V>>, b: seq<Group<K, V>>, key: V -> K)
    requires multiset(a) == multiset(b)
    requires Distinct(GroupKeys(b))
    requires forall i :: 0 <= i < |b| ==> 0 < |b[i].items|
    requires forall i, v :: 0 <= i < |b| && v in b[i].items ==> key(v) == b[i].key
    ensures GroupPairs(KeyedBy(Flatten(a), key)) == a
  {
    PermutedKeysDistinct(a, b);
    forall i | 0 <= i < |a|
      ensures 0 < |a[i].items|
      ensures forall v :: v in a[i].items ==> key(v) == a[i].key
    {
      assert a[i] in multiset(b);
      var p :| 0 <= p < |b| && b[p] == a[i];
    }
    RegroupKeyed(a, key);
  }

  // ---------------------------------------------------------------------------
  // Counting distinct keys

  lemma {:induction false} DistinctCard<T>(s: seq<T>)
    requires Distinct(s)
    ensures |set x | x in s| == |s|
    decreases |s|
  {
    if |s| > 0 {
      var n := |s| - 1;
      DistinctCard(s[..n]);
      assert s == s[..n] + [s[n]];
      assert (set x | x in s) == (set x | x in s[..n]) + {s[n]};
    }
  }

  lemma {:induction false} CardAtMost<T>(t: seq<T>)
    ensures |set x | x in t| <= |t|
    decreases |t|
  {
    if |t| > 0 {
      var n := |t| - 1;
      CardAtMost(t[..n]);
      assert t == t[..n] + [t[n]];
      assert (set x | x in t) == (set x | x in t[..n]) + {t[n]};
    }
  }

  /** A sequence without repetitions drawn from `t` is no longer than `t`. */
  lemma DistinctWithin<T>(s: seq<T>, t: seq<T>)
    requires Distinct(s)
    requires forall i :: 0 <= i < |s| ==> s[i] in t
    ensures |s| <= |t|
  {
    var a, b := set x | x in s, set x | x in t;
    DistinctCard(s);
    CardAtMost(t);
    assert a <= b;
    assert b == a + (b - a);
  }
}
