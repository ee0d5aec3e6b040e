/**
  Python's insertion-ordered `dict`, as an association list: the entries are
  kept in the order in which their keys were first inserted, and assigning to
  a key that is already present changes its value in place.
 */
module AssocList {
  import opened Wrappers

  type Dict<K, V> = seq<(K, V)>

  /** The keys, in iteration order. */
  function Keys<K, V>(d: Dict<K, V>): (ks: seq<K>)
    ensures |ks| == |d|
    ensures forall i :: 0 <= i < |d| ==> ks[i] == d[i].0
  {
    seq(|d|, i requires 0 <= i < |d| => d[i].0)
  }

  /** True when no key occurs twice, as in every Python dict. */
  predicate DistinctKeys<K(==), V>(d: Dict<K, V>)
  {
    forall i, j :: 0 <= i < j < |d| ==> d[i].0 != d[j].0
  }

  /** The position of the first entry with key `k`, or `|d|` when there is none. */
  function Find<K(==), V>(d: Dict<K, V>, k: K): (i: nat)
    ensures i <= |d|
    ensures i < |d| ==> d[i].0 == k
    ensures forall j :: 0 <= j < i ==> d[j].0 != k
  {
    if d == [] then 0
    else if d[0].0 == k then 0
    else 1 + Find(d[1..], k)
  }

  /** `k in d`. */
  lemma FindKeys<K, V>(d: Dict<K, V>, k: K)
    ensures Find(d, k) < |d| <==> k in Keys(d)
  {
    if k in Keys(d) {
      var j :| 0 <= j < |d| && Keys(d)[j] == k;
      assert d[j].0 == k;
    }
  }

  /** `d.get(k)`: the value of the first entry with key `k`. */
  function Get<K(==), V>(d: Dict<K, V>, k: K): (r: Option<V>)
  {
    var i := Find(d, k);
    if i < |d| then Some(d[i].1) else None
  }

  /** `d.get(k, default)`. */
  function GetOr<K(==), V>(d: Dict<K, V>, k: K, default: V): V
  {
    match Get(d, k)
    case Some(v) => v
    case None => default
  }

  /** `d[k] = v`: a present key keeps its position and takes the new value; a new key goes last. */
  function Put<K(==), V>(d: Dict<K, V>, k: K, v: V): Dict<K, V>
  {
    var i := Find(d, k);
    if i < |d| then d[i := (k, v)] else d + [(k, v)]
  }

  /** The first entry with key `k` is found. */
  lemma {:induction false} FindAt<K, V>(d: Dict<K, V>, i: nat, k: K)
    requires i < |d| && d[i].0 == k
    requires forall j :: 0 <= j < i ==> d[j].0 != k
    ensures Find(d, k) == i
  {
    if i > 0 {
      FindAt(d[1..], i - 1, k);
    }
  }

  /** `d[k] = v` keeps the keys and their order, appending `k` when it is new. */
  lemma PutKeys<K, V>(d: Dict<K, V>, k: K, v: V)
    ensures Keys(Put(d, k, v)) == if k in Keys(d) then Keys(d) else Keys(d) + [k]
  {
    FindKeys(d, k);
  }

  /** After `d[k] = v`, `d[k]` is `v`. */
  lemma PutGet<K, V>(d: Dict<K, V>, k: K, v: V)
    ensures Get(Put(d, k, v), k) == Some(v)
  {
    var i := Find(d, k);
    if i < |d| {
      FindAt(d[i := (k, v)], i, k);
    } else {
      FindSnoc(d, (k, v), k);
    }
  }

  /** `d[k] = v` leaves the value of every other key as it was. */
  lemma PutGetOther<K, V>(d: Dict<K, V>, k: K, v: V, q: K)
    requires q != k
    ensures Get(Put(d, k, v), q) == Get(d, q)
  {
    FindKeys(d, k);
    var r := Put(d, k, v);
    if Find(d, k) < |d| {
      assert forall j :: 0 <= j < |d| ==> r[j].0 == d[j].0;
      FindSame(d, r, q);
    } else {
      FindSnoc(d, (k, v), q);
    }
  }

  lemma {:induction false} FindSame<K, V>(d: Dict<K, V>, e: Dict<K, V>, q: K)
    requires |d| == |e| && forall j :: 0 <= j < |d| ==> e[j].0 == d[j].0
    requires forall j :: 0 <= j < |d| && d[j].0 == q ==> e[j] == d[j]
    ensures Find(e, q) == Find(d, q) && Get(e, q) == Get(d, q)
  {
    if d != [] {
      FindSame(d[1..], e[1..], q);
    }
  }

  lemma {:induction false} FindSnoc<K, V>(d: Dict<K, V>, x: (K, V), q: K)
    ensures Find(d + [x], q) == if Find(d, q) < |d| then Find(d, q) else if x.0 == q then |d| else |d| + 1
  {
    if d != [] {
      assert (d + [x])[1..] == d[1..] + [x];
      FindSnoc(d[1..], x, q);
    }
  }

  /** Assigning a key not yet present appends one entry and keeps every other entry. */
  lemma PutFresh<K, V>(d: Dict<K, V>, k: K, v: V)
    requires k !in Keys(d)
    ensures Put(d, k, v) == d + [(k, v)]
  {
    FindKeys(d, k);
  }

  /** Assignment keeps a dict's keys distinct. */
  lemma PutDistinct<K, V>(d: Dict<K, V>, k: K, v: V)
    requires DistinctKeys(d)
    ensures DistinctKeys(Put(d, k, v))
  {
    FindKeys(d, k);
    if k in Keys(d) {
      assert forall j :: 0 <= j < |d| ==> Put(d, k, v)[j].0 == d[j].0;
    } else {
      assert forall j :: 0 <= j < |d| ==> d[j].0 != k by {
        forall j | 0 <= j < |d| ensures d[j].0 != k { assert Keys(d)[j] == d[j].0; }
      }
    }
  }

  /** In a dict with distinct keys, looking up the key of entry `i` gives entry `i`'s value. */
  lemma GetDistinct<K, V>(d: Dict<K, V>, i: nat)
    requires DistinctKeys(d) && i < |d|
    ensures Get(d, d[i].0) == Some(d[i].1)
  {
    var f := Find(d, d[i].0);
    assert f <= i;
  }
}
