/**
  Pair statistics of tokenizer.py (`get_stats`), and the selection of the
  most frequent pair that training makes with `max(stats, key=stats.get)`.
  The statistics are an insertion-ordered dict from pair to count, so the
  order of its entries is part of the model: it decides which pair wins a tie.
 */
module PairStats {
  import opened Wrappers
  import opened AssocList
  import opened Symbols

  type Counts = Dict<Pair, nat>

  /** `counts[pair] = counts.get(pair, 0) + 1`. */
  function Bump(c: Counts, p: Pair): Counts
  {
    Put(c, p, GetOr(c, p, 0) + 1)
  }

  /** The counts after adding every pair of `ps`, in order. */
  function Tally(c: Counts, ps: seq<Pair>): Counts
    decreases |ps|
  {
    if ps == [] then c else Tally(Bump(c, ps[0]), ps[1..])
  }

  /** The sum of all counts. */
  function Total(c: Counts): nat
  {
    if c == [] then 0 else c[0].1 + Total(c[1..])
  }

  /** The dict that `get_stats` updates in place. */
  class PairCounts {
    var entries: Counts

    /** `{}` */
    constructor ()
      ensures entries == []
    {
      entries := [];
    }
  }

  /**
    `get_stats(ids, counts)`: with no dict given a fresh one is made;
    otherwise the given dict is updated in place and returned.
   */
  method GetStats(ids: seq<Id>, counts: PairCounts?) returns (r: PairCounts)
    modifies counts
    ensures counts != null ==> r == counts
    ensures counts == null ==> fresh(r)
    ensures r.entries == Tally(if counts == null then [] else old(counts.entries), AdjacentPairs(ids))
  {
    if counts == null {
      r := new PairCounts();
    } else {
      r := counts;
    }
    var ps := AdjacentPairs(ids);
    ghost var start := r.entries;
    for k := 0 to |ps|
      invariant Tally(r.entries, ps[k..]) == Tally(start, ps)
    {
      assert ps[k..][1..] == ps[k + 1..];
      r.entries := Bump(r.entries, ps[k]);
    }
  }

  /** Every pair's count grows by its number of occurrences in `ps`; counts already present are added to, not reset. */
  lemma {:induction false} TallyCount(c: Counts, ps: seq<Pair>, q: Pair)
    ensures GetOr(Tally(c, ps), q, 0) == GetOr(c, q, 0) + Count(ps, q)
    decreases |ps|
  {
    if ps != [] {
      var b := Bump(c, ps[0]);
      BumpGet(c, ps[0], q);
      TallyCount(b, ps[1..], q);
      assert Tally(c, ps) == Tally(b, ps[1..]);
      assert Count(ps, q) == (if ps[0] == q then 1 else 0) + Count(ps[1..], q);
    }
  }

  lemma BumpGet(c: Counts, p: Pair, q: Pair)
    ensures GetOr(Bump(c, p), q, 0) == GetOr(c, q, 0) + (if p == q then 1 else 0)
  {
    if p == q {
      PutGet(c, p, GetOr(c, p, 0) + 1);
    } else {
      PutGetOther(c, p, GetOr(c, p, 0) + 1, q);
    }
  }

  /** `get_stats` adds one per adjacent position: `max(len(ids) - 1, 0)` in all. */
  lemma {:induction false} TallyTotal(c: Counts, ids: seq<Id>)
    ensures Total(Tally(c, AdjacentPairs(ids))) == Total(c) + (if |ids| == 0 then 0 else |ids| - 1)
  {
    TallyTotalPairs(c, AdjacentPairs(ids));
  }

  lemma {:induction false} TallyTotalPairs(c: Counts, ps: seq<Pair>)
    ensures Total(Tally(c, ps)) == Total(c) + |ps|
    decreases |ps|
  {
    if ps != [] {
      BumpTotal(c, ps[0]);
      TallyTotalPairs(Bump(c, ps[0]), ps[1..]);
    }
  }

  lemma BumpTotal(c: Counts, p: Pair)
    ensures Total(Bump(c, p)) == Total(c) + 1
  {
    var i := Find(c, p);
    if i < |c| {
      TotalUpdate(c, i, (p, c[i].1 + 1));
    } else {
      TotalSnoc(c, (p, 1));
    }
  }

  lemma {:induction false} TotalUpdate(c: Counts, i: nat, e: (Pair, nat))
    requires i < |c|
    ensures Total(c[i := e]) == Total(c) - c[i].1 + e.1
  {
    if i > 0 {
      assert c[i := e][1..] == c[1..][i - 1 := e];
      TotalUpdate(c[1..], i - 1, e);
    }
  }

  lemma {:induction false} TotalSnoc(c: Counts, e: (Pair, nat))
    ensures Total(c + [e]) == Total(c) + e.1
  {
    if c != [] {
      assert (c + [e])[1..] == c[1..] + [e];
      TotalSnoc(c[1..], e);
    }
  }

  /** Tallying keeps the dict's keys distinct. */
  lemma {:induction false} TallyDistinct(c: Counts, ps: seq<Pair>)
    requires DistinctKeys(c)
    ensures DistinctKeys(Tally(c, ps))
    decreases |ps|
  {
    if ps != [] {
      PutDistinct(c, ps[0], GetOr(c, ps[0], 0) + 1);
      TallyDistinct(Bump(c, ps[0]), ps[1..]);
    }
  }

  /** The elements of `ps` not in `seen`, each once, in order of first occurrence. */
  function Dedup(ps: seq<Pair>, seen: seq<Pair>): seq<Pair>
    decreases |ps|
  {
    if ps == [] then []
    else if ps[0] in seen then Dedup(ps[1..], seen)
    else [ps[0]] + Dedup(ps[1..], seen + [ps[0]])
  }

  /** Keys already present keep their places; new pairs follow in order of first occurrence. */
  lemma {:induction false} TallyKeys(c: Counts, ps: seq<Pair>)
    ensures Keys(Tally(c, ps)) == Keys(c) + Dedup(ps, Keys(c))
    decreases |ps|
  {
    if ps != [] {
      PutKeys(c, ps[0], GetOr(c, ps[0], 0) + 1);
      TallyKeys(Bump(c, ps[0]), ps[1..]);
    }
  }

  /** `Dedup` holds each new element of `ps` exactly once, ordered by first occurrence. */
  lemma {:induction false} DedupFacts(ps: seq<Pair>, seen: seq<Pair>)
    ensures forall x :: x in Dedup(ps, seen) <==> x in ps && x !in seen
    ensures forall i, j :: 0 <= i < j < |Dedup(ps, seen)| ==>
      FirstIndex(ps, Dedup(ps, seen)[i]) < FirstIndex(ps, Dedup(ps, seen)[j])
    decreases |ps|
  {
    if ps != [] {
      var rest := ps[1..];
      assert forall x :: x in ps <==> x == ps[0] || x in rest;
      if ps[0] in seen {
        DedupFacts(rest, seen);
        var d := Dedup(rest, seen);
        forall i, j | 0 <= i < j < |d| ensures FirstIndex(ps, d[i]) < FirstIndex(ps, d[j]) {
          assert d[i] != ps[0] && d[j] != ps[0];
          assert FirstIndex(ps, d[i]) == 1 + FirstIndex(rest, d[i]);
          assert FirstIndex(ps, d[j]) == 1 + FirstIndex(rest, d[j]);
        }
      } else {
        DedupFacts(rest, seen + [ps[0]]);
        var d' := Dedup(rest, seen + [ps[0]]);
        var d := Dedup(ps, seen);
        assert d == [ps[0]] + d';
        forall i, j | 0 <= i < j < |d| ensures FirstIndex(ps, d[i]) < FirstIndex(ps, d[j]) {
          assert d[j] == d'[j - 1] && d'[j - 1] in d' && ps[0] in seen + [ps[0]];
          assert FirstIndex(ps, d[j]) == 1 + FirstIndex(rest, d[j]);
          if i > 0 {
            assert d[i] == d'[i - 1] && d'[i - 1] in d';
            assert FirstIndex(ps, d[i]) == 1 + FirstIndex(rest, d[i]);
          }
        }
      }
    }
  }

  /**
    `max(stats, key=stats.get)`: the position of the first entry of maximal
    count (the scan replaces its candidate only on a strictly larger count).
   */
  function FirstMaxIndex(c: Counts): (k: nat)
    requires |c| > 0
    ensures k < |c|
    ensures forall j :: 0 <= j < |c| ==> c[j].1 <= c[k].1
    ensures forall j :: 0 <= j < k ==> c[j].1 < c[k].1
  {
    if |c| == 1 then 0
    else
      var k := FirstMaxIndex(c[..|c| - 1]);
      if c[|c| - 1].1 > c[k].1 then |c| - 1 else k
  }

  /** The statistics of one token sequence, as training computes them. */
  function Stats(ids: seq<Id>): Counts
  {
    Tally([], AdjacentPairs(ids))
  }

  /** The pair training merges next, or None when `max` would raise on empty statistics. */
  function MostFrequent(ids: seq<Id>): (r: Option<Pair>)
  {
    var st := Stats(ids);
    if st == [] then None else Some(st[FirstMaxIndex(st)].0)
  }

  /** The statistics of a fresh dict have distinct keys, and their keys are the pairs that occur. */
  lemma StatsKeys(ids: seq<Id>)
    ensures DistinctKeys(Stats(ids))
    ensures forall q :: q in Keys(Stats(ids)) <==> q in AdjacentPairs(ids)
  {
    var ps := AdjacentPairs(ids);
    TallyDistinct([], ps);
    TallyKeys([], ps);
    DedupFacts(ps, []);
  }

  /** Each entry of a fresh dict holds the number of occurrences of its pair. */
  lemma StatsCounts(ids: seq<Id>, i: nat)
    requires i < |Stats(ids)|
    ensures Stats(ids)[i].1 == Count(AdjacentPairs(ids), Stats(ids)[i].0)
  {
    StatsKeys(ids);
    GetDistinct(Stats(ids), i);
    TallyCount([], AdjacentPairs(ids), Stats(ids)[i].0);
  }

  /** The entries of a fresh dict are in order of the first occurrence of their pairs. */
  lemma StatsOrder(ids: seq<Id>, i: nat, j: nat)
    requires i < j < |Stats(ids)|
    ensures Stats(ids)[i].0 in AdjacentPairs(ids) && Stats(ids)[j].0 in AdjacentPairs(ids)
    ensures FirstIndex(AdjacentPairs(ids), Stats(ids)[i].0) < FirstIndex(AdjacentPairs(ids), Stats(ids)[j].0)
  {
    var ps := AdjacentPairs(ids);
    var st := Stats(ids);
    TallyKeys([], ps);
    DedupFacts(ps, []);
    var d := Dedup(ps, []);
    assert Keys(st) == d;
    assert Keys(st)[i] == st[i].0 && Keys(st)[j] == st[j].0;
    assert d[i] in d && d[j] in d;
  }

  /**
    Selection fails exactly when fewer than two tokens remain. Otherwise it
    picks a pair that occurs, whose count no other pair exceeds, and among the
    pairs of that count the one whose first occurrence is earliest.
   */
  lemma MostFrequentFacts(ids: seq<Id>)
    ensures MostFrequent(ids).None? <==> |ids| < 2
    ensures MostFrequent(ids).Some? ==>
      var p, ps := MostFrequent(ids).value, AdjacentPairs(ids);
      && p in ps
      && (forall q :: q in ps ==> Count(ps, q) <= Count(ps, p))
      && (forall q :: q in ps && Count(ps, q) == Count(ps, p) ==> FirstIndex(ps, p) <= FirstIndex(ps, q))
  {
    var ps := AdjacentPairs(ids);
    var st := Stats(ids);
    StatsKeys(ids);
    if |ids| >= 2 {
      assert ps[0] in ps;
      assert ps[0] in Keys(st);
    }
    if st != [] {
      var k := FirstMaxIndex(st);
      var p := st[k].0;
      assert Keys(st)[k] == p;
      StatsCounts(ids, k);
      forall q | q in ps ensures Count(ps, q) <= Count(ps, p)
        && (Count(ps, q) == Count(ps, p) ==> FirstIndex(ps, p) <= FirstIndex(ps, q))
      {
        var j :| 0 <= j < |st| && Keys(st)[j] == q;
        assert st[j].0 == q;
        StatsCounts(ids, j);
        if k < j {
          StatsOrder(ids, k, j);
        }
      }
    } else {
      assert Keys(st) == [];
      assert |ps| == 0;
    }
  }
}
