/**
  The merge operator of tokenizer.py (`merge`): one left-to-right scan that
  replaces each non-overlapping occurrence of a pair by a new id and resumes
  right after the replaced pair.
 */
module Merging {
  import opened Symbols

  /** Reference definition of the scan: match at the front, or keep the front id. */
  function Merged(ids: seq<Id>, pair: Pair, idx: Id): seq<Id>
    decreases |ids|
  {
    if |ids| == 0 then []
    else if |ids| >= 2 && ids[0] == pair.0 && ids[1] == pair.1 then [idx] + Merged(ids[2..], pair, idx)
    else [ids[0]] + Merged(ids[1..], pair, idx)
  }

  /** The number of replacements the scan makes. */
  function Matches(ids: seq<Id>, pair: Pair): nat
    decreases |ids|
  {
    if |ids| == 0 then 0
    else if |ids| >= 2 && ids[0] == pair.0 && ids[1] == pair.1 then 1 + Matches(ids[2..], pair)
    else Matches(ids[1..], pair)
  }

  /** `merge(ids, pair, idx)`: the while loop over index `i`, appending to `newids`. */
  method Merge(ids: seq<Id>, pair: Pair, idx: Id) returns (newids: seq<Id>)
    ensures newids == Merged(ids, pair, idx)
  {
    newids := [];
    var i := 0;
    while i < |ids|
      invariant 0 <= i <= |ids|
      invariant newids + Merged(ids[i..], pair, idx) == Merged(ids, pair, idx)
    {
      if i < |ids| - 1 && ids[i] == pair.0 && ids[i + 1] == pair.1 {
        assert ids[i..][2..] == ids[i + 2..];
        newids := newids + [idx];
        i := i + 2;
      } else {
        assert ids[i..][1..] == ids[i + 1..];
        newids := newids + [ids[i]];
        i := i + 1;
      }
    }
  }

  /** Each replacement turns two ids into one: the output is shorter by the number of replacements. */
  lemma {:induction false} MergedLength(ids: seq<Id>, pair: Pair, idx: Id)
    ensures |Merged(ids, pair, idx)| == |ids| - Matches(ids, pair)
    ensures 2 * Matches(ids, pair) <= |ids|
    decreases |ids|
  {
    if |ids| >= 2 && ids[0] == pair.0 && ids[1] == pair.1 {
      MergedLength(ids[2..], pair, idx);
    } else if |ids| > 0 {
      MergedLength(ids[1..], pair, idx);
    }
  }

  /** The scan replaces something exactly when the pair occurs somewhere. */
  lemma {:induction false} MatchesIff(ids: seq<Id>, pair: Pair)
    ensures Matches(ids, pair) > 0 <==> HasPair(ids, pair)
    decreases |ids|
  {
    if |ids| >= 2 && ids[0] == pair.0 && ids[1] == pair.1 {
      assert ids[0] == pair.0 && ids[0 + 1] == pair.1;
    } else if |ids| > 0 {
      MatchesIff(ids[1..], pair);
      var rest := ids[1..];
      if HasPair(rest, pair) {
        var k :| 0 <= k < |rest| - 1 && rest[k] == pair.0 && rest[k + 1] == pair.1;
        assert ids[k + 1] == pair.0 && ids[k + 2] == pair.1;
      }
      if HasPair(ids, pair) {
        var k :| 0 <= k < |ids| - 1 && ids[k] == pair.0 && ids[k + 1] == pair.1;
        assert k > 0;
        assert rest[k - 1] == pair.0 && rest[k] == pair.1;
      }
    }
  }

  /** The output equals the input exactly when the pair does not occur in it. */
  lemma MergedUnchangedIff(ids: seq<Id>, pair: Pair, idx: Id)
    ensures Merged(ids, pair, idx) == ids <==> !HasPair(ids, pair)
  {
    MergedLength(ids, pair, idx);
    MatchesIff(ids, pair);
    if Matches(ids, pair) == 0 {
      NoMatchesUnchanged(ids, pair, idx);
    }
  }

  lemma {:induction false} NoMatchesUnchanged(ids: seq<Id>, pair: Pair, idx: Id)
    requires Matches(ids, pair) == 0
    ensures Merged(ids, pair, idx) == ids
    decreases |ids|
  {
    if |ids| > 0 {
      NoMatchesUnchanged(ids[1..], pair, idx);
      assert ids == [ids[0]] + ids[1..];
    }
  }

  /** Matches are consumed from the left: a run of three `a` merged on `(a, a)` gives `[idx, a]`. */
  lemma MergedRunOfThree(a: Id, idx: Id)
    ensures Merged([a, a, a], (a, a), idx) == [idx, a]
  {
    var s := [a, a, a];
    assert s[2..] == [a] && [a][1..] == [];
    assert Merged([a], (a, a), idx) == [a] + Merged([], (a, a), idx) == [a];
    assert Merged(s, (a, a), idx) == [idx] + Merged(s[2..], (a, a), idx);
  }

  /** Every output id is the new id or an id of the input. */
  lemma {:induction false} MergedElements(ids: seq<Id>, pair: Pair, idx: Id)
    ensures forall x :: x in Merged(ids, pair, idx) ==> x == idx || x in ids
    decreases |ids|
  {
    if |ids| >= 2 && ids[0] == pair.0 && ids[1] == pair.1 {
      MergedElements(ids[2..], pair, idx);
      assert forall x :: x in ids[2..] ==> x in ids;
    } else if |ids| > 0 {
      MergedElements(ids[1..], pair, idx);
      assert forall x :: x in ids[1..] ==> x in ids;
    }
  }

  /** Undo a merge: every `idx` goes back to the two ids of `pair`. */
  function Unmerge(out: seq<Id>, pair: Pair, idx: Id): seq<Id>
  {
    if out == [] then []
    else (if out[0] == idx then [pair.0, pair.1] else [out[0]]) + Unmerge(out[1..], pair, idx)
  }

  /**
    When the new id is fresh, the output is the input with matched pairs
    folded into `idx`, in the original order: undoing the merge gives the
    input back.
   */
  lemma {:induction false} UnmergeMerged(ids: seq<Id>, pair: Pair, idx: Id)
    requires idx !in ids
    ensures Unmerge(Merged(ids, pair, idx), pair, idx) == ids
    decreases |ids|
  {
    if |ids| >= 2 && ids[0] == pair.0 && ids[1] == pair.1 {
      assert ids[2..] == ids[1..][1..];
      UnmergeMerged(ids[2..], pair, idx);
      assert ids == [ids[0], ids[1]] + ids[2..];
    } else if |ids| > 0 {
      assert ids[0] != idx;
      UnmergeMerged(ids[1..], pair, idx);
      assert ids == [ids[0]] + ids[1..];
    }
  }

  /** If the new id differs from both halves of the pair, no occurrence of the pair survives the merge. */
  lemma {:induction false} MergedRemovesPair(ids: seq<Id>, pair: Pair, idx: Id)
    requires idx != pair.0 && idx != pair.1
    ensures !HasPair(Merged(ids, pair, idx), pair)
    decreases |ids|
  {
    var out := Merged(ids, pair, idx);
    if |ids| >= 2 && ids[0] == pair.0 && ids[1] == pair.1 {
      MergedRemovesPair(ids[2..], pair, idx);
      HasPairCons(idx, Merged(ids[2..], pair, idx), pair);
    } else if |ids| > 0 {
      MergedRemovesPair(ids[1..], pair, idx);
      var rest := Merged(ids[1..], pair, idx);
      HasPairCons(ids[0], rest, pair);
    }
  }

  /** An occurrence in `[x] + s` is at the front or inside `s`. */
  lemma HasPairCons(x: Id, s: seq<Id>, p: Pair)
    ensures HasPair([x] + s, p) <==> (s != [] && x == p.0 && s[0] == p.1) || HasPair(s, p)
  {
    var t := [x] + s;
    if HasPair(t, p) {
      var k :| 0 <= k < |t| - 1 && t[k] == p.0 && t[k + 1] == p.1;
      if k > 0 {
        assert s[k - 1] == p.0 && s[k] == p.1;
      }
    }
    if HasPair(s, p) {
      var k :| 0 <= k < |s| - 1 && s[k] == p.0 && s[k + 1] == p.1;
      assert t[k + 1] == p.0 && t[k + 2] == p.1;
    }
    if s != [] && x == p.0 && s[0] == p.1 {
      assert t[0] == p.0 && t[1] == p.1;
    }
  }

  /**
    A merge creates no occurrence of a pair made of ids other than `idx`:
    if `q` was absent before, it is absent after.
   */
  lemma {:induction false} MergedKeepsAbsent(ids: seq<Id>, pair: Pair, idx: Id, q: Pair)
    requires !HasPair(ids, q) && idx != q.0 && idx != q.1
    ensures !HasPair(Merged(ids, pair, idx), q)
    decreases |ids|
  {
    if |ids| >= 2 && ids[0] == pair.0 && ids[1] == pair.1 {
      HasPairCons(ids[0], ids[1..], q);
      HasPairCons(ids[1], ids[2..], q);
      assert ids == [ids[0]] + ids[1..] && ids[1..] == [ids[1]] + ids[2..];
      MergedKeepsAbsent(ids[2..], pair, idx, q);
      HasPairCons(idx, Merged(ids[2..], pair, idx), q);
    } else if |ids| > 0 {
      HasPairCons(ids[0], ids[1..], q);
      assert ids == [ids[0]] + ids[1..];
      MergedKeepsAbsent(ids[1..], pair, idx, q);
      HasPairCons(ids[0], Merged(ids[1..], pair, idx), q);
    }
  }
}
