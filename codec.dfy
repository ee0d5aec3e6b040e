/**
  Encoding and decoding of tokenizer.py (`stoi`, `encode`, `decode`): text
  becomes its UTF-8 bytes, every merge rule is applied once in increasing id
  order, and decoding expands each id recursively back to bytes.
 */
module Codec {
  import opened Wrappers
  import opened AssocList
  import opened Symbols
  import opened Merging
  import Utf8

  /** The merge table: an insertion-ordered dict from pair to the id it was merged into. */
  type Table = Dict<Pair, Id>

  /** The configuration keys the core reads: `regex_string` (None for a null value) and `vocab_size`. */
  datatype Config = Config(regexString: Option<string>, vocabSize: int)

  /** `stoi` takes its default branch when `config["regex_string"]` is None (null) or empty. */
  predicate DefaultBranch(config: Config)
  {
    config.regexString.None? || config.regexString.value == []
  }

  /** The default branch of `stoi`: the UTF-8 bytes of every character, in order, as ids. */
  function Stoi(text: string): seq<Id>
  {
    Utf8.EncodeString(text)
  }

  predicate SortedById(t: Table)
  {
    forall i, j :: 0 <= i < j < |t| ==> t[i].1 <= t[j].1
  }

  /** Insert `e` into a table sorted by id, after every entry whose id is not larger. */
  function Insert(s: Table, e: (Pair, Id)): Table
    decreases |s|
  {
    if s == [] then [e]
    else if s[|s| - 1].1 <= e.1 then s + [e]
    else Insert(s[..|s| - 1], e) + [s[|s| - 1]]
  }

  /** `sorted(merges.items(), key=lambda x: x[1])`: a stable insertion sort on the ids. */
  function SortById(t: Table): Table
  {
    if t == [] then [] else Insert(SortById(t[..|t| - 1]), t[|t| - 1])
  }

  lemma {:induction false} InsertSorted(s: Table, e: (Pair, Id))
    requires SortedById(s)
    ensures SortedById(Insert(s, e))
    ensures forall i :: 0 <= i < |Insert(s, e)| ==> Insert(s, e)[i] == e || Insert(s, e)[i] in s
    decreases |s|
  {
    if s != [] && s[|s| - 1].1 > e.1 {
      var init, last := s[..|s| - 1], s[|s| - 1];
      InsertSorted(init, e);
      var r := Insert(init, e);
      assert forall i :: 0 <= i < |r| ==> r[i].1 <= last.1 by {
        forall i | 0 <= i < |r| ensures r[i].1 <= last.1 {
          if r[i] != e {
            var j :| 0 <= j < |init| && init[j] == r[i];
            assert s[j] == init[j];
          }
        }
      }
      forall i | 0 <= i < |r| + 1 ensures (r + [last])[i] == e || (r + [last])[i] in s {
        if i < |r| && r[i] != e {
          var j :| 0 <= j < |init| && init[j] == r[i];
          assert s[j] == init[j];
        }
      }
    }
  }

  lemma {:induction false} InsertMultiset(s: Table, e: (Pair, Id))
    ensures multiset(Insert(s, e)) == multiset(s) + multiset{e}
    decreases |s|
  {
    if s != [] && s[|s| - 1].1 > e.1 {
      var init, last := s[..|s| - 1], s[|s| - 1];
      assert s == init + [last];
      InsertMultiset(init, e);
    }
  }

  /** The sorted merge list is sorted by id. */
  lemma {:induction false} SortByIdOrdered(t: Table)
    ensures SortedById(SortById(t))
  {
    if t != [] {
      SortByIdOrdered(t[..|t| - 1]);
      InsertSorted(SortById(t[..|t| - 1]), t[|t| - 1]);
    }
  }

  /** The sorted merge list holds exactly the table's entries. */
  lemma {:induction false} SortByIdPermutation(t: Table)
    ensures multiset(SortById(t)) == multiset(t)
  {
    if t != [] {
      var init, last := t[..|t| - 1], t[|t| - 1];
      SortByIdPermutation(init);
      InsertMultiset(SortById(init), last);
      assert t == init + [last];
      assert multiset(t) == multiset(init) + multiset{last};
    }
  }

  /** A table whose ids already increase is left as it is: for such tables the sort is stable. */
  lemma {:induction false} SortByIdSorted(t: Table)
    requires SortedById(t)
    ensures SortById(t) == t
  {
    if t != [] {
      var init := t[..|t| - 1];
      SortByIdSorted(init);
      assert t == init + [t[|t| - 1]];
    }
  }

  /** `for (p1, p2), idx in rules: ids = merge(ids, (p1, p2), idx)`. */
  function ApplyMerges(ids: seq<Id>, rules: Table): seq<Id>
    decreases |rules|
  {
    if rules == [] then ids else ApplyMerges(Merged(ids, rules[0].0, rules[0].1), rules[1..])
  }

  /** Applying one more rule at the end merges the previous result once more. */
  lemma {:induction false} ApplyMergesSnoc(ids: seq<Id>, rules: Table, r: (Pair, Id))
    ensures ApplyMerges(ids, rules + [r]) == Merged(ApplyMerges(ids, rules), r.0, r.1)
    decreases |rules|
  {
    if rules != [] {
      assert (rules + [r])[1..] == rules[1..] + [r];
      ApplyMergesSnoc(Merged(ids, rules[0].0, rules[0].1), rules[1..], r);
    }
  }

  /** What `encode(text, merges, config)` returns. */
  function Encoded(merges: Table, text: string): seq<Id>
  {
    ApplyMerges(Stoi(text), SortById(merges))
  }

  /** `encode`: the loop over the sorted merges reassigns `ids`. */
  method Encode(text: string, merges: Table, config: Config) returns (ids: seq<Id>)
    requires DefaultBranch(config)
    ensures ids == Encoded(merges, text)
  {
    ids := Stoi(text);
    var sorted := SortById(merges);
    ghost var start := ids;
    for k := 0 to |sorted|
      invariant ApplyMerges(ids, sorted[k..]) == ApplyMerges(start, sorted)
    {
      assert sorted[k..][1..] == sorted[k + 1..];
      ids := Merge(ids, sorted[k].0, sorted[k].1);
    }
  }

  /** `{idx: pair for pair, idx in merges.items()}`: later entries overwrite earlier ones with the same id. */
  function Reverse(t: Table): (rev: map<Id, Pair>)
    ensures forall k :: 0 <= k < |t| ==> t[k].1 in rev
    ensures forall id :: id in rev ==> exists k :: 0 <= k < |t| && t[k].1 == id
  {
    if t == [] then map[]
    else
      var init := t[..|t| - 1];
      var rev := Reverse(init)[t[|t| - 1].1 := t[|t| - 1].0];
      assert forall k :: 0 <= k < |init| ==> init[k] == t[k];
      rev
  }

  /** Each id maps back to the pair of the last entry that carries it. */
  lemma {:induction false} ReverseLast(t: Table, k: nat)
    requires k < |t|
    requires forall j :: k < j < |t| ==> t[j].1 != t[k].1
    ensures Reverse(t)[t[k].1] == t[k].0
  {
    if k < |t| - 1 {
      var init := t[..|t| - 1];
      ReverseLast(init, k);
    }
  }

  /**
    Expansion of `t` terminates without a missing key: `t` is a byte, or it
    is in the reverse map with two smaller ids that expand in turn.
   */
  predicate Expandable(rev: map<Id, Pair>, t: Id)
    decreases t
  {
    t < 256 || (t in rev && rev[t].0 < t && rev[t].1 < t && Expandable(rev, rev[t].0) && Expandable(rev, rev[t].1))
  }

  predicate AllExpandable(rev: map<Id, Pair>, ids: seq<Id>)
  {
    forall i :: 0 <= i < |ids| ==> Expandable(rev, ids[i])
  }

  /** `expand_token`: a byte stands for itself; a merged id for its two children's expansions, joined. */
  function ExpandToken(rev: map<Id, Pair>, t: Id): (r: seq<Utf8.Byte>)
    requires Expandable(rev, t)
    ensures |r| >= 1
    ensures |r| == 1 <==> t < 256
    decreases t
  {
    if t < 256 then [t] else ExpandToken(rev, rev[t].0) + ExpandToken(rev, rev[t].1)
  }

  /** `b''.join(expand_token(id) for id in ids)`. */
  function ExpandAll(rev: map<Id, Pair>, ids: seq<Id>): seq<Utf8.Byte>
    requires AllExpandable(rev, ids)
  {
    if ids == [] then [] else ExpandToken(rev, ids[0]) + ExpandAll(rev, ids[1..])
  }

  /** The text `decode` returns when the bytes are not UTF-8. */
  const DecodeErrorText: string := "[DECODE_ERROR]"

  /** `decode(ids, merges, config)`; the configuration is not used by it. */
  function Decode(ids: seq<Id>, merges: Table): string
    requires AllExpandable(Reverse(merges), ids)
  {
    match Utf8.Decode(ExpandAll(Reverse(merges), ids))
    case Some(s) => s
    case None => DecodeErrorText
  }

  /**
    `decode` returns `s` exactly when `s` is the text whose UTF-8 encoding is
    the expanded bytes, or when `s` is the error text and no text has those bytes.
   */
  lemma DecodeMeaning(ids: seq<Id>, merges: Table, s: string)
    requires AllExpandable(Reverse(merges), ids)
    ensures Decode(ids, merges) == s <==>
      var b := ExpandAll(Reverse(merges), ids);
      Utf8.EncodeString(s) == b || (s == DecodeErrorText && forall t :: Utf8.EncodeString(t) != b)
  {
    var b := ExpandAll(Reverse(merges), ids);
    Utf8.DecodeIff(b, s);
    if Utf8.Decode(b).None? {
      forall t ensures Utf8.EncodeString(t) != b {
        Utf8.DecodeIff(b, t);
      }
    } else {
      Utf8.DecodeIff(b, Utf8.Decode(b).value);
    }
  }

  /** Raw bytes expand to themselves. */
  lemma {:induction false} ExpandBytes(rev: map<Id, Pair>, bytes: seq<Utf8.Byte>)
    ensures AllExpandable(rev, bytes)
    ensures ExpandAll(rev, bytes) == bytes
  {
    if bytes != [] {
      ExpandBytes(rev, bytes[1..]);
      assert bytes == [bytes[0]] + bytes[1..];
    }
  }

  /** The central round trip: merging on a rule of the reverse map does not change the expanded bytes. */
  lemma {:induction false} ExpandMerged(rev: map<Id, Pair>, ids: seq<Id>, pair: Pair, idx: Id)
    requires idx >= 256 && idx in rev && rev[idx] == pair && Expandable(rev, idx)
    requires AllExpandable(rev, ids)
    ensures AllExpandable(rev, Merged(ids, pair, idx))
    ensures ExpandAll(rev, Merged(ids, pair, idx)) == ExpandAll(rev, ids)
    decreases |ids|
  {
    if |ids| >= 2 && ids[0] == pair.0 && ids[1] == pair.1 {
      var rest := ids[2..];
      assert AllExpandable(rev, rest) by {
        forall i | 0 <= i < |rest| ensures Expandable(rev, rest[i]) { assert rest[i] == ids[i + 2]; }
      }
      ExpandMerged(rev, rest, pair, idx);
      var out := Merged(ids, pair, idx);
      assert out == [idx] + Merged(rest, pair, idx);
      assert out[1..] == Merged(rest, pair, idx);
      assert ids[1..][1..] == rest;
      assert ExpandAll(rev, ids) == ExpandToken(rev, ids[0]) + (ExpandToken(rev, ids[1]) + ExpandAll(rev, rest));
    } else if |ids| > 0 {
      var rest := ids[1..];
      assert AllExpandable(rev, rest) by {
        forall i | 0 <= i < |rest| ensures Expandable(rev, rest[i]) { assert rest[i] == ids[i + 1]; }
      }
      ExpandMerged(rev, rest, pair, idx);
      var out := Merged(ids, pair, idx);
      assert out == [ids[0]] + Merged(rest, pair, idx);
      assert out[1..] == Merged(rest, pair, idx);
    }
  }

  /** Rules whose ids are merged ids that the reverse map sends back to their pairs. */
  predicate Invertible(rev: map<Id, Pair>, rules: Table)
  {
    forall k :: 0 <= k < |rules| ==>
      rules[k].1 >= 256 && rules[k].1 in rev && rev[rules[k].1] == rules[k].0 && Expandable(rev, rules[k].1)
  }

  /** Applying a sequence of invertible rules does not change the expanded bytes. */
  lemma {:induction false} ExpandApplyMerges(rev: map<Id, Pair>, ids: seq<Id>, rules: Table)
    requires Invertible(rev, rules) && AllExpandable(rev, ids)
    ensures AllExpandable(rev, ApplyMerges(ids, rules))
    ensures ExpandAll(rev, ApplyMerges(ids, rules)) == ExpandAll(rev, ids)
    decreases |rules|
  {
    if rules != [] {
      ExpandMerged(rev, ids, rules[0].0, rules[0].1);
      assert Invertible(rev, rules[1..]) by {
        forall k | 0 <= k < |rules| - 1 ensures rules[1..][k] == rules[k + 1] { }
      }
      ExpandApplyMerges(rev, Merged(ids, rules[0].0, rules[0].1), rules[1..]);
    }
  }

  /**
    A well-formed table, as training builds it: entry `k` has id `256 + k`,
    and both halves of its pair are smaller than that id.
   */
  predicate Contiguous(t: Table)
  {
    forall k :: 0 <= k < |t| ==> t[k].1 == 256 + k && t[k].0.0 < 256 + k && t[k].0.1 < 256 + k
  }

  /** In a well-formed table every id in `256 .. 255 + |t|` expands. */
  lemma ContiguousExpandable(t: Table, id: Id)
    requires Contiguous(t) && id < 256 + |t|
    ensures Expandable(Reverse(t), id)
    decreases id
  {
    if id >= 256 {
      var k := id - 256;
      ReverseLast(t, k);
      ContiguousExpandable(t, t[k].0.0);
      ContiguousExpandable(t, t[k].0.1);
    }
  }

  /** Round trip: with a well-formed table, decoding the encoding of any text gives the text back. */
  lemma RoundTrip(t: Table, text: string)
    requires Contiguous(t)
    ensures AllExpandable(Reverse(t), Encoded(t, text))
    ensures Decode(Encoded(t, text), t) == text
  {
    var rev := Reverse(t);
    var bytes := Utf8.EncodeString(text);
    assert SortedById(t);
    SortByIdSorted(t);
    assert Invertible(rev, t) by {
      forall k | 0 <= k < |t|
        ensures t[k].1 >= 256 && t[k].1 in rev && rev[t[k].1] == t[k].0 && Expandable(rev, t[k].1)
      {
        ReverseLast(t, k);
        ContiguousExpandable(t, t[k].1);
      }
    }
    ExpandBytes(rev, bytes);
    ExpandApplyMerges(rev, bytes, t);
    Utf8.DecodeEncode(text);
  }
}
