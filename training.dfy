/**
  The merge loop of `train_tokenizer` in tokenizer.py: count the pairs,
  pick the most frequent one (the first inserted on a tie), give it the id
  `256 + i`, merge it and record it, `vocab_size - 256` times.
 */
module Training {
  import opened Wrappers
  import opened AssocList
  import opened Symbols
  import opened Merging
  import opened PairStats
  import opened Codec

  /** The loop's variables: the current `tokens` and the `merges` recorded so far. */
  datatype TrainState = TrainState(tokens: seq<Id>, merges: Table)

  /** `max` raises on empty statistics (fewer than two tokens left) in the given iteration. */
  datatype TrainError = EmptyStats(iteration: nat)

  /** `num_merges = config["vocab_size"] - 256`; a `range` of a negative number is empty. */
  function NumMerges(config: Config): nat
  {
    if config.vocabSize > 256 then config.vocabSize - 256 else 0
  }

  /** Iteration `i` of the loop. */
  function Step(s: TrainState, i: nat): Result<TrainState, TrainError>
  {
    match MostFrequent(s.tokens)
    case None => Err(EmptyStats(i))
    case Some(pair) => Ok(TrainState(Merged(s.tokens, pair, 256 + i), Put(s.merges, pair, 256 + i)))
  }

  /** The state after the first `n` iterations, starting from the bytes of the corpus. */
  function Run(bytes: seq<Id>, n: nat): Result<TrainState, TrainError>
  {
    if n == 0 then Ok(TrainState(bytes, []))
    else
      match Run(bytes, n - 1)
      case Err(e) => Err(e)
      case Ok(s) => Step(s, n - 1)
  }

  /** The merge loop of `train_tokenizer` (tokenizer.py:132-149), on the bytes of the corpus text: the merge table, or the failing iteration. */
  method TrainTokenizer(text: string, config: Config) returns (r: Result<Table, TrainError>)
    requires DefaultBranch(config)
    ensures r == match Run(Stoi(text), NumMerges(config))
                 case Ok(s) => Ok(s.merges)
                 case Err(e) => Err(e)
  {
    var tokens := Stoi(text);
    var n := NumMerges(config);
    var merges: Table := [];
    for i := 0 to n
      invariant Run(Stoi(text), i) == Ok(TrainState(tokens, merges))
    {
      var stats := GetStats(tokens, null);
      NextIteration(Stoi(text), i, tokens, merges, stats.entries);
      if stats.entries == [] {
        RunErrPersists(Stoi(text), i + 1, n);
        return Err(EmptyStats(i));
      }
      var pair := stats.entries[FirstMaxIndex(stats.entries)].0;
      var idx := 256 + i;
      tokens := Merge(tokens, pair, idx);
      merges := Put(merges, pair, idx);
    }
    r := Ok(merges);
  }

  /** Proof helper: one unfolding of `Run` and `Step`, read off the statistics of the current tokens. */
  lemma NextIteration(bytes: seq<Id>, i: nat, tokens: seq<Id>, merges: Table, entries: Counts)
    requires Run(bytes, i) == Ok(TrainState(tokens, merges)) && entries == Stats(tokens)
    ensures entries == [] ==> Run(bytes, i + 1) == Err(EmptyStats(i))
    ensures entries != [] ==>
      var pair := entries[FirstMaxIndex(entries)].0;
      Run(bytes, i + 1) == Ok(TrainState(Merged(tokens, pair, 256 + i), Put(merges, pair, 256 + i)))
  {
  }

  /** Once an iteration fails, training has failed with that error. */
  lemma {:induction false} RunErrPersists(bytes: seq<Id>, i: nat, n: nat)
    requires i <= n && Run(bytes, i).Err?
    ensures Run(bytes, n) == Run(bytes, i)
    decreases n - i
  {
    if i < n {
      RunErrPersists(bytes, i + 1, n);
    }
  }

  /** What holds after `n` successful iterations. */
  ghost predicate Invariant(bytes: seq<Id>, s: TrainState, n: nat)
  {
    && |s.merges| == n
    && Contiguous(s.merges)
    && DistinctKeys(s.merges)
    && (forall x :: x in s.tokens ==> x < 256 + n)
    && (forall k :: 0 <= k < n ==> !HasPair(s.tokens, s.merges[k].0))
    && s.tokens == ApplyMerges(bytes, s.merges)
    && |s.tokens| + n <= |bytes|
  }

  lemma AdjacentHasPair(ids: seq<Id>, p: Pair)
    requires p in AdjacentPairs(ids)
    ensures HasPair(ids, p) && p.0 in ids && p.1 in ids
  {
    var ps := AdjacentPairs(ids);
    var k :| 0 <= k < |ps| && ps[k] == p;
    assert ids[k] == p.0 && ids[k + 1] == p.1;
  }

  /** One iteration keeps the invariant. */
  lemma StepInvariant(bytes: seq<Id>, s: TrainState, n: nat)
    requires Invariant(bytes, s, n) && Step(s, n).Ok?
    ensures Invariant(bytes, Step(s, n).value, n + 1)
  {
    var pair := MostFrequent(s.tokens).value;
    var idx := 256 + n;
    StepChoice(s, n);
    assert pair.0 < 256 + n && pair.1 < 256 + n;
    StepMerges(s.merges, s.tokens, pair, n);
    StepTokens(s.merges, s.tokens, pair, n);
    ApplyMergesSnoc(bytes, s.merges, (pair, idx));
  }

  /** A successful iteration merges a pair that occurs adjacent in the tokens. */
  lemma StepChoice(s: TrainState, n: nat)
    requires Step(s, n).Ok?
    ensures var pair := MostFrequent(s.tokens).value;
      && HasPair(s.tokens, pair) && pair.0 in s.tokens && pair.1 in s.tokens
      && Step(s, n).value == TrainState(Merged(s.tokens, pair, 256 + n), Put(s.merges, pair, 256 + n))
  {
    MostFrequentFacts(s.tokens);
    AdjacentHasPair(s.tokens, MostFrequent(s.tokens).value);
  }

  /** The recorded pair is new, so the table grows by one entry with the next id. */
  lemma StepMerges(merges: Table, tokens: seq<Id>, pair: Pair, n: nat)
    requires |merges| == n && Contiguous(merges) && DistinctKeys(merges)
    requires forall k :: 0 <= k < n ==> !HasPair(tokens, merges[k].0)
    requires HasPair(tokens, pair) && pair.0 < 256 + n && pair.1 < 256 + n
    ensures Put(merges, pair, 256 + n) == merges + [(pair, 256 + n)]
    ensures Contiguous(merges + [(pair, 256 + n)]) && DistinctKeys(merges + [(pair, 256 + n)])
  {
    assert pair !in Keys(merges);
    PutFresh(merges, pair, 256 + n);
    PutDistinct(merges, pair, 256 + n);
  }

  /** The merged tokens stay below the next id, lose the new pair, gain no old pair, and get shorter. */
  lemma StepTokens(merges: Table, tokens: seq<Id>, pair: Pair, n: nat)
    requires |merges| == n && Contiguous(merges)
    requires forall x :: x in tokens ==> x < 256 + n
    requires forall k :: 0 <= k < n ==> !HasPair(tokens, merges[k].0)
    requires HasPair(tokens, pair) && pair.0 < 256 + n && pair.1 < 256 + n
    ensures var tokens', merges' := Merged(tokens, pair, 256 + n), merges + [(pair, 256 + n)];
      && (forall x :: x in tokens' ==> x < 256 + n + 1)
      && (forall k :: 0 <= k < n + 1 ==> !HasPair(tokens', merges'[k].0))
      && |tokens'| < |tokens|
  {
    var idx := 256 + n;
    var merges' := merges + [(pair, idx)];
    var tokens' := Merged(tokens, pair, idx);
    MergedElements(tokens, pair, idx);
    forall k | 0 <= k < n + 1 ensures !HasPair(tokens', merges'[k].0) {
      if k < n {
        assert merges'[k] == merges[k];
        MergedKeepsAbsent(tokens, pair, idx, merges[k].0);
      } else {
        MergedRemovesPair(tokens, pair, idx);
      }
    }
    MergedLength(tokens, pair, idx);
    MatchesIff(tokens, pair);
  }

  /** After `n` successful iterations the invariant holds. */
  lemma {:induction false} RunInvariant(bytes: seq<Id>, n: nat)
    requires forall x :: x in bytes ==> x < 256
    requires Run(bytes, n).Ok?
    ensures Invariant(bytes, Run(bytes, n).value, n)
  {
    if n > 0 {
      RunInvariant(bytes, n - 1);
      StepInvariant(bytes, Run(bytes, n - 1).value, n - 1);
    }
  }

  /**
    A trained table uses the ids `256 .. 255 + n`, in that order and each
    once; no pair is recorded twice; both halves of every pair are smaller
    than its id. Each merge shortens the token list by at least one.
   */
  lemma TrainedTable(text: string, n: nat)
    ensures Run(Stoi(text), n).Ok? ==>
      var s := Run(Stoi(text), n).value;
      && |s.merges| == n
      && (forall k :: 0 <= k < n ==> s.merges[k].1 == 256 + k)
      && (forall k :: 0 <= k < n ==> s.merges[k].0.0 < 256 + k && s.merges[k].0.1 < 256 + k)
      && (forall i, j :: 0 <= i < j < n ==> s.merges[i].0 != s.merges[j].0)
      && |s.tokens| + n <= |Stoi(text)|
  {
    if Run(Stoi(text), n).Ok? {
      RunInvariant(Stoi(text), n);
    }
  }

  /** Encoding the training text with the trained table reproduces the loop's final tokens. */
  lemma EncodeReproducesTraining(text: string, n: nat)
    ensures Run(Stoi(text), n).Ok? ==>
      Encoded(Run(Stoi(text), n).value.merges, text) == Run(Stoi(text), n).value.tokens
  {
    if Run(Stoi(text), n).Ok? {
      var s := Run(Stoi(text), n).value;
      RunInvariant(Stoi(text), n);
      assert SortedById(s.merges);
      SortByIdSorted(s.merges);
    }
  }

  /** A trained table decodes the encoding of every text back to that text. */
  lemma TrainedRoundTrip(corpus: string, n: nat, text: string)
    ensures Run(Stoi(corpus), n).Ok? ==>
      var t := Run(Stoi(corpus), n).value.merges;
      AllExpandable(Reverse(t), Encoded(t, text)) && Decode(Encoded(t, text), t) == text
  {
    if Run(Stoi(corpus), n).Ok? {
      RunInvariant(Stoi(corpus), n);
      RoundTrip(Run(Stoi(corpus), n).value.merges, text);
    }
  }

  /**
    Training fails only in an iteration that starts with fewer than two
    tokens, and then reports that iteration. It succeeds for `n > 0` only if
    the corpus has at least `n + 1` bytes.
   */
  lemma {:induction false} TrainingFailure(bytes: seq<Id>, n: nat)
    requires forall x :: x in bytes ==> x < 256
    ensures Run(bytes, n).Err? ==>
      var i := Run(bytes, n).error.iteration;
      i < n && Run(bytes, i).Ok? && |Run(bytes, i).value.tokens| < 2
    ensures Run(bytes, n).Ok? && n > 0 ==> |bytes| >= n + 1
  {
    if n > 0 {
      TrainingFailure(bytes, n - 1);
      match Run(bytes, n - 1)
      case Err(e) =>
      case Ok(s) =>
        MostFrequentFacts(s.tokens);
        RunInvariant(bytes, n - 1);
    }
  }
}
