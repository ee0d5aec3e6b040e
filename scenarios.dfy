/**
  Training, encoding and decoding worked through on small corpora.
  "ababab" trains to `(97, 98) -> 256` and then `(256, 256) -> 257`;
  "abcd" has three pairs of equal count and training picks the first.
 */
module Scenarios {
  import opened Wrappers
  import opened AssocList
  import opened Symbols
  import opened Merging
  import opened PairStats
  import opened Codec
  import opened Training

  const Abab: seq<Id> := [97, 98, 97, 98, 97, 98]

  /** The two-entry table training on "ababab" with `vocab_size` 258 records. */
  const AbabTable: Table := [((97, 98), 256), ((256, 256), 257)]

  lemma AbabBytes()
    ensures Stoi("ababab") == Abab
  {
  }

  /** "ab" occurs three times and "ba" twice, in that order of first occurrence. */
  lemma AbabStats()
    ensures Stats(Abab) == [((97, 98), 3), ((98, 97), 2)]
  {
    assert AdjacentPairs(Abab) == [(97, 98), (98, 97), (97, 98), (98, 97), (97, 98)];
  }

  lemma AbabFirstMerge()
    ensures Merged(Abab, (97, 98), 256) == [256, 256, 256]
  {
    assert Merged(Abab[4..], (97, 98), 256) == [256];
    assert Merged(Abab[2..], (97, 98), 256) == [256, 256];
  }

  lemma AbabSecondStats()
    ensures Stats([256, 256, 256]) == [((256, 256), 2)]
  {
    assert AdjacentPairs([256, 256, 256]) == [(256, 256), (256, 256)];
  }

  /** One merge (`vocab_size` 257): "ab" becomes 256 and the corpus becomes three 256s. */
  lemma {:induction false} AbabOneMerge()
    ensures Run(Abab, 1) == Ok(TrainState([256, 256, 256], [((97, 98), 256)]))
  {
    AbabStats();
    AbabFirstMerge();
    assert Put([], (97, 98), 256) == [((97, 98), 256)];
  }

  lemma AbabSecondChoice()
    ensures MostFrequent([256, 256, 256]) == Some((256, 256))
  {
    AbabSecondStats();
  }

  lemma {:induction false} AbabSecondStep()
    ensures Step(TrainState([256, 256, 256], [((97, 98), 256)]), 1) == Ok(TrainState([257, 256], AbabTable))
  {
    AbabSecondChoice();
    MergedRunOfThree(256, 257);
    assert Put([((97, 98), 256)], (256, 256), 257) == AbabTable;
  }

  /** Two merges (`vocab_size` 258): the second merges the first pair of 256s. */
  lemma {:induction false} AbabTwoMerges()
    ensures Run(Abab, 2) == Ok(TrainState([257, 256], AbabTable))
  {
    AbabOneMerge();
    AbabSecondStep();
  }

  /** The merge loop of `train_tokenizer` (tokenizer.py:132-149) on "ababab" with `vocab_size` 258 ends with the two-entry table. */
  lemma {:induction false} TrainAbab()
    ensures Run(Stoi("ababab"), NumMerges(Config(None, 258))) == Ok(TrainState([257, 256], AbabTable))
  {
    AbabBytes();
    AbabTwoMerges();
  }

  /** Encoding "ababab" with the trained table gives `[257, 256]`, and decoding gives the text back. */
  lemma {:induction false} EncodeAbab()
    ensures Encoded(AbabTable, "ababab") == [257, 256]
    ensures Decode([257, 256], AbabTable) == "ababab"
  {
    TrainAbab();
    assert NumMerges(Config(None, 258)) == 2;
    EncodeReproducesTraining("ababab", 2);
    TrainedRoundTrip("ababab", 2, "ababab");
  }

  lemma AbcdStats()
    ensures Stats([97, 98, 99, 100]) == [((97, 98), 1), ((98, 99), 1), ((99, 100), 1)]
  {
    assert AdjacentPairs([97, 98, 99, 100]) == [(97, 98), (98, 99), (99, 100)];
  }

  /** On "abcd" every pair occurs once; `max` keeps the first, "ab". */
  lemma {:induction false} TieBreakFirstInserted()
    ensures MostFrequent(Stoi("abcd")) == Some((97, 98))
  {
    assert Stoi("abcd") == [97, 98, 99, 100];
    AbcdStats();
  }
}
