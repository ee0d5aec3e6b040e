/**
  The `Tokenizer` class of tokenizer.py and `load_tokenizer`: an object
  holding a merge table and a configuration, with `encode`, `decode`,
  `save` and `load` delegating to the engine.
 */
module TokenizerApi {
  import opened Wrappers
  import opened AssocList
  import opened Symbols
  import opened Codec
  import opened Training
  import KeyCodec

  class Tokenizer {
    var merges: Table
    var config: Option<Config>

    /** The table is a dict: its pairs are distinct. */
    ghost predicate Valid()
      reads this
    {
      DistinctKeys(merges)
    }

    /** `Tokenizer(merges, config)`: a missing (or empty) table becomes an empty one. */
    constructor (merges: Option<Table>, config: Option<Config>)
      requires merges.Some? ==> DistinctKeys(merges.value)
      ensures this.merges == (match merges case Some(m) => m case None => [])
      ensures this.config == config
      ensures Valid()
    {
      this.merges := match merges case Some(m) => m case None => [];
      this.config := config;
    }

    /** `save`: the object written to the file, keys formatted as `"a,b"` (the file write is not modelled). */
    function Save(): (s: Dict<string, Id>)
      reads this
      requires Valid()
      ensures KeyCodec.Load(s) == Some(merges)
    {
      KeyCodec.LoadSave(merges);
      KeyCodec.Save(merges)
    }

    /** `Tokenizer.load`: a tokenizer with the loaded table and no configuration, or None on a malformed key. */
    static method Load(serialized: Dict<string, Id>) returns (r: Option<Tokenizer>)
      ensures KeyCodec.Load(serialized).None? ==> r.None?
      ensures KeyCodec.Load(serialized).Some? ==>
        r.Some? && fresh(r.value) && r.value.merges == KeyCodec.Load(serialized).value && r.value.config.None?
      ensures r.Some? ==> r.value.Valid()
    {
      KeyCodec.LoadDistinct(serialized);
      match KeyCodec.Load(serialized)
      case None =>
        r := None;
      case Some(t) =>
        var tok := new Tokenizer(Some(t), None);
        r := Some(tok);
    }

    /** `encode(text)`: needs a configuration whose pattern selects the default branch of `stoi`. */
    method Encode(text: string) returns (ids: seq<Id>)
      requires config.Some? && DefaultBranch(config.value)
      ensures ids == Encoded(merges, text)
    {
      ids := Codec.Encode(text, merges, config.value);
    }

    /** `decode(ids)`: the text of the expanded bytes, or the error text when they are not UTF-8. */
    function Decode(ids: seq<Id>): (s: string)
      reads this
      requires AllExpandable(Reverse(merges), ids)
      ensures forall t :: Utf8.EncodeString(t) == ExpandAll(Reverse(merges), ids) ==> s == t
      ensures (forall t :: Utf8.EncodeString(t) != ExpandAll(Reverse(merges), ids)) ==> s == DecodeErrorText
    {
      forall t | Utf8.EncodeString(t) == ExpandAll(Reverse(merges), ids) {
        DecodeMeaning(ids, merges, t);
      }
      DecodeMeaning(ids, merges, DecodeErrorText);
      Codec.Decode(ids, merges)
    }
  }

  /** `load_tokenizer(config)`: the table loaded from the configured file, paired with that configuration. */
  method LoadTokenizer(serialized: Dict<string, Id>, config: Config) returns (r: Option<Tokenizer>)
    ensures KeyCodec.Load(serialized).None? ==> r.None?
    ensures KeyCodec.Load(serialized).Some? ==>
      r.Some? && fresh(r.value) && r.value.merges == KeyCodec.Load(serialized).value && r.value.config == Some(config)
    ensures r.Some? ==> r.value.Valid()
  {
    KeyCodec.LoadDistinct(serialized);
    match KeyCodec.Load(serialized)
    case None =>
      r := None;
    case Some(t) =>
      var tok := new Tokenizer(Some(t), Some(config));
      r := Some(tok);
  }

  /**
    The whole pipeline: run the training merge loop on a corpus, save the table, load it back,
    attach the configuration (as the front end does after `Tokenizer.load`),
    encode a text and decode it. It yields the text again whenever training
    succeeds, and nothing exactly when training fails.
   */
  method TrainSaveLoadRoundTrip(corpus: string, config: Config, text: string) returns (decoded: Option<string>)
    requires DefaultBranch(config)
    ensures decoded.Some? <==> Run(Stoi(corpus), NumMerges(config)).Ok?
    ensures decoded.Some? ==> decoded.value == text
  {
    var trained := TrainTokenizer(corpus, config);
    match trained
    case Err(_) =>
      decoded := None;
    case Ok(merges) =>
      var n := NumMerges(config);
      RunInvariant(Stoi(corpus), n);
      var saver := new Tokenizer(Some(merges), Some(config));
      var saved := saver.Save();
      var loaded := Tokenizer.Load(saved);
      var tok := loaded.value;
      tok.config := Some(config);
      var ids := tok.Encode(text);
      TrainedRoundTrip(corpus, n, text);
      decoded := Some(tok.Decode(ids));
  }
}
