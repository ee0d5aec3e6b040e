# Byte-level BPE tokenizer engine

This project models the engine of `tokenizer.py`, a byte-pair-encoding tokenizer.

- Text becomes its UTF-8 bytes.
- Training repeatedly counts adjacent pairs of ids. It replaces the most frequent pair with a new id (256, 257, …) and records the pair in an insertion-ordered merge table.
- Encoding applies the recorded merges in id order.
- Decoding expands every id back to bytes and decodes them as UTF-8. If the bytes are not valid UTF-8, it returns the error text `[DECODE_ERROR]`.
- The merge table is saved with keys `"a,b"` and loaded back by splitting each key at its commas.

The modules:

| module | models |
|---|---|
| `AssocList` | Python dicts as insertion-ordered association lists: `d[k] = v` updates a key in place or appends it, and `d.get` finds the first entry with that key |
| `Utf8` | `str.encode('utf-8')` and strict `bytes.decode('utf-8')`, following RFC 3629 section 3 |
| `Symbols` | `zip(ids, ids[1:])` |
| `Merging` | `merge`, as a method with the source's `while` loop, proved against a recursive reference function |
| `PairStats` | `get_stats`, which updates the dict it is given; `max(stats, key=stats.get)` |
| `Codec` | `stoi` (default branch), `encode`, `decode`, `expand_token` |
| `Training` | the merge loop of `train_tokenizer` |
| `KeyCodec` | the key format of `Tokenizer.save` and the key parsing of `Tokenizer.load` / `load_tokenizer` |
| `TokenizerApi` | the `Tokenizer` class, `load_tokenizer`, and the train → save → load → encode → decode pipeline |
| `Scenarios` | training on "ababab" and "abcd", worked through |

The dict that `get_stats` updates in place is the field `entries` of `PairStats.PairCounts`. The `merges` and `config` of a `Tokenizer` object are fields of `TokenizerApi.Tokenizer`; `save`, `encode` and `decode` only read them. The `merges` dict that the training loop fills is a local variable of `Training.TrainTokenizer`, updated with `Put`. A loop in the source is a `method` with a loop, proved equal to a reference function. The properties are lemmas about those functions.

Behaviour of the code that the model keeps as it is:

- **Pairs cross character boundaries.** The default branch of `stoi` (tokenizer.py:53) concatenates the bytes of all characters into one sequence. So pairs are counted, and merges applied, across character boundaries.
- **Running out of pairs raises.** When fewer than two tokens are left, `max` (tokenizer.py:143) is applied to an empty dict and raises. The model returns `Err(EmptyStats(i))` for that iteration.
- **"ababab" with `vocab_size` 258.** Training performs two merges: `(97, 98) -> 256` and then `(256, 256) -> 257`. So "ababab" encodes as `[257, 256]` (`Scenarios.EncodeAbab`). After one merge (`vocab_size` 257) the tokens are `[256, 256, 256]` (`Scenarios.AbabOneMerge`).

One behaviour of the code that the model corrects: the source loads a key with any number of comma-separated integers (tokenizer.py:110-111). The model's loads (`TokenizerApi.Tokenizer.Load`, `TokenizerApi.LoadTokenizer`) accept only two-part keys; this is the correction in Findings. `KeyCodec.LoadFields` keeps the source's reading.

## Model

| member | source | states |
|---|---|---|
| AssocList.Find | tokenizer.py:28 | the index found is the first entry with the key, or the length when the key is absent |
| AssocList.PutKeys | tokenizer.py:28 | after `d[k] = v` the keys are the old ones in their order, with `k` appended when it was new |
| AssocList.PutGet | tokenizer.py:28 | after `d[k] = v`, `d[k]` is `v` |
| AssocList.PutGetOther | tokenizer.py:28 | `d[k] = v` leaves every other key's value unchanged |
| AssocList.PutFresh | tokenizer.py:149 | assigning a key that is not present appends it at the end |
| AssocList.PutDistinct | tokenizer.py:149 | assignment keeps the keys pairwise distinct |
| Utf8.EncodeChar | tokenizer.py:53 | each character is encoded in 1 to 4 bytes |
| Utf8.DecodeFirstEncodeChar | tokenizer.py:90 | the decoder reads back exactly one encoded character and its length |
| Utf8.DecodeEncode | tokenizer.py:53 | decoding the UTF-8 encoding of any text gives the text back |
| Utf8.EncodeDecode | tokenizer.py:89-92 | whatever the strict decoder accepts re-encodes to the same bytes |
| Utf8.DecodeIff | tokenizer.py:89-92 | decoding bytes succeeds with text `s` exactly when the bytes are the encoding of `s` |
| Symbols.AdjacentPairs | tokenizer.py:27 | `zip(ids, ids[1:])` has one fewer element than `ids` (none for fewer than two), and element `k` is `(ids[k], ids[k+1])` |
| Symbols.FirstIndex | tokenizer.py:143 | the position of the first occurrence of a value in a sequence |
| Merging.Merge | tokenizer.py:31-41 | the left-to-right scan returns the reference replacement of non-overlapping occurrences of the pair |
| Merging.MergedLength | tokenizer.py:34-40 | the result is shorter by the number of replacements, and at most half the input is replaced |
| Merging.MatchesIff | tokenizer.py:35 | at least one replacement happens exactly when the pair occurs adjacent in the input |
| Merging.MergedUnchangedIff | tokenizer.py:34-40 | the output equals the input exactly when the pair does not occur |
| Merging.NoMatchesUnchanged | tokenizer.py:38-40 | without an occurrence, every element is copied unchanged |
| Merging.MergedRunOfThree | tokenizer.py:35-37 | in a run `a a a` merged on `(a, a)`, the leftmost two merge and the third stays |
| Merging.MergedElements | tokenizer.py:36-39 | every output element is the new id or an element of the input |
| Merging.UnmergeMerged | tokenizer.py:31-41 | with a fresh id, replacing the id by the pair again restores the input |
| Merging.MergedRemovesPair | tokenizer.py:34-40 | when the new id is neither component, no occurrence of the pair is left |
| Merging.MergedKeepsAbsent | tokenizer.py:34-40 | a pair absent from the input that does not mention the new id stays absent |
| PairStats.PairCounts.constructor | tokenizer.py:26 | a fresh statistics dict is empty |
| PairStats.GetStats | tokenizer.py:25-29 | the given dict, or a fresh one when none is given, ends as the old counts tallied with every adjacent pair |
| PairStats.TallyCount | tokenizer.py:27-28 | each pair's count grows by the number of times it occurs adjacent |
| PairStats.BumpGet | tokenizer.py:28 | one increment adds one to that pair and nothing to the others |
| PairStats.TallyTotal | tokenizer.py:27-28 | the counts grow in total by the number of adjacent pairs |
| PairStats.TallyDistinct | tokenizer.py:28 | counting keeps the pairs distinct |
| PairStats.TallyKeys | tokenizer.py:27-28 | new pairs are appended in order of first occurrence after the existing ones |
| PairStats.DedupFacts | tokenizer.py:28 | the appended pairs are exactly the new ones, each once |
| PairStats.FirstMaxIndex | tokenizer.py:143 | `max(stats, key=stats.get)` yields an entry with maximal count, and every earlier entry counts strictly less |
| PairStats.StatsKeys | tokenizer.py:141 | fresh statistics list exactly the pairs that occur, once each |
| PairStats.StatsCounts | tokenizer.py:141 | each entry's count is the number of occurrences of its pair |
| PairStats.StatsOrder | tokenizer.py:141 | entries are ordered by the first occurrence of their pairs |
| PairStats.MostFrequentFacts | tokenizer.py:141-143 | no pair for fewer than two ids; otherwise the chosen pair occurs, no pair occurs more often, and of the pairs occurring equally often it occurs first |
| Codec.SortByIdOrdered | tokenizer.py:62 | the sorted merges are ordered by id |
| Codec.SortByIdPermutation | tokenizer.py:62 | the sorted merges are a permutation of the table's entries |
| Codec.SortByIdSorted | tokenizer.py:62 | a table already in id order is left as it is |
| Codec.InsertSorted | tokenizer.py:62 | inserting into a sorted sequence keeps it sorted |
| Codec.InsertMultiset | tokenizer.py:62 | inserting adds exactly the one entry |
| Codec.ApplyMergesSnoc | tokenizer.py:63-64 | applying one more rule merges the previous result once more |
| Codec.Encode | tokenizer.py:56-66 | the loop applies every rule of the id-sorted table once, in order, to the text's bytes |
| Codec.Reverse | tokenizer.py:73 | the reverse map's keys are exactly the table's ids |
| Codec.ReverseLast | tokenizer.py:73 | an id maps to the pair of the last entry with that id |
| Codec.ExpandToken | tokenizer.py:76-82 | a token expands to at least one byte, and to exactly one byte when it is itself a byte |
| Codec.DecodeMeaning | tokenizer.py:84-92 | `decode` returns `s` exactly when `s`'s UTF-8 encoding is the expanded bytes, or `s` is the error text and no text has those bytes |
| Codec.ExpandBytes | tokenizer.py:77-78 | ids below 256 expand to themselves |
| Codec.ExpandMerged | tokenizer.py:81-82 | merging a pair into an id that expands to that pair leaves the expanded bytes unchanged |
| Codec.ExpandApplyMerges | tokenizer.py:63-64 | applying invertible rules leaves the expanded bytes unchanged |
| Codec.ContiguousExpandable | tokenizer.py:76-82 | in a table with ids 256, 257, … whose components are smaller, every id expands without a missing key |
| Codec.RoundTrip | tokenizer.py:56-92 | for such a table, decoding the encoding of any text gives the text back |
| Training.TrainTokenizer | tokenizer.py:132-149 | the loop's table is the one the reference iteration reaches after `vocab_size - 256` steps, or the failing iteration |
| Training.RunErrPersists | tokenizer.py:139-143 | once an iteration raises, training has failed with that error |
| Training.AdjacentHasPair | tokenizer.py:27 | a pair listed by `zip` occurs adjacent in the ids |
| Training.StepInvariant | tokenizer.py:139-149 | one iteration keeps the invariant: the table has ids 256, 257, … with smaller components and distinct pairs, the tokens are the bytes with the table applied, hold no id beyond the last and no recorded pair, and shrink by one per iteration at least |
| Training.StepChoice | tokenizer.py:141-149 | a successful iteration merges a pair that occurs adjacent in the tokens, into `256 + i`, and records it |
| Training.StepMerges | tokenizer.py:143-149 | the chosen pair is not yet in the table, so the new id is appended |
| Training.StepTokens | tokenizer.py:148 | after merging, the tokens mention only ids up to the new one |
| Training.RunInvariant | tokenizer.py:132-149 | the invariant holds after every number of iterations |
| Training.TrainedTable | tokenizer.py:132-149 | after n iterations the table has ids 256 … 255+n in order, each with smaller components and a distinct pair, and the tokens shrank by at least n |
| Training.EncodeReproducesTraining | tokenizer.py:56-66 | encoding the corpus with the trained table gives the final training tokens |
| Training.TrainedRoundTrip | tokenizer.py:56-92 | with a trained table, decoding any text's encoding gives the text back |
| Training.TrainingFailure | tokenizer.py:141-143 | training fails only in an iteration with fewer than two tokens, and n successful iterations need at least n+1 bytes |
| KeyCodec.DigitChar | tokenizer.py:101 | a decimal digit is the character for its value |
| KeyCodec.FormatNat | tokenizer.py:101 | a number is formatted as a non-empty string of decimal digits |
| KeyCodec.ParseFormatNat | tokenizer.py:110 | `int` reads back the formatted number |
| KeyCodec.Split | tokenizer.py:110 | `split(',')` gives at least one field, no field holds a comma, and joining with commas gives the string back |
| KeyCodec.SplitNoComma | tokenizer.py:110 | a string with no comma splits into itself |
| KeyCodec.SplitCons | tokenizer.py:110 | splitting at the first comma |
| KeyCodec.SplitJoin | tokenizer.py:110 | splitting comma-free fields joined with commas gives the fields back |
| KeyCodec.ParseAll | tokenizer.py:110 | `map(int, …)` succeeds with one value per field, each field's value |
| KeyCodec.ParseAllValues | tokenizer.py:110 | fields that each read as a value read as the sequence of those values |
| KeyCodec.ParseFormatKey | tokenizer.py:101-111 | the key `"a,b"` splits into two fields and reads back as `(a, b)` |
| KeyCodec.ParseKeyIff | tokenizer.py:110-111 | a key reads back as a pair exactly when it has two fields and both are numbers |
| KeyCodec.LoadSave | tokenizer.py:99-113 | loading a saved table with distinct pairs gives the same table in the same order |
| KeyCodec.LoadDistinct | tokenizer.py:110-111 | a loaded table has distinct pairs: a key read twice keeps one entry |
| KeyCodec.SaveDistinct | tokenizer.py:101 | distinct pairs give distinct keys |
| KeyCodec.MalformedKeyRejected | tokenizer.py:110 | a key with a non-numeric part is rejected |
| KeyCodec.ThreePartKeyLoads | tokenizer.py:110-111 | the source's parsing loads `"1,2,3"` as a three-part key; the corrected load rejects it |
| TokenizerApi.Tokenizer.constructor | tokenizer.py:95-97 | a missing table becomes an empty one, the configuration is kept, and the table's pairs are distinct, as a dict's keys are |
| TokenizerApi.Tokenizer.Save | tokenizer.py:99-103 | the saved object always loads back to the tokenizer's table |
| TokenizerApi.Tokenizer.Load | tokenizer.py:105-113 | a new tokenizer with the loaded table (pairs distinct) and no configuration, or none for a malformed key |
| TokenizerApi.Tokenizer.Encode | tokenizer.py:115-116 | the tokenizer encodes as `encode` with its own table |
| TokenizerApi.Tokenizer.Decode | tokenizer.py:118-119 | the result is the text whose encoding is the expanded bytes when such a text exists, and `"[DECODE_ERROR]"` when none does |
| TokenizerApi.LoadTokenizer | tokenizer.py:182-190 | a new tokenizer with the loaded table (pairs distinct) and the given configuration, or none for a malformed key |
| TokenizerApi.TrainSaveLoadRoundTrip | tokenizer.py:199-208 | run the training merge loop, save, load, attach the configuration as app.py:8-9 does, then encode and decode: the result is the text again, and there is a result exactly when training succeeds |
| Scenarios.AbabStats | tokenizer.py:25-29 | "ababab" counts `(97, 98)` three times, then `(98, 97)` twice |
| Scenarios.AbabFirstMerge | tokenizer.py:31-41 | merging "ab" into 256 turns "ababab" into three 256s |
| Scenarios.AbabOneMerge | tokenizer.py:139-149 | one iteration on "ababab" records `(97, 98) -> 256` |
| Scenarios.AbabSecondStats | tokenizer.py:25-29 | three 256s count `(256, 256)` twice |
| Scenarios.AbabSecondStep | tokenizer.py:141-149 | the second iteration picks `(256, 256)`, leaves `[257, 256]` and appends `(256, 256) -> 257` |
| Scenarios.AbabTwoMerges | tokenizer.py:139-149 | a second iteration records `(256, 256) -> 257` and leaves `[257, 256]` |
| Scenarios.TrainAbab | tokenizer.py:132-149 | `vocab_size` 258 on "ababab" trains the two-entry table |
| Scenarios.EncodeAbab | tokenizer.py:56-92 | that table encodes "ababab" as `[257, 256]`, which decodes back to "ababab" |
| Scenarios.AbcdStats | tokenizer.py:25-29 | "abcd" counts its three pairs once each, in order |
| Scenarios.TieBreakFirstInserted | tokenizer.py:141-143 | when every pair of "abcd" counts once, the first inserted pair, "ab", is chosen |

## Left out

- The regex branch of `stoi` (tokenizer.py:45-49). `re.findall` with an arbitrary pattern is not modelled, so `Codec.Encode`, `Training.TrainTokenizer` and `TokenizerApi.Tokenizer.Encode` require a configuration whose `regex_string` is None (null) or empty. A configuration without the `regex_string` key makes `stoi` raise `KeyError` at tokenizer.py:45; that is not modelled.
- TokenizerApi.Tokenizer.Encode: requires a configuration. A tokenizer made by `Tokenizer.load` has `config` None (tokenizer.py:113), and calling `encode` on it raises `TypeError` at `None["regex_string"]` (tokenizer.py:45). The model does not represent that exception; it makes the configuration a precondition instead.
- File and JSON I/O: `load_config`, `get_input_text`, the file writes of `save`, and the reads of `load` / `load_tokenizer`. The corpus text, the saved object and the configuration are parameters and results.
- The checkpoint written every 1000 iterations (tokenizer.py:161-164) and the final file write (tokenizer.py:167-168). These are only `save` calls on the current table.
- Progress output, `gc.collect()`, the compression-ratio statistics and all printing.
- Training.TrainTokenizer: models `train_tokenizer` from line 132 on, with the corpus given as text. It does not represent two exceptions raised around the loop. Line 129 raises `TypeError`: the literals `'рдХ'` and `"ред"` are three characters each (the bytes of `'क'` and `'।'` read in the wrong code page), and `ord` of such a string raises, so as written every call raises before the loop. Lines 176-177 raise `ZeroDivisionError` when `len(tokens)` is 0, which happens for an empty corpus with `vocab_size` at most 256; the model returns `Ok([])` there.
- app.py, which is a web front end. Its one effect on the core is that it sets `config` after `Tokenizer.load`, and that is modelled.
- `train_tokenizer` raising `ValueError` when no pairs are left is modelled as the result `Err(EmptyStats(i))`. `Tokenizer.decode` raising `KeyError` for an id missing from the table is a precondition, not an error result.
- Codec.ExpandToken: the precondition `Expandable` also requires each merged id's components to be smaller than the id. A hand-edited table breaking that can still decode in Python. Every table that training produces satisfies it (`Training.TrainedTable`).
- Codec.Decode: Python's recursion limit, which only very deep expansion chains could reach, is not modelled.
- KeyCodec.ParseNat: `int()` is modelled on ASCII decimal digit strings only. Signs, surrounding whitespace, underscores and non-ASCII digits, which `int()` accepts, make a key malformed in the model. `save` never writes those forms.
- Ids and values are non-negative integers. JSON values of other types, and negative numbers in keys or values, are not modelled.
- Text is a sequence of Unicode scalar values. A Python `str` holding a lone surrogate, on which `encode('utf-8')` raises, cannot be expressed.
- Codec.SortById: the stability of `sorted` is not stated as a lemma. It holds by construction: insertion places entries after those with an equal id. For tables in id order, including every trained table, `Codec.SortByIdSorted` shows the result is the table itself.
- Aliasing. `Tokenizer(merges)` keeps a reference to the caller's dict, and a later mutation by the caller would show through. The model copies the table into the object.
- KeyCodec.Load: duplicate or non-consecutive ids in a loaded table are not rejected, matching the source. Only the key format is checked.
- The `config` argument of `decode` is never read by the source and is dropped.

## Findings

| source | as written | input that shows it | evidently intended | confidence | as-written member | corrected member |
|---|---|---|---|---|---|---|
| tokenizer.py:110-111 (and 187-188) | `tuple(map(int, k.split(',')))` accepts a key with any number of comma-separated integers | the saved key `"1,2,3"` with value 256 loads as the key `(1, 2, 3)`, which is not a pair | a key is read back only when it is exactly two integers, the form `save` writes | low, not executed | KeyCodec.ThreePartKeyLoads | KeyCodec.Load |

`KeyCodec.LoadFields` models the source's parsing, and `KeyCodec.ThreePartKeyLoads` exhibits the three-part key. `KeyCodec.Load` accepts only two-part keys (`KeyCodec.ParseKeyIff`). It still loads every saved table back (`KeyCodec.LoadSave`), and the rest of the model uses it.
