/**
  The in-memory part of saving and loading a merge table in tokenizer.py:
  a pair key `(a, b)` is written as the string `"a,b"` (`save`), and read
  back with `k.split(',')` and `int` on each part (`load`, `load_tokenizer`).
 */
module KeyCodec {
  import opened Wrappers
  import opened AssocList
  import opened Symbols
  import opened Codec

  predicate IsDigit(c: char)
  {
    '0' <= c <= '9'
  }

  predicate AllDigits(s: string)
  {
    forall i :: 0 <= i < |s| ==> IsDigit(s[i])
  }

  function DigitChar(d: nat): (c: char)
    requires d < 10
    ensures IsDigit(c) && c as int - '0' as int == d
  {
    ('0' as int + d) as char
  }

  /** `str(n)`: the decimal digits of `n`, without leading zeros. */
  function FormatNat(n: nat): (s: string)
    ensures |s| >= 1 && AllDigits(s)
  {
    if n < 10 then [DigitChar(n)] else FormatNat(n / 10) + [DigitChar(n % 10)]
  }

  /** The value of a string of decimal digits (leading zeros allowed). */
  function DigitsValue(s: string): nat
    requires AllDigits(s)
  {
    if s == [] then 0 else DigitsValue(s[..|s| - 1]) * 10 + (s[|s| - 1] as int - '0' as int)
  }

  /** `int(s)` on decimal digit strings; None where `int` raises ValueError. */
  function ParseNat(s: string): Option<nat>
  {
    if s != [] && AllDigits(s) then Some(DigitsValue(s)) else None
  }

  /** `int(str(n)) == n`. */
  lemma {:induction false} ParseFormatNat(n: nat)
    ensures ParseNat(FormatNat(n)) == Some(n)
  {
    var s := FormatNat(n);
    if n >= 10 {
      ParseFormatNat(n / 10);
      assert s[..|s| - 1] == FormatNat(n / 10);
      assert DigitsValue(s) == DigitsValue(FormatNat(n / 10)) * 10 + n % 10;
    } else {
      assert s[..0] == [];
    }
  }

  /** `",".join(fields)`. */
  function Join(fields: seq<string>): string
    requires |fields| >= 1
  {
    if |fields| == 1 then fields[0] else fields[0] + "," + Join(fields[1..])
  }

  /** `s.split(',')`: the pieces between commas; an empty string gives one empty piece. */
  function Split(s: string): (r: seq<string>)
    ensures |r| >= 1
    ensures forall i :: 0 <= i < |r| ==> ',' !in r[i]
    ensures Join(r) == s
  {
    if s == [] then [[]]
    else
      var rest := Split(s[1..]);
      if s[0] == ',' then
        assert Join([[]] + rest) == "," + Join(rest);
        [[]] + rest
      else
        var r := [[s[0]] + rest[0]] + rest[1..];
        assert r[1..] == rest[1..];
        assert Join(r) == [s[0]] + Join(rest);
        r
  }

  lemma {:induction false} SplitNoComma(x: string)
    requires ',' !in x
    ensures Split(x) == [x]
  {
    if x != [] {
      SplitNoComma(x[1..]);
      assert x == [x[0]] + x[1..];
    }
  }

  lemma {:induction false} SplitCons(x: string, y: string)
    requires ',' !in x
    ensures Split(x + "," + y) == [x] + Split(y)
  {
    if x == [] {
      assert ([] + "," + y)[1..] == y;
    } else {
      var s := x + "," + y;
      assert s[1..] == x[1..] + "," + y;
      SplitCons(x[1..], y);
      assert x == [x[0]] + x[1..];
    }
  }

  /** Splitting undoes joining when no piece contains a comma. */
  lemma {:induction false} SplitJoin(fields: seq<string>)
    requires |fields| >= 1
    requires forall i :: 0 <= i < |fields| ==> ',' !in fields[i]
    ensures Split(Join(fields)) == fields
  {
    if |fields| == 1 {
      SplitNoComma(fields[0]);
    } else {
      SplitJoin(fields[1..]);
      SplitCons(fields[0], Join(fields[1..]));
      assert fields == [fields[0]] + fields[1..];
    }
  }

  /** `map(int, fields)`, failing as soon as one `int` raises. */
  function ParseAll(fields: seq<string>): (r: Option<seq<nat>>)
    ensures r.Some? ==> |r.value| == |fields|
    ensures r.Some? ==> forall i :: 0 <= i < |fields| ==> ParseNat(fields[i]) == Some(r.value[i])
  {
    if fields == [] then Some([])
    else
      match ParseNat(fields[0])
      case None => None
      case Some(v) =>
        match ParseAll(fields[1..])
        case None => None
        case Some(vs) => Some([v] + vs)
  }

  /** When every field parses, `map(int, fields)` gives their values. */
  lemma {:induction false} ParseAllValues(fields: seq<string>, vs: seq<nat>)
    requires |fields| == |vs|
    requires forall i :: 0 <= i < |fields| ==> ParseNat(fields[i]) == Some(vs[i])
    ensures ParseAll(fields) == Some(vs)
  {
    if fields != [] {
      ParseAllValues(fields[1..], vs[1..]);
      assert vs == [vs[0]] + vs[1..];
    }
  }

  /** `tuple(map(int, k.split(',')))`: the key as the source reads it, a tuple of any length. */
  function ParseKeyFields(k: string): Option<seq<nat>>
  {
    ParseAll(Split(k))
  }

  /** A key read back as a pair: exactly two decimal parts, or None. */
  function ParseKey(k: string): Option<Pair>
  {
    match ParseKeyFields(k)
    case None => None
    case Some(vs) => if |vs| == 2 then Some((vs[0], vs[1])) else None
  }

  /** `f"{k[0]},{k[1]}"` */
  function FormatKey(p: Pair): string
  {
    FormatNat(p.0) + "," + FormatNat(p.1)
  }

  /** Proof helper: a digit string holds no comma. */
  lemma DigitsNoComma(s: string)
    requires AllDigits(s)
    ensures ',' !in s
  {
  }

  /** Key round trip: reading back `"{a},{b}"` gives `(a, b)`. */
  lemma ParseFormatKey(p: Pair)
    ensures Split(FormatKey(p)) == [FormatNat(p.0), FormatNat(p.1)]
    ensures ParseKey(FormatKey(p)) == Some(p)
  {
    var x, y := FormatNat(p.0), FormatNat(p.1);
    DigitsNoComma(x);
    DigitsNoComma(y);
    SplitCons(x, y);
    SplitNoComma(y);
    ParseFormatNat(p.0);
    ParseFormatNat(p.1);
    ParseAllValues([x, y], [p.0, p.1]);
  }

  /** A key reads back as a pair exactly when it has two parts and each part is a decimal number. */
  lemma ParseKeyIff(k: string)
    ensures ParseKey(k).Some? <==>
      |Split(k)| == 2 && ParseNat(Split(k)[0]).Some? && ParseNat(Split(k)[1]).Some?
  {
    var fs := Split(k);
    if |fs| == 2 && ParseNat(fs[0]).Some? && ParseNat(fs[1]).Some? {
      ParseAllValues(fs, [ParseNat(fs[0]).value, ParseNat(fs[1]).value]);
    }
  }

  /** The keys are formatted in place; the ids and the order are kept. */
  function Save(t: Table): (s: Dict<string, Id>)
  {
    seq(|t|, i requires 0 <= i < |t| => (FormatKey(t[i].0), t[i].1))
  }

  /** The source's load: every key becomes a tuple of numbers, whatever its length. */
  function LoadFields(s: Dict<string, Id>): Option<Dict<seq<nat>, Id>>
  {
    if s == [] then Some([])
    else
      match LoadFields(s[..|s| - 1])
      case None => None
      case Some(m) =>
        match ParseKeyFields(s[|s| - 1].0)
        case None => None
        case Some(k) => Some(Put(m, k, s[|s| - 1].1))
  }

  /** Load that rejects every key that is not two decimal numbers. */
  function Load(s: Dict<string, Id>): Option<Table>
  {
    if s == [] then Some([])
    else
      match Load(s[..|s| - 1])
      case None => None
      case Some(m) =>
        match ParseKey(s[|s| - 1].0)
        case None => None
        case Some(k) => Some(Put(m, k, s[|s| - 1].1))
  }

  /** Persistence round trip: loading a saved table gives the same table, in the same order. */
  lemma LoadSnoc(s: Dict<string, Id>, m: Table, k: string, p: Pair, v: Id)
    requires Load(s) == Some(m) && ParseKey(k) == Some(p)
    ensures Load(s + [(k, v)]) == Some(Put(m, p, v))
  {
    assert (s + [(k, v)])[..|s|] == s;
  }

  lemma SaveSnoc(t: Table)
    requires t != []
    ensures Save(t) == Save(t[..|t| - 1]) + [(FormatKey(t[|t| - 1].0), t[|t| - 1].1)]
  {
  }

  lemma DistinctLast(t: Table)
    requires t != [] && DistinctKeys(t)
    ensures DistinctKeys(t[..|t| - 1]) && t[|t| - 1].0 !in Keys(t[..|t| - 1])
  {
    var init := t[..|t| - 1];
    forall i | 0 <= i < |init| ensures Keys(init)[i] != t[|t| - 1].0 {
      assert t[i] == init[i];
    }
  }

  lemma {:induction false} LoadSave(t: Table)
    requires DistinctKeys(t)
    ensures Load(Save(t)) == Some(t)
  {
    if t != [] {
      var init, last := t[..|t| - 1], t[|t| - 1];
      DistinctLast(t);
      LoadSave(init);
      SaveSnoc(t);
      ParseFormatKey(last.0);
      LoadSnoc(Save(init), init, FormatKey(last.0), last.0, last.1);
      PutFresh(init, last.0, last.1);
      assert t == init + [last];
    }
  }

  /** A loaded table is a dict: its pairs are distinct. */
  lemma {:induction false} LoadDistinct(s: Dict<string, Id>)
    ensures Load(s).Some? ==> DistinctKeys(Load(s).value)
  {
    if s != [] {
      LoadDistinct(s[..|s| - 1]);
      match Load(s[..|s| - 1])
      case None =>
      case Some(m) =>
        match ParseKey(s[|s| - 1].0)
        case None =>
        case Some(k) =>
          PutDistinct(m, k, s[|s| - 1].1);
    }
  }

  lemma SaveDistinct(t: Table)
    requires DistinctKeys(t)
    ensures DistinctKeys(Save(t))
  {
    forall i, j | 0 <= i < j < |t| ensures FormatKey(t[i].0) != FormatKey(t[j].0) {
      ParseFormatKey(t[i].0);
      ParseFormatKey(t[j].0);
    }
  }

  /** A key with a non-numeric part fails to load, as `int("x")` raises. */
  lemma MalformedKeyRejected()
    ensures ParseKeyFields("1,x") == None
    ensures Load([("1,x", 256)]) == None
  {
    SplitCons("1", "x");
    SplitNoComma("x");
  }

  /** The source loads the three-part key `"1,2,3"` as the tuple `(1, 2, 3)` instead of failing. */
  lemma ThreePartKeyLoads()
    ensures LoadFields([("1,2,3", 256)]) == Some([([1, 2, 3], 256)])
    ensures Load([("1,2,3", 256)]) == None
  {
    SplitCons("1", "2,3");
    SplitCons("2", "3");
    SplitNoComma("3");
    assert Split("1,2,3") == ["1", "2", "3"];
    ParseFormatNat(1);
    ParseFormatNat(2);
    ParseFormatNat(3);
    assert FormatNat(1) == "1" && FormatNat(2) == "2" && FormatNat(3) == "3";
    ParseAllValues(["1", "2", "3"], [1, 2, 3]);
    assert ParseKeyFields("1,2,3") == Some([1, 2, 3]);
    var s := [("1,2,3", 256)];
    assert s[..0] == [];
    var m: Dict<seq<nat>, Id> := [];
    assert Put(m, [1, 2, 3], 256) == [([1, 2, 3], 256)];
  }
}
