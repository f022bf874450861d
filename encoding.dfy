/**
  A reference for what the decoder must accept: a syntax tree of bencoded
  text (`Term`), its wire form (`Encode`) and the value it stands for
  (`Meaning`). A byte string's length prefix counts characters, as the
  decoder's `take` does, so the wire form is the bencoding of BEP 3 only
  when every payload is ASCII (one byte per character). A dict is written
  as its pairs in wire order; when a key repeats, the earliest pair gives
  the value. The lemmas show that the decoder reads every such text back
  to its meaning, whatever follows it.
 */
module Encoding {
  import opened Wrappers
  import opened BType
  import opened Strings
  import opened Numbers
  import opened BencodeSpec
  import DecodeProperties

  /** A byte string whose length a 64-bit `usize` can state. */
  type Payload = s: string | |s| <= USIZE_MAX

  datatype Term =
    | TString(bytes: Payload)
    | TInteger(number: Int64)
    | TList(items: seq<Term>)
    | TDict(pairs: seq<Pair>)

  /** One key/value pair of a dict, as written on the wire. */
  datatype Pair = Pair(key: Payload, value: Term)

  function EncodeString(b: Payload): (e: string)
    ensures |e| >= 2 && IsDigit(e[0])
  {
    NatToDecimal(|b|) + ":" + b
  }

  function Encode(t: Term): (e: string)
    ensures |e| >= 2 && e[0] != 'e'
    decreases t, 1
  {
    match t
    case TString(b) => EncodeString(b)
    case TInteger(v) => "i" + IntToDecimal(v) + "e"
    case TList(items) => "l" + EncodeAll(items) + "e"
    case TDict(pairs) => "d" + EncodePairs(pairs) + "e"
  }

  function EncodeAll(ts: seq<Term>): string
    decreases ts, 0
  {
    if ts == [] then "" else Encode(ts[0]) + EncodeAll(ts[1..])
  }

  function EncodePairs(ps: seq<Pair>): string
    decreases ps, 0
  {
    if ps == [] then ""
    else EncodeString(ps[0].key) + Encode(ps[0].value) + EncodePairs(ps[1..])
  }

  /** The value a term stands for. */
  function Meaning(t: Term): Value
    decreases t, 1
  {
    match t
    case TString(b) => ByteString(b)
    case TInteger(v) => Integer(v)
    case TList(items) => List(Meanings(items))
    case TDict(pairs) => Dict(FirstWins(pairs))
  }

  function Meanings(ts: seq<Term>): (vs: seq<Value>)
    ensures |vs| == |ts|
    decreases ts, 0
  {
    if ts == [] then [] else [Meaning(ts[0])] + Meanings(ts[1..])
  }

  /** The map a dict's pairs stand for: an earlier pair overrides every later one with its key. */
  function FirstWins(ps: seq<Pair>): map<string, Value>
    decreases ps, 0
  {
    if ps == [] then map[]
    else FirstWins(ps[1..])[ps[0].key := Meaning(ps[0].value)]
  }

  /** The flat element sequence a dict's pairs decode to: key, value, key, value, ... */
  function PairValues(ps: seq<Pair>): (vs: seq<Value>)
    ensures |vs| == 2 * |ps| && |vs| % 2 == 0
  {
    if ps == [] then [] else [ByteString(ps[0].key), Meaning(ps[0].value)] + PairValues(ps[1..])
  }

  /** `e` occurs in `s` starting at `p`. */
  predicate At(s: string, p: nat, e: string)
    decreases |e|
  {
    p + |e| <= |s| && (e == [] || (s[p] == e[0] && At(s, p + 1, e[1..])))
  }

  lemma {:induction false} AtChar(s: string, p: nat, e: string, i: nat)
    requires At(s, p, e) && i < |e|
    ensures p + i < |s| && s[p + i] == e[i]
    decreases i
  {
    if i > 0 {
      AtChar(s, p + 1, e[1..], i - 1);
    }
  }

  lemma {:induction false} AtSplit(s: string, p: nat, a: string, b: string)
    requires At(s, p, a + b)
    ensures At(s, p, a) && At(s, p + |a|, b)
    decreases |a|
  {
    if a == [] {
      assert a + b == b;
    } else {
      assert (a + b)[1..] == a[1..] + b;
      AtSplit(s, p + 1, a[1..], b);
    }
  }

  lemma {:induction false} AtSplit3(s: string, p: nat, a: string, b: string, c: string)
    requires At(s, p, a + (b + c))
    ensures At(s, p, a) && At(s, p + |a|, b) && At(s, p + |a| + |b|, c)
  {
    AtSplit(s, p, a, b + c);
    AtSplit(s, p + |a|, b, c);
  }

  lemma {:induction false} AtSlice(s: string, p: nat, e: string)
    requires At(s, p, e)
    ensures s[p..p + |e|] == e
  {
    forall i | 0 <= i < |e| ensures s[p..p + |e|][i] == e[i] {
      AtChar(s, p, e, i);
    }
  }

  lemma {:induction false} AtOfSlice(s: string, p: nat, e: string)
    requires p + |e| <= |s| && s[p..p + |e|] == e
    ensures At(s, p, e)
    decreases |e|
  {
    if e != [] {
      assert s[p + 1..p + 1 + |e[1..]|] == e[1..];
      AtOfSlice(s, p + 1, e[1..]);
    }
  }

  /** The element loop meets its `e`. */
  lemma {:induction false} ElementsClose(s: string, p: nat)
    requires p < |s| && s[p] == 'e'
    ensures Elements(s, p) == Step(Ok([]), p + 1)
  {
  }

  /** One element decoded, then the rest of the loop. */
  lemma {:induction false} ElementsCons(s: string, p: nat, v: Value, q: nat, vs: seq<Value>, r: nat)
    requires p < |s| && s[p] != 'e'
    requires ValueAt(s, p) == Step(Ok(v), q)
    requires q <= |s| && Elements(s, q) == Step(Ok(vs), r)
    ensures Elements(s, p) == Step(Ok([v] + vs), r)
  {
  }

  /** A dict routine whose element loop succeeded builds the dict from the elements. */
  lemma {:induction false} DictStep(s: string, p: nat, vs: seq<Value>, r: nat)
    requires p <= |s| && Elements(s, p) == Step(Ok(vs), r)
    ensures DecodeDict(s, p) == Step(BuildDict(vs), r)
  {
  }

  /**
    A string whose length prefix, the digit at `p` and what follows it up to
    `k`, reads `n`, and whose input holds `n` characters after the `:`.
   */
  lemma {:induction false} StringStep(s: string, p: nat, k: nat, n: nat)
    requires p < |s| && IsDigit(s[p])
    requires p + 1 <= k < |s| && Find(s, p + 1, ':') == k
    requires ParseUsize([s[p]] + s[p + 1..k]) == Some(n)
    requires k + 1 + n <= |s|
    ensures ValueAt(s, p) == Step(Ok(ByteString(s[k + 1..k + 1 + n])), k + 1 + n)
  {
    DecodeProperties.StringFits(s, p + 1, s[p], k, n);
    DispatchString(s, p);
  }

  /** A run of digits that parses, read the way the string routine reads it, gives the same number. */
  lemma {:induction false} LengthPrefix(s: string, p: nat, k: nat, digits: string, len: nat)
    requires |digits| > 0 && ParseUsize(digits) == Some(len)
    requires k == p + |digits| && At(s, p, digits)
    ensures p < k <= |s|
    ensures ParseUsize([s[p]] + s[p + 1..k]) == Some(len)
  {
    AtSlice(s, p, digits);
    SliceCons(s, p, k);
  }

  lemma {:induction false} SliceCons(s: string, p: nat, k: nat)
    requires p < k <= |s|
    ensures s[p..k] == [s[p]] + s[p + 1..k]
  {
  }

  /** A list tag dispatches to the list routine. */
  lemma {:induction false} DispatchList(s: string, p: nat)
    requires p < |s| && s[p] == 'l'
    ensures ValueAt(s, p) == DecodeList(s, p + 1)
  {
  }

  /** A dict tag dispatches to the dict routine. */
  lemma {:induction false} DispatchDict(s: string, p: nat)
    requires p < |s| && s[p] == 'd'
    ensures ValueAt(s, p) == DecodeDict(s, p + 1)
  {
  }

  /** An integer tag dispatches to the integer routine. */
  lemma {:induction false} DispatchInteger(s: string, p: nat)
    requires p < |s| && s[p] == 'i'
    ensures ValueAt(s, p) == DecodeInteger(s, p + 1)
  {
  }

  /** A digit dispatches to the string routine, with that digit as the first of the length. */
  lemma {:induction false} DispatchString(s: string, p: nat)
    requires p < |s| && IsDigit(s[p])
    ensures ValueAt(s, p) == DecodeString(s, p + 1, s[p])
  {
  }

  /** A written byte string reads back, and exactly its encoding is consumed. */
  lemma {:induction false} DecodeEncodedString(b: Payload, s: string, p: nat)
    requires At(s, p, EncodeString(b))
    ensures ValueAt(s, p) == Step(Ok(ByteString(b)), p + |EncodeString(b)|)
  {
    var digits := NatToDecimal(|b|);
    var k := p + |digits|;
    StringPieces(b, s, p, k);
    ParseUsizeOfDecimal(|b|);
    WrittenString(s, p, k, digits, b);
    DispatchString(s, p);
  }

  /** The string routine on a length prefix `digits` that reads `|b|`, a `:` and then `b`. */
  lemma {:induction false} WrittenString(s: string, p: nat, k: nat, digits: string, b: string)
    requires |digits| > 0 && AllDigits(digits) && ParseUsize(digits) == Some(|b|)
    requires At(s, p, digits) && k == p + |digits|
    requires At(s, k, ":") && At(s, k + 1, b)
    ensures p < |s| && IsDigit(s[p])
    ensures DecodeString(s, p + 1, s[p]) == Step(Ok(ByteString(b)), k + 1 + |b|)
  {
    ColonAfterDigits(s, p, digits, k);
    LengthPrefix(s, p, k, digits, |b|);
    assert k + 1 + |b| <= |s| && s[k + 1..k + 1 + |b|] == b by {
      AtSlice(s, k + 1, b);
    }
    DecodeProperties.StringFits(s, p + 1, s[p], k, |b|);
  }

  /** A written byte string is its length, a `:` and its characters, one after the other. */
  lemma {:induction false} StringPieces(b: Payload, s: string, p: nat, k: nat)
    requires At(s, p, EncodeString(b))
    requires k == p + |NatToDecimal(|b|)|
    ensures At(s, p, NatToDecimal(|b|)) && At(s, k, ":") && At(s, k + 1, b)
    ensures k + 1 + |b| == p + |EncodeString(b)|
  {
    AtSplit(s, p, NatToDecimal(|b|) + ":", b);
    AtSplit(s, p, NatToDecimal(|b|), ":");
  }

  /** The first `:` after a run of digits is the one that ends it. */
  lemma {:induction false} ColonAfterDigits(s: string, p: nat, digits: string, k: nat)
    requires |digits| > 0 && AllDigits(digits)
    requires At(s, p, digits) && k == p + |digits| && At(s, k, ":")
    ensures p < |s| && IsDigit(s[p])
    ensures k < |s| && Find(s, p + 1, ':') == k
  {
    AtChar(s, p, digits, 0);
    AtChar(s, k, ":", 0);
    forall i | p + 1 <= i < k
      ensures s[i] != ':'
    {
      AtChar(s, p, digits, i - p);
      assert IsDigit(digits[i - p]);
    }
    FindIs(s, p + 1, k, ':');
  }

  /** An integer whose body up to the first `e` reads `v`. */
  lemma {:induction false} IntegerStep(s: string, p: nat, k: nat, v: Int64)
    requires p < |s| && s[p] == 'i'
    requires p + 1 <= k < |s| && Find(s, p + 1, 'e') == k
    requires ParseI64(s[p + 1..k]) == Some(v)
    ensures ValueAt(s, p) == Step(Ok(Integer(v)), k + 1)
  {
    assert ValueAt(s, p) == DecodeInteger(s, p + 1) by {
      DispatchInteger(s, p);
    }
  }

  /** A written integer reads back, and exactly its encoding is consumed. */
  lemma {:induction false} DecodeEncodedInteger(v: Int64, s: string, p: nat)
    requires At(s, p, Encode(TInteger(v)))
    ensures ValueAt(s, p) == Step(Ok(Integer(v)), p + |Encode(TInteger(v))|)
  {
    var digits := IntToDecimal(v);
    var k := p + 1 + |digits|;
    assert k + 1 == p + |Encode(TInteger(v))|;
    assert At(s, p, "i") && At(s, p + 1, digits) && At(s, k, "e") by {
      AtSplit(s, p, "i" + digits, "e");
      AtSplit(s, p, "i", digits);
    }
    assert s[p] == 'i' && k < |s| && s[k] == 'e' by {
      AtChar(s, p, "i", 0);
      AtChar(s, k, "e", 0);
    }
    assert forall i :: p + 1 <= i < k ==> s[i] != 'e' by {
      forall i | p + 1 <= i < k ensures s[i] != 'e' {
        AtChar(s, p + 1, digits, i - p - 1);
      }
    }
    FindIs(s, p + 1, k, 'e');
    assert s[p + 1..k] == digits by {
      AtSlice(s, p + 1, digits);
    }
    ParseI64OfDecimal(v);
    IntegerStep(s, p, k, v);
  }

  /** Any written term reads back to its meaning, and exactly its encoding is consumed. */
  lemma {:induction false} DecodeEncoded(t: Term, s: string, p: nat)
    requires At(s, p, Encode(t))
    ensures ValueAt(s, p) == Step(Ok(Meaning(t)), p + |Encode(t)|)
    decreases |s| - p, 1
  {
    match t
    case TString(b) => DecodeEncodedString(b, s, p);
    case TInteger(v) => DecodeEncodedInteger(v, s, p);
    case TList(items) => DecodeEncodedList(items, s, p);
    case TDict(pairs) => DecodeEncodedDict(pairs, s, p);
  }

  lemma {:induction false} DecodeEncodedList(items: seq<Term>, s: string, p: nat)
    requires At(s, p, Encode(TList(items)))
    ensures ValueAt(s, p) == Step(Ok(List(Meanings(items))), p + |Encode(TList(items))|)
    decreases |s| - p, 0
  {
    assert Encode(TList(items)) == "l" + (EncodeAll(items) + "e");
    AtSplit(s, p, "l", EncodeAll(items) + "e");
    AtChar(s, p, "l", 0);
    DispatchList(s, p);
    DecodeEncodedItems(items, s, p + 1);
  }

  lemma {:induction false} DecodeEncodedDict(pairs: seq<Pair>, s: string, p: nat)
    requires At(s, p, Encode(TDict(pairs)))
    ensures ValueAt(s, p) == Step(Ok(Dict(FirstWins(pairs))), p + |Encode(TDict(pairs))|)
    decreases |s| - p, 0
  {
    var body := EncodePairs(pairs) + "e";
    var end := p + 1 + |body|;
    assert end == p + |Encode(TDict(pairs))|;
    assert s[p] == 'd' && At(s, p + 1, body) by {
      assert Encode(TDict(pairs)) == "d" + body;
      AtSplit(s, p, "d", body);
      AtChar(s, p, "d", 0);
    }
    assert ValueAt(s, p) == DecodeDict(s, p + 1) by {
      DispatchDict(s, p);
    }
    var vs := PairValues(pairs);
    assert Elements(s, p + 1) == Step(Ok(vs), end) by {
      DecodeEncodedPairs(pairs, s, p + 1);
    }
    assert BuildDict(vs) == Ok(Dict(FirstWins(pairs))) by {
      InsertPairsOfPairs(pairs, map[]);
      assert map[] + FirstWins(pairs) == FirstWins(pairs);
    }
    DictStep(s, p + 1, vs, end);
  }


  /** A non-empty list body is its first item's encoding followed by the rest. */
  lemma {:induction false} EncodeAllShape(ts: seq<Term>)
    requires ts != []
    ensures EncodeAll(ts) + "e" == Encode(ts[0]) + (EncodeAll(ts[1..]) + "e")
    ensures |EncodeAll(ts)| == |Encode(ts[0])| + |EncodeAll(ts[1..])|
  {
  }

  /** Where the first item and the remaining items of a written list body lie. */
  lemma {:induction false} ItemsLayout(ts: seq<Term>, s: string, p: nat)
    requires ts != [] && At(s, p, EncodeAll(ts) + "e")
    ensures var q := p + |Encode(ts[0])|;
      && At(s, p, Encode(ts[0])) && s[p] != 'e'
      && At(s, q, EncodeAll(ts[1..]) + "e")
      && q + |EncodeAll(ts[1..])| == p + |EncodeAll(ts)|
  {
    EncodeAllShape(ts);
    AtSplit(s, p, Encode(ts[0]), EncodeAll(ts[1..]) + "e");
    AtChar(s, p, Encode(ts[0]), 0);
  }

  /** The element loop of an empty written body meets its `e` at once. */
  lemma {:induction false} ItemsEmpty(s: string, p: nat)
    requires At(s, p, "e")
    ensures Elements(s, p) == Step(Ok([]), p + 1)
  {
    AtChar(s, p, "e", 0);
    ElementsClose(s, p);
  }

  /** The elements of a written list, then its `e`, read back in order. */
  lemma {:induction false} DecodeEncodedItems(ts: seq<Term>, s: string, p: nat)
    requires At(s, p, EncodeAll(ts) + "e")
    ensures Elements(s, p) == Step(Ok(Meanings(ts)), p + |EncodeAll(ts)| + 1)
    decreases |s| - p, 2
  {
    if ts == [] {
      assert EncodeAll(ts) + "e" == "e";
      ItemsEmpty(s, p);
    } else {
      var q := p + |Encode(ts[0])|;
      var end := p + |EncodeAll(ts)| + 1;
      assert At(s, p, Encode(ts[0])) && s[p] != 'e'
        && At(s, q, EncodeAll(ts[1..]) + "e") && q + |EncodeAll(ts[1..])| + 1 == end by {
        ItemsLayout(ts, s, p);
      }
      assert ValueAt(s, p) == Step(Ok(Meaning(ts[0])), q) by {
        DecodeEncoded(ts[0], s, p);
      }
      assert Elements(s, q) == Step(Ok(Meanings(ts[1..])), end) by {
        DecodeEncodedItems(ts[1..], s, q);
      }
      ElementsCons(s, p, Meaning(ts[0]), q, Meanings(ts[1..]), end);
    }
  }

  /** A key and its value decoded, then the rest of the loop. */
  lemma {:induction false} ElementsPair(s: string, p: nat, k: string, q1: nat, v: Value, q2: nat, vs: seq<Value>, r: nat)
    requires p < |s| && s[p] != 'e' && ValueAt(s, p) == Step(Ok(ByteString(k)), q1)
    requires q1 < |s| && s[q1] != 'e' && ValueAt(s, q1) == Step(Ok(v), q2)
    requires q2 <= |s| && Elements(s, q2) == Step(Ok(vs), r)
    ensures Elements(s, p) == Step(Ok([ByteString(k), v] + vs), r)
  {
    ElementsCons(s, q1, v, q2, vs, r);
    ElementsCons(s, p, ByteString(k), q1, [v] + vs, r);
    assert [ByteString(k)] + ([v] + vs) == [ByteString(k), v] + vs;
  }

  lemma {:induction false} Regroup(a: string, b: string, c: string, d: string)
    ensures a + b + c + d == a + (b + (c + d))
  {
  }

  /** A non-empty dict body is its first key's encoding, then its value's, then the rest. */
  lemma {:induction false} EncodePairsShape(ps: seq<Pair>)
    requires ps != []
    ensures EncodePairs(ps) + "e"
         == EncodeString(ps[0].key) + (Encode(ps[0].value) + (EncodePairs(ps[1..]) + "e"))
    ensures |EncodePairs(ps)| == |EncodeString(ps[0].key)| + |Encode(ps[0].value)| + |EncodePairs(ps[1..])|
  {
    var a, b, c := EncodeString(ps[0].key), Encode(ps[0].value), EncodePairs(ps[1..]);
    assert EncodePairs(ps) == a + b + c;
    Regroup(a, b, c, "e");
  }

  /** Where the key, the value and the remaining pairs of a written dict body lie. */
  lemma {:induction false} PairsLayout(ps: seq<Pair>, s: string, p: nat)
    requires ps != [] && At(s, p, EncodePairs(ps) + "e")
    ensures var q1 := p + |EncodeString(ps[0].key)|;
      var q2 := q1 + |Encode(ps[0].value)|;
      && At(s, p, EncodeString(ps[0].key)) && s[p] != 'e'
      && At(s, q1, Encode(ps[0].value)) && s[q1] != 'e'
      && At(s, q2, EncodePairs(ps[1..]) + "e")
      && q2 + |EncodePairs(ps[1..])| == p + |EncodePairs(ps)|
  {
    EncodePairsShape(ps);
    var key := EncodeString(ps[0].key);
    var value := Encode(ps[0].value);
    AtSplit3(s, p, key, value, EncodePairs(ps[1..]) + "e");
    AtChar(s, p, key, 0);
    AtChar(s, p + |key|, value, 0);
  }

  /** The key/value elements of a written dict, then its `e`, read back in order. */
  lemma {:induction false} DecodeEncodedPairs(ps: seq<Pair>, s: string, p: nat)
    requires At(s, p, EncodePairs(ps) + "e")
    ensures Elements(s, p) == Step(Ok(PairValues(ps)), p + |EncodePairs(ps)| + 1)
    decreases |s| - p, 2
  {
    if ps == [] {
      assert EncodePairs(ps) + "e" == "e";
      ItemsEmpty(s, p);
    } else {
      var key, value := ps[0].key, ps[0].value;
      var q1 := p + |EncodeString(key)|;
      var q2 := q1 + |Encode(value)|;
      var end := p + |EncodePairs(ps)| + 1;
      assert At(s, p, EncodeString(key)) && s[p] != 'e'
        && At(s, q1, Encode(value)) && s[q1] != 'e'
        && At(s, q2, EncodePairs(ps[1..]) + "e") && q2 + |EncodePairs(ps[1..])| + 1 == end by {
        PairsLayout(ps, s, p);
      }
      assert ValueAt(s, p) == Step(Ok(ByteString(key)), q1) by {
        DecodeEncodedString(key, s, p);
      }
      assert ValueAt(s, q1) == Step(Ok(Meaning(value)), q2) by {
        DecodeEncoded(value, s, q1);
      }
      assert Elements(s, q2) == Step(Ok(PairValues(ps[1..])), end) by {
        DecodeEncodedPairs(ps[1..], s, q2);
      }
      ElementsPair(s, p, key, q1, Meaning(value), q2, PairValues(ps[1..]), end);
    }
  }

  /** The pop-and-insert loop over the elements of written pairs builds the first-wins map. */
  lemma {:induction false} InsertPairsOfPairs(ps: seq<Pair>, acc: map<string, Value>)
    ensures InsertPairs(PairValues(ps), acc) == Ok(Dict(acc + FirstWins(ps)))
  {
    if ps == [] {
      assert acc + map[] == acc;
    } else {
      var k, v := ps[0].key, Meaning(ps[0].value);
      var front := [ByteString(k), v];
      var back := PairValues(ps[1..]);
      var m := acc + FirstWins(ps[1..]);
      assert PairValues(ps) == front + back;
      assert InsertPairs(back, acc) == Ok(Dict(m)) by {
        InsertPairsOfPairs(ps[1..], acc);
      }
      assert InsertPairs(front, m) == Ok(Dict(m[k := v])) by {
        assert front[..0] == [];
      }
      assert InsertPairs(front + back, acc) == Ok(Dict(m[k := v])) by {
        DecodeProperties.InsertPairsAppend(front, back, acc);
      }
      assert m[k := v] == acc + FirstWins(ps) by {
        assert FirstWins(ps) == FirstWins(ps[1..])[k := v];
        UpdateMerged(acc, FirstWins(ps[1..]), k, v);
      }
    }
  }

  lemma {:induction false} UpdateMerged(a: map<string, Value>, b: map<string, Value>, k: string, v: Value)
    ensures (a + b)[k := v] == a + b[k := v]
  {
  }

  /**
    Every written term decodes to its meaning, whatever characters follow
    it, and the decoder consumes exactly the written form.
   */
  lemma {:induction false} DecodeOfEncoding(t: Term, trailer: string)
    ensures Utf8Len(Encode(t) + trailer) >= 2
    ensures Decode(Encode(t) + trailer) == Ok(Meaning(t))
    ensures Consumed(Encode(t) + trailer) == |Encode(t)|
  {
    var s := Encode(t) + trailer;
    assert s[0..|Encode(t)|] == Encode(t);
    AtOfSlice(s, 0, Encode(t));
    DecodeEncoded(t, s, 0);
  }

  /** Written terms, one after the other, are a run of elements that all decode successfully. */
  lemma {:induction false} EncodedRun(ts: seq<Term>, s: string, p: nat, b: nat)
    requires At(s, p, EncodeAll(ts)) && b == p + |EncodeAll(ts)|
    ensures b <= |s|
    ensures DecodeProperties.ElementRun(s, p, b)
    decreases |ts|
  {
    if ts == [] {
      assert b == p;
    } else {
      var q := p + |Encode(ts[0])|;
      assert At(s, p, Encode(ts[0])) && s[p] != 'e' && At(s, q, EncodeAll(ts[1..]))
        && b == q + |EncodeAll(ts[1..])| by {
        assert EncodeAll(ts) == Encode(ts[0]) + EncodeAll(ts[1..]);
        AtSplit(s, p, Encode(ts[0]), EncodeAll(ts[1..]));
        AtChar(s, p, Encode(ts[0]), 0);
      }
      DecodeEncoded(ts[0], s, p);
      EncodedRun(ts[1..], s, q, b);
      DecodeProperties.RunCons(s, p, Meaning(ts[0]), q, b);
    }
  }
}
