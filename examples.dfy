/**
  The cases of the source's unit tests (src/lib.rs:160-271), and edge cases
  of the permissive parsing, as facts about `Decode`. Most follow from the
  round trip `Encoding.DecodeOfEncoding` once the text is shown to be the
  encoding of a term.
 */
module Examples {
  import opened Wrappers
  import opened BType
  import opened Strings
  import opened Numbers
  import opened BencodeSpec
  import opened Encoding

  /** A text that encodes a term decodes to the term's meaning. */
  lemma {:induction false} Decodes(t: Term, text: string, v: Value)
    requires Encode(t) == text && Meaning(t) == v
    ensures Decode(text) == Ok(v)
  {
    DecodeOfEncoding(t, "");
    assert Encode(t) + "" == text;
  }

  /** The value of a single digit. */
  lemma {:induction false} OneDigit(c: char)
    requires IsDigit(c)
    ensures DigitsValue([c]) == c as int - '0' as int
    ensures ParseUsize([c]) == Some(c as int - '0' as int)
    ensures ParseI64([c]) == Some(c as int - '0' as int)
  {
    assert [c][..0] == [];
  }

  /** Appending a digit to a positive number appends its character to the rendering. */
  lemma {:induction false} DecimalStep(n: nat, d: nat)
    requires 0 < n && d < 10
    ensures NatToDecimal(10 * n + d) == NatToDecimal(n) + [('0' as int + d) as char]
  {
    assert (10 * n + d) / 10 == n;
    assert (10 * n + d) % 10 == d;
  }

  /** Two items are written one after the other. */
  lemma {:induction false} EncodeTwo(a: Term, b: Term)
    ensures EncodeAll([a, b]) == Encode(a) + Encode(b)
  {
    assert [a, b][1..] == [b];
    assert EncodeAll([a, b]) == Encode(a) + EncodeAll([b]);
    EncodeOne(b);
  }

  lemma {:induction false} EncodeOne(a: Term)
    ensures EncodeAll([a]) == Encode(a)
  {
    assert [a][1..] == [];
    assert Encode(a) + "" == Encode(a);
  }

  lemma HelloText()
    ensures Encode(TString("hello")) == "5:hello"
  {
    assert NatToDecimal(5) == "5";
  }

  lemma HelloListText()
    ensures Encode(TList([TString("hello")])) == "l5:helloe"
  {
    EncodeOne(TString("hello"));
    HelloText();
  }

  lemma MinusTenText()
    ensures Encode(TInteger(-10)) == "i-10e"
  {
    DecimalStep(1, 0);
    assert NatToDecimal(1) == "1";
  }

  /** The list `[["hello"], -10]` of the source's tests. */
  function ComplexListTerm(): Term
  {
    TList([TList([TString("hello")]), TInteger(-10)])
  }

  lemma ComplexListText()
    ensures Encode(ComplexListTerm()) == "ll5:helloei-10ee"
  {
    EncodeTwo(TList([TString("hello")]), TInteger(-10));
    HelloListText();
    MinusTenText();
  }

  lemma ComplexListMeaning()
    ensures Meaning(ComplexListTerm()) == List([List([ByteString("hello")]), Integer(-10)])
  {
    assert Meanings([TString("hello")]) == [ByteString("hello")];
    assert Meanings([TInteger(-10)]) == [Integer(-10)];
  }

  lemma TooShortInput()
    ensures Decode("l") == Err(TooShort)
  {
  }

  lemma PositiveInteger()
    ensures Decode("i123456789e") == Ok(Integer(123456789))
  {
    var t := TInteger(123456789);
    assert Encode(t) == "i123456789e" by {
      assert NatToDecimal(1) == "1";
      DecimalStep(1, 2);
      DecimalStep(12, 3);
      DecimalStep(123, 4);
      DecimalStep(1234, 5);
      DecimalStep(12345, 6);
      DecimalStep(123456, 7);
      DecimalStep(1234567, 8);
      DecimalStep(12345678, 9);
    }
    Decodes(t, "i123456789e", Integer(123456789));
  }

  lemma NegativeInteger()
    ensures Decode("i-123e") == Ok(Integer(-123))
  {
    var t := TInteger(-123);
    assert Encode(t) == "i-123e" by {
      assert NatToDecimal(1) == "1";
      DecimalStep(1, 2);
      DecimalStep(12, 3);
    }
    Decodes(t, "i-123e", Integer(-123));
  }

  lemma SimpleString()
    ensures Decode("5:hello") == Ok(ByteString("hello"))
  {
    HelloText();
    Decodes(TString("hello"), "5:hello", ByteString("hello"));
  }

  /** Only the declared number of characters is read; the rest is ignored. */
  lemma OnlyDeclaredLength()
    ensures Decode("4:hello") == Ok(ByteString("hell"))
  {
    var t := TString("hell");
    assert Encode(t) + "o" == "4:hello" by {
      assert NatToDecimal(4) == "4";
    }
    DecodeOfEncoding(t, "o");
  }

  lemma EmptyList()
    ensures Decode("le") == Ok(List([]))
  {
  }

  lemma BasicList()
    ensures Decode("l5:helloe") == Ok(List([ByteString("hello")]))
  {
    HelloListText();
    assert Meanings([TString("hello")]) == [ByteString("hello")];
    Decodes(TList([TString("hello")]), "l5:helloe", List([ByteString("hello")]));
  }

  lemma NestedList()
    ensures Decode("ll5:helloee") == Ok(List([List([ByteString("hello")])]))
  {
    var t := TList([TList([TString("hello")])]);
    assert Encode(t) == "ll5:helloee" by {
      EncodeOne(TList([TString("hello")]));
      HelloListText();
    }
    assert Meaning(t) == List([List([ByteString("hello")])]) by {
      assert Meanings([TString("hello")]) == [ByteString("hello")];
    }
    Decodes(t, "ll5:helloee", List([List([ByteString("hello")])]));
  }

  lemma ComplexList()
    ensures Decode("ll5:helloei-10ee") == Ok(List([List([ByteString("hello")]), Integer(-10)]))
  {
    ComplexListText();
    ComplexListMeaning();
    Decodes(ComplexListTerm(), "ll5:helloei-10ee", List([List([ByteString("hello")]), Integer(-10)]));
  }

  lemma EmptyDict()
    ensures Decode("de") == Ok(Dict(map[]))
  {
  }

  /** The pairs `key1 -> value1`, `key2 -> value2` of the source's tests. */
  function TwoKeys(): seq<Pair>
  {
    [Pair("key1", TString("value1")), Pair("key2", TString("value2"))]
  }

  lemma {:induction false} PairText(k: Payload, v: string)
    requires |k| == 4 && |v| == 6
    ensures EncodePairs([Pair(k, TString(v))]) == "4:" + k + "6:" + v
  {
    assert NatToDecimal(4) == "4";
    assert NatToDecimal(6) == "6";
    assert [Pair(k, TString(v))][1..] == [];
  }

  lemma TwoKeysText()
    ensures EncodePairs(TwoKeys()) == "4:key16:value14:key26:value2"
  {
    var ps := TwoKeys();
    var first := [Pair("key1", TString("value1"))];
    var second := [Pair("key2", TString("value2"))];
    assert EncodePairs(ps) == EncodePairs(first) + EncodePairs(second) by {
      assert ps[1..] == second;
      assert first[1..] == [];
    }
    assert EncodePairs(first) == "4:" + "key1" + "6:" + "value1" by {
      PairText("key1", "value1");
    }
    assert EncodePairs(second) == "4:" + "key2" + "6:" + "value2" by {
      PairText("key2", "value2");
    }
    TwoKeysJoin();
  }

  lemma TwoKeysJoin()
    ensures ("4:" + "key1" + "6:" + "value1") + ("4:" + "key2" + "6:" + "value2")
         == "4:key16:value14:key26:value2"
  {
  }

  lemma TwoKeysMeaning()
    ensures FirstWins(TwoKeys()) == map["key1" := ByteString("value1"), "key2" := ByteString("value2")]
  {
    assert FirstWins([Pair("key2", TString("value2"))]) == map["key2" := ByteString("value2")];
  }

  lemma SimpleDict()
    ensures Decode("d4:key16:value14:key26:value2e")
         == Ok(Dict(map["key1" := ByteString("value1"), "key2" := ByteString("value2")]))
  {
    var t := TDict(TwoKeys());
    assert Encode(t) == "d" + "4:key16:value14:key26:value2" + "e" by {
      TwoKeysText();
    }
    SimpleDictJoin();
    assert Meaning(t) == Dict(map["key1" := ByteString("value1"), "key2" := ByteString("value2")]) by {
      TwoKeysMeaning();
    }
    Decodes(t, "d4:key16:value14:key26:value2e",
      Dict(map["key1" := ByteString("value1"), "key2" := ByteString("value2")]));
  }

  lemma SimpleDictJoin()
    ensures "d" + "4:key16:value14:key26:value2" + "e" == "d4:key16:value14:key26:value2e"
  {
  }

  /** The map of the source's complex dict test: the two keys and `ok -> [["hello"], -10]`. */
  function ComplexDictEntries(): map<string, Value>
  {
    map["key1" := ByteString("value1"), "key2" := ByteString("value2"),
        "ok" := List([List([ByteString("hello")]), Integer(-10)])]
  }

  lemma ComplexDict()
    ensures Decode("d4:key16:value14:key26:value22:okll5:helloei-10eee") == Ok(Dict(ComplexDictEntries()))
  {
    var ok := Pair("ok", ComplexListTerm());
    var t := TDict(TwoKeys() + [ok]);
    assert Encode(t) == "d" + ("4:key16:value14:key26:value2" + ("2:" + "ok" + "ll5:helloei-10ee")) + "e" by {
      assert EncodePairs(TwoKeys() + [ok]) == EncodePairs(TwoKeys()) + EncodePairs([ok]) by {
        EncodePairsAppend(TwoKeys(), [ok]);
      }
      TwoKeysText();
      OkPairText();
    }
    ComplexDictJoin();
    assert Meaning(t) == Dict(ComplexDictEntries()) by {
      ComplexDictMeaning();
    }
    Decodes(t, "d4:key16:value14:key26:value22:okll5:helloei-10eee", Dict(ComplexDictEntries()));
  }

  lemma OkPairText()
    ensures EncodePairs([Pair("ok", ComplexListTerm())]) == "2:" + "ok" + "ll5:helloei-10ee"
  {
    assert NatToDecimal(2) == "2";
    assert [Pair("ok", ComplexListTerm())][1..] == [];
    ComplexListText();
  }

  lemma ComplexDictJoin()
    ensures "d" + ("4:key16:value14:key26:value2" + ("2:" + "ok" + "ll5:helloei-10ee")) + "e"
         == "d4:key16:value14:key26:value22:okll5:helloei-10eee"
  {
    var pairs, ok := "4:key16:value14:key26:value2", "2:okll5:helloei-10ee";
    OkJoin();
    assert "d" + (pairs + ok) + "e" == ("d" + pairs) + ok + "e";
    OpenJoin();
    BodyJoin();
  }

  lemma OkJoin()
    ensures "2:" + "ok" + "ll5:helloei-10ee" == "2:okll5:helloei-10ee"
  {
  }

  lemma OpenJoin()
    ensures "d" + "4:key16:value14:key26:value2" == "d4:key16:value14:key26:value2"
  {
  }

  lemma BodyJoin()
    ensures "d4:key16:value14:key26:value2" + "2:okll5:helloei-10ee" + "e"
         == "d4:key16:value14:key26:value22:okll5:helloei-10eee"
  {
    assert "d4:key16:value14:key26:value2" + "2:okll5:helloei-10ee"
        == "d4:key16:value14:key26:value22:okll5:helloei-10ee";
  }

  lemma ComplexDictMeaning()
    ensures FirstWins(TwoKeys() + [Pair("ok", ComplexListTerm())]) == ComplexDictEntries()
  {
    var ok := Pair("ok", ComplexListTerm());
    var second := Pair("key2", TString("value2"));
    var ps := TwoKeys() + [ok];
    var list := List([List([ByteString("hello")]), Integer(-10)]);
    assert FirstWins([ok]) == map["ok" := list] by {
      assert [ok][1..] == [];
      ComplexListMeaning();
    }
    assert FirstWins([second, ok]) == map["ok" := list]["key2" := ByteString("value2")] by {
      assert [second, ok][1..] == [ok];
    }
    assert FirstWins(ps) == FirstWins([second, ok])["key1" := ByteString("value1")] by {
      assert ps[1..] == [second, ok];
    }
    assert map["ok" := list]["key2" := ByteString("value2")]["key1" := ByteString("value1")]
        == ComplexDictEntries();
  }

  lemma {:induction false} EncodePairsAppend(ps: seq<Pair>, qs: seq<Pair>)
    ensures EncodePairs(ps + qs) == EncodePairs(ps) + EncodePairs(qs)
  {
    if ps == [] {
      assert ps + qs == qs;
    } else {
      assert (ps + qs)[0] == ps[0] && (ps + qs)[1..] == ps[1..] + qs;
      EncodePairsAppend(ps[1..], qs);
    }
  }

  /** A pair written after all others only adds its key when no earlier pair has it. */
  lemma EarliestDuplicateWins()
    ensures Decode("d1:ai1e1:ai2ee") == Ok(Dict(map["a" := Integer(1)]))
  {
    var first, second := Pair("a", TInteger(1)), Pair("a", TInteger(2));
    var t := TDict([first, second]);
    assert Encode(t) == "d" + ("1:a" + "i1e" + ("1:a" + "i2e")) + "e" by {
      assert EncodePairs([second]) == "1:a" + "i2e" by {
        assert NatToDecimal(1) == "1";
        assert NatToDecimal(2) == "2";
        assert [second][1..] == [];
      }
      assert EncodePairs([first, second]) == "1:a" + "i1e" + EncodePairs([second]) by {
        assert NatToDecimal(1) == "1";
        assert [first, second][1..] == [second];
      }
    }
    DuplicateJoin();
    assert Meaning(t) == Dict(map["a" := Integer(1)]) by {
      assert FirstWins([second]) == map["a" := Integer(2)];
      assert FirstWins([first, second]) == FirstWins([second])["a" := Integer(1)] by {
        assert [first, second][1..] == [second];
      }
      assert map["a" := Integer(2)]["a" := Integer(1)] == map["a" := Integer(1)];
    }
    Decodes(t, "d1:ai1e1:ai2ee", Dict(map["a" := Integer(1)]));
  }

  lemma DuplicateJoin()
    ensures "d" + ("1:a" + "i1e" + ("1:a" + "i2e")) + "e" == "d1:ai1e1:ai2ee"
  {
  }

  /** A length with no `:` after it still parses; the payload it reads is empty. */
  lemma UnterminatedLength()
    ensures Decode("12") == Ok(ByteString(""))
  {
    var s := "12";
    assert Utf8Len(s) == 2;
    assert Find(s, 1, ':') == 2;
    assert ParseUsize(['1'] + s[1..2]) == Some(12) by {
      assert ['1'] + s[1..2] == "12";
      assert DigitsValue("12") == 12;
    }
  }

  /** A length may carry leading zeros. */
  lemma PaddedLength()
    ensures Decode("05:hello") == Ok(ByteString("hello"))
  {
    var s := "05:hello";
    assert Utf8Len(s) == 8;
    assert Find(s, 1, ':') == 2;
    assert ParseUsize(['0'] + s[1..2]) == Some(5) by {
      ParseUsizePadded(false, 1, 5);
      assert NatToDecimal(5) == "5";
      assert ['0'] + s[1..2] == "" + Zeros(1) + NatToDecimal(5);
    }
    DecodeProperties.StringFits(s, 1, '0', 2, 5);
    assert s[3..8] == "hello";
  }

  /** The integer parser accepts a negative zero and leading zeros. */
  lemma NegativeZero()
    ensures Decode("i-0e") == Ok(Integer(0))
  {
    var s := "i-0e";
    assert Find(s, 1, 'e') == 3;
    assert s[1..3] == "-0";
    assert ParseI64("-0") == Some(0) by {
      OneDigit('0');
      assert "-0"[1..] == ['0'];
    }
  }

  lemma LeadingZeros()
    ensures Decode("i007e") == Ok(Integer(7))
  {
    var s := "i007e";
    assert Find(s, 1, 'e') == 4;
    assert s[1..4] == "007";
    assert ParseI64("007") == Some(7) by {
      OneDigit('0');
      assert "007"[..2][..1] == ['0'];
      assert "007"[..2] == "00";
      assert DigitsValue("00") == 0;
      assert DigitsValue("007") == 7;
    }
  }

  /** An integer may carry a leading `+`. */
  lemma PlusInteger()
    ensures Decode("i+5e") == Ok(Integer(5))
  {
    var s := "i+5e";
    assert Find(s, 1, 'e') == 3;
    assert ParseI64(s[1..3]) == Some(5) by {
      ParseI64Padded('+', true, 0, 5);
      assert NatToDecimal(5) == "5";
      assert s[1..3] == ['+'] + Zeros(0) + NatToDecimal(5);
    }
  }

  /** A length with a character that is not a digit does not parse. */
  lemma NonDigitLength()
    ensures Decode("1x:a") == Err(StringLength)
  {
    var s := "1x:a";
    assert Utf8Len(s) == 4;
    assert Find(s, 1, ':') == 2;
    assert ParseUsize(['1'] + s[1..2]).None? by {
      var t := ['1'] + s[1..2];
      assert t[1] == 'x';
      ParseUsizeSyntax(t);
    }
  }

  /** The first element of `FailAfterPadded`'s input, `i007e`, reads as 7. */
  lemma PaddedElement()
    ensures ValueAt("li007ei-ee", 1) == Step(Ok(Integer(7)), 6)
  {
    var s := "li007ei-ee";
    assert Find(s, 2, 'e') == 5;
    assert s[2..5] == "007";
    assert ParseI64("007") == Some(7) by {
      ParseI64Padded('+', false, 2, 7);
      assert NatToDecimal(7) == "7";
      assert "" + Zeros(2) + NatToDecimal(7) == "007";
    }
  }

  /** The first failing element ends the list, after an element this decoder accepts but would not write. */
  lemma FailAfterPadded()
    ensures Decode("li007ei-ee") == Err(IntegerParse)
  {
    var s := "li007ei-ee";
    PaddedElement();
    assert ValueAt(s, 6) == Step(Err(IntegerParse), 9) by {
      assert Find(s, 7, 'e') == 8;
      assert s[7..8] == "-";
      LoneSignRejected("-");
    }
    assert DecodeProperties.ElementRun(s, 1, 6) by {
      assert DecodeProperties.ElementRun(s, 6, 6);
    }
    DecodeProperties.ElementErrorStops(s, 1, 6);
    assert DetectAndDecode(s, 1, Some(s[0])) == DecodeList(s, 1);
  }

  /** A length cannot start with a sign: the tag is not recognised. */
  lemma SignedLength()
    ensures Decode("-0:") == Err(SomethingMissing)
  {
  }

  lemma MissingEnding()
    ensures Decode("i12") == Err(NoEndingE)
  {
    var s := "i12";
    assert Find(s, 1, 'e') == 3;
  }

  lemma EmptyInteger()
    ensures Decode("ie") == Err(IntegerParse)
  {
    var s := "ie";
    assert Find(s, 1, 'e') == 1;
  }

  lemma UnknownTag()
    ensures Decode("x1") == Err(SomethingMissing)
  {
  }

  lemma OddDict()
    ensures Decode("d1:ae") == Err(OddDictElements)
  {
    var s := "d1:ae";
    assert ValueAt(s, 1) == Step(Ok(ByteString("a")), 4) by {
      assert Find(s, 2, ':') == 2;
      assert [s[1]] + s[2..2] == ['1'];
      OneDigit('1');
      assert s[3..4] == "a";
      StringStep(s, 1, 2, 1);
    }
    ElementsClose(s, 4);
    ElementsCons(s, 1, ByteString("a"), 4, [], 5);
    assert [ByteString("a")] + [] == [ByteString("a")];
    DictStep(s, 1, [ByteString("a")], 5);
  }

  lemma IntegerKey()
    ensures Decode("di1ei2ee") == Err(NonStringKey)
  {
    var s := "di1ei2ee";
    assert Elements(s, 1) == Step(Ok([Integer(1), Integer(2)]), 8) by {
      assert ValueAt(s, 1) == Step(Ok(Integer(1)), 4) by {
        assert Find(s, 2, 'e') == 3;
        assert s[2..3] == ['1'];
        OneDigit('1');
        IntegerStep(s, 1, 3, 1);
      }
      assert ValueAt(s, 4) == Step(Ok(Integer(2)), 7) by {
        assert Find(s, 5, 'e') == 6;
        assert s[5..6] == ['2'];
        OneDigit('2');
        IntegerStep(s, 4, 6, 2);
      }
      ElementsClose(s, 7);
      ElementsCons(s, 4, Integer(2), 7, [], 8);
      assert [Integer(2)] + [] == [Integer(2)];
      ElementsCons(s, 1, Integer(1), 4, [Integer(2)], 8);
      assert [Integer(1)] + [Integer(2)] == [Integer(1), Integer(2)];
    }
    DictStep(s, 1, [Integer(1), Integer(2)], 8);
  }

  lemma UnclosedList()
    ensures Decode("li1e") == Err(Unterminated)
  {
    var s := "li1e";
    assert ValueAt(s, 1) == Step(Ok(Integer(1)), 4) by {
      assert Find(s, 2, 'e') == 3;
      assert ParseI64(s[2..3]) == Some(1) by { assert s[2..3] == ['1']; OneDigit('1'); }
    }
  }
}
