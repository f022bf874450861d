/**
  What the decoder guarantees, stated over the functions of `BencodeSpec`:
  the meaning of a decoded dict, that characters after a decoded value
  never change it, that the first failing element ends a list or dict,
  and that a container or integer that lost its closing `e` is reported
  as unterminated instead of being cut short.
 */
module DecodeProperties {
  import opened Wrappers
  import opened BType
  import opened Strings
  import opened Numbers
  import opened BencodeSpec

  // ---------------------------------------------------------------------
  // Dicts
  // ---------------------------------------------------------------------

  /** Every element at an even (key) position is a byte string. */
  predicate KeysAreStrings(elements: seq<Value>) {
    forall i :: 0 <= i < |elements| && i % 2 == 0 ==> elements[i].ByteString?
  }

  /** The strings at the key positions. */
  function KeyStrings(elements: seq<Value>): set<string> {
    set i | 0 <= i < |elements| && i % 2 == 0 && elements[i].ByteString? :: elements[i].bytes
  }

  /** The key at position `i` does not occur at any earlier key position. */
  predicate FirstOccurrence(elements: seq<Value>, i: nat)
    requires i < |elements|
  {
    forall j :: 0 <= j < i && j % 2 == 0 ==> elements[j] != elements[i]
  }

  /** Dropping the last pair: the key positions of what is left. */
  lemma {:induction false} DropLastPair(elements: seq<Value>)
    requires |elements| >= 2 && |elements| % 2 == 0
    ensures KeysAreStrings(elements) <==>
      KeysAreStrings(elements[..|elements| - 2]) && elements[|elements| - 2].ByteString?
    ensures elements[|elements| - 2].ByteString? ==>
      KeyStrings(elements) == KeyStrings(elements[..|elements| - 2]) + {elements[|elements| - 2].bytes}
  {
    var n := |elements|;
    var init := elements[..n - 2];
    assert forall i :: 0 <= i < n - 2 ==> init[i] == elements[i];
    if elements[n - 2].ByteString? {
      var key := elements[n - 2].bytes;
      forall k | k in KeyStrings(elements) ensures k in KeyStrings(init) + {key} {
        var i :| 0 <= i < n && i % 2 == 0 && elements[i].ByteString? && elements[i].bytes == k;
        if i < n - 2 {
          assert init[i] == elements[i];
        }
      }
    }
  }

  /**
    The pop-and-insert loop, from any starting map, succeeds exactly when
    every key position holds a byte string, and its keys are those of the
    start map and of the key positions.
   */
  lemma {:induction false} InsertPairsKeys(elements: seq<Value>, acc: map<string, Value>)
    requires |elements| % 2 == 0
    ensures InsertPairs(elements, acc).Ok? <==> KeysAreStrings(elements)
    ensures InsertPairs(elements, acc).Ok? ==>
      InsertPairs(elements, acc).value.entries.Keys == acc.Keys + KeyStrings(elements)
    decreases |elements|
  {
    if elements != [] {
      var n := |elements|;
      DropLastPair(elements);
      match elements[n - 2]
      case ByteString(key) =>
        InsertPairsKeys(elements[..n - 2], acc[key := elements[n - 1]]);
      case _ =>
    }
  }

  /**
    In the map the pop-and-insert loop builds, a key from the elements gets
    the value that follows its EARLIEST occurrence (the later pairs are
    inserted first and then overwritten), and a start key the elements do
    not mention keeps its value.
   */
  lemma {:induction false} InsertPairsValues(elements: seq<Value>, acc: map<string, Value>, i: nat)
    requires |elements| % 2 == 0 && InsertPairs(elements, acc).Ok?
    requires i < |elements| && i % 2 == 0 && FirstOccurrence(elements, i)
    ensures elements[i].ByteString?
    ensures var entries := InsertPairs(elements, acc).value.entries;
      elements[i].bytes in entries && entries[elements[i].bytes] == elements[i + 1]
    decreases |elements|
  {
    var n := |elements|;
    var init := elements[..n - 2];
    var key := elements[n - 2].bytes;
    var acc' := acc[key := elements[n - 1]];
    assert InsertPairs(elements, acc) == InsertPairs(init, acc');
    InsertPairsKeys(init, acc');
    if i < n - 2 {
      assert init[i] == elements[i] && init[i + 1] == elements[i + 1];
      assert FirstOccurrence(init, i) by {
        forall j | 0 <= j < i && j % 2 == 0 ensures init[j] != init[i] {
          assert init[j] == elements[j];
        }
      }
      InsertPairsValues(init, acc', i);
    } else {
      InsertPairsKept(init, acc', key);
    }
  }

  /** A start key that no key position of the elements mentions keeps its value. */
  lemma {:induction false} InsertPairsKept(elements: seq<Value>, acc: map<string, Value>, key: string)
    requires |elements| % 2 == 0 && InsertPairs(elements, acc).Ok?
    requires key in acc && key !in KeyStrings(elements)
    ensures InsertPairs(elements, acc).value.entries[key] == acc[key]
    decreases |elements|
  {
    if elements != [] {
      var n := |elements|;
      DropLastPair(elements);
      var k := elements[n - 2].bytes;
      InsertPairsKept(elements[..n - 2], acc[k := elements[n - 1]], key);
    }
  }

  /**
    `decode_dict`'s closing step: it succeeds exactly when the element count
    is even and every key position holds a byte string; the dict's keys are
    exactly the key-position strings, and a repeated key takes the value of
    its earliest pair.
   */
  lemma {:induction false} BuildDictMeaning(elements: seq<Value>)
    ensures BuildDict(elements).Ok? <==> |elements| % 2 == 0 && KeysAreStrings(elements)
    ensures BuildDict(elements).Ok? ==> BuildDict(elements).value.entries.Keys == KeyStrings(elements)
    ensures BuildDict(elements).Ok? ==>
      forall i :: 0 <= i < |elements| && i % 2 == 0 && FirstOccurrence(elements, i) ==>
        BuildDict(elements).value.entries[elements[i].bytes] == elements[i + 1]
  {
    if |elements| % 2 == 0 {
      InsertPairsKeys(elements, map[]);
      if BuildDict(elements).Ok? {
        forall i | 0 <= i < |elements| && i % 2 == 0 && FirstOccurrence(elements, i)
          ensures BuildDict(elements).value.entries[elements[i].bytes] == elements[i + 1]
        {
          InsertPairsValues(elements, map[], i);
        }
      }
    }
  }

  /**
    The pop loop over `front + back` first consumes `back` and then goes on
    with `front` from the map it built.
   */
  lemma {:induction false} InsertPairsAppend(front: seq<Value>, back: seq<Value>, acc: map<string, Value>)
    requires |front| % 2 == 0 && |back| % 2 == 0
    ensures InsertPairs(front + back, acc) ==
      var r := InsertPairs(back, acc);
      if r.Err? then r else InsertPairs(front, r.value.entries)
    decreases |back|
  {
    if back == [] {
      assert front + back == front;
    } else {
      var all := front + back;
      var n := |all|;
      var b := |back|;
      assert all[n - 2] == back[b - 2] && all[n - 1] == back[b - 1];
      assert all[..n - 2] == front + back[..b - 2];
      match back[b - 2]
      case ByteString(key) =>
        InsertPairsAppend(front, back[..b - 2], acc[key := back[b - 1]]);
      case _ =>
    }
  }

  // ---------------------------------------------------------------------
  // What each leaf routine reports
  // ---------------------------------------------------------------------

  /** A lookahead that names no kind of value, or the end of input, fails without reading. */
  lemma {:induction false} UnknownTagFails(s: string, p: nat, current: Option<char>)
    requires p <= |s|
    ensures current.None? || !(current.value in "dil" || IsDigit(current.value)) ==>
      DetectAndDecode(s, p, current) == Step(Err(SomethingMissing), p)
  {
  }

  /**
    An integer body runs to the first `e`. With no `e` the integer is
    unterminated whatever the body holds; otherwise the `e` is consumed and
    the body either parses as a 64-bit integer, which is the result, or
    gives the parse error.
   */
  lemma {:induction false} IntegerOutcome(s: string, p: nat)
    requires p <= |s|
    ensures var d := DecodeInteger(s, p);
      d.result == Err(NoEndingE) <==> Find(s, p, 'e') == |s|
    ensures var d, k := DecodeInteger(s, p), Find(s, p, 'e');
      k < |s| ==>
        && d.cursor == k + 1
        && (d.result == Err(IntegerParse) <==> ParseI64(s[p..k]).None?)
        && (d.result.Ok? ==> ParseI64(s[p..k]) == Some(d.result.value.number))
  {
  }

  /**
    A length runs from the first digit to the first `:`, which is consumed.
    It either fails to parse, which is the only error, or the payload is
    what follows the `:`: never more than the declared length, and less
    only when the input runs out.
   */
  lemma {:induction false} StringOutcome(s: string, p: nat, first: char)
    requires p <= |s|
    ensures var d, k := DecodeString(s, p, first), Find(s, p, ':');
      d.result.Err? <==> ParseUsize([first] + s[p..k]).None?
    ensures var d, k := DecodeString(s, p, first), Find(s, p, ':');
      var start := if k < |s| then k + 1 else |s|;
      d.result.Err? ==> d.cursor == start
    ensures var d, k := DecodeString(s, p, first), Find(s, p, ':');
      var start := if k < |s| then k + 1 else |s|;
      d.result.Ok? ==>
        && ParseUsize([first] + s[p..k]).Some?
        && start <= d.cursor
        && d.result.value.bytes == s[start..d.cursor]
        && |d.result.value.bytes| <= ParseUsize([first] + s[p..k]).value
        && (|d.result.value.bytes| < ParseUsize([first] + s[p..k]).value ==> d.cursor == |s|)
  {
  }

  // ---------------------------------------------------------------------
  // Characters after the decoded value are never looked at
  // ---------------------------------------------------------------------

  /** Cutting the input anywhere after `take_while` stopped does not move where it stops. */
  lemma {:induction false} FindLocal(s: string, p: nat, c: char, m: nat)
    requires p <= |s| && m <= |s|
    requires Find(s, p, c) < m || m == |s|
    ensures p <= m && Find(s[..m], p, c) == Find(s, p, c)
  {
  }

  /**
    Decoding from `p` reads nothing past the cursor it ends at: the input
    cut anywhere from that cursor on decodes the same way.
   */
  lemma {:induction false} DetectAndDecodeLocal(s: string, p: nat, current: Option<char>, m: nat)
    requires p <= |s|
    requires DetectAndDecode(s, p, current).cursor <= m <= |s|
    ensures DetectAndDecode(s[..m], p, current) == DetectAndDecode(s, p, current)
    decreases |s| - p, 2
  {
    match current
    case Some('d') => ElementsLocal(s, p, m);
    case Some('i') => IntegerLocal(s, p, m);
    case Some('l') => ElementsLocal(s, p, m);
    case Some(c) =>
      if IsDigit(c) {
        StringLocal(s, p, c, m);
      }
    case None =>
  }

  lemma {:induction false} ElementsLocal(s: string, p: nat, m: nat)
    requires p <= |s|
    requires Elements(s, p).cursor <= m <= |s|
    ensures Elements(s[..m], p) == Elements(s, p)
    ensures DecodeList(s[..m], p) == DecodeList(s, p)
    ensures DecodeDict(s[..m], p) == DecodeDict(s, p)
    decreases |s| - p, 1
  {
    var t := s[..m];
    if p == |s| {
      assert t == s;
    } else if s[p] == 'e' {
      assert t[p] == 'e';
    } else {
      var head := DetectAndDecode(s, p + 1, Some(s[p]));
      DetectAndDecodeLocal(s, p + 1, Some(s[p]), m);
      assert t[p] == s[p];
      if head.result.Ok? {
        ElementsLocal(s, head.cursor, m);
      }
    }
  }

  lemma {:induction false} IntegerLocal(s: string, p: nat, m: nat)
    requires p <= |s|
    requires DecodeInteger(s, p).cursor <= m <= |s|
    ensures DecodeInteger(s[..m], p) == DecodeInteger(s, p)
  {
    var k := Find(s, p, 'e');
    FindLocal(s, p, 'e', m);
    if k < |s| {
      assert s[..m][p..k] == s[p..k];
    }
  }

  lemma {:induction false} StringLocal(s: string, p: nat, first: char, m: nat)
    requires p <= |s|
    requires DecodeString(s, p, first).cursor <= m <= |s|
    ensures DecodeString(s[..m], p, first) == DecodeString(s, p, first)
  {
    var t := s[..m];
    var k := Find(s, p, ':');
    var start := if k < |s| then k + 1 else |s|;
    assert start <= m;
    assert Find(t, p, ':') == k by {
      FindLocal(s, p, ':', m);
    }
    assert start == if k < |t| then k + 1 else |t|;
    assert t[p..k] == s[p..k] by {
      PrefixSlice(s, m, p, k);
    }
    var length := ParseUsize([first] + s[p..k]);
    if length.Some? {
      var n := length.value;
      var end := if start + n <= |s| then start + n else |s|;
      StringIs(s, p, first, k, [first] + s[p..k], start, n, end);
      assert end <= m;
      assert t[start..end] == s[start..end] by {
        PrefixSlice(s, m, start, end);
      }
      StringIs(t, p, first, k, [first] + s[p..k], start, n, end);
    } else {
      StringIsNot(s, p, first, k, start);
      StringIsNot(t, p, first, k, start);
    }
  }

  /** A slice that ends inside a prefix is the same slice of the whole. */
  lemma {:induction false} PrefixSlice(s: string, m: nat, i: nat, j: nat)
    requires i <= j <= m <= |s|
    ensures s[..m][i..j] == s[i..j]
  {
  }

  /** `decode_string` once its length prefix `digits`, ending at `k`, reads `n`. */
  lemma {:induction false} StringIs(s: string, p: nat, first: char, k: nat, digits: string, start: nat, n: nat, end: nat)
    requires p <= k <= |s| && Find(s, p, ':') == k
    requires start == if k < |s| then k + 1 else |s|
    requires digits == [first] + s[p..k] && ParseUsize(digits) == Some(n)
    requires end == if start + n <= |s| then start + n else |s|
    ensures DecodeString(s, p, first) == Step(Ok(ByteString(s[start..end])), end)
  {
  }

  /** `decode_string` when the input holds all `n` characters the length prefix asks for. */
  lemma {:induction false} StringFits(s: string, p: nat, first: char, k: nat, n: nat)
    requires p <= k < |s| && Find(s, p, ':') == k
    requires ParseUsize([first] + s[p..k]) == Some(n)
    requires k + 1 + n <= |s|
    ensures DecodeString(s, p, first) == Step(Ok(ByteString(s[k + 1..k + 1 + n])), k + 1 + n)
  {
  }

  /** `decode_string` once its length prefix, ending at `k`, does not parse. */
  lemma {:induction false} StringIsNot(s: string, p: nat, first: char, k: nat, start: nat)
    requires p <= k <= |s| && Find(s, p, ':') == k
    requires start == if k < |s| then k + 1 else |s|
    requires ParseUsize([first] + s[p..k]).None?
    ensures DecodeString(s, p, first) == Step(Err(StringLength), start)
  {
  }

  /**
    Only one value is decoded: the input cut anywhere after the consumed
    part (and still long enough to pass the length check) decodes to the
    same result.
   */
  lemma {:induction false} TrailingIgnored(input: string, m: nat)
    requires Utf8Len(input) >= 2
    requires Consumed(input) <= m <= |input|
    requires Utf8Len(input[..m]) >= 2
    ensures Decode(input[..m]) == Decode(input)
  {
    assert input[..m][0] == input[0];
    DetectAndDecodeLocal(input, 1, Some(input[0]), m);
  }

  // ---------------------------------------------------------------------
  // A missing terminator is reported, never silently repaired
  // ---------------------------------------------------------------------

  /**
    Drop the `e` that closed an element loop and the loop runs out of
    input: every element decodes as before and the result is `Unterminated`.
   */
  lemma {:induction false} ElementsMissingTerminator(s: string, p: nat)
    requires p <= |s| && Elements(s, p).result.Ok?
    ensures Elements(s[..Elements(s, p).cursor - 1], p) == Step(Err(Unterminated), Elements(s, p).cursor - 1)
    decreases |s| - p
  {
    var q := Elements(s, p).cursor;
    var t := s[..q - 1];
    if s[p] != 'e' {
      var head := DetectAndDecode(s, p + 1, Some(s[p]));
      DetectAndDecodeLocal(s, p + 1, Some(s[p]), q - 1);
      assert t[p] == s[p];
      ElementsMissingTerminator(s, head.cursor);
    }
  }

  /** A list without its closing `e` is `Unterminated`, not a shorter list. */
  lemma {:induction false} ListMissingTerminator(s: string, p: nat)
    requires p <= |s| && DecodeList(s, p).result.Ok?
    ensures DecodeList(s[..DecodeList(s, p).cursor - 1], p) == Step(Err(Unterminated), DecodeList(s, p).cursor - 1)
  {
    ElementsMissingTerminator(s, p);
  }

  /**
    A dict without its closing `e` is `Unterminated`, whatever its
    elements: neither the odd-count nor the key-type error is reported then.
   */
  lemma {:induction false} DictMissingTerminator(s: string, p: nat)
    requires p <= |s| && Elements(s, p).result.Ok?
    ensures DecodeDict(s[..Elements(s, p).cursor - 1], p) == Step(Err(Unterminated), Elements(s, p).cursor - 1)
  {
    ElementsMissingTerminator(s, p);
  }

  /** An integer without its closing `e` is `NoEndingE`, whatever its body. */
  lemma {:induction false} IntegerMissingTerminator(s: string, p: nat)
    requires p <= |s| && DecodeInteger(s, p).result != Err(NoEndingE)
    ensures DecodeInteger(s[..DecodeInteger(s, p).cursor - 1], p) == Step(Err(NoEndingE), DecodeInteger(s, p).cursor - 1)
  {
  }

  // ---------------------------------------------------------------------
  // Fail fast: the first failing element ends the container
  // ---------------------------------------------------------------------

  /**
    From `p` to `b` the element loop reads elements that all decode
    successfully, one after the other, none of them starting with `e`.
   */
  predicate ElementRun(s: string, p: nat, b: nat)
    requires p <= |s|
    decreases |s| - p
  {
    p == b
    || (p < |s| && s[p] != 'e' && ValueAt(s, p).result.Ok? && ElementRun(s, ValueAt(s, p).cursor, b))
  }

  /** A successfully decoded element in front of a run extends the run. */
  lemma {:induction false} RunCons(s: string, p: nat, v: Value, q: nat, b: nat)
    requires p < |s| && s[p] != 'e' && ValueAt(s, p) == Step(Ok(v), q)
    requires q <= |s| && ElementRun(s, q, b)
    ensures ElementRun(s, p, b)
  {
  }

  /**
    After any run of successfully decoded elements, the first element that
    fails ends the list or dict with exactly that element's error and
    cursor; no partial container is returned.
   */
  lemma {:induction false} ElementErrorStops(s: string, p: nat, b: nat)
    requires p <= b < |s| && ElementRun(s, p, b)
    requires s[b] != 'e' && ValueAt(s, b).result.Err?
    ensures var bad := ValueAt(s, b);
      && Elements(s, p) == Step(Err(bad.result.error), bad.cursor)
      && DecodeList(s, p) == Step(Err(bad.result.error), bad.cursor)
      && DecodeDict(s, p) == Step(Err(bad.result.error), bad.cursor)
  {
    ElementsFail(s, b);
    ElementsSkip(s, p, b);
    ContainersFail(s, p);
  }

  /** The element loop fails as soon as an element does, at that element's cursor. */
  lemma {:induction false} ElementsFail(s: string, p: nat)
    requires p < |s| && s[p] != 'e' && ValueAt(s, p).result.Err?
    ensures Elements(s, p) == Step(Err(ValueAt(s, p).result.error), ValueAt(s, p).cursor)
  {
  }

  /** After a decoded element, the loop's failure is that of the rest of the loop. */
  lemma {:induction false} ElementsPass(s: string, p: nat, v: Value, q: nat)
    requires p < |s| && s[p] != 'e' && ValueAt(s, p) == Step(Ok(v), q)
    requires q <= |s| && Elements(s, q).result.Err?
    ensures Elements(s, p) == Elements(s, q)
  {
  }

  /** The list and dict routines pass on a failure of their element loop unchanged. */
  lemma {:induction false} ContainersFail(s: string, p: nat)
    requires p <= |s| && Elements(s, p).result.Err?
    ensures DecodeList(s, p) == Step(Err(Elements(s, p).result.error), Elements(s, p).cursor)
    ensures DecodeDict(s, p) == Step(Err(Elements(s, p).result.error), Elements(s, p).cursor)
  {
  }

  /** Successfully decoded elements before a failure of the loop at `b` do not change that failure. */
  lemma {:induction false} ElementsSkip(s: string, p: nat, b: nat)
    requires p <= |s| && b <= |s| && ElementRun(s, p, b)
    requires Elements(s, b).result.Err?
    ensures Elements(s, p) == Elements(s, b)
    decreases |s| - p
  {
    if p != b {
      var first := ValueAt(s, p);
      ElementsSkip(s, first.cursor, b);
      ElementsPass(s, p, first.result.value, first.cursor);
    }
  }
}
