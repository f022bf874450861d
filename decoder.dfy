/**
  The decoder of src/lib.rs as it runs: the cursor is a position that each
  routine receives and hands back advanced, the element loops push into a
  growing sequence, and the dict is built by popping that sequence. Each
  method is proved to compute exactly its function in `BencodeSpec`.
 */
module BEncoder {
  import opened Wrappers
  import opened BType
  import opened Strings
  import opened Numbers
  import Spec = BencodeSpec
  import DecodeProperties

  method Decode(input: string) returns (r: Result<Value, DecodeError>)
    ensures r == Spec.Decode(input)
  {
    if Utf8Len(input) < 2 {
      return Err(TooShort);
    }
    // Utf8Len bounds the character count, so there is a first character.
    var next := Some(input[0]);
    var q;
    r, q := DetectAndDecode(input, 1, next);
  }

  method DetectAndDecode(s: string, p: nat, current: Option<char>) returns (r: Result<Value, DecodeError>, q: nat)
    requires p <= |s|
    ensures Spec.Step(r, q) == Spec.DetectAndDecode(s, p, current)
    decreases |s| - p, 2
  {
    match current
    case Some('d') => r, q := DecodeDict(s, p);
    case Some('i') => r, q := DecodeInteger(s, p);
    case Some('l') => r, q := DecodeList(s, p);
    case Some(c) =>
      if IsDigit(c) {
        r, q := DecodeString(c, s, p);
      } else {
        r, q := Err(SomethingMissing), p;
      }
    case None => r, q := Err(SomethingMissing), p;
  }

  /** The element loop's result once the part decoded so far, `acc`, is put in front. */
  function Prepend(acc: seq<Value>, rest: Spec.Step<seq<Value>>): Spec.Step<seq<Value>> {
    match rest.result
    case Ok(items) => Spec.Step(Ok(acc + items), rest.cursor)
    case Err(_) => rest
  }

  /**
    One turn of the element loop: the element read at `at` decodes to `v`
    and leaves the cursor at `c`, so it moves from the rest onto `acc`.
   */
  lemma {:induction false} ElementStep(s: string, at: nat, acc: seq<Value>, v: Value, c: nat)
    requires at < |s| && s[at] != 'e'
    requires Spec.DetectAndDecode(s, at + 1, Some(s[at])) == Spec.Step(Ok(v), c)
    ensures c <= |s|
    ensures Prepend(acc, Spec.Elements(s, at)) == Prepend(acc + [v], Spec.Elements(s, c))
  {
    var tail := Spec.Elements(s, c);
    if tail.result.Ok? {
      assert acc + ([v] + tail.result.value) == (acc + [v]) + tail.result.value;
    }
  }

  /** The loop meets the closing `e`: what is gathered so far is the whole result. */
  lemma {:induction false} LoopClose(s: string, p: nat, at: nat, acc: seq<Value>)
    requires p <= at < |s| && s[at] == 'e'
    requires Spec.Elements(s, p) == Prepend(acc, Spec.Elements(s, at))
    ensures Spec.Elements(s, p) == Spec.Step(Ok(acc), at + 1)
  {
    assert Spec.Elements(s, at) == Spec.Step(Ok([]), at + 1);
    assert acc + [] == acc;
  }

  /** The element read at `at` fails with `e`, leaving the cursor at `c`: that ends the loop. */
  lemma {:induction false} LoopFail(s: string, p: nat, at: nat, acc: seq<Value>, e: DecodeError, c: nat)
    requires p <= at < |s| && s[at] != 'e'
    requires Spec.DetectAndDecode(s, at + 1, Some(s[at])) == Spec.Step(Err(e), c)
    requires Spec.Elements(s, p) == Prepend(acc, Spec.Elements(s, at))
    ensures Spec.Elements(s, p) == Spec.Step(Err(e), c)
  {
  }

  /** The input runs out inside the loop. */
  lemma {:induction false} LoopEnd(s: string, p: nat, acc: seq<Value>)
    requires p <= |s|
    requires Spec.Elements(s, p) == Prepend(acc, Spec.Elements(s, |s|))
    ensures Spec.Elements(s, p) == Spec.Step(Err(Unterminated), |s|)
  {
  }

  /**
    The `while next.is_some()` loop that `decode_list` and `decode_dict`
    both run: read the next character; at `e` the elements are complete;
    otherwise decode one element from it and push it, stopping at the
    first failure.
   */
  method DecodeElements(s: string, p: nat) returns (r: Result<seq<Value>, DecodeError>, q: nat)
    requires p <= |s|
    ensures Spec.Step(r, q) == Spec.Elements(s, p)
    decreases |s| - p, 0
  {
    var acc: seq<Value> := [];
    // `at` is where `next` was read from.
    ghost var at := p;
    q := p;
    var next: Option<char> := None;
    if q < |s| {
      next, q := Some(s[q]), q + 1;
    }
    ghost var goal := Spec.Elements(s, p);
    assert goal == Prepend([], goal) by {
      if goal.result.Ok? {
        assert [] + goal.result.value == goal.result.value;
      }
    }
    while next.Some?
      invariant p <= at <= q <= |s|
      invariant next.Some? ==> q == at + 1 && next == Some(s[at])
      invariant next.None? ==> at == q == |s|
      invariant goal == Prepend(acc, Spec.Elements(s, at))
      decreases |s| - at
    {
      if next == Some('e') {
        LoopClose(s, p, at, acc);
        return Ok(acc), q;
      }
      var result, after := DetectAndDecode(s, q, next);
      if result.Ok? {
        ElementStep(s, at, acc, result.value, after);
        acc := acc + [result.value];
      } else {
        LoopFail(s, p, at, acc, result.error, after);
        return Err(result.error), after;
      }
      q := after;
      at := q;
      next := None;
      if q < |s| {
        next, q := Some(s[q]), q + 1;
      }
    }
    LoopEnd(s, p, acc);
    r := Err(Unterminated);
  }

  method DecodeList(s: string, p: nat) returns (r: Result<Value, DecodeError>, q: nat)
    requires p <= |s|
    ensures Spec.Step(r, q) == Spec.DecodeList(s, p)
    decreases |s| - p, 1
  {
    var elements;
    elements, q := DecodeElements(s, p);
    match elements
    case Ok(items) => r := Ok(List(items));
    case Err(e) => r := Err(e);
  }

  method DecodeDict(s: string, p: nat) returns (r: Result<Value, DecodeError>, q: nat)
    requires p <= |s|
    ensures Spec.Step(r, q) == Spec.DecodeDict(s, p)
    decreases |s| - p, 1
  {
    var elements;
    elements, q := DecodeElements(s, p);
    match elements
    case Ok(items) => r := InsertAll(items);
    case Err(e) => r := Err(e);
  }

  /** The closing part of `decode_dict`: the parity check and the pop-and-insert loop. */
  method InsertAll(elements: seq<Value>) returns (r: Result<Value, DecodeError>)
    ensures r == Spec.BuildDict(elements)
  {
    if |elements| % 2 != 0 {
      return Err(OddDictElements);
    }
    var rest := elements;
    var acc: map<string, Value> := map[];
    while rest != []
      invariant |rest| % 2 == 0
      invariant Spec.BuildDict(elements) == Spec.InsertPairs(rest, acc)
      decreases |rest|
    {
      ghost var before := rest;
      // Popping the value cannot fail: `rest` is not empty.
      var value := rest[|rest| - 1];
      rest := rest[..|rest| - 1];
      // Nor can popping the key: the count was even.
      var key := rest[|rest| - 1];
      rest := rest[..|rest| - 1];
      match key
      case ByteString(k) =>
        assert rest == before[..|before| - 2];
        acc := acc[k := value];
      case _ => return Err(NonStringKey);
    }
    r := Ok(Dict(acc));
  }

  method DecodeInteger(s: string, p: nat) returns (r: Result<Value, DecodeError>, q: nat)
    requires p <= |s|
    ensures Spec.Step(r, q) == Spec.DecodeInteger(s, p)
  {
    // `current` is the last character the cursor produced, as `inspect` records it.
    var current := '0';
    var body: string := [];
    q := p;
    while q < |s| && current != 'e'
      invariant p <= q <= |s|
      invariant current != 'e' ==> body == s[p..q] && forall i :: p <= i < q ==> s[i] != 'e'
      invariant current == 'e' ==> p < q && s[q - 1] == 'e' && body == s[p..q - 1]
      invariant current == 'e' ==> forall i :: p <= i < q - 1 ==> s[i] != 'e'
      decreases |s| - q
    {
      current := s[q];
      q := q + 1;
      if current != 'e' {
        body := body + [current];
      }
    }
    ghost var k := if current == 'e' then q - 1 else q;
    FindIs(s, p, k, 'e');
    var parsed := ParseI64(body);
    if current == 'e' {
      assert k < |s| && body == s[p..k] && q == k + 1;
      if parsed.None? {
        return Err(IntegerParse), q;
      }
      r := Ok(Integer(parsed.value));
    } else {
      assert k == |s| == q;
      r := Err(NoEndingE);
    }
  }

  method DecodeString(first: char, s: string, p: nat) returns (r: Result<Value, DecodeError>, q: nat)
    requires p <= |s|
    ensures Spec.Step(r, q) == Spec.DecodeString(s, p, first)
  {
    // take_while(|c| *c != ':'): the `:` is consumed but not kept.
    var appended: string := [];
    var found := false;
    q := p;
    while q < |s| && !found
      invariant p <= q <= |s|
      invariant !found ==> appended == s[p..q] && forall i :: p <= i < q ==> s[i] != ':'
      invariant found ==> p < q && s[q - 1] == ':' && appended == s[p..q - 1]
      invariant found ==> forall i :: p <= i < q - 1 ==> s[i] != ':'
      decreases |s| - q
    {
      var c := s[q];
      q := q + 1;
      if c == ':' {
        found := true;
      } else {
        appended := appended + [c];
      }
    }
    ghost var k := if found then q - 1 else q;
    FindIs(s, p, k, ':');
    assert appended == s[p..k];
    assert q == if k < |s| then k + 1 else |s|;
    var length := ParseUsize([first] + appended);
    match length
    case None =>
      DecodeProperties.StringIsNot(s, p, first, k, q);
      r := Err(StringLength);
    case Some(n) =>
      ghost var start := q;
      var payload;
      payload, q := Take(s, q, n);
      DecodeProperties.StringIs(s, p, first, k, [first] + appended, start, n, q);
      r := Ok(ByteString(payload));
  }

  /** `take(n).collect()`: at most `n` characters, fewer when the input ends first. */
  method Take(s: string, p: nat, n: nat) returns (taken: string, q: nat)
    requires p <= |s|
    ensures q == if p + n <= |s| then p + n else |s|
    ensures taken == s[p..q]
  {
    taken := [];
    q := p;
    while |taken| < n && q < |s|
      invariant p <= q <= |s|
      invariant taken == s[p..q] && |taken| == q - p <= n
      decreases |s| - q
    {
      taken := taken + [s[q]];
      q := q + 1;
    }
  }
}
