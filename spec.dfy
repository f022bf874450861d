/**
  The decoder of src/lib.rs as pure functions. The shared forward-only
  `Chars` cursor becomes an index into the input: every routine takes the
  input and the cursor and gives back what it decoded together with the
  cursor after it. `current` is the character the caller already pulled
  from the cursor (`None` once the input is exhausted).
 */
module BencodeSpec {
  import opened Wrappers
  import opened BType
  import opened Strings
  import opened Numbers

  /** What a routine produced and where it left the cursor. */
  datatype Step<+T> = Step(result: Result<T, DecodeError>, cursor: nat)

  /** `BEncoder::decode`: the whole input to one value; trailing characters are ignored. */
  function Decode(input: string): (r: Result<Value, DecodeError>)
    ensures r == Err(TooShort) <==> Utf8Len(input) < 2
    ensures r.Ok? ==> Tagged(r.value, input[0])
  {
    if Utf8Len(input) < 2 then Err(TooShort)
    else DetectAndDecode(input, 1, Some(input[0])).result
  }

  /** Where `Decode` leaves the cursor, for inputs it does not reject as too short. */
  function Consumed(input: string): (q: nat)
    requires Utf8Len(input) >= 2
    ensures 1 <= q <= |input|
  {
    DetectAndDecode(input, 1, Some(input[0])).cursor
  }

  /**
    `detect_and_decode`: dispatch on the lookahead character. The cursor
    never moves backward, a success is of the kind the lookahead names, and
    no nested routine reports `TooShort`.
   */
  function DetectAndDecode(s: string, p: nat, current: Option<char>): (d: Step<Value>)
    requires p <= |s|
    ensures p <= d.cursor <= |s|
    ensures d.result.Ok? ==> current.Some? && Tagged(d.result.value, current.value)
    ensures d.result != Err(TooShort)
    decreases |s| - p, 2
  {
    match current
    case Some('d') => DecodeDict(s, p)
    case Some('i') => DecodeInteger(s, p)
    case Some('l') => DecodeList(s, p)
    case Some(c) =>
      if IsDigit(c) then DecodeString(s, p, c) else Step(Err(SomethingMissing), p)
    case None => Step(Err(SomethingMissing), p)
  }

  /** The value whose tag character is at `p`, the way a list or dict loop reads an element. */
  function ValueAt(s: string, p: nat): (d: Step<Value>)
    requires p < |s|
    ensures p < d.cursor <= |s|
  {
    DetectAndDecode(s, p + 1, Some(s[p]))
  }

  /**
    The element loop shared by `decode_list` and `decode_dict`: decode
    values until an `e`, which is consumed. The first element error stops
    the loop; running out of input is `Unterminated`.
   */
  function Elements(s: string, p: nat): (d: Step<seq<Value>>)
    requires p <= |s|
    ensures p <= d.cursor <= |s|
    ensures d.result.Ok? ==> p < d.cursor && s[d.cursor - 1] == 'e'
    ensures d.result != Err(TooShort)
    decreases |s| - p, 0
  {
    if p == |s| then Step(Err(Unterminated), |s|)
    else if s[p] == 'e' then Step(Ok([]), p + 1)
    else
      var head := DetectAndDecode(s, p + 1, Some(s[p]));
      if head.result.Err? then Step(Err(head.result.error), head.cursor)
      else
        var tail := Elements(s, head.cursor);
        if tail.result.Err? then tail
        else Step(Ok([head.result.value] + tail.result.value), tail.cursor)
  }

  /** `decode_list`, entered after the `l` tag. */
  function DecodeList(s: string, p: nat): (d: Step<Value>)
    requires p <= |s|
    ensures p <= d.cursor <= |s|
    ensures d.result.Ok? ==> d.result.value.List?
    ensures d.result != Err(TooShort)
    decreases |s| - p, 1
  {
    var elements := Elements(s, p);
    match elements.result
    case Ok(items) => Step(Ok(List(items)), elements.cursor)
    case Err(e) => Step(Err(e), elements.cursor)
  }

  /** `decode_dict`, entered after the `d` tag. */
  function DecodeDict(s: string, p: nat): (d: Step<Value>)
    requires p <= |s|
    ensures p <= d.cursor <= |s|
    ensures d.result.Ok? ==> d.result.value.Dict?
    ensures d.result != Err(TooShort)
    decreases |s| - p, 1
  {
    var elements := Elements(s, p);
    match elements.result
    case Ok(items) => Step(BuildDict(items), elements.cursor)
    case Err(e) => Step(Err(e), elements.cursor)
  }

  /**
    What `decode_dict` does once it meets the closing `e`: an odd element
    count is refused first; then the pairs are taken from the end.
   */
  function BuildDict(elements: seq<Value>): (r: Result<Value, DecodeError>)
    ensures |elements| % 2 != 0 ==> r == Err(OddDictElements)
    ensures r.Ok? ==> r.value.Dict?
    ensures r.Err? ==> r.error in {OddDictElements, NonStringKey}
  {
    if |elements| % 2 != 0 then Err(OddDictElements)
    else InsertPairs(elements, map[])
  }

  /**
    The `while !elements.is_empty()` loop of `decode_dict`: pop a value,
    pop its key (which must be a byte string), insert the pair into `acc`.
   */
  function InsertPairs(elements: seq<Value>, acc: map<string, Value>): (r: Result<Value, DecodeError>)
    requires |elements| % 2 == 0
    ensures r.Ok? ==> r.value.Dict? && acc.Keys <= r.value.entries.Keys
    ensures r.Err? ==> r.error == NonStringKey
    decreases |elements|
  {
    if elements == [] then Ok(Dict(acc))
    else
      var n := |elements|;
      match elements[n - 2]
      case ByteString(key) => InsertPairs(elements[..n - 2], acc[key := elements[n - 1]])
      case _ => Err(NonStringKey)
  }

  /**
    `decode_integer`, entered after the `i` tag: the body is everything up
    to the first `e`, which is consumed. A missing `e` wins over a bad body.
   */
  function DecodeInteger(s: string, p: nat): (d: Step<Value>)
    requires p <= |s|
    ensures p <= d.cursor <= |s|
    ensures d.result.Ok? ==> d.result.value.Integer? && p < d.cursor && s[d.cursor - 1] == 'e'
    ensures d.result.Err? ==> d.result.error in {NoEndingE, IntegerParse}
  {
    var k := Find(s, p, 'e');
    if k == |s| then Step(Err(NoEndingE), |s|)
    else
      match ParseI64(s[p..k])
      case Some(v) => Step(Ok(Integer(v)), k + 1)
      case None => Step(Err(IntegerParse), k + 1)
  }

  /**
    `decode_string`, entered with the first length digit `first` already
    read: the length prefix runs up to the first `:`, which is consumed;
    then at most that many characters are taken, fewer if the input ends.
   */
  function DecodeString(s: string, p: nat, first: char): (d: Step<Value>)
    requires p <= |s|
    ensures p <= d.cursor <= |s|
    ensures d.result.Ok? ==>
      && d.result.value.ByteString?
      && |d.result.value.bytes| <= d.cursor - p
      && d.result.value.bytes == s[d.cursor - |d.result.value.bytes|..d.cursor]
    ensures d.result.Err? ==> d.result.error == StringLength
  {
    var k := Find(s, p, ':');
    var start := if k < |s| then k + 1 else |s|;
    match ParseUsize([first] + s[p..k])
    case Some(n) =>
      var end := if start + n <= |s| then start + n else |s|;
      Step(Ok(ByteString(s[start..end])), end)
    case None => Step(Err(StringLength), start)
  }
}
