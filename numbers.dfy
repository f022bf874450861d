/**
  The two number parsers the decoder calls: `i64::from_str` for integer
  bodies and `usize::from_str` for string length prefixes, written as
  predicates over digit strings with explicit range bounds (usize is taken
  to be 64 bits wide). Beside them, the decimal rendering of a number, used
  to show that each parser reads back what is written.
 */
module Numbers {
  import opened Wrappers
  import opened BType

  const USIZE_MAX: int := 0xFFFF_FFFF_FFFF_FFFF

  predicate AllDigits(t: string) {
    forall i {:trigger IsDigit(t[i])} :: 0 <= i < |t| ==> IsDigit(t[i])
  }

  /** The value of a string of decimal digits, most significant first. */
  function DigitsValue(t: string): (n: nat)
    requires AllDigits(t)
  {
    if t == [] then 0
    else
      assert IsDigit(t[|t| - 1]);
      DigitsValue(t[..|t| - 1]) * 10 + (t[|t| - 1] as int - '0' as int)
  }

  /**
    `usize::from_str`: an optional `+` then one or more ASCII digits, whose
    value must fit in 64 unsigned bits. Leading zeros are accepted.
   */
  function ParseUsize(t: string): (r: Option<nat>)
    ensures r.Some? ==> r.value <= USIZE_MAX
    ensures r.Some? ==> |t| > 0 && (IsDigit(t[0]) || t[0] == '+')
  {
    var digits := if |t| > 0 && t[0] == '+' then t[1..] else t;
    if |digits| == 0 || !AllDigits(digits) then None
    else if DigitsValue(digits) <= USIZE_MAX then Some(DigitsValue(digits))
    else None
  }

  /**
    `i64::from_str`: an optional `+` or `-` then one or more ASCII digits,
    whose signed value must lie in the 64-bit range. Leading zeros and `-0`
    are accepted; an empty string or a lone sign is not.
   */
  function ParseI64(t: string): (r: Option<Int64>)
    ensures r.Some? ==> |t| > 0 && (IsDigit(t[0]) || t[0] == '+' || t[0] == '-')
    ensures r.Some? ==> forall i :: 0 < i < |t| ==> IsDigit(t[i])
  {
    if |t| == 0 then None
    else
      var negative := t[0] == '-';
      var digits := if t[0] == '-' || t[0] == '+' then t[1..] else t;
      if |digits| == 0 || !AllDigits(digits) then None
      else
        var v: int := if negative then 0 - DigitsValue(digits) else DigitsValue(digits);
        if I64_MIN <= v <= I64_MAX then Some(v) else None
  }

  /** The shortest decimal rendering of `n`. */
  function NatToDecimal(n: nat): (t: string)
    ensures |t| > 0 && AllDigits(t)
  {
    var d := [('0' as int + n % 10) as char];
    if n < 10 then d else NatToDecimal(n / 10) + d
  }

  /** The decimal rendering of `v`, with a `-` when it is negative. */
  function IntToDecimal(v: int): (t: string)
    ensures |t| > 0 && forall i :: 0 <= i < |t| ==> t[i] != 'e' && t[i] != ':'
  {
    var digits := NatToDecimal(if v < 0 then -v else v);
    assert forall i :: 0 <= i < |digits| ==> IsDigit(digits[i]);
    if v < 0 then "-" + digits else digits
  }

  lemma {:induction false} DigitsValueOfDecimal(n: nat)
    ensures DigitsValue(NatToDecimal(n)) == n
    decreases n
  {
    var t := NatToDecimal(n);
    if n >= 10 {
      DigitsValueOfDecimal(n / 10);
      assert t[..|t| - 1] == NatToDecimal(n / 10);
    }
  }

  /** Reading back a rendered length gives the length. */
  lemma {:induction false} ParseUsizeOfDecimal(n: nat)
    requires n <= USIZE_MAX
    ensures ParseUsize(NatToDecimal(n)) == Some(n)
  {
    DigitsValueOfDecimal(n);
    assert IsDigit(NatToDecimal(n)[0]);
  }

  /** Reading back a rendered 64-bit integer gives the integer. */
  lemma {:induction false} ParseI64OfDecimal(v: Int64)
    ensures ParseI64(IntToDecimal(v)) == Some(v)
  {
    var t := IntToDecimal(v);
    if v < 0 {
      var m: nat := -(v as int);
      var digits := NatToDecimal(m);
      assert t == "-" + digits;
      assert t[0] == '-' && t[1..] == digits;
      DigitsValueOfDecimal(m);
    } else {
      assert t == NatToDecimal(v);
      assert IsDigit(t[0]);
      DigitsValueOfDecimal(v);
    }
  }

  /** `n` zero digits. */
  function Zeros(n: nat): (z: string)
    ensures |z| == n && AllDigits(z)
  {
    if n == 0 then "" else Zeros(n - 1) + "0"
  }

  /** Leading zeros add nothing to the value of a digit string. */
  lemma {:induction false} DigitsValueZeros(z: nat, t: string)
    requires AllDigits(t)
    ensures AllDigits(Zeros(z) + t)
    ensures DigitsValue(Zeros(z) + t) == DigitsValue(t)
    decreases |t|, z
  {
    var u := Zeros(z) + t;
    assert AllDigits(u) by {
      forall i | 0 <= i < |u|
        ensures IsDigit(u[i])
      {
        if i < z { assert IsDigit(Zeros(z)[i]); } else { assert IsDigit(t[i - z]); }
      }
    }
    if t == [] {
      if z > 0 {
        assert u == Zeros(z - 1) + "0";
        assert u[..|u| - 1] == Zeros(z - 1) + [];
        DigitsValueZeros(z - 1, []);
      }
    } else {
      var init := t[..|t| - 1];
      assert AllDigits(init) by {
        forall i | 0 <= i < |init|
          ensures IsDigit(init[i])
        {
          assert IsDigit(t[i]);
        }
      }
      assert u[..|u| - 1] == Zeros(z) + init;
      assert u[|u| - 1] == t[|t| - 1];
      DigitsValueZeros(z, init);
    }
  }

  /** A text of at most one character parses only when it is a single digit: a lone sign is refused. */
  lemma {:induction false} LoneSignRejected(t: string)
    requires |t| <= 1
    ensures ParseI64(t).Some? ==> |t| == 1 && IsDigit(t[0])
    ensures ParseUsize(t).Some? ==> |t| == 1 && IsDigit(t[0])
  {
    if |t| == 1 && !IsDigit(t[0]) {
      assert !AllDigits(t) by { assert !IsDigit(t[0]); }
      assert t[1..] == [];
    }
  }

  /**
    A length written with an optional `+` and any number of leading zeros
    parses to its value when that fits in 64 unsigned bits, and fails
    otherwise.
   */
  lemma {:induction false} ParseUsizePadded(plus: bool, z: nat, n: nat)
    ensures ParseUsize((if plus then "+" else "") + Zeros(z) + NatToDecimal(n))
         == if n <= USIZE_MAX then Some(n) else None
  {
    var body := Zeros(z) + NatToDecimal(n);
    var t := (if plus then "+" else "") + Zeros(z) + NatToDecimal(n);
    PaddedValue(z, n);
    if plus {
      assert t[0] == '+' && t[1..] == body;
      ParseUsizeDigits(t, body);
    } else {
      assert "" + Zeros(z) == Zeros(z);
      assert t == body;
      assert IsDigit(body[0]);
      ParseUsizeDigits(t, body);
    }
  }

  lemma {:induction false} ParseUsizeDigits(t: string, body: string)
    requires |body| > 0 && AllDigits(body)
    requires t == body || (|t| > 0 && t[0] == '+' && t[1..] == body)
    ensures ParseUsize(t) == if DigitsValue(body) <= USIZE_MAX then Some(DigitsValue(body)) else None
  {
    assert IsDigit(body[0]);
  }

  /**
    An integer written with an optional sign and any number of leading
    zeros parses to its signed value when that lies in the 64-bit range
    (so `-0` reads as 0), and fails otherwise.
   */
  lemma {:induction false} ParseI64Padded(sign: char, signed: bool, z: nat, m: nat)
    requires sign == '+' || sign == '-'
    ensures var v: int := if signed && sign == '-' then -(m as int) else m;
      ParseI64((if signed then [sign] else "") + Zeros(z) + NatToDecimal(m))
        == if I64_MIN <= v <= I64_MAX then Some(v) else None
  {
    var body := Zeros(z) + NatToDecimal(m);
    var t := (if signed then [sign] else "") + Zeros(z) + NatToDecimal(m);
    PaddedValue(z, m);
    if signed {
      assert t[0] == sign && t[1..] == body;
      ParseI64Digits(t, body, sign == '-');
    } else {
      assert "" + Zeros(z) == Zeros(z);
      assert t == body;
      ParseI64Digits(t, body, false);
    }
  }

  lemma {:induction false} ParseI64Digits(t: string, body: string, negative: bool)
    requires |body| > 0 && AllDigits(body)
    requires (!negative && t == body) || (|t| > 0 && t[1..] == body && t[0] == (if negative then '-' else '+'))
    ensures var v: int := if negative then -(DigitsValue(body) as int) else DigitsValue(body);
      ParseI64(t) == if I64_MIN <= v <= I64_MAX then Some(v) else None
  {
    assert IsDigit(body[0]);
  }

  lemma {:induction false} PaddedValue(z: nat, n: nat)
    ensures var body := Zeros(z) + NatToDecimal(n);
      |body| > 0 && AllDigits(body) && DigitsValue(body) == n
  {
    DigitsValueZeros(z, NatToDecimal(n));
    DigitsValueOfDecimal(n);
  }

  /**
    A length that parses is an optional `+` followed only by digits: any
    other character in it makes `usize::from_str` fail.
   */
  lemma {:induction false} ParseUsizeSyntax(t: string)
    ensures ParseUsize(t).Some? ==> forall i :: 0 < i < |t| ==> IsDigit(t[i])
  {
    if ParseUsize(t).Some? {
      var digits := if t[0] == '+' then t[1..] else t;
      forall i | 0 < i < |t|
        ensures IsDigit(t[i])
      {
        if t[0] == '+' {
          assert t[i] == digits[i - 1];
          assert IsDigit(digits[i - 1]);
        } else {
          assert IsDigit(digits[i]);
        }
      }
    }
  }
}
