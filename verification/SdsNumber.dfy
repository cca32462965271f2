/** Decimal numbers as sdsfromlonglong of src/nc_sds.c writes them. */
module SdsNumber {
  import opened SdsText
  import opened Words

  const LLONG_MAX: int := 0x7FFF_FFFF_FFFF_FFFF
  const LLONG_MIN: int := -LLONG_MAX - 1
  const ZERO: byte := 48
  const MINUS: byte := 45

  /** The digits of v, without leading zeros. */
  ghost function Digits(v: nat): (s: Bytes)
    ensures s != []
  {
    if v < 10 then [ZERO + v as byte] else Digits(v / 10) + [ZERO + (v % 10) as byte]
  }

  predicate IsDigit(c: byte) { 48 <= c <= 57 }

  ghost predicate AllDigits(s: Bytes) { forall i :: 0 <= i < |s| ==> IsDigit(s[i]) }

  /** The number that digits stand for. */
  ghost function Value(s: Bytes): nat
    requires AllDigits(s)
  {
    if s == [] then 0 else 10 * Value(s[..|s| - 1]) + (s[|s| - 1] - ZERO) as int
  }

  /** A number as one writes it: digits without a leading zero, perhaps behind a minus sign,
      and no sign in front of zero. */
  ghost predicate Canonical(s: Bytes) {
    var d := if s != [] && s[0] == MINUS then s[1..] else s;
    d != [] && AllDigits(d) && (d[0] == ZERO ==> s == [ZERO])
  }

  ghost function Number(s: Bytes): int
    requires Canonical(s)
  {
    if s[0] == MINUS then -(Value(s[1..]) as int) else Value(s)
  }

  ghost function Decimal(value: int): Bytes {
    if value < 0 then [MINUS] + Digits(-value) else Digits(value)
  }

  lemma {:induction false} DigitsLaws(v: nat)
    ensures AllDigits(Digits(v)) && Value(Digits(v)) == v && (Digits(v)[0] == ZERO ==> v == 0 && Digits(v) == [ZERO])
  {
    if v >= 10 {
      var s := Digits(v);
      DigitsLaws(v / 10);
      assert s[..|s| - 1] == Digits(v / 10);
      assert s[0] == Digits(v / 10)[0];
    }
  }

  lemma {:induction false} DigitsOfValue(s: Bytes)
    requires s != [] && AllDigits(s) && (s[0] == ZERO ==> s == [ZERO])
    ensures Digits(Value(s)) == s && (s[0] != ZERO ==> Value(s) > 0)
  {
    hide Value, Digits;
    var t, c := s[..|s| - 1], s[|s| - 1];
    assert s == t + [c];
    if t == [] {
      OneDigit(c);
    } else {
      assert t[0] == s[0] && forall i :: 0 <= i < |t| ==> t[i] == s[i];
      DigitsOfValue(t);
      ValuePlus(t, c);
      DigitsPlus(Value(t), (c - ZERO) as int);
    }
  }

  lemma OneDigit(c: byte)
    requires IsDigit(c)
    ensures Value([c]) == (c - ZERO) as int && Digits((c - ZERO) as int) == [c]
  {
    assert [c][..0] == [];
  }

  lemma ValuePlus(t: Bytes, c: byte)
    requires AllDigits(t) && IsDigit(c)
    ensures AllDigits(t + [c]) && Value(t + [c]) == 10 * Value(t) + (c - ZERO) as int
  {
    assert (t + [c])[..|t|] == t;
  }

  lemma DigitsPlus(v: nat, d: int)
    requires v > 0 && 0 <= d < 10
    ensures Digits(10 * v + d) == Digits(v) + [ZERO + d as byte]
  {
    assert (10 * v + d) / 10 == v && (10 * v + d) % 10 == d;
  }

  /** The decimal form of a number is canonical and has that number as its value, and no
      other canonical string has it. */
  lemma DecimalLaws(value: int)
    ensures Canonical(Decimal(value)) && Number(Decimal(value)) == value
  {
    var s := Decimal(value);
    if value < 0 {
      DigitsLaws(-value);
      assert s[1..] == Digits(-value);
    } else {
      DigitsLaws(value);
    }
  }

  lemma DecimalUnique(s: Bytes)
    requires Canonical(s)
    ensures Decimal(Number(s)) == s
  {
    if s[0] == MINUS {
      DigitsOfValue(s[1..]);
      assert s == [MINUS] + s[1..];
    } else {
      DigitsOfValue(s);
    }
  }

  ghost function Power(n: nat): nat { if n == 0 then 1 else 10 * Power(n - 1) }

  lemma {:induction false} DigitCount(v: nat, n: nat)
    requires n > 0 && v < Power(n)
    ensures |Digits(v)| <= n
  {
    if v >= 10 { DigitCount(v / 10, n - 1); }
  }

  /** Negation of a long long, with the wrap-around of two's complement where the result does
      not fit (the C standard leaves that case undefined). */
  function Negated(value: int): int
    requires LLONG_MIN <= value <= LLONG_MAX
  {
    if -value > LLONG_MAX then -value - WORD else -value
  }

  /** The negation fits its type for every value but the smallest; as an unsigned number it is
      the magnitude for that value, too. */
  lemma NegatedIsMagnitude(value: int)
    requires LLONG_MIN <= value < 0
    ensures Negated(value) == -value <==> value != LLONG_MIN
    ensures Negated(value) % WORD == -value
  {}

  lemma LongLongLength(value: int)
    requires LLONG_MIN <= value <= LLONG_MAX
    ensures |Decimal(value)| <= 20 && |Digits(if value < 0 then -value else value)| <= 19
  {
    assert Power(19) == 100000 * (100000 * (100000 * Power(4))) by {
      assert Power(19) == 100000 * Power(14) && Power(14) == 100000 * Power(9) && Power(9) == 100000 * Power(4);
    }
    DigitCount(if value < 0 then -value else value, 19);
  }

  /** The last digit and the ones before it. */
  lemma LastDigit(v: nat, done: Bytes)
    ensures v / 10 == 0 ==> Digits(v) + done == [ZERO + (v % 10) as byte] + done
    ensures v / 10 != 0 ==> Digits(v) + done == Digits(v / 10) + ([ZERO + (v % 10) as byte] + done)
  {}

  method Put(buf: array<byte>, p: nat, c: byte)
    requires p < buf.Length
    modifies buf
    ensures buf[p..] == [c] + old(buf[p + 1..])
  {
    buf[p] := c;
  }

  /** The loop of sdsfromlonglong: digits from the end of the buffer on. */
  method WriteDigits(buf: array<byte>, v0: nat) returns (p: int)
    requires buf.Length == 32 && |Digits(v0)| <= 31
    modifies buf
    ensures p == 31 - |Digits(v0)| && buf[p + 1..] == Digits(v0)
  {
    hide Digits;
    var v := v0;
    p := 31;
    assert buf[32..] == [] && Digits(v0) == Digits(v0) + [];
    while true
      invariant 0 <= p <= 31 && Digits(v0) == Digits(v) + buf[p + 1..]
      decreases p
    {
      LastDigit(v, buf[p + 1..]);
      Put(buf, p, ZERO + (v % 10) as byte);
      p := p - 1;
      v := v / 10;
      if v == 0 {
        break;
      }
    }
  }

  /** sdsfromlonglong: the bytes of the new string, built from the end of a buffer of 32. */
  method FromLongLong(value: int) returns (r: Bytes)
    requires LLONG_MIN <= value <= LLONG_MAX
    ensures r == Decimal(value) && |r| <= 20
  {
    LongLongLength(value);
    if value < 0 { NegatedIsMagnitude(value); }
    var buf := new byte[32](_ => 0);
    var v: nat := (if value < 0 then Negated(value) else value) % WORD;
    hide Digits, Negated;
    var p := WriteDigits(buf, v);
    if value < 0 {
      Put(buf, p, MINUS);
      p := p - 1;
    }
    p := p + 1;
    return buf[p..];
  }
}
