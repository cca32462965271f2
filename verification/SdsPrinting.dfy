/** What sdscatrepr of src/nc_sds.c prints, byte by byte, and that anyone who reads string
    literals of C reads it back. */
module SdsPrinting {
  import opened Options
  import opened SdsGrammar
  import opened SdsText

  /** How a byte is spelled: with its letter, if it has one; as it is, if it can be printed; or
      by its number. */
  ghost predicate Spelled(c: byte, u: Unit, isPrint: byte -> bool) {
    if c == Ascii('\\') || c == Ascii('\"') then u == Letter(c)
    else if c == Ascii('\n') then u == Letter(Ascii('n'))
    else if c == Ascii('\r') then u == Letter(Ascii('r'))
    else if c == Ascii('\t') then u == Letter(Ascii('t'))
    else if c == 7 then u == Letter(Ascii('a'))
    else if c == 8 then u == Letter(Ascii('b'))
    else if isPrint(c) then u == Byte(c)
    else u == Hex(c as int / 16, false, c as int % 16, false)
  }

  ghost predicate AllSpelled(s: Bytes, us: seq<Unit>, isPrint: byte -> bool) {
    |us| == |s| && forall i :: 0 <= i < |s| ==> Spelled(s[i], us[i], isPrint)
  }

  lemma LowerDigit(v: Nibble)
    ensures Digit(v, false) == HexDigit(v as byte)
  {
    DigitWrites(v, false);
  }

  lemma SpelledOne(c: byte, isPrint: byte -> bool) returns (u: Unit)
    ensures Spelled(c, u, isPrint) && UnitText(u) == Escaped(c, isPrint) && UnitMeaning(u) == c
  {
    if c == Ascii('\\') || c == Ascii('\"') {
      u := Letter(c);
    } else if c == Ascii('\n') {
      u := Letter(Ascii('n'));
    } else if c == Ascii('\r') {
      u := Letter(Ascii('r'));
    } else if c == Ascii('\t') {
      u := Letter(Ascii('t'));
    } else if c == 7 {
      u := Letter(Ascii('a'));
    } else if c == 8 {
      u := Letter(Ascii('b'));
    } else if isPrint(c) {
      u := Byte(c);
    } else {
      u := Hex(c as int / 16, false, c as int % 16, false);
      LowerDigit(c as int / 16);
      LowerDigit(c as int % 16);
    }
  }

  /** The printed form is one spelling after the other between double quotes, and what it means
      is what was printed. */
  lemma PrintedAs(s: Bytes, isPrint: byte -> bool) returns (us: seq<Unit>)
    ensures AllSpelled(s, us, isPrint) && Meaning(us) == s
    ensures Quoted(s, isPrint) == [Ascii('\"')] + Text(us) + [Ascii('\"')]
  {
    us := SpelledOut(s, isPrint);
  }

  lemma {:induction false} SpelledOut(s: Bytes, isPrint: byte -> bool) returns (us: seq<Unit>)
    ensures AllSpelled(s, us, isPrint) && Meaning(us) == s && Text(us) == EscapedAll(s, isPrint)
  {
    us := [];
    if s != [] {
      var u := SpelledOne(s[0], isPrint);
      var more := SpelledOut(s[1..], isPrint);
      us := [u] + more;
      hide Spelled, Escaped, UnitText, UnitMeaning;
      assert us[1..] == more && s == [s[0]] + s[1..];
      forall i | 0 <= i < |s| ensures Spelled(s[i], us[i], isPrint) {
        if i > 0 { assert s[i] == s[1..][i - 1] && us[i] == more[i - 1]; }
      }
    }
  }

  // ---- a reader of string literals of C

  /** The value of a digit. */
  ghost function DigitValue(c: byte): Option<nat> {
    if Ascii('0') <= c <= Ascii('9') then Some((c - Ascii('0')) as int)
    else if Ascii('a') <= c <= Ascii('f') then Some(10 + (c - Ascii('a')) as int)
    else None
  }

  /** The letters and signs that the C standard allows behind a backslash and this printer uses. */
  ghost function Simple(c: byte): Option<byte> {
    if c == Ascii('n') then Some(Ascii('\n'))
    else if c == Ascii('r') then Some(Ascii('\r'))
    else if c == Ascii('t') then Some(Ascii('\t'))
    else if c == Ascii('a') then Some(7)
    else if c == Ascii('b') then Some(8)
    else if c == Ascii('\\') || c == Ascii('\"') then Some(c)
    else None
  }

  ghost function Prepend(c: byte, r: Option<Bytes>): Option<Bytes> {
    match r case None => None case Some(s) => Some([c] + s)
  }

  /** The bytes of a literal, from behind its opening quote to its closing one, which has to be
      the end. A number has two digits. */
  ghost function CRead(t: Bytes): Option<Bytes> {
    if t == [] then None
    else if t[0] == Ascii('\"') then if |t| == 1 then Some([]) else None
    else if t[0] != Ascii('\\') then Prepend(t[0], CRead(t[1..]))
    else if |t| >= 4 && t[1] == Ascii('x') then
      match (DigitValue(t[2]), DigitValue(t[3]))
      case (Some(v), Some(w)) => Prepend((16 * v + w) as byte, CRead(t[4..]))
      case _ => None
    else if |t| >= 2 then
      match Simple(t[1])
      case Some(c) => Prepend(c, CRead(t[2..]))
      case None => None
    else None
  }

  lemma LowerValue(v: Nibble)
    ensures DigitValue(Digit(v, false)) == Some(v)
  {
    LowerDigit(v);
  }

  lemma CReadsUnit(c: byte, u: Unit, isPrint: byte -> bool, rest: Bytes)
    requires Spelled(c, u, isPrint)
    ensures CRead(UnitText(u) + rest) == Prepend(c, CRead(rest))
  {
    var t := UnitText(u) + rest;
    match u
    case Byte(_) => assert t[1..] == rest;
    case Letter(_) => assert t[2..] == rest;
    case Hex(v, _, w, _) =>
      LowerValue(v);
      LowerValue(w);
      assert t[4..] == rest;
  }

  /** Every string literal that is printed is read back. */
  lemma CReadsBack(s: Bytes, isPrint: byte -> bool)
    ensures Quoted(s, isPrint)[0] == Ascii('\"') && CRead(Quoted(s, isPrint)[1..]) == Some(s)
  {
    var us := PrintedAs(s, isPrint);
    CReadsAll(s, us, isPrint);
    hide CRead, Quoted, Text;
    assert ([Ascii('\"')] + Text(us) + [Ascii('\"')])[1..] == Text(us) + [Ascii('\"')];
  }

  lemma {:induction false} CReadsAll(s: Bytes, us: seq<Unit>, isPrint: byte -> bool)
    requires AllSpelled(s, us, isPrint)
    ensures CRead(Text(us) + [Ascii('\"')]) == Some(s)
  {
    if s == [] {
      assert us == [] && Text(us) + [Ascii('\"')] == [Ascii('\"')];
    } else {
      var after := Text(us[1..]) + [Ascii('\"')];
      assert forall i :: 0 <= i < |s| - 1 ==> s[1..][i] == s[i + 1] && us[1..][i] == us[i + 1];
      assert Spelled(s[0], us[0], isPrint);
      CReadsAll(s[1..], us[1..], isPrint);
      CReadsUnit(s[0], us[0], isPrint, after);
      hide Spelled, CRead, UnitText;
      assert Text(us) + [Ascii('\"')] == UnitText(us[0]) + after;
      assert [s[0]] + s[1..] == s;
    }
  }
}
