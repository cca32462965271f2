/** The quoted form of byte strings in src/nc_sds.c: what sdscatrepr writes, what
    sdssplitargs reads, and why reading undoes writing. */
module SdsText {
  import opened Options

  newtype byte = x: int | 0 <= x < 256

  type Bytes = seq<byte>

  const NUL: byte := 0
  const BELL: byte := 7  // '\a'
  const BACKSPACE: byte := 8  // '\b'
  const TAB: byte := 9
  const NEWLINE: byte := 10
  const RETURN: byte := 13
  const SPACE: byte := 32
  const QUOTE: byte := 34  // '"'
  const APOSTROPHE: byte := 39
  const BACKSLASH: byte := 92
  const LOWER_A: byte := 97
  const LOWER_B: byte := 98
  const LOWER_N: byte := 110
  const LOWER_R: byte := 114
  const LOWER_T: byte := 116
  const LOWER_X: byte := 120

  /** isspace in the C locale. */
  predicate IsSpace(c: byte) { 9 <= c <= 13 || c == SPACE }

  // ---- hexadecimal digits

  /** is_hex_digit */
  predicate IsHexDigit(c: byte) { 48 <= c <= 57 || 97 <= c <= 102 || 65 <= c <= 70 }

  /** hex_digit_to_int */
  function HexDigitToInt(c: byte): (v: byte)
    ensures v < 16
  {
    if 48 <= c <= 57 then c - 48 else if 97 <= c <= 102 then c - 87 else if 65 <= c <= 70 then c - 55 else 0
  }

  /** A digit as %x writes it. */
  function HexDigit(v: byte): (c: byte)
    requires v < 16
    ensures IsHexDigit(c) && HexDigitToInt(c) == v && c != NUL
  {
    if v < 10 then 48 + v else 87 + v
  }

  // ---- writing

  /** What sdscatrepr writes for one byte. */
  function Escaped(c: byte, isPrint: byte -> bool): Bytes {
    if c == BACKSLASH || c == QUOTE then [BACKSLASH, c]
    else if c == NEWLINE then [BACKSLASH, LOWER_N]
    else if c == RETURN then [BACKSLASH, LOWER_R]
    else if c == TAB then [BACKSLASH, LOWER_T]
    else if c == BELL then [BACKSLASH, LOWER_A]
    else if c == BACKSPACE then [BACKSLASH, LOWER_B]
    else if isPrint(c) then [c]
    else [BACKSLASH, LOWER_X, HexDigit(c / 16), HexDigit(c % 16)]
  }

  ghost function EscapedAll(s: Bytes, isPrint: byte -> bool): Bytes {
    if s == [] then [] else Escaped(s[0], isPrint) + EscapedAll(s[1..], isPrint)
  }

  ghost function Quoted(s: Bytes, isPrint: byte -> bool): Bytes {
    [QUOTE] + EscapedAll(s, isPrint) + [QUOTE]
  }

  /** A line of quoted strings with single spaces between them. */
  ghost function Line(args: seq<Bytes>, isPrint: byte -> bool): Bytes {
    if args == [] then []
    else if |args| == 1 then Quoted(args[0], isPrint)
    else Quoted(args[0], isPrint) + [SPACE] + Line(args[1..], isPrint)
  }

  // ---- reading

  datatype Mode = Plain | Double | Single

  /** The byte that a letter after a backslash stands for. */
  function Unescaped(c: byte): byte {
    if c == LOWER_N then NEWLINE else if c == LOWER_R then RETURN else if c == LOWER_T then TAB
    else if c == LOWER_B then BACKSPACE else if c == LOWER_A then BELL else c
  }

  predicate IsHexEscape(t: Bytes) {
    |t| >= 4 && t[0] == BACKSLASH && t[1] == LOWER_X && IsHexDigit(t[2]) && IsHexDigit(t[3])
  }

  /** One step of reading a token from the text t in front of the end of the line: bytes to
      add, bytes of t used up and how to go on; or the token is complete; or t is wrong. */
  datatype Step = More(out: Bytes, used: nat, mode: Mode) | Done(used: nat) | Wrong

  function Reads(t: Bytes, mode: Mode): (r: Step)
    ensures r.More? ==> 0 < r.used <= |t|
    ensures r.Done? ==> r.used <= |t| && (t != [] ==> r.used == 1)
  {
    match mode
    case Plain =>
      if t == [] then Done(0)
      else if t[0] == SPACE || t[0] == NEWLINE || t[0] == RETURN || t[0] == TAB then Done(1)
      else if t[0] == QUOTE then More([], 1, Double)
      else if t[0] == APOSTROPHE then More([], 1, Single)
      else More([t[0]], 1, Plain)
    case Double =>
      if IsHexEscape(t) then More([HexDigitToInt(t[2]) * 16 + HexDigitToInt(t[3])], 4, Double)
      else if |t| >= 2 && t[0] == BACKSLASH then More([Unescaped(t[1])], 2, Double)
      else if t == [] then Wrong
      else if t[0] == QUOTE then if |t| >= 2 && !IsSpace(t[1]) then Wrong else Done(1)
      else More([t[0]], 1, Double)
    case Single =>
      if |t| >= 2 && t[0] == BACKSLASH && t[1] == APOSTROPHE then More([APOSTROPHE], 2, Single)
      else if t == [] then Wrong
      else if t[0] == APOSTROPHE then if |t| >= 2 && !IsSpace(t[1]) then Wrong else Done(1)
      else More([t[0]], 1, Single)
  }

  /** A whole token and the text behind it. */
  ghost function Token(t: Bytes, mode: Mode): (r: Option<(Bytes, Bytes)>)
    ensures r.Some? ==> |r.value.1| <= |t| && (t != [] ==> |r.value.1| < |t|)
    decreases |t|
  {
    match Reads(t, mode)
    case Done(used) => Some(([], t[used..]))
    case Wrong => None
    case More(out, used, mode') =>
      match Token(t[used..], mode')
      case None => None
      case Some((token, rest)) => Some((out + token, rest))
  }

  /** The same with a in front of the token. */
  ghost function Prefixed(a: Bytes, r: Option<(Bytes, Bytes)>): Option<(Bytes, Bytes)> {
    match r case None => None case Some((token, rest)) => Some((a + token, rest))
  }

  ghost function SkipBlanks(t: Bytes): (r: Bytes)
    ensures |r| <= |t| && (r != [] ==> !IsSpace(r[0]))
  {
    if t == [] || !IsSpace(t[0]) then t else SkipBlanks(t[1..])
  }

  /** The tokens of a line, or None where sdssplitargs returns NULL. */
  ghost function Args(t: Bytes): Option<seq<Bytes>>
    decreases |t|
  {
    var u := SkipBlanks(t);
    if u == [] then Some([])
    else match Token(u, Plain)
      case None => None
      case Some((token, rest)) =>
        match Args(rest)
        case None => None
        case Some(more) => Some([token] + more)
  }

  // ---- reading what was written

  /** Between quotes an escaped byte is read as itself, whatever follows. */
  lemma ReadsEscaped(c: byte, isPrint: byte -> bool, rest: Bytes)
    ensures Reads(Escaped(c, isPrint) + rest, Double) == More([c], |Escaped(c, isPrint)|, Double)
  {
    var e := Escaped(c, isPrint);
    var t := e + rest;
    assert forall i :: 0 <= i < |e| ==> t[i] == e[i];
    if |e| == 4 {
      assert IsHexEscape(t);
    }
  }

  lemma {:induction false} TokenQuoted(s: Bytes, isPrint: byte -> bool, rest: Bytes)
    requires rest == [] || IsSpace(rest[0])
    ensures Token(EscapedAll(s, isPrint) + [QUOTE] + rest, Double) == Some((s, rest))
  {
    var t := EscapedAll(s, isPrint) + [QUOTE] + rest;
    if s == [] {
      assert t == [QUOTE] + rest && t[1..] == rest;
    } else {
      var e, t' := Escaped(s[0], isPrint), EscapedAll(s[1..], isPrint) + [QUOTE] + rest;
      assert t == e + t' && t[|e|..] == t';
      ReadsEscaped(s[0], isPrint, t');
      TokenQuoted(s[1..], isPrint, rest);
      assert s == [s[0]] + s[1..];
    }
  }

  lemma OpenQuote(t: Bytes)
    ensures Token([QUOTE] + t, Plain) == Token(t, Double)
  {
    var u := [QUOTE] + t;
    assert Reads(u, Plain) == More([], 1, Double) && u[1..] == t;
    hide Reads;
    match Token(t, Double)
    case None =>
    case Some(r) => assert [] + r.0 == r.0;
  }

  lemma TokenOfQuoted(s: Bytes, isPrint: byte -> bool, rest: Bytes)
    requires rest == [] || IsSpace(rest[0])
    ensures Token(Quoted(s, isPrint) + rest, Plain) == Some((s, rest))
  {
    hide Token, EscapedAll, Reads;
    TokenQuoted(s, isPrint, rest);
    OpenQuote(EscapedAll(s, isPrint) + [QUOTE] + rest);
    assert Quoted(s, isPrint) + rest == [QUOTE] + (EscapedAll(s, isPrint) + [QUOTE] + rest);
  }

  lemma ArgsOfQuoted(s: Bytes, isPrint: byte -> bool, rest: Bytes, more: seq<Bytes>)
    requires (rest == [] || IsSpace(rest[0])) && Args(rest) == Some(more)
    ensures Args(Quoted(s, isPrint) + rest) == Some([s] + more)
  {
    var t := Quoted(s, isPrint) + rest;
    TokenOfQuoted(s, isPrint, rest);
    hide Token, EscapedAll;
    assert t[0] == QUOTE && SkipBlanks(t) == t;
  }

  /** Parsing undoes printing, for all lists of byte strings. */
  lemma {:induction false} ArgsOfLine(args: seq<Bytes>, isPrint: byte -> bool)
    ensures Args(Line(args, isPrint)) == Some(args)
  {
    if args == [] {
      assert Args([]) == Some([]);
    } else {
      var tail := Line(args[1..], isPrint);
      var rest := if |args| == 1 then [] else [SPACE] + tail;
      assert Line(args, isPrint) == Quoted(args[0], isPrint) + rest;
      ArgsOfLine(args[1..], isPrint);
      BlankFirst(tail);
      ArgsOfQuoted(args[0], isPrint, rest, args[1..]);
      hide *;
      assert args == [args[0]] + args[1..];
    }
  }

  lemma BlankFirst(t: Bytes)
    ensures Args([SPACE] + t) == Args(t)
  {
    assert ([SPACE] + t)[1..] == t;
    assert SkipBlanks([SPACE] + t) == SkipBlanks(t);
  }

  /** The printed text can be passed on as a C string. */
  lemma {:induction false} EscapedNoNul(s: Bytes, isPrint: byte -> bool)
    requires !isPrint(NUL)
    ensures NUL !in EscapedAll(s, isPrint) && NUL !in Quoted(s, isPrint)
  {
    if s != [] { EscapedNoNul(s[1..], isPrint); }
  }

  lemma {:induction false} LineNoNul(args: seq<Bytes>, isPrint: byte -> bool)
    requires !isPrint(NUL)
    ensures NUL !in Line(args, isPrint)
  {
    if args != [] {
      EscapedNoNul(args[0], isPrint);
      LineNoNul(args[1..], isPrint);
    }
  }
}
