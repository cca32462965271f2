/** The text that sdssplitargs of src/nc_sds.c reads, described from the side of one who writes
    it: words, quotes and escapes as trees, what they look like and what they mean. */
module SdsGrammar {
  import opened Options
  import opened SdsText

  // ---- characters

  type Nibble = v: int | 0 <= v < 16

  const LOWER_DIGITS: string := "0123456789abcdef"
  const UPPER_DIGITS: string := "0123456789ABCDEF"

  function Ascii(c: char): byte
    requires c < 128 as char
  {
    c as int as byte
  }

  /** One of the 16 digits, in either case. */
  function Digit(v: Nibble, upper: bool): byte {
    Ascii(if upper then UPPER_DIGITS[v] else LOWER_DIGITS[v])
  }

  ghost predicate SomeDigit(c: byte) {
    exists v: Nibble, upper: bool :: c == Digit(v, upper)
  }

  lemma DigitReads(v: Nibble, upper: bool)
    ensures IsHexDigit(Digit(v, upper)) && HexDigitToInt(Digit(v, upper)) as int == v
  {
    match v
    case 0 => case 1 => case 2 => case 3 => case 4 => case 5 => case 6 => case 7 =>
    case 8 => case 9 => case 10 => case 11 => case 12 => case 13 => case 14 => case 15 =>
    case _ =>
  }

  lemma DigitsAre(c: byte)
    ensures SomeDigit(c) <==> IsHexDigit(c)
  {
    if SomeDigit(c) {
      var v: Nibble, upper: bool :| c == Digit(v, upper);
      DigitReads(v, upper);
    }
    if IsHexDigit(c) {
      var v: Nibble, upper := HexDigitToInt(c) as int, 65 <= c <= 70;
      DigitWrites(v, upper);
      assert c == Digit(v, upper);
    }
  }

  lemma DigitWrites(v: Nibble, upper: bool)
    ensures Digit(v, upper) == (if v < 10 then 48 + v as byte else if upper then 55 + v as byte else 87 + v as byte)
  {
    DigitReads(v, upper);
    match v
    case 0 => case 1 => case 2 => case 3 => case 4 => case 5 => case 6 => case 7 =>
    case 8 => case 9 => case 10 => case 11 => case 12 => case 13 => case 14 => case 15 =>
    case _ =>
  }

  /** What a letter behind a backslash stands for. */
  function Named(c: byte): byte {
    if c == Ascii('n') then Ascii('\n') else if c == Ascii('r') then Ascii('\r')
    else if c == Ascii('t') then Ascii('\t')
    else if c == Ascii('b') then 8 else if c == Ascii('a') then 7 else c
  }

  /** A blank for isspace: space, tab, newline, vertical tab, form feed or return. */
  predicate Blank(c: byte) { c in {32, 9, 10, 11, 12, 13} }

  /** A byte that ends a word that is not quoted. */
  predicate Ends(c: byte) { c == Ascii(' ') || c == Ascii('\n') || c == Ascii('\r') || c == Ascii('\t') }

  predicate IsQuote(c: byte) { c == Ascii('\"') || c == Ascii('\'') }

  // ---- what stands between quotes

  /** A byte as it is, a byte behind a backslash, or a number in hexadecimal. */
  datatype Unit = Byte(c: byte) | Letter(c: byte) | Hex(v: Nibble, vUpper: bool, w: Nibble, wUpper: bool)

  function UnitText(u: Unit): Bytes {
    match u
    case Byte(c) => [c]
    case Letter(c) => [Ascii('\\'), c]
    case Hex(v, vUpper, w, wUpper) => [Ascii('\\'), Ascii('x'), Digit(v, vUpper), Digit(w, wUpper)]
  }

  function UnitMeaning(u: Unit): byte {
    match u
    case Byte(c) => c
    case Letter(c) => Named(c)
    case Hex(v, _, w, _) => (16 * v + w) as byte
  }

  ghost predicate TwoDigits(t: Bytes) { |t| >= 2 && SomeDigit(t[0]) && SomeDigit(t[1]) }

  /** Can u stand between quotes of this kind, in front of that text? A backslash by itself can
      only where it is not taken for the start of something else. */
  ghost predicate Fine(u: Unit, quote: byte, following: Bytes) {
    if quote == Ascii('\"') then
      match u
      case Byte(c) => c != 0 && c != quote && (c == Ascii('\\') ==> following == [])
      case Letter(c) => c != 0 && (c == Ascii('x') ==> !TwoDigits(following))
      case Hex(_, _, _, _) => true
    else
      match u
      case Byte(c) => c != 0 && c != quote && (c == Ascii('\\') ==> following == [] || following[0] != quote)
      case Letter(c) => c == quote
      case Hex(_, _, _, _) => false
  }

  ghost function Text(us: seq<Unit>): Bytes {
    if us == [] then [] else UnitText(us[0]) + Text(us[1..])
  }

  ghost function Meaning(us: seq<Unit>): Bytes {
    if us == [] then [] else [UnitMeaning(us[0])] + Meaning(us[1..])
  }

  /** Can all of them stand between such quotes, in front of the text after? */
  ghost predicate AllFine(us: seq<Unit>, quote: byte, after: Bytes) {
    us != [] ==> Fine(us[0], quote, Text(us[1..]) + after) && AllFine(us[1..], quote, after)
  }

  // ---- words and lines

  /** Bytes as they are, and then perhaps a part in quotes, which ends the word. */
  datatype Word = Word(bare: Bytes, tail: Tail)
  datatype Tail = Nothing | InQuotes(quote: byte, units: seq<Unit>)

  ghost function TailText(t: Tail): Bytes {
    if t.Nothing? then [] else [t.quote] + Text(t.units) + [t.quote]
  }

  ghost function WordText(w: Word): Bytes { w.bare + TailText(w.tail) }

  ghost function WordMeaning(w: Word): Bytes {
    w.bare + if w.tail.Nothing? then [] else Meaning(w.tail.units)
  }

  /** Bytes that need no quotes; a word does not begin with a blank. */
  ghost predicate BareFine(bare: Bytes) {
    && (forall i :: 0 <= i < |bare| ==> bare[i] != 0 && !IsQuote(bare[i]) && !Ends(bare[i]))
    && (bare != [] ==> !Blank(bare[0]))
  }

  ghost predicate WordFine(w: Word, following: Bytes) {
    BareFine(w.bare) &&
    match w.tail
    case Nothing => w.bare != [] && (following == [] || Ends(following[0]))
    case InQuotes(quote, units) =>
      IsQuote(quote) && AllFine(units, quote, [quote]) && (following == [] || Blank(following[0]))
  }

  /** Blanks and words, in that order, and blanks. */
  datatype LineTree = LastBlanks(gap: Bytes) | More(gap: Bytes, word: Word, rest: LineTree)

  ghost function LineText(l: LineTree): Bytes {
    match l
    case LastBlanks(gap) => gap
    case More(gap, word, rest) => gap + WordText(word) + LineText(rest)
  }

  ghost function LineMeaning(l: LineTree): seq<Bytes> {
    match l
    case LastBlanks(_) => []
    case More(_, word, rest) => [WordMeaning(word)] + LineMeaning(rest)
  }

  ghost predicate AllBlank(gap: Bytes) { forall i :: 0 <= i < |gap| ==> Blank(gap[i]) }

  ghost predicate LineFine(l: LineTree) {
    AllBlank(l.gap) && (l.More? ==> WordFine(l.word, LineText(l.rest)) && LineFine(l.rest))
  }

  /** A line that goes wrong: words, and then a quote that is never closed, or whose closing is
      followed by something that is not a blank. */
  datatype BrokenLine =
    | Unclosed(gap: Bytes, bare: Bytes, quote: byte, units: seq<Unit>)
    | Glued(gap: Bytes, bare: Bytes, quote: byte, units: seq<Unit>, following: Bytes)
    | Later(gap: Bytes, word: Word, broken: BrokenLine)

  ghost function BrokenText(b: BrokenLine): Bytes {
    match b
    case Unclosed(gap, bare, quote, units) => gap + (bare + [quote] + Text(units))
    case Glued(gap, bare, quote, units, following) => gap + (bare + TailText(InQuotes(quote, units)) + following)
    case Later(gap, word, broken) => gap + WordText(word) + BrokenText(broken)
  }

  ghost predicate BrokenFine(b: BrokenLine) {
    AllBlank(b.gap) &&
    match b
    case Unclosed(_, bare, quote, units) => BareFine(bare) && IsQuote(quote) && AllFine(units, quote, [])
    case Glued(_, bare, quote, units, following) =>
      && BareFine(bare) && IsQuote(quote) && AllFine(units, quote, [quote])
      && following != [] && following[0] != 0 && !Blank(following[0])
    case Later(_, word, broken) => WordFine(word, BrokenText(broken)) && BrokenFine(broken)
  }
}
