/** What sdssplitargs of src/nc_sds.c makes of every line: the words that were written, or NULL
    where a quote stays open or is followed by something. */
module SdsReading {
  import opened Options
  import opened SdsGrammar
  import opened SdsText

  // ---- between quotes

  ghost function Within(quote: byte): Mode { if quote == Ascii('\"') then Double else Single }

  lemma UnitReads(u: Unit, quote: byte, following: Bytes)
    requires IsQuote(quote) && Fine(u, quote, following)
    ensures Reads(UnitText(u) + following, Within(quote)) == Step.More([UnitMeaning(u)], |UnitText(u)|, Within(quote))
  {
    var t := UnitText(u) + following;
    match u
    case Byte(c) => assert t[0] == c && t[1..] == following;
    case Letter(c) =>
      assert t[0] == Ascii('\\') && t[1] == c && t[2..] == following;
      if |following| >= 2 {
        assert t[2] == following[0] && t[3] == following[1];
        DigitsAre(following[0]);
        DigitsAre(following[1]);
      }
    case Hex(v, vUpper, w, wUpper) =>
      assert t[0] == Ascii('\\') && t[1] == Ascii('x') && t[2] == Digit(v, vUpper) && t[3] == Digit(w, wUpper);
      DigitReads(v, vUpper);
      DigitReads(w, wUpper);
  }

  lemma {:induction false} TokenThrough(us: seq<Unit>, quote: byte, after: Bytes)
    requires IsQuote(quote) && AllFine(us, quote, after)
    ensures Token(Text(us) + after, Within(quote)) == Prefixed(Meaning(us), Token(after, Within(quote)))
  {
    if us == [] {
      assert Text(us) + after == after;
      NoPrefix(Token(after, Within(quote)));
    } else {
      var u, following := us[0], Text(us[1..]) + after;
      assert Text(us) + after == UnitText(u) + following;
      UnitReads(u, quote, following);
      TokenThrough(us[1..], quote, after);
      OneFurther(UnitText(u), following, Within(quote), [UnitMeaning(u)], Within(quote));
      hide Token, Text;
      BothPrefixes([UnitMeaning(u)], Meaning(us[1..]), Token(after, Within(quote)));
    }
  }

  lemma NoPrefix(r: Option<(Bytes, Bytes)>)
    ensures Prefixed([], r) == r
  {
    if r.Some? { assert [] + r.value.0 == r.value.0; }
  }

  lemma BothPrefixes(a: Bytes, b: Bytes, r: Option<(Bytes, Bytes)>)
    ensures Prefixed(a, Prefixed(b, r)) == Prefixed(a + b, r)
  {
    if r.Some? { assert a + (b + r.value.0) == a + b + r.value.0; }
  }

  lemma OneFurther(e: Bytes, t: Bytes, mode: Mode, out: Bytes, mode': Mode)
    requires Reads(e + t, mode) == Step.More(out, |e|, mode')
    ensures Token(e + t, mode) == Prefixed(out, Token(t, mode'))
  {
    assert (e + t)[|e|..] == t;
    hide Reads;
  }

  /** The closing quote. */
  lemma Closes(quote: byte, rest: Bytes)
    requires IsQuote(quote)
    ensures Token([quote] + rest, Within(quote)) == if rest == [] || Blank(rest[0]) then Some(([], rest)) else None
  {
    var t := [quote] + rest;
    assert t[1..] == rest && t[0] == quote;
  }

  lemma Unclosed(quote: byte)
    ensures Token([], Within(quote)) == None
  {}

  /** It makes no difference between quotes what follows behind the closing one. */
  lemma {:induction false} StillFine(us: seq<Unit>, quote: byte, rest: Bytes)
    requires IsQuote(quote)
    ensures AllFine(us, quote, [quote]) <==> AllFine(us, quote, [quote] + rest)
  {
    if us != [] {
      StillFine(us[1..], quote, rest);
      var a := Text(us[1..]) + [quote];
      var b := Text(us[1..]) + ([quote] + rest);
      assert b == a + rest && |a| >= 1;
      QuoteIsNoDigit(quote);
      assert TwoDigits(b) <==> TwoDigits(a) by {
        if |a| == 1 { assert b[0] == quote; }
      }
    }
  }

  lemma QuoteIsNoDigit(quote: byte)
    requires IsQuote(quote)
    ensures !SomeDigit(quote)
  {
    DigitsAre(quote);
  }

  lemma QuotedReads(quote: byte, us: seq<Unit>, rest: Bytes)
    requires IsQuote(quote) && AllFine(us, quote, [quote])
    ensures Token(TailText(InQuotes(quote, us)) + rest, Plain) ==
            if rest == [] || Blank(rest[0]) then Some((Meaning(us), rest)) else None
  {
    hide Token, Text, Meaning, AllFine, IsQuote;
    StillFine(us, quote, rest);
    TokenThrough(us, quote, [quote] + rest);
    Closes(quote, rest);
    Opens(quote, Text(us) + ([quote] + rest));
    assert [quote] + Text(us) + [quote] + rest == [quote] + (Text(us) + ([quote] + rest));
    assert Meaning(us) + [] == Meaning(us);
  }

  lemma Opens(quote: byte, t: Bytes)
    requires IsQuote(quote)
    ensures Token([quote] + t, Plain) == Token(t, Within(quote))
  {
    assert Reads([quote] + t, Plain) == Step.More([], 1, Within(quote));
    OneFurther([quote], t, Plain, [], Within(quote));
    NoPrefix(Token(t, Within(quote)));
    hide Token;
  }

  // ---- words

  lemma {:induction false} TokenBare(bare: Bytes, after: Bytes)
    requires forall i :: 0 <= i < |bare| ==> bare[i] != 0 && !IsQuote(bare[i]) && !Ends(bare[i])
    ensures Token(bare + after, Plain) == Prefixed(bare, Token(after, Plain))
  {
    if bare == [] {
      assert bare + after == after;
      NoPrefix(Token(after, Plain));
    } else {
      var b, t := bare[..1], bare[1..] + after;
      assert bare + after == b + t && b == [bare[0]] && bare == b + bare[1..];
      assert Reads(b + t, Plain) == Step.More(b, 1, Plain);
      OneFurther(b, t, Plain, b, Plain);
      TokenBare(bare[1..], after);
      hide Token;
      BothPrefixes(b, bare[1..], Token(after, Plain));
    }
  }

  /** What is left behind a word: a blank that ends it is used up. */
  ghost function Behind(w: Word, rest: Bytes): Bytes {
    if w.tail.Nothing? && rest != [] then rest[1..] else rest
  }

  lemma WordEnds(rest: Bytes)
    requires rest == [] || Ends(rest[0])
    ensures Token(rest, Plain) == Some(([], if rest == [] then [] else rest[1..]))
  {}

  lemma WordReads(w: Word, rest: Bytes)
    requires WordFine(w, rest)
    ensures Token(WordText(w) + rest, Plain) == Some((WordMeaning(w), Behind(w, rest)))
    ensures WordText(w) != [] && !Blank(WordText(w)[0])
  {
    hide Token, AllFine, Text, Meaning;
    TokenBare(w.bare, TailText(w.tail) + rest);
    assert w.bare + TailText(w.tail) + rest == w.bare + (TailText(w.tail) + rest);
    match w.tail
    case Nothing =>
      assert TailText(w.tail) + rest == rest;
      assert w.bare + [] == w.bare;
      WordEnds(rest);
    case InQuotes(quote, units) => QuotedReads(quote, units, rest);
  }

  lemma {:induction false} BlanksSkipped(gap: Bytes, t: Bytes)
    requires AllBlank(gap)
    ensures Args(gap + t) == Args(t) && SkipBlanks(gap + t) == SkipBlanks(t)
  {
    if gap == [] {
      assert gap + t == t;
    } else {
      assert gap + t == [gap[0]] + (gap[1..] + t) && (gap + t)[1..] == gap[1..] + t;
      BlanksSkipped(gap[1..], t);
    }
  }

  lemma WordThenArgs(w: Word, rest: Bytes)
    requires WordFine(w, rest)
    ensures Args(WordText(w) + rest) ==
            match Args(rest) case None => None case Some(more) => Some([WordMeaning(w)] + more)
  {
    WordReads(w, rest);
    var t := WordText(w) + rest;
    assert t[0] == WordText(w)[0] && SkipBlanks(t) == t;
    if w.tail.Nothing? && rest != [] {
      assert rest == rest[..1] + rest[1..];
      BlanksSkipped(rest[..1], rest[1..]);
    }
    hide Token, WordText, WordFine, SkipBlanks;
  }

  // ---- lines

  /** Every line that is written this way is read as it was meant. */
  lemma {:induction false} GoodLine(l: LineTree)
    requires LineFine(l)
    ensures Args(LineText(l)) == Some(LineMeaning(l))
    decreases l
  {
    match l
    case LastBlanks(gap) =>
      BlanksSkipped(gap, []);
      assert gap + [] == gap;
    case More(gap, word, rest) =>
      GoodLine(rest);
      WordThenArgs(word, LineText(rest));
      BlanksSkipped(gap, WordText(word) + LineText(rest));
      hide Args, WordText, WordMeaning;
      assert gap + WordText(word) + LineText(rest) == gap + (WordText(word) + LineText(rest));
  }

  /** Every line that goes wrong is answered with NULL. */
  lemma {:induction false} BadLine(b: BrokenLine)
    requires BrokenFine(b)
    ensures Args(BrokenText(b)) == None
    decreases b
  {
    match b
    case Later(gap, word, broken) =>
      BadLine(broken);
      WordThenArgs(word, BrokenText(broken));
      BlanksSkipped(gap, WordText(word) + BrokenText(broken));
      hide Args, WordText, WordMeaning;
      assert gap + WordText(word) + BrokenText(broken) == gap + (WordText(word) + BrokenText(broken));
    case Unclosed(gap, bare, quote, units) =>
      NeverClosed(bare, quote, units);
      BlanksSkipped(gap, bare + [quote] + Text(units));
    case Glued(gap, bare, quote, units, following) =>
      GluedOn(bare, quote, units, following);
      BlanksSkipped(gap, bare + TailText(InQuotes(quote, units)) + following);
  }

  lemma NeverClosed(bare: Bytes, quote: byte, units: seq<Unit>)
    requires BareFine(bare) && IsQuote(quote) && AllFine(units, quote, [])
    ensures Args(bare + [quote] + Text(units)) == None
  {
    var t := bare + [quote] + Text(units);
    TokenThrough(units, quote, []);
    Unclosed(quote);
    assert Text(units) + [] == Text(units);
    Opens(quote, Text(units));
    TokenBare(bare, [quote] + Text(units));
    assert t == bare + ([quote] + Text(units));
    assert t[0] == (if bare == [] then quote else bare[0]) && SkipBlanks(t) == t;
  }

  lemma GluedOn(bare: Bytes, quote: byte, units: seq<Unit>, following: Bytes)
    requires BareFine(bare) && IsQuote(quote) && AllFine(units, quote, [quote])
    requires following != [] && !Blank(following[0])
    ensures Args(bare + TailText(InQuotes(quote, units)) + following) == None
  {
    hide Token, AllFine, Text, Meaning;
    var q := TailText(InQuotes(quote, units));
    var t := bare + q + following;
    QuotedReads(quote, units, following);
    TokenBare(bare, q + following);
    assert t == bare + (q + following);
    assert t[0] == (if bare == [] then quote else bare[0]) && SkipBlanks(t) == t;
  }

  // ---- there are no other lines

  /** Any text from an opening quote on is a row of units, up to the closing quote or the end. */
  lemma {:induction false} UnitsOf(t: Bytes, quote: byte) returns (us: seq<Unit>, closed: bool, rest: Bytes)
    requires IsQuote(quote) && 0 !in t
    ensures var after := if closed then [quote] + rest else [];
            t == Text(us) + after && AllFine(us, quote, after)
    ensures 0 !in rest && |rest| <= |t|
    decreases |t|
  {
    hide Fine, UnitText, IsQuote, Text, AllFine;
    us, closed, rest := [], false, [];
    NoUnits(quote, t);
    if t != [] && t[0] == quote {
      closed, rest := true, t[1..];
      assert t == [quote] + rest;
    } else if t != [] {
      var u := FirstUnit(t, quote);
      var following := t[|UnitText(u)|..];
      us, closed, rest := UnitsOf(following, quote);
      OneMoreUnit(u, us, quote, if closed then [quote] + rest else []);
      us := [u] + us;
    }
  }

  lemma NoUnits(quote: byte, after: Bytes)
    ensures Text([]) + after == after && AllFine([], quote, after)
  {}

  lemma OneMoreUnit(u: Unit, us: seq<Unit>, quote: byte, after: Bytes)
    requires AllFine(us, quote, after) && Fine(u, quote, Text(us) + after)
    ensures AllFine([u] + us, quote, after) && UnitText(u) + (Text(us) + after) == Text([u] + us) + after
  {
    hide Fine, UnitText;
    assert ([u] + us)[1..] == us;
  }

  lemma FirstUnit(t: Bytes, quote: byte) returns (u: Unit)
    requires IsQuote(quote) && t != [] && 0 !in t && t[0] != quote
    ensures var k := |UnitText(u)|; 0 < k <= |t| && t == UnitText(u) + t[k..] && Fine(u, quote, t[k..])
  {
    if |t| >= 2 && t[0] == Ascii('\\') && (quote == Ascii('\"') || t[1] == quote) {
      if quote == Ascii('\"') && t[1] == Ascii('x') && TwoDigits(t[2..]) {
        var v: Nibble, vUpper: bool :| t[2] == Digit(v, vUpper);
        var w: Nibble, wUpper: bool :| t[3] == Digit(w, wUpper);
        u := Hex(v, vUpper, w, wUpper);
      } else {
        u := Letter(t[1]);
      }
    } else {
      u := Byte(t[0]);
    }
  }

  lemma {:induction false} BareOf(t: Bytes) returns (n: nat)
    ensures n <= |t| && forall i :: 0 <= i < n ==> !IsQuote(t[i]) && !Ends(t[i])
    ensures n == |t| || IsQuote(t[n]) || Ends(t[n])
  {
    if t == [] || IsQuote(t[0]) || Ends(t[0]) {
      n := 0;
    } else {
      n := BareOf(t[1..]);
      n := n + 1;
      assert forall i :: 1 <= i < |t| ==> t[i] == t[1..][i - 1];
    }
  }

  lemma {:induction false} GapOf(t: Bytes) returns (n: nat)
    ensures n <= |t| && AllBlank(t[..n]) && (n == |t| || !Blank(t[n]))
  {
    if t == [] || !Blank(t[0]) {
      n := 0;
    } else {
      n := GapOf(t[1..]);
      n := n + 1;
      assert t[..n] == [t[0]] + t[1..][..n - 1];
    }
  }

  lemma {:induction false} EveryLine(t: Bytes) returns (good: bool, l: LineTree, b: BrokenLine)
    requires 0 !in t
    ensures if good then LineFine(l) && LineText(l) == t else BrokenFine(b) && BrokenText(b) == t
    decreases |t|, 1
  {
    var n := GapOf(t);
    var gap, u := t[..n], t[n..];
    assert t == gap + u;
    good, l, b := true, LastBlanks(gap), BrokenLine.Unclosed([], [], 0, []);
    if u != [] {
      var m := BareOf(u);
      var bare, v := u[..m], u[m..];
      assert u == bare + v && BareFine(bare);
      if v == [] || Ends(v[0]) {
        assert bare != [];
        good, l, b := WithWord(gap, Word(bare, Nothing), v);
        assert WordText(Word(bare, Nothing)) == bare;
        assert gap + bare + v == t;
      } else {
        var quote := v[0];
        var us, closed, rest := UnitsOf(v[1..], quote);
        assert v == [quote] + v[1..];
        good, l, b := WithQuotes(gap, bare, quote, us, closed, rest);
        hide BrokenText, LineText, BrokenFine, LineFine;
        assert gap + (bare + ([quote] + v[1..])) == t;
      }
    }
  }

  lemma {:induction false} WithWord(gap: Bytes, word: Word, rest: Bytes)
    returns (good: bool, l: LineTree, b: BrokenLine)
    requires AllBlank(gap) && WordFine(word, rest) && 0 !in rest
    ensures var t := gap + WordText(word) + rest;
            if good then LineFine(l) && LineText(l) == t else BrokenFine(b) && BrokenText(b) == t
    decreases |rest|, 2
  {
    good, l, b := EveryLine(rest);
    if good {
      l := LineTree.More(gap, word, l);
    } else {
      b := Later(gap, word, b);
    }
    hide WordText, WordFine;
  }

  lemma {:induction false} WithQuotes(gap: Bytes, bare: Bytes, quote: byte, us: seq<Unit>, closed: bool, rest: Bytes)
    returns (good: bool, l: LineTree, b: BrokenLine)
    requires AllBlank(gap) && BareFine(bare) && IsQuote(quote) && 0 !in rest
    requires AllFine(us, quote, if closed then [quote] + rest else [])
    ensures var t := gap + (bare + ([quote] + (Text(us) + if closed then [quote] + rest else [])));
            if good then LineFine(l) && LineText(l) == t else BrokenFine(b) && BrokenText(b) == t
    decreases |rest|, 3
  {
    hide Text, AllFine, BareFine, LineFine, LineText, IsQuote;
    var q := [quote] + Text(us) + [quote];
    good, l, b := false, LastBlanks([]), BrokenLine.Unclosed(gap, bare, quote, us);
    if closed {
      StillFine(us, quote, rest);
      assert gap + (bare + ([quote] + (Text(us) + ([quote] + rest)))) == gap + (bare + q + rest)
             == gap + (bare + q) + rest;
      if rest == [] || Blank(rest[0]) {
        good, l, b := WithWord(gap, Word(bare, InQuotes(quote, us)), rest);
      } else {
        assert rest[0] in rest;
        b := Glued(gap, bare, quote, us, rest);
      }
    } else {
      assert bare + ([quote] + (Text(us) + [])) == bare + [quote] + Text(us);
    }
  }

  /** NULL exactly for the lines that go wrong; and what is read is what was meant. */
  lemma NullExactly(t: Bytes)
    requires 0 !in t
    ensures Args(t) == None <==> exists b :: BrokenFine(b) && BrokenText(b) == t
    ensures forall v :: Args(t) == Some(v) <==> exists l :: LineFine(l) && LineText(l) == t && LineMeaning(l) == v
  {
    forall b | BrokenFine(b) && BrokenText(b) == t ensures Args(t) == None { BadLine(b); }
    forall l | LineFine(l) && LineText(l) == t ensures Args(t) == Some(LineMeaning(l)) { GoodLine(l); }
    var good, l, b := EveryLine(t);
    hide BrokenFine, LineFine, Args;
  }

  // ---- some lines

  /** Words with blanks around them. */
  ghost function Spaced(words: seq<Bytes>, gaps: seq<Bytes>): Bytes
    requires |gaps| == |words| + 1
  {
    if words == [] then gaps[0] else gaps[0] + words[0] + Spaced(words[1..], gaps[1..])
  }

  /** Not empty, without NUL, quotes and what ends a word, and not beginning with a blank. */
  ghost predicate PlainWord(w: Bytes) {
    w != [] && w[0] !in {11, 12} && forall i :: 0 <= i < |w| ==> w[i] !in {0, 9, 10, 13, 32, 34, 39}
  }

  /** A row of blanks, of which vertical tab and form feed do not end a word. */
  ghost predicate GapBehind(gap: Bytes, last: bool) {
    AllBlank(gap) && (if gap == [] then last else gap[0] !in {11, 12})
  }

  lemma {:induction false} WordsComeBack(words: seq<Bytes>, gaps: seq<Bytes>)
    requires |gaps| == |words| + 1 && AllBlank(gaps[0])
    requires forall i :: 0 <= i < |words| ==> PlainWord(words[i])
    requires forall i :: 1 <= i <= |words| ==> GapBehind(gaps[i], i == |words|)
    ensures Args(Spaced(words, gaps)) == Some(words)
  {
    var l := TreeOf(words, gaps);
    GoodLine(l);
  }

  lemma {:induction false} TreeOf(words: seq<Bytes>, gaps: seq<Bytes>) returns (l: LineTree)
    requires |gaps| == |words| + 1 && AllBlank(gaps[0])
    requires forall i :: 0 <= i < |words| ==> PlainWord(words[i])
    requires forall i :: 1 <= i <= |words| ==> GapBehind(gaps[i], i == |words|)
    ensures LineFine(l) && LineText(l) == Spaced(words, gaps) && LineMeaning(l) == words
  {
    hide PlainWord, GapBehind, AllBlank, WordText, WordMeaning, WordFine;
    if words == [] {
      l := LastBlanks(gaps[0]);
    } else {
      assert PlainWord(words[0]) && GapBehind(gaps[1], 1 == |words|);
      assert forall i :: 1 <= i <= |words| - 1 ==> gaps[1..][i] == gaps[i + 1];
      assert AllBlank(gaps[1]) by { GapIsBlank(gaps[1], 1 == |words|); }
      var rest := TreeOf(words[1..], gaps[1..]);
      var t := Spaced(words[1..], gaps[1..]);
      SpacedFirst(words[1..], gaps[1..]);
      PlainIsFine(words[0], t);
      l := LineTree.More(gaps[0], Word(words[0], Nothing), rest);
      assert words == [words[0]] + words[1..];
    }
  }

  lemma GapIsBlank(gap: Bytes, last: bool)
    requires GapBehind(gap, last)
    ensures AllBlank(gap)
  {}

  lemma PlainIsFine(word: Bytes, following: Bytes)
    requires PlainWord(word) && (following == [] || Ends(following[0]))
    ensures var w := Word(word, Nothing); WordFine(w, following) && WordText(w) == word == WordMeaning(w)
  {}

  lemma SpacedFirst(words: seq<Bytes>, gaps: seq<Bytes>)
    requires |gaps| == |words| + 1 && GapBehind(gaps[0], words == [])
    ensures var t := Spaced(words, gaps); t == [] || Ends(t[0])
  {}

  /** A line of one quoted word. */
  lemma OneQuoted(quote: byte, us: seq<Unit>)
    requires IsQuote(quote) && AllFine(us, quote, [quote])
    ensures Args([quote] + Text(us) + [quote]) == Some([Meaning(us)])
  {
    hide Text, Meaning, AllFine, Token;
    var w := Word([], InQuotes(quote, us));
    assert WordText(w) + [] == [quote] + Text(us) + [quote] && WordMeaning(w) == Meaning(us);
    WordThenArgs(w, []);
    assert Args([]) == Some([]);
    assert [Meaning(us)] + [] == [Meaning(us)];
  }

  /** A printer for single quotes: an apostrophe gets a backslash, other bytes stay. */
  ghost function Apostrophized(s: Bytes): Bytes {
    if s == [] then [] else (if s[0] == 39 then [92, 39] else [s[0]]) + Apostrophized(s[1..])
  }

  ghost function SingleQuoted(s: Bytes): Bytes { [39] + Apostrophized(s) + [39] }

  ghost function SingleUnits(s: Bytes): seq<Unit> {
    if s == [] then [] else [if s[0] == 39 then Letter(39) else Byte(s[0])] + SingleUnits(s[1..])
  }

  lemma {:induction false} SinglesAre(s: Bytes)
    ensures Text(SingleUnits(s)) == Apostrophized(s) && Meaning(SingleUnits(s)) == s
  {
    if s != [] {
      SinglesAre(s[1..]);
      assert SingleUnits(s)[1..] == SingleUnits(s[1..]) && s == [s[0]] + s[1..];
    }
  }

  lemma {:induction false} SinglesFine(s: Bytes, after: Bytes)
    requires 0 !in s && (s != [] && s[|s| - 1] == 92 ==> after == [] || after[0] != 39)
    ensures AllFine(SingleUnits(s), 39, after)
  {
    if s != [] {
      SinglesFine(s[1..], after);
      SinglesAre(s[1..]);
      hide Text, Meaning, TwoDigits;
      assert SingleUnits(s)[1..] == SingleUnits(s[1..]);
      if s[1..] != [] {
        assert Apostrophized(s[1..])[0] != 39;
      } else {
        assert Apostrophized(s[1..]) + after == after;
      }
    }
  }

  /** What it writes is read back, unless it ends in a backslash: then the closing quote is
      taken for an apostrophe, and the quotes stay open. */
  lemma SinglesComeBack(s: Bytes)
    requires 0 !in s
    ensures Args(SingleQuoted(s)) == if s != [] && s[|s| - 1] == 92 then None else Some([s])
  {
    hide Apostrophized, SingleUnits, AllFine, Args, Text, Meaning;
    var us := SingleUnits(s);
    if s != [] && s[|s| - 1] == 92 {
      LastBackslash(s);
      StaysOpen(s[..|s| - 1]);
    } else {
      SinglesAre(s);
      SinglesFine(s, [39]);
      OneQuoted(39, us);
    }
  }

  lemma {:induction false} LastBackslash(s: Bytes)
    requires s != [] && s[|s| - 1] == 92
    ensures Apostrophized(s) == Apostrophized(s[..|s| - 1]) + [92]
  {
    if |s| > 1 {
      LastBackslash(s[1..]);
      assert s[..|s| - 1][1..] == s[1..][..|s| - 2];
    } else {
      assert s[..0] == [] && s == [92];
    }
  }

  lemma StaysOpen(s: Bytes)
    requires 0 !in s
    ensures Args([39] + (Apostrophized(s) + [92]) + [39]) == None
  {
    var us := SingleUnits(s);
    SinglesAre(s);
    SinglesFine(s, [92, 39]);
    hide Apostrophized, SingleUnits, AllFine, Args, Text, Meaning;
    EndsInApostrophe(us, 39);
    NeverClosed([], 39, us + [Letter(39)]);
    Reclosed(Text(us));
  }

  lemma Reclosed(t: Bytes)
    ensures [] + [39] + (t + [92, 39]) == [39] + (t + [92]) + [39]
  {}

  lemma {:induction false} EndsInApostrophe(us: seq<Unit>, quote: byte)
    requires quote == 39 && AllFine(us, quote, [92, 39])
    ensures AllFine(us + [Letter(39)], quote, []) && Text(us + [Letter(39)]) == Text(us) + [92, 39]
  {
    var all := us + [Letter(39)];
    if us == [] {
      assert all == [Letter(39)] && all[1..] == [];
    } else {
      EndsInApostrophe(us[1..], quote);
      assert all[1..] == us[1..] + [Letter(39)];
      assert Text(all[1..]) + [] == Text(us[1..]) + [92, 39];
    }
  }

  /** In double quotes a backslash, an x and two digits, in any case, are the byte. */
  lemma HexComesBack(v: Nibble, vUpper: bool, w: Nibble, wUpper: bool)
    ensures var d, e := Ascii((if vUpper then UPPER_DIGITS else LOWER_DIGITS)[v]),
                        Ascii((if wUpper then UPPER_DIGITS else LOWER_DIGITS)[w]);
            Args([34, 92, 120, d, e, 34]) == Some([[(16 * v + w) as byte]])
  {
    var u := Hex(v, vUpper, w, wUpper);
    var us := [u];
    assert us[1..] == [];
    assert Text(us) == UnitText(u) + [] && Meaning(us) == [UnitMeaning(u)] + [] && AllFine(us, 34, [34]);
    OneQuoted(34, us);
    hide Args, Meaning, AllFine;
    var d := Ascii((if vUpper then UPPER_DIGITS else LOWER_DIGITS)[v]);
    var e := Ascii((if wUpper then UPPER_DIGITS else LOWER_DIGITS)[w]);
    assert d == Digit(v, vUpper) && e == Digit(w, wUpper);
    assert [34] + Text(us) + [34] == [34, 92, 120, d, e, 34];
    assert Meaning(us) == [(16 * v + w) as byte];
  }
}
