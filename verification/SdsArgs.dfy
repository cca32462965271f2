/** sdssplitargs of src/nc_sds.c, reading a C string byte by byte. */
module SdsArgs {
  import opened Options
  import opened SdsGrammar
  import opened SdsReading
  import opened SdsText

  /** Bytes up to the first NUL, and that. */
  ghost predicate CString(line: Bytes) {
    line != [] && line[|line| - 1] == NUL && forall i :: 0 <= i < |line| - 1 ==> line[i] != NUL
  }

  /** What is still to be read from p on. */
  ghost function Rest(line: Bytes, p: nat): Bytes
    requires p < |line|
  {
    line[p..|line| - 1]
  }

  ghost function ModeOf(inq: bool, insq: bool): Mode {
    if inq then Double else if insq then Single else Plain
  }

  /** One round of the loop that reads a token: what is added to the token, the new position
      and quoting; failed where the code goes to err. */
  method ReadStep(line: Bytes, p0: nat, inq0: bool, insq0: bool)
    returns (out: Bytes, p: nat, inq: bool, insq: bool, done: bool, failed: bool)
    requires CString(line) && p0 < |line| && !(inq0 && insq0)
    ensures p0 <= p < |line| && !(inq && insq)
    ensures match Reads(Rest(line, p0), ModeOf(inq0, insq0))
            case Wrong => failed
            case Done(used) => !failed && done && out == [] && p == p0 + used
            case More(o, used, mode) => !failed && !done && out == o && p == p0 + used && mode == ModeOf(inq, insq)
  {
    ghost var t := Rest(line, p0);
    assert forall i :: 0 <= i < |t| ==> t[i] == line[p0 + i] != NUL;
    out, p, inq, insq, done, failed := [], p0, inq0, insq0, false, false;
    if inq {
      if line[p] == BACKSLASH && line[p + 1] == LOWER_X && IsHexDigit(line[p + 2]) && IsHexDigit(line[p + 3]) {
        out := [HexDigitToInt(line[p + 2]) * 16 + HexDigitToInt(line[p + 3])];
        p := p + 3;
      } else if line[p] == BACKSLASH && line[p + 1] != NUL {
        p := p + 1;
        out := [Unescaped(line[p])];
      } else if line[p] == QUOTE {
        if line[p + 1] != NUL && !IsSpace(line[p + 1]) {
          failed := true;
          return;
        }
        done := true;
      } else if line[p] == NUL {
        failed := true;
        return;
      } else {
        out := [line[p]];
      }
    } else if insq {
      if line[p] == BACKSLASH && line[p + 1] == APOSTROPHE {
        p := p + 1;
        out := [APOSTROPHE];
      } else if line[p] == APOSTROPHE {
        if line[p + 1] != NUL && !IsSpace(line[p + 1]) {
          failed := true;
          return;
        }
        done := true;
      } else if line[p] == NUL {
        failed := true;
        return;
      } else {
        out := [line[p]];
      }
    } else {
      if line[p] == SPACE || line[p] == NEWLINE || line[p] == RETURN || line[p] == TAB || line[p] == NUL {
        done := true;
      } else if line[p] == QUOTE {
        inq := true;
      } else if line[p] == APOSTROPHE {
        insq := true;
      } else {
        out := [line[p]];
      }
    }
    if line[p] != NUL {
      p := p + 1;
    }
  }

  lemma TokenStep(line: Bytes, p: nat, mode: Mode, current: Bytes)
    requires p < |line|
    ensures var t := Rest(line, p);
            match Reads(t, mode)
            case Wrong => Prefixed(current, Token(t, mode)) == None
            case Done(used) => Prefixed(current, Token(t, mode)) == Some((current, Rest(line, p + used)))
            case More(out, used, mode') =>
              Prefixed(current, Token(t, mode)) == Prefixed(current + out, Token(Rest(line, p + used), mode'))
  {
    var t := Rest(line, p);
    TokenOnce(t, mode);
    hide Reads, Token;
    match Reads(t, mode)
    case Wrong =>
    case Done(used) => assert t[used..] == Rest(line, p + used) && current + [] == current;
    case More(out, used, mode') =>
      assert t[used..] == Rest(line, p + used);
      BothPrefixes(current, out, Token(Rest(line, p + used), mode'));
  }

  lemma TokenOnce(t: Bytes, mode: Mode)
    ensures match Reads(t, mode)
            case Wrong => Token(t, mode) == None
            case Done(used) => Token(t, mode) == Some(([], t[used..]))
            case More(out, used, mode') => Token(t, mode) == Prefixed(out, Token(t[used..], mode'))
  {
    hide Reads;
  }

  /** The loop that reads a token. */
  method ReadToken(line: Bytes, p0: nat) returns (token: Option<Bytes>, p: nat)
    requires CString(line) && p0 < |line|
    ensures p0 <= p < |line| && (token.Some? && line[p0] != NUL ==> p0 < p)
    ensures Token(Rest(line, p0), Plain) == if token.None? then None else Some((token.value, Rest(line, p)))
  {
    hide Token, Reads;
    var current, inq, insq, done := [], false, false, false;
    p := p0;
    ghost var whole := Token(Rest(line, p0), Plain);
    NothingYet(whole);
    while !done
      invariant p0 <= p < |line| && !(inq && insq) && (line[p0] != NUL && done ==> p0 < p)
      invariant if done then whole == Some((current, Rest(line, p)))
                else whole == Prefixed(current, Token(Rest(line, p), ModeOf(inq, insq)))
      decreases |line| - p, !done
    {
      TokenStep(line, p, ModeOf(inq, insq), current);
      var out, failed;
      out, p, inq, insq, done, failed := ReadStep(line, p, inq, insq);
      if failed {
        return None, p;
      }
      assert done ==> current + out == current;
      current := current + out;
    }
    return Some(current), p;
  }

  lemma NothingYet(r: Option<(Bytes, Bytes)>)
    ensures Prefixed([], r) == r
  {
    if r.Some? { assert [] + r.value.0 == r.value.0; }
  }

  method Skip(line: Bytes, p0: nat) returns (p: nat)
    requires CString(line) && p0 < |line|
    ensures p0 <= p < |line| && Rest(line, p) == SkipBlanks(Rest(line, p0))
  {
    p := p0;
    while line[p] != NUL && IsSpace(line[p])
      invariant p0 <= p < |line| && SkipBlanks(Rest(line, p)) == SkipBlanks(Rest(line, p0))
      decreases |line| - p
    {
      assert Rest(line, p)[1..] == Rest(line, p + 1);
      p := p + 1;
    }
    assert Rest(line, p) == [] || Rest(line, p)[0] == line[p];
  }

  ghost function After(vector: seq<Bytes>, r: Option<seq<Bytes>>): Option<seq<Bytes>> {
    match r case None => None case Some(more) => Some(vector + more)
  }

  lemma ArgsStep(vector: seq<Bytes>, t: Bytes)
    ensures var u := SkipBlanks(t);
            if u == [] then After(vector, Args(t)) == Some(vector)
            else match Token(u, Plain)
              case None => After(vector, Args(t)) == None
              case Some((token, rest)) => After(vector, Args(t)) == After(vector + [token], Args(rest))
  {
    hide Token, SkipBlanks;
    var u := SkipBlanks(t);
    if u == [] {
      assert vector + [] == vector;
    } else {
      match Token(u, Plain)
      case None =>
      case Some((token, rest)) =>
        match Args(rest)
        case None =>
        case Some(more) => assert vector + ([token] + more) == vector + [token] + more;
    }
  }

  /** sdssplitargs; None for NULL. The line is well written, and these are its words; or it goes
      wrong. */
  method SplitArgs(line: Bytes) returns (r: Option<seq<Bytes>>, ghost good: LineTree, ghost bad: BrokenLine)
    requires CString(line)
    ensures r == Args(Rest(line, 0))
    ensures match r
            case Some(words) => LineFine(good) && LineText(good) + [0] == line && words == LineMeaning(good)
            case None => BrokenFine(bad) && BrokenText(bad) + [0] == line
  {
    good, bad := Understood(line);
    hide Args, Token, SkipBlanks, LineFine, BrokenFine;
    ghost var whole := Args(Rest(line, 0));
    var p, vector := 0, [];
    AfterNothing(whole);
    while true
      invariant p < |line| && whole == After(vector, Args(Rest(line, p)))
      decreases |line| - p
    {
      ArgsStep(vector, Rest(line, p));
      p := Skip(line, p);
      assert Rest(line, p) == [] <==> p == |line| - 1;
      if line[p] != NUL {
        var token;
        token, p := ReadToken(line, p);
        if token.None? {
          return None, good, bad;
        }
        vector := vector + [token.value];
      } else {
        return Some(vector), good, bad;
      }
    }
  }

  /** What there is to say about a line before it is read. */
  lemma Understood(line: Bytes) returns (good: LineTree, bad: BrokenLine)
    requires CString(line)
    ensures match Args(Rest(line, 0))
            case Some(words) => LineFine(good) && LineText(good) + [0] == line && words == LineMeaning(good)
            case None => BrokenFine(bad) && BrokenText(bad) + [0] == line
  {
    hide Args, LineFine, LineText, LineMeaning, BrokenFine, BrokenText;
    var t := Rest(line, 0);
    assert forall i :: 0 <= i < |t| ==> t[i] == line[i] != NUL;
    var fine;
    fine, good, bad := EveryLine(t);
    if fine {
      GoodLine(good);
    } else {
      BadLine(bad);
    }
    assert t + [0] == line;
  }

  lemma AfterNothing(r: Option<seq<Bytes>>)
    ensures After([], r) == r
  {
    if r.Some? { assert [] + r.value == r.value; }
  }

  /** Printing, passing the text on as a C string and parsing give the same list. */
  lemma LineIsCString(args: seq<Bytes>, isPrint: byte -> bool)
    requires !isPrint(NUL)
    ensures var line := Line(args, isPrint) + [NUL]; CString(line) && Args(Rest(line, 0)) == Some(args)
  {
    var t := Line(args, isPrint);
    LineNoNul(args, isPrint);
    ArgsOfLine(args, isPrint);
    assert forall i :: 0 <= i < |t| ==> t[i] in t;
    assert Rest(t + [NUL], 0) == t;
  }
}
