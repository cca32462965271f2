/** Splitting at a separator and joining again, as sdssplitlen and sdsjoinsds of
    src/nc_sds.c do it. */
module SdsSplit {
  import opened Options
  import opened SdsText

  predicate MatchAt(s: Bytes, i: nat, sep: Bytes) {
    i + |sep| <= |s| && s[i..i + |sep|] == sep
  }

  /** The first match, or None. */
  ghost function Find(s: Bytes, sep: Bytes): (r: Option<nat>)
    ensures r.Some? ==> MatchAt(s, r.value, sep)
  {
    if MatchAt(s, 0, sep) then Some(0)
    else if s == [] then None
    else match Find(s[1..], sep)
      case None => None
      case Some(k) => assert s[1..][k..k + |sep|] == s[k + 1..k + 1 + |sep|]; Some(k + 1)
  }

  /** Cut at the first match, and go on behind it. */
  ghost function Split(s: Bytes, sep: Bytes): (r: seq<Bytes>)
    requires sep != []
    ensures r != []
  {
    match Find(s, sep)
    case None => [s]
    case Some(k) => [s[..k]] + Split(s[k + |sep|..], sep)
  }

  ghost function Join(tokens: seq<Bytes>, sep: Bytes): Bytes {
    if tokens == [] then []
    else if |tokens| == 1 then tokens[0]
    else tokens[0] + sep + Join(tokens[1..], sep)
  }

  lemma {:induction false} FindIs(s: Bytes, sep: Bytes, i: nat)
    requires MatchAt(s, i, sep)
    ensures Find(s, sep).Some? && Find(s, sep).value <= i
  {
    if i > 0 && !MatchAt(s, 0, sep) {
      assert s[1..][i - 1..i - 1 + |sep|] == s[i..i + |sep|];
      FindIs(s[1..], sep, i - 1);
    }
  }

  /** Joining undoes splitting, for every string and separator. */
  lemma {:induction false} JoinOfSplit(s: Bytes, sep: Bytes)
    requires sep != []
    ensures Join(Split(s, sep), sep) == s
  {
    match Find(s, sep)
    case None =>
    case Some(k) =>
      var rest := s[k + |sep|..];
      JoinOfSplit(rest, sep);
      assert ([s[..k]] + Split(rest, sep))[1..] == Split(rest, sep);
      assert s == s[..k] + sep + rest;
  }

  lemma FirstFree(s: Bytes, sep: Bytes, k: nat)
    requires sep != [] && Find(s, sep) == Some(k) && k <= |s|
    ensures Find(s[..k], sep) == None
  {
    if Find(s[..k], sep).Some? {
      var j := Find(s[..k], sep).value;
      assert s[..k][j..j + |sep|] == s[j..j + |sep|];
      FindIs(s, sep, j);
    }
    hide Find;
  }

  /** No token has the separator inside. */
  lemma {:induction false} TokensFree(s: Bytes, sep: Bytes, i: nat)
    requires sep != [] && i < |Split(s, sep)|
    ensures Find(Split(s, sep)[i], sep) == None
  {
    hide Find;
    match Find(s, sep)
    case None => assert Split(s, sep) == [s];
    case Some(k) =>
      SplitAt(s, k, sep);
      hide Split;
      if i > 0 {
        TokensFree(s[k + |sep|..], sep, i - 1);
      } else {
        FirstFree(s, sep, k);
      }
  }

  /** Cutting leftmost: at each cut the rest of the string has its first match right there. */
  ghost predicate Leftmost(tokens: seq<Bytes>, sep: Bytes) {
    tokens != [] &&
    if |tokens| == 1 then Find(tokens[0], sep) == None
    else Find(Join(tokens, sep), sep) == Some(|tokens[0]|) && Leftmost(tokens[1..], sep)
  }

  /** This and the string determine the tokens. */
  lemma {:induction false} SplitIsLeftmost(s: Bytes, sep: Bytes, tokens: seq<Bytes>)
    requires sep != []
    ensures tokens == Split(s, sep) <==> Leftmost(tokens, sep) && Join(tokens, sep) == s
    decreases |tokens|
  {
    JoinOfSplit(s, sep);
    hide Find;
    if |tokens| > 1 {
      match Find(s, sep)
      case None =>
      case Some(k) =>
        var rest := s[k + |sep|..];
        SplitIsLeftmost(rest, sep, tokens[1..]);
        assert tokens == [tokens[0]] + tokens[1..];
        if Leftmost(tokens, sep) && Join(tokens, sep) == s {
          assert s[..k] == tokens[0] && rest == Join(tokens[1..], sep);
        }
    }
  }

  // ---- separators of one byte

  lemma {:induction false} FindByte(a: Bytes, c: byte, b: Bytes)
    requires c !in a
    ensures Find(a + [c] + b, [c]) == Some(|a|) && Find(a, [c]) == None
  {
    var s := a + [c] + b;
    if a == [] {
      assert s[0..1] == [c];
    } else {
      assert s[1..] == a[1..] + [c] + b;
      assert s[0..1] == [a[0]] && a[0..1] == [a[0]];
      FindByte(a[1..], c, b);
    }
  }

  lemma {:induction false} FreeIsLeftmost(tokens: seq<Bytes>, c: byte)
    requires tokens != [] && forall t <- tokens :: c !in t
    ensures Leftmost(tokens, [c])
  {
    if |tokens| == 1 {
      FindByte(tokens[0], c, []);
    } else {
      FindByte(tokens[0], c, Join(tokens[1..], [c]));
      FreeIsLeftmost(tokens[1..], c);
    }
  }

  /** What sdssplitlen returns: nothing at all for the empty string. */
  ghost function Tokens(s: Bytes, sep: Bytes): seq<Bytes>
    requires sep != []
  {
    if s == [] then [] else Split(s, sep)
  }

  lemma JoinOfTokens(s: Bytes, sep: Bytes)
    requires sep != []
    ensures Join(Tokens(s, sep), sep) == s
  {
    JoinOfSplit(s, sep);
  }

  /** For one byte, splitting undoes joining, but for the list of one empty token. */
  lemma TokensOfJoin(tokens: seq<Bytes>, c: byte)
    requires tokens != [] && forall t <- tokens :: c !in t
    ensures Tokens(Join(tokens, [c]), [c]) == tokens <==> tokens != [[]]
  {
    FreeIsLeftmost(tokens, c);
    SplitIsLeftmost(Join(tokens, [c]), [c], tokens);
  }

  ghost function QuotedEach(args: seq<Bytes>, isPrint: byte -> bool): seq<Bytes> {
    if args == [] then [] else [Quoted(args[0], isPrint)] + QuotedEach(args[1..], isPrint)
  }

  /** Quoting each string and joining with single spaces makes the line that parses back. */
  lemma {:induction false} LineIsJoin(args: seq<Bytes>, isPrint: byte -> bool)
    ensures Join(QuotedEach(args, isPrint), [SPACE]) == Line(args, isPrint)
    ensures Args(Join(QuotedEach(args, isPrint), [SPACE])) == Some(args)
  {
    hide Quoted, Args;
    if args != [] {
      LineIsJoin(args[1..], isPrint);
      var q := QuotedEach(args, isPrint);
      assert q[1..] == QuotedEach(args[1..], isPrint);
    }
    ArgsOfLine(args, isPrint);
  }

  // ---- the loop of sdssplitlen

  lemma MatchIsCompare(s: Bytes, j: nat, sep: Bytes)
    requires j + |sep| <= |s| && sep != []
    ensures MatchAt(s, j, sep) <==> (|sep| == 1 && s[j] == sep[0]) || s[j..j + |sep|] == sep
  {
    if |sep| == 1 { assert s[j..j + 1] == [s[j]] && sep == [sep[0]]; }
  }

  lemma Shift(s: Bytes, start: nat, i: nat, sep: Bytes)
    requires start <= |s|
    ensures MatchAt(s[start..], i, sep) == MatchAt(s, start + i, sep)
  {
    if start + i + |sep| <= |s| {
      assert s[start..][i..i + |sep|] == s[start + i..start + i + |sep|];
    }
  }

  /** The loop: done are the tokens in front of start, no match begins in s[start..j]. */
  ghost predicate Progress(done: seq<Bytes>, s: Bytes, sep: Bytes, start: nat, j: nat) {
    && sep != [] && start <= j <= |s| && done + Split(s[start..], sep) == Split(s, sep)
    && forall i :: start <= i < j ==> !MatchAt(s, i, sep)
  }

  lemma FirstHere(s: Bytes, sep: Bytes, start: nat, j: nat)
    requires start <= j <= |s| && MatchAt(s, j, sep) && forall i :: start <= i < j ==> !MatchAt(s, i, sep)
    ensures Find(s[start..], sep) == Some(j - start)
  {
    var t := s[start..];
    Shift(s, start, j - start, sep);
    FindIs(t, sep, j - start);
    Shift(s, start, Find(t, sep).value, sep);
    hide Find, MatchAt;
  }

  lemma SplitAt(t: Bytes, k: nat, sep: Bytes)
    requires sep != [] && Find(t, sep) == Some(k)
    ensures k + |sep| <= |t| && Split(t, sep) == [t[..k]] + Split(t[k + |sep|..], sep)
  {
    hide Find;
  }

  lemma Cut(done: seq<Bytes>, s: Bytes, sep: Bytes, start: nat, j: nat)
    requires Progress(done, s, sep, start, j) && MatchAt(s, j, sep)
    ensures j + |sep| <= |s| && Progress(done + [s[start..j]], s, sep, j + |sep|, j + |sep|)
  {
    hide Split, MatchAt, Find;
    FirstHere(s, sep, start, j);
    var t, k := s[start..], j - start;
    SplitAt(t, k, sep);
    assert t[..k] == s[start..j] && t[k + |sep|..] == s[j + |sep|..];
    assert done + ([s[start..j]] + Split(s[j + |sep|..], sep)) == done + [s[start..j]] + Split(s[j + |sep|..], sep);
  }

  lemma Begin(s: Bytes, sep: Bytes)
    requires sep != []
    ensures Progress([], s, sep, 0, 0)
  {
    assert s[0..] == s;
  }

  lemma Pass(done: seq<Bytes>, s: Bytes, sep: Bytes, start: nat, j: nat)
    requires Progress(done, s, sep, start, j) && !MatchAt(s, j, sep) && j < |s|
    ensures Progress(done, s, sep, start, j + 1)
  {
    hide MatchAt;
  }

  lemma End(done: seq<Bytes>, s: Bytes, sep: Bytes, start: nat, j: nat)
    requires Progress(done, s, sep, start, j) && j + |sep| > |s|
    ensures done + [s[start..]] == Split(s, sep)
  {
    var t := s[start..];
    if Find(t, sep).Some? {
      Shift(s, start, Find(t, sep).value, sep);
    }
  }

  /** Twice the room for tokens. */
  method Doubled(tokens: array<Bytes>, ghost n: nat) returns (larger: array<Bytes>)
    requires n <= tokens.Length
    ensures fresh(larger) && larger.Length == 2 * tokens.Length && larger[..n] == tokens[..n]
  {
    larger := new Bytes[2 * tokens.Length](_ => []);
    for i := 0 to tokens.Length
      invariant larger[..i] == tokens[..i]
    {
      larger[i] := tokens[i];
    }
    assert larger[..n] == larger[..tokens.Length][..n] == tokens[..n];
  }

  method Store(tokens: array<Bytes>, elements: nat, token: Bytes)
    requires elements < tokens.Length
    modifies tokens
    ensures tokens[..elements + 1] == old(tokens[..elements]) + [token]
  {
    tokens[elements] := token;
  }

  /** The test of the loop, on the parts of the buffers that count. */
  lemma TestIs(s: Bytes, len: nat, sep: Bytes, seplen: nat, j: nat)
    requires len <= |s| && 1 <= seplen <= |sep| && j + seplen <= len
    ensures MatchAt(s[..len], j, sep[..seplen]) <==>
              (seplen == 1 && s[j] == sep[0]) || s[j..j + seplen] == sep[..seplen]
  {
    MatchIsCompare(s[..len], j, sep[..seplen]);
    assert s[..len][j..j + seplen] == s[j..j + seplen];
  }

  lemma Inner(s: Bytes, len: nat, start: nat, j: nat)
    requires start <= j <= len <= |s|
    ensures s[..len][start..j] == s[start..j]
  {}

  /** sdssplitlen, for buffers at least as long as the lengths that come with them. */
  method SplitLen(s: Bytes, len: int, sep: Bytes, seplen: int) returns (r: Option<seq<Bytes>>)
    requires len <= |s| && seplen <= |sep|
    ensures r == if seplen < 1 || len < 0 then None else Some(Tokens(s[..len], sep[..seplen]))
  {
    if seplen < 1 || len < 0 {
      return None;
    }
    var tokens := new Bytes[5](_ => []);
    if len == 0 {
      return Some([]);
    }
    ghost var text, cut := s[..len], sep[..seplen];
    var elements, start, j := 0, 0, 0;
    ghost var done := [];
    hide MatchAt, Split, Progress;
    assert |text| == len && |cut| == seplen;
    Begin(text, cut);
    while j < len - (seplen - 1)
      invariant 0 <= start <= j <= len && 0 <= elements < tokens.Length && fresh(tokens)
      invariant Progress(done, text, cut, start, j) && done == tokens[..elements]
    {
      if tokens.Length < elements + 2 {
        tokens := Doubled(tokens, elements);
      }
      TestIs(s, len, sep, seplen, j);
      Inner(s, len, start, j);
      if (seplen == 1 && s[j] == sep[0]) || s[j..j + seplen] == sep[..seplen] {
        Cut(done, text, cut, start, j);
        Store(tokens, elements, s[start..j]);
        done, elements := done + [s[start..j]], elements + 1;
        start := j + seplen;
        j := j + seplen - 1;
      } else {
        Pass(done, text, cut, start, j);
      }
      j := j + 1;
    }
    End(done, text, cut, start, j);
    Inner(s, len, start, len);
    assert text[start..] == text[start..len];
    Store(tokens, elements, s[start..len]);
    elements := elements + 1;
    return Some(tokens[..elements]);
  }
}
