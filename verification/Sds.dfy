/** The growable byte strings of src/nc_sds.c. */
module NcSds {
  import opened Options
  import opened SdsGrammar
  import opened SdsPrinting
  import opened SdsSplit
  import opened SdsText
  import opened Words

  const INT_MAX: int := 0x7FFF_FFFF
  const SDS_MAX_PREALLOC: int := 1024 * 1024
  // no reallocation for so long a string that its free leaves the range of int
  const LIMIT: int := INT_MAX - SDS_MAX_PREALLOC

  // ---- what the operations compute

  /** strchr finds the terminating NUL, too. */
  predicate InSet(c: byte, cset: Bytes) { c == NUL || c in cset }

  /** s[a..b] is what is left of s when bytes of the set go at both ends. */
  ghost predicate Middle(s: Bytes, cset: Bytes, a: nat, b: nat) {
    && a <= b <= |s|
    && (forall i :: 0 <= i < a ==> s[i] == 0 || s[i] in cset)
    && (forall i :: b <= i < |s| ==> s[i] == 0 || s[i] in cset)
    && (a < b ==> s[a] != 0 && s[a] !in cset && s[b - 1] != 0 && s[b - 1] !in cset)
  }

  lemma MiddleUnique(s: Bytes, cset: Bytes, a: nat, b: nat, c: nat, d: nat)
    requires Middle(s, cset, a, b) && Middle(s, cset, c, d)
    ensures s[a..b] == s[c..d]
  {
    if a < b {
      assert s[a] != 0 && s[a] !in cset && s[b - 1] != 0 && s[b - 1] !in cset;
    }
    if c < d {
      assert s[c] != 0 && s[c] !in cset && s[d - 1] != 0 && s[d - 1] !in cset;
    }
  }

  /** The length of a slice as the code computes it: an int, which wraps around for the whole
      range of non-negative indices, turned into a size_t. */
  function SliceLength(start: nat, end: nat): (r: nat)
    requires start <= end <= INT_MAX
    ensures r != 0 && (end - start < INT_MAX ==> r == end - start + 1)
  {
    var i := end - start + 1;
    (if i > INT_MAX then i - 0x1_0000_0000 else i) % WORD
  }

  class Sds {
    var len: int
    var free: int
    var buf: array<byte>
    // reallocations, and the longest length that one was made for, or the first length if that is longer
    ghost var grown: nat
    ghost var peak: nat

    ghost predicate Valid()
      reads this, buf
    {
      && 0 <= len && 0 <= free && len + free <= INT_MAX
      && buf.Length == len + free + 1 && buf[len] == NUL
      && Growth()
    }

    /** Capacity doubles with each reallocation, as long as requests are small. */
    ghost predicate Growth()
      reads this`len, this`free, this`grown, this`peak
    {
      peak < SDS_MAX_PREALLOC ==> 2 * Pow2(grown) <= len + free + 2 && len + free <= 2 * peak
    }

    ghost function Content(): Bytes
      requires 0 <= len <= buf.Length
      reads this`len, this`buf, buf
    {
      buf[..len]
    }

    /** sdsnewlen; zero bytes for a null pointer. */
    constructor (init: Option<Bytes>, initlen: nat)
      requires initlen <= INT_MAX && (init.Some? ==> initlen <= |init.value|)
      ensures Valid() && fresh(buf) && free == 0 && len == initlen
      ensures init.Some? ==> Content() == init.value[..initlen]
      ensures init.None? ==> forall i :: 0 <= i < initlen ==> Content()[i] == 0
    {
      var b := new byte[initlen + 1](i => if init.Some? && 0 <= i < initlen then init.value[i] else NUL);
      len, free, buf := initlen, 0, b;
      grown, peak := 0, initlen;
    }

    /** realloc of the buffer to n bytes, which keeps what fits. */
    method Realloc(n: nat)
      modifies this`buf, this`grown
      ensures fresh(buf) && buf.Length == n && forall i :: 0 <= i < n && i < old(buf.Length) ==> buf[i] == old(buf[i])
      ensures grown == old(grown) + 1
    {
      var b := new byte[n];
      forall i | 0 <= i < n && i < buf.Length {
        b[i] := buf[i];
      }
      buf := b;
      grown := grown + 1;
    }

    /** sdsMakeRoomFor */
    method MakeRoomFor(addlen: nat)
      requires Valid() && (addlen <= free || len + addlen <= LIMIT)
      modifies this`free, this`buf, this`grown, this`peak
      ensures Valid() && Content() == old(Content()) && free >= addlen
      ensures if old(free) >= addlen then
                buf == old(buf) && free == old(free) && grown == old(grown) && peak == old(peak)
              else
                && fresh(buf) && grown == old(grown) + 1
                && free == addlen + (if len + addlen < SDS_MAX_PREALLOC then len + addlen else SDS_MAX_PREALLOC)
                && (len + addlen < SDS_MAX_PREALLOC ==> len + free > 2 * (len + old(free)))
                && peak == if len + addlen > old(peak) then len + addlen else old(peak)
    {
      if free >= addlen {
        return;
      }
      var newlen := len + addlen;
      assert Pow2(grown + 1) == 2 * Pow2(grown);
      hide Pow2;
      peak := if newlen > peak then newlen else peak;
      if newlen < SDS_MAX_PREALLOC {
        newlen := newlen * 2;
      } else {
        newlen := newlen + SDS_MAX_PREALLOC;
      }
      Realloc(newlen + 1);
      free := newlen - len;
    }

    /** Overwrite buf[at..] with t: memcpy. */
    method Write(at: nat, t: Bytes)
      requires at + |t| <= buf.Length
      modifies buf
      ensures forall i :: at <= i < at + |t| ==> buf[i] == t[i - at]
      ensures forall i :: 0 <= i < buf.Length && !(at <= i < at + |t|) ==> buf[i] == old(buf[i])
    {
      forall i | 0 <= i < |t| {
        buf[at + i] := t[i];
      }
    }

    /** sdscatlen */
    method CatLen(t: Bytes)
      requires Valid() && (|t| <= free || len + |t| <= LIMIT)
      modifies this, buf
      ensures Valid() && Content() == old(Content()) + t && len == old(len) + |t|
      ensures if |t| <= old(free) then
                buf == old(buf) && grown == old(grown) && len + free == old(len + free) && peak == old(peak)
              else
                && fresh(buf) && grown == old(grown) + 1 && len + free > old(len + free)
                && (len < SDS_MAX_PREALLOC ==> len + free == 2 * len && len + free > 2 * old(len + free))
                && peak == if len > old(peak) then len else old(peak)
    {
      hide Pow2;
      var curlen := len;
      MakeRoomFor(|t|);
      ghost var was := buf[..curlen];
      Write(curlen, t);
      assert buf[..curlen + |t|] == was + t;
      len := curlen + |t|;
      free := free - |t|;
      buf[curlen + |t|] := NUL;
      assert buf[..len] == was + t;
    }

    /** sdscpylen */
    method CpyLen(t: Bytes)
      requires Valid() && (|t| <= len + free || |t| <= LIMIT)
      modifies this, buf
      ensures Valid() && Content() == t
      ensures if |t| <= old(len + free) then buf == old(buf) && grown == old(grown)
              else fresh(buf) && grown == old(grown) + 1
    {
      var totlen := free + len;
      if totlen < |t| {
        MakeRoomFor(|t| - len);
        totlen := free + len;
      }
      Write(0, t);
      buf[|t|] := NUL;
      len := |t|;
      free := totlen - |t|;
    }

    /** sdsgrowzero */
    method GrowZero(n: nat)
      requires Valid() && (n <= len + free || n <= LIMIT)
      modifies this, buf
      ensures Valid() && len == if n <= old(len) then old(len) else n
      ensures Content()[..old(len)] == old(Content()) && forall i :: old(len) <= i < len ==> Content()[i] == 0
      ensures if n <= old(len + free) then buf == old(buf) && grown == old(grown)
              else fresh(buf) && grown == old(grown) + 1
    {
      hide Pow2;
      var curlen := len;
      ghost var was := Content();
      if n <= curlen {
        assert Content()[..curlen] == was;
        return;
      }
      MakeRoomFor(n - curlen);
      var zeros := seq(n - curlen + 1, _ => NUL);
      assert buf[..curlen] == was;
      Write(curlen, zeros);
      assert buf[..n][..curlen] == was;
      var totlen := len + free;
      len := n;
      free := totlen - len;
    }

    /** sdsclear */
    method Clear()
      requires Valid()
      modifies this`len, this`free, buf
      ensures Valid() && Content() == [] && len + free == old(len + free)
    {
      free := free + len;
      len := 0;
      buf[0] := NUL;
    }

    /** sdsRemoveFreeSpace; doubling starts from here again. */
    method RemoveFreeSpace()
      requires Valid()
      modifies this`free, this`buf, this`grown, this`peak
      ensures Valid() && Content() == old(Content()) && free == 0 && fresh(buf) && grown == 0 && peak == len
    {
      Realloc(len + 1);
      free := 0;
      grown, peak := 0, len;
    }

    /** memmove within the buffer, to its front. */
    method MoveDown(from: nat, n: nat)
      requires from + n <= buf.Length
      modifies buf
      ensures buf[..n] == old(buf[from..from + n])
      ensures forall i :: n <= i < buf.Length ==> buf[i] == old(buf[i])
    {
      forall i | 0 <= i < n {
        buf[i] := buf[from + i];
      }
    }

    /** What sdstrim and sdsrange end with: keep n bytes from from on. */
    method Keep(from: nat, n: nat)
      requires Valid() && from + n <= len
      modifies this`len, this`free, buf
      ensures Valid() && Content() == old(Content()[from..from + n]) && len + free == old(len + free)
    {
      hide Pow2;
      ghost var kept := buf[from..from + n];
      assert kept == Content()[from..from + n];
      if from != 0 && n != 0 {
        MoveDown(from, n);
      } else if n == 0 {
        assert kept == [] == buf[..n];
      } else {
        assert kept == buf[..n];
      }
      buf[n] := NUL;
      assert buf[..n] == kept;
      free := free + (len - n);
      len := n;
    }

    /** The part of sdsrange in front of the copying: n bytes from from on are to stay. */
    method Bounds(start0: int, end0: int) returns (from: nat, n: nat)
      requires 0 < len <= INT_MAX && -INT_MAX - 1 <= start0 <= INT_MAX && -INT_MAX - 1 <= end0 <= INT_MAX
      ensures var a := if start0 >= 0 then start0 else if -start0 <= len then len + start0 else 0;
              var b := if end0 >= 0 then end0 else if -end0 <= len then len + end0 else 0;
              if a <= b && a < len then from == a && from + n == (if b < len then b + 1 else len) else n == 0
    {
      hide SliceLength;
      var start, end := start0, end0;
      if start < 0 {
        start := len + start;
        if start < 0 {
          start := 0;
        }
      }
      if end < 0 {
        end := len + end;
        if end < 0 {
          end := 0;
        }
      }
      var newlen := if start > end then 0 else SliceLength(start, end);
      if newlen != 0 {
        if start >= len {
          newlen := 0;
        } else if end >= len {
          end := len - 1;
          newlen := if start > end then 0 else SliceLength(start, end);
        }
      } else {
        start := 0;
      }
      from, n := start, newlen;
    }

    /** sdsrange */
    method Range(start: int, end: int)
      requires Valid() && -INT_MAX - 1 <= start <= INT_MAX && -INT_MAX - 1 <= end <= INT_MAX
      modifies this`len, this`free, buf
      ensures Valid() && len + free == old(len + free)
      ensures var a := if start >= 0 then start else if -start <= old(len) then old(len) + start else 0;
              var b := if end >= 0 then end else if -end <= old(len) then old(len) + end else 0;
              Content() == if a <= b && a < old(len) then old(Content())[a..if b < old(len) then b + 1 else old(len)]
                           else []
    {
      hide Growth;
      if len == 0 {
        return;
      }
      var from, n := Bounds(start, end);
      Keep(if n == 0 then 0 else from, n);
    }

    /** sdstrim */
    method Trim(cset: Bytes) returns (ghost a: nat, ghost b: nat)
      requires Valid()
      modifies this`len, this`free, buf
      ensures Valid() && len + free == old(len + free)
      ensures Middle(old(Content()), cset, a, b) && Content() == old(Content())[a..b]
    {
      var end := len - 1;
      var sp, ep := 0, end;
      while sp <= end && InSet(buf[sp], cset)
        invariant 0 <= sp <= len && forall i :: 0 <= i < sp ==> buf[i] == 0 || buf[i] in cset
      {
        sp := sp + 1;
      }
      while ep > 0 && InSet(buf[ep], cset)
        invariant -1 <= ep <= end && (len > 0 ==> ep >= 0)
        invariant forall i :: ep < i < len ==> buf[i] == 0 || buf[i] in cset
      {
        ep := ep - 1;
      }
      var newlen := if sp > ep then 0 else ep - sp + 1;
      a, b := sp, sp + newlen;
      Keep(if newlen == 0 then 0 else sp, newlen);
    }

    /** What growing costs: since creation, or since free space was last given up, there have
        been at most log2(n + 1) reallocations, if n is the longest length that one was made
        for (or the length at the start, if longer) and below SDS_MAX_PREALLOC. */
    lemma FewReallocations()
      requires Valid() && peak < SDS_MAX_PREALLOC
      ensures Pow2(grown) <= peak + 1
    {}

    /** The switch of sdscatrepr; the formats %c and \x%02x of sdscatprintf are appended as they
        come out. */
    method CatEscaped(c: byte, isPrint: byte -> bool)
      requires Valid() && (|Escaped(c, isPrint)| <= free || len + |Escaped(c, isPrint)| <= LIMIT)
      modifies this, buf
      ensures Valid() && Content() == old(Content()) + Escaped(c, isPrint) && (buf == old(buf) || fresh(buf))
      ensures len + free >= old(len + free)
    {
      hide Growth;
      if c == BACKSLASH || c == QUOTE {
        CatLen([BACKSLASH, c]);
      } else if c == NEWLINE {
        CatLen([BACKSLASH, LOWER_N]);
      } else if c == RETURN {
        CatLen([BACKSLASH, LOWER_R]);
      } else if c == TAB {
        CatLen([BACKSLASH, LOWER_T]);
      } else if c == BELL {
        CatLen([BACKSLASH, LOWER_A]);
      } else if c == BACKSPACE {
        CatLen([BACKSLASH, LOWER_B]);
      } else if isPrint(c) {
        CatLen([c]);
      } else {
        CatLen([BACKSLASH, LOWER_X, HexDigit(c / 16), HexDigit(c % 16)]);
      }
    }

    /** sdscatrepr; units are the bytes of p, each spelled in its way. */
    method CatRepr(p: Bytes, isPrint: byte -> bool) returns (ghost units: seq<Unit>)
      requires Valid() && (|Quoted(p, isPrint)| <= free || len + |Quoted(p, isPrint)| <= LIMIT)
      modifies this, buf
      ensures Valid() && Content() == old(Content()) + Quoted(p, isPrint) && (buf == old(buf) || fresh(buf))
      ensures AllSpelled(p, units, isPrint) && Meaning(units) == p
      ensures Content() == old(Content()) + [34] + Text(units) + [34]
    {
      units := PrintedAs(p, isPrint);
      hide Escaped, Growth, EscapedAll, Quoted, Text, Meaning, AllSpelled;
      ghost var was := Content();
      QuotedLength(p, 0, isPrint);
      CatLen([QUOTE]);
      var i := 0;
      NothingYet(was, p, isPrint);
      while i < |p|
        invariant i <= |p| && Valid() && (buf == old(buf) || fresh(buf)) && len + free >= old(len + free)
        invariant Content() == was + [QUOTE] + EscapedAll(p[..i], isPrint)
      {
        QuotedLength(p, i, isPrint);
        EscapedNext(was + [QUOTE], p, i, isPrint);
        CatEscaped(p[i], isPrint);
        i := i + 1;
      }
      assert p[..i] == p;
      QuotedLength(p, i, isPrint);
      CatLen([QUOTE]);
      QuotedIs(was, p, isPrint);
      assert was + ([34] + Text(units) + [34]) == was + [34] + Text(units) + [34];
    }
  }

  lemma {:induction false} EscapedAllNext(p: Bytes, i: nat, isPrint: byte -> bool)
    requires i < |p|
    ensures EscapedAll(p[..i + 1], isPrint) == EscapedAll(p[..i], isPrint) + Escaped(p[i], isPrint)
  {
    hide Escaped;
    if i == 0 {
      assert p[..1] == [p[0]];
    } else {
      EscapedAllNext(p[1..], i - 1, isPrint);
      assert p[..i + 1][1..] == p[1..][..i] && p[..i][1..] == p[1..][..i - 1];
    }
  }

  lemma EscapedNext(was: Bytes, p: Bytes, i: nat, isPrint: byte -> bool)
    requires i < |p|
    ensures was + EscapedAll(p[..i], isPrint) + Escaped(p[i], isPrint) == was + EscapedAll(p[..i + 1], isPrint)
  {
    EscapedAllNext(p, i, isPrint);
  }

  lemma NothingYet(was: Bytes, p: Bytes, isPrint: byte -> bool)
    ensures was + [QUOTE] + EscapedAll(p[..0], isPrint) == was + [QUOTE]
  {}

  lemma QuotedIs(was: Bytes, p: Bytes, isPrint: byte -> bool)
    ensures was + [QUOTE] + EscapedAll(p, isPrint) + [QUOTE] == was + Quoted(p, isPrint)
  {}

  lemma {:induction false} QuotedLength(p: Bytes, i: nat, isPrint: byte -> bool)
    requires i <= |p|
    ensures |EscapedAll(p[..i], isPrint)| + (if i < |p| then |Escaped(p[i], isPrint)| else 0) + 2 <=
            |Quoted(p, isPrint)|
    decreases |p| - i
  {
    hide Escaped, EscapedAll;
    if i < |p| {
      EscapedAllNext(p, i, isPrint);
      QuotedLength(p, i + 1, isPrint);
    } else {
      assert p[..i] == p;
    }
  }

  /** sdsjoinsds */
  method JoinAll(argv: seq<Bytes>, sep: Bytes) returns (join: Sds)
    requires |Join(argv, sep)| <= LIMIT
    ensures fresh(join) && fresh(join.buf) && join.Valid() && join.Content() == Join(argv, sep)
  {
    join := new Sds(Some([]), 0);
    var j := 0;
    while j < |argv|
      invariant j <= |argv| && fresh(join) && fresh(join.buf) && join.Valid()
      invariant join.Content() + Join(argv[j..], sep) == Join(argv, sep)
    {
      JoinNext(join.Content(), argv, j, sep);
      join.CatLen(argv[j]);
      if j != |argv| - 1 {
        join.CatLen(sep);
      }
      j := j + 1;
    }
  }

  lemma JoinNext(done: Bytes, argv: seq<Bytes>, j: nat, sep: Bytes)
    requires j < |argv|
    ensures done + Join(argv[j..], sep) ==
            done + argv[j] + (if j == |argv| - 1 then [] else sep) + Join(argv[j + 1..], sep)
  {
    var rest := argv[j..];
    assert rest[1..] == argv[j + 1..];
  }
}
