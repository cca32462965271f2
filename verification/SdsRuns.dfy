/** Printing a list with src/nc_sds.c and parsing what was printed. */
module NcSdsRuns {
  import opened NcSds
  import opened Options
  import opened SdsArgs
  import opened SdsSplit
  import opened SdsText
  import opened Words

  lemma {:induction false} QuotedFits(args: seq<Bytes>, isPrint: byte -> bool, i: nat)
    requires i < |args|
    ensures |Quoted(args[i], isPrint)| <= |Line(args, isPrint)|
  {
    hide Quoted;
    if i > 0 {
      QuotedFits(args[1..], isPrint, i - 1);
    }
  }

  lemma {:induction false} QuotedNext(args: seq<Bytes>, isPrint: byte -> bool, i: nat)
    requires i < |args|
    ensures QuotedEach(args[..i + 1], isPrint) == QuotedEach(args[..i], isPrint) + [Quoted(args[i], isPrint)]
  {
    hide Quoted;
    if i == 0 {
      assert args[..1] == [args[0]];
    } else {
      QuotedNext(args[1..], isPrint, i - 1);
      assert args[..i + 1][1..] == args[1..][..i] && args[..i][1..] == args[1..][..i - 1];
    }
  }

  /** sdscatrepr for each string, into a new one. */
  method QuoteAll(args: seq<Bytes>, isPrint: byte -> bool) returns (quoted: seq<Bytes>)
    requires |Line(args, isPrint)| <= LIMIT
    ensures quoted == QuotedEach(args, isPrint)
  {
    hide Quoted, Line, QuotedEach;
    quoted := [];
    assert args[..0] == [] && QuotedEach([], isPrint) == [] by { NoneQuoted(isPrint); }
    for i := 0 to |args|
      invariant quoted == QuotedEach(args[..i], isPrint)
    {
      QuotedFits(args, isPrint, i);
      QuotedNext(args, isPrint, i);
      var s := new Sds(Some([]), 0);
      ghost var units := s.CatRepr(args[i], isPrint);
      assert s.Content() == [] + Quoted(args[i], isPrint) == Quoted(args[i], isPrint);
      quoted := quoted + [s.buf[..s.len]];
    }
    assert args[..|args|] == args;
  }

  lemma NoneQuoted(isPrint: byte -> bool)
    ensures QuotedEach([], isPrint) == []
  {}

  /** Print each string, join with spaces, parse the buffer: the list is back. */
  method PrintAndParse(args: seq<Bytes>, isPrint: byte -> bool) returns (r: Option<seq<Bytes>>)
    requires |Line(args, isPrint)| <= LIMIT && !isPrint(NUL)
    ensures r == Some(args)
  {
    hide Quoted, Line, QuotedEach, Join, Args, Rest;
    LineIsJoin(args, isPrint);
    LineIsCString(args, isPrint);
    var quoted := QuoteAll(args, isPrint);
    var join := JoinAll(quoted, [SPACE]);
    var line := join.buf[..join.len + 1];
    assert line == join.Content() + [NUL];
    ghost var good, bad;
    r, good, bad := SplitArgs(line);
  }

  // ---- runs of appends

  ghost function Concat(ts: seq<Bytes>): Bytes {
    if ts == [] then [] else Concat(ts[..|ts| - 1]) + ts[|ts| - 1]
  }

  lemma {:induction false} ConcatLength(ts: seq<Bytes>, i: nat)
    requires i <= |ts|
    ensures |Concat(ts[..i])| <= |Concat(ts)|
    decreases |ts| - i
  {
    if i < |ts| {
      ConcatLength(ts, i + 1);
      ConcatNext(ts, i);
    } else {
      assert ts[..i] == ts;
    }
  }

  lemma ConcatNext(ts: seq<Bytes>, i: nat)
    requires i < |ts|
    ensures Concat(ts[..i + 1]) == Concat(ts[..i]) + ts[i]
  {
    assert ts[..i + 1][..i] == ts[..i];
  }

  /** After r reallocations, each of which more than doubled the room. */
  ghost predicate Doubled(room: nat, r: nat, now: nat) {
    Pow2(r) * (room + 1) <= now + 1
  }

  lemma DoubledAgain(room: nat, r: nat, was: nat, now: nat)
    requires Doubled(room, r, was) && now > 2 * was
    ensures Doubled(room, r + 1, now)
  {
    Assoc(2, Pow2(r), room + 1);
    assert Pow2(r + 1) == 2 * Pow2(r);
  }

  /** How much r reallocations have made of the room, and what is in use of it. */
  ghost predicate Paid(room: nat, r: nat, now: nat, used: nat) {
    && (used < SDS_MAX_PREALLOC ==> Doubled(room, r, now) && (r > 0 ==> now <= 2 * used))
    && room <= now && (if r == 0 then now == room else used > room)
  }

  lemma PaidMore(room: nat, r: nat, now: nat, used: nat, n: nat, r': nat, now': nat)
    requires Paid(room, r, now, used) && used <= now
    requires if n <= now - used then r' == r && now' == now
             else r' == r + 1 && now' > now
                  && (used + n < SDS_MAX_PREALLOC ==> now' == 2 * (used + n) && now' > 2 * now)
    ensures Paid(room, r', now', used + n)
  {
    hide Doubled;
    if n > now - used && used + n < SDS_MAX_PREALLOC { DoubledAgain(room, r, now, now'); }
  }

  /** sdscatlen for one string after the other. What comes out, and what it costs: from room
      for c bytes to n bytes, 2^r times c + 1 is at most 2n + 1 if it took r > 0 reallocations. */
  method AppendAll(s: Sds, ts: seq<Bytes>)
    requires s.Valid() && s.len + |Concat(ts)| <= LIMIT
    modifies s, s.buf
    ensures s.Valid() && s.Content() == old(s.Content()) + Concat(ts) && s.grown >= old(s.grown)
    ensures s.grown > old(s.grown) && s.len < SDS_MAX_PREALLOC ==>
              Pow2(s.grown - old(s.grown)) * (old(s.len + s.free) + 1) <= 2 * s.len + 1
    ensures s.grown == old(s.grown) <==> |Concat(ts)| <= old(s.free)
  {
    hide Sds.Growth, Concat, Paid;
    ghost var room := s.len + s.free;
    assert ts[..0] == [] && Concat([]) == [] && Paid(room, 0, room, s.len) by { NothingAppended(room, s.len); }
    for i := 0 to |ts|
      invariant s.Valid() && (s.buf == old(s.buf) || fresh(s.buf)) && s.grown >= old(s.grown)
      invariant s.len == old(s.len) + |Concat(ts[..i])| && s.Content() == old(s.Content()) + Concat(ts[..i])
      invariant Paid(room, s.grown - old(s.grown), s.len + s.free, s.len)
    {
      ConcatNext(ts, i);
      ConcatLength(ts, i + 1);
      ghost var was, used, grown, before := s.len + s.free, s.len, s.grown, s.Content();
      s.CatLen(ts[i]);
      assert before + ts[i] == old(s.Content()) + (Concat(ts[..i]) + ts[i]);
      PaidMore(room, grown - old(s.grown), was, used, |ts[i]|, s.grown - old(s.grown), s.len + s.free);
    }
    assert ts[..|ts|] == ts;
    Unwrap(room, s.grown - old(s.grown), s.len + s.free, s.len);
  }

  lemma NothingAppended(room: nat, used: nat)
    ensures Concat([]) == [] && Paid(room, 0, room, used)
  {}

  lemma Unwrap(room: nat, r: nat, now: nat, used: nat)
    requires Paid(room, r, now, used) && used <= now
    ensures r > 0 && used < SDS_MAX_PREALLOC ==> Pow2(r) * (room + 1) <= 2 * used + 1
    ensures r == 0 <==> used <= room
  {
    hide Pow2;
  }
}
