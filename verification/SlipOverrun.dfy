/**
 What os/dev/slip.c does after a byte has found the ring full, and after other input that leaves
 more in the ring than packets: which packets still come out, and what the next one is glued to.
 */
module SlipOverrun {
  import opened Arithmetic
  import opened Octets
  import opened SlipCode
  import opened SlipRead
  import opened SlipRing

  /** The slot before `begin`, in which nothing is stored. */
  ghost function SlotBefore(n: nat, begin: nat): (r: nat)
    requires begin < n
  {
    if begin == 0 then n - 1 else begin - 1
  }

  /**
   The ring after a byte that found it full, with the packets `queue` and `partial` in it.  The
   indices enclose the first packet without its END, but nothing is erased: behind that END lie the
   other packets, `partial`, the one slot that is never used, and the first packet once more.
   */
  ghost predicate Overrun(rx: Receiver, queue: seq<Bytes>, partial: Bytes, stale: Byte)
    reads rx, rx.rxbuf
  {
    && rx.Bounds() && rx.state == Rubbish && rx.nextFree == rx.pktEnd
    && rx.rxbuf[SlotBefore(rx.rxbuf.Length, rx.begin)] == stale
    && if queue == [] then rx.begin == rx.pktEnd
       else
         && rx.begin != rx.pktEnd && rx.Frame() == Stuff(queue[0])
         && Content(rx.rxbuf[..], Wrap(rx.rxbuf.Length, rx.pktEnd + 1), rx.pktEnd)
            == Encode(queue[1..]) + Junk(queue, partial, stale)
  }

  /** What is left in the ring when the packets have been polled. */
  ghost function Junk(queue: seq<Bytes>, partial: Bytes, stale: Byte): (r: Bytes)
  {
    if queue == [] then [] else partial + [stale] + Stuff(queue[0])
  }

  /** Once round a full ring, from behind the first packet. */
  lemma RoundTheRing(buf: Bytes, begin: nat, nextFree: nat, pktEnd: nat, queue: seq<Bytes>, partial: Bytes)
    requires Holds(buf, begin, nextFree, pktEnd, queue, partial) && queue != []
    requires Wrap(|buf|, nextFree + 1) == begin
    ensures pktEnd < |buf| && Wrap(|buf|, pktEnd + 1) < |buf|
    ensures Content(buf, Wrap(|buf|, pktEnd + 1), pktEnd) == Encode(queue[1..]) + Junk(queue, partial, buf[nextFree])
  {
    hide Encode; hide Stuff; hide Holds; hide Content; hide Wrap; hide Legal;
    HoldsFirst(buf, begin, nextFree, pktEnd, queue, partial);
    HoldsTake(buf, begin, nextFree, pktEnd, queue, partial);
    HoldsAt(buf, begin, nextFree, pktEnd, queue, partial);
    WrapWithin(|buf|, pktEnd + 1);
    var rest := Encode(queue[1..]) + partial;
    RoundAt(buf, begin, nextFree, |Stuff(queue[0])|, rest, Stuff(queue[0]));
    assert Encode(queue[1..]) + Junk(queue, partial, buf[nextFree]) == rest + [buf[nextFree]] + Stuff(queue[0]);
  }

  lemma WrapWithin(n: nat, x: nat)
    requires x < 2 * n
    ensures Wrap(n, x) < n
  {
  }

  lemma HoldsAt(buf: Bytes, begin: nat, nextFree: nat, pktEnd: nat, queue: seq<Bytes>, partial: Bytes)
    requires Holds(buf, begin, nextFree, pktEnd, queue, partial) && queue != []
    ensures begin < |buf| && nextFree < |buf| && pktEnd == Wrap(|buf|, begin + |Stuff(queue[0])|)
  {
    hide Encode; hide Stuff; hide Legal; hide Content;
  }

  lemma RoundAt(buf: Bytes, begin: nat, nextFree: nat, k: nat, rest: Bytes, s: Bytes)
    requires begin < |buf| && nextFree < |buf| && Wrap(|buf|, nextFree + 1) == begin
    requires |s| == k < |Content(buf, begin, nextFree)| && Content(buf, begin, nextFree)[..k] == s
    requires Wrap(|buf|, Wrap(|buf|, begin + k) + 1) < |buf| && Wrap(|buf|, begin + k) < |buf|
    requires Content(buf, Wrap(|buf|, Wrap(|buf|, begin + k) + 1), nextFree) == rest
    ensures Content(buf, Wrap(|buf|, Wrap(|buf|, begin + k) + 1), Wrap(|buf|, begin + k)) == rest + [buf[nextFree]] + s
  {
    var c, e := Content(buf, begin, nextFree), Wrap(|buf|, begin + k);
    var round, b := Content(buf, Wrap(|buf|, e + 1), e), Wrap(|buf|, e + 1);
    assert |round| == |rest| + 1 + |s|;
    forall i | 0 <= i < |round|
      ensures round[i] == (rest + [buf[nextFree]] + s)[i]
    {
      if i > |rest| {
        assert s[i - |rest| - 1] == c[i - |rest| - 1];
      } else if i < |rest| {
        assert rest[i] == buf[Wrap(|buf|, b + i)];
      }
    }
  }

  // ------------------------------------------------------------- any leftovers

  /** The ring holds `rest`, whatever it is, and pkt_end is at its first END. */
  ghost predicate Leftover(rx: Receiver, rest: Bytes)
    reads rx, rx.rxbuf
  {
    rx.Bounds() && rx.Buffered() == rest && rx.pktEnd == EndOf(rx.rxbuf.Length, rx.begin, rest)
  }

  /** No poll takes a packet from `rest`: there is no END in it, or nothing before the first one. */
  ghost predicate Stuck(rest: Bytes)
  {
    EndIndex(rest) == 0 || EndIndex(rest) == |rest|
  }

  lemma LeftoverFrame(rx: Receiver, rest: Bytes)
    requires Leftover(rx, rest)
    ensures rx.begin == rx.pktEnd <==> Stuck(rest)
    ensures !Stuck(rest) ==>
              && rx.Frame() == rest[..EndIndex(rest)]
              && Content(rx.rxbuf[..], Wrap(rx.rxbuf.Length, rx.pktEnd + 1), rx.nextFree) == rest[EndIndex(rest) + 1..]
  {
    var i := EndIndex(rest);
    if !Stuck(rest) {
      ContentDrop(rx.rxbuf[..], rx.begin, rx.nextFree, i + 1);
      assert forall j :: 0 <= j < i ==> rx.Frame()[j] == rest[j];
    }
  }

  /** A poll takes what comes before the first END, if anything does. */
  method PollLeft(rx: Receiver, ghost rest: Bytes, outbuf: array<Byte>) returns (len: int)
    requires Leftover(rx, rest) && outbuf != rx.rxbuf
    requires !Stuck(rest) ==> |Out(rest[..EndIndex(rest)])| <= outbuf.Length
    modifies rx, outbuf
    ensures Leftover(rx, if Stuck(rest) then rest else rest[EndIndex(rest) + 1..])
    ensures if Stuck(rest) then len == 0
            else len == |Out(rest[..EndIndex(rest)])| <= outbuf.Length && outbuf[..len] == Out(rest[..EndIndex(rest)])
    ensures rx.state == old(rx.state) && rx.nextFree == old(rx.nextFree)
  {
    hide Content; hide Decode; hide IsRead; hide EndOf;
    ghost var out0, k := outbuf[..], rx.FirstPiece();
    LeftoverFrame(rx, rest);
    if !Stuck(rest) {
      MostShort(Out(rest[..EndIndex(rest)]), outbuf.Length + 1);
    }
    len := rx.PollHandler(outbuf, outbuf.Length);
    if !Stuck(rest) {
      ReadWhole(out0, rest[..EndIndex(rest)], k, outbuf.Length, len, outbuf[..]);
    }
  }

  // ---------------------------------------------------- polls after an overflow

  /** After the overflow: a byte that is skipped, or a poll. */
  datatype After = Skip(c: Byte) | PollAgain

  function Polls(steps: seq<After>): (r: nat)
  {
    if steps == [] then 0 else Polls(steps[..|steps| - 1]) + if steps[|steps| - 1].PollAgain? then 1 else 0
  }

  lemma {:induction false} PollsSoFar(steps: seq<After>, n: nat)
    requires n <= |steps|
    ensures Polls(steps[..n]) <= Polls(steps)
    decreases |steps|
  {
    if n < |steps| {
      var before := steps[..|steps| - 1];
      PollsSoFar(before, n);
      assert before[..n] == steps[..n];
    } else {
      assert steps[..n] == steps;
    }
  }

  /** After `m` polls. */
  ghost predicate Draining(rx: Receiver, queue: seq<Bytes>, partial: Bytes, stale: Byte, m: nat)
    requires m <= |queue|
    reads rx, rx.rxbuf
  {
    && rx.state == Rubbish
    && if m == 0 then Overrun(rx, queue, partial, stale)
       else Leftover(rx, Encode(queue[m..]) + Junk(queue, partial, stale))
  }

  /** The first END behind packets is that of the first of them. */
  lemma NextOfQueue(queue: seq<Bytes>, m: nat, junk: Bytes)
    requires m < |queue| && queue[m] != []
    ensures var rest, s := Encode(queue[m..]) + junk, Stuff(queue[m]);
            && s != [] && EndIndex(rest) == |s| && |s| < |rest| && rest[..|s|] == s
            && rest[|s| + 1..] == Encode(queue[m + 1..]) + junk && Out(s) == queue[m]
  {
    var q, s := queue[m..], Stuff(queue[m]);
    StuffLegal(queue[m]);
    FrameOut(queue[m]);
    EncodeHead(q, junk);
    assert q[0] == queue[m] && q[1..] == queue[m + 1..];
    hide Encode; hide Stuff; hide Decode;
    TakeApart(Encode(q) + junk, s, Encode(q[1..]) + junk);
    var rest := Encode(q) + junk;
    assert rest == s + [END] + (Encode(q[1..]) + junk);
    assert rest[|s|] == END;
    EndIndexIs(rest, |s|);
  }

  /** One poll hands over the next packet of the queue. */
  method DrainOne(rx: Receiver, outbuf: array<Byte>, ghost queue: seq<Bytes>, ghost partial: Bytes, ghost stale: Byte,
                  ghost m: nat)
    returns (len: int)
    requires m < |queue| && Draining(rx, queue, partial, stale, m) && outbuf != rx.rxbuf
    requires 0 < |queue[m]| <= outbuf.Length
    modifies rx, outbuf
    ensures Draining(rx, queue, partial, stale, m + 1)
    ensures len == |queue[m]| <= outbuf.Length && outbuf[..len] == queue[m]
  {
    hide Content; hide Decode; hide IsRead; hide EndOf; hide Encode; hide Stuff; hide Junk; hide Wrap; hide Overrun;
    DrainNext(rx, queue, partial, stale, m);
    ghost var out0, k := outbuf[..], rx.FirstPiece();
    MostShort(queue[m], outbuf.Length + 1);
    len := rx.PollHandler(outbuf, outbuf.Length);
    ReadWhole(out0, Stuff(queue[m]), k, outbuf.Length, len, outbuf[..]);
  }

  /** What the poll takes, and what it leaves. */
  lemma DrainNext(rx: Receiver, queue: seq<Bytes>, partial: Bytes, stale: Byte, m: nat)
    requires m < |queue| && queue[m] != [] && Draining(rx, queue, partial, stale, m)
    ensures rx.Bounds() && rx.begin != rx.pktEnd && rx.Frame() == Stuff(queue[m]) && Out(Stuff(queue[m])) == queue[m]
    ensures Wrap(rx.rxbuf.Length, rx.pktEnd + 1) < rx.rxbuf.Length
    ensures Content(rx.rxbuf[..], Wrap(rx.rxbuf.Length, rx.pktEnd + 1), rx.nextFree)
            == Encode(queue[m + 1..]) + Junk(queue, partial, stale)
  {
    hide Content; hide Decode; hide EndOf; hide Encode; hide Stuff; hide Junk;
    NextOfQueue(queue, m, Junk(queue, partial, stale));
    if m > 0 {
      LeftoverFrame(rx, Encode(queue[m..]) + Junk(queue, partial, stale));
    }
  }

  /**
   As long as no byte is stored after the overflow, the polls hand over every packet that was
   waiting, in order; then the junk is left.
   */
  method PollAfterOverrun(rx: Receiver, steps: seq<After>, outbuf: array<Byte>, ghost queue: seq<Bytes>,
                          ghost partial: Bytes, ghost stale: Byte)
    returns (got: seq<Bytes>)
    requires Overrun(rx, queue, partial, stale) && outbuf != rx.rxbuf
    requires forall p :: p in queue ==> 0 < |p| <= outbuf.Length
    requires (forall i :: 0 <= i < |steps| ==> steps[i] != Skip(END)) && Polls(steps) <= |queue|
    modifies rx, rx.rxbuf, outbuf
    ensures got == queue[..Polls(steps)] && rx.state == Rubbish && rx.rxbuf[..] == old(rx.rxbuf[..])
    ensures Polls(steps) == |queue| ==> Leftover(rx, Junk(queue, partial, stale))
  {
    hide Content; hide Encode; hide Stuff; hide Junk; hide Overrun; hide Leftover;
    OverrunSkips(rx, queue, partial, stale);
    got := [];
    ghost var m: nat := 0;
    assert steps[..0] == [];
    for i := 0 to |steps|
      invariant m == Polls(steps[..i]) <= |queue| && Draining(rx, queue, partial, stale, m)
      invariant got == queue[..m] && rx.rxbuf[..] == old(rx.rxbuf[..])
    {
      PollsSoFar(steps, i + 1);
      assert steps[..i + 1][..i] == steps[..i];
      match steps[i] {
      case Skip(c) =>
        SkipByte(rx, c, queue, partial, stale, m);
      case PollAgain =>
        assert queue[m] in queue;
        ghost var buf0 := rx.rxbuf[..];
        var len := DrainOne(rx, outbuf, queue, partial, stale, m);
        assert rx.rxbuf[..] == buf0;
        got := got + [outbuf[..len]];
        m := m + 1;
      }
    }
    assert steps[..|steps|] == steps;
    if m == |queue| {
      Drained(rx, queue, partial, stale);
    }
  }

  lemma OverrunSkips(rx: Receiver, queue: seq<Bytes>, partial: Bytes, stale: Byte)
    requires Overrun(rx, queue, partial, stale)
    ensures Draining(rx, queue, partial, stale, 0)
  {
    hide Content; hide Encode; hide Stuff; hide Junk;
  }

  method SkipByte(rx: Receiver, c: Byte, ghost queue: seq<Bytes>, ghost partial: Bytes, ghost stale: Byte, ghost m: nat)
    requires m <= |queue| && Draining(rx, queue, partial, stale, m) && c != END
    modifies rx, rx.rxbuf
    ensures Draining(rx, queue, partial, stale, m) && rx.rxbuf[..] == old(rx.rxbuf[..])
  {
    hide Content; hide Encode; hide Stuff; hide Junk; hide EndOf;
    var _ := rx.InputByte(c);
  }

  lemma Drained(rx: Receiver, queue: seq<Bytes>, partial: Bytes, stale: Byte)
    requires Draining(rx, queue, partial, stale, |queue|)
    ensures Leftover(rx, Junk(queue, partial, stale))
  {
    assert Encode(queue[|queue|..]) + Junk(queue, partial, stale) == Junk(queue, partial, stale);
    if queue == [] {
      assert rx.Buffered() == [];
    }
  }

  // ---------------------------------------------------------- the packet after

  /** The bytes of a packet and its END arrive behind `glue`. */
  method FeedBehind(rx: Receiver, ghost glue: Bytes, s: Bytes)
    requires Leftover(rx, glue) && Stuck(glue) && rx.state == Ok
    requires Legal(s) && !Pending(s) && glue + s != [] && |glue| + |s| + 1 < rx.rxbuf.Length
    modifies rx, rx.rxbuf
    ensures rx.Bounds() && rx.state == Ok && rx.begin == old(rx.begin) && rx.Buffered() == glue + s + [END]
    ensures rx.begin != rx.pktEnd && rx.Frame() == glue + s && Wrap(rx.rxbuf.Length, rx.pktEnd + 1) == rx.nextFree
  {
    hide Content; hide Legal;
    LeftoverFrame(rx, glue);
    ghost var b := rx.begin;
    assert glue + s[..0] == glue;
    for i := 0 to |s|
      invariant rx.Bounds() && rx.begin == rx.pktEnd == b && rx.Buffered() == glue + s[..i]
      invariant rx.state == if Pending(s[..i]) then Esc else Ok
    {
      LegalAt(s, i);
      assert s[..i + 1] == s[..i] + [s[i]];
      StoreOne(rx, s[i]);
    }
    assert s[..|s|] == s;
    ghost var at := rx.nextFree;
    assert |rx.Buffered()| > 0;
    StoreOne(rx, END);
    assert rx.Frame() == glue + s by {
      EndStored(rx.rxbuf[..], b, at, glue + s);
    }
  }

  lemma LegalAt(s: Bytes, i: nat)
    requires Legal(s) && i < |s|
    ensures s[i] != END && (Pending(s[..i]) ==> s[i] == ESC_END || s[i] == ESC_ESC)
    ensures Pending(s[..i + 1]) == (s[i] == ESC)
  {
    if Pending(s[..i]) {
      assert s[i - 1] == ESC;
    }
  }

  lemma EndStored(buf: Bytes, begin: nat, at: nat, c: Bytes)
    requires begin < |buf| && at < |buf| && Wrap(|buf|, at + 1) != begin
    requires Content(buf, begin, Wrap(|buf|, at + 1)) == c + [END]
    ensures Content(buf, begin, at) == c
  {
    assert forall i :: 0 <= i < |c| ==> Content(buf, begin, at)[i] == (c + [END])[i];
  }

  /** A byte for which there is room goes to the end of what is buffered. */
  method StoreOne(rx: Receiver, c: Byte)
    requires rx.Bounds() && rx.Accepts(c) && (c == END ==> rx.nextFree != rx.pktEnd)
    modifies rx, rx.rxbuf
    ensures rx.Bounds() && rx.begin == old(rx.begin) && rx.Buffered() == old(rx.Buffered()) + [c]
    ensures rx.nextFree == Wrap(rx.rxbuf.Length, old(rx.nextFree) + 1)
    ensures rx.pktEnd == if c == END && old(rx.begin) == old(rx.pktEnd) then old(rx.nextFree) else old(rx.pktEnd)
    ensures rx.state == if c == ESC then Esc else if old(rx.state) == Esc then Ok else old(rx.state)
    ensures rx.rxbuf[..] == old(rx.rxbuf[..])[old(rx.nextFree) := c]
  {
    hide Content;
    ContentPush(rx.rxbuf[..], rx.begin, rx.nextFree, c);
    var _ := rx.InputByte(c);
  }

  /** While packets are waiting, the bytes of another are stored behind all there is. */
  method FeedWaiting(rx: Receiver, ghost rest: Bytes, s: Bytes)
    requires Leftover(rx, rest) && !Stuck(rest) && rx.state == Ok
    requires Legal(s) && !Pending(s) && |rest| + |s| + 1 < rx.rxbuf.Length
    modifies rx, rx.rxbuf
    ensures Leftover(rx, rest + s + [END]) && !Stuck(rest + s + [END]) && rx.state == Ok
    ensures EndIndex(rest + s + [END]) == EndIndex(rest)
  {
    hide Content; hide Legal; hide Stored; hide Pending; hide Wrap; hide Used; hide EndOf; hide Stuck;
    NothingLeft([0], 0);
    WaitingIndices(rx, rest);
    ghost var b, e := rx.begin, rx.pktEnd;
    assert rest + s[..0] == rest;
    for i := 0 to |s|
      invariant rx.Bounds() && rx.begin == b && rx.pktEnd == e && rx.Buffered() == rest + s[..i]
      invariant rx.state == if Pending(s[..i]) then Esc else Ok
    {
      LegalAt(s, i);
      assert s[..i + 1] == s[..i] + [s[i]];
      HasRoom(rx);
      StoreOne(rx, s[i]);
    }
    assert s[..|s|] == s;
    HasRoom(rx);
    assert rx.nextFree != e;
    StoreOne(rx, END);
    MoreBehind(rx.rxbuf.Length, b, rest, s + [END]);
    assert rest + s + [END] == rest + (s + [END]);
  }

  lemma WaitingIndices(rx: Receiver, rest: Bytes)
    requires Leftover(rx, rest) && !Stuck(rest)
    ensures rx.begin != rx.pktEnd && Used(rx.rxbuf.Length, rx.begin, rx.pktEnd) < |rest|
  {
    LeftoverFrame(rx, rest);
    assert |rx.Frame()| == EndIndex(rest);
  }

  lemma MoreBehind(n: nat, begin: nat, rest: Bytes, t: Bytes)
    requires !Stuck(rest)
    ensures EndIndex(rest + t) == EndIndex(rest) && !Stuck(rest + t)
          && EndOf(n, begin, rest + t) == EndOf(n, begin, rest)
  {
    var i := EndIndex(rest);
    assert (rest + t)[..i] == rest[..i];
    EndIndexIs(rest + t, i);
  }

  /** What comes out of a packet that is stored behind `glue`. */
  lemma OutBehind(glue: Bytes, q: Bytes)
    ensures !InEsc(glue) ==> Out(glue + Stuff(q)) == Out(glue) + q
  {
    hide Decode; hide Stuff;
    FrameOut(q);
    if !InEsc(glue) {
      Joined(glue, Stuff(q));
    }
  }

  /** The next packet is handed over as one with the bytes it is stored behind, and then the ring is clean. */
  method NextBehind(rx: Receiver, ghost glue: Bytes, q: Bytes, outbuf: array<Byte>) returns (len: int)
    requires Leftover(rx, glue) && Stuck(glue) && rx.state == Ok && outbuf != rx.rxbuf
    requires glue + Stuff(q) != [] && |glue| + |Stuff(q)| + 1 < rx.rxbuf.Length
    requires |Out(glue + Stuff(q))| <= outbuf.Length
    modifies rx, rx.rxbuf, outbuf
    ensures len == |Out(glue + Stuff(q))| <= outbuf.Length && outbuf[..len] == Out(glue + Stuff(q))
    ensures rx.Clean() && rx.queue == [] && rx.partial == []
  {
    hide Content; hide Decode; hide IsRead; hide EndOf; hide Stuff; hide Stuck; hide Legal; hide Holds;
    hide Encode; hide Pending;
    StuffLegal(q);
    var s := Stuff(q);
    FeedBehind(rx, glue, s);
    ghost var out0, k := outbuf[..], rx.FirstPiece();
    MostShort(Out(glue + s), outbuf.Length + 1);
    len := rx.PollHandler(outbuf, outbuf.Length);
    ReadWhole(out0, glue + s, k, outbuf.Length, len, outbuf[..]);
    NothingLeft(rx.rxbuf[..], rx.begin);
    rx.queue, rx.partial := [], [];
  }

  lemma NothingLeft(buf: Bytes, begin: nat)
    requires begin < |buf|
    ensures Content(buf, begin, begin) == [] && EndOf(|buf|, begin, []) == begin
          && Holds(buf, begin, begin, begin, [], [])
    ensures !Pending([])
  {
  }

  /**
   From an overflow, with packets waiting and now polled, to the packet after it.  If the unused slot
   holds an END, the packet that was cut off by the overflow is handed over as if it were complete,
   and the next one comes with the first packet once more in front; if not, the next one comes with
   all of the junk in front.  Then the ring is clean again.
   */
  method NextAfterOverrun(rx: Receiver, q: Bytes, outbuf: array<Byte>, ghost queue: seq<Bytes>, ghost partial: Bytes,
                          ghost stale: Byte)
    returns (got: seq<Bytes>)
    requires queue != [] && Leftover(rx, Junk(queue, partial, stale)) && rx.state == Rubbish && outbuf != rx.rxbuf
    requires Legal(partial) && |Junk(queue, partial, stale)| + |Stuff(q)| + 1 < rx.rxbuf.Length
    requires queue[0] != [] && |Out(Junk(queue, partial, stale) + Stuff(q))| <= outbuf.Length
          && |Out(partial)| <= outbuf.Length
    requires |queue[0] + q| + 1 <= outbuf.Length
    modifies rx, rx.rxbuf, outbuf
    ensures rx.Clean() && rx.queue == [] && rx.partial == []
    ensures stale == END && partial != [] ==>
              got == (if Out(partial) == [] then [] else [Out(partial)]) + [queue[0] + q]
    ensures stale == END && partial == [] ==> got == [[END] + queue[0] + q]
    ensures stale != END ==> got == [Out(partial + [stale] + Stuff(queue[0]) + Stuff(q))]
  {
    hide Content; hide Decode; hide EndOf; hide Stuff; hide Leftover;
    SkippedEnd(rx, Junk(queue, partial, stale));
    JunkEnd(queue, partial, stale);
    ghost var junk := Junk(queue, partial, stale);
    ghost var glue := if Stuck(junk) then junk else Stuff(queue[0]);
    got := [];
    FrameOut(queue[0]);
    var len := PollLeft(rx, junk, outbuf);
    if len > 0 {
      got := [outbuf[..len]];
    }
    GlueOut(queue[0], q);
    assert stale == END && partial == [] ==> junk == [END] + Stuff(queue[0]);
    len := NextBehind(rx, glue, q, outbuf);
    got := got + [outbuf[..len]];
  }

  lemma GlueOut(p: Bytes, q: Bytes)
    requires p != []
    ensures Stuff(p) != [] && Stuck(Stuff(p)) && Out(Stuff(p) + Stuff(q)) == p + q
    ensures Out([END] + Stuff(p) + Stuff(q)) == [END] + p + q
  {
    hide Stuff; hide Decode;
    FrameOut(p);
    StuffLegal(p);
    OutBehind(Stuff(p), q);
    NoEndStuck(Stuff(p));
    BehindEnd(Stuff(p), Stuff(q));
    assert [END] + (p + q) == [END] + p + q;
  }

  lemma NoEndStuck(s: Bytes)
    requires Legal(s)
    ensures Stuck(s)
  {
    assert s[..|s|] == s;
    EndIndexIs(s, |s|);
  }

  /** An END among the bytes of a packet is read as a byte. */
  lemma BehindEnd(s: Bytes, t: Bytes)
    ensures Out([END] + s + t) == [END] + Out(s + t)
  {
    hide Decode;
    FirstAlone(END);
    Joined([END], s + t);
    assert [END] + s + t == [END] + (s + t);
  }

  method SkippedEnd(rx: Receiver, ghost rest: Bytes)
    requires Leftover(rx, rest) && rx.state == Rubbish
    modifies rx, rx.rxbuf
    ensures Leftover(rx, rest) && rx.state == Ok
  {
    hide Content; hide EndOf;
    var _ := rx.InputByte(END);
  }

  /** Where the first END of the junk is. */
  lemma JunkEnd(queue: seq<Bytes>, partial: Bytes, stale: Byte)
    requires queue != [] && queue[0] != [] && Legal(partial)
    ensures var junk := Junk(queue, partial, stale);
            && junk == partial + [stale] + Stuff(queue[0])
            && (stale == END ==>
                  && EndIndex(junk) == |partial| && junk[..|partial|] == partial
                  && junk[|partial| + 1..] == Stuff(queue[0]))
            && (stale != END ==> EndIndex(junk) == |junk|)
            && (Stuck(junk) <==> stale != END || partial == [])
  {
    StuffLegal(queue[0]);
    FrameOut(queue[0]);
    var junk, s := Junk(queue, partial, stale), Stuff(queue[0]);
    hide Stuff; hide Decode;
    if stale == END {
      assert junk[..|partial|] == partial;
      EndIndexIs(junk, |partial|);
    } else {
      assert junk[..|junk|] == junk;
      EndIndexIs(junk, |junk|);
    }
  }

  /** With no packet waiting, an overflow costs the packet that was arriving, and the next END makes the ring clean. */
  method CleanAfterOverrun(rx: Receiver, ghost partial: Bytes, ghost stale: Byte)
    requires Overrun(rx, [], partial, stale)
    modifies rx, rx.rxbuf
    ensures rx.Clean() && rx.queue == [] && rx.partial == []
  {
    hide Content; hide Holds; hide Encode; hide Pending; hide Stuff;
    var _ := rx.InputByte(END);
    NothingLeft(rx.rxbuf[..], rx.begin);
    rx.queue, rx.partial := [], [];
  }

  /** Junk that fills the ring is dropped with the next byte, as by an overflow with no packet waiting. */
  method JunkDropped(rx: Receiver, c: Byte, ghost junk: Bytes)
    requires Leftover(rx, junk) && Stuck(junk) && rx.state == Ok && rx.Full()
    modifies rx, rx.rxbuf
    ensures exists stale :: Overrun(rx, [], [], stale)
  {
    hide Content; hide EndOf; hide Stuff; hide Encode;
    LeftoverFrame(rx, junk);
    var _ := rx.InputByte(c);
    assert Overrun(rx, [], [], rx.rxbuf[SlotBefore(rx.rxbuf.Length, rx.begin)]);
  }

  /**
   When the next packet arrives before the first poll, it is stored over the END of the first packet:
   the packets behind that are lost, and the new one comes without the first byte of its frame.
   */
  method StoredBeforePoll(rx: Receiver, q: Bytes, outbuf: array<Byte>, ghost queue: seq<Bytes>, ghost partial: Bytes,
                          ghost stale: Byte)
    returns (got: seq<Bytes>)
    requires queue != [] && Overrun(rx, queue, partial, stale) && outbuf != rx.rxbuf
    requires 0 < |queue[0]| <= outbuf.Length && 1 < |Stuff(q)| && |q| < outbuf.Length
    requires |Stuff(queue[0])| + |Stuff(q)| + 1 < rx.rxbuf.Length
    modifies rx, rx.rxbuf, outbuf
    ensures rx.Clean() && rx.queue == [] && rx.partial == []
    ensures q != [] && got == [queue[0], (if q[0] == END || q[0] == ESC then [Code(q[0])[1]] else []) + q[1..]]
  {
    hide Content; hide Decode; hide EndOf; hide Stuff; hide Stuck; hide Legal; hide Holds; hide Encode;
    hide Pending; hide Code; hide Overrun;
    FirstLost(q);
    ghost var rest := Stuff(q)[1..] + [END];
    var len := OverThenPoll(rx, q, outbuf, queue, partial, stale);
    got := [outbuf[..len]];
    EndLast(Stuff(q)[1..]);
    len := PollLeft(rx, rest, outbuf);
    got := got + [outbuf[..len]];
    EmptyClean(rx);
    rx.queue, rx.partial := [], [];
  }

  method OverThenPoll(rx: Receiver, q: Bytes, outbuf: array<Byte>, ghost queue: seq<Bytes>, ghost partial: Bytes,
                      ghost stale: Byte)
    returns (len: int)
    requires queue != [] && Overrun(rx, queue, partial, stale) && outbuf != rx.rxbuf
    requires 0 < |queue[0]| <= outbuf.Length && 1 < |Stuff(q)|
    requires |Stuff(queue[0])| + |Stuff(q)| + 1 < rx.rxbuf.Length
    modifies rx, rx.rxbuf, outbuf
    ensures Leftover(rx, Stuff(q)[1..] + [END]) && rx.state == Ok
    ensures len == |queue[0]| <= outbuf.Length && outbuf[..len] == queue[0]
  {
    hide Content; hide Decode; hide IsRead; hide EndOf; hide Stuff; hide Legal; hide Encode; hide Pending;
    hide Overrun; hide Most; hide Wrap;
    FrameOut(queue[0]);
    StuffLegal(q);
    ghost var p := Stuff(queue[0]);
    FeedOver(rx, Stuff(q), p, queue, partial, stale);
    ghost var out0, k := outbuf[..], rx.FirstPiece();
    MostShort(queue[0], outbuf.Length + 1);
    len := rx.PollHandler(outbuf, outbuf.Length);
    ReadWhole(out0, p, k, outbuf.Length, len, outbuf[..]);
  }

  lemma EmptyClean(rx: Receiver)
    requires Leftover(rx, [])
    ensures rx.begin == rx.nextFree == rx.pktEnd
    ensures Holds(rx.rxbuf[..], rx.begin, rx.nextFree, rx.pktEnd, [], []) && !Pending([])
  {
    assert Used(rx.rxbuf.Length, rx.begin, rx.nextFree) == 0;
    NothingLeft(rx.rxbuf[..], rx.begin);
  }

  lemma EndLast(s: Bytes)
    requires s != [] && END !in s
    ensures var rest := s + [END]; EndIndex(rest) == |s| && !Stuck(rest) && rest[..|s|] == s && rest[|s| + 1..] == []
  {
    var rest := s + [END];
    assert rest[..|s|] == s;
    EndIndexIs(rest, |s|);
  }

  lemma FirstLost(q: Bytes)
    requires 1 < |Stuff(q)|
    ensures q != [] && END !in Stuff(q)[1..]
    ensures Out(Stuff(q)[1..]) == (if q[0] == END || q[0] == ESC then [Code(q[0])[1]] else []) + q[1..]
    ensures |Out(Stuff(q)[1..])| <= |q|
  {
    hide Stuff; hide Decode; hide Code;
    NothingStuffed();
    StuffFront(q);
    StuffLegal(q);
    FrameOut(q[1..]);
    CodeTail(q[0], Stuff(q[1..]));
    hide Legal;
    assert forall i :: 1 <= i < |Stuff(q)| ==> Stuff(q)[i] != END by { NoEndIn(Stuff(q)); }
  }

  lemma NoEndIn(s: Bytes)
    requires Legal(s)
    ensures forall i :: 0 <= i < |s| ==> s[i] != END
  {
  }

  lemma CodeTail(b: Byte, rest: Bytes)
    ensures |Code(b) + rest| > 0
    ensures Out((Code(b) + rest)[1..]) == (if b == END || b == ESC then [Code(b)[1]] else []) + Out(rest)
  {
    hide Decode;
    if b == END || b == ESC {
      FirstAlone(Code(b)[1]);
      Joined([Code(b)[1]], rest);
      assert (Code(b) + rest)[1..] == [Code(b)[1]] + rest;
    } else {
      assert (Code(b) + rest)[1..] == rest;
    }
  }

  /** The bytes of a packet and its END, stored from the END of the first packet on. */
  method FeedOver(rx: Receiver, s: Bytes, ghost p: Bytes, ghost queue: seq<Bytes>, ghost partial: Bytes,
                  ghost stale: Byte)
    requires queue != [] && p == Stuff(queue[0]) && p != [] && Overrun(rx, queue, partial, stale)
    requires Legal(s) && !Pending(s) && s != [] && |p| + |s| + 1 < rx.rxbuf.Length
    modifies rx, rx.rxbuf
    ensures rx.Bounds() && rx.state == Ok
    ensures rx.begin != rx.pktEnd && rx.Frame() == p && Wrap(rx.rxbuf.Length, rx.pktEnd + 1) < rx.rxbuf.Length
    ensures Content(rx.rxbuf[..], Wrap(rx.rxbuf.Length, rx.pktEnd + 1), rx.nextFree) == s[1..] + [END]
  {
    hide Content; hide Legal; hide Encode; hide Stuff; hide Junk; hide Stored; hide Pending; hide Wrap; hide Used;
    NothingLeft([0], 0);
    OverrunFirst(rx, queue, partial, stale);
    var _ := rx.InputByte(END);
    ghost var b, e := rx.begin, rx.pktEnd;
    assert p + s[..0] == p;
    for i := 0 to |s|
      invariant rx.Bounds() && rx.begin == b && rx.pktEnd == e && rx.Buffered() == p + s[..i]
      invariant rx.state == if Pending(s[..i]) then Esc else Ok
    {
      LegalAt(s, i);
      assert s[..i + 1] == s[..i] + [s[i]];
      HasRoom(rx);
      StoreOne(rx, s[i]);
    }
    assert s[..|s|] == s;
    HasRoom(rx);
    assert rx.nextFree != e;
    StoreOne(rx, END);
    CutAt(rx.rxbuf[..], b, rx.nextFree, e, p, s + [END]);
    assert (s + [END])[1..] == s[1..] + [END];
  }

  lemma OverrunFirst(rx: Receiver, queue: seq<Bytes>, partial: Bytes, stale: Byte)
    requires Overrun(rx, queue, partial, stale) && queue != []
    ensures rx.Bounds() && rx.begin != rx.pktEnd && rx.Buffered() == Stuff(queue[0])
    ensures Used(rx.rxbuf.Length, rx.begin, rx.pktEnd) == |Stuff(queue[0])|
  {
    hide Encode; hide Stuff; hide Junk;
  }

  lemma HasRoom(rx: Receiver)
    requires rx.Bounds() && |rx.Buffered()| + 1 < rx.rxbuf.Length
    ensures !rx.Full() && |rx.Buffered()| == Used(rx.rxbuf.Length, rx.begin, rx.nextFree)
  {
  }

  lemma CutAt(buf: Bytes, begin: nat, nextFree: nat, e: nat, p: Bytes, t: Bytes)
    requires begin < |buf| && nextFree < |buf| && e < |buf| && t != []
    requires Content(buf, begin, nextFree) == p + t && |p| == Used(|buf|, begin, e)
    ensures Content(buf, begin, e) == p
    ensures Wrap(|buf|, e + 1) < |buf| && Content(buf, Wrap(|buf|, e + 1), nextFree) == t[1..]
  {
    ContentDrop(buf, begin, nextFree, |p| + 1);
    var c := Content(buf, begin, e);
    assert forall i :: 0 <= i < |p| ==> c[i] == (p + t)[i];
    assert (p + t)[|p| + 1..] == t[1..];
  }

  // ------------------------------------------------- an END behind a whole packet

  /** The bytes `a END END`, two polls and `q END`: the next poll hands over END and `q` as one packet. */
  method EndGluedOn(rx: Receiver, a: Bytes, q: Bytes, outbuf: array<Byte>) returns (got: seq<Bytes>)
    requires rx.Clean() && rx.queue == [] && rx.partial == [] && outbuf != rx.rxbuf
    requires 0 < |a| <= outbuf.Length && |q| < outbuf.Length
    requires |Stuff(a)| + 2 < rx.rxbuf.Length && |Stuff(q)| + 2 < rx.rxbuf.Length
    modifies rx, rx.rxbuf, outbuf
    ensures got == [a, [END] + q] && rx.Clean() && rx.queue == [] && rx.partial == []
  {
    hide Content; hide Decode; hide EndOf; hide Stuff; hide Stuck; hide Legal; hide Holds; hide Encode;
    hide Pending; hide Leftover;
    FrameOut(a);
    ghost var s := Stuff(a);
    EndsArrive(rx, a);
    var len := PollLeft(rx, s + [END, END], outbuf);
    got := [outbuf[..len]];
    OneEnd();
    len := PollLeft(rx, [END], outbuf);
    assert len == 0;
    FrameOut(q);
    BehindEnd([], Stuff(q));
    assert [END] + [] + Stuff(q) == [END] + Stuff(q) && [] + Stuff(q) == Stuff(q);
    len := NextBehind(rx, [END], q, outbuf);
    got := got + [outbuf[..len]];
  }

  method EndsArrive(rx: Receiver, a: Bytes)
    requires rx.Clean() && rx.queue == [] && rx.partial == [] && a != [] && |Stuff(a)| + 2 < rx.rxbuf.Length
    modifies rx, rx.rxbuf
    ensures Leftover(rx, Stuff(a) + [END, END]) && rx.state == Ok
    ensures var s := Stuff(a); var rest := s + [END, END];
            EndIndex(rest) == |s| && !Stuck(rest) && rest[..|s|] == s && rest[|s| + 1..] == [END]
  {
    hide Content; hide EndOf; hide Stuff; hide Stuck; hide Legal; hide Holds; hide Encode; hide Pending; hide Wrap;
    StuffLegal(a);
    FrameOut(a);
    var s := Stuff(a);
    CleanLeft(rx);
    assert [] + s == s;
    FeedBehind(rx, [], s);
    TwoEnds(rx, s);
    assert Used(rx.rxbuf.Length, rx.begin, rx.pktEnd) == |s|;
    StoreOne(rx, END);
    EndsLeft(rx, s);
  }

  lemma CleanLeft(rx: Receiver)
    requires rx.Clean() && rx.queue == [] && rx.partial == []
    ensures Leftover(rx, []) && Stuck([]) && rx.state == Ok
  {
    hide Stuff; hide Legal;
    EncodeNone();
    assert rx.Buffered() == [];
  }

  /** Behind a stored packet there is room for one more END. */
  lemma TwoEnds(rx: Receiver, s: Bytes)
    requires rx.Bounds() && rx.Buffered() == [] + s + [END] && |s| + 2 < rx.rxbuf.Length && rx.state == Ok
    requires Wrap(rx.rxbuf.Length, rx.pktEnd + 1) == rx.nextFree
    ensures rx.Accepts(END) && rx.nextFree != rx.pktEnd
  {
    assert |rx.Buffered()| == Used(rx.rxbuf.Length, rx.begin, rx.nextFree);
  }

  lemma EndsLeft(rx: Receiver, s: Bytes)
    requires rx.Bounds() && rx.Buffered() == ([] + s + [END]) + [END] && s != [] && Legal(s)
    requires rx.begin != rx.pktEnd && Used(rx.rxbuf.Length, rx.begin, rx.pktEnd) == |s|
    ensures Leftover(rx, s + [END, END])
    ensures var rest := s + [END, END];
            EndIndex(rest) == |s| && !Stuck(rest) && rest[..|s|] == s && rest[|s| + 1..] == [END]
  {
    var rest := s + [END, END];
    assert ([] + s + [END]) + [END] == rest;
    assert rest[..|s|] == s;
    EndIndexIs(rest, |s|);
  }

  lemma OneEnd()
    ensures Stuck([END])
  {
    EndIndexIs([END], 0);
  }

  // ------------------------------------------------ packets that are too long

  /** Nothing to stuff. */
  predicate Plain(p: Bytes)
  {
    END !in p && ESC !in p
  }

  lemma {:induction false} PlainOut(p: Bytes)
    requires Plain(p)
    ensures Stuff(p) == p && Out(p) == p && !InEsc(p)
    decreases |p|
  {
    hide Stuff; hide Decode;
    if |p| == 0 {
      Start(p);
      NothingStuffed();
    } else {
      var q, b := p[..|p| - 1], p[|p| - 1];
      PlainPart(p, 0, |p| - 1);
      assert p[0..|p| - 1] == q;
      PlainOut(q);
      assert b in p;
      StuffSnoc(q, b);
      DecodeSnoc(q, b);
      assert p == q + [b];
    }
  }

  lemma PlainLegal(p: Bytes)
    requires Plain(p)
    ensures Legal(p) && !Pending(p)
  {
    hide Stuff; hide Decode; hide Legal; hide Pending;
    PlainOut(p);
    StuffLegal(p);
  }

  lemma PlainPart(p: Bytes, i: nat, j: nat)
    requires Plain(p) && i <= j <= |p|
    ensures Plain(p[i..j])
  {
  }

  /**
   With a ring 16 bytes larger than the caller's buffer, as the driver has it: a first packet moves
   `begin`, and the poll for a second one that is too long and wraps hands over its last bytes.
   */
  method TailReached(blen: nat, p: Bytes, q: Bytes, outbuf: array<Byte>) returns (len: int)
    requires Plain(p) && Plain(q) && outbuf.Length == blen + 1
    requires 12 <= blen && 0 < |p| <= 13 && |q| <= blen + 14 && blen + 15 < |p| + |q|
    modifies outbuf
    ensures 0 < len == |p| + |q| - blen - 15 <= |q| && len <= outbuf.Length && outbuf[..len] == q[|q| - len..]
  {
    hide Content; hide EndOf; hide Stuck; hide Holds; hide Encode; hide Plain; hide Leftover;
    var rx := new Receiver(blen + 16);
    SendAndPoll(rx, p, outbuf, blen);
    len := SendLong(rx, q, outbuf, blen);
  }

  /** A packet that is too long, and wraps where the first loop has given up. */
  method SendLong(rx: Receiver, q: Bytes, outbuf: array<Byte>, blen: nat) returns (len: int)
    requires Leftover(rx, []) && Stuck([]) && rx.state == Ok && outbuf != rx.rxbuf && outbuf.Length == blen + 1
    requires Plain(q) && |q| + 1 < rx.rxbuf.Length
    requires var k := rx.rxbuf.Length - rx.begin; blen + 1 < k < |q| && |q| - k <= blen + 1
    modifies rx, rx.rxbuf, outbuf
    ensures var k := old(rx.rxbuf.Length - rx.begin);
            0 <= k < |q| && len == |q| - k <= outbuf.Length && outbuf[..len] == q[k..]
  {
    hide Content; hide Decode; hide IsRead; hide EndOf; hide Stuff; hide Stuck; hide Legal; hide Holds;
    hide Encode; hide Pending;
    hide ReadOf; hide LoopOf; hide Most; hide Plain; hide Wrap; hide Used;
    PlainLegal(q);
    assert [] + q == q;
    FeedBehind(rx, [], q);
    ghost var out0, k := outbuf[..], rx.FirstPiece();
    PieceAtEnd(rx, q);
    MostFits(Out(q), blen);
    len := rx.PollHandler(outbuf, blen);
    TooLong(q, k, blen);
    ReadIs(out0, q, k, blen, len, outbuf[..]);
  }

  lemma PieceAtEnd(rx: Receiver, frame: Bytes)
    requires rx.Bounds() && rx.Frame() == frame && rx.rxbuf.Length <= rx.begin + |frame|
    ensures rx.FirstPiece() == rx.rxbuf.Length - rx.begin
  {
  }

  /** A packet through an empty ring whose `begin` is 0. */
  method SendAndPoll(rx: Receiver, p: Bytes, outbuf: array<Byte>, blen: nat)
    requires rx.Clean() && rx.queue == [] && rx.partial == [] && rx.begin == 0 && outbuf != rx.rxbuf
    requires Plain(p) && p != [] && |p| + 2 < rx.rxbuf.Length && outbuf.Length == blen + 1
    modifies rx, rx.rxbuf, outbuf
    ensures Leftover(rx, []) && Stuck([]) && rx.state == Ok && rx.begin == |p| + 1
  {
    hide Content; hide Decode; hide IsRead; hide EndOf; hide Stuff; hide Stuck; hide Legal; hide Holds;
    hide Encode; hide Pending;
    PlainOut(p);
    StuffLegal(p);
    CleanLeft(rx);
    assert [] + p == p;
    FeedBehind(rx, [], p);
    MostFits(p, blen);
    var _ := rx.PollHandler(outbuf, blen);
    NothingLeft(rx.rxbuf[..], rx.begin);
  }

  lemma MostFits(s: Bytes, blen: nat)
    ensures |Most(s, blen + 1)| <= blen + 1
  {
  }

  lemma ReadIs(o: Bytes, frame: Bytes, k: nat, blen: nat, len: int, out: Bytes)
    requires IsRead(o, frame, k, blen, len, out)
    ensures k <= |frame| && len == |ReadOf(frame, k, blen)| <= |out| && out[..len] == ReadOf(frame, k, blen)
  {
  }

  lemma TooLong(q: Bytes, k: nat, blen: nat)
    requires Plain(q) && blen + 1 < k < |q| && |q| - k <= blen + 1
    ensures ReadOf(q, k, blen) == q[k..]
  {
    hide Stuff; hide Decode; hide ReadOf; hide LoopOf;
    PlainOut(q);
    PlainPart(q, 0, k - 1);
    PlainPart(q, k, |q|);
    assert q[0..k - 1] == q[..k - 1] && q[k..|q|] == q[k..];
    PlainOut(q[..k - 1]);
    PlainOut(q[k..]);
    ReadExact(q, k, blen);
    TailRead(q, k, blen);
  }
}
