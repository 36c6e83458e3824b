/**
 The SLIP receiver of os/dev/slip.c: a cyclic buffer filled byte by byte from the
 interrupt handler and emptied packet by packet by the poll handler, which run as
 atomic steps.  It can hold several complete packets and one that is still arriving.
 */
module SlipRing {
  import opened Arithmetic
  import opened Octets
  import opened SlipCode
  import opened SlipRead

  datatype RxState = TwoPackets | Ok | Esc | Rubbish

  /** Number of bytes in the cyclic region [begin, nextFree). */
  ghost function Used(n: nat, begin: nat, nextFree: nat): (r: nat)
    requires begin < n && nextFree < n
    ensures r < n
  {
    if begin <= nextFree then nextFree - begin else nextFree + n - begin
  }

  /** The bytes in the cyclic region [begin, nextFree). */
  ghost function Content(buf: Bytes, begin: nat, nextFree: nat): (r: Bytes)
    requires begin < |buf| && nextFree < |buf|
    ensures |r| == Used(|buf|, begin, nextFree)
    ensures forall i :: 0 <= i < |r| ==> r[i] == buf[Wrap(|buf|, begin + i)]
  {
    seq(Used(|buf|, begin, nextFree), i requires 0 <= i < Used(|buf|, begin, nextFree) => buf[Wrap(|buf|, begin + i)])
  }

  lemma ContentPush(buf: Bytes, begin: nat, nextFree: nat, c: Byte)
    requires begin < |buf| && nextFree < |buf| && Wrap(|buf|, nextFree + 1) != begin
    ensures Content(buf[nextFree := c], begin, Wrap(|buf|, nextFree + 1)) == Content(buf, begin, nextFree) + [c]
  {
    var a, b := Content(buf[nextFree := c], begin, Wrap(|buf|, nextFree + 1)), Content(buf, begin, nextFree) + [c];
    assert |a| == |b|;
    forall i | 0 <= i < |a|
      ensures a[i] == b[i]
    {
    }
  }

  lemma ContentDrop(buf: Bytes, begin: nat, nextFree: nat, k: nat)
    requires begin < |buf| && nextFree < |buf| && k <= Used(|buf|, begin, nextFree)
    ensures Content(buf, Wrap(|buf|, begin + k), nextFree) == Content(buf, begin, nextFree)[k..]
  {
    var a, b := Content(buf, Wrap(|buf|, begin + k), nextFree), Content(buf, begin, nextFree)[k..];
    assert |a| == |b|;
    forall i | 0 <= i < |a|
      ensures a[i] == b[i]
    {
    }
  }

  /** The buffer holds the packets `queue`, each ended by END, and then `partial`. */
  ghost predicate Holds(buf: Bytes, begin: nat, nextFree: nat, pktEnd: nat, queue: seq<Bytes>, partial: Bytes)
  {
    && begin < |buf| && nextFree < |buf|
    && Content(buf, begin, nextFree) == Encode(queue) + partial
    && Legal(partial)
    && (forall p :: p in queue ==> p != [])
    && pktEnd == if queue == [] then begin else Wrap(|buf|, begin + |Stuff(queue[0])|)
  }

  /** pkt_end tells whether a packet is buffered. */
  lemma HoldsFirst(buf: Bytes, begin: nat, nextFree: nat, pktEnd: nat, queue: seq<Bytes>, partial: Bytes)
    requires Holds(buf, begin, nextFree, pktEnd, queue, partial)
    ensures begin == pktEnd <==> queue == []
    ensures queue != [] ==>
              var n := |Stuff(queue[0])|;
              && 0 < n < |Content(buf, begin, nextFree)| && pktEnd < |buf| && pktEnd != nextFree
              && Wrap(|buf|, pktEnd + 1) == Wrap(|buf|, begin + n + 1)
  {
    hide Legal; hide Content;
    if queue != [] {
      assert queue[0] in queue;
      StuffLegal(queue[0]);
      assert |Encode(queue)| >= |Stuff(queue[0])| + 1;
      hide Stuff;
    }
  }

  /** A byte that goes on with the packet. */
  lemma HoldsMore(buf: Bytes, begin: nat, nextFree: nat, pktEnd: nat, queue: seq<Bytes>, partial: Bytes, c: Byte)
    requires Holds(buf, begin, nextFree, pktEnd, queue, partial)
    requires Wrap(|buf|, nextFree + 1) != begin && Legal(partial + [c])
    ensures Holds(buf[nextFree := c], begin, Wrap(|buf|, nextFree + 1), pktEnd, queue, partial + [c])
  {
    ContentPush(buf, begin, nextFree, c);
    assert Encode(queue) + (partial + [c]) == (Encode(queue) + partial) + [c];
  }

  /** The END that completes a packet. */
  lemma HoldsEnd(buf: Bytes, begin: nat, nextFree: nat, pktEnd: nat, queue: seq<Bytes>, partial: Bytes)
    requires Holds(buf, begin, nextFree, pktEnd, queue, partial)
    requires Wrap(|buf|, nextFree + 1) != begin && partial != [] && !Pending(partial)
    ensures nextFree != pktEnd && (begin == pktEnd <==> queue == [])
    ensures Unstuff(partial) != []
    ensures Holds(buf[nextFree := END], begin, Wrap(|buf|, nextFree + 1), if queue == [] then nextFree else pktEnd,
                  queue + [Unstuff(partial)], [])
  {
    hide Unstuff; hide Legal; hide Encode; hide Stuff;
    var p := Unstuff(partial);
    StuffUnstuff(partial);
    HoldsFirst(buf, begin, nextFree, pktEnd, queue, partial);
    EndBehind(buf, begin, nextFree, queue, partial);
    LegalEmpty();
    EncodeNone();
    NothingStuffed();
    if queue == [] {
      assert (queue + [p])[0] == p;
      assert Content(buf, begin, nextFree) == partial;
    } else {
      assert (queue + [p])[0] == queue[0];
    }
    hide Content;
  }

  lemma EndBehind(buf: Bytes, begin: nat, nextFree: nat, queue: seq<Bytes>, partial: Bytes)
    requires begin < |buf| && nextFree < |buf| && Content(buf, begin, nextFree) == Encode(queue) + partial
    requires Wrap(|buf|, nextFree + 1) != begin && Stuff(Unstuff(partial)) == partial
    ensures Content(buf[nextFree := END], begin, Wrap(|buf|, nextFree + 1)) == Encode(queue + [Unstuff(partial)]) + []
  {
    hide Encode; hide Stuff; hide Unstuff;
    ContentPush(buf, begin, nextFree, END);
    EncodeAppend(queue, Unstuff(partial));
    hide Content; hide Wrap;
  }

  lemma EncodeNone()
    ensures Encode([]) == []
  {
  }

  /** Taking the first packet and its END off the buffer. */
  lemma HoldsTake(buf: Bytes, begin: nat, nextFree: nat, pktEnd: nat, queue: seq<Bytes>, partial: Bytes)
    requires Holds(buf, begin, nextFree, pktEnd, queue, partial) && queue != []
    ensures pktEnd != begin && pktEnd < |buf|
    ensures var n := |Stuff(queue[0])|;
            && 0 < n < |Content(buf, begin, nextFree)|
            && Content(buf, begin, nextFree)[..n] == Stuff(queue[0])
    ensures Content(buf, Wrap(|buf|, pktEnd + 1), nextFree) == Encode(queue[1..]) + partial
  {
    hide Legal; hide Stuff; hide Content; hide Wrap; hide Encode;
    var s := Stuff(queue[0]);
    HoldsFirst(buf, begin, nextFree, pktEnd, queue, partial);
    var c := Content(buf, begin, nextFree);
    EncodeHead(queue, partial);
    TakeApart(c, s, Encode(queue[1..]) + partial);
    ContentDrop(buf, begin, nextFree, |s| + 1);
  }

  lemma HoldsRest(buf: Bytes, begin: nat, nextFree: nat, pktEnd: nat, queue: seq<Bytes>, partial: Bytes)
    requires Holds(buf, begin, nextFree, pktEnd, queue, partial) && queue != []
    ensures Legal(partial) && forall p :: p in queue[1..] ==> p != []
  {
    assert forall p :: p in queue[1..] ==> p in queue;
    hide Legal; hide Encode; hide Stuff; hide Content;
  }

  lemma EncodeHead(queue: seq<Bytes>, partial: Bytes)
    requires queue != []
    ensures Encode(queue) + partial == Stuff(queue[0]) + [END] + (Encode(queue[1..]) + partial)
  {
  }

  lemma TakeApart(c: Bytes, s: Bytes, rest: Bytes)
    requires c == s + [END] + rest
    ensures |s| < |c| && c[..|s|] == s && c[|s| + 1..] == rest
  {
  }

  // -------------------------------------------------------------- any contents

  /** The buffer and the three indices into it. */
  datatype Ring = Ring(buf: Bytes, begin: nat, nextFree: nat, pktEnd: nat)

  ghost predicate Within(g: Ring)
  {
    g.begin < |g.buf| && g.nextFree < |g.buf| && g.pktEnd < |g.buf|
  }

  /** What slip_input_byte makes of a byte for which there is room. */
  ghost function Stored(g: Ring, c: Byte): (r: Ring)
    requires Within(g)
  {
    var buf, next := g.buf[g.nextFree := c], Wrap(|g.buf|, g.nextFree + 1);
    if c != END then Ring(buf, g.begin, next, g.pktEnd)
    else if g.nextFree == g.pktEnd then Ring(buf, g.begin, g.nextFree, g.pktEnd)
    else Ring(buf, g.begin, next, if g.begin == g.pktEnd then g.nextFree else g.pktEnd)
  }

  /** The index of the first END, or the length if there is none. */
  ghost function EndIndex(c: Bytes): (r: nat)
    ensures r <= |c| && END !in c[..r] && (r < |c| ==> c[r] == END)
  {
    if c == [] || c[0] == END then 0
    else
      var r := EndIndex(c[1..]);
      assert c[..r + 1] == [c[0]] + c[1..][..r];
      r + 1
  }

  lemma EndIndexIs(c: Bytes, i: nat)
    requires i <= |c| && END !in c[..i] && (i < |c| ==> c[i] == END)
    ensures EndIndex(c) == i
  {
    var r := EndIndex(c);
    assert forall j :: 0 <= j < i ==> c[..i][j] == c[j];
    assert forall j :: 0 <= j < r ==> c[..r][j] == c[j];
    assert forall j :: 0 <= j < i || 0 <= j < r ==> c[j] != END;
  }

  /** pkt_end is at the first END of what is buffered, or at begin if there is none. */
  ghost function EndOf(n: nat, begin: nat, c: Bytes): (r: nat)
  {
    if EndIndex(c) < |c| then Wrap(n, begin + EndIndex(c)) else begin
  }

  class Receiver {
    const rxbuf: array<Byte>
    var state: RxState
    var begin: nat
    var nextFree: nat
    var pktEnd: nat
    var pollPending: bool

    ghost var queue: seq<Bytes>   // packets received and not yet polled
    ghost var partial: Bytes      // the bytes, still stuffed, of the packet that is arriving

    ghost predicate Bounds()
      reads this
    {
      begin < rxbuf.Length && nextFree < rxbuf.Length && pktEnd < rxbuf.Length
    }

    ghost function Raw(): (r: Ring)
      reads this, rxbuf
    {
      Ring(rxbuf[..], begin, nextFree, pktEnd)
    }

    /** What is in the buffer, complete packets or not. */
    ghost function Buffered(): (r: Bytes)
      requires Bounds()
      reads this, rxbuf
    {
      Content(rxbuf[..], begin, nextFree)
    }

    /** The buffer holds what the ghosts say. */
    ghost predicate Ringed()
      reads this, rxbuf
    {
      && Bounds()
      && Holds(rxbuf[..], begin, nextFree, pktEnd, queue, partial)
      && state == (if Pending(partial) then Esc else Ok)
    }

    /** The state between two steps, as long as nothing had to be discarded. */
    ghost predicate Clean()
      reads this, rxbuf
    {
      Ringed() && (queue != [] ==> pollPending)
    }

    /** The byte is stored: it is not skipped, no bad escape, and there is room. */
    predicate Accepts(c: Byte)
      reads this
    {
      state != Rubbish && (state == Esc ==> c == ESC_END || c == ESC_ESC) && !Full()
    }

    predicate Full()
      reads this
    {
      Wrap(rxbuf.Length, nextFree + 1) == begin
    }

    /** rxbuf_init */
    constructor (size: nat)
      requires size > 0
      ensures Clean() && queue == [] && partial == [] && begin == 0 && rxbuf.Length == size && fresh(rxbuf)
      ensures !pollPending
    {
      rxbuf := new Byte[size](i => 0);
      begin, nextFree, pktEnd := 0, 0, 0;
      state := Ok;
      pollPending := false;
      queue, partial := [], [];
      new;
      LegalEmpty();
    }

    /** slip_input_byte */
    method InputByte(c: Byte) returns (r: int)
      requires Bounds()
      modifies this, rxbuf
      ensures Bounds() && begin == old(begin) && (old(pollPending) ==> pollPending)
      // rubbish is skipped up to the next END
      ensures old(state) == Rubbish ==>
                && r == 0 && state == (if c == END then Ok else Rubbish)
                && nextFree == old(nextFree) && pktEnd == old(pktEnd) && rxbuf[..] == old(rxbuf[..])
      // a bad escape, or a byte for which there is no room, starts rubbish
      ensures old(state) == Esc && c != ESC_END && c != ESC_ESC ==>
                && r == 0 && state == Rubbish
                && nextFree == old(pktEnd) && pktEnd == old(pktEnd) && rxbuf[..] == old(rxbuf[..])
      ensures old(state) != Rubbish && (old(state) == Esc ==> c == ESC_END || c == ESC_ESC) && old(Full()) ==>
                && r == 0 && state == Rubbish
                && nextFree == old(pktEnd) && pktEnd == old(pktEnd) && rxbuf[..] == old(rxbuf[..])
      // any other byte is stored
      ensures old(Accepts(c)) ==>
                && Raw() == Stored(old(Raw()), c) && r == (if c == END && old(nextFree) != old(pktEnd) then 1 else 0)
                && state == (if c == ESC then Esc else if old(state) == Esc then Ok else old(state))
      // a byte of a packet is appended to it
      ensures old(Clean()) && !old(Full()) && Legal(old(partial) + [c]) ==>
                Clean() && r == 0 && queue == old(queue) && partial == old(partial) + [c]
      // END completes a packet that has bytes
      ensures old(Clean()) && !old(Full()) && c == END && old(partial) != [] && !Pending(old(partial)) ==>
                Clean() && r == 1 && queue == old(queue) + [Unstuff(old(partial))] && partial == []
      // END without bytes before it is ignored while no packet is buffered
      ensures old(Clean()) && !old(Full()) && c == END && old(partial) == [] && old(queue) == [] ==>
                Clean() && r == 0 && queue == [] && partial == []
      // behind a buffered packet it is stored, as the end of an empty packet
      ensures old(Clean()) && !old(Full()) && c == END && old(partial) == [] && old(queue) != [] ==>
                && r == 1 && state == Ok && pktEnd == old(pktEnd) && queue == old(queue) + [[]] && partial == []
                && Content(rxbuf[..], begin, nextFree) == Encode(queue)
    {
      hide Legal; hide Encode; hide Stuff; hide Unstuff; hide Content; hide Holds; hide Wrap;
      if state == Rubbish {
        if c == END {
          state := Ok;
        }
        return 0;
      }
      BadEscape(partial, c);
      if state == Esc {
        if c != ESC_END && c != ESC_ESC {
          state := Rubbish;
          nextFree := pktEnd;
          return 0;
        }
        state := Ok;
      }
      if c == ESC {
        state := Esc;
      }
      NoEnd(partial);
      r := AddChar(c);
    }

    /** The part of slip_input_byte from `add_char` on. */
    method AddChar(c: Byte) returns (r: int)
      requires Bounds()
      modifies this, rxbuf
      ensures Bounds() && begin == old(begin)
      ensures old(Full()) ==>
                && r == 0 && state == Rubbish && pollPending == old(pollPending)
                && nextFree == old(pktEnd) && pktEnd == old(pktEnd) && rxbuf[..] == old(rxbuf[..])
      ensures !old(Full()) ==> state == old(state) && (old(pollPending) ==> pollPending)
      ensures !old(Full()) ==>
                Raw() == Stored(old(Raw()), c) && r == (if c == END && old(nextFree) != old(pktEnd) then 1 else 0)
      ensures !old(Full()) && old(Holds(rxbuf[..], begin, nextFree, pktEnd, queue, partial)) ==>
                && (Legal(old(partial) + [c]) ==>
                      && Holds(rxbuf[..], begin, nextFree, pktEnd, queue, partial)
                      && r == 0 && queue == old(queue) && partial == old(partial) + [c])
                && (c == END && old(partial) != [] && !Pending(old(partial)) ==>
                      && Holds(rxbuf[..], begin, nextFree, pktEnd, queue, partial)
                      && r == 1 && queue == old(queue) + [Unstuff(old(partial))] && partial == [] && pollPending)
                && (c == END && old(partial) == [] && old(queue) == [] ==>
                      && Holds(rxbuf[..], begin, nextFree, pktEnd, queue, partial)
                      && r == 0 && queue == [] && partial == [])
                && (c == END && old(partial) == [] && old(queue) != [] ==>
                      && r == 1 && pktEnd == old(pktEnd) && queue == old(queue) + [[]] && partial == []
                      && Content(rxbuf[..], begin, nextFree) == Encode(queue))
    {
      hide Legal; hide Encode; hide Stuff; hide Unstuff; hide Content; hide Holds;
      var curEnd := nextFree;
      nextFree := nextFree + 1;
      if nextFree == rxbuf.Length {
        nextFree := 0;
      }
      if nextFree == begin {
        state := Rubbish;
        nextFree := pktEnd;
        return 0;
      }
      ghost var buf0 := rxbuf[..];
      ghost var held := Holds(buf0, begin, curEnd, pktEnd, queue, partial);
      rxbuf[curEnd] := c;
      assert rxbuf[..] == buf0[curEnd := c];
      NoEnd(partial);
      if c == END {
        if held && partial != [] && !Pending(partial) {
          HoldsEnd(buf0, begin, curEnd, pktEnd, queue, partial);
        }
        if held && queue == [] && partial == [] {
          EmptyIgnored(buf0, begin, curEnd, pktEnd);
        }
        if held && queue != [] && partial == [] {
          EmptyStored(buf0, begin, curEnd, pktEnd, queue);
        }
        if curEnd != pktEnd {
          if begin == pktEnd {
            pktEnd := curEnd;
          }
          pollPending := true;
          queue, partial := queue + [Unstuff(partial)], [];
          return 1;
        } else {
          nextFree := curEnd;
        }
        return 0;
      }
      if held && Legal(partial + [c]) {
        HoldsMore(buf0, begin, curEnd, pktEnd, queue, partial, c);
      }
      partial := partial + [c];
      return 0;
    }

    /**
     One of the copying loops of slip_poll_handler: read rxbuf[from..to], the end of `frame`,
     behind what came out of the start of it.
     */
    method CopyOut(outbuf: array<Byte>, blen: nat, from: nat, to: nat, len0: int, esc0: bool, ghost frame: Bytes)
      returns (len: int, esc: bool)
      requires outbuf != rxbuf && from <= to <= rxbuf.Length && to - from <= |frame|
      requires var k := |frame| - (to - from);
               && rxbuf[from..to] == frame[k..]
               && esc0 == InEsc(frame[..k]) && len0 == |Out(frame[..k])| <= blen + 1 && (len0 > blen ==> !esc0)
               && len0 <= outbuf.Length && outbuf[..len0] == Out(frame[..k])
      requires |Most(Out(frame), blen + 1)| <= outbuf.Length
      modifies outbuf
      ensures Copied(old(outbuf[..]), frame, from < to, blen, len, esc, outbuf[..])
    {
      hide Decode; hide Over; hide Most; hide GivesUp;
      ghost var k, out0 := |frame| - (to - from), outbuf[..];
      len, esc := len0, esc0;
      var i := from;
      OutPrefix(frame, k);
      NoGivingUp(frame, blen);
      OverPrefix(out0, Out(frame[..k]));
      assert frame[..|frame|] == frame;
      while i < to
        invariant from <= i <= to
        invariant Reached(out0, frame, k + i - from, len, esc, outbuf[..])
        invariant len <= blen + 1 && (len > blen ==> !esc)
        invariant i > from ==> |Out(frame[..k + i - from - 1])| <= blen
      {
        ghost var j := k + i - from;
        if len > blen {
          GaveUp(frame, j, blen);
          len := 0;
          break;
        }
        CopyFits(frame, j, blen);
        assert rxbuf[i] == rxbuf[from..to][i - from] == frame[j];
        len, esc := CopyOne(outbuf, rxbuf[i], len, esc, frame, j, out0);
        i := i + 1;
      }
    }

    /** One turn of such a loop, for byte `c` of the frame. */
    method CopyOne(outbuf: array<Byte>, c: Byte, len0: int, esc0: bool, ghost frame: Bytes, ghost j: nat,
                   ghost out0: Bytes)
      returns (len: int, esc: bool)
      requires j < |frame| && c == frame[j] && Reached(out0, frame, j, len0, esc0, outbuf[..])
      requires |Out(frame[..j + 1])| <= outbuf.Length
      modifies outbuf
      ensures Reached(out0, frame, j + 1, len, esc, outbuf[..])
      ensures len <= len0 + 1 && (len > len0 ==> !esc)
    {
      hide Decode; hide Over;
      len, esc := len0, esc0;
      ghost var out := Out(frame[..j]);
      CopyByte(frame, j);
      if esc {
        if c == ESC_ESC {
          OverNext(out0, out, ESC);
          outbuf[len] := ESC;
          len := len + 1;
        } else if c == ESC_END {
          OverNext(out0, out, END);
          outbuf[len] := END;
          len := len + 1;
        }
        esc := false;
      } else if c == ESC {
        esc := true;
      } else {
        OverNext(out0, out, c);
        outbuf[len] := c;
        len := len + 1;
      }
    }

    /** The bytes a poll takes for a packet. */
    ghost function Frame(): (r: Bytes)
      requires Bounds()
      reads this, rxbuf
    {
      Content(rxbuf[..], begin, pktEnd)
    }

    /** How many of them lie before the end of the buffer. */
    ghost function FirstPiece(): (r: nat)
      requires Bounds()
      reads this
      ensures r <= Used(rxbuf.Length, begin, pktEnd)
    {
      if begin <= pktEnd then pktEnd - begin else rxbuf.Length - begin
    }

    /** slip_poll_handler: hand over what is read of the oldest complete packet, if there is one. */
    method PollHandler(outbuf: array<Byte>, blen: nat) returns (len: int)
      requires Bounds() && outbuf != rxbuf
      requires begin != pktEnd ==> |Most(Out(Frame()), blen + 1)| <= outbuf.Length
      modifies this, outbuf
      ensures Bounds() && nextFree == old(nextFree) && state == old(state)
      ensures old(begin) == old(pktEnd) ==>
                && len == 0 && begin == old(begin) && pktEnd == old(pktEnd) && pollPending == old(pollPending)
                && outbuf[..] == old(outbuf[..])
      // whatever is buffered, the bytes up to pkt_end are read, and the next END behind them is found
      ensures old(begin) != old(pktEnd) ==>
                && IsRead(old(outbuf[..]), old(Frame()), old(FirstPiece()), blen, len, outbuf[..])
                && begin == Wrap(rxbuf.Length, old(pktEnd) + 1) && pktEnd == EndOf(rxbuf.Length, begin, Buffered())
                && pollPending == (old(pollPending) || END in Buffered())
      // as long as nothing had to be discarded, that is the first packet
      ensures old(Ringed()) ==>
                && Clean() && partial == old(partial)
                && (old(queue) == [] ==> len == 0 && queue == [] && pollPending == old(pollPending))
                && (old(queue) != [] ==>
                      queue == old(queue)[1..] && old(begin) != old(pktEnd) && old(Frame()) == Stuff(old(queue)[0]))
      // a packet that fits the caller's buffer is handed over as it is
      ensures old(Ringed()) && old(queue) != [] && |old(queue)[0]| <= blen ==>
                len == |old(queue)[0]| <= outbuf.Length && outbuf[..len] == old(queue)[0]
    {
      hide Legal; hide Encode; hide Stuff; hide Unstuff; hide Content; hide IsRead; hide Most; hide Holds;
      hide Decode; hide EndOf;
      ghost var out0, n, b0 := outbuf[..], rxbuf.Length, begin;
      ghost var ringed, q, frame, k := Ringed(), queue, Frame(), FirstPiece();
      if ringed {
        FirstFrame(rxbuf[..], begin, nextFree, pktEnd, queue, partial);
      }
      if begin == pktEnd {
        return 0;
      }
      len := ReadPacket(outbuf, blen);
      if ringed && |q[0]| <= blen {
        ReadWhole(out0, frame, k, blen, len, outbuf[..]);
      }
      pktEnd := pktEnd + 1;
      if pktEnd == rxbuf.Length {
        pktEnd := 0;
      }
      NextPacket();
      if ringed {
        HoldsTaken(rxbuf[..], b0, begin, nextFree, old(pktEnd), queue, partial);
        queue := queue[1..];
      }
    }

    /** The copying part of slip_poll_handler, in one piece or in two around the end of the buffer. */
    method ReadPacket(outbuf: array<Byte>, blen: nat) returns (len: int)
      requires Bounds() && outbuf != rxbuf && begin != pktEnd && |Most(Out(Frame()), blen + 1)| <= outbuf.Length
      modifies outbuf
      ensures IsRead(old(outbuf[..]), Frame(), FirstPiece(), blen, len, outbuf[..])
    {
      hide Decode; hide Most; hide Copied; hide IsRead; hide Content;
      ghost var frame, k, out0 := Frame(), FirstPiece(), outbuf[..];
      FrameInRing(rxbuf[..], begin, pktEnd);
      Start(frame);
      var esc := false;
      if begin < pktEnd {
        len, esc := CopyOut(outbuf, blen, begin, pktEnd, 0, esc, frame);
        OnePiece(out0, frame, blen, len, esc, outbuf[..]);
      } else {
        PieceFits(frame, k, blen);
        Start(frame[..k]);
        len, esc := CopyOut(outbuf, blen, begin, rxbuf.Length, 0, esc, frame[..k]);
        ghost var len1, esc1, mid := len, esc, outbuf[..];
        ghost var onward := Onward(frame, k, blen);
        PieceDone(out0, frame, k, blen, len, esc, mid);
        len, esc := CopyOut(outbuf, blen, 0, pktEnd, len, esc, onward);
        TwoPieces(out0, frame, k, blen, len1, esc1, mid, len, esc, outbuf[..]);
      }
    }

    /** The scan for one more complete packet behind the one just read, which ended before `pktEnd`. */
    method NextPacket()
      requires Bounds()
      modifies this`begin, this`pktEnd, this`pollPending
      ensures Bounds() && begin == old(pktEnd) && pktEnd == EndOf(rxbuf.Length, begin, Buffered())
      ensures pollPending == (old(pollPending) || END in Buffered())
    {
      hide Content;
      ghost var c := Content(rxbuf[..], pktEnd, nextFree);
      if pktEnd != nextFree {
        var curPtr := pktEnd;
        ghost var j: nat := 0;
        while curPtr != nextFree
          invariant begin == old(begin) && pktEnd == old(pktEnd) && pollPending == old(pollPending)
          invariant j <= |c| && curPtr < rxbuf.Length && curPtr == Wrap(rxbuf.Length, pktEnd + j)
          invariant END !in c[..j]
          decreases |c| - j
        {
          assert j < |c| && c[j] == rxbuf[curPtr];
          if rxbuf[curPtr] == END {
            EndIndexIs(c, j);
            var tmpBegin := pktEnd;
            pktEnd := curPtr;
            begin := tmpBegin;
            pollPending := true;
            return;
          }
          curPtr := curPtr + 1;
          if curPtr == rxbuf.Length {
            curPtr := 0;
          }
          assert c[..j + 1] == c[..j] + [c[j]];
          j := j + 1;
        }
        if curPtr == nextFree {
          begin := pktEnd;
        }
        assert j == |c| && c[..j] == c;
        EndIndexIs(c, j);
      } else {
        begin := pktEnd;
        assert c == [];
      }
    }
  }

  /** The first packet is what a poll reads. */
  lemma FirstFrame(buf: Bytes, begin: nat, nextFree: nat, pktEnd: nat, queue: seq<Bytes>, partial: Bytes)
    requires Holds(buf, begin, nextFree, pktEnd, queue, partial)
    ensures pktEnd < |buf| && (begin == pktEnd <==> queue == [])
    ensures queue != [] ==> Content(buf, begin, pktEnd) == Stuff(queue[0]) && Out(Stuff(queue[0])) == queue[0]
  {
    hide Legal; hide Encode; hide Stuff; hide Decode;
    HoldsFirst(buf, begin, nextFree, pktEnd, queue, partial);
    CutBack(buf, begin, nextFree, pktEnd, queue, partial);
    if queue != [] {
      FrameOut(queue[0]);
    }
  }

  /** What is left of the buffer when the first packet is taken off. */
  lemma HoldsTaken(buf: Bytes, b0: nat, begin: nat, nextFree: nat, pktEnd: nat, queue: seq<Bytes>, partial: Bytes)
    requires Holds(buf, b0, nextFree, pktEnd, queue, partial) && queue != []
    requires pktEnd < |buf| && begin == Wrap(|buf|, pktEnd + 1) < |buf|
    ensures begin < |buf| && nextFree < |buf|
    ensures Holds(buf, begin, nextFree, EndOf(|buf|, begin, Content(buf, begin, nextFree)), queue[1..], partial)
    ensures queue[1..] != [] ==> END in Content(buf, begin, nextFree)
  {
    hide Legal; hide Encode; hide Stuff; hide Content; hide EndOf; hide Holds; hide Wrap;
    HoldsTake(buf, b0, nextFree, pktEnd, queue, partial);
    HoldsRest(buf, b0, nextFree, pktEnd, queue, partial);
    HoldsIndices(buf, b0, nextFree, pktEnd, queue, partial);
    var rest := queue[1..];
    RestEnds(|buf|, begin, rest, partial);
    HoldsMade(buf, begin, nextFree, EndOf(|buf|, begin, Encode(rest) + partial), rest, partial);
  }

  lemma HoldsMade(buf: Bytes, begin: nat, nextFree: nat, pktEnd: nat, queue: seq<Bytes>, partial: Bytes)
    requires begin < |buf| && nextFree < |buf| && Content(buf, begin, nextFree) == Encode(queue) + partial
          && Legal(partial)
    requires forall p :: p in queue ==> p != []
    requires pktEnd == if queue == [] then begin else Wrap(|buf|, begin + |Stuff(queue[0])|)
    ensures Holds(buf, begin, nextFree, pktEnd, queue, partial)
  {
  }

  lemma HoldsIndices(buf: Bytes, begin: nat, nextFree: nat, pktEnd: nat, queue: seq<Bytes>, partial: Bytes)
    requires Holds(buf, begin, nextFree, pktEnd, queue, partial)
    ensures begin < |buf| && nextFree < |buf|
  {
    hide Encode; hide Stuff; hide Legal; hide Content; hide Wrap;
  }

  /** Behind packets and a partial one, pkt_end belongs at the END of the first packet. */
  lemma RestEnds(n: nat, begin: nat, rest: seq<Bytes>, partial: Bytes)
    requires Legal(partial) && forall p :: p in rest ==> p != []
    ensures var c := Encode(rest) + partial;
            && EndOf(n, begin, c) == (if rest == [] then begin else Wrap(n, begin + |Stuff(rest[0])|))
            && (rest != [] ==> END in c)
  {
    FirstEnd(rest, partial);
    hide Legal; hide Encode; hide Stuff;
    var c := Encode(rest) + partial;
    if rest == [] {
      assert c[..|c|] == c;
      EndIndexIs(c, |c|);
    } else {
      EndIndexIs(c, |Stuff(rest[0])|);
    }
  }

  /** Where the bytes up to pkt_end lie in the buffer. */
  lemma FrameInRing(buf: Bytes, begin: nat, pktEnd: nat)
    requires begin < |buf| && pktEnd < |buf| && pktEnd != begin
    ensures var frame := Content(buf, begin, pktEnd);
            if begin < pktEnd then buf[begin..pktEnd] == frame
            else |buf| - begin <= |frame| && pktEnd == |frame| - (|buf| - begin)
                 && buf[begin..] == frame[..|buf| - begin] && buf[..pktEnd] == frame[|buf| - begin..]
  {
  }

  // ------------------------------------------------------- senders and sessions

  /** The ring is full exactly when it holds one byte less than its size. */
  lemma FullIs(rx: Receiver)
    requires rx.Clean()
    ensures rx.Full() <==> |Encode(rx.queue) + rx.partial| + 1 >= rx.rxbuf.Length
  {
    hide Encode; hide Legal; hide Pending;
  }

  /** What stays in the ring when everything behind the first packet is cut off, its END included. */
  lemma CutBack(buf: Bytes, begin: nat, nextFree: nat, pktEnd: nat, queue: seq<Bytes>, partial: Bytes)
    requires Holds(buf, begin, nextFree, pktEnd, queue, partial)
    ensures pktEnd < |buf| && Content(buf, begin, pktEnd) == if queue == [] then [] else Stuff(queue[0])
  {
    hide Legal; hide Encode; hide Stuff;
    if queue != [] {
      HoldsFirst(buf, begin, nextFree, pktEnd, queue, partial);
      HoldsTake(buf, begin, nextFree, pktEnd, queue, partial);
      var n := |Stuff(queue[0])|;
      assert Content(buf, begin, pktEnd) == Content(buf, begin, nextFree)[..n];
    }
  }

  lemma BadEscape(s: Bytes, c: Byte)
    ensures Pending(s) && c != ESC_END && c != ESC_ESC ==> !Legal(s + [c])
  {
    assert Pending(s) ==> (s + [c])[|s| - 1] == ESC && (s + [c])[|s|] == c;
  }

  lemma NoEnd(s: Bytes)
    ensures !Legal(s + [END])
  {
    assert (s + [END])[|s|] == END;
  }

  lemma EmptyIgnored(buf: Bytes, begin: nat, nextFree: nat, pktEnd: nat)
    requires Holds(buf, begin, nextFree, pktEnd, [], [])
    ensures nextFree == pktEnd
    ensures Holds(buf[nextFree := END], begin, nextFree, pktEnd, [], [])
  {
  }

  /** An END right behind buffered packets. */
  lemma EmptyStored(buf: Bytes, begin: nat, nextFree: nat, pktEnd: nat, queue: seq<Bytes>)
    requires Holds(buf, begin, nextFree, pktEnd, queue, []) && queue != []
    requires Wrap(|buf|, nextFree + 1) != begin
    ensures nextFree != pktEnd && begin != pktEnd && Unstuff([]) == []
    ensures Content(buf[nextFree := END], begin, Wrap(|buf|, nextFree + 1)) == Encode(queue + [[]])
  {
    HoldsFirst(buf, begin, nextFree, pktEnd, queue, []);
    ContentPush(buf, begin, nextFree, END);
    NothingStuffed();
    EncodeAppend(queue, []);
    hide Encode; hide Content;
  }
}
