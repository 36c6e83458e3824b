/**
 Whole sessions of the SLIP link from host to node: tools/tunslip6.c writes packets, and
 os/dev/slip.c receives their bytes and is polled, in any order.
 */
module SlipSession {
  import opened Arithmetic
  import opened Octets
  import opened SlipCode
  import opened SlipRead
  import opened SlipRing
  import opened SlipOverrun

  /** write_to_serial of tools/tunslip6.c: append a packet to the host's output buffer. */
  method HostWrite(slipBuf: Bytes, p: Bytes) returns (r: Bytes)
    ensures r == slipBuf + Stuff(p) + [END]
  {
    r := slipBuf;
    assert p[..0] == [];
    for i := 0 to |p|
      invariant r == slipBuf + Stuff(p[..i])
    {
      assert p[..i + 1][..i] == p[..i];
      if p[i] == END {
        r := r + [ESC];
        r := r + [ESC_END];
      } else if p[i] == ESC {
        r := r + [ESC];
        r := r + [ESC_ESC];
      } else {
        r := r + [p[i]];
      }
    }
    assert p[..|p|] == p;
    r := r + [END];
  }

  datatype Step = Feed | Poll

  /** How far a session is: what came out, what is buffered and what is still to be sent add up. */
  ghost predicate Progress(payloads: seq<Bytes>, got: seq<Bytes>, queue: seq<Bytes>, partial: Bytes, rest: Bytes)
  {
    && |got| + |queue| <= |payloads|
    && got + queue == payloads[..|got| + |queue|]
    && partial + rest == Encode(payloads[|got| + |queue|..])
  }

  /** When all is sent and polled, everything came out. */
  lemma ProgressDone(payloads: seq<Bytes>, got: seq<Bytes>, partial: Bytes)
    requires Progress(payloads, got, [], partial, []) && Legal(partial)
    ensures got == payloads
  {
    var ps := payloads[|got|..];
    LegalEmpty();
    FirstEnd(ps, []);
    assert Encode(ps) + [] == partial;
    assert ps == [];
    assert payloads[..|payloads|] == payloads;
    assert got + [] == got;
  }

  lemma ProgressEnd(payloads: seq<Bytes>, got: seq<Bytes>, queue: seq<Bytes>, rest: Bytes, rest': Bytes, p: Bytes)
    requires Progress(payloads, got, queue, [], rest) && |got| + |queue| < |payloads|
    requires p == payloads[|got| + |queue|] && rest' == Encode(payloads[|got| + |queue| + 1..])
    ensures Progress(payloads, got, queue + [p], [], rest')
  {
    hide Encode;
    var n := |got| + |queue|;
    assert payloads[..n + 1] == payloads[..n] + [p];
    assert got + (queue + [p]) == (got + queue) + [p];
    assert [] + rest' == rest';
  }

  lemma ProgressFeed(payloads: seq<Bytes>, got: seq<Bytes>, queue: seq<Bytes>, partial: Bytes, rest: Bytes)
    requires Progress(payloads, got, queue, partial, rest) && Legal(partial) && rest != []
    requires forall p :: p in payloads ==> p != []
    ensures rest[0] != END ==>
              Legal(partial + [rest[0]]) && Progress(payloads, got, queue, partial + [rest[0]], rest[1..])
    ensures rest[0] == END ==>
              partial != [] && !Pending(partial) && Progress(payloads, got, queue + [Unstuff(partial)], [], rest[1..])
  {
    hide Encode; hide Legal; hide Unstuff; hide Stuff;
    var n := |got| + |queue|;
    var ps := payloads[n..];
    NextByte(ps, partial, rest);
    if rest[0] == END {
      assert ps[0] == payloads[n] && payloads[n] in payloads;
      StuffLegal(ps[0]);
      UnstuffStuff(ps[0]);
      assert ps[1..] == payloads[n + 1..];
      assert [] + Encode(ps) == Encode(ps);
      ProgressEnd(payloads, got, queue, Encode(ps), rest[1..], ps[0]);
    } else {
      assert (partial + [rest[0]]) + rest[1..] == partial + rest;
    }
  }

  lemma ProgressPoll(payloads: seq<Bytes>, got: seq<Bytes>, queue: seq<Bytes>, partial: Bytes, rest: Bytes)
    requires Progress(payloads, got, queue, partial, rest) && queue != []
    ensures Progress(payloads, got + [queue[0]], queue[1..], partial, rest)
    ensures queue[0] in payloads
  {
    assert (got + [queue[0]]) + queue[1..] == got + queue;
    assert payloads[..|got| + |queue|][|got|] == payloads[|got|] == (got + queue)[|got|];
  }

  /** A session in the abstract: packets polled, packets waiting, the one arriving, and what is not sent yet. */
  datatype Link = Link(got: seq<Bytes>, queue: seq<Bytes>, partial: Bytes, left: Bytes)

  /** One step of a link with room for everything: a byte arrives, if there is one, or a poll takes a packet. */
  ghost function Advance(s: Link, step: Step): (r: Link)
  {
    match step
    case Feed =>
      if s.left == [] then s
      else if s.left[0] == END then Link(s.got, s.queue + [Unstuff(s.partial)], [], s.left[1..])
      else Link(s.got, s.queue, s.partial + [s.left[0]], s.left[1..])
    case Poll =>
      if s.queue == [] then s
      else Link(s.got + [s.queue[0]], s.queue[1..], s.partial, s.left)
  }

  ghost function Play(s: Link, schedule: seq<Step>): (r: Link)
  {
    if schedule == [] then s
    else Advance(Play(s, schedule[..|schedule| - 1]), schedule[|schedule| - 1])
  }

  ghost function Fresh(payloads: seq<Bytes>): (r: Link)
  {
    Link([], [], [], Encode(payloads))
  }

  /** The step brings a byte for which a ring of `n` bytes has no room. */
  ghost predicate FindsFull(n: nat, s: Link, step: Step)
  {
    step == Feed && s.left != [] && |Encode(s.queue) + s.partial| + 1 >= n
  }

  /** No byte of the schedule finds a ring of `n` bytes full. */
  ghost predicate NeverFull(n: nat, payloads: seq<Bytes>, schedule: seq<Step>)
  {
    schedule == [] ||
    var before := schedule[..|schedule| - 1];
    NeverFull(n, payloads, before) && !FindsFull(n, Play(Fresh(payloads), before), schedule[|schedule| - 1])
  }

  /** Nothing is lost, duplicated or reordered between the host and the reader. */
  ghost predicate Sane(payloads: seq<Bytes>, s: Link)
  {
    Progress(payloads, s.got, s.queue, s.partial, s.left) && Legal(s.partial)
  }

  lemma AdvanceSane(payloads: seq<Bytes>, s: Link, step: Step)
    requires Sane(payloads, s) && forall p :: p in payloads ==> p != []
    ensures Sane(payloads, Advance(s, step))
  {
    hide Encode; hide Legal; hide Unstuff; hide Progress; hide Pending;
    LegalEmpty();
    match step
    case Feed =>
      if s.left != [] {
        ProgressFeed(payloads, s.got, s.queue, s.partial, s.left);
      }
    case Poll =>
      if s.queue != [] {
        ProgressPoll(payloads, s.got, s.queue, s.partial, s.left);
      }
  }

  /** On such a link no packet is lost, duplicated or reordered, whatever the schedule. */
  lemma {:induction false} PlaySane(payloads: seq<Bytes>, schedule: seq<Step>)
    requires forall p :: p in payloads ==> p != []
    ensures Sane(payloads, Play(Fresh(payloads), schedule))
    ensures Play(Fresh(payloads), schedule).got <= payloads
    decreases |schedule|
  {
    hide Advance; hide Encode; hide Legal; hide Progress;
    var s := Play(Fresh(payloads), schedule);
    if |schedule| == 0 {
      assert payloads[..|payloads|] == payloads;
      ProgressStart(payloads, Encode(payloads));
      LegalEmpty();
    } else {
      var before := schedule[..|schedule| - 1];
      PlaySane(payloads, before);
      AdvanceSane(payloads, Play(Fresh(payloads), before), schedule[|schedule| - 1]);
    }
    ProgressPrefix(payloads, s.got, s.queue, s.partial, s.left);
  }

  /** A poll after every byte. */
  function Alternating(k: nat): (r: seq<Step>)
  {
    if k == 0 then [] else Alternating(k - 1) + [Feed, Poll]
  }

  /**
   With a poll after every byte, a ring with room for the longest packet is never full, and
   everything is delivered.
   */
  lemma Delivered(n: nat, payloads: seq<Bytes>)
    requires forall p :: p in payloads ==> p != [] && |Stuff(p)| + 2 <= n
    ensures NeverFull(n, payloads, Alternating(|Encode(payloads)|))
    ensures Play(Fresh(payloads), Alternating(|Encode(payloads)|)) == Link(payloads, [], [], [])
  {
    hide Play; hide Encode; hide Legal; hide Progress; hide Alternating; hide NeverFull;
    var k := |Encode(payloads)|;
    var s := Play(Fresh(payloads), Alternating(k));
    PairsPlayed(n, payloads, k);
    ProgressDone(payloads, s.got, s.partial);
    DonePartial(payloads, s);
  }

  lemma DonePartial(payloads: seq<Bytes>, s: Link)
    requires Sane(payloads, s) && s.queue == [] && s.left == [] && s.got == payloads
    ensures s.partial == []
  {
    assert payloads[|payloads|..] == [];
  }

  lemma {:induction false} PairsPlayed(n: nat, payloads: seq<Bytes>, k: nat)
    requires forall p :: p in payloads ==> p != [] && |Stuff(p)| + 2 <= n
    requires k <= |Encode(payloads)|
    ensures NeverFull(n, payloads, Alternating(k))
    ensures var s := Play(Fresh(payloads), Alternating(k));
            Sane(payloads, s) && s.queue == [] && s.left == Encode(payloads)[k..]
  {
    hide Advance; hide Encode; hide Sane; hide Stuff; hide FindsFull;
    PlaySane(payloads, Alternating(k));
    if k > 0 {
      PairsPlayed(n, payloads, k - 1);
      hide Play; hide NeverFull;
      var s := Play(Fresh(payloads), Alternating(k - 1));
      PairPlayed(n, payloads, s);
      PlayPair(n, payloads, Alternating(k - 1));
      assert Encode(payloads)[k - 1..][1..] == Encode(payloads)[k..];
    }
  }

  lemma PlayPair(n: nat, payloads: seq<Bytes>, schedule: seq<Step>)
    ensures var s, pair := Play(Fresh(payloads), schedule), schedule + [Feed, Poll];
            && Play(Fresh(payloads), pair) == Advance(Advance(s, Feed), Poll)
            && (NeverFull(n, payloads, pair) <==> NeverFull(n, payloads, schedule) && !FindsFull(n, s, Feed))
  {
    hide Advance; hide Encode;
    assert (schedule + [Feed, Poll])[..|schedule| + 1] == schedule + [Feed];
    assert (schedule + [Feed])[..|schedule|] == schedule;
  }

  /** A byte and a poll, when no packet is waiting: the byte has room and no packet is left waiting. */
  lemma PairPlayed(n: nat, payloads: seq<Bytes>, s: Link)
    requires forall p :: p in payloads ==> p != [] && |Stuff(p)| + 2 <= n
    requires Sane(payloads, s) && s.queue == [] && s.left != []
    ensures !FindsFull(n, s, Feed)
    ensures var t := Advance(Advance(s, Feed), Poll); t.queue == [] && t.left == s.left[1..]
  {
    hide Legal; hide Stuff; hide Encode; hide Unstuff;
    EncodeNone();
    var rest := payloads[|s.got|..];
    NextByte(rest, s.partial, s.left);
    assert rest[0] == payloads[|s.got|] && rest[0] in payloads;
    assert |s.partial| + 1 <= |Stuff(rest[0])| + 1;
  }

  /**
   The receiver under any interleaving of arriving bytes and polls.  As long as no byte finds the
   ring full it does what the link does: what the non-zero polls return is always a prefix of the
   packets the host sent, and all of them once everything has arrived and been polled.  The first
   byte that does find it full, at step `k`, leaves the state from which SlipOverrun.dfy goes on;
   if any packet was polled before, the unused slot then holds an END.  `left` is what has not
   arrived yet.
   */
  method Session(rx: Receiver, payloads: seq<Bytes>, schedule: seq<Step>, outbuf: array<Byte>)
    returns (got: seq<Bytes>, left: Bytes, k: nat, ghost stale: Byte)
    requires rx.Clean() && rx.queue == [] && rx.partial == [] && outbuf != rx.rxbuf
    requires forall p :: p in payloads ==> 0 < |p| <= outbuf.Length
    modifies rx, rx.rxbuf, outbuf
    ensures k <= |schedule| && (k == |schedule| <==> NeverFull(rx.rxbuf.Length, payloads, schedule))
    ensures k == |schedule| ==>
              && rx.Clean() && Link(got, rx.queue, rx.partial, left) == Play(Fresh(payloads), schedule)
              && got <= payloads && (left == [] && rx.queue == [] ==> got == payloads)
    ensures k < |schedule| ==>
              var s := Play(Fresh(payloads), schedule[..k]);
              && NeverFull(rx.rxbuf.Length, payloads, schedule[..k]) && FindsFull(rx.rxbuf.Length, s, schedule[k])
              && got == s.got && got <= payloads && left == s.left[1..]
              && Overrun(rx, s.queue, s.partial, stale) && (got != [] ==> stale == END)
  {
    hide Encode; hide Legal; hide Holds; hide Stuff; hide Unstuff; hide Pending; hide Progress; hide Play;
    hide NeverFull; hide Content; hide Overrun;
    ghost var n := rx.rxbuf.Length;
    stale := 0;
    left := [];
    EncodeNone();
    assert payloads[..0] == [];
    for i := 0 to |payloads|
      invariant left == Encode(payloads[..i])
      invariant rx.Clean() && rx.queue == [] && rx.partial == []
    {
      left := HostWrite(left, payloads[i]);
      EncodeAppend(payloads[..i], payloads[i]);
      assert payloads[..i + 1] == payloads[..i] + [payloads[i]];
    }
    assert payloads[..|payloads|] == payloads;
    got, k := [], 0;
    PlayNone(n, payloads);
    assert schedule[..0] == [];
    while k < |schedule|
      invariant k <= |schedule| && rx.Clean() && NeverFull(n, payloads, schedule[..k])
      invariant Link(got, rx.queue, rx.partial, left) == Play(Fresh(payloads), schedule[..k])
      invariant got != [] ==> rx.rxbuf[SlotBefore(rx.rxbuf.Length, rx.begin)] == END
    {
      PlaySane(payloads, schedule[..k]);
      PlayMore(n, payloads, schedule, k);
      var more := StepOn(rx, payloads, schedule[k], got, left, outbuf);
      if !more.on {
        if NeverFull(n, payloads, schedule) {
          NeverFullBefore(n, payloads, schedule, k + 1);
        }
        left := left[1..];
        stale := rx.rxbuf[SlotBefore(rx.rxbuf.Length, rx.begin)];
        return;
      }
      got, left := more.got, more.left;
      k := k + 1;
    }
    assert schedule[..|schedule|] == schedule;
    PlaySane(payloads, schedule);
    if left == [] && rx.queue == [] {
      ProgressDone(payloads, got, rx.partial);
    }
  }

  datatype More = More(on: bool, got: seq<Bytes>, left: Bytes)

  /** One step of a session; `on` unless the byte finds the ring full. */
  method StepOn(rx: Receiver, ghost payloads: seq<Bytes>, step: Step, got: seq<Bytes>, left: Bytes, outbuf: array<Byte>)
    returns (r: More)
    requires rx.Clean() && outbuf != rx.rxbuf && Sane(payloads, Link(got, rx.queue, rx.partial, left))
    requires forall p :: p in payloads ==> 0 < |p| <= outbuf.Length
    modifies rx, rx.rxbuf, outbuf
    ensures r.on <==> !FindsFull(rx.rxbuf.Length, old(Link(got, rx.queue, rx.partial, left)), step)
    ensures r.on ==> rx.Clean() && Link(r.got, rx.queue, rx.partial, r.left)
                                == Advance(old(Link(got, rx.queue, rx.partial, left)), step)
    ensures !r.on ==> rx.Bounds() && rx.begin == old(rx.begin) && rx.rxbuf[..] == old(rx.rxbuf[..])
    ensures !r.on ==> Overrun(rx, old(rx.queue), old(rx.partial), rx.rxbuf[SlotBefore(rx.rxbuf.Length, rx.begin)])
    ensures (old(rx.rxbuf[SlotBefore(rx.rxbuf.Length, rx.begin)]) == END || r.got != got) && r.on ==>
              rx.rxbuf[SlotBefore(rx.rxbuf.Length, rx.begin)] == END
  {
    hide Encode; hide Legal; hide Holds; hide Stuff; hide Unstuff; hide Pending; hide Progress; hide Content;
    hide IsRead; hide Decode; hide Most; hide EndOf; hide Stored;
    FullIs(rx);
    match step
    case Feed => r := FeedOn(rx, payloads, got, left);
    case Poll => r := PollOn(rx, payloads, got, left, outbuf);
  }

  method FeedOn(rx: Receiver, ghost payloads: seq<Bytes>, got: seq<Bytes>, left: Bytes) returns (r: More)
    requires rx.Clean() && Sane(payloads, Link(got, rx.queue, rx.partial, left))
    requires forall p :: p in payloads ==> p != []
    modifies rx, rx.rxbuf
    ensures r.on <==> left == [] || !old(rx.Full())
    ensures r.on ==> rx.Clean() && Link(r.got, rx.queue, rx.partial, r.left)
                                == Advance(old(Link(got, rx.queue, rx.partial, left)), Feed)
    ensures rx.Bounds() && rx.begin == old(rx.begin) && r.got == got
    ensures !r.on ==> rx.rxbuf[..] == old(rx.rxbuf[..])
    ensures !r.on ==> Overrun(rx, old(rx.queue), old(rx.partial), rx.rxbuf[SlotBefore(rx.rxbuf.Length, rx.begin)])
    ensures rx.rxbuf[SlotBefore(rx.rxbuf.Length, rx.begin)] == old(rx.rxbuf[SlotBefore(rx.rxbuf.Length, rx.begin)])
  {
    hide Encode; hide Legal; hide Holds; hide Stuff; hide Unstuff; hide Pending; hide Progress; hide Content;
    hide Stored; hide Junk;
    if left == [] {
      return More(true, got, left);
    }
    FirstFrame(rx.rxbuf[..], rx.begin, rx.nextFree, rx.pktEnd, rx.queue, rx.partial);
    ProgressFeed(payloads, got, rx.queue, rx.partial, left);
    BadEscape(rx.partial, left[0]);
    ghost var q, part := rx.queue, rx.partial;
    if rx.Full() {
      SlotFull(rx.Raw());
      if q != [] {
        RoundTheRing(rx.rxbuf[..], rx.begin, rx.nextFree, rx.pktEnd, q, part);
      }
    } else {
      SlotKept(rx, left[0]);
    }
    var _ := rx.InputByte(left[0]);
    if rx.state == Rubbish {
      return More(false, got, left);
    }
    r := More(true, got, left[1..]);
  }

  method PollOn(rx: Receiver, ghost payloads: seq<Bytes>, got: seq<Bytes>, left: Bytes, outbuf: array<Byte>)
    returns (r: More)
    requires rx.Clean() && outbuf != rx.rxbuf && Sane(payloads, Link(got, rx.queue, rx.partial, left))
    requires forall p :: p in payloads ==> 0 < |p| <= outbuf.Length
    modifies rx, outbuf
    ensures r.on && rx.Clean() && Link(r.got, rx.queue, rx.partial, r.left)
                                == Advance(old(Link(got, rx.queue, rx.partial, left)), Poll)
    ensures if r.got == got then rx.begin == old(rx.begin) else rx.rxbuf[SlotBefore(rx.rxbuf.Length, rx.begin)] == END
  {
    hide Encode; hide Legal; hide Holds; hide Stuff; hide Progress; hide Content; hide IsRead; hide Decode;
    hide Most; hide EndOf; hide Pending;
    ghost var q := rx.queue;
    FirstFrame(rx.rxbuf[..], rx.begin, rx.nextFree, rx.pktEnd, q, rx.partial);
    if q != [] {
      ProgressPoll(payloads, got, q, rx.partial, left);
      MostShort(q[0], outbuf.Length + 1);
      SlotPolled(rx.rxbuf[..], rx.begin, rx.nextFree, rx.pktEnd, q, rx.partial);
    }
    rx.pollPending := false;
    var len := rx.PollHandler(outbuf, outbuf.Length);
    r := More(true, if len > 0 then got + [outbuf[..len]] else got, left);
  }

  /** Nothing is ever stored in the slot before `begin`. */
  lemma SlotKept(rx: Receiver, c: Byte)
    requires rx.Bounds() && !rx.Full()
    ensures var g := Stored(rx.Raw(), c); var i := SlotBefore(rx.rxbuf.Length, rx.begin);
            |g.buf| == rx.rxbuf.Length && g.buf[i] == rx.rxbuf[i]
  {
  }

  /** When the ring is full, that slot is next_free. */
  lemma SlotFull(g: Ring)
    requires Within(g)
    ensures Wrap(|g.buf|, g.nextFree + 1) == g.begin ==> SlotBefore(|g.buf|, g.begin) == g.nextFree
  {
  }

  /** After a poll that slot holds the END of the packet polled. */
  lemma SlotPolled(buf: Bytes, begin: nat, nextFree: nat, pktEnd: nat, queue: seq<Bytes>, partial: Bytes)
    requires Holds(buf, begin, nextFree, pktEnd, queue, partial) && queue != []
    ensures pktEnd < |buf| && Wrap(|buf|, pktEnd + 1) < |buf| && buf[SlotBefore(|buf|, Wrap(|buf|, pktEnd + 1))] == END
  {
    HoldsAt(buf, begin, nextFree, pktEnd, queue, partial);
    HoldsFirst(buf, begin, nextFree, pktEnd, queue, partial);
    FirstEnd(queue, partial);
    var k := |Stuff(queue[0])|;
    assert Content(buf, begin, nextFree)[k] == END;
    hide Encode; hide Stuff; hide Legal;
  }

  lemma PlayNone(n: nat, payloads: seq<Bytes>)
    ensures Play(Fresh(payloads), []) == Fresh(payloads) && NeverFull(n, payloads, [])
  {
  }

  lemma PlayMore(n: nat, payloads: seq<Bytes>, schedule: seq<Step>, i: nat)
    requires i < |schedule|
    ensures var s, more := Play(Fresh(payloads), schedule[..i]), schedule[..i + 1];
            && Play(Fresh(payloads), more) == Advance(s, schedule[i])
            && (NeverFull(n, payloads, more) <==>
                  NeverFull(n, payloads, schedule[..i]) && !FindsFull(n, s, schedule[i]))
  {
    hide Advance;
    assert schedule[..i + 1][..i] == schedule[..i];
  }

  lemma {:induction false} NeverFullBefore(n: nat, payloads: seq<Bytes>, schedule: seq<Step>, i: nat)
    requires i <= |schedule| && NeverFull(n, payloads, schedule)
    ensures NeverFull(n, payloads, schedule[..i])
    decreases |schedule|
  {
    if i < |schedule| {
      var before := schedule[..|schedule| - 1];
      NeverFullBefore(n, payloads, before, i);
      assert before[..i] == schedule[..i];
    } else {
      assert schedule[..i] == schedule;
    }
  }

  lemma ProgressStart(payloads: seq<Bytes>, left: Bytes)
    requires left == Encode(payloads[..|payloads|])
    ensures Progress(payloads, [], [], [], left)
  {
    assert payloads[..|payloads|] == payloads == payloads[0..];
  }

  lemma ProgressPrefix(payloads: seq<Bytes>, got: seq<Bytes>, queue: seq<Bytes>, partial: Bytes, rest: Bytes)
    requires Progress(payloads, got, queue, partial, rest)
    ensures got <= payloads
  {
    assert forall i :: 0 <= i < |got| ==> got[i] == (got + queue)[i] == payloads[i];
  }
}
