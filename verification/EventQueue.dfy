/**
 The kernel's event queue of os/sys/process.c: a bounded FIFO in a ring of events.
 Process 0 .. are process identifiers; NONE stands for PROCESS_NONE.
 */
module EventQueue {
  import opened Arithmetic

  const NONE: int := -1

  datatype Event = TimerEvent(receiver: int, timer: int) | OtherEvent(receiver: int, ev: nat)

  datatype Option<T> = None | Some(value: T)

  /** The `n` entries of a cyclic buffer from index `first` on. */
  ghost function Cyclic(buf: seq<Event>, first: nat, n: nat): (r: seq<Event>)
    requires first < |buf| && n <= |buf|
    ensures |r| == n && forall i :: 0 <= i < n ==> r[i] == buf[Wrap(|buf|, first + i)]
  {
    seq(n, i requires 0 <= i < n => buf[Wrap(|buf|, first + i)])
  }

  lemma CyclicPush(buf: seq<Event>, first: nat, n: nat, e: Event)
    requires first < |buf| && n < |buf|
    ensures Cyclic(buf[Wrap(|buf|, first + n) := e], first, n + 1) == Cyclic(buf, first, n) + [e]
  {
  }

  lemma CyclicPop(buf: seq<Event>, first: nat, n: nat)
    requires first < |buf| && 0 < n <= |buf|
    ensures Cyclic(buf, first, n)[0] == buf[first]
    ensures Cyclic(buf, Wrap(|buf|, first + 1), n - 1) == Cyclic(buf, first, n)[1..]
  {
  }

  /** The slot process_post stores into: the sum is cut to 8 bits before it is reduced. */
  function PostSlot(first: nat, n: nat, slots: nat): (r: nat)
    requires slots > 0
    ensures r < slots
  {
    (first + n) % 256 % slots
  }

  /** For numbers of slots that fit 8 bits, the cast is harmless exactly up to 128. */
  lemma CastExact(slots: nat)
    requires 0 < slots < 256
    ensures (forall first: nat, n: nat :: first < slots && n < slots ==>
          PostSlot(first, n, slots) == Wrap(slots, first + n))
            <==> slots <= 128
  {
    hide PostSlot; hide Wrap;
    if slots <= 128 {
      forall first: nat, n: nat | first < slots && n < slots
        ensures PostSlot(first, n, slots) == Wrap(slots, first + n)
      {
        CastHarmless(slots, first, n);
      }
    } else {
      CastHarms(slots);
    }
  }

  lemma CastHarmless(slots: nat, first: nat, n: nat)
    requires slots <= 128 && first < slots && n < slots
    ensures PostSlot(first, n, slots) == Wrap(slots, first + n)
  {
    Remainder(first + n, 0, first + n, 256);
    WrapIsMod(slots, first + n);
  }

  lemma CastHarms(slots: nat)
    requires 128 < slots < 256
    ensures PostSlot(slots - 1, 257 - slots, slots) != Wrap(slots, slots - 1 + (257 - slots))
  {
    Remainder(0, 0, 0, slots);
  }

  class Queue {
    const events: array<Event>   // PROCESS_CONF_NUMEVENTS slots
    var nevents: nat
    var fevent: nat

    ghost predicate Valid()
      reads this
    {
      0 < events.Length <= 128 && nevents <= events.Length && fevent < events.Length
    }

    /** The events waiting, oldest first. */
    ghost function Waiting(): (r: seq<Event>)
      requires Valid()
      reads this, events
    {
      Cyclic(events[..], fevent, nevents)
    }

    /** process_init */
    constructor (slots: nat)
      requires 0 < slots <= 128
      ensures Valid() && Waiting() == [] && events.Length == slots && fresh(events)
    {
      events := new Event[slots](i => OtherEvent(NONE, 0));
      nevents, fevent := 0, 0;
    }

    /** process_post: fails exactly when the queue is full. */
    method Post(e: Event) returns (ok: bool)
      requires Valid()
      modifies this`nevents, events
      ensures Valid()
      ensures ok <==> |old(Waiting())| < events.Length
      ensures Waiting() == if ok then old(Waiting()) + [e] else old(Waiting())
    {
      if nevents == events.Length {
        return false;
      }
      ghost var buf0 := events[..];
      CastHarmless(events.Length, fevent, nevents);
      CyclicPush(buf0, fevent, nevents, e);
      var snum := PostSlot(fevent, nevents, events.Length);
      events[snum] := e;
      assert events[..] == buf0[snum := e];
      nevents := nevents + 1;
      return true;
    }

    /** The dequeue of do_event. */
    method Take() returns (e: Option<Event>)
      requires Valid()
      modifies this`nevents, this`fevent
      ensures Valid()
      ensures old(Waiting()) == [] ==> e == None && Waiting() == []
      ensures old(Waiting()) != [] ==> e == Some(old(Waiting())[0]) && Waiting() == old(Waiting())[1..]
    {
      if nevents == 0 {
        return None;
      }
      CyclicPop(events[..], fevent, nevents);
      e := Some(events[fevent]);
      WrapIsMod(events.Length, fevent + 1);
      fevent := (fevent + 1) % events.Length;
      nevents := nevents - 1;
    }
  }
}
