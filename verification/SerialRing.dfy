/**
 The serial line of os/dev/serial-line.c on the ring of os/lib/ringbuf.c: the interrupt handler
 and the process interleave at every load and store of the ring.  Every such run yields a
 schedule of SerialLine.dfy, in which the ring is a queue of bytes.
 */
module SerialRing {
  import opened Octets
  import R = RingBuf
  import S = SerialLine

  /** One step of the producer, `c` being the byte that arrives if it is idle, or one of the consumer. */
  datatype Move = Produce(c: Byte) | Consume

  /** The ring with the two threads in it, the overflow flag, the input so far, and the schedule it amounts to. */
  datatype State = State(ring: R.State<Byte>, overflow: bool, input: Bytes, schedule: seq<S.Move>)

  function Init(data: Bytes): (r: State)
  {
    State(R.Init(data), false, [], [])
  }

  /** serial_line_input_byte up to its call of ringbuf_put, if it makes one, for a byte that arrives. */
  function Begin(s: State, c: Byte): (r: State)
    requires R.Inv(s.ring) && s.ring.putting.PutIdle?
  {
    if c == S.CR then s.(schedule := s.schedule + [S.Arrive(c, false)])
    else if s.overflow && c != S.END then s.(input := s.input + [c], schedule := s.schedule + [S.Arrive(c, false)])
    else State(R.Step(s.ring, R.Put(c)), s.overflow, s.input + [c], s.schedule)
  }

  /** A later step of that call; when it returns, the overflow flag is updated. */
  function GoOn(s: State): (r: State)
    requires R.Inv(s.ring) && !s.ring.putting.PutIdle?
  {
    var c := s.ring.putting.c;
    var ring := R.Step(s.ring, R.Put(c));
    if !ring.putting.PutIdle? then s.(ring := ring)
    else
      var room := ring.refused == s.ring.refused;
      State(ring, !room, s.input, s.schedule + [S.Arrive(c, room)])
  }

  /** A step of ringbuf_get; when it returns, the process has taken its turn. */
  function Take(s: State): (r: State)
    requires R.Inv(s.ring)
  {
    var ring := R.Step(s.ring, R.Get);
    if ring.getting.GetIdle? then s.(ring := ring, schedule := s.schedule + [S.Turn]) else s.(ring := ring)
  }

  function Step(s: State, m: Move): (r: State)
    requires R.Inv(s.ring)
  {
    match m
    case Produce(c) => if s.ring.putting.PutIdle? then Begin(s, c) else GoOn(s)
    case Consume => Take(s)
  }

  /** The byte whose call of ringbuf_put is under way. */
  function InHand(s: State): (r: Bytes)
  {
    if s.ring.putting.PutIdle? then [] else [s.ring.putting.c]
  }

  /** The schedule so far puts into the ring, and takes out of it, what the two threads did. */
  ghost predicate Agrees(s: State)
  {
    && R.Inv(s.ring) && s.ring.returned <= s.ring.accepted
    && (var f := S.FlowOf(|s.ring.data|, s.schedule);
        f.overflow == s.overflow && f.taken == s.ring.returned && f.taken + f.ring == s.ring.accepted)
    && S.WithoutCr(s.schedule) + InHand(s) == s.input
    && (!s.ring.putting.PutIdle? ==> s.ring.putting.c != S.CR && (s.overflow ==> s.ring.putting.c == S.END))
  }

  lemma FlowOn(n: nat, schedule: seq<S.Move>, m: S.Move)
    ensures S.FlowOf(n, schedule + [m]) == S.FlowStep(n, S.FlowOf(n, schedule), m)
    ensures S.WithoutCr(schedule + [m]) == S.WithoutCr(schedule) + if m.Arrive? && m.c != S.CR then [m.c] else []
  {
    assert (schedule + [m])[..|schedule|] == schedule;
  }

  lemma BeginAgrees(s: State, c: Byte)
    requires Agrees(s) && s.ring.putting.PutIdle?
    ensures Agrees(Begin(s, c))
  {
    FlowOn(|s.ring.data|, s.schedule, S.Arrive(c, false));
    R.PutStepInv(s.ring, c);
    hide R.Inv; hide S.FlowOf; hide S.WithoutCr;
    assert S.WithoutCr(s.schedule) + [] == S.WithoutCr(s.schedule);
  }

  /** The step of a call of ringbuf_put that is under way. */
  lemma PutGoesOn(r: R.State<Byte>)
    requires R.Inv(r) && !r.putting.PutIdle?
    ensures var c, r' := r.putting.c, R.Step(r, R.Put(r.putting.c));
            && R.Inv(r') && |r'.data| == |r.data| && r'.returned == r.returned && r'.refused >= r.refused
            && (!r'.putting.PutIdle? ==> r'.putting.c == c && r'.accepted == r.accepted && r'.refused == r.refused)
            && (r'.putting.PutIdle? && r'.refused != r.refused ==> r'.accepted == r.accepted)
            && (r'.putting.PutIdle? && r'.refused == r.refused ==>
                  r'.accepted == r.accepted + [c] && |r.accepted| - |r.returned| < |r.data| - 1)
  {
    R.PutStepInv(r, r.putting.c);
  }

  lemma GoOnAgrees(s: State)
    requires Agrees(s) && !s.ring.putting.PutIdle?
    ensures Agrees(GoOn(s))
  {
    var c, r, f := s.ring.putting.c, GoOn(s).ring, S.FlowOf(|s.ring.data|, s.schedule);
    PutGoesOn(s.ring);
    R.UnreadIs(r);
    if !r.putting.PutIdle? {
      return;
    }
    var room := r.refused == s.ring.refused;
    FlowOn(|s.ring.data|, s.schedule, S.Arrive(c, room));
    assert S.WithoutCr(s.schedule + [S.Arrive(c, room)]) + [] == S.WithoutCr(s.schedule) + [c];
    assert |f.ring| == |s.ring.accepted| - |s.ring.returned|;
    if room {
      PutsByte(|s.ring.data|, f, c, s.ring.accepted);
    }
    hide R.Inv; hide R.Step;
  }

  /** In the schedule, a byte that has room goes to the end of the ring. */
  lemma PutsByte(n: nat, f: S.Flow, c: Byte, accepted: Bytes)
    requires f.taken + f.ring == accepted && |f.ring| < n - 1 && c != S.CR && (f.overflow ==> c == S.END)
    ensures var f' := S.FlowStep(n, f, S.Arrive(c, true));
            !f'.overflow && f'.taken == f.taken && f'.taken + f'.ring == accepted + [c]
  {
    assert f.taken + (f.ring + [c]) == (f.taken + f.ring) + [c];
  }

  lemma GetGoesOn(r: R.State<Byte>)
    requires R.Inv(r)
    ensures var r' := R.Step(r, R.Get);
            && R.Inv(r') && |r'.data| == |r.data| && r'.accepted == r.accepted && r'.putting == r.putting
            && r'.refused == r.refused
            && r.returned <= r.accepted && r'.returned <= r'.accepted
            && (!r'.getting.GetIdle? ==> r'.returned == r.returned)
            && (r'.getting.GetIdle? ==>
                  if r.accepted == r.returned then r'.returned == r.returned
                  else r'.returned == r.returned + [r.accepted[|r.returned|]])
  {
    R.GetStepInv(r);
    R.UnreadIs(r);
    R.UnreadIs(R.Step(r, R.Get));
  }

  lemma TakeAgrees(s: State)
    requires Agrees(s)
    ensures Agrees(Take(s))
  {
    GetGoesOn(s.ring);
    hide R.Inv; hide R.Step; hide S.FlowOf; hide S.WithoutCr;
    var f := S.FlowOf(|s.ring.data|, s.schedule);
    FlowOn(|s.ring.data|, s.schedule, S.Turn);
    assert S.WithoutCr(s.schedule) + [] == S.WithoutCr(s.schedule);
    if f.ring != [] {
      assert (f.taken + [f.ring[0]]) + f.ring[1..] == f.taken + f.ring;
      assert (f.taken + f.ring)[|f.taken|] == f.ring[0];
    } else {
      assert f.taken + f.ring == f.taken;
    }
  }

  function Run(s: State, moves: seq<Move>): (r: State)
    requires Agrees(s)
    ensures Agrees(r)
  {
    if moves == [] then s
    else
      var before := Run(s, moves[..|moves| - 1]);
      StepAgrees(before, moves[|moves| - 1]);
      Step(before, moves[|moves| - 1])
  }

  lemma StepAgrees(s: State, m: Move)
    requires Agrees(s)
    ensures Agrees(Step(s, m))
  {
    match m
    case Produce(c) =>
      if s.ring.putting.PutIdle? {
        BeginAgrees(s, c);
      } else {
        GoOnAgrees(s);
      }
    case Consume => TakeAgrees(s);
  }

  lemma InitAgrees(data: Bytes)
    requires R.IsSize(|data|)
    ensures Agrees(Init(data))
  {
    R.InitInv(data);
  }

  /**
   Whatever the interleaving of loads and stores, there is a schedule of the serial line with the
   same input in which the process takes the bytes it gets from the ring, in the same order.
   */
  lemma RunIsSchedule(data: Bytes, moves: seq<Move>)
    requires R.IsSize(|data|)
    ensures Agrees(Init(data))
    ensures var s := Run(Init(data), moves);
            && S.FlowOf(|s.ring.data|, s.schedule).taken == s.ring.returned
            && S.WithoutCr(s.schedule) + InHand(s) == s.input
  {
    InitAgrees(data);
    hide R.Inv; hide Run;
  }

  /** If no call of ringbuf_put was refused, every byte of the input went into the ring, in order. */
  lemma {:induction false} NoneRefused(data: Bytes, moves: seq<Move>)
    requires R.IsSize(|data|)
    ensures Agrees(Init(data))
    ensures var s := Run(Init(data), moves);
            s.ring.refused == 0 ==> !s.overflow && s.ring.accepted + InHand(s) == s.input
    decreases |moves|
  {
    InitAgrees(data);
    if moves != [] {
      NoneRefused(data, moves[..|moves| - 1]);
      RefusedStep(Run(Init(data), moves[..|moves| - 1]), moves[|moves| - 1]);
    }
  }

  lemma RefusedStep(s: State, m: Move)
    requires Agrees(s)
    requires s.ring.refused == 0 ==> !s.overflow && s.ring.accepted + InHand(s) == s.input
    ensures var s' := Step(s, m);
            s'.ring.refused == 0 ==> !s'.overflow && s'.ring.accepted + InHand(s') == s'.input
  {
    hide R.Inv; hide S.FlowOf; hide S.WithoutCr; hide R.Step;
    match m
    case Produce(c) =>
      if s.ring.putting.PutIdle? {
        PutBegins(s.ring, c);
        assert s.ring.accepted + [] == s.ring.accepted;
      } else {
        PutGoesOn(s.ring);
        assert (s.ring.accepted + [s.ring.putting.c]) + [] == s.ring.accepted + [s.ring.putting.c];
      }
    case Consume => GetGoesOn(s.ring);
  }

  lemma PutBegins(r: R.State<Byte>, c: Byte)
    requires R.Inv(r) && r.putting.PutIdle?
    ensures var r' := R.Step(r, R.Put(c));
            r'.putting != R.PutIdle && r'.putting.c == c && r'.accepted == r.accepted && r'.refused == r.refused
  {
  }

  /** What is a prefix of an input line stays one when more bytes arrive. */
  lemma SourcedOn(n: nat, input: Bytes, c: Byte, lines: seq<Bytes>, src: seq<nat>)
    requires S.Sourced(n, input, lines, src)
    ensures S.Sourced(n, input + [c], lines, src)
  {
    hide S.Lines;
    forall i | 0 <= i < |lines|
      ensures src[i] < |S.Lines(input + [c])| && lines[i] <= S.Lines(input + [c])[src[i]]
    {
      S.LinesGrow(input, c, lines[i], src[i]);
    }
  }

  /**
   The driver on the ring: whatever the interleaving of loads and stores, the lines delivered are
   those of the bytes the process got from the ring, and each is a prefix, shorter than the buffer,
   of an input line, with strictly increasing source lines.  If the ring was never found full and
   nothing is left in it, they are the lines of the input.
   */
  method LinesDelivered(data: Bytes, moves: seq<Move>) returns (lines: seq<Bytes>)
    requires R.IsSize(|data|)
    ensures Agrees(Init(data)) && |data| > 0
    ensures S.Delivers(|data|, Run(Init(data), moves).ring.returned, lines)
    ensures exists src :: S.Sourced(|data|, Run(Init(data), moves).input, lines, src)
    ensures var s := Run(Init(data), moves);
            s.ring.refused == 0 && s.ring.putting.PutIdle? && s.ring.returned == s.ring.accepted ==>
              S.Delivers(|data|, s.input, lines)
  {
    NoneRefused(data, moves);
    RunIsSchedule(data, moves);
    SameSize(Init(data), moves);
    hide R.Inv; hide Run; hide S.Delivers; hide S.Sourced;
    var s := Run(Init(data), moves);
    lines := S.Run(|data|, s.schedule);
    ghost var src :| S.Sourced(|data|, S.WithoutCr(s.schedule), lines, src);
    assert s.ring.accepted + [] == s.ring.accepted;
    if s.ring.putting.PutIdle? {
      assert S.WithoutCr(s.schedule) + [] == S.WithoutCr(s.schedule);
    } else {
      SourcedOn(|data|, S.WithoutCr(s.schedule), s.ring.putting.c, lines, src);
    }
    assert S.Sourced(|data|, s.input, lines, src);
  }

  lemma {:induction false} SameSize(s: State, moves: seq<Move>)
    requires Agrees(s)
    ensures |Run(s, moves).ring.data| == |s.ring.data| > 0
    decreases |moves|
  {
    hide Agrees;
    if |moves| > 0 {
      var before := moves[..|moves| - 1];
      SameSize(s, before);
      StepSize(Run(s, before), moves[|moves| - 1]);
    } else {
      StepSize(s, Consume);
    }
  }

  lemma StepSize(s: State, m: Move)
    requires Agrees(s)
    ensures |Step(s, m).ring.data| == |s.ring.data| > 0
  {
  }
}
