/**
 The Trickle timer of os/lib/trickle-timer.c with drift compensation, section 4 of
 RFC 6206.  The clock has W bits and wraps; callbacks may run arbitrarily late.
 The clock and the random numbers are parameters.
 */
module TrickleTimer {
  import opened Arithmetic
  import opened TrickleConfig

  /** What the ctimer will call. */
  datatype Callback = NoCall | CallFire | CallDouble

  function Min(a: nat, b: nat): (r: nat)
    ensures r <= a && r <= b && (r == a || r == b)
  {
    if a <= b then a else b
  }

  /** get_t: a point in the second half of an interval. */
  function GetT(i: nat, rnd: nat): (t: nat)
    requires i >= 2
    ensures i / 2 <= t < i
  {
    i / 2 + rnd % (i / 2)
  }

  lemma GetTIs(i: nat, rnd: nat)
    requires i >= 2
    ensures GetT(i, rnd) == i / 2 + rnd % (i / 2)
  {
  }

  lemma NextInterval(i: nat, max: nat)
    ensures Min(2 * i, max) == if i <= max / 2 then i * 2 else max
  {
  }

  /** A time on the W-bit clock. */
  function Clock(w: nat, x: int): (r: nat)
  {
    Modulo(Pow2(w), x)
  }

  /** Ticks from `now` to `target` on the wrapping clock, zero if `target` has passed. */
  function Until(w: nat, target: nat, now: nat): (d: nat)
  {
    var d := Clock(w, target - now);
    if d > ClockMax(w) / 2 then 0 else d
  }

  /**
   The delay computed on the wrapping clock is the true one, for a target within half a round of
   now: the ticks left until time `t`, or none when it has passed.
   */
  lemma UntilTrue(w: nat, target: nat, now: nat, t: nat, n: nat)
    requires w > 0 && Clock(w, target) == Clock(w, t) && Clock(w, now) == Clock(w, n)
    requires n <= t + Pow2(w - 1) && t < n + Pow2(w - 1)
    ensures Until(w, target, now) == if t >= n then t - n else 0
  {
    SameDifference(w, target, now, t, n);
    HalfClock(w);
    if t >= n {
      ClockSmall(w, t - n);
    } else {
      ClockRound(w, t - n);
    }
    hide Clock; hide Pow2;
  }

  lemma ClockRound(w: nat, a: int)
    requires a < 0 <= a + Pow2(w)
    ensures Clock(w, a) == a + Pow2(w)
  {
    Remainder(a, -1, a + Pow2(w), Pow2(w));
  }

  /** Differences on the clock depend on the readings alone. */
  lemma SameDifference(w: nat, a: int, b: int, c: int, d: int)
    requires Clock(w, a) == Clock(w, c) && Clock(w, b) == Clock(w, d)
    ensures Clock(w, a - b) == Clock(w, c - d)
  {
    ClockAdd(w, a, -b);
    ClockAdd(w, c, -b);
    ClockAdd(w, b, c - b - d);
    ClockAdd(w, d, c - b - d);
    assert a + -b == a - b && c + -b == c - b;
    assert b + (c - b - d) == c - d && d + (c - b - d) == c - b;
    hide Clock;
  }

  lemma ClockAdd(w: nat, a: int, b: int)
    ensures Clock(w, Clock(w, a) + b) == Clock(w, a + b)
  {
    ModAdd(a, b, Pow2(w));
  }

  lemma ClockSmall(w: nat, a: nat)
    requires a < Pow2(w)
    ensures Clock(w, a) == a
  {
    Remainder(a, 0, a, Pow2(w));
  }

  ghost function Sum(s: seq<nat>): (r: nat)
  {
    if s == [] then 0 else Sum(s[..|s| - 1]) + s[|s| - 1]
  }

  /** Each interval is twice the one before, up to the maximum. */
  ghost predicate Doubling(s: seq<nat>, max: nat)
  {
    forall j {:trigger s[j]} :: 0 < j < |s| ==> s[j] == Min(2 * s[j - 1], max)
  }

  lemma DoubledStep(x: nat, n: nat)
    ensures Doubled(x, 0) == x
    ensures n > 0 ==> Doubled(x, n) == 2 * Doubled(x, n - 1)
  {
  }

  /** The n-th interval after a reset is the first one doubled n times, up to the maximum. */
  lemma {:induction false} DoublingClosed(s: seq<nat>, max: nat, n: nat)
    requires Doubling(s, max) && n < |s| && s[0] <= max
    ensures s[n] == Min(Doubled(s[0], n), max)
  {
    hide Doubled;
    DoubledStep(s[0], n);
    if n > 0 {
      DoublingClosed(s, max, n - 1);
      assert s[n] == Min(2 * s[n - 1], max);
    }
  }

  /** What the protocol's callback may do to the timer. */
  datatype Action =
    | Nothing
    | Halt
    | Reset(now: nat, rnd: nat)
    | Restart(now: nat, rnd1: nat, rnd2: nat)

  predicate ActionOnClock(w: nat, act: Action)
  {
    match act
    case Nothing => true
    case Halt => true
    case Reset(now, _) => now < Pow2(w)
    case Restart(now, _, _) => now < Pow2(w)
  }

  class Timer {
    const w: nat             // bits of clock_time_t
    var imin: nat
    var imax: nat            // number of doublings
    var imaxAbs: nat         // Imin << Imax
    var icur: nat            // current interval, 0 when stopped
    var istart: nat          // when it started
    var k: nat
    var c: nat
    var pending: Callback    // the ctimer
    var delay: nat

    ghost var heard: nat          // consistent messages heard in the current interval
    ghost var origin: nat         // clock at the last reset
    ghost var lengths: seq<nat>   // intervals completed since then

    ghost predicate Configured()
      reads this
    {
      && IsWidth(w)
      && 2 <= imin < Pow2(w - 1)
      && imaxAbs == Doubled(imin, imax) && imin <= imaxAbs <= Pow2(w - 1)
      && 1 <= k <= 255
    }

    predicate Running()
      reads this
    {
      icur != 0
    }

    ghost predicate Valid()
      reads this
    {
      && Configured()
      && c == Min(heard, 255)
      && (Running() <==> pending != NoCall)
      && (Running() ==>
            && imin <= icur <= imaxAbs
            && istart == Clock(w, origin + Sum(lengths))
            && Doubling(lengths + [icur], imaxAbs))
    }

    constructor (w: nat)
      ensures this.w == w && !Running() && pending == NoCall && c == 0 && heard == 0
    {
      this.w := w;
      imin, imax, imaxAbs, icur, istart, k, c, delay := 0, 0, 0, 0, 0, 0, 0, 0;
      pending := NoCall;
      heard, origin, lengths := 0, 0, [];
    }

    /** trickle_timer_config */
    method Config(imin0: nat, imax0: nat, k0: nat) returns (r: nat)
      requires IsWidth(w) && imax0 + 1 < w && k0 <= 255
      modifies this`imin, this`imax, this`imaxAbs, this`k
      ensures r == if 2 <= imin0 < Pow2(w - 1) && imax0 > 0 && k0 > 0 then 1 else 0
      ensures r == 0 ==> unchanged(this)
      ensures r == 1 ==> Configured() && imin == imin0 && k == k0
      ensures r == 1 && Doubled(imin0, imax0) <= Pow2(w - 1) ==> imax == imax0
      ensures r == 1 && Doubled(imin0, imax0) > Pow2(w - 1) ==> imax < imax0 && Doubled(imin0, imax + 1) > Pow2(w - 1)
    {
      hide Pow2; hide Doubled; hide IpairIsBad;
      HalfClock(w);
      if IminIsBad(w, imin0) {
        return 0;
      }
      if imax0 == 0 || k0 == 0 {
        return 0;
      }
      var m := imax0;
      IpairExact(w, imin0, imax0);
      if IpairIsBad(w, imin0, imax0) {
        m := MaxImax(w, imin0);
        if imax0 <= m {
          DoubledMonotone(imin0, imax0, m);
        }
      }
      DoubledMonotone(imin0, 0, m);
      Pow2Monotone(w - 1, w);
      NoWrap(w, imin0, m);
      imin := imin0;
      imax := m;
      imaxAbs := ShiftLeft(w, imin0, m);
      k := k0;
      r := 1;
    }

    /** new_interval: an interval of length icur starts now. */
    method NewInterval(now: nat, rnd: nat)
      requires Configured() && imin <= icur <= imaxAbs && now < Pow2(w)
      modifies this`c, this`istart, this`pending, this`delay, this`heard, this`origin, this`lengths
      ensures Valid() && Running() && heard == 0 && lengths == [] && origin == istart == now
      ensures pending == CallFire && icur / 2 <= delay < icur && delay == icur / 2 + rnd % (icur / 2)
    {
      hide Pow2; hide Doubled; hide Clock;
      c := 0;
      heard := 0;
      delay := GetT(icur, rnd);
      pending := CallFire;
      istart := now;
      origin, lengths := now, [];
      assert lengths + [icur] == [icur];
      ClockSmall(w, now);
    }

    /** trickle_timer_set: a first interval drawn from [Imin, Imax]. */
    method Set(now: nat, rnd1: nat, rnd2: nat)
      requires Configured() && now < Pow2(w)
      modifies this`icur, this`c, this`istart, this`pending, this`delay, this`heard, this`origin, this`lengths
      ensures Valid() && Running() && heard == 0 && lengths == [] && origin == istart == now
      ensures pending == CallFire && icur / 2 <= delay < icur && delay == icur / 2 + rnd2 % (icur / 2)
      ensures imin <= imaxAbs && icur == imin + rnd1 % (imaxAbs - imin + 1)
    {
      hide Pow2; hide Doubled;
      icur := imin + rnd1 % (imaxAbs - imin + 1);
      NewInterval(now, rnd2);
    }

    /** trickle_timer_consistency: an 8-bit counter that saturates. */
    method Consistency()
      requires Valid()
      modifies this`c, this`heard
      ensures Valid() && heard == old(heard) + 1
    {
      hide Pow2; hide Doubled; hide Clock; hide Sum; hide Doubling;
      if c < 0xFF {
        c := c + 1;
      }
      heard := heard + 1;
    }

    /** trickle_timer_inconsistency: back to Imin, unless the interval is Imin already; a stopped timer starts. */
    method Inconsistency(now: nat, rnd: nat)
      requires Valid() && now < Pow2(w)
      modifies this`icur, this`c, this`istart, this`pending, this`delay, this`heard, this`origin, this`lengths
      ensures Valid() && Running() && icur == imin
      ensures old(icur) == imin ==> unchanged(this)
      ensures old(icur) != imin ==>
                && heard == 0 && lengths == [] && origin == istart == now
                && pending == CallFire && icur / 2 <= delay < icur && delay == icur / 2 + rnd % (icur / 2)
    {
      hide Pow2; hide Doubled;
      if icur != imin {
        icur := imin;
        NewInterval(now, rnd);
      }
    }

    /** trickle_timer_stop */
    method Stop()
      requires Valid()
      modifies this`icur, this`pending
      ensures Valid() && !Running() && heard == old(heard)
    {
      pending := NoCall;
      icur := 0;
    }

    /** What the protocol does to the timer in its callback. */
    method CallBack(act: Action)
      requires Valid() && pending == CallFire && ActionOnClock(w, act)
      modifies this`icur, this`c, this`istart, this`pending, this`delay, this`heard, this`origin, this`lengths
      ensures Valid()
      ensures act == Nothing || (act.Reset? && old(icur) == imin) ==> unchanged(this)
      ensures act == Halt ==> !Running() && heard == old(heard)
      ensures act.Reset? && old(icur) != imin ==> icur == imin && heard == 0 && istart == act.now
      ensures act.Restart? ==>
                && imin <= imaxAbs && icur == imin + act.rnd1 % (imaxAbs - imin + 1)
                && Running() && heard == 0 && istart == act.now
      ensures act.Reset? || act.Restart? ==> Running()
    {
      hide Pow2; hide Doubled; hide Sum; hide Doubling; hide Clock;
      match act
      case Nothing =>
      case Halt => Stop();
      case Reset(now, rnd) => Inconsistency(now, rnd);
      case Restart(now, rnd1, rnd2) => Set(now, rnd1, rnd2);
    }

    /**
     fire, at time t of the interval or later.  Whatever the callback does, a timer still running
     then waits for the end of its interval: one that the callback restarted does not fire in it.
     */
    method Fire(now: nat, act: Action) returns (txAllowed: bool)
      requires Valid() && pending == CallFire && ActionOnClock(w, act)
      modifies this`icur, this`c, this`istart, this`pending, this`delay, this`heard, this`origin, this`lengths
      ensures Valid()
      ensures txAllowed <==> old(heard) < k
      ensures act == Halt ==> !Running() && heard == old(heard)
      ensures act == Nothing || (act.Reset? && old(icur) == imin) ==>
                icur == old(icur) && istart == old(istart) && lengths == old(lengths) && heard == old(heard)
      ensures act.Reset? && old(icur) != imin ==> icur == imin && istart == act.now && heard == 0
      ensures act.Restart? ==>
                imin <= imaxAbs && icur == imin + act.rnd1 % (imaxAbs - imin + 1) && istart == act.now && heard == 0
      ensures act != Halt ==> Running() && pending == CallDouble && delay == Until(w, istart + icur, now)
    {
      hide Pow2; hide Doubled; hide Sum; hide Doubling; hide Clock; hide ActionOnClock;
      txAllowed := k == 0 || c < k;
      CallBack(act);
      if Running() {
        delay := Until(w, istart + icur, now);
        pending := CallDouble;
      }
    }

    /** double_interval, at the end of the interval or later: the next one starts where this one ended. */
    method DoubleInterval(now: nat, rnd: nat) returns (t: nat)
      requires Valid() && pending == CallDouble
      modifies this`icur, this`c, this`istart, this`pending, this`delay, this`heard, this`lengths
      ensures Valid() && Running() && heard == 0
      ensures icur == Min(2 * old(icur), imaxAbs) && lengths == old(lengths) + [old(icur)]
      ensures istart == Clock(w, old(istart) + old(icur))
      ensures icur / 2 <= t < icur && t == icur / 2 + rnd % (icur / 2)
      ensures pending == CallFire && delay == Until(w, istart + t, now)
    {
      hide Pow2; hide Doubled; hide Clock; hide Sum; hide Doubling; hide Until; hide GetT; hide Min;
      c := 0;
      heard := 0;
      var lastEnd := Clock(w, istart + icur);
      ghost var i0 := icur;
      NextInterval(icur, imaxAbs);
      if icur <= imaxAbs / 2 {
        icur := icur * 2;
      } else {
        icur := imaxAbs;
      }
      t := GetT(icur, rnd);
      GetTIs(icur, rnd);
      delay := Until(w, lastEnd + t, now);
      pending := CallFire;
      ClockAdd(w, origin + Sum(lengths), i0);
      SumSnoc(lengths, i0);
      DoublingSnoc(lengths, i0, icur, imaxAbs);
      istart := lastEnd;
      lengths := lengths + [i0];
    }
  }

  lemma HalfClock(w: nat)
    requires w > 0
    ensures ClockMax(w) / 2 == Pow2(w - 1) - 1
  {
  }

  lemma DoubledMonotone(x: nat, a: nat, b: nat)
    requires a <= b
    ensures Doubled(x, a) <= Doubled(x, b) && Doubled(x, 0) == x
  {
    Pow2Monotone(a, b);
    MulMonotone(x, Pow2(a), Pow2(b));
    assert Pow2(0) == 1;
  }

  lemma NoWrap(w: nat, x: nat, n: nat)
    requires Doubled(x, n) < Pow2(w)
    ensures ShiftLeft(w, x, n) == Doubled(x, n)
  {
    Remainder(x * Pow2(n), 0, x * Pow2(n), Pow2(w));
  }

  lemma SumSnoc(s: seq<nat>, x: nat)
    ensures Sum(s + [x]) == Sum(s) + x
  {
    assert (s + [x])[..|s|] == s;
  }

  lemma DoublingSnoc(s: seq<nat>, x: nat, y: nat, max: nat)
    requires Doubling(s + [x], max) && y == Min(2 * x, max)
    ensures Doubling(s + [x] + [y], max)
  {
    var u := s + [x];
    forall j | 0 < j < |u| + 1
      ensures (u + [y])[j] == Min(2 * (u + [y])[j - 1], max)
    {
      if j < |u| {
        assert u[j] == Min(2 * u[j - 1], max);
      }
    }
  }

  // --------------------------------------------------------------- whole runs

  datatype Input =
    | Heard
    | Inconsistent(now: nat, rnd: nat)
    | Expired(now: nat, rnd: nat, act: Action)
    | Stopped
    | Started(now: nat, rnd1: nat, rnd2: nat)

  /**
   The algorithm of section 4.2 of RFC 6206, with a counter that has no limit: the interval
   (0 when stopped), what happens next, and the consistent messages since the interval began.
   As in the source, a timer that its own callback restarts does not fire in that interval.
   */
  datatype Phase = Phase(interval: nat, pending: Callback, heard: nat)

  ghost function PhaseStep(imin: nat, max: nat, p: Phase, input: Input): (r: Phase)
    requires imin <= max
  {
    match input
    case Heard => p.(heard := p.heard + 1)
    case Stopped => Phase(0, NoCall, p.heard)
    case Started(_, r1, _) => Phase(imin + r1 % (max - imin + 1), CallFire, 0)
    case Inconsistent(_, _) => if p.interval == imin then p else Phase(imin, CallFire, 0)
    case Expired(_, _, act) =>
      match p.pending
      case NoCall => p
      case CallFire =>
        (match act
         case Nothing => Phase(p.interval, CallDouble, p.heard)
         case Halt => Phase(0, NoCall, p.heard)
         case Reset(_, _) => if p.interval == imin then Phase(imin, CallDouble, p.heard) else Phase(imin, CallDouble, 0)
         case Restart(_, r1, _) => Phase(imin + r1 % (max - imin + 1), CallDouble, 0))
      case CallDouble => Phase(Min(2 * p.interval, max), CallFire, 0)
  }

  ghost function PhaseAfter(imin: nat, max: nat, p: Phase, inputs: seq<Input>): (r: Phase)
    requires imin <= max
  {
    if inputs == [] then p
    else PhaseStep(imin, max, PhaseAfter(imin, max, p, inputs[..|inputs| - 1]), inputs[|inputs| - 1])
  }

  /** The decisions of the algorithm: at each fire, transmit iff fewer than k messages were heard. */
  ghost function Decisions(imin: nat, max: nat, k: nat, p: Phase, inputs: seq<Input>): (r: seq<bool>)
    requires imin <= max
  {
    if inputs == [] then []
    else
      var before := inputs[..|inputs| - 1];
      var now := PhaseAfter(imin, max, p, before);
      Decisions(imin, max, k, p, before) +
      if inputs[|inputs| - 1].Expired? && now.pending == CallFire then [now.heard < k] else []
  }

  ghost function PhaseOf(tt: Timer): (r: Phase)
    reads tt
  {
    Phase(tt.icur, tt.pending, tt.heard)
  }

  predicate OnClock(w: nat, input: Input)
  {
    match input
    case Heard => true
    case Stopped => true
    case Inconsistent(now, _) => now < Pow2(w)
    case Expired(now, _, act) => now < Pow2(w) && ActionOnClock(w, act)
    case Started(now, _, _) => now < Pow2(w)
  }

  /** One input: the timer takes the step of the algorithm, and decides as it does. */
  method React(tt: Timer, input: Input) returns (log: seq<bool>)
    requires tt.Valid() && OnClock(tt.w, input)
    modifies tt
    ensures tt.Valid() && tt.k == old(tt.k) && tt.imin == old(tt.imin) && tt.imaxAbs == old(tt.imaxAbs)
          && tt.imin <= tt.imaxAbs
    ensures PhaseOf(tt) == PhaseStep(tt.imin, tt.imaxAbs, old(PhaseOf(tt)), input)
    ensures log == if input.Expired? && old(tt.pending) == CallFire then [old(tt.heard) < tt.k] else []
  {
    hide Pow2; hide Doubled; hide Sum; hide Doubling; hide Until; hide Clock; hide Min;
    log := [];
    match input
    case Heard => tt.Consistency();
    case Stopped => tt.Stop();
    case Started(now, r1, r2) => tt.Set(now, r1, r2);
    case Inconsistent(now, rnd) => tt.Inconsistency(now, rnd);
    case Expired(now, rnd, act) =>
      if tt.pending == CallFire {
        var ok := tt.Fire(now, act);
        log := [ok];
      } else if tt.pending == CallDouble {
        var _ := tt.DoubleInterval(now, rnd);
      }
  }

  /**
   Any sequence of inputs to a configured timer: it stays valid throughout and does what the
   algorithm does.  The 8-bit counter never changes a decision.
   */
  method Run(tt: Timer, inputs: seq<Input>) returns (log: seq<bool>)
    requires tt.Valid() && forall i :: 0 <= i < |inputs| ==> OnClock(tt.w, inputs[i])
    modifies tt
    ensures tt.Valid() && tt.k == old(tt.k) && tt.imin == old(tt.imin) && tt.imaxAbs == old(tt.imaxAbs)
          && tt.imin <= tt.imaxAbs
    ensures PhaseOf(tt) == PhaseAfter(tt.imin, tt.imaxAbs, old(PhaseOf(tt)), inputs)
    ensures log == Decisions(tt.imin, tt.imaxAbs, tt.k, old(PhaseOf(tt)), inputs)
  {
    hide Pow2; hide Doubled; hide Sum; hide Doubling; hide Clock; hide Min; hide OnClock; hide PhaseStep;
    log := [];
    ghost var p0 := PhaseOf(tt);
    for n := 0 to |inputs|
      invariant tt.Valid() && tt.k == old(tt.k) && tt.imin == old(tt.imin) && tt.imaxAbs == old(tt.imaxAbs)
      invariant PhaseOf(tt) == PhaseAfter(tt.imin, tt.imaxAbs, p0, inputs[..n])
      invariant log == Decisions(tt.imin, tt.imaxAbs, tt.k, p0, inputs[..n])
    {
      assert inputs[..n + 1][..n] == inputs[..n];
      var more := React(tt, inputs[n]);
      log := log + more;
    }
    assert inputs[..|inputs|] == inputs;
  }
}
