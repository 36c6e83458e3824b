/**
 Event timers of os/sys/etimer.c.  Timers are named by index and linked into a list;
 which timers have expired, and the clock, are fixed while one event is handled.
 */
module EventTimer {
  import opened Arithmetic
  import opened EventQueue
  import opened KeyList
  import opened Sequences

  /** The expired timers of a list, in list order. */
  ghost function ExpiredOf(items: seq<int>, expired: seq<bool>): (r: seq<int>)
    requires forall i :: 0 <= i < |items| ==> 0 <= items[i] < |expired|
  {
    if items == [] then []
    else (if expired[items[0]] then [items[0]] else []) + ExpiredOf(items[1..], expired)
  }

  /** One TIMER event for each timer, to its owner. */
  ghost function EventsFor(timers: seq<int>, owner: seq<int>): (r: seq<Event>)
    requires forall i :: 0 <= i < |timers| ==> 0 <= timers[i] < |owner|
    ensures |r| == |timers|
  {
    seq(|timers|, i requires 0 <= i < |timers| => TimerEvent(owner[timers[i]], timers[i]))
  }

  /** Nothing before index `p` has expired. */
  ghost predicate NoneBefore(items: seq<int>, expired: seq<bool>, p: nat)
    requires InRange(items, |expired|) && p <= |items|
  {
    forall i :: 0 <= i < p ==> !expired[items[i]]
  }

  /** The first expired timer heads the expired timers; without it the rest is left. */
  lemma {:induction false} FirstExpired(items: seq<int>, expired: seq<bool>, p: nat)
    requires InRange(items, |expired|) && p <= |items| && NoneBefore(items, expired, p)
    ensures p == |items| ==> ExpiredOf(items, expired) == []
    ensures p < |items| && expired[items[p]] ==>
              && InRange(items[..p] + items[p + 1..], |expired|)
              && ExpiredOf(items, expired) == [items[p]] + ExpiredOf(items[..p] + items[p + 1..], expired)
    decreases |items|
  {
    if p == 0 {
      if items != [] {
        assert items[..0] + items[1..] == items[1..];
      }
    } else {
      assert !expired[items[0]];
      assert ExpiredOf(items, expired) == ExpiredOf(items[1..], expired);
      FirstExpired(items[1..], expired, p - 1);
      if p < |items| {
        var l := items[..p] + items[p + 1..];
        assert l[1..] == items[1..][..p - 1] + items[1..][p..];
      }
    }
  }

  lemma {:induction false} ExpiredAre(items: seq<int>, expired: seq<bool>)
    requires InRange(items, |expired|)
    ensures forall t :: t in ExpiredOf(items, expired) <==> t in items && expired[t]
    ensures InRange(ExpiredOf(items, expired), |expired|)
  {
    if items != [] {
      ExpiredAre(items[1..], expired);
      assert forall t :: t in items <==> t == items[0] || t in items[1..];
    }
  }

  ghost function Elements(s: seq<int>): (r: set<int>)
  {
    set x | x in s
  }

  /** The list and the queue after the first `j` expired timers have been served. */
  ghost predicate Served(items0: seq<int>, owner0: seq<int>, waiting0: seq<Event>, expired: seq<bool>, j: nat,
                         items: seq<int>, owner: seq<int>, waiting: seq<Event>)
    requires InRange(items0, |expired|) && |owner0| == |expired|
  {
    var e := ExpiredOf(items0, expired);
    && j <= |e| && InRange(e, |expired|) && InRange(items, |expired|) && |owner| == |owner0|
    && items == Without(items0, Elements(e[..j]))
    && ExpiredOf(items, expired) == e[j..]
    && waiting == waiting0 + EventsFor(e[..j], owner0)
    && (forall t :: 0 <= t < |owner| ==> owner[t] == if t in e[..j] then NONE else owner0[t])
  }

  lemma ServedNone(items: seq<int>, owner: seq<int>, waiting: seq<Event>, expired: seq<bool>)
    requires InRange(items, |expired|) && |owner| == |expired|
    ensures Served(items, owner, waiting, expired, 0, items, owner, waiting)
  {
    ExpiredAre(items, expired);
    WithoutNothing(items, {});
    assert Elements([]) == {};
    assert EventsFor([], owner) == [];
  }

  /** Serving the first expired timer still listed is serving one more. */
  lemma ServedOne(items0: seq<int>, owner0: seq<int>, waiting0: seq<Event>, expired: seq<bool>, j: nat,
                  items: seq<int>, owner: seq<int>, waiting: seq<Event>, p: nat)
    requires InRange(items0, |expired|) && |owner0| == |expired| && Distinct(items0)
    requires Served(items0, owner0, waiting0, expired, j, items, owner, waiting)
    requires Distinct(items) && p < |items| && NoneBefore(items, expired, p) && expired[items[p]]
    ensures var t := items[p];
            && 0 <= t < |owner|
            && owner[t] == owner0[t]
            && Served(items0, owner0, waiting0, expired, j + 1,
                      Without(items, {t}), owner[t := NONE], waiting + [TimerEvent(owner[t], t)])
  {
    hide ExpiredOf; hide Without; hide Distinct; hide EventsFor; hide Elements; hide NoneBefore;
    var e, t := ExpiredOf(items0, expired), items[p];
    FirstExpired(items, expired, p);
    WithoutOne(items, p);
    assert e[j..][0] == e[j] == t;
    assert e[j..][1..] == e[j + 1..];
    assert e[..j + 1] == e[..j] + [t];
    ElementsSnoc(e[..j], t);
    WithoutTwice(items0, Elements(e[..j]), {t});
    assert t in items;
    assert t !in e[..j];
    EventsSnoc(e[..j], t, owner0);
    assert waiting + [TimerEvent(owner0[t], t)] == waiting0 + (EventsFor(e[..j], owner0) + [TimerEvent(owner0[t], t)]);
  }

  lemma ServedCounts(items0: seq<int>, owner0: seq<int>, waiting0: seq<Event>, expired: seq<bool>, j: nat,
                     items: seq<int>, owner: seq<int>, waiting: seq<Event>)
    requires InRange(items0, |expired|) && |owner0| == |expired|
    requires Served(items0, owner0, waiting0, expired, j, items, owner, waiting)
    ensures InRange(items, |expired|) && j + |ExpiredOf(items, expired)| == |ExpiredOf(items0, expired)|
    ensures |waiting| == |waiting0| + j
  {
  }

  lemma ElementsSnoc(s: seq<int>, t: int)
    ensures Elements(s + [t]) == Elements(s) + {t}
    ensures forall x :: x in Elements(s) <==> x in s
  {
  }

  lemma EventsSnoc(s: seq<int>, t: int, owner: seq<int>)
    requires InRange(s, |owner|) && 0 <= t < |owner|
    ensures EventsFor(s + [t], owner) == EventsFor(s, owner) + [TimerEvent(owner[t], t)]
  {
  }

  // ------------------------------------------------------------------- timers

  /** Ticks from `now` to `due` on a clock that wraps at `m`: fewer than a round, and then the clock shows `due`. */
  function Distance(m: nat, due: nat, now: nat): (r: nat)
    requires m > 0
    ensures r < m && (now + r) % m == due % m
  {
    ModAdd(due - now, now, m);
    Modulo(m, due - now)
  }

  /** Of the first `n` listed timers, the one at index `i` is due first, seen from `now`. */
  ghost predicate SoonestOf(items: seq<int>, due: seq<nat>, m: nat, now: nat, n: nat, i: int)
    requires InRange(items, |due|) && m > 0 && n <= |items|
  {
    && 0 <= i < n
    && forall j :: 0 <= j < n ==> Distance(m, due[items[i]], now) <= Distance(m, due[items[j]], now)
  }

  /** Of the listed timers, the one at index `i` is due first, seen from `now`. */
  ghost predicate Soonest(items: seq<int>, due: seq<nat>, m: nat, now: nat, i: int)
    requires InRange(items, |due|) && m > 0
  {
    SoonestOf(items, due, m, now, |items|, i)
  }

  lemma SoonestStep(items: seq<int>, due: seq<nat>, m: nat, now: nat, n: nat, i: int)
    requires InRange(items, |due|) && m > 0 && n < |items|
    requires SoonestOf(items, due, m, now, n, i)
    ensures if Distance(m, due[items[n]], now) < Distance(m, due[items[i]], now)
            then SoonestOf(items, due, m, now, n + 1, n)
            else SoonestOf(items, due, m, now, n + 1, i)
  {
    hide Distance;
  }

  lemma SoonestFirst(items: seq<int>, due: seq<nat>, m: nat, now: nat)
    requires InRange(items, |due|) && m > 0 && items != []
    ensures SoonestOf(items, due, m, now, 1, 0)
  {
    hide Distance;
  }

  /**
   `x` is the time at which the first of the listed timers is due, seen from `now`, on a clock that
   wraps at `m`; 0 if none is listed.
   */
  ghost predicate Upcoming(items: seq<int>, due: seq<nat>, m: nat, now: nat, x: nat)
  {
    && m > 0 && InRange(items, |due|)
    && if items == [] then x == 0
       else
         && (exists i :: 0 <= i < |items| && due[items[i]] % m == x)
         && forall i :: 0 <= i < |items| ==> (x - now) % m <= (due[items[i]] - now) % m
  }

  /** The time reached from `now` by the shortest distance. */
  lemma SoonestUpcoming(items: seq<int>, due: seq<nat>, m: nat, now: nat, i: int)
    requires InRange(items, |due|) && m > 0 && Soonest(items, due, m, now, i)
    ensures Upcoming(items, due, m, now, Modulo(m, now + Distance(m, due[items[i]], now)))
  {
    var d := Distance(m, due[items[i]], now);
    ArriveBack(m, now, d);
    forall j | 0 <= j < |items|
      ensures d <= (due[items[j]] - now) % m
    {
      assert d <= Distance(m, due[items[j]], now);
    }
  }

  /** Going on and back by less than a round. */
  lemma ArriveBack(m: nat, now: nat, d: nat)
    requires m > 0 && d < m
    ensures ((now + d) % m - now) % m == d
  {
    ModAdd(now + d, 0 - now, m);
    Remainder(d, 0, d, m);
  }

  lemma BackArrive(m: nat, now: nat, x: nat)
    requires m > 0 && x < m
    ensures Modulo(m, Modulo(m, x - now) + now) == x
  {
    ModAdd(x - now, now, m);
    Remainder(x, 0, x, m);
  }

  /** A clock reading is determined by its distance from `now`. */
  lemma SameReading(m: nat, now: nat, x: nat, y: nat)
    requires m > 0 && x < m && y < m && (x - now) % m == (y - now) % m
    ensures x == y
  {
    assert Modulo(m, x - now) == Modulo(m, y - now);
    hide Modulo;
    BackArrive(m, now, x);
    BackArrive(m, now, y);
  }

  /** The distance of a reading is that of every time at which the clock shows it. */
  lemma SameDistance(m: nat, now: nat, t: nat)
    requires m > 0
    ensures (t % m - now) % m == (t - now) % m
  {
    ModAdd(t, 0 - now, m);
  }

  lemma NothingUpcoming(due: seq<nat>, m: nat, now: nat)
    requires m > 0
    ensures Upcoming([], due, m, now, 0)
  {
  }

  class Timers {
    const queue: Queue
    const next: array<int>
    const owner: array<int>      // the process of a timer, NONE once it has expired
    const due: array<nat>        // start + interval
    const clockMod: nat
    var timerlist: int
    var nextExpiration: nat
    var needsPoll: bool

    ghost var items: seq<int>

    ghost predicate Storage()
      reads this, queue
    {
      && next != owner && next.Length == owner.Length == due.Length && clockMod > 0
      && (queue.events as object) !in {next as object, owner as object}
      && queue.Valid()
    }

    /** The timer list is NULL-terminated, without cycle and without duplicates. */
    ghost predicate Valid()
      reads this, queue, next
    {
      Storage() && Chained(items, next[..], timerlist)
    }

    /** A listed timer belongs to a process. */
    ghost predicate Owned()
      requires Storage() && InRange(items, owner.Length)
      reads this, queue, owner
    {
      forall i :: 0 <= i < |items| ==> owner[items[i]] != NONE
    }

    constructor (queue: Queue, timers: nat, clockMod: nat)
      requires queue.Valid() && clockMod > 0
      ensures Valid() && items == [] && this.queue == queue && next.Length == timers && !needsPoll
    {
      this.queue, this.clockMod := queue, clockMod;
      next := new int[timers](i => NULL);
      owner := new int[timers](i => NONE);
      due := new nat[timers](i => 0);
      timerlist, nextExpiration, needsPoll := NULL, 0, false;
      items := [];
    }

    lemma Link(i: nat)
      requires Valid() && i < |items|
      ensures 0 <= items[i] < next.Length && next[items[i]] == if i + 1 == |items| then NULL else items[i + 1]
      ensures timerlist == items[0]
    {
      assert next[..][items[i]] == if i + 1 == |items| then NULL else items[i + 1];
    }

    lemma ListFacts()
      requires Valid()
      ensures InRange(items, next.Length) && Distinct(items)
      ensures timerlist == if items == [] then NULL else items[0]
    {
    }

    /** update_time: the next expiration is that of the listed timer due soonest from now. */
    method UpdateTime(now: nat)
      requires Valid() && now < clockMod
      modifies this`nextExpiration
      ensures Upcoming(items, due[..], clockMod, now, nextExpiration)
    {
      hide Chained; hide Distance; hide Modulo; hide Distinct; hide SoonestOf; hide Upcoming;
      ListFacts();
      if timerlist == NULL {
        nextExpiration := 0;
        NothingUpcoming(due[..], clockMod, now);
      } else {
        var t := timerlist;
        Link(0);
        var tdist := Distance(clockMod, due[t], now);
        ghost var best: nat, n: nat := 0, 1;
        SoonestFirst(items, due[..], clockMod, now);
        t := next[t];
        while t != NULL
          invariant 1 <= n <= |items| && t == (if n == |items| then NULL else items[n])
          invariant best < n && tdist == Distance(clockMod, due[items[best]], now)
          invariant SoonestOf(items, due[..], clockMod, now, n, best)
          decreases |items| - n
        {
          Link(n);
          SoonestStep(items, due[..], clockMod, now, n, best);
          if Distance(clockMod, due[t], now) < tdist {
            tdist := Distance(clockMod, due[t], now);
            best := n;
          }
          t := next[t];
          n := n + 1;
        }
        nextExpiration := Modulo(clockMod, now + tdist);
        SoonestUpcoming(items, due[..], clockMod, now, best);
      }
    }

    /** Unlink timer `t` at index `p`, whose predecessor is `u`. */
    method Unlink(u: int, t: int, ghost p: nat)
      requires Valid() && p < |items| && t == items[p] && u == (if p == 0 then NULL else items[p - 1])
      modifies this`timerlist, this`items, next
      ensures Valid() && items == Without(old(items), {t}) && 0 <= t < next.Length && next[t] == NULL
      ensures owner[..] == old(owner[..])
    {
      hide Without;
      Link(p);
      ghost var next0, owner0 := next[..], owner[..];
      if u != NULL {
        next[u] := next[t];
      } else {
        timerlist := next[t];
      }
      next[t] := NULL;
      assert owner[..] == owner0;
      ChainedCut(items, next0, old(timerlist), p, next[..], timerlist);
      items := Without(items, {t});
    }

    /** Post the event of timer `t`, which has expired, and take it off the list, or request a re-poll. */
    method Serve(u: int, t: int, now: nat, ghost p: nat) returns (ok: bool)
      requires Valid() && now < clockMod
      requires p < |items| && t == items[p] && 0 <= t < owner.Length && u == (if p == 0 then NULL else items[p - 1])
      modifies this`timerlist, this`nextExpiration, this`needsPoll, this`items, next, owner, queue, queue.events
      ensures Valid() && (ok <==> |old(queue.Waiting())| < queue.events.Length)
      ensures ok ==>
                && items == Without(old(items), {t}) && next[t] == NULL && owner[..] == old(owner[..])[t := NONE]
                && queue.Waiting() == old(queue.Waiting()) + [TimerEvent(old(owner[..])[t], t)]
                && needsPoll == old(needsPoll) && Upcoming(items, due[..], clockMod, now, nextExpiration)
      ensures !ok ==>
                && nextExpiration == old(nextExpiration) && needsPoll && timerlist == old(timerlist)
                && items == old(items) && owner[..] == old(owner[..]) && next[..] == old(next[..])
                && queue.Waiting() == old(queue.Waiting())
    {
      hide Without; hide Cyclic; hide Chained; hide Upcoming; hide Distinct;
      ghost var owner0, next0 := owner[..], next[..];
      ok := queue.Post(TimerEvent(owner[t], t));
      assert owner[..] == owner0 && next[..] == next0;
      if ok {
        owner[t] := NONE;
        assert next[..] == next0 && owner[..] == owner0[t := NONE];
        Unlink(u, t, p);
        UpdateTime(now);
      } else {
        needsPoll := true;
      }
    }

    /**
     One walk of the POLL branch from `again` on: the first expired timer is posted and taken off
     the list, or, if the queue is full, a re-poll is requested for the expired ones.
     */
    method Walk(expired: seq<bool>, now: nat) returns (again: bool, ghost p: nat)
      requires Valid() && |expired| == next.Length && now < clockMod
      modifies this`timerlist, this`nextExpiration, this`needsPoll, this`items, next, owner, queue, queue.events
      ensures Valid() && InRange(old(items), |expired|)
      ensures again ==>
                && p < |old(items)| && NoneBefore(old(items), expired, p) && expired[old(items)[p]]
                && items == Without(old(items), {old(items)[p]})
                && next[old(items)[p]] == NULL && owner[..] == old(owner[..])[old(items)[p] := NONE]
                && queue.Waiting() == old(queue.Waiting()) + [TimerEvent(old(owner[..])[old(items)[p]], old(items)[p])]
                && needsPoll == old(needsPoll) && Upcoming(items, due[..], clockMod, now, nextExpiration)
      ensures !again ==>
                && nextExpiration == old(nextExpiration)
                && items == old(items) && owner[..] == old(owner[..]) && queue.Waiting() == old(queue.Waiting())
                && (ExpiredOf(items, expired) != [] ==> |queue.Waiting()| == queue.events.Length)
                && needsPoll == (old(needsPoll) || ExpiredOf(items, expired) != [])
    {
      hide Without; hide ExpiredOf; hide Cyclic; hide Chained; hide Upcoming; hide Distinct;
      ListFacts();
      var u, t := NULL, timerlist;
      p := 0;
      ghost var full := false;
      while t != NULL
        invariant Valid() && items == old(items) && owner[..] == old(owner[..]) && timerlist == old(timerlist)
        invariant InRange(items, |expired|) && queue.Waiting() == old(queue.Waiting()) && next[..] == old(next[..])
        invariant p <= |items| && t == (if p == |items| then NULL else items[p])
        invariant u == (if p == 0 then NULL else items[p - 1])
        invariant full ==> |queue.Waiting()| == queue.events.Length && exists i :: 0 <= i < p && expired[items[i]]
        invariant !full ==> NoneBefore(items, expired, p)
        invariant needsPoll == (old(needsPoll) || full) && nextExpiration == old(nextExpiration)
        decreases |items| - p
      {
        Link(p);
        if expired[t] {
          again := Serve(u, t, now, p);
          if again {
            return;
          }
          full := true;
        }
        u := t;
        t := next[t];
        p := p + 1;
      }
      ListEnd(p);
      FullOrNone(items, expired, full);
      again := false;
    }

    /**
     The POLL branch of etimer_process.  The expired timers are served in list order, each by one
     event to its owner, as many as the queue has room for; an expired timer stays listed only if
     the queue is full and a re-poll is pending.
     */
    method Poll(expired: seq<bool>, now: nat) returns (ghost served: nat)
      requires Valid() && |expired| == next.Length && now < clockMod
      modifies this`timerlist, this`nextExpiration, this`needsPoll, this`items, next, owner, queue, queue.events
      ensures Valid() && InRange(old(items), |expired|)
      ensures Served(old(items), old(owner[..]), old(queue.Waiting()), expired, served,
                     items, owner[..], queue.Waiting())
      ensures var room := queue.events.Length - |old(queue.Waiting())|; var n := |ExpiredOf(old(items), expired)|;
              && served == (if n <= room then n else room)
              && needsPoll == (old(needsPoll) || n > room)
      ensures if served == 0 then nextExpiration == old(nextExpiration)
              else Upcoming(items, due[..], clockMod, now, nextExpiration)
    {
      hide Chained; hide Without; hide ExpiredOf; hide Served; hide Cyclic; hide NoneBefore; hide Upcoming;
      ListFacts();
      ghost var items0, owner0, waiting0 := items, owner[..], queue.Waiting();
      served := 0;
      ServedNone(items, owner[..], queue.Waiting(), expired);
      var again := true;
      while again
        invariant Valid() && InRange(items0, |expired|)
        invariant Served(items0, owner0, waiting0, expired, served, items, owner[..], queue.Waiting())
        invariant again ==> needsPoll == old(needsPoll)
        invariant if served == 0 then nextExpiration == old(nextExpiration)
                  else Upcoming(items, due[..], clockMod, now, nextExpiration)
        invariant !again ==>
                    && InRange(items, |expired|)
                    && (ExpiredOf(items, expired) != [] ==> |queue.Waiting()| == queue.events.Length)
                    && needsPoll == (old(needsPoll) || ExpiredOf(items, expired) != [])
        decreases |items| + if again then 1 else 0
      {
        ListFacts();
        ghost var items1, owner1, waiting1 := items, owner[..], queue.Waiting();
        ghost var p;
        again, p := Walk(expired, now);
        if again {
          ServedOne(items0, owner0, waiting0, expired, served, items1, owner1, waiting1, p);
          served := served + 1;
          WithoutOne(items1, p);
        }
      }
      ServedCounts(items0, owner0, waiting0, expired, served, items, owner[..], queue.Waiting());
    }

    lemma ListEnd(p: nat)
      requires Valid() && p <= |items| && NULL == (if p == |items| then NULL else items[p])
      ensures p == |items|
    {
    }

    /** Search for a timer on the list, as add_timer does. */
    method IsListed(timer: int) returns (found: bool)
      requires Valid()
      ensures found <==> timer in items
    {
      hide Chained;
      ListFacts();
      var t := timerlist;
      ghost var p: nat := 0;
      while t != NULL
        invariant p <= |items| && t == (if p == |items| then NULL else items[p])
        invariant forall i :: 0 <= i < p ==> items[i] != timer
        decreases |items| - p
      {
        Link(p);
        if t == timer {
          return true;
        }
        t := next[t];
        p := p + 1;
      }
      ListEnd(p);
      return false;
    }

    /**
     add_timer up to its last update_time, for process `current`.  The list stays well formed
     exactly when the timer is marked as owned or is not listed; otherwise it is linked a second
     time and no list leads out of the cycle, which update_time would then walk for ever.
     */
    method LinkTimer(timer: int, current: int)
      requires Valid() && 0 <= timer < next.Length
      modifies this`timerlist, this`needsPoll, this`items, next, owner
      ensures Storage() && needsPoll && owner[..] == old(owner[..])[timer := current]
      ensures old(owner[timer]) != NONE || timer !in old(items) ==>
                Valid() && items == if timer in old(items) then old(items) else [timer] + old(items)
      ensures old(owner[timer]) == NONE && timer in old(items) ==> forall s :: !Chained(s, next[..], timerlist)
    {
      hide Chained;
      ListFacts();
      needsPoll := true;
      ghost var owner0, next0 := owner[..], next[..];
      if owner[timer] != NONE {
        var found := IsListed(timer);
        if found {
          owner[timer] := current;
          assert next[..] == next0;
          assert owner[..] == owner0[timer := current];
          return;
        }
      }
      owner[timer] := current;
      assert next[..] == next0;
      next[timer] := timerlist;
      timerlist := timer;
      assert owner[..] == owner0[timer := current];
      assert next[..] == next0[timer := old(timerlist)];
      if timer in items {
        LinkedTwice(items, next0, old(timerlist), timer, next[..]);
      } else {
        ChainedPush(items, next0, old(timerlist), timer);
        items := [timer] + items;
      }
    }

    /** add_timer, where it returns: set from within processes, every listed timer stays owned by one. */
    method AddTimer(timer: int, current: int, now: nat)
      requires Valid() && 0 <= timer < next.Length && now < clockMod
      requires owner[timer] != NONE || timer !in items
      modifies this`timerlist, this`nextExpiration, this`needsPoll, this`items, next, owner
      ensures Valid() && needsPoll && owner[..] == old(owner[..])[timer := current]
      ensures items == if timer in old(items) then old(items) else [timer] + old(items)
      ensures current != NONE && old(InRange(items, owner.Length) && Owned()) ==>
            InRange(items, owner.Length) && Owned()
      ensures Upcoming(items, due[..], clockMod, now, nextExpiration)
    {
      hide Chained; hide Upcoming; hide Distinct;
      LinkTimer(timer, current);
      ListFacts();
      UpdateTime(now);
      assert forall i :: 0 <= i < |items| ==> owner[items[i]] == owner[..][items[i]];
    }

    /** etimer_set, the timer being due at `when`. */
    method SetTimer(timer: int, when: nat, current: int, now: nat)
      requires Valid() && 0 <= timer < next.Length && now < clockMod
      requires owner[timer] != NONE || timer !in items
      modifies this`timerlist, this`nextExpiration, this`needsPoll, this`items, next, owner, due
      ensures Valid() && needsPoll && owner[..] == old(owner[..])[timer := current]
            && due[..] == old(due[..])[timer := when]
      ensures items == if timer in old(items) then old(items) else [timer] + old(items)
      ensures current != NONE && old(InRange(items, owner.Length) && Owned()) ==>
            InRange(items, owner.Length) && Owned()
      ensures Upcoming(items, due[..], clockMod, now, nextExpiration)
    {
      hide Chained; hide Upcoming;
      ghost var owner0, due1 := owner[..], due[..][timer := when];
      due[timer] := when;
      assert owner[..] == owner0 && due[..] == due1;
      AddTimer(timer, current, now);
    }

    /**
     A timer that is not listed, set twice outside any process: the list ends in a cycle, over which
     the update_time of the second call would not return.
     */
    method SetTwiceOutside(timer: int)
      requires Valid() && 0 <= timer < next.Length && timer !in items
      modifies this`timerlist, this`needsPoll, this`items, next, owner
      ensures forall s :: !Chained(s, next[..], timerlist)
    {
      hide Chained;
      LinkTimer(timer, NONE);
      assert owner[timer] == owner[..][timer] == NONE;
      LinkTimer(timer, NONE);
    }

    /** While every listed timer is owned, add_timer always returns. */
    lemma OwnedMayAdd(timer: int)
      requires Valid() && 0 <= timer < next.Length && InRange(items, owner.Length) && Owned()
      ensures owner[timer] != NONE || timer !in items
    {
    }

    /** etimer_stop: the timer is off the list and counts as expired. */
    method Stop(et: int, now: nat)
      requires Valid() && 0 <= et < next.Length && now < clockMod
      modifies this`timerlist, this`nextExpiration, this`items, next, owner
      ensures Valid() && items == Without(old(items), {et})
      ensures owner[..] == old(owner[..])[et := NONE] && next[et] == NULL
      ensures if et in old(items) then Upcoming(items, due[..], clockMod, now, nextExpiration)
              else nextExpiration == old(nextExpiration)
    {
      hide Chained; hide Without; hide Upcoming;
      ListFacts();
      ghost var owner0 := owner[..];
      if et == timerlist {
        Unlink(NULL, et, 0);
        UpdateTime(now);
      } else {
        var t := timerlist;
        ghost var p: nat := 0;
        while t != NULL && next[t] != et
          modifies {}
          invariant p <= |items| && t == (if p == |items| then NULL else items[p])
          invariant t != NULL ==> 0 <= t < next.Length
          invariant forall i :: 0 <= i <= p && i < |items| ==> items[i] != et
          decreases |items| - p
        {
          Link(p);
          t := next[t];
          p := p + 1;
          if p < |items| {
            Link(p);
          }
        }
        if t != NULL {
          Link(p);
          Unlink(t, et, p + 1);
          UpdateTime(now);
        } else {
          ListEnd(p);
          WithoutNothing(items, {et});
        }
      }
      ghost var next1 := next[..];
      next[et] := NULL;
      NodeElse(items, next1, timerlist, et, NULL);
      assert next[..] == next1[et := NULL];
      owner[et] := NONE;
      assert next[..] == next1[et := NULL];
      assert owner[..] == owner0[et := NONE];
    }

    /** Drop the timer at index `i` from the list, as the EXITED branch does: its own link stays. */
    method Drop(ghost i: nat, u: int, x: int, ghost gone: set<int>)
      requires Valid() && i < |items| && x == items[i] && u == (if i == 0 then NULL else items[i - 1]) && x in gone
      modifies this`timerlist, this`items, next
      ensures Valid() && owner[..] == old(owner[..])
      ensures items == old(items)[..i] + old(items)[i + 1..]
      ensures Without(items, gone) == Without(old(items), gone)
    {
      hide Without;
      Link(i);
      ghost var next0, owner0 := next[..], owner[..];
      ghost var cut := if i == 0 then next0 else next0[u := next0[x]];
      if u == NULL {
        timerlist := next[x];
      } else {
        next[u] := next[x];
      }
      assert next[..] == cut && owner[..] == owner0;
      ChainedCut(items, next0, old(timerlist), i, cut[x := NULL], timerlist);
      NodeElse(Without(items, {x}), cut[x := NULL], timerlist, x, cut[x]);
      assert cut[x := NULL][x := cut[x]] == cut;
      WithoutOne(items, i);
      WithoutTwice(items, {x}, gone);
      assert {x} + gone == gone;
      items := Without(items, {x});
    }

    /** The EXITED branch of etimer_process: exactly the timers of process `q` leave the list. */
    method ProcessExited(q: int)
      requires Valid()
      modifies this`timerlist, this`items, next
      ensures Valid() && owner[..] == old(owner[..])
      ensures InRange(old(items), owner.Length)
      ensures items == Without(old(items), OwnedBy(old(items), owner[..], q))
    {
      hide Chained; hide Without; hide OwnedBy;
      ListFacts();
      ghost var gone := OwnedBy(items, owner[..], q);
      OwnedAre(items, owner[..], q);
      while timerlist != NULL && owner[timerlist] == q
        invariant Valid() && owner[..] == old(owner[..])
        invariant InRange(items, owner.Length) && timerlist == if items == [] then NULL else items[0]
        invariant AreOf(items, owner[..], q, gone)
        invariant Without(items, gone) == Without(old(items), gone)
        decreases |items|
      {
        Drop(0, NULL, timerlist, gone);
        ListFacts();
      }
      if timerlist != NULL {
        DropBehind(q, gone);
      } else {
        WithoutNothing(items, gone);
      }
    }

    /** The second loop of the EXITED branch: the head stays. */
    method DropBehind(q: int, ghost gone: set<int>)
      requires Valid() && items != [] && AreOf(items, owner[..], q, gone) && items[0] !in gone
      modifies this`timerlist, this`items, next
      ensures Valid() && owner[..] == old(owner[..]) && items == Without(old(items), gone)
    {
      hide Chained; hide Without; hide Distinct; hide AreOf; hide Kept;
      var t := timerlist;
      ghost var p: nat := 0;
      Link(0);
      ListFacts();
      KeptFirst(items, gone);
      while next[t] != NULL
        invariant Valid() && owner[..] == old(owner[..])
        invariant AreOf(items, owner[..], q, gone) && Kept(items, p, gone)
        invariant Without(items, gone) == Without(old(items), gone)
        invariant p < |items| && t == items[p] && 0 <= t < next.Length
        decreases |items| - p
      {
        Link(p);
        ListFacts();
        var n := next[t];
        KeptStep(items, owner[..], q, gone, p);
        if owner[n] == q {
          Drop(p + 1, t, n, gone);
          ListFacts();
        } else {
          t := n;
          p := p + 1;
        }
      }
      Link(p);
      ListFacts();
      KeptAll(items, p, gone);
      WithoutNothing(items, gone);
    }
  }

  /** The timers up to index `p` stay. */
  ghost predicate Kept(items: seq<int>, p: nat, gone: set<int>)
  {
    p < |items| && forall i :: 0 <= i <= p ==> items[i] !in gone
  }

  lemma KeptFirst(items: seq<int>, gone: set<int>)
    requires items != [] && items[0] !in gone
    ensures Kept(items, 0, gone)
  {
  }

  lemma KeptStep(items: seq<int>, owner: seq<int>, q: int, gone: set<int>, p: nat)
    requires AreOf(items, owner, q, gone) && Kept(items, p, gone) && p + 1 < |items|
    ensures 0 <= items[p + 1] < |owner| && (owner[items[p + 1]] == q <==> items[p + 1] in gone)
    ensures if items[p + 1] in gone
            then var cut := items[..p + 1] + items[p + 2..]; AreOf(cut, owner, q, gone) && Kept(cut, p, gone)
            else Kept(items, p + 1, gone)
  {
  }

  lemma KeptAll(items: seq<int>, p: nat, gone: set<int>)
    requires Kept(items, p, gone) && p + 1 == |items|
    ensures forall i :: 0 <= i < |items| ==> items[i] !in gone
  {
  }

  /** `gone` holds those of the listed timers that process `q` owns. */
  ghost predicate AreOf(items: seq<int>, owner: seq<int>, q: int, gone: set<int>)
  {
    forall i :: 0 <= i < |items| ==> 0 <= items[i] < |owner| && (items[i] in gone <==> owner[items[i]] == q)
  }

  /** The listed timers of process `q`. */
  ghost function OwnedBy(items: seq<int>, owner: seq<int>, q: int): (r: set<int>)
    requires InRange(items, |owner|)
  {
    set t | t in items && 0 <= t < |owner| && owner[t] == q
  }

  lemma OwnedAre(items: seq<int>, owner: seq<int>, q: int)
    requires InRange(items, |owner|)
    ensures AreOf(items, owner, q, OwnedBy(items, owner, q))
  {
  }

  lemma ChainedPush(items: seq<int>, next: seq<int>, head: int, x: int)
    requires Chained(items, next, head) && x !in items && 0 <= x < |next|
    ensures Chained([x] + items, next[x := head], x)
  {
    var l, n := [x] + items, next[x := head];
    forall i | 0 <= i < |l|
      ensures 0 <= l[i] < |n| && n[l[i]] == if i + 1 == |l| then NULL else l[i + 1]
    {
      if i > 0 {
        assert next[items[i - 1]] == if i == |items| then NULL else items[i];
      }
    }
  }

  /** A listed timer pushed once more closes a cycle: no NULL-terminated chain starts at it. */
  lemma LinkedTwice(items: seq<int>, next: seq<int>, head: int, x: int, n: seq<int>)
    requires Chained(items, next, head) && x in items && n == next[x := head]
    ensures forall s :: !Chained(s, n, x)
  {
    var p :| 0 <= p < |items| && items[p] == x;
    var cycle := items[..p + 1];
    forall y | y in cycle
      ensures 0 <= y < |n| && n[y] in cycle
    {
      var i :| 0 <= i < |cycle| && cycle[i] == y;
      assert next[items[i]] == if i + 1 == |items| then NULL else items[i + 1];
      if i < p {
        assert cycle[i + 1] == items[i + 1];
      } else {
        assert cycle[0] == items[0] == head;
      }
    }
    assert cycle[p] == x;
    forall s
      ensures !Chained(s, n, x)
    {
      NoWayOut(s, n, x, cycle);
    }
  }

  /** Links that stay within a set of nodes never reach NULL. */
  lemma NoWayOut(s: seq<int>, n: seq<int>, head: int, cycle: seq<int>)
    requires head in cycle && forall y :: y in cycle ==> 0 <= y < |n| && n[y] in cycle
    ensures !Chained(s, n, head)
  {
    if Chained(s, n, head) {
      TrappedIn(s, n, head, cycle, |s| - 1);
    }
  }

  lemma {:induction false} TrappedIn(s: seq<int>, n: seq<int>, head: int, cycle: seq<int>, i: int)
    requires Chained(s, n, head) && head in cycle
    requires forall y :: y in cycle ==> 0 <= y < |n| && n[y] in cycle
    requires -1 <= i < |s|
    ensures s != [] && (i >= 0 ==> s[i] in cycle && n[s[i]] in cycle)
  {
    if i > 0 {
      TrappedIn(s, n, head, cycle, i - 1);
      assert n[s[i - 1]] == s[i];
    }
  }

  lemma FullOrNone(items: seq<int>, expired: seq<bool>, full: bool)
    requires InRange(items, |expired|)
    requires if full then exists i :: 0 <= i < |items| && expired[items[i]] else NoneBefore(items, expired, |items|)
    ensures full <==> ExpiredOf(items, expired) != []
  {
    if full {
      ExpiredAre(items, expired);
      var i :| 0 <= i < |items| && expired[items[i]];
      assert items[i] in items;
      assert items[i] in ExpiredOf(items, expired);
    } else {
      FirstExpired(items, expired, |items|);
    }
  }

  // --------------------------------------------------------------- whole runs

  datatype Call =
    | CallSet(timer: int, due: nat, current: int, now: nat)
    | CallStop(timer: int, now: nat)
    | CallPoll(expired: seq<bool>, now: nat)
    | CallExited(process: int)
    | CallDispatch

  /** The list is sound and every listed timer is owned by a process. */
  ghost predicate Sound(ts: Timers)
    reads ts, ts.queue, ts.next, ts.owner
  {
    ts.Valid() && InRange(ts.items, ts.owner.Length) && ts.Owned()
  }

  lemma OwnedLess(items: seq<int>, owner: seq<int>, gone: set<int>, owner': seq<int>)
    requires InRange(items, |owner|) && |owner'| == |owner|
    requires forall i :: 0 <= i < |items| ==> owner[items[i]] != NONE
    requires forall t :: 0 <= t < |owner| && t !in gone ==> owner'[t] == owner[t]
    ensures var l := Without(items, gone);
            InRange(l, |owner'|) && forall i :: 0 <= i < |l| ==> owner'[l[i]] != NONE
  {
    hide Without;
    var l := Without(items, gone);
    forall i | 0 <= i < |l|
      ensures 0 <= l[i] < |owner'| && owner'[l[i]] != NONE
    {
      assert l[i] in l;
    }
  }

  lemma ServedOwned(items0: seq<int>, owner0: seq<int>, waiting0: seq<Event>, expired: seq<bool>, j: nat,
                    items: seq<int>, owner: seq<int>, waiting: seq<Event>)
    requires InRange(items0, |expired|) && |owner0| == |expired|
    requires Served(items0, owner0, waiting0, expired, j, items, owner, waiting)
    requires forall i :: 0 <= i < |items0| ==> owner0[items0[i]] != NONE
    ensures InRange(items, |owner|) && forall i :: 0 <= i < |items| ==> owner[items[i]] != NONE
  {
    hide ExpiredOf; hide EventsFor; hide Without;
    OwnedLess(items0, owner0, Elements(ExpiredOf(items0, expired)[..j]), owner);
  }

  /** The timers and the queue in the abstract. */
  datatype Kernel = Kernel(items: seq<int>, owner: seq<int>, due: seq<nat>, waiting: seq<Event>, needsPoll: bool,
      next: nat)

  /** Those of the timers `gone` count as expired. */
  ghost function Cleared(owner: seq<int>, gone: set<int>): (r: seq<int>)
    ensures |r| == |owner| && forall t :: 0 <= t < |owner| ==> r[t] == if t in gone then NONE else owner[t]
  {
    seq(|owner|, t requires 0 <= t < |owner| => if t in gone then NONE else owner[t])
  }

  /** Calls with arguments out of range are not made, nor is a timer set outside a process. */
  ghost predicate Made(m: nat, k: Kernel, call: Call)
  {
    match call
    case CallSet(t, _, current, now) => 0 <= t < |k.owner| && current != NONE && now < m
    case CallStop(t, now) => 0 <= t < |k.owner| && now < m
    case CallPoll(expired, now) => |expired| == |k.owner| && now < m
    case _ => true
  }

  /** What each call does, with `slots` places in the queue, but for the next expiration. */
  ghost function KernelStep(slots: nat, m: nat, k: Kernel, call: Call): (r: Kernel)
    requires InRange(k.items, |k.owner|) && |k.waiting| <= slots && |k.due| == |k.owner|
  {
    if !Made(m, k, call) then k
    else
      match call
      case CallSet(t, due, current, _) =>
        k.(items := if t in k.items then k.items else [t] + k.items, owner := k.owner[t := current],
           due := k.due[t := due], needsPoll := true)
      case CallStop(t, _) => k.(items := Without(k.items, {t}), owner := k.owner[t := NONE])
      case CallPoll(expired, _) =>
        ExpiredAre(k.items, expired);
        var e, room := ExpiredOf(k.items, expired), slots - |k.waiting|;
        var served := e[..if |e| <= room then |e| else room];
        k.(items := Without(k.items, Elements(served)), owner := Cleared(k.owner, Elements(served)),
           waiting := k.waiting + EventsFor(served, k.owner), needsPoll := |e| > room)
      case CallExited(q) => k.(items := Without(k.items, OwnedBy(k.items, k.owner, q)))
      case CallDispatch => if k.waiting == [] then k else k.(waiting := k.waiting[1..])
  }

  /** The next expiration is recomputed when a timer is set, stopped or served, and stays otherwise. */
  ghost predicate Rescheduled(m: nat, k: Kernel, call: Call, k': Kernel)
  {
    match call
    case CallSet(_, _, _, now) =>
      if Made(m, k, call) then Upcoming(k'.items, k'.due, m, now, k'.next) else k'.next == k.next
    case CallStop(t, now) =>
      if Made(m, k, call) && t in k.items then Upcoming(k'.items, k'.due, m, now, k'.next) else k'.next == k.next
    case CallPoll(_, now) =>
      if |k'.waiting| > |k.waiting| then Upcoming(k'.items, k'.due, m, now, k'.next) else k'.next == k.next
    case _ => k'.next == k.next
  }

  ghost predicate Follows(slots: nat, m: nat, k: Kernel, call: Call, k': Kernel)
  {
    && InRange(k.items, |k.owner|) && |k.waiting| <= slots && |k.due| == |k.owner|
    && k' == KernelStep(slots, m, k, call).(next := k'.next)
    && Rescheduled(m, k, call, k')
  }

  lemma NotLater(items: seq<int>, due: seq<nat>, m: nat, now: nat, x: nat, y: nat)
    requires Upcoming(items, due, m, now, x) && Upcoming(items, due, m, now, y) && items != []
    ensures (x - now) % m <= (y - now) % m && y < m
  {
    var j :| 0 <= j < |items| && due[items[j]] % m == y;
    SameDistance(m, now, due[items[j]]);
  }

  /** What is recomputed is determined by the list, the due times and the clock. */
  lemma OneExpiration(items: seq<int>, due: seq<nat>, m: nat, now: nat, x: nat, y: nat)
    requires Upcoming(items, due, m, now, x) && Upcoming(items, due, m, now, y)
    ensures x == y
  {
    if items != [] {
      NotLater(items, due, m, now, x, y);
      NotLater(items, due, m, now, y, x);
      SameReading(m, now, x, y);
    }
  }

  ghost function KernelOf(ts: Timers): (r: Kernel)
    requires ts.Valid()
    reads ts, ts.queue, ts.next, ts.owner, ts.due, ts.queue.events
  {
    Kernel(ts.items, ts.owner[..], ts.due[..], ts.queue.Waiting(), ts.needsPoll, ts.nextExpiration)
  }

  /** The states `ks` are those before, between and after the calls. */
  ghost predicate Trace(slots: nat, m: nat, ks: seq<Kernel>, calls: seq<Call>)
  {
    |ks| == |calls| + 1 && forall i :: 0 <= i < |calls| ==> Follows(slots, m, ks[i], calls[i], ks[i + 1])
  }

  lemma ServedIs(items0: seq<int>, owner0: seq<int>, waiting0: seq<Event>, expired: seq<bool>, j: nat,
                 items: seq<int>, owner: seq<int>, waiting: seq<Event>)
    requires InRange(items0, |expired|) && |owner0| == |expired|
    requires Served(items0, owner0, waiting0, expired, j, items, owner, waiting)
    ensures j <= |ExpiredOf(items0, expired)| && InRange(ExpiredOf(items0, expired), |owner0|)
    ensures owner == Cleared(owner0, Elements(ExpiredOf(items0, expired)[..j]))
    ensures items == Without(items0, Elements(ExpiredOf(items0, expired)[..j]))
    ensures waiting == waiting0 + EventsFor(ExpiredOf(items0, expired)[..j], owner0)
  {
    hide ExpiredOf; hide EventsFor; hide Without;
  }

  /** One call: the list stays sound, and the state that follows is the one of the abstract step. */
  method Perform(ts: Timers, call: Call)
    requires Sound(ts)
    modifies ts, ts.next, ts.owner, ts.due, ts.queue, ts.queue.events
    ensures Sound(ts)
    ensures Follows(ts.queue.events.Length, ts.clockMod, old(KernelOf(ts)), call, KernelOf(ts))
  {
    hide Chained; hide Without; hide Served; hide Upcoming; hide OwnedBy; hide ExpiredOf; hide Cyclic;
    hide EventsFor; hide Elements;
    ghost var items0, owner0, due0, waiting0, events0 := ts.items, ts.owner[..], ts.due[..], ts.queue.Waiting(),
        ts.queue.events[..];
    match call
    case CallSet(timer, due, current, now) =>
      if 0 <= timer < ts.next.Length && current != NONE && now < ts.clockMod {
        ts.OwnedMayAdd(timer);
        ts.SetTimer(timer, due, current, now);
        assert ts.queue.events[..] == events0;
      }
    case CallStop(timer, now) =>
      if 0 <= timer < ts.next.Length && now < ts.clockMod {
        ts.Stop(timer, now);
        assert ts.queue.events[..] == events0 && ts.due[..] == due0;
        OwnedLess(items0, owner0, {timer}, ts.owner[..]);
        assert forall i :: 0 <= i < |ts.items| ==> ts.owner[ts.items[i]] == ts.owner[..][ts.items[i]];
      }
    case CallPoll(expired, now) =>
      if |expired| == ts.next.Length && now < ts.clockMod {
        ts.needsPoll := false;
        var served := ts.Poll(expired, now);
        assert ts.due[..] == due0;
        ServedOwned(items0, owner0, waiting0, expired, served, ts.items, ts.owner[..], ts.queue.Waiting());
        ServedIs(items0, owner0, waiting0, expired, served, ts.items, ts.owner[..], ts.queue.Waiting());
        ServedCounts(items0, owner0, waiting0, expired, served, ts.items, ts.owner[..], ts.queue.Waiting());
        assert forall i :: 0 <= i < |ts.items| ==> ts.owner[ts.items[i]] == ts.owner[..][ts.items[i]];
      }
    case CallExited(q) =>
      ts.ProcessExited(q);
      assert ts.queue.events[..] == events0 && ts.due[..] == due0;
      OwnedLess(items0, owner0, OwnedBy(items0, owner0, q), ts.owner[..]);
      assert forall i :: 0 <= i < |ts.items| ==> ts.owner[ts.items[i]] == ts.owner[..][ts.items[i]];
    case CallDispatch =>
      ghost var next0 := ts.next[..];
      var _ := ts.queue.Take();
      assert ts.next[..] == next0;
  }

  /**
   Any sequence of calls in which timers are set only from within processes keeps the list sound,
   and the states it goes through are those of the abstract steps.
   */
  method Run(ts: Timers, calls: seq<Call>) returns (ghost ks: seq<Kernel>)
    requires Sound(ts)
    modifies ts, ts.next, ts.owner, ts.due, ts.queue, ts.queue.events
    ensures Sound(ts)
    ensures Trace(ts.queue.events.Length, ts.clockMod, ks, calls)
    ensures ks[0] == old(KernelOf(ts)) && ks[|calls|] == KernelOf(ts)
  {
    hide Chained; hide Follows;
    ks := [KernelOf(ts)];
    for n := 0 to |calls|
      invariant Sound(ts)
      invariant Trace(ts.queue.events.Length, ts.clockMod, ks, calls[..n])
      invariant ks[0] == old(KernelOf(ts)) && ks[n] == KernelOf(ts)
    {
      Perform(ts, calls[n]);
      TraceOn(ts.queue.events.Length, ts.clockMod, ks, calls[..n], calls[n], KernelOf(ts));
      assert calls[..n + 1] == calls[..n] + [calls[n]];
      ks := ks + [KernelOf(ts)];
    }
    assert calls[..|calls|] == calls;
  }

  lemma TraceOn(slots: nat, m: nat, ks: seq<Kernel>, calls: seq<Call>, call: Call, k: Kernel)
    requires Trace(slots, m, ks, calls) && Follows(slots, m, ks[|calls|], call, k)
    ensures Trace(slots, m, ks + [k], calls + [call])
  {
    hide Follows;
  }
}
