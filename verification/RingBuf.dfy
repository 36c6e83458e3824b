/**
 os/lib/ringbuf.c with one producer and one consumer that interleave at every single
 load and store of shared memory.
 */
module RingBuf {
  import opened Arithmetic

  /** A size ringbuf_init takes: a power of two, at most 128. */
  ghost predicate IsSize(n: nat)
  {
    exists k: nat :: k <= 7 && n == Pow2(k)
  }

  /** Masking with size - 1, of a difference of pointers that may be negative, reduces modulo the size. */
  lemma Masked(x: int, n: nat)
    requires IsSize(n)
    ensures n > 0 && BitAnd(x, n - 1) == x % n
  {
    var k: nat :| k <= 7 && n == Pow2(k);
    MaskIsModulo(x, k);
  }

  // ------------------------------------------------------------ the two threads

  /** Where the producer is in ringbuf_put: before the load of get_ptr, of the store of the byte, of that of put_ptr. */
  datatype Putting<T> =
    | PutIdle
    | PutChecking(c: T)
    | PutStoring(c: T)
    | PutPublishing(c: T)

  /** Where the consumer is in ringbuf_get: before the load of put_ptr, of the byte, of the store of get_ptr. */
  datatype Getting<T> =
    | GetIdle
    | GetLoading
    | GetPublishing(c: T)

  /** Shared memory, the two threads, and the bytes accepted and returned so far. */
  datatype State<T> = State(
    data: seq<T>, putPtr: nat, getPtr: nat,
    putting: Putting<T>, getting: Getting<T>,
    accepted: seq<T>, returned: seq<T>, refused: nat)

  /** The next load or store of either thread; `Put(c)` starts a call if the producer is idle. */
  datatype Move<T> = Put(c: T) | Get

  function Init<T>(data: seq<T>): (s: State<T>)
  {
    State(data, 0, 0, PutIdle, GetIdle, [], [], 0)
  }

  function PutStep<T>(s: State<T>, c: T): (s': State<T>)
    requires |s.data| > 0 && s.putPtr < |s.data|
  {
    var n := |s.data|;
    match s.putting
    case PutIdle => s.(putting := PutChecking(c))
    case PutChecking(d) =>                                  // load get_ptr, compare
      if BitAnd(s.putPtr - s.getPtr, n - 1) == n - 1 then s.(putting := PutIdle, refused := s.refused + 1)
      else s.(putting := PutStoring(d))
    case PutStoring(d) =>                                // store data[put_ptr]
      s.(data := s.data[s.putPtr := d], putting := PutPublishing(d))
    case PutPublishing(d) =>                                // store put_ptr
      s.(putPtr := BitAnd(s.putPtr + 1, n - 1), putting := PutIdle, accepted := s.accepted + [d])
  }

  function GetStep<T>(s: State<T>): (s': State<T>)
    requires |s.data| > 0 && s.getPtr < |s.data|
  {
    var n := |s.data|;
    match s.getting
    case GetIdle =>                                         // load put_ptr, compare
      if BitAnd(s.putPtr - s.getPtr, n - 1) > 0 then s.(getting := GetLoading) else s
    case GetLoading => s.(getting := GetPublishing(s.data[s.getPtr]))   // load data[get_ptr]
    case GetPublishing(c) =>                                // store get_ptr
      s.(getPtr := BitAnd(s.getPtr + 1, n - 1), getting := GetIdle, returned := s.returned + [c])
  }

  // ----------------------------------------------------------------- invariant

  /** The slot of the j-th byte ever accepted. */
  ghost function Slot(n: nat, j: nat): (r: nat)
    requires n > 0
    ensures r < n
  {
    j % n
  }

  lemma SlotStep(n: nat, j: nat)
    requires n > 0
    ensures (Slot(n, j) + 1) % n == Slot(n, j + 1)
  {
    ModAdd(j, 1, n);
  }

  /** Two counts less than n apart have different slots, and their distance is that of the slots. */
  lemma SlotDistance(n: nat, i: nat, j: nat)
    requires n > 0 && i <= j < i + n
    ensures (Slot(n, j) - Slot(n, i)) % n == j - i
    ensures Slot(n, i) == Slot(n, j) ==> i == j
  {
    var a, b := j / n, i / n;
    assert j == a * n + Slot(n, j) && i == b * n + Slot(n, i);
    assert Slot(n, j) - Slot(n, i) == (b - a) * n + (j - i);
    Remainder(Slot(n, j) - Slot(n, i), b - a, j - i, n);
  }

  /** At most size - 1 bytes are unread, each still in its slot; what a thread loaded is a safe underestimate. */
  ghost predicate Inv<T(!new)>(s: State<T>)
  {
    var n, p, g := |s.data|, |s.accepted|, |s.returned|;
    && IsSize(n) && n > 0
    && s.putPtr == Slot(n, p) && s.getPtr == Slot(n, g)
    && g <= p <= g + n - 1
    && (forall j :: g <= j < p ==> s.data[Slot(n, j)] == s.accepted[j])
    && s.returned <= s.accepted
    && (s.putting.PutStoring? || s.putting.PutPublishing? ==> p < g + n - 1)
    && (s.putting.PutPublishing? ==> s.data[Slot(n, p)] == s.putting.c)
    && (s.getting.GetLoading? || s.getting.GetPublishing? ==> g < p)
    && (s.getting.GetPublishing? ==> s.getting.c == s.accepted[g])
  }

  lemma InitInv<T(!new)>(data: seq<T>)
    requires IsSize(|data|)
    ensures Inv(Init(data))
  {
  }

  lemma PutStepInv<T(!new)>(s: State<T>, c: T)
    requires Inv(s)
    ensures Inv(PutStep(s, c))
    // a store never hits a slot whose byte is still unread
    ensures s.putting.PutStoring? ==> forall j :: |s.returned| <= j < |s.accepted| ==> Slot(|s.data|, j) != s.putPtr
    // a byte is refused only when size - 1 bytes are unread
    ensures PutStep(s, c).refused != s.refused ==> |s.accepted| - |s.returned| == |s.data| - 1
  {
    hide Slot; hide BitAnd; hide IsSize;
    var n, p, g := |s.data|, |s.accepted|, |s.returned|;
    Masked(s.putPtr - s.getPtr, n);
    Masked(s.putPtr + 1, n);
    SlotDistance(n, g, p);
    SlotStep(n, p);
    forall j | g <= j < p
      ensures p < g + n - 1 ==> Slot(n, j) != Slot(n, p)
    {
      SlotDistance(n, j, p);
    }
  }

  lemma GetStepInv<T(!new)>(s: State<T>)
    requires Inv(s)
    ensures Inv(GetStep(s))
    // the consumer finds nothing only when nothing is unread
    ensures s.getting.GetIdle? && GetStep(s) == s ==> |s.accepted| == |s.returned|
  {
    hide Slot; hide BitAnd; hide IsSize;
    var n, p, g := |s.data|, |s.accepted|, |s.returned|;
    Masked(s.putPtr - s.getPtr, n);
    Masked(s.getPtr + 1, n);
    SlotDistance(n, g, p);
    SlotStep(n, g);
  }

  // ---------------------------------------------------------------------- runs

  function Step<T(!new)>(s: State<T>, m: Move<T>): (s': State<T>)
    requires Inv(s)
    ensures Inv(s') && |s'.data| == |s.data|
  {
    match m
    case Put(c) => PutStepInv(s, c); PutStep(s, c)
    case Get => GetStepInv(s); GetStep(s)
  }

  function Run<T(!new)>(s: State<T>, moves: seq<Move<T>>): (s': State<T>)
    requires Inv(s)
    ensures Inv(s') && |s'.data| == |s.data|
  {
    if moves == [] then s else Step(Run(s, moves[..|moves| - 1]), moves[|moves| - 1])
  }

  /** Every interleaving: what is returned is a prefix of what was accepted, at most size - 1 bytes behind. */
  lemma FifoUnderInterleaving<T(!new)>(data: seq<T>, moves: seq<Move<T>>)
    requires IsSize(|data|)
    ensures Inv(Init(data))
    ensures var s := Run(Init(data), moves);
            && s.returned <= s.accepted
            && |s.accepted| - |s.returned| <= |data| - 1
            && |s.data| == |data| > 0 && BitAnd(s.putPtr - s.getPtr, |data| - 1) == |s.accepted| - |s.returned|
  {
    hide Slot; hide BitAnd; hide IsSize; hide Run; hide Inv;
    InitInv(data);
    UnreadIs(Run(Init(data), moves));
  }

  /** A call of ringbuf_put that is not interrupted: refused exactly when size - 1 bytes are unread. */
  lemma PutCall<T(!new)>(s: State<T>, c: T)
    requires Inv(s) && s.putting.PutIdle?
    ensures |s.data| > 0 && s.putPtr < |s.data|
    ensures var s2 := PutStep(PutStep(s, c), c);
            if |s.accepted| - |s.returned| == |s.data| - 1 then s2 == s.(refused := s.refused + 1)
            else var s4 := PutStep(PutStep(s2, c), c);
                 s4.putting.PutIdle? && s4.accepted == s.accepted + [c] && s4.returned == s.returned
                       && s4.refused == s.refused
  {
    UnreadIs(s);
    hide Slot; hide Inv; hide BitAnd; hide IsSize; hide PutStep;
    PutRuns(s, c);
  }

  lemma PutRuns<T(!new)>(s: State<T>, c: T)
    requires |s.data| > 0 && s.putPtr < |s.data| && s.putting.PutIdle?
    ensures var s2, n := PutStep(PutStep(s, c), c), |s.data|;
            if BitAnd(s.putPtr - s.getPtr, n - 1) == n - 1 then s2 == s.(refused := s.refused + 1)
            else && s2 == s.(putting := PutStoring(c))
                 && PutStep(PutStep(s2, c), c) ==
                    s.(data := s.data[s.putPtr := c], putPtr := BitAnd(s.putPtr + 1, n - 1),
                       accepted := s.accepted + [c])
  {
    hide BitAnd;
  }

  /** A call of ringbuf_get that is not interrupted: the oldest unread byte, nothing exactly when there is none. */
  lemma GetCall<T(!new)>(s: State<T>)
    requires Inv(s) && s.getting.GetIdle?
    ensures |s.data| > 0 && s.getPtr < |s.data| && |s.returned| <= |s.accepted|
    ensures var s1 := GetStep(s);
            if |s.accepted| == |s.returned| then s1 == s
            else var s3 := GetStep(GetStep(s1));
                 && s3.getting.GetIdle? && s3.accepted == s.accepted
                 && s3.returned == s.returned + [s.accepted[|s.returned|]]
  {
    UnreadIs(s);
    OldestUnread(s);
    hide Slot; hide Inv; hide BitAnd; hide IsSize; hide GetStep;
    GetRuns(s);
  }

  lemma OldestUnread<T(!new)>(s: State<T>)
    requires Inv(s)
    ensures |s.returned| < |s.accepted| ==> s.getPtr < |s.data| && s.data[s.getPtr] == s.accepted[|s.returned|]
  {
    hide IsSize;
  }

  lemma GetRuns<T(!new)>(s: State<T>)
    requires |s.data| > 0 && s.getPtr < |s.data| && s.getting.GetIdle?
    ensures var s1, n := GetStep(s), |s.data|;
            if BitAnd(s.putPtr - s.getPtr, n - 1) == 0 then s1 == s
            else GetStep(GetStep(s1)) ==
                 s.(getPtr := BitAnd(s.getPtr + 1, n - 1), returned := s.returned + [s.data[s.getPtr]])
  {
    hide BitAnd;
  }

  lemma UnreadIs<T(!new)>(s: State<T>)
    requires Inv(s)
    ensures s.returned <= s.accepted
    ensures 0 <= |s.accepted| - |s.returned| < |s.data| && s.putPtr < |s.data| && s.getPtr < |s.data|
    ensures BitAnd(s.putPtr - s.getPtr, |s.data| - 1) == |s.accepted| - |s.returned|
  {
    hide BitAnd; hide IsSize;
    Masked(s.putPtr - s.getPtr, |s.data|);
    SlotDistance(|s.data|, |s.returned|, |s.accepted|);
  }
}
