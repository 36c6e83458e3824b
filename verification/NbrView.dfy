/**
 What the neighbor table of os/net/nbr-table.c means: for every registered table a map
 from link-layer address to slot, and the choice of the neighbor to evict.
 */
module NbrView {
  import opened NbrBits
  import opened Sequences

  type Addr = nat
  const LINKADDR_NULL: Addr := 0

  /** The keys are slots with pairwise different addresses, and only keys are used by tables. */
  ghost predicate Keyed(keys: seq<int>, addr: seq<Addr>, used: seq<bv8>)
  {
    && |addr| == |used|
    && (forall k :: k in keys ==> 0 <= k < |addr|)
    && (forall j, k :: j in keys && k in keys && j != k ==> addr[j] != addr[k])
    && (forall k :: 0 <= k < |used| && k !in keys ==> used[k] == 0)
  }

  /** The neighbors of table `t`. */
  ghost function View(keys: seq<int>, addr: seq<Addr>, used: seq<bv8>, t: nat): (r: map<Addr, int>)
    requires Keyed(keys, addr, used) && t < 8
  {
    map k | k in keys && Bit(used[k], t) :: addr[k] := k
  }

  /** Lookup in the map and in the arrays agree. */
  lemma ViewAt(keys: seq<int>, addr: seq<Addr>, used: seq<bv8>, t: nat)
    requires Keyed(keys, addr, used) && t < 8
    ensures var v := View(keys, addr, used, t);
            && (forall k :: k in keys && Bit(used[k], t) ==> addr[k] in v && v[addr[k]] == k)
            && (forall a :: a in v ==> v[a] in keys && addr[v[a]] == a && Bit(used[v[a]], t))
  {
    hide Bit;
  }

  /** Setting or clearing the bit of table `t` for key `k`. */
  lemma ViewWithBit(keys: seq<int>, addr: seq<Addr>, used: seq<bv8>, t: nat, k: int, value: bool, u: nat)
    requires Keyed(keys, addr, used) && t < 8 && u < 8 && k in keys
    ensures var used' := used[k := WithBit(used[k], t, value)];
            && Keyed(keys, addr, used')
            && View(keys, addr, used', u) ==
               if u != t then View(keys, addr, used, u)
               else if value then View(keys, addr, used, u)[addr[k] := k]
               else View(keys, addr, used, u) - {addr[k]}
  {
    hide Bit; hide WithBit; hide View;
    var used' := used[k := WithBit(used[k], t, value)];
    WithBitAt(used[k], t, value, u);
    ViewAt(keys, addr, used, u);
    ViewAt(keys, addr, used', u);
  }

  /** A key that goes takes its address out of every table. */
  lemma ViewWithout(keys: seq<int>, addr: seq<Addr>, used: seq<bv8>, k: int, u: nat)
    requires Keyed(keys, addr, used) && u < 8 && k in keys
    ensures Keyed(Without(keys, {k}), addr, used[k := 0])
    ensures View(Without(keys, {k}), addr, used[k := 0], u) == View(keys, addr, used, u) - {addr[k]}
  {
    hide Bit; hide Without; hide View;
    ViewAt(keys, addr, used, u);
    ViewAt(Without(keys, {k}), addr, used[k := 0], u);
  }

  /** A new key, used by no table yet, changes no table. */
  lemma ViewAppend(keys: seq<int>, addr: seq<Addr>, used: seq<bv8>, k: int, a: Addr, u: nat)
    requires Keyed(keys, addr, used) && u < 8 && 0 <= k < |addr| && k !in keys
    requires forall j :: j in keys ==> addr[j] != a
    ensures Keyed(keys + [k], addr[k := a], used)
    ensures View(keys + [k], addr[k := a], used, u) == View(keys, addr, used, u)
  {
    ZeroBits(0);
    hide Bit; hide View;
    ViewAt(keys, addr, used, u);
    ViewAt(keys + [k], addr[k := a], used, u);
  }

  // ------------------------------------------------------------------ eviction

  /** `v` at index `p` is the oldest of the unlocked keys that are used by the fewest tables. */
  ghost predicate IsVictim(keys: seq<int>, used: seq<bv8>, locked: seq<bv8>, v: int, p: nat)
    requires |used| == |locked| && forall i :: 0 <= i < |keys| ==> 0 <= keys[i] < |used|
  {
    && p < |keys| && keys[p] == v && locked[v] == 0
    && (forall q :: 0 <= q < |keys| && locked[keys[q]] == 0 ==> Users(used[v]) <= Users(used[keys[q]]))
    && (forall q :: 0 <= q < p && locked[keys[q]] == 0 ==> Users(used[v]) < Users(used[keys[q]]))
  }

  ghost predicate AllLocked(keys: seq<int>, locked: seq<bv8>)
    requires forall k :: k in keys ==> 0 <= k < |locked|
  {
    forall k :: k in keys ==> locked[k] != 0
  }

  /** The policy determines its victim. */
  lemma VictimUnique(keys: seq<int>, used: seq<bv8>, locked: seq<bv8>, v: int, p: nat, v': int, p': nat)
    requires |used| == |locked| && forall i :: 0 <= i < |keys| ==> 0 <= keys[i] < |used|
    requires IsVictim(keys, used, locked, v, p) && IsVictim(keys, used, locked, v', p')
    ensures p == p' && v == v'
  {
    hide Users;
  }

  /** The tables that have the neighbor in slot `k`. */
  ghost function Holders(keys: seq<int>, addr: seq<Addr>, used: seq<bv8>, k: int): (r: set<nat>)
    requires Keyed(keys, addr, used) && k in keys
  {
    set t: nat | t < 8 && addr[k] in View(keys, addr, used, t)
  }

  /** They are those whose bit is set, as many as counted. */
  lemma HoldersAre(keys: seq<int>, addr: seq<Addr>, used: seq<bv8>, k: int)
    requires Keyed(keys, addr, used) && k in keys
    ensures Holders(keys, addr, used, k) == BitsFrom(used[k], 0)
    ensures |Holders(keys, addr, used, k)| == Users(used[k])
  {
    hide Bit; hide View;
    UsersAre(used[k], 0);
    forall t: nat | t < 8
      ensures addr[k] in View(keys, addr, used, t) <==> Bit(used[k], t)
    {
      ViewAt(keys, addr, used, t);
    }
    assert Holders(keys, addr, used, k) == BitsFrom(used[k], 0);
  }

  /** The key at `p` is not locked, and no other unlocked one is in fewer tables, nor an older one in as few. */
  ghost predicate FewestTables(keys: seq<int>, addr: seq<Addr>, used: seq<bv8>, locked: seq<bv8>, p: nat)
    requires Keyed(keys, addr, used) && |locked| == |used|
  {
    && p < |keys| && keys[p] in keys && locked[keys[p]] == 0
    && forall q :: 0 <= q < |keys| && keys[q] in keys && locked[keys[q]] == 0 ==>
         var n, m := |Holders(keys, addr, used, keys[p])|, |Holders(keys, addr, used, keys[q])|;
         n < m || (n == m && p <= q)
  }

  /** The victim, told by the tables that have it. */
  lemma VictimByTables(keys: seq<int>, addr: seq<Addr>, used: seq<bv8>, locked: seq<bv8>, v: int, p: nat)
    requires Keyed(keys, addr, used) && |locked| == |used| && forall i :: 0 <= i < |keys| ==> 0 <= keys[i] < |used|
    ensures IsVictim(keys, used, locked, v, p) <==>
              FewestTables(keys, addr, used, locked, p) && v == keys[p]
  {
    hide Users; hide Keyed; hide Holders;
    forall q | 0 <= q < |keys|
      ensures keys[q] in keys && |Holders(keys, addr, used, keys[q])| == Users(used[keys[q]])
    {
      HoldersAre(keys, addr, used, keys[q]);
    }
  }

  // ----------------------------------------------------------------- callbacks

  /** The calls made since `before` name slot `k` and each of the tables `who` once, in order. */
  ghost predicate Tells(before: seq<(nat, int)>, after: seq<(nat, int)>, k: int, who: set<nat>)
  {
    && before <= after
    && (forall i :: |before| <= i < |after| ==> after[i].0 in who && after[i].1 == k)
    && (forall i, j :: |before| <= i < j < |after| ==> after[i].0 < after[j].0)
    && (forall t :: t in who ==> (t, k) in after[|before|..])
  }

  lemma TellsOneMore(before: seq<(nat, int)>, after: seq<(nat, int)>, k: int, who: set<nat>, t: nat)
    requires Tells(before, after, k, who) && forall u :: u in who ==> u < t
    ensures Tells(before, after + [(t, k)], k, who + {t})
  {
    var s := after + [(t, k)];
    assert s[|before|..] == after[|before|..] + [(t, k)];
  }

  /** The first `n` tables that have a callback, and have the neighbor in slot `k`. */
  ghost function Concerned(keys: seq<int>, addr: seq<Addr>, used: seq<bv8>, callbacks: seq<bool>, n: nat, k: int):
    (r: set<nat>)
    requires Keyed(keys, addr, used) && k in keys && n <= |callbacks| <= 8
    ensures forall t: nat :: t in r <==> t < n && callbacks[t] && addr[k] in View(keys, addr, used, t)
  {
    set t: nat | t < n && callbacks[t] && addr[k] in View(keys, addr, used, t)
  }

  lemma ConcernedStep(keys: seq<int>, addr: seq<Addr>, used: seq<bv8>, callbacks: seq<bool>, n: nat, k: int)
    requires Keyed(keys, addr, used) && k in keys && n < |callbacks| <= 8
    ensures Concerned(keys, addr, used, callbacks, n + 1, k) ==
            Concerned(keys, addr, used, callbacks, n, k) + if callbacks[n] && Bit(used[k], n) then {n} else {}
  {
    hide Bit; hide View;
    ViewAt(keys, addr, used, n);
  }
}
