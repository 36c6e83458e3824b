/**
 The neighbor tables of os/net/nbr-table.c: up to eight tables share one pool of
 neighbor keys.  An item is an address in the storage of its table; callbacks are recorded.
 */
module NbrTable {
  import opened Arithmetic
  import opened KeyList
  import opened NbrBits
  import opened NbrView
  import opened Sequences

  /** item_from_index and index_from_item invert each other, whatever the item size. */
  lemma ItemRoundTrip(data: int, itemSize: nat, index: nat)
    requires itemSize > 0
    ensures var item := data + index * itemSize; (item - data) / itemSize == index
  {
    Quotient(index, itemSize);
  }

  function Copies<T>(n: nat, x: T): (r: seq<T>)
    ensures |r| == n && forall i :: 0 <= i < n ==> r[i] == x
  {
    seq(n, _ => x)
  }

  class Tables {
    const pool: Pool                 // neighbor_addr_mem
    const keys: List                 // nbr_table_keys
    const lladdr: array<Addr>
    const used: array<bv8>
    const locked: array<bv8>
    var numTables: nat
    var hasCallback: seq<bool>       // per registered table
    var data: seq<nat>               // its storage
    var itemSize: seq<nat>
    var calls: seq<(nat, int)>       // callbacks made: table, slot

    ghost function Others(): set<object>
      reads this, pool, keys
    {
      {lladdr as object, pool.count as object, keys.next as object}
    }

    /** The shape of the storage, whatever it holds. */
    ghost predicate Storage()
      reads this, pool, keys
    {
      && used != locked && lladdr != pool.count
      && (used as object) !in Others() && (locked as object) !in Others()
      && (keys.next as object) !in {lladdr as object, pool.count as object}
      && pool.count.Length == keys.next.Length == lladdr.Length == used.Length == locked.Length
      && numTables == |hasCallback| == |data| == |itemSize| <= 8 && forall t :: 0 <= t < numTables ==> itemSize[t] > 0
    }

    ghost predicate Valid()
      reads this, pool, pool.count, keys, keys.next, lladdr, used, locked
    {
      && Storage()
      && pool.Valid() && keys.Valid()
      && (forall k :: k in keys.items <==> k in pool.Taken())
      && Keyed(keys.items, lladdr[..], used[..])
    }

    /** The neighbors of table `t`, by address. */
    ghost function Neighbors(t: nat): (r: map<Addr, int>)
      requires Valid() && t < 8
      reads this, pool, pool.count, keys, keys.next, lladdr, used, locked
    {
      View(keys.items, lladdr[..], used[..], t)
    }

    /** The tables to be told when the neighbor in slot `k` goes: those with a callback that have it. */
    ghost function Concerns(k: int): (r: set<nat>)
      requires Valid() && k in keys.items
      reads this, pool, pool.count, keys, keys.next, lladdr, used, locked
    {
      Concerned(keys.items, lladdr[..], used[..], hasCallback, numTables, k)
    }

    constructor (max: nat)
      ensures Valid() && keys.items == [] && numTables == 0 && calls == [] && hasCallback == []
      ensures lladdr[..] == Copies(max, LINKADDR_NULL) && used[..] == Copies(max, 0) && locked[..] == Copies(max, 0)
      ensures forall t :: 0 <= t < 8 ==> Neighbors(t) == map[]
      ensures fresh(pool) && fresh(pool.count) && fresh(keys) && fresh(keys.next) && fresh(lladdr) && fresh(used)
            && fresh(locked)
    {
      pool := new Pool(max);
      keys := new List(max);
      lladdr := new Addr[max](i => LINKADDR_NULL);
      used := new bv8[max](i => 0);
      locked := new bv8[max](i => 0);
      numTables, hasCallback, data, itemSize, calls := 0, [], [], [], [];
    }

    /**
     nbr_table_register: a table known already, under index `known`, has its callback replaced; any
     other gets the next index, or is refused when there are eight.
     */
    method Register(known: int, storage: nat, size: nat, callback: bool) returns (ok: bool)
      requires Valid() && size > 0 && (known == NULL || 0 <= known < numTables)
      modifies this`numTables, this`hasCallback, this`data, this`itemSize
      ensures Valid()
      ensures ok <==> known != NULL || old(numTables) < 8
      ensures hasCallback == if known != NULL then old(hasCallback)[known := callback]
                             else if ok then old(hasCallback) + [callback] else old(hasCallback)
      ensures known == NULL && ok ==> data == old(data) + [storage] && itemSize == old(itemSize) + [size]
      ensures known != NULL || !ok ==> data == old(data) && itemSize == old(itemSize)
      ensures forall u :: 0 <= u < 8 ==> Neighbors(u) == old(Neighbors(u))
    {
      hide View; hide Keyed; hide Chained;
      if known != NULL {
        hasCallback := hasCallback[known := callback];
        return true;
      }
      if numTables < 8 {
        numTables := numTables + 1;
        hasCallback, data, itemSize := hasCallback + [callback], data + [storage], itemSize + [size];
        return true;
      }
      return false;
    }

    /** item_from_index */
    function ItemAt(t: nat, k: int): (r: int)
      requires t < |data| && t < |itemSize|
      reads this
    {
      if k == NULL then NULL else data[t] + k * itemSize[t]
    }

    /** index_from_item */
    function SlotOf(t: nat, item: int): (r: int)
      requires t < |data| && t < |itemSize| && itemSize[t] > 0
      reads this
    {
      if item == NULL then NULL else (item - data[t]) / itemSize[t]
    }

    /** An item names the slot it was made for. */
    lemma SlotOfItem(t: nat, k: int)
      requires t < |data| && t < |itemSize| && itemSize[t] > 0 && (k == NULL || 0 <= k)
      ensures SlotOf(t, ItemAt(t, k)) == k
    {
      if k != NULL {
        ItemRoundTrip(data[t], itemSize[t], k);
        MulMonotone(k, 1, itemSize[t]);
      }
    }

    /** The item of slot `k` lies in the storage of its table, clear of the items of all other slots. */
    lemma ItemsApart(t: nat, k: nat, j: nat)
      requires Valid() && t < numTables && k < lladdr.Length && j < lladdr.Length && k != j
      ensures data[t] <= ItemAt(t, k) && ItemAt(t, k) + itemSize[t] <= data[t] + lladdr.Length * itemSize[t]
      ensures ItemAt(t, k) + itemSize[t] <= ItemAt(t, j) || ItemAt(t, j) + itemSize[t] <= ItemAt(t, k)
    {
      hide Keyed; hide Chained;
      MulStep(k, lladdr.Length, itemSize[t]);
      MulMonotone(itemSize[t], 0, k);
      if k < j {
        MulStep(k, j, itemSize[t]);
      } else {
        MulStep(j, k, itemSize[t]);
      }
    }

    /** index_from_lladdr: the slot of the key with address `a`. */
    method IndexFromLladdr(a: Addr) returns (index: int)
      requires Valid()
      ensures index == NULL ==> forall k :: k in keys.items ==> lladdr[k] != a
      ensures index != NULL ==> index in keys.items && lladdr[index] == a
    {
      hide Keyed;
      KeysInRange(keys.items, lladdr[..], used[..]);
      var key := keys.head;
      ghost var p: nat := 0;
      while key != NULL
        invariant p <= |keys.items| && key == (if p == |keys.items| then NULL else keys.items[p])
        invariant forall i :: 0 <= i < p ==> lladdr[keys.items[i]] != a
        decreases |keys.items| - p
      {
        keys.Link(p);
        if a == lladdr[key] {
          return key;
        }
        key := keys.next[key];
        p := p + 1;
      }
      keys.Ends(p);
      return NULL;
    }

    /** nbr_table_get_from_lladdr: lookup agrees with the map. */
    method GetFromLladdr(t: nat, a: Addr) returns (item: int)
      requires Valid() && t < numTables
      ensures item == if a in Neighbors(t) then Neighbors(t)[a] else NULL
    {
      hide View; hide Bit; hide Keyed;
      ViewAt(keys.items, lladdr[..], used[..], t);
      KeysInRange(keys.items, lladdr[..], used[..]);
      var index := IndexFromLladdr(a);
      if index != NULL && Bit(used[index], t) {
        return index;
      }
      OtherSlot(keys.items, lladdr[..], used[..], t, a, index);
      return NULL;
    }

    /** nbr_set_bit on the used map; clearing it for a slot that is no key changes nothing. */
    method SetUsed(t: nat, item: int, value: bool) returns (r: int)
      requires Valid() && t < numTables
      requires item == NULL || item in keys.items || (!value && 0 <= item < used.Length)
      modifies used
      ensures Valid() && r == if item == NULL then 0 else 1
      ensures forall u :: 0 <= u < 8 ==>
                Neighbors(u) == if item !in keys.items || u != t then old(Neighbors(u))
                                else if value then old(Neighbors(u))[lladdr[item] := item]
                                else old(Neighbors(u)) - {lladdr[item]}
    {
      hide View; hide Bit; hide WithBit; hide Keyed;
      KeysInRange(keys.items, lladdr[..], used[..]);
      if item == NULL {
        return 0;
      }
      ghost var used0, addr0 := used[..], lladdr[..];
      ghost var used1 := used0[item := WithBit(used0[item], t, value)];
      if item in keys.items {
        ViewsWithBit(keys.items, addr0, used0, t, item, value);
      } else {
        UnusedSlot(keys.items, addr0, used0, item, t);
        assert used1 == used0;
      }
      used[item] := WithBit(used[item], t, value);
      assert used[..] == used1 && lladdr[..] == addr0;
      return 1;
    }

    /** nbr_set_bit on the locked map; any slot may be locked. */
    method SetLocked(t: nat, item: int, value: bool) returns (r: int)
      requires Valid() && t < numTables && (item == NULL || 0 <= item < locked.Length)
      modifies locked
      ensures Valid() && r == if item == NULL then 0 else 1
      ensures locked[..] == if item == NULL then old(locked[..])
            else old(locked[..])[item := WithBit(old(locked[item]), t, value)]
      ensures forall u :: 0 <= u < 8 ==> Neighbors(u) == old(Neighbors(u))
    {
      hide View; hide Keyed; hide WithBit;
      ghost var used0, addr0 := used[..], lladdr[..];
      if item == NULL {
        return 0;
      }
      locked[item] := WithBit(locked[item], t, value);
      assert used[..] == used0 && lladdr[..] == addr0;
      return 1;
    }

    /** nbr_table_remove: the neighbor leaves table `t` and is not locked by it any more; its key stays. */
    method Remove(t: nat, item: int) returns (r: int)
      requires Valid() && t < numTables && (item == NULL || 0 <= item < used.Length)
      modifies used, locked
      ensures Valid() && r == if item == NULL then 0 else 1
      ensures locked[..] == if item == NULL then old(locked[..])
            else old(locked[..])[item := WithBit(old(locked[item]), t, false)]
      ensures forall u :: 0 <= u < 8 ==>
                Neighbors(u) == if item !in keys.items || u != t then old(Neighbors(u))
                      else old(Neighbors(u)) - {lladdr[item]}
    {
      hide View; hide Keyed; hide WithBit;
      KeysInRange(keys.items, lladdr[..], used[..]);
      r := SetUsed(t, item, false);
      var _ := SetLocked(t, item, false);
    }

    /** The search of nbr_table_allocate for a neighbor to evict. */
    method FindVictim() returns (v: int, ghost p: nat)
      requires Valid()
      ensures forall k :: k in keys.items ==> 0 <= k < locked.Length
      ensures forall i :: 0 <= i < |keys.items| ==> 0 <= keys.items[i] < used.Length
      ensures v == NULL ==> AllLocked(keys.items, locked[..])
      ensures v != NULL ==> IsVictim(keys.items, used[..], locked[..], v, p)
    {
      hide View; hide Keyed; hide Users; hide IsVictim; hide AllLocked;
      KeysInRange(keys.items, lladdr[..], used[..]);
      v, p := NULL, 0;
      var least := 0;
      var key := keys.head;
      ghost var n: nat := 0;
      NoneSeen(keys.items, used[..], locked[..]);
      while key != NULL
        invariant n <= |keys.items| && key == (if n == |keys.items| then NULL else keys.items[n])
        invariant BestSoFar(keys.items, used[..], locked[..], n, v, p)
        invariant v != NULL ==> least == Users(used[v])
        decreases |keys.items| - n
      {
        keys.Link(n);
        if locked[key] == 0 {
          var count := CountUsers(used[key]);
          if v == NULL || count < least {
            OneBetter(keys.items, used[..], locked[..], n, v, p);
            v, p := key, n;
            least := count;
            if count == 0 {
              NoneBetter(keys.items, used[..], locked[..], n, v, p);
              return;
            }
          } else {
            OneWorse(keys.items, used[..], locked[..], n, v, p);
          }
        } else {
          OneWorse(keys.items, used[..], locked[..], n, v, p);
        }
        key := keys.next[key];
        n := n + 1;
      }
      keys.Ends(n);
      AllSeen(keys.items, used[..], locked[..], n, v, p);
    }

    /** remove_key: tell the tables that use the neighbor, forget it in all of them, unlink its key. */
    method RemoveKey(k: int)
      requires Valid() && k in keys.items
      modifies this`calls, used, keys, keys.next
      ensures Storage() && pool.Valid() && keys.Valid()
      ensures numTables == old(numTables) && hasCallback == old(hasCallback)
      ensures 0 <= k < used.Length && keys.items == Without(old(keys.items), {k}) && used[..] == old(used[..])[k := 0]
      ensures lladdr[..] == old(lladdr[..]) && locked[..] == old(locked[..]) && pool.Taken() == old(pool.Taken())
      ensures Tells(old(calls), calls, k, old(Concerns(k)))
    {
      hide View; hide Keyed; hide Bit; hide Without; hide Chained;
      KeysInRange(keys.items, lladdr[..], used[..]);
      ghost var used0, addr0, locked0, taken0 := used[..], lladdr[..], locked[..], pool.Taken();
      ghost var next0 := keys.next[..];
      var i := 0;
      while i < numTables
        modifies this`calls
        invariant 0 <= i <= numTables
        invariant Tells(old(calls), calls, k, Concerned(keys.items, addr0, used0, hasCallback, i, k))
      {
        ConcernedStep(keys.items, addr0, used0, hasCallback, i, k);
        if hasCallback[i] && Bit(used[k], i) {
          TellsOneMore(old(calls), calls, k, Concerned(keys.items, addr0, used0, hasCallback, i, k), i);
          calls := calls + [(i, k)];
        }
        i := i + 1;
      }
      used[k] := 0;
      assert keys.next[..] == next0;
      keys.Remove(k);
      assert used[..] == used0[k := 0] && lladdr[..] == addr0 && locked[..] == locked0;
      assert pool.Taken() == taken0;
    }

    /** Between allocation and insertion: slot `k` is taken but no key yet, and used by no table. */
    ghost predicate Reserved(k: int)
      reads this, pool, pool.count, keys, keys.next, lladdr, used, locked
    {
      && Storage()
      && pool.Valid() && keys.Valid()
      && 0 <= k < lladdr.Length && k !in keys.items
      && (forall j :: j in keys.items || j == k <==> j in pool.Taken())
      && Keyed(keys.items, lladdr[..], used[..])
    }

    /**
     nbr_table_allocate with the built-in policy: a free block, or else the block of the victim.
     It fails, without changing anything, only when every key is locked.
     */
    method Allocate() returns (k: int, ghost evicted: bool, ghost p: nat)
      requires Valid()
      modifies this`calls, pool.count, used, keys, keys.next
      ensures forall j :: j in old(keys.items) ==> 0 <= j < locked.Length
      ensures forall i :: 0 <= i < |old(keys.items)| ==> 0 <= old(keys.items)[i] < used.Length
      ensures k == NULL ==>
                && Valid() && keys.items == old(keys.items) && used[..] == old(used[..]) && calls == old(calls)
                && AllLocked(keys.items, locked[..]) && forall i :: 0 <= i < lladdr.Length ==> i in keys.items
      ensures k != NULL ==> Reserved(k)
      ensures k != NULL && !evicted ==>
                k !in old(keys.items) && keys.items == old(keys.items) && used[..] == old(used[..])
                      && calls == old(calls)
      ensures k != NULL && evicted ==>
                && (forall i :: 0 <= i < lladdr.Length ==> i in old(keys.items))
                && IsVictim(old(keys.items), old(used[..]), locked[..], k, p)
                && k in old(keys.items) && keys.items == Without(old(keys.items), {k})
                      && used[..] == old(used[..])[k := 0]
                && Tells(old(calls), calls, k, old(Concerns(k)))
    {
      hide View; hide Keyed; hide IsVictim; hide Without; hide Chained; hide AllLocked; hide Concerned; hide Tells;
      KeysInRange(keys.items, lladdr[..], used[..]);
      ghost var keys0, used0, addr0, locked0, next0 := keys.items, used[..], lladdr[..], locked[..], keys.next[..];
      evicted, p := false, 0;
      k := pool.Alloc();
      assert used[..] == used0 && lladdr[..] == addr0 && locked[..] == locked0 && keys.next[..] == next0;
      if k == NULL {
        k, p := FindVictim();
        if k != NULL {
          evicted := true;
          VictimIsKey(keys0, used0, locked0, k, p);
          ViewWithout(keys0, addr0, used0, k, 0);
          RemoveKey(k);
        }
      }
    }

    /** The reserved slot becomes the newest key, with address `a`. */
    method Insert(k: int, a: Addr)
      requires Reserved(k) && forall j :: j in keys.items ==> lladdr[j] != a
      modifies keys, keys.next, lladdr
      ensures Valid() && keys.items == old(keys.items) + [k] && lladdr[..] == old(lladdr[..])[k := a]
      ensures used[..] == old(used[..]) && locked[..] == old(locked[..])
      ensures forall u :: 0 <= u < 8 ==>
                && Keyed(old(keys.items), old(lladdr[..]), used[..])
                && Neighbors(u) == View(old(keys.items), old(lladdr[..]), used[..], u)
    {
      hide View; hide Keyed; hide Without; hide Chained;
      ghost var keys0, used0, addr0, locked0, taken0 := keys.items, used[..], lladdr[..], locked[..], pool.Taken();
      WithoutNothing(keys0, {k});
      keys.Add(k);
      assert lladdr[..] == addr0 && used[..] == used0;
      ghost var next1 := keys.next[..];
      lladdr[k] := a;
      assert lladdr[..] == addr0[k := a] && used[..] == used0 && locked[..] == locked0 && keys.next[..] == next1;
      assert pool.Taken() == taken0;
      forall u | 0 <= u < 8
        ensures Keyed(keys0 + [k], addr0[k := a], used0)
        ensures View(keys0 + [k], addr0[k := a], used0, u) == View(keys0, addr0, used0, u)
      {
        ViewAppend(keys0, addr0, used0, k, a, u);
      }
      ViewAppend(keys0, addr0, used0, k, a, 0);
    }

    /** A slot for address `a`: its own if it is a key, else a new one, evicting a neighbor if need be. */
    method Provide(a: Addr) returns (index: int, ghost evicted: int, ghost p: nat)
      requires Valid()
      modifies this`calls, pool.count, used, keys, keys.next, lladdr
      ensures Valid() && locked[..] == old(locked[..])
      ensures forall j :: j in old(keys.items) ==> 0 <= j < locked.Length
      ensures forall i :: 0 <= i < |old(keys.items)| ==> 0 <= old(keys.items)[i] < used.Length
      ensures index == NULL ==>
                && evicted == NULL && keys.items == old(keys.items) && lladdr[..] == old(lladdr[..])
                && AllLocked(keys.items, locked[..]) && forall i :: 0 <= i < lladdr.Length ==>
                      i in keys.items && lladdr[i] != a
      ensures index != NULL ==> index in keys.items && lladdr[index] == a && lladdr[..] == old(lladdr[..])[index := a]
      ensures index != NULL && index in old(keys.items) && evicted == NULL ==> keys.items == old(keys.items)
      ensures index != NULL && index !in old(keys.items) ==> keys.items == old(keys.items) + [index]
      ensures evicted == NULL ==> calls == old(calls) && forall u :: 0 <= u < 8 ==> Neighbors(u) == old(Neighbors(u))
      ensures evicted != NULL ==>
                && evicted == index && keys.items == Without(old(keys.items), {evicted}) + [index]
                && (forall i :: 0 <= i < lladdr.Length ==> i in old(keys.items) && old(lladdr[..])[i] != a)
                && IsVictim(old(keys.items), old(used[..]), locked[..], evicted, p) && evicted in old(keys.items)
                && Tells(old(calls), calls, evicted, old(Concerns(evicted)))
                && forall u :: 0 <= u < 8 ==> Neighbors(u) == old(Neighbors(u)) - {old(lladdr[..])[evicted]}
      ensures forall k :: k in old(keys.items) && k != evicted ==> k in keys.items && lladdr[k] == old(lladdr[..])[k]
    {
      hide View; hide Keyed; hide IsVictim; hide AllLocked; hide Concerned; hide Tells; hide Without; hide Chained;
      KeysInRange(keys.items, lladdr[..], used[..]);
      ghost var keys0, used0, addr0, locked0 := keys.items, used[..], lladdr[..], locked[..];
      evicted, p := NULL, 0;
      index := IndexFromLladdr(a);
      if index == NULL {
        ghost var e;
        index, e, p := Allocate();
        assert lladdr[..] == addr0 && locked[..] == locked0;
        if index == NULL {
          return;
        }
        if e {
          evicted := index;
          ViewsWithout(keys0, addr0, used0, index);
        }
        assert forall j :: j in keys.items ==> j in keys0;
        Insert(index, a);
      }
    }

    /**
     nbr_table_add_lladdr: table `t` gains the address; the other tables keep their maps, except
     that an eviction takes the victim's address out of all tables at once.
     */
    method AddLladdr(t: nat, a: Addr) returns (item: int, ghost evicted: int, ghost p: nat)
      requires Valid() && t < numTables
      modifies this`calls, pool.count, used, keys, keys.next, lladdr
      ensures Valid() && locked[..] == old(locked[..])
      ensures forall j :: j in old(keys.items) ==> 0 <= j < locked.Length
      ensures forall i :: 0 <= i < |old(keys.items)| ==> 0 <= old(keys.items)[i] < used.Length
      ensures item == NULL ==>
                && evicted == NULL && keys.items == old(keys.items) && lladdr[..] == old(lladdr[..])
                      && calls == old(calls)
                && AllLocked(keys.items, locked[..]) && (forall i :: 0 <= i < lladdr.Length ==>
                      i in keys.items && lladdr[i] != a)
                && forall u :: 0 <= u < 8 ==> Neighbors(u) == old(Neighbors(u))
      ensures item != NULL ==> item in keys.items && lladdr[item] == a && lladdr[..] == old(lladdr[..])[item := a]
      // a known address keeps its key, a new one becomes the newest key
      ensures item != NULL && item in old(keys.items) && evicted == NULL ==> keys.items == old(keys.items)
      ensures item != NULL && item !in old(keys.items) ==> keys.items == old(keys.items) + [item]
      ensures item != NULL && evicted == NULL ==>
                && calls == old(calls)
                && forall u :: 0 <= u < 8 ==>
                      Neighbors(u) == if u == t then old(Neighbors(u))[a := item] else old(Neighbors(u))
      ensures item != NULL && evicted != NULL ==>
                && evicted == item && evicted in old(keys.items)
                      && keys.items == Without(old(keys.items), {evicted}) + [item]
                && (forall i :: 0 <= i < lladdr.Length ==> i in old(keys.items) && old(lladdr[..])[i] != a)
                && IsVictim(old(keys.items), old(used[..]), locked[..], evicted, p)
                && Tells(old(calls), calls, evicted, old(Concerns(evicted)))
                && forall u :: 0 <= u < 8 ==>
                     Neighbors(u) ==
                       var rest := old(Neighbors(u)) - {old(lladdr[..])[evicted]};
                       if u == t then rest[a := item] else rest
      ensures forall k :: k in old(keys.items) && locked[k] != 0 ==> k in keys.items && lladdr[k] == old(lladdr[..])[k]
    {
      hide View; hide Keyed; hide AllLocked; hide Concerned; hide Tells; hide Without; hide Chained; hide IsVictim;
      ghost var keys0, used0, locked0 := keys.items, used[..], locked[..];
      KeysInRange(keys.items, lladdr[..], used[..]);
      item, evicted, p := Provide(a);
      if evicted != NULL {
        VictimIsKey(keys0, used0, locked0, evicted, p);
      }
      if item == NULL {
        return;
      }
      ghost var addr1, locked1 := lladdr[..], locked[..];
      var _ := SetUsed(t, item, true);
      assert lladdr[..] == addr1 && locked[..] == locked1;
    }

    /** nbr_table_next: the next newer neighbor of table `t`, behind the key at index `p`. */
    method Next(t: nat, item: int, ghost p: nat) returns (r: int)
      requires Valid() && t < numTables
      requires if item == NULL then p == |keys.items| else p < |keys.items| && keys.items[p] == item
      ensures r == if p == |keys.items| then NULL else FirstUsed(keys.items, used[..], t, p + 1)
    {
      hide Keyed; hide Bit;
      KeysInRange(keys.items, lladdr[..], used[..]);
      r := item;
      ghost var q := p;
      while true
        invariant p <= q <= |keys.items| && r == (if q == |keys.items| then NULL else keys.items[q])
        invariant p < |keys.items| ==>
                    q < |keys.items|
                    && FirstUsed(keys.items, used[..], t, p + 1) == FirstUsed(keys.items, used[..], t, q + 1)
        decreases |keys.items| - q
      {
        if r != NULL {
          keys.Link(q);
          r := keys.next[r];
          q := q + 1;
        }
        if r == NULL || Bit(used[r], t) {
          return;
        }
      }
    }

    /** nbr_table_head: the oldest neighbor of table `t`. */
    method Head(t: nat) returns (r: int)
      requires Valid() && t < numTables
      ensures r == FirstUsed(keys.items, used[..], t, 0)
    {
      hide Keyed; hide Bit;
      KeysInRange(keys.items, lladdr[..], used[..]);
      r := keys.head;
      if r == NULL {
        r := Next(t, r, |keys.items|);
        return;
      }
      keys.Link(0);
      if !Bit(used[r], t) {
        r := Next(t, r, 0);
      }
    }

    /** The usual iteration over a table visits each of its neighbors once, oldest first. */
    method Members(t: nat) returns (s: seq<int>)
      requires Valid() && t < numTables
      ensures s == UsedKeys(keys.items, used[..], t, 0)
      ensures forall k :: k in s <==> k in Neighbors(t).Values
      ensures Distinct(s)
      ensures InOrder(s, keys.items)
    {
      hide Keyed; hide Bit; hide View; hide UsedKeys; hide FirstUsed; hide Chained; hide InOrder;
      KeysInRange(keys.items, lladdr[..], used[..]);
      s := [];
      var item := Head(t);
      ghost var q: nat := FirstAt(keys.items, used[..], t, 0);
      while item != NULL
        invariant q <= |keys.items| && item == (if q == |keys.items| then NULL else keys.items[q])
        invariant UsedKeys(keys.items, used[..], t, 0) == s + UsedKeys(keys.items, used[..], t, q)
        invariant q < |keys.items| ==> Bit(used[keys.items[q]], t)
        decreases |keys.items| - q
      {
        s := s + [item];
        UsedStep(keys.items, used[..], t, q);
        item := Next(t, item, q);
        q := FirstAt(keys.items, used[..], t, q + 1);
      }
      keys.Ends(q);
      UsedEnd(keys.items, used[..], t);
      ViewAt(keys.items, lladdr[..], used[..], t);
      UsedAre(keys.items, used[..], t, 0);
      UsedInOrder(keys.items, used[..], t, 0);
      assert keys.items[0..] == keys.items;
      keys.NoDuplicates();
    }

    // ------------------------------------------------------------ on items

    /** nbr_table_get_from_lladdr */
    method GetItem(t: nat, a: Addr) returns (item: int)
      requires Valid() && t < numTables
      ensures item == ItemAt(t, if a in Neighbors(t) then Neighbors(t)[a] else NULL)
    {
      var k := GetFromLladdr(t, a);
      item := ItemAt(t, k);
    }

    /** nbr_table_remove, of the item of slot `k`. */
    method RemoveItem(t: nat, item: int, ghost k: int) returns (r: int)
      requires Valid() && t < numTables && (k == NULL || 0 <= k < used.Length) && item == ItemAt(t, k)
      modifies used, locked
      ensures Valid() && r == if k == NULL then 0 else 1
      ensures locked[..] == if k == NULL then old(locked[..])
            else old(locked[..])[k := WithBit(old(locked[k]), t, false)]
      ensures forall u :: 0 <= u < 8 ==>
                Neighbors(u) == if k !in keys.items || u != t then old(Neighbors(u))
                      else old(Neighbors(u)) - {lladdr[k]}
    {
      hide View; hide Keyed; hide WithBit;
      KeysInRange(keys.items, lladdr[..], used[..]);
      SlotOfItem(t, k);
      r := Remove(t, SlotOf(t, item));
    }

    /** nbr_table_lock and nbr_table_unlock, of the item of slot `k`. */
    method LockItem(t: nat, item: int, value: bool, ghost k: int) returns (r: int)
      requires Valid() && t < numTables && (k == NULL || 0 <= k < locked.Length) && item == ItemAt(t, k)
      modifies locked
      ensures Valid() && r == if k == NULL then 0 else 1
      ensures locked[..] == if k == NULL then old(locked[..])
            else old(locked[..])[k := WithBit(old(locked[k]), t, value)]
      ensures forall u :: 0 <= u < 8 ==> Neighbors(u) == old(Neighbors(u))
    {
      hide View; hide Keyed; hide WithBit;
      SlotOfItem(t, k);
      r := SetLocked(t, SlotOf(t, item), value);
    }
  }

  lemma ViewsWithBit(keys: seq<int>, addr: seq<Addr>, used: seq<bv8>, t: nat, k: int, value: bool)
    requires Keyed(keys, addr, used) && t < 8 && k in keys
    ensures var used' := used[k := WithBit(used[k], t, value)];
            && Keyed(keys, addr, used')
            && forall u :: 0 <= u < 8 ==>
                 View(keys, addr, used', u) ==
                   if u != t then View(keys, addr, used, u)
                   else if value then View(keys, addr, used, u)[addr[k] := k]
                   else View(keys, addr, used, u) - {addr[k]}
  {
    hide View; hide WithBit;
    forall u | 0 <= u < 8
      ensures var used' := used[k := WithBit(used[k], t, value)];
              && Keyed(keys, addr, used')
              && View(keys, addr, used', u) ==
                 if u != t then View(keys, addr, used, u)
                 else if value then View(keys, addr, used, u)[addr[k] := k]
                 else View(keys, addr, used, u) - {addr[k]}
    {
      ViewWithBit(keys, addr, used, t, k, value, u);
    }
    ViewWithBit(keys, addr, used, t, k, value, 0);
  }

  lemma KeysInRange(keys: seq<int>, addr: seq<Addr>, used: seq<bv8>)
    requires Keyed(keys, addr, used)
    ensures forall k :: k in keys ==> 0 <= k < |addr|
    ensures forall i :: 0 <= i < |keys| ==> 0 <= keys[i] < |addr|
    ensures |addr| == |used| && InRange(keys, |used|)
  {
    assert forall i :: 0 <= i < |keys| ==> keys[i] in keys;
  }

  /** If the key with address `a` is not used by table `t`, the table does not have `a`. */
  lemma OtherSlot(keys: seq<int>, addr: seq<Addr>, used: seq<bv8>, t: nat, a: Addr, index: int)
    requires Keyed(keys, addr, used) && t < 8
    requires if index == NULL then forall k :: k in keys ==> addr[k] != a
             else index in keys && addr[index] == a && !Bit(used[index], t)
    ensures a !in View(keys, addr, used, t)
  {
    hide Bit; hide View;
    ViewAt(keys, addr, used, t);
  }

  /** `v` at `p` is what the search has found among the first `n` keys. */
  ghost predicate BestSoFar(keys: seq<int>, used: seq<bv8>, locked: seq<bv8>, n: nat, v: int, p: nat)
    requires |used| == |locked| && n <= |keys| && forall i :: 0 <= i < |keys| ==> 0 <= keys[i] < |used|
  {
    if v == NULL then forall i :: 0 <= i < n ==> locked[keys[i]] != 0
    else
      && p < n && keys[p] == v && locked[v] == 0
      && (forall q :: 0 <= q < n && locked[keys[q]] == 0 ==> Users(used[v]) <= Users(used[keys[q]]))
      && (forall q :: 0 <= q < p && locked[keys[q]] == 0 ==> Users(used[v]) < Users(used[keys[q]]))
  }

  lemma NoneSeen(keys: seq<int>, used: seq<bv8>, locked: seq<bv8>)
    requires |used| == |locked| && forall i :: 0 <= i < |keys| ==> 0 <= keys[i] < |used|
    ensures BestSoFar(keys, used, locked, 0, NULL, 0)
  {
  }

  lemma OneBetter(keys: seq<int>, used: seq<bv8>, locked: seq<bv8>, n: nat, v: int, p: nat)
    requires |used| == |locked| && n < |keys| && forall i :: 0 <= i < |keys| ==> 0 <= keys[i] < |used|
    requires BestSoFar(keys, used, locked, n, v, p) && locked[keys[n]] == 0
    requires v == NULL || Users(used[keys[n]]) < Users(used[v])
    ensures BestSoFar(keys, used, locked, n + 1, keys[n], n)
  {
    hide Users;
  }

  lemma OneWorse(keys: seq<int>, used: seq<bv8>, locked: seq<bv8>, n: nat, v: int, p: nat)
    requires |used| == |locked| && n < |keys| && forall i :: 0 <= i < |keys| ==> 0 <= keys[i] < |used|
    requires BestSoFar(keys, used, locked, n, v, p)
    requires locked[keys[n]] != 0 || (v != NULL && Users(used[v]) <= Users(used[keys[n]]))
    ensures BestSoFar(keys, used, locked, n + 1, v, p)
  {
    hide Users;
  }

  /** A neighbor used by no table cannot be bettered. */
  lemma NoneBetter(keys: seq<int>, used: seq<bv8>, locked: seq<bv8>, n: nat, v: int, p: nat)
    requires |used| == |locked| && n < |keys| && forall i :: 0 <= i < |keys| ==> 0 <= keys[i] < |used|
    requires BestSoFar(keys, used, locked, n + 1, v, p) && v != NULL && Users(used[v]) == 0
    ensures IsVictim(keys, used, locked, v, p)
  {
    hide Users;
  }

  lemma AllSeen(keys: seq<int>, used: seq<bv8>, locked: seq<bv8>, n: nat, v: int, p: nat)
    requires |used| == |locked| && n == |keys| && forall i :: 0 <= i < |keys| ==> 0 <= keys[i] < |used|
    requires forall k :: k in keys ==> 0 <= k < |locked|
    requires BestSoFar(keys, used, locked, n, v, p)
    ensures v == NULL ==> AllLocked(keys, locked)
    ensures v != NULL ==> IsVictim(keys, used, locked, v, p)
  {
    hide Users;
  }

  lemma VictimIsKey(keys: seq<int>, used: seq<bv8>, locked: seq<bv8>, v: int, p: nat)
    requires |used| == |locked| && forall i :: 0 <= i < |keys| ==> 0 <= keys[i] < |used|
    requires IsVictim(keys, used, locked, v, p)
    ensures v in keys && 0 <= v < |used| && locked[v] == 0
  {
  }

  lemma ViewsWithout(keys: seq<int>, addr: seq<Addr>, used: seq<bv8>, k: int)
    requires Keyed(keys, addr, used) && k in keys
    ensures Keyed(Without(keys, {k}), addr, used[k := 0])
    ensures forall u :: 0 <= u < 8 ==>
              View(Without(keys, {k}), addr, used[k := 0], u) == View(keys, addr, used, u) - {addr[k]}
  {
    hide View; hide Without;
    forall u | 0 <= u < 8
      ensures Keyed(Without(keys, {k}), addr, used[k := 0])
      ensures View(Without(keys, {k}), addr, used[k := 0], u) == View(keys, addr, used, u) - {addr[k]}
    {
      ViewWithout(keys, addr, used, k, u);
    }
    ViewWithout(keys, addr, used, k, 0);
  }

  lemma UnusedSlot(keys: seq<int>, addr: seq<Addr>, used: seq<bv8>, k: int, t: nat)
    requires Keyed(keys, addr, used) && 0 <= k < |used| && k !in keys && t < 8
    ensures WithBit(used[k], t, false) == used[k]
  {
  }

  // ----------------------------------------------------------------- iteration

  /** The first key from index `p` on that table `t` uses, NULL if there is none. */
  ghost function FirstUsed(keys: seq<int>, used: seq<bv8>, t: nat, p: nat): (r: int)
    requires InRange(keys, |used|) && t < 8 && p <= |keys|
    ensures r == NULL ==> forall i :: p <= i < |keys| ==> !Bit(used[keys[i]], t)
    ensures r != NULL ==> exists q ::
              p <= q < |keys| && r == keys[q] && Bit(used[r], t) && forall i :: p <= i < q ==> !Bit(used[keys[i]], t)
    decreases |keys| - p
  {
    if p == |keys| then NULL else if Bit(used[keys[p]], t) then keys[p] else FirstUsed(keys, used, t, p + 1)
  }

  /** The keys from index `p` on that table `t` uses, in order. */
  ghost function UsedKeys(keys: seq<int>, used: seq<bv8>, t: nat, p: nat): (r: seq<int>)
    requires InRange(keys, |used|) && t < 8 && p <= |keys|
    decreases |keys| - p
  {
    if p == |keys| then []
    else (if Bit(used[keys[p]], t) then [keys[p]] else []) + UsedKeys(keys, used, t, p + 1)
  }

  /** The index of the first used key. */
  lemma {:induction false} FirstAt(keys: seq<int>, used: seq<bv8>, t: nat, p: nat) returns (q: nat)
    requires InRange(keys, |used|) && t < 8 && p <= |keys|
    ensures p <= q <= |keys| && FirstUsed(keys, used, t, p) == (if q == |keys| then NULL else keys[q])
    ensures q < |keys| ==> Bit(used[keys[q]], t)
    ensures UsedKeys(keys, used, t, p) == UsedKeys(keys, used, t, q)
    decreases |keys| - p
  {
    hide Bit;
    if p == |keys| || Bit(used[keys[p]], t) {
      q := p;
    } else {
      q := FirstAt(keys, used, t, p + 1);
      assert UsedKeys(keys, used, t, p) == [] + UsedKeys(keys, used, t, p + 1);
    }
  }

  lemma UsedStep(keys: seq<int>, used: seq<bv8>, t: nat, p: nat)
    requires InRange(keys, |used|) && t < 8 && p < |keys| && Bit(used[keys[p]], t)
    ensures UsedKeys(keys, used, t, p) == [keys[p]] + UsedKeys(keys, used, t, p + 1)
  {
  }

  lemma UsedEnd(keys: seq<int>, used: seq<bv8>, t: nat)
    requires InRange(keys, |used|) && t < 8
    ensures UsedKeys(keys, used, t, |keys|) == []
  {
  }

  lemma {:induction false} UsedAre(keys: seq<int>, used: seq<bv8>, t: nat, p: nat)
    requires InRange(keys, |used|) && t < 8 && p <= |keys|
    ensures forall k :: k in UsedKeys(keys, used, t, p) <==> k in keys[p..] && Bit(used[k], t)
    ensures Distinct(keys) ==> Distinct(UsedKeys(keys, used, t, p))
    decreases |keys| - p
  {
    hide Bit;
    if p < |keys| {
      UsedAre(keys, used, t, p + 1);
      assert keys[p..] == [keys[p]] + keys[p + 1..];
    }
  }

  /** They come in the order of the keys. */
  lemma {:induction false} UsedInOrder(keys: seq<int>, used: seq<bv8>, t: nat, p: nat)
    requires InRange(keys, |used|) && t < 8 && p <= |keys|
    ensures InOrder(UsedKeys(keys, used, t, p), keys[p..])
    decreases |keys| - p
  {
    hide Bit; hide InOrder;
    if p < |keys| {
      UsedInOrder(keys, used, t, p + 1);
      UsedAre(keys, used, t, p + 1);
      assert keys[p..][0] == keys[p] && keys[p..][1..] == keys[p + 1..];
      InOrderOn(UsedKeys(keys, used, t, p + 1), keys[p..]);
      assert [] + UsedKeys(keys, used, t, p + 1) == UsedKeys(keys, used, t, p + 1);
    } else {
      NothingInOrder(keys[p..]);
    }
  }

  // --------------------------------------------------------------- whole runs

  /** What a caller may do, items being named by the slot they were made for. */
  datatype Op =
    | OpRegister(storage: nat, size: nat, callback: bool)
    | OpRegisterAgain(t: nat, callback: bool)
    | OpAdd(t: nat, a: Addr)
    | OpRemove(t: nat, k: int)
    | OpLock(t: nat, k: int)
    | OpUnlock(t: nat, k: int)

  /** Everything the tables hold: keys, addresses, bit maps, callbacks registered and callbacks made. */
  datatype Snap = Snap(keys: seq<int>, addr: seq<Addr>, used: seq<bv8>, locked: seq<bv8>, callbacks: seq<bool>,
      calls: seq<(nat, int)>)

  ghost predicate Good(s: Snap)
  {
    && Keyed(s.keys, s.addr, s.used) && Distinct(s.keys) && |s.locked| == |s.addr| && |s.callbacks| <= 8
    && (forall k :: k in s.keys ==> 0 <= k < |s.locked|) && InRange(s.keys, |s.used|)
  }

  ghost function SnapOf(nt: Tables): (s: Snap)
    requires nt.Valid()
    reads nt, nt.pool, nt.pool.count, nt.keys, nt.keys.next, nt.lladdr, nt.used, nt.locked
  {
    Snap(nt.keys.items, nt.lladdr[..], nt.used[..], nt.locked[..], nt.hasCallback, nt.calls)
  }

  /** The map of table `u`. */
  ghost function Table(s: Snap, u: nat): (r: map<Addr, int>)
    requires Good(s) && u < 8
  {
    View(s.keys, s.addr, s.used, u)
  }

  /** Calls with arguments out of range are not made. */
  ghost predicate MayDo(s: Snap, op: Op)
  {
    match op
    case OpRegister(_, size, _) => size > 0
    case OpRegisterAgain(t, _) => t < |s.callbacks|
    case OpAdd(t, _) => t < |s.callbacks|
    case OpRemove(t, k) => t < |s.callbacks| && (k == NULL || 0 <= k < |s.locked|)
    case OpLock(t, k) => t < |s.callbacks| && (k == NULL || 0 <= k < |s.locked|)
    case OpUnlock(t, k) => t < |s.callbacks| && (k == NULL || 0 <= k < |s.locked|)
  }

  /** Only locks may have changed, and only table `t`, which lost slot `k` if `gone`. */
  ghost predicate LocksSet(s: Snap, t: nat, k: int, value: bool, gone: bool, s': Snap)
    requires Good(s) && Good(s') && t < 8 && (k == NULL || 0 <= k < |s.locked|)
  {
    && s'.keys == s.keys && s'.addr == s.addr && s'.callbacks == s.callbacks && s'.calls == s.calls
    && s'.locked == (if k == NULL then s.locked else s.locked[k := WithBit(s.locked[k], t, value)])
    && forall u :: 0 <= u < 8 ==>
         Table(s', u) == if !gone || k !in s.keys || u != t then Table(s, u) else Table(s, u) - {s.addr[k]}
  }

  /** nbr_table_add_lladdr for table `t` and address `a` gives slot `k`. */
  ghost predicate Adds(s: Snap, t: nat, a: Addr, k: int, s': Snap)
    requires Good(s) && Good(s') && t < |s.callbacks|
  {
    && s'.locked == s.locked && s'.callbacks == s.callbacks
    && (forall j :: j in s.keys && s.locked[j] != 0 ==> j in s'.keys && 0 <= j < |s'.addr| && s'.addr[j] == s.addr[j])
    && if k == NULL then
         && s'.keys == s.keys && s'.addr == s.addr && s'.calls == s.calls && AllLocked(s.keys, s.locked)
         && (forall i :: 0 <= i < |s.addr| ==> i in s.keys && s.addr[i] != a)
         && (forall u :: 0 <= u < 8 ==> Table(s', u) == Table(s, u))
       else
         && k in s'.keys && 0 <= k < |s.addr| && s'.addr == s.addr[k := a]
         && if s'.calls == s.calls && k !in s.keys then
              s'.keys == s.keys + [k] && forall u :: 0 <= u < 8 ==>
                    Table(s', u) == if u == t then Table(s, u)[a := k] else Table(s, u)
            else
              (&& s'.keys == s.keys && s'.calls == s.calls
               && forall u :: 0 <= u < 8 ==> Table(s', u) == if u == t then Table(s, u)[a := k] else Table(s, u))
              || Evicts(s, t, a, k, s')
  }

  /** Slot `k`, by the policy the one to evict, is given to address `a`. */
  ghost predicate Evicts(s: Snap, t: nat, a: Addr, k: int, s': Snap)
    requires Good(s) && Good(s') && t < |s.callbacks|
  {
    && k in s.keys && (exists p :: IsVictim(s.keys, s.used, s.locked, k, p))
    && (forall i :: 0 <= i < |s.addr| ==> i in s.keys && s.addr[i] != a)
    && s'.keys == Without(s.keys, {k}) + [k]
    && Tells(s.calls, s'.calls, k, Concerned(s.keys, s.addr, s.used, s.callbacks, |s.callbacks|, k))
    && forall u :: 0 <= u < 8 ==>
         Table(s', u) == var rest := Table(s, u) - {s.addr[k]}; if u == t then rest[a := k] else rest
  }

  /** What an operation does; `k` is the slot it gives, if any. */
  ghost predicate Effect(s: Snap, op: Op, k: int, s': Snap)
  {
    Good(s) && Good(s') && MayDo(s, op) &&
    match op
    case OpRegister(_, _, callback) => s' == if |s.callbacks| < 8 then s.(callbacks := s.callbacks + [callback]) else s
    case OpRegisterAgain(t, callback) => s' == s.(callbacks := s.callbacks[t := callback])
    case OpAdd(t, a) => Adds(s, t, a, k, s')
    case OpRemove(t, j) => LocksSet(s, t, j, false, true, s')
    case OpLock(t, j) => LocksSet(s, t, j, true, false, s')
    case OpUnlock(t, j) => LocksSet(s, t, j, false, false, s')
  }

  datatype Event = Event(op: Op, k: int, after: Snap)

  ghost predicate IsRun(s: Snap, events: seq<Event>)
    decreases |events|
  {
    events == [] || (Effect(s, events[0].op, events[0].k, events[0].after) && IsRun(events[0].after, events[1..]))
  }

  ghost function Last(s: Snap, events: seq<Event>): (r: Snap)
  {
    if events == [] then s else events[|events| - 1].after
  }

  /** The events are those of `ops`, in order, without the calls that are not made. */
  ghost predicate Follows(s: Snap, ops: seq<Op>, events: seq<Event>)
    decreases |ops|
  {
    if ops == [] then events == []
    else if MayDo(s, ops[0]) then events != [] && events[0].op == ops[0]
          && Follows(events[0].after, ops[1..], events[1..])
    else Follows(s, ops[1..], events)
  }

  lemma {:induction false} RunOn(s: Snap, ops: seq<Op>, events: seq<Event>, e: Event)
    requires IsRun(s, events) && Follows(s, ops, events)
    ensures !MayDo(Last(s, events), e.op) ==> Follows(s, ops + [e.op], events)
    ensures Effect(Last(s, events), e.op, e.k, e.after) ==>
              IsRun(s, events + [e]) && Follows(s, ops + [e.op], events + [e]) && Last(s, events + [e]) == e.after
    decreases |ops|
  {
    hide Effect; hide MayDo;
    EffectMade(Last(s, events), e.op, e.k, e.after);
    if |ops| == 0 {
      assert ops + [e.op] == [e.op] && [e.op][1..] == [] && events + [e] == [e] && [e][1..] == [];
    } else {
      assert (ops + [e.op])[1..] == ops[1..] + [e.op];
      if MayDo(s, ops[0]) {
        assert (events + [e])[1..] == events[1..] + [e];
        RunOn(events[0].after, ops[1..], events[1..], e);
      } else {
        RunOn(s, ops[1..], events, e);
      }
    }
  }

  lemma EffectMade(s: Snap, op: Op, k: int, s': Snap)
    ensures Effect(s, op, k, s') ==> MayDo(s, op)
  {
    hide MayDo; hide Good; hide Adds; hide LocksSet;
  }

  lemma SnapGood(nt: Tables)
    requires nt.Valid()
    ensures Good(SnapOf(nt))
  {
    KeysInRange(nt.keys.items, nt.lladdr[..], nt.used[..]);
    nt.keys.NoDuplicates();
    hide Keyed; hide Chained; hide Distinct;
  }

  /** One call: what the tables hold changes as the operation says. */
  method Perform(nt: Tables, op: Op) returns (k: int)
    requires nt.Valid() && MayDo(SnapOf(nt), op)
    modifies nt, nt.pool.count, nt.keys, nt.keys.next, nt.lladdr, nt.used, nt.locked
    ensures nt.Valid() && Effect(old(SnapOf(nt)), op, k, SnapOf(nt))
  {
    hide View; hide Keyed; hide WithBit; hide Chained; hide Distinct; hide Adds; hide LocksSet; hide Good;
    ghost var s := SnapOf(nt);
    SnapGood(nt);
    k := NULL;
    match op {
    case OpRegister(storage, size, callback) =>
      var _ := nt.Register(NULL, storage, size, callback);
      assert nt.locked[..] == s.locked && nt.lladdr[..] == s.addr && nt.used[..] == s.used;
    case OpRegisterAgain(t, callback) =>
      var _ := nt.Register(t, 0, 1, callback);
      assert nt.locked[..] == s.locked && nt.lladdr[..] == s.addr && nt.used[..] == s.used;
    case OpAdd(t, a) =>
      k := Add(nt, t, a);
    case OpRemove(t, j) => Release(nt, t, j);
    case OpLock(t, j) => Lock(nt, t, j, true);
    case OpUnlock(t, j) => Lock(nt, t, j, false);
    }
    SnapGood(nt);
  }

  method Release(nt: Tables, t: nat, k: int)
    requires nt.Valid() && t < nt.numTables && (k == NULL || 0 <= k < nt.used.Length)
    modifies nt.used, nt.locked
    ensures nt.Valid() && Good(old(SnapOf(nt))) && Good(SnapOf(nt))
          && LocksSet(old(SnapOf(nt)), t, k, false, true, SnapOf(nt))
  {
    hide View; hide Keyed; hide WithBit; hide Chained; hide Distinct;
    ghost var s := SnapOf(nt);
    SnapGood(nt);
    var _ := nt.RemoveItem(t, nt.ItemAt(t, k), k);
    assert nt.lladdr[..] == s.addr;
    SnapGood(nt);
    assert forall u :: 0 <= u < 8 ==> old(nt.Neighbors(u)) == Table(s, u) && nt.Neighbors(u) == Table(SnapOf(nt), u);
  }

  method Lock(nt: Tables, t: nat, k: int, value: bool)
    requires nt.Valid() && t < nt.numTables && (k == NULL || 0 <= k < nt.locked.Length)
    modifies nt.locked
    ensures nt.Valid() && Good(old(SnapOf(nt))) && Good(SnapOf(nt))
          && LocksSet(old(SnapOf(nt)), t, k, value, false, SnapOf(nt))
  {
    hide View; hide Keyed; hide WithBit; hide Chained; hide Distinct;
    ghost var s := SnapOf(nt);
    SnapGood(nt);
    var _ := nt.LockItem(t, nt.ItemAt(t, k), value, k);
    assert nt.lladdr[..] == s.addr && nt.used[..] == s.used;
    SnapGood(nt);
    assert forall u :: 0 <= u < 8 ==> old(nt.Neighbors(u)) == Table(s, u) && nt.Neighbors(u) == Table(SnapOf(nt), u);
  }

  method Add(nt: Tables, t: nat, a: Addr) returns (k: int)
    requires nt.Valid() && t < nt.numTables
    modifies nt, nt.pool.count, nt.keys, nt.keys.next, nt.lladdr, nt.used, nt.locked
    ensures nt.Valid() && Good(old(SnapOf(nt))) && Good(SnapOf(nt)) && Adds(old(SnapOf(nt)), t, a, k, SnapOf(nt))
  {
    hide View; hide Keyed; hide WithBit; hide Chained; hide Distinct; hide IsVictim; hide AllLocked;
    hide Concerned; hide Tells; hide Without;
    ghost var s := SnapOf(nt);
    SnapGood(nt);
    ghost var evicted, p;
    k, evicted, p := nt.AddLladdr(t, a);
    SnapGood(nt);
    assert evicted != NULL ==> IsVictim(s.keys, s.used, s.locked, evicted, p);
    ghost var s' := SnapOf(nt);
    assert forall u :: 0 <= u < 8 ==> old(nt.Neighbors(u)) == Table(s, u) && nt.Neighbors(u) == Table(s', u);
    assert k != NULL && evicted != NULL ==> Evicts(s, t, a, k, s');
    assert k != NULL ==> k in s'.keys && 0 <= k < |s'.addr| && s'.addr[k] == a;
    assert k != NULL && evicted == NULL ==> forall u :: 0 <= u < 8 ==>
          Table(s', u) == if u == t then Table(s, u)[a := k] else Table(s, u);
  }

  /** Every run from initialisation is a run of the abstract operations. */
  method Run(max: nat, ops: seq<Op>) returns (nt: Tables, ghost events: seq<Event>)
    ensures nt.Valid()
    ensures var s := Snap([], Copies(max, LINKADDR_NULL), Copies(max, 0), Copies(max, 0), [], []);
            IsRun(s, events) && Follows(s, ops, events) && Last(s, events) == SnapOf(nt)
  {
    hide Effect; hide MayDo; hide IsRun; hide Follows; hide Last;
    nt := new Tables(max);
    ghost var s := SnapOf(nt);
    events := [];
    RunNothing(s);
    assert ops[..0] == [];
    for n := 0 to |ops|
      invariant nt.Valid() && fresh(nt) && fresh(nt.pool) && fresh(nt.pool.count) && fresh(nt.keys)
            && fresh(nt.keys.next)
      invariant fresh(nt.lladdr) && fresh(nt.used) && fresh(nt.locked)
      invariant IsRun(s, events) && Follows(s, ops[..n], events) && Last(s, events) == SnapOf(nt)
    {
      assert ops[..n + 1] == ops[..n] + [ops[n]];
      var may := MayCall(nt, ops[n]);
      if may {
        var k := Perform(nt, ops[n]);
        RunOn(s, ops[..n], events, Event(ops[n], k, SnapOf(nt)));
        events := events + [Event(ops[n], k, SnapOf(nt))];
      } else {
        RunOn(s, ops[..n], events, Event(ops[n], NULL, SnapOf(nt)));
      }
    }
    assert ops[..|ops|] == ops;
  }

  method MayCall(nt: Tables, op: Op) returns (may: bool)
    requires nt.Valid()
    ensures may == MayDo(SnapOf(nt), op)
  {
    match op
    case OpRegister(_, size, _) => return size > 0;
    case OpRegisterAgain(t, _) => return t < nt.numTables;
    case OpAdd(t, _) => return t < nt.numTables;
    case OpRemove(t, k) => return t < nt.numTables && (k == NULL || 0 <= k < nt.locked.Length);
    case OpLock(t, k) => return t < nt.numTables && (k == NULL || 0 <= k < nt.locked.Length);
    case OpUnlock(t, k) => return t < nt.numTables && (k == NULL || 0 <= k < nt.locked.Length);
  }

  lemma RunNothing(s: Snap)
    ensures IsRun(s, []) && Follows(s, [], []) && Last(s, []) == s
  {
  }

  /** The operation gives up the lock of table `t` on slot `k`. */
  predicate Releases(op: Op, t: nat, k: int)
  {
    match op
    case OpRemove(u, j) => u == t && j == k
    case OpUnlock(u, j) => u == t && j == k
    case _ => false
  }

  /** Table `t` holds a lock on the key in slot `k`, which has address `a`. */
  ghost predicate Holds(s: Snap, t: nat, k: int, a: Addr)
  {
    t < 8 && k in s.keys && 0 <= k < |s.locked| && k < |s.addr| && Bit(s.locked[k], t) && s.addr[k] == a
  }

  lemma HoldsOn(s: Snap, op: Op, j: int, s': Snap, t: nat, k: int, a: Addr)
    requires Effect(s, op, j, s') && Holds(s, t, k, a) && !Releases(op, t, k)
    ensures Holds(s', t, k, a)
  {
    hide View; hide Keyed; hide Bit; hide WithBit; hide Distinct; hide IsVictim; hide AllLocked; hide Concerned;
    hide Tells; hide Without;
    match op
    case OpAdd(u, b) => LockedByte(s.locked[k], t);
    case OpRemove(u, i) => OtherLock(s.locked, u, i, false, t, k);
    case OpLock(u, i) => OtherLock(s.locked, u, i, true, t, k);
    case OpUnlock(u, i) => OtherLock(s.locked, u, i, false, t, k);
    case _ =>
  }

  /** Over any run, a locked neighbor keeps its slot and its address until that lock is given up. */
  lemma {:induction false} RunLocked(s: Snap, events: seq<Event>, t: nat, k: int, a: Addr)
    requires IsRun(s, events) && Holds(s, t, k, a)
    requires forall i :: 0 <= i < |events| ==> !Releases(events[i].op, t, k)
    ensures Holds(Last(s, events), t, k, a)
    decreases |events|
  {
    hide Effect; hide Holds; hide Releases;
    if events != [] {
      assert !Releases(events[0].op, t, k);
      HoldsOn(s, events[0].op, events[0].k, events[0].after, t, k, a);
      RunLocked(events[0].after, events[1..], t, k, a);
    }
  }

  lemma LockedByte(b: bv8, t: nat)
    requires t < 8 && Bit(b, t)
    ensures b != 0
  {
  }

  lemma OtherLock(locked: seq<bv8>, u: nat, item: int, value: bool, t: nat, k: int)
    requires u < 8 && t < 8 && 0 <= k < |locked| && (item == NULL || 0 <= item < |locked|)
    requires Bit(locked[k], t) && (value || u != t || item != k)
    ensures Bit((if item == NULL then locked else locked[item := WithBit(locked[item], u, value)])[k], t)
  {
    hide Bit; hide WithBit;
    if item == k {
      WithBitAt(locked[k], u, value, t);
    }
  }
}
