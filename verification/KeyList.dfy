/**
 The two containers under the neighbor table: the block pool of os/lib/memb.c and the
 singly linked list of os/lib/list.c.  Blocks and list nodes are named by their index
 in the pool; NULL is -1.
 */
module KeyList {
  import opened Sequences

  // ---------------------------------------------------------------------- memb

  class Pool {
    const count: array<nat>   // reference counts, one per block

    ghost predicate Valid()
      reads this, count
    {
      forall i :: 0 <= i < count.Length ==> count[i] <= 1
    }

    /** The blocks in use. */
    ghost function Taken(): (r: set<int>)
      reads this, count
    {
      set i | 0 <= i < count.Length && count[i] > 0
    }

    /** memb_init */
    constructor (num: nat)
      ensures Valid() && count.Length == num && Taken() == {} && fresh(count)
    {
      count := new nat[num](i => 0);
    }

    /** memb_alloc: the first block not in use, NULL exactly when all are. */
    method Alloc() returns (b: int)
      requires Valid()
      modifies count
      ensures Valid()
      ensures b == NULL ==> Taken() == old(Taken()) && forall i :: 0 <= i < count.Length ==> i in Taken()
      ensures b != NULL ==>
                && 0 <= b < count.Length && b !in old(Taken()) && Taken() == old(Taken()) + {b}
                && forall i :: 0 <= i < b ==> i in old(Taken())
    {
      for i := 0 to count.Length
        invariant forall j :: 0 <= j < i ==> count[j] > 0
        invariant forall j :: 0 <= j < count.Length ==> count[j] == old(count[j])
      {
        if count[i] == 0 {
          count[i] := count[i] + 1;
          return i;
        }
      }
      return NULL;
    }

    /** memb_free: the reference count left, -1 for a block that is not of the pool. */
    method Free(b: int) returns (r: int)
      requires Valid()
      modifies count
      ensures Valid() && Taken() == old(Taken()) - {b}
      ensures r == if 0 <= b < count.Length then 0 else -1
    {
      for i := 0 to count.Length
        invariant !(0 <= b < i)
        invariant forall j :: 0 <= j < count.Length ==> count[j] == old(count[j])
      {
        if i == b {
          if count[i] > 0 {
            count[i] := count[i] - 1;
          }
          return count[i];
        }
      }
      return -1;
    }

    /** memb_numfree */
    method NumFree() returns (n: nat)
      requires Valid()
      ensures n + |Taken()| == count.Length
    {
      n := 0;
      for i := 0 to count.Length
        invariant n + |set j | 0 <= j < i && count[j] > 0| == i
      {
        ghost var s, s' := set j | 0 <= j < i && count[j] > 0, set j | 0 <= j < i + 1 && count[j] > 0;
        if count[i] == 0 {
          n := n + 1;
          assert s' == s;
        } else {
          assert s' == s + {i};
        }
      }
    }
  }

  // ---------------------------------------------------------------------- list

  /** `items` are the nodes from `head` on, in order: NULL-terminated and without a cycle. */
  ghost predicate Chained(items: seq<int>, next: seq<int>, head: int)
  {
    && Distinct(items)
    && (forall i :: 0 <= i < |items| ==> 0 <= items[i] < |next|)
    && head == (if items == [] then NULL else items[0])
    && (forall i {:trigger next[items[i]]} :: 0 <= i < |items| ==>
          next[items[i]] == if i + 1 == |items| then NULL else items[i + 1])
  }

  /** The link of the node at `k` after node `i` is unlinked. */
  lemma CutLink(items: seq<int>, next: seq<int>, head: int, i: nat, next': seq<int>, k: nat)
    requires Chained(items, next, head) && i < |items| && k < |items| && k != i
    requires next' == (if i == 0 then next else next[items[i - 1] := next[items[i]]])[items[i] := NULL]
    ensures next'[items[k]] ==
              if k + 1 == |items| || (k + 1 == i && i + 1 == |items|) then NULL
              else if k + 1 == i then items[i + 1] else items[k + 1]
  {
    assert next[items[k]] == if k + 1 == |items| then NULL else items[k + 1];
    assert next[items[i]] == if i + 1 == |items| then NULL else items[i + 1];
  }

  lemma CutAt(items: seq<int>, i: nat, j: nat)
    requires i < |items| && j < |items| - 1
    ensures var l, k := items[..i] + items[i + 1..], if j < i then j else j + 1;
            && l[j] == items[k]
            && (if j + 1 == |l| then NULL else l[j + 1]) ==
               if k + 1 == |items| || (k + 1 == i && i + 1 == |items|) then NULL
               else if k + 1 == i then items[i + 1] else items[k + 1]
  {
  }

  /** Unlinking node `i` of the chain: its predecessor, or the head, takes over its link. */
  lemma ChainedCut(items: seq<int>, next: seq<int>, head: int, i: nat, next': seq<int>, head': int)
    requires Chained(items, next, head) && i < |items| && |next'| == |next|
    requires head' == if i == 0 then next[items[0]] else head
    requires next' == (if i == 0 then next else next[items[i - 1] := next[items[i]]])[items[i] := NULL]
    ensures Chained(Without(items, {items[i]}), next', head')
  {
    WithoutOne(items, i);
    DistinctCut(items, i);
    hide Without; hide Distinct;
    var l := items[..i] + items[i + 1..];
    assert Without(items, {items[i]}) == l;
    assert next[items[0]] == if 1 == |items| then NULL else items[1];
    forall j | 0 <= j < |l|
      ensures 0 <= l[j] < |next'| && next'[l[j]] == if j + 1 == |l| then NULL else l[j + 1]
    {
      CutAt(items, i, j);
      CutLink(items, next, head, i, next', if j < i then j else j + 1);
    }
  }

  /** Linking a new node behind the last one. */
  lemma ChainedAppend(items: seq<int>, next: seq<int>, head: int, x: int)
    requires Chained(items, next, head) && x !in items && 0 <= x < |next|
    ensures var n1 := next[x := NULL];
            if items == [] then Chained([x], n1, x)
            else Chained(items + [x], n1[items[|items| - 1] := x], head)
  {
    if items != [] {
      var l, n2 := items + [x], next[x := NULL][items[|items| - 1] := x];
      forall j | 0 <= j < |l|
        ensures 0 <= l[j] < |n2| && n2[l[j]] == if j + 1 == |l| then NULL else l[j + 1]
      {
        if j < |items| {
          assert next[items[j]] == if j + 1 == |items| then NULL else items[j + 1];
        }
      }
    }
  }

  class List {
    const next: array<int>
    var head: int
    ghost var items: seq<int>

    ghost predicate Valid()
      reads this, next
    {
      Chained(items, next[..], head)
    }

    /** list_init */
    constructor (nodes: nat)
      ensures Valid() && items == [] && next.Length == nodes && fresh(next)
    {
      next := new int[nodes](i => NULL);
      head := NULL;
      items := [];
    }

    lemma Link(i: nat)
      requires Valid() && i < |items|
      ensures 0 <= items[i] < next.Length && next[items[i]] == if i + 1 == |items| then NULL else items[i + 1]
      ensures head == items[0]
    {
      assert next[..][items[i]] == if i + 1 == |items| then NULL else items[i + 1];
    }

    lemma Ends(i: nat)
      requires Valid() && i <= |items| && NULL == (if i == |items| then NULL else items[i])
      ensures i == |items|
    {
    }

    lemma NoDuplicates()
      requires Valid()
      ensures Distinct(items)
    {
    }

    /** list_remove */
    method Remove(item: int)
      requires Valid()
      modifies this, next
      ensures Valid() && items == Without(old(items), {item})
    {
      hide Without;
      if head == NULL {
        return;
      }
      var r, l := NULL, head;
      ghost var i: nat := 0;
      while l != NULL
        invariant i <= |items| && l == (if i == |items| then NULL else items[i])
        invariant r == (if i == 0 then NULL else items[i - 1])
        invariant forall j :: 0 <= j < i ==> items[j] != item
        invariant items == old(items) && head == old(head) && next[..] == old(next[..])
        decreases |items| - i
      {
        Link(i);
        if l == item {
          ghost var n0 := next[..];
          if r == NULL {
            head := next[l];
          } else {
            next[r] := next[l];
          }
          next[l] := NULL;
          ChainedCut(items, n0, old(head), i, next[..], head);
          items := Without(items, {item});
          return;
        }
        r := l;
        l := next[l];
        i := i + 1;
      }
      WithoutNothing(items, {item});
    }

    /** list_tail */
    method Tail() returns (l: int)
      requires Valid()
      ensures l == if items == [] then NULL else items[|items| - 1]
    {
      if head == NULL {
        return NULL;
      }
      l := head;
      ghost var i: nat := 0;
      Link(0);
      while next[l] != NULL
        invariant i < |items| && l == items[i] && 0 <= l < next.Length
        decreases |items| - i
      {
        Link(i);
        l := next[l];
        i := i + 1;
        Link(i);
      }
      Link(i);
    }

    /** list_add: the item goes to the end, wherever it was. */
    method Add(item: int)
      requires Valid() && 0 <= item < next.Length
      modifies this, next
      ensures Valid() && items == Without(old(items), {item}) + [item]
    {
      hide Without;
      Remove(item);
      ghost var n0 := next[..];
      ChainedAppend(items, n0, head, item);
      next[item] := NULL;
      assert next[..] == n0[item := NULL];
      assert Valid() by { NodeElse(items, n0, head, item, NULL); }
      var l := Tail();
      if l == NULL {
        head := item;
        assert items + [item] == [item];
      } else {
        next[l] := item;
      }
      items := items + [item];
    }
  }

  /** The link of a node that is not on the list does not matter to it. */
  lemma NodeElse(items: seq<int>, next: seq<int>, head: int, x: int, v: int)
    requires Chained(items, next, head) && x !in items && 0 <= x < |next|
    ensures Chained(items, next[x := v], head)
  {
    forall i | 0 <= i < |items|
      ensures next[x := v][items[i]] == next[items[i]]
    {
    }
  }
}
