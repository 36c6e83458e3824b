/**
 The allocator of os/lib/heapmem.c.  The arena is a fixed byte array, and chunk headers
 exist only in it: storing one overwrites `hs` bytes of the arena, and loading one takes
 what these bytes hold.  `hdr`, `starts` and `fl` are ghosts: the headers the arena should
 hold, the chunk offsets and the free list.
 */
module HeapMem {
  import opened Arithmetic
  import opened HeapRuns
  import opened HeapShape
  import opened Sequences

  // ---------------------------------------------------------------- alignment

  /** ALIGN: the least multiple of `al` that is not below `n`. */
  function Align(al: nat, n: nat): (r: nat)
    requires al > 0
    ensures Multiple(al, r) && n <= r < n + al
  {
    var q := (n + al - 1) / al;
    assert n + al - 1 == q * al + (n + al - 1) % al;
    MultipleTimes(al, q);
    q * al
  }

  lemma {:induction false} MultipleTimes(al: nat, q: nat)
    requires al > 0
    ensures Multiple(al, q * al)
  {
    if q > 0 {
      assert q * al == (q - 1) * al + al;
      MultipleTimes(al, q - 1);
    }
  }

  /** A multiple is its own rounding. */
  lemma AlignTwice(al: nat, n: nat)
    requires al > 0
    ensures Align(al, Align(al, n)) == Align(al, n)
  {
    var r := Align(al, n);
    MultipleDifference(al, r, Align(al, r));
  }

  /** `Multiple` is divisibility. */
  lemma {:induction false} MultipleMod(al: nat, n: nat)
    requires al > 0
    ensures Multiple(al, n) <==> n % al == 0
  {
    if n >= al {
      MultipleMod(al, n - al);
      assert n == (n / al) * al + n % al;
      assert n - al == (n / al - 1) * al + n % al;
      Remainder(n - al, n / al - 1, n % al, al);
    }
  }

  // ------------------------------------------------------- what calls may do

  /** A fresh block of `n` bytes, and less than another chunk more, appears at `r`, or nothing happens. */
  ghost predicate Allocates(hs: nat, v: map<int, seq<Cell>>, n: nat, r: int, v': map<int, seq<Cell>>)
  {
    if r == NULL then v' == v
    else r - hs !in v && r - hs in v' && v' - {r - hs} == v && n <= |v'[r - hs]| <= n + hs
  }

  /** The block at `c` has only its first `n` bytes left. */
  ghost predicate Shortened(v: map<int, seq<Cell>>, c: int, n: nat, v': map<int, seq<Cell>>)
  {
    c in v && n <= |v[c]| && v' == v[c := v[c][..n]]
  }

  /** The live chunk at `c`, of `size` bytes, is cut behind `off` of them; the rest is not on the free list yet. */
  ghost predicate InTwo(hs: nat, al: nat, usage: nat, s0: set<int>, v0: map<int, seq<Cell>>, starts: set<int>,
                        hdr: map<int, Header>, fl: seq<int>, head: int, m: seq<Cell>, c: int, off: nat, size: nat)
  {
    var n := c + hs + off;
    && n !in s0 && starts == s0 + {n}
    && n in hdr && Next(hs, hdr, n) == c + hs + size && !hdr[n].used
    && SoundBut(hs, al, usage, starts, hdr, fl, head, n) && Stored(hs, starts, hdr, m)
    && usage <= |m| && Shortened(v0, c, off, Blocks(hs, usage, starts, hdr, m))
  }

  /** One is the beginning of the other. */
  ghost predicate SamePrefix(a: seq<Cell>, b: seq<Cell>)
  {
    if |a| <= |b| then a <= b else b <= a
  }

  /**
   heapmem_realloc on the live blocks.  A null pointer is an allocation, size zero a release.
   On failure the block stays, with its bytes, and may have taken in free space behind it that is
   still not enough.  On success the common prefix is in the block returned, which is no larger
   than it must be for what is over to be a chunk, and all other blocks are as before.
   */
  ghost predicate Reallocates(hs: nat, al: nat, v: map<int, seq<Cell>>, p: int, n: nat, r: int, v': map<int, seq<Cell>>)
  {
    al > 0 && (p == NULL || p - hs in v) &&
    if p == NULL then Allocates(hs, v, Align(al, n), r, v')
    else if n == 0 then r == NULL && v' == v - {p - hs}
    else if r == NULL then
      p - hs in v' && v' - {p - hs} == v - {p - hs} && v[p - hs] <= v'[p - hs]
      && |v'[p - hs]| < Align(al, n)
    else
      && r - hs in v' && (r == p || r - hs !in v)
      && v' - {r - hs} == v - {p - hs}
      && SamePrefix(v[p - hs], v'[r - hs])
      && Align(al, n) <= |v'[r - hs]| <= Align(al, n) + hs
  }

  /**
   When heapmem_realloc keeps a block where it is, and how many bytes it then has: always when it
   need not grow, otherwise exactly when there is room (`fits`).  `span` is what the block has with
   all the free chunks behind it.  If that is not enough and it still fits, it grew into the
   wilderness, to just the size needed; after a failure it has all of `span`.
   */
  ghost predicate Moves(hs: nat, al: nat, v: map<int, seq<Cell>>, p: int, n: nat, fits: bool, span: nat, r: int,
                        v': map<int, seq<Cell>>)
  {
    al > 0 && p - hs in v &&
    var need, size := Align(al, n), |v[p - hs]|;
    if need <= size then r == p && p - hs in v' && |v'[p - hs]| == Trim(hs, need, size)
    else if fits then
      r == p && p - hs in v' && |v'[p - hs]| == if span < need then need else Trim(hs, need, span)
    else
      r != p && span < need && (r == NULL ==> p - hs in v' && |v'[p - hs]| == span)
  }

  /**
   Where the block at `p` is moved to, and how many bytes it has there: it is placed as a new one
   would be, but not over the free chunks right behind it.
   */
  ghost predicate PlacedBeside(hs: nat, al: nat, usage: nat, starts: set<int>, hdr: map<int, Header>, fl: seq<int>,
                               p: int, n: nat, r: int, size: nat)
  {
    && al > 0 && p - hs in hdr
    && Placed(hs, usage, starts, hdr, fl, Next(hs, hdr, p - hs), Align(al, n), r - hs, size)
  }

  lemma NullReallocates(hs: nat, al: nat, v: map<int, seq<Cell>>, n: nat, r: int, v': map<int, seq<Cell>>)
    requires al > 0 && Allocates(hs, v, Align(al, n), r, v')
    ensures Reallocates(hs, al, v, NULL, n, r, v')
  {
  }

  lemma ZeroReallocates(hs: nat, al: nat, v: map<int, seq<Cell>>, p: int, v': map<int, seq<Cell>>)
    requires al > 0 && p != NULL && p - hs in v && v' == v - {p - hs}
    ensures Reallocates(hs, al, v, p, 0, NULL, v')
  {
  }

  lemma ShortenedIs(hs: nat, al: nat, v: map<int, seq<Cell>>, c: nat, need: nat, n: nat, fits: bool, span: nat,
                    v': map<int, seq<Cell>>)
    requires al > 0 && n > 0 && need == Align(al, n) && c in v && need <= |v[c]| && c in v'
    requires |v'[c]| == Trim(hs, need, |v[c]|) && v' == v[c := v[c][..|v'[c]|]]
    ensures Reallocates(hs, al, v, c + hs, n, c + hs, v') && Moves(hs, al, v, c + hs, n, fits, span, c + hs, v')
  {
    hide Align; hide Trim;
  }

  /** What becomes of the block at `c` that must grow to `n` bytes. */
  ghost predicate Enlarged(hs: nat, v: map<int, seq<Cell>>, c: int, n: nat, fits: bool, span: nat, r: int,
                           v': map<int, seq<Cell>>)
    requires c in v
  {
    && (r == c + hs <==> fits) && (!fits ==> span < n)
    && if r == NULL then c in v' && v' - {c} == v - {c} && v[c] <= v'[c] && |v'[c]| == span
       else
         && r - hs in v' && (r - hs == c || r - hs !in v) && v' - {r - hs} == v - {c}
         && v[c] <= v'[r - hs] && n <= |v'[r - hs]| <= n + hs
         && (r == c + hs ==> |v'[c]| == if span < n then n else Trim(hs, n, span))
  }

  lemma EnlargedIs(hs: nat, al: nat, v: map<int, seq<Cell>>, c: nat, need: nat, n: nat, fits: bool, span: nat, r: int,
                   v': map<int, seq<Cell>>)
    requires al > 0 && n > 0 && need == Align(al, n) && c in v && |v[c]| < need
    requires Enlarged(hs, v, c, need, fits, span, r, v')
    ensures Reallocates(hs, al, v, c + hs, n, r, v') && Moves(hs, al, v, c + hs, n, fits, span, r, v')
  {
    hide Align; hide Trim;
  }

  // ---------------------------------------------------------------- allocator

  class Heap {
    const arena: nat       // HEAPMEM_ARENA_SIZE
    const hs: nat          // sizeof(chunk_t)
    const al: nat          // HEAPMEM_ALIGNMENT
    const searchMax: nat   // CHUNK_SEARCH_MAX
    const mem: array<Cell> // heap_base

    var usage: nat
    var freeList: int

    ghost var hdr: map<int, Header>
    ghost var starts: set<int>
    ghost var fl: seq<int>

    ghost predicate Valid()
      reads this, mem
    {
      && al > 0 && mem.Length == arena && usage <= arena
      && Sound(hs, al, usage, starts, hdr, fl, freeList)
      && Stored(hs, starts, hdr, mem[..])
    }

    /** The abstract state: live blocks by chunk offset, with their contents. */
    ghost function View(): (r: map<int, seq<Cell>>)
      requires Valid()
      reads this, mem
    {
      Blocks(hs, usage, starts, hdr, mem[..])
    }

    /** How many bytes the block of chunk `c` has, 0 if there is no such block. */
    ghost function BlockLength(c: int): (r: nat)
      requires Valid()
      reads this, mem
    {
      if c in View() then |View()[c]| else 0
    }

    constructor (arena: nat, headerSize: nat, alignment: nat, searchMax: nat)
      requires headerSize > 0 && alignment > 0 && Multiple(alignment, headerSize)
      ensures Valid() && View() == map[] && usage == 0 && fresh(mem)
      ensures this.arena == arena && hs == headerSize && al == alignment && this.searchMax == searchMax
    {
      this.arena, hs, al, this.searchMax := arena, headerSize, alignment, searchMax;
      mem := new Cell[arena](i => Data(0));
      usage, freeList, hdr := 0, NULL, map[];
      starts, fl := {}, [];
    }

    /** Store a header over `hs` bytes of the arena. */
    method StoreHeader(c: int, h: Header)
      requires Stored(hs, starts, hdr, mem[..]) && Spaced(hs, starts + {c})
      requires 0 <= c && c + hs <= mem.Length
      modifies this`hdr, mem
      ensures hdr == old(hdr)[c := h]
      ensures OnlyHeaders(old(mem[..]), mem[..], {c}, hs)
      ensures Stored(hs, starts + {c}, hdr, mem[..])
    {
      hide Stored; hide Spaced;
      ghost var m0 := mem[..];
      for k := 0 to hs
        modifies mem
        invariant forall j :: 0 <= j < k ==> mem[c + j] == Meta(h, j)
        invariant forall i :: 0 <= i < mem.Length && !(c <= i < c + hs) ==> mem[i] == old(mem[i])
      {
        mem[c + k] := Meta(h, k);
      }
      forall i | 0 <= i < mem.Length && Outside(i, {c}, hs)
        ensures mem[..][i] == old(mem[..])[i]
      {
        assert c in {c};
      }
      StoredPut(hs, starts, hdr, m0, c, h, mem[..]);
      hdr := hdr[c := h];
    }

    /** Load the header of a chunk from the arena; `s` are offsets of whole headers. */
    method Load(c: int, ghost s: set<int>) returns (h: Header)
      requires hs > 0 && Stored(hs, s, hdr, mem[..]) && c in s
      ensures c in hdr && h == hdr[c]
    {
      assert mem[..][c] == Meta(hdr[c], 0);
      h := mem[c].h;
    }

    /** extend_space */
    method ExtendSpace(size: nat) returns (old_usage: int)
      modifies this`usage
      ensures usage == (if old(usage) + size > arena then old(usage) else old(usage) + size)
      ensures old_usage == (if old(usage) + size > arena then NULL else old(usage))
    {
      if usage + size > arena {
        return NULL;
      }
      old_usage := usage;
      usage := usage + size;
    }

    /** free_chunk: the last chunk goes back to the wilderness, any other to the front of the free list. */
    method FreeChunk(c: int)
      requires mem.Length == arena && usage <= arena && Stored(hs, starts, hdr, mem[..])
      requires SoundBut(hs, al, usage, starts, hdr, fl, freeList, c)
      modifies this`usage, this`freeList, this`hdr, this`starts, this`fl, mem
      ensures Valid()
      ensures SameBut(old(hdr), hdr, c)
      ensures OnlyHeaders(old(mem[..]), mem[..], old(starts), hs)
      ensures if Next(hs, old(hdr), c) == old(usage)
              then usage == c && starts == old(starts) - {c} && fl == old(fl)
              else usage == old(usage) && starts == old(starts) && fl == [c] + old(fl) && c in hdr && !hdr[c].used
    {
      hide Linked; hide Lists; hide Aligned; hide Multiple; hide Distinct; hide Stored; hide Spaced;
      ghost var m0 := mem[..];
      TiledSpaced(hs, usage, starts, hdr);
      assert starts + {c} == starts;
      var h := Load(c, starts);
      if c + hs + h.size == usage {
        FreeLastSound(hs, al, usage, starts, hdr, fl, freeList, c, h.(used := false));
        StoreHeader(c, h.(used := false));
        OnlyHeadersTrans(m0, mem[..], mem[..], {c}, {}, starts, hs);
        StoredLess(hs, starts, hdr, mem[..], starts - {c});
        usage := c;
        starts := starts - {c};
      } else {
        FreePushSound(hs, al, usage, starts, hdr, fl, freeList, c);
        StoreHeader(c, h.(used := false, prev := NULL, next := freeList));
        ghost var m1 := mem[..];
        if freeList != NULL {
          assert starts + {freeList} == starts;
          var first := Load(freeList, starts);
          StoreHeader(freeList, first.(prev := c));
        }
        OnlyHeadersTrans(m0, m1, mem[..], {c}, if freeList == NULL then {} else {freeList}, starts, hs);
        freeList := c;
        fl := [c] + fl;
      }
    }

    /** allocate_chunk: off the free list, flagged as allocated. */
    method AllocateChunk(c: int)
      requires hs > 0 && Linked(fl, hdr, freeList) && c in fl
      requires (forall f :: f in fl ==> f in starts) && Stored(hs, starts, hdr, mem[..])
      modifies this`freeList, this`hdr, this`fl, mem
      ensures fl == Without(old(fl), {c})
      ensures Linked(fl, hdr, freeList)
      ensures SameBut(old(hdr), hdr, c) && c in hdr && hdr[c].used
      ensures OnlyHeaders(old(mem[..]), mem[..], starts, hs) && Stored(hs, starts, hdr, mem[..])
    {
      hide Linked; hide Distinct; hide OnlyHeaders; hide SameBut; hide Without; hide Unlinked; hide HeadPast;
      hide Stored;
      ghost var i :| 0 <= i < |fl| && fl[i] == c;
      TakeLinked(hdr, fl, freeList, i);
      UnlinkStores(c, i);
      fl := Without(fl, {c});
    }

    /** The stores of allocate_chunk, for entry `i` of the free list. */
    method UnlinkStores(c: int, ghost i: nat)
      requires hs > 0 && Linked(fl, hdr, freeList) && i < |fl| && fl[i] == c
      requires (forall f :: f in fl ==> f in starts) && Stored(hs, starts, hdr, mem[..])
      modifies this`freeList, this`hdr, mem
      ensures forall j :: 0 <= j < |fl| ==> fl[j] in old(hdr)
      ensures hdr == Unlinked(fl, old(hdr), i) && freeList == HeadPast(fl, i)
      ensures OnlyHeaders(old(mem[..]), mem[..], starts, hs) && Stored(hs, starts, hdr, mem[..])
    {
      hide Linked; hide OnlyHeaders; hide Stored;
      Neighbours(fl, hdr, freeList, i);
      assert forall j :: 0 <= j < |fl| ==> fl[j] in fl && fl[j] in starts;
      ghost var m0 := mem[..];
      OnlyHeadersRefl(m0, hs);
      OnlyHeadersTrans(m0, m0, m0, {}, {}, starts, hs);
      var h := Load(c, starts);
      StoreAt(m0, c, h.(used := true));
      if c == freeList {
        freeList := h.next;
        if freeList != NULL {
          var first := Load(freeList, starts);
          StoreAt(m0, freeList, first.(prev := NULL));
        }
      } else {
        var before := Load(h.prev, starts);
        StoreAt(m0, h.prev, before.(next := h.next));
      }
      if h.next != NULL {
        var after := Load(h.next, starts);
        StoreAt(m0, h.next, after.(prev := h.prev));
      }
    }

    /** Store a header over the start of a chunk; `m0` is an earlier state of the arena. */
    method StoreAt(ghost m0: seq<Cell>, c: int, h: Header)
      requires c in starts && Stored(hs, starts, hdr, mem[..]) && OnlyHeaders(m0, mem[..], starts, hs)
      modifies this`hdr, mem
      ensures hdr == old(hdr)[c := h]
      ensures OnlyHeaders(m0, mem[..], starts, hs) && Stored(hs, starts, hdr, mem[..])
    {
      ghost var m1 := mem[..];
      assert starts + {c} == starts;
      StoreHeader(c, h);
      hide OnlyHeaders; hide Stored;
      OnlyHeadersTrans(m0, m1, mem[..], starts, {c}, starts, hs);
    }

    /** One round of coalesce_chunks: chunk `c` grows over the free chunk `n` after it. */
    method Absorb(c: int, n: int)
      requires Valid() && c in starts && n == Next(hs, hdr, c) && n < usage && n in hdr && !hdr[n].used
      modifies this`freeList, this`hdr, this`starts, this`fl, mem
      ensures Valid() && starts == old(starts) - {n} && c in starts
      ensures Merged(old(starts), old(hdr), starts, hdr, c)
      ensures forall d :: d in old(starts) && d != c ==> d in hdr && hdr[d].size == old(hdr)[d].size
      ensures Next(hs, hdr, c) == Next(hs, old(hdr), n)
      ensures fl == Without(old(fl), {n})
      ensures OnlyHeaders(old(mem[..]), mem[..], old(starts), hs) && Stored(hs, old(starts), hdr, mem[..])
    {
      hide Linked; hide Multiple; hide OnlyHeaders; hide Distinct; hide SameBut; hide Without; hide Merged;
      hide Aligned; hide Stored; hide Spaced;
      ghost var h0, m0, fl0, head0 := hdr, mem[..], fl, freeList;
      assert n in starts && n in fl;
      TiledSpaced(hs, usage, starts, hdr);
      assert starts + {c} == starts;
      var hc := Load(c, starts);
      var hn := Load(n, starts);
      LinkedGrow(fl, hdr, freeList, c, hc.size + hs + hn.size);
      StoreHeader(c, hc.(size := hc.size + hs + hn.size));
      ghost var m1 := mem[..];
      AllocateChunk(n);
      OnlyHeadersTrans(m0, m1, mem[..], {c}, starts, starts, hs);
      MergeSound(hs, al, usage, starts, h0, fl0, head0, c, n, hdr, freeList);
      MergeMerges(hs, usage, starts, h0, c, n, hdr);
      StoredLess(hs, starts, hdr, mem[..], starts - {n});
      starts := starts - {n};
    }

    /** coalesce_chunks: absorb the free chunks that follow `c`, as many as there are. */
    method CoalesceChunks(c: int)
      requires Valid() && c in starts
      modifies this`freeList, this`hdr, this`starts, this`fl, mem
      ensures Valid() && c in starts
      ensures Merged(old(starts), old(hdr), starts, hdr, c)
      ensures Capped(hs, usage, starts, hdr, c)
      ensures forall d :: d in starts && d != c ==> hdr[d].size == old(hdr)[d].size
      ensures fl == Without(old(fl), old(starts) - starts)
      ensures OnlyHeaders(old(mem[..]), mem[..], old(starts), hs)
    {
      hide Linked; hide Multiple; hide OnlyHeaders; hide Distinct; hide Stored; hide Lists; hide Aligned;
      hide Without; hide Merged;
      var hc := Load(c, starts);
      var n := c + hs + hc.size;
      OnlyHeadersRefl(mem[..], hs);
      OnlyHeadersTrans(mem[..], mem[..], mem[..], {}, {}, starts, hs);
      TiledDomain(hs, usage, starts, hdr);
      MergedRefl(starts, hdr, c);
      WithoutNothing(fl, {});
      assert starts - starts == {};
      while n < usage
        invariant Valid() && c in starts
        invariant n == Next(hs, hdr, c)
        invariant starts <= old(starts)
        invariant Merged(old(starts), old(hdr), starts, hdr, c)
        invariant forall d :: d in starts && d != c ==> hdr[d].size == old(hdr)[d].size
        invariant fl == Without(old(fl), old(starts) - starts)
        invariant OnlyHeaders(old(mem[..]), mem[..], old(starts), hs)
        decreases usage - n
      {
        ghost var s1, h1, m1 := starts, hdr, mem[..];
        assert n in starts;
        var hn := Load(n, starts);
        if hn.used {
          break;
        }
        Absorb(c, n);
        MergedTrans(old(starts), old(hdr), s1, h1, starts, hdr, c);
        WithoutTwice(old(fl), old(starts) - s1, {n});
        assert (old(starts) - s1) + {n} == old(starts) - starts;
        OnlyHeadersTrans(old(mem[..]), m1, mem[..], old(starts), s1, old(starts), hs);
        hn := Load(n, s1);
        n := n + hs + hn.size;
      }
    }

    /** defrag_chunks: one bounded pass over the free list; a full pass leaves no two adjacent free chunks. */
    method DefragChunks() returns (ghost p: nat)
      requires Valid()
      modifies this`freeList, this`hdr, this`starts, this`fl, mem
      ensures Valid() && |fl| <= |old(fl)|
      ensures Merged(old(starts), old(hdr), starts, hdr, NULL)
      ensures OnlyHeaders(old(mem[..]), mem[..], old(starts), hs)
      ensures Passed(hs, usage, old(starts), old(hdr), old(fl), searchMax, starts, hdr, fl, p)
      ensures |old(fl)| <= searchMax ==> CappedUpTo(hs, usage, starts, hdr, fl, |fl|)
    {
      hide Sound; hide OnlyHeaders; hide Distinct; hide Capped; hide Next; hide Stored; hide Passing; hide Merged;
      var i := searchMax;
      var c := freeList;
      p := 0;
      OnlyHeadersRefl(mem[..], hs);
      OnlyHeadersTrans(mem[..], mem[..], mem[..], {}, {}, starts, hs);
      SoundList(hs, al, usage, starts, hdr, fl, freeList);
      PassStart(hs, al, usage, starts, hdr, fl, freeList);
      while c != NULL
        invariant Valid() && |fl| <= |old(fl)|
        invariant p <= |fl| && c == (if p == |fl| then NULL else fl[p])
        invariant 0 <= i <= searchMax - p && |fl| - p + searchMax - i <= |old(fl)|
        invariant Passing(hs, usage, old(starts), old(hdr), old(fl), starts, hdr, fl, p)
        invariant starts <= old(starts)
        invariant OnlyHeaders(old(mem[..]), mem[..], old(starts), hs)
        decreases |fl| - p
      {
        if i == 0 {
          break;
        }
        i := i - 1;
        ghost var s1, m1 := starts, mem[..];
        c, p := DefragStep(c, old(starts), old(hdr), old(fl), p);
        OnlyHeadersTrans(old(mem[..]), m1, mem[..], old(starts), s1, old(starts), hs);
      }
      SoundList(hs, al, usage, starts, hdr, fl, freeList);
      assert p < |fl| ==> fl[p] in fl;
      PassingIs(hs, usage, old(starts), old(hdr), old(fl), starts, hdr, fl, p);
    }

    /** The body of the loop of defrag_chunks for the entry at `p`, in a pass that began with `s0`, `h0` and `fl0`. */
    method DefragStep(c: int, ghost s0: set<int>, ghost h0: map<int, Header>, ghost fl0: seq<int>, ghost p: nat)
      returns (next: int, ghost p': nat)
      requires Valid() && p < |fl| && c == fl[p] && Passing(hs, usage, s0, h0, fl0, starts, hdr, fl, p)
      modifies this`freeList, this`hdr, this`starts, this`fl, mem
      ensures Valid() && starts <= old(starts) && OnlyHeaders(old(mem[..]), mem[..], old(starts), hs)
      ensures Passing(hs, usage, s0, h0, fl0, starts, hdr, fl, p')
      ensures p' <= p + 1 && p' <= |fl| <= |old(fl)| && |fl| - p' < |old(fl)| - p
      ensures next == if p' == |fl| then NULL else fl[p']
    {
      hide Sound; hide OnlyHeaders; hide Distinct; hide Capped; hide Next; hide Stored; hide Passing; hide Merged;
      ghost var s1, h1, fl1 := starts, hdr, fl;
      SoundList(hs, al, usage, starts, hdr, fl, freeList);
      assert c in fl;
      CoalesceChunks(c);
      MergedIs(s1, h1, starts, hdr, c);
      p' := PassStep(hs, usage, s0, h0, fl0, s1, h1, fl1, p, starts, hdr, fl);
      SoundList(hs, al, usage, starts, hdr, fl, freeList);
      assert hdr[fl[p']].next == (if p' + 1 == |fl| then NULL else fl[p' + 1]);
      var h := Load(c, starts);
      next := h.next;
      p' := p' + 1;
    }

    /** split_chunk: keep `offset` bytes, rounded up, and free the rest if it can hold a chunk. */
    method SplitChunk(c: int, offset: nat)
      requires Valid() && c in View()
      modifies this`usage, this`freeList, this`hdr, this`starts, this`fl, mem
      ensures Valid() && c in View()
      ensures |View()[c]| == Trim(hs, Align(al, offset), |old(View())[c]|)
      ensures View() == old(View())[c := old(View())[c][..|View()[c]|]]
      ensures usage <= old(usage)
      // the rest joins the wilderness or heads the free list
      ensures |View()[c]| == |old(View())[c]| ==> usage == old(usage) && starts == old(starts) && fl == old(fl)
      ensures |View()[c]| < |old(View())[c]| ==>
                var n := c + hs + |View()[c]|;
                if c + hs + |old(View())[c]| == old(usage) then usage == n && starts == old(starts) && fl == old(fl)
                else usage == old(usage) && starts == old(starts) + {n} && fl == [n] + old(fl)
    {
      hide Linked; hide Multiple; hide OnlyHeaders; hide Distinct; hide Lists; hide Aligned; hide Stored;
      hide Align; hide Payload; hide Tiled;
      var off := Align(al, offset);
      BlockIn(c);
      var h := Load(c, starts);
      if off + hs < h.size {
        CutChunk(c, off, h);
      } else {
        assert View()[c][..|View()[c]|] == View()[c];
        assert View()[c := View()[c]] == View();
      }
    }

    /** The branch of split_chunk that cuts a chunk in two. */
    method CutChunk(c: int, off: nat, h: Header)
      requires Valid() && c in View() && c in hdr && h == hdr[c] && off + hs < h.size && Multiple(al, off)
      modifies this`usage, this`freeList, this`hdr, this`starts, this`fl, mem
      ensures Valid() && Shortened(old(View()), c, off, View())
      ensures var n := c + hs + off;
              if c + hs + h.size == old(usage) then usage == n && starts == old(starts) && fl == old(fl)
              else usage == old(usage) && starts == old(starts) + {n} && fl == [n] + old(fl)
      ensures usage <= old(usage)
    {
      hide Linked; hide Multiple; hide OnlyHeaders; hide Distinct; hide Lists; hide Aligned; hide SameBut;
      hide Stored; hide Spaced; hide Payload; hide Tiled;
      var n := c + hs + off;
      WriteCut(c, off, h);
      ghost var m2, h2, s2, u2 := mem[..], hdr, starts, usage;
      FreeChunk(n);
      ReleaseBlocks(hs, u2, s2, h2, m2, usage, starts, hdr, mem[..], n);
    }

    /** The headers of the two parts, the second not on the free list yet. */
    method WriteCut(c: int, off: nat, h: Header)
      requires Valid() && c in View() && c in hdr && h == hdr[c] && off + hs < h.size && Multiple(al, off)
      modifies this`hdr, this`starts, mem
      ensures InTwo(hs, al, usage, old(starts), old(View()), starts, hdr, fl, freeList, mem[..], c, off, h.size)
      ensures mem.Length == arena && usage <= arena
    {
      hide Linked; hide Multiple; hide OnlyHeaders; hide Distinct; hide Lists; hide Aligned; hide SameBut;
      hide Stored; hide Spaced; hide Payload; hide Tiled;
      TiledDomain(hs, usage, starts, hdr);
      var n := c + hs + off;
      var hn := Header(NULL, NULL, h.size - hs - off, false);
      var hc := Header(NULL, NULL, off, true);
      SplitSound(hs, al, usage, starts, hdr, fl, freeList, c, off, hn, hc);
      ghost var m0, h0, s0 := mem[..], hdr, starts;
      TiledSpaced(hs, usage, starts + {n}, hdr[n := hn][c := hc]);
      StoreHeader(n, hn);
      ghost var m1 := mem[..];
      starts := starts + {n};
      assert starts + {c} == starts;
      StoreHeader(c, hc);
      OnlyHeadersTrans(m0, m1, mem[..], {n}, {c}, starts, hs);
      SplitBlocks(hs, usage, s0, h0, m0, hdr, mem[..], c, off, n);
    }

    /** The search of get_free_chunk: best fit among the first `searchMax` entries of the free list. */
    method FindBest(size: nat) returns (best: int)
      requires Valid()
      ensures forall x :: x in fl ==> x in hdr
      ensures BestFit(Front(fl, searchMax), hdr, size, best)
      ensures best != NULL ==> best in fl && size <= hdr[best].size
    {
      hide Sound; hide Distinct; hide BestFit; hide Stored;
      SoundList(hs, al, usage, starts, hdr, fl, freeList);
      ghost var searched := Front(fl, searchMax);
      BestNone(hdr, size);
      best := NULL;
      var i := searchMax;
      var c := freeList;
      ghost var p: nat := 0;
      assert fl[..0] == [];
      while c != NULL
        invariant p <= |fl| && c == (if p == |fl| then NULL else fl[p])
        invariant p + i == searchMax && i >= 0
        invariant BestFit(fl[..p], hdr, size, best) && (best != NULL ==> best in fl && size <= hdr[best].size)
        decreases |fl| - p
      {
        if i == 0 {
          break;
        }
        i := i - 1;
        assert fl[..p + 1] == fl[..p] + [c];
        assert c in fl && hdr[fl[p]].next == (if p + 1 == |fl| then NULL else fl[p + 1]);
        BestStep(fl[..p], hdr, size, best, c);
        var h := Load(c, starts);
        if size <= h.size {
          if best == NULL {
            best := c;
          } else {
            var hb := Load(best, starts);
            if h.size < hb.size {
              best := c;
            }
          }
          var hb := Load(best, starts);
          if hb.size == size {
            assert searched[..p + 1] == fl[..p + 1];
            BestExact(searched, p + 1, hdr, size, best);
            return;
          }
        }
        c := h.next;
        p := p + 1;
      }
      assert p < |fl| ==> fl[p] in fl;
      assert fl[..p] == searched;
    }

    /** get_free_chunk: the best fit that the pass and the search, both bounded, come upon. */
    method GetFreeChunk(size: nat) returns (best: int)
      requires Valid() && Align(al, size) == size
      modifies this`usage, this`freeList, this`hdr, this`starts, this`fl, mem
      ensures Valid()
      ensures best == NULL ==> View() == old(View()) && usage == old(usage)
      ensures best != NULL ==> best !in old(View()) && best in View() && View() - {best} == old(View())
      ensures best != NULL ==> size <= |View()[best]| <= size + hs && usage <= old(usage) && best < old(usage)
      ensures Searched(hs, old(usage), old(starts), old(hdr), old(fl), searchMax, size, best, BlockLength(best))
      ensures |old(fl)| <= searchMax ==>
                (best == NULL <==> !RoomFor(hs, old(usage), old(starts), old(hdr), size))
    {
      hide Linked; hide Multiple; hide Aligned; hide Tiled; hide Merged; hide CappedUpTo; hide OnlyHeaders;
      hide Distinct; hide Without;
      hide SameBut; hide RoomFor; hide Payload; hide Align; hide Stored; hide Passed; hide Searched; hide BestFit;
      hide Trim;
      ghost var u0, s0, h0, fl0, head0, m0 := usage, starts, hdr, fl, freeList, mem[..];
      ghost var p := DefragChunks();
      ghost var s1, h1, fl1, head1, m1 := starts, hdr, fl, freeList, mem[..];
      MergedView(hs, usage, s0, h0, m0, s1, h1, m1);
      best := FindBest(size);
      if |fl0| <= searchMax {
        SearchComplete(hs, al, usage, s0, h0, fl0, head0, s1, h1, fl1, head1, size, best);
      }
      if best != NULL {
        TiledDomain(hs, usage, starts, hdr);
        AllocateChunk(best);
        TakeSound(hs, al, usage, starts, h1, fl1, head1, best, hdr, freeList);
        TakeBlocks(hs, usage, starts, h1, m1, hdr, mem[..], best);
        SplitChunk(best, size);
      }
      SearchedIs(hs, u0, s0, h0, fl0, searchMax, s1, h1, fl1, p, size, best, BlockLength(best));
    }

    /**
     heapmem_alloc.  It takes the best fit it finds, or space past the used part.  With at most
     `searchMax` chunks on the free list it fails exactly when neither a run of adjacent free
     chunks nor that space is large enough, and it takes the shortest run that is large enough.
     */
    method Alloc(size: nat) returns (ptr: int)
      requires Valid()
      modifies this`usage, this`freeList, this`hdr, this`starts, this`fl, mem
      ensures Valid()
      ensures ptr == NULL ==> View() == old(View())
      ensures ptr != NULL ==> ptr - hs !in old(View()) && ptr - hs in View() && View() - {ptr - hs} == old(View())
      ensures ptr != NULL ==> Align(al, size) <= |View()[ptr - hs]| <= Align(al, size) + hs
      ensures |old(fl)| <= searchMax ==>
                (ptr == NULL <==> !RoomFor(hs, old(usage), old(starts), old(hdr), Align(al, size))
                                  && old(usage) + hs + Align(al, size) > arena)
      ensures ptr == NULL ==> old(usage) + hs + Align(al, size) > arena
      // the used part grows, by just the new chunk, only when no free run is large enough
      ensures ptr != NULL && usage > old(usage) ==> ptr - hs == old(usage) && usage == ptr + Align(al, size)
      ensures ptr != NULL && |old(fl)| <= searchMax ==>
                (usage <= old(usage) <==> RoomFor(hs, old(usage), old(starts), old(hdr), Align(al, size)))
      // which free space is taken, and how much of it
      ensures ptr != NULL ==> Chosen(hs, old(usage), old(starts), old(hdr), old(fl), searchMax, Align(al, size),
                                     ptr - hs, BlockLength(ptr - hs))
      ensures ptr != NULL && |old(fl)| <= searchMax ==>
                Placed(hs, old(usage), old(starts), old(hdr), old(fl), NULL, Align(al, size),
                       ptr - hs, BlockLength(ptr - hs))
    {
      hide Linked; hide Multiple; hide Aligned; hide Tiled; hide OnlyHeaders; hide Lists; hide RoomFor;
      hide Payload; hide Stored; hide Spaced; hide Align; hide Searched; hide Placed;
      var n := Align(al, size);
      AlignTwice(al, size);
      ghost var s1, h1, fl1 := starts, hdr, fl;
      var c := GetFreeChunk(n);
      if c == NULL {
        SearchedNothing(hs, usage, s1, h1, fl1, searchMax, n, BlockLength(c));
        ghost var u0, m0 := usage, mem[..];
        c := ExtendSpace(hs + n);
        if c == NULL {
          return NULL;
        }
        var h := Header(NULL, NULL, n, true);
        AppendSound(hs, al, u0, starts, hdr, fl, freeList, h);
        ghost var h0 := hdr;
        TiledSpaced(hs, usage, starts + {c}, hdr[c := h]);
        StoreHeader(c, h);
        AppendBlocks(hs, u0, starts, h0, m0, h, mem[..]);
        starts := starts + {c};
      } else {
        TiledDomain(hs, usage, starts, hdr);
      }
      ptr := c + hs;
      if |fl1| <= searchMax {
        ChosenPlaced(hs, old(usage), s1, h1, fl1, searchMax, n, c, BlockLength(c));
      }
    }

    /** heapmem_free: the last chunk joins the wilderness, any other heads the free list; no chunks are merged. */
    method Free(ptr: int)
      requires Valid() && (ptr == NULL || ptr - hs in View())
      modifies this`usage, this`freeList, this`hdr, this`starts, this`fl, mem
      ensures Valid()
      ensures View() == old(View()) - {ptr - hs}
      ensures ptr == NULL ==> usage == old(usage) && starts == old(starts) && fl == old(fl)
      ensures ptr != NULL ==>
                var c := ptr - hs;
                if ptr + old(BlockLength(c)) == old(usage)
                then usage == c && starts == old(starts) - {c} && fl == old(fl)
                else usage == old(usage) && starts == old(starts) && fl == [c] + old(fl)
    {
      hide Linked; hide Multiple; hide Aligned; hide Tiled; hide OnlyHeaders; hide Payload; hide Stored;
      TiledDomain(hs, usage, starts, hdr);
      if ptr != NULL {
        ghost var u0, s0, h0, m0 := usage, starts, hdr, mem[..];
        FreeChunk(ptr - hs);
        ReleaseBlocks(hs, u0, s0, h0, m0, usage, starts, hdr, mem[..], ptr - hs);
      }
    }

    /** Where the bytes of a live block are. */
    lemma BlockIn(c: int)
      requires Valid() && c in View()
      ensures 0 <= c && c in hdr && c in starts && hdr[c].used && InMemory(hs, hdr, mem[..], c)
      ensures View()[c] == mem[..][c + hs .. c + hs + hdr[c].size]
      ensures c + hs + hdr[c].size <= mem.Length && al > 0 && hs > 0
    {
      hide Linked; hide Multiple; hide Aligned; hide Lists; hide Stored;
    }

    /** A store by a client: byte `k` of its block. */
    method StoreByte(ptr: int, k: nat, x: bv8)
      requires Valid() && ptr - hs in View() && k < |View()[ptr - hs]|
      modifies mem
      ensures Valid() && View() == old(View())[ptr - hs := old(View())[ptr - hs][k := Data(x)]]
    {
      hide Sound; hide Payload; hide Blocks; hide Stored;
      var c := ptr - hs;
      ghost var m0 := mem[..];
      BlockIn(c);
      mem[ptr + k] := Data(x);
      SoundTiled(hs, al, usage, starts, hdr, fl, freeList);
      PayloadStored(hs, usage, starts, hdr, m0, mem[..], c);
      StoreBlocks(hs, usage, starts, hdr, m0, mem[..], c);
      assert mem[..][c + hs .. c + hs + hdr[c].size] == m0[c + hs .. c + hs + hdr[c].size][k := Data(x)];
    }

    /** memcpy on the arena. */
    method CopyBytes(to: nat, from: nat, n: nat)
      requires to + n <= mem.Length && from + n <= mem.Length
      requires to + n <= from || from + n <= to
      modifies mem
      ensures Copied(old(mem[..]), mem[..], to, from, n)
    {
      for k := 0 to n
        invariant forall i :: 0 <= i < mem.Length && !(to <= i < to + k) ==> mem[i] == old(mem[i])
        invariant forall i :: to <= i < to + k ==> mem[i] == old(mem[i - to + from])
      {
        mem[to + k] := mem[from + k];
      }
    }

    /** memcpy from the start of one live block to the start of another. */
    method Copy(dst: int, src: int, n: nat)
      requires Valid() && dst in View() && src in View() && dst != src
      requires n <= |View()[src]| && n <= |View()[dst]|
      modifies mem
      ensures Valid() && View() == old(View())[dst := old(View())[src][..n] + old(View())[dst][n..]]
    {
      hide Sound; hide Payload; hide Blocks; hide Copied; hide Stored;
      BlockIn(dst);
      BlockIn(src);
      BlocksApart(dst, src);
      ghost var m0 := mem[..];
      CopyBytes(dst + hs, src + hs, n);
      SoundTiled(hs, al, usage, starts, hdr, fl, freeList);
      CopyBlocks(hs, usage, starts, hdr, m0, mem[..], dst, src, n);
      CopyStored(hs, usage, starts, hdr, m0, mem[..], dst, src, n);
    }

    /** A live block lies at an aligned offset inside the used part of the arena, clear of every header. */
    lemma BlockPlaced(c: int)
      requires Valid() && c in View()
      ensures Multiple(al, c + hs) && 0 <= c && c + hs + |View()[c]| <= usage <= arena
      ensures forall i :: c + hs <= i < c + hs + |View()[c]| ==> Outside(i, starts, hs)
    {
      hide Linked; hide Lists; hide Stored;
      MultipleSum(al, c, hs);
    }

    /** No header byte of a chunk is anything but what was stored there. */
    lemma HeaderWhole(c: int, i: int)
      requires Valid() && c in starts && c <= i < c + hs
      ensures 0 <= c && i < mem.Length && c in hdr && mem[i] == Meta(hdr[c], i - c)
    {
      hide Linked; hide Multiple; hide Aligned; hide Lists; hide Tiled;
      assert mem[..][i] == Meta(hdr[c], i - c);
    }

    /** Live blocks do not overlap. */
    lemma BlocksApart(c: int, d: int)
      requires Valid() && c in View() && d in View() && c != d
      ensures c in hdr && d in hdr && (c + hs + hdr[c].size <= d || d + hs + hdr[d].size <= c)
    {
      hide Linked; hide Multiple; hide Aligned; hide Lists; hide Stored;
      assert c < d || d < c;
    }

    /** A live block can grow to `n` bytes where it is: into the wilderness, or over free chunks behind it. */
    ghost predicate CanGrow(c: int, n: nat)
      reads this
    {
      && c in hdr
      && if c + hs + hdr[c].size == usage then c + hs + n <= arena
         else RoomBehind(hs, usage, starts, hdr, c, n)
    }

    ghost predicate Fits(c: int, size: nat)
      reads this
    {
      al > 0 && CanGrow(c, Align(al, size))
    }

    /** A block of `size` bytes fits neither where `c` is, nor in a free run elsewhere, nor past the used part. */
    ghost predicate NoRoom(c: int, size: nat)
      reads this
    {
      && al > 0 && c in hdr && hdr[c].size < Align(al, size) && !CanGrow(c, Align(al, size))
      && !RoomElsewhere(hs, usage, starts, hdr, c, Align(al, size))
      && usage + hs + Align(al, size) > arena
    }

    /** With all the free chunks behind it, chunk `c` would have `span` bytes. */
    ghost predicate Reach(c: int, span: nat)
      reads this
    {
      c in hdr && RunEnd(hs, usage, starts, hdr, c, c + hs + span)
    }

    lemma LastReach(c: int)
      requires Valid() && c in View() && c in hdr && Next(hs, hdr, c) == usage
      ensures Reach(c, hdr[c].size)
    {
      hide Linked; hide Multiple; hide Aligned; hide Lists; hide Stored; hide Tiled;
    }

    ghost function Span(c: int): (r: nat)
      reads this
    {
      SpanOf(hs, usage, starts, hdr, c)
    }

    lemma ReachUnique(c: int)
      requires Valid() && c in starts
      ensures Reach(c, Span(c)) && forall s :: Reach(c, s) ==> s == Span(c)
    {
      hide Linked; hide Multiple; hide Aligned; hide Lists; hide Stored; hide Tiled; hide SpanOf;
      TiledDomain(hs, usage, starts, hdr);
      forall s | Reach(c, s)
        ensures s == Span(c)
      {
        RunEndUnique(hs, usage, starts, hdr, c, c + hs + s, c + hs + Span(c));
      }
    }

    /** Room in place, told by the bytes the free chunks behind a block would give it. */
    lemma RoomBySpan(c: int, n: nat)
      requires Valid() && c in View() && |View()[c]| < n
      ensures c in hdr && (CanGrow(c, n) <==> if Next(hs, hdr, c) == usage then c + hs + n <= arena else n <= Span(c))
    {
      hide Linked; hide Multiple; hide Aligned; hide Lists; hide Stored; hide Tiled; hide RoomBehind; hide RunEnd;
      hide SpanOf;
      BlockIn(c);
      TiledDomain(hs, usage, starts, hdr);
      RoomBehindEnd(hs, usage, starts, hdr, c, c + hs + Span(c), n);
    }

    /** The in-place part of heapmem_realloc: grow the block into the wilderness or over free chunks. */
    method GrowInPlace(c: int, n: nat) returns (done: bool)
      requires Valid() && c in View() && |View()[c]| < n && Align(al, n) == n
      modifies this`usage, this`freeList, this`hdr, this`starts, this`fl, mem
      ensures Valid() && c in View() && View() - {c} == old(View()) - {c}
      ensures old(View())[c] <= View()[c]
      ensures done <==> n <= |View()[c]|
      ensures done <==> old(CanGrow(c, n))
      ensures c in old(hdr)
      // how much it takes in: all there is if that is not enough, else no more than split_chunk leaves it
      ensures |View()[c]| == if !done then old(Span(c)) else if old(Span(c)) < n then n else Trim(hs, n, old(Span(c)))
      ensures !done ==> |fl| <= |old(fl)| && usage == old(usage)
      ensures !done ==> (RoomFor(hs, usage, starts, hdr, n) <==>
            RoomElsewhere(hs, old(usage), old(starts), old(hdr), c, n))
      ensures !done ==> forall r, size :: Placed(hs, usage, starts, hdr, fl, NULL, n, r, size) ==>
            Placed(hs, old(usage), old(starts), old(hdr), old(fl), Next(hs, old(hdr), c), n, r, size)
    {
      hide Linked; hide Multiple; hide Aligned; hide OnlyHeaders; hide Payload; hide Lists; hide Stored;
      hide Tiled; hide Align; hide Merged; hide Without; hide Capped; hide RoomBehind; hide RoomFor;
      hide RoomElsewhere; hide Placed; hide Trim; hide RunEnd;
      TiledDomain(hs, usage, starts, hdr);
      BlockIn(c);
      var h := Load(c, starts);
      ReachUnique(c);
      if c + hs + h.size == usage {
        LastHasNoneBehind(hs, usage, starts, hdr, c, n);
        LastReach(c);
        forall r, size | Placed(hs, usage, starts, hdr, fl, NULL, n, r, size)
          ensures Placed(hs, usage, starts, hdr, fl, usage, n, r, size)
        {
          PlacedBesideLast(hs, usage, starts, hdr, fl, n, r, size);
        }
        done := GrowLast(c, n, h);
      } else {
        ghost var span;
        done, span := GrowOver(c, n);
        assert old(Reach(c, span));
      }
    }

    /** The last block grows into the wilderness, if there is room. */
    method GrowLast(c: int, n: nat, h: Header) returns (done: bool)
      requires Valid() && c in View() && c in starts && c in hdr && h == hdr[c] && h.size < n && Align(al, n) == n
      requires c + hs + h.size == usage
      modifies this`usage, this`hdr, mem
      ensures Valid() && c in View() && View() - {c} == old(View()) - {c}
      ensures old(View())[c] <= View()[c] && |View()[c]| == if done then n else h.size
      ensures done <==> c + hs + n <= arena
      ensures !done ==> usage == old(usage) && hdr == old(hdr)
    {
      hide Linked; hide Multiple; hide Aligned; hide OnlyHeaders; hide Payload; hide Lists; hide Stored;
      hide Tiled; hide Align;
      TiledDomain(hs, usage, starts, hdr);
      ghost var u0, h0, m0 := usage, hdr, mem[..];
      var old_usage := ExtendSpace(n - h.size);
      if old_usage == NULL {
        return false;
      }
      GrowLastSound(hs, al, u0, starts, hdr, fl, freeList, c, n);
      assert starts + {c} == starts;
      TiledSpaced(hs, u0, starts, hdr);
      StoreHeader(c, h.(size := n));
      GrowLastBlocks(hs, u0, starts, h0, m0, c, n, mem[..]);
      return true;
    }

    /** A block that is not the last takes in the free chunks behind it, and gives back what it does not need. */
    method GrowOver(c: int, n: nat) returns (done: bool, ghost span: nat)
      requires Valid() && c in View() && c in starts && c in hdr && hdr[c].used && hdr[c].size < n && Align(al, n) == n
      modifies this`usage, this`freeList, this`hdr, this`starts, this`fl, mem
      ensures Valid() && c in View() && View() - {c} == old(View()) - {c}
      ensures old(View())[c] <= View()[c]
      ensures done <==> n <= |View()[c]|
      ensures done <==> RoomBehind(hs, old(usage), old(starts), old(hdr), c, n)
      ensures old(Reach(c, span)) && (done <==> n <= span)
      ensures |View()[c]| == if done then Trim(hs, n, span) else span
      ensures !done ==> |fl| <= |old(fl)| && usage == old(usage)
      ensures !done ==> (RoomFor(hs, usage, starts, hdr, n) <==>
            RoomElsewhere(hs, old(usage), old(starts), old(hdr), c, n))
      ensures !done ==> forall r, size :: Placed(hs, usage, starts, hdr, fl, NULL, n, r, size) ==>
            Placed(hs, old(usage), old(starts), old(hdr), old(fl), Next(hs, old(hdr), c), n, r, size)
    {
      hide Linked; hide Multiple; hide Aligned; hide OnlyHeaders; hide Payload; hide Lists; hide Stored;
      hide Tiled; hide Align; hide Merged; hide Without; hide Capped; hide RoomBehind; hide RoomFor;
      hide RoomElsewhere; hide Placed; hide Trim; hide RunEnd;
      ghost var v0 := View();
      TiledDomain(hs, usage, starts, hdr);
      ghost var u0, s0, h0, fl0, m0 := usage, starts, hdr, fl, mem[..];
      CoalesceChunks(c);
      CoalescedReaches(hs, usage, s0, h0, starts, hdr, c, n);
      CoalescedEnd(hs, usage, s0, h0, starts, hdr, c, c);
      forall r, size | Placed(hs, usage, starts, hdr, fl, NULL, n, r, size)
        ensures Placed(hs, usage, s0, h0, fl0, Next(hs, h0, c), n, r, size)
      {
        PlacedAfterCoalescing(hs, usage, s0, h0, fl0, starts, hdr, s0 - starts, c, n, r, size);
      }
      RoomAfterCoalescing(hs, usage, s0, h0, starts, hdr, c, n);
      MergedKeepsBlocks(hs, usage, s0, h0, m0, starts, hdr, mem[..], c);
      BlockIn(c);
      assert View() - {c} == v0 - {c};
      var h := Load(c, starts);
      span := h.size;
      if h.size >= n {
        SplitChunk(c, n);
        return true, span;
      }
      return false, span;
    }

    /** heapmem_realloc: what becomes of the block at `ptr`, and of all the others. */
    method Realloc(ptr: int, size: nat) returns (r: int)
      requires Valid() && (ptr == NULL || ptr - hs in View())
      modifies this`usage, this`freeList, this`hdr, this`starts, this`fl, mem
      ensures Valid() && Reallocates(hs, al, old(View()), ptr, size, r, View())
      ensures ptr != NULL && size > 0 ==>
                Moves(hs, al, old(View()), ptr, size, old(Fits(ptr - hs, size)), old(Span(ptr - hs)), r, View())
      // a block that moves goes where heapmem_alloc puts it once the run behind it is used up
      ensures ptr != NULL && size > 0 && r != NULL && r != ptr && |old(fl)| <= searchMax ==>
                PlacedBeside(hs, al, old(usage), old(starts), old(hdr), old(fl), ptr, size, r, BlockLength(r - hs))
      // failure, for a free list that is searched to its end: no room in place, elsewhere or past the used part
      ensures ptr != NULL && size > 0 && |old(fl)| <= searchMax ==> (r == NULL <==> old(NoRoom(ptr - hs, size)))
    {
      hide Sound; hide Blocks; hide RoomFor; hide RoomElsewhere; hide Align; hide CanGrow; hide Stored;
      hide Placed; hide Chosen; hide Trim; hide Reach; hide Span; hide Moves; hide Reallocates; hide BlockLength;
      hide NoRoom; hide Fits;
      if ptr == NULL {
        ghost var v0 := View();
        r := Alloc(size);
        NullReallocates(hs, al, v0, size, r, View());
        return;
      } else if size == 0 {
        ghost var v0 := View();
        Free(ptr);
        ZeroReallocates(hs, al, v0, ptr, View());
        return NULL;
      }
      r := Resize(ptr, size);
    }

    /** heapmem_realloc past its special cases. */
    method Resize(ptr: int, size: nat) returns (r: int)
      requires Valid() && ptr - hs in View() && ptr != NULL && size > 0
      modifies this`usage, this`freeList, this`hdr, this`starts, this`fl, mem
      ensures Valid() && Reallocates(hs, al, old(View()), ptr, size, r, View())
      ensures Moves(hs, al, old(View()), ptr, size, old(Fits(ptr - hs, size)), old(Span(ptr - hs)), r, View())
      ensures r != NULL && r != ptr && |old(fl)| <= searchMax ==>
                PlacedBeside(hs, al, old(usage), old(starts), old(hdr), old(fl), ptr, size, r, BlockLength(r - hs))
      ensures |old(fl)| <= searchMax ==> (r == NULL <==> old(NoRoom(ptr - hs, size)))
    {
      hide Sound; hide Blocks; hide RoomFor; hide RoomElsewhere; hide Align; hide CanGrow; hide Stored;
      hide Placed; hide Chosen; hide Trim; hide Reach; hide Span; hide Moves; hide Reallocates; hide BlockLength;
      var c := ptr - hs;
      BlockIn(c);
      var n := Align(al, size);
      AlignTwice(al, size);
      var h := Load(c, starts);
      if n <= h.size {
        ghost var v0, fits, span := View(), CanGrow(c, n), Span(c);
        SplitChunk(c, n);
        ShortenedIs(hs, al, v0, c, n, size, fits, span, View());
        return ptr;
      }
      ghost var v0, fits, span := View(), CanGrow(c, n), Span(c);
      r := Enlarge(c, n);
      EnlargedIs(hs, al, v0, c, n, size, fits, span, r, View());
    }

    /** The part of heapmem_realloc that makes a block larger: where it is if possible, elsewhere if not. */
    method Enlarge(c: int, n: nat) returns (r: int)
      requires Valid() && c in View() && |View()[c]| < n && Align(al, n) == n
      modifies this`usage, this`freeList, this`hdr, this`starts, this`fl, mem
      ensures Valid()
      ensures Enlarged(hs, old(View()), c, n, old(CanGrow(c, n)), old(Span(c)), r, View())
      ensures r != NULL && r != c + hs && |old(fl)| <= searchMax ==>
                PlacedBeside(hs, al, old(usage), old(starts), old(hdr), old(fl), c + hs, n, r, BlockLength(r - hs))
      ensures c in old(hdr)
      ensures |old(fl)| <= searchMax ==>
                (r == NULL <==> !old(CanGrow(c, n)) && old(usage) + hs + n > arena
                                && !RoomElsewhere(hs, old(usage), old(starts), old(hdr), c, n))
    {
      hide Sound; hide Blocks; hide RoomFor; hide RoomElsewhere; hide Align; hide CanGrow; hide Stored;
      hide Placed; hide Trim; hide Reach;
      BlockIn(c);
      var done := GrowInPlace(c, n);
      BlockIn(c);
      if done {
        return c + hs;
      }
      assert forall x :: x in old(View()) && x != c ==> x in View() - {c};
      r := Relocate(c, n);
    }

    /** The last part of heapmem_realloc: allocate anew, copy, release the old block. */
    method Relocate(c: int, n: nat) returns (r: int)
      requires Valid() && c in View() && |View()[c]| < n && Align(al, n) == n
      modifies this`usage, this`freeList, this`hdr, this`starts, this`fl, mem
      ensures Valid()
      ensures r == NULL ==> View() == old(View())
      ensures r != NULL ==> r - hs !in old(View()) && r - hs in View() && View() - {r - hs} == old(View()) - {c}
      ensures r != NULL ==> old(View())[c] <= View()[r - hs] && n <= |View()[r - hs]| <= n + hs
      ensures r == NULL ==> old(usage) + hs + n > arena
      ensures |old(fl)| <= searchMax ==>
                (r == NULL <==> !RoomFor(hs, old(usage), old(starts), old(hdr), n) && old(usage) + hs + n > arena)
      ensures r != NULL && |old(fl)| <= searchMax ==>
                Placed(hs, old(usage), old(starts), old(hdr), old(fl), NULL, n, r - hs, BlockLength(r - hs))
    {
      hide Sound; hide Blocks; hide RoomFor; hide Align; hide Stored; hide Placed; hide Chosen; hide Trim;
      ghost var v1 := View();
      r := Alloc(n);
      if r == NULL {
        return NULL;
      }
      assert r - hs != c && forall x :: x in v1 ==> x in View() - {r - hs};
      assert View()[c] == v1[c];
      BlockIn(c);
      var h := Load(c, starts);
      Copy(r - hs, c, h.size);
      Free(c + hs);
    }

    /**
     heapmem_stats.  It coalesces as it walks, so afterwards no two free chunks are adjacent;
     the live blocks stay, and payload, free space and headers account for the whole arena.
     */
    method Stats() returns (inUse: nat, available: nat, overhead: nat, footprint: nat, chunks: nat)
      requires Valid()
      modifies this`freeList, this`hdr, this`starts, this`fl, mem
      ensures Valid() && View() == old(View())
      ensures CappedBelow(hs, usage, starts, hdr, usage)
      ensures inUse == Total(View(), usage)
      ensures inUse + available + overhead == arena && footprint == usage
      ensures chunks == |starts| && overhead == chunks * hs
    {
      hide Linked; hide Multiple; hide Aligned; hide OnlyHeaders; hide Payload; hide Lists; hide Tiled;
      hide Merged; hide Without; hide Capped;
      hide Distinct; hide Total; hide Stored;
      inUse, available, overhead := 0, 0, 0;
      var c := 0;
      ghost var n: nat := 0;
      TotalZero(View());
      TiledDomain(hs, usage, starts, hdr);
      while c < usage
        invariant Valid() && View() == old(View())
        invariant 0 <= c && (c == usage || c in starts)
        invariant CappedBelow(hs, usage, starts, hdr, c)
        invariant inUse == Total(View(), c)
        invariant inUse + available + overhead == c
        invariant n == |set d | d in starts && d < c| && overhead == n * hs
        decreases usage - c
      {
        c, inUse, available := StatsStep(c, inUse, available, n);
        overhead := overhead + hs;
        n := n + 1;
      }
      available := available + (arena - usage);
      footprint := usage;
      chunks := overhead / hs;
      TiledDomain(hs, usage, starts, hdr);
      Quotient(n, hs);
      assert (set d | d in starts && d < c) == starts;
    }

    /** The body of the loop of heapmem_stats for the chunk at `c`. */
    method StatsStep(c: int, inUse0: nat, available0: nat, ghost n: nat) returns (next: int, inUse: nat, available: nat)
      requires Valid() && c in starts && 0 <= c < usage
      requires CappedBelow(hs, usage, starts, hdr, c)
      requires inUse0 == Total(View(), c)
      requires n == |set d | d in starts && d < c|
      modifies this`freeList, this`hdr, this`starts, this`fl, mem
      ensures Valid() && View() == old(View())
      ensures c < next && (next == usage || next in starts)
      ensures CappedBelow(hs, usage, starts, hdr, next)
      ensures inUse == Total(View(), next)
      ensures inUse + available + hs == inUse0 + available0 + next - c
      ensures n + 1 == |set d | d in starts && d < next|
    {
      hide Linked; hide Multiple; hide Aligned; hide OnlyHeaders; hide Payload; hide Lists; hide Tiled;
      hide Merged; hide Without; hide Capped;
      hide Distinct; hide Total; hide CappedBelow; hide Blocks; hide Stored;
      ghost var s0, h0, m0, v0 := starts, hdr, mem[..], View();
      TiledDomain(hs, usage, starts, hdr);
      inUse, available := inUse0, available0;
      var h := Load(c, starts);
      if h.used {
        inUse := inUse + h.size;
      } else {
        CoalesceChunks(c);
        BelowKept(hs, usage, s0, h0, starts, hdr, c);
        MergedIs(s0, h0, starts, hdr, c);
        MergedView(hs, usage, s0, h0, m0, starts, hdr, mem[..]);
        CappedBelowKept(hs, usage, s0, h0, starts, hdr, c);
        h := Load(c, starts);
        available := available + h.size;
      }
      NoneInside(hs, usage, starts, hdr, c);
      next := c + hs + h.size;
      CappedBelowStep(hs, usage, starts, hdr, c);
      CountStep(s0, starts, c, next);
      BlockSize(c);
      TotalStep(View(), c, next);
    }

    lemma ViewOffsets()
      requires Valid()
      ensures Offsets(View())
    {
      hide Linked; hide Multiple; hide Aligned; hide Lists; hide Stored;
    }

    lemma BlockSize(c: int)
      requires Valid() && c in starts
      ensures c in hdr && (c in View() <==> hdr[c].used) && (c in View() ==> |View()[c]| == hdr[c].size)
      ensures forall d :: d in View() ==> d in starts
    {
      hide Linked; hide Multiple; hide Aligned; hide Lists; hide Stored;
    }
  }

  // --------------------------------------------------------------- whole runs

  datatype Call =
    | CallAlloc(size: nat)
    | CallFree(ptr: int)
    | CallRealloc(ptr: int, size: nat)
    | CallStats
    | ClientStore(ptr: int, k: nat, x: bv8)

  /** One call as a client sees it: the call, the pointer returned and the live blocks afterwards. */
  datatype Event = Event(call: Call, r: int, after: map<int, seq<Cell>>)

  /** The pointers a client may pass: null, where the function takes it, or a live block. */
  ghost predicate Legal(hs: nat, v: map<int, seq<Cell>>, call: Call)
  {
    match call
    case CallAlloc(_) => true
    case CallFree(p) => p == NULL || p - hs in v
    case CallRealloc(p, _) => p == NULL || p - hs in v
    case CallStats => true
    case ClientStore(p, k, _) => p - hs in v && k < |v[p - hs]|
  }

  /** The allocator as a client sees it: what each call may do to the live blocks. */
  ghost predicate Effect(hs: nat, al: nat, v: map<int, seq<Cell>>, call: Call, r: int, v': map<int, seq<Cell>>)
    requires al > 0
  {
    Legal(hs, v, call) &&
    match call
    case CallAlloc(n) => Allocates(hs, v, Align(al, n), r, v')
    case CallFree(p) => v' == v - {p - hs}
    case CallStats => v' == v
    case ClientStore(p, k, x) => v' == v[p - hs := v[p - hs][k := Data(x)]]
    case CallRealloc(p, n) => Reallocates(hs, al, v, p, n, r, v')
  }

  /** The events form a run of the client view from `v`. */
  ghost predicate IsRun(hs: nat, al: nat, v: map<int, seq<Cell>>, events: seq<Event>)
    requires al > 0
    decreases |events|
  {
    events == [] || (Effect(hs, al, v, events[0].call, events[0].r, events[0].after)
                     && IsRun(hs, al, events[0].after, events[1..]))
  }

  ghost function LastView(v: map<int, seq<Cell>>, events: seq<Event>): (r: map<int, seq<Cell>>)
  {
    if events == [] then v else events[|events| - 1].after
  }

  lemma {:induction false} RunAppend(hs: nat, al: nat, v: map<int, seq<Cell>>, events: seq<Event>, e: Event)
    requires al > 0 && IsRun(hs, al, v, events)
    requires Effect(hs, al, LastView(v, events), e.call, e.r, e.after)
    ensures IsRun(hs, al, v, events + [e])
    decreases |events|
  {
    if events != [] {
      assert (events + [e])[1..] == events[1..] + [e];
      RunAppend(hs, al, events[0].after, events[1..], e);
    }
  }

  ghost predicate Names(hs: nat, call: Call, c: int)
  {
    match call
    case CallFree(p) => p - hs == c
    case CallRealloc(p, _) => p - hs == c
    case ClientStore(p, _, _) => p - hs == c
    case _ => false
  }

  /** A live block not named by any call of a run is live, with the same bytes, at the end of it. */
  lemma {:induction false} UntouchedSurvives(hs: nat, al: nat, v: map<int, seq<Cell>>, events: seq<Event>, c: int)
    requires al > 0 && IsRun(hs, al, v, events) && c in v
    requires forall i :: 0 <= i < |events| ==> !Names(hs, events[i].call, c)
    ensures c in LastView(v, events) && LastView(v, events)[c] == v[c]
    decreases |events|
  {
    if events != [] {
      var e := events[0];
      assert !Names(hs, e.call, c);
      UntouchedStep(hs, al, v, e.call, e.r, e.after, c);
      UntouchedSurvives(hs, al, e.after, events[1..], c);
    }
  }

  lemma UntouchedStep(hs: nat, al: nat, v: map<int, seq<Cell>>, call: Call, r: int, v': map<int, seq<Cell>>, c: int)
    requires al > 0 && Effect(hs, al, v, call, r, v') && c in v && !Names(hs, call, c)
    ensures c in v' && v'[c] == v[c]
  {
    hide Align;
    if call.CallAlloc? || (call.CallRealloc? && call.ptr == NULL) {
      assert r != NULL ==> c in v' - {r - hs};
    } else if call.CallRealloc? {
      assert c in v - {call.ptr - hs};
    }
  }

  method Perform(h: Heap, call: Call) returns (r: int)
    requires h.Valid() && h.al > 0 && Legal(h.hs, h.View(), call)
    modifies h, h.mem
    ensures h.Valid() && Effect(h.hs, h.al, old(h.View()), call, r, h.View())
  {
    hide Sound; hide Blocks; hide Align; hide RoomFor;
    r := NULL;
    match call
    case CallAlloc(n) => r := h.Alloc(n);
    case CallFree(p) => h.Free(p);
    case CallRealloc(p, n) => r := h.Realloc(p, n);
    case CallStats => var _, _, _, _, _ := h.Stats();
    case ClientStore(p, k, x) => h.StoreByte(p, k, x);
  }

  /** `p` points to a live block of at least `n` bytes. */
  ghost predicate Holds(hs: nat, v: map<int, seq<Cell>>, p: int, n: nat)
  {
    p != NULL && p - hs in v && n <= |v[p - hs]|
  }

  /** What a client knows: the pointers it holds and the sizes it asked for. */
  ghost predicate Knows(hs: nat, v: map<int, seq<Cell>>, sizes: map<int, nat>)
  {
    && (forall p :: p in sizes ==> Holds(hs, v, p, sizes[p]))
    && (forall c :: c in v ==> c + hs in sizes)
  }

  /** What the client knows after a call. */
  function Learn(sizes: map<int, nat>, call: Call, r: int): (s: map<int, nat>)
  {
    match call
    case CallAlloc(n) => if r == NULL then sizes else sizes[r := n]
    case CallFree(p) => sizes - {p}
    case CallRealloc(p, n) =>
      if r != NULL then (sizes - {p})[r := n]
      else if n == 0 then sizes - {p}
      else sizes
    case CallStats => sizes
    case ClientStore(_, _, _) => sizes
  }

  predicate MayCall(sizes: map<int, nat>, call: Call)
  {
    match call
    case CallAlloc(_) => true
    case CallFree(p) => p == NULL || p in sizes
    case CallRealloc(p, _) => p == NULL || p in sizes
    case CallStats => true
    case ClientStore(p, k, _) => p in sizes && k < sizes[p]
  }

  /** Pointers are never null as long as chunk offsets are not negative. */
  ghost predicate Offsets(v: map<int, seq<Cell>>)
  {
    forall c :: c in v ==> 0 <= c
  }

  /** A block that is live after a call was live before it, or is the one returned. */
  lemma LiveBefore(hs: nat, al: nat, v: map<int, seq<Cell>>, call: Call, r: int, v': map<int, seq<Cell>>, c: int)
    requires al > 0 && Effect(hs, al, v, call, r, v') && c in v' && Offsets(v')
    ensures (r != NULL && c == r - hs) || c in v
    ensures call.CallFree? || (call.CallRealloc? && (r != NULL || call.size == 0) && call.ptr != r) ==>
          c != call.ptr - hs
  {
    hide Align;
    assert r != NULL && c != r - hs ==> c in v' - {r - hs};
    match call
    case CallRealloc(p, n) =>
      assert c != p - hs ==> c in v' - {p - hs};
      assert p != NULL && p != r ==> p - hs !in v - {p - hs};
    case _ =>
  }

  /** A pointer still known after a call was known before, or is the one returned. */
  lemma KnownStays(hs: nat, al: nat, v: map<int, seq<Cell>>, call: Call, r: int, v': map<int, seq<Cell>>,
                   sizes: map<int, nat>, p: int)
    requires al > 0 && Offsets(v) && Offsets(v') && Knows(hs, v, sizes) && Effect(hs, al, v, call, r, v')
    requires p in Learn(sizes, call, r)
    ensures Holds(hs, v', p, Learn(sizes, call, r)[p])
  {
    hide Align;
    if r != NULL && p == r && (call.CallAlloc? || call.CallRealloc?) {
      hide SamePrefix;
    } else {
      assert p in sizes && Holds(hs, v, p, sizes[p]);
      if Names(hs, call, p - hs) {
        NamedStays(hs, al, v, call, r, v', sizes, p);
      } else {
        UntouchedStep(hs, al, v, call, r, v', p - hs);
        hide Effect;
      }
    }
  }

  lemma NamedStays(hs: nat, al: nat, v: map<int, seq<Cell>>, call: Call, r: int, v': map<int, seq<Cell>>,
                   sizes: map<int, nat>, p: int)
    requires al > 0 && p in sizes && Holds(hs, v, p, sizes[p]) && Effect(hs, al, v, call, r, v')
    requires p in Learn(sizes, call, r) && Names(hs, call, p - hs) && (r == NULL || p != r || !call.CallRealloc?)
    ensures Holds(hs, v', p, Learn(sizes, call, r)[p])
  {
    hide Align; hide Allocates; hide SamePrefix;
  }

  lemma LiveKnown(hs: nat, al: nat, v: map<int, seq<Cell>>, call: Call, r: int, v': map<int, seq<Cell>>,
                  sizes: map<int, nat>, c: int)
    requires al > 0 && Offsets(v) && Offsets(v') && Knows(hs, v, sizes) && Effect(hs, al, v, call, r, v')
    requires c in v'
    ensures c + hs in Learn(sizes, call, r)
  {
    LiveBefore(hs, al, v, call, r, v', c);
    hide Effect; hide Offsets; hide Align;
  }

  lemma KnowsStep(hs: nat, al: nat, v: map<int, seq<Cell>>, call: Call, r: int, v': map<int, seq<Cell>>,
                  sizes: map<int, nat>)
    requires al > 0 && Offsets(v) && Offsets(v')
    requires Knows(hs, v, sizes) && Effect(hs, al, v, call, r, v')
    ensures Knows(hs, v', Learn(sizes, call, r))
  {
    hide Effect; hide Learn; hide Offsets; hide Align; hide Holds;
    var s := Learn(sizes, call, r);
    forall p | p in s
      ensures Holds(hs, v', p, s[p])
    {
      KnownStays(hs, al, v, call, r, v', sizes, p);
    }
    forall c | c in v'
      ensures c + hs in s
    {
      LiveKnown(hs, al, v, call, r, v', sizes, c);
    }
  }

  /** What the client knows after the events. */
  ghost function LearnAll(sizes: map<int, nat>, events: seq<Event>): (r: map<int, nat>)
    decreases |events|
  {
    if events == [] then sizes else LearnAll(Learn(sizes, events[0].call, events[0].r), events[1..])
  }

  /** The events are those of `calls`, in order, without the ones the client may not make. */
  ghost predicate Follows(sizes: map<int, nat>, calls: seq<Call>, events: seq<Event>)
    decreases |calls|
  {
    if calls == [] then events == []
    else if MayCall(sizes, calls[0]) then
      && events != [] && events[0].call == calls[0]
      && Follows(Learn(sizes, calls[0], events[0].r), calls[1..], events[1..])
    else Follows(sizes, calls[1..], events)
  }

  lemma {:induction false} FollowsAppend(sizes: map<int, nat>, calls: seq<Call>, events: seq<Event>, e: Event)
    requires Follows(sizes, calls, events)
    ensures LearnAll(sizes, events + [e]) == Learn(LearnAll(sizes, events), e.call, e.r)
    ensures if MayCall(LearnAll(sizes, events), e.call) then Follows(sizes, calls + [e.call], events + [e])
            else Follows(sizes, calls + [e.call], events)
    decreases |calls|
  {
    hide MayCall; hide Learn;
    if calls == [] {
      assert (calls + [e.call])[1..] == [] && (events + [e])[1..] == [];
    } else {
      assert (calls + [e.call])[1..] == calls[1..] + [e.call];
      if MayCall(sizes, calls[0]) {
        assert (events + [e])[1..] == events[1..] + [e];
        FollowsAppend(Learn(sizes, calls[0], events[0].r), calls[1..], events[1..], e);
      } else {
        FollowsAppend(sizes, calls[1..], events, e);
      }
    }
  }

  /**
   Every run from initialisation: whatever calls a client makes, each on null or a block it
   holds, what it sees is a run of the client view that starts from no blocks.
   */
  method Run(arena: nat, headerSize: nat, alignment: nat, searchMax: nat, calls: seq<Call>)
    returns (h: Heap, ghost events: seq<Event>)
    requires headerSize > 0 && alignment > 0 && Multiple(alignment, headerSize)
    ensures h.Valid() && h.arena == arena && h.hs == headerSize && h.al == alignment
    ensures Follows(map[], calls, events)
    ensures IsRun(headerSize, alignment, map[], events)
    ensures LastView(map[], events) == h.View()
  {
    hide Sound; hide Blocks; hide Align; hide RoomFor; hide IsRun; hide Effect; hide Knows; hide Learn; hide Legal;
    hide MayCall; hide Follows; hide LearnAll;
    h := new Heap(arena, headerSize, alignment, searchMax);
    events := [];
    var sizes: map<int, nat> := map[];
    RunEmpty(h.hs, h.al, map[]);
    assert calls[..0] == [];
    for n := 0 to |calls|
      invariant fresh(h) && fresh(h.mem) && h.Valid() && h.arena == arena && h.hs == headerSize && h.al == alignment
      invariant Follows(map[], calls[..n], events) && sizes == LearnAll(map[], events)
      invariant Knows(h.hs, h.View(), sizes)
      invariant IsRun(h.hs, h.al, map[], events) && LastView(map[], events) == h.View()
    {
      assert calls[..n + 1] == calls[..n] + [calls[n]];
      if MayCall(sizes, calls[n]) {
        ghost var v := h.View();
        h.ViewOffsets();
        MayCallLegal(h.hs, v, sizes, calls[n]);
        var r := Perform(h, calls[n]);
        h.ViewOffsets();
        KnowsStep(h.hs, h.al, v, calls[n], r, h.View(), sizes);
        RunAppend(h.hs, h.al, map[], events, Event(calls[n], r, h.View()));
        FollowsAppend(map[], calls[..n], events, Event(calls[n], r, h.View()));
        sizes := Learn(sizes, calls[n], r);
        events := events + [Event(calls[n], r, h.View())];
      } else {
        FollowsAppend(map[], calls[..n], events, Event(calls[n], NULL, h.View()));
      }
    }
    assert calls[..|calls|] == calls;
  }

  /** A client may make just the legal calls, and store only into the bytes it asked for. */
  lemma MayCallLegal(hs: nat, v: map<int, seq<Cell>>, sizes: map<int, nat>, call: Call)
    requires Knows(hs, v, sizes)
    ensures Legal(hs, v, call) && call.ClientStore? ==> call.ptr in sizes
    ensures MayCall(sizes, call) <==> Legal(hs, v, call) && (call.ClientStore? ==> call.k < sizes[call.ptr])
  {
  }

  lemma RunEmpty(hs: nat, al: nat, v: map<int, seq<Cell>>)
    requires al > 0
    ensures IsRun(hs, al, v, []) && Knows(hs, map[], map[])
    ensures Follows(map[], [], []) && LearnAll(map[], []) == map[]
  {
  }
}
