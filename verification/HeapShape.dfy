/**
 Values behind the heap allocator of os/lib/heapmem.c: chunk headers, the tiling of
 the used part of the arena by chunks, and the doubly linked free list threaded
 through the headers.  Everything here is about values; the allocator itself is the
 class in HeapMem.dfy.

 Chunks are named by the arena offset of their header.  `hs` is the header size.
 */
module HeapShape {
  import opened Sequences

  datatype Header = Header(prev: int, next: int, size: nat, used: bool)

  /** One byte of the arena: a byte stored by a client, or byte `k` of the stored header `h`. */
  datatype Cell = Data(value: bv8) | Meta(h: Header, k: nat)

  // ------------------------------------------------------------------ tiling

  /** NEXT_CHUNK: the offset just past a chunk. */
  ghost function Next(hs: nat, hdr: map<int, Header>, c: int): (r: int)
    requires c in hdr
  {
    c + hs + hdr[c].size
  }

  /** The chunks at `starts` tile [0, usage): no gap, no overlap. */
  ghost predicate Tiled(hs: nat, usage: nat, starts: set<int>, hdr: map<int, Header>)
  {
    && (forall c :: c in starts ==> c in hdr && 0 <= c && c + hs + hdr[c].size <= usage)
    && (usage > 0 ==> 0 in starts)
    && (forall c {:trigger Next(hs, hdr, c)} :: c in starts && c in hdr ==>
          Next(hs, hdr, c) == usage || Next(hs, hdr, c) in starts)
    && (forall c, d :: c in starts && d in starts && c < d ==> c in hdr && c + hs + hdr[c].size <= d)
  }

  lemma TiledDomain(hs: nat, usage: nat, starts: set<int>, hdr: map<int, Header>)
    requires Tiled(hs, usage, starts, hdr)
    ensures forall c :: c in starts ==> c in hdr && 0 <= c && c + hs + hdr[c].size <= usage
    ensures usage > 0 ==> 0 in starts
  {
  }

  ghost predicate Multiple(al: nat, n: int)
    requires al > 0
    decreases n
  {
    n == 0 || (al <= n && Multiple(al, n - al))
  }

  lemma {:induction false} MultipleSum(al: nat, a: nat, b: nat)
    requires al > 0 && Multiple(al, a) && Multiple(al, b)
    ensures Multiple(al, a + b)
  {
    if a > 0 {
      MultipleSum(al, a - al, b);
    }
  }

  lemma {:induction false} MultipleDifference(al: nat, a: nat, b: nat)
    requires al > 0 && Multiple(al, a) && Multiple(al, b) && a <= b
    ensures Multiple(al, b - a)
  {
    if a > 0 {
      MultipleDifference(al, a - al, b - al);
    }
  }

  /** Chunk starts and sizes are multiples of the alignment. */
  ghost predicate Aligned(al: nat, starts: set<int>, hdr: map<int, Header>)
    requires al > 0
  {
    forall c :: c in starts ==> c in hdr && Multiple(al, c) && Multiple(al, hdr[c].size)
  }

  /** Every offset below `usage` lies in exactly one chunk; this finds it, walking up from `c`. */
  lemma {:induction false} ChunkAt(hs: nat, usage: nat, starts: set<int>, hdr: map<int, Header>, c: int, x: int)
    returns (r: int)
    requires hs > 0 && Tiled(hs, usage, starts, hdr)
    requires c in starts && c <= x < usage
    ensures r in starts && c <= r <= x < Next(hs, hdr, r)
    decreases x - c
  {
    if x < Next(hs, hdr, c) {
      r := c;
    } else {
      r := ChunkAt(hs, usage, starts, hdr, Next(hs, hdr, c), x);
    }
  }

  // --------------------------------------------------------------- free list

  /** `fl` is a NULL-terminated doubly linked list headed by `head`: prev inverts next, no cycle. */
  ghost predicate Linked(fl: seq<int>, hdr: map<int, Header>, head: int)
  {
    && head == (if fl == [] then NULL else fl[0])
    && Distinct(fl)
    && (forall i :: 0 <= i < |fl| ==> fl[i] in hdr && fl[i] >= 0)
    && (forall i {:trigger hdr[fl[i]]} :: 0 <= i < |fl| ==>
          && hdr[fl[i]].prev == (if i == 0 then NULL else fl[i - 1])
          && hdr[fl[i]].next == (if i + 1 == |fl| then NULL else fl[i + 1]))
  }

  /** The free list holds exactly the chunks of the tiling not flagged as allocated. */
  ghost predicate Lists(fl: seq<int>, starts: set<int>, hdr: map<int, Header>)
  {
    forall c :: c in fl <==> c in starts && c in hdr && !hdr[c].used
  }

  // ---------------------------------------------------------- payload framing

  /** Offset `i` is inside no header of the chunks `offs`. */
  ghost predicate Outside(i: int, offs: set<int>, hs: nat)
  {
    forall f :: f in offs ==> !(f <= i < f + hs)
  }

  /** The two memories agree except inside the headers at `offs`. */
  ghost predicate OnlyHeaders(m: seq<Cell>, m': seq<Cell>, offs: set<int>, hs: nat)
  {
    && |m| == |m'|
    && forall i {:trigger m'[i]} :: 0 <= i < |m| && Outside(i, offs, hs) ==> m'[i] == m[i]
  }

  ghost predicate InMemory(hs: nat, hdr: map<int, Header>, mem: seq<Cell>, c: int)
    requires c in hdr
  {
    0 <= c && c + hs + hdr[c].size <= |mem|
  }

  /** The payload of a chunk. */
  ghost function Payload(hs: nat, hdr: map<int, Header>, mem: seq<Cell>, c: int): (r: seq<Cell>)
    requires c in hdr && InMemory(hs, hdr, mem, c)
    ensures |r| == hdr[c].size
  {
    mem[c + hs .. c + hs + hdr[c].size]
  }

  /** The image of header `h` lies at `c`. */
  ghost predicate Imaged(m: seq<Cell>, c: int, hs: nat, h: Header)
    requires 0 <= c && c + hs <= |m|
  {
    forall i :: c <= i < c + hs ==> m[i] == Meta(h, i - c)
  }

  /** The headers at `starts` do not overlap. */
  ghost predicate Spaced(hs: nat, starts: set<int>)
  {
    forall c, d :: c in starts && d in starts && c < d ==> c + hs <= d
  }

  /** The arena holds the header of every chunk, whole. */
  ghost predicate Stored(hs: nat, starts: set<int>, hdr: map<int, Header>, m: seq<Cell>)
  {
    && Spaced(hs, starts)
    && forall c :: c in starts ==> c in hdr && 0 <= c && c + hs <= |m| && Imaged(m, c, hs, hdr[c])
  }

  /** A header stored at `c` leaves the other headers whole. */
  lemma StoredPut(hs: nat, starts: set<int>, hdr: map<int, Header>, m: seq<Cell>, c: int, h: Header, m': seq<Cell>)
    requires Stored(hs, starts, hdr, m) && Spaced(hs, starts + {c}) && 0 <= c && c + hs <= |m|
    requires OnlyHeaders(m, m', {c}, hs) && Imaged(m', c, hs, h)
    ensures Stored(hs, starts + {c}, hdr[c := h], m')
  {
    forall d | d in starts && d != c
      ensures Imaged(m', d, hs, hdr[d])
    {
      assert d in starts + {c} && c in starts + {c};
      forall i | d <= i < d + hs
        ensures m'[i] == Meta(hdr[d], i - d)
      {
        assert Outside(i, {c}, hs);
        assert m[i] == Meta(hdr[d], i - d);
      }
    }
  }

  lemma StoredLess(hs: nat, starts: set<int>, hdr: map<int, Header>, m: seq<Cell>, fewer: set<int>)
    requires Stored(hs, starts, hdr, m) && fewer <= starts
    ensures Stored(hs, fewer, hdr, m)
  {
  }

  /** Stores that hit no header leave all of them whole. */
  lemma StoredElse(hs: nat, starts: set<int>, hdr: map<int, Header>, m: seq<Cell>, m': seq<Cell>)
    requires Stored(hs, starts, hdr, m) && |m'| == |m|
    requires forall i :: 0 <= i < |m| && !Outside(i, starts, hs) ==> m'[i] == m[i]
    ensures Stored(hs, starts, hdr, m')
  {
    forall c | c in starts
      ensures Imaged(m', c, hs, hdr[c])
    {
      forall i | c <= i < c + hs
        ensures m'[i] == Meta(hdr[c], i - c)
      {
        assert !Outside(i, starts, hs);
        assert m[i] == Meta(hdr[c], i - c);
      }
    }
  }

  /** Stores inside a payload hit no header. */
  lemma PayloadStored(hs: nat, usage: nat, starts: set<int>, hdr: map<int, Header>, m: seq<Cell>, m': seq<Cell>, c: int)
    requires Stored(hs, starts, hdr, m) && Tiled(hs, usage, starts, hdr) && c in starts && |m'| == |m|
    requires forall i :: 0 <= i < |m| && !(c + hs <= i < c + hs + hdr[c].size) ==> m'[i] == m[i]
    ensures Stored(hs, starts, hdr, m')
  {
    forall i | 0 <= i < |m| && !Outside(i, starts, hs)
      ensures m'[i] == m[i]
    {
      var d :| d in starts && d <= i < d + hs;
      assert d == c || d < c || c < d;
    }
    hide Tiled; hide Stored;
    StoredElse(hs, starts, hdr, m, m');
  }

  lemma TiledSpaced(hs: nat, usage: nat, starts: set<int>, hdr: map<int, Header>)
    requires Tiled(hs, usage, starts, hdr)
    ensures Spaced(hs, starts)
  {
  }

  lemma OnlyHeadersRefl(m: seq<Cell>, hs: nat)
    ensures OnlyHeaders(m, m, {}, hs)
  {
  }

  lemma OnlyHeadersTrans(m0: seq<Cell>, m1: seq<Cell>, m2: seq<Cell>, o1: set<int>, o2: set<int>, o: set<int>, hs: nat)
    requires OnlyHeaders(m0, m1, o1, hs) && OnlyHeaders(m1, m2, o2, hs) && o1 <= o && o2 <= o
    ensures OnlyHeaders(m0, m2, o, hs)
  {
    forall i | 0 <= i < |m0| && Outside(i, o, hs)
      ensures m2[i] == m0[i]
    {
      assert Outside(i, o1, hs) && Outside(i, o2, hs);
      assert m1[i] == m0[i];
    }
  }

  /** Stores into headers of a tiling change no payload byte of it. */
  lemma HeadersKeepPayload(hs: nat, usage: nat, starts: set<int>, hdr: map<int, Header>, m: seq<Cell>, m': seq<Cell>,
                           c: int)
    requires Tiled(hs, usage, starts, hdr) && usage <= |m|
    requires OnlyHeaders(m, m', starts, hs)
    requires c in starts
    ensures Payload(hs, hdr, m', c) == Payload(hs, hdr, m, c)
  {
    forall i | c + hs <= i < c + hs + hdr[c].size
      ensures m'[i] == m[i]
    {
      assert Outside(i, starts, hs);
    }
  }

  // ------------------------------------------------------- coarser tilings

  /** A chunk is capped when the chunk after it, if any, is allocated. */
  ghost predicate Capped(hs: nat, usage: nat, starts: set<int>, hdr: map<int, Header>, c: int)
    requires c in hdr
  {
    Next(hs, hdr, c) in starts && Next(hs, hdr, c) in hdr ==> hdr[Next(hs, hdr, c)].used
  }

  /** The chunks of `starts` in [a, b) are all free. */
  ghost predicate AllFree(starts: set<int>, hdr: map<int, Header>, a: int, b: int)
  {
    forall d :: d in starts && a <= d < b ==> d in hdr && !hdr[d].used
  }

  /**
   The second tiling is the first with free chunks merged into the chunk before them.
   Flags stay, and a chunk other than `grown` grows only if it is free.
   */
  ghost predicate Merged(starts: set<int>, hdr: map<int, Header>,
                         starts': set<int>, hdr': map<int, Header>, grown: int)
  {
    && starts' <= starts
    && (forall c :: c in starts' ==>
          && c in hdr && c in hdr'
          && hdr'[c].used == hdr[c].used
          && hdr[c].size <= hdr'[c].size
          && (hdr[c].used && c != grown ==> hdr'[c].size == hdr[c].size))
    && (forall c :: c in starts && c !in starts' ==> c in hdr && !hdr[c].used)
  }

  lemma MergedRefl(starts: set<int>, hdr: map<int, Header>, grown: int)
    requires forall c :: c in starts ==> c in hdr
    ensures Merged(starts, hdr, starts, hdr, grown)
  {
  }

  lemma MergedTrans(s0: set<int>, h0: map<int, Header>, s1: set<int>, h1: map<int, Header>,
                    s2: set<int>, h2: map<int, Header>, grown: int)
    requires Merged(s0, h0, s1, h1, grown) && Merged(s1, h1, s2, h2, grown)
    ensures Merged(s0, h0, s2, h2, grown)
  {
  }

  // --------------------------------------------------------- header updates

  /** Sizes agree, and so do the flags except perhaps that of `x`. */
  ghost predicate SameBut(hdr: map<int, Header>, hdr': map<int, Header>, x: int)
  {
    forall d :: d in hdr ==> d in hdr' && hdr'[d].size == hdr[d].size && (d != x ==> hdr'[d].used == hdr[d].used)
  }

  /** Tiling looks only at sizes. */
  lemma TiledSame(hs: nat, usage: nat, starts: set<int>, hdr: map<int, Header>, hdr': map<int, Header>, x: int)
    requires Tiled(hs, usage, starts, hdr) && SameBut(hdr, hdr', x)
    ensures Tiled(hs, usage, starts, hdr')
  {
    forall c | c in starts
      ensures Next(hs, hdr', c) == usage || Next(hs, hdr', c) in starts
    {
      assert Next(hs, hdr', c) == Next(hs, hdr, c);
    }
  }

  /** Removing the last chunk of a tiling tiles up to where it started. */
  lemma TiledDropLast(hs: nat, usage: nat, starts: set<int>, hdr: map<int, Header>, c: int)
    requires hs > 0 && Tiled(hs, usage, starts, hdr)
    requires c in starts && Next(hs, hdr, c) == usage
    ensures Tiled(hs, c, starts - {c}, hdr)
  {
    forall d | d in starts - {c}
      ensures d < c
      ensures Next(hs, hdr, d) == c || Next(hs, hdr, d) in starts - {c}
    {
      if c < d {
        assert false;
      }
      assert Next(hs, hdr, d) <= c;
    }
  }

  /** Adding a chunk in the space past `usage` tiles up to its end. */
  lemma TiledAddLast(hs: nat, usage: nat, starts: set<int>, hdr: map<int, Header>, h: Header)
    requires hs > 0 && Tiled(hs, usage, starts, hdr)
    ensures usage !in starts
    ensures Tiled(hs, usage + hs + h.size, starts + {usage}, hdr[usage := h])
  {
    var hdr' := hdr[usage := h];
    forall d | d in starts + {usage}
      ensures Next(hs, hdr', d) == usage + hs + h.size || Next(hs, hdr', d) in starts + {usage}
    {
      if d != usage {
        assert Next(hs, hdr', d) == Next(hs, hdr, d);
      }
    }
  }

  /** Merging the chunk after `c` into `c`. */
  lemma TiledMerge(hs: nat, usage: nat, starts: set<int>, hdr: map<int, Header>, c: int, n: int, hdr': map<int, Header>)
    requires hs > 0 && Tiled(hs, usage, starts, hdr)
    requires c in starts && n == Next(hs, hdr, c) && n in starts
    requires SameBut(hdr[c := hdr[c].(size := hdr[c].size + hs + hdr[n].size)], hdr', n)
    ensures Tiled(hs, usage, starts - {n}, hdr')
    ensures Next(hs, hdr', c) == Next(hs, hdr, n)
    ensures forall d :: d in starts && c < d < Next(hs, hdr', c) ==> d == n
  {
    assert Next(hs, hdr', c) == Next(hs, hdr, n);
    forall d | d in starts - {n}
      ensures Next(hs, hdr', d) == usage || Next(hs, hdr', d) in starts - {n}
    {
      if d != c {
        assert Next(hs, hdr', d) == Next(hs, hdr, d);
        assert d < c || c < d;
      }
    }
  }

  /** Cutting chunk `c` in two at payload offset `off`. */
  lemma TiledSplit(hs: nat, usage: nat, starts: set<int>, hdr: map<int, Header>, c: int, off: nat, n: int,
                   hdr': map<int, Header>)
    requires hs > 0 && Tiled(hs, usage, starts, hdr)
    requires c in starts && off + hs <= hdr[c].size && n == c + hs + off
    requires n in hdr' && hdr'[n].size == hdr[c].size - hs - off
    requires c in hdr' && hdr'[c].size == off
    requires forall d :: d in hdr && d != c && d != n ==> d in hdr' && hdr'[d].size == hdr[d].size
    ensures n !in starts
    ensures Tiled(hs, usage, starts + {n}, hdr')
  {
    assert Next(hs, hdr', n) == Next(hs, hdr, c);
    forall d | d in starts + {n}
      ensures Next(hs, hdr', d) == usage || Next(hs, hdr', d) in starts + {n}
    {
      if d != c && d != n {
        assert Next(hs, hdr', d) == Next(hs, hdr, d);
      }
    }
  }

  /** A header that is not on the list does not matter to it. */
  lemma LinkedElse(fl: seq<int>, hdr: map<int, Header>, head: int, c: int, h: Header)
    requires Linked(fl, hdr, head) && c !in fl
    ensures Linked(fl, hdr[c := h], head)
  {
    forall i | 0 <= i < |fl|
      ensures hdr[c := h][fl[i]] == hdr[fl[i]]
    {
    }
  }

  /** Nor does the size of any chunk. */
  lemma LinkedGrow(fl: seq<int>, hdr: map<int, Header>, head: int, c: int, size: nat)
    requires Linked(fl, hdr, head) && c in hdr
    ensures Linked(fl, hdr[c := hdr[c].(size := size)], head)
  {
    var hdr' := hdr[c := hdr[c].(size := size)];
    forall i | 0 <= i < |fl|
      ensures fl[i] in hdr'
      ensures hdr'[fl[i]].prev == hdr[fl[i]].prev && hdr'[fl[i]].next == hdr[fl[i]].next
    {
    }
  }

  /** Pushing a chunk on the front of the free list. */
  lemma LinkedPush(fl: seq<int>, hdr: map<int, Header>, head: int, c: int, h: Header)
    requires Linked(fl, hdr, head) && c !in fl && 0 <= c
    requires h.prev == NULL && h.next == head
    ensures fl == [] ==> Linked([c], hdr[c := h], c)
    ensures fl != [] ==> Linked([c] + fl, hdr[c := h][head := hdr[head].(prev := c)], c)
  {
    if fl != [] {
      var l, hdr' := [c] + fl, hdr[c := h][head := hdr[head].(prev := c)];
      forall i | 0 <= i < |l|
        ensures LinkedAt(l, hdr', i)
      {
        LinkedPushAt(fl, hdr, head, c, h, i);
      }
      PushDistinct(fl, c);
      hide Distinct; hide Linked; hide LinkedAt;
      LinkedBy(l, hdr', c);
    }
  }

  lemma LinkedBy(fl: seq<int>, hdr: map<int, Header>, head: int)
    requires fl != [] && head == fl[0] && Distinct(fl)
    requires forall i :: 0 <= i < |fl| ==> LinkedAt(fl, hdr, i)
    ensures Linked(fl, hdr, head)
  {
    hide Distinct;
    forall i | 0 <= i < |fl|
      ensures fl[i] in hdr && fl[i] >= 0
      ensures hdr[fl[i]].prev == (if i == 0 then NULL else fl[i - 1])
      ensures hdr[fl[i]].next == (if i + 1 == |fl| then NULL else fl[i + 1])
    {
      assert LinkedAt(fl, hdr, i);
    }
  }

  /** The links of entry `i`. */
  ghost predicate LinkedAt(fl: seq<int>, hdr: map<int, Header>, i: nat)
    requires i < |fl|
  {
    && fl[i] in hdr && fl[i] >= 0
    && hdr[fl[i]].prev == (if i == 0 then NULL else fl[i - 1])
    && hdr[fl[i]].next == (if i + 1 == |fl| then NULL else fl[i + 1])
  }

  lemma LinkedPushAt(fl: seq<int>, hdr: map<int, Header>, head: int, c: int, h: Header, i: nat)
    requires Linked(fl, hdr, head) && fl != [] && c !in fl && 0 <= c && i <= |fl|
    requires h.prev == NULL && h.next == head
    ensures LinkedAt([c] + fl, hdr[c := h][head := hdr[head].(prev := c)], i)
  {
    assert head == fl[0];
    if i > 0 {
      assert fl[i - 1] in fl;
      assert hdr[fl[i - 1]].next == (if i == |fl| then NULL else fl[i]);
      assert hdr[fl[i - 1]].prev == (if i == 1 then NULL else fl[i - 2]);
    }
  }

  lemma PushDistinct(fl: seq<int>, c: int)
    requires Distinct(fl) && c !in fl
    ensures Distinct([c] + fl)
  {
  }

  /** The stores of `allocate_chunk` on the headers: unlink entry `i` of the list. */
  ghost function Unlinked(fl: seq<int>, hdr: map<int, Header>, i: nat): (r: map<int, Header>)
    requires i < |fl| && forall j :: 0 <= j < |fl| ==> fl[j] in hdr
  {
    var h1 := hdr[fl[i] := hdr[fl[i]].(used := true)];
    var h2 := if i == 0 then h1 else h1[fl[i - 1] := h1[fl[i - 1]].(next := h1[fl[i]].next)];
    if i + 1 == |fl| then h2 else h2[fl[i + 1] := h2[fl[i + 1]].(prev := h2[fl[i]].prev)]
  }

  /** The links entry `k` must have once entry `i` is cut out. */
  ghost predicate LinksPast(fl: seq<int>, h: Header, i: nat, k: nat)
    requires i < |fl| && k < |fl| && k != i
  {
    && h.prev == (if k == 0 || (k == 1 && i == 0) then NULL else if k - 1 == i then fl[i - 1] else fl[k - 1])
    && h.next == (if k + 1 == |fl| || (k + 2 == |fl| && i == k + 1) then NULL
                  else if k + 1 == i then fl[i + 1] else fl[k + 1])
  }

  lemma UnlinkedAt(fl: seq<int>, hdr: map<int, Header>, head: int, i: nat, k: nat)
    requires Linked(fl, hdr, head) && i < |fl| && k < |fl| && k != i
    ensures LinksPast(fl, Unlinked(fl, hdr, i)[fl[k]], i, k)
  {
    assert hdr[fl[i]].next == (if i + 1 == |fl| then NULL else fl[i + 1]);
    assert hdr[fl[i]].prev == (if i == 0 then NULL else fl[i - 1]);
    assert hdr[fl[k]].prev == (if k == 0 then NULL else fl[k - 1]);
    assert hdr[fl[k]].next == (if k + 1 == |fl| then NULL else fl[k + 1]);
  }

  lemma LinkedCutAt(fl: seq<int>, h: Header, i: nat, j: nat)
    requires i < |fl| && j < |fl| - 1
    requires LinksPast(fl, h, i, if j < i then j else j + 1)
    ensures var l := fl[..i] + fl[i + 1..];
            && l[j] == fl[if j < i then j else j + 1]
            && h.prev == (if j == 0 then NULL else l[j - 1])
            && h.next == (if j + 1 == |l| then NULL else l[j + 1])
  {
  }

  lemma LinkedCut(fl: seq<int>, hdr: map<int, Header>, i: nat)
    requires Distinct(fl) && i < |fl|
    requires forall k :: 0 <= k < |fl| ==> fl[k] in hdr && fl[k] >= 0
    requires forall k {:trigger hdr[fl[k]]} :: 0 <= k < |fl| && k != i ==> LinksPast(fl, hdr[fl[k]], i, k)
    ensures var l := fl[..i] + fl[i + 1..]; Linked(l, hdr, if l == [] then NULL else l[0])
  {
    var l := fl[..i] + fl[i + 1..];
    DistinctCut(fl, i);
    forall j | 0 <= j < |l|
      ensures l[j] in hdr && l[j] >= 0
      ensures hdr[l[j]].prev == (if j == 0 then NULL else l[j - 1])
      ensures hdr[l[j]].next == (if j + 1 == |l| then NULL else l[j + 1])
    {
      LinkedCutAt(fl, hdr[fl[if j < i then j else j + 1]], i, j);
    }
  }

  /** Unlinking keeps a doubly linked list, of the other entries in the same order. */
  lemma LinkedUnlink(fl: seq<int>, hdr: map<int, Header>, head: int, i: nat)
    requires Linked(fl, hdr, head) && i < |fl|
    ensures Linked(fl[..i] + fl[i + 1..], Unlinked(fl, hdr, i), if i == 0 then hdr[fl[0]].next else head)
  {
    forall k | 0 <= k < |fl| && k != i
      ensures LinksPast(fl, Unlinked(fl, hdr, i)[fl[k]], i, k)
    {
      UnlinkedAt(fl, hdr, head, i, k);
    }
    LinkedCut(fl, Unlinked(fl, hdr, i), i);
    assert hdr[fl[0]].next == (if 1 == |fl| then NULL else fl[1]);
  }

  lemma UnlinkedSameBut(fl: seq<int>, hdr: map<int, Header>, i: nat)
    requires i < |fl| && forall j :: 0 <= j < |fl| ==> fl[j] in hdr
    ensures SameBut(hdr, Unlinked(fl, hdr, i), fl[i]) && Unlinked(fl, hdr, i)[fl[i]].used
  {
  }

  // ---------------------------------------------------- whole-state invariant

  /** Everything the allocator keeps about its headers. */
  ghost predicate Sound(hs: nat, al: nat, usage: nat, starts: set<int>, hdr: map<int, Header>, fl: seq<int>, head: int)
  {
    && hs > 0 && al > 0 && Multiple(al, hs) && Multiple(al, usage)
    && Tiled(hs, usage, starts, hdr)
    && Aligned(al, starts, hdr)
    && Linked(fl, hdr, head)
    && Lists(fl, starts, hdr)
  }

  /** As `Sound`, while chunk `c` is on its way to the free list. */
  ghost predicate SoundBut(hs: nat, al: nat, usage: nat, starts: set<int>, hdr: map<int, Header>, fl: seq<int>,
                           head: int, c: int)
  {
    && hs > 0 && al > 0 && Multiple(al, hs) && Multiple(al, usage)
    && Tiled(hs, usage, starts, hdr)
    && Aligned(al, starts, hdr)
    && Linked(fl, hdr, head)
    && c in starts && Lists(fl, starts - {c}, hdr)
  }

  lemma SoundTiled(hs: nat, al: nat, usage: nat, starts: set<int>, hdr: map<int, Header>, fl: seq<int>, head: int)
    requires Sound(hs, al, usage, starts, hdr, fl, head)
    ensures hs > 0 && al > 0 && Tiled(hs, usage, starts, hdr)
  {
  }

  lemma SoundList(hs: nat, al: nat, usage: nat, starts: set<int>, hdr: map<int, Header>, fl: seq<int>, head: int)
    requires Sound(hs, al, usage, starts, hdr, fl, head)
    ensures hs > 0 && head == (if fl == [] then NULL else fl[0]) && Distinct(fl)
    ensures forall x :: x in fl ==> x in starts && x in hdr && !hdr[x].used && 0 <= x
    ensures forall i {:trigger hdr[fl[i]]} :: 0 <= i < |fl| ==>
          fl[i] in hdr && hdr[fl[i]].next == (if i + 1 == |fl| then NULL else fl[i + 1])
  {
  }

  lemma FreeLastSound(hs: nat, al: nat, usage: nat, starts: set<int>, hdr: map<int, Header>, fl: seq<int>, head: int,
                      c: int, h: Header)
    requires SoundBut(hs, al, usage, starts, hdr, fl, head, c)
    requires h.size == hdr[c].size && Next(hs, hdr, c) == usage
    ensures Sound(hs, al, c, starts - {c}, hdr[c := h], fl, head)
    ensures SameBut(hdr, hdr[c := h], c)
  {
    TiledSame(hs, usage, starts, hdr, hdr[c := h], c);
    TiledDropLast(hs, usage, starts, hdr[c := h], c);
    LinkedElse(fl, hdr, head, c, h);
  }

  /** The header stores that push `c` on the free list. */
  ghost function Pushed(hdr: map<int, Header>, head: int, c: int): (r: map<int, Header>)
    requires c in hdr && (head == NULL || head in hdr)
    ensures SameBut(hdr, r, c)
  {
    var h1 := hdr[c := hdr[c].(used := false, prev := NULL, next := head)];
    if head == NULL then h1 else h1[head := h1[head].(prev := c)]
  }

  lemma FreePushSound(hs: nat, al: nat, usage: nat, starts: set<int>, hdr: map<int, Header>, fl: seq<int>, head: int,
                      c: int)
    requires SoundBut(hs, al, usage, starts, hdr, fl, head, c)
    ensures head == NULL || (head in starts && head in hdr)
    ensures Sound(hs, al, usage, starts, Pushed(hdr, head, c), [c] + fl, c)
  {
    var hdr' := Pushed(hdr, head, c);
    TiledSame(hs, usage, starts, hdr, hdr', c);
    assert c !in fl;
    LinkedPush(fl, hdr, head, c, hdr[c].(used := false, prev := NULL, next := head));
    if fl == [] {
      assert [c] + fl == [c];
    } else {
      assert head == fl[0] && head in fl;
    }
    assert Lists([c] + fl, starts, hdr');
  }

  /** The head of the free list once entry `i` is cut out. */
  ghost function HeadPast(fl: seq<int>, i: nat): (r: int)
    requires i < |fl|
  {
    if i > 0 then fl[0] else if |fl| == 1 then NULL else fl[1]
  }

  /** What the links of entry `i` are. */
  lemma Neighbours(fl: seq<int>, hdr: map<int, Header>, head: int, i: nat)
    requires Linked(fl, hdr, head) && i < |fl|
    ensures forall j :: 0 <= j < |fl| ==> fl[j] in hdr && fl[j] >= 0
    ensures head == fl[0] && (fl[i] == head <==> i == 0)
    ensures hdr[fl[i]].prev == (if i == 0 then NULL else fl[i - 1])
    ensures hdr[fl[i]].next == (if i + 1 == |fl| then NULL else fl[i + 1])
    ensures i > 0 ==> fl[i - 1] != fl[i]
    ensures i + 1 < |fl| ==> fl[i + 1] != fl[i]
    ensures 0 < i < |fl| - 1 ==> fl[i - 1] != fl[i + 1]
  {
  }

  /** Taking entry `i` off the free list, as an allocated chunk. */
  lemma TakeLinked(hdr: map<int, Header>, fl: seq<int>, head: int, i: nat)
    requires Linked(fl, hdr, head) && i < |fl|
    ensures Linked(Without(fl, {fl[i]}), Unlinked(fl, hdr, i), HeadPast(fl, i))
    ensures SameBut(hdr, Unlinked(fl, hdr, i), fl[i]) && Unlinked(fl, hdr, i)[fl[i]].used
  {
    LinkedUnlink(fl, hdr, head, i);
    UnlinkedSameBut(fl, hdr, i);
    assert hdr[fl[0]].next == (if 1 == |fl| then NULL else fl[1]);
    WithoutOne(fl, i);
  }

  lemma TakeSound(hs: nat, al: nat, usage: nat, starts: set<int>, hdr: map<int, Header>, fl: seq<int>, head: int,
                  c: int, hdr': map<int, Header>, head': int)
    requires Sound(hs, al, usage, starts, hdr, fl, head) && c in fl
    requires Linked(Without(fl, {c}), hdr', head')
    requires SameBut(hdr, hdr', c) && hdr'[c].used
    ensures Sound(hs, al, usage, starts, hdr', Without(fl, {c}), head')
  {
    TiledSame(hs, usage, starts, hdr, hdr', c);
  }

  /** Growing chunk `c` over its free successor `n`, which leaves the free list. */
  lemma MergeSound(hs: nat, al: nat, usage: nat, starts: set<int>, hdr: map<int, Header>, fl: seq<int>, head: int,
                   c: int, n: int, hdr': map<int, Header>, head': int)
    requires Sound(hs, al, usage, starts, hdr, fl, head)
    requires c in starts && n == Next(hs, hdr, c) && n in fl
    requires Linked(Without(fl, {n}), hdr', head')
    requires SameBut(hdr[c := hdr[c].(size := hdr[c].size + hs + hdr[n].size)], hdr', n)
    ensures Sound(hs, al, usage, starts - {n}, hdr', Without(fl, {n}), head')
  {
    hide Linked;
    hide Tiled;
    assert n in starts && c in hdr && n in hdr;
    TiledMerge(hs, usage, starts, hdr, c, n, hdr');
    MultipleSum(al, hdr[c].size, hs);
    MultipleSum(al, hdr[c].size + hs, hdr[n].size);
  }

  lemma MergeMerges(hs: nat, usage: nat, starts: set<int>, hdr: map<int, Header>, c: int, n: int,
                    hdr': map<int, Header>)
    requires hs > 0 && Tiled(hs, usage, starts, hdr)
    requires c in starts && n == Next(hs, hdr, c) && n in starts && !hdr[n].used
    requires SameBut(hdr[c := hdr[c].(size := hdr[c].size + hs + hdr[n].size)], hdr', n)
    ensures Merged(starts, hdr, starts - {n}, hdr', c)
    ensures c in starts - {n}
    ensures forall d :: d in starts && d != c ==> d in hdr' && hdr'[d].size == hdr[d].size
    ensures Next(hs, hdr', c) == Next(hs, hdr, n)
  {
  }

  /** A capped chunk stays capped while other chunks are merged. */
  lemma CappedKept(hs: nat, usage: nat, starts: set<int>, hdr: map<int, Header>, starts': set<int>,
                   hdr': map<int, Header>, grown: int, c: int)
    requires Merged(starts, hdr, starts', hdr', grown)
    requires c in starts' && c in hdr && c in hdr' && hdr'[c].size == hdr[c].size
    requires Capped(hs, usage, starts, hdr, c)
    ensures Capped(hs, usage, starts', hdr', c)
  {
    assert Next(hs, hdr', c) == Next(hs, hdr, c);
  }

  /** Cutting elements out of a list around the element at `p`, which stays. */
  lemma WithoutAround(s: seq<int>, gone: set<int>, p: nat)
    requires p < |s| && s[p] !in gone
    ensures var a := Without(s[..p], gone);
            Without(s, gone) == a + [s[p]] + Without(s[p + 1..], gone)
  {
    assert s == s[..p] + ([s[p]] + s[p + 1..]);
    WithoutConcat(s[..p], [s[p]] + s[p + 1..], gone);
    WithoutConcat([s[p]], s[p + 1..], gone);
    assert Without([s[p]], gone) == [s[p]];
  }

  /**
   The entries of the free list before index `p` are capped.  This is what a pass over the
   list builds up, although coalescing one entry may delete others on either side of it.
   */
  ghost predicate CappedUpTo(hs: nat, usage: nat, starts: set<int>, hdr: map<int, Header>, fl: seq<int>, p: nat)
  {
    p <= |fl| && forall j :: 0 <= j < p ==> fl[j] in hdr && Capped(hs, usage, starts, hdr, fl[j])
  }

  /** The chunks `s` have the sizes they had. */
  ghost predicate SameSizes(s: seq<int>, hdr: map<int, Header>, hdr': map<int, Header>)
  {
    forall x :: x in s ==> x in hdr && x in hdr' && hdr'[x].size == hdr[x].size
  }

  /** A pass over the list that has come to `p`: the entries before are capped, the others as they were. */
  ghost predicate Passing(hs: nat, usage: nat, starts: set<int>, hdr: map<int, Header>, fl: seq<int>,
                          starts': set<int>, hdr': map<int, Header>, fl': seq<int>, p: nat)
  {
    && Merged(starts, hdr, starts', hdr', NULL) && fl' == Without(fl, starts - starts')
    && CappedUpTo(hs, usage, starts', hdr', fl', p) && SameSizes(fl'[p..], hdr, hdr')
  }

  lemma PassStart(hs: nat, al: nat, usage: nat, starts: set<int>, hdr: map<int, Header>, fl: seq<int>, head: int)
    requires Sound(hs, al, usage, starts, hdr, fl, head)
    ensures Passing(hs, usage, starts, hdr, fl, starts, hdr, fl, 0)
  {
    WithoutNothing(fl, starts - starts);
  }

  /** One step of the pass: the entry at `p` has been coalesced. */
  lemma PassStep(hs: nat, usage: nat, s0: set<int>, h0: map<int, Header>, fl0: seq<int>,
                 starts: set<int>, hdr: map<int, Header>, fl: seq<int>, p: nat,
                 starts': set<int>, hdr': map<int, Header>, fl': seq<int>) returns (p': nat)
    requires p < |fl| && Passing(hs, usage, s0, h0, fl0, starts, hdr, fl, p) && Distinct(fl)
    requires forall x :: x in fl ==> x in starts && x in hdr && !hdr[x].used
    requires Merged(starts, hdr, starts', hdr', fl[p])
    requires forall d :: d in starts' && d != fl[p] ==> hdr'[d].size == hdr[d].size
    requires fl' == Without(fl, starts - starts')
    requires fl[p] in starts' && Capped(hs, usage, starts', hdr', fl[p])
    ensures p' < |fl'| && p' <= p && fl'[p'] == fl[p] && |fl'| - p' <= |fl| - p
    ensures Passing(hs, usage, s0, h0, fl0, starts', hdr', fl', p' + 1)
  {
    assert fl[p] in fl;
    MergedIs(starts, hdr, starts', hdr', fl[p]);
    MergedTrans(s0, h0, starts, hdr, starts', hdr', NULL);
    WithoutTwice(fl0, s0 - starts, starts - starts');
    MergedGone(s0, h0, starts, hdr, starts', hdr', NULL);
    p' := StepCapped(hs, usage, starts, hdr, fl, p, starts', hdr', fl', h0);
  }

  lemma PassingIs(hs: nat, usage: nat, starts: set<int>, hdr: map<int, Header>, fl: seq<int>,
                  starts': set<int>, hdr': map<int, Header>, fl': seq<int>, p: nat)
    requires Passing(hs, usage, starts, hdr, fl, starts', hdr', fl', p)
    ensures Merged(starts, hdr, starts', hdr', NULL) && CappedUpTo(hs, usage, starts', hdr', fl', p)
  {
  }

  lemma MergedGone(s0: set<int>, h0: map<int, Header>, s1: set<int>, h1: map<int, Header>,
                   s2: set<int>, h2: map<int, Header>, grown: int)
    requires Merged(s0, h0, s1, h1, grown) && Merged(s1, h1, s2, h2, grown)
    ensures (s0 - s1) + (s1 - s2) == s0 - s2
  {
  }

  lemma StepCapped(hs: nat, usage: nat, starts: set<int>, hdr: map<int, Header>, fl: seq<int>, p: nat,
                   starts': set<int>, hdr': map<int, Header>, fl': seq<int>, h0: map<int, Header>) returns (p': nat)
    requires p < |fl| && CappedUpTo(hs, usage, starts, hdr, fl, p) && Distinct(fl)
    requires forall x :: x in fl ==> x in starts
    requires SameSizes(fl[p..], h0, hdr)
    requires Merged(starts, hdr, starts', hdr', fl[p])
    requires forall d :: d in starts' && d != fl[p] ==> hdr'[d].size == hdr[d].size
    requires fl' == Without(fl, starts - starts')
    requires fl[p] in starts' && Capped(hs, usage, starts', hdr', fl[p])
    ensures p' < |fl'| && p' <= p && fl'[p'] == fl[p] && |fl'| - p' <= |fl| - p
    ensures SameSizes(fl'[p' + 1..], h0, hdr')
    ensures CappedUpTo(hs, usage, starts', hdr', fl', p' + 1)
  {
    var gone := starts - starts';
    WithoutAround(fl, gone, p);
    var a := Without(fl[..p], gone);
    p' := |a|;
    assert fl'[p' + 1..] == Without(fl[p + 1..], gone);
    forall x | x in fl'[p' + 1..]
      ensures x in h0 && x in hdr' && hdr'[x].size == h0[x].size
    {
      assert x in fl[p + 1..] && x in fl[p..] && x in fl && x != fl[p] && x in starts && x in starts';
    }
    forall j | 0 <= j < p'
      ensures fl'[j] in hdr' && Capped(hs, usage, starts', hdr', fl'[j])
    {
      assert fl'[j] == a[j] && a[j] in a && a[j] in fl[..p];
      assert a[j] in fl && a[j] in starts;
      CappedKept(hs, usage, starts, hdr, starts', hdr', fl[p], a[j]);
    }
  }

  // ------------------------------------------------------------- live blocks

  /** The live blocks: every allocated chunk, with the bytes of its payload. */
  ghost function Blocks(hs: nat, usage: nat, starts: set<int>, hdr: map<int, Header>,
                        mem: seq<Cell>): (r: map<int, seq<Cell>>)
    requires Tiled(hs, usage, starts, hdr) && usage <= |mem|
  {
    map c | c in starts && hdr[c].used :: Payload(hs, hdr, mem, c)
  }

  /** Merging free chunks changes no live block, except that `grown` may get longer. */
  lemma MergedKeepsBlocks(hs: nat, usage: nat, starts: set<int>, hdr: map<int, Header>, m: seq<Cell>,
                          starts': set<int>, hdr': map<int, Header>, m': seq<Cell>, grown: int)
    requires Tiled(hs, usage, starts, hdr) && Tiled(hs, usage, starts', hdr') && usage <= |m|
    requires OnlyHeaders(m, m', starts, hs)
    requires Merged(starts, hdr, starts', hdr', grown)
    ensures var b, b' := Blocks(hs, usage, starts, hdr, m), Blocks(hs, usage, starts', hdr', m');
            && b'.Keys == b.Keys
            && (forall c :: c in b && c != grown ==> b'[c] == b[c])
            && (grown in b ==> b[grown] <= b'[grown])
  {
    forall c | c in starts && c in hdr && hdr[c].used
      ensures PayloadKept(hs, hdr, m, starts', hdr', m', grown, c)
    {
      KeepsOne(hs, usage, starts, hdr, m, starts', hdr', m', grown, c);
    }
    KeysKept(hs, usage, starts, hdr, m, starts', hdr', m', grown);
    TiledDomain(hs, usage, starts, hdr);
    hide Tiled; hide Merged; hide OnlyHeaders; hide Payload;
  }

  ghost predicate PayloadKept(hs: nat, hdr: map<int, Header>, m: seq<Cell>,
                              starts': set<int>, hdr': map<int, Header>, m': seq<Cell>, grown: int, c: int)
  {
    && c in starts' && c in hdr && c in hdr' && InMemory(hs, hdr, m, c) && InMemory(hs, hdr', m', c)
    && Payload(hs, hdr, m, c) <= Payload(hs, hdr', m', c)
    && (c != grown ==> Payload(hs, hdr, m, c) == Payload(hs, hdr', m', c))
  }

  lemma KeysKept(hs: nat, usage: nat, starts: set<int>, hdr: map<int, Header>, m: seq<Cell>,
                 starts': set<int>, hdr': map<int, Header>, m': seq<Cell>, grown: int)
    requires Tiled(hs, usage, starts, hdr) && Tiled(hs, usage, starts', hdr') && usage <= |m| && |m| == |m'|
    requires Merged(starts, hdr, starts', hdr', grown)
    ensures Blocks(hs, usage, starts', hdr', m').Keys == Blocks(hs, usage, starts, hdr, m).Keys
  {
  }

  lemma KeepsOne(hs: nat, usage: nat, starts: set<int>, hdr: map<int, Header>, m: seq<Cell>,
                 starts': set<int>, hdr': map<int, Header>, m': seq<Cell>, grown: int, c: int)
    requires Tiled(hs, usage, starts, hdr) && Tiled(hs, usage, starts', hdr') && usage <= |m|
    requires OnlyHeaders(m, m', starts, hs) && Merged(starts, hdr, starts', hdr', grown)
    requires c in starts && c in hdr && hdr[c].used
    ensures PayloadKept(hs, hdr, m, starts', hdr', m', grown, c)
  {
    HeadersKeepPayload(hs, usage, starts, hdr, m, m', c);
  }

  lemma MergedView(hs: nat, usage: nat, starts: set<int>, hdr: map<int, Header>, m: seq<Cell>,
                   starts': set<int>, hdr': map<int, Header>, m': seq<Cell>)
    requires Tiled(hs, usage, starts, hdr) && Tiled(hs, usage, starts', hdr') && usage <= |m| && |m| == |m'|
    requires OnlyHeaders(m, m', starts, hs)
    requires Merged(starts, hdr, starts', hdr', NULL)
    ensures Blocks(hs, usage, starts', hdr', m') == Blocks(hs, usage, starts, hdr, m)
  {
    MergedKeepsBlocks(hs, usage, starts, hdr, m, starts', hdr', m', NULL);
    TiledDomain(hs, usage, starts, hdr);
    hide Tiled; hide Merged; hide OnlyHeaders; hide Payload;
  }

  /** Free space in one piece: consecutive free chunks from `c` up to `e`. */
  ghost predicate FreeRun(hs: nat, usage: nat, starts: set<int>, hdr: map<int, Header>, c: int, e: int)
  {
    c in starts && c < e && (e == usage || e in starts) && AllFree(starts, hdr, c, e)
  }

  /** Some run of adjacent free chunks would, as a single chunk, have a payload of at least `n` bytes. */
  ghost predicate RoomFor(hs: nat, usage: nat, starts: set<int>, hdr: map<int, Header>, n: nat)
  {
    exists c, e :: FreeRun(hs, usage, starts, hdr, c, e) && e - c - hs >= n
  }

  /** The free chunks right behind chunk `c` reach far enough for a payload of `n` bytes in place. */
  ghost predicate RoomBehind(hs: nat, usage: nat, starts: set<int>, hdr: map<int, Header>, c: int, n: nat)
    requires c in hdr
  {
    exists e :: FreeUpTo(hs, usage, starts, hdr, c, e) && e - c - hs >= n
  }

  /** Nothing but free chunks lies between the end of chunk `c` and the boundary `e`. */
  ghost predicate FreeUpTo(hs: nat, usage: nat, starts: set<int>, hdr: map<int, Header>, c: int, e: int)
    requires c in hdr
  {
    (e == usage || e in starts) && AllFree(starts, hdr, c + hs + hdr[c].size, e)
  }

  /** Coalescing at `c` reaches `n` bytes exactly when there is room behind it. */
  lemma CoalescedReaches(hs: nat, usage: nat, starts: set<int>, hdr: map<int, Header>,
                         starts': set<int>, hdr': map<int, Header>, c: int, n: nat)
    requires hs > 0 && Tiled(hs, usage, starts, hdr) && Tiled(hs, usage, starts', hdr')
    requires Merged(starts, hdr, starts', hdr', c) && c in starts' && Capped(hs, usage, starts', hdr', c)
    requires hdr[c].size < n
    ensures RoomBehind(hs, usage, starts, hdr, c, n) <==> n <= hdr'[c].size
  {
    var e' := Next(hs, hdr', c);
    if n <= hdr'[c].size {
      assert FreeUpTo(hs, usage, starts, hdr, c, e');
    } else {
      forall e | FreeUpTo(hs, usage, starts, hdr, c, e)
        ensures e - c - hs < n
      {
        assert e <= e';
      }
    }
  }

  /** A run of free chunks that is not the one right behind chunk `c` has room for `n` bytes. */
  ghost predicate RoomElsewhere(hs: nat, usage: nat, starts: set<int>, hdr: map<int, Header>, c: int, n: nat)
    requires c in hdr
  {
    exists a, e :: FreeRun(hs, usage, starts, hdr, a, e) && e - a - hs >= n && !Behind(hs, starts, hdr, c, a)
  }

  /** Only free chunks lie between chunk `c` and the chunk at `a`. */
  ghost predicate Behind(hs: nat, starts: set<int>, hdr: map<int, Header>, c: int, a: int)
    requires c in hdr
  {
    c < a && AllFree(starts, hdr, Next(hs, hdr, c), a)
  }

  lemma LastHasNoneBehind(hs: nat, usage: nat, starts: set<int>, hdr: map<int, Header>, c: int, n: nat)
    requires hs > 0 && Tiled(hs, usage, starts, hdr) && c in starts && Next(hs, hdr, c) == usage
    ensures RoomFor(hs, usage, starts, hdr, n) <==> RoomElsewhere(hs, usage, starts, hdr, c, n)
  {
    forall a, e | FreeRun(hs, usage, starts, hdr, a, e)
      ensures !Behind(hs, starts, hdr, c, a)
    {
      assert a in starts && a < usage;
    }
    hide Tiled; hide FreeRun; hide Behind;
  }

  /** Coalescing at the live chunk `c` takes the run behind it out of reach of the search, and no other. */
  lemma RoomAfterCoalescing(hs: nat, usage: nat, starts: set<int>, hdr: map<int, Header>,
                            starts': set<int>, hdr': map<int, Header>, c: int, n: nat)
    requires hs > 0 && Tiled(hs, usage, starts, hdr) && Tiled(hs, usage, starts', hdr')
    requires Merged(starts, hdr, starts', hdr', c) && c in starts' && hdr[c].used && Capped(hs, usage, starts', hdr', c)
    requires forall d :: d in starts' && d != c ==> hdr'[d].size == hdr[d].size
    ensures RoomFor(hs, usage, starts', hdr', n) <==> RoomElsewhere(hs, usage, starts, hdr, c, n)
  {
    forall a, e | FreeRun(hs, usage, starts', hdr', a, e)
      ensures FreeRun(hs, usage, starts, hdr, a, e) && !Behind(hs, starts, hdr, c, a)
    {
      RunBefore(hs, usage, starts, hdr, starts', hdr', c, a, e);
    }
    forall a, e | FreeRun(hs, usage, starts, hdr, a, e) && !Behind(hs, starts, hdr, c, a)
      ensures FreeRun(hs, usage, starts', hdr', a, e)
    {
      RunAfter(hs, usage, starts, hdr, starts', hdr', c, a, e);
    }
    hide Tiled; hide Merged; hide FreeRun; hide Behind;
  }

  lemma RunBefore(hs: nat, usage: nat, starts: set<int>, hdr: map<int, Header>,
                  starts': set<int>, hdr': map<int, Header>, c: int, a: int, e: int)
    requires hs > 0 && Tiled(hs, usage, starts, hdr) && Tiled(hs, usage, starts', hdr')
    requires Merged(starts, hdr, starts', hdr', c) && c in starts' && hdr[c].used && Capped(hs, usage, starts', hdr', c)
    requires FreeRun(hs, usage, starts', hdr', a, e)
    ensures FreeRun(hs, usage, starts, hdr, a, e) && !Behind(hs, starts, hdr, c, a)
  {
    assert a in starts' && !hdr'[a].used;
    if c < a {
      var t := Next(hs, hdr', c);
      assert t <= a;
      assert t in starts' && hdr'[t].used;
      assert t < a && t in starts && hdr[t].used;
      assert Next(hs, hdr, c) <= t;
    }
  }

  lemma RunAfter(hs: nat, usage: nat, starts: set<int>, hdr: map<int, Header>,
                 starts': set<int>, hdr': map<int, Header>, c: int, a: int, e: int)
    requires hs > 0 && Tiled(hs, usage, starts, hdr) && Tiled(hs, usage, starts', hdr')
    requires Merged(starts, hdr, starts', hdr', c) && c in starts' && hdr[c].used && Capped(hs, usage, starts', hdr', c)
    requires forall d :: d in starts' && d != c ==> hdr'[d].size == hdr[d].size
    requires FreeRun(hs, usage, starts, hdr, a, e) && !Behind(hs, starts, hdr, c, a)
    ensures FreeRun(hs, usage, starts', hdr', a, e)
  {
    var t := Next(hs, hdr', c);
    forall d | d in starts && d !in starts'
      ensures c < d < t
    {
      OnlyBehind(hs, usage, starts, hdr, starts', hdr', c, d);
    }
    assert a != c;
    if a !in starts' {
      assert AllFree(starts, hdr, Next(hs, hdr, c), a) by {
        forall d | d in starts && Next(hs, hdr, c) <= d < a
          ensures !hdr[d].used
        {
          assert c < d < t;
        }
      }
    }
    assert a < c || t <= a;
  }

  /** Chunks that go while coalescing at `c` lie inside what `c` becomes. */
  lemma OnlyBehind(hs: nat, usage: nat, starts: set<int>, hdr: map<int, Header>,
                   starts': set<int>, hdr': map<int, Header>, c: int, d: int)
    requires hs > 0 && Tiled(hs, usage, starts, hdr) && Tiled(hs, usage, starts', hdr')
    requires Merged(starts, hdr, starts', hdr', c) && c in starts'
    requires forall x :: x in starts' && x != c ==> hdr'[x].size == hdr[x].size
    requires d in starts && d !in starts'
    ensures c < d < Next(hs, hdr', c)
  {
    var r := ChunkAt(hs, usage, starts', hdr', 0, d);
    assert r in starts && r < d;
    assert Next(hs, hdr, r) <= d;
  }

  /** Once every free chunk is capped, a run of free chunks of the old tiling lies in one chunk of the new. */
  lemma RunInOneChunk(hs: nat, usage: nat, starts: set<int>, hdr: map<int, Header>,
                      starts': set<int>, hdr': map<int, Header>, c: int, e: int) returns (r: int)
    requires hs > 0 && Tiled(hs, usage, starts, hdr) && Tiled(hs, usage, starts', hdr')
    requires Merged(starts, hdr, starts', hdr', NULL)
    requires forall f :: f in starts' && !hdr'[f].used ==> Capped(hs, usage, starts', hdr', f)
    requires FreeRun(hs, usage, starts, hdr, c, e)
    ensures r in starts' && !hdr'[r].used && e - c - hs <= hdr'[r].size
  {
    assert c < usage;
    r := ChunkAt(hs, usage, starts', hdr', 0, c);
    var n := Next(hs, hdr', r);
    assert !hdr'[r].used;
    assert Capped(hs, usage, starts', hdr', r);
    assert e <= n;
  }

  /** Conversely every free chunk of the new tiling was a run of free chunks of the old. */
  lemma ChunkWasRun(hs: nat, usage: nat, starts: set<int>, hdr: map<int, Header>,
                    starts': set<int>, hdr': map<int, Header>, r: int)
    requires hs > 0 && Tiled(hs, usage, starts, hdr) && Tiled(hs, usage, starts', hdr')
    requires Merged(starts, hdr, starts', hdr', NULL)
    requires r in starts' && !hdr'[r].used
    ensures RoomFor(hs, usage, starts, hdr, hdr'[r].size)
  {
    var e := Next(hs, hdr', r);
    assert FreeRun(hs, usage, starts, hdr, r, e);
  }

  // ----------------------------------------------------- splitting, releasing

  lemma SplitMultiples(al: nat, hs: nat, c: nat, size: nat, off: nat)
    requires al > 0 && Multiple(al, hs) && Multiple(al, c) && Multiple(al, size) && Multiple(al, off)
          && off + hs <= size
    ensures Multiple(al, c + hs + off) && Multiple(al, size - hs - off)
  {
    MultipleSum(al, c, hs);
    MultipleSum(al, c + hs, off);
    MultipleDifference(al, hs, size);
    MultipleDifference(al, off, size - hs);
  }

  lemma SplitAligned(al: nat, hs: nat, starts: set<int>, hdr: map<int, Header>, c: int, off: nat, hn: Header,
                     hc: Header)
    requires al > 0 && Multiple(al, hs) && Aligned(al, starts, hdr)
    requires 0 <= c && c in starts && off + hs < hdr[c].size && Multiple(al, off)
    requires hn.size == hdr[c].size - hs - off && hc.size == off
    ensures var n := c + hs + off; Aligned(al, starts + {n}, hdr[n := hn][c := hc])
  {
    hide Multiple;
    SplitMultiples(al, hs, c, hdr[c].size, off);
    var n := c + hs + off;
    assert starts + {n} + {c} == starts + {n};
    AlignedPut(al, starts, hdr, n, hn);
    AlignedPut(al, starts + {n}, hdr[n := hn], c, hc);
  }

  lemma AlignedPut(al: nat, starts: set<int>, hdr: map<int, Header>, c: nat, h: Header)
    requires al > 0 && Aligned(al, starts, hdr) && Multiple(al, c) && Multiple(al, h.size)
    ensures Aligned(al, starts + {c}, hdr[c := h])
  {
    hide Multiple;
  }

  lemma SplitLists(starts: set<int>, hdr: map<int, Header>, fl: seq<int>, head: int, c: int, n: int, hn: Header,
                   hc: Header)
    requires Linked(fl, hdr, head) && Lists(fl, starts, hdr)
    requires c in starts && c in hdr && hdr[c].used && n !in starts && hc.used
    ensures Linked(fl, hdr[n := hn][c := hc], head)
    ensures Lists(fl, (starts + {n}) - {n}, hdr[n := hn][c := hc])
  {
    LinkedElse(fl, hdr, head, n, hn);
    LinkedElse(fl, hdr[n := hn], head, c, hc);
    hide Linked;
  }

  lemma SplitSound(hs: nat, al: nat, usage: nat, starts: set<int>, hdr: map<int, Header>, fl: seq<int>, head: int,
                   c: int, off: nat, hn: Header, hc: Header)
    requires Sound(hs, al, usage, starts, hdr, fl, head)
    requires c in starts && hdr[c].used && off + hs < hdr[c].size && Multiple(al, off)
    requires hn.size == hdr[c].size - hs - off && hc.size == off && hc.used
    ensures var n := c + hs + off;
            n !in starts && SoundBut(hs, al, usage, starts + {n}, hdr[n := hn][c := hc], fl, head, n)
  {
    hide Linked; hide Tiled; hide Multiple; hide Lists; hide Aligned;
    var n := c + hs + off;
    TiledDomain(hs, usage, starts, hdr);
    TiledSplit(hs, usage, starts, hdr, c, off, n, hdr[n := hn][c := hc]);
    SplitLists(starts, hdr, fl, head, c, n, hn, hc);
    SplitAligned(al, hs, starts, hdr, c, off, hn, hc);
  }

  /** The payloads of all live chunks but `n` are the same. */
  ghost predicate SamePayloads(hs: nat, starts: set<int>, hdr: map<int, Header>, m: seq<Cell>, hdr': map<int, Header>,
                               m': seq<Cell>, n: int)
  {
    forall d :: d in starts && d in hdr && hdr[d].used && d != n ==>
      && d in hdr' && hdr'[d].used
      && InMemory(hs, hdr, m, d) && InMemory(hs, hdr', m', d)
      && Payload(hs, hdr', m', d) == Payload(hs, hdr, m, d)
  }

  lemma HeadersSamePayloads(hs: nat, u: nat, starts: set<int>, hdr: map<int, Header>, m: seq<Cell>,
                            hdr': map<int, Header>, m': seq<Cell>, n: int)
    requires Tiled(hs, u, starts, hdr) && u <= |m|
    requires SameBut(hdr, hdr', n) && OnlyHeaders(m, m', starts, hs)
    ensures SamePayloads(hs, starts, hdr, m, hdr', m', n)
  {
    forall d | d in starts && d in hdr && hdr[d].used && d != n
      ensures d in hdr' && hdr'[d].used
      ensures InMemory(hs, hdr, m, d) && InMemory(hs, hdr', m', d)
      ensures Payload(hs, hdr', m', d) == Payload(hs, hdr, m, d)
    {
      HeadersKeepPayload(hs, u, starts, hdr, m, m', d);
    }
  }

  /** Releasing chunk `n` takes it out of the live blocks and leaves the others alone. */
  lemma ReleaseBlocks(hs: nat, u: nat, starts: set<int>, hdr: map<int, Header>, m: seq<Cell>,
                      u': nat, starts': set<int>, hdr': map<int, Header>, m': seq<Cell>, n: int)
    requires Tiled(hs, u, starts, hdr) && Tiled(hs, u', starts', hdr') && u <= |m| && u' <= |m|
    requires SameBut(hdr, hdr', n) && OnlyHeaders(m, m', starts, hs)
    requires starts' <= starts && starts - {n} <= starts'
    requires n in starts' ==> n in hdr' && !hdr'[n].used
    ensures Blocks(hs, u', starts', hdr', m') == Blocks(hs, u, starts, hdr, m) - {n}
  {
    hide Tiled; hide OnlyHeaders; hide Payload;
    TiledDomain(hs, u, starts, hdr);
    TiledDomain(hs, u', starts', hdr');
    HeadersSamePayloads(hs, u, starts, hdr, m, hdr', m', n);
  }

  /** Taking chunk `n` off the free list adds it to the live blocks. */
  lemma TakeBlocks(hs: nat, u: nat, starts: set<int>, hdr: map<int, Header>, m: seq<Cell>,
                   hdr': map<int, Header>, m': seq<Cell>, n: int)
    requires Tiled(hs, u, starts, hdr) && Tiled(hs, u, starts, hdr') && u <= |m|
    requires SameBut(hdr, hdr', n) && OnlyHeaders(m, m', starts, hs)
    requires n in starts && n in hdr && !hdr[n].used && n in hdr' && hdr'[n].used
    ensures |m| == |m'|
    ensures var b, b' := Blocks(hs, u, starts, hdr, m), Blocks(hs, u, starts, hdr', m');
            n !in b && n in b' && b' - {n} == b && |b'[n]| == hdr[n].size
  {
    assert |m| == |m'|;
    hide Tiled; hide Payload;
    TiledDomain(hs, u, starts, hdr);
    TiledDomain(hs, u, starts, hdr');
    HeadersSamePayloads(hs, u, starts, hdr, m, hdr', m', n);
  }

  /** Cutting a live block in two shortens it; the cut-off part `n` is not yet on the free list. */
  lemma SplitBlocks(hs: nat, usage: nat, starts: set<int>, hdr: map<int, Header>, m: seq<Cell>, h': map<int, Header>,
                    m': seq<Cell>, c: int, off: nat, n: int)
    requires hs > 0 && Tiled(hs, usage, starts, hdr) && Tiled(hs, usage, starts + {n}, h') && usage <= |m|
    requires c in starts && hdr[c].used && off < hdr[c].size && c in h' && h'[c].used && h'[c].size == off
    requires n !in starts && n in h' && !h'[n].used
    requires forall d :: d in starts && d != c ==> h'[d] == hdr[d]
    requires OnlyHeaders(m, m', starts + {n}, hs) && |m| == |m'|
    ensures Blocks(hs, usage, starts + {n}, h', m')
            == Blocks(hs, usage, starts, hdr, m)[c := Blocks(hs, usage, starts, hdr, m)[c][..off]]
  {
    hide Tiled; hide Payload; hide OnlyHeaders;
    TiledDomain(hs, usage, starts, hdr);
    TiledDomain(hs, usage, starts + {n}, h');
    HeadersSamePayloads(hs, usage, starts + {n}, h', m, h', m', NULL);
    SplitPayloads(hs, starts, hdr, h', m, c, off);
  }

  lemma SplitPayloads(hs: nat, starts: set<int>, hdr: map<int, Header>, h': map<int, Header>, m: seq<Cell>, c: int,
                      off: nat)
    requires forall d :: d in starts ==> d in hdr && InMemory(hs, hdr, m, d) && d in h' && InMemory(hs, h', m, d)
    requires c in starts && off < hdr[c].size && h'[c].size == off
    requires forall d :: d in starts && d != c ==> h'[d] == hdr[d]
    ensures forall d :: d in starts && d != c ==> Payload(hs, h', m, d) == Payload(hs, hdr, m, d)
    ensures Payload(hs, h', m, c) == Payload(hs, hdr, m, c)[..off]
  {
  }

  // ---------------------------------------------------------------- searching

  /** `b` is the first of the smallest chunks among `s` of at least `size` bytes, NULL if there is none. */
  ghost predicate BestFit(s: seq<int>, hdr: map<int, Header>, size: nat, b: int)
    requires forall x :: x in s ==> x in hdr
  {
    if b == NULL then
      forall x :: x in s ==> hdr[x].size < size
    else
      && b in s && size <= hdr[b].size
      && forall x :: x in s && size <= hdr[x].size ==>
           hdr[b].size < hdr[x].size || (hdr[b].size == hdr[x].size && (b == x || Precedes(s, b, x)))
  }

  /** The first `n` entries of a list, all of them if there are no more. */
  ghost function Front(s: seq<int>, n: nat): (r: seq<int>)
    ensures r <= s && |r| <= n
    ensures |s| <= n ==> r == s
  {
    if |s| <= n then s else s[..n]
  }

  lemma BestNone(hdr: map<int, Header>, size: nat)
    ensures BestFit([], hdr, size, NULL)
  {
  }

  /** One more chunk to choose from. */
  lemma BestStep(s: seq<int>, hdr: map<int, Header>, size: nat, b: int, c: int)
    requires (forall x :: x in s ==> x in hdr) && BestFit(s, hdr, size, b) && c in hdr && c != NULL
    ensures b != NULL ==> b in hdr && size <= hdr[b].size
    ensures var best := if size <= hdr[c].size && (b == NULL || hdr[c].size < hdr[b].size) then c else b;
            BestFit(s + [c], hdr, size, best) && (best != NULL ==> best in hdr)
  {
    PrecedesLast(s, c);
    hide Precedes;
    assert forall x :: x in s + [c] <==> x in s || x == c;
  }

  /** A chunk of just the right size cannot be bettered. */
  lemma {:induction false} BestExact(s: seq<int>, n: nat, hdr: map<int, Header>, size: nat, b: int)
    requires (forall x :: x in s ==> x in hdr) && n <= |s| && BestFit(s[..n], hdr, size, b)
    requires b != NULL && b in hdr && hdr[b].size == size
    ensures BestFit(s, hdr, size, b)
    decreases |s| - n
  {
    if n < |s| {
      assert s[..n + 1] == s[..n] + [s[n]];
      PrecedesLast(s[..n], s[n]);
      BestExact(s, n + 1, hdr, size, b);
    } else {
      assert s[..n] == s;
    }
  }

  /**
   After a full pass, searching the whole list fails exactly when no run of adjacent free
   chunks of the original tiling is long enough.
   */
  lemma SearchComplete(hs: nat, al: nat, usage: nat, starts: set<int>, hdr: map<int, Header>, fl: seq<int>, head: int,
                       starts': set<int>, hdr': map<int, Header>, fl': seq<int>, head': int, size: nat, b: int)
    requires Sound(hs, al, usage, starts, hdr, fl, head) && Sound(hs, al, usage, starts', hdr', fl', head')
    requires Merged(starts, hdr, starts', hdr', NULL)
    requires CappedUpTo(hs, usage, starts', hdr', fl', |fl'|)
    requires forall x :: x in fl' ==> x in hdr'
    requires BestFit(fl', hdr', size, b)
    ensures b == NULL <==> !RoomFor(hs, usage, starts, hdr, size)
  {
    hide Linked; hide Multiple; hide Aligned; hide Tiled; hide Merged;
    TiledDomain(hs, usage, starts', hdr');
    if b != NULL {
      ChunkWasRun(hs, usage, starts, hdr, starts', hdr', b);
    } else {
      forall c, e | FreeRun(hs, usage, starts, hdr, c, e)
        ensures e - c - hs < size
      {
        var r := RunInOneChunk(hs, usage, starts, hdr, starts', hdr', c, e);
        assert r in fl';
      }
    }
  }

  // ------------------------------------------------------------ the wilderness

  /** A new live chunk placed at the end of the used space. */
  lemma AppendSound(hs: nat, al: nat, usage: nat, starts: set<int>, hdr: map<int, Header>, fl: seq<int>, head: int,
                    h: Header)
    requires Sound(hs, al, usage, starts, hdr, fl, head)
    requires h.used && Multiple(al, h.size)
    ensures usage !in starts
    ensures Sound(hs, al, usage + hs + h.size, starts + {usage}, hdr[usage := h], fl, head)
  {
    hide Multiple; hide Tiled;
    TiledAddLast(hs, usage, starts, hdr, h);
    MultipleSum(al, usage, hs);
    MultipleSum(al, usage + hs, h.size);
    TiledDomain(hs, usage, starts, hdr);
    LinkedElse(fl, hdr, head, usage, h);
    hide Linked;
  }

  lemma AppendBlocks(hs: nat, usage: nat, starts: set<int>, hdr: map<int, Header>, m: seq<Cell>, h: Header,
                     m': seq<Cell>)
    requires hs > 0 && Tiled(hs, usage, starts, hdr) && usage + hs + h.size <= |m| && |m| == |m'|
    requires usage !in starts && h.used && Tiled(hs, usage + hs + h.size, starts + {usage}, hdr[usage := h])
    requires OnlyHeaders(m, m', {usage}, hs)
    ensures var b := Blocks(hs, usage, starts, hdr, m);
            var b' := Blocks(hs, usage + hs + h.size, starts + {usage}, hdr[usage := h], m');
            usage !in b && usage in b' && b' - {usage} == b && |b'[usage]| == h.size
  {
    hide Tiled;
    TiledDomain(hs, usage, starts, hdr);
    forall d | d in starts && hdr[d].used
      ensures Payload(hs, hdr[usage := h], m', d) == Payload(hs, hdr, m, d)
    {
      assert forall i :: d + hs <= i < d + hs + hdr[d].size ==> Outside(i, {usage}, hs) && m'[i] == m[i];
    }
  }

  /** The last chunk, live, grown into the wilderness. */
  lemma GrowLastTiled(hs: nat, usage: nat, starts: set<int>, hdr: map<int, Header>, c: int, size: nat)
    requires hs > 0 && Tiled(hs, usage, starts, hdr)
    requires c in starts && Next(hs, hdr, c) == usage && hdr[c].size <= size
    ensures Tiled(hs, c + hs + size, starts, hdr[c := hdr[c].(size := size)])
  {
    var h' := hdr[c := hdr[c].(size := size)];
    forall d | d in starts
      ensures d <= c
      ensures Next(hs, h', d) == c + hs + size || Next(hs, h', d) in starts
    {
      if d != c {
        assert Next(hs, h', d) == Next(hs, hdr, d);
      }
    }
  }

  lemma GrowLastSound(hs: nat, al: nat, usage: nat, starts: set<int>, hdr: map<int, Header>, fl: seq<int>, head: int,
                      c: int, size: nat)
    requires Sound(hs, al, usage, starts, hdr, fl, head)
    requires c in starts && Next(hs, hdr, c) == usage && hdr[c].size <= size && Multiple(al, size)
    ensures Sound(hs, al, c + hs + size, starts, hdr[c := hdr[c].(size := size)], fl, head)
  {
    hide Multiple; hide Linked; hide Tiled;
    TiledDomain(hs, usage, starts, hdr);
    GrowLastTiled(hs, usage, starts, hdr, c, size);
    LinkedGrow(fl, hdr, head, c, size);
    MultipleSum(al, c, hs);
    MultipleSum(al, c + hs, size);
  }

  lemma GrowLastBlocks(hs: nat, usage: nat, starts: set<int>, hdr: map<int, Header>, m: seq<Cell>, c: int, size: nat,
                       m': seq<Cell>)
    requires hs > 0 && Tiled(hs, usage, starts, hdr) && c in starts && hdr[c].used && hdr[c].size <= size
    requires c + hs + size <= |m| && |m| == |m'| && usage <= c + hs + size
    requires Tiled(hs, c + hs + size, starts, hdr[c := hdr[c].(size := size)])
    requires OnlyHeaders(m, m', {c}, hs)
    ensures var b := Blocks(hs, usage, starts, hdr, m);
            var b' := Blocks(hs, c + hs + size, starts, hdr[c := hdr[c].(size := size)], m');
            c in b && c in b' && b' - {c} == b - {c} && b[c] <= b'[c] && |b'[c]| == size
  {
    hide Tiled; hide OnlyHeaders; hide Outside;
    TiledDomain(hs, usage, starts, hdr);
    OnlyHeadersRefl(m', hs);
    OnlyHeadersTrans(m, m', m', {c}, {}, starts, hs);
    var h' := hdr[c := hdr[c].(size := size)];
    TiledDomain(hs, c + hs + size, starts, h');
    HeadersSamePayloads(hs, usage, starts, hdr, m, hdr, m', NULL);
    assert forall d :: d in starts && d != c ==> Payload(hs, h', m', d) == Payload(hs, hdr, m', d);
    assert Payload(hs, hdr, m', c) <= Payload(hs, h', m', c);
  }

  // ------------------------------------------------------------- data stores

  /** Stores inside the payload of live chunk `c` change no other live block. */
  lemma StoreBlocks(hs: nat, usage: nat, starts: set<int>, hdr: map<int, Header>, m: seq<Cell>, m': seq<Cell>, c: int)
    requires hs > 0 && Tiled(hs, usage, starts, hdr) && usage <= |m| == |m'|
    requires c in starts && c in hdr && hdr[c].used && InMemory(hs, hdr, m, c)
    requires forall i :: 0 <= i < |m| && !(c + hs <= i < c + hs + hdr[c].size) ==> m'[i] == m[i]
    ensures Blocks(hs, usage, starts, hdr, m')
            == Blocks(hs, usage, starts, hdr, m)[c := m'[c + hs .. c + hs + hdr[c].size]]
  {
    StorePayloads(hs, usage, starts, hdr, m, m', c);
    assert Payload(hs, hdr, m', c) == m'[c + hs .. c + hs + hdr[c].size];
    TiledDomain(hs, usage, starts, hdr);
    hide Tiled; hide Payload;
  }

  /** `m'` is `m` with `n` bytes at `to` replaced by those at `from`. */
  ghost predicate Copied(m: seq<Cell>, m': seq<Cell>, to: nat, from: nat, n: nat)
    requires from + n <= |m| == |m'|
  {
    && (forall i :: 0 <= i < |m| && !(to <= i < to + n) ==> m'[i] == m[i])
    && (forall i :: to <= i < to + n && i < |m| ==> m'[i] == m[i - to + from])
  }

  lemma CopySplices(m: seq<Cell>, m': seq<Cell>, to: nat, from: nat, n: nat, tolen: nat, fromlen: nat)
    requires n <= tolen && n <= fromlen && to + tolen <= |m| && from + fromlen <= |m| == |m'|
    requires Copied(m, m', to, from, n)
    ensures m'[to .. to + tolen] == m[from .. from + fromlen][..n] + m[to .. to + tolen][n..]
    ensures forall i :: 0 <= i < |m| && !(to <= i < to + tolen) ==> m'[i] == m[i]
  {
  }

  /** Copying the start of one live block to the start of another changes nothing else. */
  lemma CopyBlocks(hs: nat, usage: nat, starts: set<int>, hdr: map<int, Header>, m: seq<Cell>, m': seq<Cell>,
                   dst: int, src: int, n: nat)
    requires hs > 0 && Tiled(hs, usage, starts, hdr) && usage <= |m| == |m'|
    requires dst in starts && dst in hdr && hdr[dst].used && InMemory(hs, hdr, m, dst) && n <= hdr[dst].size
    requires src in starts && src in hdr && hdr[src].used && InMemory(hs, hdr, m, src) && n <= hdr[src].size
    requires Copied(m, m', dst + hs, src + hs, n)
    ensures var b := Blocks(hs, usage, starts, hdr, m);
            && dst in b && src in b && n <= |b[src]| && n <= |b[dst]|
            && Blocks(hs, usage, starts, hdr, m') == b[dst := b[src][..n] + b[dst][n..]]
  {
    hide Tiled; hide Copied;
    CopySplices(m, m', dst + hs, src + hs, n, hdr[dst].size, hdr[src].size);
    StoreBlocks(hs, usage, starts, hdr, m, m', dst);
  }

  lemma CopyStored(hs: nat, usage: nat, starts: set<int>, hdr: map<int, Header>, m: seq<Cell>, m': seq<Cell>,
                   dst: int, src: int, n: nat)
    requires Tiled(hs, usage, starts, hdr) && Stored(hs, starts, hdr, m) && |m'| == |m|
    requires dst in starts && dst in hdr && InMemory(hs, hdr, m, dst) && n <= hdr[dst].size
    requires src in starts && src in hdr && InMemory(hs, hdr, m, src) && n <= hdr[src].size
    requires Copied(m, m', dst + hs, src + hs, n)
    ensures Stored(hs, starts, hdr, m')
  {
    hide Tiled; hide Copied; hide Stored;
    CopySplices(m, m', dst + hs, src + hs, n, hdr[dst].size, hdr[src].size);
    PayloadStored(hs, usage, starts, hdr, m, m', dst);
  }

  lemma StorePayloads(hs: nat, usage: nat, starts: set<int>, hdr: map<int, Header>, m: seq<Cell>, m': seq<Cell>, c: int)
    requires hs > 0 && Tiled(hs, usage, starts, hdr) && usage <= |m| == |m'|
    requires c in starts
    requires forall i :: 0 <= i < |m| && !(c + hs <= i < c + hs + hdr[c].size) ==> m'[i] == m[i]
    ensures forall d :: d in starts && d != c ==> Payload(hs, hdr, m', d) == Payload(hs, hdr, m, d)
  {
    forall d | d in starts && d != c
      ensures Payload(hs, hdr, m', d) == Payload(hs, hdr, m, d)
    {
      assert d < c || c < d;
    }
  }

  // --------------------------------------------------------------- accounting

  /** Total length of the blocks that start below `n`. */
  ghost function Total(v: map<int, seq<Cell>>, n: nat): (r: nat)
  {
    if n == 0 then 0 else Total(v, n - 1) + if n - 1 in v then |v[n - 1]| else 0
  }

  lemma {:induction false} TotalStep(v: map<int, seq<Cell>>, c: nat, n: nat)
    requires c < n && forall d :: d in v && c < d < n ==> false
    ensures Total(v, n) == Total(v, c) + if c in v then |v[c]| else 0
  {
    if c + 1 < n {
      TotalStep(v, c, n - 1);
    }
  }

  /** No chunk starts strictly inside chunk `c`. */
  lemma NoneInside(hs: nat, usage: nat, starts: set<int>, hdr: map<int, Header>, c: int)
    requires hs > 0 && Tiled(hs, usage, starts, hdr) && c in starts
    ensures c in hdr && forall d :: d in starts && c < d ==> Next(hs, hdr, c) <= d
    ensures Next(hs, hdr, c) == usage || Next(hs, hdr, c) in starts
    ensures forall d :: d in starts ==> d < usage
  {
  }

  /** Every free chunk below `n` is capped. */
  ghost predicate CappedBelow(hs: nat, usage: nat, starts: set<int>, hdr: map<int, Header>, n: int)
  {
    forall d :: d in starts && d < n && d in hdr && !hdr[d].used ==> Capped(hs, usage, starts, hdr, d)
  }

  lemma CappedBelowKept(hs: nat, usage: nat, starts: set<int>, hdr: map<int, Header>, starts': set<int>,
                        hdr': map<int, Header>, c: int)
    requires CappedBelow(hs, usage, starts, hdr, c) && Merged(starts, hdr, starts', hdr', c)
    requires forall d :: d in starts' && d != c ==> d in hdr && d in hdr' && hdr'[d].size == hdr[d].size
    ensures CappedBelow(hs, usage, starts', hdr', c)
  {
    forall d | d in starts' && d < c && d in hdr' && !hdr'[d].used
      ensures Capped(hs, usage, starts', hdr', d)
    {
      CappedKept(hs, usage, starts, hdr, starts', hdr', c, d);
    }
  }

  /** Counting chunks: one more below the end of `c` than below `c`. */
  lemma CountStep(starts0: set<int>, starts: set<int>, c: int, next: int)
    requires starts <= starts0 && forall d :: d in starts0 && d < c ==> d in starts
    requires c in starts && c < next && forall d :: d in starts && c < d ==> next <= d
    ensures |set d | d in starts && d < next| == |set d | d in starts0 && d < c| + 1
  {
    assert (set d | d in starts && d < next) == (set d | d in starts0 && d < c) + {c};
  }

  lemma TotalZero(v: map<int, seq<Cell>>)
    ensures Total(v, 0) == 0
  {
  }

  lemma CappedBelowStep(hs: nat, usage: nat, starts: set<int>, hdr: map<int, Header>, c: int)
    requires hs > 0 && Tiled(hs, usage, starts, hdr) && c in starts
    requires CappedBelow(hs, usage, starts, hdr, c) && (!hdr[c].used ==> Capped(hs, usage, starts, hdr, c))
    ensures CappedBelow(hs, usage, starts, hdr, Next(hs, hdr, c))
  {
    hide Capped;
  }

  /** Merging into a free chunk keeps the flags. */
  lemma MergedIs(starts: set<int>, hdr: map<int, Header>, starts': set<int>, hdr': map<int, Header>, c: int)
    requires Merged(starts, hdr, starts', hdr', c) && c in hdr && !hdr[c].used
    ensures Merged(starts, hdr, starts', hdr', NULL) && starts' <= starts
    ensures c in starts' ==> c in hdr' && !hdr'[c].used
  {
  }

  /** Coalescing at `c` leaves the chunks below `c` as they are. */
  lemma BelowKept(hs: nat, usage: nat, starts: set<int>, hdr: map<int, Header>, starts': set<int>,
                  hdr': map<int, Header>, c: int)
    requires hs > 0 && Tiled(hs, usage, starts, hdr) && Tiled(hs, usage, starts', hdr')
    requires Merged(starts, hdr, starts', hdr', c) && c in starts'
    requires forall d :: d in starts' && d != c ==> hdr'[d].size == hdr[d].size
    ensures forall d :: d in starts && d < c ==> d in starts'
  {
    forall d | d in starts && d < c
      ensures d in starts'
    {
      var r := ChunkAt(hs, usage, starts', hdr', 0, d);
      assert r in starts && Next(hs, hdr', r) == Next(hs, hdr, r);
    }
  }
}
