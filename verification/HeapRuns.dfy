/**
 Maximal runs of adjacent free chunks.  They are what coalescing turns into single chunks, so a
 search that picks a chunk picks a run; here the choice is stated on the tiling before any merging.
 */
module HeapRuns {
  import opened HeapShape
  import opened Sequences

  /** The free chunks right behind chunk `c` end at `e`: there a live chunk starts, or the used part ends. */
  ghost predicate RunEnd(hs: nat, usage: nat, starts: set<int>, hdr: map<int, Header>, c: int, e: int)
    requires c in hdr
  {
    && Next(hs, hdr, c) <= e && AllFree(starts, hdr, Next(hs, hdr, c), e)
    && (e == usage || (e in starts && e in hdr && hdr[e].used))
  }

  /** The free chunks from `c` up to `e` are a run that extends neither way. */
  ghost predicate MaxRun(hs: nat, usage: nat, starts: set<int>, hdr: map<int, Header>, c: int, e: int)
  {
    && c in starts && c in hdr && !hdr[c].used && RunEnd(hs, usage, starts, hdr, c, e)
    && forall d :: d in starts && d in hdr && Next(hs, hdr, d) == c ==> hdr[d].used
  }

  /** A run other than the one at `skip` that has room for a payload of `n` bytes. */
  ghost predicate RoomyRun(hs: nat, usage: nat, starts: set<int>, hdr: map<int, Header>, skip: int, n: nat,
                           c: int, e: int)
  {
    MaxRun(hs, usage, starts, hdr, c, e) && c != skip && e - c - hs >= n
  }

  /** The shortest maximal run with room for `n` bytes; of several, the one whose start comes first in `fl`. */
  ghost predicate BestRun(hs: nat, usage: nat, starts: set<int>, hdr: map<int, Header>, fl: seq<int>, skip: int,
                          n: nat, c: int, e: int)
  {
    && RoomyRun(hs, usage, starts, hdr, skip, n, c, e)
    && forall d, f :: RoomyRun(hs, usage, starts, hdr, skip, n, d, f) ==>
         e - c < f - d || (e - c == f - d && (c == d || Precedes(fl, c, d)))
  }

  /** What is kept of `size` bytes when `n` are needed: a rest is given back if it holds more than a header. */
  ghost function Trim(hs: nat, n: nat, size: nat): (r: nat)
    ensures r <= size && (n <= size ==> n <= r <= n + hs)
    ensures r == size || size - r > hs
  {
    if n + hs < size then n else size
  }

  /**
   Where a block of `n` bytes is placed, and with how many bytes: over the best run of free chunks,
   or past the used part when no run is long enough.
   */
  ghost predicate Placed(hs: nat, usage: nat, starts: set<int>, hdr: map<int, Header>, fl: seq<int>, skip: int,
                         n: nat, c: int, size: nat)
  {
    if c == usage then
      size == n && forall d, f :: !RoomyRun(hs, usage, starts, hdr, skip, n, d, f)
    else
      exists e :: BestRun(hs, usage, starts, hdr, fl, skip, n, c, e) && size == Trim(hs, n, e - c - hs)
  }

  /**
   What a pass over the free list leaves that may take `most` steps: the entries before `p` are
   capped, those from `p` on as they were, and the steps not used to get to `p` went to entries
   absorbed later.
   */
  ghost predicate Passed(hs: nat, usage: nat, starts: set<int>, hdr: map<int, Header>, fl: seq<int>, most: nat,
                         starts': set<int>, hdr': map<int, Header>, fl': seq<int>, p: nat)
  {
    && Passing(hs, usage, starts, hdr, fl, starts', hdr', fl', p) && p <= most
    && (p == |fl'| || most - p <= |fl| - |fl'|)
  }

  /**
   A pass over the free list, then a search of its first entries: `b` is the best fit for `n` bytes
   among them, NULL if there is none, and keeps `size` of its bytes.
   */
  ghost predicate Searched(hs: nat, usage: nat, starts: set<int>, hdr: map<int, Header>, fl: seq<int>, most: nat,
                           n: nat, b: int, size: nat)
  {
    exists starts': set<int>, hdr': map<int, Header>, fl': seq<int>, p: nat ::
      && Tiled(hs, usage, starts', hdr') && Lists(fl', starts', hdr')
      && Passed(hs, usage, starts, hdr, fl, most, starts', hdr', fl', p)
      && (forall x :: x in fl' ==> x in hdr') && BestFit(Front(fl', most), hdr', n, b)
      && (b != NULL ==> b in hdr' && size == Trim(hs, n, hdr'[b].size))
  }

  lemma RunEndUnique(hs: nat, usage: nat, starts: set<int>, hdr: map<int, Header>, c: int, e: int, f: int)
    requires Tiled(hs, usage, starts, hdr) && c in starts && hs > 0
    requires RunEnd(hs, usage, starts, hdr, c, e) && RunEnd(hs, usage, starts, hdr, c, f)
    ensures e == f
  {
  }

  /** The free chunks behind `c` end somewhere. */
  lemma {:induction false} RunEnds(hs: nat, usage: nat, starts: set<int>, hdr: map<int, Header>, c: int)
    requires hs > 0 && Tiled(hs, usage, starts, hdr) && c in starts
    ensures exists e :: RunEnd(hs, usage, starts, hdr, c, e)
    decreases usage - c
  {
    var n := Next(hs, hdr, c);
    if n == usage || hdr[n].used {
      assert RunEnd(hs, usage, starts, hdr, c, n);
    } else {
      RunEnds(hs, usage, starts, hdr, n);
      var e :| RunEnd(hs, usage, starts, hdr, n, e);
      assert forall d :: d in starts && n < d ==> Next(hs, hdr, n) <= d;
      assert RunEnd(hs, usage, starts, hdr, c, e);
    }
  }

  /** The payload chunk `c` would have together with the free chunks behind it. */
  ghost function SpanOf(hs: nat, usage: nat, starts: set<int>, hdr: map<int, Header>, c: int): (r: nat)
    ensures hs > 0 && Tiled(hs, usage, starts, hdr) && c in starts ==> RunEnd(hs, usage, starts, hdr, c, c + hs + r)
  {
    if hs > 0 && Tiled(hs, usage, starts, hdr) && c in starts then
      RunEnds(hs, usage, starts, hdr, c);
      var e :| RunEnd(hs, usage, starts, hdr, c, e);
      e - c - hs
    else 0
  }

  /** Coalescing at `c` makes it reach just to the end of the free chunks behind it. */
  lemma CoalescedEnd(hs: nat, usage: nat, starts: set<int>, hdr: map<int, Header>,
                     starts': set<int>, hdr': map<int, Header>, grown: int, c: int)
    requires hs > 0 && Tiled(hs, usage, starts, hdr) && Tiled(hs, usage, starts', hdr')
    requires Merged(starts, hdr, starts', hdr', grown) && c in starts' && Capped(hs, usage, starts', hdr', c)
    ensures c in hdr && c in hdr' && RunEnd(hs, usage, starts, hdr, c, Next(hs, hdr', c))
  {
    var e := Next(hs, hdr', c);
    assert c in starts;
    forall d | d in starts && Next(hs, hdr, c) <= d < e
      ensures d in hdr && !hdr[d].used
    {
      assert d !in starts';
    }
  }

  /** There is room behind `c` for `n` bytes exactly when the run behind it reaches that far. */
  lemma RoomBehindEnd(hs: nat, usage: nat, starts: set<int>, hdr: map<int, Header>, c: int, e: int, n: nat)
    requires Tiled(hs, usage, starts, hdr) && c in starts && hs > 0
    requires RunEnd(hs, usage, starts, hdr, c, e) && hdr[c].size < n
    ensures RoomBehind(hs, usage, starts, hdr, c, n) <==> n <= e - c - hs
  {
    if n <= e - c - hs {
      assert FreeUpTo(hs, usage, starts, hdr, c, e);
    } else {
      forall f | FreeUpTo(hs, usage, starts, hdr, c, f)
        ensures f <= e
      {
      }
    }
  }

  /** The chunk that ends where chunk `c` starts, found from a chunk `a` further down. */
  lemma ChunkBefore(hs: nat, usage: nat, starts: set<int>, hdr: map<int, Header>, a: int, c: int) returns (d: int)
    requires hs > 0 && Tiled(hs, usage, starts, hdr) && a in starts && c in starts && a < c
    ensures d in starts && d in hdr && a <= d < c && Next(hs, hdr, d) == c
  {
    assert c < usage;
    d := ChunkAt(hs, usage, starts, hdr, a, c - 1);
  }

  /** Every free chunk is capped. */
  ghost predicate AllCapped(hs: nat, usage: nat, starts: set<int>, hdr: map<int, Header>)
  {
    forall f :: f in starts && f in hdr && !hdr[f].used ==> Capped(hs, usage, starts, hdr, f)
  }

  /** Once all free chunks are capped, each was a maximal run. */
  lemma ChunkWasMaxRun(hs: nat, usage: nat, starts: set<int>, hdr: map<int, Header>,
                       starts': set<int>, hdr': map<int, Header>, r: int)
    requires hs > 0 && Tiled(hs, usage, starts, hdr) && Tiled(hs, usage, starts', hdr')
    requires Merged(starts, hdr, starts', hdr', NULL) && AllCapped(hs, usage, starts', hdr')
    requires r in starts' && r in hdr' && !hdr'[r].used
    ensures MaxRun(hs, usage, starts, hdr, r, Next(hs, hdr', r))
  {
    CoalescedEnd(hs, usage, starts, hdr, starts', hdr', NULL, r);
    forall d | d in starts && d in hdr && Next(hs, hdr, d) == r
      ensures hdr[d].used
    {
      if !hdr[d].used {
        assert r < usage;
        var b := ChunkBefore(hs, usage, starts', hdr', 0, r);
        assert false;
      }
    }
  }

  /** Conversely each maximal run has become one chunk. */
  lemma MaxRunIsChunk(hs: nat, usage: nat, starts: set<int>, hdr: map<int, Header>,
                      starts': set<int>, hdr': map<int, Header>, c: int, e: int)
    requires hs > 0 && Tiled(hs, usage, starts, hdr) && Tiled(hs, usage, starts', hdr')
    requires Merged(starts, hdr, starts', hdr', NULL) && AllCapped(hs, usage, starts', hdr')
    requires MaxRun(hs, usage, starts, hdr, c, e)
    ensures c in starts' && c in hdr' && !hdr'[c].used && e == Next(hs, hdr', c)
  {
    assert c < usage;
    var r := ChunkAt(hs, usage, starts', hdr', 0, c);
    assert !hdr'[r].used;
    ChunkWasMaxRun(hs, usage, starts, hdr, starts', hdr', r);
    if r < c {
      var d := ChunkBefore(hs, usage, starts, hdr, r, c);
      assert false;
    }
    RunEndUnique(hs, usage, starts, hdr, c, e, Next(hs, hdr', c));
  }

  /** After a full pass, the best fit on the free list is the best run of the tiling before the pass. */
  lemma BestFitIsBestRun(hs: nat, usage: nat, starts: set<int>, hdr: map<int, Header>, fl: seq<int>,
                         starts': set<int>, hdr': map<int, Header>, gone: set<int>, n: nat, b: int)
    requires hs > 0 && Tiled(hs, usage, starts, hdr) && Tiled(hs, usage, starts', hdr')
    requires Merged(starts, hdr, starts', hdr', NULL) && AllCapped(hs, usage, starts', hdr')
    requires Lists(Without(fl, gone), starts', hdr') && b in hdr' && b != NULL
    requires (forall x :: x in Without(fl, gone) ==> x in hdr') && BestFit(Without(fl, gone), hdr', n, b)
    ensures BestRun(hs, usage, starts, hdr, fl, NULL, n, b, Next(hs, hdr', b))
  {
    hide Tiled; hide Merged; hide MaxRun; hide AllCapped;
    var fl' := Without(fl, gone);
    TiledDomain(hs, usage, starts', hdr');
    ChunkWasMaxRun(hs, usage, starts, hdr, starts', hdr', b);
    forall d, f | RoomyRun(hs, usage, starts, hdr, NULL, n, d, f)
      ensures d in fl' && f == Next(hs, hdr', d)
      ensures Precedes(fl', b, d) ==> Precedes(fl, b, d)
    {
      MaxRunIsChunk(hs, usage, starts, hdr, starts', hdr', d, f);
      if Precedes(fl', b, d) {
        PrecedesWithout(fl, gone, b, d);
      }
    }
  }

  /** If there is none on the list, no run was long enough. */
  lemma NoFitNoRun(hs: nat, usage: nat, starts: set<int>, hdr: map<int, Header>,
                   starts': set<int>, hdr': map<int, Header>, fl': seq<int>, n: nat)
    requires hs > 0 && Tiled(hs, usage, starts, hdr) && Tiled(hs, usage, starts', hdr')
    requires Merged(starts, hdr, starts', hdr', NULL) && AllCapped(hs, usage, starts', hdr')
    requires Lists(fl', starts', hdr')
    requires (forall x :: x in fl' ==> x in hdr') && BestFit(fl', hdr', n, NULL)
    ensures forall d, f :: !RoomyRun(hs, usage, starts, hdr, NULL, n, d, f)
  {
    hide Tiled; hide Merged; hide MaxRun; hide AllCapped;
    forall d, f | RoomyRun(hs, usage, starts, hdr, NULL, n, d, f)
      ensures false
    {
      MaxRunIsChunk(hs, usage, starts, hdr, starts', hdr', d, f);
    }
  }

  /** Coalescing at a live chunk takes the run right behind it away, and leaves the others maximal runs. */
  lemma RunsAfterCoalescing(hs: nat, usage: nat, starts: set<int>, hdr: map<int, Header>,
                            starts': set<int>, hdr': map<int, Header>, c: int, a: int, e: int)
    requires hs > 0 && Tiled(hs, usage, starts, hdr) && Tiled(hs, usage, starts', hdr')
    requires Merged(starts, hdr, starts', hdr', c) && c in starts' && hdr[c].used && Capped(hs, usage, starts', hdr', c)
    requires forall d :: d in starts' && d != c ==> hdr'[d].size == hdr[d].size
    ensures MaxRun(hs, usage, starts', hdr', a, e) <==> MaxRun(hs, usage, starts, hdr, a, e) && a != Next(hs, hdr, c)
  {
    if MaxRun(hs, usage, starts', hdr', a, e) {
      RunStays(hs, usage, starts, hdr, starts', hdr', c, a, e);
    }
    if MaxRun(hs, usage, starts, hdr, a, e) && a != Next(hs, hdr, c) {
      RunLeft(hs, usage, starts, hdr, starts', hdr', c, a, e);
    }
  }

  lemma RunStays(hs: nat, usage: nat, starts: set<int>, hdr: map<int, Header>,
                 starts': set<int>, hdr': map<int, Header>, c: int, a: int, e: int)
    requires hs > 0 && Tiled(hs, usage, starts, hdr) && Tiled(hs, usage, starts', hdr')
    requires Merged(starts, hdr, starts', hdr', c) && c in starts' && hdr[c].used && Capped(hs, usage, starts', hdr', c)
    requires forall d :: d in starts' && d != c ==> hdr'[d].size == hdr[d].size
    requires MaxRun(hs, usage, starts', hdr', a, e)
    ensures MaxRun(hs, usage, starts, hdr, a, e) && a != Next(hs, hdr, c)
  {
    var t := Next(hs, hdr', c);
    assert Next(hs, hdr, a) == Next(hs, hdr', a);
    forall d | d in starts && d !in starts'
      ensures c < d < t
    {
      OnlyBehind(hs, usage, starts, hdr, starts', hdr', c, d);
    }
    assert t <= a ==> t in starts';
    assert a < c || t < a;
    forall d | d in starts && d in hdr && Next(hs, hdr, d) == a
      ensures hdr[d].used
    {
      assert d != c ==> d in starts';
      if d != c {
        assert Next(hs, hdr', d) == a;
      }
    }
  }

  lemma RunLeft(hs: nat, usage: nat, starts: set<int>, hdr: map<int, Header>,
                starts': set<int>, hdr': map<int, Header>, c: int, a: int, e: int)
    requires hs > 0 && Tiled(hs, usage, starts, hdr) && Tiled(hs, usage, starts', hdr')
    requires Merged(starts, hdr, starts', hdr', c) && c in starts' && hdr[c].used && Capped(hs, usage, starts', hdr', c)
    requires forall d :: d in starts' && d != c ==> hdr'[d].size == hdr[d].size
    requires MaxRun(hs, usage, starts, hdr, a, e) && a != Next(hs, hdr, c)
    ensures MaxRun(hs, usage, starts', hdr', a, e)
  {
    var t := Next(hs, hdr', c);
    CoalescedEnd(hs, usage, starts, hdr, starts', hdr', c, c);
    forall d | d in starts && d !in starts'
      ensures c < d < t
    {
      OnlyBehind(hs, usage, starts, hdr, starts', hdr', c, d);
    }
    if c < a < t {
      var n := Next(hs, hdr, c);
      assert n in starts;
      var d := ChunkBefore(hs, usage, starts, hdr, n, a);
      assert false;
    }
    assert Next(hs, hdr', a) == Next(hs, hdr, a);
    forall d | d in starts' && d in hdr' && Next(hs, hdr', d) == a
      ensures hdr'[d].used
    {
      if d != c {
        assert Next(hs, hdr, d) == a;
      }
    }
  }

  /** What is placed after coalescing at `c` is placed over a run that is not the one behind `c`. */
  lemma PlacedAfterCoalescing(hs: nat, usage: nat, starts: set<int>, hdr: map<int, Header>, fl: seq<int>,
                              starts': set<int>, hdr': map<int, Header>, gone: set<int>, c: int, n: nat,
                              r: int, size: nat)
    requires hs > 0 && Tiled(hs, usage, starts, hdr) && Tiled(hs, usage, starts', hdr')
    requires Merged(starts, hdr, starts', hdr', c) && c in starts' && hdr[c].used && Capped(hs, usage, starts', hdr', c)
    requires forall d :: d in starts' && d != c ==> hdr'[d].size == hdr[d].size
    requires Placed(hs, usage, starts', hdr', Without(fl, gone), NULL, n, r, size)
    ensures Placed(hs, usage, starts, hdr, fl, Next(hs, hdr, c), n, r, size)
  {
    var skip := Next(hs, hdr, c);
    hide Tiled; hide Merged; hide MaxRun; hide Capped; hide Precedes;
    TiledDomain(hs, usage, starts, hdr);
    forall a, e
      ensures RoomyRun(hs, usage, starts', hdr', NULL, n, a, e) <==> RoomyRun(hs, usage, starts, hdr, skip, n, a, e)
    {
      RunsAfterCoalescing(hs, usage, starts, hdr, starts', hdr', c, a, e);
      MaxRunStart(hs, usage, starts', hdr', a, e);
    }
    forall d | Precedes(Without(fl, gone), r, d)
      ensures Precedes(fl, r, d)
    {
      PrecedesWithout(fl, gone, r, d);
    }
    if r != usage {
      var e :| BestRun(hs, usage, starts', hdr', Without(fl, gone), NULL, n, r, e) && size == Trim(hs, n, e - r - hs);
      hide RoomyRun;
      assert BestRun(hs, usage, starts, hdr, fl, skip, n, r, e);
    } else {
      hide RoomyRun;
    }
  }

  /** The last chunk has no run behind it to leave out. */
  lemma PlacedBesideLast(hs: nat, usage: nat, starts: set<int>, hdr: map<int, Header>, fl: seq<int>, n: nat,
                         r: int, size: nat)
    requires hs > 0 && Tiled(hs, usage, starts, hdr)
    requires Placed(hs, usage, starts, hdr, fl, NULL, n, r, size)
    ensures Placed(hs, usage, starts, hdr, fl, usage, n, r, size)
  {
    forall a, e
      ensures RoomyRun(hs, usage, starts, hdr, NULL, n, a, e) <==> RoomyRun(hs, usage, starts, hdr, usage, n, a, e)
    {
      MaxRunStart(hs, usage, starts, hdr, a, e);
    }
    hide Tiled; hide RoomyRun; hide Precedes;
    if r != usage {
      var e :| BestRun(hs, usage, starts, hdr, fl, NULL, n, r, e) && size == Trim(hs, n, e - r - hs);
      assert BestRun(hs, usage, starts, hdr, fl, usage, n, r, e);
    }
  }

  lemma MaxRunStart(hs: nat, usage: nat, starts: set<int>, hdr: map<int, Header>, a: int, e: int)
    requires hs > 0 && Tiled(hs, usage, starts, hdr)
    ensures MaxRun(hs, usage, starts, hdr, a, e) ==> a != NULL && a != usage
  {
  }

  /** A search of the whole list finds the best run, and nothing only if there is none. */
  lemma SearchedWhole(hs: nat, usage: nat, starts: set<int>, hdr: map<int, Header>, fl: seq<int>, most: nat,
                      n: nat, b: int, size: nat)
    requires hs > 0 && Tiled(hs, usage, starts, hdr) && |fl| <= most
    requires Searched(hs, usage, starts, hdr, fl, most, n, b, size)
    ensures b != NULL ==> b != usage && Placed(hs, usage, starts, hdr, fl, NULL, n, b, size)
    ensures b == NULL ==> Placed(hs, usage, starts, hdr, fl, NULL, n, usage, n)
  {
    hide Tiled; hide Merged; hide Lists; hide BestFit; hide BestRun; hide RoomyRun;
    var starts': set<int>, hdr': map<int, Header>, fl': seq<int>, p: nat :|
      && Tiled(hs, usage, starts', hdr') && Lists(fl', starts', hdr')
      && Passed(hs, usage, starts, hdr, fl, most, starts', hdr', fl', p)
      && (forall x :: x in fl' ==> x in hdr') && BestFit(Front(fl', most), hdr', n, b)
      && (b != NULL ==> b in hdr' && size == Trim(hs, n, hdr'[b].size));
    assert p == |fl'|;
    WholeCapped(hs, usage, starts', hdr', fl');
    if b == NULL {
      NoFitNoRun(hs, usage, starts, hdr, starts', hdr', fl', n);
    } else {
      FitListed(hs, usage, starts', hdr', fl', n, b);
      BestFitIsBestRun(hs, usage, starts, hdr, fl, starts', hdr', starts - starts', n, b);
    }
  }

  lemma WholeCapped(hs: nat, usage: nat, starts: set<int>, hdr: map<int, Header>, fl: seq<int>)
    requires Lists(fl, starts, hdr) && CappedUpTo(hs, usage, starts, hdr, fl, |fl|)
    ensures AllCapped(hs, usage, starts, hdr)
    ensures forall x :: x in fl ==> x in hdr
  {
    hide Capped;
  }

  lemma FitListed(hs: nat, usage: nat, starts: set<int>, hdr: map<int, Header>, fl: seq<int>, n: nat, b: int)
    requires Tiled(hs, usage, starts, hdr) && Lists(fl, starts, hdr) && b != NULL && hs > 0
    requires (forall x :: x in fl ==> x in hdr) && BestFit(fl, hdr, n, b)
    ensures b in starts && b < usage
  {
  }

  lemma SearchedIs(hs: nat, usage: nat, starts: set<int>, hdr: map<int, Header>, fl: seq<int>, most: nat,
                   starts': set<int>, hdr': map<int, Header>, fl': seq<int>, p: nat, n: nat, b: int, size: nat)
    requires Tiled(hs, usage, starts', hdr') && Lists(fl', starts', hdr')
    requires Passed(hs, usage, starts, hdr, fl, most, starts', hdr', fl', p)
    requires (forall x :: x in fl' ==> x in hdr') && BestFit(Front(fl', most), hdr', n, b)
    requires b != NULL ==> b in hdr' && size == Trim(hs, n, hdr'[b].size)
    ensures Searched(hs, usage, starts, hdr, fl, most, n, b, size)
  {
    hide Tiled; hide Lists; hide Passed; hide Trim; hide BestFit;
  }

  /** When nothing is found, no length matters. */
  lemma SearchedNothing(hs: nat, usage: nat, starts: set<int>, hdr: map<int, Header>, fl: seq<int>, most: nat,
                        n: nat, size: nat)
    requires Searched(hs, usage, starts, hdr, fl, most, n, NULL, size)
    ensures Searched(hs, usage, starts, hdr, fl, most, n, NULL, 0)
  {
    hide Tiled; hide Lists; hide Passed; hide Trim; hide BestFit;
  }

  /** Where a block is placed when pass and search are bounded: over what was found, else past the used part. */
  ghost predicate Chosen(hs: nat, usage: nat, starts: set<int>, hdr: map<int, Header>, fl: seq<int>, most: nat,
                         n: nat, c: int, size: nat)
  {
    if c == usage then size == n && Searched(hs, usage, starts, hdr, fl, most, n, NULL, 0)
    else c != NULL && Searched(hs, usage, starts, hdr, fl, most, n, c, size)
  }

  lemma ChosenPlaced(hs: nat, usage: nat, starts: set<int>, hdr: map<int, Header>, fl: seq<int>, most: nat,
                     n: nat, c: int, size: nat)
    requires hs > 0 && Tiled(hs, usage, starts, hdr) && |fl| <= most
    requires Chosen(hs, usage, starts, hdr, fl, most, n, c, size)
    ensures Placed(hs, usage, starts, hdr, fl, NULL, n, c, size)
  {
    hide Tiled; hide Searched; hide Placed;
    if c == usage {
      SearchedWhole(hs, usage, starts, hdr, fl, most, n, NULL, 0);
    } else {
      SearchedWhole(hs, usage, starts, hdr, fl, most, n, c, size);
    }
  }
}
