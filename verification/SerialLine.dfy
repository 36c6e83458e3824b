/**
 The serial line driver of os/dev/serial-line.c.  The receive interrupt puts bytes into
 the ring, in overflow mode dropping the rest of a line; a process takes them out and
 assembles lines.  The ring is a FIFO, and whether a put succeeds is part of the schedule,
 limited only by the capacity of the ring; SerialRing.dfy shows that every interleaving
 on the ring of RingBuf.dfy is such a schedule.
 */
module SerialLine {
  import opened Octets

  const END: Byte := 0x0a
  const CR: Byte := 0x0d

  // ------------------------------------------------------------ specification

  /** The lines of an input without CR: as many complete ones as it has ENDs, then the unfinished one. */
  ghost function Lines(s: Bytes): (r: seq<Bytes>)
    ensures |r| > 0
  {
    if s == [] then [[]]
    else
      var r, c := Lines(s[..|s| - 1]), s[|s| - 1];
      if c == END then r + [[]] else r[|r| - 1 := r[|r| - 1] + [c]]
  }

  lemma LinesSnoc(s: Bytes, c: Byte)
    ensures var r := Lines(s); Lines(s + [c]) == if c == END then r + [[]] else r[|r| - 1 := r[|r| - 1] + [c]]
  {
    assert (s + [c])[..|s|] == s;
  }

  /** More input only adds to the last line or adds lines. */
  lemma LinesGrow(s: Bytes, c: Byte, p: Bytes, i: nat)
    requires i < |Lines(s)| && p <= Lines(s)[i]
    ensures i < |Lines(s + [c])| && p <= Lines(s + [c])[i]
  {
    LinesSnoc(s, c);
  }

  /** The lines of an input, each with its END, make up the input; no line holds an END. */
  lemma {:induction false} LinesJoin(s: Bytes)
    ensures var r := Lines(s); Join(r[..|r| - 1]) + r[|r| - 1] == s
    ensures forall i :: 0 <= i < |Lines(s)| ==> END !in Lines(s)[i]
    decreases |s|
  {
    if s != [] {
      var before, c := s[..|s| - 1], s[|s| - 1];
      LinesJoin(before);
      var r, q := Lines(s), Lines(before);
      if c == END {
        assert r[..|r| - 1] == q[..|q| - 1] + [q[|q| - 1]];
        JoinSnoc(q[..|q| - 1], q[|q| - 1]);
      } else {
        assert r[..|r| - 1] == q[..|q| - 1];
      }
      assert s == before + [c];
    }
  }

  /** A byte stream of complete lines. */
  ghost function Join(ls: seq<Bytes>): (r: Bytes)
  {
    if ls == [] then [] else ls[0] + [END] + Join(ls[1..])
  }

  lemma {:induction false} JoinSnoc(ls: seq<Bytes>, l: Bytes)
    ensures Join(ls + [l]) == Join(ls) + l + [END]
  {
    if ls == [] {
      assert ls + [l] == [l] && [l][1..] == [];
    } else {
      assert (ls + [l])[1..] == ls[1..] + [l];
      JoinSnoc(ls[1..], l);
    }
  }

  /** The lines kept are prefixes of input lines, in the order of the input, no line used twice. */
  ghost predicate Faithful(fed: Bytes, kept: seq<Bytes>, src: seq<nat>)
  {
    && |kept| == |src|
    && (forall i :: 0 <= i < |kept| ==> src[i] < |Lines(fed)| && kept[i] <= Lines(fed)[src[i]])
    && (forall i, j :: 0 <= i < j < |src| ==> src[i] < src[j])
  }

  /** What the consumer keeps of a line. */
  function Cut(l: Bytes, n: nat): (r: Bytes)
    ensures r <= l && |r| == if |l| <= n then |l| else n
  {
    if |l| <= n then l else l[..n]
  }

  // ------------------------------------------------------------------ producer

  /**
   The producer's side: `fed` is all input so far, `kept` the lines it has put with their
   source lines `src`, `part` what it has put of line `cur` since.
   */
  ghost predicate ProducerInv(overflow: bool, fed: Bytes, kept: seq<Bytes>, src: seq<nat>, part: Bytes, cur: nat)
  {
    && Faithful(fed, kept, src)
    && END !in part
    && cur < |Lines(fed)| && part <= Lines(fed)[cur]
    && (forall i :: 0 <= i < |src| ==> src[i] < cur)
    && (!overflow ==> cur == |Lines(fed)| - 1 && part == Lines(fed)[cur])
  }

  lemma FaithfulGrow(fed: Bytes, c: Byte, kept: seq<Bytes>, src: seq<nat>)
    requires Faithful(fed, kept, src)
    ensures Faithful(fed + [c], kept, src)
  {
    forall i | 0 <= i < |kept|
      ensures src[i] < |Lines(fed + [c])| && kept[i] <= Lines(fed + [c])[src[i]]
    {
      LinesGrow(fed, c, kept[i], src[i]);
    }
  }

  /** A byte that is dropped. */
  lemma Dropped(overflow: bool, fed: Bytes, kept: seq<Bytes>, src: seq<nat>, part: Bytes, cur: nat, c: Byte)
    requires ProducerInv(overflow, fed, kept, src, part, cur)
    ensures ProducerInv(true, fed + [c], kept, src, part, cur)
  {
    FaithfulGrow(fed, c, kept, src);
    LinesGrow(fed, c, part, cur);
  }

  /** A byte of a line that is put. */
  lemma Extended(fed: Bytes, kept: seq<Bytes>, src: seq<nat>, part: Bytes, cur: nat, c: Byte)
    requires ProducerInv(false, fed, kept, src, part, cur) && c != END
    ensures ProducerInv(false, fed + [c], kept, src, part + [c], cur)
  {
    FaithfulGrow(fed, c, kept, src);
    LinesSnoc(fed, c);
  }

  /** An END that is put, of the line being put or of a later one. */
  lemma Completed(overflow: bool, fed: Bytes, kept: seq<Bytes>, src: seq<nat>, part: Bytes, cur: nat)
    requires ProducerInv(overflow, fed, kept, src, part, cur)
    ensures ProducerInv(false, fed + [END], kept + [part], src + [cur], [], |Lines(fed)|)
  {
    hide Lines;
    FaithfulGrow(fed, END, kept, src);
    LinesSnoc(fed, END);
    LinesGrow(fed, END, part, cur);
  }

  // ------------------------------------------------------------------ consumer

  /** What the consumer has taken of the current line, and what the ring holds, is what was put. */
  ghost predicate ConsumerInv(kept: seq<Bytes>, part: Bytes, done: nat, raw: Bytes, ring: Bytes)
  {
    done <= |kept| && raw + ring == Join(kept[done..]) + part && END !in raw
  }

  lemma PutByte(kept: seq<Bytes>, part: Bytes, done: nat, raw: Bytes, ring: Bytes, c: Byte)
    requires ConsumerInv(kept, part, done, raw, ring) && c != END
    ensures ConsumerInv(kept, part + [c], done, raw, ring + [c])
  {
    assert raw + (ring + [c]) == (raw + ring) + [c];
    assert Join(kept[done..]) + (part + [c]) == (Join(kept[done..]) + part) + [c];
  }

  lemma PutEnd(kept: seq<Bytes>, part: Bytes, done: nat, raw: Bytes, ring: Bytes)
    requires ConsumerInv(kept, part, done, raw, ring)
    ensures ConsumerInv(kept + [part], [], done, raw, ring + [END])
  {
    hide Join;
    assert (kept + [part])[done..] == kept[done..] + [part];
    JoinSnoc(kept[done..], part);
    assert raw + (ring + [END]) == (raw + ring) + [END];
    assert Join(kept[done..]) + part + [END] == Join((kept + [part])[done..]) + [];
  }

  lemma TakeByte(kept: seq<Bytes>, part: Bytes, done: nat, raw: Bytes, ring: Bytes)
    requires ConsumerInv(kept, part, done, raw, ring) && ring != [] && ring[0] != END
    ensures ConsumerInv(kept, part, done, raw + [ring[0]], ring[1..])
  {
    assert (raw + [ring[0]]) + ring[1..] == raw + ring;
  }

  lemma TakeEnd(kept: seq<Bytes>, part: Bytes, done: nat, raw: Bytes, ring: Bytes)
    requires ConsumerInv(kept, part, done, raw, ring) && ring != [] && ring[0] == END
    requires END !in part && forall i :: 0 <= i < |kept| ==> END !in kept[i]
    ensures done < |kept| && kept[done] == raw
    ensures ConsumerInv(kept, part, done + 1, [], ring[1..])
  {
    var s := raw + ring;
    assert s[|raw|] == END;
    assert kept[|kept|..] == [] && Join([]) + part == part;
    assert done < |kept|;
    var l, rest := kept[done], Join(kept[done + 1..]) + part;
    assert kept[done..][1..] == kept[done + 1..];
    assert s == l + [END] + rest;
    SameFirst(raw, l, ring[1..], rest);
    assert [] + ring[1..] == rest;
  }

  /** The part of a stream before its first END, and the part behind it, are determined. */
  lemma SameFirst(a: Bytes, b: Bytes, x: Bytes, y: Bytes)
    requires a + [END] + x == b + [END] + y && END !in a && END !in b
    ensures a == b && x == y
  {
    var s := a + [END] + x;
    assert s[|a|] == END && s[|b|] == END;
    assert forall i :: 0 <= i < |a| ==> s[i] == a[i];
    assert forall i :: 0 <= i < |b| ==> s[i] == b[i];
    assert |a| == |b|;
    assert s[..|a|] == a && s[..|b|] == b;
    assert s[|a| + 1..] == x && s[|b| + 1..] == y;
  }

  // -------------------------------------------------------------------- driver

  datatype Delivery = Nothing | Line(text: Bytes)

  class Driver {
    const bufsize: nat
    const buf: array<Byte>
    var overflow: bool
    var ring: Bytes
    var ptr: nat

    ghost var fed: Bytes             // input so far, without CR
    ghost var kept: seq<Bytes>       // lines put into the ring
    ghost var src: seq<nat>          // the input line each of them comes from
    ghost var part: Bytes            // what was put of line `cur` since
    ghost var cur: nat
    ghost var raw: Bytes             // what was taken since the last END
    ghost var delivered: seq<Bytes>  // lines broadcast

    ghost predicate Valid()
      reads this, buf
    {
      && 0 < bufsize == buf.Length && |ring| < bufsize && ptr < bufsize
      && ProducerInv(overflow, fed, kept, src, part, cur)
      && (forall i :: 0 <= i < |kept| ==> END !in kept[i])
      && ConsumerInv(kept, part, |delivered|, raw, ring)
      && (forall i :: 0 <= i < |delivered| ==> delivered[i] == Cut(kept[i], bufsize - 1))
      && buf[..ptr] == Cut(raw, bufsize - 1)
    }

    constructor (bufsize: nat)
      requires bufsize > 0
      ensures Valid() && fed == [] && delivered == [] && ring == [] && this.bufsize == bufsize && fresh(buf)
      ensures !overflow && raw == []
    {
      this.bufsize := bufsize;
      buf := new Byte[bufsize](i => 0);
      overflow, ring, ptr := false, [], 0;
      fed, kept, src, part, cur, raw, delivered := [], [], [], [], 0, [], [];
      new;
      assert [] + ring == Join(kept[0..]) + part;
    }

    /** serial_line_input_byte; `room` tells whether ringbuf_put finds room. */
    method InputByte(c: Byte, room: bool) returns (r: int)
      requires Valid() && (room ==> |ring| < bufsize - 1)
      modifies this`overflow, this`ring, this`fed, this`kept, this`src, this`part, this`cur
      ensures Valid()
      ensures c == CR ==> r == 0 && fed == old(fed) && ring == old(ring) && overflow == old(overflow)
      ensures c != CR ==> r == 1 && fed == old(fed) + [c]
      ensures c != CR ==> ring == if room && (!old(overflow) || c == END) then old(ring) + [c] else old(ring)
      ensures c != CR ==> overflow == (if old(overflow) then !(c == END && room) else !room)
    {
      hide Lines; hide Join; hide ProducerInv; hide ConsumerInv;
      if c == CR {
        return 0;
      }
      EndFree(overflow, fed, kept, src, part, cur);
      DoneBound(kept, part, |delivered|, raw, ring);
      if !overflow {
        if room {
          ring := ring + [c];
          if c == END {
            PutEnd(kept, part, |delivered|, raw, old(ring));
            Completed(false, fed, kept, src, part, cur);
            kept, src, part, cur := kept + [part], src + [cur], [], |Lines(fed)|;
          } else {
            PutByte(kept, part, |delivered|, raw, old(ring), c);
            Extended(fed, kept, src, part, cur, c);
            part := part + [c];
          }
        } else {
          overflow := true;
          Dropped(false, fed, kept, src, part, cur, c);
        }
      } else {
        if c == END && room {
          ring := ring + [c];
          overflow := false;
          PutEnd(kept, part, |delivered|, raw, old(ring));
          Completed(true, fed, kept, src, part, cur);
          kept, src, part, cur := kept + [part], src + [cur], [], |Lines(fed)|;
        } else {
          Dropped(true, fed, kept, src, part, cur, c);
        }
      }
      fed := fed + [c];
      return 1;
    }

    /** One turn of the loop of serial_line_process; a line is returned when it is broadcast. */
    method Consume() returns (d: Delivery)
      requires Valid()
      modifies this`ring, this`ptr, this`raw, this`delivered, buf
      ensures Valid() && ring == (if old(ring) == [] then [] else old(ring)[1..])
      ensures delivered == if d.Line? then old(delivered) + [d.text] else old(delivered)
      ensures d.Line? <==> old(ring) != [] && old(ring)[0] == END
      ensures d.Line? ==> raw == [] && d.text <= old(raw)
      ensures d.Line? ==> |d.text| == if |old(raw)| < bufsize then |old(raw)| else bufsize - 1
      // the line lies in the buffer, terminated by a zero
      ensures d.Line? ==> |d.text| < buf.Length && buf[..|d.text|] == d.text && buf[|d.text|] == 0
      ensures !d.Line? ==> raw == if old(ring) == [] then old(raw) else old(raw) + [old(ring)[0]]
    {
      hide Lines; hide Join; hide ProducerInv; hide ConsumerInv;
      if ring == [] {
        return Nothing;
      }
      var c := ring[0];
      ring := ring[1..];
      EndFree(overflow, fed, kept, src, part, cur);
      if c != END {
        TakeByte(kept, part, |delivered|, raw, old(ring));
        ghost var text := buf[..ptr];
        if ptr < bufsize - 1 {
          buf[ptr] := c;
          ptr := ptr + 1;
          assert buf[..ptr] == text + [c];
        }
        raw := raw + [c];
        return Nothing;
      } else {
        TakeEnd(kept, part, |delivered|, raw, old(ring));
        d := Line(buf[..ptr]);
        buf[ptr] := 0;
        delivered := delivered + [d.text];
        raw := [];
        ptr := 0;
      }
    }
  }

  lemma EndFree(overflow: bool, fed: Bytes, kept: seq<Bytes>, src: seq<nat>, part: Bytes, cur: nat)
    requires ProducerInv(overflow, fed, kept, src, part, cur)
    ensures END !in part
  {
  }

  lemma DoneBound(kept: seq<Bytes>, part: Bytes, done: nat, raw: Bytes, ring: Bytes)
    requires ConsumerInv(kept, part, done, raw, ring)
    ensures done <= |kept|
  {
  }

  datatype Move = Arrive(c: Byte, room: bool) | Turn

  function WithoutCr(moves: seq<Move>): (r: Bytes)
  {
    if moves == [] then []
    else
      var r, m := WithoutCr(moves[..|moves| - 1]), moves[|moves| - 1];
      if m.Arrive? && m.c != CR then r + [m.c] else r
  }

  /** What a schedule puts into the ring, takes out of it, and whether the producer is skipping. */
  datatype Flow = Flow(overflow: bool, ring: Bytes, taken: Bytes)

  ghost function FlowStep(bufsize: nat, f: Flow, m: Move): (r: Flow)
  {
    match m
    case Arrive(c, room) =>
      var fits := room && |f.ring| < bufsize - 1;
      if c == CR then f
      else if f.overflow then if c == END && fits then Flow(false, f.ring + [c], f.taken) else f
      else if fits then f.(ring := f.ring + [c])
      else f.(overflow := true)
    case Turn =>
      if f.ring == [] then f else f.(ring := f.ring[1..], taken := f.taken + [f.ring[0]])
  }

  ghost function FlowOf(bufsize: nat, moves: seq<Move>): (r: Flow)
  {
    if moves == [] then Flow(false, [], [])
    else FlowStep(bufsize, FlowOf(bufsize, moves[..|moves| - 1]), moves[|moves| - 1])
  }

  /** Every line taken in full is delivered, whole if it is shorter than the buffer, else cut to bufsize - 1 bytes. */
  ghost predicate Delivers(bufsize: nat, taken: Bytes, lines: seq<Bytes>)
    requires bufsize > 0
  {
    && |Lines(taken)| == |lines| + 1
    && forall i :: 0 <= i < |lines| ==>
         var l := Lines(taken)[i];
         lines[i] <= l && |lines[i]| == if |l| < bufsize then |l| else bufsize - 1
  }

  /** The i-th line is a prefix, shorter than the buffer, of input line src[i]; no input line is used twice. */
  ghost predicate Sourced(bufsize: nat, input: Bytes, lines: seq<Bytes>, src: seq<nat>)
  {
    && |src| == |lines|
    && (forall i :: 0 <= i < |lines| ==>
          |lines[i]| < bufsize && src[i] < |Lines(input)| && lines[i] <= Lines(input)[src[i]])
    && (forall i, j :: 0 <= i < j < |src| ==> src[i] < src[j])
  }

  /** `raw` is the unfinished line. */
  ghost predicate DeliversPart(bufsize: nat, taken: Bytes, lines: seq<Bytes>, raw: Bytes)
    requires bufsize > 0
  {
    Delivers(bufsize, taken, lines) && Lines(taken)[|lines|] == raw
  }

  lemma DeliversStep(bufsize: nat, taken: Bytes, lines: seq<Bytes>, raw: Bytes, c: Byte, text: Bytes)
    requires bufsize > 0 && DeliversPart(bufsize, taken, lines, raw)
    requires text <= raw && |text| == if |raw| < bufsize then |raw| else bufsize - 1
    ensures if c == END then DeliversPart(bufsize, taken + [c], lines + [text], [])
            else DeliversPart(bufsize, taken + [c], lines, raw + [c])
  {
    hide Lines;
    LinesSnoc(taken, c);
  }

  /** When all lines are shorter than the buffer, the lines delivered and what is unfinished are all the bytes taken. */
  lemma ShortLinesWhole(bufsize: nat, taken: Bytes, lines: seq<Bytes>)
    requires bufsize > 0 && Delivers(bufsize, taken, lines)
    requires forall i :: 0 <= i < |lines| ==> |Lines(taken)[i]| < bufsize
    ensures exists rest :: END !in rest && taken == Join(lines) + rest
  {
    hide Lines; hide Join;
    LinesJoin(taken);
    var r := Lines(taken);
    forall i | 0 <= i < |lines|
      ensures lines[i] == r[i]
    {
      assert lines[i] == r[i][..|lines[i]|];
    }
    assert lines == r[..|r| - 1];
    assert END !in r[|r| - 1];
  }

  /** No byte arrives without room for it. */
  ghost predicate Roomy(bufsize: nat, moves: seq<Move>)
  {
    forall n :: 0 <= n < |moves| && moves[n].Arrive? ==>
          moves[n].room && |FlowOf(bufsize, moves[..n]).ring| < bufsize - 1
  }

  /** Without overflow every byte of the input is on its way, in order. */
  lemma {:induction false} NothingDropped(bufsize: nat, moves: seq<Move>)
    requires Roomy(bufsize, moves)
    ensures var f := FlowOf(bufsize, moves); !f.overflow && f.taken + f.ring == WithoutCr(moves)
    decreases |moves|
  {
    if moves != [] {
      var before := moves[..|moves| - 1];
      assert forall n :: 0 <= n < |before| ==> before[..n] == moves[..n];
      NothingDropped(bufsize, before);
      var f := FlowOf(bufsize, before);
      if moves[|moves| - 1].Turn? && f.ring != [] {
        assert (f.taken + [f.ring[0]]) + f.ring[1..] == f.taken + f.ring;
      }
    }
  }

  /**
   Any byte stream under any schedule of arrivals, failing puts and consumer turns: the lines
   delivered are those of the bytes taken, and each is a prefix, at most bufsize - 1 long, of an
   input line, with strictly increasing source lines.  If every byte found room and all have been
   taken, they are the lines of the input.
   */
  method Run(bufsize: nat, moves: seq<Move>) returns (lines: seq<Bytes>)
    requires bufsize > 0
    ensures Delivers(bufsize, FlowOf(bufsize, moves).taken, lines)
    ensures exists src :: Sourced(bufsize, WithoutCr(moves), lines, src)
    ensures Roomy(bufsize, moves) && FlowOf(bufsize, moves).ring == [] ==> Delivers(bufsize, WithoutCr(moves), lines)
  {
    hide Lines; hide Join; hide ProducerInv; hide ConsumerInv; hide Cut; hide DeliversPart; hide Sourced; hide Roomy;
    hide Delivers;
    var d := new Driver(bufsize);
    lines := [];
    ghost var f := Flow(false, [], []);
    DeliversNothing(bufsize);
    for n := 0 to |moves|
      invariant fresh(d) && fresh(d.buf) && d.Valid() && d.bufsize == bufsize
      invariant d.fed == WithoutCr(moves[..n]) && lines == d.delivered
      invariant f == FlowOf(bufsize, moves[..n]) && f.overflow == d.overflow && f.ring == d.ring
      invariant DeliversPart(bufsize, f.taken, lines, d.raw)
    {
      assert moves[..n + 1][..n] == moves[..n];
      ghost var f' := FlowStep(bufsize, f, moves[n]);
      match moves[n] {
      case Arrive(c, room) =>
        var _ := d.InputByte(c, room && |d.ring| < bufsize - 1);
      case Turn =>
        ghost var raw, ring := d.raw, d.ring;
        var r := d.Consume();
        if ring != [] {
          DeliversStep(bufsize, f.taken, lines, raw, ring[0], if r.Line? then r.text else Cut(raw, bufsize - 1));
        }
        if r.Line? {
          lines := lines + [r.text];
        }
      }
      f := f';
    }
    assert moves[..|moves|] == moves;
    DeliversAll(bufsize, f.taken, lines, d.raw);
    Sources(d);
    if Roomy(bufsize, moves) && f.ring == [] {
      NothingDropped(bufsize, moves);
      assert f.taken + [] == f.taken;
    }
  }

  lemma DeliversNothing(bufsize: nat)
    requires bufsize > 0
    ensures DeliversPart(bufsize, [], [], [])
  {
  }

  lemma DeliversAll(bufsize: nat, taken: Bytes, lines: seq<Bytes>, raw: Bytes)
    requires bufsize > 0 && DeliversPart(bufsize, taken, lines, raw)
    ensures Delivers(bufsize, taken, lines)
  {
  }

  lemma Sources(d: Driver)
    requires d.Valid()
    ensures exists src :: Sourced(d.bufsize, d.fed, d.delivered, src)
  {
    hide Lines; hide Join;
    var src := d.src[..|d.delivered|];
    forall i | 0 <= i < |src|
      ensures d.delivered[i] <= Lines(d.fed)[src[i]]
    {
      assert d.delivered[i] <= d.kept[i] <= Lines(d.fed)[d.src[i]];
    }
    assert Sourced(d.bufsize, d.fed, d.delivered, src);
  }
}
