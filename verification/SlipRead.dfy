/**
 What slip_poll_handler of os/dev/slip.c makes of one stored frame: its copying loops stop
 at the size of the caller's buffer, but look one byte late, and at the end of the ring the
 second loop does not know that the first gave up.
 */
module SlipRead {
  import opened Octets
  import opened SlipCode

  /** What a copying loop makes of any bytes, and whether it waits for the second half of an escape pair. */
  datatype Decoded = Decoded(out: Bytes, esc: bool)

  function Decode(s: Bytes): (r: Decoded)
  {
    if s == [] then Decoded([], false)
    else DecodeOne(Decode(s[..|s| - 1]), s[|s| - 1])
  }

  /** One more byte; an escape pair that means nothing vanishes. */
  function DecodeOne(d: Decoded, b: Byte): (r: Decoded)
  {
    if d.esc then Decoded(if b == ESC_ESC then d.out + [ESC] else if b == ESC_END then d.out + [END] else d.out, false)
    else if b == ESC then Decoded(d.out, true)
    else Decoded(d.out + [b], false)
  }

  function Out(s: Bytes): (r: Bytes)
  {
    Decode(s).out
  }

  predicate InEsc(s: Bytes)
  {
    Decode(s).esc
  }

  lemma DecodeSnoc(s: Bytes, b: Byte)
    ensures Decode(s + [b]) == DecodeOne(Decode(s), b)
  {
    assert (s + [b])[..|s|] == s;
  }

  /** What comes out for one more byte, or for an escape pair, in octets; a pair that means nothing gives nothing. */
  lemma PairOut(s: Bytes, b: Byte)
    requires !InEsc(s)
    ensures b != 0xDB ==> Out(s + [b]) == Out(s) + [b] && !InEsc(s + [b])
    ensures !InEsc(s + [0xDB] + [b])
    ensures Out(s + [0xDB] + [b]) == Out(s) + if b == 0xDC then [0xC0] else if b == 0xDD then [0xDB] else []
  {
    hide Decode;
    DecodeSnoc(s, b);
    DecodeSnoc(s, 0xDB);
    DecodeSnoc(s + [0xDB], b);
    assert Out(s) + [] == Out(s);
  }

  lemma {:induction false} OutPrefix(s: Bytes, k: nat)
    requires k <= |s|
    ensures Out(s[..k]) <= Out(s)
    decreases |s| - k
  {
    hide Decode;
    if k == |s| {
      assert s[..k] == s;
    } else {
      assert s[..k + 1] == s[..k] + [s[k]];
      DecodeSnoc(s[..k], s[k]);
      OutPrefix(s, k + 1);
    }
  }

  /** On legal bytes this is un-stuffing. */
  lemma {:induction false} DecodeLegal(s: Bytes)
    requires Legal(s)
    ensures Out(s) == Unstuff(s) && InEsc(s) == Pending(s)
    decreases |s|
  {
    if |s| > 0 {
      var t, b := s[..|s| - 1], s[|s| - 1];
      DecodeLegal(t);
      assert Pending(t) ==> s[|s| - 2] == ESC;
      hide Decode; hide Unstuff;
      assert s == t + [b];
      DecodeSnoc(t, b);
      UnstuffSnoc(t, b);
      hide Legal;
    }
  }

  /** The loop over a first piece of `k` frame bytes gives up: too much has come out before its last byte. */
  predicate GivesUp(frame: Bytes, k: nat, blen: nat)
    requires k <= |frame|
  {
    k > 0 && |Out(frame[..k - 1])| > blen
  }

  /** What a copying loop leaves that runs to the end of `frame`. */
  function LoopOf(frame: Bytes, blen: nat): (r: Bytes)
  {
    if GivesUp(frame, |frame|, blen) then [] else Out(frame)
  }

  /** What a poll returns for a frame of which the first `k` bytes lie before the end of the buffer. */
  function ReadOf(frame: Bytes, k: nat, blen: nat): (r: Bytes)
    requires k <= |frame|
  {
    LoopOf(if GivesUp(frame, k, blen) then frame[k..] else frame, blen)
  }

  /** `o` with `s` written over its start. */
  function Over(o: Bytes, s: Bytes): (r: Bytes)
    requires |s| <= |o|
    ensures |r| == |o|
  {
    s + o[|s|..]
  }

  function Most(s: Bytes, n: nat): (r: Bytes)
  {
    if |s| <= n then s else s[..n]
  }

  lemma MostShort(s: Bytes, n: nat)
    requires |s| < n
    ensures Most(s, n) == s
  {
  }

  /** The caller's buffer after that poll. */
  function OutAfter(o: Bytes, frame: Bytes, k: nat, blen: nat): (r: Bytes)
    requires k <= |frame| && |Most(Out(frame), blen + 1)| <= |o|
    ensures |r| == |o|
  {
    if k > 0 then OutPrefix(frame, k - 1); OutPieces(o, frame, k, blen) else OutPieces(o, frame, k, blen)
  }

  function OutPieces(o: Bytes, frame: Bytes, k: nat, blen: nat): (r: Bytes)
    requires k <= |frame| && |Most(Out(frame), blen + 1)| <= |o|
    requires GivesUp(frame, k, blen) ==> |Out(frame)| > blen
    ensures |r| == |o|
  {
    var out := Over(o, Most(Out(frame), blen + 1));
    if GivesUp(frame, k, blen) then Over(out, Most(Out(frame[k..]), blen + 1)) else out
  }

  /** The result of a copying loop that reaches the end of `frame`, by at least one byte if `moved`. */
  ghost predicate Copied(o: Bytes, frame: Bytes, moved: bool, blen: nat, len: int, esc: bool, out: Bytes)
  {
    if moved && GivesUp(frame, |frame|, blen) then
      blen < |Out(frame)| && blen < |o| && len == 0 && !esc && out == Over(o, Out(frame)[..blen + 1])
    else
      && len == |Out(frame)| <= blen + 1 && len <= |o| && esc == InEsc(frame) && (len > blen ==> !esc)
      && out == Over(o, Out(frame))
  }

  /** A copying loop is at byte `j` of the frame. */
  ghost predicate Reached(o: Bytes, frame: Bytes, j: nat, len: int, esc: bool, out: Bytes)
    requires j <= |frame|
  {
    && len == |Out(frame[..j])| <= |o| && esc == InEsc(frame[..j]) && out == Over(o, Out(frame[..j]))
    && |out| == |o|
  }

  /**
   `len` and the buffer `out` are what reading `frame` gives, when it goes on at the start of the
   ring after `k` bytes.
   */
  ghost predicate IsRead(o: Bytes, frame: Bytes, k: nat, blen: nat, len: int, out: Bytes)
  {
    && k <= |frame| && |Most(Out(frame), blen + 1)| <= |o| && out == OutAfter(o, frame, k, blen)
    && len == |ReadOf(frame, k, blen)| <= |out| && out[..len] == ReadOf(frame, k, blen)
  }

  lemma Start(frame: Bytes)
    ensures frame[..0] == [] && !InEsc([]) && Out([]) == []
  {
  }

  lemma OverPrefix(o: Bytes, s: Bytes)
    requires |s| <= |o| && o[..|s|] == s
    ensures Over(o, s) == o
  {
  }

  lemma OverNext(o: Bytes, s: Bytes, b: Byte)
    requires |s| < |o|
    ensures Over(o, s)[|s| := b] == Over(o, s + [b])
  {
  }

  /** More than `blen` bytes have come out before the byte at `j`. */
  lemma GaveUp(frame: Bytes, j: nat, blen: nat)
    requires j < |frame| && |Out(frame[..j])| == blen + 1
    ensures GivesUp(frame, |frame|, blen)
    ensures |Out(frame)| > blen && Out(frame)[..blen + 1] == Out(frame[..j])
  {
    hide Decode;
    OutPrefix(frame, j);
    var most := frame[..|frame| - 1];
    assert most[..j] == frame[..j];
    OutPrefix(most, j);
  }

  /** While no more than `blen` bytes have come out before its last byte, a loop does not give up. */
  lemma NoGivingUp(frame: Bytes, blen: nat)
    ensures GivesUp(frame, |frame|, blen) <==> frame != [] && |Out(frame[..|frame| - 1])| > blen
  {
    hide Decode;
  }

  /** There is room for the byte at `j`. */
  lemma CopyFits(frame: Bytes, j: nat, blen: nat)
    requires j < |frame| && |Out(frame[..j])| <= blen
    ensures |Out(frame[..j + 1])| <= |Most(Out(frame), blen + 1)|
  {
    hide Decode;
    assert frame[..j + 1] == frame[..j] + [frame[j]];
    DecodeSnoc(frame[..j], frame[j]);
    OutPrefix(frame, j + 1);
  }

  /** What the byte at `j` of a frame adds. */
  lemma CopyByte(frame: Bytes, j: nat)
    requires j < |frame|
    ensures Decode(frame[..j + 1]) == DecodeOne(Decode(frame[..j]), frame[j])
  {
    assert frame[..j + 1] == frame[..j] + [frame[j]];
    DecodeSnoc(frame[..j], frame[j]);
  }

  lemma OverStart(o: Bytes, s: Bytes)
    requires |s| <= |o|
    ensures |Over(o, s)| == |o| && Over(o, s)[..|s|] == s
  {
  }

  /** What comes out of the first part of a frame takes no more room than the whole. */
  lemma PieceFits(frame: Bytes, k: nat, blen: nat)
    requires k <= |frame|
    ensures |Most(Out(frame[..k]), blen + 1)| <= |Most(Out(frame), blen + 1)|
  {
    OutPrefix(frame, k);
    hide Decode;
  }

  /** What the second loop reads: the rest afresh when the first loop gave up, else on to the end of the frame. */
  ghost function Onward(frame: Bytes, k: nat, blen: nat): (r: Bytes)
    requires k <= |frame|
  {
    if GivesUp(frame, k, blen) then frame[k..] else frame
  }

  lemma PieceGivesUp(frame: Bytes, k: nat, blen: nat)
    requires k <= |frame|
    ensures GivesUp(frame[..k], k, blen) == GivesUp(frame, k, blen)
    ensures GivesUp(frame, k, blen) ==> |Out(frame)| > blen
    ensures Out(frame[..k]) <= Out(frame)
  {
    OutPrefix(frame, k);
    if k > 0 {
      assert frame[..k][..k - 1] == frame[..k - 1];
      OutPrefix(frame, k - 1);
    }
    hide Decode;
  }

  /** After the first loop the second finds what it needs. */
  lemma PieceDone(o: Bytes, frame: Bytes, k: nat, blen: nat, len: int, esc: bool, mid: Bytes)
    requires 0 < k <= |frame| && |Most(Out(frame), blen + 1)| <= |o| && Copied(o, frame[..k], true, blen, len, esc, mid)
    ensures var f := Onward(frame, k, blen);
            var j := |f| - (|frame| - k);
            && j >= 0 && f[j..] == frame[k..]
            && esc == InEsc(f[..j]) && len == |Out(f[..j])| <= blen + 1 && (len > blen ==> !esc)
            && len <= |mid| == |o| && mid[..len] == Out(f[..j])
            && |Most(Out(f), blen + 1)| <= |mid|
  {
    PieceGivesUp(frame, k, blen);
    hide Decode; hide Over; hide GivesUp;
    var piece := frame[..k];
    assert |piece| == k;
    if GivesUp(frame, k, blen) {
      Start(frame[k..]);
      assert |mid| == |o| && |Most(Out(frame[k..]), blen + 1)| <= blen + 1;
    } else {
      OverStart(o, Out(piece));
      assert frame[|frame| - (|frame| - k)..] == frame[k..];
    }
  }

  lemma OverOver(o: Bytes, a: Bytes, b: Bytes)
    requires |a| <= |b| <= |o|
    ensures Over(Over(o, a), b) == Over(o, b)
  {
  }

  lemma OnePiece(o: Bytes, frame: Bytes, blen: nat, len: int, esc: bool, out: Bytes)
    requires frame != [] && |Most(Out(frame), blen + 1)| <= |o|
    requires Copied(o, frame, true, blen, len, esc, out)
    ensures IsRead(o, frame, |frame|, blen, len, out)
  {
    Start(frame);
    assert frame[|frame|..] == [];
    PieceGivesUp(frame, |frame|, blen);
    OverStart(o, Most(Out(frame), blen + 1));
    hide Decode; hide Over;
    if GivesUp(frame, |frame|, blen) {
      OverNothing(out);
    }
  }

  lemma OverNothing(o: Bytes)
    ensures Over(o, []) == o
  {
  }

  /** The second loop starts afresh when the first gave up, and else goes on. */
  lemma TwoPieces(o: Bytes, frame: Bytes, k: nat, blen: nat, len1: int, esc1: bool, mid: Bytes, len: int, esc: bool,
                  out: Bytes)
    requires 0 < k <= |frame| && |Most(Out(frame), blen + 1)| <= |o|
    requires Copied(o, frame[..k], true, blen, len1, esc1, mid)
    requires Copied(mid, Onward(frame, k, blen), k < |frame|, blen, len, esc, out)
    ensures IsRead(o, frame, k, blen, len, out)
  {
    FirstLoop(o, frame, k, blen, len1, esc1, mid);
    hide Decode; hide Over; hide GivesUp; hide Most; hide IsRead; hide Copied;
    if GivesUp(frame, k, blen) {
      Afresh(o, frame, k, blen, mid, len, esc, out);
    } else {
      GoesOn(o, frame, k, blen, mid, len, esc, out);
    }
  }

  lemma FirstLoop(o: Bytes, frame: Bytes, k: nat, blen: nat, len: int, esc: bool, mid: Bytes)
    requires 0 < k <= |frame| && Copied(o, frame[..k], true, blen, len, esc, mid)
    ensures GivesUp(frame, k, blen) ==> blen < |Out(frame)| && blen < |o| && mid == Over(o, Out(frame)[..blen + 1])
    ensures !GivesUp(frame, k, blen) ==>
              && |Out(frame[..k])| <= blen + 1 && Out(frame[..k]) <= Out(frame)
              && |Out(frame[..k])| <= |o| && mid == Over(o, Out(frame[..k]))
  {
    PieceGivesUp(frame, k, blen);
    hide Decode; hide Over; hide GivesUp;
    var f := frame[..k];
    assert |f| == k;
    assert blen < |Out(f)| ==> Out(f)[..blen + 1] == Out(frame)[..blen + 1];
  }

  lemma Afresh(o: Bytes, frame: Bytes, k: nat, blen: nat, mid: Bytes, len: int, esc: bool, out: Bytes)
    requires 0 < k <= |frame| && blen < |Out(frame)| && blen < |o| && GivesUp(frame, k, blen)
    requires mid == Over(o, Out(frame)[..blen + 1])
    requires Copied(mid, frame[k..], k < |frame|, blen, len, esc, out)
    ensures IsRead(o, frame, k, blen, len, out)
  {
    var t := frame[k..];
    if k == |frame| {
      Start(t);
      assert t == [];
    }
    hide Decode; hide Over;
    OverStart(mid, Most(Out(t), blen + 1));
    assert Most(Out(frame), blen + 1) == Out(frame)[..blen + 1];
    hide GivesUp;
  }

  lemma GoesOn(o: Bytes, frame: Bytes, k: nat, blen: nat, mid: Bytes, len: int, esc: bool, out: Bytes)
    requires 0 < k <= |frame| && |Most(Out(frame), blen + 1)| <= |o| && !GivesUp(frame, k, blen)
    requires |Out(frame[..k])| <= blen + 1 && Out(frame[..k]) <= Out(frame)
    requires |Out(frame[..k])| <= |o| && mid == Over(o, Out(frame[..k]))
    requires Copied(mid, frame, k < |frame|, blen, len, esc, out)
    ensures IsRead(o, frame, k, blen, len, out)
  {
    assert frame[..|frame|] == frame;
    hide Decode; hide Over;
    OverOver(o, Out(frame[..k]), Most(Out(frame), blen + 1));
    OverStart(o, Most(Out(frame), blen + 1));
  }

  // ------------------------------------------------------- packets that were sent

  /** A packet comes out of its frame, of which the last byte always completes a byte of it. */
  lemma FrameOut(p: Bytes)
    ensures Out(Stuff(p)) == p && !InEsc(Stuff(p))
    ensures p != [] ==> Stuff(p) != [] && |Out(Stuff(p)[..|Stuff(p)| - 1])| == |p| - 1
  {
    StuffLegal(p);
    UnstuffStuff(p);
    DecodeLegal(Stuff(p));
    if p != [] {
      var s := Stuff(p);
      assert s == s[..|s| - 1] + [s[|s| - 1]];
      DecodeSnoc(s[..|s| - 1], s[|s| - 1]);
      assert !Pending(s);
      if InEsc(s[..|s| - 1]) {
        EscapeMeans(s);
      }
    }
    hide Stuff; hide Unstuff; hide Decode;
  }

  /** The second half of an escape pair of legal bytes means something. */
  lemma EscapeMeans(s: Bytes)
    requires Legal(s) && s != [] && InEsc(s[..|s| - 1])
    ensures s[|s| - 1] == ESC_END || s[|s| - 1] == ESC_ESC
  {
    DecodeLegal(s[..|s| - 1]);
    assert s[|s| - 2] == ESC;
  }

  lemma ReadFits(frame: Bytes, k: nat, blen: nat)
    requires k <= |frame| && |Out(frame)| <= blen
    ensures ReadOf(frame, k, blen) == Out(frame)
  {
    if |frame| > 0 {
      OutPrefix(frame, |frame| - 1);
    }
    if k > 0 {
      OutPrefix(frame, k - 1);
    }
    hide Decode;
  }

  /** A frame of which no more comes out than fits is read as it is, wherever the buffer ends. */
  lemma ReadWhole(o: Bytes, frame: Bytes, k: nat, blen: nat, len: int, out: Bytes)
    requires IsRead(o, frame, k, blen, len, out) && |Out(frame)| <= blen
    ensures len == |Out(frame)| <= |out| && out[..len] == Out(frame)
  {
    hide ReadOf;
    ReadFits(frame, k, blen);
  }

  /**
   What becomes of packet `p` of any length.  Up to one byte more than the buffer takes it is handed
   over whole.  A longer one gives nothing, except when the first loop has given up already at the
   end of the ring: then the frame bytes at the start of the ring are taken for a packet, if they fit.
   */
  lemma ReadExact(p: Bytes, k: nat, blen: nat)
    requires p != [] && 0 < k <= |Stuff(p)|
    ensures var frame := Stuff(p);
            ReadOf(frame, k, blen) ==
              if |p| <= blen + 1 then p
              else if |Out(frame[..k - 1])| <= blen then []
              else LoopOf(frame[k..], blen)
  {
    FrameOut(p);
    hide Stuff; hide Decode;
    var frame := Stuff(p);
    var most := frame[..|frame| - 1];
    assert most[..k - 1] == frame[..k - 1];
    OutPrefix(most, k - 1);
  }

  /** The rest of a frame, read by itself, gives all that comes out of it or, when that is too long, nothing. */
  lemma TailRead(p: Bytes, k: nat, blen: nat)
    requires p != [] && k <= |Stuff(p)|
    ensures var t := Stuff(p)[k..]; LoopOf(t, blen) == if |Out(t)| <= blen + 1 then Out(t) else []
  {
    var frame := Stuff(p);
    StuffLegal(p);
    hide Stuff; hide Decode;
    var t := frame[k..];
    Start(t);
    if k < |frame| {
      LastComes(frame, k);
    } else {
      assert t == [];
    }
  }

  /** The last byte of a legal frame completes a byte also of what begins inside it. */
  lemma LastComes(frame: Bytes, k: nat)
    requires Legal(frame) && !Pending(frame) && k < |frame|
    ensures var t := frame[k..]; |Out(t)| == |Out(t[..|t| - 1])| + 1
  {
    var t := frame[k..];
    assert Legal(t) && !Pending(t);
    assert t == t[..|t| - 1] + [t[|t| - 1]];
    DecodeSnoc(t[..|t| - 1], t[|t| - 1]);
    if InEsc(t[..|t| - 1]) {
      EscapeMeans(t);
    }
    hide Decode;
  }

  /** That false packet is the rest of `p`, when the end of the ring cuts no escape pair in two. */
  lemma TailIs(frame: Bytes, k: nat)
    requires k <= |frame| && !InEsc(frame[..k])
    ensures Out(frame) == Out(frame[..k]) + Out(frame[k..])
  {
    hide Decode;
    Joined(frame[..k], frame[k..]);
    assert frame[..k] + frame[k..] == frame;
  }

  /** When it does, the second half of the pair is taken for a byte of its own. */
  lemma TailSplit(frame: Bytes, k: nat)
    requires k < |frame| && InEsc(frame[..k]) && (frame[k] == ESC_END || frame[k] == ESC_ESC)
    ensures Out(frame) == Out(frame[..k]) + [if frame[k] == ESC_END then END else ESC] + Out(frame[k + 1..])
    ensures Out(frame[k..]) == [frame[k]] + Out(frame[k + 1..])
  {
    CopyByte(frame, k);
    hide Decode;
    TailIs(frame, k + 1);
    var tail := frame[k..];
    FirstAlone(tail[0]);
    assert tail[..1] == [tail[0]] && tail[1..] == frame[k + 1..];
    TailIs(tail, 1);
  }

  lemma FirstAlone(b: Byte)
    requires b != ESC
    ensures Out([b]) == [b] && !InEsc([b])
  {
    Start([b]);
    assert [] + [b] == [b];
    DecodeSnoc([], b);
    hide Decode;
  }

  /** Reading goes on afresh behind bytes that leave no escape pair open. */
  lemma {:induction false} Joined(a: Bytes, b: Bytes)
    requires !InEsc(a)
    ensures Out(a + b) == Out(a) + Out(b) && InEsc(a + b) == InEsc(b)
    decreases |b|
  {
    if |b| == 0 {
      assert a + b == a;
      assert Out(b) == [];
    } else {
      var c, x := b[..|b| - 1], b[|b| - 1];
      Joined(a, c);
      assert a + b == (a + c) + [x] && b == c + [x];
      hide Decode;
      DecodeSnoc(a + c, x);
      DecodeSnoc(c, x);
    }
  }

  lemma OverAt(o: Bytes, s: Bytes, i: nat)
    requires |s| <= |o| && i < |o|
    ensures Over(o, s)[i] == if i < |s| then s[i] else o[i]
    ensures |s| <= i + 1 ==> Over(o, s)[i + 1..] == o[i + 1..]
  {
  }

  /** The byte behind the `blen` bytes the caller offers is written exactly when the packet is longer. */
  lemma SlackByte(o: Bytes, p: Bytes, k: nat, blen: nat)
    requires k <= |Stuff(p)| && blen < |o|
    ensures Out(Stuff(p)) == p && |Most(p, blen + 1)| <= |o|
    ensures var frame, out := Stuff(p), OutAfter(o, Stuff(p), k, blen);
            && out[blen + 1..] == o[blen + 1..]
            && out[blen] == (if |p| <= blen then o[blen]
                             else if GivesUp(frame, k, blen) && |Out(frame[k..])| > blen then Out(frame[k..])[blen]
                             else p[blen])
  {
    FrameOut(p);
    PieceGivesUp(Stuff(p), k, blen);
    hide Decode; hide Stuff; hide GivesUp; hide Over;
    var s, t := Most(p, blen + 1), Most(Out(Stuff(p)[k..]), blen + 1);
    OverAt(o, s, blen);
    OverAt(Over(o, s), t, blen);
  }
}
