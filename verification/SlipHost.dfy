/**
 The other direction of the SLIP link: slip_write of os/dev/slip.c sends, and the
 un-stuffing loop of serial_to_tun in tools/tunslip6.c receives.
 */
module SlipHost {
  import opened Octets
  import opened SlipCode

  /** What the node sends for one packet: an END on either side. */
  function Framed(p: Bytes): (r: Bytes)
  {
    [END] + Stuff(p) + [END]
  }

  function Wire(ps: seq<Bytes>): (r: Bytes)
  {
    if ps == [] then [] else Framed(ps[0]) + Wire(ps[1..])
  }

  /** is_sensible_string: all bytes but the first are printable, NUL, CR, LF or tab. */
  predicate Sensible(p: Bytes)
  {
    forall i :: 1 <= i < |p| ==> Printable(p[i])
  }

  predicate Printable(b: Byte)
  {
    b == 0 || b == 0x0D || b == 0x0A || b == 0x09 || 0x20 <= b <= 0x7E
  }

  /** The packets the host writes to its interface: not empty, no command, no debug line, no text. */
  predicate ToTun(p: Bytes)
  {
    p != [] && p[0] != 0x21 && p[0] != 0x3F && p[0] != 0x0D && !Sensible(p)
  }

  const INBUF: nat := 2000

  /** A buffer that is full is emptied. */
  function Capped(s: Bytes): (r: Bytes)
  {
    if |s| >= INBUF then [] else s
  }

  /** What is left of a packet at its end: all but the part that filled the buffer, once or more often. */
  function Kept(p: Bytes): (r: Bytes)
    ensures |r| < INBUF
  {
    if |p| < INBUF then p else Kept(p[INBUF..])
  }

  /** That is the end of the packet, and whole buffers of 2000 bytes are dropped before it. */
  lemma {:induction false} KeptIs(p: Bytes)
    ensures var r := Kept(p); |r| == |p| % 2000 && r == p[|p| - |r|..]
  {
    if |p| >= INBUF {
      KeptIs(p[INBUF..]);
    }
  }

  /** What the host writes to its interface when the packets `ps` arrive. */
  function ForTun(ps: seq<Bytes>): (r: seq<Bytes>)
  {
    if ps == [] then [] else (if ToTun(Kept(ps[0])) then [Kept(ps[0])] else []) + ForTun(ps[1..])
  }

  /** Which packets go to the interface, in octets. */
  lemma ToTunOctets(p: Bytes)
    ensures ToTun(p) <==>
              && p != [] && p[0] != 0x21 && p[0] != 0x3F && p[0] != 0x0D
              && exists i :: 1 <= i < |p| && (p[i] > 0x7E || (p[i] < 0x20 && p[i] !in [0x00, 0x09, 0x0A, 0x0D]))
  {
  }

  /** An IPv6 packet that the buffer of the host can hold, not all printable behind its first byte. */
  predicate Ipv6(p: Bytes)
  {
    0 < |p| < 2000 && 0x60 <= p[0] <= 0x6F && exists i :: 1 <= i < |p| && p[i] > 0x7E
  }

  /** All such packets reach the interface, unchanged and in order. */
  lemma {:induction false} Ipv6Delivered(ps: seq<Bytes>)
    requires forall i :: 0 <= i < |ps| ==> Ipv6(ps[i])
    ensures ForTun(ps) == ps
  {
    if ps != [] {
      ToTunOctets(ps[0]);
      Ipv6Delivered(ps[1..]);
    }
  }

  /** A line of text, of any length, reaches it never. */
  lemma TextNotDelivered(p: Bytes)
    requires forall i :: 0 <= i < |p| ==> p[i] == 0x0A || 0x20 <= p[i] <= 0x7E
    ensures ForTun([p]) == []
  {
    ToTunOctets(Kept(p));
    KeptIs(p);
    assert [p][1..] == [];
  }

  /** slip_write: the bytes passed to slip_arch_writeb. */
  method NodeWrite(p: Bytes) returns (r: Bytes)
    ensures r == Framed(p)
    ensures r[0] == r[|r| - 1] == 0xC0 && r[1..|r| - 1] == Stuff(p)
  {
    r := [END];
    assert p[..0] == [];
    for i := 0 to |p|
      invariant r == [END] + Stuff(p[..i])
    {
      assert p[..i + 1][..i] == p[..i];
      var c := p[i];
      if c == END {
        r := r + [ESC];
        c := ESC_END;
      } else if c == ESC {
        r := r + [ESC];
        c := ESC_ESC;
      }
      r := r + [c];
    }
    assert p[..|p|] == p;
    r := r + [END];
  }

  /** The byte an escape pair stands for on the host; other second bytes stand for themselves. */
  function Unescape(b: Byte): (r: Byte)
  {
    if b == ESC_END then END
    else if b == ESC_ESC then ESC
    else if b == 0xDE then 0x11      // XON
    else if b == 0xDF then 0x13      // XOFF
    else b
  }

  /** Packets written to the interface, the packet being received, and bytes put back for the next read. */
  datatype Received = Received(packets: seq<Bytes>, inbuf: Bytes, back: Bytes)

  /** The host's loop as a function, `packets` having been delivered already. */
  ghost function Scan(s: Bytes, inbuf: Bytes, packets: seq<Bytes>): (r: Received)
  {
    if s == [] then Received(packets, inbuf, [])
    else if s[0] == END then Scan(s[1..], [], if ToTun(inbuf) then packets + [inbuf] else packets)
    else if s[0] == ESC then
      if |s| == 1 then Received(packets, inbuf, [ESC]) else Scan(s[2..], Capped(inbuf + [Unescape(s[1])]), packets)
    else Scan(s[1..], Capped(inbuf + [s[0]]), packets)
  }

  /** is_sensible_string */
  method IsSensible(p: Bytes) returns (r: bool)
    ensures r == Sensible(p)
  {
    var i := 1;
    while i < |p|
      invariant i >= 1 && forall j :: 1 <= j < i && j < |p| ==> Printable(p[j])
    {
      if p[i] == 0 || p[i] == 0x0D || p[i] == 0x0A || p[i] == 0x09 {
        i := i + 1;
        continue;
      } else if p[i] < 0x20 || 0x7E < p[i] {
        return false;
      }
      i := i + 1;
    }
    return true;
  }

  /** serial_to_tun: read all there is, `s`, `inbuf0` being the static buffer. */
  method HostRead(s: Bytes, inbuf0: Bytes) returns (r: Received)
    ensures r == Scan(s, inbuf0, [])
  {
    hide Sensible;
    var packets, inbuf := [], inbuf0;
    var i := 0;
    assert s[0..] == s;
    while i < |s|
      invariant 0 <= i <= |s|
      invariant Scan(s, inbuf0, []) == Scan(s[i..], inbuf, packets)
    {
      var c := s[i];
      assert s[i..][1..] == s[i + 1..];
      if c == END {
        if |inbuf| > 0 {
          if inbuf[0] == 0x21 {
          } else if inbuf[0] == 0x3F {
          } else if inbuf[0] == 0x0D {
          } else {
            var sensible := IsSensible(inbuf);
            if !sensible {
              packets := packets + [inbuf];
            }
          }
          inbuf := [];
        }
        i := i + 1;
      } else if c == ESC {
        if i + 1 == |s| {
          return Received(packets, inbuf, [ESC]);
        }
        assert s[i..][2..] == s[i + 2..];
        inbuf := inbuf + [Unescape(s[i + 1])];
        i := i + 2;
      } else {
        inbuf := inbuf + [c];
        i := i + 1;
      }
      if |inbuf| >= INBUF {
        inbuf := [];
      }
    }
    r := Received(packets, inbuf, []);
  }

  /** One read after another: each begins with the byte the one before has put back. */
  method HostReads(chunks: seq<Bytes>) returns (r: Received)
    ensures r == Scan(Concat(chunks), [], [])
  {
    hide Scan;
    r := Received([], [], []);
    ScanNothing();
    assert chunks[..0] == [];
    for n := 0 to |chunks|
      invariant r == Scan(Concat(chunks[..n]), [], [])
    {
      var next := HostRead(r.back + chunks[n], r.inbuf);
      ScanSplit(Concat(chunks[..n]), chunks[n], [], []);
      ScanBehind(r.back + chunks[n], r.inbuf, [], r.packets);
      assert chunks[..n + 1][..n] == chunks[..n];
      assert r.packets + [] == r.packets;
      r := Received(r.packets + next.packets, next.inbuf, next.back);
    }
    assert chunks[..|chunks|] == chunks;
  }

  function Concat(chunks: seq<Bytes>): (r: Bytes)
  {
    if chunks == [] then [] else Concat(chunks[..|chunks| - 1]) + chunks[|chunks| - 1]
  }

  lemma ScanNothing()
    ensures Scan(Concat([]), [], []) == Received([], [], [])
  {
  }

  /** Reading in two goes, the second behind what the first has left, is reading in one. */
  lemma {:induction false} ScanSplit(s: Bytes, t: Bytes, inbuf: Bytes, packets: seq<Bytes>)
    ensures var r := Scan(s, inbuf, packets); Scan(s + t, inbuf, packets) == Scan(r.back + t, r.inbuf, r.packets)
    decreases |s|
  {
    hide ToTun;
    if s == [] {
      assert s + t == t && [] + t == t;
    } else if s[0] == END {
      assert (s + t)[1..] == s[1..] + t;
      ScanSplit(s[1..], t, [], if ToTun(inbuf) then packets + [inbuf] else packets);
    } else if s[0] == ESC {
      if |s| == 1 {
        assert s == [ESC];
      } else {
        assert (s + t)[2..] == s[2..] + t;
        ScanSplit(s[2..], t, Capped(inbuf + [Unescape(s[1])]), packets);
      }
    } else {
      assert (s + t)[1..] == s[1..] + t;
      ScanSplit(s[1..], t, Capped(inbuf + [s[0]]), packets);
    }
  }

  /** Packets delivered before stay in front. */
  lemma {:induction false} ScanBehind(s: Bytes, inbuf: Bytes, packets: seq<Bytes>, first: seq<Bytes>)
    ensures var r := Scan(s, inbuf, packets);
            Scan(s, inbuf, first + packets) == Received(first + r.packets, r.inbuf, r.back)
    decreases |s|
  {
    hide ToTun;
    if s == [] {
    } else if s[0] == END {
      assert first + (packets + [inbuf]) == (first + packets) + [inbuf];
      ScanBehind(s[1..], [], if ToTun(inbuf) then packets + [inbuf] else packets, first);
    } else if s[0] == ESC {
      if |s| > 1 {
        ScanBehind(s[2..], Capped(inbuf + [Unescape(s[1])]), packets, first);
      }
    } else {
      ScanBehind(s[1..], Capped(inbuf + [s[0]]), packets, first);
    }
  }

  lemma ScanCode(b: Byte, tail: Bytes, inbuf: Bytes, packets: seq<Bytes>)
    ensures Scan(Code(b) + tail, inbuf, packets) == Scan(tail, Capped(inbuf + [b]), packets)
  {
    hide Capped;
    assert (Code(b) + tail)[|Code(b)|..] == tail;
  }

  /** What an escape pair adds to the buffer, in octets: 0xDE and 0xDF stand for XON and XOFF. */
  lemma PairReceived(b: Byte, tail: Bytes, inbuf: Bytes, packets: seq<Bytes>)
    ensures Scan([0xDB, b] + tail, inbuf, packets) ==
              Scan(tail, Capped(inbuf + [if b == 0xDC then 0xC0 else if b == 0xDD then 0xDB
                                         else if b == 0xDE then 0x11 else if b == 0xDF then 0x13 else b]), packets)
  {
    hide Capped;
    assert ([0xDB, b] + tail)[2..] == tail;
  }

  /** Emptying the buffer byte by byte is dropping whole buffers. */
  lemma KeptMore(inbuf: Bytes, b: Byte, p: Bytes)
    requires |inbuf| < INBUF
    ensures |Capped(inbuf + [b])| < INBUF && Kept(Capped(inbuf + [b]) + p) == Kept(inbuf + [b] + p)
  {
    if |inbuf| + 1 == INBUF {
      assert (inbuf + [b] + p)[INBUF..] == p;
      assert [] + p == p;
    }
  }

  /** Reading a stuffed packet appends it to the buffer, as often as that is not full. */
  lemma {:induction false} ScanStuffed(p: Bytes, tail: Bytes, inbuf: Bytes, packets: seq<Bytes>)
    requires |inbuf| < INBUF
    ensures Scan(Stuff(p) + tail, inbuf, packets) == Scan(tail, Kept(inbuf + p), packets)
    decreases |p|
  {
    hide Scan; hide Code; hide Capped; hide Stuff;
    if |p| == 0 {
      NothingStuffed();
      assert [] + tail == tail;
      assert inbuf + p == inbuf;
    } else {
      StuffFront(p);
      assert Stuff(p) + tail == Code(p[0]) + (Stuff(p[1..]) + tail);
      ScanCode(p[0], Stuff(p[1..]) + tail, inbuf, packets);
      KeptMore(inbuf, p[0], p[1..]);
      hide Kept;
      ScanStuffed(p[1..], tail, Capped(inbuf + [p[0]]), packets);
      assert inbuf + [p[0]] + p[1..] == inbuf + p;
    }
  }

  /** Everything the node sends for the interface is what the host writes there, in order. */
  lemma {:induction false} NodeToHost(ps: seq<Bytes>, packets: seq<Bytes>)
    ensures Scan(Wire(ps), [], packets) == Received(packets + ForTun(ps), [], [])
    decreases |ps|
  {
    hide ToTun; hide Scan; hide Stuff; hide Kept;
    if |ps| == 0 {
      ScanEmpty(packets);
      assert packets + ForTun(ps) == packets;
    } else {
      var rest, p := ps[1..], Kept(ps[0]);
      var more := if ToTun(p) then packets + [p] else packets;
      assert Wire(ps) == [END] + (Stuff(ps[0]) + ([END] + Wire(rest)));
      NothingToTun();
      ScanEnd(Stuff(ps[0]) + ([END] + Wire(rest)), [], packets);
      ScanStuffed(ps[0], [END] + Wire(rest), [], packets);
      assert [] + ps[0] == ps[0];
      ScanEnd(Wire(rest), p, packets);
      NodeToHost(rest, more);
      assert more + ForTun(rest) == packets + ForTun(ps);
    }
  }

  lemma ScanEmpty(packets: seq<Bytes>)
    ensures Scan([], [], packets) == Received(packets, [], [])
  {
  }

  /** An END ends the packet in the buffer. */
  lemma ScanEnd(s: Bytes, inbuf: Bytes, packets: seq<Bytes>)
    ensures Scan([END] + s, inbuf, packets) == Scan(s, [], if ToTun(inbuf) then packets + [inbuf] else packets)
  {
    hide ToTun;
    assert ([END] + s)[1..] == s;
  }

  lemma NothingToTun()
    ensures !ToTun([])
  {
  }

  /** From the node's slip_write to the host's interface, however the wire is cut into reads. */
  method NodeToTun(ps: seq<Bytes>, cuts: seq<nat>) returns (packets: seq<Bytes>)
    ensures packets == ForTun(ps)
    ensures (forall i :: 0 <= i < |ps| ==> Ipv6(ps[i])) ==> packets == ps
  {
    hide Scan; hide ForTun;
    var wire := [];
    assert ps[..0] == [];
    for n := 0 to |ps|
      invariant wire == Wire(ps[..n])
    {
      var sent := NodeWrite(ps[n]);
      assert ps[..n + 1] == ps[..n] + [ps[n]];
      WireSnoc(ps[..n], ps[n]);
      wire := wire + sent;
    }
    assert ps[..|ps|] == ps;
    var chunks := Chunks(wire, cuts);
    var r := HostReads(chunks);
    NodeToHost(ps, []);
    if forall i :: 0 <= i < |ps| ==> Ipv6(ps[i]) {
      Ipv6Delivered(ps);
    }
    packets := r.packets;
    assert [] + ForTun(ps) == ForTun(ps);
  }

  lemma {:induction false} WireSnoc(ps: seq<Bytes>, p: Bytes)
    ensures Wire(ps + [p]) == Wire(ps) + Framed(p)
    decreases |ps|
  {
    hide Framed;
    if ps == [] {
      assert ps + [p] == [p] && [p][1..] == [];
      assert Wire([]) == [];
    } else {
      assert (ps + [p])[1..] == ps[1..] + [p];
      WireSnoc(ps[1..], p);
    }
  }

  /** Cut a stream into reads of the given sizes, and one for the rest. */
  method Chunks(s: Bytes, cuts: seq<nat>) returns (chunks: seq<Bytes>)
    ensures Concat(chunks) == s
  {
    chunks := [];
    var at := 0;
    for n := 0 to |cuts|
      invariant 0 <= at <= |s| && Concat(chunks) == s[..at]
    {
      var next := if at + cuts[n] <= |s| then at + cuts[n] else |s|;
      ConcatSnoc(chunks, s[at..next]);
      assert s[..next] == s[..at] + s[at..next];
      chunks, at := chunks + [s[at..next]], next;
    }
    ConcatSnoc(chunks, s[at..]);
    assert s == s[..at] + s[at..];
    chunks := chunks + [s[at..]];
  }

  lemma ConcatSnoc(chunks: seq<Bytes>, c: Bytes)
    ensures Concat(chunks + [c]) == Concat(chunks) + c
  {
    assert (chunks + [c])[..|chunks|] == chunks;
  }
}
