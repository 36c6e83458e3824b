/**
 SLIP byte stuffing (RFC 1055, section PROTOCOL) as used by os/dev/slip.c and
 tools/tunslip6.c: stuffing, un-stuffing, and framing of several packets.
 Everything here is about sequences of bytes; the ring buffer is in SlipRing.dfy.
 */
module SlipCode {
  import opened Octets

  const END: Byte := 0xC0
  const ESC: Byte := 0xDB
  const ESC_END: Byte := 0xDC
  const ESC_ESC: Byte := 0xDD

  /** How one byte is sent. */
  function Code(b: Byte): (r: Bytes)
  {
    if b == END then [ESC, ESC_END]
    else if b == ESC then [ESC, ESC_ESC]
    else [b]
  }

  function Stuff(p: Bytes): (r: Bytes)
  {
    if p == [] then [] else Stuff(p[..|p| - 1]) + Code(p[|p| - 1])
  }

  /** A stuffed packet, possibly cut short: no END, and ESC only as the start of an escape pair. */
  ghost predicate Legal(s: Bytes)
  {
    && (forall i :: 0 <= i < |s| ==> s[i] != END)
    && (forall i :: 0 <= i < |s| - 1 && s[i] == ESC ==> s[i + 1] == ESC_END || s[i + 1] == ESC_ESC)
  }

  /** The second half of an escape pair is still to come. */
  predicate Pending(s: Bytes)
  {
    s != [] && s[|s| - 1] == ESC
  }

  /** The packet bytes in a legal `s`. */
  function Unstuff(s: Bytes): (r: Bytes)
    ensures |r| <= |s|
  {
    if s == [] then []
    else
      var t, b := s[..|s| - 1], s[|s| - 1];
      if Pending(t) then Unstuff(t) + [if b == ESC_END then END else ESC]
      else if b == ESC then Unstuff(t)
      else Unstuff(t) + [b]
  }

  lemma LegalSnoc(s: Bytes, b: Byte)
    requires Legal(s) && b != END && (Pending(s) ==> b == ESC_END || b == ESC_ESC)
    ensures Legal(s + [b])
  {
  }

  lemma {:induction false} StuffLegal(p: Bytes)
    ensures Legal(Stuff(p)) && !Pending(Stuff(p)) && |p| <= |Stuff(p)|
  {
    hide Legal;
    if p == [] {
      LegalEmpty();
    } else {
      var s, b := Stuff(p[..|p| - 1]), p[|p| - 1];
      StuffLegal(p[..|p| - 1]);
      LegalSnoc(s, Code(b)[0]);
      if |Code(b)| == 2 {
        LegalSnoc(s + [ESC], Code(b)[1]);
        assert s + [ESC] + [Code(b)[1]] == s + Code(b);
      }
    }
  }

  lemma LegalEmpty()
    ensures Legal([])
  {
  }

  lemma UnstuffSnoc(t: Bytes, b: Byte)
    ensures Unstuff(t + [b]) == if Pending(t) then Unstuff(t) + [if b == ESC_END then END else ESC]
                                else if b == ESC then Unstuff(t) else Unstuff(t) + [b]
  {
    assert (t + [b])[..|t|] == t;
  }

  lemma StuffSnoc(q: Bytes, b: Byte)
    ensures Stuff(q + [b]) == Stuff(q) + Code(b)
  {
    hide Code;
    assert (q + [b])[..|q|] == q;
  }

  /** The code of one byte in the octets of RFC 1055. */
  lemma CodeOctets(b: Byte)
    ensures Code(b) == if b == 0xC0 then [0xDB, 0xDC] else if b == 0xDB then [0xDB, 0xDD] else [b]
  {
  }

  lemma {:induction false} StuffPrefix(p: Bytes, n: nat)
    requires n <= |p|
    ensures Stuff(p[..n]) <= Stuff(p)
    decreases |p|
  {
    hide Code;
    if n < |p| {
      var q := p[..|p| - 1];
      assert q[..n] == p[..n];
      StuffPrefix(q, n);
    } else {
      assert p[..n] == p;
    }
  }

  /** The octets sent for byte `i` of a packet, which follow those of the bytes before it. */
  lemma SentOctets(p: Bytes, i: nat)
    requires i < |p|
    ensures var n, n' := |Stuff(p[..i])|, |Stuff(p[..i + 1])|;
            && n <= n' <= |Stuff(p)|
            && Stuff(p)[n..n'] ==
                 if p[i] == 0xC0 then [0xDB, 0xDC] else if p[i] == 0xDB then [0xDB, 0xDD] else [p[i]]
  {
    hide Code; hide Stuff;
    CodeOctets(p[i]);
    assert p[..i + 1] == p[..i] + [p[i]];
    StuffSnoc(p[..i], p[i]);
    StuffPrefix(p, i + 1);
    var s, n, n' := Stuff(p), |Stuff(p[..i])|, |Stuff(p[..i + 1])|;
    assert s[..n'] == Stuff(p[..i]) + Code(p[i]);
    assert s[n..n'] == s[..n'][n..];
  }

  lemma {:induction false} StuffFront(p: Bytes)
    requires p != []
    ensures Stuff(p) == Code(p[0]) + Stuff(p[1..])
  {
    hide Code;
    var q, b := p[..|p| - 1], p[|p| - 1];
    if |p| == 1 {
      assert q == [] && p[1..] == [];
    } else {
      StuffFront(q);
      assert p[1..] == q[1..] + [b];
      StuffSnoc(q[1..], b);
    }
  }

  lemma UnstuffCode(s: Bytes, b: Byte)
    requires !Pending(s)
    ensures Unstuff(s + Code(b)) == Unstuff(s) + [b]
  {
    hide Unstuff;
    if b == END || b == ESC {
      var e := Code(b)[1];
      assert s + Code(b) == (s + [ESC]) + [e];
      UnstuffSnoc(s, ESC);
      UnstuffSnoc(s + [ESC], e);
    } else {
      UnstuffSnoc(s, b);
    }
  }

  lemma NothingStuffed()
    ensures Stuff([]) == [] && Unstuff([]) == []
  {
  }

  /** Un-stuffing inverts stuffing. */
  lemma {:induction false} UnstuffStuff(p: Bytes)
    ensures Unstuff(Stuff(p)) == p
    decreases |p|
  {
    hide Unstuff; hide Legal; hide Code; hide Pending; hide Stuff;
    if |p| == 0 {
      NothingStuffed();
    } else {
      var q, b := p[..|p| - 1], p[|p| - 1];
      UnstuffStuff(q);
      StuffLegal(q);
      UnstuffCode(Stuff(q), b);
      StuffSnoc(q, b);
      assert p == q + [b];
    }
  }

  /** A complete legal string ends in the code of one byte. */
  lemma LastCode(s: Bytes) returns (u: Bytes, b: Byte)
    requires Legal(s) && !Pending(s) && s != []
    ensures Legal(u) && !Pending(u) && s == u + Code(b) && |u| < |s|
  {
    var t, x := s[..|s| - 1], s[|s| - 1];
    if Pending(t) {
      u, b := t[..|t| - 1], if x == ESC_END then END else ESC;
      assert s[|s| - 2] == ESC;
    } else {
      u, b := t, x;
    }
  }

  /** On complete legal strings stuffing inverts un-stuffing: there is no second encoding. */
  lemma {:induction false} StuffUnstuff(s: Bytes)
    requires Legal(s) && !Pending(s)
    ensures Stuff(Unstuff(s)) == s
    decreases |s|
  {
    if s != [] {
      var u, b := LastCode(s);
      StuffUnstuff(u);
      hide Unstuff; hide Legal; hide Pending; hide Code; hide Stuff;
      UnstuffCode(u, b);
      StuffSnoc(Unstuff(u), b);
    }
  }

  /** Host framing: every packet is followed by END, none is preceded by it. */
  function Encode(ps: seq<Bytes>): (r: Bytes)
  {
    if ps == [] then [] else Stuff(ps[0]) + [END] + Encode(ps[1..])
  }

  lemma {:induction false} EncodeAppend(ps: seq<Bytes>, p: Bytes)
    ensures Encode(ps + [p]) == Encode(ps) + Stuff(p) + [END]
  {
    if ps == [] {
      assert ps + [p] == [p];
      assert [p][1..] == [];
    } else {
      assert (ps + [p])[1..] == ps[1..] + [p];
      EncodeAppend(ps[1..], p);
    }
  }

  /** In a buffer of whole packets and a cut-off one, the first END is where the first packet ends. */
  lemma FirstEnd(ps: seq<Bytes>, partial: Bytes)
    requires Legal(partial)
    ensures ps == [] ==> END !in Encode(ps) + partial
    ensures ps != [] ==>
              && |Stuff(ps[0])| < |Encode(ps) + partial|
              && (Encode(ps) + partial)[|Stuff(ps[0])|] == END
              && END !in (Encode(ps) + partial)[..|Stuff(ps[0])|]
  {
    if ps != [] {
      StuffLegal(ps[0]);
      var n := |Stuff(ps[0])|;
      assert (Encode(ps) + partial)[..n] == Stuff(ps[0]);
      assert (Encode(ps) + partial)[n] == END;
    } else {
      assert Encode(ps) + partial == partial;
    }
  }

  /** What is left of a stream when the bytes already seen of its first packet are `partial`. */
  lemma NextByte(ps: seq<Bytes>, partial: Bytes, rest: Bytes)
    requires Legal(partial) && rest != [] && partial + rest == Encode(ps)
    ensures ps != [] && partial + [rest[0]] <= Stuff(ps[0]) + [END]
    ensures rest[0] == END ==> partial == Stuff(ps[0]) && rest[1..] == Encode(ps[1..])
    ensures rest[0] != END ==> Legal(partial + [rest[0]])
  {
    hide Stuff; hide Pending;
    var s := Stuff(ps[0]);
    StuffLegal(ps[0]);
    var e := Encode(ps);
    assert e == s + [END] + Encode(ps[1..]);
    assert e[|s|] == END;
    var n := |partial|;
    assert forall i :: 0 <= i < n ==> e[i] == partial[i];
    assert n <= |s|;
    assert e[n] == rest[0];
    assert forall i :: 0 <= i < |s| ==> e[i] == s[i];
    assert partial + [rest[0]] == e[..n + 1];
    if rest[0] == END {
      assert n == |s|;
      assert partial == e[..n] == s;
      assert rest[1..] == e[n + 1..];
    } else {
      assert partial + [rest[0]] == s[..n + 1];
    }
  }
}
