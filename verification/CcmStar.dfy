/**
 CCM* as in os/lib/ccm-star.c, against sections 2.2 and 2.3 of RFC 3610 (with L = 2).
 AES under the current key is an arbitrary function E on 16-byte blocks.  The lengths
 and positions of the source are 8-bit; positions here wrap at 256 as they do there.
 */
module CcmStar {
  import Octets

  type ByteString = seq<bv8>
  type Block = b: ByteString | |b| == 16 witness seq(16, _ => 0)
  type Nonce = n: ByteString | |n| == 13 witness seq(13, _ => 0)

  // ------------------------------------------------------------ specification

  function Zeros(n: nat): (r: ByteString)
    ensures |r| == n && forall i :: 0 <= i < n ==> r[i] == 0
  {
    seq(n, _ => 0)
  }

  function Xor(x: Block, y: Block): (r: Block)
    ensures forall i :: 0 <= i < 16 ==> r[i] == x[i] ^ y[i]
  {
    seq(16, i requires 0 <= i < 16 => x[i] ^ y[i])
  }

  function Pad(s: ByteString): (r: Block)
    requires |s| <= 16
  {
    s + Zeros(16 - |s|)
  }

  /** Split into 16-byte blocks, the last padded with zeros; no block for the empty string. */
  function Blocks(s: ByteString): (r: seq<Block>)
  {
    if s == [] then []
    else if |s| <= 16 then [Pad(s)]
    else [Pad(s[..16])] + Blocks(s[16..])
  }

  function Flatten(blocks: seq<Block>): (r: ByteString)
  {
    if blocks == [] then [] else blocks[0] + Flatten(blocks[1..])
  }

  /** The blocks are the string followed by the least number of zeros that fills the last one. */
  lemma {:induction false} BlocksPad(s: ByteString)
    ensures 16 * |Blocks(s)| - 16 < |s| <= 16 * |Blocks(s)|
    ensures Flatten(Blocks(s)) == s + Zeros(16 * |Blocks(s)| - |s|)
    decreases |s|
  {
    if s == [] {
    } else if |s| <= 16 {
      assert Blocks(s)[1..] == [];
    } else {
      BlocksPad(s[16..]);
      assert Pad(s[..16]) == s[..16];
      assert Blocks(s)[1..] == Blocks(s[16..]);
      assert s == s[..16] + s[16..];
    }
  }

  /** CBC-MAC from chaining value `x`. */
  function Cbc(E: Block -> Block, x: Block, blocks: seq<Block>): (r: Block)
    decreases |blocks|
  {
    if blocks == [] then x else Cbc(E, E(Xor(x, blocks[0])), blocks[1..])
  }

  /** Flags | Nonce | two-byte big-endian value, here below 256: B_0 and the A_i have this form. */
  function Formatted(flags: bv8, nonce: Nonce, v: bv8): (r: Block)
    ensures r[0] == flags && r[1..14] == nonce && r[14] == 0 && r[15] == v
  {
    [flags] + nonce + [0, v]
  }

  /** The Flags field of B_0: 64 * Adata + 8 * M' + L', where M' = (M - 2) / 2 and L' = 1. */
  function AuthFlags(adata: bool, micLen: nat): (r: nat)
    requires 4 <= micLen <= 16
    ensures r < 128 && r / 64 == (if adata then 1 else 0) && r / 8 % 8 == (micLen - 2) / 2 && r % 8 == 1
  {
    (if adata then 64 else 0) + 8 * ((micLen - 2) / 2) + 1
  }

  /** B_0: the flags, the nonce and the length of the message. */
  function FirstBlock(nonce: Nonce, length: nat, adata: bool, micLen: nat): (r: Block)
    requires length < 256 && 4 <= micLen <= 16
  {
    Formatted(AuthFlags(adata, micLen) as bv8, nonce, length as bv8)
  }

  /** The authenticated data with its length in front. */
  function EncodedA(a: ByteString): (r: ByteString)
    requires |a| < 256
  {
    if a == [] then [] else [0, |a| as bv8] + a
  }

  /** Section 2.2: B_0, then the blocks of the encoded a, then the blocks of m. */
  function AuthBlocks(nonce: Nonce, m: ByteString, a: ByteString, micLen: nat): (r: seq<Block>)
    requires |m| < 256 && |a| < 256 && 4 <= micLen <= 16
  {
    [FirstBlock(nonce, |m|, a != [], micLen)] + Blocks(EncodedA(a)) + Blocks(m)
  }

  /** Key stream block S_i of section 2.3. */
  function KeyBlock(E: Block -> Block, nonce: Nonce, i: nat): (r: Block)
    requires i < 256
  {
    E(Formatted(1, nonce, i as bv8))
  }

  /** U: the CBC-MAC started from zero, masked with S_0, truncated. */
  function Mic(E: Block -> Block, nonce: Nonce, m: ByteString, a: ByteString, micLen: nat): (r: ByteString)
    requires |m| < 256 && |a| < 256 && 4 <= micLen <= 16
  {
    Xor(Cbc(E, Zeros(16), AuthBlocks(nonce, m, a, micLen)), KeyBlock(E, nonce, 0))[..micLen]
  }

  /** Counter mode: byte i is masked with byte i % 16 of S_(1 + i / 16). */
  function Ctr(E: Block -> Block, nonce: Nonce, m: ByteString): (r: ByteString)
    requires |m| <= 240
    ensures |r| == |m|
    ensures forall i :: 0 <= i < |m| ==> r[i] == m[i] ^ KeyBlock(E, nonce, 1 + i / 16)[i % 16]
  {
    seq(|m|, i requires 0 <= i < |m| => m[i] ^ KeyBlock(E, nonce, 1 + i / 16)[i % 16])
  }

  /** Encrypting twice with the same nonce and key is the identity. */
  lemma CtrInvolution(E: Block -> Block, nonce: Nonce, m: ByteString)
    requires |m| <= 240
    ensures Ctr(E, nonce, Ctr(E, nonce, m)) == m
  {
    hide KeyBlock; hide Ctr;
    forall i | 0 <= i < |m|
      ensures Ctr(E, nonce, Ctr(E, nonce, m))[i] == m[i]
    {
      XorTwice(m[i], KeyBlock(E, nonce, 1 + i / 16)[i % 16]);
    }
  }

  lemma XorTwice(x: bv8, k: bv8)
    ensures (x ^ k) ^ k == x
  {
  }

  // --------------------------------------------- what the blocks and the MIC are

  /** Octets of the counter block A_i of section 2.3: flags with L' = 1 alone, nonce, two-byte big-endian i. */
  ghost predicate IsCounterBlock(b: Block, nonce: Nonce, i: nat)
  {
    b[0] == 1 && b[1..14] == nonce && b[14] as nat * 256 + b[15] as nat == i
  }

  /** S_i is the encryption of A_i, and byte i of the message is masked with byte i % 16 of S_(1 + i / 16). */
  lemma CtrOctet(E: Block -> Block, nonce: Nonce, m: ByteString, i: nat, a: Block)
    requires i < |m| <= 240 && IsCounterBlock(a, nonce, 1 + i / 16)
    ensures Ctr(E, nonce, m)[i] == m[i] ^ E(a)[i % 16]
  {
    SameFormat(a, 1, nonce, (1 + i / 16) as bv8);
  }

  lemma SameFormat(b: Block, flags: bv8, nonce: Nonce, v: bv8)
    requires b[0] == flags && b[1..14] == nonce && b[14] == 0 && b[15] == v
    ensures b == Formatted(flags, nonce, v)
  {
    var f := Formatted(flags, nonce, v);
    forall i | 0 <= i < 16
      ensures b[i] == f[i]
    {
      if 1 <= i < 14 {
        assert b[i] == b[1..14][i - 1] && f[i] == f[1..14][i - 1];
      }
    }
  }

  /**
   Octets of B_0 (section 2.2): Adata is bit 6 of the flags, (M - 2) / 2 is in bits 3 to 5 and
   L' = 1 in bits 0 to 2; the nonce and the two-byte big-endian length follow.
   */
  lemma FirstBlockOctets(nonce: Nonce, length: nat, adata: bool, micLen: nat)
    requires length < 256 && 4 <= micLen <= 16
    ensures var b := FirstBlock(nonce, length, adata, micLen);
            && b[0] as nat / 64 == (if adata then 1 else 0) && b[0] as nat / 8 % 8 == (micLen - 2) / 2
            && b[0] as nat % 8 == 1
            && b[1..14] == nonce && b[14] as nat * 256 + b[15] as nat == length
  {
    hide AuthFlags; hide Formatted;
    var f := AuthFlags(adata, micLen);
    Octets.ByteValue(f);
    Octets.ByteValue(length);
    OctetsAre(f as bv8, f, nonce, length as bv8, length);
  }

  lemma OctetsAre(flags: bv8, f: nat, nonce: Nonce, v: bv8, n: nat)
    requires flags as nat == f && v as nat == n
    ensures var b := Formatted(flags, nonce, v);
            b[0] as nat == f && b[1..14] == nonce && b[14] as nat * 256 + b[15] as nat == n
  {
    hide Formatted;
  }

  /** No B_0 is ever a counter block: what E masks with is not what it authenticates. */
  lemma FirstBlockApart(nonce: Nonce, length: nat, adata: bool, micLen: nat, nonce': Nonce, i: nat)
    requires length < 256 && 4 <= micLen <= 16
    ensures !IsCounterBlock(FirstBlock(nonce, length, adata, micLen), nonce', i)
  {
    hide FirstBlock;
    FirstBlockOctets(nonce, length, adata, micLen);
  }

  /** The blocks authenticated determine nonce, message, authenticated data and, but for a bit, the MIC length. */
  lemma AuthBlocksInjective(nonce: Nonce, m: ByteString, a: ByteString, micLen: nat,
                            nonce': Nonce, m': ByteString, a': ByteString, micLen': nat)
    requires |m| < 256 && |a| < 256 && 4 <= micLen <= 16 && |m'| < 256 && |a'| < 256 && 4 <= micLen' <= 16
    requires AuthBlocks(nonce, m, a, micLen) == AuthBlocks(nonce', m', a', micLen')
    ensures nonce == nonce' && m == m' && a == a' && micLen / 2 == micLen' / 2
  {
    hide FirstBlock; hide Blocks; hide EncodedA; hide Flatten;
    assert AuthBlocks(nonce, m, a, micLen)[0] == FirstBlock(nonce, |m|, a != [], micLen);
    assert AuthBlocks(nonce', m', a', micLen')[0] == FirstBlock(nonce', |m'|, a' != [], micLen');
    FirstBlockInjective(nonce, |m|, a != [], micLen, nonce', |m'|, a' != [], micLen');
    var bs := AuthBlocks(nonce, m, a, micLen)[1..];
    var k := |Blocks(m)|;
    BlocksPad(m);
    BlocksPad(m');
    assert bs == Blocks(EncodedA(a)) + Blocks(m) == Blocks(EncodedA(a')) + Blocks(m');
    assert Blocks(m) == bs[|bs| - k..] == Blocks(m');
    assert Blocks(EncodedA(a)) == bs[..|bs| - k] == Blocks(EncodedA(a'));
    BlocksDetermine(m, m');
    EncodedDetermine(a, a');
  }

  lemma FirstBlockInjective(nonce: Nonce, length: nat, adata: bool, micLen: nat,
                            nonce': Nonce, length': nat, adata': bool, micLen': nat)
    requires length < 256 && 4 <= micLen <= 16 && length' < 256 && 4 <= micLen' <= 16
    requires FirstBlock(nonce, length, adata, micLen) == FirstBlock(nonce', length', adata', micLen')
    ensures nonce == nonce' && length == length' && adata == adata' && micLen / 2 == micLen' / 2
  {
    hide FirstBlock;
    FirstBlockOctets(nonce, length, adata, micLen);
    FirstBlockOctets(nonce', length', adata', micLen');
    SameFlags(FirstBlock(nonce, length, adata, micLen)[0] as nat, adata, micLen, adata', micLen');
  }

  lemma SameFlags(f: nat, adata: bool, micLen: nat, adata': bool, micLen': nat)
    requires 4 <= micLen <= 16 && 4 <= micLen' <= 16
    requires f / 64 == (if adata then 1 else 0) && f / 64 == (if adata' then 1 else 0)
    requires f / 8 % 8 == (micLen - 2) / 2 && f / 8 % 8 == (micLen' - 2) / 2
    ensures adata == adata' && micLen / 2 == micLen' / 2
  {
  }

  /** Strings of the same length with the same blocks are equal. */
  lemma BlocksDetermine(s: ByteString, t: ByteString)
    requires |s| == |t| && Blocks(s) == Blocks(t)
    ensures s == t
  {
    hide Blocks; hide Flatten;
    BlocksPad(s);
    BlocksPad(t);
    assert s == Flatten(Blocks(s))[..|s|] && t == Flatten(Blocks(t))[..|t|];
  }

  lemma EncodedDetermine(a: ByteString, b: ByteString)
    requires |a| < 256 && |b| < 256 && (a == [] <==> b == []) && Blocks(EncodedA(a)) == Blocks(EncodedA(b))
    ensures a == b
  {
    hide Blocks; hide Flatten; hide EncodedA;
    if a != [] {
      var e, f := EncodedA(a), EncodedA(b);
      BlocksPad(e);
      BlocksPad(f);
      EncodedOctets(a);
      EncodedOctets(b);
      var flat := Flatten(Blocks(e));
      assert flat[0] == e[0] == f[0] && flat[1] == e[1] == f[1];
      BlocksDetermine(e, f);
    }
  }

  /** Authenticated data has its length in front, in two octets, big-endian. */
  lemma EncodedOctets(a: ByteString)
    requires 0 < |a| < 256
    ensures var e := EncodedA(a);
            |e| == |a| + 2 && e[0] as nat * 256 + e[1] as nat == |a| && e[2..] == a
  {
    Octets.ByteValue(|a|);
    assert EncodedA(a)[1] == |a| as bv8;
  }

  /** The chaining values of section 2.2: X_1 is E(B_0), and X_(i + 1) is E(X_i XOR B_i). */
  ghost predicate IsChain(E: Block -> Block, blocks: seq<Block>, xs: seq<Block>)
  {
    && |xs| == |blocks| > 0 && xs[0] == E(blocks[0])
    && forall i :: 0 < i < |blocks| ==> xs[i] == E(Xor(xs[i - 1], blocks[i]))
  }

  /** The MIC is the last of them, masked with the encryption of A_0, cut to its first bytes. */
  lemma MicIsChain(E: Block -> Block, nonce: Nonce, m: ByteString, a: ByteString, micLen: nat, xs: seq<Block>,
                   a0: Block)
    requires |m| < 256 && |a| < 256 && 4 <= micLen <= 16
    requires IsChain(E, AuthBlocks(nonce, m, a, micLen), xs) && IsCounterBlock(a0, nonce, 0)
    ensures Mic(E, nonce, m, a, micLen) == Xor(xs[|xs| - 1], E(a0))[..micLen]
  {
    var bs := AuthBlocks(nonce, m, a, micLen);
    SameFormat(a0, 1, nonce, 0);
    hide Xor; hide AuthBlocks; hide Formatted;
    XorZeros(bs[0]);
    CbcStep(E, Zeros(16), bs[0], bs[1..]);
    assert bs == [bs[0]] + bs[1..];
    ChainIsCbc(E, bs, xs, 0);
  }

  lemma {:induction false} ChainIsCbc(E: Block -> Block, blocks: seq<Block>, xs: seq<Block>, i: nat)
    requires IsChain(E, blocks, xs) && i < |blocks|
    ensures Cbc(E, xs[i], blocks[i + 1..]) == xs[|xs| - 1]
    decreases |blocks| - i
  {
    hide Xor;
    if i + 1 < |blocks| {
      ChainIsCbc(E, blocks, xs, i + 1);
      CbcStep(E, xs[i], blocks[i + 1], blocks[i + 2..]);
      assert blocks[i + 1..] == [blocks[i + 1]] + blocks[i + 2..];
    }
  }

  lemma XorZeros(b: Block)
    ensures Xor(Zeros(16), b) == b
  {
    forall j | 0 <= j < 16
      ensures Xor(Zeros(16), b)[j] == b[j]
    {
      XorZero(b[j]);
    }
  }

  ghost predicate Injective(E: Block -> Block)
  {
    forall x, y :: E(x) == E(y) ==> x == y
  }

  /** Under a block cipher, a change confined to one block changes the CBC-MAC. */
  lemma OneBlockChanged(E: Block -> Block, x: Block, before: seq<Block>, b: Block, c: Block, after: seq<Block>)
    requires Injective(E) && b != c
    ensures Cbc(E, x, before + [b] + after) != Cbc(E, x, before + [c] + after)
  {
    hide Xor; hide Injective; hide Cbc;
    assert before + [b] + after == before + ([b] + after) && before + [c] + after == before + ([c] + after);
    CbcConcat(E, x, before, [b] + after);
    CbcConcat(E, x, before, [c] + after);
    var y := Cbc(E, x, before);
    CbcStep(E, y, b, after);
    CbcStep(E, y, c, after);
    XorCancel(y, b, c);
    EncryptedApart(E, Xor(y, b), Xor(y, c));
    CbcApart(E, E(Xor(y, b)), E(Xor(y, c)), after);
  }

  lemma {:induction false} CbcApart(E: Block -> Block, x: Block, y: Block, blocks: seq<Block>)
    requires Injective(E) && x != y
    ensures Cbc(E, x, blocks) != Cbc(E, y, blocks)
    decreases |blocks|
  {
    hide Xor; hide Injective;
    if blocks != [] {
      XorCancel(blocks[0], x, y);
      XorSwap(x, blocks[0]);
      XorSwap(y, blocks[0]);
      EncryptedApart(E, Xor(x, blocks[0]), Xor(y, blocks[0]));
      CbcApart(E, E(Xor(x, blocks[0])), E(Xor(y, blocks[0])), blocks[1..]);
    }
  }

  lemma EncryptedApart(E: Block -> Block, x: Block, y: Block)
    requires Injective(E) && x != y
    ensures E(x) != E(y)
  {
  }

  lemma XorSwap(x: Block, y: Block)
    ensures Xor(x, y) == Xor(y, x)
  {
    forall j | 0 <= j < 16
      ensures Xor(x, y)[j] == Xor(y, x)[j]
    {
      XorBits(x[j], y[j], 0);
    }
  }

  lemma XorCancel(y: Block, b: Block, c: Block)
    requires b != c
    ensures Xor(y, b) != Xor(y, c)
  {
    var j :| 0 <= j < 16 && b[j] != c[j];
    XorBits(y[j], b[j], c[j]);
    assert Xor(y, b)[j] != Xor(y, c)[j];
  }

  lemma XorBits(x: bv8, y: bv8, z: bv8)
    ensures x ^ y == y ^ x
    ensures x ^ y == x ^ z ==> y == z
  {
  }

  // ----------------------------------------------------------- implementation

  /** AES_128.encrypt, in place. */
  method Encrypt(E: Block -> Block, x: array<bv8>)
    requires x.Length == 16
    modifies x
    ensures x[..] == E(old(x[..]))
  {
    var y := E(x[..]);
    for i := 0 to 16
      invariant x[..i] == y[..i]
    {
      x[i] := y[i];
    }
  }

  /** set_iv */
  method SetIv(iv: array<bv8>, flags: bv8, nonce: Nonce, counter: bv8)
    requires iv.Length == 16
    modifies iv
    ensures iv[..] == Formatted(flags, nonce, counter)
  {
    iv[0] := flags;
    for i := 0 to 13
      invariant iv[0] == flags && forall j :: 0 <= j < i ==> iv[1 + j] == nonce[j]
    {
      iv[1 + i] := nonce[i];
    }
    iv[14] := 0;
    iv[15] := counter;
  }

  /** The bytes `t` at offset `start` of a block of zeros. */
  ghost function Place(start: nat, t: ByteString): (r: Block)
    requires start + |t| <= 16
  {
    Zeros(start) + t + Zeros(16 - start - |t|)
  }

  /** The bytes of `s` from `pos` on that fit behind offset `start` of a block. */
  ghost function Run(s: ByteString, pos: nat, start: nat): (r: ByteString)
    requires pos <= |s| && start <= 16
    ensures start + |r| <= 16
  {
    if |s| - pos <= 16 - start then s[pos..] else s[pos..pos + 16 - start]
  }

  /** The inner loops of mic: x[i] ^= s[pos + i - start] from i = start to the end of either. */
  method XorRun(x: array<bv8>, start: nat, s: ByteString, pos: nat)
    requires x.Length == 16 && start <= 16 && pos <= |s|
    modifies x
    ensures x[..] == Xor(old(x[..]), Place(start, Run(s, pos, start)))
  {
    hide Xor; hide Place;
    var i := start;
    while pos + i - start < |s| && i < 16
      invariant start <= i <= 16 && pos + i - start <= |s|
      invariant forall j :: start <= j < i ==> x[j] == old(x[j]) ^ s[pos + j - start]
      invariant forall j :: 0 <= j < 16 && !(start <= j < i) ==> x[j] == old(x[j])
    {
      x[i] := x[i] ^ s[pos + i - start];
      i := i + 1;
    }
    ghost var x0 := old(x[..]);
    XorPlaced(x0, x[..], start, Run(s, pos, start));
  }

  lemma XorPlaced(x0: Block, x1: Block, start: nat, t: ByteString)
    requires start + |t| <= 16
    requires forall j :: start <= j < start + |t| ==> x1[j] == x0[j] ^ t[j - start]
    requires forall j :: 0 <= j < 16 && !(start <= j < start + |t|) ==> x1[j] == x0[j]
    ensures x1 == Xor(x0, Place(start, t))
  {
    hide Xor; hide Zeros;
    forall j | 0 <= j < 16
      ensures x1[j] == Xor(x0, Place(start, t))[j]
    {
      XorZero(x0[j]);
    }
  }

  lemma XorZero(x: bv8)
    ensures x ^ 0 == x && 0 ^ x == x
  {
  }

  /** ctr_step: mask the block of `m` at `pos` with S_counter. */
  method CtrStep(E: Block -> Block, nonce: Nonce, pos: nat, m: array<bv8>, counter: nat)
    requires counter < 256
    modifies m
    ensures forall i :: 0 <= i < m.Length ==>
              m[i] == if pos <= i < pos + 16 then old(m[i]) ^ KeyBlock(E, nonce, counter)[i - pos] else old(m[i])
  {
    hide Formatted;
    var a := new bv8[16];
    SetIv(a, 1, nonce, counter as bv8);
    Encrypt(E, a);
    var i := 0;
    while pos + i < m.Length && i < 16
      invariant 0 <= i <= 16
      invariant a[..] == KeyBlock(E, nonce, counter)
      invariant forall j :: 0 <= j < m.Length ==>
                  m[j] == if pos <= j < pos + i then old(m[j]) ^ a[j - pos] else old(m[j])
    {
      m[pos + i] := m[pos + i] ^ a[i];
      i := i + 1;
    }
  }

  // ---------------------------------------------------- 8-bit positions

  /** The value of an 8-bit position that starts at `first` and has advanced `n` times by 16. */
  function Position(first: nat, n: nat): (r: nat)
  {
    (first + 16 * n) % 256
  }

  /** Some position is past the end: the loop `while(pos < len)` stops. */
  ghost predicate Stops(first: nat, len: nat)
  {
    exists n: nat :: Position(first, n) >= len
  }

  /** The loops over m stop exactly for lengths up to 240, the loop over a for lengths up to 254. */
  lemma LoopsStop(len: nat)
    ensures Stops(0, len) <==> len <= 240
    ensures Stops(14, len) <==> len <= 254
  {
    assert Position(0, 15) == 240 && Position(14, 15) == 254;
    forall n: nat
      ensures Position(0, n) <= 240 && Position(14, n) <= 254
    {
      PositionBound(n);
    }
  }

  lemma PositionBound(n: nat)
    ensures Position(0, n) <= 240 && Position(14, n) <= 254
  {
    var q, r := n / 16, n % 16;
    assert 16 * n == 256 * q + 16 * r;
    assert (16 * n) % 256 == 16 * r;
    assert (14 + 16 * n) % 256 == 14 + 16 * r;
  }

  /** ctr: mask all of `m` with S_1, S_2, ... */
  method CtrCrypt(E: Block -> Block, nonce: Nonce, m: array<bv8>)
    requires m.Length <= 240
    modifies m
    ensures m[..] == Ctr(E, nonce, old(m[..]))
  {
    hide KeyBlock; hide Ctr;
    var pos, counter := 0, 1;
    while pos < m.Length
      invariant pos % 16 == 0 && 0 <= pos <= 240 && counter == 1 + pos / 16
      invariant forall i :: 0 <= i < m.Length ==>
                  m[i] == if i < pos then old(m[i]) ^ KeyBlock(E, nonce, 1 + i / 16)[i % 16] else old(m[i])
      decreases m.Length - pos
    {
      CtrStep(E, nonce, pos, m, counter);
      counter := (counter + 1) % 256;
      pos := (pos + 16) % 256;
    }
  }

  // ------------------------------------------------------------------ the MIC

  /** The blocks of s[pos..] begin with the run at `pos`. */
  lemma NextBlock(s: ByteString, pos: nat)
    requires pos < |s|
    ensures Blocks(s[pos..]) == [Place(0, Run(s, pos, 0))] + (if pos + 16 < |s| then Blocks(s[pos + 16..]) else [])
  {
    var u := s[pos..];
    var t := Run(s, pos, 0);
    assert Zeros(0) + t + Zeros(16 - |t|) == t + Zeros(16 - |t|);
    if |u| > 16 {
      assert u[..16] == t;
      assert u[16..] == s[pos + 16..];
    }
  }

  /** The block loops of mic: absorb s[first..] into x. */
  method Absorb(E: Block -> Block, x: array<bv8>, s: ByteString, first: nat)
    requires x.Length == 16 && first < 16 && first <= |s|
    requires |s| <= 240 + first
    modifies x
    ensures x[..] == Cbc(E, old(x[..]), Blocks(s[first..]))
  {
    hide Blocks; hide Xor; hide Place; hide Run;
    NoBlocks();
    assert first == |s| ==> s[first..] == [];
    var pos := first;
    while pos < |s|
      invariant 0 <= pos <= 240 + first && (pos - first) % 16 == 0
      invariant Cbc(E, old(x[..]), Blocks(s[first..])) == Cbc(E, x[..], if pos < |s| then Blocks(s[pos..]) else [])
      decreases |s| - pos
    {
      NextBlock(s, pos);
      CbcStep(E, x[..], Place(0, Run(s, pos, 0)), if pos + 16 < |s| then Blocks(s[pos + 16..]) else []);
      XorRun(x, 0, s, pos);
      pos := (pos + 16) % 256;
      Encrypt(E, x);
    }
  }

  lemma CbcStep(E: Block -> Block, x: Block, b: Block, rest: seq<Block>)
    ensures Cbc(E, x, [b] + rest) == Cbc(E, E(Xor(x, b)), rest)
  {
    assert ([b] + rest)[1..] == rest;
  }

  lemma {:induction false} CbcConcat(E: Block -> Block, x: Block, a: seq<Block>, b: seq<Block>)
    ensures Cbc(E, x, a + b) == Cbc(E, Cbc(E, x, a), b)
    decreases |a|
  {
    if a == [] {
      assert a + b == b;
    } else {
      assert (a + b)[1..] == a[1..] + b;
      CbcConcat(E, E(Xor(x, a[0])), a[1..], b);
    }
  }

  /** The first block of the encoded a: its length, then up to 14 bytes of it. */
  lemma EncodedBlocks(a: ByteString)
    requires 0 < |a| < 256
    ensures Blocks(EncodedA(a)) ==
              [Pad([0, |a| as bv8] + Run(a, 0, 2))] + (if 14 < |a| then Blocks(a[14..]) else [])
  {
    var e := EncodedA(a);
    if |a| > 14 {
      assert e[..16] == [0, |a| as bv8] + a[..14];
      assert e[16..] == a[14..];
    } else {
      assert a[0..] == a;
    }
  }

  lemma HeadXorAt(x: Block, x1: Block, len: bv8, t: ByteString, j: nat)
    requires |t| <= 14 && x1 == x[1 := x[1] ^ len] && j < 16
    ensures x1[j] ^ Place(2, t)[j] == x[j] ^ Pad([0, len] + t)[j]
  {
    var p, q := Place(2, t), Pad([0, len] + t);
    XorZero(x1[j]);
    if j == 1 {
      assert p[1] == 0 && q[1] == len;
    } else if j == 0 {
      assert p[0] == 0 && q[0] == 0;
    } else {
      assert p[j] == if j - 2 < |t| then t[j - 2] else 0;
      assert q[j] == if j - 2 < |t| then t[j - 2] else 0;
    }
  }

  lemma HeadXor(x: Block, x1: Block, len: bv8, t: ByteString)
    requires |t| <= 14 && x1 == x[1 := x[1] ^ len]
    ensures Xor(x1, Place(2, t)) == Xor(x, Pad([0, len] + t))
  {
    hide Xor; hide Place; hide Pad;
    forall j | 0 <= j < 16
      ensures Xor(x1, Place(2, t))[j] == Xor(x, Pad([0, len] + t))[j]
    {
      HeadXorAt(x, x1, len, t, j);
    }
  }

  /** The part of mic for the authenticated data. */
  method AbsorbA(E: Block -> Block, x: array<bv8>, a: ByteString)
    requires x.Length == 16 && |a| <= 254
    modifies x
    ensures x[..] == Cbc(E, old(x[..]), Blocks(EncodedA(a)))
  {
    hide Blocks; hide Xor; hide Pad; hide Place; hide Run; hide EncodedA; hide Cbc;
    NoBlocks();
    ghost var x1 := x[..];
    if |a| == 0 {
      CbcNone(E, x1);
      return;
    }
    ghost var head := Pad([0, |a| as bv8] + Run(a, 0, 2));
    x[1] := x[1] ^ (|a| as bv8);
    HeadXor(x1, x[..], |a| as bv8, Run(a, 0, 2));
    XorRun(x, 2, a, 0);
    Encrypt(E, x);
    EncodedBlocks(a);
    CbcStep(E, x1, head, if 14 < |a| then Blocks(a[14..]) else []);
    CbcNone(E, x[..]);
    if 14 < |a| {
      Absorb(E, x, a, 14);
    }
  }

  /** ctr_step on a whole block with counter 0: mask with S_0. */
  method Mask(E: Block -> Block, nonce: Nonce, x: array<bv8>)
    requires x.Length == 16
    modifies x
    ensures x[..] == Xor(old(x[..]), KeyBlock(E, nonce, 0))
  {
    hide Xor; hide KeyBlock;
    CtrStep(E, nonce, 0, x, 0);
  }

  /** The call of set_iv at the start of mic. */
  method SetFirst(x: array<bv8>, nonce: Nonce, length: nat, adata: bool, micLen: nat)
    requires x.Length == 16 && length < 256 && 4 <= micLen <= 16
    modifies x
    ensures x[..] == FirstBlock(nonce, length, adata, micLen)
  {
    hide AuthFlags;
    SetIv(x, AuthFlags(adata, micLen) as bv8, nonce, length as bv8);
  }

  /** mic: the streaming loops compute U of section 2.3. */
  method ComputeMic(E: Block -> Block, nonce: Nonce, m: ByteString, a: ByteString, micLen: nat)
    returns (result: ByteString)
    requires |m| <= 240 && |a| <= 254 && 4 <= micLen <= 16
    ensures result == Mic(E, nonce, m, a, micLen)
  {
    hide Blocks; hide Xor; hide KeyBlock; hide FirstBlock; hide Cbc; hide EncodedA;
    var x := new bv8[16];
    SetFirst(x, nonce, |m|, |a| != 0, micLen);
    ghost var b0 := x[..];
    Encrypt(E, x);
    ghost var x1 := x[..];
    AbsorbA(E, x, a);
    ghost var y := x[..];
    Absorb(E, x, m, 0);
    assert m[0..] == m;
    ghost var z := x[..];
    Mask(E, nonce, x);
    result := x[..micLen];
    MacChain(E, b0, x1, y, z, Blocks(EncodedA(a)), Blocks(m));
  }

  lemma CbcNone(E: Block -> Block, x: Block)
    ensures Cbc(E, x, []) == x
  {
  }

  lemma NoBlocks()
    ensures EncodedA([]) == [] && Blocks([]) == []
  {
  }

  lemma MacChain(E: Block -> Block, b0: Block, x1: Block, y: Block, z: Block, ba: seq<Block>, bm: seq<Block>)
    requires x1 == E(b0) && y == Cbc(E, x1, ba) && z == Cbc(E, y, bm)
    ensures z == Cbc(E, Zeros(16), [b0] + ba + bm)
  {
    hide Xor; hide Cbc;
    XorZeros(b0);
    assert [b0] + ba + bm == [b0] + (ba + bm);
    CbcStep(E, Zeros(16), b0, ba + bm);
    CbcConcat(E, x1, ba, bm);
  }

  // --------------------------------------------------------------------- aead

  /**
   aead: forward, the MIC is that of the message found in `m`, which is then encrypted;
   backward, `m` is decrypted and the MIC is that of the message found.
   */
  method Aead(E: Block -> Block, nonce: Nonce, m: array<bv8>, a: ByteString, micLen: nat, forward: bool)
    returns (result: ByteString)
    requires m.Length <= 240 && |a| <= 254 && 4 <= micLen <= 16
    modifies m
    ensures m[..] == Ctr(E, nonce, old(m[..]))
    ensures result == Mic(E, nonce, if forward then old(m[..]) else m[..], a, micLen)
  {
    hide Ctr; hide Mic;
    if !forward {
      CtrCrypt(E, nonce, m);
    }
    result := ComputeMic(E, nonce, m[..], a, micLen);
    if forward {
      CtrCrypt(E, nonce, m);
    }
  }

  /** Securing a message and unsecuring it gives back the message and the same MIC. */
  method RoundTrip(E: Block -> Block, nonce: Nonce, m: array<bv8>, a: ByteString, micLen: nat)
    returns (mic: ByteString, mic': ByteString)
    requires m.Length <= 240 && |a| <= 254 && 4 <= micLen <= 16
    modifies m
    ensures m[..] == old(m[..]) && mic' == mic == Mic(E, nonce, m[..], a, micLen)
  {
    hide Ctr; hide Mic;
    mic := Aead(E, nonce, m, a, micLen, true);
    CtrInvolution(E, nonce, old(m[..]));
    mic' := Aead(E, nonce, m, a, micLen, false);
  }
}
