/**
 The CRC of os/lib/crc16.c, against a bit-serial division by x^16 + x^12 + x^5 + 1
 that takes each byte from its least significant bit (polynomial 0x8408 reflected).
 */
module Crc16 {

  /** crc16_add, on 16-bit words. */
  function Crc16Add(b: bv8, acc: bv16): (r: bv16)
  {
    Fold(Mix(acc, b))
  }

  /** A byte is added to the low half of the accumulator. */
  function Mix(acc: bv16, b: bv8): (r: bv16)
  {
    acc ^ (b as bv16)
  }

  /** The word-wide part of crc16_add: swap the bytes, then fold the former low byte in. */
  function Fold(a0: bv16): (r: bv16)
  {
    var a1 := (a0 >> 8) | (a0 << 8);
    var a2 := a1 ^ ((a1 & 0xff00) << 4);
    var a3 := a2 ^ ((a2 >> 8) >> 4);
    a3 ^ ((a3 & 0xff00) >> 5)
  }

  /** One bit of the division. */
  function BitStep(acc: bv16): (r: bv16)
  {
    if acc & 1 == 1 then (acc >> 1) ^ 0x8408 else acc >> 1
  }

  function BitSteps(n: nat, acc: bv16): (r: bv16)
  {
    if n == 0 then acc else BitSteps(n - 1, BitStep(acc))
  }

  /** One byte of the division, bit by bit. */
  function ByteSteps(b: bv8, acc: bv16): (r: bv16)
  {
    BitSteps(8, Mix(acc, b))
  }

  /** The remainder of a message, one bit at a time. */
  function Remainder(data: seq<bv8>, acc: bv16): (r: bv16)
  {
    if data == [] then acc
    else ByteSteps(data[|data| - 1], Remainder(data[..|data| - 1], acc))
  }

  lemma ByteIsEightBits(b: bv8, acc: bv16)
    ensures Crc16Add(b, acc) == ByteSteps(b, acc)
  {
    hide Fold; hide BitSteps; hide BitStep; hide Mix;
    var a := Mix(acc, b);
    EightSteps(a);
    Unroll(a);
  }

  lemma Unroll(a: bv16)
    ensures BitSteps(8, a) == BitStep(BitStep(BitStep(BitStep(BitStep(BitStep(BitStep(BitStep(a))))))))
  {
    hide BitStep;
    assert BitSteps(8, a) == BitSteps(7, BitStep(a));
    var a1 := BitStep(a); var a2 := BitStep(a1); var a3 := BitStep(a2); var a4 := BitStep(a3);
    var a5 := BitStep(a4); var a6 := BitStep(a5); var a7 := BitStep(a6);
    assert BitSteps(7, a1) == BitSteps(6, a2);
    assert BitSteps(6, a2) == BitSteps(5, a3);
    assert BitSteps(5, a3) == BitSteps(4, a4);
    assert BitSteps(4, a4) == BitSteps(3, a5);
    assert BitSteps(3, a5) == BitSteps(2, a6);
    assert BitSteps(2, a6) == BitSteps(1, a7);
    assert BitSteps(1, a7) == BitSteps(0, BitStep(a7));
  }

  /** One, two and four bits at a time, without branches. */
  function Two(a: bv16): (r: bv16)
  {
    var n := a & 3;
    (a >> 2) ^ (n << 2) ^ (n << 9) ^ (n << 14)
  }

  function Four(a: bv16): (r: bv16)
  {
    var n := a & 15;
    (a >> 4) ^ n ^ (n << 7) ^ (n << 12)
  }

  function One(a: bv16): (r: bv16)
  {
    var n := a & 1;
    (a >> 1) ^ (n << 3) ^ (n << 10) ^ (n << 15)
  }

  lemma OneStep(a: bv16)
    ensures BitStep(a) == One(a)
  {
    if a & 1 == 1 {
    } else {
      assert a & 1 == 0;
    }
  }

  lemma OneOne(a: bv16)
    ensures One(One(a)) == Two(a)
  {
  }

  lemma TwoSteps(a: bv16)
    ensures BitStep(BitStep(a)) == Two(a)
  {
    hide One; hide Two; hide BitStep;
    OneStep(a);
    OneStep(One(a));
    OneOne(a);
  }

  lemma FourSteps(a: bv16)
    ensures Two(Two(a)) == Four(a)
  {
  }

  lemma FoldFour(a: bv16)
    ensures Four(Four(a)) == Fold(a)
  {
  }

  lemma EightSteps(a: bv16)
    ensures Fold(a) == BitStep(BitStep(BitStep(BitStep(BitStep(BitStep(BitStep(BitStep(a))))))))
  {
    hide Fold; hide Two; hide Four; hide BitStep;
    var b := Two(a);
    var c := Two(b);
    TwoSteps(a);
    TwoSteps(b);
    FourSteps(a);
    TwoSteps(c);
    TwoSteps(Two(c));
    FourSteps(c);
    FoldFour(a);
  }

  /** crc16_data */
  method Crc16Data(data: seq<bv8>, acc0: bv16) returns (acc: bv16)
    ensures acc == Remainder(data, acc0)
  {
    acc := acc0;
    for i := 0 to |data|
      invariant acc == Remainder(data[..i], acc0)
    {
      ByteIsEightBits(data[i], acc);
      acc := Crc16Add(data[i], acc);
      assert data[..i + 1][..i] == data[..i];
    }
    assert data[..|data|] == data;
  }

  lemma {:induction false} RemainderConcat(a: seq<bv8>, b: seq<bv8>, acc: bv16)
    ensures Remainder(a + b, acc) == Remainder(b, Remainder(a, acc))
  {
    hide ByteSteps;
    if b == [] {
      assert a + b == a;
    } else {
      assert (a + b)[..|a + b| - 1] == a + b[..|b| - 1];
      RemainderConcat(a, b[..|b| - 1], acc);
    }
  }

  /** On single bytes and pairs the remainder is what crc16_add gives. */
  lemma RemainderPair(x: bv8, y: bv8, acc: bv16)
    ensures Remainder([x], acc) == Crc16Add(x, acc)
    ensures Remainder([x, y], acc) == Crc16Add(y, Crc16Add(x, acc))
  {
    hide ByteSteps; hide Crc16Add;
    ByteIsEightBits(x, acc);
    ByteIsEightBits(y, Crc16Add(x, acc));
    assert [x][..0] == [];
    assert [x, y][..1] == [x];
  }

  // ------------------------------------------------------------- check value

  lemma RemainderOn(data: seq<bv8>, n: nat, acc: bv16)
    requires n < |data|
    ensures Remainder(data[..n + 1], acc) == Crc16Add(data[n], Remainder(data[..n], acc))
  {
    hide ByteSteps; hide Crc16Add;
    assert data[..n + 1][..n] == data[..n];
    ByteIsEightBits(data[n], Remainder(data[..n], acc));
  }

  /** The check value of this CRC: what the digits 1 to 9 in ASCII give from accumulator 0. */
  lemma CheckValue()
    ensures Remainder([0x31, 0x32, 0x33, 0x34, 0x35, 0x36, 0x37, 0x38, 0x39], 0) == 0x2189
  {
    hide Remainder; hide Crc16Add;
    var s: seq<bv8> := [0x31, 0x32, 0x33, 0x34, 0x35, 0x36, 0x37, 0x38, 0x39];
    RemainderNone(0);
    assert s[..0] == [] && s[..9] == s;
    Digits();
    RemainderOn(s, 0, 0);
    RemainderOn(s, 1, 0);
    RemainderOn(s, 2, 0);
    RemainderOn(s, 3, 0);
    RemainderOn(s, 4, 0);
    RemainderOn(s, 5, 0);
    RemainderOn(s, 6, 0);
    RemainderOn(s, 7, 0);
    RemainderOn(s, 8, 0);
  }

  lemma RemainderNone(acc: bv16)
    ensures Remainder([], acc) == acc
  {
  }

  /** crc16_add for each of the digits. */
  lemma Digits()
    ensures Crc16Add(0x31, 0x0000) == 0x200a
    ensures Crc16Add(0x32, 0x200a) == 0xbdeb
    ensures Crc16Add(0x33, 0xbdeb) == 0x5a78
    ensures Crc16Add(0x34, 0x5a78) == 0x8832
    ensures Crc16Add(0x35, 0x8832) == 0x7437
    ensures Crc16Add(0x36, 0x7437) == 0x11fd
    ensures Crc16Add(0x37, 0x11fd) == 0x6947
    ensures Crc16Add(0x38, 0x6947) == 0x8b19
    ensures Crc16Add(0x39, 0x8b19) == 0x2189
  {
  }

  // ---------------------------------------------------------------- residue

  lemma FoldHigh(a: bv16)
    requires a & 0xff == 0
    ensures Fold(a) == a >> 8
  {
  }

  /** A message followed by its CRC, low byte first, has remainder zero. */
  lemma ResidueZero(data: seq<bv8>, acc: bv16)
    ensures var crc := Remainder(data, acc);
            Remainder(data + [(crc & 0xff) as bv8, (crc >> 8) as bv8], acc) == 0
  {
    hide Crc16Add; hide Remainder;
    var crc := Remainder(data, acc);
    var lo, hi := (crc & 0xff) as bv8, (crc >> 8) as bv8;
    RemainderConcat(data, [lo, hi], acc);
    RemainderPair(lo, hi, crc);
    OwnBytesCancel(crc, lo, hi);
  }

  lemma OwnBytesCancel(crc: bv16, lo: bv8, hi: bv8)
    requires lo == (crc & 0xff) as bv8 && hi == (crc >> 8) as bv8
    ensures Crc16Add(hi, Crc16Add(lo, crc)) == 0
  {
    hide Fold;
    LowCancels(crc, lo, hi);
    FoldHigh(Mix(crc, lo));
    FoldHigh(0);
  }

  lemma LowCancels(crc: bv16, lo: bv8, hi: bv8)
    requires lo == (crc & 0xff) as bv8 && hi == (crc >> 8) as bv8
    ensures (crc ^ (lo as bv16)) & 0xff == 0
    ensures ((crc ^ (lo as bv16)) >> 8) ^ (hi as bv16) == 0
    ensures (0 as bv16) & 0xff == 0
  {
  }

  // ---------------------------------------------------------- error detection

  lemma OneInjective(a: bv16, b: bv16)
    requires One(a) == One(b)
    ensures a == b
  {
  }

  lemma {:induction false} BitStepsInjective(n: nat, a: bv16, b: bv16)
    requires BitSteps(n, a) == BitSteps(n, b)
    ensures a == b
  {
    hide BitStep; hide One;
    if n > 0 {
      BitStepsInjective(n - 1, BitStep(a), BitStep(b));
      OneStep(a);
      OneStep(b);
      OneInjective(a, b);
    }
  }

  lemma MixCancels(a: bv16, b: bv16, x: bv8)
    requires Mix(a, x) == Mix(b, x)
    ensures a == b
  {
  }

  /** Messages with the same bytes keep different accumulators apart. */
  lemma {:induction false} RemainderInjective(data: seq<bv8>, a: bv16, b: bv16)
    requires Remainder(data, a) == Remainder(data, b)
    ensures a == b
  {
    hide ByteSteps;
    if data != [] {
      var init := data[..|data| - 1];
      ByteStepsInjective(data[|data| - 1], Remainder(init, a), Remainder(init, b));
      RemainderInjective(init, a, b);
    }
  }

  lemma ByteStepsInjective(x: bv8, a: bv16, b: bv16)
    requires ByteSteps(x, a) == ByteSteps(x, b)
    ensures a == b
  {
    hide BitSteps; hide Mix;
    BitStepsInjective(8, Mix(a, x), Mix(b, x));
    MixCancels(a, b, x);
  }

  function Diff(a: bv16, b: bv16): (r: bv16)
  {
    a ^ b
  }

  predicate LowOnly(a: bv16)
  {
    a & 0xff00 == 0
  }

  /** A changed byte always reaches the high half of the accumulator. */
  lemma HighByteTells(acc: bv16, x: bv8, y: bv8)
    requires LowOnly(Diff(Crc16Add(x, acc), Crc16Add(y, acc)))
    ensures x == y
  {
    hide Fold; hide Mix; hide Diff; hide LowOnly;
    FoldLinear(Mix(acc, x), Mix(acc, y));
    MixDifference(acc, x, y);
    LowByteTells(x ^ y);
    XorApart(x, y);
  }

  lemma FoldLinear(a: bv16, b: bv16)
    ensures Diff(Fold(a), Fold(b)) == Fold(Diff(a, b))
  {
    hide Fold; hide Four; hide Diff;
    FoldFour(a);
    FoldFour(b);
    FoldFour(Diff(a, b));
    FourLinear(a, b);
    FourLinear(Four(a), Four(b));
  }

  lemma FourLinear(a: bv16, b: bv16)
    ensures Diff(Four(a), Four(b)) == Four(Diff(a, b))
  {
    hide Four; hide Two; hide Diff;
    FourSteps(a);
    FourSteps(b);
    FourSteps(Diff(a, b));
    TwoLinear(a, b);
    TwoLinear(Two(a), Two(b));
  }

  lemma TwoLinear(a: bv16, b: bv16)
    ensures Diff(Two(a), Two(b)) == Two(Diff(a, b))
  {
  }

  lemma MixDifference(acc: bv16, x: bv8, y: bv8)
    ensures Diff(Mix(acc, x), Mix(acc, y)) == (x ^ y) as bv16
  {
  }

  lemma XorApart(x: bv8, y: bv8)
    requires x ^ y == 0
    ensures x == y
  {
  }

  lemma LowByteTells(d: bv8)
    requires LowOnly(Fold(d as bv16))
    ensures d == 0
  {
  }

  lemma MixLow(a: bv16, b: bv16, x: bv8, y: bv8)
    requires Mix(a, x) == Mix(b, y)
    ensures LowOnly(Diff(a, b))
    ensures a == b ==> x == y
  {
  }

  lemma PairsDiffer(acc: bv16, x: bv8, y: bv8, x': bv8, y': bv8)
    requires Crc16Add(y, Crc16Add(x, acc)) == Crc16Add(y', Crc16Add(x', acc))
    ensures x == x' && y == y'
  {
    hide Fold; hide BitSteps; hide Crc16Add; hide Mix; hide Diff; hide LowOnly;
    var a, a' := Crc16Add(x, acc), Crc16Add(x', acc);
    ByteIsEightBits(y, a);
    ByteIsEightBits(y', a');
    BitStepsInjective(8, Mix(a, y), Mix(a', y'));
    MixLow(a, a', y, y');
    HighByteTells(acc, x, x');
  }

  /** Any change confined to two adjacent bytes changes the CRC. */
  lemma AdjacentChangeDetected(pre: seq<bv8>, x: bv8, y: bv8, x': bv8, y': bv8, post: seq<bv8>, acc: bv16)
    requires x != x' || y != y'
    ensures Remainder(pre + [x, y] + post, acc) != Remainder(pre + [x', y'] + post, acc)
  {
    hide Remainder; hide Crc16Add;
    var c := Remainder(pre, acc);
    RemainderConcat(pre + [x, y], post, acc);
    RemainderConcat(pre, [x, y], acc);
    RemainderConcat(pre + [x', y'], post, acc);
    RemainderConcat(pre, [x', y'], acc);
    RemainderPair(x, y, c);
    RemainderPair(x', y', c);
    if Remainder(pre + [x, y] + post, acc) == Remainder(pre + [x', y'] + post, acc) {
      RemainderInjective(post, Remainder([x, y], c), Remainder([x', y'], c));
      PairsDiffer(c, x, y, x', y');
    }
  }
}
