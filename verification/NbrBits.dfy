/**
 The used and locked maps of os/net/nbr-table.c: one bit per table in a byte.
 */
module NbrBits {

  /** 1 << index, for the index of a table. */
  function Mask(t: nat): (r: bv8)
    requires t < 8
  {
    if t == 0 then 0x01 else if t == 1 then 0x02 else if t == 2 then 0x04 else if t == 3 then 0x08
    else if t == 4 then 0x10 else if t == 5 then 0x20 else if t == 6 then 0x40 else 0x80
  }

  predicate Bit(b: bv8, t: nat)
    requires t < 8
  {
    Meets(b, Mask(t))
  }

  predicate Meets(b: bv8, m: bv8)
  {
    b & m != 0
  }

  function WithBit(b: bv8, t: nat, value: bool): (r: bv8)
    requires t < 8
  {
    Masked(b, Mask(t), value)
  }

  function Masked(b: bv8, m: bv8, value: bool): (r: bv8)
  {
    if value then b | m else b & !m
  }

  lemma WithBitAt(b: bv8, t: nat, value: bool, u: nat)
    requires t < 8 && u < 8
    ensures Bit(WithBit(b, t, value), u) == if u == t then value else Bit(b, u)
  {
    MasksApart(t, u);
    hide Mask; hide Meets; hide Masked;
    if u == t {
      SameBit(b, Mask(t), value);
    } else {
      OtherBit(b, Mask(t), Mask(u), value);
    }
  }

  lemma MasksApart(t: nat, u: nat)
    requires t < 8 && u < 8
    ensures Mask(t) != 0
    ensures t != u ==> !Meets(Mask(t), Mask(u))
  {
  }

  lemma SameBit(b: bv8, m: bv8, value: bool)
    requires m != 0
    ensures Meets(Masked(b, m, value), m) == value
  {
  }

  lemma OtherBit(b: bv8, m: bv8, n: bv8, value: bool)
    requires !Meets(m, n)
    ensures Meets(Masked(b, m, value), n) == Meets(b, n)
  {
  }

  /** A byte is zero exactly when no bit is set. */
  lemma ZeroBits(b: bv8)
    ensures b == 0 <==> forall t :: 0 <= t < 8 ==> !Bit(b, t)
  {
    if b != 0 {
      assert Bit(b, 0) || Bit(b, 1) || Bit(b, 2) || Bit(b, 3) || Bit(b, 4) || Bit(b, 5) || Bit(b, 6) || Bit(b, 7);
    }
  }

  /** Number of bits set among the tables from `t` up. */
  function UsersFrom(b: bv8, t: nat): (r: nat)
    requires t <= 8
    decreases 8 - t
  {
    if t == 8 then 0 else (if Bit(b, t) then 1 else 0) + UsersFrom(b, t + 1)
  }

  /** Number of tables that use a neighbor. */
  function Users(b: bv8): (r: nat)
  {
    UsersFrom(b, 0)
  }

  /** The tables whose bit is set. */
  ghost function BitsFrom(b: bv8, t: nat): (r: set<nat>)
    requires t <= 8
  {
    set u: nat | t <= u < 8 && Bit(b, u)
  }

  /** The number of users is the size of that set. */
  lemma {:induction false} UsersAre(b: bv8, t: nat)
    requires t <= 8
    ensures UsersFrom(b, t) == |BitsFrom(b, t)|
    decreases 8 - t
  {
    hide Bit;
    if t < 8 {
      UsersAre(b, t + 1);
      assert BitsFrom(b, t) == BitsFrom(b, t + 1) + if Bit(b, t) then {t} else {};
    } else {
      assert BitsFrom(b, t) == {};
    }
  }

  lemma ShiftBit(b: bv8, t: nat)
    requires t < 8
    ensures Bit(b >> 1, t) == (t < 7 && Bit(b, t + 1))
  {
  }

  lemma {:induction false} ShiftUsers(b: bv8, t: nat)
    requires t <= 7
    ensures UsersFrom(b >> 1, t) == UsersFrom(b, t + 1)
    decreases 7 - t
  {
    hide Bit;
    ShiftBit(b, t);
    if t == 7 {
      assert UsersFrom(b >> 1, 7) == UsersFrom(b >> 1, 8);
    } else {
      ShiftUsers(b, t + 1);
    }
  }

  lemma HalveSmaller(b: bv8)
    requires b != 0
    ensures b >> 1 < b
    ensures b & 1 == 1 <==> Bit(b, 0)
  {
  }

  lemma ZeroUsers()
    ensures Users(0) == 0
  {
    forall t | 0 <= t < 8
      ensures !Bit(0, t)
    {
      ZeroBits(0);
    }
    NoUsers(0, 0);
  }

  lemma {:induction false} NoUsers(b: bv8, t: nat)
    requires t <= 8 && forall u :: 0 <= u < 8 ==> !Bit(b, u)
    ensures UsersFrom(b, t) == 0
    decreases 8 - t
  {
    if t < 8 {
      NoUsers(b, t + 1);
    }
  }

  /** The counting loop of nbr_table_allocate. */
  method CountUsers(map0: bv8) returns (n: nat)
    ensures n == Users(map0)
  {
    hide Bit; hide UsersFrom;
    var used := map0;
    n := 0;
    while used != 0
      invariant n + Users(used) == Users(map0)
      decreases used
    {
      HalveSmaller(used);
      ShiftUsers(used, 0);
      FirstUser(used);
      if used & 1 == 1 {
        n := n + 1;
      }
      used := used >> 1;
    }
    ZeroUsers();
  }

  lemma FirstUser(b: bv8)
    ensures UsersFrom(b, 0) == (if Bit(b, 0) then 1 else 0) + UsersFrom(b, 1)
  {
  }
}
