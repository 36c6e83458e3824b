/** Sequences of indices: duplicate-free ones, and ones with elements taken out. */
module Sequences {

  /** Stands for the null pointer among indices and offsets. */
  const NULL: int := -1

  /** All elements are indices below `n`. */
  ghost predicate InRange(items: seq<int>, n: nat)
  {
    forall i :: 0 <= i < |items| ==> 0 <= items[i] < n
  }

  ghost predicate Distinct(s: seq<int>)
  {
    forall i, j :: 0 <= i < j < |s| ==> s[i] != s[j]
  }

  /** `s` without the elements of `gone`, order kept. */
  ghost function Without(s: seq<int>, gone: set<int>): (r: seq<int>)
    ensures |r| <= |s|
    ensures forall x :: x in r <==> x in s && x !in gone
  {
    if s == [] then []
    else
      var r := Without(s[1..], gone);
      assert forall x :: x in s <==> x == s[0] || x in s[1..];
      if s[0] in gone then r else [s[0]] + r
  }

  lemma {:induction false} WithoutConcat(a: seq<int>, b: seq<int>, gone: set<int>)
    ensures Without(a + b, gone) == Without(a, gone) + Without(b, gone)
  {
    if a == [] {
      assert a + b == b;
    } else {
      assert (a + b)[1..] == a[1..] + b;
      WithoutConcat(a[1..], b, gone);
    }
  }

  lemma {:induction false} WithoutNothing(s: seq<int>, gone: set<int>)
    requires forall i :: 0 <= i < |s| ==> s[i] !in gone
    ensures Without(s, gone) == s
  {
    if s != [] {
      assert s[0] !in gone;
      WithoutNothing(s[1..], gone);
      assert s == [s[0]] + s[1..];
    }
  }

  lemma {:induction false} WithoutTwice(s: seq<int>, g1: set<int>, g2: set<int>)
    ensures Without(Without(s, g1), g2) == Without(s, g1 + g2)
  {
    if s != [] {
      WithoutTwice(s[1..], g1, g2);
      if s[0] !in g1 {
        assert Without(s, g1)[1..] == Without(s[1..], g1);
      }
    }
  }

  /** Dropping one element of a duplicate-free list cuts it out. */
  lemma {:induction false} WithoutOne(s: seq<int>, i: nat)
    requires Distinct(s) && i < |s|
    ensures Without(s, {s[i]}) == s[..i] + s[i + 1..]
  {
    if i == 0 {
      WithoutNothing(s[1..], {s[0]});
    } else {
      assert s[0] != s[i];
      WithoutOne(s[1..], i - 1);
      assert s[..i] + s[i + 1..] == [s[0]] + (s[1..][..i - 1] + s[1..][i..]);
    }
  }

  /** `x` occurs in `s` somewhere before an occurrence of `y`. */
  ghost predicate Precedes(s: seq<int>, x: int, y: int)
  {
    exists i, j :: 0 <= i < j < |s| && s[i] == x && s[j] == y
  }

  /** An element at the end comes after all the others. */
  lemma PrecedesLast(s: seq<int>, y: int)
    ensures forall x :: x in s ==> Precedes(s + [y], x, y)
    ensures forall x, z :: Precedes(s, x, z) ==> Precedes(s + [y], x, z)
  {
    forall x | x in s
      ensures Precedes(s + [y], x, y)
    {
      var i :| 0 <= i < |s| && s[i] == x;
      assert (s + [y])[i] == x && (s + [y])[|s|] == y;
    }
    forall x, z | Precedes(s, x, z)
      ensures Precedes(s + [y], x, z)
    {
      var i, j :| 0 <= i < j < |s| && s[i] == x && s[j] == z;
      assert (s + [y])[i] == x && (s + [y])[j] == z;
    }
  }

  /** Taking elements out of a list reorders nothing. */
  lemma {:induction false} PrecedesWithout(s: seq<int>, gone: set<int>, x: int, y: int)
    requires Precedes(Without(s, gone), x, y)
    ensures Precedes(s, x, y)
  {
    var r := Without(s, gone);
    if s[0] in gone {
      PrecedesWithout(s[1..], gone, x, y);
      PrecedesTail(s, x, y);
    } else {
      var i, j :| 0 <= i < j < |r| && r[i] == x && r[j] == y;
      var t := Without(s[1..], gone);
      assert y == t[j - 1] && y in s[1..];
      if i == 0 {
        PrecedesHead(s, y);
      } else {
        assert x == t[i - 1];
        PrecedesWithout(s[1..], gone, x, y);
        PrecedesTail(s, x, y);
      }
    }
  }

  lemma PrecedesHead(s: seq<int>, y: int)
    requires s != [] && y in s[1..]
    ensures Precedes(s, s[0], y)
  {
    var k :| 0 <= k < |s[1..]| && s[1..][k] == y;
    assert s[k + 1] == y;
  }

  lemma PrecedesTail(s: seq<int>, x: int, y: int)
    requires s != [] && Precedes(s[1..], x, y)
    ensures Precedes(s, x, y)
  {
    var i, j :| 0 <= i < j < |s[1..]| && s[1..][i] == x && s[1..][j] == y;
    assert s[i + 1] == x && s[j + 1] == y;
  }

  /** Each element of `s` occurs in `t` before those that follow it in `s`. */
  ghost predicate InOrder(s: seq<int>, t: seq<int>)
  {
    forall i, j :: 0 <= i < j < |s| ==> Precedes(t, s[i], s[j])
  }

  lemma NothingInOrder(t: seq<int>)
    ensures InOrder([], t)
  {
  }

  /** One more element in front of `t`, and perhaps of `s`. */
  lemma InOrderOn(s: seq<int>, t: seq<int>)
    requires t != [] && InOrder(s, t[1..]) && forall x :: x in s ==> x in t[1..]
    ensures InOrder(s, t) && InOrder([t[0]] + s, t)
  {
    hide Precedes;
    var u := [t[0]] + s;
    forall i, j | 0 <= i < j < |s|
      ensures Precedes(t, s[i], s[j])
    {
      PrecedesTail(t, s[i], s[j]);
    }
    forall i, j | 0 <= i < j < |u|
      ensures Precedes(t, u[i], u[j])
    {
      assert u[j] == s[j - 1];
      if i > 0 {
        assert u[i] == s[i - 1];
      } else {
        PrecedesHead(t, u[j]);
      }
    }
  }

  lemma DistinctCut(s: seq<int>, i: nat)
    requires Distinct(s) && i < |s|
    ensures Distinct(s[..i] + s[i + 1..])
  {
  }
}
