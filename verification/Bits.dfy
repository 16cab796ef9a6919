/** Bitwise operators on non-negative integers, bit by bit, and their arithmetic. */
module Bits {
  function Pow2(k: nat): (p: nat)
    ensures p > 0
  {
    if k == 0 then 1 else 2 * Pow2(k - 1)
  }

  function And(x: nat, y: nat): nat {
    if x == 0 || y == 0 then 0 else 2 * And(x / 2, y / 2) + (if x % 2 == 1 && y % 2 == 1 then 1 else 0)
  }

  function Or(x: nat, y: nat): nat {
    if x == 0 then y else if y == 0 then x else 2 * Or(x / 2, y / 2) + (if x % 2 == 1 || y % 2 == 1 then 1 else 0)
  }

  lemma AndOdd(x: nat, p: nat)
    requires p > 0
    ensures And(x, 2 * p - 1) == 2 * And(x / 2, p - 1) + x % 2
  {
    var y := 2 * p - 1;
    assert y / 2 == p - 1 && y % 2 == 1;
  }

  lemma Multiples(d: nat, e: int)
    ensures e >= 1 ==> d * e >= d
    ensures e <= -1 ==> d * e <= 0 - d
  {
  }

  lemma RemainderIs(x: int, d: nat, q: int, r: nat)
    requires d > 0 && r < d && x == d * q + r
    ensures x % d == r && x / d == q
  {
    var e := x / d - q;
    assert d * e == r - x % d;
    Multiples(d, e);
  }

  lemma HalveRemainder(x: nat, p: nat)
    requires p > 0
    ensures x % (2 * p) == 2 * (x / 2 % p) + x % 2
  {
    var h := x / 2;
    var q, r := h / p, h % p;
    assert x == 2 * h + x % 2 && h == p * q + r;
    assert x == (2 * p) * q + (2 * r + x % 2);
    RemainderIs(x, 2 * p, q, 2 * r + x % 2);
  }

  /** A mask of k low ones is a remainder. */
  lemma {:induction false} AndMask(x: nat, k: nat)
    ensures And(x, Pow2(k) - 1) == x % Pow2(k)
  {
    if k == 0 {
      assert Pow2(k) == 1;
    } else if x == 0 {
      assert 0 % Pow2(k) == 0;
    } else {
      var p, q := Pow2(k - 1), Pow2(k);
      assert q == 2 * p;
      AndMask(x / 2, k - 1);
      HalveRemainder(x, p);
      AndOdd(x, p);
    }
  }

  function Shl(x: nat, k: nat): nat {
    if k == 0 then x else 2 * Shl(x, k - 1)
  }

  lemma {:induction false} ShlIsProduct(x: nat, k: nat)
    ensures Shl(x, k) == x * Pow2(k)
  {
    if k > 0 {
      ShlIsProduct(x, k - 1);
      assert 2 * (x * Pow2(k - 1)) == x * (2 * Pow2(k - 1));
    }
  }

  lemma {:induction false} OrCommutes(x: nat, y: nat)
    ensures Or(x, y) == Or(y, x)
  {
    if x > 0 && y > 0 { OrCommutes(x / 2, y / 2); }
  }

  lemma OrEven(x: nat, b: nat)
    ensures Or(2 * x, b) == 2 * Or(x, b / 2) + b % 2
  {
  }

  /** Joining a field above position k with one below it is addition. */
  lemma {:induction false} OrDisjoint(a: nat, b: nat, k: nat)
    requires b < Pow2(k)
    ensures Or(Shl(a, k), b) == Or(b, Shl(a, k)) == Shl(a, k) + b
  {
    if k > 0 {
      OrDisjoint(a, b / 2, k - 1);
      OrEven(Shl(a, k - 1), b);
    }
    OrCommutes(Shl(a, k), b);
  }

  lemma Powers(a: nat)
    ensures Pow2(4) == 16 && Pow2(5) == 32 && Pow2(6) == 64 && Pow2(12) == 4096
    ensures Shl(a, 5) == 32 * a && Shl(a, 6) == 64 * a && Shl(a, 12) == 4096 * a
  {
    assert Pow2(4) == 16 && Pow2(8) == 16 * Pow2(4) && Pow2(12) == 16 * Pow2(8);
    assert Shl(a, 0) == a && Shl(a, 1) == 2 * a && Shl(a, 2) == 4 * a && Shl(a, 3) == 8 * a && Shl(a, 4) == 16 * a;
    assert Shl(a, 5) == 32 * a && Shl(a, 6) == 64 * a && Shl(a, 7) == 128 * a && Shl(a, 8) == 256 * a;
    assert Shl(a, 9) == 512 * a && Shl(a, 10) == 1024 * a && Shl(a, 11) == 2048 * a;
  }

  /** The masks and joins of the codecs. */
  lemma Masks(x: nat)
    ensures And(x, 15) == x % 16 && And(x, 31) == x % 32 && And(x, 63) == x % 64
  {
    Powers(0);
    AndMask(x, 4);
    AndMask(x, 5);
    AndMask(x, 6);
  }

  lemma Marks(x: nat)
    ensures x < 64 ==> Or(x, 128) == 128 + x
    ensures x < 32 ==> Or(x, 192) == 192 + x
    ensures x < 32 ==> Or(x, 224) == 224 + x
  {
    Powers(2); Powers(6); Powers(7);
    if x < 64 { OrDisjoint(2, x, 6); }
    if x < 32 { OrDisjoint(6, x, 5); OrDisjoint(7, x, 5); }
  }

  lemma Joins(a: nat, b: nat)
    ensures b < 64 ==> Or(a * 64, b) == a * 64 + b
    ensures b < 4096 ==> Or(a * 4096, b) == a * 4096 + b
  {
    Powers(a);
    if b < 64 { OrDisjoint(a, b, 6); }
    if b < 4096 { OrDisjoint(a, b, 12); }
  }
}
