/**
 The bit operations of C on unsigned numbers, digit by binary digit, and what the
 masks and shifts of the transcoding come to.
 */
module Bits {

  function BothOdd(x: nat, y: nat): nat { if x % 2 == 1 && y % 2 == 1 then 1 else 0 }

  function AnyOdd(x: nat, y: nat): nat { if x % 2 == 1 || y % 2 == 1 then 1 else 0 }

  function And(x: nat, y: nat): nat { if x == 0 || y == 0 then 0 else BothOdd(x, y) + 2 * And(x / 2, y / 2) }

  function Or(x: nat, y: nat): nat
    decreases x + y
  {
    if x == 0 && y == 0 then 0 else AnyOdd(x, y) + 2 * Or(x / 2, y / 2)
  }

  function Pow2(k: nat): (r: nat)
    ensures r > 0
  {
    if k == 0 then 1 else 2 * Pow2(k - 1)
  }

  lemma AndStep(x: nat, y: nat)
    ensures And(x, y) == BothOdd(x, y) + 2 * And(x / 2, y / 2)
  {
  }

  lemma OrStep(x: nat, y: nat)
    ensures Or(x, y) == AnyOdd(x, y) + 2 * Or(x / 2, y / 2)
  {
  }

  /** A number given by its bits from k on and those below. */
  function Joined(a: nat, b: nat, k: nat): nat { a * Pow2(k) + b }

  lemma JoinedHalf(a: nat, b: nat, k: nat)
    requires k > 0 && b < Pow2(k)
    ensures Joined(a, b, k) % 2 == b % 2 && Joined(a, b, k) / 2 == Joined(a, b / 2, k - 1) && b / 2 < Pow2(k - 1)
  {
    assert a * Pow2(k) == 2 * (a * Pow2(k - 1));
  }

  lemma JoinedDouble(a: nat, b: nat, k: nat, bit: nat)
    requires k > 0
    ensures bit + 2 * Joined(a, b, k - 1) == Joined(a, bit + 2 * b, k)
  {
    assert a * Pow2(k) == 2 * (a * Pow2(k - 1));
  }

  lemma SameParity(x: nat, y: nat, b: nat, d: nat)
    requires x % 2 == b % 2 && y % 2 == d % 2
    ensures BothOdd(x, y) == BothOdd(b, d) && AnyOdd(x, y) == AnyOdd(b, d)
  {
  }

  lemma JoinedAtZero(a: nat, b: nat)
    requires b < Pow2(0)
    ensures Joined(a, b, 0) == a && b == 0
  {
  }

  lemma NothingAnd()
    ensures And(0, 0) == 0 && Or(0, 0) == 0 && forall a: nat :: Joined(a, 0, 0) == a
  {
  }

  /** Both operations work on the bits from k on and on those below separately. */
  lemma {:induction false} AndParts(a: nat, b: nat, c: nat, d: nat, k: nat)
    requires b < Pow2(k) && d < Pow2(k)
    ensures And(Joined(a, b, k), Joined(c, d, k)) == Joined(And(a, c), And(b, d), k)
  {
    hide *;
    if k == 0 {
      JoinedAtZero(a, b);
      JoinedAtZero(c, d);
      NothingAnd();
    } else {
      JoinedHalf(a, b, k);
      JoinedHalf(c, d, k);
      AndParts(a, b / 2, c, d / 2, k - 1);
      AndStep(Joined(a, b, k), Joined(c, d, k));
      AndStep(b, d);
      SameParity(Joined(a, b, k), Joined(c, d, k), b, d);
      JoinedDouble(And(a, c), And(b / 2, d / 2), k, BothOdd(b, d));
    }
  }

  lemma {:induction false} OrParts(a: nat, b: nat, c: nat, d: nat, k: nat)
    requires b < Pow2(k) && d < Pow2(k)
    ensures Or(Joined(a, b, k), Joined(c, d, k)) == Joined(Or(a, c), Or(b, d), k)
  {
    hide *;
    if k == 0 {
      JoinedAtZero(a, b);
      JoinedAtZero(c, d);
      NothingAnd();
    } else {
      JoinedHalf(a, b, k);
      JoinedHalf(c, d, k);
      OrParts(a, b / 2, c, d / 2, k - 1);
      OrStep(Joined(a, b, k), Joined(c, d, k));
      OrStep(b, d);
      SameParity(Joined(a, b, k), Joined(c, d, k), b, d);
      JoinedDouble(Or(a, c), Or(b / 2, d / 2), k, AnyOdd(b, d));
    }
  }

  lemma {:induction false} OrZero(x: nat)
    ensures Or(x, 0) == x && Or(0, x) == x
  {
    if x > 0 {
      OrZero(x / 2);
    }
  }

  /** k ones. */
  function Ones(k: nat): nat { Pow2(k) - 1 }

  lemma OnesStep(k: nat)
    requires k > 0
    ensures Ones(k) % 2 == 1 && Ones(k) / 2 == Ones(k - 1) && Pow2(k) == 2 * Pow2(k - 1)
  {
    Doubles(k);
    hide Pow2;
    Halve(Pow2(k - 1));
  }

  lemma Doubles(k: nat)
    requires k > 0
    ensures Pow2(k) == 2 * Pow2(k - 1) && Pow2(k - 1) > 0
  {
  }

  lemma Halve(p: nat)
    requires p > 0
    ensures (2 * p - 1) % 2 == 1 && (2 * p - 1) / 2 == p - 1
  {
  }

  lemma OddMask(x: nat, y: nat)
    requires y % 2 == 1
    ensures BothOdd(x, y) == x % 2
  {
  }

  lemma NoOnes(x: nat)
    ensures And(x, Ones(0)) == 0 && x % Pow2(0) == 0
  {
  }

  /** A mask of k ones keeps the low k bits. */
  lemma {:induction false} Mask(x: nat, k: nat)
    ensures And(x, Ones(k)) == x % Pow2(k)
    decreases k
  {
    hide *;
    if k == 0 {
      NoOnes(x);
    } else {
      Mask(x / 2, k - 1);
      OnesStep(k);
      AndStep(x, Ones(k));
      OddMask(x, Ones(k));
      HalfModulo(x, Pow2(k - 1));
    }
  }

  lemma HalfModulo(x: nat, p: nat)
    requires p > 0
    ensures x % (2 * p) == x % 2 + 2 * (x / 2 % p)
  {
    var q := x / 2 / p;
    var r := x % 2 + 2 * (x / 2 % p);
    assert x / 2 == p * q + x / 2 % p;
    assert x == 2 * p * q + r;
    ModIs(x, 2 * p, q, r);
  }

  /** Quotient and remainder are unique. */
  lemma ModIs(v: int, p: nat, q: int, r: nat)
    requires p > 0 && v == p * q + r && r < p
    ensures v % p == r && v / p == q
  {
    var d := v / p - q;
    assert p * (v / p) + v % p == v;
    assert p * d == r - v % p;
    Multiples(p, d);
  }

  lemma Multiples(p: nat, d: int)
    ensures d >= 1 ==> p * d >= p
    ensures d <= -1 ==> p * d + p <= 0
  {
    if d >= 1 {
      assert p * (d - 1) >= 0;
    } else {
      assert p * -d >= 0;
    }
  }

  lemma Powers()
    ensures Pow2(2) == 4 && Pow2(4) == 16 && Pow2(5) == 32 && Pow2(6) == 64 && Pow2(10) == 1024
  {
    assert Pow2(2) == 4;
    assert Pow2(4) == 16;
    assert Pow2(6) == 64;
    assert Pow2(8) == 256;
  }

  lemma OrTwo(v: nat)
    ensures Or(v, 2) / 2 % 2 == 1
  {
    OrStep(v, 2);
    OrStep(v / 2, 1);
    hide Or;
    assert Or(v, 2) / 2 == Or(v / 2, 1);
  }

  lemma OddOr(x: nat, y: nat)
    requires y % 2 == 1
    ensures AnyOdd(x, y) == 1
  {
  }

  lemma NoBits(w: nat)
    requires w < Pow2(0)
    ensures Or(w, Ones(0)) == Ones(0) == 0
  {
  }

  /** Ones below k absorb any number of k bits. */
  lemma {:induction false} OrOnes(w: nat, k: nat)
    requires w < Pow2(k)
    ensures Or(w, Ones(k)) == Ones(k)
    decreases k
  {
    hide *;
    if k == 0 {
      NoBits(w);
    } else {
      OnesStep(k);
      OrOnes(w / 2, k - 1);
      OrStep(w, Ones(k));
      OddOr(w, Ones(k));
    }
  }

  lemma AndTwo(o: nat)
    requires o / 2 % 2 == 1
    ensures And(o, 2) == 2
  {
    AndStep(o, 2);
    AndStep(o / 2, 1);
  }

  lemma Joins(a: nat, b: nat)
    ensures Joined(a, b, 4) == 16 * a + b && Joined(a, b, 5) == 32 * a + b
    ensures Joined(a, b, 6) == 64 * a + b && Joined(a, b, 10) == 1024 * a + b
    ensures Ones(4) == 15 && Ones(6) == 63 && Ones(10) == 0x3FF
  {
    Powers();
  }

  /** (u | 0x80) & 0xBF is the low six bits behind the mark 10. */
  lemma TrailingOctet(u: nat)
    ensures And(Or(u, 0x80), 0xBF) == 0x80 + u % 64
  {
    hide *;
    Powers();
    var v, w := u / 64, u % 64;
    Joins(v, w);
    Joins(2, 0);
    Joins(2, 63);
    OrParts(v, w, 2, 0, 6);
    OrZero(w);
    AndParts(Or(v, 2), w, 2, 63, 6);
    Mask(w, 6);
    OrTwo(v);
    AndTwo(Or(v, 2));
    Joins(2, w);
  }

  /** u | 0xF0, cut to a byte. */
  lemma LastMark(u: nat)
    ensures Or(u, 0xF0) % 256 == 0xF0 + u % 16
  {
    hide *;
    Powers();
    var v, w := u / 16, u % 16;
    Joins(v, w);
    Joins(15, 0);
    OrParts(v, w, 15, 0, 4);
    OrZero(w);
    var a := v / 16;
    Joins(a, v % 16);
    Joins(0, 15);
    OrParts(a, v % 16, 0, 15, 4);
    OrOnes(v % 16, 4);
    Joins(Or(a, 0), 15);
    Joins(Or(v, 15), w);
  }

  /** u | 0xC0, u | 0xE0 and u | 0xF0. */
  lemma LeadingOctet(u: nat)
    ensures Or(u, 0) == u
    ensures u < 32 ==> Or(u, 0xC0) == 0xC0 + u
    ensures u < 16 ==> Or(u, 0xE0) == 0xE0 + u
    ensures Or(u, 0xF0) % 256 == 0xF0 + u % 16
  {
    hide *;
    Powers();
    OrZero(u);
    LastMark(u);
    if u < 32 {
      Joins(0, u);
      Joins(6, 0);
      OrZero(6);
      OrParts(0, u, 6, 0, 5);
      Joins(6, u);
    }
    if u < 16 {
      Joins(0, u);
      Joins(14, 0);
      OrZero(14);
      OrParts(0, u, 14, 0, 4);
      Joins(14, u);
    }
  }

  /** ((high & 0x3FF) << 10) | (low & 0x3FF). */
  lemma SurrogateBits(high: nat, low: nat)
    ensures Or(And(high, 0x3FF) * 1024, And(low, 0x3FF)) == high % 1024 * 1024 + low % 1024
  {
    hide *;
    Powers();
    var a, b := high % 1024, low % 1024;
    Joins(a, 0);
    Joins(0, b);
    Mask(high, 10);
    Mask(low, 10);
    OrParts(a, 0, 0, b, 10);
    OrZero(a);
    OrZero(b);
    Joins(a, b);
  }
}
