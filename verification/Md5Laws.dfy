/** What the operations of MD5 on bits mean. */
module Md5Laws {
  import opened Md5Spec

  // ----- the functions of section 3.4 of RFC 1321, bit by bit -----

  /** F selects by its first argument: where that has ones its second, elsewhere its third. */
  lemma FSelects(x: word, y: word, z: word)
    ensures F(x, y, z) & x == y & x
  {
  }

  lemma FSelectsElse(x: word, y: word, z: word)
    ensures F(x, y, z) & !x == z & !x
  {
  }

  /** G selects by its third argument. */
  lemma GSelects(x: word, y: word, z: word)
    ensures G(x, y, z) & z == x & z
  {
  }

  lemma GSelectsElse(x: word, y: word, z: word)
    ensures G(x, y, z) & !z == y & !z
  {
  }

  /** H is parity: its last argument where the first two agree, and the opposite where they differ. */
  lemma HByBits(x: word, y: word, z: word)
    ensures H(x, y, z) & (x ^ y) == !z & (x ^ y)
  {
  }

  lemma HByBitsElse(x: word, y: word, z: word)
    ensures H(x, y, z) & !(x ^ y) == z & !(x ^ y)
  {
  }

  /** I turns its second argument around where the first has a one or the third a zero. */
  lemma ITurns(x: word, y: word, z: word)
    ensures I(x, y, z) & (x | !z) == !y & (x | !z)
  {
  }

  lemma ITurnsElse(x: word, y: word, z: word)
    ensures I(x, y, z) & !x & z == y & !x & z
  {
  }

  // ----- rotations as numbers -----

  function Pow2(n: nat): (p: nat)
    ensures p >= 1
  {
    if n == 0 then 1 else 2 * Pow2(n - 1)
  }

  lemma {:induction false} Pow2Adds(m: nat, n: nat)
    ensures Pow2(m) * Pow2(n) == Pow2(m + n)
  {
    if m > 0 {
      Pow2Adds(m - 1, n);
    }
  }

  lemma Powers()
    ensures Pow2(32) == TWO_32 && Pow2(31) == 0x8000_0000 && Pow2(0) == 1
  {
    assert Pow2(8) == 256;
    Pow2Adds(8, 8);
    Pow2Adds(16, 16);
  }

  lemma Product(top: nat, p: nat, s: nat, a: nat, q: nat)
    requires s < p && q < a && top <= 1 && p * a == 0x8000_0000
    ensures (top * p + s) * a == top * 0x8000_0000 + s * a
    ensures s * a + q < 0x8000_0000
  {
    assert (s + 1) * a <= p * a;
  }

  lemma Halves(v: nat, p: nat)
    requires p >= 1
    ensures var q, r, top := v / (2 * p), v % (2 * p), if v % (2 * p) >= p then 1 else 0;
            v / p == 2 * q + top && v % p == r - top * p
  {
    var q, r, top := v / (2 * p), v % (2 * p), if v % (2 * p) >= p then 1 else 0;
    assert v == (2 * p) * q + r;
    assert (2 * p) * q == p * (2 * q);
    DividesInto(v, p, 2 * q + top, r - top * p);
  }

  lemma DividesInto(v: int, d: int, q: int, r: int)
    requires v == d * q + r && 0 <= r < d
    ensures v / d == q && v % d == r
  {
    var e := q - v / d;
    assert d * e == v % d - r;
    assert e >= 1 ==> d * e >= d;
    assert e <= -1 ==> d * e <= -d;
  }

  lemma BelowProduct(v: nat, b: nat, a: nat)
    requires b >= 1 && v < b * a
    ensures v / b < a
  {
    var q := v / b;
    assert v == b * q + v % b;
    assert q >= a ==> b * q >= b * a;
  }

  lemma HighBits(v: nat, n: nat)
    requires v < TWO_32 && n <= 32
    ensures v / Pow2(32 - n) < Pow2(n)
  {
    var b, a := Pow2(32 - n), Pow2(n);
    Pow2Adds(32 - n, n);
    Powers();
    hide Pow2;
    BelowProduct(v, b, a);
  }

  function Turned(v: nat, n: nat): int
    requires n <= 32
  {
    v % Pow2(32 - n) * Pow2(n) + v / Pow2(32 - n)
  }

  /** The number turned left by one bit of 32. */
  function TurnedOnce(y: int): int {
    if y < 0x8000_0000 then 2 * y else 2 * y - 0xFFFF_FFFF
  }

  lemma PartsTurn(v: nat, p: nat, a: nat)
    requires p >= 1 && p * a == 0x8000_0000 && v / (2 * p) < a
    ensures v % p * (2 * a) + v / p == TurnedOnce(v % (2 * p) * a + v / (2 * p))
  {
    Halves(v, p);
    var q, r, top := v / (2 * p), v % (2 * p), if v % (2 * p) >= p then 1 else 0;
    var s := r - top * p;
    Product(top, p, s, a, q);
    assert s * (2 * a) == 2 * (s * a);
  }

  lemma TurnsOn(v: nat, n: nat)
    requires v < TWO_32 && n < 32
    ensures Turned(v, n + 1) == TurnedOnce(Turned(v, n))
  {
    var p, a := Pow2(31 - n), Pow2(n);
    assert Pow2(32 - n) == 2 * p && Pow2(n + 1) == 2 * a;
    Pow2Adds(31 - n, n);
    Powers();
    HighBits(v, n);
    hide Pow2, TurnedOnce;
    PartsTurn(v, p, a);
  }

  lemma TurnedByNone(v: nat)
    requires v < TWO_32
    ensures Turned(v, 0) == v
  {
    Powers();
    hide Pow2;
  }

  /** Turning left by n bits is turning the number: its high n bits and the rest trade places. */
  lemma {:induction false} RotateLeftTurns(x: word, n: word)
    requires n <= 32
    ensures RotateLeft(x, n) as nat == Turned(x as nat, n as nat)
    decreases n as nat
  {
    hide RotateLeft, Turned, TurnedOnce;
    AllBits(x);
    if n == 0 {
      Zero(x);
      TurnedByNone(x as nat);
    } else {
      Pred(n);
      RotateLeftTurns(x, n - 1);
      RotatesOn(x, n);
      TurnsOn(x as nat, n as nat - 1);
    }
  }

  lemma RotatesOn(x: word, n: word)
    requires 0 < n <= 32
    ensures RotateLeft(x, n) as nat == TurnedOnce(RotateLeft(x, n - 1) as nat)
  {
    hide RotateLeft;
    Once(x, n);
    One(RotateLeft(x, n - 1));
  }

  lemma Once(x: word, n: word)
    requires 0 < n <= 32
    ensures RotateLeft(RotateLeft(x, n - 1), 1) == RotateLeft(x, n)
  {
  }

  lemma Zero(x: word)
    ensures RotateLeft(x, 0) == x
  {
  }

  lemma OneA(x: word)
    ensures RotateLeft(x, 1) == (x << 1) | (x >> 31)
  {
  }

  lemma OneB(x: word)
    ensures ((x << 1) | (x >> 31)) as nat == TurnedOnce(x as nat)
  {
  }

  lemma One(x: word)
    ensures RotateLeft(x, 1) as nat == TurnedOnce(x as nat)
  {
    hide *;
    OneA(x);
    OneB(x);
  }

  lemma AllBits(x: word)
    ensures x as nat < TWO_32
  {
  }

  lemma Pred(n: word)
    requires 0 < n <= 32
    ensures (n - 1) as nat == n as nat - 1
  {
  }
}
