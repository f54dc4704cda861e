/** Euclid's algorithm as the whip step of the Java, c_version, C++ and Go
    engines uses it: `w` advances until gcd(w, 256) == 1. */
module Gcd {

  /** GCD(e1, e2) by Euclid's recursion. It terminates for non-negative
      arguments because e1 % e2 < e2 whenever e2 > 0. */
  function Gcd(e1: nat, e2: nat): (r: nat)
    ensures e1 > 0 || e2 > 0 ==> r > 0
    ensures e2 > 0 ==> r <= e2
    decreases e2
  {
    if e2 == 0 then e1 else Gcd(e2, e1 % e2)
  }

  lemma MulAtLeast(d: nat, x: int)
    requires d > 0 && x >= 1
    ensures d * x >= d
  {
  }

  /** Division with remainder is unique. */
  lemma DivModUnique(n: int, d: nat, q: int, r: int)
    requires d > 0 && 0 <= r < d && n == d * q + r
    ensures n % d == r
  {
    var q0 := n / d;
    assert d * (q - q0) == n % d - r;
    if q - q0 >= 1 {
      MulAtLeast(d, q - q0);
      assert false;
    } else if q0 - q >= 1 {
      MulAtLeast(d, q0 - q);
      assert false;
    }
  }

  lemma MulMod(d: nat, q: int)
    requires d > 0
    ensures (d * q) % d == 0
  {
    DivModUnique(d * q, d, q, 0);
  }

  lemma DivisorOfSum(a: nat, b: nat, d: nat)
    requires b > 0 && d > 0
    requires b % d == 0 && (a % b) % d == 0
    ensures a % d == 0
  {
    var x := b / d;
    var y := (a % b) / d;
    assert b == d * x;
    assert a % b == d * y;
    assert a == (a / b) * b + a % b;
    assert a == d * ((a / b) * x + y);
    MulMod(d, (a / b) * x + y);
  }

  lemma DivisorOfRemainder(a: nat, b: nat, d: nat)
    requires b > 0 && d > 0
    requires a % d == 0 && b % d == 0
    ensures (a % b) % d == 0
  {
    var x := a / d;
    var y := b / d;
    assert a == d * x && b == d * y;
    assert a % b == a - (a / b) * b;
    assert a % b == d * (x - (a / b) * y);
    MulMod(d, x - (a / b) * y);
  }

  /** The result divides both arguments (and is positive unless both are zero). */
  lemma {:induction false} GcdDividesBoth(a: nat, b: nat)
    requires a > 0 || b > 0
    ensures Gcd(a, b) > 0 && a % Gcd(a, b) == 0 && b % Gcd(a, b) == 0
    decreases b
  {
    if b > 0 {
      var g := Gcd(b, a % b);
      GcdDividesBoth(b, a % b);
      assert Gcd(a, b) == g;
      DivisorOfSum(a, b, g);
    }
  }

  /** Every common divisor of the arguments divides the result. */
  lemma {:induction false} CommonDivisorDividesGcd(a: nat, b: nat, d: nat)
    requires d > 0 && a % d == 0 && b % d == 0
    ensures Gcd(a, b) % d == 0
    decreases b
  {
    if b > 0 {
      DivisorOfRemainder(a, b, d);
      CommonDivisorDividesGcd(b, a % b, d);
    }
  }

  /** The parity of a product is the product of the parities. */
  lemma ProductParity(a: nat, b: nat)
    ensures (a * b) % 2 == ((a % 2) * (b % 2)) % 2
  {
    var a1, r := a / 2, a % 2;
    var b1, t := b / 2, b % 2;
    assert a * b == (2 * a1 + r) * (2 * b1 + t);
    assert (2 * a1 + r) * (2 * b1 + t) == 2 * (2 * a1 * b1 + a1 * t + r * b1) + r * t;
    DivModUnique(a * b, 2, 2 * a1 * b1 + a1 * t + r * b1, r * t);
  }

  /** An odd divisor of 2m divides m. */
  lemma OddDivisorHalves(g: nat, m: nat)
    requires g > 0 && g % 2 == 1 && (2 * m) % g == 0
    ensures m % g == 0
  {
    var q := (2 * m) / g;
    assert 2 * m == g * q;
    ProductParity(g, q);
    MulMod(2, m);
    var qh := q / 2;
    assert q == 2 * qh;
    assert 2 * m == 2 * (g * qh);
    MulMod(g, qh);
  }

  /** A divisor of an odd number is odd. */
  lemma DivisorOfOddIsOdd(g: nat, w: nat)
    requires g > 0 && w % 2 == 1 && w % g == 0
    ensures g % 2 == 1
  {
    var q := w / g;
    assert w == g * q;
    ProductParity(g, q);
  }

  /** The only positive divisor of 1 is 1. */
  lemma DividesOne(g: nat)
    requires g > 0 && 1 % g == 0
    ensures g == 1
  {
    if g > 1 {
      DivModUnique(1, g, 0, 1);
      assert false;
    }
  }

  /** For a byte value w, w is coprime with 256 exactly when it is odd. */
  lemma CoprimeWith256IffOdd(w: nat)
    requires w < 256
    ensures Gcd(w, 256) == 1 <==> w % 2 == 1
  {
    if w % 2 == 0 {
      CommonDivisorDividesGcd(w, 256, 2);
    } else {
      GcdDividesBoth(w, 256);
      var g := Gcd(w, 256);
      DivisorOfOddIsOdd(g, w);
      OddDivisorHalves(g, 128);
      OddDivisorHalves(g, 64);
      OddDivisorHalves(g, 32);
      OddDivisorHalves(g, 16);
      OddDivisorHalves(g, 8);
      OddDivisorHalves(g, 4);
      OddDivisorHalves(g, 2);
      OddDivisorHalves(g, 1);
      DividesOne(g);
    }
  }
}
