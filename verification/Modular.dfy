/**
 Congruence and inverses modulo a positive integer.
 */
module Modular {
  import opened Options

  predicate ApartBy(n: nat, a: int, b: int, k: int) {
    a == b + k * n
  }

  ghost predicate Cong(n: nat, a: int, b: int) {
    exists k :: ApartBy(n, a, b, k)
  }

  /** The quotient behind a congruence. */
  ghost function Turns(n: nat, a: int, b: int): (k: int)
    requires Cong(n, a, b)
    ensures a == b + k * n
  {
    var k :| ApartBy(n, a, b, k);
    k
  }

  lemma MultipleIsZero(n: nat, k: int)
    requires n > 0
    ensures (k * n) % n == 0
  {
    QuotientIsUnique(n, k * n, k, 0);
  }

  lemma QuotientIsUnique(n: nat, a: int, q: int, r: int)
    requires n > 0 && a == q * n + r && 0 <= r < n
    ensures a / n == q && a % n == r
  {
    var d := a / n - q;
    assert d * n == r - a % n;
    FarFromZero(n, d);
  }

  lemma FarFromZero(n: nat, k: int)
    requires n > 0
    ensures k >= 1 ==> k * n >= n
    ensures k <= -1 ==> k * n + n <= 0
  {
  }

  lemma CongBy(n: nat, a: int, b: int, k: int)
    requires a == b + k * n
    ensures Cong(n, a, b)
  {
    assert ApartBy(n, a, b, k);
  }

  lemma CongSelf(n: nat, a: int)
    requires n > 0
    ensures Cong(n, a % n, a) && Cong(n, a, a)
  {
    assert a % n == a + (-(a / n)) * n;
    CongBy(n, a % n, a, -(a / n));
    CongBy(n, a, a, 0);
  }

  lemma CongSymm(n: nat, a: int, b: int)
    requires n > 0 && Cong(n, a, b)
    ensures Cong(n, b, a)
  {
    var k := Turns(n, a, b);
    assert b == a + (-k) * n;
    CongBy(n, b, a, -k);
  }

  lemma CongTrans(n: nat, a: int, b: int, c: int)
    requires n > 0 && Cong(n, a, b) && Cong(n, b, c)
    ensures Cong(n, a, c)
  {
    var k, l := Turns(n, a, b), Turns(n, b, c);
    assert a == c + (k + l) * n;
    CongBy(n, a, c, k + l);
  }

  lemma CongAdd(n: nat, a: int, b: int, c: int, d: int)
    requires n > 0 && Cong(n, a, b) && Cong(n, c, d)
    ensures Cong(n, a + c, b + d) && Cong(n, a - c, b - d)
  {
    var k, l := Turns(n, a, b), Turns(n, c, d);
    assert a + c == b + d + (k + l) * n;
    assert a - c == b - d + (k - l) * n;
    CongBy(n, a + c, b + d, k + l);
    CongBy(n, a - c, b - d, k - l);
  }

  lemma CongScale(n: nat, a: int, b: int, c: int)
    requires n > 0 && Cong(n, a, b)
    ensures Cong(n, c * a, c * b)
  {
    var k := Turns(n, a, b);
    assert c * a == c * b + (c * k) * n;
    CongBy(n, c * a, c * b, c * k);
  }

  lemma CongMul(n: nat, a: int, b: int, c: int, d: int)
    requires n > 0 && Cong(n, a, b) && Cong(n, c, d)
    ensures Cong(n, a * c, b * d)
  {
    CongScale(n, c, d, a);
    CongScale(n, a, b, d);
    assert a * d == d * a && b * d == d * b;
    CongTrans(n, a * c, a * d, b * d);
  }

  /** Congruent numbers below the modulus are equal. */
  lemma CongSmall(n: nat, a: nat, b: nat)
    requires a < n && b < n && Cong(n, a, b)
    ensures a == b
  {
    FarFromZero(n, Turns(n, a, b));
  }

  lemma NotCongruentToZero(n: nat, a: int, q: int, r: int)
    requires a == q * n + r && 0 < r < n
    ensures !Cong(n, a, 0)
  {
    if Cong(n, a, 0) {
      QuotientIsUnique(n, a, Turns(n, a, 0), 0);
      QuotientIsUnique(n, a, q, r);
    }
  }

  /** A common factor of both sides can go once something undoes it. */
  lemma CongCancel(n: nat, c: int, inv: int, a: int, b: int)
    requires n > 0 && Cong(n, inv * c, 1) && Cong(n, c * a, c * b)
    ensures Cong(n, a, b)
  {
    CongScale(n, c * a, c * b, inv);
    assert inv * (c * a) == a * (inv * c) && inv * (c * b) == b * (inv * c);
    CongScale(n, inv * c, 1, a);
    CongScale(n, inv * c, 1, b);
    CongSymm(n, a * (inv * c), a);
    CongTrans(n, a, a * (inv * c), b * (inv * c));
    CongTrans(n, a, b * (inv * c), b);
  }

  // ---- Inverses, by the extended Euclidean algorithm ----

  datatype Bezout = Bezout(gcd: nat, x: int, y: int)

  predicate Divides(d: nat, a: int) {
    d > 0 && a % d == 0
  }

  function ExtendedGcd(a: nat, b: nat): Bezout
    decreases b
  {
    if b == 0 then
      Bezout(a, 1, 0)
    else
      var r := ExtendedGcd(b, a % b);
      Bezout(r.gcd, r.y, r.x - (a / b) * r.y)
  }

  lemma {:induction false} BezoutIdentity(a: nat, b: nat)
    ensures var r := ExtendedGcd(a, b); r.gcd == a * r.x + b * r.y
    decreases b
  {
    if b != 0 {
      var r := ExtendedGcd(b, a % b);
      BezoutIdentity(b, a % b);
      BezoutStep(a, b, r.x, r.y);
    }
  }

  lemma BezoutStep(a: nat, b: nat, x: int, y: int)
    requires b > 0
    ensures b * x + (a % b) * y == a * y + b * (x - (a / b) * y)
  {
    assert a % b == a - (a / b) * b;
    assert (a - (a / b) * b) * y == a * y - (a / b) * b * y;
    assert b * ((a / b) * y) == (a / b) * b * y;
  }

  lemma {:induction false} GcdDivides(a: nat, b: nat)
    requires a > 0 || b > 0
    ensures Divides(ExtendedGcd(a, b).gcd, a) && Divides(ExtendedGcd(a, b).gcd, b)
    decreases b
  {
    if b == 0 {
      QuotientIsUnique(a, a, 1, 0);
      QuotientIsUnique(a, 0, 0, 0);
    } else {
      GcdDivides(b, a % b);
      DividesStep(ExtendedGcd(b, a % b).gcd, a, b);
    }
  }

  lemma DividesStep(d: nat, a: nat, b: nat)
    requires b > 0 && Divides(d, b) && Divides(d, a % b)
    ensures Divides(d, a)
  {
    var q, r := a / b, a % b;
    assert a == q * b + r;
    DividesSum(d, b, q, r);
  }

  lemma DividesSum(d: nat, a: int, q: int, r: int)
    requires Divides(d, a) && Divides(d, r)
    ensures Divides(d, q * a + r)
  {
    var k, l := a / d, r / d;
    assert q * (k * d) == (q * k) * d;
    assert q * a + r == (q * k + l) * d;
    MultipleIsZero(d, q * k + l);
  }

  function ModInverse(a: nat, n: nat): Option<nat>
    requires n > 0
  {
    var r := ExtendedGcd(a, n);
    if r.gcd == 1 then Some(r.x % n) else None
  }

  lemma InverseUndoes(a: nat, n: nat)
    requires n > 0 && ModInverse(a, n).Some?
    ensures ModInverse(a, n).value < n && Cong(n, ModInverse(a, n).value * a, 1)
  {
    var r := ExtendedGcd(a, n);
    BezoutIdentity(a, n);
    ReducedInverse(n, a, r.x, r.y);
  }

  lemma ReducedInverse(n: nat, a: nat, x: int, y: int)
    requires n > 0 && 1 == a * x + n * y
    ensures Cong(n, (x % n) * a, 1)
  {
    assert a * x == 1 + (-y) * n;
    CongBy(n, a * x, 1, -y);
    CongSelf(n, x);
    CongScale(n, x % n, x, a);
    CongTrans(n, a * (x % n), a * x, 1);
    assert a * (x % n) == (x % n) * a;
  }

  /** Whatever has an inverse gets one. */
  lemma InverseExists(a: nat, n: nat, inv: int)
    requires n > 0 && Cong(n, inv * a, 1)
    ensures ModInverse(a, n).Some?
  {
    GcdDivides(a, n);
    var g := ExtendedGcd(a, n).gcd;
    var t := Turns(n, inv * a, 1);
    assert 1 == inv * a + (-t * n + 0);
    MultipleIsZero(g, 0);
    DividesSum(g, n, -t, 0);
    DividesSum(g, a, inv, -t * n + 0);
    if g >= 2 {
      QuotientIsUnique(g, 1, 0, 1);
    }
  }
}
