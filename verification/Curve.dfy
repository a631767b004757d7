/**
 Conversion of Ed25519 keys to X25519 keys: the map from the y coordinate of the
 twisted Edwards curve to the u coordinate of Curve25519 (section 4.1 of
 RFC 7748), and the clamping of scalars (section 5 of RFC 7748).
 */
module Curve {
  import opened ByteNumbers
  import opened Modular
  import opened Options

  const P: nat := 0x7fffffff_ffffffff_ffffffff_ffffffff_ffffffff_ffffffff_ffffffff_ffffffed

  // ---- The map, over any odd modulus ----

  /** u * (1 - y) = 1 + y, the division-free form of u = (1 + y) / (1 - y). */
  ghost predicate Maps(n: nat, y: int, u: int)
    requires n > 0
  {
    Cong(n, u * (1 - y), 1 + y)
  }

  /** The same relation read backwards: y = (u - 1) / (u + 1). */
  lemma MapsBack(n: nat, y: int, u: int)
    requires n > 0
    ensures Maps(n, y, u) <==> Cong(n, y * (u + 1), u - 1)
  {
    assert u * (1 - y) - (1 + y) == -(y * (u + 1) - (u - 1)) by {
      assert u * (1 - y) == u - u * y;
      assert y * (u + 1) == u * y + y;
    }
    if Maps(n, y, u) {
      var k := Turns(n, u * (1 - y), 1 + y);
      assert (-k) * n == -(k * n);
      CongBy(n, y * (u + 1), u - 1, -k);
    }
    if Cong(n, y * (u + 1), u - 1) {
      var k := Turns(n, y * (u + 1), u - 1);
      assert (-k) * n == -(k * n);
      CongBy(n, u * (1 - y), 1 + y, -k);
    }
  }

  lemma MapsProduct(n: nat, y: int, u: int)
    requires n > 0 && Maps(n, y, u)
    ensures Cong(n, (u + 1) * (1 - y), 2)
  {
    assert (u + 1) * (1 - y) == u * (1 - y) + (1 - y);
    CongSelf(n, 1 - y);
    CongAdd(n, u * (1 - y), 1 + y, 1 - y, 1 - y);
  }

  function Half(n: nat): nat {
    (n + 1) / 2
  }

  /** Two numbers whose product is 2 undo each other up to a halving. */
  lemma HalvedInverse(n: nat, a: int, b: int)
    requires n % 2 == 1 && Cong(n, a * b, 2)
    ensures Cong(n, (Half(n) * a) * b, 1)
  {
    CongScale(n, a * b, 2, Half(n));
    assert (Half(n) * a) * b == Half(n) * (a * b);
    assert Half(n) * 2 == 1 + 1 * n;
    CongBy(n, Half(n) * 2, 1, 1);
    CongTrans(n, (Half(n) * a) * b, Half(n) * 2, 1);
  }

  /** One y has at most one u. */
  lemma MapIsFunction(n: nat, y: int, u: nat, v: nat)
    requires n % 2 == 1 && u < n && v < n && Maps(n, y, u) && Maps(n, y, v)
    ensures u == v
  {
    MapsProduct(n, y, u);
    HalvedInverse(n, u + 1, 1 - y);
    CongSymm(n, v * (1 - y), 1 + y);
    CongTrans(n, u * (1 - y), 1 + y, v * (1 - y));
    assert (1 - y) * u == u * (1 - y) && (1 - y) * v == v * (1 - y);
    CongCancel(n, 1 - y, Half(n) * (u + 1), u, v);
    CongSmall(n, u, v);
  }

  /** One u has at most one y. */
  lemma MapIsInjective(n: nat, y: int, z: int, u: int)
    requires n % 2 == 1 && Maps(n, y, u) && Maps(n, z, u)
    ensures Cong(n, y, z)
  {
    MapsProduct(n, y, u);
    MapsProduct(n, z, u);
    CongSymm(n, (u + 1) * (1 - z), 2);
    CongTrans(n, (u + 1) * (1 - y), 2, (u + 1) * (1 - z));
    assert (1 - y) * (u + 1) == (u + 1) * (1 - y);
    HalvedInverse(n, 1 - y, u + 1);
    CongCancel(n, u + 1, Half(n) * (1 - y), 1 - y, 1 - z);
    CongSelf(n, 1);
    CongAdd(n, 1, 1, 1 - y, 1 - z);
    assert 1 - (1 - y) == y && 1 - (1 - z) == z;
  }

  lemma MapRespects(n: nat, y: int, z: int, u: int)
    requires n > 0 && Maps(n, y, u) && Cong(n, y, z)
    ensures Maps(n, z, u)
  {
    CongSelf(n, 1);
    CongAdd(n, 1, 1, y, z);
    CongScale(n, 1 - y, 1 - z, u);
    CongSymm(n, u * (1 - y), u * (1 - z));
    CongTrans(n, u * (1 - z), u * (1 - y), 1 + y);
    CongTrans(n, u * (1 - z), 1 + y, 1 + z);
  }

  /** Every u whose successor has an inverse comes from some y. */
  lemma MapReaches(n: nat, u: int, inv: int) returns (y: nat)
    requires n > 0 && Cong(n, inv * (u + 1), 1)
    ensures y < n && Maps(n, y, u)
  {
    y := ((u - 1) * inv) % n;
    CongSelf(n, (u - 1) * inv);
    CongScale(n, y, (u - 1) * inv, u + 1);
    assert (u + 1) * y == y * (u + 1);
    assert (u + 1) * ((u - 1) * inv) == (u - 1) * (inv * (u + 1));
    CongScale(n, inv * (u + 1), 1, u - 1);
    CongTrans(n, y * (u + 1), (u - 1) * (inv * (u + 1)), u - 1);
    MapsBack(n, y, u);
  }

  /** A u exists exactly when 1 - y has an inverse. */
  lemma MapDefinedIff(n: nat, y: int)
    requires n % 2 == 1
    ensures var inv := ModInverse((1 - y) % n, n);
            if inv.Some? then Maps(n, y, (((1 + y) % n) * inv.value) % n) else forall u :: !Maps(n, y, u)
  {
    var d := (1 - y) % n;
    var inv := ModInverse(d, n);
    CongSelf(n, 1 - y);
    if inv.Some? {
      InverseUndoes(d, n);
      QuotientMaps(n, y, inv.value);
    } else {
      forall u | Maps(n, y, u)
        ensures false
      {
        MapsProduct(n, y, u);
        HalvedInverse(n, u + 1, 1 - y);
        var half := Half(n) * (u + 1);
        CongScale(n, d, 1 - y, half);
        CongTrans(n, half * d, half * (1 - y), 1);
        InverseExists(d, n, half);
      }
    }
  }

  lemma QuotientMaps(n: nat, y: int, inv: nat)
    requires n > 0 && Cong(n, inv * ((1 - y) % n), 1)
    ensures Maps(n, y, (((1 + y) % n) * inv) % n)
  {
    var num, d := (1 + y) % n, (1 - y) % n;
    var u := (num * inv) % n;
    CongSelf(n, 1 - y);
    CongSelf(n, 1 + y);
    CongSelf(n, num * inv);
    CongSymm(n, d, 1 - y);
    CongMul(n, u, num * inv, 1 - y, d);
    assert (num * inv) * d == num * (inv * d);
    CongScale(n, inv * d, 1, num);
    CongTrans(n, u * (1 - y), num * (inv * d), num);
    CongTrans(n, u * (1 - y), num, 1 + y);
  }

  // ---- Public keys ----

  const ORDER_8: seq<byte> :=
    [0xe0, 0xeb, 0x7a, 0x7c, 0x3b, 0x41, 0xb8, 0xae] + ([0x16, 0x56, 0xe3, 0xfa, 0xf1, 0x9f, 0xc4, 0x6a]
    + ([0xda, 0x09, 0x8d, 0xeb, 0x9c, 0x32, 0xb1, 0xfd] + [0x86, 0x62, 0x05, 0x16, 0x5f, 0x49, 0xb8, 0x00]))

  const OTHER_ORDER_8: seq<byte> :=
    [0x5f, 0x9c, 0x95, 0xbc, 0xa3, 0x50, 0x8c, 0x24] + ([0xb1, 0xd0, 0xb1, 0x55, 0x9c, 0x83, 0xef, 0x5b]
    + ([0x04, 0x44, 0x5c, 0xc4, 0x58, 0x1c, 0x8e, 0x86] + [0xd8, 0x22, 0x4e, 0xdd, 0xd0, 0x9f, 0x11, 0x57]))

  const SMALL_ORDER: seq<seq<byte>> := [
    Zeros(32),
    [1] + Zeros(31),
    [0xec] + Ones(30) + [0x7f],
    ORDER_8,
    OTHER_ORDER_8,
    [0xed] + Ones(30) + [0x7f],
    [0xee] + Ones(30) + [0x7f]
  ]

  function Ones(k: nat): (b: seq<byte>)
    ensures |b| == k
  {
    seq(k, _ => 0xff)
  }

  datatype Conversion = Converted(bytes: seq<byte>) | InvalidPoint | Overflow | SmallOrder

  /** The key cut or padded to 32 bytes, with the sign bit of x masked off. */
  function Masked(pk: seq<byte>): (b: seq<byte>)
    ensures |b| == 32
  {
    var b := if |pk| >= 32 then pk[..32] else pk + Zeros(32 - |pk|);
    b[31 := b[31] % 128]
  }

  function YOf(pk: seq<byte>): nat {
    LittleEndian(Masked(pk))
  }

  /** The 32 bytes are the reduced u that belongs to y. */
  ghost predicate Image(n: nat, y: int, b: seq<byte>) {
    n > 0 && |b| == 32 && LittleEndian(b) < n && Maps(n, y, LittleEndian(b))
  }

  method Reverse(b: seq<byte>) returns (c: seq<byte>)
    ensures Mirrored(c, b)
  {
    var a := new byte[|b|](_ => 0);
    for i := 0 to |b|
      invariant forall j :: 0 <= j < i ==> a[|b| - 1 - j] == b[j]
    {
      a[|b| - 1 - i] := b[i];
    }
    c := a[..];
    forall j | 0 <= j < |b|
      ensures c[j] == b[|b| - 1 - j]
    {
      assert a[|b| - 1 - (|b| - 1 - j)] == b[|b| - 1 - j];
    }
  }

  /** The least significant byte first, zeros behind. */
  method LittleEndianBytes(digits: seq<byte>) returns (ret: seq<byte>)
    requires |digits| <= 32
    ensures |ret| == 32 && LittleEndian(ret) == BigEndian(digits)
  {
    var a := new byte[32](_ => 0);
    for i := 0 to |digits|
      invariant forall j :: 0 <= j < i ==> a[j] == digits[|digits| - 1 - j]
      invariant forall j :: i <= j < 32 ==> a[j] == 0
    {
      a[i] := digits[|digits| - 1 - i];
    }
    ret := a[..];
    PaddedValue(ret, digits);
  }

  lemma PaddedValue(b: seq<byte>, digits: seq<byte>)
    requires |digits| <= |b| && Mirrored(b[..|digits|], digits)
    requires forall j :: |digits| <= j < |b| ==> b[j] == 0
    ensures LittleEndian(b) == BigEndian(digits)
  {
    var low, zeros := b[..|digits|], Zeros(|b| - |digits|);
    assert b == low + zeros;
    ZeroPadded(low, |zeros|);
    MirroredValue(low, digits);
  }

  method IsSmallOrderPoint(points: seq<seq<byte>>, point: seq<byte>) returns (found: bool)
    ensures found <==> point in points
  {
    for k := 0 to |points|
      invariant point !in points[..k]
    {
      var listed := points[k];
      if |point| == |listed| {
        var same := true;
        for i := 0 to |point|
          invariant same ==> point[..i] == listed[..i]
          invariant !same ==> point != listed
        {
          if point[i] != listed[i] {
            same := false;
          }
        }
        assert point[..|point|] == point && listed[..|point|] == listed;
        if same {
          return true;
        }
      }
    }
    assert points[..|points|] == points;
    return false;
  }

  lemma ModulusFits()
    ensures P == 128 * Pow256(31) - 19 && P < Pow256(32) && P % 2 == 1
  {
    SmallPowers();
    Pow256Sum(16, 8);
    Pow256Sum(24, 4);
    Pow256Sum(28, 2);
    Pow256Sum(30, 1);
    Pow256Sum(31, 1);
  }

  lemma SmallPowers()
    ensures Pow256(1) == 0x100 && Pow256(2) == 0x10000 && Pow256(4) == 0x1_00000000
    ensures Pow256(8) == 0x1_00000000_00000000 && Pow256(16) == 0x1_00000000_00000000_00000000_00000000
  {
    Pow256Sum(2, 2);
    Pow256Sum(4, 4);
    Pow256Sum(8, 8);
  }

  /** The conversion finds the one u that belongs to the masked y, fails as
      invalid exactly when there is none, and never overflows. */
  method PublicKey(pk: seq<byte>) returns (r: Conversion)
    ensures r.Converted? ==> Image(P, YOf(pk), r.bytes) && r.bytes !in SMALL_ORDER
    ensures r.SmallOrder? ==> exists b :: b in SMALL_ORDER && Image(P, YOf(pk), b)
    ensures r.InvalidPoint? ==> forall u :: !Maps(P, YOf(pk), u)
    ensures !r.Overflow?
  {
    var yBytes := Masked(pk);
    var digits := Reverse(yBytes);
    var y := BigEndian(digits);
    assert y == YOf(pk) by {
      assert Mirrored(yBytes, digits);
      MirroredValue(yBytes, digits);
    }
    ModulusFits();
    MapDefinedIff(P, y);
    var denom := (1 - y) % P;
    var inv := ModInverse(denom, P);
    if inv.None? {
      return InvalidPoint;
    }
    var num := (1 + y) % P;
    var u := (num * inv.value) % P;
    var uBytes := MinimalBytes(u);
    MinimalLength(u, 32);
    MinimalRoundTrip(u);
    if |uBytes| > 32 {
      return Overflow;
    }
    var ret := LittleEndianBytes(uBytes);
    var small := IsSmallOrderPoint(SMALL_ORDER, ret);
    if small {
      return SmallOrder;
    }
    return Converted(ret);
  }

  lemma ImageIsUnique(n: nat, y: int, a: seq<byte>, b: seq<byte>)
    requires n % 2 == 1 && Image(n, y, a) && Image(n, y, b)
    ensures a == b
  {
    MapIsFunction(n, y, LittleEndian(a), LittleEndian(b));
    LittleEndianInjective(a, b);
  }

  /** Two images are the same exactly when their y agree. */
  lemma ImageIff(n: nat, y: int, b: seq<byte>, y': int, b': seq<byte>)
    requires n % 2 == 1 && Image(n, y, b) && Image(n, y', b')
    ensures b == b' <==> Cong(n, y, y')
  {
    if b == b' {
      MapIsInjective(n, y, y', LittleEndian(b));
    }
    if Cong(n, y, y') {
      MapRespects(n, y, y', LittleEndian(b));
      ImageIsUnique(n, y', b, b');
    }
  }

  /** A masked y is below 2^255, so it may exceed the modulus by up to 18. */
  lemma MaskedBound(pk: seq<byte>)
    ensures YOf(pk) < P + 19
  {
    var b := Masked(pk);
    assert b == b[..31] + [b[31]];
    LittleEndianJoin(b[..31], [b[31]]);
    LittleEndianBound(b[..31]);
    ModulusFits();
  }

  /** y is the key read as a number; a short key is padded with zeros. */
  lemma MaskedShort(pk: seq<byte>)
    requires |pk| < 32
    ensures YOf(pk) == LittleEndian(pk)
  {
    MaskedPads(pk);
    PaddedSame(pk, Masked(pk));
  }

  lemma MaskedPads(pk: seq<byte>)
    requires |pk| < 32
    ensures Masked(pk) == pk + Zeros(32 - |pk|)
  {
  }

  lemma PaddedSame(pk: seq<byte>, b: seq<byte>)
    requires |pk| < 32 && b == pk + Zeros(32 - |pk|)
    ensures LittleEndian(b) == LittleEndian(pk)
  {
    ZeroPadded(pk, 32 - |pk|);
  }

  /** A longer one is cut, and its top bit, worth 2^255, is not counted. */
  lemma MaskedLong(pk: seq<byte>)
    requires |pk| >= 32
    ensures LittleEndian(pk[..32]) == YOf(pk) + if pk[31] >= 128 then P + 19 else 0
  {
    var low, top := pk[..31], pk[31];
    assert pk[..32] == low + [top];
    assert Masked(pk) == low + [top % 128];
    if top >= 128 {
      assert top % 128 == top - 128;
      TopBit(low, top);
      ModulusFits();
    }
  }

  lemma {:induction false} TopBit(low: seq<byte>, top: byte)
    requires top >= 128
    ensures LittleEndian(low + [top]) == LittleEndian(low + [top - 128]) + 128 * Pow256(|low|)
  {
    var rest: byte := top - 128;
    if low == [] {
      assert low + [top] == [top] && low + [rest] == [rest];
      OneByte(top);
      OneByte(rest);
    } else {
      TopBit(low[1..], top);
      assert (low + [top])[1..] == low[1..] + [top];
      assert (low + [rest])[1..] == low[1..] + [rest];
    }
  }

  lemma OneByte(x: byte)
    ensures LittleEndian([x]) == x
  {
    assert [x][1..] == [];
  }

  lemma FewTurns(n: nat, k: int)
    requires -2 * n < k * n < 2 * n
    ensures k == -1 || k == 0 || k == 1
  {
    assert (k - 1) * n == k * n - n && (k + 1) * n == k * n + n;
    FarFromZero(n, k - 1);
    FarFromZero(n, k + 1);
  }

  lemma NearlyReduced(n: nat, y: nat, z: nat)
    requires n > 19 && y < n + 19 && z < n + 19
    ensures Cong(n, y, z) <==> y == z || y == z + n || z == y + n
  {
    if Cong(n, y, z) {
      FewTurns(n, Turns(n, y, z));
    }
    if y == z {
      CongBy(n, y, z, 0);
    } else if y == z + n {
      CongBy(n, y, z, 1);
    } else if z == y + n {
      CongBy(n, y, z, -1);
    }
  }

  /** Two keys convert to the same bytes exactly when they agree but for the sign
      bit, or their y differ by the modulus. */
  lemma SameBytesIff(pk: seq<byte>, pk': seq<byte>, b: seq<byte>, b': seq<byte>)
    requires Image(P, YOf(pk), b) && Image(P, YOf(pk'), b')
    ensures b == b' <==> Masked(pk) == Masked(pk') || YOf(pk) == YOf(pk') + P || YOf(pk') == YOf(pk) + P
  {
    var y, z := YOf(pk), YOf(pk');
    ModulusFits();
    ImageIff(P, y, b, z, b');
    MaskedBound(pk);
    MaskedBound(pk');
    NearlyReduced(P, y, z);
    if y == z {
      LittleEndianInjective(Masked(pk), Masked(pk'));
    }
  }

  // ---- Private keys ----

  /** Clamps the digest of the seed in place, copies out its lower half and wipes
      the upper half. */
  method PrivateKey(h: array<byte>) returns (scalar: seq<byte>)
    requires h.Length == 64
    modifies h
    ensures |scalar| == 32 && h[..32] == scalar && forall i :: 32 <= i < 64 ==> h[i] == 0
    ensures scalar == Clamped(old(h[..32]))
  {
    h[0] := h[0] - h[0] % 8;
    h[31] := h[31] % 128;
    h[31] := if h[31] < 64 then h[31] + 64 else h[31];
    scalar := h[..32];
    for i := 32 to 64
      invariant h[..32] == scalar
      invariant forall j :: 32 <= j < i ==> h[j] == 0
    {
      h[i] := 0;
    }
  }

  /** The low three bits and the top bit cleared, the next to top bit set. */
  function Clamped(b: seq<byte>): (c: seq<byte>)
    requires |b| == 32
    ensures |c| == 32
  {
    b[0 := b[0] - b[0] % 8][31 := 64 + b[31] % 64]
  }

  lemma ClampedKeepsBits(b: seq<byte>)
    requires |b| == 32
    ensures Clamped(b)[0] / 8 == b[0] / 8 && Clamped(b)[1..31] == b[1..31] && Clamped(b)[31] % 64 == b[31] % 64
  {
  }

  lemma ClampedLow(c: seq<byte>)
    requires c != [] && c[0] % 8 == 0
    ensures LittleEndian(c) % 8 == 0
  {
    var rest := LittleEndian(c[1..]);
    assert LittleEndian(c) == c[0] + 8 * (32 * rest);
  }

  lemma ClampedTop(low: seq<byte>, top: byte)
    requires 64 <= top < 128
    ensures Pow256(|low|) * 64 <= LittleEndian(low + [top]) < Pow256(|low|) * 128
  {
    LittleEndianJoin(low, [top]);
    LittleEndianBound(low);
    assert LittleEndian([top]) == top;
    TopDigit(Pow256(|low|), LittleEndian(low), top);
  }

  /** A multiple of 8 in [2^254, 2^255). */
  lemma ClampedScalar(b: seq<byte>)
    requires |b| == 32
    ensures LittleEndian(Clamped(b)) % 8 == 0
    ensures Pow256(31) * 64 <= LittleEndian(Clamped(b)) < Pow256(31) * 128
  {
    var c := Clamped(b);
    ClampedLow(c);
    assert c == c[..31] + [c[31]];
    ClampedTop(c[..31], c[31]);
  }

  lemma TopDigit(p: nat, low: nat, top: nat)
    requires low < p && 64 <= top < 128
    ensures p * 64 <= low + p * top < p * 128
  {
    assert p * top >= p * 64;
    assert p * top <= p * 127;
  }
}
