/**
 Numbers as byte strings, in either byte order.
 */
module ByteNumbers {
  type byte = x: int | 0 <= x < 256

  function Pow256(k: nat): (r: nat)
    ensures r > 0
  {
    if k == 0 then 1 else 256 * Pow256(k - 1)
  }

  lemma {:induction false} Pow256Sum(j: nat, k: nat)
    ensures Pow256(j + k) == Pow256(j) * Pow256(k)
  {
    if j != 0 {
      Pow256Sum(j - 1, k);
    }
  }

  function LittleEndian(b: seq<byte>): nat {
    if b == [] then 0 else b[0] + 256 * LittleEndian(b[1..])
  }

  function BigEndian(b: seq<byte>): nat {
    if b == [] then 0 else 256 * BigEndian(b[..|b| - 1]) + b[|b| - 1]
  }

  /** The shortest big-endian form: no leading zero, nothing at all for zero. */
  function MinimalBytes(n: nat): seq<byte> {
    if n == 0 then [] else MinimalBytes(n / 256) + [n % 256]
  }

  function Zeros(k: nat): (b: seq<byte>)
    ensures |b| == k
  {
    seq(k, _ => 0)
  }

  ghost predicate Mirrored(a: seq<byte>, b: seq<byte>) {
    |a| == |b| && forall i :: 0 <= i < |a| ==> a[i] == b[|b| - 1 - i]
  }

  lemma {:induction false} MirroredValue(a: seq<byte>, b: seq<byte>)
    requires Mirrored(a, b)
    ensures LittleEndian(a) == BigEndian(b)
  {
    if a != [] {
      var n := |b| - 1;
      assert Mirrored(a[1..], b[..n]);
      MirroredValue(a[1..], b[..n]);
    }
  }

  lemma {:induction false} MinimalRoundTrip(n: nat)
    ensures BigEndian(MinimalBytes(n)) == n
  {
    if n != 0 {
      var b := MinimalBytes(n / 256);
      MinimalRoundTrip(n / 256);
      assert (b + [n % 256])[..|b|] == b;
    }
  }

  lemma {:induction false} MinimalLength(n: nat, k: nat)
    ensures |MinimalBytes(n)| <= k <==> n < Pow256(k)
  {
    if n != 0 && k != 0 {
      MinimalLength(n / 256, k - 1);
    }
  }

  lemma ShiftedSum(x: nat, low: nat, p: nat, high: nat)
    ensures x + 256 * (low + p * high) == (x + 256 * low) + (256 * p) * high
  {
  }

  lemma {:induction false} LittleEndianJoin(a: seq<byte>, b: seq<byte>)
    ensures LittleEndian(a + b) == LittleEndian(a) + Pow256(|a|) * LittleEndian(b)
  {
    if a == [] {
      assert a + b == b;
    } else {
      var rest, p := LittleEndian(a[1..]), Pow256(|a| - 1);
      calc {
        LittleEndian(a + b);
        { assert (a + b)[1..] == a[1..] + b; }
        a[0] + 256 * LittleEndian(a[1..] + b);
        { LittleEndianJoin(a[1..], b); }
        a[0] + 256 * (rest + p * LittleEndian(b));
        { ShiftedSum(a[0], rest, p, LittleEndian(b)); }
        (a[0] + 256 * rest) + (256 * p) * LittleEndian(b);
      }
    }
  }

  lemma {:induction false} LittleEndianZeros(k: nat)
    ensures LittleEndian(Zeros(k)) == 0
  {
    if k != 0 {
      assert Zeros(k)[1..] == Zeros(k - 1);
      LittleEndianZeros(k - 1);
    }
  }

  lemma {:induction false} ZeroPadded(b: seq<byte>, k: nat)
    ensures LittleEndian(b + Zeros(k)) == LittleEndian(b)
  {
    if b == [] {
      assert b + Zeros(k) == Zeros(k);
      LittleEndianZeros(k);
    } else {
      assert (b + Zeros(k))[1..] == b[1..] + Zeros(k);
      ZeroPadded(b[1..], k);
    }
  }

  lemma {:induction false} LittleEndianBound(b: seq<byte>)
    ensures LittleEndian(b) < Pow256(|b|)
  {
    if b != [] {
      LittleEndianBound(b[1..]);
    }
  }

  /** Byte strings of one length and one value are equal. */
  lemma {:induction false} LittleEndianInjective(a: seq<byte>, b: seq<byte>)
    requires |a| == |b| && LittleEndian(a) == LittleEndian(b)
    ensures a == b
  {
    if a != [] {
      LittleEndianInjective(a[1..], b[1..]);
      assert a == [a[0]] + a[1..] && b == [b[0]] + b[1..];
    }
  }
}
