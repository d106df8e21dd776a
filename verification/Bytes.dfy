/** Bytes and little-endian integers, the encoding of every multi-octet HCI
    parameter (Bluetooth Core, Vol 4, Part E, section 5.2). */
module Bytes {
  import opened Arithmetic

  type byte = b: int | 0 <= b < 256

  /** The number of values a `width`-byte integer has. */
  function Power(width: nat): (power: int)
    ensures power > 0
  {
    if width == 0 then 1 else 256 * Power(width - 1)
  }

  /** The low `width` bytes of `n`, least significant first: a wider value is truncated. */
  function ToLe(n: nat, width: nat): (bytes: seq<byte>)
    ensures |bytes| == width
  {
    if width == 0 then [] else [n % 256] + ToLe(n / 256, width - 1)
  }

  function FromLe(bytes: seq<byte>): nat {
    if bytes == [] then 0 else bytes[0] + 256 * FromLe(bytes[1..])
  }

  lemma {:induction false} FromToLe(n: nat, width: nat)
    requires n < Power(width)
    ensures FromLe(ToLe(n, width)) == n
  {
    if width > 0 {
      FromToLe(n / 256, width - 1);
      assert ToLe(n, width)[1..] == ToLe(n / 256, width - 1);
    }
  }

  lemma {:induction false} ToFromLe(bytes: seq<byte>)
    ensures FromLe(bytes) < Power(|bytes|)
    ensures ToLe(FromLe(bytes), |bytes|) == bytes
  {
    if bytes != [] {
      ToFromLe(bytes[1..]);
      assert bytes == [bytes[0]] + bytes[1..];
      assert FromLe(bytes) / 256 == FromLe(bytes[1..]);
    }
  }

  // ----- which byte is which

  lemma {:induction false} PowerSplits(a: nat, b: nat)
    ensures Power(a + b) == Power(a) * Power(b)
  {
    if a > 0 {
      PowerSplits(a - 1, b);
      Regrouped(256, Power(a - 1), Power(b));
    }
  }

  /** Byte `i` of an integer's encoding counts multiples of 256 to the `i`: the least
      significant byte comes first. */
  lemma {:induction false} LeastFirst(n: nat, width: nat, i: nat)
    requires i < width
    ensures ToLe(n, width)[i] == n / Power(i) % 256
  {
    if i > 0 {
      LeastFirst(n / 256, width - 1, i - 1);
      DividedTwice(n, 256, Power(i - 1));
    }
  }

  /** The first `k` bytes, each times its power of 256. */
  function Weighted(bytes: seq<byte>, k: nat): nat
    requires k <= |bytes|
  {
    if k == 0 then 0 else Weighted(bytes, k - 1) + bytes[k - 1] * Power(k - 1)
  }

  lemma {:induction false} WeightedTail(bytes: seq<byte>, k: nat)
    requires 0 < k <= |bytes|
    ensures Weighted(bytes, k) == bytes[0] + 256 * Weighted(bytes[1..], k - 1)
  {
    if k > 1 {
      WeightedTail(bytes, k - 1);
      Regrouped(bytes[k - 1], 256, Power(k - 2));
      Regrouped(256, bytes[k - 1], Power(k - 2));
    }
  }

  lemma {:induction false} WeightedBound(bytes: seq<byte>, k: nat)
    requires k <= |bytes|
    ensures Weighted(bytes, k) < Power(k)
  {
    if k > 0 {
      WeightedBound(bytes, k - 1);
      Within(bytes[k - 1], 255, Power(k - 1));
    }
  }

  /** The integer bytes stand for is their sum, each times its power of 256. */
  lemma {:induction false} LeastFirstSum(bytes: seq<byte>)
    ensures FromLe(bytes) == Weighted(bytes, |bytes|)
  {
    if bytes != [] {
      LeastFirstSum(bytes[1..]);
      WeightedTail(bytes, |bytes|);
    }
  }

  lemma {:induction false} PowersOfTheScalars()
    ensures Power(1) == 0x100
    ensures Power(2) == 0x1_0000
    ensures Power(4) == 0x1_0000_0000
    ensures Power(8) == 0x1_0000_0000_0000_0000
  {
    assert Power(3) == 256 * Power(2);
    assert Power(5) == 256 * Power(4);
    assert Power(7) == 256 * Power(6);
  }
}
