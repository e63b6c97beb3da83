/** Unsigned integer types of the driver and the bit operations it applies to
    them, defined on naturals so that their meaning can be stated as arithmetic. */
module Bits {

  type u8 = x: int | 0 <= x < 0x100
  type u16 = x: int | 0 <= x < 0x1_0000
  type u32 = x: int | 0 <= x < 0x1_0000_0000
  type u64 = x: int | 0 <= x < 0x1_0000_0000_0000_0000

  function Pow2(k: nat): (r: nat)
    ensures r >= 1
  {
    if k == 0 then 1 else 2 * Pow2(k - 1)
  }

  /** Bitwise AND, one binary digit at a time from the least significant. */
  function And(x: nat, y: nat): (r: nat)
    ensures r <= x && r <= y
  {
    if x == 0 || y == 0 then 0
    else 2 * And(x / 2, y / 2) + (if x % 2 == 1 && y % 2 == 1 then 1 else 0)
  }

  /** Bitwise OR, one binary digit at a time from the least significant. */
  function Or(x: nat, y: nat): (r: nat)
    ensures r >= x && r >= y
    ensures r <= x + y
  {
    if x == 0 then y
    else if y == 0 then x
    else 2 * Or(x / 2, y / 2) + (if x % 2 == 1 || y % 2 == 1 then 1 else 0)
  }

  /** `x << k` on a 64-bit unsigned value: bits shifted past bit 63 are lost. */
  function Shl64(x: u64, k: nat): (r: u64)
    requires k < 64
    ensures x * Pow2(k) < 0x1_0000_0000_0000_0000 ==> r == x * Pow2(k)
  {
    (x * Pow2(k)) % 0x1_0000_0000_0000_0000
  }

  lemma {:induction false} Pow2Add(j: nat, k: nat)
    ensures Pow2(j + k) == Pow2(j) * Pow2(k)
  {
    if j > 0 {
      Pow2Add(j - 1, k);
    }
  }

  /** Masking with `2^k - 1` keeps exactly the k low bits. */
  lemma {:induction false} AndLowMask(x: nat, k: nat)
    ensures And(x, Pow2(k) - 1) == x % Pow2(k)
  {
    if k > 0 && x > 0 {
      var m := Pow2(k - 1);
      assert Pow2(k) - 1 == 2 * m - 1;
      AndOddMask(x, m);
      AndLowMask(x / 2, k - 1);
      ModDouble(x, m);
      assert x % Pow2(k) == x % (2 * m);
    } else if k == 0 {
      assert Pow2(k) == 1;
    } else {
      assert x == 0;
    }
  }

  /** One step of AND with an odd mask `2m - 1`: the lowest bit of `x` is
      kept, the rest is AND-ed with `m - 1`. */
  lemma AndOddMask(x: nat, m: nat)
    requires x > 0 && m > 0
    ensures And(x, 2 * m - 1) == 2 * And(x / 2, m - 1) + x % 2
  {
    var y := 2 * m - 1;
    assert y / 2 == m - 1 && y % 2 == 1;
  }

  /** The remainder is determined by any quotient-remainder split. */
  lemma ModUnique(x: int, d: int, q: int, r: int)
    requires d > 0 && 0 <= r < d && x == d * q + r
    ensures x % d == r && x / d == q
  {
    var t := x / d - q;
    assert d * t == r - x % d by {
      assert x == d * (x / d) + x % d;
    }
  }

  lemma ModDouble(x: nat, m: nat)
    requires m > 0
    ensures x % (2 * m) == 2 * ((x / 2) % m) + x % 2
  {
    var h := x / 2;
    var q, r := h / m, h % m;
    assert h == m * q + r;
    assert x == 2 * h + x % 2;
    assert x == (2 * m) * q + (2 * r + x % 2);
    ModUnique(x, 2 * m, q, 2 * r + x % 2);
  }

  /** OR of a multiple of `2^k` with a value below `2^k` is their sum: the
      operands occupy disjoint bit ranges. */
  lemma {:induction false} OrDisjoint(a: nat, k: nat, b: nat)
    requires b < Pow2(k)
    ensures Or(a * Pow2(k), b) == a * Pow2(k) + b
  {
    if k > 0 && a > 0 && b > 0 {
      var m := Pow2(k - 1);
      var x := a * Pow2(k);
      assert x == 2 * (a * m);
      assert x / 2 == a * m && x % 2 == 0;
      assert Or(x, b) == 2 * Or(a * m, b / 2) + b % 2;
      OrDisjoint(a, k - 1, b / 2);
    }
  }

  /** `u16::to_be_bytes`: the most significant byte first. */
  function ToBeBytes(w: u16): (r: seq<u8>)
    ensures |r| == 2 && (r[0] as int) * 0x100 + r[1] == w
  {
    [w / 0x100, w % 0x100]
  }

  /** `u16::from_be_bytes`: the first byte is the most significant. */
  function FromBeBytes(hi: u8, lo: u8): (r: u16)
    ensures r / 0x100 == hi && r % 0x100 == lo
  {
    hi * 0x100 + lo
  }

  /** Splitting a word into big-endian bytes and joining them back is the identity. */
  lemma BeBytesRoundTrip(w: u16)
    ensures FromBeBytes(ToBeBytes(w)[0], ToBeBytes(w)[1]) == w
  {
  }

  /** Joining two bytes and splitting the word again gives the same bytes. */
  lemma BeBytesRoundTripBytes(hi: u8, lo: u8)
    ensures ToBeBytes(FromBeBytes(hi, lo)) == [hi, lo]
  {
  }
}
