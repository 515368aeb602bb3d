/** Fixed-width unsigned integers and their little-endian byte encodings,
    as `u32::from_le_bytes` and `ReadBytesExt::read_u64::<LittleEndian>` read them. */
module Bytes {

  const TWO32: int := 0x1_0000_0000
  const TWO64: int := 0x1_0000_0000_0000_0000
  const TWO128: int := 0x1_0000_0000_0000_0000_0000_0000_0000_0000

  type Byte = x: int | 0 <= x < 0x100
  type U32 = x: int | 0 <= x < TWO32
  type U64 = x: int | 0 <= x < TWO64
  type U128 = x: int | 0 <= x < TWO128

  /** A positive multiple of `d` is at least `d`. */
  lemma MulAtLeast(d: int, n: int)
    requires d > 0 && n >= 1
    ensures d * n >= d
  {
    assert d * n == d * (n - 1) + d;
    assert d * (n - 1) >= 0;
  }

  /** Euclidean division of `q * d + r` by `d` gives back `q` and `r`. */
  lemma DivModUnique(q: int, r: int, d: int)
    requires 0 < d && 0 <= q && 0 <= r < d
    ensures (q * d + r) / d == q && (q * d + r) % d == r
  {
    var x := q * d + r;
    var k, m := x / d, x % d;
    assert x == d * k + m;
    assert d * k + m == d * q + r;
    if k > q {
      assert d * k == d * q + d * (k - q);
      MulAtLeast(d, k - q);
      assert false;
    } else if k < q {
      assert d * q == d * k + d * (q - k);
      MulAtLeast(d, q - k);
      assert false;
    }
  }

  function Pow256(n: nat): (r: nat)
    ensures r >= 1
  {
    if n == 0 then 1 else 256 * Pow256(n - 1)
  }

  /** The unsigned integer whose little-endian encoding is `b`:
      `b[0]` is the least significant byte. */
  function FromLe(b: seq<Byte>): (r: nat)
    ensures r < Pow256(|b|)
  {
    if |b| == 0 then 0 else b[0] + 256 * FromLe(b[1..])
  }

  /** The `n`-byte little-endian encoding of `x`, least significant byte first. */
  function ToLe(x: nat, n: nat): (r: seq<Byte>)
    ensures |r| == n
  {
    if n == 0 then [] else [x % 256] + ToLe(x / 256, n - 1)
  }

  /** Encoding then decoding gives back every value that fits in `n` bytes. */
  lemma {:induction false} FromLeToLe(x: nat, n: nat)
    requires x < Pow256(n)
    ensures FromLe(ToLe(x, n)) == x
  {
    if n > 0 {
      assert x / 256 < Pow256(n - 1);
      FromLeToLe(x / 256, n - 1);
      assert ToLe(x, n)[1..] == ToLe(x / 256, n - 1);
    }
  }

  /** Decoding then encoding gives back every byte string. */
  lemma {:induction false} ToLeFromLe(b: seq<Byte>)
    ensures ToLe(FromLe(b), |b|) == b
  {
    if |b| > 0 {
      var x := FromLe(b);
      assert x % 256 == b[0] && x / 256 == FromLe(b[1..]);
      ToLeFromLe(b[1..]);
    }
  }

  lemma Distribute256(x: int, p: int, y: int)
    ensures 256 * (x + p * y) == 256 * x + (256 * p) * y
  {
  }

  /** The bytes of `b` follow those of `a`, so they weigh `256^|a|` times more. */
  lemma {:induction false} FromLeAppend(a: seq<Byte>, b: seq<Byte>)
    ensures FromLe(a + b) == FromLe(a) + Pow256(|a|) * FromLe(b)
  {
    if |a| > 0 {
      var ab := a + b;
      assert ab[0] == a[0] && ab[1..] == a[1..] + b;
      FromLeAppend(a[1..], b);
      var x: int, p: int, y: int := FromLe(a[1..]), Pow256(|a| - 1), FromLe(b);
      assert FromLe(ab) == a[0] + 256 * (x + p * y);
      assert FromLe(a) == a[0] + 256 * x;
      assert Pow256(|a|) == 256 * p;
      Distribute256(x, p, y);
    } else {
      assert a + b == b;
    }
  }

  /** `u32::from_le_bytes`: the first byte is the least significant. */
  function U32FromLeBytes(b: seq<Byte>): (r: U32)
    requires |b| == 4
    ensures r == b[0] as int + 0x100 * b[1] as int + 0x1_0000 * b[2] as int + 0x100_0000 * b[3] as int
  {
    assert FromLe(b[3..]) == b[3] by { assert b[3..][1..] == []; }
    assert FromLe(b[2..]) == b[2] as int + 256 * b[3] as int by { assert b[2..][1..] == b[3..]; }
    assert FromLe(b[1..]) == b[1] + 256 * FromLe(b[2..]) by { assert b[1..][1..] == b[2..]; }
    assert Pow256(4) == TWO32;
    FromLe(b)
  }

  /** `u32::from_le_bytes` inverts the four-byte little-endian encoding. */
  lemma U32RoundTrip(x: U32)
    ensures U32FromLeBytes(ToLe(x, 4)) == x
  {
    assert Pow256(4) == TWO32;
    FromLeToLe(x, 4);
  }

  /** `read_u64::<LittleEndian>` on eight bytes. */
  function U64FromLeBytes(b: seq<Byte>): (r: U64)
    requires |b| == 8
    ensures r == FromLe(b[..4]) + TWO32 * FromLe(b[4..])
  {
    assert Pow256(8) == TWO64;
    assert Pow256(4) == TWO32;
    FromLeAppend(b[..4], b[4..]);
    assert b[..4] + b[4..] == b;
    FromLe(b)
  }

  /** Sixteen little-endian bytes: the first eight are the low 64 bits and
      the last eight the high 64 bits. */
  lemma {:induction false} FromLeHalves(b: seq<Byte>)
    requires |b| == 16
    ensures FromLe(b) == FromLe(b[8..]) * TWO64 + FromLe(b[..8])
  {
    assert b[..8] + b[8..] == b;
    FromLeAppend(b[..8], b[8..]);
    assert Pow256(8) == TWO64;
  }
}
