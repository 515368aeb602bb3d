/** The `LowHigh` trait for `u128`: splitting a 128-bit integer into its two
    64-bit halves and joining two halves back together. Each operation is
    written with the casts, shifts and `|=` that the Rust code uses. */
module LowHigh {
  import opened Bytes

  function Pow2(n: nat): (r: nat)
    ensures r >= 1
  {
    if n == 0 then 1 else 2 * Pow2(n - 1)
  }

  lemma {:induction false} Pow2Add(m: nat, n: nat)
    ensures Pow2(m + n) == Pow2(m) * Pow2(n)
  {
    if m > 0 {
      Pow2Add(m - 1, n);
      var p: int, q: int := Pow2(m - 1), Pow2(n);
      assert Pow2(m + n) == 2 * (p * q);
      assert Pow2(m) == 2 * p;
      assert 2 * (p * q) == (2 * p) * q;
    }
  }

  lemma Pow2Byte()
    ensures Pow2(8) == 256
  {
    assert Pow2(2) == 4 by { assert Pow2(1) == 2; }
    assert Pow2(4) == 16 by { Pow2Add(2, 2); }
    Pow2Add(4, 4);
  }

  lemma Pow2Word()
    ensures Pow2(32) == TWO32
  {
    Pow2Byte();
    Pow2Add(8, 8);
    Pow2Add(16, 16);
  }

  lemma Pow2Widths()
    ensures Pow2(64) == TWO64 && Pow2(128) == TWO128
  {
    Pow2Word();
    Pow2Add(32, 32);
    Pow2Add(64, 64);
  }

  /** `a | b` restricted to the low `n` bits, built bit by bit from the least
      significant one. */
  function BitOr(a: nat, b: nat, n: nat): (r: nat)
    ensures r < Pow2(n)
  {
    if n == 0 then 0
    else (if a % 2 == 1 || b % 2 == 1 then 1 else 0) + 2 * BitOr(a / 2, b / 2, n - 1)
  }

  /** Or-ing zero into a value that fits in `n` bits leaves it unchanged. */
  lemma {:induction false} BitOrZero(a: nat, n: nat)
    requires a < Pow2(n)
    ensures BitOr(a, 0, n) == a
  {
    if n > 0 {
      BitOrZero(a / 2, n - 1);
    }
  }

  /** When `b` lives in the low `k` bits and `q * 2^k` has those bits clear,
      the bits never overlap and the or is a sum. */
  lemma {:induction false} BitOrDisjoint(q: nat, b: nat, k: nat, n: nat)
    requires k <= n && q * Pow2(k) < Pow2(n) && b < Pow2(k)
    ensures BitOr(q * Pow2(k), b, n) == q * Pow2(k) + b
  {
    if k == 0 {
      BitOrZero(q, n);
    } else {
      var a := q * Pow2(k);
      assert a == 2 * (q * Pow2(k - 1));
      BitOrDisjoint(q, b / 2, k - 1, n - 1);
    }
  }

  /** `self as u64` on a `u128`: the cast keeps the low 64 bits. */
  function TruncateToU64(x: U128): U64 {
    x % TWO64
  }

  /** `self >> u64::BITS` on a `u128`. */
  function ShiftRight64(x: U128): U128 {
    x / TWO64
  }

  /** `res <<= u64::BITS` on a `u128`: bits pushed past bit 127 are lost. */
  function ShiftLeft64(x: U128): U128 {
    (x * TWO64) % TWO128
  }

  /** `res |= v` on a `u128`. */
  function Or128(a: U128, b: U128): (r: U128)
    ensures a % TWO64 == 0 && b < TWO64 ==> r == a + b
  {
    Pow2Widths();
    if a % TWO64 == 0 && b < TWO64 then BitOrDisjoint(a / TWO64, b, 64, 128); BitOr(a, b, 128)
    else BitOr(a, b, 128)
  }

  /** A 64-bit value shifted left by 64 bits loses nothing and has its low
      64 bits clear. */
  lemma ShiftLeftHalf(v: U64)
    ensures ShiftLeft64(v) == v * TWO64
    ensures (v * TWO64) % TWO64 == 0 && (v * TWO64) / TWO64 == v
  {
    DivModUnique(0, v * TWO64, TWO128);
    DivModUnique(v, 0, TWO64);
  }

  /** The two halves of `high * 2^64 + low` are `high` and `low`. */
  lemma HalvesOf(high: U64, low: U64)
    ensures (high * TWO64 + low) % TWO64 == low
    ensures ((high * TWO64 + low) / TWO64) % TWO64 == high
  {
    DivModUnique(high, low, TWO64);
    DivModUnique(0, high, TWO64);
  }

  // ---- little-endian targets (the branch every supported host takes) ----

  /** `low_half` for `target_endian = "little"`: `self as u64`, what is left
      of `x` below its high half. */
  function LowHalf(x: U128): (r: U64)
    ensures x == HighHalf(x) * TWO64 + r
  {
    TruncateToU64(x)
  }

  /** `high_half` for `target_endian = "little"`: `(self >> u64::BITS) as u64`.
      The shifted value already fits in 64 bits, so the cast loses nothing. */
  function HighHalf(x: U128): (r: U64)
    ensures r == x / TWO64
  {
    var q := ShiftRight64(x);
    assert q < TWO64;
    DivModUnique(0, q, TWO64);
    TruncateToU64(q)
  }

  /** `from_halfs` for `target_endian = "little"`: the first argument becomes
      the high 64 bits and the second the low 64 bits. */
  function FromHalfs(high: U64, low: U64): (r: U128)
    ensures r == high * TWO64 + low
  {
    var res: U128 := high;
    ShiftLeftHalf(res);
    var res := ShiftLeft64(res);
    Or128(res, low)
  }

  /** The halves are the quotient and remainder of `x` by 2^64. */
  lemma Halves(x: U128)
    ensures LowHalf(x) == x % TWO64
    ensures HighHalf(x) == x / TWO64
    ensures x == HighHalf(x) * TWO64 + LowHalf(x)
  {
    var q := x / TWO64;
    assert q < TWO64;
    DivModUnique(0, q, TWO64);
  }

  /** Splitting then joining is the identity on every `u128`. */
  lemma SplitJoin(x: U128)
    ensures FromHalfs(HighHalf(x), LowHalf(x)) == x
  {
    Halves(x);
  }

  /** Joining then splitting gives back both halves. */
  lemma JoinSplit(high: U64, low: U64)
    ensures LowHalf(FromHalfs(high, low)) == low
    ensures HighHalf(FromHalfs(high, low)) == high
  {
    var x := FromHalfs(high, low);
    HalvesOf(high, low);
    assert LowHalf(x) == x % TWO64 && HighHalf(x) == (x / TWO64) % TWO64;
  }

  /** The examples documented on the trait and checked by the module's tests. */
  lemma DocumentedExamples()
    ensures LowHalf(0xAAAA_AAAA_AAAA_AAAA_BBBB_BBBB_BBBB_BBBB) == 0xBBBB_BBBB_BBBB_BBBB
    ensures HighHalf(0xAAAA_AAAA_AAAA_AAAA_BBBB_BBBB_BBBB_BBBB) == 0xAAAA_AAAA_AAAA_AAAA
    ensures FromHalfs(0xAAAA_AAAA_AAAA_AAAA, 0xBBBB_BBBB_BBBB_BBBB) == 0xAAAA_AAAA_AAAA_AAAA_BBBB_BBBB_BBBB_BBBB
  {
  }

  // ---- big-endian targets ----

  /** `low_half` for `target_endian = "big"`: `(self >> u64::BITS) as u64`,
      the top 64 bits of `x`. */
  function LowHalfBigEndian(x: U128): (r: U64)
    ensures r == x / TWO64
  {
    var q := ShiftRight64(x);
    assert q < TWO64;
    DivModUnique(0, q, TWO64);
    TruncateToU64(q)
  }

  /** `high_half` for `target_endian = "big"`: `self as u64`, what is left of
      `x` below its low half. */
  function HighHalfBigEndian(x: U128): (r: U64)
    ensures x == LowHalfBigEndian(x) * TWO64 + r
  {
    TruncateToU64(x)
  }

  /** `from_halfs` for `target_endian = "big"`: the second argument becomes the
      high 64 bits and the first the low 64 bits. */
  function FromHalfsBigEndian(high: U64, low: U64): (r: U128)
    ensures r == low * TWO64 + high
  {
    var res: U128 := low;
    ShiftLeftHalf(res);
    var res := ShiftLeft64(res);
    Or128(res, high)
  }

  /** The big-endian branch picks the opposite bits for each half, yet both of
      its round trips still hold. */
  lemma BigEndianRoundTrips(x: U128, high: U64, low: U64)
    ensures FromHalfsBigEndian(HighHalfBigEndian(x), LowHalfBigEndian(x)) == x
    ensures LowHalfBigEndian(FromHalfsBigEndian(high, low)) == low
    ensures HighHalfBigEndian(FromHalfsBigEndian(high, low)) == high
  {
    Halves(x);
    HalvesOf(low, high);
  }
}
