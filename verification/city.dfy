/** The visible, self-contained parts of CityHash v1.0.2's header: the
    `uint128` value type, its accessors and ordering, the `Hash128to64`
    mixer, and the C-ABI wrapper that returns `CityHash128`'s two halves.
    The hash algorithm itself is not part of this model: callers pass it in
    as a function of the input bytes. */
module City {
  import opened Bytes

  /** `struct uint128`: two 64-bit members, `low64` declared first. */
  datatype Uint128 = Uint128(low64: U64, high64: U64)

  /** `Uint128Low64`: together with the other member it rebuilds the value. */
  function Uint128Low64(x: Uint128): (r: U64)
    ensures Uint128(r, x.high64) == x
  {
    x.low64
  }

  /** `Uint128High64`: together with the other member it rebuilds the value. */
  function Uint128High64(x: Uint128): (r: U64)
    ensures Uint128(x.low64, r) == x
  {
    x.high64
  }

  datatype Ordering = Less | Equivalent | Greater {
    function Reverse(): Ordering {
      match this
      case Less => Greater
      case Equivalent => Equivalent
      case Greater => Less
    }
  }

  function CompareU64(a: U64, b: U64): Ordering {
    if a < b then Less else if a == b then Equivalent else Greater
  }

  /** The defaulted `operator<=>`: members compared in declaration order,
      so `low64` decides first and `high64` only breaks ties. */
  function Compare(a: Uint128, b: Uint128): (r: Ordering)
    ensures r == Equivalent <==> a == b
    ensures r == Less <==> a.low64 < b.low64 || (a.low64 == b.low64 && a.high64 < b.high64)
  {
    var c := CompareU64(a.low64, b.low64);
    if c != Equivalent then c else CompareU64(a.high64, b.high64)
  }

  /** `uint128() = default`: both members take their initialiser, 0, which
      makes it the least value of the ordering. */
  function DefaultUint128(): (r: Uint128)
    ensures forall y :: Compare(r, y) != Greater
  {
    Uint128(0, 0)
  }

  /** Swapping the operands reverses the answer. */
  lemma CompareAntisymmetric(a: Uint128, b: Uint128)
    ensures Compare(b, a) == Compare(a, b).Reverse()
  {
  }

  /** `Less` is transitive, so the ordering is a strict total order. */
  lemma CompareTransitive(a: Uint128, b: Uint128, c: Uint128)
    requires Compare(a, b) == Less && Compare(b, c) == Less
    ensures Compare(a, c) == Less
  {
  }

  /** Because `low64` is compared first, the ordering is not the numeric
      order of the 128-bit value `high64 * 2^64 + low64`. */
  lemma CompareIsNotNumericOrder()
    ensures var one, twoTo64 := Uint128(1, 0), Uint128(0, 1);
      one.high64 * TWO64 + one.low64 < twoTo64.high64 * TWO64 + twoTo64.low64 &&
      Compare(one, twoTo64) == Greater
  {
  }

  const kMul: bv64 := 0x9ddfea08eb382d69

  /** Wrapping 64-bit multiplication by `kMul`. */
  function MulK(v: bv64): bv64 {
    v * kMul
  }

  /** `v ^= (v >> 47)`. */
  function XorShift47(v: bv64): bv64 {
    v ^ (v >> 47)
  }

  /** `Hash128to64`: Murmur-inspired mixing of both halves in wrapping
      64-bit arithmetic, step by step as the header writes it. */
  function Hash128to64(x: Uint128): U64 {
    var a := MulK((Uint128Low64(x) as bv64) ^ (Uint128High64(x) as bv64));
    var a := XorShift47(a);
    var b := MulK((Uint128High64(x) as bv64) ^ a);
    var b := XorShift47(b);
    var b := MulK(b);
    b as int
  }

  /** Zero is a fixed point of the mixer, and moving a single set bit from the
      low half to the high half changes the hash: the halves are not
      interchangeable. */
  lemma Hash128to64Values()
    ensures Hash128to64(DefaultUint128()) == 0
    ensures Hash128to64(Uint128(1, 0)) != Hash128to64(Uint128(0, 1))
  {
  }

  /** The C-ABI `CityHash128(s, len, result_low_128, result_high_128)`:
      `cityHash128` stands for the C++ `CityHash128(s, len)`; the pair holds
      what is written through `result_low_128` and `result_high_128`. */
  function CityHash128Abi(cityHash128: seq<Byte> -> Uint128, s: seq<Byte>): (r: (U64, U64))
    ensures Uint128(r.0, r.1) == cityHash128(s)
  {
    var result128 := cityHash128(s);
    (Uint128Low64(result128), Uint128High64(result128))
  }
}
