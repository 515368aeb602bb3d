/** The Rust binding `city_hash_128`: it calls the C-ABI `CityHash128`
    wrapper and packs the two halves it writes into one `u128`. */
module CityHash {
  import opened Bytes
  import opened City
  import opened LowHigh

  /** `city_hash_128(bytes)`, with `cityHash128` standing for the C++
      `CityHash128` behind the foreign call. The low half of the `u128` is the
      C++ result's `low64` and the high half its `high64`: the packing order
      survives the trip through the two out-parameters. */
  function CityHash128Packed(cityHash128: seq<Byte> -> Uint128, bytes: seq<Byte>): (r: U128)
    ensures LowHalf(r) == Uint128Low64(cityHash128(bytes))
    ensures HighHalf(r) == Uint128High64(cityHash128(bytes))
  {
    var halves := CityHash128Abi(cityHash128, bytes);
    JoinSplit(halves.1, halves.0);
    FromHalfs(halves.1, halves.0)
  }
}
