/** Types and integer ranges shared by every component. */
module Common {

  /** Largest value of a Postgres BIGINT column and of a Rust `i64`. */
  const I64_MAX: nat := 0x7FFF_FFFF_FFFF_FFFF

  /** Largest value of a Rust `u64`. */
  const U64_MAX: nat := 0xFFFF_FFFF_FFFF_FFFF

  datatype Option<+T> = None | Some(value: T)

  datatype Result<+T, +E> = Ok(value: T) | Err(error: E)

  type Byte = x: int | 0 <= x < 256 witness 0

  type Bytes = seq<Byte>

  /** A coin is known to the ledgers by scheme, denomination and serial number. */
  datatype CoinId = CoinId(scheme: nat, denom: nat, serial: Bytes)

  /** A bearer coin: its identity and the bank's signature over the serial. */
  datatype Coin = Coin(id: CoinId, signature: Bytes)

  /** `u64::saturating_add`. */
  function SaturatingAdd(a: nat, b: nat): nat {
    if a + b > U64_MAX then U64_MAX else a + b
  }
}
