/** What several modules share. */
module Common {

  datatype Option<+T> = None | Some(value: T)

  /** Unsigned integers of 64 bits are counted modulo 2^64. */
  const WRAP: nat := 0x1_0000_0000_0000_0000

  const TWO_TO_32: nat := 0x1_0000_0000

  /** `fetch_add(1)` on an atomic counter of 64 bits. */
  function FetchAdd(sequence: nat): nat { (sequence + 1) % WRAP }

  /** The retry limit of SeqLockReader::Read. */
  const MAX_RETRY_COUNT: nat := 1000
}
