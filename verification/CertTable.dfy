/** The certificates table every instance shares: one item per key, and the clock readings kept in lock items. */
module CertTable {
  import opened Common

  /** Times are in nanoseconds, as Go's clock counts them. */
  const SECOND := 1_000_000_000
  const LOCK_DURATION := 300 * SECOND
  const LOCK_POLL_EVERY := SECOND
  const LOCK_PREFIX := "locks/"

  type Bytes = seq<bv8>

  /** A stored item. Data items have no expiry and lock items no value or modified time; an expiry of 0 isn't stored. */
  datatype Item = Item(value: Bytes, modified: Option<int>, expires: int)

  type Table = map<string, Item>

  /** The whole second a clock reading falls in, counted from 1970: truncation is towards the past on either side. */
  function UnixSeconds(reading: int): int {
    reading / SECOND
  }

  function LockKey(name: string): string {
    LOCK_PREFIX + name
  }

  /** The item that takes a lock for someone whose clock reads `clock`. */
  function LockItem(clock: int): Item {
    Item([], None, UnixSeconds(clock + LOCK_DURATION))
  }

  /** The condition of the put that takes a lock. A comparison with an attribute that isn't there is false. */
  predicate MayTake(table: Table, key: string, clock: int) {
    key !in table || (table[key].expires != 0 && table[key].expires < UnixSeconds(clock))
  }
}
