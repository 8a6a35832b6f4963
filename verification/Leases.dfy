/** Leased locks, as every store takes them (`src/constants.rs:89-102`). Times are milliseconds. */
module Leases {
  datatype Lease<O> = Lease(owner: O, expiry: nat)

  const LOCK_TTL: nat := 15_000
  const LOCK_WAIT: nat := 20_000
  const LOCK_POLL: nat := 100
}
