/** What a session's opaque tokens are (`src/auth/store.rs:180-187`). */
module OpaqueTokens {
  /** The pair of a session, and when each runs out. */
  datatype Mapping = Mapping(access: string, refresh: string, accessExp: nat, refreshExp: nat)
}
