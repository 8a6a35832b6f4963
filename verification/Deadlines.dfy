/** Deadlines that survive a restart (`src/persistence.rs:15-32`, `src/auth/store.rs:151-176`).

    Instants are nanoseconds of the process's monotonic clock; what is stored is milliseconds of the
    wall clock. The two clocks are in step when they advance together. */
module Deadlines {
  import opened Json

  const MILLI: nat := 1_000_000
  const SECOND: nat := 1_000_000_000
  const U64_MAX: nat := 0xFFFF_FFFF_FFFF_FFFF

  /** One reading of both clocks. A monotonic instant may precede the clock's origin. */
  datatype Clock = Clock(mono: int, wall: nat)

  predicate InStep(a: Clock, b: Clock) {
    a.wall - a.mono == b.wall - b.mono
  }

  function Min(a: nat, b: nat): nat {
    if a <= b then a else b
  }

  function InstantToUnixMillis(deadline: int, c: Clock): nat {
    var remaining := if deadline > c.mono then deadline - c.mono else 0;
    Min((c.wall + remaining) / MILLI, U64_MAX)
  }

  /** The time left until a stored deadline, in nanoseconds. */
  function RemainingUntilUnixMillis(deadlineMs: nat, c: Clock): nat {
    var nowMs := Min(c.wall / MILLI, U64_MAX);
    if deadlineMs > nowMs then (deadlineMs - nowMs) * MILLI else 0
  }

  /** A stored deadline has time left exactly until the wall clock's millisecond reaches it, and then as many
      milliseconds as lie between. */
  lemma TimeLeftExactly(deadlineMs: nat, c: Clock)
    requires c.wall < (U64_MAX + 1) * MILLI
    ensures RemainingUntilUnixMillis(deadlineMs, c) == 0 <==> deadlineMs <= c.wall / 1_000_000
    ensures deadlineMs > c.wall / 1_000_000 ==>
      RemainingUntilUnixMillis(deadlineMs, c) == deadlineMs * 1_000_000 - c.wall / 1_000_000 * 1_000_000
  {
    assert (deadlineMs - c.wall / MILLI) * MILLI == deadlineMs * MILLI - c.wall / MILLI * MILLI;
  }

  /** A deadline is stored as the millisecond it falls in on the wall clock; one already past, as now. */
  lemma StoredExactly(deadline: int, c: Clock)
    requires c.wall + (if deadline > c.mono then deadline - c.mono else 0) < (U64_MAX + 1) * MILLI
    ensures var at := if deadline > c.mono then c.wall + (deadline - c.mono) else c.wall;
      var stored := InstantToUnixMillis(deadline, c);
      stored * 1_000_000 <= at < (stored + 1) * 1_000_000
  {
  }

  // ---------------------------------------------------------------- tokens

  datatype StoredToken = StoredToken(access: string, refresh: Option<string>, expiresAt: Option<int>)

  datatype PersistedToken = PersistedToken(
    access: string, refresh: Option<string>, expiresAtMs: Option<nat>, expiresInSecs: Option<nat>)

  function FromStored(t: StoredToken, c: Clock): PersistedToken {
    PersistedToken(
      t.access, t.refresh,
      if t.expiresAt.Some? then Some(InstantToUnixMillis(t.expiresAt.value, c)) else None,
      None)
  }

  function IntoStored(p: PersistedToken, c: Clock): StoredToken {
    StoredToken(
      p.access, p.refresh,
      match p.expiresAtMs
      case Some(d) => Some(c.mono + RemainingUntilUnixMillis(d, c))
      case None => if p.expiresInSecs.Some? then Some(c.mono + p.expiresInSecs.value * SECOND) else None)
  }

  /** The instant a stored deadline is rebuilt as, on a process whose clocks now read `c`. */
  function Rebuilt(deadlineMs: nat, c: Clock): int {
    c.mono + RemainingUntilUnixMillis(deadlineMs, c)
  }

  lemma RebuiltInItsMillisecond(deadlineMs: nat, load: Clock)
    requires deadlineMs <= U64_MAX && RemainingUntilUnixMillis(deadlineMs, load) > 0
    ensures deadlineMs * MILLI <= Rebuilt(deadlineMs, load) + load.wall - load.mono < (deadlineMs + 1) * MILLI
  {
    var nowMs := load.wall / MILLI;
    assert nowMs < deadlineMs && load.wall == nowMs * MILLI + load.wall % MILLI;
    assert (deadlineMs - nowMs) * MILLI == deadlineMs * MILLI - nowMs * MILLI;
  }

  /** Saving a rebuilt deadline again stores the same millisecond, exactly as long as that millisecond
      has not passed on the wall clock. */
  lemma ResavedExactly(deadlineMs: nat, load: Clock, save: Clock)
    requires InStep(load, save) && deadlineMs <= U64_MAX
    requires RemainingUntilUnixMillis(deadlineMs, load) > 0
    ensures InstantToUnixMillis(Rebuilt(deadlineMs, load), save) == deadlineMs
        <==> Min(save.wall / MILLI, U64_MAX) <= deadlineMs
  {
    RebuiltInItsMillisecond(deadlineMs, load);
  }

  datatype Cycle = Cycle(load: Clock, save: Clock)

  /** What is stored after a number of restarts, each a load and a save. */
  function AfterCycles(t: PersistedToken, cycles: seq<Cycle>): PersistedToken {
    if cycles == [] then t
    else
      var last := cycles[|cycles| - 1];
      FromStored(IntoStored(AfterCycles(t, cycles[..|cycles| - 1]), last.load), last.save)
  }

  /** The clocks stay in step, and the deadline is ahead at every load and not past at every save. */
  predicate Unexpired(deadlineMs: nat, cycles: seq<Cycle>) {
    forall k | 0 <= k < |cycles| ::
      && InStep(cycles[k].load, cycles[k].save)
      && RemainingUntilUnixMillis(deadlineMs, cycles[k].load) > 0
      && cycles[k].save.mono <= Rebuilt(deadlineMs, cycles[k].load)
  }

  /** Nothing of a token but its deadline is changed by storing it; a record of an older version has its time
      left in seconds, from when it is read. */
  lemma StoredAndRead(t: StoredToken, p: PersistedToken, save: Clock, load: Clock)
    ensures var stored := FromStored(t, save);
      stored.access == t.access && stored.refresh == t.refresh && stored.expiresInSecs.None?
      && (stored.expiresAtMs.Some? <==> t.expiresAt.Some?)
    ensures var read := IntoStored(p, load);
      read.access == p.access && read.refresh == p.refresh
      && (read.expiresAt.Some? <==> p.expiresAtMs.Some? || p.expiresInSecs.Some?)
      && (p.expiresAtMs.None? && p.expiresInSecs.Some? ==>
            read.expiresAt.value == load.mono + p.expiresInSecs.value * 1_000_000_000)
  {
  }

  /** Any number of restarts leaves an unexpired token exactly as it was stored. */
  lemma {:induction false} DeadlineSurvivesRestarts(t: PersistedToken, deadlineMs: nat, cycles: seq<Cycle>)
    requires t.expiresAtMs == Some(deadlineMs) && deadlineMs <= U64_MAX && t.expiresInSecs.None?
    requires Unexpired(deadlineMs, cycles)
    ensures AfterCycles(t, cycles) == t
  {
    if cycles != [] {
      var front, last := cycles[..|cycles| - 1], cycles[|cycles| - 1];
      DeadlineSurvivesRestarts(t, deadlineMs, front);
      RebuiltInItsMillisecond(deadlineMs, last.load);
      ResavedExactly(deadlineMs, last.load, last.save);
    }
  }

  /** The deadline rebuilt after any number of restarts is within a millisecond of the original one, on
      the wall clock both are read by. */
  lemma RebuiltWithinAMillisecond(t: StoredToken, deadline: int, first: Clock, cycles: seq<Cycle>, load: Clock)
    requires t.expiresAt == Some(deadline) && first.mono <= deadline
    requires first.wall + deadline - first.mono < (U64_MAX + 1) * MILLI
    requires Unexpired(FromStored(t, first).expiresAtMs.value, cycles)
    requires RemainingUntilUnixMillis(FromStored(t, first).expiresAtMs.value, load) > 0
    ensures var again := IntoStored(AfterCycles(FromStored(t, first), cycles), load);
      && again.access == t.access && again.refresh == t.refresh && again.expiresAt.Some?
      && var original, rebuilt := deadline + first.wall - first.mono, again.expiresAt.value + load.wall - load.mono;
         -(MILLI as int) < rebuilt - original < MILLI
  {
    var stored := FromStored(t, first);
    DeadlineSurvivesRestarts(stored, stored.expiresAtMs.value, cycles);
    RebuiltInItsMillisecond(stored.expiresAtMs.value, load);
  }
}
