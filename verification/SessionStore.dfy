/** One replica's `SessionStore` (`src/session/mod.rs:168-422`), as the code updates it in place: a map
    of cached sessions over an optional backend. Each method takes the clock reading it runs at; the
    distributed lock, and what other replicas do meanwhile, are the subject of `SessionReplicas`. */
module SessionStore {
  import opened Json
  import opened Deadlines

  datatype Entry<T> = Entry(data: T, lastAccess: int)

  /** A persisted session; records of older versions carry a remaining lifetime instead. */
  datatype Record<T> = Record(data: T, expiresAtMs: Option<nat>, remainingTtlSecs: Option<nat>)

  type Records<T> = map<string, Record<T>>

  class Backend<T> {
    var records: Records<T>

    constructor ()
      ensures records == map[]
    {
      records := map[];
    }
  }

  predicate Expired<T>(r: Record<T>, c: Clock) {
    r.expiresAtMs.Some? && RemainingUntilUnixMillis(r.expiresAtMs.value, c) == 0
  }

  /** What `load_session_from_backend` finds, and what it leaves behind: expired records are deleted. */
  function LoadRecord<T>(records: Records<T>, id: string, c: Clock): Option<T> {
    if id in records && !Expired(records[id], c) then Some(records[id].data) else None
  }

  function AfterLoad<T>(records: Records<T>, id: string, c: Clock): Records<T> {
    if id in records && Expired(records[id], c) then records - {id} else records
  }

  function Fresh<T>(data: T, ttl: nat, c: Clock): Record<T> {
    Record(data, Some(InstantToUnixMillis(c.mono + ttl, c)), None)
  }

  /** The time a loaded record has left, capped by the store's own lifetime. */
  function Remaining<T>(r: Record<T>, ttl: nat, c: Clock): nat {
    Min(Uncapped(r, c), ttl)
  }

  function Uncapped<T>(r: Record<T>, c: Clock): nat {
    match r.expiresAtMs
    case Some(d) => RemainingUntilUnixMillis(d, c)
    case None => if r.remainingTtlSecs.Some? then r.remainingTtlSecs.value * SECOND else 0
  }

  function Reload<T>(r: Record<T>, ttl: nat, c: Clock): Entry<T> {
    Entry(r.data, c.mono - (ttl - Remaining(r, ttl, c)))
  }

  /** The test `purge_expired` makes; a duration never comes out negative. */
  predicate Purgeable<T>(e: Entry<T>, ttl: nat, now: int) {
    (if now > e.lastAccess then now - e.lastAccess else 0) >= ttl
  }

  class Store<T> {
    var sessions: map<string, Entry<T>>
    const ttl: nat
    const default: T
    const backend: Backend?<T>

    constructor (ttl: nat, default: T, backend: Backend?<T>)
      ensures sessions == map[] && this.ttl == ttl && this.default == default && this.backend == backend
    {
      sessions, this.ttl, this.default, this.backend := map[], ttl, default, backend;
    }

    /** The persisted records; none without a backend. */
    function Stored(): Records<T>
      reads this, backend
    {
      if backend == null then map[] else backend.records
    }

    method LoadFromBackend(id: string, c: Clock) returns (r: Option<T>)
      modifies backend
      ensures r == LoadRecord(old(Stored()), id, c) && Stored() == AfterLoad(old(Stored()), id, c)
    {
      if backend == null || id !in backend.records {
        return None;
      }
      var record := backend.records[id];
      if Expired(record, c) {
        backend.records := backend.records - {id};
        return None;
      }
      return Some(record.data);
    }

    method PersistEntry(id: string, data: T, c: Clock)
      modifies backend
      ensures backend != null ==> Stored() == old(Stored())[id := Fresh(data, ttl, c)]
    {
      if backend != null {
        backend.records := backend.records[id := Fresh(data, ttl, c)];
      }
    }

    /** The value an operation starts from: the backend's, else the cached one. */
    function Current(id: string, c: Clock): Option<T>
      reads this, backend
    {
      var loaded := LoadRecord(Stored(), id, c);
      if loaded.Some? then loaded
      else if id in sessions then Some(sessions[id].data)
      else None
    }

    method GetOrCreate(id: string, c: Clock) returns (data: T)
      modifies this`sessions, backend
      ensures data == (var current := old(Current(id, c)); if current.Some? then current.value else default)
      ensures sessions == old(sessions)[id := Entry(data, c.mono)]
      ensures backend != null ==> Stored() == old(Stored())[id := Fresh(data, ttl, c)]
    {
      var loaded := LoadFromBackend(id, c);
      if id !in sessions {
        sessions := sessions[id := Entry(default, c.mono)];
      }
      if loaded.Some? {
        sessions := sessions[id := sessions[id].(data := loaded.value)];
      }
      sessions := sessions[id := sessions[id].(lastAccess := c.mono)];
      data := sessions[id].data;
      PersistEntry(id, data, c);
    }

    method Get(id: string, c: Clock) returns (r: Option<T>)
      modifies this`sessions, backend
      ensures r == old(Current(id, c))
      ensures r.Some? ==>
        && sessions == old(sessions)[id := Entry(r.value, c.mono)]
        && (backend != null ==> Stored() == old(Stored())[id := Fresh(r.value, ttl, c)])
      ensures r.None? ==> sessions == old(sessions) && Stored() == AfterLoad(old(Stored()), id, c)
    {
      var persisted := LoadFromBackend(id, c);
      var cached := if id in sessions then Some(sessions[id].data) else None;
      r := if persisted.Some? then persisted else cached;
      if r.None? {
        return;
      }
      sessions := sessions[id := Entry(r.value, c.mono)];
      PersistEntry(id, r.value, c);
    }

    method Update(id: string, f: T -> T, c: Clock) returns (data: T)
      modifies this`sessions, backend
      ensures data == (var current := old(Current(id, c)); f(if current.Some? then current.value else default))
      ensures sessions == old(sessions)[id := Entry(data, c.mono)]
      ensures backend != null ==> Stored() == old(Stored())[id := Fresh(data, ttl, c)]
    {
      var loaded := LoadFromBackend(id, c);
      var base := if id in sessions then sessions[id].data else default;
      if loaded.Some? {
        base := loaded.value;
      }
      data := f(base);
      sessions := sessions[id := Entry(data, c.mono)];
      PersistEntry(id, data, c);
    }

    method Remove(id: string, c: Clock) returns (removed: Option<T>)
      modifies this`sessions, backend
      ensures removed == old(Current(id, c))
      ensures sessions == old(sessions) - {id}
      ensures Stored() == if removed.Some? then old(Stored()) - {id} else AfterLoad(old(Stored()), id, c)
    {
      var persisted := LoadFromBackend(id, c);
      var cached := if id in sessions then Some(sessions[id].data) else None;
      sessions := sessions - {id};
      removed := if persisted.Some? then persisted else cached;
      if removed.Some? && backend != null {
        backend.records := backend.records - {id};
      }
    }

    /** Drops every cached session idle for the lifetime; a persisted record goes only if it has itself
        expired, since a peer may have touched it. */
    method PurgeExpired(c: Clock)
      modifies this`sessions, backend
      ensures sessions == map k | k in old(sessions) && !Purgeable(old(sessions)[k], ttl, c.mono) :: old(sessions)[k]
      ensures Stored() == map k | k in old(Stored())
        && !(k in old(sessions) && Purgeable(old(sessions)[k], ttl, c.mono) && Expired(old(Stored())[k], c)) ::
        old(Stored())[k]
    {
      var expired := set k | k in sessions && Purgeable(sessions[k], ttl, c.mono);
      sessions := sessions - expired;
      var todo := expired;
      while todo != {}
        invariant todo <= expired && sessions == old(sessions) - expired
        invariant Stored() == map k | k in old(Stored())
          && !(k in expired && k !in todo && Expired(old(Stored())[k], c)) :: old(Stored())[k]
        decreases todo
      {
        var key :| key in todo;
        todo := todo - {key};
        var _ := LoadFromBackend(key, c);
      }
    }

    /** Loads what has not expired, and deletes the rest. */
    method LoadPersisted(c: Clock)
      modifies this`sessions, backend
      ensures sessions == old(sessions) + Reloaded(old(Stored()), ttl, c)
      ensures Stored() == Alive(old(Stored()), c)
    {
      if backend == null {
        return;
      }
      ghost var all := backend.records;
      var entries: map<string, Entry<T>> := map[];
      var todo := backend.records.Keys;
      while todo != {}
        invariant todo <= all.Keys && sessions == old(sessions)
        invariant forall k :: k in backend.records <==> k in all && (k in todo || k in Alive(all, c))
        invariant forall k | k in backend.records :: backend.records[k] == all[k]
        invariant forall k :: k in entries <==> k in Alive(all, c) && k !in todo
        invariant forall k | k in entries :: entries[k] == Reload(all[k], ttl, c)
        decreases todo
      {
        var key :| key in todo;
        todo := todo - {key};
        var record := backend.records[key];
        if Uncapped(record, c) == 0 {
          backend.records := backend.records - {key};
          continue;
        }
        entries := entries[key := Reload(record, ttl, c)];
      }
      assert entries == Reloaded(all, ttl, c);
      assert backend.records == Alive(all, c);
      sessions := sessions + entries;
    }
  }

  /** The records with some time left. */
  function Alive<T>(records: Records<T>, c: Clock): Records<T> {
    map k | k in records && Uncapped(records[k], c) > 0 :: records[k]
  }

  function Reloaded<T>(records: Records<T>, ttl: nat, c: Clock): map<string, Entry<T>> {
    map k | k in Alive(records, c) :: Reload(records[k], ttl, c)
  }

  // ---------------------------------------------------------------- which records count

  predicate OnTheClock(c: Clock) {
    c.wall < (U64_MAX + 1) * MILLI
  }

  /** The record is there, and the wall clock's millisecond short of its deadline, if it has one. */
  predicate Counts<T>(records: Records<T>, id: string, c: Clock) {
    id in records && (records[id].expiresAtMs.Some? ==> c.wall / 1_000_000 < records[id].expiresAtMs.value)
  }

  /** A record is found exactly while it counts, and looking for it deletes it exactly from then on. */
  lemma FoundExactly<T>(records: Records<T>, id: string, c: Clock)
    requires OnTheClock(c)
    ensures LoadRecord(records, id, c) == if Counts(records, id, c) then Some(records[id].data) else None
    ensures AfterLoad(records, id, c) ==
      if id in records && !Counts(records, id, c) then records - {id} else records
  {
    if id in records && records[id].expiresAtMs.Some? {
      TimeLeftExactly(records[id].expiresAtMs.value, c);
    }
  }

  /** What an operation starts from: a record that counts before the cached copy, and that before nothing. */
  lemma StartsFromRecord<T>(store: Store<T>, id: string, c: Clock)
    requires OnTheClock(c)
    ensures store.Current(id, c) ==
      if Counts(store.Stored(), id, c) then Some(store.Stored()[id].data)
      else if id in store.sessions then Some(store.sessions[id].data) else None
  {
    FoundExactly(store.Stored(), id, c);
  }

  /** A record is loaded at a start exactly if it has time left: before its deadline, or, of an older version,
      with seconds left. It comes back as it was, touched so long ago that what it has left of its lifetime is
      that, and never more than the whole. */
  lemma LoadedExactly<T>(records: Records<T>, id: string, ttl: nat, c: Clock)
    requires OnTheClock(c) && id in records
    ensures var r, ms := records[id], c.wall / 1_000_000;
      var left := if r.expiresAtMs.Some? then
                    (if ms < r.expiresAtMs.value then (r.expiresAtMs.value - ms) * 1_000_000 else 0)
                  else if r.remainingTtlSecs.Some? then r.remainingTtlSecs.value * 1_000_000_000 else 0;
      && (id in Alive(records, c) <==> left > 0)
      && (id in Reloaded(records, ttl, c) <==> left > 0)
      && (left > 0 ==> Reloaded(records, ttl, c)[id]
                       == Entry(r.data, c.mono - ttl + if left < ttl then left else ttl))
  {
    if records[id].expiresAtMs.Some? {
      TimeLeftExactly(records[id].expiresAtMs.value, c);
    }
  }

  /** A cached session is purged exactly once it has been idle for the lifetime. */
  lemma PurgedExactly<T>(e: Entry<T>, ttl: nat, now: int)
    ensures Purgeable(e, ttl, now) <==> e.lastAccess + ttl <= now || ttl == 0
  {
  }

  /** What is written is the data, with a deadline a whole lifetime ahead, to the millisecond. */
  lemma WrittenExactly<T>(data: T, ttl: nat, c: Clock)
    requires c.wall + ttl < (U64_MAX + 1) * MILLI
    ensures var r := Fresh(data, ttl, c);
      r.data == data && r.remainingTtlSecs.None? && r.expiresAtMs == Some((c.wall + ttl) / 1_000_000)
  {
  }

  // ---------------------------------------------------------------- lifetimes

  /** A session reloaded at `load` becomes purgeable exactly when its remaining lifetime, capped by the
      store's, has gone by. */
  lemma ReloadedLifetime<T>(r: Record<T>, ttl: nat, load: Clock, now: int)
    requires load.mono <= now
    ensures Purgeable(Reload(r, ttl, load), ttl, now) <==> load.mono + Remaining(r, ttl, load) <= now
  {
  }

  /** Saved and reloaded while its clocks stay in step, a session keeps its deadline to the
      millisecond, and is purgeable at it: neither a restart nor the reload extends its life. */
  lemma RestartKeepsLifetime<T>(data: T, ttl: nat, save: Clock, load: Clock, now: int)
    requires InStep(save, load) && save.mono <= load.mono <= now
    requires save.wall + ttl < (U64_MAX + 1) * MILLI
    requires !Expired(Fresh(data, ttl, save), load)
    ensures Purgeable(Reload(Fresh(data, ttl, save), ttl, load), ttl, now) ==> save.mono + ttl - MILLI < now
    ensures save.mono + ttl + MILLI <= now ==> Purgeable(Reload(Fresh(data, ttl, save), ttl, load), ttl, now)
  {
    var d := Fresh(data, ttl, save).expiresAtMs.value;
    RebuiltInItsMillisecond(d, load);
    ReloadedLifetime(Fresh(data, ttl, save), ttl, load, now);
  }
}
