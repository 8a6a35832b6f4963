/** The persistence backend: a key-value map and leased, compare-and-delete locks
    (`src/persistence.rs:165-258`), and the polling loop that waits for one
    (`src/session/mod.rs:126-153`). Times are milliseconds on one clock. */
module LeasedLocks {
  import opened Json
  import opened Leases

  type DataKey = (string, string)

  type Bytes = seq<bv8>

  type LockTable = map<DataKey, Lease<string>>

  /** A lease still running at `now`. */
  predicate Live(locks: LockTable, key: DataKey, now: nat) {
    key in locks && locks[key].expiry > now
  }

  function Acquire(locks: LockTable, key: DataKey, owner: string, ttl: nat, now: nat): LockTable {
    if Live(locks, key, now) then locks else locks[key := Lease(owner, now + ttl)]
  }

  function Release(locks: LockTable, key: DataKey, owner: string): LockTable {
    if key in locks && locks[key].owner == owner then locks - {key} else locks
  }

  datatype Touch = Armed | Missing

  class InMemoryBackend {
    var data: map<DataKey, Bytes>
    var locks: LockTable

    constructor ()
      ensures data == map[] && locks == map[]
    {
      data, locks := map[], map[];
    }

    method Get(ns: string, key: string) returns (value: Option<Bytes>)
      ensures value == if (ns, key) in data then Some(data[(ns, key)]) else None
    {
      value := if (ns, key) in data then Some(data[(ns, key)]) else None;
    }

    method Set(ns: string, key: string, value: Bytes)
      modifies this`data
      ensures data == old(data)[(ns, key) := value]
    {
      data := data[(ns, key) := value];
    }

    method TouchEntry(ns: string, key: string) returns (r: Touch)
      ensures r == if (ns, key) in data then Armed else Missing
    {
      r := if (ns, key) in data then Armed else Missing;
    }

    method Delete(ns: string, key: string)
      modifies this`data
      ensures data == old(data) - {(ns, key)}
    {
      data := data - {(ns, key)};
    }

    method Keys(ns: string) returns (keys: set<string>)
      ensures forall k :: k in keys <==> (ns, k) in data
    {
      keys := set entry | entry in data && entry.0 == ns :: entry.1;
    }

    method TryAcquireLock(ns: string, key: string, owner: string, ttl: nat, now: nat) returns (acquired: bool)
      modifies this`locks
      ensures acquired <==> (ns, key) !in old(locks) || old(locks)[(ns, key)].expiry <= now
      ensures locks == if acquired then old(locks)[(ns, key) := Lease(owner, now + ttl)] else old(locks)
      ensures locks == Acquire(old(locks), (ns, key), owner, ttl, now)
    {
      var k := (ns, key);
      if k in locks && locks[k].expiry > now {
        return false;
      }
      locks := locks[k := Lease(owner, now + ttl)];
      return true;
    }

    method ReleaseLock(ns: string, key: string, owner: string)
      modifies this`locks
      ensures locks == if (ns, key) in old(locks) && old(locks)[(ns, key)].owner == owner then old(locks) - {(ns, key)}
                       else old(locks)
      ensures locks == Release(old(locks), (ns, key), owner)
    {
      var k := (ns, key);
      if k in locks && locks[k].owner == owner {
        locks := locks - {k};
      }
    }

    /** `acquire_persistence_lock` by a waiter nobody competes with. Every attempt and every sleep may
        run late, by up to `slack` together. The lock is obtained, before the deadline, however long
        ago its holder crashed: what is left of a lease plus one poll is less than the wait. */
    method AcquireWaiting(ns: string, key: string, owner: string, start: nat, slack: nat, delays: seq<nat>)
        returns (acquired: bool, at: nat)
      requires (ns, key) in locks ==> locks[(ns, key)].expiry <= start + LOCK_TTL
      requires slack < LOCK_WAIT - LOCK_TTL - LOCK_POLL
      requires forall k | 0 <= k < |delays| :: delays[k] <= slack
      modifies this`locks
      ensures acquired
      ensures start <= at < start + 20_000
      ensures at <= start || at < start + 15_100 + slack
      ensures locks == old(locks)[(ns, key) := Lease(owner, at + 15_000)]
    {
      var deadline := start + LOCK_WAIT;
      at := start;
      var polls := 0;
      while true
        invariant locks == old(locks)
        invariant start <= at && (at == start || at < start + LOCK_TTL + LOCK_POLL + slack)
        decreases start + LOCK_WAIT - at
      {
        acquired := TryAcquireLock(ns, key, owner, LOCK_TTL, at);
        if acquired || at >= deadline {
          return;
        }
        at := at + LOCK_POLL + (if polls < |delays| then delays[polls] else 0);
        polls := polls + 1;
      }
    }
  }

  // ---------------------------------------------------------------- every history of a lock table

  datatype Event =
    | Acquired(at: nat, key: DataKey, owner: string, ttl: nat)
    | Refused(at: nat, key: DataKey, owner: string)
    | Released(at: nat, key: DataKey, owner: string)

  function Step(locks: LockTable, e: Event): LockTable {
    match e
    case Acquired(at, key, owner, ttl) => Acquire(locks, key, owner, ttl, at)
    case Refused(_, _, _) => locks
    case Released(_, key, owner) => Release(locks, key, owner)
  }

  function After(events: seq<Event>): LockTable {
    if events == [] then map[] else Step(After(events[..|events| - 1]), events[|events| - 1])
  }

  /** The table's answer to the attempt at position `i`. */
  ghost predicate AnswersRight(events: seq<Event>, i: nat)
    requires i < |events|
  {
    var live := Live(After(events[..i]), events[i].key, events[i].at);
    (events[i].Acquired? ==> !live) && (events[i].Refused? ==> live)
  }

  /** What the table answers at each attempt, on a clock that never runs back. */
  ghost predicate IsHistory(events: seq<Event>) {
    && (forall i, j | 0 <= i <= j < |events| :: events[i].at <= events[j].at)
    && (forall i | 0 <= i < |events| :: AnswersRight(events, i))
  }

  /** The holder of lease `i` gave it up before event `j`. */
  ghost predicate GivenUp(events: seq<Event>, i: nat, j: nat)
    requires i < j <= |events| && events[i].Acquired?
  {
    exists r | i < r < j :: events[r].Released? && events[r].key == events[i].key && events[r].owner == events[i].owner
  }

  lemma AfterOneMore(events: seq<Event>, j: nat)
    requires j < |events|
    ensures After(events[..j + 1]) == Step(After(events[..j]), events[j])
  {
    assert events[..j + 1][..j] == events[..j];
  }

  /** Until it runs out or its own holder gives it up, a lease stands: no other release, however late,
      frees it. */
  lemma {:induction false} LeaseStands(events: seq<Event>, i: nat, j: nat)
    requires IsHistory(events) && i < j <= |events| && events[i].Acquired?
    requires !GivenUp(events, i, j)
    requires j - 1 == i || events[j - 1].at < events[i].at + events[i].ttl
    ensures var key := events[i].key;
      && key in After(events[..j])
      && After(events[..j])[key] == Lease(events[i].owner, events[i].at + events[i].ttl)
  {
    var before, e := After(events[..j - 1]), events[j - 1];
    AfterOneMore(events, j - 1);
    if j - 1 == i {
      assert AnswersRight(events, i);
    } else {
      NotGivenUpBefore(events, i, j);
      assert events[j - 2].at <= e.at;
      LeaseStands(events, i, j - 1);
      StepKeeps(before, e, events[i].key, Lease(events[i].owner, events[i].at + events[i].ttl));
    }
  }

  lemma StepKeeps(locks: LockTable, e: Event, key: DataKey, lease: Lease<string>)
    requires key in locks && locks[key] == lease && e.at < lease.expiry
    requires !(e.Released? && e.key == key && e.owner == lease.owner)
    ensures key in Step(locks, e) && Step(locks, e)[key] == lease
  {
  }

  lemma NotGivenUpBefore(events: seq<Event>, i: nat, j: nat)
    requires i < j - 1 < |events| && events[i].Acquired? && !GivenUp(events, i, j)
    ensures !GivenUp(events, i, j - 1)
    ensures events[j - 1].Released? && events[j - 1].key == events[i].key ==> events[j - 1].owner != events[i].owner
  {
  }

  /** At most one unexpired owner: a lease is granted again only once it has run out, or its own
      holder has released it. */
  lemma LeasesAreExclusive(events: seq<Event>, i: nat, j: nat)
    requires IsHistory(events) && i < j < |events|
    requires events[i].Acquired? && events[j].Acquired? && events[i].key == events[j].key
    ensures events[i].at + events[i].ttl <= events[j].at || GivenUp(events, i, j)
  {
    assert AnswersRight(events, j);
    assert events[j - 1].at <= events[j].at;
    if events[j].at < events[i].at + events[i].ttl && !GivenUp(events, i, j) {
      LeaseStands(events, i, j);
    }
  }

  /** Critical sections shorter than the lease never overlap: whoever is granted the lock next is
      granted it after the section before has ended. */
  lemma CriticalSectionsDisjoint(events: seq<Event>, i: nat, end: nat, j: nat)
    requires IsHistory(events) && i < end < |events| && i < j < |events|
    requires events[i].Acquired? && events[j].Acquired? && events[i].key == events[j].key
    requires events[end].Released? && events[end].key == events[i].key && events[end].owner == events[i].owner
    requires !GivenUp(events, i, end)
    requires events[end].at < events[i].at + events[i].ttl
    ensures end < j
  {
    assert forall k | 0 <= k <= end :: events[k].at <= events[end].at;
    assert forall k | i < k <= end :: !GivenUp(events, i, k);
    LeasesAreExclusive(events, i, j);
  }

  /** A release by anyone but the owner leaves the table as it is. */
  lemma LateReleaseIsHarmless(locks: LockTable, key: DataKey, owner: string, now: nat)
    ensures Release(locks, key, owner) == locks || (key in locks && locks[key].owner == owner)
    ensures forall k | k != key :: Live(Release(locks, key, owner), k, now) == Live(locks, k, now)
  {
  }
}
