/** Which identity a protocol session belongs to (`src/auth/binding.rs:78-187`), on one instance without
    a backend. Times are instants in nanoseconds, read off a clock that never runs backwards. */
module SessionBindings {
  import opened Json

  datatype Binding = Binding(identity: string, expiresAt: nat)

  type Table = map<string, Binding>

  predicate Live(b: Binding, now: nat) {
    b.expiresAt > now
  }

  function LiveOnly(t: Table, now: nat): Table {
    map k | k in t && Live(t[k], now) :: t[k]
  }

  /** What the hot path settles, if it settles the claim. */
  function HotPath(t: Table, ttl: nat, sid: string, identity: string, now: nat): (verdict: Option<bool>) {
    if sid !in t || !Live(t[sid], now) then None
    else if t[sid].identity != identity then Some(false)
    else if t[sid].expiresAt - now > ttl / 2 then Some(true)
    else None
  }

  /** `after` is what remains of a table that had no room for `sid`: its live bindings, and of those, when
      they are still too many, the ones furthest from expiring. */
  ghost predicate MadeRoom(before: Table, after: Table, max: nat, now: nat) {
    var live := LiveOnly(before, now);
    && (forall k | k in after :: k in live && after[k] == live[k])
    && (|live| < max ==> after == live)
    && (|live| >= max ==> |after| + 1 == max || (max == 0 && |after| == 0))
    && (forall k, other | k in live && k !in after && other in after :: live[k].expiresAt <= after[other].expiresAt)
  }

  ghost predicate Remembered(before: Table, after: Table, ttl: nat, max: nat, sid: string, identity: string, now: nat) {
    if |before| < max || sid in before then after == before[sid := Binding(identity, now + ttl)]
    else exists room :: MadeRoom(before, room, max, now) && after == room[sid := Binding(identity, now + ttl)]
  }

  class Bindings {
    var bindings: Table
    const ttl: nat
    const max: nat

    constructor (ttl: nat, max: nat)
      ensures bindings == map[] && this.ttl == ttl && this.max == max
    {
      bindings, this.ttl, this.max := map[], ttl, max;
    }

    /** Claims `sid` for `identity`; the table is read at `now` and written, if at all, at `later`. */
    method Claim(sid: string, identity: string, now: nat, later: nat) returns (ok: bool)
      modifies this
      ensures var verdict := HotPath(old(bindings), ttl, sid, identity, now);
        if verdict.Some? then ok == verdict.value && bindings == old(bindings)
        else ok && Remembered(old(bindings), bindings, ttl, max, sid, identity, later)
    {
      if sid in bindings && Live(bindings[sid], now) {
        if bindings[sid].identity != identity {
          return false;
        }
        if bindings[sid].expiresAt - now > ttl / 2 {
          return true;
        }
      }
      Remember(sid, identity, later);
      return true;
    }

    method Remember(sid: string, identity: string, now: nat)
      modifies this
      ensures Remembered(old(bindings), bindings, ttl, max, sid, identity, now)
    {
      if |bindings| >= max && sid !in bindings {
        bindings := LiveOnly(bindings, now);
        ghost var live := bindings;
        while |bindings| >= max
          invariant forall k | k in bindings :: k in live && bindings[k] == live[k]
          invariant bindings == live || |bindings| + 1 >= max
          invariant |live| < max ==> bindings == live
          invariant forall k, other | k in live && k !in bindings && other in bindings ::
              live[k].expiresAt <= bindings[other].expiresAt
        {
          if bindings == map[] {
            break;
          }
          var victim := ClosestToExpiring(bindings);
          RemoveOne(bindings, victim);
          bindings := bindings - {victim};
        }
        assert MadeRoom(old(bindings), bindings, max, now);
      }
      bindings := bindings[sid := Binding(identity, now + ttl)];
    }
  }

  method ClosestToExpiring(t: Table) returns (victim: string)
    requires t != map[]
    ensures victim in t
    ensures forall k | k in t :: t[victim].expiresAt <= t[k].expiresAt
  {
    victim :| victim in t;
    var todo := t.Keys;
    while todo != {}
      invariant victim in t && todo <= t.Keys
      invariant forall k | k in t && k !in todo :: t[victim].expiresAt <= t[k].expiresAt
      decreases todo
    {
      var k :| k in todo;
      todo := todo - {k};
      if t[k].expiresAt < t[victim].expiresAt {
        victim := k;
      }
    }
  }

  lemma RemoveOne(t: Table, k: string)
    requires k in t
    ensures |t - {k}| == |t| - 1
  {
    assert (t - {k}).Keys == t.Keys - {k};
  }

  /** A claim is settled at once exactly while the session's binding lasts, if it is another identity's, or has
      more than half its lifetime left. */
  lemma SettledExactly(t: Table, ttl: nat, sid: string, identity: string, now: nat)
    ensures HotPath(t, ttl, sid, identity, now) == Some(false) <==>
      sid in t && now < t[sid].expiresAt && t[sid].identity != identity
    ensures HotPath(t, ttl, sid, identity, now) == Some(true) <==>
      sid in t && now < t[sid].expiresAt && t[sid].identity == identity && t[sid].expiresAt > now + ttl / 2
  {
  }

  /** Any other is accepted and bound for a whole lifetime. With room in the table, or the session in it, every
      other binding stays. */
  lemma BoundExactly(before: Table, after: Table, ttl: nat, max: nat, sid: string, identity: string, now: nat)
    requires Remembered(before, after, ttl, max, sid, identity, now)
    ensures sid in after && after[sid] == Binding(identity, now + ttl)
    ensures |before| < max || sid in before ==> after == before[sid := Binding(identity, now + ttl)]
    ensures forall k | k in after && k != sid :: k in before && after[k] == before[k]
  {
  }

  // ---------------------------------------------------------------- runs of overlapping claims

  /** A claim reads the table under one lock and writes it under another, so claims may overlap. */
  datatype Pending = Pending(sid: string, identity: string)

  datatype State = State(bindings: Table, inFlight: map<nat, Pending>, now: nat)

  datatype Event =
    | Begin(id: nat, claim: Pending, at: nat)
    | Finish(id: nat, at: nat)

  const START: State := State(map[], map[], 0)

  ghost predicate Step(s: State, e: Event, s': State, ttl: nat, max: nat) {
    && s.now <= e.at == s'.now
    && match e
       case Begin(id, claim, at) =>
         && id !in s.inFlight && s'.bindings == s.bindings
         && s'.inFlight == if HotPath(s.bindings, ttl, claim.sid, claim.identity, at).Some? then s.inFlight
                           else s.inFlight[id := claim]
       case Finish(id, at) =>
         && id in s.inFlight && s'.inFlight == s.inFlight - {id}
         && Remembered(s.bindings, s'.bindings, ttl, max, s.inFlight[id].sid, s.inFlight[id].identity, at)
  }

  /** Whether the event lets the claim through. */
  predicate Accepts(s: State, e: Event, ttl: nat, claim: Pending) {
    match e
    case Begin(_, c, at) => c == claim && HotPath(s.bindings, ttl, c.sid, c.identity, at) == Some(true)
    case Finish(id, _) => id in s.inFlight && s.inFlight[id] == claim
  }

  predicate Refuses(s: State, e: Event, ttl: nat) {
    e.Begin? && HotPath(s.bindings, ttl, e.claim.sid, e.claim.identity, e.at) == Some(false)
  }

  ghost predicate Run(states: seq<State>, events: seq<Event>, ttl: nat, max: nat) {
    && |states| == |events| + 1 && states[0] == START
    && forall i | 0 <= i < |events| :: Step(states[i], events[i], states[i + 1], ttl, max)
  }

  /** A claim that begins is settled on the spot if the session is bound to somebody else, or to the claimant with
      more than half its lifetime left; any other is under way until it is written over whatever is there. */
  lemma BegunExactly(s: State, e: Event, s': State, ttl: nat, max: nat)
    requires Step(s, e, s', ttl, max) && e.Begin?
    ensures var sid, live := e.claim.sid, e.claim.sid in s.bindings && e.at < s.bindings[e.claim.sid].expiresAt;
      if live && (s.bindings[sid].identity != e.claim.identity || e.at + ttl / 2 < s.bindings[sid].expiresAt)
      then s' == s.(now := e.at) else s' == s.(now := e.at, inFlight := s.inFlight[e.id := e.claim])
  {
  }

  /** No claim of the session by anyone else is under way. */
  predicate Unrivalled(s: State, claim: Pending) {
    forall id | id in s.inFlight && s.inFlight[id].sid == claim.sid :: s.inFlight[id] == claim
  }

  /** The session is the claimant's beyond `until`, and nobody is about to take it. */
  predicate Guarded(s: State, claim: Pending, until: nat) {
    && claim.sid in s.bindings && s.bindings[claim.sid].identity == claim.identity
    && Live(s.bindings[claim.sid], until) && Unrivalled(s, claim)
  }

  /** The owner of a live binding that is not evicted changes exactly when somebody else's claim, already
      under way, is written over it. */
  lemma OwnerChangesExactly(s: State, e: Event, s': State, ttl: nat, max: nat, sid: string)
    requires Step(s, e, s', ttl, max)
    requires sid in s.bindings && Live(s.bindings[sid], e.at) && sid in s'.bindings
    ensures s'.bindings[sid].identity != s.bindings[sid].identity <==>
      e.Finish? && s.inFlight[e.id].sid == sid && s.inFlight[e.id].identity != s.bindings[sid].identity
  {
  }

  lemma GuardKept(s: State, e: Event, s': State, ttl: nat, max: nat, claim: Pending, until: nat)
    requires Step(s, e, s', ttl, max) && Guarded(s, claim, until)
    requires e.at <= until < e.at + ttl && claim.sid in s'.bindings
    ensures Guarded(s', claim, until)
  {
  }

  /** An accepted claim leaves its session guarded for half the lifetime, at the least. */
  lemma AcceptanceGuards(s: State, e: Event, s': State, ttl: nat, max: nat, claim: Pending)
    requires Step(s, e, s', ttl, max) && Accepts(s, e, ttl, claim) && ttl > 0 && Unrivalled(s', claim)
    ensures Guarded(s', claim, e.at + ttl / 2)
  {
  }

  lemma {:induction false} TimeAscends(states: seq<State>, events: seq<Event>, ttl: nat, max: nat, i: nat, j: nat)
    requires Run(states, events, ttl, max) && i < j < |states|
    ensures events[i].at <= states[j].now
  {
    if i + 1 < j {
      TimeAscends(states, events, ttl, max, i, j - 1);
    }
    assert Step(states[j - 1], events[j - 1], states[j], ttl, max);
  }

  lemma {:induction false} GuardHolds(
      states: seq<State>, events: seq<Event>, ttl: nat, max: nat, claim: Pending, i: nat, j: nat)
    requires Run(states, events, ttl, max) && ttl > 0
    requires i < j < |states| && Accepts(states[i], events[i], ttl, claim) && Unrivalled(states[i + 1], claim)
    requires forall k | i < k <= j :: claim.sid in states[k].bindings
    requires states[j].now <= events[i].at + ttl / 2
    ensures Guarded(states[j], claim, events[i].at + ttl / 2)
  {
    assert Step(states[j - 1], events[j - 1], states[j], ttl, max);
    TimeAscends(states, events, ttl, max, i, j);
    if j == i + 1 {
      AcceptanceGuards(states[i], events[i], states[j], ttl, max, claim);
    } else {
      TimeAscends(states, events, ttl, max, i, j - 1);
      GuardHolds(states, events, ttl, max, claim, i, j - 1);
      GuardKept(states[j - 1], events[j - 1], states[j], ttl, max, claim, events[i].at + ttl / 2);
    }
  }

  /** In every run: once a claim is accepted, with no rival claim already under way, then for half the
      lifetime every claim of that session by another identity is refused, unless the binding is
      evicted in between. */
  lemma AcceptedClaimHolds(states: seq<State>, events: seq<Event>, ttl: nat, max: nat, claim: Pending, i: nat, j: nat)
    requires Run(states, events, ttl, max) && ttl > 0
    requires i < j < |events| && Accepts(states[i], events[i], ttl, claim) && Unrivalled(states[i + 1], claim)
    requires forall k | i < k <= j :: claim.sid in states[k].bindings
    requires events[j].Begin? && events[j].claim.sid == claim.sid && events[j].claim.identity != claim.identity
    requires events[j].at <= events[i].at + ttl / 2
    ensures Refuses(states[j], events[j], ttl)
  {
    assert Step(states[j], events[j], states[j + 1], ttl, max);
    GuardHolds(states, events, ttl, max, claim, i, j);
  }

  /** A refused claim changes nothing. */
  lemma RefusalChangesNothing(s: State, e: Event, s': State, ttl: nat, max: nat)
    requires Step(s, e, s', ttl, max) && Refuses(s, e, ttl)
    ensures s'.bindings == s.bindings && s'.inFlight == s.inFlight
  {
  }

  /** Without that condition it fails: two identities that both looked before either wrote are both let
      through, and the later write wins. */
  lemma RivalsAreBothAccepted(sid: string, ttl: nat, max: nat) returns (states: seq<State>, events: seq<Event>)
    requires ttl > 0 && max > 0
    ensures Run(states, events, ttl, max) && |events| == 4
    ensures Accepts(states[2], events[2], ttl, Pending(sid, "alice"))
    ensures Accepts(states[3], events[3], ttl, Pending(sid, "bob"))
    ensures sid in states[4].bindings && states[4].bindings[sid].identity == "bob"
  {
    var alice, bob := Pending(sid, "alice"), Pending(sid, "bob");
    events := [Begin(0, alice, 0), Begin(1, bob, 0), Finish(0, 0), Finish(1, 0)];
    states := [
      START,
      State(map[], map[0 := alice], 0),
      State(map[], map[0 := alice, 1 := bob], 0),
      State(map[sid := Binding("alice", ttl)], map[1 := bob], 0),
      State(map[sid := Binding("bob", ttl)], map[], 0)];
    assert map[0 := alice, 1 := bob] - {0} == map[1 := bob];
    assert map[1 := bob] - {1} == map[];
    assert Step(states[0], events[0], states[1], ttl, max);
    assert Step(states[1], events[1], states[2], ttl, max);
    assert Step(states[2], events[2], states[3], ttl, max);
    assert Step(states[3], events[3], states[4], ttl, max);
  }

  // ---------------------------------------------------------------- the bound, and who is evicted

  lemma AddOne(t: Table, k: string, b: Binding)
    ensures |t[k := b]| == if k in t then |t| else |t| + 1
  {
    assert t[k := b].Keys == t.Keys + {k};
  }

  lemma RememberKeepsBound(before: Table, after: Table, ttl: nat, max: nat, sid: string, identity: string, now: nat)
    requires Remembered(before, after, ttl, max, sid, identity, now) && |before| <= max && max > 0
    ensures |after| <= max
  {
    if |before| < max || sid in before {
      AddOne(before, sid, Binding(identity, now + ttl));
    } else {
      var room :| MadeRoom(before, room, max, now) && after == room[sid := Binding(identity, now + ttl)];
      AddOne(room, sid, Binding(identity, now + ttl));
    }
  }

  /** The table never outgrows its cap, in any run. */
  lemma {:induction false} TableIsBounded(states: seq<State>, events: seq<Event>, ttl: nat, max: nat, i: nat)
    requires Run(states, events, ttl, max) && max > 0 && i < |states|
    ensures |states[i].bindings| <= max
  {
    if i > 0 {
      TableIsBounded(states, events, ttl, max, i - 1);
      var s, e := states[i - 1], events[i - 1];
      assert Step(s, e, states[i], ttl, max);
      if e.Finish? {
        var c := s.inFlight[e.id];
        RememberKeepsBound(s.bindings, states[i].bindings, ttl, max, c.sid, c.identity, e.at);
      }
    }
  }

  lemma EvictedForRoom(before: Table, room: Table, max: nat, now: nat, c: string, b: Binding, sid: string)
    requires MadeRoom(before, room, max, now) && max > 0 && c !in before
    requires sid in before && Live(before[sid], now) && sid !in room
    ensures |LiveOnly(before, now)| >= max && |room[c := b]| == max
    ensures forall k | k in room :: k in before && room[k] == before[k] && before[sid].expiresAt <= before[k].expiresAt
  {
    assert sid in LiveOnly(before, now);
    AddOne(room, c, b);
  }

  predicate Spared(before: Table, after: Table, sid: string, c: string)
    requires sid in before
  {
    forall k | k in after && k != c ::
      k in before && after[k] == before[k] && before[sid].expiresAt <= before[k].expiresAt
  }

  lemma RememberEvicts(
      before: Table, after: Table, ttl: nat, max: nat, c: string, identity: string, now: nat, sid: string)
    requires Remembered(before, after, ttl, max, c, identity, now) && max > 0
    requires sid in before && Live(before[sid], now) && sid !in after
    ensures c !in before && |LiveOnly(before, now)| >= max && |after| == max && Spared(before, after, sid, c)
  {
    var b := Binding(identity, now + ttl);
    assert |before| >= max && c !in before;
    var room :| MadeRoom(before, room, max, now) && after == room[c := b];
    EvictedForRoom(before, room, max, now, c, b, sid);
  }

  /** A live binding goes only to make room for a new session, when dropping the expired ones would not;
      the table is then full again, and everything kept is unchanged and expires no sooner. */
  lemma EvictionIsTheLastResort(s: State, e: Event, s': State, ttl: nat, max: nat, sid: string)
    requires Step(s, e, s', ttl, max) && max > 0
    requires sid in s.bindings && Live(s.bindings[sid], e.at) && sid !in s'.bindings
    ensures e.Finish? && s.inFlight[e.id].sid !in s.bindings
    ensures |LiveOnly(s.bindings, e.at)| >= max && |s'.bindings| == max
    ensures Spared(s.bindings, s'.bindings, sid, s.inFlight[e.id].sid)
  {
    var c := s.inFlight[e.id];
    RememberEvicts(s.bindings, s'.bindings, ttl, max, c.sid, c.identity, e.at, sid);
  }
}
