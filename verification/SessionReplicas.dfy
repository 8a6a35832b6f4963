/** N replicas of a `SessionStore` over one backend (`src/session/mod.rs:123-313`), as a step machine.

    Each replica has a cache and a process-local mutex, so at most one operation in progress; the
    backend has the session records and one leased lock per session. Every await point of `get`,
    `get_or_create` and `update` is a step of its own, and any replica may move next. An operation that
    fails to get the lock, or times out on it, goes on without, as the code does. Records neither expire
    nor are removed.

    The log and what each call returned are history variables: a call is entered in the log when it takes
    effect. */
module SessionReplicas {
  import opened Json
  import opened Leases

  datatype Op<!T> = Get(key: string) | GetOrCreate(key: string) | Update(key: string, f: T -> T)

  /** Where a replica is in its current operation: the call `id`, whose lock token that also is, begun
      when the log had `since` entries, and `held` is its lease, if it got one. A wait starts at `begun`. */
  datatype Pc<!T> =
    | Idle
    | Waiting(id: nat, op: Op<T>, since: nat, begun: nat)
    | Granted(id: nat, op: Op<T>, since: nat, held: Option<Lease<nat>>)
    | Loaded(id: nat, op: Op<T>, since: nat, held: Option<Lease<nat>>, loaded: Option<T>)
    | Applied(id: nat, op: Op<T>, since: nat, held: Option<Lease<nat>>, data: T)
    | Finishing(id: nat, op: Op<T>, since: nat, held: Option<Lease<nat>>, result: Option<T>, entry: nat)

  datatype Replica<!T> = Replica(cache: map<string, T>, pc: Pc<T>)

  /** A call that took effect, and what its caller is told. */
  datatype Done<!T> = Done(id: nat, op: Op<T>, result: Option<T>)

  /** A call that has returned, with the lengths of the log when it began and when it returned, and the
      position of its entry. */
  datatype Returned<!T> = Returned(done: Done<T>, since: nat, entry: nat, at: nat)

  datatype State<!T> = State(
    now: nat,
    records: map<string, T>,
    locks: map<string, Lease<nat>>,
    replicas: map<nat, Replica<T>>,
    nextId: nat,
    log: seq<Done<T>>,
    returned: map<nat, Returned<T>>)

  datatype Action<!T> =
    | Begin(r: nat, op: Op<T>)
    | Poll(r: nat)
    | LockFails(r: nat)
    | GiveUp(r: nat)
    | Load(r: nat)
    | Apply(r: nat)
    | Persist(r: nat)
    | Release(r: nat)
    | Tick(ms: nat)

  function Or<T>(a: Option<T>, b: Option<T>): Option<T> {
    if a.Some? then a else b
  }

  function OrDefault<T>(a: Option<T>, default: T): T {
    if a.Some? then a.value else default
  }

  // ---------------------------------------------------------------- the single map

  /** What the operation leaves in one atomic map, and returns. */
  function AtomicMap<T>(m: map<string, T>, op: Op<T>, default: T): map<string, T> {
    match op
    case Get(_) => m
    case GetOrCreate(key) => m[key := OrDefault(Lookup(m, key), default)]
    case Update(key, f) => m[key := f(OrDefault(Lookup(m, key), default))]
  }

  function AtomicResult<T>(m: map<string, T>, op: Op<T>, default: T): Option<T> {
    Lookup(AtomicMap(m, op, default), op.key)
  }

  /** The map after the operations of a log, one after the other. */
  function Replay<T>(log: seq<Done<T>>, default: T): map<string, T> {
    if log == [] then map[]
    else AtomicMap(Replay(log[..|log| - 1], default), log[|log| - 1].op, default)
  }

  /** Every operation returned what the single map would have. */
  ghost predicate Legal<T>(log: seq<Done<T>>, default: T) {
    log != [] ==>
      && Legal(log[..|log| - 1], default)
      && log[|log| - 1].result == AtomicResult(Replay(log[..|log| - 1], default), log[|log| - 1].op, default)
  }

  // ---------------------------------------------------------------- the machine

  predicate Live<T>(s: State<T>, key: string) {
    key in s.locks && s.locks[key].expiry > s.now
  }

  predicate Enabled<T>(s: State<T>, a: Action<T>) {
    match a
    case Tick(_) => true
    case Begin(r, _) => r in s.replicas && s.replicas[r].pc.Idle?
    case Poll(r) => r in s.replicas && s.replicas[r].pc.Waiting?
    case LockFails(r) => r in s.replicas && s.replicas[r].pc.Waiting?
    case GiveUp(r) =>
      && r in s.replicas && s.replicas[r].pc.Waiting?
      && Live(s, s.replicas[r].pc.op.key) && s.replicas[r].pc.begun + LOCK_WAIT <= s.now
    case Load(r) => r in s.replicas && s.replicas[r].pc.Granted?
    case Apply(r) => r in s.replicas && s.replicas[r].pc.Loaded?
    case Persist(r) => r in s.replicas && s.replicas[r].pc.Applied?
    case Release(r) => r in s.replicas && s.replicas[r].pc.Finishing?
  }

  function At<T>(s: State<T>, r: nat, pc: Pc<T>): State<T>
    requires r in s.replicas
  {
    s.(replicas := s.replicas[r := s.replicas[r].(pc := pc)])
  }

  /** The value an operation works on: the loaded record, else the cached copy. */
  function Base<T>(replica: Replica<T>): Option<T>
    requires replica.pc.Loaded?
  {
    Or(replica.pc.loaded, Lookup(replica.cache, replica.pc.op.key))
  }

  function Next<T>(s: State<T>, a: Action<T>, default: T): State<T>
    requires Enabled(s, a)
  {
    match a
    case Tick(ms) => s.(now := s.now + ms)
    case Begin(r, op) => At(s, r, Waiting(s.nextId, op, |s.log|, s.now)).(nextId := s.nextId + 1)
    case Poll(r) =>
      var pc := s.replicas[r].pc;
      if Live(s, pc.op.key) then s
      else
        var lease := Lease(pc.id, s.now + LOCK_TTL);
        At(s, r, Granted(pc.id, pc.op, pc.since, Some(lease))).(locks := s.locks[pc.op.key := lease])
    case LockFails(r) => Unlocked(s, r)
    case GiveUp(r) => Unlocked(s, r)
    case Load(r) =>
      var pc := s.replicas[r].pc;
      At(s, r, Loaded(pc.id, pc.op, pc.since, pc.held, Lookup(s.records, pc.op.key)))
    case Apply(r) => ApplyStep(s, r, default)
    case Persist(r) =>
      var pc := s.replicas[r].pc;
      At(s, r, Finishing(pc.id, pc.op, pc.since, pc.held, Some(pc.data), |s.log|))
        .(records := s.records[pc.op.key := pc.data], log := s.log + [Done(pc.id, pc.op, Some(pc.data))])
    case Release(r) =>
      var pc := s.replicas[r].pc;
      var key := pc.op.key;
      var freed :=
        if pc.held.Some? && key in s.locks && s.locks[key].owner == pc.held.value.owner then s.locks - {key}
        else s.locks;
      At(s, r, Idle).(locks := freed, returned := s.returned[pc.id := Return(pc, |s.log|)])
  }

  function Return<T>(pc: Pc<T>, at: nat): Returned<T>
    requires pc.Finishing?
  {
    Returned(Done(pc.id, pc.op, pc.result), pc.since, pc.entry, at)
  }

  /** The replica goes on without the lock. */
  function Unlocked<T>(s: State<T>, r: nat): State<T>
    requires r in s.replicas && s.replicas[r].pc.Waiting?
  {
    var pc := s.replicas[r].pc;
    At(s, r, Granted(pc.id, pc.op, pc.since, None))
  }

  function ApplyStep<T>(s: State<T>, r: nat, default: T): State<T>
    requires r in s.replicas && s.replicas[r].pc.Loaded?
  {
    var replica := s.replicas[r];
    var pc, base := replica.pc, Base(replica);
    if pc.op.Get? && base.None? then
      At(s, r, Finishing(pc.id, pc.op, pc.since, pc.held, None, |s.log|)).(log := s.log + [Done(pc.id, pc.op, None)])
    else
      var data := match pc.op
        case Get(_) => base.value
        case GetOrCreate(_) => OrDefault(base, default)
        case Update(_, f) => f(OrDefault(base, default));
      var applied := Applied(pc.id, pc.op, pc.since, pc.held, data);
      s.(replicas := s.replicas[r := Replica(replica.cache[pc.op.key := data], applied)])
  }

  predicate IsInitial<T>(s: State<T>) {
    && s.records == map[] && s.locks == map[] && s.nextId == 0 && s.log == [] && s.returned == map[]
    && forall r | r in s.replicas :: s.replicas[r] == Replica(map[], Idle)
  }

  function Run<T>(s: State<T>, actions: seq<Action<T>>, default: T): Option<State<T>> {
    if actions == [] then Some(s)
    else
      var before := Run(s, actions[..|actions| - 1], default);
      if before.Some? && Enabled(before.value, actions[|actions| - 1])
      then Some(Next(before.value, actions[|actions| - 1], default))
      else None
  }

  // ---------------------------------------------------------------- locks obtained, sections in time

  predicate Critical<T>(pc: Pc<T>) {
    pc.Granted? || pc.Loaded? || pc.Applied? || pc.Finishing?
  }

  /** Every replica in its critical section holds a lease that is still running. */
  ghost predicate Timely<T>(s: State<T>) {
    forall r | r in s.replicas && Critical(s.replicas[r].pc) ::
      s.replicas[r].pc.held.Some? && s.replicas[r].pc.held.value.expiry > s.now
  }

  ghost predicate AlwaysTimely<T>(s: State<T>, actions: seq<Action<T>>, default: T) {
    forall k | 0 <= k <= |actions| :: TimelyAt(s, actions[..k], default)
  }

  ghost predicate TimelyAt<T>(s: State<T>, actions: seq<Action<T>>, default: T) {
    var reached := Run(s, actions, default);
    reached.Some? && Timely(reached.value)
  }

  // ---------------------------------------------------------------- the invariant

  /** Calls in progress are told apart by their ids. */
  ghost predicate IdsDistinct<T>(s: State<T>) {
    && (forall r | r in s.replicas && !s.replicas[r].pc.Idle? :: s.replicas[r].pc.id < s.nextId)
    && (forall r, q | r in s.replicas && q in s.replicas && r != q
                      && !s.replicas[r].pc.Idle? && !s.replicas[q].pc.Idle? ::
          s.replicas[r].pc.id != s.replicas[q].pc.id)
  }

  /** Every call is in the log at most once. */
  ghost predicate LogDistinct<T>(log: seq<Done<T>>, nextId: nat) {
    && (forall i | 0 <= i < |log| :: log[i].id < nextId)
    && (forall i, j | 0 <= i < j < |log| :: log[i].id != log[j].id)
  }

  /** A call in progress is in the log from the moment it takes effect. */
  ghost predicate Entered<T>(pc: Pc<T>, log: seq<Done<T>>) {
    if pc.Finishing? then pc.since <= pc.entry < |log| && log[pc.entry] == Done(pc.id, pc.op, pc.result)
    else pc.Idle? || (pc.since <= |log| && forall i | 0 <= i < |log| :: log[i].id != pc.id)
  }

  /** What a call returned is what its entry says, made between its begin and its return. */
  ghost predicate TookEffect<T>(r: Returned<T>, log: seq<Done<T>>) {
    r.since <= r.entry < r.at <= |log| && log[r.entry] == r.done
  }

  /** Every call ever begun is in progress or has returned, and what it returned is what the log says. */
  ghost predicate Answered<T>(s: State<T>, id: nat) {
    if id in s.returned then s.returned[id].done.id == id && TookEffect(s.returned[id], s.log)
    else exists r | r in s.replicas :: !s.replicas[r].pc.Idle? && s.replicas[r].pc.id == id
  }

  /** A replica in its critical section is the owner the lock table names. */
  ghost predicate Owns<T>(s: State<T>, r: nat)
    requires r in s.replicas
  {
    var pc := s.replicas[r].pc;
    Critical(pc) ==>
      pc.held.Some? && pc.held.value.owner == pc.id && pc.op.key in s.locks && s.locks[pc.op.key] == pc.held.value
  }

  /** What a replica has cached, loaded or computed agrees with the records, which nobody else can
      have changed since. */
  ghost predicate Agrees<T>(s: State<T>, r: nat, default: T)
    requires r in s.replicas
  {
    var cache, pc := s.replicas[r].cache, s.replicas[r].pc;
    && (if pc.Applied? then cache.Keys - {pc.op.key} <= s.records.Keys else cache.Keys <= s.records.Keys)
    && (pc.Loaded? ==> pc.loaded == Lookup(s.records, pc.op.key))
    && (pc.Applied? ==> Some(pc.data) == AtomicResult(s.records, pc.op, default))
  }

  /** The records are what the log leaves, and every replica works on them alone. */
  ghost predicate Locked<T>(s: State<T>, default: T) {
    && Legal(s.log, default) && Replay(s.log, default) == s.records
    && (forall r | r in s.replicas :: Owns(s, r) && Agrees(s, r, default))
  }

  /** Every call is accounted for. */
  ghost predicate Logged<T>(s: State<T>) {
    && LogDistinct(s.log, s.nextId)
    && (forall r | r in s.replicas :: Entered(s.replicas[r].pc, s.log))
    && (forall id: nat | id < s.nextId :: Answered(s, id))
    && (forall id | id in s.returned :: id < s.nextId)
    && (forall r | r in s.replicas && !s.replicas[r].pc.Idle? :: s.replicas[r].pc.id !in s.returned)
  }

  ghost predicate Inv<T>(s: State<T>, default: T) {
    IdsDistinct(s) && Locked(s, default) && Logged(s)
  }

  lemma OneHolder<T>(s: State<T>, r: nat, q: nat)
    requires IdsDistinct(s) && r in s.replicas && q in s.replicas && r != q
    requires Owns(s, r) && Owns(s, q) && Critical(s.replicas[r].pc) && Critical(s.replicas[q].pc)
    ensures s.replicas[r].pc.op.key != s.replicas[q].pc.op.key
  {
  }

  lemma InitialInv<T>(s: State<T>, default: T)
    requires IsInitial(s)
    ensures Inv(s, default)
  {
  }

  lemma AppendLegal<T>(log: seq<Done<T>>, done: Done<T>, default: T)
    requires Legal(log, default) && done.result == AtomicResult(Replay(log, default), done.op, default)
    ensures Legal(log + [done], default)
    ensures Replay(log + [done], default) == AtomicMap(Replay(log, default), done.op, default)
  {
    assert (log + [done])[..|log|] == log;
  }

  /** An operation keeps its id; only `Begin` takes one, and a fresh one. */
  lemma StepId<T>(s: State<T>, a: Action<T>, default: T, q: nat)
    requires Enabled(s, a) && q in s.replicas
    ensures var s' := Next(s, a, default);
      && s.nextId <= s'.nextId && q in s'.replicas
      && var pc, pc' := s.replicas[q].pc, s'.replicas[q].pc;
         !pc'.Idle? ==>
           if pc.Idle? then a == Begin(q, pc'.op) && pc'.id == s.nextId < s'.nextId else pc'.id == pc.id
  {
  }

  lemma StepIds<T>(s: State<T>, a: Action<T>, default: T)
    requires IdsDistinct(s) && Enabled(s, a)
    ensures IdsDistinct(Next(s, a, default))
  {
    SameReplicas(s, a, default);
    forall q | q in s.replicas {
      StepId(s, a, default, q);
    }
  }

  /** What a step does to the call it is about: it enters it in the log, or leaves the log alone. */
  ghost predicate Progress<T>(pc: Pc<T>, pc': Pc<T>, log: seq<Done<T>>, log': seq<Done<T>>, nextId: nat) {
    || (log' == log && (pc'.Idle? || pc' == pc))
    || (log' == log && pc.Idle? && pc'.Waiting? && pc'.id == nextId && pc'.since == |log|)
    || (log' == log && !pc.Idle? && !pc.Finishing? && !pc'.Idle? && !pc'.Finishing?
        && pc'.id == pc.id && pc'.since == pc.since)
    || (!pc.Idle? && !pc.Finishing? && pc'.Finishing? && pc'.id == pc.id && pc'.since == pc.since && pc'.entry == |log|
        && log' == log + [Done(pc.id, pc'.op, pc'.result)])
  }

  lemma StepProgress<T>(s: State<T>, a: Action<T>, default: T)
    requires Enabled(s, a) && !a.Tick?
    ensures var s' := Next(s, a, default);
      a.r in s.replicas && a.r in s'.replicas
      && Progress(s.replicas[a.r].pc, s'.replicas[a.r].pc, s.log, s'.log, s.nextId)
  {
  }

  lemma ProgressEntered<T>(pc: Pc<T>, pc': Pc<T>, log: seq<Done<T>>, log': seq<Done<T>>, nextId: nat)
    requires Progress(pc, pc', log, log', nextId) && Entered(pc, log) && LogDistinct(log, nextId)
    requires !pc.Idle? ==> pc.id < nextId
    ensures Entered(pc', log') && LogDistinct(log', nextId)
  {
  }

  lemma ElsewhereEntered<T>(
      pc: Pc<T>, pc': Pc<T>, log: seq<Done<T>>, log': seq<Done<T>>, nextId: nat, other: Pc<T>)
    requires Progress(pc, pc', log, log', nextId) && Entered(other, log)
    requires !pc.Idle? && !other.Idle? ==> pc.id != other.id
    ensures Entered(other, log')
  {
  }

  lemma StepElsewhere<T>(s: State<T>, a: Action<T>, default: T, q: nat)
    requires Enabled(s, a) && q in s.replicas && (a.Tick? || a.r != q)
    ensures var s' := Next(s, a, default); q in s'.replicas && s'.replicas[q] == s.replicas[q]
  {
  }

  lemma StepEntered<T>(s: State<T>, a: Action<T>, default: T, q: nat)
    requires IdsDistinct(s) && LogDistinct(s.log, s.nextId) && Enabled(s, a) && q in s.replicas
    requires forall r | r in s.replicas :: Entered(s.replicas[r].pc, s.log)
    ensures var s' := Next(s, a, default); q in s'.replicas && Entered(s'.replicas[q].pc, s'.log)
  {
    assert Entered(s.replicas[q].pc, s.log);
    if a.Tick? {
      StepElsewhere(s, a, default, q);
    } else {
      var s' := Next(s, a, default);
      StepProgress(s, a, default);
      if q == a.r {
        ProgressEntered(s.replicas[q].pc, s'.replicas[q].pc, s.log, s'.log, s.nextId);
      } else {
        StepElsewhere(s, a, default, q);
        ElsewhereEntered(s.replicas[a.r].pc, s'.replicas[a.r].pc, s.log, s'.log, s.nextId, s.replicas[q].pc);
      }
    }
  }

  lemma StepLogDistinct<T>(s: State<T>, a: Action<T>, default: T)
    requires IdsDistinct(s) && LogDistinct(s.log, s.nextId) && Enabled(s, a)
    requires forall r | r in s.replicas :: Entered(s.replicas[r].pc, s.log)
    ensures LogDistinct(Next(s, a, default).log, Next(s, a, default).nextId)
  {
    if !a.Tick? {
      var s' := Next(s, a, default);
      StepProgress(s, a, default);
      assert Entered(s.replicas[a.r].pc, s.log);
      ProgressEntered(s.replicas[a.r].pc, s'.replicas[a.r].pc, s.log, s'.log, s.nextId);
    }
  }

  /** Returning is the last step of a call. */
  lemma StepReturned<T>(s: State<T>, a: Action<T>, default: T)
    requires Enabled(s, a)
    ensures var s' := Next(s, a, default);
      if a.Release? then
        var pc := s.replicas[a.r].pc;
        s'.log == s.log && s'.nextId == s.nextId && s'.returned == s.returned[pc.id := Return(pc, |s.log|)]
      else s'.returned == s.returned && s'.nextId == s.nextId + if a.Begin? then 1 else 0
  {
  }

  lemma StepAnswered<T>(s: State<T>, a: Action<T>, default: T, id: nat)
    requires Logged(s) && Enabled(s, a) && id < Next(s, a, default).nextId
    ensures Answered(Next(s, a, default), id)
  {
    var s' := Next(s, a, default);
    StepReturned(s, a, default);
    if !a.Tick? {
      StepProgress(s, a, default);
      assert Entered(s.replicas[a.r].pc, s.log);
    }
    if id in s.returned {
      assert Answered(s, id);
      assert TookEffect(s.returned[id], s'.log);
    } else if id < s.nextId {
      assert Answered(s, id);
      var r :| r in s.replicas && !s.replicas[r].pc.Idle? && s.replicas[r].pc.id == id;
      if a.Tick? || a.r != r {
        StepElsewhere(s, a, default, r);
        assert s'.replicas[r].pc.id == id;
      } else {
        StepStays(s, a, default);
      }
    } else {
      assert s'.replicas[a.r].pc.id == id;
    }
  }

  lemma StepStays<T>(s: State<T>, a: Action<T>, default: T)
    requires Enabled(s, a) && !a.Tick? && !s.replicas[a.r].pc.Idle?
    ensures var s', pc := Next(s, a, default), s.replicas[a.r].pc;
      a.r in s'.replicas &&
      if a.Release? then pc.Finishing? else !s'.replicas[a.r].pc.Idle? && s'.replicas[a.r].pc.id == pc.id
  {
  }

  lemma StepUnreturned<T>(s: State<T>, a: Action<T>, default: T, q: nat)
    requires IdsDistinct(s) && Enabled(s, a) && q in s.replicas
    requires forall id | id in s.returned :: id < s.nextId
    requires forall r | r in s.replicas && !s.replicas[r].pc.Idle? :: s.replicas[r].pc.id !in s.returned
    ensures var s' := Next(s, a, default);
      q in s'.replicas && (!s'.replicas[q].pc.Idle? ==> s'.replicas[q].pc.id !in s'.returned)
  {
    StepReturned(s, a, default);
    StepId(s, a, default, q);
    if a.Release? && a.r != q {
      StepElsewhere(s, a, default, q);
    }
  }

  lemma StepLogged<T>(s: State<T>, a: Action<T>, default: T)
    requires IdsDistinct(s) && Logged(s) && Enabled(s, a)
    ensures Logged(Next(s, a, default))
  {
    var s' := Next(s, a, default);
    SameReplicas(s, a, default);
    StepReturned(s, a, default);
    StepLogDistinct(s, a, default);
    forall q | q in s'.replicas
      ensures Entered(s'.replicas[q].pc, s'.log)
      ensures !s'.replicas[q].pc.Idle? ==> s'.replicas[q].pc.id !in s'.returned
    {
      StepEntered(s, a, default, q);
      StepUnreturned(s, a, default, q);
    }
    forall id: nat | id < s'.nextId
      ensures Answered(s', id)
    {
      StepAnswered(s, a, default, id);
    }
  }

  lemma StepOwns<T>(s: State<T>, a: Action<T>, default: T, q: nat)
    requires IdsDistinct(s) && Timely(s) && Enabled(s, a) && Timely(Next(s, a, default))
    requires (forall r | r in s.replicas :: Owns(s, r)) && q in s.replicas
    ensures q in Next(s, a, default).replicas && Owns(Next(s, a, default), q)
  {
    assert Owns(s, q);
    if !a.Tick? && a.r != q && Critical(s.replicas[q].pc) {
      if a.Poll? || a.Release? {
        assert Owns(s, a.r);
      }
    }
  }

  lemma StepAgreesElsewhere<T>(s: State<T>, a: Action<T>, default: T, q: nat)
    requires IdsDistinct(s) && Enabled(s, a) && q in s.replicas && (a.Tick? || a.r != q)
    requires (forall r | r in s.replicas :: Owns(s, r)) && Agrees(s, q, default)
    ensures q in Next(s, a, default).replicas && Agrees(Next(s, a, default), q, default)
  {
    if a.Persist? && Critical(s.replicas[q].pc) {
      OneHolder(s, a.r, q);
    }
  }

  lemma StepAgrees<T>(s: State<T>, a: Action<T>, default: T)
    requires Enabled(s, a) && !a.Tick? && Agrees(s, a.r, default)
    ensures a.r in Next(s, a, default).replicas && Agrees(Next(s, a, default), a.r, default)
  {
  }

  lemma StepLog<T>(s: State<T>, a: Action<T>, default: T)
    requires Locked(s, default) && Enabled(s, a)
    ensures var s' := Next(s, a, default);
      Legal(s'.log, default) && Replay(s'.log, default) == s'.records
  {
    if a.Persist? {
      var pc := s.replicas[a.r].pc;
      assert Agrees(s, a.r, default);
      AppendLegal(s.log, Done(pc.id, pc.op, Some(pc.data)), default);
    } else if a.Apply? {
      var pc := s.replicas[a.r].pc;
      assert Agrees(s, a.r, default);
      if pc.op.Get? && Base(s.replicas[a.r]).None? {
        AppendLegal(s.log, Done(pc.id, pc.op, None), default);
      }
    }
  }

  lemma StepLocked<T>(s: State<T>, a: Action<T>, default: T)
    requires IdsDistinct(s) && Locked(s, default) && Timely(s) && Enabled(s, a) && Timely(Next(s, a, default))
    ensures Locked(Next(s, a, default), default)
  {
    var s' := Next(s, a, default);
    StepLog(s, a, default);
    SameReplicas(s, a, default);
    forall q | q in s'.replicas
      ensures Owns(s', q) && Agrees(s', q, default)
    {
      StepOwns(s, a, default, q);
      if a.Tick? || a.r != q {
        StepAgreesElsewhere(s, a, default, q);
      } else {
        StepAgrees(s, a, default);
      }
    }
  }

  lemma StepInv<T>(s: State<T>, a: Action<T>, default: T)
    requires Inv(s, default) && Timely(s) && Enabled(s, a) && Timely(Next(s, a, default))
    ensures Inv(Next(s, a, default), default)
  {
    StepIds(s, a, default);
    StepLocked(s, a, default);
    StepLogged(s, a, default);
  }

  lemma SameReplicas<T>(s: State<T>, a: Action<T>, default: T)
    requires Enabled(s, a)
    ensures Next(s, a, default).replicas.Keys == s.replicas.Keys
  {
  }

  lemma {:induction false} RunInv<T>(s: State<T>, actions: seq<Action<T>>, default: T)
    requires IsInitial(s) && AlwaysTimely(s, actions, default)
    ensures Run(s, actions, default).Some? && Inv(Run(s, actions, default).value, default)
  {
    assert actions[..|actions|] == actions;
    assert TimelyAt(s, actions[..|actions|], default);
    if actions == [] {
      InitialInv(s, default);
    } else {
      var front := actions[..|actions| - 1];
      forall k | 0 <= k <= |front|
        ensures TimelyAt(s, front[..k], default)
      {
        assert front[..k] == actions[..k];
      }
      assert TimelyAt(s, front[..|front|], default) && front[..|front|] == front;
      RunInv(s, front, default);
      StepInv(Run(s, front, default).value, actions[|actions| - 1], default);
    }
  }

  /** What a run shows: a legal history of one map that the backend holds, in which no two calls share an
      entry; every call begun is still in progress or has returned what its own entry says, made between its
      begin and its return. */
  ghost predicate IsOneMap<T>(s: State<T>, default: T) {
    && Legal(s.log, default)
    && s.records == Replay(s.log, default)
    && LogDistinct(s.log, s.nextId) && IdsDistinct(s)
    && (forall id: nat | id < s.nextId :: Answered(s, id))
    && (forall r | r in s.replicas :: Entered(s.replicas[r].pc, s.log))
    && (forall r | r in s.replicas && !s.replicas[r].pc.Applied? :: s.replicas[r].cache.Keys <= s.records.Keys)
  }

  /** In every interleaving in which locks are obtained and critical sections end within their lease,
      the replicas are one atomic map: the operations, in the order they took effect, each returned
      what that map returns, and the backend holds what that map holds. No update is lost. */
  lemma ReplicasRefineOneMap<T>(s: State<T>, actions: seq<Action<T>>, default: T)
    requires IsInitial(s) && AlwaysTimely(s, actions, default)
    ensures Run(s, actions, default).Some? && IsOneMap(Run(s, actions, default).value, default)
  {
    RunInv(s, actions, default);
    var end := Run(s, actions, default).value;
    forall r | r in end.replicas
      ensures Agrees(end, r, default)
    {
    }
  }

  /** Calls from `id` on began when the log had `n` entries, or later. */
  ghost predicate BegunSince<T>(s: State<T>, id: nat, n: nat) {
    && n <= |s.log| && id <= s.nextId
    && (forall r | r in s.replicas && !s.replicas[r].pc.Idle? && id <= s.replicas[r].pc.id ::
          n <= s.replicas[r].pc.since)
    && (forall b | b in s.returned && id <= b :: n <= s.returned[b].since)
  }

  lemma StepBegunSince<T>(s: State<T>, a: Action<T>, default: T, id: nat, n: nat)
    requires Enabled(s, a) && BegunSince(s, id, n)
    ensures BegunSince(Next(s, a, default), id, n)
  {
    var s' := Next(s, a, default);
    SameReplicas(s, a, default);
    StepReturned(s, a, default);
    if !a.Tick? {
      StepProgress(s, a, default);
      StepId(s, a, default, a.r);
    }
    forall r | r in s'.replicas && !s'.replicas[r].pc.Idle? && id <= s'.replicas[r].pc.id
      ensures n <= s'.replicas[r].pc.since
    {
      if a.Tick? || a.r != r {
        StepElsewhere(s, a, default, r);
      }
    }
  }

  /** What has returned stays returned. */
  lemma StepKeepsReturned<T>(s: State<T>, a: Action<T>, default: T, id: nat)
    requires Enabled(s, a) && id in s.returned
    requires forall r | r in s.replicas && !s.replicas[r].pc.Idle? :: s.replicas[r].pc.id != id
    ensures id in Next(s, a, default).returned && Next(s, a, default).returned[id] == s.returned[id]
  {
    StepReturned(s, a, default);
  }

  lemma LaterStep<T>(s: State<T>, a: Action<T>, default: T, first: nat, n: nat, id: nat)
    requires Inv(s, default) && Enabled(s, a) && BegunSince(s, first, n) && id in s.returned
    ensures var s' := Next(s, a, default);
      BegunSince(s', first, n) && id in s'.returned && s'.returned[id] == s.returned[id]
  {
    StepBegunSince(s, a, default, first, n);
    StepKeepsReturned(s, a, default, id);
  }

  lemma RunSplit<T>(s: State<T>, actions: seq<Action<T>>, later: seq<Action<T>>, default: T)
    requires later != [] && AlwaysTimely(s, actions + later, default)
    ensures var front, a := later[..|later| - 1], later[|later| - 1];
      && AlwaysTimely(s, actions + front, default)
      && var before := Run(s, actions + front, default);
         before.Some? && Enabled(before.value, a)
         && Run(s, actions + later, default) == Some(Next(before.value, a, default))
  {
    var front, a := later[..|later| - 1], later[|later| - 1];
    var all := actions + later;
    assert all == (actions + front) + [a];
    PrefixTimely(s, actions + front, [a], default);
    assert all[..|all| - 1] == actions + front && all[|all| - 1] == a;
    assert TimelyAt(s, all[..|all|], default) && all[..|all|] == all;
  }

  lemma {:induction false} LaterRun<T>(
      s: State<T>, actions: seq<Action<T>>, later: seq<Action<T>>, default: T, mid: State<T>, id: nat)
    requires IsInitial(s) && AlwaysTimely(s, actions + later, default)
    requires Run(s, actions, default) == Some(mid) && BegunSince(mid, mid.nextId, |mid.log|) && id in mid.returned
    ensures var end := Run(s, actions + later, default);
      end.Some? && BegunSince(end.value, mid.nextId, |mid.log|)
      && id in end.value.returned && end.value.returned[id] == mid.returned[id]
  {
    if later == [] {
      assert actions + later == actions;
    } else {
      var front := later[..|later| - 1];
      RunSplit(s, actions, later, default);
      LaterRun(s, actions, front, default, mid, id);
      RunInv(s, actions + front, default);
      LaterStep(Run(s, actions + front, default).value, later[|later| - 1], default, mid.nextId, |mid.log|, id);
    }
  }

  /** The order of the log is that of real time: of two calls, one that had returned before the other
      began has the earlier entry. */
  lemma RealTimeOrder<T>(s: State<T>, actions: seq<Action<T>>, later: seq<Action<T>>, default: T, a: nat, b: nat)
    requires IsInitial(s) && AlwaysTimely(s, actions + later, default)
    requires Run(s, actions, default).Some? && a in Run(s, actions, default).value.returned
    requires b >= Run(s, actions, default).value.nextId
    ensures Run(s, actions + later, default).Some?
    ensures var end := Run(s, actions + later, default).value;
      b in end.returned ==> a in end.returned && end.returned[a].entry < end.returned[b].entry
  {
    var mid := Run(s, actions, default).value;
    PrefixTimely(s, actions, later, default);
    RunInv(s, actions, default);
    RunInv(s, actions + later, default);
    assert Answered(mid, a);
    LaterRun(s, actions, later, default, mid, a);
    var end := Run(s, actions + later, default).value;
    if b in end.returned {
      assert Answered(end, b);
    }
  }

  lemma PrefixTimely<T>(s: State<T>, actions: seq<Action<T>>, later: seq<Action<T>>, default: T)
    requires AlwaysTimely(s, actions + later, default)
    ensures AlwaysTimely(s, actions, default)
  {
    forall k | 0 <= k <= |actions|
      ensures TimelyAt(s, actions[..k], default)
    {
      assert actions[..k] == (actions + later)[..k];
      assert TimelyAt(s, (actions + later)[..k], default);
    }
  }

  /** Every lease in the backend is that of a replica in its critical section on that very session: none
      outlives its call. */
  ghost predicate LocksHeld<T>(s: State<T>) {
    forall key | key in s.locks :: exists r | r in s.replicas ::
      Critical(s.replicas[r].pc) && s.replicas[r].pc.op.key == key && s.replicas[r].pc.held == Some(s.locks[key])
  }

  lemma StepLease<T>(s: State<T>, a: Action<T>, default: T)
    requires Enabled(s, a) && !a.Tick?
    ensures var s', pc := Next(s, a, default), s.replicas[a.r].pc;
      && a.r in s'.replicas
      && (a.Poll? && !Live(s, pc.op.key) ==>
            var pc' := s'.replicas[a.r].pc;
            Critical(pc') && pc'.op.key == pc.op.key && pc'.held.Some?
            && s'.locks == s.locks[pc.op.key := pc'.held.value])
      && (a.Release? ==>
            s'.locks == if pc.held.Some? && pc.op.key in s.locks && s.locks[pc.op.key].owner == pc.held.value.owner
                        then s.locks - {pc.op.key} else s.locks)
      && (!a.Release? && !(a.Poll? && !Live(s, pc.op.key)) ==> s'.locks == s.locks)
  {
  }

  lemma StepKeepsLease<T>(s: State<T>, a: Action<T>, default: T)
    requires Enabled(s, a) && !a.Tick? && !a.Release? && Critical(s.replicas[a.r].pc)
    ensures var pc, pc' := s.replicas[a.r].pc, Next(s, a, default).replicas[a.r].pc;
      Critical(pc') && pc'.op == pc.op && pc'.held == pc.held
  {
  }

  lemma StepLocksHeld<T>(s: State<T>, a: Action<T>, default: T)
    requires (forall r | r in s.replicas :: Owns(s, r)) && LocksHeld(s) && Enabled(s, a)
    ensures LocksHeld(Next(s, a, default))
  {
    var s' := Next(s, a, default);
    SameReplicas(s, a, default);
    if !a.Tick? {
      StepLease(s, a, default);
      assert Owns(s, a.r);
    }
    forall key | key in s'.locks
      ensures exists r | r in s'.replicas ::
        Critical(s'.replicas[r].pc) && s'.replicas[r].pc.op.key == key && s'.replicas[r].pc.held == Some(s'.locks[key])
    {
      if !(a.Poll? && !Live(s, s.replicas[a.r].pc.op.key) && key == s.replicas[a.r].pc.op.key) {
        assert key in s.locks;
        var r :| r in s.replicas && Critical(s.replicas[r].pc) && s.replicas[r].pc.op.key == key
              && s.replicas[r].pc.held == Some(s.locks[key]);
        if a.Tick? || a.r != r {
          StepElsewhere(s, a, default, r);
        } else {
          StepKeepsLease(s, a, default);
        }
        assert s'.replicas[r].pc.held == Some(s'.locks[key]);
      }
    }
  }

  /** In every such run no lease outlives its call; so with nobody in a critical section every lock is free. */
  lemma {:induction false} LocksAreReleased<T>(s: State<T>, actions: seq<Action<T>>, default: T)
    requires IsInitial(s) && AlwaysTimely(s, actions, default)
    ensures Run(s, actions, default).Some? && LocksHeld(Run(s, actions, default).value)
    ensures var end := Run(s, actions, default).value;
      (forall r | r in end.replicas :: !Critical(end.replicas[r].pc)) ==> end.locks == map[]
  {
    RunInv(s, actions, default);
    if actions != [] {
      var front, a := actions[..|actions| - 1], actions[|actions| - 1];
      assert actions == front + [a];
      PrefixTimely(s, front, [a], default);
      LocksAreReleased(s, front, default);
      RunInv(s, front, default);
      StepLocksHeld(Run(s, front, default).value, a, default);
    }
  }

  /** A call waits for the lock from when it began, takes it for 15 s once it is free or its lease has run out,
      and gives up, to go on without it, only after 20 s. */
  lemma WaitsForTheLock<T>(s: State<T>, r: nat, op: Op<T>, default: T)
    ensures Enabled(s, Begin(r, op)) ==>
      Next(s, Begin(r, op), default).replicas[r].pc == Waiting(s.nextId, op, |s.log|, s.now)
    ensures Enabled(s, Poll(r)) ==>
      var s', pc := Next(s, Poll(r), default), s.replicas[r].pc;
      if pc.op.key in s.locks && s.now < s.locks[pc.op.key].expiry then s' == s
      else
        var lease := Lease(pc.id, s.now + 15_000);
        s'.locks == s.locks[pc.op.key := lease] && s'.replicas[r].pc == Granted(pc.id, pc.op, pc.since, Some(lease))
    ensures Enabled(s, GiveUp(r)) <==>
      && r in s.replicas && s.replicas[r].pc.Waiting?
      && var pc := s.replicas[r].pc;
         pc.op.key in s.locks && s.now < s.locks[pc.op.key].expiry && pc.begun + 20_000 <= s.now
  {
  }

  // ---------------------------------------------------------------- what a replica caches

  ghost predicate WasAnswered<T>(log: seq<Done<T>>, key: string, value: T) {
    exists i :: 0 <= i < |log| && log[i].op.key == key && log[i].result == Some(value)
  }

  /** The replica has cached what its call computed and answers; and whatever it has cached, some call on that
      session was told. */
  ghost predicate CachesAnswers<T>(replica: Replica<T>, log: seq<Done<T>>) {
    var cache, pc := replica.cache, replica.pc;
    && (pc.Applied? ==> Lookup(cache, pc.op.key) == Some(pc.data))
    && (pc.Finishing? && pc.result.Some? ==> Lookup(cache, pc.op.key) == pc.result)
    && (forall key | key in cache && !(pc.Applied? && pc.op.key == key) :: WasAnswered(log, key, cache[key]))
  }

  lemma StillAnswered<T>(log: seq<Done<T>>, log': seq<Done<T>>, key: string, value: T)
    requires log <= log' && WasAnswered(log, key, value)
    ensures WasAnswered(log', key, value)
  {
    var i :| 0 <= i < |log| && log[i].op.key == key && log[i].result == Some(value);
    assert log'[i] == log[i];
  }

  /** Only applying an operation changes a cache, and then at its key alone. */
  lemma StepCache<T>(s: State<T>, a: Action<T>, default: T, q: nat)
    requires Enabled(s, a) && q in s.replicas
    ensures var s' := Next(s, a, default);
      && q in s'.replicas && s.log <= s'.log
      && var replica, replica' := s.replicas[q], s'.replicas[q];
         if a == Apply(q) && replica'.pc.Applied? then
           && replica'.pc.op == replica.pc.op
           && replica'.cache == replica.cache[replica.pc.op.key := replica'.pc.data]
         else
           && replica'.cache == replica.cache
           && (replica'.pc.Applied? ==> replica' == replica)
           && (replica.pc.Applied? && replica' != replica ==>
                 && replica'.pc.Finishing? && replica'.pc.op == replica.pc.op
                 && replica'.pc.result == Some(replica.pc.data)
                 && s'.log == s.log + [Done(replica.pc.id, replica.pc.op, Some(replica.pc.data))])
           && (!replica.pc.Applied? && replica'.pc.Finishing? && replica'.pc.result.Some? ==> replica' == replica)
  {
  }

  lemma StepCachesAnswers<T>(s: State<T>, a: Action<T>, default: T, q: nat)
    requires Enabled(s, a) && q in s.replicas && CachesAnswers(s.replicas[q], s.log)
    ensures var s' := Next(s, a, default); q in s'.replicas && CachesAnswers(s'.replicas[q], s'.log)
  {
    var s' := Next(s, a, default);
    StepCache(s, a, default, q);
    var replica, replica' := s.replicas[q], s'.replicas[q];
    forall key | key in replica'.cache && !(replica'.pc.Applied? && replica'.pc.op.key == key)
      ensures WasAnswered(s'.log, key, replica'.cache[key])
    {
      if replica.pc.Applied? && key == replica.pc.op.key {
        assert s'.log[|s.log|].result == Some(replica'.cache[key]);
      } else {
        StillAnswered(s.log, s'.log, key, replica.cache[key]);
      }
    }
  }

  /** In every run, with or without the locks, each replica has cached what it computes and answers, and nothing
      that no call on that session was told. */
  lemma {:induction false} CachesHoldAnswers<T>(s: State<T>, actions: seq<Action<T>>, default: T)
    requires IsInitial(s) && Run(s, actions, default).Some?
    ensures var end := Run(s, actions, default).value;
      forall r | r in end.replicas :: CachesAnswers(end.replicas[r], end.log)
  {
    if actions != [] {
      var front, a := actions[..|actions| - 1], actions[|actions| - 1];
      CachesHoldAnswers(s, front, default);
      var before := Run(s, front, default).value;
      SameReplicas(before, a, default);
      forall r | r in before.replicas
        ensures CachesAnswers(Next(before, a, default).replicas[r], Next(before, a, default).log)
      {
        StepCachesAnswers(before, a, default, r);
      }
    }
  }

  // ---------------------------------------------------------------- without the lock, an update is lost

  lemma RunOneMore<T>(s: State<T>, actions: seq<Action<T>>, a: Action<T>, default: T)
    requires Run(s, actions, default).Some? && Enabled(Run(s, actions, default).value, a)
    ensures Run(s, actions + [a], default) == Some(Next(Run(s, actions, default).value, a, default))
  {
    assert (actions + [a])[..|actions|] == actions;
  }

  const THREE_IDLE: State<int> :=
    State(0, map[], map[],
      map[0 := Replica(map[], Idle), 1 := Replica(map[], Idle), 2 := Replica(map[], Idle)], 0, [], map[])

  lemma Extend(s: State<int>, actions: seq<Action<int>>, a: Action<int>)
      returns (s': State<int>, actions': seq<Action<int>>)
    requires Run(THREE_IDLE, actions, 0) == Some(s) && Enabled(s, a)
    ensures s' == Next(s, a, 0) && actions' == actions + [a] && Run(THREE_IDLE, actions', 0) == Some(s')
  {
    RunOneMore(THREE_IDLE, actions, a, 0);
    s', actions' := Next(s, a, 0), actions + [a];
  }

  /** Two replicas count up from nothing: both have loaded, and neither has written. */
  ghost predicate BothLoaded(s: State<int>, r: nat, q: nat, increment: int -> int) {
    && s.records == map[] && r != q
    && InSection(s, r, increment) && InSection(s, q, increment)
  }

  ghost predicate InSection(s: State<int>, r: nat, increment: int -> int) {
    && r in s.replicas && s.replicas[r].pc.Loaded? && s.replicas[r].cache == map[]
    && s.replicas[r].pc.op == Update("n", increment) && s.replicas[r].pc.loaded.None?
  }

  /** Two replicas count up; to the second the backend fails to answer for the lock. */
  lemma FailedLock(increment: int -> int) returns (s: State<int>, actions: seq<Action<int>>)
    ensures Run(THREE_IDLE, actions, 0) == Some(s) && s.log == [] && BothLoaded(s, 0, 1, increment)
  {
    s, actions := THREE_IDLE, [];
    s, actions := Extend(s, actions, Begin(0, Update("n", increment)));
    s, actions := Extend(s, actions, Begin(1, Update("n", increment)));
    s, actions := Extend(s, actions, Poll(0));
    s, actions := Extend(s, actions, LockFails(1));
    s, actions := Extend(s, actions, Load(0));
    s, actions := Extend(s, actions, Load(1));
  }

  lemma FirstHolder(increment: int -> int) returns (s: State<int>, actions: seq<Action<int>>)
    ensures Run(THREE_IDLE, actions, 0) == Some(s) && s.records == map[] && s.log == [Done(0, Get("n"), None)]
    ensures s.now == 0 && s.nextId == 2 && s.locks == map["n" := Lease(0, 15_000)]
    ensures s.replicas == map[
      0 := Replica(map[], Finishing(0, Get("n"), 0, Some(Lease(0, 15_000)), None, 0)),
      1 := Replica(map[], Waiting(1, Update("n", increment), 0, 0)),
      2 := Replica(map[], Idle)]
  {
    s, actions := THREE_IDLE, [];
    s, actions := Extend(s, actions, Begin(0, Get("n")));
    s, actions := Extend(s, actions, Poll(0));
    s, actions := Extend(s, actions, Begin(1, Update("n", increment)));
    s, actions := Extend(s, actions, Load(0));
    s, actions := Extend(s, actions, Apply(0));
  }

  /** The lock changes hands while replica 1 waits: replica 0 has it for 14.9 s, then replica 2. */
  lemma LockChangesHands(increment: int -> int) returns (s: State<int>, actions: seq<Action<int>>)
    ensures Run(THREE_IDLE, actions, 0) == Some(s) && s.records == map[] && s.log == [Done(0, Get("n"), None)]
    ensures s.now == 14_900 && s.locks == map["n" := Lease(2, 29_900)]
    ensures s.replicas == map[
      0 := Replica(map[], Idle),
      1 := Replica(map[], Waiting(1, Update("n", increment), 0, 0)),
      2 := Replica(map[], Granted(2, Update("n", increment), 1, Some(Lease(2, 29_900))))]
  {
    s, actions := FirstHolder(increment);
    s, actions := Extend(s, actions, Tick(14_900));
    s, actions := Extend(s, actions, Release(0));
    s, actions := Extend(s, actions, Begin(2, Update("n", increment)));
    s, actions := Extend(s, actions, Poll(2));
  }

  /** Replica 1 has then waited its 20 s, and finds the lock held once more. */
  lemma TimedOutLock(increment: int -> int) returns (s: State<int>, actions: seq<Action<int>>)
    ensures Run(THREE_IDLE, actions, 0) == Some(s) && s.log == [Done(0, Get("n"), None)] && s.now == LOCK_WAIT
    ensures BothLoaded(s, 2, 1, increment)
  {
    s, actions := LockChangesHands(increment);
    s, actions := Extend(s, actions, Tick(5_100));
    s, actions := Extend(s, actions, Poll(1));
    s, actions := Extend(s, actions, GiveUp(1));
    s, actions := Extend(s, actions, Load(2));
    s, actions := Extend(s, actions, Load(1));
  }

  /** A replica that has loaded nothing counts up to 1, */
  lemma CountsToOne(s: State<int>, r: nat, increment: int -> int)
    requires InSection(s, r, increment) && forall x :: increment(x) == x + 1
    ensures var s', pc := Next(s, Apply(r), 0), s.replicas[r].pc;
      s' == s.(replicas := s.replicas[r := Replica(map["n" := 1], Applied(pc.id, pc.op, pc.since, pc.held, 1))])
  {
  }

  /** and writes that. */
  lemma WritesOne(s: State<int>, r: nat, increment: int -> int)
    requires r in s.replicas && s.replicas[r].pc.Applied? && s.replicas[r].pc.data == 1
    requires s.replicas[r].pc.op == Update("n", increment)
    ensures var s', pc := Next(s, Persist(r), 0), s.replicas[r].pc;
      && s'.records == s.records["n" := 1] && s'.now == s.now
      && s'.log == s.log + [Done(pc.id, Update("n", increment), Some(1))]
      && forall q | q in s.replicas && q != r :: q in s'.replicas && s'.replicas[q] == s.replicas[q]
  {
  }

  /** From there both write 1. */
  lemma BothWrite(s: State<int>, actions: seq<Action<int>>, r: nat, q: nat, increment: int -> int)
      returns (end: State<int>, actions': seq<Action<int>>, a: nat, b: nat)
    requires Run(THREE_IDLE, actions, 0) == Some(s) && BothLoaded(s, r, q, increment)
    requires forall x :: increment(x) == x + 1
    ensures Run(THREE_IDLE, actions', 0) == Some(end) && end.records == map["n" := 1] && end.now == s.now
    ensures end.log == s.log + Counted(a, b, increment)
  {
    a, b := s.replicas[r].pc.id, s.replicas[q].pc.id;
    CountsToOne(s, r, increment);
    end, actions' := Extend(s, actions, Apply(r));
    CountsToOne(end, q, increment);
    end, actions' := Extend(end, actions', Apply(q));
    WritesOne(end, r, increment);
    end, actions' := Extend(end, actions', Persist(r));
    WritesOne(end, q, increment);
    end, actions' := Extend(end, actions', Persist(q));
  }

  /** The backend then holds 1 after two increments: what two calls were told in the log is not what one map
      would have told them. */
  lemma BothCount(s: State<int>, actions: seq<Action<int>>, r: nat, q: nat, increment: int -> int)
      returns (end: State<int>, actions': seq<Action<int>>)
    requires Run(THREE_IDLE, actions, 0) == Some(s) && BothLoaded(s, r, q, increment)
    requires Replay(s.log, 0) == map[] && forall x :: increment(x) == x + 1
    ensures Run(THREE_IDLE, actions', 0) == Some(end) && end.records == map["n" := 1] && end.now == s.now
    ensures exists a, b :: end.log == s.log + Counted(a, b, increment)
    ensures Replay(end.log, 0) == map["n" := 2] && !Legal(end.log, 0)
  {
    var a, b;
    end, actions', a, b := BothWrite(s, actions, r, q, increment);
    CountedOnce(s.log, a, b, increment);
  }

  /** Two calls that count up, and are both told 1. */
  function Counted(a: nat, b: nat, increment: int -> int): seq<Done<int>> {
    [Done(a, Update("n", increment), Some(1)), Done(b, Update("n", increment), Some(1))]
  }

  /** A history in which two updates of nothing both answered 1 is not one of a single map. */
  lemma CountedOnce(log: seq<Done<int>>, a: nat, b: nat, increment: int -> int)
    requires Replay(log, 0) == map[] && forall x :: increment(x) == x + 1
    ensures var counted := log + Counted(a, b, increment);
      Replay(counted, 0) == map["n" := 2] && !Legal(counted, 0)
  {
    var first := log + [Counted(a, b, increment)[0]];
    var counted := log + Counted(a, b, increment);
    assert first[..|log|] == log && counted[..|log| + 1] == first;
    assert Replay(first, 0) == map["n" := 1];
    assert Replay(counted, 0) == map["n" := 2];
  }

  /** A replica whose lock the backend fails to answer for goes on without it, and an update is lost. */
  lemma FailedLockLosesAnUpdate(increment: int -> int) returns (end: State<int>, actions: seq<Action<int>>)
    requires forall x :: increment(x) == x + 1
    ensures IsInitial(THREE_IDLE) && Run(THREE_IDLE, actions, 0) == Some(end)
    ensures end.records == map["n" := 1] && Replay(end.log, 0) == map["n" := 2] && !Legal(end.log, 0)
  {
    var s;
    s, actions := FailedLock(increment);
    end, actions := BothCount(s, actions, 0, 1, increment);
  }

  /** So does one that has waited its 20 s in vain, and an update is lost though every lease outlasts the
      work done under it. */
  lemma TimedOutLockLosesAnUpdate(increment: int -> int) returns (end: State<int>, actions: seq<Action<int>>)
    requires forall x :: increment(x) == x + 1
    ensures IsInitial(THREE_IDLE) && Run(THREE_IDLE, actions, 0) == Some(end) && end.now == LOCK_WAIT
    ensures end.records == map["n" := 1] && Replay(end.log, 0) == map["n" := 2] && !Legal(end.log, 0)
  {
    var s;
    s, actions := TimedOutLock(increment);
    assert s.log[..0] == [] && Replay(s.log, 0) == map[];
    end, actions := BothCount(s, actions, 2, 1, increment);
  }
}
