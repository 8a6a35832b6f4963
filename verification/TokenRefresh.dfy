/** Refreshing one session's token from any number of instances (`src/auth/store.rs:501-579` and
    `src/auth/store.rs:1026-1215`), as a step machine.

    A task is one `get_token` call on some instance. Every await point is a step, and any task may move
    next. Instances have a cache and a refresh mutex each; the backend has the token record and one
    leased lock. The upstream server answers, or refuses, when it likes. Times are milliseconds. */
module TokenRefresh {
  import opened Json
  import opened Leases

  const EXPIRY_BUFFER: nat := 30_000

  datatype Token = Token(access: string, refresh: Option<string>, expiresAt: Option<nat>)

  /** `is_expired`, with its 30 second buffer. */
  predicate Expired(t: Token, now: nat) {
    t.expiresAt.Some? && now + EXPIRY_BUFFER > t.expiresAt.value
  }

  /** The three places a call reads the token through: first, again under the refresh mutex, and when
      it is about to refresh. */
  datatype Phase = First | Second | Third

  datatype Pc =
    | Reading(phase: Phase, held: Option<Lease<nat>>)
    | Missed(phase: Phase, held: Option<Lease<nat>>)
    | Filling(phase: Phase, held: Option<Lease<nat>>, t: Token)
    | WaitingMutex
    | Contending(owner: nat, deadline: nat)
    | PeerHolds(owner: nat, deadline: nat)
    | LastLook(held: Option<Lease<nat>>)
    | Adopting(held: Option<Lease<nat>>, t: Token)
    | Asking(held: Option<Lease<nat>>, refresh: string)
    | Asked(held: Option<Lease<nat>>, refresh: string)
    | Caching(held: Option<Lease<nat>>, t: Token)
    | Storing(held: Option<Lease<nat>>, t: Token)
    | Confirming(held: Option<Lease<nat>>)
    | Leaving(held: Option<Lease<nat>>, result: Option<Token>)
    | Done(result: Option<Token>)

  datatype Task = Task(inst: nat, pc: Pc)

  /** An answer as upstream gave it. */
  datatype Upstream = Upstream(access: string, rotated: Option<string>, expiresAt: Option<nat>)

  /** History: `asked` counts upstream refreshes, `presented` are the refresh tokens they were asked with and
      `answers` what upstream said; `issued` are the tokens made of that, `refusals` counts the failures. */
  datatype State = State(
    now: nat,
    record: Option<Token>,
    lock: Option<Lease<nat>>,
    caches: map<nat, Token>,
    mutexes: map<nat, nat>,
    tasks: map<nat, Task>,
    nextOwner: nat,
    asked: nat,
    presented: seq<string>,
    answers: seq<Upstream>,
    issued: seq<Token>,
    refusals: nat)

  datatype Action =
    | Spawn(task: nat, inst: nat)
    | Move(task: nat)
    | LockFails(task: nat)
    | Answer(task: nat, access: string, rotated: Option<string>, expiresAt: Option<nat>)
    | Refuse(task: nat)
    | Tick(ms: nat)

  predicate LockLive(s: State) {
    s.lock.Some? && s.lock.value.expiry > s.now
  }

  predicate Enabled(s: State, a: Action) {
    match a
    case Tick(_) => true
    case Spawn(task, _) => task !in s.tasks
    case Move(task) =>
      && task in s.tasks && !s.tasks[task].pc.Done? && !s.tasks[task].pc.Asked?
      && (s.tasks[task].pc.WaitingMutex? ==> s.tasks[task].inst !in s.mutexes)
    case LockFails(task) => task in s.tasks && s.tasks[task].pc.Contending?
    case Answer(task, _, _, _) => task in s.tasks && s.tasks[task].pc.Asked?
    case Refuse(task) => task in s.tasks && s.tasks[task].pc.Asked?
  }

  function At(s: State, task: nat, pc: Pc): State
    requires task in s.tasks
  {
    s.(tasks := s.tasks[task := s.tasks[task].(pc := pc)])
  }

  /** What a call does with the token it read. */
  function AfterRead(phase: Phase, held: Option<Lease<nat>>, t: Option<Token>, s: State): Pc {
    match phase
    case First =>
      if t.None? then Done(None)
      else if !Expired(t.value, s.now) then Done(t)
      else if t.value.refresh.Some? then WaitingMutex
      else Done(None)
    case Second =>
      if t.Some? && !Expired(t.value, s.now) then Leaving(None, t)
      else Contending(s.nextOwner, s.now + LOCK_WAIT)
    case Third =>
      if t.None? || t.value.refresh.None? then Leaving(held, None)
      else Asking(held, t.value.refresh.value)
  }

  function Continue(s: State, task: nat, phase: Phase, held: Option<Lease<nat>>, t: Option<Token>): State
    requires task in s.tasks
  {
    var s' := At(s, task, AfterRead(phase, held, t, s));
    if phase.Second? then s'.(nextOwner := s.nextOwner + 1) else s'
  }

  function Next(s: State, a: Action): State
    requires Enabled(s, a)
  {
    match a
    case Tick(ms) => s.(now := s.now + ms)
    case Spawn(task, inst) => s.(tasks := s.tasks[task := Task(inst, Reading(First, None))])
    case LockFails(task) => At(s, task, LastLook(None))
    case Refuse(task) => At(s, task, Leaving(s.tasks[task].pc.held, None)).(refusals := s.refusals + 1)
    case Answer(task, access, rotated, expiresAt) =>
      var pc := s.tasks[task].pc;
      var t := Token(access, if rotated.Some? then rotated else Some(pc.refresh), expiresAt);
      At(s, task, Caching(pc.held, t))
        .(answers := s.answers + [Upstream(access, rotated, expiresAt)], issued := s.issued + [t])
    case Move(task) => MoveTask(s, task)
  }

  function MoveTask(s: State, task: nat): State
    requires Enabled(s, Move(task))
  {
    var inst := s.tasks[task].inst;
    match s.tasks[task].pc
    case Reading(phase, held) =>
      if inst in s.caches then Continue(s, task, phase, held, Some(s.caches[inst]))
      else At(s, task, Missed(phase, held))
    case Missed(phase, held) =>
      if s.record.Some? then At(s, task, Filling(phase, held, s.record.value))
      else Continue(s, task, phase, held, None)
    case Filling(phase, held, t) =>
      // Keep what a concurrent task has put there meanwhile.
      var filled := if inst in s.caches then s else s.(caches := s.caches[inst := t]);
      Continue(filled, task, phase, held, Some(filled.caches[inst]))
    case WaitingMutex => At(s, task, Reading(Second, None)).(mutexes := s.mutexes[inst := task])
    case Contending(owner, deadline) =>
      if LockLive(s) then At(s, task, PeerHolds(owner, deadline))
      else
        var lease := Lease(owner, s.now + LOCK_TTL);
        At(s, task, LastLook(Some(lease))).(lock := Some(lease))
    case PeerHolds(owner, deadline) =>
      if s.record.Some? && !Expired(s.record.value, s.now) then At(s, task, Adopting(None, s.record.value))
      else if s.now >= deadline then At(s, task, LastLook(None))
      else At(s, task, Contending(owner, deadline))
    case LastLook(held) =>
      if s.record.Some? && !Expired(s.record.value, s.now) then At(s, task, Adopting(held, s.record.value))
      else At(s, task, Reading(Third, held))
    case Adopting(held, t) => At(s, task, Leaving(held, Some(t))).(caches := s.caches[inst := t])
    case Asking(held, refresh) =>
      At(s, task, Asked(held, refresh)).(asked := s.asked + 1, presented := s.presented + [refresh])
    case Caching(held, t) => At(s, task, Storing(held, t)).(caches := s.caches[inst := t])
    case Storing(held, t) => At(s, task, Confirming(held)).(record := Some(t))
    case Confirming(held) =>
      At(s, task, Leaving(held, if inst in s.caches then Some(s.caches[inst]) else None))
    case Leaving(held, result) =>
      var freed := if held.Some? && s.lock.Some? && s.lock.value.owner == held.value.owner then None else s.lock;
      At(s, task, Done(result)).(lock := freed, mutexes := s.mutexes - {inst})
    case _ => s
  }

  function Run(s: State, actions: seq<Action>): Option<State> {
    if actions == [] then Some(s)
    else
      var before := Run(s, actions[..|actions| - 1]);
      if before.Some? && Enabled(before.value, actions[|actions| - 1])
      then Some(Next(before.value, actions[|actions| - 1]))
      else None
  }

  /** An expired token that can still be refreshed. */
  predicate Stale(t: Token, now: nat) {
    t.refresh.Some? && Expired(t, now)
  }

  /** The token has just been found expired everywhere it is known. */
  predicate IsExpiry(s: State) {
    && s.record.Some? && Stale(s.record.value, s.now)
    && (forall inst | inst in s.caches :: Stale(s.caches[inst], s.now))
    && s.tasks == map[] && s.lock.None? && s.asked == 0 && s.issued == [] && s.refusals == 0
    && s.presented == [] && s.answers == []
  }

  // ---------------------------------------------------------------- what is assumed of a run

  /** The call is past the lock: looking once more, refreshing, or adopting what it saw under the lock. */
  predicate PastLock(pc: Pc) {
    || pc.LastLook? || pc.Asking? || pc.Asked? || pc.Caching? || pc.Storing? || pc.Confirming?
    || (pc.Reading? && pc.phase.Third?) || (pc.Missed? && pc.phase.Third?) || (pc.Filling? && pc.phase.Third?)
  }

  /** The lease a call holds, from taking the lock to releasing it. */
  function HeldBy(pc: Pc): Option<Lease<nat>> {
    if PastLock(pc) || pc.Adopting? || pc.Leaving? then pc.held else None
  }

  /** Nobody goes past the lock without it, leases outlast the work done under them, upstream does not
      fail, and a token it issued is not expired yet. */
  ghost predicate Orderly(s: State) {
    && (forall k | k in s.tasks && PastLock(s.tasks[k].pc) :: HeldBy(s.tasks[k].pc).Some?)
    && (forall k | k in s.tasks && HeldBy(s.tasks[k].pc).Some? :: HeldBy(s.tasks[k].pc).value.expiry > s.now)
    && s.refusals == 0
    && (forall j | 0 <= j < |s.issued| :: !Expired(s.issued[j], s.now))
  }

  // ---------------------------------------------------------------- the invariant

  /** Every token around is either one of the expired ones or the one upstream issued. */
  ghost predicate OldOrNew(s: State, t: Token) {
    Stale(t, s.now) || s.issued == [t]
  }

  /** The call has seen the record expired while holding the lock, and has not asked upstream yet. */
  predicate Deciding(pc: Pc) {
    pc.Asking? || ((pc.Reading? || pc.Missed? || pc.Filling?) && pc.phase.Third?)
  }

  predicate InFlight(pc: Pc) {
    pc.Asked? || pc.Caching? || pc.Storing?
  }

  function OwnerOf(pc: Pc): Option<nat> {
    if pc.Contending? || pc.PeerHolds? then Some(pc.owner)
    else if HeldBy(pc).Some? then Some(HeldBy(pc).value.owner)
    else None
  }

  ghost predicate OwnersDistinct(s: State) {
    && (forall k | k in s.tasks && OwnerOf(s.tasks[k].pc).Some? :: OwnerOf(s.tasks[k].pc).value < s.nextOwner)
    && (forall k, j | k in s.tasks && j in s.tasks && k != j && OwnerOf(s.tasks[k].pc).Some? ::
          OwnerOf(s.tasks[k].pc) != OwnerOf(s.tasks[j].pc))
  }

  /** What one call knows and may do next. */
  ghost predicate TaskOk(s: State, k: nat)
    requires k in s.tasks
  {
    var pc, inst := s.tasks[k].pc, s.tasks[k].inst;
    && (HeldBy(pc).Some? ==> s.lock == HeldBy(pc))
    && (pc.Filling? ==> OldOrNew(s, pc.t))
    && (pc.Adopting? || pc.Caching? || pc.Storing? ==> s.issued == [pc.t])
    && (pc.Storing? || pc.Confirming? ==> inst in s.caches && [s.caches[inst]] == s.issued)
    && (pc.Leaving? || pc.Done? ==> pc.result.Some? && s.issued == [pc.result.value])
    && (Deciding(pc) ==> s.asked == 0)
    && (pc.Asked? ==> s.asked == 1 && s.issued == [])
    && (pc.Caching? || pc.Storing? || pc.Confirming? ==> s.asked == 1)
    && (pc.Reading? || pc.Missed? || pc.Filling? ==> !pc.phase.Third? ==> pc.held.None?)
  }

  ghost predicate Inv(s: State) {
    && |s.issued| <= s.asked <= 1
    && s.record.Some? && OldOrNew(s, s.record.value)
    && (forall inst | inst in s.caches :: OldOrNew(s, s.caches[inst]))
    && OwnersDistinct(s)
    && (forall k | k in s.tasks :: TaskOk(s, k))
    // Once asked, the answer is in the record, or its bearer still holds the lock.
    && (s.asked == 1 ==> s.issued == [s.record.value] || exists k | k in s.tasks :: InFlight(s.tasks[k].pc))
  }

  lemma OneHolder(s: State, k: nat, j: nat)
    requires Inv(s) && k in s.tasks && j in s.tasks
    requires HeldBy(s.tasks[k].pc).Some? && HeldBy(s.tasks[j].pc).Some?
    ensures k == j
  {
    assert TaskOk(s, k) && TaskOk(s, j);
    assert OwnerOf(s.tasks[k].pc) == OwnerOf(s.tasks[j].pc);
  }

  lemma IsExpiryInv(s: State)
    requires IsExpiry(s)
    ensures Inv(s)
  {
  }

  /** Under the lock, an expired record means nobody has asked yet. */
  lemma ExpiredUnderLock(s: State, k: nat)
    requires Inv(s) && Orderly(s) && k in s.tasks && s.tasks[k].pc.LastLook?
    requires Expired(s.record.value, s.now)
    ensures s.asked == 0
  {
    if s.asked == 1 {
      NewRecordIsFresh(s);
      var j :| j in s.tasks && InFlight(s.tasks[j].pc);
      OneHolder(s, k, j);
    }
  }

  lemma NewRecordIsFresh(s: State)
    requires Orderly(s) && s.record.Some?
    ensures s.issued == [s.record.value] ==> !Expired(s.record.value, s.now)
  {
    if s.issued == [s.record.value] {
      assert s.record.value == s.issued[0];
    }
  }

  // ---------------------------------------------------------------- every step keeps it

  /** All that one call's step can change, besides its own place: nothing in other calls, the caches
      only with an old or new token, and the rest as its place in the call says. */
  ghost predicate Frame(s: State, s': State, task: nat)
    requires task in s.tasks
  {
    var pc, inst := s.tasks[task].pc, s.tasks[task].inst;
    && s'.now == s.now && s'.refusals == s.refusals && s'.issued == s.issued
    && task in s'.tasks && s'.tasks == s.tasks[task := s'.tasks[task]] && s'.tasks[task].inst == inst
    && s'.record == (if pc.Storing? then Some(pc.t) else s.record)
    && s'.asked == (if pc.Asking? then s.asked + 1 else s.asked)
    && (s'.caches == s.caches || ((pc.Filling? || pc.Adopting? || pc.Caching?) && s'.caches == s.caches[inst := pc.t]))
    && (pc.Filling? && inst in s.caches ==> s'.caches == s.caches)
    && (s'.lock == s.lock || (pc.Contending? && !LockLive(s)) || (pc.Leaving? && pc.held.Some? && s.lock.Some?
          && s.lock.value.owner == pc.held.value.owner))
  }

  lemma MoveFrame(s: State, task: nat)
    requires Enabled(s, Move(task))
    ensures Frame(s, MoveTask(s, task), task)
  {
    match s.tasks[task].pc
    case Reading(_, _) =>
    case Missed(_, _) =>
    case Filling(_, _, _) =>
    case Contending(_, _) =>
    case PeerHolds(_, _) =>
    case LastLook(_) =>
    case Leaving(_, _) =>
    case _ =>
  }

  /** Where a call goes from where it is. */
  lemma MoveOwner(s: State, task: nat)
    requires Enabled(s, Move(task))
    ensures var s' := MoveTask(s, task);
      && task in s'.tasks && s.nextOwner <= s'.nextOwner
      && (OwnerOf(s'.tasks[task].pc).Some? ==>
            || OwnerOf(s'.tasks[task].pc) == OwnerOf(s.tasks[task].pc)
            || (OwnerOf(s'.tasks[task].pc).value == s.nextOwner < s'.nextOwner))
  {
    match s.tasks[task].pc
    case Reading(phase, held) =>
      ReadOwner(phase, held, if s.tasks[task].inst in s.caches then Some(s.caches[s.tasks[task].inst]) else None, s);
    case Missed(phase, held) => ReadOwner(phase, held, None, s);
    case Filling(phase, held, t) =>
      var inst := s.tasks[task].inst;
      var filled := if inst in s.caches then s else s.(caches := s.caches[inst := t]);
      ReadOwner(phase, held, Some(filled.caches[inst]), filled);
    case Contending(_, _) =>
    case PeerHolds(_, _) =>
    case LastLook(_) =>
    case _ =>
  }

  lemma ReadOwner(phase: Phase, held: Option<Lease<nat>>, t: Option<Token>, s: State)
    ensures var after := OwnerOf(AfterRead(phase, held, t, s));
      match phase
      case First => after.None?
      case Second => after.Some? ==> after.value == s.nextOwner
      case Third => after == if held.Some? then Some(held.value.owner) else None
  {
  }

  lemma OwnersKept(s: State, s': State, task: nat)
    requires OwnersDistinct(s) && s.nextOwner <= s'.nextOwner
    requires task in s'.tasks && (task in s.tasks ==> s'.tasks == s.tasks[task := s'.tasks[task]])
    requires task !in s.tasks ==> s'.tasks == s.tasks[task := s'.tasks[task]]
    requires OwnerOf(s'.tasks[task].pc).Some? ==>
      || (task in s.tasks && OwnerOf(s'.tasks[task].pc) == OwnerOf(s.tasks[task].pc))
      || (OwnerOf(s'.tasks[task].pc).value == s.nextOwner < s'.nextOwner)
    ensures OwnersDistinct(s')
  {
  }

  /** The other calls stay as they were: only the holder of the lock frees it or asks upstream. */
  lemma MoveElsewhere(s: State, s': State, task: nat, k: nat)
    requires Inv(s) && Orderly(s) && task in s.tasks && Frame(s, s', task)
    requires k in s.tasks && k != task
    ensures TaskOk(s', k)
  {
    assert TaskOk(s, k) && TaskOk(s, task);
    var pc, mine := s.tasks[task].pc, s.tasks[k].pc;
    if HeldBy(mine).Some? {
      if HeldBy(pc).Some? {
        OneHolder(s, k, task);
      }
      assert LockLive(s);
    }
  }

  lemma MoveTokens(s: State, s': State, task: nat)
    requires Inv(s) && task in s.tasks && Frame(s, s', task)
    ensures s'.record.Some? && OldOrNew(s', s'.record.value)
    ensures forall inst | inst in s'.caches :: OldOrNew(s', s'.caches[inst])
  {
    assert TaskOk(s, task);
  }

  lemma MoveCount(s: State, s': State, task: nat)
    requires Inv(s) && Orderly(s) && task in s.tasks && Frame(s, s', task)
    ensures |s'.issued| <= s'.asked <= 1
  {
    assert TaskOk(s, task);
  }

  /** What a call goes on to once it has read the token. */
  lemma ContinueOk(s: State, task: nat, phase: Phase, held: Option<Lease<nat>>, t: Option<Token>)
    requires task in s.tasks && t.Some? && OldOrNew(s, t.value)
    requires Orderly(s) && |s.issued| <= s.asked
    requires phase.Third? ==> held.Some? && s.lock == held && s.asked == 0
    ensures var s' := Continue(s, task, phase, held, t);
      task in s'.tasks && TaskOk(s', task)
  {
    if s.issued == [t.value] {
      assert t.value == s.issued[0];
    }
    match phase
    case First =>
    case Second =>
    case Third =>
  }

  lemma MoveReading(s: State, task: nat)
    requires Inv(s) && Orderly(s) && Enabled(s, Move(task))
    requires var pc := s.tasks[task].pc; pc.Reading? || pc.Missed? || pc.Filling?
    ensures task in MoveTask(s, task).tasks && TaskOk(MoveTask(s, task), task)
  {
    assert TaskOk(s, task);
    var inst := s.tasks[task].inst;
    match s.tasks[task].pc
    case Reading(phase, held) =>
      if inst in s.caches {
        ContinueOk(s, task, phase, held, Some(s.caches[inst]));
      }
    case Missed(phase, held) =>
    case Filling(phase, held, t) =>
      var filled := if inst in s.caches then s else s.(caches := s.caches[inst := t]);
      assert OldOrNew(filled, filled.caches[inst]);
      ContinueOk(filled, task, phase, held, Some(filled.caches[inst]));
  }

  /** Places that carry no claim but the lease, if any. */
  lemma UnclaimedOk(s: State, k: nat)
    requires k in s.tasks
    requires var pc := s.tasks[k].pc;
      || pc.WaitingMutex? || pc.Contending? || pc.PeerHolds? || pc == Reading(Second, None)
      || (pc.LastLook? && (pc.held.Some? ==> s.lock == pc.held))
      || (pc.Adopting? && pc.held.None? && s.issued == [pc.t])
    ensures TaskOk(s, k)
  {
  }

  lemma MoveContending(s: State, task: nat)
    requires Enabled(s, Move(task))
    requires var pc := s.tasks[task].pc; pc.Contending? || pc.WaitingMutex?
    ensures task in MoveTask(s, task).tasks && TaskOk(MoveTask(s, task), task)
  {
    UnclaimedOk(MoveTask(s, task), task);
  }

  lemma MovePeerHolds(s: State, task: nat)
    requires s.record.Some? && OldOrNew(s, s.record.value)
    requires Enabled(s, Move(task)) && s.tasks[task].pc.PeerHolds?
    ensures task in MoveTask(s, task).tasks && TaskOk(MoveTask(s, task), task)
  {
    UnclaimedOk(MoveTask(s, task), task);
  }

  lemma MoveLastLook(s: State, task: nat)
    requires Inv(s) && Orderly(s) && Enabled(s, Move(task)) && s.tasks[task].pc.LastLook?
    ensures task in MoveTask(s, task).tasks && TaskOk(MoveTask(s, task), task)
  {
    assert TaskOk(s, task);
    if Expired(s.record.value, s.now) {
      ExpiredUnderLock(s, task);
    }
  }

  lemma MoveAsking(s: State, task: nat)
    requires Inv(s) && Orderly(s) && Enabled(s, Move(task))
    requires var pc := s.tasks[task].pc; pc.Asking? || pc.Caching? || pc.Storing?
    ensures task in MoveTask(s, task).tasks && TaskOk(MoveTask(s, task), task)
  {
    assert TaskOk(s, task);
  }

  lemma MoveLeaving(s: State, task: nat)
    requires Inv(s) && Orderly(s) && Enabled(s, Move(task))
    requires var pc := s.tasks[task].pc; pc.Adopting? || pc.Confirming? || pc.Leaving?
    ensures task in MoveTask(s, task).tasks && TaskOk(MoveTask(s, task), task)
  {
    assert TaskOk(s, task);
  }

  ghost predicate Accounted(s: State) {
    s.asked == 1 && s.record.Some? ==>
      s.issued == [s.record.value] || exists k | k in s.tasks :: InFlight(s.tasks[k].pc)
  }

  lemma MoveAccounted(s: State, task: nat)
    requires Inv(s) && Orderly(s) && Enabled(s, Move(task))
    ensures Accounted(MoveTask(s, task))
  {
    var s' := MoveTask(s, task);
    MoveFrame(s, task);
    assert TaskOk(s, task);
    if s.tasks[task].pc.Asking? || s.tasks[task].pc.Caching? {
      assert InFlight(s'.tasks[task].pc);
    } else if !s.tasks[task].pc.Storing? && s.asked == 1 && s.issued != [s.record.value] {
      var k :| k in s.tasks && InFlight(s.tasks[k].pc);
      assert s'.tasks[k] == s.tasks[k];
    }
  }

  lemma MoveInv(s: State, task: nat)
    requires Inv(s) && Orderly(s) && Enabled(s, Move(task))
    ensures Inv(MoveTask(s, task))
  {
    var s' := MoveTask(s, task);
    MoveFrame(s, task);
    MoveOwner(s, task);
    OwnersKept(s, s', task);
    MoveTokens(s, s', task);
    MoveCount(s, s', task);
    MoveAccounted(s, task);
    var pc := s.tasks[task].pc;
    if pc.Reading? || pc.Missed? || pc.Filling? {
      MoveReading(s, task);
    } else if pc.Contending? || pc.WaitingMutex? {
      MoveContending(s, task);
    } else if pc.PeerHolds? {
      MovePeerHolds(s, task);
    } else if pc.LastLook? {
      MoveLastLook(s, task);
    } else if pc.Asking? || pc.Caching? || pc.Storing? {
      MoveAsking(s, task);
    } else {
      MoveLeaving(s, task);
    }
    forall k | k in s'.tasks
      ensures TaskOk(s', k)
    {
      if k != task {
        MoveElsewhere(s, s', task, k);
      }
    }
  }

  lemma AnswerInv(s: State, a: Action)
    requires Inv(s) && Orderly(s) && a.Answer? && Enabled(s, a)
    ensures Inv(Next(s, a))
  {
    var s', task := Next(s, a), a.task;
    assert TaskOk(s, task);
    OwnersKept(s, s', task);
    assert InFlight(s'.tasks[task].pc);
    forall k | k in s'.tasks
      ensures TaskOk(s', k)
    {
      if k != task {
        assert TaskOk(s, k);
        if HeldBy(s.tasks[k].pc).Some? {
          OneHolder(s, k, task);
        }
      }
    }
  }

  lemma TickInv(s: State, ms: nat)
    requires Inv(s)
    ensures Inv(Next(s, Tick(ms)))
  {
    var s' := Next(s, Tick(ms));
    forall k | k in s'.tasks
      ensures TaskOk(s', k)
    {
      assert TaskOk(s, k);
    }
  }

  lemma SpawnInv(s: State, task: nat, inst: nat)
    requires Inv(s) && task !in s.tasks
    ensures Inv(Next(s, Spawn(task, inst)))
  {
    var s' := Next(s, Spawn(task, inst));
    OwnersKept(s, s', task);
    assert forall k | k in s.tasks :: s'.tasks[k] == s.tasks[k];
    forall k | k in s'.tasks
      ensures TaskOk(s', k)
    {
      if k != task {
        assert TaskOk(s, k);
      }
    }
  }

  lemma StepInv(s: State, a: Action)
    requires Inv(s) && Orderly(s) && Enabled(s, a) && Orderly(Next(s, a))
    ensures Inv(Next(s, a))
  {
    match a
    case Tick(ms) => TickInv(s, ms);
    case Spawn(task, inst) => SpawnInv(s, task, inst);
    case Move(task) => MoveInv(s, task);
    case Answer(_, _, _, _) => AnswerInv(s, a);
    case LockFails(task) =>
      assert PastLock(Next(s, a).tasks[task].pc);
    case Refuse(task) =>
  }

  ghost predicate OrderlyAt(s: State, actions: seq<Action>) {
    var reached := Run(s, actions);
    reached.Some? && Orderly(reached.value)
  }

  lemma {:induction false} RunInv(s: State, actions: seq<Action>)
    requires IsExpiry(s) && forall k | 0 <= k <= |actions| :: OrderlyAt(s, actions[..k])
    ensures Run(s, actions).Some? && Inv(Run(s, actions).value)
  {
    assert actions[..|actions|] == actions;
    assert OrderlyAt(s, actions[..|actions|]);
    if actions == [] {
      IsExpiryInv(s);
    } else {
      var front := actions[..|actions| - 1];
      forall k | 0 <= k <= |front|
        ensures OrderlyAt(s, front[..k])
      {
        assert front[..k] == actions[..k];
      }
      assert OrderlyAt(s, front[..|front|]) && front[..|front|] == front;
      RunInv(s, front);
      StepInv(Run(s, front).value, actions[|actions| - 1]);
    }
  }

  // ---------------------------------------------------------------- what the refresh brings

  /** The token was in the backend or some cache when it was found expired. */
  predicate WasThere(start: State, t: Token) {
    start.record == Some(t) || exists inst | inst in start.caches :: start.caches[inst] == t
  }

  ghost predicate RefreshWasThere(start: State, refresh: string) {
    exists t :: WasThere(start, t) && t.refresh == Some(refresh)
  }

  ghost predicate Known(start: State, s: State, t: Token) {
    WasThere(start, t) || s.issued == [t]
  }

  /** The token is what upstream answered, with the refresh token presented for it where upstream did not
      give another. */
  predicate Brought(t: Token, answer: Upstream, presented: string) {
    && t.access == answer.access && t.expiresAt == answer.expiresAt
    && t.refresh == if answer.rotated.Some? then answer.rotated else Some(presented)
  }

  ghost predicate TaskTraced(start: State, s: State, k: nat)
    requires k in s.tasks
  {
    match s.tasks[k].pc
    case Filling(_, _, t) => Known(start, s, t)
    case Asking(_, refresh) => RefreshWasThere(start, refresh)
    case Asked(_, refresh) => s.presented == [refresh] && RefreshWasThere(start, refresh)
    case _ => true
  }

  /** Every token around is an old one, or is made of what upstream answered to an old refresh token. */
  ghost predicate Traced(start: State, s: State) {
    && |s.presented| == s.asked && |s.answers| == |s.issued| <= |s.presented|
    && (forall j | 0 <= j < |s.presented| :: RefreshWasThere(start, s.presented[j]))
    && (forall j | 0 <= j < |s.issued| :: Brought(s.issued[j], s.answers[j], s.presented[j]))
    && (s.record.Some? ==> Known(start, s, s.record.value))
    && (forall inst | inst in s.caches :: Known(start, s, s.caches[inst]))
    && (forall k | k in s.tasks :: TaskTraced(start, s, k))
  }

  /** The history of a step that neither asks upstream nor is answered. */
  ghost predicate SameHistory(s: State, s': State) {
    s'.asked == s.asked && s'.presented == s.presented && s'.answers == s.answers && s'.issued == s.issued
  }

  lemma TracedKept(start: State, s: State, s': State)
    requires Traced(start, s) && SameHistory(s, s')
    requires s'.record.Some? ==> Known(start, s, s'.record.value)
    requires forall inst | inst in s'.caches :: Known(start, s, s'.caches[inst])
    requires forall k | k in s'.tasks :: (k in s.tasks && s'.tasks[k] == s.tasks[k]) || TaskTraced(start, s', k)
    ensures Traced(start, s')
  {
    forall k | k in s'.tasks
      ensures TaskTraced(start, s', k)
    {
      if k in s.tasks && s'.tasks[k] == s.tasks[k] {
        assert TaskTraced(start, s, k);
      }
    }
  }

  lemma MoveHistory(s: State, task: nat)
    requires Enabled(s, Move(task)) && !s.tasks[task].pc.Asking?
    ensures SameHistory(s, MoveTask(s, task))
  {
  }

  /** A call about to refresh has read an old token, and presents its refresh token. */
  lemma ContinueTraced(start: State, s: State, task: nat, phase: Phase, held: Option<Lease<nat>>, t: Option<Token>)
    requires task in s.tasks && (t.Some? ==> Known(start, s, t.value)) && (phase.Third? ==> s.issued == [])
    ensures TaskTraced(start, Continue(s, task, phase, held, t), task)
  {
    if t.Some? && t.value.refresh.Some? && phase.Third? {
      assert WasThere(start, t.value);
      assert RefreshWasThere(start, t.value.refresh.value);
    }
  }

  lemma ReadingTraced(start: State, s: State, task: nat)
    requires Inv(s) && Traced(start, s) && Enabled(s, Move(task))
    requires var pc := s.tasks[task].pc; pc.Reading? || pc.Missed? || pc.Filling?
    ensures task in MoveTask(s, task).tasks && TaskTraced(start, MoveTask(s, task), task)
  {
    assert TaskOk(s, task) && TaskTraced(start, s, task);
    var inst := s.tasks[task].inst;
    match s.tasks[task].pc
    case Reading(phase, held) =>
      if inst in s.caches {
        ContinueTraced(start, s, task, phase, held, Some(s.caches[inst]));
      }
    case Missed(phase, held) =>
      if s.record.None? {
        ContinueTraced(start, s, task, phase, held, None);
      }
    case Filling(phase, held, t) =>
      var filled := if inst in s.caches then s else s.(caches := s.caches[inst := t]);
      ContinueTraced(start, filled, task, phase, held, Some(filled.caches[inst]));
  }

  lemma MoveCachesKnown(start: State, s: State, s': State, task: nat)
    requires Traced(start, s) && task in s.tasks && TaskOk(s, task) && Frame(s, s', task)
    ensures s'.record.Some? ==> Known(start, s, s'.record.value)
    ensures forall inst | inst in s'.caches :: Known(start, s, s'.caches[inst])
  {
    assert TaskTraced(start, s, task);
    var pc := s.tasks[task].pc;
    assert pc.Filling? || pc.Adopting? || pc.Caching? || pc.Storing? ==> Known(start, s, pc.t);
  }

  lemma MovePlain(start: State, s: State, task: nat)
    requires Enabled(s, Move(task))
    requires var pc := s.tasks[task].pc; !pc.Reading? && !pc.Missed? && !pc.Filling? && !pc.Asking?
    ensures task in MoveTask(s, task).tasks && TaskTraced(start, MoveTask(s, task), task)
  {
  }

  lemma AskTraced(start: State, s: State, task: nat)
    requires Inv(s) && Traced(start, s) && Enabled(s, Move(task)) && s.tasks[task].pc.Asking?
    ensures Traced(start, MoveTask(s, task))
  {
    var s' := MoveTask(s, task);
    assert TaskOk(s, task) && TaskTraced(start, s, task);
    assert s.presented == [] && s.issued == [];
    forall k | k in s'.tasks
      ensures TaskTraced(start, s', k)
    {
      if k != task {
        assert TaskOk(s, k) && TaskTraced(start, s, k);
      }
    }
  }

  lemma MoveTraced(start: State, s: State, task: nat)
    requires Inv(s) && Traced(start, s) && Enabled(s, Move(task))
    ensures Traced(start, MoveTask(s, task))
  {
    var s', pc := MoveTask(s, task), s.tasks[task].pc;
    if pc.Asking? {
      AskTraced(start, s, task);
    } else {
      MoveHistory(s, task);
      MoveFrame(s, task);
      assert TaskOk(s, task);
      MoveCachesKnown(start, s, s', task);
      if pc.Reading? || pc.Missed? || pc.Filling? {
        ReadingTraced(start, s, task);
      } else {
        MovePlain(start, s, task);
      }
      TracedKept(start, s, s');
    }
  }

  lemma AnswerTraced(start: State, s: State, a: Action)
    requires Inv(s) && Traced(start, s) && a.Answer? && Enabled(s, a)
    ensures Traced(start, Next(s, a))
  {
    var s' := Next(s, a);
    assert TaskOk(s, a.task) && TaskTraced(start, s, a.task);
    assert s.issued == [] && s.answers == [] && |s'.issued| == 1;
    forall k | k in s'.tasks
      ensures TaskTraced(start, s', k)
    {
      if k != a.task {
        assert TaskTraced(start, s, k);
      }
    }
  }

  lemma StepTraced(start: State, s: State, a: Action)
    requires Inv(s) && Traced(start, s) && Enabled(s, a)
    ensures Traced(start, Next(s, a))
  {
    match a
    case Move(task) => MoveTraced(start, s, task);
    case Answer(_, _, _, _) => AnswerTraced(start, s, a);
    case Tick(_) => TracedKept(start, s, Next(s, a));
    case Spawn(_, _) => TracedKept(start, s, Next(s, a));
    case LockFails(_) => TracedKept(start, s, Next(s, a));
    case Refuse(_) => TracedKept(start, s, Next(s, a));
  }

  lemma {:induction false} RunTraced(s: State, actions: seq<Action>)
    requires IsExpiry(s) && forall k | 0 <= k <= |actions| :: OrderlyAt(s, actions[..k])
    ensures Run(s, actions).Some? && Traced(s, Run(s, actions).value)
  {
    RunInv(s, actions);
    if actions != [] {
      var front := actions[..|actions| - 1];
      forall k | 0 <= k <= |front|
        ensures OrderlyAt(s, front[..k])
      {
        assert front[..k] == actions[..k];
      }
      RunTraced(s, front);
      RunInv(s, front);
      StepTraced(s, Run(s, front).value, actions[|actions| - 1]);
    }
  }

  // ---------------------------------------------------------------- what was returned is cached

  /** The token a call returns, or is about to, is the one its instance has cached. */
  ghost predicate Served(s: State, k: nat)
    requires k in s.tasks
  {
    var pc, inst := s.tasks[k].pc, s.tasks[k].inst;
    (pc.Leaving? || pc.Done?) && pc.result.Some? ==> inst in s.caches && s.caches[inst] == pc.result.value
  }

  ghost predicate AllServed(s: State) {
    forall k | k in s.tasks :: Served(s, k)
  }

  /** Of what one call's step can do, for another call: what it returns stays in the cache. */
  lemma OthersStayServed(s: State, s': State, task: nat, k: nat)
    requires task in s.tasks && TaskOk(s, task) && Frame(s, s', task)
    requires k in s.tasks && k != task && TaskOk(s, k) && Served(s, k)
    ensures k in s'.tasks && Served(s', k)
  {
  }

  lemma ContinueServed(s: State, task: nat, phase: Phase, held: Option<Lease<nat>>, t: Option<Token>)
    requires task in s.tasks && (t.Some? ==> Lookup(s.caches, s.tasks[task].inst) == t)
    ensures Served(Continue(s, task, phase, held, t), task)
  {
  }

  lemma MoveServed(s: State, task: nat)
    requires Enabled(s, Move(task)) && TaskOk(s, task) && Served(s, task)
    ensures task in MoveTask(s, task).tasks && Served(MoveTask(s, task), task)
  {
    var inst := s.tasks[task].inst;
    match s.tasks[task].pc
    case Reading(phase, held) =>
      if inst in s.caches {
        ContinueServed(s, task, phase, held, Some(s.caches[inst]));
      }
    case Missed(phase, held) =>
      if s.record.None? {
        ContinueServed(s, task, phase, held, None);
      }
    case Filling(phase, held, t) =>
      var filled := if inst in s.caches then s else s.(caches := s.caches[inst := t]);
      ContinueServed(filled, task, phase, held, Some(filled.caches[inst]));
    case _ =>
  }

  lemma StepServed(s: State, a: Action)
    requires Inv(s) && AllServed(s) && Enabled(s, a)
    ensures AllServed(Next(s, a))
  {
    var s' := Next(s, a);
    if a.Move? {
      MoveFrame(s, a.task);
      assert TaskOk(s, a.task);
      MoveServed(s, a.task);
      forall k | k in s'.tasks
        ensures Served(s', k)
      {
        if k != a.task {
          assert TaskOk(s, k);
          OthersStayServed(s, s', a.task, k);
        }
      }
    } else {
      OtherServed(s, a);
    }
  }

  lemma OtherServed(s: State, a: Action)
    requires AllServed(s) && Enabled(s, a) && !a.Move?
    ensures AllServed(Next(s, a))
  {
    forall k | k in Next(s, a).tasks
      ensures Served(Next(s, a), k)
    {
      assert k in s.tasks ==> Served(s, k);
    }
  }

  /** Every call that has returned leaves the token it returned in its instance's cache, whichever way it came
      by it, and later calls do not put an older one there. */
  lemma {:induction false} ReturnedIsCached(s: State, actions: seq<Action>)
    requires IsExpiry(s) && forall k | 0 <= k <= |actions| :: OrderlyAt(s, actions[..k])
    ensures Run(s, actions).Some? && AllServed(Run(s, actions).value)
  {
    RunInv(s, actions);
    if actions != [] {
      var front := actions[..|actions| - 1];
      forall k | 0 <= k <= |front|
        ensures OrderlyAt(s, front[..k])
      {
        assert front[..k] == actions[..k];
      }
      ReturnedIsCached(s, front);
      RunInv(s, front);
      StepServed(Run(s, front).value, actions[|actions| - 1]);
    }
  }

  // ---------------------------------------------------------------- no lock outlives its call

  /** The call is between taking its instance's refresh mutex and giving it back. */
  predicate Inside(pc: Pc) {
    !pc.WaitingMutex? && !pc.Done? && !((pc.Reading? || pc.Missed? || pc.Filling?) && pc.phase.First?)
  }

  /** A mutex is taken exactly while a call of its instance is inside, and by that one alone. */
  ghost predicate MutexesHeld(s: State) {
    && (forall k | k in s.tasks && Inside(s.tasks[k].pc) ::
          s.tasks[k].inst in s.mutexes && s.mutexes[s.tasks[k].inst] == k)
    && (forall inst | inst in s.mutexes ::
          s.mutexes[inst] in s.tasks && s.tasks[s.mutexes[inst]].inst == inst && Inside(s.tasks[s.mutexes[inst]].pc))
  }

  /** A lease in the backend is that of a call still past the lock. */
  ghost predicate LockHeld(s: State) {
    s.lock.Some? ==> exists k | k in s.tasks :: HeldBy(s.tasks[k].pc) == s.lock
  }

  predicate IsRead(pc: Pc) {
    pc.Reading? || pc.Missed? || pc.Filling?
  }

  /** Reading a token takes and gives back no lock, and leads from the first read to the mutex, or out. */
  lemma ReadLocks(s: State, task: nat)
    requires Enabled(s, Move(task)) && IsRead(s.tasks[task].pc)
    ensures MoveTask(s, task).mutexes == s.mutexes && MoveTask(s, task).lock == s.lock
  {
  }

  lemma ReadInside(s: State, task: nat)
    requires Enabled(s, Move(task)) && IsRead(s.tasks[task].pc)
    ensures var s', pc := MoveTask(s, task), s.tasks[task].pc;
      task in s'.tasks && Inside(s'.tasks[task].pc) == Inside(pc)
      && (HeldBy(pc).Some? ==> HeldBy(s'.tasks[task].pc) == HeldBy(pc))
  {
  }

  lemma MoveMutex(s: State, task: nat)
    requires Enabled(s, Move(task)) && !IsRead(s.tasks[task].pc)
    ensures var s', pc, inst := MoveTask(s, task), s.tasks[task].pc, s.tasks[task].inst;
      && s'.mutexes == (if pc.WaitingMutex? then s.mutexes[inst := task]
                        else if pc.Leaving? then s.mutexes - {inst} else s.mutexes)
      && task in s'.tasks && Inside(s'.tasks[task].pc) == !pc.Leaving?
  {
  }

  lemma MoveMutexes(s: State, task: nat)
    requires MutexesHeld(s) && Enabled(s, Move(task))
    ensures MutexesHeld(MoveTask(s, task))
  {
    if IsRead(s.tasks[task].pc) {
      ReadLocks(s, task);
      ReadInside(s, task);
    } else {
      MoveMutex(s, task);
    }
    MoveFrame(s, task);
  }

  lemma MoveLock(s: State, task: nat)
    requires Enabled(s, Move(task)) && !IsRead(s.tasks[task].pc) && !s.tasks[task].pc.Leaving?
    requires !s.tasks[task].pc.Contending?
    ensures var s', pc := MoveTask(s, task), s.tasks[task].pc;
      task in s'.tasks && s'.lock == s.lock && (HeldBy(pc).Some? ==> HeldBy(s'.tasks[task].pc) == HeldBy(pc))
  {
  }

  /** Every lease a step leaves in the backend is the one that was there, or the one the call just took. */
  lemma MoveLease(s: State, task: nat)
    requires Enabled(s, Move(task))
    ensures var s', pc := MoveTask(s, task), s.tasks[task].pc;
      && task in s'.tasks
      && (s'.lock.Some? ==> s'.lock == s.lock || HeldBy(s'.tasks[task].pc) == s'.lock)
      && (s'.lock.Some? && s'.lock == s.lock && HeldBy(pc) == s.lock ==> HeldBy(s'.tasks[task].pc) == HeldBy(pc))
  {
    var pc := s.tasks[task].pc;
    if IsRead(pc) {
      ReadLocks(s, task);
      ReadInside(s, task);
    } else if !pc.Leaving? && !pc.Contending? {
      MoveLock(s, task);
    }
  }

  lemma MoveLockHeld(s: State, task: nat)
    requires Inv(s) && LockHeld(s) && Enabled(s, Move(task))
    ensures LockHeld(MoveTask(s, task))
  {
    var s' := MoveTask(s, task);
    MoveLease(s, task);
    MoveFrame(s, task);
    if s.lock.Some? && s'.lock == s.lock {
      var k :| k in s.tasks && HeldBy(s.tasks[k].pc) == s.lock;
      assert TaskOk(s, k);
      assert k != task ==> s'.tasks[k] == s.tasks[k];
      assert HeldBy(s'.tasks[k].pc) == s.lock;
    }
  }

  /** A step that moves at most one call, and none across a lock. */
  ghost predicate Aside(s: State, s': State) {
    && s'.mutexes == s.mutexes && s'.lock == s.lock && s.tasks.Keys <= s'.tasks.Keys
    && (forall k | k in s'.tasks && k !in s.tasks :: !Inside(s'.tasks[k].pc))
    && (forall k | k in s.tasks ::
          s'.tasks[k].inst == s.tasks[k].inst && Inside(s'.tasks[k].pc) == Inside(s.tasks[k].pc)
          && HeldBy(s'.tasks[k].pc) == HeldBy(s.tasks[k].pc))
  }

  lemma AsideReleases(s: State, s': State)
    requires MutexesHeld(s) && LockHeld(s) && Aside(s, s')
    ensures MutexesHeld(s') && LockHeld(s')
  {
    if s.lock.Some? {
      var k :| k in s.tasks && HeldBy(s.tasks[k].pc) == s.lock;
      assert k in s'.tasks && HeldBy(s'.tasks[k].pc) == s.lock;
    }
  }

  lemma OtherAside(s: State, a: Action)
    requires Enabled(s, a) && !a.Move?
    ensures Aside(s, Next(s, a))
  {
    match a
    case Tick(_) =>
    case Spawn(_, _) =>
    case LockFails(_) =>
    case Answer(_, _, _, _) =>
    case Refuse(_) =>
  }

  lemma StepReleases(s: State, a: Action)
    requires Inv(s) && MutexesHeld(s) && LockHeld(s) && Enabled(s, a)
    ensures MutexesHeld(Next(s, a)) && LockHeld(Next(s, a))
  {
    if a.Move? {
      MoveMutexes(s, a.task);
      MoveLockHeld(s, a.task);
    } else {
      OtherAside(s, a);
      AsideReleases(s, Next(s, a));
    }
  }

  /** Once every call has returned, the lock is free, and so is every mutex. */
  lemma {:induction false} LocksAreReleased(s: State, actions: seq<Action>)
    requires IsExpiry(s) && s.mutexes == map[] && forall k | 0 <= k <= |actions| :: OrderlyAt(s, actions[..k])
    ensures Run(s, actions).Some?
    ensures var end := Run(s, actions).value;
      && MutexesHeld(end) && LockHeld(end)
      && ((forall k | k in end.tasks :: end.tasks[k].pc.Done?) ==> end.lock.None? && end.mutexes == map[])
  {
    RunInv(s, actions);
    if actions != [] {
      var front := actions[..|actions| - 1];
      forall k | 0 <= k <= |front|
        ensures OrderlyAt(s, front[..k])
      {
        assert front[..k] == actions[..k];
      }
      LocksAreReleased(s, front);
      RunInv(s, front);
      StepReleases(Run(s, front).value, actions[|actions| - 1]);
    }
  }

  /** At the lock: a call that finds it free, or its lease run out, takes it for 15 s. */
  lemma AtTheLock(s: State, task: nat)
    requires Enabled(s, Move(task)) && s.tasks[task].pc.Contending?
    ensures var s', pc := MoveTask(s, task), s.tasks[task].pc;
      task in s'.tasks &&
      if s.lock.None? || s.lock.value.expiry <= s.now then
        s'.lock == Some(Lease(pc.owner, s.now + 15_000)) && s'.tasks[task].pc == LastLook(s'.lock)
      else s'.lock == s.lock && s'.tasks[task].pc == PeerHolds(pc.owner, pc.deadline)
  {
  }

  /** One that does not looks for a peer's token, adopts a fresh one, and otherwise tries again until its 20 s
      are over, when it goes on without the lock. */
  lemma WaitingForPeer(s: State, task: nat)
    requires Enabled(s, Move(task)) && s.tasks[task].pc.PeerHolds?
    ensures var s', pc := MoveTask(s, task), s.tasks[task].pc;
      task in s'.tasks && s'.tasks[task].pc ==
        if s.record.Some? && !(s.record.value.expiresAt.Some? && s.record.value.expiresAt.value < s.now + 30_000) then
          Adopting(None, s.record.value)
        else if s.now >= pc.deadline then LastLook(None)
        else Contending(pc.owner, pc.deadline)
  {
  }

  /** The wait starts when the call, inside its instance's mutex, has found the token expired once more. */
  lemma WaitStarts(s: State, task: nat, held: Option<Lease<nat>>, t: Option<Token>)
    requires task in s.tasks
    ensures Continue(s, task, Second, held, t).tasks[task].pc ==
      if t.Some? && !(t.value.expiresAt.Some? && t.value.expiresAt.value < s.now + 30_000) then Leaving(None, t)
      else Contending(s.nextOwner, s.now + 20_000)
  {
  }

  /** A token that is not about to expire is returned without any lock. */
  lemma FreshIsReturned(s: State, task: nat, t: Option<Token>)
    requires task in s.tasks
    ensures Continue(s, task, First, None, t).tasks[task].pc ==
      if t.Some? && !(t.value.expiresAt.Some? && t.value.expiresAt.value < s.now + 30_000) then Done(t)
      else if t.Some? && t.value.refresh.Some? then WaitingMutex else Done(None)
  {
  }

  // ---------------------------------------------------------------- at most one refresh

  /** The token is the one upstream brought: the access token and deadline it answered, and the refresh token
      it gave, or else the expired token's own; so it can be refreshed again. It is not about to expire. */
  ghost predicate IsNewToken(start: State, end: State, t: Token) {
    && |end.answers| == 1 && |end.presented| == 1
    && Brought(t, end.answers[0], end.presented[0]) && RefreshWasThere(start, end.presented[0])
    && t.refresh.Some? && (t.expiresAt.Some? ==> end.now + 30_000 <= t.expiresAt.value)
  }

  /** Once a token has expired, any number of calls on any number of instances refresh it upstream at
      most once; every call that returns, returns the token that refresh brought; and once nobody is
      refreshing any more, the backend has it. */
  lemma OneRefreshPerExpiry(s: State, actions: seq<Action>)
    requires IsExpiry(s) && forall k | 0 <= k <= |actions| :: OrderlyAt(s, actions[..k])
    ensures Run(s, actions).Some?
    ensures var end := Run(s, actions).value;
      && end.asked <= 1
      && (forall k | k in end.tasks && end.tasks[k].pc.Done? ::
            end.tasks[k].pc.result.Some? && end.issued == [end.tasks[k].pc.result.value])
      && (end.asked == 1 && (forall k | k in end.tasks :: !InFlight(end.tasks[k].pc)) ==>
            end.record.Some? && end.issued == [end.record.value])
      && (forall j | 0 <= j < |end.issued| :: IsNewToken(s, end, end.issued[j]))
  {
    RunInv(s, actions);
    RunTraced(s, actions);
    assert OrderlyAt(s, actions[..|actions|]) && actions[..|actions|] == actions;
    var end := Run(s, actions).value;
    forall k | k in end.tasks
      ensures TaskOk(end, k)
    {
    }
  }
}
