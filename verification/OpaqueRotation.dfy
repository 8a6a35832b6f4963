/** Rotating and removing a session's opaque tokens against cold readers, write by write
    (`src/auth/store.rs:1242-1359`, `src/auth/store.rs:1416-1502`), as a step machine.

    A rotation writes the forward mapping, then the two inverse entries, then deletes the inverse
    entries of the mapping its instance knew before. A cold reader reads the inverse entry, then the
    forward mapping, and cleans up an inverse entry the mapping does not bear out; what it accepts, it
    takes into memory. A warm reader that finds its access token expired in memory waits for the mutation
    lock and then deletes that inverse entry; one that finds its refresh token expired waits likewise and
    then removes the session, as an explicit removal does: from memory, then the forward mapping, then the
    inverse entries of the mapping it had in memory, or else of the one it read.

    Every await point is a step, and any task on any instance may move next. Rotations of one instance run
    one at a time; nothing orders those of different instances. A cleanup or removal waits for the mutation
    lock but does not keep it here, which only allows more. Times are milliseconds. */
module OpaqueRotation {
  import opened Json
  import opened OpaqueTokens

  datatype Side = Access | Refresh

  function TokenOf(m: Mapping, side: Side): string {
    if side.Access? then m.access else m.refresh
  }

  predicate Unexpired(m: Mapping, side: Side, now: nat) {
    now < (if side.Access? then m.accessExp else m.refreshExp)
  }

  /** The key of an inverse entry. */
  type Key = (Side, string)

  datatype Pc =
    | Rotating(inst: nat, sid: string, m: Mapping, prior: Option<Mapping>, stage: nat)
    | Rotated
    | Looking(inst: nat, key: Key)
    | Found(inst: nat, key: Key, sid: string)
    | Accepting(inst: nat, key: Key, sid: string, m: Mapping)
    | Expiring(inst: nat, key: Key)
    | Cleaning(key: Key)
    | Removing(inst: nat, sid: string)
    | Recovering(sid: string)
    | Deleting(sid: string, known: Option<Mapping>)
    | Dropping(gone: Mapping)
    | Accepted(sid: string)
    | Refused

  /** A forward write that happened. */
  datatype Commit = Commit(sid: string, m: Mapping)

  /** `forward` and `inverse` are the backend; `index` is what each instance has in memory for each
      session, and `rotating` its mutation lock. `commits`, `removed` (the commits that removals undid) and
      `minted` are history. */
  datatype State = State(
    now: nat,
    forward: map<string, Mapping>,
    inverse: map<Key, string>,
    index: map<(nat, string), Mapping>,
    rotating: map<nat, nat>,
    tasks: map<nat, Pc>,
    commits: seq<Commit>,
    removed: set<nat>,
    minted: set<Key>)

  datatype Action =
    | Rotate(task: nat, inst: nat, sid: string, m: Mapping)
    | Look(task: nat, inst: nat, key: Key)
    | Move(task: nat)
    | Expire(task: nat, inst: nat, sid: string, side: Side)
    | Remove(task: nat, inst: nat, sid: string)
    | Tick(ms: nat)

  predicate Enabled(s: State, a: Action) {
    match a
    case Tick(_) => true
    case Rotate(task, inst, _, m) =>
      task !in s.tasks && inst !in s.rotating && (Access, m.access) !in s.minted && (Refresh, m.refresh) !in s.minted
    case Look(task, _, _) => task !in s.tasks
    case Move(task) =>
      && task in s.tasks && !s.tasks[task].Rotated? && !s.tasks[task].Accepted? && !s.tasks[task].Refused?
      && (s.tasks[task].Expiring? || s.tasks[task].Removing? ==> s.tasks[task].inst !in s.rotating)
    case Expire(task, inst, sid, side) =>
      task !in s.tasks && (inst, sid) in s.index && !Unexpired(s.index[(inst, sid)], side, s.now)
    case Remove(task, _, _) => task !in s.tasks
  }

  function Next(s: State, a: Action): State
    requires Enabled(s, a)
  {
    match a
    case Tick(ms) => s.(now := s.now + ms)
    case Rotate(task, inst, sid, m) =>
      var prior := if (inst, sid) in s.index then Some(s.index[(inst, sid)]) else None;
      s.(tasks := s.tasks[task := Rotating(inst, sid, m, prior, 0)],
         index := s.index[(inst, sid) := m],
         rotating := s.rotating[inst := task],
         minted := s.minted + {(Access, m.access), (Refresh, m.refresh)})
    case Look(task, inst, key) => s.(tasks := s.tasks[task := Looking(inst, key)])
    case Expire(task, inst, sid, side) =>
      At(s, task, if side.Access? then Expiring(inst, (Access, s.index[(inst, sid)].access)) else Removing(inst, sid))
    case Remove(task, inst, sid) => At(s, task, Removing(inst, sid))
    case Move(task) => if s.tasks[task].Rotating? then Write(s, task) else Read(s, task)
  }

  function At(s: State, task: nat, pc: Pc): State {
    s.(tasks := s.tasks[task := pc])
  }

  function Drop(inverse: map<Key, string>, prior: Option<Mapping>, side: Side): map<Key, string> {
    if prior.Some? then inverse - {(side, TokenOf(prior.value, side))} else inverse
  }

  /** The inverse entries after the next write of a rotation: in with its own, out with those it replaces. */
  function Inverted(inverse: map<Key, string>, pc: Pc): map<Key, string>
    requires pc.Rotating?
  {
    if pc.stage == 0 then inverse
    else if pc.stage == 1 then inverse[(Access, pc.m.access) := pc.sid]
    else if pc.stage == 2 then inverse[(Refresh, pc.m.refresh) := pc.sid]
    else Drop(inverse, pc.prior, if pc.stage == 3 then Access else Refresh)
  }

  /** The next write of a rotation. */
  function Write(s: State, task: nat): State
    requires task in s.tasks && s.tasks[task].Rotating?
  {
    var pc := s.tasks[task];
    At(s, task, if pc.stage < 4 then pc.(stage := pc.stage + 1) else Rotated).(
      forward := if pc.stage == 0 then s.forward[pc.sid := pc.m] else s.forward,
      commits := if pc.stage == 0 then s.commits + [Commit(pc.sid, pc.m)] else s.commits,
      inverse := Inverted(s.inverse, pc),
      rotating := if pc.stage < 4 then s.rotating else s.rotating - {pc.inst})
  }

  /** Whether a mapping bears out a token. */
  predicate Bears(m: Mapping, key: Key, now: nat) {
    TokenOf(m, key.0) == key.1 && Unexpired(m, key.0, now)
  }

  /** The commits of a session. */
  function CommitsOf(commits: seq<Commit>, sid: string): set<nat> {
    set i: nat | i < |commits| && commits[i].sid == sid
  }

  /** Where a reader, a cleanup or a removal goes on from. */
  function After(s: State, pc: Pc): Pc {
    match pc
    case Looking(inst, key) => if key in s.inverse then Found(inst, key, s.inverse[key]) else Refused
    case Found(inst, key, sid) =>
      if sid !in s.forward then Refused
      else if Bears(s.forward[sid], key, s.now) then Accepting(inst, key, sid, s.forward[sid])
      else Cleaning(key)
    case Accepting(_, _, sid, _) => Accepted(sid)
    case Expiring(_, key) => Cleaning(key)
    case Removing(inst, sid) =>
      if (inst, sid) in s.index then Deleting(sid, Some(s.index[(inst, sid)])) else Recovering(sid)
    case Recovering(sid) => Deleting(sid, Lookup(s.forward, sid))
    case Deleting(_, known) => if known.Some? then Dropping(known.value) else Refused
    case Dropping(m) => Cleaning((Refresh, m.refresh))
    case _ => Refused
  }

  /** What it leaves in its instance's memory. */
  function Remembered(s: State, pc: Pc): map<(nat, string), Mapping> {
    if pc.Accepting? && Unexpired(pc.m, Refresh, s.now) then s.index[(pc.inst, pc.sid) := pc.m]
    else if pc.Removing? then s.index - {(pc.inst, pc.sid)}
    else s.index
  }

  /** The inverse entry it is about to delete, if any. */
  function Deleted(pc: Pc): Key {
    if pc.Cleaning? then pc.key else if pc.Dropping? then (Access, pc.gone.access) else (Access, "")
  }

  /** The next step of a reader, a cleanup or a removal. */
  function Read(s: State, task: nat): State
    requires Enabled(s, Move(task)) && !s.tasks[task].Rotating?
  {
    var pc := s.tasks[task];
    At(s, task, After(s, pc)).(
      index := Remembered(s, pc),
      inverse := if pc.Cleaning? || pc.Dropping? then s.inverse - {Deleted(pc)} else s.inverse,
      forward := if pc.Deleting? then s.forward - {pc.sid} else s.forward,
      removed := if pc.Deleting? then s.removed + CommitsOf(s.commits, pc.sid) else s.removed)
  }

  predicate IsInitial(s: State) {
    && s.forward == map[] && s.inverse == map[] && s.index == map[] && s.rotating == map[]
    && s.tasks == map[] && s.commits == [] && s.removed == {} && s.minted == {}
  }

  function Try(reached: Option<State>, a: Action): Option<State> {
    if reached.Some? && Enabled(reached.value, a) then Some(Next(reached.value, a)) else None
  }

  function Run(s: State, actions: seq<Action>): Option<State> {
    if actions == [] then Some(s) else Try(Run(s, actions[..|actions| - 1]), actions[|actions| - 1])
  }

  // ---------------------------------------------------------------- tokens and commits

  ghost predicate Committed(s: State, sid: string, m: Mapping) {
    exists i | 0 <= i < |s.commits| :: s.commits[i] == Commit(sid, m)
  }

  /** The commit at `i` is no longer what its session's forward mapping holds: replaced, or removed. */
  ghost predicate Superseded(s: State, i: nat)
    requires i < |s.commits|
  {
    i in s.removed || exists j | i < j < |s.commits| :: s.commits[j].sid == s.commits[i].sid
  }

  /** The mapping is the one in force for its session: committed, and neither replaced nor removed. */
  ghost predicate InForce(s: State, sid: string, m: Mapping) {
    exists i | 0 <= i < |s.commits| :: s.commits[i] == Commit(sid, m) && !Superseded(s, i)
  }

  /** The token was committed, and has been replaced, removed or has expired: it is gone for good. */
  ghost predicate Retired(s: State, key: Key) {
    exists i | 0 <= i < |s.commits| ::
      TokenOf(s.commits[i].m, key.0) == key.1 && (Superseded(s, i) || !Unexpired(s.commits[i].m, key.0, s.now))
  }

  /** The forward mapping of a session bears out the token: the one state in which it may be used. */
  ghost predicate Current(s: State, sid: string, key: Key) {
    sid in s.forward && Bears(s.forward[sid], key, s.now)
  }

  // ---------------------------------------------------------------- the invariant

  /** Tokens are minted once: no two commits share one, nor does one not yet committed. */
  ghost predicate CommitsDistinct(s: State) {
    && (forall i, j, side | 0 <= i < j < |s.commits| :: TokenOf(s.commits[i].m, side) != TokenOf(s.commits[j].m, side))
    && (forall i, side | 0 <= i < |s.commits| :: (side, TokenOf(s.commits[i].m, side)) in s.minted)
  }

  /** The forward mapping of a session is its last commit, unless that has been removed. */
  ghost predicate ForwardIsLast(s: State) {
    && (forall i | i in s.removed :: i < |s.commits|)
    && (forall i | 0 <= i < |s.commits| && !Superseded(s, i) ::
          s.commits[i].sid in s.forward && s.forward[s.commits[i].sid] == s.commits[i].m)
    && (forall sid | sid in s.forward :: InForce(s, sid, s.forward[sid]))
  }

  /** An inverse entry leads to the session its token was committed for. */
  ghost predicate Leads(s: State, key: Key, sid: string) {
    exists i | 0 <= i < |s.commits| :: TokenOf(s.commits[i].m, key.0) == key.1 && s.commits[i].sid == sid
  }

  /** A mapping committed for the session before the one at `m`. */
  ghost predicate CommittedBefore(s: State, sid: string, prior: Mapping, m: Mapping) {
    exists i, j | 0 <= i < j < |s.commits| :: s.commits[i] == Commit(sid, prior) && s.commits[j] == Commit(sid, m)
  }

  ghost predicate TaskOk(s: State, k: nat)
    requires k in s.tasks
  {
    match s.tasks[k]
    case Rotating(inst, sid, m, prior, stage) =>
      && inst in s.rotating && s.rotating[inst] == k
      && (Access, m.access) in s.minted && (Refresh, m.refresh) in s.minted
      && (prior.Some? ==>
            if stage == 0 then Committed(s, sid, prior.value) else CommittedBefore(s, sid, prior.value, m))
      && (if stage == 0 then Uncommitted(s, m) else Committed(s, sid, m))
    case Found(_, key, sid) => Leads(s, key, sid)
    case Accepting(_, _, sid, m) => Committed(s, sid, m)
    case Expiring(inst, key) => Retired(s, key) || ExpiresOnCommit(s, inst, key)
    case Cleaning(key) => Retired(s, key)
    case Deleting(sid, known) => known.Some? ==> Committed(s, sid, known.value)
    case Dropping(m) => Retired(s, (Access, m.access)) && Retired(s, (Refresh, m.refresh))
    case _ => true
  }

  /** The instance is rotating the token in, expired before its mapping is even committed. */
  ghost predicate ExpiresOnCommit(s: State, inst: nat, key: Key) {
    inst in s.rotating && s.rotating[inst] in s.tasks && Stillborn(s.tasks[s.rotating[inst]], inst, key, s.now)
  }

  predicate Stillborn(pc: Pc, inst: nat, key: Key, now: nat) {
    pc.Rotating? && pc.inst == inst && pc.stage == 0 && TokenOf(pc.m, key.0) == key.1 && !Unexpired(pc.m, key.0, now)
  }

  /** Neither token of a mapping is any commit's. */
  ghost predicate Uncommitted(s: State, m: Mapping) {
    forall i, side | 0 <= i < |s.commits| :: TokenOf(s.commits[i].m, side) != TokenOf(m, side)
  }

  ghost predicate SharesToken(m: Mapping, m': Mapping) {
    m.access == m'.access || m.refresh == m'.refresh
  }

  /** Rotations in progress do not share tokens. */
  ghost predicate RotationsDistinct(s: State) {
    forall k, j | k in s.tasks && j in s.tasks && k != j && s.tasks[k].Rotating? && s.tasks[j].Rotating? ::
      !SharesToken(s.tasks[k].m, s.tasks[j].m)
  }

  /** What an instance has in memory was committed, or is being by its own rotation. */
  ghost predicate EntryOk(s: State, entry: (nat, string))
    requires entry in s.index
  {
    Committed(s, entry.1, s.index[entry]) || BeingCommitted(s, entry)
  }

  predicate BeingCommitted(s: State, entry: (nat, string))
    requires entry in s.index
  {
    entry.0 in s.rotating && s.rotating[entry.0] in s.tasks
      && var pc := s.tasks[s.rotating[entry.0]];
         pc.Rotating? && pc.inst == entry.0 && pc.sid == entry.1 && pc.m == s.index[entry] && pc.stage == 0
  }

  ghost predicate IndexOk(s: State) {
    forall entry | entry in s.index :: EntryOk(s, entry)
  }

  /** A rotation has not got to writing this inverse entry yet. */
  ghost predicate StillWriting(s: State, side: Side, m: Mapping) {
    exists k | k in s.tasks :: WritesLater(s.tasks[k], side, m)
  }

  predicate WritesLater(pc: Pc, side: Side, m: Mapping) {
    pc.Rotating? && pc.m == m && pc.stage <= (if side.Access? then 1 else 2)
  }

  /** The current mapping can be reached from its tokens, once they are written and while they last. */
  ghost predicate Reachable(s: State, sid: string, side: Side)
    requires sid in s.forward
  {
    var m := s.forward[sid];
    Unexpired(m, side, s.now) && !StillWriting(s, side, m) ==>
      (side, TokenOf(m, side)) in s.inverse && s.inverse[(side, TokenOf(m, side))] == sid
  }

  ghost predicate Inv(s: State) {
    && CommitsDistinct(s)
    && ForwardIsLast(s)
    && (forall key | key in s.inverse :: Leads(s, key, s.inverse[key]))
    && (forall k | k in s.tasks :: TaskOk(s, k))
    && RotationsDistinct(s)
    && IndexOk(s)
    && (forall sid, side | sid in s.forward :: Reachable(s, sid, side))
  }

  lemma CurrentIsNotRetired(s: State, key: Key, sid: string)
    requires CommitsDistinct(s) && ForwardIsLast(s) && Current(s, sid, key)
    ensures !Retired(s, key)
  {
    assert InForce(s, sid, s.forward[sid]);
    var j :| 0 <= j < |s.commits| && s.commits[j] == Commit(sid, s.forward[sid]) && !Superseded(s, j);
    assert forall i | 0 <= i < |s.commits| && TokenOf(s.commits[i].m, key.0) == key.1 :: i == j;
  }

  /** A retired token is not current, and never will be again. */
  lemma RetiredIsNotCurrent(s: State, key: Key, sid: string)
    requires CommitsDistinct(s) && ForwardIsLast(s) && Retired(s, key)
    ensures !Current(s, sid, key)
  {
    if Current(s, sid, key) {
      CurrentIsNotRetired(s, key, sid);
    }
  }

  // ---------------------------------------------------------------- what lasts

  ghost predicate Extends(s: State, s': State) {
    s.commits <= s'.commits && s.removed <= s'.removed && s.now <= s'.now && s.minted <= s'.minted
  }

  lemma CommittedLasts(s: State, s': State, sid: string, m: Mapping)
    requires Extends(s, s') && Committed(s, sid, m)
    ensures Committed(s', sid, m)
  {
    var i :| 0 <= i < |s.commits| && s.commits[i] == Commit(sid, m);
    assert s'.commits[i] == Commit(sid, m);
  }

  lemma BeforeLasts(s: State, s': State, sid: string, prior: Mapping, m: Mapping)
    requires Extends(s, s') && CommittedBefore(s, sid, prior, m)
    ensures CommittedBefore(s', sid, prior, m)
  {
    var i, j :| 0 <= i < j < |s.commits| && s.commits[i] == Commit(sid, prior) && s.commits[j] == Commit(sid, m);
    assert s'.commits[i] == Commit(sid, prior) && s'.commits[j] == Commit(sid, m);
  }

  lemma LeadsLasts(s: State, s': State, key: Key, sid: string)
    requires Extends(s, s') && Leads(s, key, sid)
    ensures Leads(s', key, sid)
  {
    var i :| 0 <= i < |s.commits| && TokenOf(s.commits[i].m, key.0) == key.1 && s.commits[i].sid == sid;
    assert s'.commits[i] == s.commits[i];
  }

  lemma SupersededLasts(s: State, s': State, i: nat)
    requires s.commits <= s'.commits && s.removed <= s'.removed && i < |s.commits| && Superseded(s, i)
    ensures Superseded(s', i)
  {
    if i !in s.removed {
      var j :| i < j < |s.commits| && s.commits[j].sid == s.commits[i].sid;
      assert s'.commits[j].sid == s'.commits[i].sid;
    }
  }

  lemma InForceIsCommitted(s: State, sid: string)
    requires ForwardIsLast(s) && sid in s.forward
    ensures Committed(s, sid, s.forward[sid])
  {
    assert InForce(s, sid, s.forward[sid]);
  }

  lemma RetiredLasts(s: State, s': State, key: Key)
    requires Extends(s, s') && Retired(s, key)
    ensures Retired(s', key)
  {
    var i :| 0 <= i < |s.commits| && TokenOf(s.commits[i].m, key.0) == key.1
          && (Superseded(s, i) || !Unexpired(s.commits[i].m, key.0, s.now));
    assert s'.commits[i] == s.commits[i];
    if Superseded(s, i) {
      SupersededLasts(s, s', i);
    }
  }

  /** A call that makes no claim on its own tokens yet keeps what it knows. */
  lemma TaskLasts(s: State, s': State, k: nat)
    requires Extends(s, s') && k in s.tasks && k in s'.tasks && s'.tasks[k] == s.tasks[k] && TaskOk(s, k)
    requires var pc := s.tasks[k]; pc.Rotating? ==>
      && pc.inst in s'.rotating && s'.rotating[pc.inst] == k
      && (pc.stage == 0 ==> Uncommitted(s', pc.m))
    requires var pc := s.tasks[k];
      pc.Expiring? && ExpiresOnCommit(s, pc.inst, pc.key) ==>
        ExpiresOnCommit(s', pc.inst, pc.key) || Retired(s', pc.key)
    ensures TaskOk(s', k)
  {
    match s.tasks[k]
    case Rotating(_, sid, m, prior, stage) =>
      if stage > 0 {
        CommittedLasts(s, s', sid, m);
      }
      if prior.Some? {
        if stage == 0 {
          CommittedLasts(s, s', sid, prior.value);
        } else {
          BeforeLasts(s, s', sid, prior.value, m);
        }
      }
    case Found(_, key, sid) => LeadsLasts(s, s', key, sid);
    case Accepting(_, _, sid, m) => CommittedLasts(s, s', sid, m);
    case Expiring(_, key) =>
      if Retired(s, key) {
        RetiredLasts(s, s', key);
      }
    case Cleaning(key) => RetiredLasts(s, s', key);
    case Deleting(sid, known) =>
      if known.Some? {
        CommittedLasts(s, s', sid, known.value);
      }
    case Dropping(m) =>
      RetiredLasts(s, s', (Access, m.access));
      RetiredLasts(s, s', (Refresh, m.refresh));
    case _ =>
  }

  lemma EntryLasts(s: State, s': State, entry: (nat, string))
    requires Extends(s, s') && entry in s.index && EntryOk(s, entry)
    requires entry in s'.index && s'.index[entry] == s.index[entry]
    requires BeingCommitted(s, entry) ==> BeingCommitted(s', entry) || Committed(s', entry.1, s.index[entry])
    ensures EntryOk(s', entry)
  {
    if Committed(s, entry.1, s.index[entry]) {
      CommittedLasts(s, s', entry.1, s.index[entry]);
    }
  }

  lemma InverseLasts(s: State, s': State)
    requires Extends(s, s') && s'.inverse.Keys <= s.inverse.Keys
    requires forall key | key in s'.inverse :: s'.inverse[key] == s.inverse[key]
    requires forall key | key in s.inverse :: Leads(s, key, s.inverse[key])
    ensures forall key | key in s'.inverse :: Leads(s', key, s'.inverse[key])
  {
    forall key | key in s'.inverse {
      LeadsLasts(s, s', key, s.inverse[key]);
    }
  }

  /** As long as nobody's writes are over and no current entry is deleted, tokens stay reachable. */
  lemma ReachableLasts(s: State, s': State)
    requires forall sid, side | sid in s.forward :: Reachable(s, sid, side)
    requires s'.forward == s.forward && s.now <= s'.now
    requires forall side, m | StillWriting(s, side, m) :: StillWriting(s', side, m)
    requires forall sid, side | sid in s.forward && Unexpired(s.forward[sid], side, s.now) ::
      var key := (side, TokenOf(s.forward[sid], side));
      key in s.inverse ==> key in s'.inverse && s'.inverse[key] == s.inverse[key]
    ensures forall sid, side | sid in s'.forward :: Reachable(s', sid, side)
  {
    forall sid, side | sid in s'.forward
      ensures Reachable(s', sid, side)
    {
      assert Reachable(s, sid, side);
    }
  }

  /** Deleting a retired token's inverse entry deletes no current one. */
  lemma DroppingRetired(s: State, key: Key, sid: string, side: Side)
    requires CommitsDistinct(s) && ForwardIsLast(s) && Retired(s, key) && sid in s.forward
    requires Unexpired(s.forward[sid], side, s.now)
    ensures (side, TokenOf(s.forward[sid], side)) != key
  {
    RetiredIsNotCurrent(s, key, sid);
  }

  lemma WritingLasts(s: State, s': State, task: nat)
    requires task in s'.tasks && s'.tasks == s.tasks[task := s'.tasks[task]]
    requires task in s.tasks ==>
      forall side, m | WritesLater(s.tasks[task], side, m) :: WritesLater(s'.tasks[task], side, m)
    ensures forall side, m | StillWriting(s, side, m) :: StillWriting(s', side, m)
  {
    forall side, m | StillWriting(s, side, m)
      ensures StillWriting(s', side, m)
    {
      var k :| k in s.tasks && WritesLater(s.tasks[k], side, m);
      assert WritesLater(s'.tasks[k], side, m);
    }
  }

  lemma SupersededRetires(s: State, sid: string, prior: Mapping, m: Mapping, side: Side)
    requires CommittedBefore(s, sid, prior, m)
    ensures Retired(s, (side, TokenOf(prior, side)))
  {
    var i, j :| 0 <= i < j < |s.commits| && s.commits[i] == Commit(sid, prior) && s.commits[j] == Commit(sid, m);
    assert Superseded(s, i);
  }

  // ---------------------------------------------------------------- every step keeps it

  predicate Committing(s: State, k: nat) {
    k in s.tasks && s.tasks[k].Rotating? && s.tasks[k].stage == 0
  }

  lemma CommitHistory(s: State, k: nat)
    requires CommitsDistinct(s) && ForwardIsLast(s) && Committing(s, k) && TaskOk(s, k)
    ensures Extends(s, Write(s, k)) && CommitsDistinct(Write(s, k))
    ensures Committed(Write(s, k), s.tasks[k].sid, s.tasks[k].m)
  {
    var s', pc := Write(s, k), s.tasks[k];
    var n := |s.commits|;
    assert s'.commits[n] == Commit(pc.sid, pc.m);
    assert forall i | 0 <= i < n :: s'.commits[i] == s.commits[i];
    assert forall side :: (side, TokenOf(pc.m, side)) in s.minted;
  }

  lemma CommitForward(s: State, k: nat)
    requires ForwardIsLast(s) && Committing(s, k)
    ensures ForwardIsLast(Write(s, k))
  {
    var s', pc := Write(s, k), s.tasks[k];
    var n := |s.commits|;
    assert s'.commits[n] == Commit(pc.sid, pc.m) && !Superseded(s', n);
    forall i | 0 <= i < n
      ensures Superseded(s', i) <==> Superseded(s, i) || s.commits[i].sid == pc.sid
    {
      CommitSupersedes(s, k, i);
    }
    forall sid | sid in s'.forward
      ensures InForce(s', sid, s'.forward[sid])
    {
      if sid != pc.sid {
        assert InForce(s, sid, s.forward[sid]);
        var i :| 0 <= i < n && s.commits[i] == Commit(sid, s.forward[sid]) && !Superseded(s, i);
        assert s'.commits[i] == Commit(sid, s'.forward[sid]);
      }
    }
  }

  lemma CommitSupersedes(s: State, k: nat, i: nat)
    requires Committing(s, k) && i < |s.commits|
    ensures Superseded(Write(s, k), i) <==> Superseded(s, i) || s.commits[i].sid == s.tasks[k].sid
  {
    var s' := Write(s, k);
    if Superseded(s, i) {
      SupersededLasts(s, s', i);
    }
    assert s'.commits[|s.commits|].sid == s.tasks[k].sid;
  }

  lemma CommitStillborn(s: State, k: nat, inst: nat, key: Key)
    requires Committing(s, k) && ExpiresOnCommit(s, inst, key)
    ensures ExpiresOnCommit(Write(s, k), inst, key) || Retired(Write(s, k), key)
  {
    if s.rotating[inst] == k {
      var s' := Write(s, k);
      assert TokenOf(s'.commits[|s.commits|].m, key.0) == key.1;
    }
  }

  lemma CommitTasks(s: State, k: nat, j: nat)
    requires Inv(s) && Committing(s, k) && j in s.tasks
    ensures j in Write(s, k).tasks && TaskOk(Write(s, k), j)
  {
    var s', pc := Write(s, k), s.tasks[k];
    assert TaskOk(s, k) && TaskOk(s, j);
    CommitHistory(s, k);
    if j == k {
      if pc.prior.Some? {
        var i :| 0 <= i < |s.commits| && s.commits[i] == Commit(pc.sid, pc.prior.value);
        assert s'.commits[i] == Commit(pc.sid, pc.prior.value) && s'.commits[|s.commits|] == Commit(pc.sid, pc.m);
        assert CommittedBefore(s', pc.sid, pc.prior.value, pc.m);
      }
    } else {
      if s.tasks[j].Rotating? && s.tasks[j].stage == 0 {
        assert !SharesToken(s.tasks[j].m, pc.m);
        assert forall side :: TokenOf(s.tasks[j].m, side) != TokenOf(pc.m, side);
        assert Uncommitted(s', s.tasks[j].m);
      } else if s.tasks[j].Expiring? {
        if ExpiresOnCommit(s, s.tasks[j].inst, s.tasks[j].key) {
          CommitStillborn(s, k, s.tasks[j].inst, s.tasks[j].key);
        }
      }
      TaskLasts(s, s', j);
    }
  }

  lemma CommitIndex(s: State, k: nat)
    requires Inv(s) && Committing(s, k)
    ensures IndexOk(Write(s, k))
  {
    var s' := Write(s, k);
    assert TaskOk(s, k);
    CommitHistory(s, k);
    forall entry | entry in s'.index
      ensures EntryOk(s', entry)
    {
      EntryLasts(s, s', entry);
    }
  }

  lemma CommitReachable(s: State, k: nat, sid: string, side: Side)
    requires Inv(s) && Committing(s, k) && sid in Write(s, k).forward
    ensures Reachable(Write(s, k), sid, side)
  {
    var s', pc := Write(s, k), s.tasks[k];
    if sid == pc.sid {
      assert WritesLater(s'.tasks[k], side, pc.m);
    } else {
      assert Reachable(s, sid, side);
      WritingLasts(s, s', k);
    }
  }

  lemma CommitInv(s: State, k: nat)
    requires Inv(s) && Committing(s, k)
    ensures Inv(Write(s, k))
  {
    var s' := Write(s, k);
    assert TaskOk(s, k);
    CommitHistory(s, k);
    CommitForward(s, k);
    CommitIndex(s, k);
    InverseLasts(s, s');
    forall j | j in s'.tasks {
      CommitTasks(s, k, j);
    }
    forall sid, side | sid in s'.forward {
      CommitReachable(s, k, sid, side);
    }
    SameRotations(s, s', k);
  }

  /** A rotation keeps its tokens from step to step. */
  lemma SameRotations(s: State, s': State, k: nat)
    requires RotationsDistinct(s) && k in s.tasks && k in s'.tasks && s'.tasks == s.tasks[k := s'.tasks[k]]
    requires s'.tasks[k].Rotating? ==> s.tasks[k].Rotating? && s'.tasks[k].m == s.tasks[k].m
    ensures RotationsDistinct(s')
  {
  }

  /** After the forward write: the inverse entries in, the prior ones out. */
  predicate Inverting(s: State, k: nat) {
    k in s.tasks && s.tasks[k].Rotating? && s.tasks[k].stage > 0
  }

  /** What any step of one call leaves alone once the forward write is behind it, or for a reader. */
  ghost predicate Frame(s: State, s': State, k: nat) {
    && s'.commits == s.commits && s'.removed == s.removed && s'.forward == s.forward && s'.now == s.now
    && s.minted <= s'.minted
    && k in s'.tasks && s'.tasks == s.tasks[k := s'.tasks[k]]
    && forall j | j in s.tasks && j != k && s.tasks[j].Rotating? ::
         s.tasks[j].inst in s.rotating && s.rotating[s.tasks[j].inst] == j ==>
           s.tasks[j].inst in s'.rotating && s'.rotating[s.tasks[j].inst] == j
  }

  lemma OthersLast(s: State, s': State, k: nat, j: nat)
    requires Frame(s, s', k) && j in s.tasks && j != k && TaskOk(s, j) && !Committing(s, k)
    requires forall i | i in s.tasks && s.tasks[i].Rotating? :: TaskOk(s, i)
    ensures j in s'.tasks && TaskOk(s', j)
  {
    TaskLasts(s, s', j);
  }

  /** The step's own obligations make up the whole invariant. */
  lemma FrameInv(s: State, s': State, k: nat)
    requires Inv(s) && Frame(s, s', k) && !Committing(s, k)
    requires TaskOk(s', k) && IndexOk(s') && RotationsDistinct(s')
    requires forall key | key in s'.inverse :: Leads(s', key, s'.inverse[key])
    requires forall sid, side | sid in s'.forward :: Reachable(s', sid, side)
    ensures Inv(s')
  {
    SameCommits(s, s');
    forall j | j in s'.tasks
      ensures TaskOk(s', j)
    {
      if j != k {
        OthersLast(s, s', k, j);
      }
    }
  }

  lemma SameCommits(s: State, s': State)
    requires CommitsDistinct(s) && ForwardIsLast(s)
    requires s'.commits == s.commits && s'.removed == s.removed && s'.forward == s.forward && s.minted <= s'.minted
    ensures CommitsDistinct(s') && ForwardIsLast(s')
  {
    assert forall i | 0 <= i < |s.commits| :: Superseded(s, i) == Superseded(s', i);
    forall sid | sid in s'.forward
      ensures InForce(s', sid, s'.forward[sid])
    {
      assert InForce(s, sid, s.forward[sid]);
    }
  }

  lemma DropSpares(s: State, s': State, key: Key)
    requires CommitsDistinct(s) && ForwardIsLast(s)
    requires s'.inverse == s.inverse || (s'.inverse == s.inverse - {key} && Retired(s, key))
    ensures forall sid, side | sid in s.forward && Unexpired(s.forward[sid], side, s.now) ::
      var current := (side, TokenOf(s.forward[sid], side));
      current in s.inverse ==> current in s'.inverse && s'.inverse[current] == s.inverse[current]
  {
    if s'.inverse != s.inverse {
      forall sid, side | sid in s.forward && Unexpired(s.forward[sid], side, s.now)
        ensures (side, TokenOf(s.forward[sid], side)) != key
      {
        DroppingRetired(s, key, sid, side);
      }
    }
  }

  /** Taking one retired entry out of the inverse, or none. */
  lemma DropRetired(s: State, s': State, k: nat, key: Key)
    requires CommitsDistinct(s) && ForwardIsLast(s) && Frame(s, s', k)
    requires forall key | key in s.inverse :: Leads(s, key, s.inverse[key])
    requires forall sid, side | sid in s.forward :: Reachable(s, sid, side)
    requires s'.inverse == s.inverse || (s'.inverse == s.inverse - {key} && Retired(s, key))
    requires k in s.tasks ==> forall side, m | WritesLater(s.tasks[k], side, m) :: WritesLater(s'.tasks[k], side, m)
    ensures forall key | key in s'.inverse :: Leads(s', key, s'.inverse[key])
    ensures forall sid, side | sid in s'.forward :: Reachable(s', sid, side)
  {
    InverseLasts(s, s');
    WritingLasts(s, s', k);
    DropSpares(s, s', key);
    ReachableLasts(s, s');
  }

  lemma SameToken(s: State, sid: string, m: Mapping, sid': string, m': Mapping, side: Side)
    requires CommitsDistinct(s) && Committed(s, sid, m) && Committed(s, sid', m')
    requires TokenOf(m, side) == TokenOf(m', side)
    ensures sid == sid' && m == m'
  {
    var i :| 0 <= i < |s.commits| && s.commits[i] == Commit(sid, m);
    var j :| 0 <= j < |s.commits| && s.commits[j] == Commit(sid', m');
    assert TokenOf(s.commits[i].m, side) == TokenOf(s.commits[j].m, side);
    assert i == j;
  }

  lemma InvertFrame(s: State, k: nat)
    requires Inverting(s, k) && TaskOk(s, k)
    ensures Frame(s, Write(s, k), k)
    ensures var s', pc := Write(s, k), s.tasks[k];
      && s'.index == s.index
      && (forall inst | inst in s.rotating && s.rotating[inst] != k ::
            inst in s'.rotating && s'.rotating[inst] == s.rotating[inst])
      && (s'.tasks[k] == Rotated || (s'.rotating == s.rotating && s'.tasks[k] == pc.(stage := pc.stage + 1)))
  {
    var s', pc := Write(s, k), s.tasks[k];
    if pc.stage > 3 {
      assert s.rotating[pc.inst] == k;
      assert forall inst | inst in s.rotating && s.rotating[inst] != k :: inst in s'.rotating;
    }
  }

  lemma InvertTask(s: State, s': State, k: nat)
    requires Inverting(s, k) && TaskOk(s, k) && Frame(s, s', k)
    requires var pc := s.tasks[k];
      s'.tasks[k] == Rotated || (s'.rotating == s.rotating && s'.tasks[k] == pc.(stage := pc.stage + 1))
    ensures TaskOk(s', k)
  {
    var pc := s.tasks[k];
    CommittedLasts(s, s', pc.sid, pc.m);
    if pc.prior.Some? {
      BeforeLasts(s, s', pc.sid, pc.prior.value, pc.m);
    }
  }

  lemma InvertIndex(s: State, s': State, k: nat)
    requires IndexOk(s) && Inverting(s, k) && Frame(s, s', k) && s'.index == s.index
    requires forall inst | inst in s.rotating && s.rotating[inst] != k ::
      inst in s'.rotating && s'.rotating[inst] == s.rotating[inst]
    ensures IndexOk(s')
  {
    forall entry | entry in s'.index
      ensures EntryOk(s', entry)
    {
      assert EntryOk(s, entry);
      EntryLasts(s, s', entry);
    }
  }

  /** Writing the inverse entry of one side. */
  lemma WriteInverse(s: State, s': State, k: nat, side: Side)
    requires Inv(s) && Inverting(s, k) && Frame(s, s', k)
    requires var pc := s.tasks[k];
      pc.stage == (if side.Access? then 1 else 2) && s'.tasks[k] == pc.(stage := pc.stage + 1)
      && s'.inverse == s.inverse[(side, TokenOf(pc.m, side)) := pc.sid]
    ensures forall key | key in s'.inverse :: Leads(s', key, s'.inverse[key])
    ensures forall sid, side' | sid in s'.forward :: Reachable(s', sid, side')
  {
    assert TaskOk(s, k);
    var pc := s.tasks[k];
    forall key | key in s'.inverse
      ensures Leads(s', key, s'.inverse[key])
    {
      if key == (side, TokenOf(pc.m, side)) {
        var i :| 0 <= i < |s.commits| && s.commits[i] == Commit(pc.sid, pc.m);
        assert s'.commits[i].sid == pc.sid;
      } else {
        LeadsLasts(s, s', key, s.inverse[key]);
      }
    }
    forall sid, side' | sid in s'.forward
      ensures Reachable(s', sid, side')
    {
      WroteInverse(s, s', k, side, sid, side');
    }
  }

  lemma WroteInverse(s: State, s': State, k: nat, side: Side, sid: string, side': Side)
    requires CommitsDistinct(s) && ForwardIsLast(s) && Inverting(s, k) && TaskOk(s, k)
    requires Frame(s, s', k) && sid in s.forward && Reachable(s, sid, side')
    requires var pc := s.tasks[k];
      pc.stage == (if side.Access? then 1 else 2) && s'.tasks[k] == pc.(stage := pc.stage + 1)
      && s'.inverse == s.inverse[(side, TokenOf(pc.m, side)) := pc.sid]
    ensures Reachable(s', sid, side')
  {
    var pc, m := s.tasks[k], s.forward[sid];
    InForceIsCommitted(s, sid);
    if side' == side && TokenOf(m, side) == TokenOf(pc.m, side) {
      SameToken(s, sid, m, pc.sid, pc.m, side);
    } else if StillWriting(s, side', m) {
      var j :| j in s.tasks && WritesLater(s.tasks[j], side', m);
      assert WritesLater(s'.tasks[j], side', m);
    }
  }

  /** The inverse entries after a write past the forward one. */
  lemma InvertInverse(s: State, s': State, k: nat)
    requires Inv(s) && Inverting(s, k) && Frame(s, s', k)
    requires s' == Write(s, k)
    ensures forall key | key in s'.inverse :: Leads(s', key, s'.inverse[key])
    ensures forall sid, side | sid in s'.forward :: Reachable(s', sid, side)
  {
    var pc := s.tasks[k];
    if pc.stage == 1 {
      WriteInverse(s, s', k, Access);
    } else if pc.stage == 2 {
      WriteInverse(s, s', k, Refresh);
    } else {
      DropPrior(s, s', k, if pc.stage == 3 then Access else Refresh);
    }
  }

  lemma DropPrior(s: State, s': State, k: nat, side: Side)
    requires Inv(s) && Inverting(s, k) && Frame(s, s', k) && s.tasks[k].stage > 2
    requires s'.inverse == Drop(s.inverse, s.tasks[k].prior, side)
    ensures forall key | key in s'.inverse :: Leads(s', key, s'.inverse[key])
    ensures forall sid, side | sid in s'.forward :: Reachable(s', sid, side)
  {
    var pc := s.tasks[k];
    assert TaskOk(s, k);
    if pc.prior.Some? {
      SupersededRetires(s, pc.sid, pc.prior.value, pc.m, side);
      DropRetired(s, s', k, (side, TokenOf(pc.prior.value, side)));
    } else {
      DropRetired(s, s', k, (side, ""));
    }
  }

  lemma InvertInv(s: State, k: nat)
    requires Inv(s) && Inverting(s, k)
    ensures Inv(Write(s, k))
  {
    var s' := Write(s, k);
    assert TaskOk(s, k);
    InvertFrame(s, k);
    InvertTask(s, s', k);
    InvertIndex(s, s', k);
    SameRotations(s, s', k);
    InvertInverse(s, s', k);
    FrameInv(s, s', k);
  }

  // ---------------------------------------------------------------- readers and cleanups

  lemma ReadFrame(s: State, k: nat)
    requires Enabled(s, Move(k)) && !s.tasks[k].Rotating? && !s.tasks[k].Deleting?
    ensures Frame(s, Read(s, k), k) && Read(s, k).rotating == s.rotating && !Read(s, k).tasks[k].Rotating?
  {
  }

  lemma ReadIndex(s: State, s': State, k: nat)
    requires IndexOk(s) && Frame(s, s', k) && s'.rotating == s.rotating
    requires k in s.tasks && !s.tasks[k].Rotating? && TaskOk(s, k)
    requires forall entry | entry in s'.index ::
      (entry in s.index && s'.index[entry] == s.index[entry])
      || (s.tasks[k].Accepting? && entry == (s.tasks[k].inst, s.tasks[k].sid) && s'.index[entry] == s.tasks[k].m)
    ensures IndexOk(s')
  {
    forall entry | entry in s'.index
      ensures EntryOk(s', entry)
    {
      if entry in s.index && s'.index[entry] == s.index[entry] {
        assert EntryOk(s, entry);
        EntryLasts(s, s', entry);
      } else {
        CommittedLasts(s, s', entry.1, s'.index[entry]);
      }
    }
  }

  /** An inverse entry its session's forward mapping does not bear out is a retired token's. */
  lemma FoundRetired(s: State, key: Key, sid: string)
    requires CommitsDistinct(s) && ForwardIsLast(s) && Leads(s, key, sid)
    requires sid in s.forward ==> !Bears(s.forward[sid], key, s.now)
    ensures Retired(s, key)
  {
    var i :| 0 <= i < |s.commits| && TokenOf(s.commits[i].m, key.0) == key.1 && s.commits[i].sid == sid;
    if !Superseded(s, i) {
      assert s.forward[sid] == s.commits[i].m;
    }
  }

  lemma FoundTask(s: State, s': State, k: nat)
    requires CommitsDistinct(s) && ForwardIsLast(s) && Frame(s, s', k)
    requires k in s.tasks && s.tasks[k].Found? && TaskOk(s, k) && s.tasks[k].sid in s.forward
    requires var Found(inst, key, sid) := s.tasks[k];
      s'.tasks[k] ==
        if Bears(s.forward[sid], key, s.now) then Accepting(inst, key, sid, s.forward[sid]) else Cleaning(key)
    ensures TaskOk(s', k)
  {
    var Found(_, key, sid) := s.tasks[k];
    if Bears(s.forward[sid], key, s.now) {
      InForceIsCommitted(s, sid);
      CommittedLasts(s, s', sid, s.forward[sid]);
    } else {
      FoundRetired(s, key, sid);
      RetiredLasts(s, s', key);
    }
  }

  lemma LookedTask(s: State, s': State, k: nat, inst: nat, key: Key)
    requires Frame(s, s', k)
    requires forall key | key in s.inverse :: Leads(s, key, s.inverse[key])
    requires s'.tasks[k] == if key in s.inverse then Found(inst, key, s.inverse[key]) else Refused
    ensures TaskOk(s', k)
  {
    if key in s.inverse {
      LeadsLasts(s, s', key, s.inverse[key]);
    }
  }

  /** What a removal takes from memory was committed, since nothing is being rotated there. */
  lemma RemovingTask(s: State, s': State, k: nat, inst: nat, sid: string)
    requires Frame(s, s', k) && IndexOk(s) && inst !in s.rotating
    requires s'.tasks[k] ==
      if (inst, sid) in s.index then Deleting(sid, Some(s.index[(inst, sid)])) else Recovering(sid)
    ensures TaskOk(s', k)
  {
    if (inst, sid) in s.index {
      assert EntryOk(s, (inst, sid));
      CommittedLasts(s, s', sid, s.index[(inst, sid)]);
    }
  }

  lemma RecoveringTask(s: State, s': State, k: nat, sid: string)
    requires Frame(s, s', k) && ForwardIsLast(s) && s'.tasks[k] == Deleting(sid, Lookup(s.forward, sid))
    ensures TaskOk(s', k)
  {
    if sid in s.forward {
      InForceIsCommitted(s, sid);
      CommittedLasts(s, s', sid, s.forward[sid]);
    }
  }

  lemma CleanupTask(s: State, s': State, k: nat)
    requires Frame(s, s', k) && k in s.tasks && TaskOk(s, k)
    requires var pc := s.tasks[k];
      || (pc.Expiring? && pc.inst !in s.rotating && s'.tasks[k] == Cleaning(pc.key))
      || (pc.Dropping? && s'.tasks[k] == Cleaning((Refresh, pc.gone.refresh)))
    ensures TaskOk(s', k)
  {
    RetiredLasts(s, s', s'.tasks[k].key);
  }

  lemma ReadTask(s: State, k: nat)
    requires Enabled(s, Move(k)) && !s.tasks[k].Rotating? && Frame(s, Read(s, k), k)
    requires !s.tasks[k].Deleting? && !s.tasks[k].Removing? && !s.tasks[k].Recovering?
    requires CommitsDistinct(s) && ForwardIsLast(s) && TaskOk(s, k)
    requires forall key | key in s.inverse :: Leads(s, key, s.inverse[key])
    ensures TaskOk(Read(s, k), k)
  {
    match s.tasks[k]
    case Looking(inst, key) => LookedTask(s, Read(s, k), k, inst, key);
    case Found(_, _, sid) =>
      if sid in s.forward {
        FoundTask(s, Read(s, k), k);
      }
    case Expiring(_, _) => CleanupTask(s, Read(s, k), k);
    case Dropping(_) => CleanupTask(s, Read(s, k), k);
    case _ =>
  }

  lemma RemovalBegins(s: State, k: nat)
    requires Enabled(s, Move(k)) && (s.tasks[k].Removing? || s.tasks[k].Recovering?) && Frame(s, Read(s, k), k)
    requires ForwardIsLast(s) && IndexOk(s)
    ensures TaskOk(Read(s, k), k)
  {
    if s.tasks[k].Removing? {
      RemovingTask(s, Read(s, k), k, s.tasks[k].inst, s.tasks[k].sid);
    } else {
      RecoveringTask(s, Read(s, k), k, s.tasks[k].sid);
    }
  }

  lemma ReadInv(s: State, k: nat)
    requires Inv(s) && Enabled(s, Move(k)) && !s.tasks[k].Rotating? && !s.tasks[k].Deleting?
    ensures Inv(Read(s, k))
  {
    var s' := Read(s, k);
    assert TaskOk(s, k);
    ReadFrame(s, k);
    if s.tasks[k].Removing? || s.tasks[k].Recovering? {
      RemovalBegins(s, k);
    } else {
      ReadTask(s, k);
    }
    ReadIndex(s, s', k);
    SameRotations(s, s', k);
    DropRetired(s, s', k, Deleted(s.tasks[k]));
    FrameInv(s, s', k);
  }

  // ---------------------------------------------------------------- deleting the forward mapping

  /** Removing a session leaves every other one, its commits and its calls, as they are. */
  ghost predicate Removal(s: State, s': State, k: nat, sid: string) {
    && s'.forward == s.forward - {sid} && s'.removed == s.removed + CommitsOf(s.commits, sid)
    && s'.commits == s.commits && s'.now == s.now && s'.minted == s.minted
    && s'.inverse == s.inverse && s'.index == s.index && s'.rotating == s.rotating
    && k in s.tasks && k in s'.tasks && s'.tasks == s.tasks[k := s'.tasks[k]]
    && !s.tasks[k].Rotating? && !s'.tasks[k].Rotating?
  }

  lemma RemovalForward(s: State, s': State, k: nat, sid: string)
    requires ForwardIsLast(s) && Removal(s, s', k, sid)
    ensures ForwardIsLast(s')
  {
    assert forall i | 0 <= i < |s.commits| :: Superseded(s', i) <==> Superseded(s, i) || s.commits[i].sid == sid;
    forall other | other in s'.forward
      ensures InForce(s', other, s'.forward[other])
    {
      assert InForce(s, other, s.forward[other]);
      var i :| 0 <= i < |s.commits| && s.commits[i] == Commit(other, s.forward[other]) && !Superseded(s, i);
      assert !Superseded(s', i);
    }
  }

  lemma RemovalTask(s: State, s': State, k: nat, sid: string, known: Option<Mapping>)
    requires Removal(s, s', k, sid) && (known.Some? ==> Committed(s, sid, known.value))
    requires s'.tasks[k] == if known.Some? then Dropping(known.value) else Refused
    ensures TaskOk(s', k)
  {
    if known.Some? {
      var i :| 0 <= i < |s.commits| && s.commits[i] == Commit(sid, known.value);
      assert i in s'.removed && Superseded(s', i);
      assert TokenOf(s'.commits[i].m, Access) == known.value.access;
      assert TokenOf(s'.commits[i].m, Refresh) == known.value.refresh;
    }
  }

  lemma RemovalOthers(s: State, s': State, k: nat, sid: string, j: nat)
    requires Removal(s, s', k, sid) && j in s.tasks && j != k && TaskOk(s, j)
    ensures TaskOk(s', j)
  {
    TaskLasts(s, s', j);
  }

  lemma RemovalIndex(s: State, s': State, k: nat, sid: string)
    requires Removal(s, s', k, sid) && IndexOk(s)
    ensures IndexOk(s')
  {
    forall entry | entry in s'.index
      ensures EntryOk(s', entry)
    {
      assert EntryOk(s, entry);
      EntryLasts(s, s', entry);
    }
  }

  lemma RemovalReachable(s: State, s': State, k: nat, sid: string)
    requires Removal(s, s', k, sid)
    requires forall other, side | other in s.forward :: Reachable(s, other, side)
    ensures forall other, side | other in s'.forward :: Reachable(s', other, side)
  {
    WritingLasts(s, s', k);
    forall other, side | other in s'.forward
      ensures Reachable(s', other, side)
    {
      assert Reachable(s, other, side);
    }
  }

  lemma RemovalInv(s: State, k: nat)
    requires Inv(s) && k in s.tasks && s.tasks[k].Deleting?
    ensures Inv(Read(s, k))
  {
    var s', sid := Read(s, k), s.tasks[k].sid;
    assert TaskOk(s, k);
    assert Removal(s, s', k, sid);
    RemovalForward(s, s', k, sid);
    RemovalTask(s, s', k, sid, s.tasks[k].known);
    forall j | j in s'.tasks && j != k {
      RemovalOthers(s, s', k, sid, j);
    }
    RemovalIndex(s, s', k, sid);
    RemovalReachable(s, s', k, sid);
    InverseLasts(s, s');
    SameRotations(s, s', k);
  }

  // ---------------------------------------------------------------- clocks and new calls

  lemma LookInv(s: State, s': State, task: nat)
    requires Inv(s) && task !in s.tasks && Frame(s, s', task)
    requires s'.index == s.index && s'.rotating == s.rotating && s'.inverse == s.inverse
    requires !s'.tasks[task].Rotating? && TaskOk(s', task)
    ensures Inv(s')
  {
    LookIndex(s, s', task);
    DropRetired(s, s', task, (Access, ""));
    FrameInv(s, s', task);
  }

  /** An instance may find a token expired in memory while its own rotation to it is still writing. */
  lemma ExpireTask(s: State, task: nat, inst: nat, sid: string, side: Side)
    requires IndexOk(s) && Enabled(s, Expire(task, inst, sid, side))
    ensures TaskOk(Next(s, Expire(task, inst, sid, side)), task)
  {
    var s', m := Next(s, Expire(task, inst, sid, side)), s.index[(inst, sid)];
    assert EntryOk(s, (inst, sid));
    if side.Access? && Committed(s, sid, m) {
      var i :| 0 <= i < |s.commits| && s.commits[i] == Commit(sid, m);
      assert TokenOf(s'.commits[i].m, Access) == m.access;
    }
  }

  lemma LookIndex(s: State, s': State, task: nat)
    requires IndexOk(s) && Frame(s, s', task) && task !in s.tasks
    requires s'.index == s.index && s'.rotating == s.rotating
    ensures IndexOk(s')
  {
    forall entry | entry in s'.index
      ensures EntryOk(s', entry)
    {
      assert EntryOk(s, entry);
      EntryLasts(s, s', entry);
    }
  }

  /** A step of no call: the clock. */
  ghost predicate Outside(s: State, s': State) {
    s'.now >= s.now && s' == s.(now := s'.now)
  }

  lemma OutsideIndex(s: State, s': State)
    requires IndexOk(s) && Outside(s, s')
    ensures IndexOk(s')
  {
    forall entry | entry in s'.index
      ensures EntryOk(s', entry)
    {
      assert EntryOk(s, entry);
      EntryLasts(s, s', entry);
    }
  }

  lemma OutsideTasks(s: State, s': State)
    requires (forall k | k in s.tasks :: TaskOk(s, k)) && Outside(s, s')
    ensures forall k | k in s'.tasks :: TaskOk(s', k)
  {
    forall k | k in s'.tasks
      ensures TaskOk(s', k)
    {
      assert TaskOk(s, k);
      TaskLasts(s, s', k);
    }
  }

  lemma TickInv(s: State, s': State)
    requires Inv(s) && Outside(s, s')
    ensures Inv(s')
  {
    SameCommits(s, s');
    InverseLasts(s, s');
    assert forall side, m :: StillWriting(s, side, m) == StillWriting(s', side, m);
    ReachableLasts(s, s');
    OutsideIndex(s, s');
    OutsideTasks(s, s');
  }

  lemma RotateInv(s: State, task: nat, inst: nat, sid: string, m: Mapping)
    requires Inv(s) && Enabled(s, Rotate(task, inst, sid, m))
    ensures Inv(Next(s, Rotate(task, inst, sid, m)))
  {
    var s' := Next(s, Rotate(task, inst, sid, m));
    assert Frame(s, s', task);
    RotateTask(s, s', task);
    RotateIndex(s, s', task);
    RotateDistinct(s, s', task);
    DropRetired(s, s', task, (Access, ""));
    FrameInv(s, s', task);
  }

  ghost predicate Starts(s: State, s': State, task: nat) {
    && Frame(s, s', task) && task !in s.tasks && s'.tasks[task].Rotating?
    && var pc := s'.tasks[task];
       && pc.inst !in s.rotating && s'.rotating == s.rotating[pc.inst := task] && pc.stage == 0
       && pc.prior == (if (pc.inst, pc.sid) in s.index then Some(s.index[(pc.inst, pc.sid)]) else None)
       && s'.index == s.index[(pc.inst, pc.sid) := pc.m]
       && (Access, pc.m.access) !in s.minted && (Refresh, pc.m.refresh) !in s.minted
       && s'.minted == s.minted + {(Access, pc.m.access), (Refresh, pc.m.refresh)}
  }

  lemma FreshUncommitted(s: State, m: Mapping)
    requires CommitsDistinct(s) && (Access, m.access) !in s.minted && (Refresh, m.refresh) !in s.minted
    ensures Uncommitted(s, m)
  {
    forall i, side | 0 <= i < |s.commits|
      ensures TokenOf(s.commits[i].m, side) != TokenOf(m, side)
    {
      assert (side, TokenOf(s.commits[i].m, side)) in s.minted;
    }
  }

  lemma RotateTask(s: State, s': State, task: nat)
    requires CommitsDistinct(s) && IndexOk(s) && Starts(s, s', task)
    ensures TaskOk(s', task)
  {
    var pc := s'.tasks[task];
    FreshUncommitted(s, pc.m);
    if pc.prior.Some? {
      assert EntryOk(s, (pc.inst, pc.sid));
      CommittedLasts(s, s', pc.sid, pc.prior.value);
    }
  }

  lemma RotateIndex(s: State, s': State, task: nat)
    requires Inv(s) && Starts(s, s', task)
    ensures IndexOk(s')
  {
    forall entry | entry in s'.index
      ensures EntryOk(s', entry)
    {
      if entry != (s'.tasks[task].inst, s'.tasks[task].sid) {
        assert EntryOk(s, entry);
        EntryLasts(s, s', entry);
      }
    }
  }

  lemma RotateDistinct(s: State, s': State, task: nat)
    requires Inv(s) && Starts(s, s', task)
    ensures RotationsDistinct(s')
  {
    forall k, j | k in s'.tasks && j in s'.tasks && k != j && s'.tasks[k].Rotating? && s'.tasks[j].Rotating?
      ensures !SharesToken(s'.tasks[k].m, s'.tasks[j].m)
    {
      if k in s.tasks {
        assert TaskOk(s, k);
      }
      if j in s.tasks {
        assert TaskOk(s, j);
      }
    }
  }

  lemma StepInv(s: State, a: Action)
    requires Inv(s) && Enabled(s, a)
    ensures Inv(Next(s, a))
  {
    match a
    case Tick(_) => TickInv(s, Next(s, a));
    case Rotate(task, inst, sid, m) => RotateInv(s, task, inst, sid, m);
    case Look(task, _, _) => LookInv(s, Next(s, a), task);
    case Expire(task, inst, sid, side) =>
      ExpireTask(s, task, inst, sid, side);
      LookInv(s, Next(s, a), task);
    case Remove(task, _, _) => LookInv(s, Next(s, a), task);
    case Move(task) =>
      if s.tasks[task].Deleting? {
        RemovalInv(s, task);
      } else if !s.tasks[task].Rotating? {
        ReadInv(s, task);
      } else if s.tasks[task].stage == 0 {
        CommitInv(s, task);
      } else {
        InvertInv(s, task);
      }
  }

  // ---------------------------------------------------------------- at every intermediate write

  lemma {:induction false} RunInv(s: State, actions: seq<Action>)
    requires IsInitial(s) && Run(s, actions).Some?
    ensures Inv(Run(s, actions).value)
  {
    if actions != [] {
      RunInv(s, actions[..|actions| - 1]);
      StepInv(Run(s, actions[..|actions| - 1]).value, actions[|actions| - 1]);
    }
  }

  lemma StepExtends(s: State, a: Action)
    requires Enabled(s, a)
    ensures Extends(s, Next(s, a))
  {
  }

  lemma {:induction false} RunExtends(s: State, actions: seq<Action>)
    requires Run(s, actions).Some?
    ensures Extends(s, Run(s, actions).value)
  {
    if actions != [] {
      RunExtends(s, actions[..|actions| - 1]);
      StepExtends(Run(s, actions[..|actions| - 1]).value, actions[|actions| - 1]);
    }
  }

  /** The forward write alone retires the tokens it replaces. */
  lemma ForwardWriteRetires(s: State, k: nat, side: Side)
    requires Inv(s) && Committing(s, k) && s.tasks[k].sid in s.forward
    ensures Retired(Write(s, k), (side, TokenOf(s.forward[s.tasks[k].sid], side)))
  {
    var s', pc := Write(s, k), s.tasks[k];
    InForceIsCommitted(s, pc.sid);
    var i :| 0 <= i < |s.commits| && s.commits[i] == Commit(pc.sid, s.forward[pc.sid]);
    CommitSupersedes(s, k, i);
  }

  lemma RunOneMore(s: State, actions: seq<Action>, a: Action)
    ensures Run(s, actions + [a]) == Try(Run(s, actions), a)
  {
    assert (actions + [a])[..|actions|] == actions;
  }

  lemma {:induction false} RunAppend(s: State, first: seq<Action>, later: seq<Action>)
    requires Run(s, first).Some? && Run(Run(s, first).value, later).Some?
    ensures Run(s, first + later) == Run(Run(s, first).value, later)
  {
    if later == [] {
      assert first + later == first;
    } else {
      var front, last, mid := later[..|later| - 1], later[|later| - 1], Run(s, first).value;
      assert later == front + [last] && first + later == (first + front) + [last];
      RunOneMore(mid, front, last);
      assert Run(mid, front).Some?;
      RunAppend(s, first, front);
      RunOneMore(s, first + front, last);
      assert Run(s, first + later) == Try(Run(mid, front), last);
    }
  }

  /** A token once replaced, removed or expired is refused by every cold reader from then on, at whatever
      point of whatever rotations and removals it reads. */
  lemma RetiredTokenIsRefused(start: State, actions: seq<Action>, later: seq<Action>, key: Key, task: nat)
    requires IsInitial(start) && Run(start, actions).Some? && Run(Run(start, actions).value, later).Some?
    requires Retired(Run(start, actions).value, key)
    requires var end := Run(Run(start, actions).value, later).value;
      task in end.tasks && end.tasks[task].Found? && end.tasks[task].key == key
    ensures !Read(Run(Run(start, actions).value, later).value, task).tasks[task].Accepting?
  {
    var s := Run(start, actions).value;
    var end := Run(s, later).value;
    RunAppend(start, actions, later);
    RunInv(start, actions + later);
    RunExtends(s, later);
    RetiredLasts(s, end, key);
    RetiredIsNotCurrent(end, key, end.tasks[task].sid);
  }

  lemma JudgedRight(s: State, key: Key, sid: string)
    requires CommitsDistinct(s) && ForwardIsLast(s) && Leads(s, key, sid)
    ensures (sid in s.forward && Bears(s.forward[sid], key, s.now)) <==> !Retired(s, key)
  {
    if sid in s.forward && Bears(s.forward[sid], key, s.now) {
      if Retired(s, key) {
        RetiredIsNotCurrent(s, key, sid);
      }
    } else {
      FoundRetired(s, key, sid);
    }
  }

  lemma RefusedNowhereCurrent(s: State, key: Key)
    requires CommitsDistinct(s) && ForwardIsLast(s) && Retired(s, key)
    ensures forall sid :: !Current(s, sid, key)
  {
    forall sid
      ensures !Current(s, sid, key)
    {
      RetiredIsNotCurrent(s, key, sid);
    }
  }

  /** In every reachable state, a cold reader about to judge accepts exactly a token that has neither been
      replaced, nor removed, nor expired, by a mapping in force; one it refuses is current nowhere. */
  lemma ColdReaderIsRight(start: State, actions: seq<Action>, task: nat)
    requires IsInitial(start) && Run(start, actions).Some?
    requires var s := Run(start, actions).value; task in s.tasks && s.tasks[task].Found?
    ensures var s := Run(start, actions).value; var Found(_, key, sid) := s.tasks[task];
      && (Read(s, task).tasks[task].Accepting? <==> !Retired(s, key))
      && (Retired(s, key) ==> forall other :: !Current(s, other, key))
      && (!Retired(s, key) ==> sid in s.forward && InForce(s, sid, s.forward[sid]))
  {
    RunInv(start, actions);
    var s := Run(start, actions).value;
    assert TaskOk(s, task);
    var Found(_, key, sid) := s.tasks[task];
    JudgedRight(s, key, sid);
    if Retired(s, key) {
      RefusedNowhereCurrent(s, key);
    }
  }

  /** What that comes to for each kind of token: the mapping stored for its session holds that very token, and
      the token's own deadline is still ahead. The other token of the pair may last longer; it counts for
      nothing. */
  lemma EachTokenHasItsDeadline(start: State, actions: seq<Action>, task: nat)
    requires IsInitial(start) && Run(start, actions).Some?
    requires var s := Run(start, actions).value; task in s.tasks && s.tasks[task].Found?
    ensures var s := Run(start, actions).value; var Found(_, (side, token), sid) := s.tasks[task];
      && (side == Access ==>
            (Read(s, task).tasks[task].Accepting? <==>
               sid in s.forward && s.forward[sid].access == token && s.now < s.forward[sid].accessExp))
      && (side == Refresh ==>
            (Read(s, task).tasks[task].Accepting? <==>
               sid in s.forward && s.forward[sid].refresh == token && s.now < s.forward[sid].refreshExp))
      && (Read(s, task).tasks[task].Accepting? ==>
            Read(s, task).tasks[task].sid == sid && Read(s, task).tasks[task].m == s.forward[sid])
      && (!Read(s, task).tasks[task].Accepting? ==>
            Read(s, task).tasks[task] == if sid in s.forward then Cleaning((side, token)) else Refused)
  {
  }

  /** And what a reader ends with: the session it accepted, taken into memory while its refresh token lasts, or
      a refusal, with the inverse entry it judged wrong deleted. */
  lemma ReaderEnds(start: State, actions: seq<Action>, task: nat)
    requires IsInitial(start) && Run(start, actions).Some?
    requires var s := Run(start, actions).value;
      task in s.tasks && (s.tasks[task].Accepting? || s.tasks[task].Cleaning?)
    ensures var s := Run(start, actions).value; var s' := Read(s, task);
      match s.tasks[task]
      case Accepting(inst, _, sid, m) =>
        && s'.tasks[task] == Accepted(sid) && s'.inverse == s.inverse
        && s'.index == if s.now < m.refreshExp then s.index[(inst, sid) := m] else s.index
      case Cleaning(key) => s'.tasks[task] == Refused && s'.index == s.index && s'.inverse == s.inverse - {key}
      case _ => true
  {
  }

  /** A rotation's writes, in their order: the mapping first, then its two inverse entries, then the deletion
      of those of the mapping that was in memory before. */
  lemma RotationWrites(s: State, k: nat)
    requires k in s.tasks && s.tasks[k].Rotating? && s.tasks[k].stage <= 4
    ensures var s', Rotating(inst, sid, m, prior, stage) := Write(s, k), s.tasks[k];
      && s'.forward == (if stage == 0 then s.forward[sid := m] else s.forward)
      && s'.index == s.index
      && (stage == 4 ==> s'.tasks[k] == Rotated && inst !in s'.rotating)
      && (stage < 4 ==> s'.tasks[k] == Rotating(inst, sid, m, prior, stage + 1) && s'.rotating == s.rotating)
  {
  }

  /** It starts by taking the mapping into memory, under the mutation lock, and remembers the one that was
      there, whose inverse entries it will delete. */
  lemma RotationStarts(s: State, task: nat, inst: nat, sid: string, m: Mapping)
    requires Enabled(s, Rotate(task, inst, sid, m))
    ensures inst !in s.rotating
    ensures var s' := Next(s, Rotate(task, inst, sid, m));
      && s'.index == s.index[(inst, sid) := m] && s'.rotating == s.rotating[inst := task]
      && s'.tasks == s.tasks[task := Rotating(inst, sid, m, Lookup(s.index, (inst, sid)), 0)]
      && s'.forward == s.forward && s'.inverse == s.inverse
  {
  }

  /** A removal's steps, in their order: out of memory, once nothing is being rotated there; the mapping read
      from the backend if memory had none; the forward mapping deleted; then the two inverse entries. */
  lemma RemovalSteps(s: State, task: nat)
    requires Enabled(s, Move(task)) && !s.tasks[task].Rotating?
    ensures var s', pc := Next(s, Move(task)), s.tasks[task];
      match pc
      case Removing(inst, sid) =>
        && inst !in s.rotating && s'.forward == s.forward && s'.inverse == s.inverse
        && s'.index == s.index - {(inst, sid)}
        && s'.tasks[task] ==
             if (inst, sid) in s.index then Deleting(sid, Some(s.index[(inst, sid)])) else Recovering(sid)
      case Recovering(sid) =>
        && s'.forward == s.forward && s'.inverse == s.inverse && s'.index == s.index
        && s'.tasks[task] == Deleting(sid, if sid in s.forward then Some(s.forward[sid]) else None)
      case Deleting(sid, known) =>
        && s'.forward == s.forward - {sid} && s'.inverse == s.inverse && s'.index == s.index
        && s'.tasks[task] == if known.Some? then Dropping(known.value) else Refused
      case Dropping(m) =>
        && s'.forward == s.forward && s'.inverse == s.inverse - {(Access, m.access)} && s'.index == s.index
        && s'.tasks[task] == Cleaning((Refresh, m.refresh))
      case _ => true
  {
  }

  /** What makes an instance begin one: an access token found expired in memory has its inverse entry deleted,
      a refresh token found expired there has its whole session removed. */
  lemma ExpiryBegins(s: State, task: nat, inst: nat, sid: string, side: Side)
    requires Enabled(s, Expire(task, inst, sid, side))
    ensures (inst, sid) in s.index && (if side == Access then s.index[(inst, sid)].accessExp
                                       else s.index[(inst, sid)].refreshExp) <= s.now
    ensures Next(s, Expire(task, inst, sid, side)) == s.(tasks := s.tasks[task :=
      if side == Access then Expiring(inst, (Access, s.index[(inst, sid)].access)) else Removing(inst, sid)])
  {
  }

  lemma RotationInverts(s: State, k: nat)
    requires k in s.tasks && s.tasks[k].Rotating? && s.tasks[k].stage <= 4
    ensures var inverse, Rotating(inst, sid, m, prior, stage) := Write(s, k).inverse, s.tasks[k];
      inverse ==
        if stage == 1 then s.inverse[(Access, m.access) := sid]
        else if stage == 2 then s.inverse[(Refresh, m.refresh) := sid]
        else if stage == 3 && prior.Some? then s.inverse - {(Access, prior.value.access)}
        else if stage == 4 && prior.Some? then s.inverse - {(Refresh, prior.value.refresh)}
        else s.inverse
  {
  }

  /** No step of any rotation, reader, cleanup or removal deletes or redirects the inverse entry of a token
      that is current. */
  lemma CleanupSparesCurrent(start: State, actions: seq<Action>, a: Action, sid: string, side: Side)
    requires IsInitial(start) && Run(start, actions).Some? && Enabled(Run(start, actions).value, a)
    requires var s := Run(start, actions).value;
      sid in s.forward && Unexpired(s.forward[sid], side, s.now)
      && (side, TokenOf(s.forward[sid], side)) in s.inverse
    ensures var s := Run(start, actions).value; var s' := Next(s, a); var key := (side, TokenOf(s.forward[sid], side));
      key in s'.inverse && s'.inverse[key] == s.inverse[key] == sid
  {
    RunInv(start, actions);
    var s := Run(start, actions).value;
    var key := (side, TokenOf(s.forward[sid], side));
    LeadsToCurrent(s, sid, side);
    match a
    case Tick(_) =>
    case Rotate(_, _, _, _) =>
    case Look(_, _, _) =>
    case Expire(_, _, _, _) =>
    case Remove(_, _, _) =>
    case Move(task) =>
      if s.tasks[task].Rotating? {
        assert TaskOk(s, task);
        WriteSpares(s, task, sid, side);
      } else {
        assert TaskOk(s, task);
        ReadSpares(s, task, sid, side);
      }
  }

  lemma LeadsToCurrent(s: State, sid: string, side: Side)
    requires Inv(s) && sid in s.forward && (side, TokenOf(s.forward[sid], side)) in s.inverse
    ensures s.inverse[(side, TokenOf(s.forward[sid], side))] == sid
  {
    var key := (side, TokenOf(s.forward[sid], side));
    assert Leads(s, key, s.inverse[key]);
    var i :| 0 <= i < |s.commits| && TokenOf(s.commits[i].m, side) == key.1 && s.commits[i].sid == s.inverse[key];
    assert Committed(s, s.commits[i].sid, s.commits[i].m);
    InForceIsCommitted(s, sid);
    SameToken(s, s.commits[i].sid, s.commits[i].m, sid, s.forward[sid], side);
  }

  lemma WriteSpares(s: State, k: nat, sid: string, side: Side)
    requires CommitsDistinct(s) && ForwardIsLast(s) && k in s.tasks && s.tasks[k].Rotating? && TaskOk(s, k)
    requires sid in s.forward && Unexpired(s.forward[sid], side, s.now)
    requires (side, TokenOf(s.forward[sid], side)) in s.inverse
    requires s.inverse[(side, TokenOf(s.forward[sid], side))] == sid
    ensures var key := (side, TokenOf(s.forward[sid], side));
      key in Write(s, k).inverse && Write(s, k).inverse[key] == sid
  {
    var pc, m := s.tasks[k], s.forward[sid];
    if pc.stage == 1 || pc.stage == 2 {
      InForceIsCommitted(s, sid);
      if TokenOf(m, side) == TokenOf(pc.m, side) {
        SameToken(s, sid, m, pc.sid, pc.m, side);
      }
    } else if pc.stage > 2 && pc.prior.Some? {
      PriorIsNotCurrent(s, k, if pc.stage == 3 then Access else Refresh, sid, side);
    }
  }

  lemma PriorIsNotCurrent(s: State, k: nat, dropped: Side, sid: string, side: Side)
    requires CommitsDistinct(s) && ForwardIsLast(s) && k in s.tasks && s.tasks[k].Rotating? && TaskOk(s, k)
    requires s.tasks[k].stage > 0 && s.tasks[k].prior.Some?
    requires sid in s.forward && Unexpired(s.forward[sid], side, s.now)
    ensures (side, TokenOf(s.forward[sid], side)) != (dropped, TokenOf(s.tasks[k].prior.value, dropped))
  {
    var pc := s.tasks[k];
    SupersededRetires(s, pc.sid, pc.prior.value, pc.m, dropped);
    DroppingRetired(s, (dropped, TokenOf(pc.prior.value, dropped)), sid, side);
  }

  lemma ReadSpares(s: State, k: nat, sid: string, side: Side)
    requires CommitsDistinct(s) && ForwardIsLast(s) && Enabled(s, Move(k)) && !s.tasks[k].Rotating? && TaskOk(s, k)
    requires sid in s.forward && Unexpired(s.forward[sid], side, s.now)
    requires (side, TokenOf(s.forward[sid], side)) in s.inverse
    ensures var key := (side, TokenOf(s.forward[sid], side));
      key in Read(s, k).inverse && Read(s, k).inverse[key] == s.inverse[key]
  {
    if s.tasks[k].Cleaning? || s.tasks[k].Dropping? {
      DroppingRetired(s, Deleted(s.tasks[k]), sid, side);
    }
  }

  /** Once a rotation has written its inverse entries, any instance resolves the new tokens, for as long
      as they are current. */
  lemma CurrentTokenResolves(start: State, actions: seq<Action>, sid: string, side: Side)
    requires IsInitial(start) && Run(start, actions).Some?
    requires var s := Run(start, actions).value;
      sid in s.forward && Unexpired(s.forward[sid], side, s.now) && !StillWriting(s, side, s.forward[sid])
    ensures var s := Run(start, actions).value; var key := (side, TokenOf(s.forward[sid], side));
      key in s.inverse && s.inverse[key] == sid && Current(s, sid, key)
  {
    RunInv(start, actions);
    assert Reachable(Run(start, actions).value, sid, side);
  }

  // ---------------------------------------------------------------- how a token goes out of use

  /** The step is the forward write of another mapping, or the forward delete of a removal, of the session. */
  predicate Displaces(s: State, a: Action, sid: string) {
    a.Move? && a.task in s.tasks &&
      ((Committing(s, a.task) && s.tasks[a.task].sid == sid) ||
       (s.tasks[a.task].Deleting? && s.tasks[a.task].sid == sid))
  }

  /** A current token goes out of use in three ways alone: it expires, another mapping is committed for its
      session, or its session is removed. A removal takes whatever mapping is in force when it gets to the
      forward record, whoever committed it, and whatever it knew when it was begun. */
  lemma CurrentLostExactly(start: State, actions: seq<Action>, a: Action, sid: string, side: Side)
    requires IsInitial(start) && Run(start, actions).Some? && Enabled(Run(start, actions).value, a)
    requires var s := Run(start, actions).value; sid in s.forward && Unexpired(s.forward[sid], side, s.now)
    ensures var s := Run(start, actions).value; var s' := Next(s, a);
      !Current(s', sid, (side, TokenOf(s.forward[sid], side))) <==>
        Displaces(s, a, sid) || !Unexpired(s.forward[sid], side, s'.now)
  {
    RunInv(start, actions);
    var s := Run(start, actions).value;
    StepForward(s, a);
    if a.Move? && Committing(s, a.task) && s.tasks[a.task].sid == sid {
      assert TaskOk(s, a.task);
      InForceIsCommitted(s, sid);
      var i :| 0 <= i < |s.commits| && s.commits[i] == Commit(sid, s.forward[sid]);
      assert TokenOf(s.commits[i].m, side) != TokenOf(s.tasks[a.task].m, side);
    }
  }

  /** A removal takes a token out of use that was current exactly when a mapping is in force for the session,
      whoever committed it, as the forward record is deleted. */
  lemma RemovalLosesExactly(start: State, actions: seq<Action>, task: nat)
    requires IsInitial(start) && Run(start, actions).Some?
    requires task in Run(start, actions).value.tasks && Run(start, actions).value.tasks[task].Deleting?
    ensures var s := Run(start, actions).value; var sid := s.tasks[task].sid; var s' := Next(s, Move(task));
      (exists side, token :: Current(s, sid, (side, token)) && !Current(s', sid, (side, token))) <==>
        sid in s.forward && exists side :: Unexpired(s.forward[sid], side, s.now)
  {
    var s := Run(start, actions).value;
    var sid := s.tasks[task].sid;
    if sid in s.forward {
      forall side | Unexpired(s.forward[sid], side, s.now)
        ensures Current(s, sid, (side, TokenOf(s.forward[sid], side)))
      {
        CurrentLostExactly(start, actions, Move(task), sid, side);
      }
    }
  }

  lemma StepForward(s: State, a: Action)
    requires Enabled(s, a)
    ensures Next(s, a).forward ==
      if !a.Move? then s.forward
      else
        var pc := s.tasks[a.task];
        if Committing(s, a.task) then s.forward[pc.sid := pc.m]
        else if pc.Deleting? then s.forward - {pc.sid}
        else s.forward
  {
  }

  // ---------------------------------------------------------------- what an instance remembers

  /** The instance holds a mapping of the session that the backend does not, or no longer. */
  predicate Stale(s: State, inst: nat, sid: string) {
    (inst, sid) in s.index && !(sid in s.forward && s.forward[sid] == s.index[(inst, sid)])
  }

  predicate UpToDate(s: State, inst: nat, sid: string) {
    (inst, sid) in s.index && sid in s.forward && s.forward[sid] == s.index[(inst, sid)]
  }

  /** A warm reader of the instance accepts the token. */
  predicate WarmReaderAccepts(s: State, inst: nat, sid: string, key: Key) {
    (inst, sid) in s.index && Bears(s.index[(inst, sid)], key, s.now)
  }

  /** A warm reader is wrong to accept exactly when its instance's memory is stale, and not merely ahead of
      its own forward write. */
  lemma WarmReaderIsWrongExactly(start: State, actions: seq<Action>, inst: nat, sid: string, key: Key)
    requires IsInitial(start) && Run(start, actions).Some?
    requires WarmReaderAccepts(Run(start, actions).value, inst, sid, key)
    ensures var s := Run(start, actions).value;
      Retired(s, key) <==> Stale(s, inst, sid) && !BeingCommitted(s, (inst, sid))
  {
    RunInv(start, actions);
    var s := Run(start, actions).value;
    assert EntryOk(s, (inst, sid));
    if BeingCommitted(s, (inst, sid)) {
      assert TaskOk(s, s.rotating[inst]);
    } else {
      RememberedRetired(s, inst, sid, key);
    }
  }

  lemma RememberedRetired(s: State, inst: nat, sid: string, key: Key)
    requires CommitsDistinct(s) && ForwardIsLast(s) && WarmReaderAccepts(s, inst, sid, key)
    requires Committed(s, sid, s.index[(inst, sid)])
    ensures Retired(s, key) <==> Stale(s, inst, sid)
  {
    var m := s.index[(inst, sid)];
    var i :| 0 <= i < |s.commits| && s.commits[i] == Commit(sid, m);
    if UpToDate(s, inst, sid) {
      if Retired(s, key) {
        RetiredIsNotCurrent(s, key, sid);
      }
    } else {
      assert Superseded(s, i);
      assert TokenOf(s.commits[i].m, key.0) == key.1;
    }
  }

  /** The step puts a mapping of the session into the instance's memory that is not the one in force: its own
      rotation, which comes first there, or a cold reader that judged by another. */
  predicate Remembers(s: State, a: Action, inst: nat, sid: string)
    requires sid in s.forward
  {
    match a
    case Rotate(_, i, other, _) => i == inst && other == sid
    case Move(task) =>
      && task in s.tasks && s.tasks[task].Accepting?
      && s.tasks[task].inst == inst && s.tasks[task].sid == sid
      && Unexpired(s.tasks[task].m, Refresh, s.now) && s.tasks[task].m != s.forward[sid]
    case _ => false
  }

  /** Memory that agrees with the backend comes to disagree in two ways alone: the session's mapping is
      displaced, by whichever instance, or the instance takes another one in. The latter needs no other
      instance: a reader that judged before its own instance's rotation puts the replaced mapping back. */
  lemma MemoryTurnsStaleExactly(start: State, actions: seq<Action>, a: Action, inst: nat, sid: string)
    requires IsInitial(start) && Run(start, actions).Some? && Enabled(Run(start, actions).value, a)
    requires UpToDate(Run(start, actions).value, inst, sid)
    ensures var s := Run(start, actions).value;
      Stale(Next(s, a), inst, sid) <==> Displaces(s, a, sid) || Remembers(s, a, inst, sid)
  {
    RunInv(start, actions);
    var s := Run(start, actions).value;
    StepForward(s, a);
    StepMemory(s, a);
    if a.Rotate? || (a.Move? && Committing(s, a.task)) {
      BroughtIsOther(s, a, sid);
    } else if a.Move? {
    }
  }

  /** A mapping being rotated in is never the one in force. */
  lemma BroughtIsOther(s: State, a: Action, sid: string)
    requires CommitsDistinct(s) && ForwardIsLast(s) && Enabled(s, a) && sid in s.forward
    requires forall k | k in s.tasks :: TaskOk(s, k)
    requires a.Rotate? || (a.Move? && Committing(s, a.task))
    ensures s.forward[sid].access != if a.Rotate? then a.m.access else s.tasks[a.task].m.access
  {
    InForceIsCommitted(s, sid);
    var i :| 0 <= i < |s.commits| && s.commits[i] == Commit(sid, s.forward[sid]);
    assert (Access, TokenOf(s.commits[i].m, Access)) in s.minted;
    if a.Move? {
      assert TaskOk(s, a.task);
      assert TokenOf(s.commits[i].m, Access) != TokenOf(s.tasks[a.task].m, Access);
    }
  }

  lemma StepMemory(s: State, a: Action)
    requires Enabled(s, a)
    ensures Next(s, a).index ==
      if a.Rotate? then s.index[(a.inst, a.sid) := a.m]
      else if !a.Move? then s.index
      else
        var pc := s.tasks[a.task];
        if pc.Accepting? && Unexpired(pc.m, Refresh, s.now) then s.index[(pc.inst, pc.sid) := pc.m]
        else if pc.Removing? then s.index - {(pc.inst, pc.sid)}
        else s.index
  {
  }
}
