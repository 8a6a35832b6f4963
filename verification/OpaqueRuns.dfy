/** Runs of `OpaqueRotation` in which a current mapping is removed, or a replaced one remembered. */
module OpaqueRuns {
  import opened Json
  import opened OpaqueTokens
  import opened OpaqueRotation

  lemma Extend(s: State, actions: seq<Action>, a: Action) returns (s': State, actions': seq<Action>)
    requires Run(NOTHING_YET, actions) == Some(s) && Enabled(s, a)
    ensures s' == Next(s, a) && actions' == actions + [a] && Run(NOTHING_YET, actions') == Some(s')
  {
    RunOneMore(NOTHING_YET, actions, a);
    s', actions' := Next(s, a), actions + [a];
  }

  const NOTHING_YET := State(0, map[], map[], map[], map[], map[], [], {}, {})

  const FIRST := Mapping("a0", "r0", 10, 10)

  const SECOND := Mapping("a1", "r1", 20, 20)

  /** After so many writes of a first rotation, to `m`. */
  function Writing(m: Mapping, inst: nat, stage: nat): State {
    State(
      0,
      if stage > 0 then map["s" := m] else map[],
      if stage > 2 then map[(Access, m.access) := "s", (Refresh, m.refresh) := "s"]
      else if stage > 1 then map[(Access, m.access) := "s"] else map[],
      map[(inst, "s") := m],
      if stage > 4 then map[] else map[inst := 0],
      map[0 := if stage > 4 then Rotated else Rotating(inst, "s", m, None, stage)],
      if stage > 0 then [Commit("s", m)] else [],
      {},
      {(Access, m.access), (Refresh, m.refresh)})
  }

  lemma WritesNext(m: Mapping, inst: nat, stage: nat)
    requires stage <= 4
    ensures Enabled(Writing(m, inst, stage), Move(0))
    ensures Next(Writing(m, inst, stage), Move(0)) == Writing(m, inst, stage + 1)
  {
  }

  /** One session, rotated once, at time 0. */
  lemma FirstRotation(m: Mapping, inst: nat) returns (s: State, actions: seq<Action>)
    ensures Run(NOTHING_YET, actions) == Some(s) && s == Writing(m, inst, 5)
    ensures forall a :: a in actions <==> a == Rotate(0, inst, "s", m) || a == Move(0)
  {
    s, actions := Extend(NOTHING_YET, [], Rotate(0, inst, "s", m));
    assert s == Writing(m, inst, 0);
    for stage := 0 to 5
      invariant Run(NOTHING_YET, actions) == Some(s) && s == Writing(m, inst, stage)
      invariant forall a :: a in actions <==> a == Rotate(0, inst, "s", m) || (stage > 0 && a == Move(0))
    {
      WritesNext(m, inst, stage);
      s, actions := Extend(s, actions, Move(0));
    }
  }

  /** The state between the writes of a rotation to `SECOND` that nothing interrupts: all that the runs
      below need of it. */
  ghost predicate Halfway(s0: State, s: State, task: nat, inst: nat, stage: nat) {
    && s.now == s0.now && s.index == s0.index[(inst, "s") := SECOND]
    && task in s.tasks && s.tasks == s0.tasks[task := s.tasks[task]]
    && inst !in s0.rotating && s.rotating == (if stage > 4 then s0.rotating else s0.rotating[inst := task])
    && (if stage > 4 then s.tasks[task] == Rotated
        else s.tasks[task].Rotating? && s.tasks[task].inst == inst && s.tasks[task].stage == stage
             && s.tasks[task].sid == "s" && s.tasks[task].m == SECOND)
    && (if stage == 0 then s.forward == s0.forward && s.commits == s0.commits
        else s.forward == s0.forward["s" := SECOND] && s.commits == s0.commits + [Commit("s", SECOND)])
  }

  lemma ForwardWrite(s0: State, s: State, task: nat, inst: nat)
    requires Halfway(s0, s, task, inst, 0)
    ensures Enabled(s, Move(task)) && Halfway(s0, Next(s, Move(task)), task, inst, 1)
  {
  }

  lemma InverseWrite(s0: State, s: State, task: nat, inst: nat, stage: nat)
    requires Halfway(s0, s, task, inst, stage) && 0 < stage < 3
    ensures Enabled(s, Move(task)) && Halfway(s0, Next(s, Move(task)), task, inst, stage + 1)
  {
  }

  lemma PriorDelete(s0: State, s: State, task: nat, inst: nat)
    requires Halfway(s0, s, task, inst, 3)
    ensures Enabled(s, Move(task)) && Halfway(s0, Next(s, Move(task)), task, inst, 4)
  {
  }

  lemma LastWrite(s0: State, s: State, task: nat, inst: nat)
    requires Halfway(s0, s, task, inst, 4)
    ensures Enabled(s, Move(task)) && Halfway(s0, Next(s, Move(task)), task, inst, 5)
  {
    assert s0.rotating[inst := task] - {inst} == s0.rotating;
  }

  predicate ReadyToRotate(s: State, task: nat, inst: nat) {
    task !in s.tasks && inst !in s.rotating && (Access, "a1") !in s.minted && (Refresh, "r1") !in s.minted
  }

  /** A rotation, all five writes, with nothing else in between. */
  lemma SecondRotation(s0: State, actions0: seq<Action>, task: nat, inst: nat) returns (s: State, actions: seq<Action>)
    requires Run(NOTHING_YET, actions0) == Some(s0) && ReadyToRotate(s0, task, inst)
    ensures Run(NOTHING_YET, actions) == Some(s) && Halfway(s0, s, task, inst, 5)
    ensures forall a :: a in actions <==> a in actions0 || a == Rotate(task, inst, "s", SECOND) || a == Move(task)
  {
    s, actions := Extend(s0, actions0, Rotate(task, inst, "s", SECOND));
    assert Halfway(s0, s, task, inst, 0);
    for stage := 0 to 5
      invariant Run(NOTHING_YET, actions) == Some(s) && Halfway(s0, s, task, inst, stage)
      invariant forall a :: a in actions <==>
        a in actions0 || a == Rotate(task, inst, "s", SECOND) || (stage > 0 && a == Move(task))
    {
      if stage == 0 {
        ForwardWrite(s0, s, task, inst);
      } else if stage < 3 {
        InverseWrite(s0, s, task, inst, stage);
      } else if stage == 3 {
        PriorDelete(s0, s, task, inst);
      } else {
        LastWrite(s0, s, task, inst);
      }
      s, actions := Extend(s, actions, Move(task));
    }
  }

  const UNEVEN := Mapping("a", "r", 10, 100)

  /** A rotation to a pair whose access token is the first to run out, as far as a reader needs it. */
  lemma UnevenRotation() returns (s: State, actions: seq<Action>)
    ensures Run(NOTHING_YET, actions) == Some(s) && s.now == 50 && s.tasks.Keys == {0}
    ensures s.forward == map["s" := UNEVEN] && s.inverse == map[(Access, "a") := "s", (Refresh, "r") := "s"]
  {
    s, actions := FirstRotation(UNEVEN, 0);
    s, actions := Extend(s, actions, Tick(50));
  }

  lemma ReaderFinds(s0: State, actions0: seq<Action>, task: nat, key: Key) returns (s: State, actions: seq<Action>)
    requires Run(NOTHING_YET, actions0) == Some(s0) && task !in s0.tasks
    requires key in s0.inverse && s0.inverse[key] == "s"
    ensures Run(NOTHING_YET, actions) == Some(s)
    ensures s.now == s0.now && s.forward == s0.forward && s.inverse == s0.inverse
    ensures s.tasks == s0.tasks[task := Found(1, key, "s")]
  {
    s, actions := Extend(s0, actions0, Look(task, 1, key));
    assert s.tasks == s0.tasks[task := Looking(1, key)];
    s, actions := Extend(s, actions, Move(task));
    assert s.tasks == s0.tasks[task := Found(1, key, "s")];
  }

  /** Of one pair, at one time: the access token, past its own deadline, is refused, and the refresh token,
      before its own, accepted. */
  lemma DeadlinesDiffer() returns (s: State, actions: seq<Action>)
    ensures IsInitial(NOTHING_YET) && Run(NOTHING_YET, actions) == Some(s)
    ensures 1 in s.tasks && s.tasks[1] == Found(1, (Access, "a"), "s")
    ensures 2 in s.tasks && s.tasks[2] == Found(1, (Refresh, "r"), "s")
    ensures Enabled(s, Move(1)) && Next(s, Move(1)).tasks[1] == Cleaning((Access, "a"))
    ensures Enabled(s, Move(2)) && Next(s, Move(2)).tasks[2] == Accepting(1, (Refresh, "r"), "s", UNEVEN)
  {
    s, actions := UnevenRotation();
    s, actions := ReaderFinds(s, actions, 1, (Access, "a"));
    s, actions := ReaderFinds(s, actions, 2, (Refresh, "r"));
  }

  /** The step deletes the forward mapping under a refresh token that is current. */
  ghost predicate RemovesCurrent(s: State, a: Action, sid: string, token: string) {
    && Enabled(s, a) && Displaces(s, a, sid)
    && Current(s, sid, (Refresh, token)) && !Current(Next(s, a), sid, (Refresh, token))
  }

  lemma DeletesCurrent(s: State, task: nat)
    requires task in s.tasks && s.tasks[task].Deleting? && s.tasks[task].sid == "s"
    requires "s" in s.forward && s.forward["s"] == SECOND && s.now == 10
    ensures RemovesCurrent(s, Move(task), "s", "r1")
  {
  }

  /** A removal that has waited long enough takes the session out of memory, and is to delete it next. */
  lemma TakesFromMemory(s0: State, actions0: seq<Action>, inst: nat) returns (s: State, actions: seq<Action>)
    requires Run(NOTHING_YET, actions0) == Some(s0) && 2 in s0.tasks && s0.tasks[2] == Removing(inst, "s")
    requires inst !in s0.rotating && (inst, "s") in s0.index
    requires "s" in s0.forward && s0.forward["s"] == SECOND && s0.now == 10
    ensures Run(NOTHING_YET, actions) == Some(s) && actions == actions0 + [Move(2)]
    ensures RemovesCurrent(s, Move(2), "s", "r1")
  {
    s, actions := Extend(s0, actions0, Move(2));
    DeletesCurrent(s, 2);
  }

  /** A peer's: it rotates a session whose old tokens this instance keeps until they run out. The reader
      finds them so, and removes the session with the peer's mapping. */
  lemma PeersMappingIsRemoved() returns (s: State, actions: seq<Action>)
    ensures IsInitial(NOTHING_YET) && Run(NOTHING_YET, actions) == Some(s)
    ensures Expire(2, 0, "s", Refresh) in actions && Rotate(1, 1, "s", SECOND) in actions
    ensures RemovesCurrent(s, Move(2), "s", "r1")
  {
    s, actions := RotatedByPeer();
    s, actions := Extend(s, actions, Tick(10));
    s, actions := Extend(s, actions, Expire(2, 0, "s", Refresh));
    s, actions := TakesFromMemory(s, actions, 0);
  }

  lemma RotatedByPeer() returns (s: State, actions: seq<Action>)
    ensures Run(NOTHING_YET, actions) == Some(s) && Rotate(1, 1, "s", SECOND) in actions
    ensures s.forward == map["s" := SECOND] && s.rotating == map[] && s.now == 0 && 2 !in s.tasks
    ensures s.index == map[(0, "s") := FIRST, (1, "s") := SECOND]
  {
    s, actions := FirstRotation(FIRST, 0);
    s, actions := SecondRotation(s, actions, 1, 1);
  }

  /** Its own: the reader finds the old tokens expired, and while it waits for the mutation lock its own
      instance, the only one there is, rotates the session; what it then removes is that fresh mapping. */
  lemma OwnMappingIsRemoved() returns (s: State, actions: seq<Action>)
    ensures IsInitial(NOTHING_YET) && Run(NOTHING_YET, actions) == Some(s)
    ensures Expire(2, 0, "s", Refresh) in actions && forall a | a in actions && a.Rotate? :: a.inst == 0
    ensures RemovesCurrent(s, Move(2), "s", "r1")
  {
    s, actions := FoundExpired();
    s, actions := SecondRotation(s, actions, 1, 0);
    s, actions := TakesFromMemory(s, actions, 0);
  }

  lemma FoundExpired() returns (s: State, actions: seq<Action>)
    ensures Run(NOTHING_YET, actions) == Some(s) && ReadyToRotate(s, 1, 0) && s.now == 10 && s.rotating == map[]
    ensures 2 in s.tasks && s.tasks[2] == Removing(0, "s")
    ensures Expire(2, 0, "s", Refresh) in actions && forall a | a in actions && a.Rotate? :: a.inst == 0
  {
    s, actions := FirstRotation(FIRST, 0);
    var rotated := s;
    s, actions := Extend(s, actions, Tick(10));
    assert s == rotated.(now := 10) && s.index == map[(0, "s") := FIRST];
    s, actions := Extend(s, actions, Expire(2, 0, "s", Refresh));
    assert s.tasks == rotated.tasks[2 := Removing(0, "s")];
  }

  /** An instance puts back in memory what it replaced itself: its reader judges by the mapping it finds, the
      instance rotates, and only then does the reader take the mapping in. */
  lemma LateHydration() returns (s: State, actions: seq<Action>)
    ensures IsInitial(NOTHING_YET) && Run(NOTHING_YET, actions) == Some(s)
    ensures UpToDate(s, 0, "s") && s.forward["s"] == SECOND && s.now == 0
    ensures s.commits == [Commit("s", FIRST), Commit("s", SECOND)]
    ensures 2 in s.tasks && s.tasks[2] == Accepting(0, (Access, "a0"), "s", FIRST)
  {
    s, actions := AboutToHydrate();
    s, actions := SecondRotation(s, actions, 1, 0);
  }

  /** What a reader's steps change, when all they do is read. */
  ghost predicate Reading(s0: State, s: State, pc: Pc) {
    s == s0.(tasks := s0.tasks[2 := pc])
  }

  lemma LookedUp(s0: State, actions0: seq<Action>) returns (s: State, actions: seq<Action>)
    requires Run(NOTHING_YET, actions0) == Some(s0) && 2 !in s0.tasks
    requires (Access, "a0") in s0.inverse && s0.inverse[(Access, "a0")] == "s"
    ensures Run(NOTHING_YET, actions) == Some(s) && Reading(s0, s, Found(0, (Access, "a0"), "s"))
  {
    s, actions := Extend(s0, actions0, Look(2, 0, (Access, "a0")));
    assert Reading(s0, s, Looking(0, (Access, "a0")));
    s, actions := Extend(s, actions, Move(2));
    assert s.tasks == s0.tasks[2 := Found(0, (Access, "a0"), "s")];
  }

  lemma Judged(s0: State, actions0: seq<Action>) returns (s: State, actions: seq<Action>)
    requires Run(NOTHING_YET, actions0) == Some(s0) && 2 in s0.tasks && s0.tasks[2] == Found(0, (Access, "a0"), "s")
    requires "s" in s0.forward && s0.forward["s"] == FIRST && s0.now == 0
    ensures Run(NOTHING_YET, actions) == Some(s) && Reading(s0, s, Accepting(0, (Access, "a0"), "s", FIRST))
  {
    s, actions := Extend(s0, actions0, Move(2));
  }

  lemma AboutToHydrate() returns (s: State, actions: seq<Action>)
    ensures Run(NOTHING_YET, actions) == Some(s) && ReadyToRotate(s, 1, 0) && s.now == 0
    ensures s.forward == map["s" := FIRST] && s.commits == [Commit("s", FIRST)] && (0, "s") !in s.index
    ensures 2 in s.tasks && s.tasks[2] == Accepting(0, (Access, "a0"), "s", FIRST)
  {
    s, actions := FirstRotation(FIRST, 1);
    s, actions := LookedUp(s, actions);
    s, actions := Judged(s, actions);
  }

  /** Its warm readers accept the replaced token from there. */
  lemma HydrationUndoesRotation() returns (s: State, actions: seq<Action>)
    ensures IsInitial(NOTHING_YET) && Run(NOTHING_YET, actions) == Some(s) && Enabled(s, Move(2))
    ensures UpToDate(s, 0, "s") && Remembers(s, Move(2), 0, "s")
    ensures var s' := Next(s, Move(2)); Retired(s', (Access, "a0")) && WarmReaderAccepts(s', 0, "s", (Access, "a0"))
  {
    s, actions := LateHydration();
    var s' := Next(s, Move(2));
    assert s'.commits[0] == Commit("s", FIRST) && s'.commits[1].sid == "s";
    assert Superseded(s', 0);
    assert TokenOf(s'.commits[0].m, Access) == "a0";
  }
}
