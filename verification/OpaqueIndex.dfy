/** The in-memory index of opaque tokens (`src/auth/store.rs:303-355`, `src/auth/store.rs:1443-1500`,
    `src/auth/store.rs:1542-1563`, `src/auth/store.rs:1707-1712`): three maps that have to agree. The
    class changes them in place, under one lock; times are milliseconds. */
module OpaqueIndex {
  import opened Json
  import opened OpaqueTokens

  datatype Binding = Binding(sid: string, expiresAt: nat)

  datatype Maps = Maps(
    access: map<string, Binding>,
    refresh: map<string, Binding>,
    sessions: map<string, Mapping>)

  const EMPTY := Maps(map[], map[], map[])

  function RemoveSession(x: Maps, sid: string): Maps {
    if sid in x.sessions then
      Maps(x.access - {x.sessions[sid].access}, x.refresh - {x.sessions[sid].refresh}, x.sessions - {sid})
    else x
  }

  /** A mapping whose refresh token has run out is not taken in; an expired access token is not bound. */
  function Insert(x: Maps, sid: string, m: Mapping, now: nat): Maps {
    if m.refreshExp <= now then x
    else
      var cleared := RemoveSession(x, sid);
      Maps(
        if m.accessExp <= now then cleared.access else cleared.access[m.access := Binding(sid, m.accessExp)],
        cleared.refresh[m.refresh := Binding(sid, m.refreshExp)],
        cleared.sessions[sid := m])
  }

  /** The token is the access, or the refresh, token of one of the sessions. */
  predicate IsAccessOf(x: Maps, sids: set<string>, token: string) {
    exists sid | sid in sids :: sid in x.sessions && x.sessions[sid].access == token
  }

  predicate IsRefreshOf(x: Maps, sids: set<string>, token: string) {
    exists sid | sid in sids :: sid in x.sessions && x.sessions[sid].refresh == token
  }

  function RemoveAll(x: Maps, sids: set<string>): Maps {
    Maps(
      map tok | tok in x.access && !IsAccessOf(x, sids, tok) :: x.access[tok],
      map tok | tok in x.refresh && !IsRefreshOf(x, sids, tok) :: x.refresh[tok],
      x.sessions - sids)
  }

  function InsertAll(x: Maps, entries: seq<(string, Mapping)>, now: nat): Maps {
    if entries == [] then x
    else Insert(InsertAll(x, entries[..|entries| - 1], now), entries[|entries| - 1].0, entries[|entries| - 1].1, now)
  }

  class Index {
    var access: map<string, Binding>
    var refresh: map<string, Binding>
    var sessions: map<string, Mapping>

    constructor ()
      ensures All() == EMPTY
    {
      access, refresh, sessions := map[], map[], map[];
    }

    function All(): Maps
      reads this
    {
      Maps(access, refresh, sessions)
    }

    method Remove(sid: string) returns (removed: Option<Mapping>)
      modifies this
      ensures All() == RemoveSession(old(All()), sid)
      ensures All() == Apply(old(All()), RemoveOp(sid))
      ensures removed == if sid in old(sessions) then Some(old(sessions)[sid]) else None
    {
      if sid !in sessions {
        return None;
      }
      var m := sessions[sid];
      sessions := sessions - {sid};
      access := access - {m.access};
      refresh := refresh - {m.refresh};
      return Some(m);
    }

    method Put(sid: string, m: Mapping, now: nat) returns (taken: bool)
      modifies this
      ensures All() == Insert(old(All()), sid, m, now)
      ensures All() == Apply(old(All()), PutOp(sid, m, now))
      ensures taken <==> now < m.refreshExp
    {
      if m.refreshExp <= now {
        return false;
      }
      var _ := Remove(sid);
      if now < m.accessExp {
        access := access[m.access := Binding(sid, m.accessExp)];
      }
      refresh := refresh[m.refresh := Binding(sid, m.refreshExp)];
      sessions := sessions[sid := m];
      return true;
    }

    /** `store_opaque_mapping`: out with the session's old tokens, in with the new. */
    method Rotate(sid: string, m: Mapping, now: nat) returns (prior: Option<Mapping>)
      modifies this
      ensures All() == Insert(RemoveSession(old(All()), sid), sid, m, now)
      ensures All() == Apply(old(All()), RotateOp(sid, m, now))
      ensures prior == if sid in old(sessions) then Some(old(sessions)[sid]) else None
    {
      prior := Remove(sid);
      var _ := Put(sid, m, now);
    }

    method ExpireAccess(token: string)
      modifies this`access
      ensures access == old(access) - {token}
      ensures All() == Apply(old(All()), ExpireOp(token))
    {
      access := access - {token};
    }

    /** The sessions of purged tokens, one after the other. */
    method Purge(sids: set<string>)
      modifies this
      ensures All() == RemoveAll(old(All()), sids)
      ensures All() == Apply(old(All()), PurgeOp(sids))
    {
      ghost var before := All();
      var todo := sids;
      assert RemoveAll(before, sids - todo) == before;
      while todo != {}
        invariant todo <= sids
        invariant All() == RemoveAll(before, sids - todo)
        decreases todo
      {
        var sid :| sid in todo;
        ghost var done := sids - todo;
        todo := todo - {sid};
        RemoveOneMore(before, done, sid);
        assert sids - todo == done + {sid};
        var _ := Remove(sid);
      }
      assert sids - todo == sids;
    }

    /** Loading the persisted mappings of live sessions, in whatever order the backend lists them. */
    method Load(entries: seq<(string, Mapping)>, now: nat)
      modifies this
      ensures All() == InsertAll(old(All()), entries, now)
      ensures All() == Apply(old(All()), LoadOp(entries, now))
    {
      ghost var before := All();
      for k := 0 to |entries|
        invariant All() == InsertAll(before, entries[..k], now)
      {
        assert entries[..k + 1][..k] == entries[..k];
        var _ := Put(entries[k].0, entries[k].1, now);
      }
      assert entries[..|entries|] == entries;
    }

    /** The warm half of `resolve_opaque_access`: what the index alone answers. A binding that has run out
        is unbound. */
    method Resolve(token: string, now: nat) returns (sid: Option<string>)
      requires Coherent(All())
      modifies this`access
      ensures sid.Some? ==> sid.value in sessions && sessions[sid.value].access == token && token in access
      ensures sid.None? <==> token !in old(access) || old(access)[token].expiresAt <= now
      ensures access == if sid.None? then old(access) - {token} else old(access)
      ensures Coherent(All())
    {
      if token !in access {
        return None;
      }
      if access[token].expiresAt > now {
        return Some(access[token].sid);
      }
      ExpireKeepsCoherent(All(), token);
      ExpireAccess(token);
      return None;
    }

    /** The warm half of `resolve_opaque_refresh`: with its refresh binding, the whole session goes. */
    method ResolveRefresh(token: string, now: nat) returns (sid: Option<string>)
      requires Coherent(All())
      modifies this
      ensures sid.Some? ==> sid.value in sessions && sessions[sid.value].refresh == token && token in refresh
      ensures sid.None? <==> token !in old(refresh) || old(refresh)[token].expiresAt <= now
      ensures All() == if sid.None? && token in old(refresh) then RemoveSession(old(All()), old(refresh)[token].sid)
                       else old(All())
      ensures Coherent(All())
    {
      if token !in refresh {
        return None;
      }
      if refresh[token].expiresAt > now {
        return Some(refresh[token].sid);
      }
      RemoveKeepsCoherent(All(), refresh[token].sid);
      var _ := Remove(refresh[token].sid);
      return None;
    }
  }

  // ---------------------------------------------------------------- coherence

  /** Every binding points to a session whose mapping holds exactly that token, and every mapped session
      has its refresh binding. */
  ghost predicate Coherent(x: Maps) {
    && (forall tok | tok in x.access :: x.access[tok].sid in x.sessions && x.sessions[x.access[tok].sid].access == tok)
    && (forall tok | tok in x.refresh ::
          x.refresh[tok].sid in x.sessions && x.sessions[x.refresh[tok].sid].refresh == tok)
    && (forall sid | sid in x.sessions ::
          x.sessions[sid].refresh in x.refresh && x.refresh[x.sessions[sid].refresh].sid == sid)
  }

  lemma RemoveKeepsCoherent(x: Maps, sid: string)
    requires Coherent(x)
    ensures Coherent(RemoveSession(x, sid))
  {
  }

  lemma ExpireKeepsCoherent(x: Maps, token: string)
    requires Coherent(x)
    ensures Coherent(x.(access := x.access - {token}))
  {
  }

  /** Inserting keeps the index coherent exactly when the refresh token is not another session's (or the
      mapping has expired, and is not taken in at all). */
  lemma InsertCoherentExactly(x: Maps, sid: string, m: Mapping, now: nat)
    requires Coherent(x)
    ensures Coherent(Insert(x, sid, m, now)) <==>
      m.refreshExp <= now || m.refresh !in x.refresh || x.refresh[m.refresh].sid == sid
  {
    var cleared, r := RemoveSession(x, sid), Insert(x, sid, m, now);
    RemoveKeepsCoherent(x, sid);
    if now < m.refreshExp {
      if m.refresh in x.refresh && x.refresh[m.refresh].sid != sid {
        var other := x.refresh[m.refresh].sid;
        assert r.sessions[other].refresh == m.refresh && r.refresh[m.refresh].sid == sid;
      } else {
        assert forall other | other in cleared.sessions :: cleared.sessions[other].refresh != m.refresh;
      }
    }
  }

  lemma OneMoreOf(x: Maps, sids: set<string>, sid: string, token: string)
    ensures IsAccessOf(x, sids + {sid}, token) <==>
      IsAccessOf(x, sids, token) || (sid in x.sessions && x.sessions[sid].access == token)
    ensures IsRefreshOf(x, sids + {sid}, token) <==>
      IsRefreshOf(x, sids, token) || (sid in x.sessions && x.sessions[sid].refresh == token)
  {
  }

  lemma RemoveOneMore(x: Maps, sids: set<string>, sid: string)
    requires sid !in sids
    ensures RemoveAll(x, sids + {sid}) == RemoveSession(RemoveAll(x, sids), sid)
  {
    forall token {
      OneMoreOf(x, sids, sid, token);
    }
    var after, removed := RemoveAll(x, sids + {sid}), RemoveSession(RemoveAll(x, sids), sid);
    assert after.sessions == removed.sessions;
    assert after.access == removed.access;
    assert after.refresh == removed.refresh;
  }

  lemma {:induction false} RemoveAllKeepsCoherent(x: Maps, sids: set<string>)
    requires Coherent(x)
    ensures Coherent(RemoveAll(x, sids))
  {
    if sids == {} {
      assert RemoveAll(x, sids) == x;
    } else {
      var sid :| sid in sids;
      var rest := sids - {sid};
      RemoveAllKeepsCoherent(x, rest);
      RemoveOneMore(x, rest, sid);
      RemoveKeepsCoherent(RemoveAll(x, rest), sid);
      assert rest + {sid} == sids;
    }
  }

  // ---------------------------------------------------------------- every run

  datatype Op =
    | PutOp(sid: string, m: Mapping, now: nat)
    | RotateOp(sid: string, m: Mapping, now: nat)
    | ExpireOp(token: string)
    | RemoveOp(sid: string)
    | PurgeOp(sids: set<string>)
    | LoadOp(entries: seq<(string, Mapping)>, now: nat)

  function Apply(x: Maps, op: Op): Maps {
    match op
    case PutOp(sid, m, now) => Insert(x, sid, m, now)
    case RotateOp(sid, m, now) => Insert(RemoveSession(x, sid), sid, m, now)
    case ExpireOp(token) => x.(access := x.access - {token})
    case RemoveOp(sid) => RemoveSession(x, sid)
    case PurgeOp(sids) => RemoveAll(x, sids)
    case LoadOp(entries, now) => InsertAll(x, entries, now)
  }

  function Run(ops: seq<Op>): Maps {
    if ops == [] then EMPTY else Apply(Run(ops[..|ops| - 1]), ops[|ops| - 1])
  }

  /** The mappings an operation brings in. */
  predicate Brings(op: Op, sid: string, m: Mapping) {
    match op
    case PutOp(s, m', _) => s == sid && m' == m
    case RotateOp(s, m', _) => s == sid && m' == m
    case LoadOp(entries, _) => (sid, m) in entries
    case _ => false
  }

  /** Refresh tokens are minted for one session: no other is ever given one of them. */
  ghost predicate TokensOwned(ops: seq<Op>, owner: string -> string) {
    forall k, sid, m | 0 <= k < |ops| && Brings(ops[k], sid, m) :: owner(m.refresh) == sid
  }

  /** Every refresh binding is for the session its token was minted for. */
  ghost predicate Owned(x: Maps, owner: string -> string) {
    forall tok | tok in x.refresh :: owner(tok) == x.refresh[tok].sid
  }

  lemma InsertOwned(x: Maps, sid: string, m: Mapping, now: nat, owner: string -> string)
    requires Coherent(x) && Owned(x, owner) && owner(m.refresh) == sid
    ensures Coherent(Insert(x, sid, m, now)) && Owned(Insert(x, sid, m, now), owner)
  {
    InsertCoherentExactly(x, sid, m, now);
  }

  lemma {:induction false} InsertAllOwned(x: Maps, entries: seq<(string, Mapping)>, now: nat, owner: string -> string)
    requires Coherent(x) && Owned(x, owner)
    requires forall entry | entry in entries :: owner(entry.1.refresh) == entry.0
    ensures Coherent(InsertAll(x, entries, now)) && Owned(InsertAll(x, entries, now), owner)
  {
    if entries != [] {
      var front, last := entries[..|entries| - 1], entries[|entries| - 1];
      assert last in entries;
      InsertAllOwned(x, front, now, owner);
      InsertOwned(InsertAll(x, front, now), last.0, last.1, now, owner);
    }
  }

  lemma ApplyOwned(x: Maps, op: Op, owner: string -> string)
    requires Coherent(x) && Owned(x, owner)
    requires forall sid, m | Brings(op, sid, m) :: owner(m.refresh) == sid
    ensures Coherent(Apply(x, op)) && Owned(Apply(x, op), owner)
  {
    match op
    case PutOp(sid, m, now) =>
      assert Brings(op, sid, m);
      InsertOwned(x, sid, m, now, owner);
    case RotateOp(sid, m, now) =>
      assert Brings(op, sid, m);
      RemoveKeepsCoherent(x, sid);
      InsertOwned(RemoveSession(x, sid), sid, m, now, owner);
    case ExpireOp(token) => ExpireKeepsCoherent(x, token);
    case RemoveOp(sid) => RemoveKeepsCoherent(x, sid);
    case PurgeOp(sids) => RemoveAllKeepsCoherent(x, sids);
    case LoadOp(entries, now) =>
      forall entry | entry in entries
        ensures owner(entry.1.refresh) == entry.0
      {
        assert Brings(op, entry.0, entry.1);
      }
      InsertAllOwned(x, entries, now, owner);
  }

  lemma {:induction false} RunOwned(ops: seq<Op>, owner: string -> string)
    requires TokensOwned(ops, owner)
    ensures Coherent(Run(ops)) && Owned(Run(ops), owner)
  {
    if ops != [] {
      RunOwned(ops[..|ops| - 1], owner);
      ApplyOwned(Run(ops[..|ops| - 1]), ops[|ops| - 1], owner);
    }
  }

  /** Every binding lasts as long as the token it is for: no longer, and no shorter. */
  ghost predicate Dated(x: Maps) {
    && (forall tok | tok in x.access ::
          x.access[tok].sid in x.sessions && x.access[tok].expiresAt == x.sessions[x.access[tok].sid].accessExp)
    && (forall tok | tok in x.refresh ::
          x.refresh[tok].sid in x.sessions && x.refresh[tok].expiresAt == x.sessions[x.refresh[tok].sid].refreshExp)
  }

  lemma RemoveDated(x: Maps, sid: string)
    requires Coherent(x) && Dated(x)
    ensures Dated(RemoveSession(x, sid))
  {
  }

  lemma InsertDated(x: Maps, sid: string, m: Mapping, now: nat)
    requires Coherent(x) && Dated(x)
    ensures Dated(Insert(x, sid, m, now))
  {
    RemoveDated(x, sid);
    RemoveKeepsCoherent(x, sid);
    NothingLeft(x, sid);
  }

  lemma NothingLeft(x: Maps, sid: string)
    requires Coherent(x)
    ensures var r := RemoveSession(x, sid);
      && (forall tok | tok in r.access :: r.access[tok].sid != sid)
      && (forall tok | tok in r.refresh :: r.refresh[tok].sid != sid)
  {
    RemoveKeepsCoherent(x, sid);
  }

  lemma {:induction false} InsertAllDated(x: Maps, entries: seq<(string, Mapping)>, now: nat, owner: string -> string)
    requires Coherent(x) && Owned(x, owner) && Dated(x)
    requires forall entry | entry in entries :: owner(entry.1.refresh) == entry.0
    ensures Dated(InsertAll(x, entries, now))
  {
    if entries != [] {
      var front, last := entries[..|entries| - 1], entries[|entries| - 1];
      InsertAllDated(x, front, now, owner);
      InsertAllOwned(x, front, now, owner);
      InsertDated(InsertAll(x, front, now), last.0, last.1, now);
    }
  }

  lemma RemoveAllDated(x: Maps, sids: set<string>)
    requires Coherent(x) && Dated(x)
    ensures Dated(RemoveAll(x, sids))
  {
    RemoveAllKeepsCoherent(x, sids);
    assert forall tok | tok in RemoveAll(x, sids).access :: RemoveAll(x, sids).access[tok] == x.access[tok];
    assert forall tok | tok in RemoveAll(x, sids).refresh :: RemoveAll(x, sids).refresh[tok] == x.refresh[tok];
  }

  lemma ApplyDated(x: Maps, op: Op, owner: string -> string)
    requires Coherent(x) && Owned(x, owner) && Dated(x)
    requires forall sid, m | Brings(op, sid, m) :: owner(m.refresh) == sid
    ensures Dated(Apply(x, op))
  {
    match op
    case PutOp(sid, m, now) => InsertDated(x, sid, m, now);
    case RotateOp(sid, m, now) =>
      RemoveDated(x, sid);
      RemoveKeepsCoherent(x, sid);
      InsertDated(RemoveSession(x, sid), sid, m, now);
    case ExpireOp(_) =>
    case RemoveOp(sid) => RemoveDated(x, sid);
    case PurgeOp(sids) => RemoveAllDated(x, sids);
    case LoadOp(entries, now) =>
      forall entry | entry in entries
        ensures owner(entry.1.refresh) == entry.0
      {
        assert Brings(op, entry.0, entry.1);
      }
      InsertAllDated(x, entries, now, owner);
  }

  /** In every run of such operations a binding runs out exactly with its token. */
  lemma {:induction false} BindingsLastAsLong(ops: seq<Op>, owner: string -> string)
    requires TokensOwned(ops, owner)
    ensures Dated(Run(ops))
  {
    if ops != [] {
      BindingsLastAsLong(ops[..|ops| - 1], owner);
      RunOwned(ops[..|ops| - 1], owner);
      ApplyDated(Run(ops[..|ops| - 1]), ops[|ops| - 1], owner);
    }
  }

  /** What an insertion leaves: nothing of the mapping if its refresh token has run out, and else the mapping,
      bound by its refresh token, and by its access token if that has not; of the session's old tokens nothing,
      and of other sessions, with access tokens of their own, all they had. */
  lemma InsertedExactly(x: Maps, sid: string, m: Mapping, now: nat)
    requires Coherent(x) && (m.refresh in x.refresh ==> x.refresh[m.refresh].sid == sid)
    requires m.access in x.access ==> x.access[m.access].sid == sid
    requires sid in x.sessions && x.sessions[sid].access in x.access ==> x.access[x.sessions[sid].access].sid == sid
    ensures var r := Insert(x, sid, m, now);
      if m.refreshExp <= now then r == x
      else
        && r.sessions == x.sessions[sid := m]
        && (forall tok :: tok in r.refresh <==> tok == m.refresh || (tok in x.refresh && x.refresh[tok].sid != sid))
        && (forall tok :: tok in r.access <==>
              (tok == m.access && now < m.accessExp) || (tok in x.access && x.access[tok].sid != sid))
        && r.refresh[m.refresh] == Binding(sid, m.refreshExp)
        && (now < m.accessExp ==> r.access[m.access] == Binding(sid, m.accessExp))
        && (forall tok | tok in x.refresh && x.refresh[tok].sid != sid :: r.refresh[tok] == x.refresh[tok])
        && (forall tok | tok in x.access && x.access[tok].sid != sid :: r.access[tok] == x.access[tok])
  {
  }

  /** Through any sequence of insertions, rotations, expiries, removals, purges and loads, the three maps
      agree; no access or refresh token ever resolves to a session that does not hold it. */
  lemma IndexStaysCoherent(ops: seq<Op>, owner: string -> string)
    requires TokensOwned(ops, owner)
    ensures Coherent(Run(ops))
  {
    RunOwned(ops, owner);
  }
}
