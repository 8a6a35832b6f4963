/** The passthrough branch of the bearer middleware (`src/auth/middleware.rs:286-501`), and the claims it
    reads (`src/auth/middleware.rs:66-74`, `src/auth/middleware.rs:683-712`).

    A bearer is the record of what the middleware can see in it; two bearers are the same bytes exactly
    when they are the same record. Validation and the upstream server answer as the request says. */
module Passthrough {
  import opened Json
  import TokenRefresh

  datatype Bearer = Bearer(
    bytes: string, sid: Option<string>, sub: Option<string>, iat: Option<nat>, exp: Option<nat>)

  /** The key a credential is stored under; hashing keeps the three families apart. */
  datatype Key = BySid(sid: string) | BySub(sub: string) | ByBytes(bytes: string) | Named(id: string)

  function SessionKey(b: Bearer): Key {
    if b.sid.Some? then BySid(b.sid.value)
    else if b.sub.Some? then BySub(b.sub.value)
    else ByBytes(b.bytes)
  }

  datatype Entry = Entry(access: Bearer, refresh: Option<string>, expiresAt: Option<nat>)

  type Tokens = map<Key, Entry>

  /** What validating an unknown bearer says, and when it says the bearer expires. */
  datatype Verdict = Accepted(expiresAt: Option<nat>) | Rejected

  /** What the upstream server makes of a refresh token. */
  datatype Renewal = Renewed(access: Bearer, rotated: Option<string>, expiresAt: Option<nat>) | NotRenewed

  /** A request: its bearer, the session id the protocol supplied if any, and everything outside the
      store it depends on. `now` is in milliseconds, `nowSecs` in seconds since the epoch. */
  datatype Request = Request(
    bearer: Bearer, session: Option<Key>, now: nat, nowSecs: nat, verdict: Verdict, renewal: Renewal)

  datatype Outcome = Allowed(access: Bearer) | Unauthorized

  // ---------------------------------------------------------------- what the code reads off a token

  predicate IsExpired(e: Entry, now: nat) {
    e.expiresAt.Some? && now + TokenRefresh.EXPIRY_BUFFER > e.expiresAt.value
  }

  predicate JwtIsExpired(b: Bearer, nowSecs: nat) {
    b.exp.Some? && nowSecs >= b.exp.value
  }

  /** Whether `candidate` was issued strictly after `incumbent`; not being able to tell counts as no. */
  predicate StrictlyNewer(candidate: Bearer, incumbent: Bearer) {
    if candidate.iat.Some? && incumbent.iat.Some? then candidate.iat.value > incumbent.iat.value
    else if candidate.exp.Some? && incumbent.exp.Some? then candidate.exp.value > incumbent.exp.value
    else false
  }

  predicate SamePrincipal(b: Bearer, previous: Bearer) {
    (b.sub.Some? && b.sub == previous.sub) || SessionKey(b) == SessionKey(previous)
  }

  // ---------------------------------------------------------------- one request

  function KeyOf(r: Request): Key {
    if r.session.Some? then r.session.value else SessionKey(r.bearer)
  }

  /** The entry this very bearer is already known by: the session's, else its grant's. */
  function Matching(tokens: Tokens, r: Request): Option<Entry> {
    var key, grant := KeyOf(r), SessionKey(r.bearer);
    if key in tokens && tokens[key].access == r.bearer then Some(tokens[key])
    else if grant != key && grant in tokens && tokens[grant].access == r.bearer then Some(tokens[grant])
    else None
  }

  predicate WrongPrincipal(tokens: Tokens, r: Request) {
    && KeyOf(r) in tokens && Matching(tokens, r).None?
    && !SamePrincipal(r.bearer, tokens[KeyOf(r)].access)
  }

  /** The entry the bearer amounts to on its own. */
  function Candidate(tokens: Tokens, r: Request): Entry
    requires Matching(tokens, r).Some? || r.verdict.Accepted?
  {
    if Matching(tokens, r).Some? then Matching(tokens, r).value
    else Entry(r.bearer, None, r.verdict.expiresAt)
  }

  predicate Expired(tokens: Tokens, r: Request)
    requires Matching(tokens, r).Some? || r.verdict.Accepted?
  {
    IsExpired(Candidate(tokens, r), r.now) || JwtIsExpired(r.bearer, r.nowSecs)
  }

  predicate Refreshable(tokens: Tokens, r: Request)
    requires Matching(tokens, r).Some? || r.verdict.Accepted?
  {
    Candidate(tokens, r).refresh.Some? || (KeyOf(r) in tokens && tokens[KeyOf(r)].refresh.Some?)
  }

  /** What the store should hold for the session, if anything new. */
  function Replacement(tokens: Tokens, r: Request): Option<Entry>
    requires Matching(tokens, r).Some? || r.verdict.Accepted?
  {
    var known := Lookup(tokens, KeyOf(r));
    if Matching(tokens, r).Some? then
      Some(Entry(r.bearer, Matching(tokens, r).value.refresh, Matching(tokens, r).value.expiresAt))
    else if known.Some? && known.value.refresh.Some? then
      if StrictlyNewer(r.bearer, known.value.access)
      then Some(Entry(r.bearer, known.value.refresh,
                      if r.verdict.expiresAt.Some? then r.verdict.expiresAt else known.value.expiresAt))
      else None
    else Some(Entry(r.bearer, None, r.verdict.expiresAt))
  }

  function Stored(tokens: Tokens, r: Request): Tokens
    requires Matching(tokens, r).Some? || r.verdict.Accepted?
  {
    var key, replacement := KeyOf(r), Replacement(tokens, r);
    if (key !in tokens || tokens[key].access != r.bearer) && replacement.Some?
    then tokens[key := replacement.value]
    else tokens
  }

  /** `get_token`: the entry as it is while it lasts, else renewed upstream, else nothing. */
  function GetToken(tokens: Tokens, key: Key, r: Request): (Tokens, Option<Entry>) {
    if key !in tokens then (tokens, None)
    else if !IsExpired(tokens[key], r.now) then (tokens, Some(tokens[key]))
    else if tokens[key].refresh.None? || r.renewal.NotRenewed? then (tokens, None)
    else
      var renewed := Entry(
        r.renewal.access,
        if r.renewal.rotated.Some? then r.renewal.rotated else tokens[key].refresh,
        r.renewal.expiresAt);
      (tokens[key := renewed], Some(renewed))
  }

  function Handle(tokens: Tokens, r: Request): (Tokens, Outcome) {
    if WrongPrincipal(tokens, r) || (Matching(tokens, r).None? && r.verdict.Rejected?) then (tokens, Unauthorized)
    else if Expired(tokens, r) && !Refreshable(tokens, r) then (tokens, Unauthorized)
    else if !Expired(tokens, r) then (Stored(tokens, r), Allowed(r.bearer))
    else
      var (after, got) := GetToken(Stored(tokens, r), KeyOf(r), r);
      (after, if got.Some? then Allowed(got.value.access) else Unauthorized)
  }

  class TokenStore {
    var tokens: Tokens

    constructor ()
      ensures tokens == map[]
    {
      tokens := map[];
    }

    method Get(key: Key, r: Request) returns (got: Option<Entry>)
      modifies this
      ensures (tokens, got) == GetToken(old(tokens), key, r)
    {
      if key !in tokens {
        return None;
      }
      var entry := tokens[key];
      if !IsExpired(entry, r.now) {
        return Some(entry);
      }
      if entry.refresh.None? || r.renewal.NotRenewed? {
        return None;
      }
      var refresh := if r.renewal.rotated.Some? then r.renewal.rotated else entry.refresh;
      tokens := tokens[key := Entry(r.renewal.access, refresh, r.renewal.expiresAt)];
      return Some(tokens[key]);
    }

    /** The middleware, step by step in the order of the source. */
    method Authorize(r: Request) returns (outcome: Outcome)
      modifies this
      ensures (tokens, outcome) == Handle(old(tokens), r)
    {
      var key := if r.session.Some? then r.session.value else SessionKey(r.bearer);
      var grantKey := SessionKey(r.bearer);
      var sessionToken := Lookup(tokens, key);
      var matching: Option<Entry> := None;
      if sessionToken.Some? && sessionToken.value.access == r.bearer {
        matching := sessionToken;
      } else if grantKey != key && grantKey in tokens && tokens[grantKey].access == r.bearer {
        matching := Some(tokens[grantKey]);
      }

      if sessionToken.Some? && matching.None? {
        var previous := sessionToken.value.access;
        var sameSubject := r.bearer.sub.Some? && previous.sub.Some? && r.bearer.sub.value == previous.sub.value;
        if !sameSubject && SessionKey(r.bearer) != SessionKey(previous) {
          return Unauthorized;
        }
      }
      var validatedExpiry: Option<nat> := None;
      if matching.None? {
        if r.verdict.Rejected? {
          return Unauthorized;
        }
        validatedExpiry := r.verdict.expiresAt;
      }

      var candidate := if matching.Some? then matching.value else Entry(r.bearer, None, validatedExpiry);
      var expired := IsExpired(candidate, r.now) || JwtIsExpired(r.bearer, r.nowSecs);
      var hasRefresh := candidate.refresh.Some? || (sessionToken.Some? && sessionToken.value.refresh.Some?);
      if expired && !hasRefresh {
        return Unauthorized;
      }

      var replacement: Option<Entry> := None;
      if matching.Some? {
        replacement := Some(Entry(r.bearer, matching.value.refresh, matching.value.expiresAt));
      } else if sessionToken.Some? && sessionToken.value.refresh.Some? {
        var previous := sessionToken.value;
        if StrictlyNewer(r.bearer, previous.access) {
          var expiry := if validatedExpiry.Some? then validatedExpiry else previous.expiresAt;
          replacement := Some(Entry(r.bearer, previous.refresh, expiry));
        }
      } else {
        replacement := Some(Entry(r.bearer, None, validatedExpiry));
      }
      if (sessionToken.None? || sessionToken.value.access != r.bearer) && replacement.Some? {
        tokens := tokens[key := replacement.value];
      }

      if expired {
        var got := Get(key, r);
        return if got.Some? then Allowed(got.value.access) else Unauthorized;
      }
      return Allowed(r.bearer);
    }
  }

  // ---------------------------------------------------------------- what is read off a token, field by field

  /** Two credentials are one session's exactly when they agree on `sid`; without one, on `sub`; without
      either, on every byte. A credential with a `sid` is never one's without. */
  lemma SameSessionExactly(a: Bearer, b: Bearer)
    ensures SessionKey(a) == SessionKey(b) <==>
      a.sid == b.sid && (a.sid.None? ==> a.sub == b.sub) && (a.sid.None? && a.sub.None? ==> a.bytes == b.bytes)
  {
  }

  /** And one principal's exactly when they agree on a `sub` they both have, or are one session's. */
  lemma SamePrincipalExactly(a: Bearer, b: Bearer)
    ensures SamePrincipal(a, b) <==>
      || (a.sub.Some? && b.sub.Some? && a.sub.value == b.sub.value)
      || (a.sid.Some? && b.sid.Some? && a.sid.value == b.sid.value)
      || (a.sid.None? && b.sid.None? && a.sub.None? && b.sub.None? && a.bytes == b.bytes)
  {
    SameSessionExactly(a, b);
  }

  /** Newer is by `iat` where both have one, else by `exp` where both have one, else not at all. */
  lemma NewerExactly(a: Bearer, b: Bearer)
    ensures StrictlyNewer(a, b) <==>
      || (a.iat.Some? && b.iat.Some? && a.iat.value > b.iat.value)
      || ((a.iat.None? || b.iat.None?) && a.exp.Some? && b.exp.Some? && a.exp.value > b.exp.value)
  {
  }

  /** An entry is over half a minute before its deadline, a bearer at its own. */
  lemma ExpiredExactly(e: Entry, b: Bearer, now: nat, nowSecs: nat)
    ensures IsExpired(e, now) <==> e.expiresAt.Some? && e.expiresAt.value < now + 30_000
    ensures JwtIsExpired(b, nowSecs) <==> b.exp.Some? && b.exp.value <= nowSecs
  {
  }

  // ---------------------------------------------------------------- what a request is let on with

  /** The request is not turned away before its bearer's age is looked at: whoever's the session is, and the
      bearer known or valid. */
  predicate LetPast(tokens: Tokens, r: Request) {
    !WrongPrincipal(tokens, r) && (Matching(tokens, r).Some? || r.verdict.Accepted?)
  }

  /** The bearer counts as expired: by its own `exp`, or by the entry it is known by, or by what validation
      said of it. */
  lemma ExpiredBearerExactly(tokens: Tokens, r: Request)
    requires LetPast(tokens, r)
    ensures Expired(tokens, r) <==>
      || (r.bearer.exp.Some? && r.bearer.exp.value <= r.nowSecs)
      || (var known := if Matching(tokens, r).Some? then Matching(tokens, r).value.expiresAt else r.verdict.expiresAt;
          known.Some? && known.value < r.now + 30_000)
  {
  }

  /** The entry a bearer is known by holds that very bearer: the session's own before its grant's. */
  lemma MatchingExactly(tokens: Tokens, r: Request, e: Entry)
    ensures Matching(tokens, r) == Some(e) <==>
      e.access == r.bearer &&
      if KeyOf(r) in tokens && tokens[KeyOf(r)].access == r.bearer then tokens[KeyOf(r)] == e
      else SessionKey(r.bearer) != KeyOf(r) && Lookup(tokens, SessionKey(r.bearer)) == Some(e)
  {
  }

  /** A bearer that has not expired is let on as it is, exactly if it is let past the checks. */
  lemma UnexpiredIsLetOn(tokens: Tokens, r: Request)
    requires LetPast(tokens, r) ==> !Expired(tokens, r)
    ensures Handle(tokens, r).1 == if LetPast(tokens, r) then Allowed(r.bearer) else Unauthorized
  {
  }

  /** With an expired one the request is let on by the access token its session's entry is left with, and only
      while that entry lasts or has just been renewed. */
  lemma ExpiredIsLetOnExactly(tokens: Tokens, r: Request, a: Bearer)
    requires LetPast(tokens, r) && Expired(tokens, r)
    ensures Handle(tokens, r).1 == Allowed(a) <==>
      && Refreshable(tokens, r) && KeyOf(r) in Handle(tokens, r).0
      && var left := Handle(tokens, r).0[KeyOf(r)];
         && left.access == a
         && (RenewsUpstream(tokens, r) || !(left.expiresAt.Some? && left.expiresAt.value < r.now + 30_000))
  {
  }

  /** What upstream has just renewed is what the request is let on with, however short-lived. */
  lemma RenewedIsLetOn(tokens: Tokens, r: Request)
    requires RenewsUpstream(tokens, r)
    ensures Handle(tokens, r).1 == Allowed(r.renewal.access)
  {
  }

  /** An expired bearer is passed on after all in two cases: upstream renews to a token that is expired by its
      `exp`; or nothing is renewed, because the entry still lasts by its own deadline, while the token it holds
      is past its `exp`. */
  lemma StaleCredentialExactly(tokens: Tokens, r: Request)
    ensures (Handle(tokens, r).1.Allowed? && JwtIsExpired(Handle(tokens, r).1.access, r.nowSecs)) <==>
      && LetPast(tokens, r) && Expired(tokens, r) && Refreshable(tokens, r)
      && if RenewsUpstream(tokens, r) then JwtIsExpired(r.renewal.access, r.nowSecs)
         else
           var left := Lookup(Observed(tokens, r), KeyOf(r));
           left.Some? && !IsExpired(left.value, r.now) && JwtIsExpired(left.value.access, r.nowSecs)
  {
  }

  /** The second happens: a bearer past its `exp` whose entry has no deadline, and a refresh token at hand, is
      passed on as it is. */
  lemma ExpiredBearerIsPassedOn(t: Bearer, session: Key, refresh: string, r: Request)
    requires r.bearer == t && r.session == Some(session) && JwtIsExpired(t, r.nowSecs)
    ensures Handle(map[session := Entry(t, Some(refresh), None)], r).1 == Allowed(t)
  {
    var tokens: Tokens := map[session := Entry(t, Some(refresh), None)];
    assert Matching(tokens, r) == Some(tokens[session]);
  }

  // ---------------------------------------------------------------- what a request leaves, field by field

  /** The entry a request finds its session with, or leaves it with before anything is renewed. */
  lemma ObservedExactly(tokens: Tokens, r: Request)
    requires LetPast(tokens, r) && (Expired(tokens, r) ==> Refreshable(tokens, r))
    ensures var key := KeyOf(r);
      var known, left := Lookup(tokens, key), Lookup(Observed(tokens, r), key);
      if known.Some? && known.value.access == r.bearer then left == known
      else if Matching(tokens, r).Some? then left == Some(tokens[SessionKey(r.bearer)])
      else if known.None? || known.value.refresh.None? then left == Some(Entry(r.bearer, None, r.verdict.expiresAt))
      else if !StrictlyNewer(r.bearer, known.value.access) then left == known
      else
        left == Some(Entry(r.bearer, known.value.refresh,
          if r.verdict.expiresAt.Some? then r.verdict.expiresAt else known.value.expiresAt))
  {
  }

  /** A request turned away leaves the store as it was; any other leaves it as the bearer does, and with the
      entry upstream renewed, if it did. */
  lemma HandledExactly(tokens: Tokens, r: Request)
    ensures Handle(tokens, r).0 ==
      if !LetPast(tokens, r) || (Expired(tokens, r) && !Refreshable(tokens, r)) then tokens
      else if RenewsUpstream(tokens, r) then
        Observed(tokens, r)[KeyOf(r) := Entry(
          r.renewal.access,
          if r.renewal.rotated.Some? then r.renewal.rotated else Observed(tokens, r)[KeyOf(r)].refresh,
          r.renewal.expiresAt)]
      else Observed(tokens, r)
  {
  }

  /** An expired bearer's request is turned away at once exactly if neither the entry it is known by nor its
      session's has refresh material. */
  lemma RefreshableExactly(tokens: Tokens, r: Request)
    requires LetPast(tokens, r)
    ensures Refreshable(tokens, r) <==>
      || (Matching(tokens, r).Some? && Matching(tokens, r).value.refresh.Some?)
      || (KeyOf(r) in tokens && tokens[KeyOf(r)].refresh.Some?)
  {
  }

  // ---------------------------------------------------------------- refresh material is kept

  predicate HoldsRefresh(tokens: Tokens, key: Key) {
    key in tokens && tokens[key].refresh.Some?
  }

  /** The bearer is the one stored under its own grant, and another one is stored for the session. */
  predicate ArrivesFromOwnGrant(tokens: Tokens, r: Request) {
    var key, grant := KeyOf(r), SessionKey(r.bearer);
    && key != grant && key in tokens && tokens[key].access != r.bearer
    && grant in tokens && tokens[grant].access == r.bearer
  }

  /** The bearer's own grant has no refresh material to bring to a session. */
  predicate AdoptsBareGrant(tokens: Tokens, r: Request) {
    ArrivesFromOwnGrant(tokens, r) && tokens[SessionKey(r.bearer)].refresh.None?
  }

  /** The bearer's own grant brings other refresh material than the session's, or an access token that
      is not the newer of the two. */
  predicate AdoptsOtherGrant(tokens: Tokens, r: Request) {
    && ArrivesFromOwnGrant(tokens, r)
    && var there, own := tokens[KeyOf(r)], tokens[SessionKey(r.bearer)];
       own.refresh != there.refresh || !StrictlyNewer(r.bearer, there.access)
  }

  /** What the store holds once the bearer has been observed, before anything is renewed upstream. */
  function Observed(tokens: Tokens, r: Request): Tokens {
    if WrongPrincipal(tokens, r) || (Matching(tokens, r).None? && r.verdict.Rejected?) then tokens
    else if Expired(tokens, r) && !Refreshable(tokens, r) then tokens
    else Stored(tokens, r)
  }

  /** Observing an expired bearer goes on to renew the entry upstream, and upstream does. */
  predicate RenewsUpstream(tokens: Tokens, r: Request) {
    var key, after := KeyOf(r), Observed(tokens, r);
    && !WrongPrincipal(tokens, r) && (Matching(tokens, r).Some? || r.verdict.Accepted?)
    && Expired(tokens, r) && Refreshable(tokens, r)
    && key in after && IsExpired(after[key], r.now) && after[key].refresh.Some? && r.renewal.Renewed?
  }

  /** Another refresh token took the place of the entry's, or an access token not issued after it. */
  predicate Downgraded(was: Entry, now: Entry) {
    now.refresh != was.refresh || (now.access != was.access && !StrictlyNewer(now.access, was.access))
  }

  /** A request takes refresh material away from an entry exactly when it adopts a bare grant onto that
      entry's session. */
  lemma RefreshLostExactly(tokens: Tokens, r: Request, key: Key)
    requires HoldsRefresh(tokens, key)
    ensures !HoldsRefresh(Handle(tokens, r).0, key) <==> key == KeyOf(r) && AdoptsBareGrant(tokens, r)
  {
  }

  /** An observed bearer downgrades the material of an entry exactly when it adopts another grant onto
      that entry's session. */
  lemma ObservedDowngradesExactly(tokens: Tokens, r: Request, key: Key)
    requires HoldsRefresh(tokens, key)
    ensures key in Observed(tokens, r)
    ensures Downgraded(tokens[key], Observed(tokens, r)[key]) <==> key == KeyOf(r) && AdoptsOtherGrant(tokens, r)
  {
  }

  /** The same for the whole request. What upstream renews is the entry the bearer left, so a refresh
      token it displaced is never the one presented. */
  lemma DowngradesExactly(tokens: Tokens, r: Request, key: Key)
    requires HoldsRefresh(tokens, key)
    ensures key in Handle(tokens, r).0
    ensures !(key == KeyOf(r) && RenewsUpstream(tokens, r)) ==>
      (Downgraded(tokens[key], Handle(tokens, r).0[key]) <==> key == KeyOf(r) && AdoptsOtherGrant(tokens, r))
    ensures key == KeyOf(r) && RenewsUpstream(tokens, r) ==>
      Handle(tokens, r).0[key] == Entry(
        r.renewal.access,
        if r.renewal.rotated.Some? then r.renewal.rotated else Observed(tokens, r)[key].refresh,
        r.renewal.expiresAt)
  {
    ObservedDowngradesExactly(tokens, r, key);
  }

  /** Without a protocol session, no bearer, however old, expired, foreign or invalid, ever does; and
      unless the upstream server rotated it, the refresh token stays the same one. */
  lemma SessionlessKeepsRefresh(tokens: Tokens, r: Request, key: Key)
    requires r.session.None? && HoldsRefresh(tokens, key)
    ensures HoldsRefresh(Handle(tokens, r).0, key)
    ensures Handle(tokens, r).0[key].refresh == tokens[key].refresh
         || (r.renewal.Renewed? && Handle(tokens, r).0[key].refresh == r.renewal.rotated)
    ensures !Downgraded(tokens[key], Observed(tokens, r)[key])
  {
    RefreshLostExactly(tokens, r, key);
    ObservedDowngradesExactly(tokens, r, key);
  }

  /** A grant refreshed on a session is undone by one late request: `t1` opens the session, is renewed
      there to `t2` with `rt2`, and arrives once more. Its own grant still holds `t1` with `rt1`, so the
      session goes back to those, and with `rt1` spent it can never be refreshed again. */
  lemma LateBearerUndoesRenewal()
    ensures var t1, t2 := Dated("t1", Some(1), 10), Dated("t2", Some(2), 1000);
      var grant, session := SessionKey(t1), Named("session");
      var opening := Request(t1, Some(session), 0, 0, Rejected, NotRenewed);
      var renewed := Request(t1, Some(session), 20_000, 20, Rejected, Renewed(t2, Some("rt2"), Some(1_000_000)));
      var late := Request(t1, Some(session), 21_000, 21, Rejected, NotRenewed);
      var start: Tokens := map[grant := Entry(t1, Some("rt1"), Some(10_000))];
      && StrictlyNewer(t2, t1)
      && Lookup(HandleAll(start, [opening, renewed]), session) == Some(Entry(t2, Some("rt2"), Some(1_000_000)))
      && !AdoptsBareGrant(HandleAll(start, [opening, renewed]), late)
      && Lookup(HandleAll(start, [opening, renewed, late]), session) == Some(Entry(t1, Some("rt1"), Some(10_000)))
      && Handle(HandleAll(start, [opening, renewed]), late).1 == Unauthorized
  {
    var t1, t2 := Dated("t1", Some(1), 10), Dated("t2", Some(2), 1000);
    var grant, session := SessionKey(t1), Named("session");
    var opening := Request(t1, Some(session), 0, 0, Rejected, NotRenewed);
    var renewed := Request(t1, Some(session), 20_000, 20, Rejected, Renewed(t2, Some("rt2"), Some(1_000_000)));
    var late := Request(t1, Some(session), 21_000, 21, Rejected, NotRenewed);
    var start: Tokens := map[grant := Entry(t1, Some("rt1"), Some(10_000))];
    assert [opening][..0] == [] && [opening, renewed][..1] == [opening];
    assert [opening, renewed, late][..2] == [opening, renewed];
    assert t1 != t2 by {
      assert t1.iat != t2.iat;
    }
    assert Handle(start, opening).0 == start[session := start[grant]];
    assert HandleAll(start, [opening]) == start[session := start[grant]];
  }

  // ---------------------------------------------------------------- a new bearer with an old refresh token

  /** The request put its bearer in the place of another one, and left it that one's refresh token. */
  predicate Combined(before: Tokens, after: Tokens, r: Request) {
    var key := KeyOf(r);
    && HoldsRefresh(before, key) && before[key].access != r.bearer
    && key in after && after[key].access == r.bearer && after[key].refresh == before[key].refresh
  }

  /** The bearer is known under its own grant with that very refresh token; or it is not known, and is a
      validated, newer one of the same principal. */
  predicate InheritsRefresh(tokens: Tokens, r: Request) {
    var key := KeyOf(r);
    && HoldsRefresh(tokens, key) && tokens[key].access != r.bearer
    && if Matching(tokens, r).Some? then Matching(tokens, r).value.refresh == tokens[key].refresh
       else SamePrincipal(r.bearer, tokens[key].access) && r.verdict.Accepted?
            && StrictlyNewer(r.bearer, tokens[key].access)
  }

  /** An observed bearer is combined with the previous one's refresh token exactly then. */
  lemma ObservedCombinesExactly(tokens: Tokens, r: Request)
    ensures Combined(tokens, Observed(tokens, r), r) <==> InheritsRefresh(tokens, r)
  {
  }

  /** The same for the whole request; and if it goes on to renew the entry upstream, the refresh token
      presented there for the new bearer is the previous one's. */
  lemma CombinesExactly(tokens: Tokens, r: Request)
    ensures !RenewsUpstream(tokens, r) ==> (Combined(tokens, Handle(tokens, r).0, r) <==> InheritsRefresh(tokens, r))
    ensures RenewsUpstream(tokens, r) && InheritsRefresh(tokens, r) ==>
      Lookup(Handle(tokens, r).0, KeyOf(r)) == Some(Entry(
        r.renewal.access,
        if r.renewal.rotated.Some? then r.renewal.rotated else tokens[KeyOf(r)].refresh,
        r.renewal.expiresAt))
  {
    ObservedCombinesExactly(tokens, r);
  }

  /** On a protocol session: a client that rotates its own token there leaves the new one with the old
      one's refresh token. */
  lemma RotationInheritsRefresh(t1: Bearer, t2: Bearer, session: Key, rt1: string, r: Request)
    requires t2.sub.Some? && t2.sub == t1.sub && StrictlyNewer(t2, t1)
    requires r.bearer == t2 && r.session == Some(session) && r.verdict == Accepted(None)
    requires !JwtIsExpired(t2, r.nowSecs)
    ensures var tokens: Tokens := map[session := Entry(t1, Some(rt1), None)];
      && InheritsRefresh(tokens, r)
      && Handle(tokens, r) == (map[session := Entry(t2, Some(rt1), None)], Allowed(t2))
  {
    var tokens: Tokens := map[session := Entry(t1, Some(rt1), None)];
    assert t1 != t2;
    assert Matching(tokens, r).None?;
    assert Stored(tokens, r) == map[session := Entry(t2, Some(rt1), None)];
  }

  // ---------------------------------------------------------------- whose session it is

  /** A stranger to the session's entry, neither its bearer nor its principal, gets past it exactly when
      its bearer is the one stored under its own grant; it then takes the entry over. */
  lemma StrangerLetOnExactly(tokens: Tokens, r: Request)
    requires KeyOf(r) in tokens && tokens[KeyOf(r)].access != r.bearer
    requires !SamePrincipal(r.bearer, tokens[KeyOf(r)].access)
    ensures !WrongPrincipal(tokens, r) <==> ArrivesFromOwnGrant(tokens, r)
    ensures !ArrivesFromOwnGrant(tokens, r) ==> Handle(tokens, r) == (tokens, Unauthorized)
    ensures Observed(tokens, r) != tokens <==>
      ArrivesFromOwnGrant(tokens, r) && (Expired(tokens, r) ==> Refreshable(tokens, r))
    ensures ArrivesFromOwnGrant(tokens, r) && !Expired(tokens, r) ==>
      Handle(tokens, r) ==
        (tokens[KeyOf(r) := tokens[SessionKey(r.bearer)]], Allowed(r.bearer))
  {
    var key := KeyOf(r);
    assert Observed(tokens, r) != tokens ==> Matching(tokens, r).Some?;
    assert ArrivesFromOwnGrant(tokens, r) && (Expired(tokens, r) ==> Refreshable(tokens, r)) ==>
      Observed(tokens, r)[key].access == r.bearer;
  }

  /** Bob, on Alice's session. */
  lemma StrangerTakesSession(
      alice: Bearer, bob: Bearer, session: Key, ra: Option<string>, rb: Option<string>, r: Request)
    requires bob.sub.Some? && bob.sub != alice.sub && SessionKey(bob) != SessionKey(alice)
    requires session != SessionKey(bob) && r.bearer == bob && r.session == Some(session)
    requires !JwtIsExpired(bob, r.nowSecs)
    ensures var tokens: Tokens := map[session := Entry(alice, ra, None), SessionKey(bob) := Entry(bob, rb, None)];
      Handle(tokens, r) == (tokens[session := Entry(bob, rb, None)], Allowed(bob))
  {
    var tokens: Tokens := map[session := Entry(alice, ra, None), SessionKey(bob) := Entry(bob, rb, None)];
    StrangerLetOnExactly(tokens, r);
  }

  /** Only the request's own session entry is ever written. */
  lemma OnlyOwnEntry(tokens: Tokens, r: Request, key: Key)
    requires key != KeyOf(r)
    ensures Lookup(Handle(tokens, r).0, key) == Lookup(tokens, key)
  {
  }

  // ---------------------------------------------------------------- arrival order does not matter

  function HandleAll(tokens: Tokens, requests: seq<Request>): Tokens {
    if requests == [] then tokens
    else Handle(HandleAll(tokens, requests[..|requests| - 1]), requests[|requests| - 1]).0
  }

  predicate LastsPast(expiresAt: Option<nat>, horizon: nat) {
    expiresAt.Some? ==> horizon + TokenRefresh.EXPIRY_BUFFER <= expiresAt.value
  }

  /** A sessionless request with a validated bearer of the grant `key`, dated, and not expired before
      `horizon`. */
  predicate IsArrival(r: Request, key: Key, horizon: nat) {
    && r.session.None? && SessionKey(r.bearer) == key && r.bearer.iat.Some?
    && r.verdict.Accepted? && LastsPast(r.verdict.expiresAt, horizon)
    && r.now <= horizon && !JwtIsExpired(r.bearer, r.nowSecs)
  }

  /** The grant's entry: dated, with refresh material, lasting past `horizon`. */
  predicate IsGrant(tokens: Tokens, key: Key, horizon: nat) {
    && HoldsRefresh(tokens, key) && SessionKey(tokens[key].access) == key && tokens[key].access.iat.Some?
    && LastsPast(tokens[key].expiresAt, horizon)
  }

  /** One arrival: the newer of the two bearers stays, with the refresh token that was there. */
  lemma ArrivalKeepsNewer(tokens: Tokens, r: Request, key: Key, horizon: nat)
    requires IsGrant(tokens, key, horizon) && IsArrival(r, key, horizon)
    ensures var after := Handle(tokens, r).0;
      && IsGrant(after, key, horizon) && after[key].refresh == tokens[key].refresh
      && after[key].access ==
           (if r.bearer.iat.value > tokens[key].access.iat.value then r.bearer else tokens[key].access)
      && Handle(tokens, r).1 == Allowed(r.bearer)
  {
  }

  function Date(b: Bearer): nat {
    if b.iat.Some? then b.iat.value else 0
  }

  /** Of the bearers seen so far, the first with the largest `iat`. */
  function Latest(first: Bearer, requests: seq<Request>): Bearer {
    if requests == [] then first
    else
      var before, last := Latest(first, requests[..|requests| - 1]), requests[|requests| - 1].bearer;
      if Date(last) > Date(before) then last else before
  }

  /** One of the bearers seen. */
  ghost predicate Seen(b: Bearer, first: Bearer, requests: seq<Request>) {
    b == first || exists r | r in requests :: r.bearer == b
  }

  lemma {:induction false} LatestIsLargest(first: Bearer, requests: seq<Request>)
    ensures var latest := Latest(first, requests);
      && Seen(latest, first, requests)
      && forall b | Seen(b, first, requests) :: Date(b) <= Date(latest)
  {
    if requests != [] {
      var front, last := requests[..|requests| - 1], requests[|requests| - 1];
      LatestIsLargest(first, front);
      assert requests == front + [last];
      assert forall b :: Seen(b, first, requests) <==> Seen(b, first, front) || b == last.bearer;
    }
  }

  lemma {:induction false} ArrivalsKeepLatest(tokens: Tokens, requests: seq<Request>, key: Key, horizon: nat)
    requires IsGrant(tokens, key, horizon) && forall r | r in requests :: IsArrival(r, key, horizon)
    ensures var after := HandleAll(tokens, requests);
      && IsGrant(after, key, horizon)
      && after[key].refresh == tokens[key].refresh
      && after[key].access == Latest(tokens[key].access, requests)
  {
    if requests != [] {
      var front := requests[..|requests| - 1];
      assert requests[|requests| - 1] in requests;
      ArrivalsKeepLatest(tokens, front, key, horizon);
      ArrivalKeepsNewer(HandleAll(tokens, front), requests[|requests| - 1], key, horizon);
    }
  }

  /** Bearers of one grant with the same date are the same bearer. */
  ghost predicate DatesDistinct(first: Bearer, requests: seq<Request>) {
    forall a, b | Seen(a, first, requests) && Seen(b, first, requests) && a.iat == b.iat :: a == b
  }

  /** Any two orders in which the same requests arrive end with the same access token, the one with the
      largest date, and the grant's own refresh token. */
  lemma ArrivalOrderIsIrrelevant(
      tokens: Tokens, requests: seq<Request>, reordered: seq<Request>, key: Key, horizon: nat)
    requires IsGrant(tokens, key, horizon) && forall r | r in requests :: IsArrival(r, key, horizon)
    requires DatesDistinct(tokens[key].access, requests) && multiset(requests) == multiset(reordered)
    ensures var a, b := HandleAll(tokens, requests), HandleAll(tokens, reordered);
      && key in a && key in b
      && a[key].access == b[key].access && a[key].refresh == b[key].refresh == tokens[key].refresh
      && Seen(a[key].access, tokens[key].access, requests)
      && forall other | Seen(other, tokens[key].access, requests) :: Date(other) <= Date(a[key].access)
  {
    var first := tokens[key].access;
    assert forall r :: r in requests <==> r in multiset(requests);
    assert forall r :: r in reordered <==> r in multiset(reordered);
    assert forall b :: Seen(b, first, requests) <==> Seen(b, first, reordered);
    ArrivalsKeepLatest(tokens, requests, key, horizon);
    ArrivalsKeepLatest(tokens, reordered, key, horizon);
    LatestIsLargest(first, requests);
    LatestIsLargest(first, reordered);
    SeenAreDated(first, requests, key, horizon);
    assert Date(Latest(first, requests)) == Date(Latest(first, reordered));
  }

  lemma SeenAreDated(first: Bearer, requests: seq<Request>, key: Key, horizon: nat)
    requires first.iat.Some? && forall r | r in requests :: IsArrival(r, key, horizon)
    ensures forall b | Seen(b, first, requests) :: b.iat.Some?
  {
  }

  // ---------------------------------------------------------------- undated bearers

  /** On dated bearers `StrictlyNewer` is the order of their dates. */
  lemma NewerOnDated(a: Bearer, b: Bearer, c: Bearer)
    requires a.iat.Some? && b.iat.Some? && c.iat.Some?
    ensures StrictlyNewer(a, b) && StrictlyNewer(b, c) ==> StrictlyNewer(a, c)
    ensures !(StrictlyNewer(a, b) && StrictlyNewer(b, a))
    ensures StrictlyNewer(a, b) || StrictlyNewer(b, a) || a.iat == b.iat
  {
  }

  function Dated(bytes: string, iat: Option<nat>, exp: nat): Bearer {
    Bearer(bytes, Some("s"), None, iat, Some(exp))
  }

  /** With undated bearers about it is not even transitive, and the order of arrival decides. */
  lemma UndatedOrderMatters()
    ensures var a, b, c := Dated("a", Some(1), 30), Dated("b", None, 20), Dated("c", Some(2), 10);
      && StrictlyNewer(a, b) && StrictlyNewer(b, c) && !StrictlyNewer(a, c)
      && var tokens: Tokens := map[BySid("s") := Entry(c, Some("r"), None)];
         var ra := Request(a, None, 0, 0, Accepted(None), NotRenewed);
         var rb := Request(b, None, 0, 0, Accepted(None), NotRenewed);
         && HandleAll(tokens, [ra, rb])[BySid("s")].access == b
         && HandleAll(tokens, [rb, ra])[BySid("s")].access == a
  {
    var a, b, c := Dated("a", Some(1), 30), Dated("b", None, 20), Dated("c", Some(2), 10);
    var tokens: Tokens := map[BySid("s") := Entry(c, Some("r"), None)];
    var ra := Request(a, None, 0, 0, Accepted(None), NotRenewed);
    var rb := Request(b, None, 0, 0, Accepted(None), NotRenewed);
    assert [ra, rb][..1] == [ra] && [ra][..0] == [] && [rb, ra][..1] == [rb] && [rb][..0] == [];
    assert HandleAll(tokens, [ra]) == tokens;
    assert HandleAll(tokens, [rb])[BySid("s")] == Entry(b, Some("r"), None);
  }
}
