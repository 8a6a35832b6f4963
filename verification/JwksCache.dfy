/** The cache of an issuer's signing keys (`src/auth/jwks.rs:125-167`, `src/auth/jwks.rs:202-232`,
    `src/auth/jwks.rs:264-342`). Times are in milliseconds. A lock serialises refreshes, so a run is a
    sequence of them; the network's answer to each is part of the run. */
module JwksCache {
  import opened Json

  const CACHE_TTL: nat := 600_000
  const COOLDOWN: nat := 60_000

  type Keys<K> = map<string, K>

  /** A published key; one this build cannot use has no `key`. */
  datatype Jwk<K> = Jwk(kid: Option<string>, key: Option<K>)

  datatype Result<T, E> = Ok(value: T) | Err(error: E)

  datatype Rejection = Unavailable(why: string) | UnknownKey

  function KidOf<K>(jwk: Jwk<K>): string {
    if jwk.kid.Some? then jwk.kid.value else ""
  }

  // ---------------------------------------------------------------- reading a key set

  function Usable<K>(jwks: seq<Jwk<K>>): (keys: Keys<K>) {
    if jwks == [] then map[]
    else
      var earlier, jwk := Usable(jwks[..|jwks| - 1]), jwks[|jwks| - 1];
      if jwk.key.Some? then earlier[KidOf(jwk) := jwk.key.value] else earlier
  }

  const NO_USABLE_KEY: string := "JWKS contains no usable key"

  /** What a fetch amounts to: an unusable key set is a failure. */
  function Fetched<K>(document: Result<seq<Jwk<K>>, string>): (r: Result<Keys<K>, string>) {
    if document.Err? then Err(document.error)
    else if Usable(document.value) == map[] then Err(NO_USABLE_KEY)
    else Ok(Usable(document.value))
  }

  method FetchKeys<K>(document: Result<seq<Jwk<K>>, string>) returns (r: Result<Keys<K>, string>)
    ensures r == Fetched(document)
  {
    if document.Err? {
      return Err(document.error);
    }
    var jwks := document.value;
    var keys: Keys<K> := map[];
    for i := 0 to |jwks|
      invariant keys == Usable(jwks[..i])
    {
      assert jwks[..i + 1][..i] == jwks[..i];
      if jwks[i].key.Some? {
        keys := keys[KidOf(jwks[i]) := jwks[i].key.value];
      }
    }
    assert jwks[..|jwks|] == jwks;
    if keys == map[] {
      return Err(NO_USABLE_KEY);
    }
    return Ok(keys);
  }

  predicate LastUsable<K>(jwks: seq<Jwk<K>>, i: nat)
    requires i < |jwks|
  {
    jwks[i].key.Some? && forall j | i < j < |jwks| :: KidOf(jwks[j]) == KidOf(jwks[i]) ==> jwks[j].key.None?
  }

  /** Under each name the set holds the last usable key published under it, and nothing else. */
  lemma {:induction false} LastUsableWins<K>(jwks: seq<Jwk<K>>, kid: string, k: K)
    ensures (kid in Usable(jwks) && Usable(jwks)[kid] == k) <==>
      exists i | 0 <= i < |jwks| :: KidOf(jwks[i]) == kid && LastUsable(jwks, i) && jwks[i].key == Some(k)
  {
    if jwks != [] {
      var n := |jwks| - 1;
      var front := jwks[..n];
      LastUsableWins(front, kid, k);
      if jwks[n].key.Some? && KidOf(jwks[n]) == kid {
        assert LastUsable(jwks, n);
      } else {
        forall i | 0 <= i < n && KidOf(jwks[i]) == kid ensures LastUsable(jwks, i) <==> LastUsable(front, i) {
          assert front[i] == jwks[i];
          if LastUsable(jwks, i) {
            forall j | i < j < n ensures KidOf(front[j]) == KidOf(front[i]) ==> front[j].key.None? {
              assert front[j] == jwks[j];
            }
          } else if LastUsable(front, i) {
            forall j | i < j < |jwks| ensures KidOf(jwks[j]) == KidOf(jwks[i]) ==> jwks[j].key.None? {
              if j < n {
                assert front[j] == jwks[j];
              }
            }
          }
        }
      }
    }
  }

  /** A key published without a name goes under the empty one. */
  lemma NamedExactly<K>(jwk: Jwk<K>, kid: string)
    ensures KidOf(jwk) == kid <==> jwk.kid == Some(kid) || (jwk.kid.None? && kid == [])
  {
  }

  // ---------------------------------------------------------------- the cache

  datatype Cache<K> = Cache(
    keys: Keys<K>, fetchedAt: Option<nat>, attemptedAt: Option<nat>, lastError: Option<string>)

  /** A visit to `refresh_keys`: the cooldown is read at `start`, and a fetch, if made, ends at `finish`. */
  datatype Visit<K> = Visit(start: nat, finish: nat, document: Result<seq<Jwk<K>>, string>)

  predicate Stale<K>(c: Cache<K>, now: nat) {
    c.fetchedAt.None? || now >= c.fetchedAt.value + CACHE_TTL
  }

  predicate Due<K>(c: Cache<K>, now: nat) {
    c.attemptedAt.None? || now >= c.attemptedAt.value + COOLDOWN
  }

  function Refreshed<K>(c: Cache<K>, v: Visit<K>): Cache<K> {
    if !Due(c, v.start) then c
    else
      match Fetched(v.document)
      case Ok(keys) => Cache(keys, Some(v.finish), Some(v.finish), None)
      case Err(e) => c.(attemptedAt := Some(v.finish), lastError := Some(e))
  }

  /** How a visit fails, if it does. */
  function Failure<K>(c: Cache<K>, v: Visit<K>): Option<string> {
    if !Due(c, v.start) then (if c.keys == map[] then c.lastError else None)
    else if Fetched(v.document).Err? then Some(Fetched(v.document).error) else None
  }

  function Held<K>(c: Cache<K>, kid: string, now: nat): Option<K> {
    if !Stale(c, now) && kid in c.keys then Some(c.keys[kid]) else None
  }

  /** The key for `kid`, as `validate` obtains it. */
  function KeyFor<K>(c: Cache<K>, kid: string, now: nat, v: Visit<K>): Result<K, Rejection> {
    if Held(c, kid, now).Some? then Ok(Held(c, kid, now).value)
    else if Failure(c, v).Some? then Err(Unavailable(Failure(c, v).value))
    else if kid in Refreshed(c, v).keys then Ok(Refreshed(c, v).keys[kid])
    else Err(UnknownKey)
  }

  class KeyCache<K> {
    var keys: Keys<K>
    var fetchedAt: Option<nat>
    var attemptedAt: Option<nat>
    var lastError: Option<string>

    function Contents(): Cache<K>
      reads this
    {
      Cache(keys, fetchedAt, attemptedAt, lastError)
    }

    constructor ()
      ensures Contents() == Cache(map[], None, None, None)
    {
      keys, fetchedAt, attemptedAt, lastError := map[], None, None, None;
    }

    method CachedKey(kid: string, now: nat) returns (key: Option<K>)
      ensures key == Held(Contents(), kid, now)
    {
      if fetchedAt.None? || now >= fetchedAt.value + CACHE_TTL {
        return None;
      }
      return if kid in keys then Some(keys[kid]) else None;
    }

    /** Makes a fetch only if the cooldown is over; `failure` says why it must be given up, if so. */
    method RefreshKeys(v: Visit<K>) returns (failure: Option<string>)
      modifies this
      ensures Contents() == Refreshed(old(Contents()), v) && failure == Failure(old(Contents()), v)
    {
      if attemptedAt.Some? && v.start < attemptedAt.value + COOLDOWN {
        return if keys == map[] then lastError else None;
      }
      var outcome := FetchKeys(v.document);
      attemptedAt := Some(v.finish);
      match outcome
      case Ok(fetched) =>
        keys, fetchedAt, lastError := fetched, Some(v.finish), None;
        return None;
      case Err(e) =>
        lastError := Some(e);
        return Some(e);
    }

    method SigningKey(kid: string, now: nat, v: Visit<K>) returns (r: Result<K, Rejection>)
      modifies this
      ensures r == KeyFor(old(Contents()), kid, now, v)
      ensures Contents() ==
        if Held(old(Contents()), kid, now).Some? then old(Contents()) else Refreshed(old(Contents()), v)
    {
      var cached := CachedKey(kid, now);
      if cached.Some? {
        return Ok(cached.value);
      }
      var failure := RefreshKeys(v);
      if failure.Some? {
        return Err(Unavailable(failure.value));
      }
      return if kid in keys then Ok(keys[kid]) else Err(UnknownKey);
    }
  }

  // ---------------------------------------------------------------- runs

  /** The visits of a run, one after another: the next one's cooldown is read after the last one ended. */
  predicate Serial<K>(run: seq<Visit<K>>) {
    && (forall i | 0 <= i < |run| :: run[i].start <= run[i].finish)
    && forall i, j | 0 <= i < j < |run| :: run[i].finish <= run[j].start
  }

  function After<K>(run: seq<Visit<K>>): Cache<K> {
    if run == [] then Cache(map[], None, None, None)
    else Refreshed(After(run[..|run| - 1]), run[|run| - 1])
  }

  /** The visits that reached the network. */
  function Attempts<K>(run: seq<Visit<K>>): seq<Visit<K>> {
    if run == [] then []
    else
      var n := |run| - 1;
      Attempts(run[..n]) + if Due(After(run[..n]), run[n].start) then [run[n]] else []
  }

  datatype Success<K> = Success(keys: Keys<K>, at: nat)

  function LastSuccess<K>(attempts: seq<Visit<K>>): Option<Success<K>> {
    if attempts == [] then None
    else
      var last := attempts[|attempts| - 1];
      match Fetched(last.document)
      case Ok(keys) => Some(Success(keys, last.finish))
      case Err(_) => LastSuccess(attempts[..|attempts| - 1])
  }

  function LastFailure<K>(attempts: seq<Visit<K>>): Option<string> {
    if attempts == [] then None
    else
      match Fetched(attempts[|attempts| - 1].document)
      case Ok(_) => None
      case Err(e) => Some(e)
  }

  function LastEnd<K>(attempts: seq<Visit<K>>): Option<nat> {
    if attempts == [] then None else Some(attempts[|attempts| - 1].finish)
  }

  /** The cache is exactly what its attempts say: the keys of the last one that succeeded, and the end
      and the error of the last one made. */
  ghost predicate Explains<K>(c: Cache<K>, attempts: seq<Visit<K>>) {
    && c.attemptedAt == LastEnd(attempts) && c.lastError == LastFailure(attempts)
    && match LastSuccess(attempts)
       case None => c.keys == map[] && c.fetchedAt == None
       case Some(success) => c.keys == success.keys && c.keys != map[] && c.fetchedAt == Some(success.at)
  }

  lemma ExplainsNext<K>(c: Cache<K>, attempts: seq<Visit<K>>, v: Visit<K>)
    requires Explains(c, attempts) && Due(c, v.start)
    ensures Explains(Refreshed(c, v), attempts + [v])
  {
    assert (attempts + [v])[..|attempts|] == attempts;
  }

  lemma {:induction false} CacheIsItsAttempts<K>(run: seq<Visit<K>>)
    ensures Explains(After(run), Attempts(run))
  {
    if run != [] {
      var n := |run| - 1;
      CacheIsItsAttempts(run[..n]);
      var before := Attempts(run[..n]);
      assert before + [] == before;
      if Due(After(run[..n]), run[n].start) {
        ExplainsNext(After(run[..n]), before, run[n]);
      }
    }
  }

  /** A visit reaches the network exactly if no attempt ended less than a minute before. */
  lemma AttemptsExactly<K>(run: seq<Visit<K>>, v: Visit<K>)
    ensures var before := Attempts(run);
      Attempts(run + [v]) ==
        if before == [] || before[|before| - 1].finish + 60_000 <= v.start then before + [v] else before
  {
    CacheIsItsAttempts(run);
    OneMore(run, v);
  }

  /** A key is answered without a visit exactly if the last successful attempt brought it and ended less than
      ten minutes ago. */
  lemma HeldExactly<K>(run: seq<Visit<K>>, kid: string, now: nat, k: K)
    ensures Held(After(run), kid, now) == Some(k) <==>
      match LastSuccess(Attempts(run))
      case None => false
      case Some(success) => now < success.at + 600_000 && kid in success.keys && success.keys[kid] == k
  {
    CacheIsItsAttempts(run);
  }

  // ---------------------------------------------------------------- how often the issuer is asked

  predicate Spaced<K>(attempts: seq<Visit<K>>) {
    forall i, j | 0 <= i < j < |attempts| :: attempts[i].finish + COOLDOWN <= attempts[j].start
  }

  predicate Forward<K>(attempts: seq<Visit<K>>) {
    forall i | 0 <= i < |attempts| :: attempts[i].start <= attempts[i].finish
  }

  /** In any run, an attempt starts at least a cooldown after the one before it ended, whether or not
      that one succeeded. */
  lemma {:induction false} AttemptsAreSpaced<K>(run: seq<Visit<K>>)
    requires Serial(run)
    ensures Spaced(Attempts(run)) && Forward(Attempts(run))
  {
    if run != [] {
      var n := |run| - 1;
      AttemptsAreSpaced(run[..n]);
      CacheIsItsAttempts(run[..n]);
      var before := Attempts(run[..n]);
      if before != [] && Due(After(run[..n]), run[n].start) {
        var last := |before| - 1;
        forall i | 0 <= i < |before| ensures before[i].finish + COOLDOWN <= run[n].start {
          assert before[i].finish <= before[last].finish;
        }
      }
    }
  }

  lemma {:induction false} SpacedApart<K>(attempts: seq<Visit<K>>, i: nat, j: nat)
    requires Spaced(attempts) && Forward(attempts) && i <= j < |attempts|
    ensures attempts[i].start + (j - i) * COOLDOWN <= attempts[j].start
  {
    if i < j {
      SpacedApart(attempts, i, j - 1);
    }
  }

  /** The attempts that start in a window of length `width`. */
  function Within<K>(attempts: seq<Visit<K>>, from: nat, width: nat): set<nat> {
    set i: nat | i < |attempts| && from <= attempts[i].start <= from + width
  }

  lemma {:induction false} InAnInterval(s: set<nat>, lo: nat, n: nat)
    requires forall i | i in s :: lo <= i < lo + n
    ensures |s| <= n
  {
    if n == 0 {
      assert s == {};
    } else {
      InAnInterval(s - {lo + n - 1}, lo, n - 1);
    }
  }

  /** So no window sees more than one attempt, and one more for each whole cooldown it lasts. */
  lemma WindowBound<K>(run: seq<Visit<K>>, from: nat, width: nat)
    requires Serial(run)
    ensures |Within(Attempts(run), from, width)| <= 1 + width / COOLDOWN
  {
    AttemptsAreSpaced(run);
    var attempts := Attempts(run);
    var seen := Within(attempts, from, width);
    if seen != {} {
      var lo := Least(seen);
      forall i | i in seen ensures lo <= i < lo + (1 + width / COOLDOWN) {
        SpacedApart(attempts, lo, i);
      }
      InAnInterval(seen, lo, 1 + width / COOLDOWN);
    }
  }

  lemma {:induction false} Least(s: set<nat>) returns (lo: nat)
    requires s != {}
    ensures lo in s && forall i | i in s :: lo <= i
  {
    var some :| some in s;
    lo := some;
    assert forall i | i in s :: i == some || i in s - {some};
    if s != {some} {
      var below := Least(s - {some});
      lo := if below < some then below else some;
    }
  }

  // ---------------------------------------------------------------- what the cache answers

  lemma OneMore<K>(run: seq<Visit<K>>, v: Visit<K>)
    ensures After(run + [v]) == Refreshed(After(run), v)
    ensures Attempts(run + [v]) == if Due(After(run), v.start) then Attempts(run) + [v] else Attempts(run)
  {
    assert (run + [v])[..|run|] == run;
  }

  /** Keys once held are only ever replaced, and only by a successful fetch; so they never run out. */
  lemma KeysOnlyReplaced<K>(run: seq<Visit<K>>, v: Visit<K>)
    ensures After(run).keys != map[] ==> Refreshed(After(run), v).keys != map[]
    ensures Refreshed(After(run), v).keys != After(run).keys ==>
      Due(After(run), v.start) && Fetched(v.document) == Ok(Refreshed(After(run), v).keys)
  {
    var fetched := Fetched(v.document);
    if fetched.Ok? {
      assert fetched.value == Usable(v.document.value);
    }
  }

  /** A held key is refused exactly when its cache has gone stale and the attempt now due either fails
      or brings a key set without it. In particular a failed attempt refuses it once, though the keys
      are kept and serve again while the cooldown lasts. */
  lemma HeldKeyRefusedExactly<K>(run: seq<Visit<K>>, kid: string, now: nat, v: Visit<K>)
    requires kid in After(run).keys
    ensures KeyFor(After(run), kid, now, v).Err? <==>
      Stale(After(run), now) && Due(After(run), v.start)
      && (Fetched(v.document).Err? || kid !in Fetched(v.document).value)
  {
  }

  lemma FailedFetchKeepsServing<K>(run: seq<Visit<K>>, kid: string, v: Visit<K>, later: nat, next: Visit<K>)
    requires kid in After(run).keys && Due(After(run), v.start) && Fetched(v.document).Err?
    requires next.start < v.finish + COOLDOWN
    ensures KeyFor(Refreshed(After(run), v), kid, later, next) == Ok(After(run).keys[kid])
  {
  }

  lemma NoSuccessYet<K>(c: Cache<K>, attempts: seq<Visit<K>>, v: Visit<K>)
    requires Explains(c, attempts) && LastSuccess(attempts).None?
    requires Due(c, v.start) ==> Fetched(v.document).Err?
    ensures Failure(c, v).Some? && c.keys == map[]
  {
  }

  /** An issuer that has never answered is reported as such, never as an unknown key. */
  lemma OutageIsNotUnknownKey<K>(run: seq<Visit<K>>, kid: string, now: nat, v: Visit<K>)
    requires LastSuccess(Attempts(run + [v])).None?
    ensures KeyFor(After(run), kid, now, v).Err? && KeyFor(After(run), kid, now, v).error.Unavailable?
  {
    CacheIsItsAttempts(run);
    OneMore(run, v);
    var attempts := Attempts(run);
    assert (attempts + [v])[..|attempts|] == attempts;
    assert (attempts + [v])[|attempts|] == v;
    NoSuccessYet(After(run), attempts, v);
  }

  /** And then it is reported with what went wrong last: at this visit, or at the last that was made. */
  lemma OutageSaysWhy<K>(run: seq<Visit<K>>, kid: string, now: nat, v: Visit<K>)
    requires KeyFor(After(run), kid, now, v).Err? && KeyFor(After(run), kid, now, v).error.Unavailable?
    ensures LastFailure(Attempts(run + [v])) == Some(KeyFor(After(run), kid, now, v).error.why)
  {
    CacheIsItsAttempts(run);
    CacheIsItsAttempts(run + [v]);
    OneMore(run, v);
  }

  /** Every key handed out comes from the last successful fetch, this visit's included. */
  lemma KeyIsFromLastSuccess<K>(run: seq<Visit<K>>, kid: string, now: nat, v: Visit<K>)
    requires KeyFor(After(run), kid, now, v).Ok?
    ensures var attempts := if Held(After(run), kid, now).Some? then Attempts(run) else Attempts(run + [v]);
      var success := LastSuccess(attempts);
      success.Some? && kid in success.value.keys && KeyFor(After(run), kid, now, v).value == success.value.keys[kid]
  {
    CacheIsItsAttempts(run);
    CacheIsItsAttempts(run + [v]);
    OneMore(run, v);
  }
}
