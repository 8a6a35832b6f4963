/** Pruning the connected peers after a change notification (`src/capability/registry.rs:558-579`).
    How each peer answers is an input: closed, notified, or failed. */
module PeerRegistry {
  datatype Answer = Closed | Notified | Failed

  function SwapRemove<P>(s: seq<P>, i: nat): seq<P>
    requires i < |s|
  {
    s[i := s[|s| - 1]][..|s| - 1]
  }

  /** The peers that stay, with multiplicity. */
  function Kept<P>(peers: seq<P>, answers: seq<Answer>): seq<P>
    requires |peers| == |answers|
  {
    if peers == [] then []
    else (if answers[0].Notified? then [peers[0]] else []) + Kept(peers[1..], answers[1..])
  }

  /** The connections of one peer that were notified. */
  function Notifications<P(==)>(peers: seq<P>, answers: seq<Answer>, p: P): set<nat>
    requires |peers| == |answers|
  {
    set i: nat | i < |peers| && peers[i] == p && answers[i].Notified?
  }

  lemma {:induction false} KeptLast<P>(peers: seq<P>, answers: seq<Answer>)
    requires |peers| == |answers| > 0
    ensures var n := |peers| - 1;
      Kept(peers, answers) == Kept(peers[..n], answers[..n]) + if answers[n].Notified? then [peers[n]] else []
  {
    var n := |peers| - 1;
    if n > 0 {
      KeptLast(peers[1..], answers[1..]);
      assert peers[..n][1..] == peers[1..][..n - 1] && answers[..n][1..] == answers[1..][..n - 1];
    }
  }

  lemma NotificationsLast<P>(peers: seq<P>, answers: seq<Answer>, p: P)
    requires |peers| == |answers| > 0
    ensures var n := |peers| - 1;
      |Notifications(peers, answers, p)| ==
        |Notifications(peers[..n], answers[..n], p)| + if answers[n].Notified? && peers[n] == p then 1 else 0
  {
    var n: nat := |peers| - 1;
    assert Notifications(peers, answers, p) ==
      Notifications(peers[..n], answers[..n], p) + if answers[n].Notified? && peers[n] == p then {n} else {};
  }

  /** Every peer stays connected as many times as it was notified. */
  lemma {:induction false} KeptExactly<P>(peers: seq<P>, answers: seq<Answer>, p: P)
    requires |peers| == |answers|
    ensures multiset(Kept(peers, answers))[p] == |Notifications(peers, answers, p)|
  {
    if peers != [] {
      var n := |peers| - 1;
      KeptExactly(peers[..n], answers[..n], p);
      KeptLast(peers, answers);
      NotificationsLast(peers, answers, p);
    }
  }

  /** The indices of the others, in ascending order. */
  function Doomed(answers: seq<Answer>): seq<nat> {
    if answers == [] then []
    else
      var n := |answers| - 1;
      Doomed(answers[..n]) + if answers[n].Notified? then [] else [n]
  }

  class Registry<P(==)> {
    var peers: seq<P>

    constructor ()
      ensures peers == []
    {
      peers := [];
    }

    /** Keeps exactly the peers that were notified, with multiplicity, and leaves those before the first
        loss where they were. */
    method NotifyPeers(answers: seq<Answer>)
      requires |answers| == |peers|
      modifies this
      ensures multiset(peers) == multiset(Kept(old(peers), answers))
      ensures forall n: nat | n <= |answers| && (forall j | 0 <= j < n :: answers[j].Notified?) ::
        n <= |peers| && peers[..n] == old(peers)[..n]
    {
      var toRemove: seq<nat> := [];
      for i := 0 to |peers|
        invariant toRemove == Doomed(answers[..i])
      {
        assert answers[..i + 1][..i] == answers[..i];
        if answers[i].Closed? {
          toRemove := toRemove + [i];
          continue;
        }
        if answers[i].Failed? {
          toRemove := toRemove + [i];
        }
      }
      ghost var b: nat := |answers|;
      NothingPruned(peers, answers);
      for k := |toRemove| downto 0
        invariant b <= |answers| && toRemove[..k] == Doomed(answers[..b])
        invariant Pruned(old(peers), peers, answers, b) && (b < |answers| ==> !answers[b].Notified?)
      {
        LastDoomed(answers, b);
        var i := toRemove[k];
        assert i == toRemove[..k + 1][k];
        PruneOne(old(peers), peers, answers, i, b);
        peers := SwapRemove(peers, i);
        assert toRemove[..k + 1][..k] == toRemove[..k];
        b := i;
      }
      AllPruned(old(peers), peers, answers, b);
      PrefixStays(old(peers), peers, answers, b);
    }
  }

  /** Halfway through: below `b` nothing has moved, and the rest is the survivors from `b` on. */
  ghost predicate Pruned<P>(was: seq<P>, now: seq<P>, answers: seq<Answer>, b: nat) {
    && |was| == |answers| && b <= |was| && b <= |now|
    && now[..b] == was[..b]
    && multiset(now[b..]) == multiset(Kept(was[b..], answers[b..]))
  }

  lemma NothingPruned<P>(peers: seq<P>, answers: seq<Answer>)
    requires |peers| == |answers|
    ensures Pruned(peers, peers, answers, |answers|)
    ensures answers[..|answers|] == answers
  {
  }

  predicate AllNotified(answers: seq<Answer>, from: nat, to: nat)
    requires to <= |answers|
  {
    forall j | from <= j < to :: answers[j].Notified?
  }

  /** The last index collected below `b` is in range, and everybody between it and `b` survives. */
  lemma {:induction false} LastDoomed(answers: seq<Answer>, b: nat)
    requires b <= |answers|
    ensures var doomed := Doomed(answers[..b]);
      if doomed == [] then AllNotified(answers, 0, b)
      else
        var i := doomed[|doomed| - 1];
        && i < b && !answers[i].Notified? && AllNotified(answers, i + 1, b)
        && doomed[..|doomed| - 1] == Doomed(answers[..i])
  {
    if b > 0 {
      assert answers[..b][..b - 1] == answers[..b - 1];
      LastDoomed(answers, b - 1);
    }
  }

  lemma {:induction false} KeptAll<P>(peers: seq<P>, answers: seq<Answer>, i: nat, b: nat)
    requires |peers| == |answers| && i <= b <= |peers| && AllNotified(answers, i, b)
    ensures Kept(peers[i..], answers[i..]) == peers[i..b] + Kept(peers[b..], answers[b..])
    decreases b - i
  {
    if i < b {
      KeptAll(peers, answers, i + 1, b);
      assert peers[i..][1..] == peers[i + 1..] && answers[i..][1..] == answers[i + 1..];
      assert peers[i..b] == [peers[i]] + peers[i + 1..b];
    }
  }

  lemma FillFirst<P>(s: seq<P>)
    requires s != []
    ensures multiset(SwapRemove(s, 0)) == multiset(s[1..])
  {
    var n := |s| - 1;
    if n > 0 {
      assert SwapRemove(s, 0) == [s[n]] + s[1..n];
      assert s[1..] == s[1..n] + [s[n]];
    }
  }

  lemma SwapInSuffix<P>(s: seq<P>, i: nat)
    requires i < |s|
    ensures SwapRemove(s, i)[i..] == SwapRemove(s[i..], 0) && SwapRemove(s, i)[..i] == s[..i]
  {
  }

  lemma AfterFirst<P>(was: seq<P>, now: seq<P>, i: nat, b: nat)
    requires i < b <= |was| && b <= |now| && now[..b] == was[..b]
    ensures now[i..][1..] == was[i + 1..b] + now[b..] && now[..i] == was[..i]
  {
    assert now[..b][i + 1..] == was[..b][i + 1..];
    assert now[..b][..i] == was[..b][..i];
  }

  /** Removing the greatest index still to go keeps the rest in order: it is in range, and what fills
      its place is a survivor. */
  lemma PruneOne<P>(was: seq<P>, now: seq<P>, answers: seq<Answer>, i: nat, b: nat)
    requires Pruned(was, now, answers, b) && i < b && !answers[i].Notified? && AllNotified(answers, i + 1, b)
    ensures Pruned(was, SwapRemove(now, i), answers, i)
  {
    KeptAll(was, answers, i + 1, b);
    KeptWithout(was, answers, i);
    FillFirst(now[i..]);
    SwapInSuffix(now, i);
    AfterFirst(was, now, i, b);
  }

  lemma KeptWithout<P>(peers: seq<P>, answers: seq<Answer>, i: nat)
    requires |peers| == |answers| && i < |peers| && !answers[i].Notified?
    ensures Kept(peers[i..], answers[i..]) == Kept(peers[i + 1..], answers[i + 1..])
  {
    assert peers[i..][1..] == peers[i + 1..] && answers[i..][1..] == answers[i + 1..];
  }

  lemma PrefixStays<P>(was: seq<P>, now: seq<P>, answers: seq<Answer>, b: nat)
    requires |was| == |answers| && b <= |was| && b <= |now| && now[..b] == was[..b]
    requires b < |answers| ==> !answers[b].Notified?
    ensures forall n: nat | n <= |answers| && (forall j | 0 <= j < n :: answers[j].Notified?) ::
      n <= |now| && now[..n] == was[..n]
  {
    forall n: nat | n <= |answers| && (forall j | 0 <= j < n :: answers[j].Notified?)
      ensures n <= |now| && now[..n] == was[..n]
    {
      assert n <= b;
      assert now[..n] == now[..b][..n] && was[..n] == was[..b][..n];
    }
  }

  lemma AllPruned<P>(was: seq<P>, now: seq<P>, answers: seq<Answer>, b: nat)
    requires Pruned(was, now, answers, b) && Doomed(answers[..b]) == []
    ensures multiset(now) == multiset(Kept(was, answers))
  {
    LastDoomed(answers, b);
    KeptAll(was, answers, 0, b);
    assert was[0..] == was && answers[0..] == answers && was[0..b] == was[..b];
    assert now == now[..b] + now[b..];
  }
}
