/** All interleavings of begins, completions and drops on one replay cache. */
module ReplayProtocol {
  import opened Replay

  /** Reservations are numbered in the order they were granted. `owner` says which reservation made an
      entry: the program does not record it, the token has to stand in for it. */
  datatype State = State(entries: Entries, owner: map<Nonce, nat>, open: map<nat, Token>, clock: u64, granted: nat)

  datatype Action =
    | Begin(nonce: Nonce, inputHash: Hash, now: u64)
    | Finish(id: nat, response: CachedResponse, now: u64, ttl: u64)
    | Abandon(id: nat)

  const Init: State := State(map[], map[], map[], 0, 0)

  /** The clock does not run backwards and has not saturated; only open reservations are used, once. */
  predicate Enabled(s: State, a: Action)
  {
    match a
    case Begin(_, _, now) => s.clock <= now < U64_MAX
    case Finish(id, _, now, _) => id in s.open && s.clock <= now
    case Abandon(id) => id in s.open
  }

  function Next(s: State, a: Action, leaseMs: u64): State
    requires Enabled(s, a)
  {
    match a
    case Begin(nonce, inputHash, now) =>
      var entries := AfterBegin(s.entries, nonce, inputHash, now, leaseMs);
      var kept := map n | n in s.owner && n in entries :: s.owner[n];
      (match BeginDecision(s.entries, nonce, inputHash, now, leaseMs)
       case Proceed(t) => State(entries, kept[nonce := s.granted], s.open[s.granted := t], now, s.granted + 1)
       case _ => State(entries, kept, s.open, now, s.granted))
    case Finish(id, response, now, ttl) =>
      s.(entries := AfterComplete(s.entries, s.open[id], response, now, ttl), open := s.open - {id}, clock := now)
    case Abandon(id) =>
      var entries := AfterDrop(s.entries, s.open[id]);
      s.(entries := entries, owner := (map n | n in s.owner && n in entries :: s.owner[n]), open := s.open - {id})
  }

  /** The reservation made the entry that now stands under its nonce. */
  predicate Owns(s: State, id: nat)
  {
    id in s.open && s.open[id].nonce in s.owner && s.owner[s.open[id].nonce] == id
  }

  // ---------------------------------------------------------------- the invariant

  ghost predicate OwnersKnown(s: State)
  {
    && s.owner.Keys == s.entries.Keys
    && (forall n :: n in s.owner ==> s.owner[n] < s.granted)
    && (forall id :: id in s.open ==> id < s.granted)
  }

  /** An entry is in flight exactly while the reservation that made it is open, and looks as it made it. */
  ghost predicate InFlightIsOwned(s: State)
    requires OwnersKnown(s)
  {
    forall n :: n in s.entries ==>
      (s.entries[n].state.InFlight? <==> s.owner[n] in s.open) &&
      (s.owner[n] in s.open ==> s.open[s.owner[n]] == Token(n, s.entries[n].inputHash, s.entries[n].expiresAt))
  }

  /** A reservation that lost its entry has outlived its lease. */
  ghost predicate OwnsOrExpired(s: State)
  {
    forall id :: id in s.open ==> Owns(s, id) || s.open[id].lease <= s.clock
  }

  /** Later reservations of a nonce have later leases. */
  ghost predicate LeasesOrdered(s: State)
  {
    forall i, j :: i in s.open && j in s.open && i < j && s.open[i].nonce == s.open[j].nonce ==>
      s.open[i].lease < s.open[j].lease
  }

  ghost predicate Inv(s: State)
  {
    OwnersKnown(s) && InFlightIsOwned(s) && OwnsOrExpired(s) && LeasesOrdered(s)
  }

  /** The token identifies the owner: no other reservation's entry can be mistaken for one's own. */
  lemma MatchIsOwnership(s: State, id: nat)
    requires Inv(s) && id in s.open
    ensures Matches(s.entries, s.open[id]) <==> Owns(s, id)
  {
    var t := s.open[id];
    if Matches(s.entries, t) {
      var o := s.owner[t.nonce];
      assert s.open[o] == t;
      assert !(o < id) && !(id < o);
    }
  }

  lemma BeginKeepsOwners(s: State, a: Action, leaseMs: u64)
    requires Inv(s) && a.Begin? && Enabled(s, a)
    ensures OwnersKnown(Next(s, a, leaseMs)) && InFlightIsOwned(Next(s, a, leaseMs))
  {
    var live := Retain(s.entries, a.now);
    assert forall n :: n in live ==> n in s.entries && live[n] == s.entries[n];
  }

  lemma BeginKeepsOwnsOrExpired(s: State, a: Action, leaseMs: u64)
    requires Inv(s) && a.Begin? && Enabled(s, a)
    ensures OwnsOrExpired(Next(s, a, leaseMs))
  {
    var s' := Next(s, a, leaseMs);
    forall id | id in s.open
      ensures Owns(s', id) || s.open[id].lease <= s'.clock
    {
      var n := s.open[id].nonce;
      if Owns(s, id) && s.open[id].lease > a.now {
        assert s.entries[n].state.InFlight? && s.entries[n].expiresAt > a.now;
        assert n in Retain(s.entries, a.now);
      }
    }
  }

  /** This is where the clock must not saturate and the lease must not be empty. */
  lemma BeginKeepsLeasesOrdered(s: State, a: Action, leaseMs: u64)
    requires Inv(s) && a.Begin? && Enabled(s, a) && leaseMs >= 1
    ensures LeasesOrdered(Next(s, a, leaseMs))
  {
    if BeginDecision(s.entries, a.nonce, a.inputHash, a.now, leaseMs).Proceed? {
      forall i | i in s.open && s.open[i].nonce == a.nonce
        ensures s.open[i].lease <= a.now
      {
        assert Owns(s, i) || s.open[i].lease <= s.clock;
        if Owns(s, i) {
          assert s.entries[a.nonce].state.InFlight?;
          assert a.nonce !in Retain(s.entries, a.now);
        }
      }
      assert SaturatingAdd(a.now, leaseMs) > a.now;
    }
  }

  lemma BeginKeepsInv(s: State, a: Action, leaseMs: u64)
    requires Inv(s) && a.Begin? && Enabled(s, a) && leaseMs >= 1
    ensures Inv(Next(s, a, leaseMs))
  {
    BeginKeepsOwners(s, a, leaseMs);
    BeginKeepsOwnsOrExpired(s, a, leaseMs);
    BeginKeepsLeasesOrdered(s, a, leaseMs);
  }

  lemma FinishKeepsInv(s: State, a: Action, leaseMs: u64)
    requires Inv(s) && a.Finish? && Enabled(s, a)
    ensures Inv(Next(s, a, leaseMs))
  {
    MatchIsOwnership(s, a.id);
  }

  lemma AbandonKeepsInv(s: State, a: Action, leaseMs: u64)
    requires Inv(s) && a.Abandon? && Enabled(s, a)
    ensures Inv(Next(s, a, leaseMs))
  {
    MatchIsOwnership(s, a.id);
  }

  // ---------------------------------------------------------------- runs

  datatype Run = Run(leaseMs: u64, states: seq<State>, actions: seq<Action>)

  ghost predicate IsRun(r: Run)
  {
    && r.leaseMs >= 1
    && |r.states| == |r.actions| + 1
    && r.states[0] == Init
    && forall i :: 0 <= i < |r.actions| ==>
         Enabled(r.states[i], r.actions[i]) && r.states[i + 1] == Next(r.states[i], r.actions[i], r.leaseMs)
  }

  lemma {:induction false} RunKeepsInv(r: Run, i: nat)
    requires IsRun(r) && i < |r.states|
    ensures Inv(r.states[i])
  {
    if i > 0 {
      RunKeepsInv(r, i - 1);
      var s, a := r.states[i - 1], r.actions[i - 1];
      match a {
        case Begin(_, _, _) => BeginKeepsInv(s, a, r.leaseMs);
        case Finish(_, _, _, _) => FinishKeepsInv(s, a, r.leaseMs);
        case Abandon(_) => AbandonKeepsInv(s, a, r.leaseMs);
      }
    }
  }

  /** In every reachable state an outstanding reservation owns its nonce's in-flight entry or its lease
      is over, no two reservations own one nonce, and the token recognises exactly the owner. */
  lemma ReservationsAreSafe(r: Run, i: nat, id: nat)
    requires IsRun(r) && i < |r.states| && id in r.states[i].open
    ensures var s := r.states[i];
      && (Owns(s, id) || s.open[id].lease <= s.clock)
      && (Owns(s, id) <==> Matches(s.entries, s.open[id]))
      && (forall other :: Owns(s, other) && Owns(s, id) && s.open[other].nonce == s.open[id].nonce ==> other == id)
  {
    RunKeepsInv(r, i);
    MatchIsOwnership(r.states[i], id);
  }

  /** A completion or a drop by a reservation that lost its entry changes nothing in the map. */
  lemma StrangersChangeNothing(r: Run, i: nat)
    requires IsRun(r) && i < |r.actions| && !r.actions[i].Begin?
    requires !Owns(r.states[i], r.actions[i].id)
    ensures r.states[i + 1].entries == r.states[i].entries
  {
    RunKeepsInv(r, i);
    MatchIsOwnership(r.states[i], r.actions[i].id);
  }

  function DecisionAt(r: Run, i: nat): Decision
    requires i < |r.actions| && |r.states| == |r.actions| + 1 && r.actions[i].Begin?
  {
    var a := r.actions[i];
    BeginDecision(r.states[i].entries, a.nonce, a.inputHash, a.now, r.leaseMs)
  }

  /** Step `j` stored `response` for the nonce and hash, to be kept until `expiry`. */
  ghost predicate StoredAt(r: Run, j: nat, nonce: Nonce, inputHash: Hash, response: CachedResponse, expiry: u64)
    requires IsRun(r) && j < |r.actions|
  {
    && r.actions[j].Finish? && Owns(r.states[j], r.actions[j].id)
    && r.states[j].open[r.actions[j].id].nonce == nonce
    && r.states[j].open[r.actions[j].id].inputHash == inputHash
    && r.actions[j].response == response
    && expiry == SaturatingAdd(r.actions[j].now, r.actions[j].ttl)
  }

  /** A completed entry was there before, unless the step stored it. */
  lemma CompleteWasThere(s: State, a: Action, leaseMs: u64, nonce: Nonce)
    requires Inv(s) && Enabled(s, a)
    requires nonce in Next(s, a, leaseMs).entries && Next(s, a, leaseMs).entries[nonce].state.Complete?
    requires !(a.Finish? && Owns(s, a.id) && s.open[a.id].nonce == nonce)
    ensures nonce in s.entries && s.entries[nonce] == Next(s, a, leaseMs).entries[nonce]
  {
    if !a.Begin? {
      MatchIsOwnership(s, a.id);
    }
  }

  lemma {:induction false} CompleteEntriesWereStored(r: Run, i: nat, nonce: Nonce)
    requires IsRun(r) && i < |r.states|
    requires nonce in r.states[i].entries && r.states[i].entries[nonce].state.Complete?
    ensures var e := r.states[i].entries[nonce];
      exists j :: 0 <= j < i && StoredAt(r, j, nonce, e.inputHash, e.state.response, e.expiresAt)
  {
    var e := r.states[i].entries[nonce];
    var s, a := r.states[i - 1], r.actions[i - 1];
    RunKeepsInv(r, i - 1);
    if a.Finish? && Owns(s, a.id) && s.open[a.id].nonce == nonce {
      FinishStores(s, a, r.leaseMs);
      assert StoredAt(r, i - 1, nonce, e.inputHash, e.state.response, e.expiresAt);
    } else {
      CompleteWasThere(s, a, r.leaseMs, nonce);
      CompleteEntriesWereStored(r, i - 1, nonce);
    }
  }

  /** Every answer from the cache was stored earlier, by the reservation that owned the nonce, for the
      same input, and has not expired. */
  lemma ReturnsWereStored(r: Run, i: nat)
    requires IsRun(r) && i < |r.actions| && r.actions[i].Begin? && DecisionAt(r, i).Return?
    ensures exists j, expiry: u64 ::
              && 0 <= j < i && r.actions[i].now < expiry
              && StoredAt(r, j, r.actions[i].nonce, r.actions[i].inputHash, DecisionAt(r, i).response, expiry)
  {
    var nonce := r.actions[i].nonce;
    CompleteEntriesWereStored(r, i, nonce);
    var e := r.states[i].entries[nonce];
    var j :| 0 <= j < i && StoredAt(r, j, nonce, e.inputHash, e.state.response, e.expiresAt);
  }

  /** The run asks for the nonce with another input between two steps. */
  ghost predicate OtherInputBetween(r: Run, j: nat, i: nat, nonce: Nonce, inputHash: Hash)
    requires i <= |r.actions|
  {
    exists k :: j < k < i && r.actions[k].Begin? && r.actions[k].nonce == nonce && r.actions[k].inputHash != inputHash
  }

  lemma {:induction false} ClockMonotone(r: Run, j: nat, i: nat)
    requires IsRun(r) && j <= i < |r.states|
    ensures r.states[j].clock <= r.states[i].clock
  {
    if j < i {
      ClockMonotone(r, j, i - 1);
    }
  }

  lemma FinishStores(s: State, a: Action, leaseMs: u64)
    requires Inv(s) && a.Finish? && Enabled(s, a) && Owns(s, a.id)
    ensures var t := s.open[a.id]; var s' := Next(s, a, leaseMs);
      t.nonce in s'.entries &&
      s'.entries[t.nonce] == ReplayEntry(t.inputHash, SaturatingAdd(a.now, a.ttl), Complete(a.response))
  {
    MatchIsOwnership(s, a.id);
  }

  lemma CompleteStepKeeps(s: State, a: Action, leaseMs: u64, nonce: Nonce)
    requires Enabled(s, a) && nonce in s.entries && s.entries[nonce].state.Complete?
    requires Next(s, a, leaseMs).clock < s.entries[nonce].expiresAt
    requires a.Begin? && a.nonce == nonce ==> a.inputHash == s.entries[nonce].inputHash
    ensures nonce in Next(s, a, leaseMs).entries && Next(s, a, leaseMs).entries[nonce] == s.entries[nonce]
  {
    if a.Begin? {
      assert nonce in Retain(s.entries, a.now);
    }
  }

  lemma NoOtherInput(r: Run, j: nat, i: nat, nonce: Nonce, inputHash: Hash)
    requires j + 1 < i <= |r.actions| && !OtherInputBetween(r, j, i, nonce, inputHash)
    ensures !OtherInputBetween(r, j, i - 1, nonce, inputHash)
    ensures r.actions[i - 1].Begin? && r.actions[i - 1].nonce == nonce ==> r.actions[i - 1].inputHash == inputHash
  {
  }

  lemma {:induction false} StoredStays(r: Run, j: nat, i: nat, nonce: Nonce, inputHash: Hash,
      response: CachedResponse, expiry: u64)
    requires IsRun(r) && j < i < |r.states| && StoredAt(r, j, nonce, inputHash, response, expiry)
    requires r.states[i].clock < expiry && !OtherInputBetween(r, j, i, nonce, inputHash)
    ensures nonce in r.states[i].entries
    ensures r.states[i].entries[nonce] == ReplayEntry(inputHash, expiry, Complete(response))
  {
    var s, a := r.states[i - 1], r.actions[i - 1];
    if j == i - 1 {
      RunKeepsInv(r, j);
      FinishStores(s, a, r.leaseMs);
    } else {
      ClockMonotone(r, i - 1, i);
      NoOtherInput(r, j, i, nonce, inputHash);
      StoredStays(r, j, i - 1, nonce, inputHash, response, expiry);
      CompleteStepKeeps(s, a, r.leaseMs, nonce);
    }
  }

  /** Until it expires, a stored response answers every repetition of its request, unless the nonce was
      asked for with another input in between: the tool is not run again. */
  lemma StoredIsReturned(r: Run, j: nat, i: nat, nonce: Nonce, inputHash: Hash, response: CachedResponse, expiry: u64)
    requires IsRun(r) && j < i < |r.actions| && StoredAt(r, j, nonce, inputHash, response, expiry)
    requires r.actions[i].Begin? && r.actions[i].nonce == nonce && r.actions[i].inputHash == inputHash
    requires r.actions[i].now < expiry && !OtherInputBetween(r, j, i, nonce, inputHash)
    ensures DecisionAt(r, i) == Return(response)
  {
    assert Enabled(r.states[i], r.actions[i]);
    StoredStays(r, j, i, nonce, inputHash, response, expiry);
  }
}
