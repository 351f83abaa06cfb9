/** Lazy eviction against an eager cache that serves one nonce alone. */
module ReplayEager {
  import opened Replay
  import opened ReplayProtocol

  datatype Slot = Vacant | Held(entry: ReplayEntry)

  /** What is left of a slot at a given time. */
  function Purge(slot: Slot, now: u64): Slot
  {
    if slot.Held? && slot.entry.expiresAt > now then slot else Vacant
  }

  // ---------------------------------------------------------------- the eager cache

  function EagerDecision(slot: Slot, nonce: Nonce, inputHash: Hash, now: u64, leaseMs: u64): Decision
  {
    match Purge(slot, now)
    case Held(ReplayEntry(h, _, Complete(response))) =>
      if h == inputHash then Return(response) else Proceed(Token(nonce, inputHash, SaturatingAdd(now, leaseMs)))
    case Held(ReplayEntry(_, _, InFlight)) => Busy
    case Vacant => Proceed(Token(nonce, inputHash, SaturatingAdd(now, leaseMs)))
  }

  function EagerBegin(slot: Slot, nonce: Nonce, inputHash: Hash, now: u64, leaseMs: u64): Slot
  {
    match EagerDecision(slot, nonce, inputHash, now, leaseMs)
    case Proceed(t) => Held(ReplayEntry(inputHash, t.lease, InFlight))
    case _ => Purge(slot, now)
  }

  predicate SlotMatches(slot: Slot, t: Token)
  {
    slot == Held(ReplayEntry(t.inputHash, t.lease, InFlight))
  }

  function EagerFinish(slot: Slot, t: Token, response: CachedResponse, now: u64, ttl: u64): Slot
  {
    if SlotMatches(Purge(slot, now), t) then Held(ReplayEntry(t.inputHash, SaturatingAdd(now, ttl), Complete(response)))
    else Purge(slot, now)
  }

  function EagerAbandon(slot: Slot, t: Token): Slot
  {
    if SlotMatches(slot, t) then Vacant else slot
  }

  predicate Concerns(s: State, a: Action, nonce: Nonce)
  {
    match a
    case Begin(n, _, _) => n == nonce
    case Finish(id, _, _, _) => id in s.open && s.open[id].nonce == nonce
    case Abandon(id) => id in s.open && s.open[id].nonce == nonce
  }

  function EagerNext(slot: Slot, s: State, a: Action, nonce: Nonce, leaseMs: u64): Slot
    requires Concerns(s, a, nonce)
  {
    match a
    case Begin(n, h, now) => EagerBegin(slot, n, h, now, leaseMs)
    case Finish(id, response, now, ttl) => EagerFinish(slot, s.open[id], response, now, ttl)
    case Abandon(id) => EagerAbandon(slot, s.open[id])
  }

  /** The eager cache of one nonce after the first `i` steps of a run: it sees that nonce's steps only. */
  ghost function EagerAt(r: Run, nonce: Nonce, i: nat): Slot
    requires |r.states| == |r.actions| + 1 && i < |r.states|
  {
    if i == 0 then Vacant
    else if Concerns(r.states[i - 1], r.actions[i - 1], nonce) then
      EagerNext(EagerAt(r, nonce, i - 1), r.states[i - 1], r.actions[i - 1], nonce, r.leaseMs)
    else EagerAt(r, nonce, i - 1)
  }

  // ---------------------------------------------------------------- simulation

  function SlotOf(entries: Entries, nonce: Nonce): Slot
  {
    if nonce in entries then Held(entries[nonce]) else Vacant
  }

  /** Every completion happens before the lease of its reservation expires. */
  ghost predicate FinishesInTime(r: Run)
    requires |r.states| == |r.actions| + 1
  {
    forall i :: 0 <= i < |r.actions| && r.actions[i].Finish? && r.actions[i].id in r.states[i].open ==>
      r.actions[i].now < r.states[i].open[r.actions[i].id].lease
  }

  lemma PurgeLater(a: Slot, b: Slot, now: u64, later: u64)
    requires Purge(a, now) == Purge(b, now) && now <= later
    ensures Purge(a, later) == Purge(b, later)
  {
  }

  lemma RetainIsPurge(entries: Entries, nonce: Nonce, now: u64)
    ensures SlotOf(Retain(entries, now), nonce) == Purge(SlotOf(entries, nonce), now)
  {
  }

  lemma BeginAgrees(s: State, a: Action, slot: Slot, leaseMs: u64)
    requires a.Begin? && Enabled(s, a)
    requires Purge(SlotOf(s.entries, a.nonce), s.clock) == Purge(slot, s.clock)
    ensures BeginDecision(s.entries, a.nonce, a.inputHash, a.now, leaseMs) ==
        EagerDecision(slot, a.nonce, a.inputHash, a.now, leaseMs)
    ensures SlotOf(Next(s, a, leaseMs).entries, a.nonce) == EagerBegin(slot, a.nonce, a.inputHash, a.now, leaseMs)
  {
    PurgeLater(SlotOf(s.entries, a.nonce), slot, s.clock, a.now);
    RetainIsPurge(s.entries, a.nonce, a.now);
  }

  /** One step keeps the lazy map and the eager slot equal as far as anything unexpired is concerned. */
  lemma StepAgrees(s: State, a: Action, nonce: Nonce, slot: Slot, leaseMs: u64)
    requires Enabled(s, a)
    requires a.Finish? && Concerns(s, a, nonce) ==> a.now < s.open[a.id].lease
    requires Purge(SlotOf(s.entries, nonce), s.clock) == Purge(slot, s.clock)
    ensures var s' := Next(s, a, leaseMs);
      var slot' := if Concerns(s, a, nonce) then EagerNext(slot, s, a, nonce, leaseMs) else slot;
      Purge(SlotOf(s'.entries, nonce), s'.clock) == Purge(slot', s'.clock)
  {
    var s' := Next(s, a, leaseMs);
    PurgeLater(SlotOf(s.entries, nonce), slot, s.clock, s'.clock);
    match a {
      case Begin(n, h, now) =>
        RetainIsPurge(s.entries, nonce, now);
        if n == nonce {
          BeginAgrees(s, a, slot, leaseMs);
        }
      case Finish(id, response, now, ttl) =>
      case Abandon(id) =>
    }
  }

  lemma {:induction false} LazyFollowsEager(r: Run, nonce: Nonce, i: nat)
    requires IsRun(r) && FinishesInTime(r) && i < |r.states|
    ensures Purge(SlotOf(r.states[i].entries, nonce), r.states[i].clock) ==
        Purge(EagerAt(r, nonce, i), r.states[i].clock)
  {
    if i > 0 {
      LazyFollowsEager(r, nonce, i - 1);
      StepAgrees(r.states[i - 1], r.actions[i - 1], nonce, EagerAt(r, nonce, i - 1), r.leaseMs);
    }
  }

  /** When completions keep their leases, no decision reveals that eviction is lazy and global: every
      begin is answered as by an eager cache that knows nothing but this nonce. */
  lemma LazyEvictionIsUnobservable(r: Run, i: nat)
    requires IsRun(r) && FinishesInTime(r) && i < |r.actions| && r.actions[i].Begin?
    ensures var a := r.actions[i];
      DecisionAt(r, i) == EagerDecision(EagerAt(r, a.nonce, i), a.nonce, a.inputHash, a.now, r.leaseMs)
  {
    LazyFollowsEager(r, r.actions[i].nonce, i);
    BeginAgrees(r.states[i], r.actions[i], EagerAt(r, r.actions[i].nonce, i), r.leaseMs);
  }

  // ---------------------------------------------------------------- exactly when eviction is observable

  /** A begin is answered as by the eager cache. */
  ghost predicate AgreesAt(r: Run, i: nat)
    requires IsRun(r) && i < |r.actions|
  {
    var a := r.actions[i];
    a.Begin? ==> DecisionAt(r, i) == EagerDecision(EagerAt(r, a.nonce, i), a.nonce, a.inputHash, a.now, r.leaseMs)
  }

  ghost predicate AgreeBefore(r: Run, i: nat)
    requires IsRun(r) && i <= |r.actions|
  {
    forall k :: 0 <= k < i ==> AgreesAt(r, k)
  }

  /** Step `j` stored a response for the nonce and hash when the owner's lease was over. */
  ghost predicate StoredLate(r: Run, j: nat, nonce: Nonce, inputHash: Hash)
    requires IsRun(r) && j < |r.actions|
  {
    && r.actions[j].Finish? && StoredAt(r, j, nonce, inputHash, r.actions[j].response, ExpiryOf(r.actions[j]))
    && r.actions[j].now >= r.states[j].open[r.actions[j].id].lease
  }

  function ExpiryOf(a: Action): u64
    requires a.Finish?
  {
    SaturatingAdd(a.now, a.ttl)
  }

  /** The begin at `i` repeats the request whose response was stored late at `j`, before that expires and
      with no other input for the nonce in between. */
  ghost predicate Reveals(r: Run, j: nat, i: nat)
    requires IsRun(r) && j < i < |r.actions|
  {
    var a := r.actions[i];
    && a.Begin? && StoredLate(r, j, a.nonce, a.inputHash)
    && a.now < ExpiryOf(r.actions[j]) && !OtherInputBetween(r, j, i, a.nonce, a.inputHash)
  }

  /** As far as anything unexpired is concerned, the two caches hold the same for the nonce. */
  ghost predicate InStep(r: Run, nonce: Nonce, i: nat)
    requires IsRun(r) && i < |r.states|
  {
    Purge(SlotOf(r.states[i].entries, nonce), r.states[i].clock) == Purge(EagerAt(r, nonce, i), r.states[i].clock)
  }

  /** The lazy cache holds the response stored late at `j`, the eager one nothing. */
  ghost predicate HoldsLate(r: Run, nonce: Nonce, i: nat, j: nat)
    requires IsRun(r) && j < i < |r.states|
  {
    var entries := r.states[i].entries;
    && nonce in entries && StoredLate(r, j, nonce, entries[nonce].inputHash)
    && entries[nonce] == ReplayEntry(entries[nonce].inputHash, ExpiryOf(r.actions[j]), Complete(r.actions[j].response))
    && Purge(EagerAt(r, nonce, i), r.states[i].clock) == Vacant
    && !OtherInputBetween(r, j, i, nonce, entries[nonce].inputHash)
  }

  ghost predicate Tracked(r: Run, nonce: Nonce, i: nat)
    requires IsRun(r) && i < |r.states|
  {
    InStep(r, nonce, i) || exists j :: 0 <= j < i && HoldsLate(r, nonce, i, j)
  }

  /** A completion after its lease leaves nothing in the eager cache that was not there. */
  lemma EagerRefusesLate(slot: Slot, t: Token, response: CachedResponse, now: u64, ttl: u64)
    requires t.lease <= now
    ensures EagerFinish(slot, t, response, now, ttl) == Purge(slot, now)
  {
  }

  lemma LateFinishTracked(r: Run, nonce: Nonce, i: nat)
    requires IsRun(r) && i < |r.actions| && InStep(r, nonce, i)
    requires r.actions[i].Finish? && Concerns(r.states[i], r.actions[i], nonce)
    requires r.actions[i].now >= r.states[i].open[r.actions[i].id].lease
    ensures Tracked(r, nonce, i + 1)
  {
    var s, a := r.states[i], r.actions[i];
    var t := s.open[a.id];
    RunKeepsInv(r, i);
    MatchIsOwnership(s, a.id);
    EagerRefusesLate(EagerAt(r, nonce, i), t, a.response, a.now, a.ttl);
    PurgeLater(SlotOf(s.entries, nonce), EagerAt(r, nonce, i), s.clock, a.now);
    if Owns(s, a.id) {
      assert HoldsLate(r, nonce, i + 1, i);
    } else {
      assert InStep(r, nonce, i + 1);
    }
  }

  lemma InStepTracked(r: Run, nonce: Nonce, i: nat)
    requires IsRun(r) && i < |r.actions| && InStep(r, nonce, i)
    ensures Tracked(r, nonce, i + 1)
  {
    var s, a := r.states[i], r.actions[i];
    if a.Finish? && Concerns(s, a, nonce) && a.now >= s.open[a.id].lease {
      LateFinishTracked(r, nonce, i);
    } else {
      StepAgrees(s, a, nonce, EagerAt(r, nonce, i), r.leaseMs);
      assert InStep(r, nonce, i + 1);
    }
  }

  lemma PurgedStays(slot: Slot, now: u64, later: u64)
    requires Purge(slot, now) == Vacant && now <= later
    ensures Purge(slot, later) == Vacant
  {
  }

  /** An empty eager slot stays empty unless its nonce is begun. */
  lemma EagerStaysVacant(r: Run, nonce: Nonce, i: nat)
    requires IsRun(r) && i < |r.actions| && Purge(EagerAt(r, nonce, i), r.states[i].clock) == Vacant
    requires !(r.actions[i].Begin? && r.actions[i].nonce == nonce)
    ensures Purge(EagerAt(r, nonce, i + 1), r.states[i + 1].clock) == Vacant
  {
    PurgedStays(EagerAt(r, nonce, i), r.states[i].clock, r.states[i + 1].clock);
  }

  /** A completed entry is left alone by every step but a begin. */
  lemma CompleteUntouched(s: State, a: Action, leaseMs: u64, nonce: Nonce)
    requires Enabled(s, a) && nonce in s.entries && s.entries[nonce].state.Complete? && !a.Begin?
    ensures nonce in Next(s, a, leaseMs).entries && Next(s, a, leaseMs).entries[nonce] == s.entries[nonce]
  {
  }

  lemma HoldsLateThroughOthers(r: Run, nonce: Nonce, i: nat, j: nat)
    requires IsRun(r) && j < i < |r.actions| && HoldsLate(r, nonce, i, j)
    requires !(r.actions[i].Begin? && r.actions[i].nonce == nonce)
    ensures Tracked(r, nonce, i + 1)
  {
    var s, a := r.states[i], r.actions[i];
    EagerStaysVacant(r, nonce, i);
    if a.Begin? && s.entries[nonce].expiresAt <= a.now {
      RetainIsPurge(s.entries, nonce, a.now);
      assert InStep(r, nonce, i + 1);
    } else {
      if a.Begin? {
        assert nonce in Retain(s.entries, a.now);
      } else {
        CompleteUntouched(s, a, r.leaseMs, nonce);
      }
      assert HoldsLate(r, nonce, i + 1, j);
    }
  }

  /** While the caches differ, a begin on the nonce is answered alike unless it repeats the request in time. */
  lemma BeginWhileLate(r: Run, i: nat, j: nat)
    requires IsRun(r) && j < i < |r.actions| && r.actions[i].Begin? && HoldsLate(r, r.actions[i].nonce, i, j)
    ensures AgreesAt(r, i) <==> !Reveals(r, j, i)
    ensures AgreesAt(r, i) ==> InStep(r, r.actions[i].nonce, i + 1)
  {
    var s, a := r.states[i], r.actions[i];
    PurgedStays(EagerAt(r, a.nonce, i), s.clock, a.now);
    RetainIsPurge(s.entries, a.nonce, a.now);
    assert StoredLate(r, j, a.nonce, a.inputHash) ==> s.entries[a.nonce].inputHash == a.inputHash;
  }

  lemma {:induction false} TrackedWhileAgreeing(r: Run, nonce: Nonce, i: nat)
    requires IsRun(r) && i < |r.states|
    requires AgreeBefore(r, i)
    ensures Tracked(r, nonce, i)
  {
    if i == 0 {
      assert InStep(r, nonce, 0);
    } else {
      TrackedWhileAgreeing(r, nonce, i - 1);
      TrackedStep(r, nonce, i - 1);
    }
  }

  lemma TrackedStep(r: Run, nonce: Nonce, i: nat)
    requires IsRun(r) && i < |r.actions| && Tracked(r, nonce, i) && AgreesAt(r, i)
    ensures Tracked(r, nonce, i + 1)
  {
    if InStep(r, nonce, i) {
      InStepTracked(r, nonce, i);
    } else {
      var j :| 0 <= j < i && HoldsLate(r, nonce, i, j);
      if r.actions[i].Begin? && r.actions[i].nonce == nonce {
        BeginWhileLate(r, i, j);
      } else {
        HoldsLateThroughOthers(r, nonce, i, j);
      }
    }
  }

  /** If nothing reveals late storing, every begin agrees. */
  lemma {:induction false} UnrevealedAgrees(r: Run, i: nat)
    requires IsRun(r) && i <= |r.actions|
    requires forall j, k :: 0 <= j < k < |r.actions| ==> !Reveals(r, j, k)
    ensures AgreeBefore(r, i)
  {
    if i > 0 {
      UnrevealedAgrees(r, i - 1);
      if r.actions[i - 1].Begin? {
        TrackedWhileAgreeing(r, r.actions[i - 1].nonce, i - 1);
        TrackedAgrees(r, i - 1);
      }
    }
  }

  lemma TrackedAgrees(r: Run, i: nat)
    requires IsRun(r) && i < |r.actions| && r.actions[i].Begin? && Tracked(r, r.actions[i].nonce, i)
    requires forall j :: 0 <= j < i ==> !Reveals(r, j, i)
    ensures AgreesAt(r, i)
  {
    var a := r.actions[i];
    if InStep(r, a.nonce, i) {
      BeginAgrees(r.states[i], a, EagerAt(r, a.nonce, i), r.leaseMs);
    } else {
      var j :| 0 <= j < i && HoldsLate(r, a.nonce, i, j);
      BeginWhileLate(r, i, j);
    }
  }

  /** The step that stores late leaves the caches different, if they agreed on all begins before. */
  lemma StoringLateHolds(r: Run, j: nat, nonce: Nonce, inputHash: Hash)
    requires IsRun(r) && j < |r.actions| && StoredLate(r, j, nonce, inputHash)
    requires AgreeBefore(r, j)
    ensures HoldsLate(r, nonce, j + 1, j) && r.states[j + 1].entries[nonce].inputHash == inputHash
  {
    var s, a := r.states[j], r.actions[j];
    RunKeepsInv(r, j);
    MatchIsOwnership(s, a.id);
    TrackedWhileAgreeing(r, nonce, j);
    assert InStep(r, nonce, j);
    PurgeLater(SlotOf(s.entries, nonce), EagerAt(r, nonce, j), s.clock, a.now);
    EagerRefusesLate(EagerAt(r, nonce, j), s.open[a.id], a.response, a.now, a.ttl);
  }

  /** They stay different until a begin reveals it. */
  lemma {:induction false} LateUntilRevealed(r: Run, j: nat, i: nat, nonce: Nonce, inputHash: Hash)
    requires IsRun(r) && j < i < |r.states| && StoredLate(r, j, nonce, inputHash)
    requires r.states[i].clock < ExpiryOf(r.actions[j]) && !OtherInputBetween(r, j, i, nonce, inputHash)
    requires AgreeBefore(r, i)
    ensures HoldsLate(r, nonce, i, j) && r.states[i].entries[nonce].inputHash == inputHash
  {
    if i == j + 1 {
      StoringLateHolds(r, j, nonce, inputHash);
    } else {
      ClockMonotone(r, i - 1, i);
      NoOtherInput(r, j, i, nonce, inputHash);
      LateUntilRevealed(r, j, i - 1, nonce, inputHash);
      NotBegunAgain(r, j, i - 1, nonce);
      HoldsLateStep(r, j, i - 1, nonce);
    }
  }

  lemma HoldsLateStep(r: Run, j: nat, i: nat, nonce: Nonce)
    requires IsRun(r) && j < i < |r.actions| && HoldsLate(r, nonce, i, j)
    requires r.states[i + 1].clock < ExpiryOf(r.actions[j])
    requires !OtherInputBetween(r, j, i + 1, nonce, r.states[i].entries[nonce].inputHash)
    requires !(r.actions[i].Begin? && r.actions[i].nonce == nonce)
    ensures HoldsLate(r, nonce, i + 1, j)
    ensures r.states[i + 1].entries[nonce].inputHash == r.states[i].entries[nonce].inputHash
  {
    EagerStaysVacant(r, nonce, i);
    CompleteStepKeeps(r.states[i], r.actions[i], r.leaseMs, nonce);
  }

  /** A begin that agrees does not repeat a request stored late, in time. */
  lemma NotBegunAgain(r: Run, j: nat, i: nat, nonce: Nonce)
    requires IsRun(r) && j < i < |r.actions| && HoldsLate(r, nonce, i, j) && AgreesAt(r, i)
    requires r.states[i + 1].clock < ExpiryOf(r.actions[j])
    requires !OtherInputBetween(r, j, i + 1, nonce, r.states[i].entries[nonce].inputHash)
    ensures !(r.actions[i].Begin? && r.actions[i].nonce == nonce)
  {
    if r.actions[i].Begin? && r.actions[i].nonce == nonce {
      BeginWhileLate(r, i, j);
    }
  }

  /** A run betrays that eviction is lazy and global exactly when some begin repeats, in time and with no
      other input in between, a request whose response was stored after its lease. Late completions that
      were purged, expired or overwritten before are not observable. */
  lemma ObservableExactly(r: Run)
    requires IsRun(r)
    ensures (forall i :: 0 <= i < |r.actions| ==> AgreesAt(r, i)) <==>
            (forall j, i :: 0 <= j < i < |r.actions| ==> !Reveals(r, j, i))
  {
    if forall j, i :: 0 <= j < i < |r.actions| ==> !Reveals(r, j, i) {
      UnrevealedAgrees(r, |r.actions|);
    }
    if forall i :: 0 <= i < |r.actions| ==> AgreesAt(r, i) {
      forall j, i | 0 <= j < i < |r.actions| ensures !Reveals(r, j, i) {
        if Reveals(r, j, i) {
          RevealedDisagrees(r, j, i);
        }
      }
    }
  }

  lemma RevealedDisagrees(r: Run, j: nat, i: nat)
    requires IsRun(r) && j < i < |r.actions| && Reveals(r, j, i)
    requires AgreeBefore(r, i)
    ensures !AgreesAt(r, i)
  {
    var a := r.actions[i];
    assert Enabled(r.states[i], a);
    LateUntilRevealed(r, j, i, a.nonce, a.inputHash);
    BeginWhileLate(r, i, j);
  }

  // ---------------------------------------------------------------- where the conditions are needed

  /** A completion after its lease is kept by the lazy cache if nobody began anything in between, and
      refused by the eager one: the next begin tells them apart. */
  lemma LateCompletionIsObservable(response: CachedResponse) returns (r: Run)
    ensures IsRun(r) && !FinishesInTime(r) && |r.actions| == 3 && r.actions[2].Begin?
    ensures DecisionAt(r, 2) == Return(response)
    ensures EagerDecision(EagerAt(r, [], 2), [], [], r.actions[2].now, r.leaseMs).Proceed?
  {
    var a0, a1, a2 := Begin([], [], 0), Finish(0, response, 5, 10), Begin([], [], 6);
    var s1 := Next(Init, a0, 1);
    var s2 := Next(s1, a1, 1);
    var s3 := Next(s2, a2, 1);
    r := Run(1, [Init, s1, s2, s3], [a0, a1, a2]);
    assert EagerAt(r, [], 0) == Vacant;
    assert EagerAt(r, [], 1) == Held(ReplayEntry([], 1, InFlight));
    assert EagerAt(r, [], 2) == Vacant;
  }

  /** Exactly when two begins on one nonce and input are granted the same token: when the lease is empty
      and no time passes, or when the clock has saturated by the second and the first lease had too. Then
      the first reservation can complete or release the entry of the second. */
  lemma SameTokenTwice(entries: Entries, nonce: Nonce, inputHash: Hash, now: u64, later: u64, leaseMs: u64)
    requires BeginDecision(entries, nonce, inputHash, now, leaseMs).Proceed? && now <= later
    ensures BeginDecision(AfterBegin(entries, nonce, inputHash, now, leaseMs), nonce, inputHash, later, leaseMs)
              == BeginDecision(entries, nonce, inputHash, now, leaseMs)
            <==> (leaseMs == 0 && later == now) || (later == U64_MAX && now + leaseMs >= U64_MAX)
  {
    var first := BeginDecision(entries, nonce, inputHash, now, leaseMs);
    var after := AfterBegin(entries, nonce, inputHash, now, leaseMs);
    assert after[nonce] == ReplayEntry(inputHash, first.token.lease, InFlight);
    assert nonce in Retain(after, later) <==> later < first.token.lease;
  }
}
