/** The replay cache: what one begin, complete or drop does to the shared map under its lock. */
module Replay {
  import opened Bcs

  type u64 = x: int | 0 <= x < 0x1_0000_0000_0000_0000
  const U64_MAX: u64 := 0xFFFF_FFFF_FFFF_FFFF

  const DEFAULT_IN_FLIGHT_LEASE_MS: u64 := 60_000

  type Nonce = Bytes
  type Hash = Bytes

  datatype CachedResponse = CachedResponse(status: nat, body: Bytes, isResult: bool)
  datatype ReplayState = InFlight | Complete(response: CachedResponse)
  datatype ReplayEntry = ReplayEntry(inputHash: Hash, expiresAt: u64, state: ReplayState)
  datatype Decision = Proceed(token: Token) | Return(response: CachedResponse) | Busy

  /** What a reservation remembers of the entry it made. */
  datatype Token = Token(nonce: Nonce, inputHash: Hash, lease: u64)

  type Entries = map<Nonce, ReplayEntry>

  function SaturatingAdd(a: u64, b: u64): (r: u64)
    ensures r as int == a + b || (a + b > U64_MAX && r == U64_MAX)
  {
    if a + b > U64_MAX then U64_MAX else a + b
  }

  /** The lease granted to a reservation, from the tool's invocation timeout in milliseconds. */
  function LeaseMs(timeoutMillis: nat): (lease: u64)
    ensures lease >= 1
    ensures 1 <= timeoutMillis <= U64_MAX ==> lease == timeoutMillis
    ensures timeoutMillis == 0 ==> lease == 1
    ensures timeoutMillis > U64_MAX ==> lease == 60_000
  {
    var millis: u64 := if timeoutMillis <= U64_MAX then timeoutMillis else DEFAULT_IN_FLIGHT_LEASE_MS;
    if millis < 1 then 1 else millis
  }

  // ---------------------------------------------------------------- one step on the map

  function Retain(entries: Entries, now: u64): Entries
  {
    map n | n in entries && entries[n].expiresAt > now :: entries[n]
  }

  function BeginDecision(entries: Entries, nonce: Nonce, inputHash: Hash, now: u64, leaseMs: u64): Decision
  {
    var live := Retain(entries, now);
    if nonce in live && live[nonce].state.Complete? && live[nonce].inputHash == inputHash then
      Return(live[nonce].state.response)
    else if nonce in live && live[nonce].state.InFlight? then
      Busy
    else
      Proceed(Token(nonce, inputHash, SaturatingAdd(now, leaseMs)))
  }

  function AfterBegin(entries: Entries, nonce: Nonce, inputHash: Hash, now: u64, leaseMs: u64): Entries
  {
    var live := Retain(entries, now);
    match BeginDecision(entries, nonce, inputHash, now, leaseMs)
    case Proceed(t) => live[nonce := ReplayEntry(inputHash, t.lease, InFlight)]
    case _ => live
  }

  /** The entry a token names is still in flight. */
  predicate Matches(entries: Entries, t: Token)
  {
    t.nonce in entries && entries[t.nonce] == ReplayEntry(t.inputHash, t.lease, InFlight)
  }

  function AfterComplete(entries: Entries, t: Token, response: CachedResponse, now: u64, ttl: u64): Entries
  {
    if Matches(entries, t) then
      entries[t.nonce := ReplayEntry(t.inputHash, SaturatingAdd(now, ttl), Complete(response))]
    else entries
  }

  function AfterDrop(entries: Entries, t: Token): Entries
  {
    if Matches(entries, t) then entries - {t.nonce} else entries
  }

  // ---------------------------------------------------------------- the objects

  class ReplayCache {
    var entries: Entries
    const leaseMs: u64

    constructor (leaseMs: u64)
      ensures entries == map[] && this.leaseMs == leaseMs
    {
      this.leaseMs := leaseMs;
      entries := map[];
    }

    /** Purges expired entries, then answers from the cache or reserves the nonce. */
    method Begin(nonce: Nonce, inputHash: Hash, now: u64) returns (decision: Decision, reservation: ReplayReservation?)
      modifies this
      ensures decision == BeginDecision(old(entries), nonce, inputHash, now, leaseMs)
      ensures entries == AfterBegin(old(entries), nonce, inputHash, now, leaseMs)
      ensures forall n :: n != nonce ==>
        (n in entries <==> n in old(entries) && old(entries)[n].expiresAt > now) &&
        (n in entries ==> entries[n] == old(entries)[n])
      ensures match decision
        case Return(r) =>
          && nonce in entries && nonce in old(entries) && entries[nonce] == old(entries)[nonce]
          && entries[nonce].expiresAt > now
          && entries[nonce].inputHash == inputHash && entries[nonce].state == Complete(r)
        case Busy =>
          && nonce in entries && nonce in old(entries) && entries[nonce] == old(entries)[nonce]
          && entries[nonce].expiresAt > now && entries[nonce].state == InFlight
        case Proceed(t) =>
          && (nonce in old(entries) && old(entries)[nonce].expiresAt > now ==>
              old(entries)[nonce].state.Complete? && old(entries)[nonce].inputHash != inputHash)
          && t.nonce == nonce && t.inputHash == inputHash
          && t.lease == (if now + leaseMs <= 0xFFFF_FFFF_FFFF_FFFF then now + leaseMs else 0xFFFF_FFFF_FFFF_FFFF)
          && nonce in entries && entries[nonce] == ReplayEntry(inputHash, t.lease, InFlight)
      ensures reservation == null <==> !decision.Proceed?
      ensures reservation != null ==>
        && fresh(reservation) && reservation.cache == this
        && !reservation.completed && reservation.TokenOf() == decision.token
    {
      entries := map n | n in entries && entries[n].expiresAt > now :: entries[n];
      reservation := null;
      if nonce in entries && entries[nonce].state.Complete? && entries[nonce].inputHash == inputHash {
        decision := Return(entries[nonce].state.response);
      } else if nonce in entries && entries[nonce].state.InFlight? {
        decision := Busy;
      } else {
        var lease := SaturatingAdd(now, leaseMs);
        entries := entries[nonce := ReplayEntry(inputHash, lease, InFlight)];
        reservation := new ReplayReservation(this, nonce, inputHash, lease);
        decision := Proceed(Token(nonce, inputHash, lease));
      }
    }
  }

  class ReplayReservation {
    const cache: ReplayCache
    const nonce: Nonce
    const inputHash: Hash
    const lease: u64
    var completed: bool

    constructor (cache: ReplayCache, nonce: Nonce, inputHash: Hash, lease: u64)
      ensures this.cache == cache && TokenOf() == Token(nonce, inputHash, lease) && !completed
    {
      this.cache, this.nonce, this.inputHash, this.lease := cache, nonce, inputHash, lease;
      completed := false;
    }

    function TokenOf(): Token
    {
      Token(nonce, inputHash, lease)
    }

    /** Stores the response if the reserved entry is still there. The lease is not looked at again. */
    method Complete(response: CachedResponse, now: u64, ttl: u64)
      modifies this, cache
      ensures cache.entries == AfterComplete(old(cache.entries), TokenOf(), response, now, ttl)
      ensures cache.entries ==
        if nonce !in old(cache.entries) || old(cache.entries)[nonce] != ReplayEntry(inputHash, lease, InFlight)
        then old(cache.entries)
        else
          var until := if now + ttl <= 0xFFFF_FFFF_FFFF_FFFF then now + ttl else 0xFFFF_FFFF_FFFF_FFFF;
          old(cache.entries)[nonce := ReplayEntry(inputHash, until, ReplayState.Complete(response))]
      ensures completed
    {
      if nonce in cache.entries {
        var entry := cache.entries[nonce];
        if entry.inputHash == inputHash && entry.expiresAt == lease && entry.state.InFlight? {
          cache.entries := cache.entries[nonce := ReplayEntry(entry.inputHash, SaturatingAdd(now, ttl),
              ReplayState.Complete(response))];
        }
      }
      completed := true;
    }

    /** Releases the nonce unless the reservation was completed. */
    method Drop()
      modifies cache
      ensures cache.entries == if completed then old(cache.entries) else AfterDrop(old(cache.entries), TokenOf())
      ensures cache.entries ==
        if completed || nonce !in old(cache.entries) ||
          old(cache.entries)[nonce] != ReplayEntry(inputHash, lease, InFlight)
        then old(cache.entries)
        else old(cache.entries) - {nonce}
    {
      if completed {
        return;
      }
      if nonce in cache.entries {
        var entry := cache.entries[nonce];
        if entry.inputHash == inputHash && entry.expiresAt == lease && entry.state.InFlight? {
          cache.entries := cache.entries - {nonce};
        }
      }
    }
  }

  datatype Reply = Served(response: CachedResponse, ranTool: bool) | Conflict

  /** An authenticated request handled without interruption. `outcome` is what the tool answers if it
      is run; the reservation is dropped after its completion, as ownership demands. */
  method HandleSigned(cache: ReplayCache, nonce: Nonce, inputHash: Hash, began: u64, outcome: CachedResponse,
      ended: u64, ttl: u64)
    returns (reply: Reply)
    modifies cache
    ensures match BeginDecision(old(cache.entries), nonce, inputHash, began, cache.leaseMs)
      case Return(r) => reply == Served(r, false) && cache.entries == Retain(old(cache.entries), began)
      case Busy => reply == Conflict && cache.entries == Retain(old(cache.entries), began)
      case Proceed(t) =>
        && reply == Served(outcome, true)
        && cache.entries == Retain(old(cache.entries), began)[nonce := ReplayEntry(inputHash, SaturatingAdd(ended,
            ttl), Complete(outcome))]
  {
    var decision, reservation := cache.Begin(nonce, inputHash, began);
    match decision {
      case Return(r) => reply := Served(r, false);
      case Busy => reply := Conflict;
      case Proceed(_) =>
        reservation.Complete(outcome, ended, ttl);
        reservation.Drop();
        reply := Served(outcome, true);
    }
  }
}
