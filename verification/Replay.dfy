/**
 Anti-replay: the expiring nonce store (the bank and the registry run the same one) and the
 timestamp window that request authentication applies before consulting it.
 */
module Replay {
  import opened Common

  const PRUNE_INTERVAL: nat := 1024
  const MAX_SKEW: nat := 60
  const NONCE_TTL: nat := 120

  datatype StoreError = ValueRange

  // ---------- the store ----------

  /** Nonces with their expiry, and the operation counter that paces purging. */
  datatype Nonces = Nonces(store: map<string, nat>, ops: nat)

  predicate Fresh(store: map<string, nat>, nonce: string, now: nat) {
    nonce in store ==> store[nonce] <= now
  }

  function Purged(store: map<string, nat>, now: nat): map<string, nat> {
    map n | n in store && store[n] > now :: store[n]
  }

  function CheckAndRecord(s: Nonces, nonce: string, now: nat, ttl: nat): (Nonces, Result<bool, StoreError>) {
    if SaturatingAdd(now, ttl) > I64_MAX then (s, Err(ValueRange))
    else
      var unseen := Fresh(s.store, nonce, now);
      var store := if unseen then s.store[nonce := now + ttl] else s.store;
      var purge := s.ops % PRUNE_INTERVAL == PRUNE_INTERVAL - 1;
      (Nonces(if purge then Purged(store, now) else store, (s.ops + 1) % (U64_MAX + 1)), Ok(unseen))
  }

  /** The timestamp test, written with saturating arithmetic as the middleware writes it. */
  predicate InWindow(timestamp: nat, now: nat) {
    !(SaturatingAdd(timestamp, MAX_SKEW) < now || timestamp > SaturatingAdd(now, MAX_SKEW))
  }

  /**
   A request as the middleware sees it; `authentic` is the verdict on its key and signature.  A purge
   or restart whose clock is out of range fails and leaves the table as it was.
   */
  datatype Event =
    | Attempt(nonce: string, timestamp: nat, authentic: bool, now: nat)
    | Purge(now: nat)
    | Restart(now: nat)

  function Authenticate(s: Nonces, e: Event): (Nonces, bool)
    requires e.Attempt?
  {
    if !InWindow(e.timestamp, e.now) || !e.authentic then (s, false)
    else
      var (s', r) := CheckAndRecord(s, e.nonce, e.now, NONCE_TTL);
      (s', r == Ok(true))
  }

  /** The table as the service updates it. */
  class NonceTable {
    var store: map<string, nat>
    var ops: nat

    function State(): Nonces
      reads this
    {
      Nonces(store, ops)
    }

    constructor (table: map<string, nat>)
      ensures State() == Nonces(table, 0)
    {
      store, ops := table, 0;
    }

    /** Opening the service over an existing table restarts the counter and purges, or fails. */
    static method Connect(table: map<string, nat>, now: nat) returns (r: Result<NonceTable, StoreError>)
      ensures r.Err? <==> now > I64_MAX
      ensures r.Ok? ==> fresh(r.value) && r.value.State() == Nonces(Purged(table, now), 0)
      ensures r.Ok? ==> forall n :: n in r.value.store <==> n in table && now < table[n]
      ensures r.Ok? ==> forall g: Guard :: g.nonces.store == table ==> r.value.State() == Step(g, Restart(now)).nonces
    {
      var t := new NonceTable(table);
      var purged := t.PurgeExpired(now);
      if purged.Err? {
        return Err(purged.error);
      }
      return Ok(t);
    }

    method PurgeExpired(now: nat) returns (r: Result<(), StoreError>)
      modifies this`store
      ensures r.Err? <==> now > I64_MAX
      ensures store == if r.Ok? then Purged(old(store), now) else old(store)
      ensures r.Ok? ==> forall n :: n in store <==> n in old(store) && now < old(store)[n]
      ensures forall n :: n in store ==> store[n] == old(store)[n]
      ensures forall g: Guard :: g.nonces == old(State()) ==> State() == Step(g, Purge(now)).nonces
    {
      if now > I64_MAX {
        return Err(ValueRange);
      }
      store := map n | n in store && store[n] > now :: store[n];
      return Ok(());
    }

    method Check(nonce: string, now: nat, ttl: nat) returns (r: Result<bool, StoreError>)
      modifies this
      ensures (State(), r) == CheckAndRecord(old(State()), nonce, now, ttl)
      ensures r == if now + ttl > I64_MAX then Err(ValueRange)
                   else Ok(nonce !in old(store) || old(store)[nonce] <= now)
      ensures r.Err? ==> State() == old(State())
      ensures r.Ok? ==>
                var recorded := if r.value then old(store)[nonce := now + ttl] else old(store);
                && ops == (old(ops) + 1) % 0x1_0000_0000_0000_0000
                && (old(ops) % 1024 != 1023 ==> store == recorded)
                && (old(ops) % 1024 == 1023 ==> forall n :: n in store <==> n in recorded && now < recorded[n])
                && (forall n :: n in store ==> store[n] == recorded[n])
    {
      var expiry := SaturatingAdd(now, ttl);
      if expiry > I64_MAX {
        return Err(ValueRange);
      }
      var affected := 0;
      if nonce !in store || store[nonce] <= now {
        store := store[nonce := expiry];
        affected := 1;
      }
      var before := ops;
      ops := (ops + 1) % (U64_MAX + 1);
      if before % PRUNE_INTERVAL == PRUNE_INTERVAL - 1 {
        var _ := PurgeExpired(now);  // in range, since the expiry is
      }
      return Ok(affected == 1);
    }

    /** The nonce is recorded only for a request that passes every other test. */
    method Admit(e: Event) returns (accepted: bool)
      requires e.Attempt?
      modifies this
      ensures (State(), accepted) == Authenticate(old(State()), e)
      ensures accepted <==>
                && e.timestamp <= e.now + 60 && e.now <= e.timestamp + 60
                && e.authentic
                && e.now + 120 <= I64_MAX
                && (e.nonce in old(store) ==> old(store)[e.nonce] <= e.now)
      ensures !(e.timestamp <= e.now + 60 && e.now <= e.timestamp + 60 && e.authentic) ==> State() == old(State())
    {
      if SaturatingAdd(e.timestamp, MAX_SKEW) < e.now || e.timestamp > SaturatingAdd(e.now, MAX_SKEW) {
        return false;
      }
      if !e.authentic {
        return false;
      }
      var unseen := Check(e.nonce, e.now, NONCE_TTL);
      return unseen == Ok(true);
    }
  }

  // ---------- refinement of a log ----------

  /** An accepted use: nothing is ever purged from a log. */
  datatype Use = Use(nonce: string, timestamp: nat, at: nat)

  predicate FreshByLog(log: seq<Use>, nonce: string, now: nat, ttl: nat) {
    forall i :: 0 <= i < |log| && log[i].nonce == nonce ==> log[i].at + ttl <= now
  }

  /** From `clock` on, the store answers exactly as the log would. */
  ghost predicate Refines(store: map<string, nat>, log: seq<Use>, clock: nat, ttl: nat) {
    forall nonce, now :: clock <= now ==> (Fresh(store, nonce, now) <==> FreshByLog(log, nonce, now, ttl))
  }

  lemma PurgeRefines(store: map<string, nat>, log: seq<Use>, clock: nat, now: nat, ttl: nat)
    requires Refines(store, log, clock, ttl) && clock <= now
    ensures Refines(Purged(store, now), log, now, ttl)
  {
    forall nonce, later | now <= later
      ensures Fresh(Purged(store, now), nonce, later) <==> FreshByLog(log, nonce, later, ttl)
    {
      assert Fresh(store, nonce, later) <==> FreshByLog(log, nonce, later, ttl);
    }
  }

  lemma RecordRefines(store: map<string, nat>, log: seq<Use>, clock: nat, use: Use, ttl: nat)
    requires Refines(store, log, clock, ttl) && clock <= use.at && Fresh(store, use.nonce, use.at)
    ensures Refines(store[use.nonce := use.at + ttl], log + [use], use.at, ttl)
  {
    var longer := log + [use];
    assert FreshByLog(log, use.nonce, use.at, ttl);
    forall nonce, later | use.at <= later
      ensures Fresh(store[use.nonce := use.at + ttl], nonce, later) <==> FreshByLog(longer, nonce, later, ttl)
    {
      assert Fresh(store, nonce, later) <==> FreshByLog(log, nonce, later, ttl);
      assert longer[|log|] == use;
      if FreshByLog(longer, nonce, later, ttl) {
        forall i | 0 <= i < |log| && log[i].nonce == nonce ensures log[i].at + ttl <= later {
          assert longer[i] == log[i];
        }
      }
    }
  }

  /** One check, with or without the purge that may follow it. */
  lemma CheckRefines(s: Nonces, log: seq<Use>, clock: nat, use: Use, ttl: nat)
    requires Refines(s.store, log, clock, ttl) && clock <= use.at
    ensures var (s', r) := CheckAndRecord(s, use.nonce, use.at, ttl);
            && (r == Ok(true) <==> use.at + ttl <= I64_MAX && FreshByLog(log, use.nonce, use.at, ttl))
            && Refines(s'.store, if r == Ok(true) then log + [use] else log, use.at, ttl)
  {
    var unseen := Fresh(s.store, use.nonce, use.at);
    assert unseen <==> FreshByLog(log, use.nonce, use.at, ttl);
    if SaturatingAdd(use.at, ttl) <= I64_MAX {
      if unseen {
        RecordRefines(s.store, log, clock, use, ttl);
        PurgeRefines(s.store[use.nonce := use.at + ttl], log + [use], use.at, use.at, ttl);
      } else {
        PurgeRefines(s.store, log, clock, use.at, ttl);
      }
    }
  }

  // ---------- runs of authentication attempts ----------

  /** The running service: its store, every use accepted so far, and the latest clock reading. */
  datatype Guard = Guard(nonces: Nonces, log: seq<Use>, clock: nat)

  const INITIAL := Guard(Nonces(map[], 0), [], 0)

  function Step(g: Guard, e: Event): Guard {
    match e
    case Attempt(nonce, timestamp, _, now) =>
      var (s, accepted) := Authenticate(g.nonces, e);
      Guard(s, if accepted then g.log + [Use(nonce, timestamp, now)] else g.log, now)
    case Purge(now) =>
      Guard(if now > I64_MAX then g.nonces else g.nonces.(store := Purged(g.nonces.store, now)), g.log, now)
    case Restart(now) =>
      Guard(if now > I64_MAX then g.nonces else Nonces(Purged(g.nonces.store, now), 0), g.log, now)
  }

  function Exec(events: seq<Event>): Guard {
    if events == [] then INITIAL else Step(Exec(events[..|events| - 1]), events[|events| - 1])
  }

  predicate Monotone(events: seq<Event>) {
    forall i, j :: 0 <= i < j < |events| ==> events[i].now <= events[j].now
  }

  /** Two accepted uses of a nonce are a full lifetime apart, and each was inside its window. */
  ghost predicate Spaced(g: Guard) {
    && (forall i, j :: 0 <= i < j < |g.log| && g.log[i].nonce == g.log[j].nonce ==>
          g.log[i].at + NONCE_TTL <= g.log[j].at)
    && (forall i :: 0 <= i < |g.log| ==>
          g.log[i].at <= g.log[i].timestamp + MAX_SKEW && g.log[i].timestamp <= g.log[i].at + MAX_SKEW)
  }

  ghost predicate Inv(g: Guard) {
    Refines(g.nonces.store, g.log, g.clock, NONCE_TTL) && Spaced(g)
  }

  lemma StepInv(g: Guard, e: Event)
    requires Inv(g) && g.clock <= e.now
    ensures Inv(Step(g, e))
  {
    if e.Attempt? {
      CheckRefines(g.nonces, g.log, g.clock, Use(e.nonce, e.timestamp, e.now), NONCE_TTL);
      var g' := Step(g, e);
      assert g'.log != g.log ==> FreshByLog(g.log, e.nonce, e.now, NONCE_TTL) && e.now <= I64_MAX;
    } else {
      PurgeRefines(g.nonces.store, g.log, g.clock, e.now, NONCE_TTL);
    }
  }

  lemma {:induction false} ExecInv(events: seq<Event>)
    requires Monotone(events)
    ensures Inv(Exec(events))
    ensures Exec(events).clock == if events == [] then 0 else events[|events| - 1].now
  {
    if events == [] {
    } else {
      var n := |events| - 1;
      ExecInv(events[..n]);
      StepInv(Exec(events[..n]), events[n]);
    }
  }

  /**
   Under any schedule of purges and restarts, an attempt is accepted exactly when it is authentic,
   stamped within 60 seconds of the clock either way, and no earlier accepted use of its nonce is
   younger than 120 seconds.
   */
  lemma AcceptedExactly(events: seq<Event>, e: Event)
    requires Monotone(events + [e]) && e.Attempt?
    ensures Authenticate(Exec(events).nonces, e).1 <==>
            && e.timestamp <= e.now + 60 && e.now <= e.timestamp + 60
            && e.authentic
            && e.now + 120 <= I64_MAX
            && forall i :: 0 <= i < |Exec(events).log| && Exec(events).log[i].nonce == e.nonce ==>
                 Exec(events).log[i].at + 120 <= e.now
  {
    MonotonePrefix(events, e);
    ExecInv(events);
    var g := Exec(events);
    CheckRefines(g.nonces, g.log, g.clock, Use(e.nonce, e.timestamp, e.now), NONCE_TTL);
  }

  lemma MonotonePrefix(events: seq<Event>, e: Event)
    requires Monotone(events + [e])
    ensures Monotone(events) && forall i :: 0 <= i < |events| ==> events[i].now <= e.now
  {
    var all := events + [e];
    assert forall i :: 0 <= i < |events| ==> all[i] == events[i];
    assert all[|events|] == e;
  }

  /**
   The replay bound.  If the same timestamp and nonce are accepted twice, the request was stamped
   exactly one skew ahead of its first acceptance and came back exactly one lifetime later; a
   third acceptance is impossible.
   */
  lemma ReplayBound(events: seq<Event>, i: nat, j: nat)
    requires Monotone(events)
    requires i < j < |Exec(events).log|
    requires var log := Exec(events).log; log[i].nonce == log[j].nonce && log[i].timestamp == log[j].timestamp
    ensures var log := Exec(events).log;
            && log[i].timestamp == log[i].at + MAX_SKEW
            && log[j].at == log[i].at + NONCE_TTL
            && forall k :: j < k < |log| && log[k].nonce == log[i].nonce ==> log[k].timestamp != log[i].timestamp
  {
    ExecInv(events);
  }

  /**
   The bound is exact: for a request accepted once, replaying it succeeds if and only if it was
   stamped one skew ahead and returns at the very second its nonce expires.
   */
  lemma ReplayExactly(events: seq<Event>, first: nat, e: Event)
    requires Monotone(events + [e]) && e.Attempt? && e.authentic && first < |Exec(events).log|
    requires var u := Exec(events).log[first]; e.nonce == u.nonce && e.timestamp == u.timestamp
    requires forall k :: 0 <= k < |Exec(events).log| && k != first ==> Exec(events).log[k].nonce != e.nonce
    requires e.now + NONCE_TTL <= I64_MAX
    ensures var u := Exec(events).log[first];
            Authenticate(Exec(events).nonces, e).1 <==>
            u.timestamp == u.at + MAX_SKEW && e.now == u.at + NONCE_TTL
  {
    AcceptedExactly(events, e);
    MonotonePrefix(events, e);
    ExecInv(events);
  }

  /** Such a double acceptance does happen. */
  lemma ReplayHappens(nonce: string, t: nat)
    requires t + 2 * NONCE_TTL <= I64_MAX
    ensures var events := [Attempt(nonce, t + MAX_SKEW, true, t), Attempt(nonce, t + MAX_SKEW, true, t + NONCE_TTL)];
            Monotone(events) && Exec(events).log == [Use(nonce, t + MAX_SKEW, t), Use(nonce, t + MAX_SKEW, t + NONCE_TTL)]
  {
    var a, b := Attempt(nonce, t + MAX_SKEW, true, t), Attempt(nonce, t + MAX_SKEW, true, t + NONCE_TTL);
    assert [a, b][..1] == [a] && [a][..0] == [];
    assert Exec([a]) == Step(Exec([]), a);
    assert Exec([a, b]) == Step(Exec([a]), b);
  }

  // ---------- how long expired nonces stay ----------

  datatype Lookup = Lookup(nonce: string, now: nat)

  function Checks(s: Nonces, lookups: seq<Lookup>, ttl: nat): Nonces {
    if lookups == [] then s
    else
      var last := lookups[|lookups| - 1];
      CheckAndRecord(Checks(s, lookups[..|lookups| - 1], ttl), last.nonce, last.now, ttl).0
  }

  ghost predicate InRange(lookups: seq<Lookup>, ttl: nat) {
    forall i :: 0 <= i < |lookups| ==> lookups[i].now + ttl <= I64_MAX
  }

  ghost predicate AllLive(store: map<string, nat>, now: nat) {
    forall n :: n in store ==> store[n] > now
  }

  lemma NextOp(ops: nat, count: nat)
    requires ops <= U64_MAX && ops % 1024 == count % 1024
    ensures var next := (ops + 1) % (U64_MAX + 1); next <= U64_MAX && next % 1024 == (count + 1) % 1024
  {
    if ops == U64_MAX {
      assert U64_MAX % 1024 == 1023;
    }
  }

  /** The counter counts checks; its wrap at 2^64 does not disturb the pace, since 1024 divides it. */
  lemma {:induction false} OpsAfter(s: Nonces, lookups: seq<Lookup>, ttl: nat)
    requires s.ops <= U64_MAX && InRange(lookups, ttl)
    ensures var s' := Checks(s, lookups, ttl);
            s'.ops <= U64_MAX && s'.ops % 1024 == (s.ops + |lookups|) % 1024
  {
    if lookups == [] {
    } else {
      var n := |lookups| - 1;
      OpsAfter(s, lookups[..n], ttl);
      var before := Checks(s, lookups[..n], ttl);
      NextOp(before.ops, s.ops + n);
      assert Checks(s, lookups, ttl).ops == (before.ops + 1) % (U64_MAX + 1);
    }
  }

  lemma DueCheckPurges(s: Nonces, c: Lookup, ttl: nat)
    requires s.ops % 1024 == 1023 && c.now + ttl <= I64_MAX
    ensures AllLive(CheckAndRecord(s, c.nonce, c.now, ttl).0.store, c.now)
  {
  }

  lemma DueAfter(ops: nat, k: nat)
    requires k == 1023 - ops % 1024
    ensures (ops + k) % 1024 == 1023
  {
  }

  /** Within 1024 checks a purge falls due. */
  lemma DueSoon(s: Nonces, lookups: seq<Lookup>, ttl: nat) returns (k: nat)
    requires s.ops <= U64_MAX && InRange(lookups, ttl) && |lookups| >= 1024
    ensures k < 1024 && Checks(s, lookups[..k], ttl).ops % 1024 == 1023
  {
    k := 1023 - s.ops % 1024;
    DueAfter(s.ops, k);
    var first := lookups[..k];
    OpsAfter(s, first, ttl);
  }

  lemma ChecksSnoc(s: Nonces, lookups: seq<Lookup>, c: Lookup, ttl: nat)
    ensures Checks(s, lookups + [c], ttl) == CheckAndRecord(Checks(s, lookups, ttl), c.nonce, c.now, ttl).0
  {
    assert (lookups + [c])[..|lookups|] == lookups;
  }

  lemma LastPurges(s: Nonces, lookups: seq<Lookup>, c: Lookup, ttl: nat)
    requires Checks(s, lookups, ttl).ops % 1024 == 1023 && c.now + ttl <= I64_MAX
    ensures AllLive(Checks(s, lookups + [c], ttl).store, c.now)
  {
    ChecksSnoc(s, lookups, c, ttl);
    DueCheckPurges(Checks(s, lookups, ttl), c, ttl);
  }

  /** Of any 1024 checks in a row one purges: after it no expired nonce is left in the store. */
  lemma PurgePaced(s: Nonces, lookups: seq<Lookup>, ttl: nat)
    requires s.ops <= U64_MAX && InRange(lookups, ttl) && |lookups| >= 1024
    ensures exists k :: 0 <= k < 1024 && AllLive(Checks(s, lookups[..k + 1], ttl).store, lookups[k].now)
  {
    var k := DueSoon(s, lookups, ttl);
    LastPurges(s, lookups[..k], lookups[k], ttl);
    assert lookups[..k + 1] == lookups[..k] + [lookups[k]];
  }

  // ---------- when the clock is read before the store is reached ----------

  /**
   Each request reads the clock once and reaches the store later, so the store may see readings out
   of order, by up to `skew`.  `Monotone` is the case of no skew.
   */
  predicate Skewed(events: seq<Event>, skew: nat) {
    forall i, j :: 0 <= i < j < |events| ==> events[i].now <= events[j].now + skew
  }

  /** The latest reading so far. */
  function Latest(events: seq<Event>): nat {
    if events == [] then 0
    else
      var before, last := Latest(events[..|events| - 1]), events[|events| - 1].now;
      if before > last then before else last
  }

  lemma {:induction false} LatestIs(events: seq<Event>, bound: nat)
    requires forall i :: 0 <= i < |events| ==> events[i].now <= bound
    ensures Latest(events) <= bound
  {
    if events == [] {
    } else {
      LatestIs(events[..|events| - 1], bound);
    }
  }

  /** Every accepted use is still remembered, unless some reading has passed its expiry. */
  ghost predicate Remembered(g: Guard, latest: nat) {
    forall i :: 0 <= i < |g.log| ==>
      var u := g.log[i];
      u.at + NONCE_TTL <= latest || (u.nonce in g.nonces.store && g.nonces.store[u.nonce] >= u.at + NONCE_TTL)
  }

  ghost predicate SpacedBy(g: Guard, skew: nat) {
    && (forall i, j :: 0 <= i < j < |g.log| && g.log[i].nonce == g.log[j].nonce ==>
          g.log[i].at + NONCE_TTL <= g.log[j].at + skew)
    && (forall i :: 0 <= i < |g.log| ==>
          g.log[i].at <= g.log[i].timestamp + MAX_SKEW && g.log[i].timestamp <= g.log[i].at + MAX_SKEW)
  }

  lemma StepRemembered(g: Guard, e: Event, before: nat, latest: nat)
    requires Remembered(g, before) && before <= latest && e.now <= latest
    ensures Remembered(Step(g, e), latest)
  {
  }

  lemma StepSpacedBy(g: Guard, e: Event, latest: nat, skew: nat)
    requires Remembered(g, latest) && SpacedBy(g, skew) && latest <= e.now + skew
    ensures SpacedBy(Step(g, e), skew)
  {
    var g' := Step(g, e);
    if g'.log != g.log {
      assert Fresh(g.nonces.store, e.nonce, e.now);
    }
  }

  lemma {:induction false} ExecSpacedBy(events: seq<Event>, skew: nat)
    requires Skewed(events, skew)
    ensures Remembered(Exec(events), Latest(events)) && SpacedBy(Exec(events), skew)
  {
    if events == [] {
    } else {
      var n := |events| - 1;
      ExecSpacedBy(events[..n], skew);
      LatestIs(events[..n], events[n].now + skew);
      StepRemembered(Exec(events[..n]), events[n], Latest(events[..n]), Latest(events));
      StepSpacedBy(Exec(events[..n]), events[n], Latest(events[..n]), skew);
    }
  }

  /**
   The replay bound with skew.  A request accepted twice was stamped no more than `skew` short of one
   window ahead, and came back no more than `skew` short of one lifetime later; below a skew of one
   window there is no third acceptance.  With no skew this is `ReplayBound`.
   */
  lemma ReplayBoundSkewed(events: seq<Event>, skew: nat, i: nat, j: nat)
    requires Skewed(events, skew) && i < j < |Exec(events).log|
    requires var log := Exec(events).log; log[i].nonce == log[j].nonce && log[i].timestamp == log[j].timestamp
    ensures var log := Exec(events).log;
            && log[i].at + MAX_SKEW <= log[i].timestamp + skew
            && log[i].at + NONCE_TTL <= log[j].at + skew && log[j].at <= log[i].at + NONCE_TTL
            && (skew < MAX_SKEW ==>
                forall k :: j < k < |log| && log[k].nonce == log[i].nonce ==> log[k].timestamp != log[i].timestamp)
  {
    ExecSpacedBy(events, skew);
  }

  /** One second of skew does admit a live nonce again: another reading has purged it first. */
  lemma SkewAdmitsLiveNonce(nonce: string, t: nat)
    requires t + 2 * NONCE_TTL <= I64_MAX
    ensures var stamp := t + MAX_SKEW - 1;
            var events := [Attempt(nonce, stamp, true, t), Purge(t + NONCE_TTL), Attempt(nonce, stamp, true, t + NONCE_TTL - 1)];
            Skewed(events, 1) && Exec(events).log == [Use(nonce, stamp, t), Use(nonce, stamp, t + NONCE_TTL - 1)]
  {
    var stamp := t + MAX_SKEW - 1;
    var a, b := Attempt(nonce, stamp, true, t), Attempt(nonce, stamp, true, t + NONCE_TTL - 1);
    var p := Purge(t + NONCE_TTL);
    assert [a, p, b][..2] == [a, p] && [a, p][..1] == [a] && [a][..0] == [];
    var g1 := Step(INITIAL, a);
    assert Exec([a]) == g1;
    assert Exec([a, p]) == Step(g1, p);
    assert nonce !in Step(g1, p).nonces.store;
    assert Exec([a, p, b]) == Step(Step(g1, p), b);
  }
}
