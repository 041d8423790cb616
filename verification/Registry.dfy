/**
 The multi-bank registry: the shared spent-serial store with its transcripts, exposure caps,
 receivables and the settlement ledger.  Each function is one committed transaction; an error
 leaves the tables as they were.
 */
module RegistryTables {
  import opened Common
  import opened Netting

  datatype SerialKey = SerialKey(denom: nat, scheme: nat, serialHex: string)

  datatype Submission = Submission(issuer: string, key: SerialKey, transcript: string)

  /** A transcript row; its row id is its position in the table. */
  datatype Entry = Entry(key: SerialKey, bank: string, transcript: string, seenAt: nat)

  datatype Tables = Tables(
    serials: map<SerialKey, Entry>,
    transcripts: seq<Entry>,
    caps: map<Pair, nat>,
    receivables: Amounts,
    claims: seq<Claim>)

  const EMPTY := Tables(map[], [], map[], map[], [])

  datatype Outcome = Accepted | DoubleSpend | ExposureCapExceeded

  datatype Response = Response(outcome: Outcome, transcripts: seq<Entry>)

  datatype RegistryError = ValueRange | Database

  function EntriesFor(entries: seq<Entry>, key: SerialKey): seq<Entry> {
    if entries == [] then []
    else
      var before := EntriesFor(entries[..|entries| - 1], key);
      if entries[|entries| - 1].key == key then before + [entries[|entries| - 1]] else before
  }

  predicate SeenInOrder(entries: seq<Entry>) {
    forall i, j :: 0 <= i < j < |entries| ==> entries[i].seenAt <= entries[j].seenAt
  }

  function InsertBySeen(entries: seq<Entry>, e: Entry): seq<Entry> {
    if entries != [] && entries[|entries| - 1].seenAt > e.seenAt
    then InsertBySeen(entries[..|entries| - 1], e) + [entries[|entries| - 1]]
    else entries + [e]
  }

  /** `ORDER BY seen_at, id`. */
  function BySeen(entries: seq<Entry>): seq<Entry> {
    if entries == [] then []
    else InsertBySeen(BySeen(entries[..|entries| - 1]), entries[|entries| - 1])
  }

  lemma {:induction false} InsertBySeenMembers(entries: seq<Entry>, e: Entry)
    ensures multiset(InsertBySeen(entries, e)) == multiset(entries) + multiset{e}
  {
    if entries != [] && entries[|entries| - 1].seenAt > e.seenAt {
      var n := |entries| - 1;
      InsertBySeenMembers(entries[..n], e);
      assert entries == entries[..n] + [entries[n]];
    }
  }

  lemma {:induction false} InsertBySeenOrder(entries: seq<Entry>, e: Entry)
    requires SeenInOrder(entries)
    ensures SeenInOrder(InsertBySeen(entries, e))
  {
    if entries != [] && entries[|entries| - 1].seenAt > e.seenAt {
      var n := |entries| - 1;
      var shorter := InsertBySeen(entries[..n], e);
      InsertBySeenOrder(entries[..n], e);
      InsertBySeenMembers(entries[..n], e);
      forall i | 0 <= i < |shorter| ensures shorter[i].seenAt <= entries[n].seenAt {
        assert shorter[i] in multiset(shorter);
        assert shorter[i] == e || shorter[i] in entries[..n];
      }
    }
  }

  lemma MembersSnoc(entries: seq<Entry>, n: nat)
    requires |entries| == n + 1
    ensures multiset(entries) == multiset(entries[..n]) + multiset{entries[n]}
  {
    assert entries == entries[..n] + [entries[n]];
  }

  lemma {:induction false} BySeenIs(entries: seq<Entry>)
    ensures SeenInOrder(BySeen(entries)) && multiset(BySeen(entries)) == multiset(entries)
  {
    if entries == [] {
    } else {
      var n := |entries| - 1;
      var sorted := BySeen(entries[..n]);
      BySeenIs(entries[..n]);
      InsertBySeenOrder(sorted, entries[n]);
      InsertBySeenMembers(sorted, entries[n]);
      MembersSnoc(entries, n);
    }
  }

  lemma BySeenInOrder(entries: seq<Entry>)
    ensures SeenInOrder(BySeen(entries))
  {
    BySeenIs(entries);
  }

  /** The entries of one moment, in the order of the rows. */
  function SeenAt(entries: seq<Entry>, moment: nat): seq<Entry> {
    if entries == [] then []
    else
      var before := SeenAt(entries[..|entries| - 1], moment);
      if entries[|entries| - 1].seenAt == moment then before + [entries[|entries| - 1]] else before
  }

  lemma SeenAtSnoc(entries: seq<Entry>, e: Entry, moment: nat)
    ensures SeenAt(entries + [e], moment) == SeenAt(entries, moment) + if e.seenAt == moment then [e] else []
  {
    assert (entries + [e])[..|entries|] == entries;
  }

  lemma {:induction false} InsertBySeenStable(entries: seq<Entry>, e: Entry, moment: nat)
    requires SeenInOrder(entries)
    ensures SeenAt(InsertBySeen(entries, e), moment) == SeenAt(entries, moment) + if e.seenAt == moment then [e] else []
  {
    if entries != [] && entries[|entries| - 1].seenAt > e.seenAt {
      var n := |entries| - 1;
      InsertBySeenStable(entries[..n], e, moment);
      SeenAtSnoc(InsertBySeen(entries[..n], e), entries[n], moment);
    } else {
      SeenAtSnoc(entries, e, moment);
    }
  }

  /** Rows seen at the same moment stay in the order of their ids. */
  lemma {:induction false} BySeenStable(entries: seq<Entry>, moment: nat)
    ensures SeenAt(BySeen(entries), moment) == SeenAt(entries, moment)
  {
    if entries == [] {
    } else {
      var n := |entries| - 1;
      BySeenStable(entries[..n], moment);
      BySeenIs(entries[..n]);
      InsertBySeenStable(BySeen(entries[..n]), entries[n], moment);
    }
  }

  /** Whether the depositing bank's outstanding receivable has reached its cap. */
  predicate CapReached(t: Tables, p: Pair) {
    p in t.caps && At(t.receivables, p) >= t.caps[p]
  }

  function Submit(t: Tables, bank: string, sub: Submission, now: nat): (Tables, Result<Response, RegistryError>) {
    var p, entry := Pair(sub.issuer, bank), Entry(sub.key, bank, sub.transcript, now);
    if sub.key.denom > I64_MAX || now > I64_MAX then (t, Err(ValueRange))
    else if CapReached(t, p) then (t, Ok(Response(ExposureCapExceeded, [])))
    else if sub.key in t.serials then
      var t' := t.(transcripts := t.transcripts + [entry]);
      (t', Ok(Response(DoubleSpend, BySeen(EntriesFor(t'.transcripts, sub.key)))))
    else if At(t.receivables, p) + sub.key.denom > I64_MAX then (t, Err(Database))
    else
      (t.(transcripts := t.transcripts + [entry],
          serials := t.serials[sub.key := entry],
          receivables := t.receivables[p := At(t.receivables, p) + sub.key.denom]),
       Ok(Response(Accepted, [])))
  }

  /** The rows settlement reads. */
  function Positive(receivables: Amounts): Amounts {
    map p | p in receivables && receivables[p] > 0 :: receivables[p]
  }

  function Settle(t: Tables, order: seq<Pair>, now: nat): Tables {
    t.(receivables := map[], claims := t.claims + NetInOrder(Positive(t.receivables), order, now).claims)
  }

  function SetCap(t: Tables, p: Pair, cap: nat): Tables {
    if cap > I64_MAX then t else t.(caps := t.caps[p := cap])
  }

  predicate InRange(receivables: Amounts) {
    forall p :: p in receivables ==> receivables[p] <= I64_MAX
  }

  // ---------- the service ----------

  class Registry {
    var serials: map<SerialKey, Entry>
    var transcripts: seq<Entry>
    var caps: map<Pair, nat>
    var receivables: Amounts
    var claims: seq<Claim>

    function State(): Tables
      reads this
    {
      Tables(serials, transcripts, caps, receivables, claims)
    }

    method SubmitSerial(bank: string, sub: Submission, now: nat) returns (r: Result<Response, RegistryError>)
      requires InRange(receivables)
      modifies this
      ensures (State(), r) == Submit(old(State()), bank, sub, now)
      ensures InRange(receivables)
      ensures caps == old(caps) && claims == old(claims)
      ensures sub.key.denom > I64_MAX || now > I64_MAX ==> r == Err(ValueRange)
      ensures sub.key.denom <= I64_MAX && now <= I64_MAX ==>
                var p, entry := Pair(sub.issuer, bank), Entry(sub.key, bank, sub.transcript, now);
                var held := if p in old(receivables) then old(receivables)[p] else 0;
                if p in caps && caps[p] <= held then r == Ok(Response(ExposureCapExceeded, []))
                else if sub.key in old(serials) then
                  && r.Ok? && r.value.outcome == DoubleSpend
                  && SeenInOrder(r.value.transcripts)
                  && transcripts == old(transcripts) + [entry]
                  && serials == old(serials) && receivables == old(receivables)
                else if held + sub.key.denom > I64_MAX then r == Err(Database)
                else
                  && r == Ok(Response(Accepted, []))
                  && transcripts == old(transcripts) + [entry]
                  && serials == old(serials)[sub.key := entry]
                  && receivables == old(receivables)[p := held + sub.key.denom]
      ensures r.Err? || r.value.outcome == ExposureCapExceeded ==> State() == old(State())
    {
      if sub.key.denom > I64_MAX || now > I64_MAX {
        return Err(ValueRange);
      }
      var p := Pair(sub.issuer, bank);
      if p in caps {
        var outstanding := if p in receivables then receivables[p] else 0;
        if outstanding >= caps[p] {
          return Ok(Response(ExposureCapExceeded, []));
        }
      }
      // The transaction works on copies; only a commit writes them back.
      var entry := Entry(sub.key, bank, sub.transcript, now);
      var txTranscripts := transcripts + [entry];
      if sub.key in serials {
        var entries := BySeen(EntriesFor(txTranscripts, sub.key));
        BySeenInOrder(EntriesFor(txTranscripts, sub.key));
        transcripts := txTranscripts;
        return Ok(Response(DoubleSpend, entries));
      }
      var amount := sub.key.denom + if p in receivables then receivables[p] else 0;
      if amount > I64_MAX {
        return Err(Database);
      }
      transcripts, serials, receivables := txTranscripts, serials[sub.key := entry], receivables[p := amount];
      return Ok(Response(Accepted, []));
    }

    /** `order` is the order in which the hash map happens to be walked. */
    method SettleAll(now: nat, order: seq<Pair>) returns (r: Result<seq<Claim>, RegistryError>)
      requires InRange(receivables) && Walks(order, Positive(receivables))
      modifies this
      ensures now > I64_MAX ==> r == Err(ValueRange) && State() == old(State())
      ensures now <= I64_MAX ==>
                && State() == Settle(old(State()), order, now)
                && r.Ok?
                && receivables == map[]
                && |old(claims)| <= |claims| && claims[..|old(claims)|] == old(claims)
                && (forall c :: c in claims[|old(claims)|..] <==> c in r.value)
                && serials == old(serials) && transcripts == old(transcripts) && caps == old(caps)
                && Settlement(Positive(old(receivables)), r.value, now)
                && Ascending(r.value)
                && (forall c :: c in r.value ==> c.amount <= I64_MAX && c.owes != c.owed)
    {
      if now > I64_MAX {
        return Err(ValueRange);
      }
      var rows, answer := Net(Positive(receivables), order, now);
      claims, receivables := claims + rows, map[];
      return Ok(answer);
    }

    method SetExposureCap(p: Pair, cap: nat) returns (r: Result<(), RegistryError>)
      modifies this
      ensures State() == SetCap(old(State()), p, cap)
      ensures r.Err? <==> cap > I64_MAX
      ensures caps == if r.Ok? then old(caps)[p := cap] else old(caps)
      ensures State() == old(State()).(caps := caps)
    {
      if cap > I64_MAX {
        return Err(ValueRange);
      }
      caps := caps[p := cap];
      return Ok(());
    }
  }
}

/** What holds of the registry over every run of submissions, cap changes and settlements. */
module RegistryRuns {
  import opened Common
  import opened Sums
  import opened Netting
  import opened RegistryTables

  datatype Event =
    | Submitted(bank: string, sub: Submission, now: nat)
    | Settled(order: seq<Pair>, now: nat)
    | CapSet(pair: Pair, cap: nat)

  /** A submission that was answered, with the answer. */
  datatype Answer = Answer(bank: string, sub: Submission, outcome: Outcome)

  /** The tables, every answer given, and how many had been given at the last settlement. */
  datatype Trace = Trace(t: Tables, log: seq<Answer>, settled: nat)

  const INITIAL := Trace(EMPTY, [], 0)

  /** A settlement event whose order is not a walk of the table stands for no event at all. */
  ghost function Step(s: Trace, e: Event): Trace {
    match e
    case Submitted(bank, sub, now) =>
      var (t, r) := Submit(s.t, bank, sub, now);
      s.(t := t, log := if r.Ok? then s.log + [Answer(bank, sub, r.value.outcome)] else s.log)
    case Settled(order, now) =>
      if now <= I64_MAX && Walks(order, Positive(s.t.receivables))
      then s.(t := Settle(s.t, order, now), settled := |s.log|) else s
    case CapSet(pair, cap) => s.(t := SetCap(s.t, pair, cap))
  }

  ghost function Exec(s: Trace, events: seq<Event>): Trace
    decreases |events|
  {
    if events == [] then s else Exec(Step(s, events[0]), events[1..])
  }

  /** A submission leaves the tables alone, or appends a transcript, or takes the serial as well. */
  lemma SubmitCases(s: Trace, bank: string, sub: Submission, now: nat) returns (outcome: Outcome)
    ensures var s', entry := Step(s, Submitted(bank, sub, now)), Entry(sub.key, bank, sub.transcript, now);
            var p := Pair(sub.issuer, bank);
            || s' == s
            || (&& s'.log == s.log + [Answer(bank, sub, outcome)] && s'.settled == s.settled
                && match outcome
                   case ExposureCapExceeded => s'.t == s.t
                   case DoubleSpend => sub.key in s.t.serials && s'.t == s.t.(transcripts := s.t.transcripts + [entry])
                   case Accepted =>
                     && sub.key !in s.t.serials
                     && s'.t == s.t.(transcripts := s.t.transcripts + [entry],
                                     serials := s.t.serials[sub.key := entry],
                                     receivables := s.t.receivables[p := At(s.t.receivables, p) + sub.key.denom]))
  {
    var r := Submit(s.t, bank, sub, now).1;
    outcome := if r.Ok? then r.value.outcome else Accepted;
  }

  // ---------- conservation ----------

  ghost function WeighLog(log: seq<Answer>, w: Pair -> int): int {
    if log == [] then 0
    else
      var a := log[|log| - 1];
      WeighLog(log[..|log| - 1], w)
      + if a.outcome == Accepted then w(Pair(a.sub.issuer, a.bank)) * a.sub.key.denom else 0
  }

  /** What the banks have accepted is what they still hold plus what has been claimed. */
  ghost predicate Conserved(s: Trace, w: Pair -> int) {
    WeighLog(s.log, w) == Sum(s.t.receivables.Keys, Weigh(s.t.receivables, w)) + WeighClaims(s.t.claims, w)
  }

  lemma WeighReceive(m: Amounts, p: Pair, denom: nat, w: Pair -> int)
    ensures var m' := m[p := At(m, p) + denom];
            Sum(m'.Keys, Weigh(m', w)) == Sum(m.Keys, Weigh(m, w)) + w(p) * denom
  {
    var m' := m[p := At(m, p) + denom];
    MulMinus(w(p), At(m, p) + denom, At(m, p));
    if p in m {
      assert m'.Keys == m.Keys;
      SumChange(m.Keys, Weigh(m, w), Weigh(m', w), p);
    } else {
      assert m'.Keys == m.Keys + {p};
      SumInsert(m.Keys, Weigh(m', w), p);
      SumCong(m.Keys, Weigh(m, w), Weigh(m', w));
    }
  }

  lemma WeighPositive(m: Amounts, w: Pair -> int)
    ensures Sum(Positive(m).Keys, Weigh(Positive(m), w)) == Sum(m.Keys, Weigh(m, w))
  {
    SumCong(Positive(m).Keys, Weigh(Positive(m), w), Weigh(m, w));
    forall p | p in m.Keys && p !in Positive(m).Keys ensures Weigh(m, w)(p) == 0 {
      assert At(m, p) == 0;
    }
    SumExtend(Positive(m).Keys, m.Keys, Weigh(m, w));
  }

  lemma SubmitConserves(s: Trace, e: Event, w: Pair -> int)
    requires Conserved(s, w) && e.Submitted?
    ensures Conserved(Step(s, e), w)
  {
    var s' := Step(s, e);
    var _ := SubmitCases(s, e.bank, e.sub, e.now);
    if s' != s {
      assert s'.log[..|s.log|] == s.log;
      WeighReceive(s.t.receivables, Pair(e.sub.issuer, e.bank), e.sub.key.denom, w);
    }
  }

  lemma SettleConserves(t: Tables, order: seq<Pair>, now: nat, w: Pair -> int)
    requires Antisymmetric(w) && Walks(order, Positive(t.receivables))
    ensures WeighClaims(Settle(t, order, now).claims, w)
         == WeighClaims(t.claims, w) + Sum(t.receivables.Keys, Weigh(t.receivables, w))
  {
    var amounts := Positive(t.receivables);
    NettingConserves(amounts, order, now, w);
    WeighPositive(t.receivables, w);
    WeighClaimsSplit(t.claims, NetInOrder(amounts, order, now).claims, w);
  }

  lemma StepConserves(s: Trace, e: Event, w: Pair -> int)
    requires Conserved(s, w) && Antisymmetric(w)
    ensures Conserved(Step(s, e), w)
  {
    if e.Submitted? {
      SubmitConserves(s, e, w);
    } else if e.Settled? && Walks(e.order, Positive(s.t.receivables)) {
      SettleConserves(s.t, e.order, e.now, w);
    }
  }

  /** Every antisymmetric valuation of the pairs is conserved over every run. */
  lemma {:induction false} RunConserves(s: Trace, events: seq<Event>, w: Pair -> int)
    requires Antisymmetric(w) && Conserved(s, w)
    ensures Conserved(Exec(s, events), w)
    decreases |events|
  {
    if events == [] {
    } else {
      StepConserves(s, events[0], w);
      RunConserves(Step(s, events[0]), events[1..], w);
    }
  }

  // ---------- the position of one bank ----------

  /** The value accepted from `bank` as depositor. */
  function DepositorTotal(log: seq<Answer>, bank: string): nat {
    if log == [] then 0
    else
      var a := log[|log| - 1];
      DepositorTotal(log[..|log| - 1], bank) + if a.outcome == Accepted && a.bank == bank then a.sub.key.denom else 0
  }

  /** The value accepted against `bank` as issuer. */
  function IssuerTotal(log: seq<Answer>, bank: string): nat {
    if log == [] then 0
    else
      var a := log[|log| - 1];
      IssuerTotal(log[..|log| - 1], bank) + if a.outcome == Accepted && a.sub.issuer == bank then a.sub.key.denom else 0
  }

  function AcceptedPosition(log: seq<Answer>, bank: string): int {
    DepositorTotal(log, bank) - IssuerTotal(log, bank)
  }

  function ClaimPosition(claims: seq<Claim>, bank: string): int {
    if claims == [] then 0
    else
      var c := claims[|claims| - 1];
      ClaimPosition(claims[..|claims| - 1], bank)
      + (if c.owed == bank then c.amount else 0) - (if c.owes == bank then c.amount else 0)
  }

  ghost function HeldBy(m: Amounts, bank: string): Pair -> int {
    (p: Pair) => if p.depositor == bank then At(m, p) else 0
  }

  ghost function HeldAgainst(m: Amounts, bank: string): Pair -> int {
    (p: Pair) => if p.issuer == bank then At(m, p) else 0
  }

  ghost function OutstandingPosition(m: Amounts, bank: string): int {
    Sum(m.Keys, HeldBy(m, bank)) - Sum(m.Keys, HeldAgainst(m, bank))
  }

  ghost function BankWeight(bank: string): Pair -> int {
    (p: Pair) => (if p.depositor == bank then 1 else 0) - (if p.issuer == bank then 1 else 0)
  }

  lemma {:induction false} AcceptedWeight(log: seq<Answer>, bank: string)
    ensures AcceptedPosition(log, bank) == WeighLog(log, BankWeight(bank))
  {
    if log == [] {
    } else {
      AcceptedWeight(log[..|log| - 1], bank);
    }
  }

  lemma {:induction false} ClaimWeight(claims: seq<Claim>, bank: string)
    ensures ClaimPosition(claims, bank) == WeighClaims(claims, BankWeight(bank))
  {
    if claims == [] {
    } else {
      ClaimWeight(claims[..|claims| - 1], bank);
    }
  }

  lemma OutstandingWeight(m: Amounts, bank: string)
    ensures OutstandingPosition(m, bank) == Sum(m.Keys, Weigh(m, BankWeight(bank)))
  {
    SumAdd(m.Keys, Weigh(m, BankWeight(bank)), HeldAgainst(m, bank), HeldBy(m, bank));
  }

  /**
   Net-position conservation: over any run, what a bank accepted as depositor less what was
   accepted against it equals its outstanding position plus its position in the claim ledger.
   */
  lemma PositionConserved(events: seq<Event>, bank: string)
    ensures var s := Exec(INITIAL, events);
            AcceptedPosition(s.log, bank) == OutstandingPosition(s.t.receivables, bank) + ClaimPosition(s.t.claims, bank)
  {
    var s := Exec(INITIAL, events);
    RunConserves(INITIAL, events, BankWeight(bank));
    AcceptedWeight(s.log, bank);
    ClaimWeight(s.t.claims, bank);
    OutstandingWeight(s.t.receivables, bank);
  }

  lemma HeadIsMember<T>(s: seq<T>)
    ensures s == [] || s[0] in s
  {
  }

  /** Settlement clears the table, so settling again at once, in any order, claims nothing. */
  lemma SettleTwice(t: Tables, order: seq<Pair>, again: seq<Pair>, now: nat, later: nat, answer: seq<Claim>)
    requires var left := Settle(t, order, now).receivables;
             Walks(again, Positive(left)) && Settlement(Positive(left), answer, later)
    ensures answer == [] && Settle(Settle(t, order, now), again, later) == Settle(t, order, now)
  {
    HeadIsMember(answer);
    HeadIsMember(again);
    var t' := Settle(t, order, now);
    assert t'.claims + [] == t'.claims;
  }

  // ---------- exposure ----------

  /** What a cap still allows: nothing at zero, otherwise one coin past the last cent below it. */
  function Ceiling(cap: nat, largest: nat): nat {
    if cap == 0 then 0 else cap - 1 + largest
  }

  ghost predicate Exposed(t: Tables, p: Pair, largest: nat) {
    p in t.caps && At(t.receivables, p) <= Ceiling(t.caps[p], largest)
  }

  /** The event neither lowers the pair's cap nor submits a coin above `largest` for it. */
  predicate Prudent(t: Tables, e: Event, p: Pair, largest: nat) {
    match e
    case Submitted(bank, sub, _) => Pair(sub.issuer, bank) == p ==> sub.key.denom <= largest
    case CapSet(q, cap) => q == p ==> p in t.caps && cap >= t.caps[p]
    case Settled(_, _) => true
  }

  lemma ExposureStep(s: Trace, e: Event, p: Pair, largest: nat)
    requires Exposed(s.t, p, largest) && Prudent(s.t, e, p, largest)
    ensures Exposed(Step(s, e).t, p, largest)
  {
  }

  ghost predicate PrudentRun(s: Trace, events: seq<Event>, p: Pair, largest: nat)
    decreases |events|
  {
    events == [] || (Prudent(s.t, events[0], p, largest) && PrudentRun(Step(s, events[0]), events[1..], p, largest))
  }

  /** Across any mix of submissions and settlements the receivable stays under the ceiling. */
  lemma {:induction false} ExposureBound(s: Trace, events: seq<Event>, p: Pair, largest: nat)
    requires Exposed(s.t, p, largest) && PrudentRun(s, events, p, largest)
    ensures Exposed(Exec(s, events).t, p, largest)
    decreases |events|
  {
    if events == [] {
    } else {
      ExposureStep(s, events[0], p, largest);
      ExposureBound(Step(s, events[0]), events[1..], p, largest);
    }
  }

  /** A cap set while the pair holds nothing, and never lowered, bounds every later state. */
  lemma ExposureUnderCap(s: Trace, p: Pair, cap: nat, events: seq<Event>, largest: nat)
    requires At(s.t.receivables, p) == 0 && cap <= I64_MAX
    requires PrudentRun(Step(s, CapSet(p, cap)), events, p, largest)
    ensures Exposed(Exec(s, [CapSet(p, cap)] + events).t, p, largest)
  {
    var all := [CapSet(p, cap)] + events;
    assert all[0] == CapSet(p, cap) && all[1..] == events;
    ExposureBound(Step(s, CapSet(p, cap)), events, p, largest);
  }

  // ---------- answers ----------

  predicate AcceptedBefore(log: seq<Answer>, key: SerialKey) {
    exists i :: 0 <= i < |log| && log[i].outcome == Accepted && log[i].sub.key == key
  }

  /** No serial is accepted twice, and the serial table holds the accepted ones. */
  ghost predicate AcceptedOnce(s: Trace) {
    && (forall key :: key in s.t.serials <==> AcceptedBefore(s.log, key))
    && forall i, j :: 0 <= i < j < |s.log| && s.log[i].outcome == Accepted && s.log[j].outcome == Accepted ==>
         s.log[i].sub.key != s.log[j].sub.key
  }

  lemma AcceptedSnoc(log: seq<Answer>, a: Answer)
    ensures forall key :: AcceptedBefore(log + [a], key) <==>
              AcceptedBefore(log, key) || (a.outcome == Accepted && a.sub.key == key)
  {
    var longer := log + [a];
    assert forall i :: 0 <= i < |log| ==> longer[i] == log[i];
    assert longer[|log|] == a;
  }

  lemma StepAcceptedOnce(s: Trace, e: Event)
    requires AcceptedOnce(s)
    ensures AcceptedOnce(Step(s, e))
  {
    if e.Submitted? {
      var outcome := SubmitCases(s, e.bank, e.sub, e.now);
      AcceptedSnoc(s.log, Answer(e.bank, e.sub, outcome));
    }
  }

  lemma {:induction false} RunAcceptedOnce(s: Trace, events: seq<Event>)
    requires AcceptedOnce(s)
    ensures AcceptedOnce(Exec(s, events))
    decreases |events|
  {
    if events == [] {
    } else {
      StepAcceptedOnce(s, events[0]);
      RunAcceptedOnce(Step(s, events[0]), events[1..]);
    }
  }

  /** The value accepted for a pair in a stretch of the history. */
  function PairTotal(log: seq<Answer>, p: Pair): nat {
    if log == [] then 0
    else
      var a := log[|log| - 1];
      PairTotal(log[..|log| - 1], p)
      + if a.outcome == Accepted && Pair(a.sub.issuer, a.bank) == p then a.sub.key.denom else 0
  }

  lemma PairTotalSnoc(log: seq<Answer>, a: Answer, p: Pair)
    ensures PairTotal(log + [a], p)
         == PairTotal(log, p) + if a.outcome == Accepted && Pair(a.sub.issuer, a.bank) == p then a.sub.key.denom else 0
  {
    assert (log + [a])[..|log|] == log;
  }

  /** A pair's receivable is the value accepted for it since the last settlement. */
  ghost predicate SinceSettlement(s: Trace, p: Pair) {
    s.settled <= |s.log| && At(s.t.receivables, p) == PairTotal(s.log[s.settled..], p)
  }

  lemma StepSinceSettlement(s: Trace, e: Event, p: Pair)
    requires SinceSettlement(s, p)
    ensures SinceSettlement(Step(s, e), p)
  {
    if e.Submitted? {
      var s' := Step(s, e);
      var outcome := SubmitCases(s, e.bank, e.sub, e.now);
      if s' != s {
        var a := Answer(e.bank, e.sub, outcome);
        assert s'.log[s.settled..] == s.log[s.settled..] + [a];
        PairTotalSnoc(s.log[s.settled..], a, p);
      }
    }
  }

  lemma {:induction false} RunSinceSettlement(s: Trace, events: seq<Event>, p: Pair)
    requires SinceSettlement(s, p)
    ensures SinceSettlement(Exec(s, events), p)
    decreases |events|
  {
    if events == [] {
    } else {
      StepSinceSettlement(s, events[0], p);
      RunSinceSettlement(Step(s, events[0]), events[1..], p);
    }
  }

  /**
   In every reachable state a submission within range is refused exactly when the value accepted for
   its pair since the last settlement has reached the pair's cap, otherwise a double spend exactly when
   the serial was accepted before, otherwise accepted unless the pair's total would overflow.
   */
  lemma SubmissionDecidedByHistory(events: seq<Event>, bank: string, sub: Submission, now: nat)
    requires sub.key.denom <= I64_MAX && now <= I64_MAX
    ensures var s, p := Exec(INITIAL, events), Pair(sub.issuer, bank);
            var r := Submit(s.t, bank, sub, now).1;
            && AcceptedOnce(s)
            && SinceSettlement(s, p)
            && var total := PairTotal(s.log[s.settled..], p);
            var capped := p in s.t.caps && s.t.caps[p] <= total;
            && (r.Ok? && r.value.outcome == ExposureCapExceeded <==> capped)
            && (r.Ok? && r.value.outcome == DoubleSpend <==> !capped && AcceptedBefore(s.log, sub.key))
            && (r.Ok? && r.value.outcome == Accepted <==>
                !capped && !AcceptedBefore(s.log, sub.key) && total + sub.key.denom <= I64_MAX)
            && (r.Err? ==> r.error == Database)
  {
    RunAcceptedOnce(INITIAL, events);
    RunSinceSettlement(INITIAL, events, Pair(sub.issuer, bank));
  }

  // ---------- what was received from one bank ----------

  /** The serials first taken from `bank`. */
  function Received(t: Tables, bank: string): set<SerialKey> {
    set key | key in t.serials && t.serials[key].bank == bank
  }

  ghost function Face(): SerialKey -> int {
    (key: SerialKey) => key.denom
  }

  /** The serial table accounts for the value accepted from the bank. */
  ghost predicate ReceivedIs(s: Trace, bank: string) {
    DepositorTotal(s.log, bank) == Sum(Received(s.t, bank), Face())
  }

  lemma StepReceived(s: Trace, e: Event, bank: string)
    requires ReceivedIs(s, bank)
    ensures ReceivedIs(Step(s, e), bank)
  {
    var s' := Step(s, e);
    if e.Submitted? {
      var outcome := SubmitCases(s, e.bank, e.sub, e.now);
      if s' != s {
        assert s'.log[..|s.log|] == s.log;
        if outcome == Accepted && e.bank == bank {
          assert Received(s'.t, bank) == Received(s.t, bank) + {e.sub.key};
          SumInsert(Received(s.t, bank), Face(), e.sub.key);
        } else {
          assert Received(s'.t, bank) == Received(s.t, bank);
        }
      }
    }
  }

  lemma {:induction false} RunReceived(s: Trace, events: seq<Event>, bank: string)
    requires ReceivedIs(s, bank)
    ensures ReceivedIs(Exec(s, events), bank)
    decreases |events|
  {
    if events == [] {
    } else {
      StepReceived(s, events[0], bank);
      RunReceived(Step(s, events[0]), events[1..], bank);
    }
  }

  // ---------- attribution ----------

  function DoubleSpends(log: seq<Answer>, key: SerialKey): nat {
    if log == [] then 0
    else
      var a := log[|log| - 1];
      DoubleSpends(log[..|log| - 1], key) + if a.outcome == DoubleSpend && a.sub.key == key then 1 else 0
  }

  /** One transcript per acceptance and per double-spend answer, the first depositor's first. */
  ghost predicate Attributed(s: Trace, key: SerialKey) {
    var entries := EntriesFor(s.t.transcripts, key);
    if key in s.t.serials
    then |entries| == 1 + DoubleSpends(s.log, key) && entries[0] == s.t.serials[key]
    else entries == [] && DoubleSpends(s.log, key) == 0
  }

  lemma {:induction false} AttributionHolds(s: Trace, events: seq<Event>, key: SerialKey)
    requires Attributed(s, key)
    ensures Attributed(Exec(s, events), key)
    decreases |events|
  {
    if events == [] {
    } else {
      AttributionStep(s, events[0], key);
      AttributionHolds(Step(s, events[0]), events[1..], key);
    }
  }

  lemma EntriesSnoc(entries: seq<Entry>, e: Entry, key: SerialKey)
    ensures EntriesFor(entries + [e], key) == EntriesFor(entries, key) + if e.key == key then [e] else []
  {
    assert (entries + [e])[..|entries|] == entries;
  }

  lemma DoubleSpendsSnoc(log: seq<Answer>, a: Answer, key: SerialKey)
    ensures DoubleSpends(log + [a], key)
         == DoubleSpends(log, key) + if a.outcome == DoubleSpend && a.sub.key == key then 1 else 0
  {
    assert (log + [a])[..|log|] == log;
  }

  lemma AttributionStep(s: Trace, e: Event, key: SerialKey)
    requires Attributed(s, key)
    ensures Attributed(Step(s, e), key)
  {
    if e.Submitted? {
      var s', entry := Step(s, e), Entry(e.sub.key, e.bank, e.sub.transcript, e.now);
      var outcome := SubmitCases(s, e.bank, e.sub, e.now);
      if s'.log != s.log {
        DoubleSpendsSnoc(s.log, Answer(e.bank, e.sub, outcome), key);
        EntriesSnoc(s.t.transcripts, entry, key);
      }
    }
  }

  // ---------- what a double-spend answer shows ----------

  lemma SameSize(a: seq<Entry>, b: seq<Entry>)
    requires multiset(a) == multiset(b)
    ensures |a| == |b| && forall i :: 0 <= i < |b| ==> b[i] in a
  {
    assert |multiset(a)| == |a| && |multiset(b)| == |b|;
    forall i | 0 <= i < |b| ensures b[i] in a {
      assert b[i] in multiset(b);
    }
  }

  /** The transcripts an answer shows, given the transcripts recorded. */
  lemma AnswerShowsAll(before: seq<Entry>, current: Entry)
    requires before != []
    ensures var shown := BySeen(before + [current]);
            SeenInOrder(shown) && |shown| == |before| + 1 && before[0] in shown && current in shown
  {
    var entries := before + [current];
    BySeenIs(entries);
    SameSize(BySeen(entries), entries);
    assert entries[0] == before[0] && entries[|before|] == current;
  }

  /**
   A double-spend answer lists, oldest first, every transcript ever recorded for the serial: one
   for the acceptance and one for each double spend so far, the first depositor's and the current
   submission's among them.
   */
  lemma DoubleSpendShowsAll(events: seq<Event>, bank: string, sub: Submission, now: nat, t: Tables, shown: seq<Entry>)
    requires Submit(Exec(INITIAL, events).t, bank, sub, now) == (t, Ok(Response(DoubleSpend, shown)))
    ensures SeenInOrder(shown) && multiset(shown) == multiset(EntriesFor(t.transcripts, sub.key))
    ensures forall moment :: SeenAt(shown, moment) == SeenAt(EntriesFor(t.transcripts, sub.key), moment)
    ensures |shown| == DoubleSpends(Exec(INITIAL, events).log, sub.key) + 2
    ensures t.serials[sub.key] in shown && Entry(sub.key, bank, sub.transcript, now) in shown
  {
    var s, current := Exec(INITIAL, events), Entry(sub.key, bank, sub.transcript, now);
    AttributionHolds(INITIAL, events, sub.key);
    EntriesSnoc(s.t.transcripts, current, sub.key);
    AnswerShowsAll(EntriesFor(s.t.transcripts, sub.key), current);
    BySeenIs(EntriesFor(t.transcripts, sub.key));
    forall moment ensures SeenAt(shown, moment) == SeenAt(EntriesFor(t.transcripts, sub.key), moment) {
      BySeenStable(EntriesFor(t.transcripts, sub.key), moment);
    }
  }
}
