/**
 The ledger equation: what every account, and every group of accounts, must hold in every
 reachable state, and exactly when a second refund breaks it.
 */
module BankLedger {
  import opened Common
  import opened Sums
  import opened BankTables
  import opened BankRuns

  // ---------- the quantities ----------

  ghost function Balance(t: Tables, group: set<string>): string -> int {
    a => if a in t.accounts && a in group then t.accounts[a] else 0
  }

  ghost function Balances(t: Tables, group: set<string>): int {
    Sum(t.accounts.Keys, Balance(t, group))
  }

  /** The opening credits given to accounts of the group. */
  function Openings(log: seq<Happened>, group: set<string>): nat {
    if log == [] then 0
    else
      Openings(log[..|log| - 1], group) +
      match log[|log| - 1]
      case Opened(account, amount) => if account in group then amount else 0
      case _ => 0
  }

  predicate Belongs(t: Tables, id: string, group: set<string>) {
    id in t.withdrawals && t.withdrawals[id].account in group
  }

  /** A withdrawal that is pending, signed or completed. */
  ghost function Active(t: Tables, group: set<string>): string -> int {
    id => if Belongs(t, id, group) && t.withdrawals[id].state != Compensated then t.withdrawals[id].denom else 0
  }

  ghost function Withdrawn(t: Tables, group: set<string>): int {
    Sum(t.withdrawals.Keys, Active(t, group))
  }

  ghost function Credit(t: Tables, group: set<string>): string -> int {
    id => if id in t.deposits && t.deposits[id].account in group then t.deposits[id].coin.denom else 0
  }

  ghost function Deposited(t: Tables, group: set<string>): int {
    Sum(t.deposits.Keys, Credit(t, group))
  }

  /** Balance = opening credits - outstanding withdrawals + deposits. */
  ghost predicate LedgerHolds(w: World, group: set<string>) {
    Balances(w.t, group) == Openings(w.log, group) - Withdrawn(w.t, group) + Deposited(w.t, group)
  }

  // ---------- the unconditional equation, which counts refunds ----------

  /** `denom` paid back `n` times over. */
  function Returned(n: nat, denom: nat): nat {
    if n == 0 then 0 else denom + Returned(n - 1, denom)
  }

  /** A withdrawal's debit less its refunds, however many there were. */
  ghost function NetDebit(t: Tables, log: seq<Happened>, group: set<string>): string -> int {
    id => if Belongs(t, id, group)
          then t.withdrawals[id].denom - Returned(Refunds(log, id), t.withdrawals[id].denom)
          else 0
  }

  ghost function NetDebits(t: Tables, log: seq<Happened>, group: set<string>): int {
    Sum(t.withdrawals.Keys, NetDebit(t, log, group))
  }

  ghost predicate Accounted(t: Tables, log: seq<Happened>, group: set<string>) {
    Balances(t, group) == Openings(log, group) - NetDebits(t, log, group) + Deposited(t, group)
  }

  lemma OpeningsSnoc(log: seq<Happened>, h: Happened, group: set<string>)
    ensures Openings(log + [h], group)
         == Openings(log, group) + if h.Opened? && h.account in group then h.amount else 0
  {
    assert (log + [h])[..|log|] == log;
  }

  // How one change to a table moves one of the sums.

  lemma BalancesMove(t: Tables, t': Tables, account: string, group: set<string>)
    requires account in t.accounts && account in t'.accounts
    requires t'.accounts == t.accounts[account := t'.accounts[account]]
    ensures Balances(t', group) == Balances(t, group) - Balance(t, group)(account) + Balance(t', group)(account)
  {
    assert t'.accounts.Keys == t.accounts.Keys;
    SumChange(t.accounts.Keys, Balance(t, group), Balance(t', group), account);
  }

  lemma BalancesInsert(t: Tables, t': Tables, account: string, amount: nat, group: set<string>)
    requires account !in t.accounts && t'.accounts == t.accounts[account := amount]
    ensures Balances(t', group) == Balances(t, group) + if account in group then amount else 0
  {
    assert t'.accounts.Keys == t.accounts.Keys + {account};
    SumInsert(t.accounts.Keys, Balance(t', group), account);
    SumCong(t.accounts.Keys, Balance(t, group), Balance(t', group));
  }

  lemma BalancesSame(t: Tables, t': Tables, group: set<string>)
    requires t'.accounts == t.accounts
    ensures Balances(t', group) == Balances(t, group)
  {
    SumCong(t.accounts.Keys, Balance(t, group), Balance(t', group));
  }

  lemma DepositedSame(t: Tables, t': Tables, group: set<string>)
    requires t'.deposits == t.deposits
    ensures Deposited(t', group) == Deposited(t, group)
  {
    SumCong(t.deposits.Keys, Credit(t, group), Credit(t', group));
  }

  lemma DepositedInsert(t: Tables, t': Tables, id: string, d: Deposit, group: set<string>)
    requires id !in t.deposits && t'.deposits == t.deposits[id := d]
    ensures Deposited(t', group) == Deposited(t, group) + if d.account in group then d.coin.denom else 0
  {
    assert t'.deposits.Keys == t.deposits.Keys + {id};
    SumInsert(t.deposits.Keys, Credit(t', group), id);
    SumCong(t.deposits.Keys, Credit(t, group), Credit(t', group));
  }

  /** The records agree in all that the equation reads of them. */
  ghost predicate SameRecords(t: Tables, t': Tables) {
    && t'.withdrawals.Keys == t.withdrawals.Keys
    && forall id :: id in t.withdrawals ==>
         && t'.withdrawals[id].account == t.withdrawals[id].account
         && t'.withdrawals[id].denom == t.withdrawals[id].denom
  }

  ghost predicate SameRefunds(log: seq<Happened>, log': seq<Happened>) {
    forall id :: Refunds(log', id) == Refunds(log, id)
  }

  lemma NetDebitsSame(t: Tables, t': Tables, log: seq<Happened>, log': seq<Happened>, group: set<string>)
    requires SameRecords(t, t') && SameRefunds(log, log')
    ensures NetDebits(t', log', group) == NetDebits(t, log, group)
  {
    SumCong(t.withdrawals.Keys, NetDebit(t, log, group), NetDebit(t', log', group));
  }

  lemma NetDebitsInsert(
    t: Tables, t': Tables, log: seq<Happened>, log': seq<Happened>, id: string, rec: Withdrawal, group: set<string>)
    requires id !in t.withdrawals && t'.withdrawals == t.withdrawals[id := rec]
    requires SameRefunds(log, log') && Refunds(log, id) == 0
    ensures NetDebits(t', log', group) == NetDebits(t, log, group) + if rec.account in group then rec.denom else 0
  {
    assert t'.withdrawals.Keys == t.withdrawals.Keys + {id};
    assert Refunds(log', id) == 0;
    SumInsert(t.withdrawals.Keys, NetDebit(t', log', group), id);
    SumCong(t.withdrawals.Keys, NetDebit(t, log, group), NetDebit(t', log', group));
  }

  lemma NetDebitsRefund(t: Tables, t': Tables, log: seq<Happened>, id: string, group: set<string>)
    requires id in t.withdrawals && t'.withdrawals == t.withdrawals[id := t.withdrawals[id].(state := Compensated)]
    ensures NetDebits(t', log + [Refunded(id)], group)
         == NetDebits(t, log, group) - if Belongs(t, id, group) then t.withdrawals[id].denom else 0
  {
    var log' := log + [Refunded(id)];
    RefundsSnoc(log, Refunded(id));
    assert t'.withdrawals.Keys == t.withdrawals.Keys;
    SumChange(t.withdrawals.Keys, NetDebit(t, log, group), NetDebit(t', log', group), id);
  }

  // Transaction by transaction.

  /** An event the equation does not read, over tables that agree in what it does read. */
  lemma Unmoved(t: Tables, t': Tables, log: seq<Happened>, h: Happened, group: set<string>)
    requires Accounted(t, log, group) && (h.Replied? || h.Debited?)
    requires SameRecords(t, t') && t'.accounts == t.accounts && t'.deposits == t.deposits
    ensures Accounted(t', log, group) && Accounted(t', log + [h], group)
  {
    OpeningsSnoc(log, h, group);
    RefundsSnoc(log, h);
    BalancesSame(t, t', group);
    NetDebitsSame(t, t', log, log, group);
    NetDebitsSame(t, t', log, log + [h], group);
    DepositedSame(t, t', group);
  }

  lemma OpenAccounted(t: Tables, log: seq<Happened>, account: string, amount: nat, group: set<string>)
    requires Accounted(t, log, group) && account !in t.accounts
    ensures Accounted(t.(accounts := t.accounts[account := amount]), log + [Opened(account, amount)], group)
  {
    var t', h := t.(accounts := t.accounts[account := amount]), Opened(account, amount);
    OpeningsSnoc(log, h, group);
    RefundsSnoc(log, h);
    BalancesInsert(t, t', account, amount, group);
    NetDebitsSame(t, t', log, log + [h], group);
    DepositedSame(t, t', group);
  }

  lemma DebitAccounted(t: Tables, log: seq<Happened>, req: WithdrawRequest, group: set<string>)
    requires Accounted(t, log, group) && Debit(t, req).1.Ok? && Refunds(log, req.requestId) == 0
    ensures Accounted(Debit(t, req).0, log + [Debited(req.requestId)], group)
  {
    var t', h := Debit(t, req).0, Debited(req.requestId);
    OpeningsSnoc(log, h, group);
    RefundsSnoc(log, h);
    BalancesMove(t, t', req.account, group);
    NetDebitsInsert(t, t', log, log + [h], req.requestId, t'.withdrawals[req.requestId], group);
    DepositedSame(t, t', group);
  }

  lemma RefundAccounted(t: Tables, log: seq<Happened>, id: string, group: set<string>)
    requires Accounted(t, log, group) && id in t.withdrawals && t.withdrawals[id].account in t.accounts
    requires Compensate(t, id, t.withdrawals[id].account, t.withdrawals[id].denom).1.Ok?
    ensures Accounted(Compensate(t, id, t.withdrawals[id].account, t.withdrawals[id].denom).0, log + [Refunded(id)], group)
  {
    var rec := t.withdrawals[id];
    var t' := Compensate(t, id, rec.account, rec.denom).0;
    OpeningsSnoc(log, Refunded(id), group);
    BalancesMove(t, t', rec.account, group);
    NetDebitsRefund(t, t', log, id, group);
    DepositedSame(t, t', group);
  }

  lemma DepositAccounted(t: Tables, log: seq<Happened>, req: DepositRequest, stale: bool, group: set<string>)
    requires Accounted(t, log, group)
    ensures CommitDeposit(t, req, stale).1 == Ok(Accepted) ==>
              Accounted(CommitDeposit(t, req, stale).0, log + [Credited(req)], group)
  {
    var (t', r) := CommitDeposit(t, req, stale);
    if r == Ok(Accepted) {
      OpeningsSnoc(log, Credited(req), group);
      RefundsSnoc(log, Credited(req));
      BalancesMove(t, t', req.account, group);
      DepositedInsert(t, t', req.requestId, Deposit(req.coin.id, req.account), group);
      NetDebitsSame(t, t', log, log + [Credited(req)], group);
    }
  }

  lemma SameAfterRestating(t: Tables, id: string, rec: Withdrawal)
    requires id in t.withdrawals && rec.account == t.withdrawals[id].account && rec.denom == t.withdrawals[id].denom
    ensures SameRecords(t, t.(withdrawals := t.withdrawals[id := rec]))
  {
  }

  lemma SignedAccounted(t: Tables, log: seq<Happened>, id: string, signature: Bytes, group: set<string>)
    requires Accounted(t, log, group)
    ensures Accounted(MarkSigned(t, id, signature), log, group)
  {
    if id in t.withdrawals {
      SameAfterRestating(t, id, t.withdrawals[id].(state := Signed, signature := Some(signature)));
    }
    Unmoved(t, MarkSigned(t, id, signature), log, Replied(id, signature), group);
  }

  lemma CompletedAccounted(t: Tables, log: seq<Happened>, id: string, signature: Bytes, group: set<string>)
    requires Accounted(t, log, group)
    ensures Accounted(SetState(t, id, Completed), log + [Replied(id, signature)], group)
  {
    if id in t.withdrawals {
      SameAfterRestating(t, id, t.withdrawals[id].(state := Completed));
    }
    Unmoved(t, SetState(t, id, Completed), log, Replied(id, signature), group);
  }

  /** A finalizer's snapshot is its record, and the record's account exists. */
  lemma FinalizerKnows(sign: Signer, w: World, p: nat)
    requires Inv(sign, w) && p in w.procs && w.procs[p].Finalizing?
    ensures var f := w.procs[p];
            && f.id in w.t.withdrawals && f.account in w.t.accounts
            && w.t.withdrawals[f.id].account == f.account && w.t.withdrawals[f.id].denom == f.denom
  {
    assert ProcValid(sign, w.t, w.procs[p]) && RecordValid(sign, w.t, w.procs[p].id);
  }

  lemma FinalizingAccounted(sign: Signer, w: World, w': World, p: nat, group: set<string>)
    requires Accounted(w.t, w.log, group) && p in w.procs && w.procs[p].Finalizing? && w' == Advanced(sign, w, p)
    requires var f := w.procs[p];
             && f.id in w.t.withdrawals && f.account in w.t.accounts
             && w.t.withdrawals[f.id].account == f.account && w.t.withdrawals[f.id].denom == f.denom
    ensures Accounted(w'.t, w'.log, group)
  {
    var f := w.procs[p];
    if f.denom !in w.served {
      assert w'.t == w.t && w'.log == w.log;
    } else {
      match sign(f.denom, f.blinded) {
        case Some(signature) =>
          assert w'.t == MarkSigned(w.t, f.id, signature) && w'.log == w.log;
          SignedAccounted(w.t, w.log, f.id, signature, group);
        case None =>
          if Compensate(w.t, f.id, f.account, f.denom).1.Err? {
            assert w'.t == w.t && w'.log == w.log;
          } else {
            assert w'.t == Compensate(w.t, f.id, f.account, f.denom).0 && w'.log == w.log + [Refunded(f.id)];
            RefundAccounted(w.t, w.log, f.id, group);
          }
      }
    }
  }

  lemma AdvanceAccounted(sign: Signer, w: World, w': World, p: nat, group: set<string>)
    requires Inv(sign, w) && Accounted(w.t, w.log, group) && p in w.procs && w' == Advanced(sign, w, p)
    ensures Accounted(w'.t, w'.log, group)
  {
    match w.procs[p]
    case Debiting(req) =>
      if Debit(w.t, req).1.Ok? {
        assert w'.t == Debit(w.t, req).0 && w'.log == w.log + [Debited(req.requestId)];
        DebitAccounted(w.t, w.log, req, group);
      } else {
        assert w'.t == w.t && w'.log == w.log;
      }
    case Completing(id, signature) =>
      assert w'.t == SetState(w.t, id, Completed) && w'.log == w.log + [Replied(id, signature)];
      CompletedAccounted(w.t, w.log, id, signature, group);
    case Finalizing(_, _, _, _) =>
      FinalizerKnows(sign, w, p);
      FinalizingAccounted(sign, w, w', p, group);
  }

  lemma ResumingAccounted(w: World, w': World, p: nat, id: string, group: set<string>)
    requires Accounted(w.t, w.log, group) && id in w.t.withdrawals && w' == Resuming(w, p, id)
    ensures Accounted(w'.t, w'.log, group)
  {
    var rec := w.t.withdrawals[id];
    if rec.state == Completed && rec.signature.Some? {
      assert w'.t == w.t && w'.log == w.log + [Replied(id, rec.signature.value)];
      Unmoved(w.t, w.t, w.log, Replied(id, rec.signature.value), group);
    } else {
      assert w'.t == w.t && w'.log == w.log;
    }
  }

  lemma StepAccounted(sign: Signer, w: World, w': World, e: Event, group: set<string>)
    requires Inv(sign, w) && Accounted(w.t, w.log, group) && w' == Step(sign, w, e)
    ensures Accounted(w'.t, w'.log, group)
  {
    if w'.t == w.t && w'.log == w.log {
      return;
    }
    match e
    case Open(account, amount) => OpenAccounted(w.t, w.log, account, amount, group);
    case Begin(p, req) => ResumingAccounted(w, w', p, req.requestId, group);
    case Recover(p, id) => ResumingAccounted(w, w', p, id, group);
    case Advance(p) => AdvanceAccounted(sign, w, w', p, group);
    case DepositCommitted(req, stale) => DepositAccounted(w.t, w.log, req, stale, group);
    case Crash(_) =>
  }

  lemma {:induction false} RunAccounted(sign: Signer, w: World, events: seq<Event>, group: set<string>)
    requires Inv(sign, w) && Accounted(w.t, w.log, group)
    ensures Inv(sign, Exec(sign, w, events))
    ensures Accounted(Exec(sign, w, events).t, Exec(sign, w, events).log, group)
    decreases |events|
  {
    if events == [] {
    } else {
      StepInv(sign, w, events[0]);
      StepAccounted(sign, w, Step(sign, w, events[0]), events[0], group);
      RunAccounted(sign, Step(sign, w, events[0]), events[1..], group);
    }
  }

  // ---------- exactly when the equation holds ----------

  lemma {:induction false} ReturnedIs(n: nat, denom: nat)
    requires n > 0
    ensures Returned(n, denom) >= denom
    ensures Returned(n, denom) == denom <==> n == 1 || denom == 0
  {
    if n == 1 {
    } else {
      ReturnedIs(n - 1, denom);
    }
  }

  /** What second and later refunds of a withdrawal have paid out in excess. */
  ghost function Excess(t: Tables, log: seq<Happened>, group: set<string>): string -> int {
    id => if Belongs(t, id, group) && Refunds(log, id) > 0
          then Returned(Refunds(log, id), t.withdrawals[id].denom) - t.withdrawals[id].denom
          else 0
  }

  predicate RepeatedRefund(t: Tables, log: seq<Happened>, group: set<string>, id: string) {
    Belongs(t, id, group) && t.withdrawals[id].denom > 0 && Refunds(log, id) > 1
  }

  lemma ExcessIs(w: World, group: set<string>, id: string)
    requires CountsValid(w.t, w.log)
    ensures Active(w.t, group)(id) == NetDebit(w.t, w.log, group)(id) + Excess(w.t, w.log, group)(id)
    ensures Excess(w.t, w.log, group)(id) >= 0
    ensures Excess(w.t, w.log, group)(id) == 0 <==> !RepeatedRefund(w.t, w.log, group, id)
  {
    if Belongs(w.t, id, group) && Refunds(w.log, id) > 0 {
      ReturnedIs(Refunds(w.log, id), w.t.withdrawals[id].denom);
    }
  }

  /** No withdrawal of the group was refunded more than once (a refund of nothing aside). */
  ghost predicate RefundedOnce(w: World, group: set<string>) {
    forall id :: id in w.t.withdrawals ==> !RepeatedRefund(w.t, w.log, group, id)
  }

  /** In every reachable state the ledger equation holds exactly if no refund was repeated. */
  lemma LedgerExactly(w: World, group: set<string>)
    requires CountsValid(w.t, w.log) && Accounted(w.t, w.log, group)
    ensures LedgerHolds(w, group) <==> RefundedOnce(w, group)
  {
    var ids := w.t.withdrawals.Keys;
    var active, net, excess := Active(w.t, group), NetDebit(w.t, w.log, group), Excess(w.t, w.log, group);
    forall id | id in ids
      ensures active(id) == net(id) + excess(id) && excess(id) >= 0
      ensures excess(id) == 0 <==> !RepeatedRefund(w.t, w.log, group, id)
    {
      ExcessIs(w, group, id);
    }
    SumAdd(ids, net, excess, active);
    SumNonNegative(ids, excess);
  }

  // ---------- the step that breaks it ----------

  /** The step compensates withdrawal `id`. */
  predicate Compensates(sign: Signer, w: World, e: Event, id: string) {
    && e.Advance? && e.proc in w.procs
    && var f := w.procs[e.proc];
    && Failing(sign, f) && f.id == id && f.denom in w.served
    && Compensate(w.t, id, f.account, f.denom).1.Ok?
  }

  /** The step compensates, for a positive amount, a withdrawal of the group already compensated. */
  predicate RepeatsRefund(sign: Signer, w: World, e: Event, group: set<string>) {
    && e.Advance? && e.proc in w.procs
    && var f := w.procs[e.proc];
    && Failing(sign, f) && 0 < f.denom <= I64_MAX && f.denom in w.served && f.account in group
    && f.account in w.t.accounts && w.t.accounts[f.account] + f.denom <= I64_MAX
    && f.id in w.t.withdrawals && w.t.withdrawals[f.id].state == Compensated
  }

  /** Refunds are counted exactly where a step compensates. */
  lemma StepRefunds(sign: Signer, w: World, w': World, e: Event, id: string)
    requires w' == Step(sign, w, e)
    ensures Refunds(w'.log, id) == Refunds(w.log, id) + if Compensates(sign, w, e, id) then 1 else 0
  {
    match e
    case Open(account, amount) => RefundsSnoc(w.log, Opened(account, amount));
    case Begin(p, req) =>
      if p !in w.procs && req.requestId in w.t.withdrawals {
        ResumingRefunds(w, p, req.requestId);
      }
    case Recover(p, i) =>
      if w' != w {
        ResumingRefunds(w, p, i);
      }
    case Advance(p) =>
      if p in w.procs {
        AdvanceRefunds(sign, w, w', p, id);
      }
    case DepositCommitted(req, _) => RefundsSnoc(w.log, Credited(req));
    case Crash(_) =>
  }

  lemma ResumingRefunds(w: World, p: nat, id: string)
    requires id in w.t.withdrawals
    ensures SameRefunds(w.log, Resuming(w, p, id).log)
  {
    var signature := w.t.withdrawals[id].signature;
    if signature.Some? {
      RefundsSnoc(w.log, Replied(id, signature.value));
    }
  }

  lemma AdvanceRefunds(sign: Signer, w: World, w': World, p: nat, id: string)
    requires p in w.procs && w' == Advanced(sign, w, p)
    ensures Refunds(w'.log, id) == Refunds(w.log, id) + if Compensates(sign, w, Advance(p), id) then 1 else 0
  {
    match w.procs[p]
    case Debiting(req) => RefundsSnoc(w.log, Debited(req.requestId));
    case Finalizing(i, _, _, _) => RefundsSnoc(w.log, Refunded(i));
    case Completing(i, signature) => RefundsSnoc(w.log, Replied(i, signature));
  }

  /** The record is still there, for the same account and amount. */
  predicate RecordKept(t: Tables, t': Tables, id: string)
    requires id in t.withdrawals
  {
    && id in t'.withdrawals
    && t'.withdrawals[id].account == t.withdrawals[id].account
    && t'.withdrawals[id].denom == t.withdrawals[id].denom
  }

  /** No step forgets a record or changes whose it is and for how much. */
  lemma StepKeepsRecord(sign: Signer, w: World, w': World, e: Event, id: string)
    requires w' == Step(sign, w, e) && id in w.t.withdrawals
    ensures RecordKept(w.t, w'.t, id)
  {
    if e.Advance? && e.proc in w.procs {
      AdvanceKeepsRecord(sign, w, w', e.proc, id);
    } else {
      assert w'.t.withdrawals == w.t.withdrawals;
    }
  }

  lemma AdvanceKeepsRecord(sign: Signer, w: World, w': World, p: nat, id: string)
    requires p in w.procs && w' == Advanced(sign, w, p) && id in w.t.withdrawals
    ensures RecordKept(w.t, w'.t, id)
  {
  }

  lemma CompensatesKnown(sign: Signer, w: World, e: Event, id: string)
    requires Inv(sign, w) && Compensates(sign, w, e, id)
    ensures id in w.t.withdrawals && w.t.withdrawals[id].account in w.t.accounts
    ensures w.t.withdrawals[id].account == w.procs[e.proc].account && w.t.withdrawals[id].denom == w.procs[e.proc].denom
  {
    FinalizerKnows(sign, w, e.proc);
  }

  lemma RepeatBreaks(sign: Signer, w: World, w': World, e: Event, group: set<string>)
    requires Inv(sign, w) && w' == Step(sign, w, e) && RepeatsRefund(sign, w, e, group)
    ensures !RefundedOnce(w', group)
  {
    var id := w.procs[e.proc].id;
    FinalizerKnows(sign, w, e.proc);
    assert Compensates(sign, w, e, id) && Refunds(w.log, id) > 0;
    StepRefunds(sign, w, w', e, id);
    StepKeepsRecord(sign, w, w', e, id);
    assert RepeatedRefund(w'.t, w'.log, group, id);
  }

  lemma OnlyRepeatBreaks(sign: Signer, w: World, w': World, e: Event, group: set<string>, id: string)
    requires Inv(sign, w) && w' == Step(sign, w, e) && RefundedOnce(w, group)
    requires RepeatedRefund(w'.t, w'.log, group, id)
    ensures RepeatsRefund(sign, w, e, group)
  {
    StepRefunds(sign, w, w', e, id);
    if Compensates(sign, w, e, id) {
      CompensatesKnown(sign, w, e, id);
    }
    assert id in w.t.withdrawals;
    StepKeepsRecord(sign, w, w', e, id);
    assert !RepeatedRefund(w.t, w.log, group, id);
  }

  /** A repeated refund is never made good. */
  lemma BrokenStays(sign: Signer, w: World, w': World, e: Event, group: set<string>)
    requires w' == Step(sign, w, e) && !RefundedOnce(w, group)
    ensures !RefundedOnce(w', group)
  {
    var id :| id in w.t.withdrawals && RepeatedRefund(w.t, w.log, group, id);
    StepRefunds(sign, w, w', e, id);
    StepKeepsRecord(sign, w, w', e, id);
    assert RepeatedRefund(w'.t, w'.log, group, id);
  }

  /**
   The guard of the failing branch: from a reachable state in which the equation holds, a step breaks
   it if and only if it compensates a withdrawal that is already compensated.
   */
  lemma LedgerStepExactly(sign: Signer, w: World, e: Event, group: set<string>)
    requires Inv(sign, w) && Accounted(w.t, w.log, group) && LedgerHolds(w, group)
    ensures LedgerHolds(Step(sign, w, e), group) <==> !RepeatsRefund(sign, w, e, group)
  {
    var w' := Step(sign, w, e);
    StepInv(sign, w, e);
    StepAccounted(sign, w, w', e, group);
    LedgerExactly(w, group);
    LedgerExactly(w', group);
    StepBreaksExactly(sign, w, w', e, group);
  }

  lemma StepBreaksExactly(sign: Signer, w: World, w': World, e: Event, group: set<string>)
    requires Inv(sign, w) && w' == Step(sign, w, e) && RefundedOnce(w, group)
    ensures RefundedOnce(w', group) <==> !RepeatsRefund(sign, w, e, group)
  {
    if RepeatsRefund(sign, w, e, group) {
      RepeatBreaks(sign, w, w', e, group);
    } else if !RefundedOnce(w', group) {
      var id :| id in w'.t.withdrawals && RepeatedRefund(w'.t, w'.log, group, id);
      OnlyRepeatBreaks(sign, w, w', e, group, id);
    }
  }

  /** Some step of the run repeats a refund. */
  predicate RunRepeatsRefund(sign: Signer, w: World, events: seq<Event>, group: set<string>)
    decreases |events|
  {
    && events != []
    && (|| RepeatsRefund(sign, w, events[0], group)
        || RunRepeatsRefund(sign, Step(sign, w, events[0]), events[1..], group))
  }

  lemma {:induction false} RunBreaksExactly(sign: Signer, w: World, events: seq<Event>, group: set<string>)
    requires Inv(sign, w)
    ensures RefundedOnce(Exec(sign, w, events), group)
            <==> RefundedOnce(w, group) && !RunRepeatsRefund(sign, w, events, group)
    decreases |events|
  {
    if events == [] {
    } else {
      var w' := Step(sign, w, events[0]);
      StepInv(sign, w, events[0]);
      RunBreaksExactly(sign, w', events[1..], group);
      if RefundedOnce(w, group) {
        StepBreaksExactly(sign, w, w', events[0], group);
      } else {
        BrokenStays(sign, w, w', events[0], group);
      }
    }
  }

  /**
   Over every run whatever, the ledger equation holds at the end if and only if no step of the run
   compensated a withdrawal of the group that was already compensated.
   */
  lemma LedgerRunExactly(sign: Signer, served: set<nat>, events: seq<Event>, group: set<string>)
    ensures LedgerHolds(Exec(sign, Initial(served), events), group)
            <==> !RunRepeatsRefund(sign, Initial(served), events, group)
  {
    InitialAccounted(served, group);
    RunAccounted(sign, Initial(served), events, group);
    LedgerExactly(Exec(sign, Initial(served), events), group);
    RunBreaksExactly(sign, Initial(served), events, group);
  }

  // ---------- one failing finalizer at a time ----------

  predicate Failing(sign: Signer, p: Proc) {
    p.Finalizing? && sign(p.denom, p.blinded).None?
  }

  /** No two requests are about to compensate the same withdrawal. */
  ghost predicate OneFailing(sign: Signer, w: World) {
    forall p, q :: p in w.procs && q in w.procs && p != q && Failing(sign, w.procs[p]) && Failing(sign, w.procs[q])
      ==> w.procs[p].id != w.procs[q].id
  }

  /** No refund was repeated, and none is about to be. */
  ghost predicate RefundsSettled(sign: Signer, w: World) {
    && (forall id :: Refunds(w.log, id) <= 1)
    && forall p :: p in w.procs && Failing(sign, w.procs[p]) ==> Refunds(w.log, w.procs[p].id) == 0
  }

  lemma AdvanceSettled(sign: Signer, w: World, p: nat)
    requires CountsValid(w.t, w.log) && OneFailing(sign, w) && RefundsSettled(sign, w) && p in w.procs
    ensures RefundsSettled(sign, Advanced(sign, w, p))
  {
    match w.procs[p]
    case Debiting(_) => DebitingSettled(sign, w, p);
    case Completing(id, signature) => RefundsSnoc(w.log, Replied(id, signature));
    case Finalizing(_, _, _, _) => FinalizingSettled(sign, w, p);
  }

  lemma DebitingSettled(sign: Signer, w: World, p: nat)
    requires CountsValid(w.t, w.log) && RefundsSettled(sign, w) && p in w.procs && w.procs[p].Debiting?
    ensures RefundsSettled(sign, Advanced(sign, w, p))
  {
    var id := w.procs[p].req.requestId;
    var w' := Advanced(sign, w, p);
    if Debit(w.t, w.procs[p].req).1.Ok? {
      RefundsSnoc(w.log, Debited(id));
      forall q | q in w'.procs && Failing(sign, w'.procs[q]) ensures Refunds(w'.log, w'.procs[q].id) == 0 {
        assert q == p ==> Refunds(w.log, id) == 0;
      }
    }
  }

  lemma FinalizingSettled(sign: Signer, w: World, p: nat)
    requires OneFailing(sign, w) && RefundsSettled(sign, w) && p in w.procs && w.procs[p].Finalizing?
    ensures RefundsSettled(sign, Advanced(sign, w, p))
  {
    var f := w.procs[p];
    RefundsSnoc(w.log, Refunded(f.id));
    if Failing(sign, f) {
      assert forall q :: q in w.procs - {p} && Failing(sign, w.procs[q]) ==> w.procs[q].id != f.id;
    }
  }

  lemma ResumingSettled(sign: Signer, w: World, p: nat, id: string)
    requires CountsValid(w.t, w.log) && RefundsSettled(sign, w) && id in w.t.withdrawals
    ensures RefundsSettled(sign, Resuming(w, p, id))
  {
    if w.t.withdrawals[id].signature.Some? {
      RefundsSnoc(w.log, Replied(id, w.t.withdrawals[id].signature.value));
    }
    assert w.t.withdrawals[id].state == Pending ==> Refunds(w.log, id) == 0;
  }

  lemma StepSettled(sign: Signer, w: World, w': World, e: Event)
    requires Inv(sign, w) && OneFailing(sign, w) && RefundsSettled(sign, w) && w' == Step(sign, w, e)
    ensures RefundsSettled(sign, w')
  {
    if w'.procs == w.procs && w'.log == w.log {
      return;
    }
    match e
    case Open(account, amount) => RefundsSnoc(w.log, Opened(account, amount));
    case Begin(p, req) =>
      if req.requestId in w.t.withdrawals {
        ResumingSettled(sign, w, p, req.requestId);
      }
    case Recover(p, id) => ResumingSettled(sign, w, p, id);
    case Advance(p) => AdvanceSettled(sign, w, p);
    case DepositCommitted(req, _) => RefundsSnoc(w.log, Credited(req));
    case Crash(_) =>
  }

  ghost predicate Disciplined(sign: Signer, w: World, events: seq<Event>)
    decreases |events|
  {
    OneFailing(sign, w) && (events != [] ==> Disciplined(sign, Step(sign, w, events[0]), events[1..]))
  }

  lemma {:induction false} RunSettled(sign: Signer, w: World, events: seq<Event>)
    requires Inv(sign, w) && RefundsSettled(sign, w) && Disciplined(sign, w, events)
    ensures RefundsSettled(sign, Exec(sign, w, events))
    decreases |events|
  {
    if events == [] {
    } else {
      StepInv(sign, w, events[0]);
      StepSettled(sign, w, Step(sign, w, events[0]), events[0]);
      RunSettled(sign, Step(sign, w, events[0]), events[1..]);
    }
  }

  lemma InitialAccounted(served: set<nat>, group: set<string>)
    ensures Accounted(Initial(served).t, Initial(served).log, group)
  {
  }

  /**
   The ledger equation.  Over every run in which no two requests race to compensate the same
   withdrawal, with crashes, retries and recovery anywhere, every group of accounts (one account,
   or all of them) holds its opening credits less its outstanding withdrawals plus its deposits.
   */
  lemma LedgerEquation(sign: Signer, served: set<nat>, events: seq<Event>, group: set<string>)
    requires Disciplined(sign, Initial(served), events)
    ensures LedgerHolds(Exec(sign, Initial(served), events), group)
  {
    var w := Initial(served);
    InitialAccounted(served, group);
    RunAccounted(sign, w, events, group);
    RunSettled(sign, w, events);
    LedgerExactly(Exec(sign, w, events), group);
  }

  /**
   The discipline is needed: from any reachable state in which two requests are about to compensate
   the same withdrawal and the credits fit, letting both proceed breaks the equation.
   */
  lemma RaceBreaksLedger(sign: Signer, w: World, p: nat, q: nat)
    requires Inv(sign, w) && p in w.procs && q in w.procs && p != q
    requires Failing(sign, w.procs[p]) && Failing(sign, w.procs[q]) && w.procs[p].id == w.procs[q].id
    requires var f := w.procs[p];
             && f.denom in w.served && f.denom > 0
             && f.account in w.t.accounts && w.t.accounts[f.account] + 2 * f.denom <= I64_MAX
             && Accounted(w.t, w.log, {f.account})
    ensures !LedgerHolds(Exec(sign, w, [Advance(p), Advance(q)]), {w.procs[p].account})
  {
    var f, group := w.procs[p], {w.procs[p].account};
    assert ProcValid(sign, w.t, f) && ProcValid(sign, w.t, w.procs[q]);
    assert RecordValid(sign, w.t, f.id);
    var w1 := Refunding(sign, w, p);
    var w2 := Refunding(sign, w1, q);
    TwoSteps(sign, w, Advance(p), Advance(q));
    RunAccounted(sign, w, [Advance(p), Advance(q)], group);
    assert RepeatedRefund(w2.t, w2.log, group, f.id);
    LedgerExactly(w2, group);
  }

  lemma TwoSteps(sign: Signer, w: World, e: Event, f: Event)
    ensures Exec(sign, w, [e, f]) == Step(sign, Step(sign, w, e), f)
  {
    assert [e, f][1..] == [f] && [f][1..] == [];
    assert Exec(sign, Step(sign, w, e), [f]) == Exec(sign, Step(sign, Step(sign, w, e), f), []);
  }

  /** One compensation that goes through. */
  lemma Refunding(sign: Signer, w: World, p: nat) returns (w': World)
    requires Inv(sign, w) && p in w.procs && Failing(sign, w.procs[p])
    requires var f := w.procs[p];
             f.denom in w.served && f.account in w.t.accounts && w.t.accounts[f.account] + f.denom <= I64_MAX
    ensures w' == Step(sign, w, Advance(p)) && Inv(sign, w') && w'.served == w.served
    ensures w'.procs == w.procs - {p}
    ensures var f := w.procs[p];
            && w'.t.accounts == w.t.accounts[f.account := w.t.accounts[f.account] + f.denom]
            && Refunds(w'.log, f.id) == Refunds(w.log, f.id) + 1
            && f.id in w'.t.withdrawals && w'.t.withdrawals[f.id].account == f.account
            && w'.t.withdrawals[f.id].denom == f.denom
  {
    w' := Step(sign, w, Advance(p));
    assert ProcValid(sign, w.t, w.procs[p]) && RecordValid(sign, w.t, w.procs[p].id);
    AdvanceInv(sign, w, p);
    RefundsSnoc(w.log, Refunded(w.procs[p].id));
  }

  /** A withdrawal, debited, and its retry, both about to find that signing fails. */
  lemma RaceArises(sign: Signer, req: WithdrawRequest) returns (w: World)
    requires req == WithdrawRequest("alice", "req-1", 64, []) && sign(64, []).None?
    ensures w == Exec(sign, Initial({64}), [Open("alice", 100), Begin(0, req), Advance(0), Begin(1, req)])
    ensures w.procs == map[0 := Finalizing("req-1", "alice", 64, []), 1 := Finalizing("req-1", "alice", 64, [])]
    ensures w.served == {64} && w.t.accounts == map["alice" := 36]
  {
    var w1 := Step(sign, Initial({64}), Open("alice", 100));
    var w2 := Step(sign, w1, Begin(0, req));
    var w3 := Step(sign, w2, Advance(0));
    w := Step(sign, w3, Begin(1, req));
    TwoSteps(sign, Initial({64}), Open("alice", 100), Begin(0, req));
    TwoSteps(sign, w2, Advance(0), Begin(1, req));
    ExecSplit(sign, Initial({64}), [Open("alice", 100), Begin(0, req)], [Advance(0), Begin(1, req)]);
    assert [Open("alice", 100), Begin(0, req)] + [Advance(0), Begin(1, req)]
        == [Open("alice", 100), Begin(0, req), Advance(0), Begin(1, req)];
  }

  lemma {:induction false} ExecSplit(sign: Signer, w: World, a: seq<Event>, b: seq<Event>)
    ensures Exec(sign, w, a + b) == Exec(sign, Exec(sign, w, a), b)
    decreases |a|
  {
    if a == [] {
      assert a + b == b;
    } else {
      assert (a + b)[0] == a[0] && (a + b)[1..] == a[1..] + b;
      ExecSplit(sign, Step(sign, w, a[0]), a[1..], b);
    }
  }

  /** Such a race does arise: a retry of a withdrawal whose blinded message cannot be signed. */
  lemma RaceIsReachable(sign: Signer)
    requires sign(64, []).None?
    ensures var req := WithdrawRequest("alice", "req-1", 64, []);
            var events := [Open("alice", 100), Begin(0, req), Advance(0), Begin(1, req)] + [Advance(0), Advance(1)];
            !LedgerHolds(Exec(sign, Initial({64}), events), {"alice"})
  {
    var req := WithdrawRequest("alice", "req-1", 64, []);
    var before := [Open("alice", 100), Begin(0, req), Advance(0), Begin(1, req)];
    var w := RaceArises(sign, req);
    InitialAccounted({64}, {"alice"});
    RunAccounted(sign, Initial({64}), before, {"alice"});
    ExecSplit(sign, Initial({64}), before, [Advance(0), Advance(1)]);
    RaceBreaksLedger(sign, w, 0, 1);
  }
}
