/**
 Every run of the bank: requests interleave transaction by transaction, may be retried, and a
 crash may fall between any two transactions.
 */
module BankRuns {
  import opened Common
  import opened BankTables

  /** A withdrawal request in flight, by what it has left to do. */
  datatype Proc =
    | Debiting(req: WithdrawRequest)
    | Finalizing(id: string, account: string, denom: nat, blinded: Bytes)
    | Completing(id: string, signature: Bytes)

  /** What is remembered of the past, beside the tables. */
  datatype Happened =
    | Opened(account: string, amount: nat)
    | Debited(id: string)
    | Refunded(id: string)
    | Replied(id: string, signature: Bytes)
    | Credited(deposit: DepositRequest)

  datatype World = World(t: Tables, served: set<nat>, procs: map<nat, Proc>, log: seq<Happened>)

  datatype Event =
    | Open(account: string, amount: nat)
    | Begin(proc: nat, req: WithdrawRequest)
    | Recover(proc: nat, id: string)
    | Advance(proc: nat)
    | DepositCommitted(deposit: DepositRequest, stale: bool)
    | Crash(served: set<nat>)

  function Initial(served: set<nat>): World {
    World(EMPTY, served, map[], [])
  }

  // ---------- steps ----------

  /** A request that finds its record goes on from the state it was left in. */
  function Resuming(w: World, p: nat, id: string): World
    requires id in w.t.withdrawals
  {
    var rec := w.t.withdrawals[id];
    match rec.state
    case Pending => w.(procs := w.procs[p := Finalizing(id, rec.account, rec.denom, rec.blinded)])
    case Compensated => w
    case Signed =>
      if rec.signature.None? then w else w.(procs := w.procs[p := Completing(id, rec.signature.value)])
    case Completed =>
      if rec.signature.None? then w else w.(log := w.log + [Replied(id, rec.signature.value)])
  }

  /** The next transaction of a request in flight. */
  function Advanced(sign: Signer, w: World, p: nat): World
    requires p in w.procs
  {
    var rest := w.procs - {p};
    match w.procs[p]
    case Debiting(req) =>
      var (t, r) := Debit(w.t, req);
      if r.Err? then w.(procs := rest)
      else w.(t := t, log := w.log + [Debited(req.requestId)],
              procs := w.procs[p := Finalizing(req.requestId, req.account, req.denom, req.blinded)])
    case Finalizing(id, account, denom, blinded) =>
      if denom !in w.served then w.(procs := rest)
      else
        (match sign(denom, blinded)
         case Some(signature) =>
           w.(t := MarkSigned(w.t, id, signature), procs := w.procs[p := Completing(id, signature)])
         case None =>
           var (t, r) := Compensate(w.t, id, account, denom);
           if r.Err? then w.(procs := rest) else w.(t := t, procs := rest, log := w.log + [Refunded(id)]))
    case Completing(id, signature) =>
      w.(t := SetState(w.t, id, Completed), procs := rest, log := w.log + [Replied(id, signature)])
  }

  function Step(sign: Signer, w: World, e: Event): World {
    match e
    case Open(account, amount) =>
      var (t, r) := CreateAccount(w.t, account, amount);
      if r.Err? then w else w.(t := t, log := w.log + [Opened(account, amount)])
    case Begin(p, req) =>
      if p in w.procs then w
      else if req.requestId in w.t.withdrawals then Resuming(w, p, req.requestId)
      else if req.denom !in w.served then w
      else w.(procs := w.procs[p := Debiting(req)])
    case Recover(p, id) =>
      if p !in w.procs && id in w.t.withdrawals && w.t.withdrawals[id].state in {Pending, Signed}
      then Resuming(w, p, id) else w
    case Advance(p) => if p in w.procs then Advanced(sign, w, p) else w
    case DepositCommitted(req, stale) =>
      var (t, r) := CommitDeposit(w.t, req, stale);
      if r == Ok(Accepted) then w.(t := t, log := w.log + [Credited(req)]) else w
    case Crash(served) => w.(procs := map[], served := served)
  }

  function Exec(sign: Signer, w: World, events: seq<Event>): World
    decreases |events|
  {
    if events == [] then w else Exec(sign, Step(sign, w, events[0]), events[1..])
  }

  // ---------- history ----------

  function Debits(log: seq<Happened>, id: string): nat {
    if log == [] then 0
    else Debits(log[..|log| - 1], id) + if log[|log| - 1] == Debited(id) then 1 else 0
  }

  function Refunds(log: seq<Happened>, id: string): nat {
    if log == [] then 0
    else Refunds(log[..|log| - 1], id) + if log[|log| - 1] == Refunded(id) then 1 else 0
  }

  lemma DebitsSnoc(log: seq<Happened>, h: Happened)
    ensures forall id :: Debits(log + [h], id) == Debits(log, id) + if h == Debited(id) then 1 else 0
  {
    assert (log + [h])[..|log|] == log;
  }

  lemma RefundsSnoc(log: seq<Happened>, h: Happened)
    ensures forall id :: Refunds(log + [h], id) == Refunds(log, id) + if h == Refunded(id) then 1 else 0
  {
    assert (log + [h])[..|log|] == log;
  }

  // ---------- the invariant ----------

  ghost predicate AccountsInRange(t: Tables) {
    forall a :: a in t.accounts ==> t.accounts[a] <= I64_MAX
  }

  /** A record's state agrees with whether its blinded message can be signed. */
  ghost predicate RecordValid(sign: Signer, t: Tables, id: string)
    requires id in t.withdrawals
  {
    var rec := t.withdrawals[id];
    && rec.account in t.accounts
    && rec.denom <= I64_MAX
    && (rec.state in {Signed, Completed} ==> rec.signature.Some? && rec.signature == sign(rec.denom, rec.blinded))
    && (rec.state == Compensated ==> sign(rec.denom, rec.blinded).None?)
  }

  ghost predicate RecordsValid(sign: Signer, t: Tables) {
    forall id :: id in t.withdrawals ==> RecordValid(sign, t, id)
  }

  /** What a request in flight believes of its record is so. */
  ghost predicate ProcValid(sign: Signer, t: Tables, p: Proc) {
    match p
    case Debiting(_) => true
    case Finalizing(id, account, denom, blinded) =>
      && id in t.withdrawals
      && var rec := t.withdrawals[id]; rec.account == account && rec.denom == denom && rec.blinded == blinded
    case Completing(id, signature) =>
      && id in t.withdrawals
      && var rec := t.withdrawals[id];
      rec.state != Pending && rec.signature == Some(signature) && sign(rec.denom, rec.blinded) == Some(signature)
  }

  ghost predicate ProcsValid(sign: Signer, w: World) {
    forall p :: p in w.procs ==> ProcValid(sign, w.t, w.procs[p])
  }

  /** One debit per record, a refund exactly for compensated records. */
  ghost predicate CountsValid(t: Tables, log: seq<Happened>) {
    && (forall id :: Debits(log, id) == if id in t.withdrawals then 1 else 0)
    && (forall id :: Refunds(log, id) > 0 <==> id in t.withdrawals && t.withdrawals[id].state == Compensated)
  }

  /** Every signature handed out is the signature of the persisted blinded message. */
  ghost predicate RepliesValid(sign: Signer, w: World) {
    forall i :: 0 <= i < |w.log| && w.log[i].Replied? ==>
      && w.log[i].id in w.t.withdrawals
      && var rec := w.t.withdrawals[w.log[i].id];
      rec.state != Pending && sign(rec.denom, rec.blinded) == Some(w.log[i].signature)
  }

  /** `spent` and `deposits` are each other's index. */
  ghost predicate DepositsValid(t: Tables) {
    && (forall id :: id in t.deposits ==>
          t.deposits[id].coin in t.spent && t.spent[t.deposits[id].coin] == id && t.deposits[id].account in t.accounts)
    && (forall c :: c in t.spent ==> t.spent[c] in t.deposits && t.deposits[t.spent[c]].coin == c)
  }

  ghost predicate Inv(sign: Signer, w: World) {
    && AccountsInRange(w.t)
    && RecordsValid(sign, w.t)
    && ProcsValid(sign, w)
    && CountsValid(w.t, w.log)
    && RepliesValid(sign, w)
    && DepositsValid(w.t)
  }

  lemma CountsKept(t: Tables, t': Tables, log: seq<Happened>, h: Happened)
    requires CountsValid(t, log) && t'.withdrawals.Keys == t.withdrawals.Keys
    requires h.Opened? || h.Replied? || h.Credited?
    requires forall id :: id in t.withdrawals ==>
               (t'.withdrawals[id].state == Compensated <==> t.withdrawals[id].state == Compensated)
    ensures CountsValid(t', log) && CountsValid(t', log + [h])
  {
    DebitsSnoc(log, h);
    RefundsSnoc(log, h);
  }

  lemma CountsDebit(t: Tables, t': Tables, log: seq<Happened>, id: string, rec: Withdrawal)
    requires CountsValid(t, log) && id !in t.withdrawals && rec.state == Pending
    requires t'.withdrawals == t.withdrawals[id := rec]
    ensures CountsValid(t', log + [Debited(id)])
  {
    DebitsSnoc(log, Debited(id));
    RefundsSnoc(log, Debited(id));
  }

  lemma CountsRefund(t: Tables, t': Tables, log: seq<Happened>, id: string)
    requires CountsValid(t, log) && id in t.withdrawals
    requires t'.withdrawals == t.withdrawals[id := t.withdrawals[id].(state := Compensated)]
    ensures CountsValid(t', log + [Refunded(id)])
  {
    DebitsSnoc(log, Refunded(id));
    RefundsSnoc(log, Refunded(id));
  }

  lemma OpenInv(sign: Signer, w: World, account: string, amount: nat)
    requires Inv(sign, w)
    ensures Inv(sign, Step(sign, w, Open(account, amount)))
  {
    CountsKept(w.t, w.t, w.log, Opened(account, amount));
  }

  lemma ResumingInv(sign: Signer, w: World, p: nat, id: string)
    requires Inv(sign, w) && id in w.t.withdrawals && p !in w.procs
    ensures Inv(sign, Resuming(w, p, id))
  {
    var rec := w.t.withdrawals[id];
    assert RecordValid(sign, w.t, id);
    if rec.signature.Some? {
      CountsKept(w.t, w.t, w.log, Replied(id, rec.signature.value));
    }
  }

  lemma DebitInv(sign: Signer, w: World, p: nat)
    requires Inv(sign, w) && p in w.procs && w.procs[p].Debiting?
    ensures Inv(sign, Advanced(sign, w, p))
  {
    var req := w.procs[p].req;
    var w' := Advanced(sign, w, p);
    if Debit(w.t, req).1.Ok? {
      CountsDebit(w.t, w'.t, w.log, req.requestId, w'.t.withdrawals[req.requestId]);
      forall id | id in w'.t.withdrawals ensures RecordValid(sign, w'.t, id) {
        assert id != req.requestId ==> RecordValid(sign, w.t, id);
      }
    }
  }

  /** `t` differs from `before` in one record's state and signature, and in balances. */
  ghost predicate RecordMoved(sign: Signer, before: Tables, t: Tables, id: string) {
    && id in before.withdrawals && id in t.withdrawals
    && t.spent == before.spent && t.deposits == before.deposits && t.accounts.Keys == before.accounts.Keys
    && AccountsInRange(t)
    && t.withdrawals == before.withdrawals[id := t.withdrawals[id]]
    && RecordValid(sign, t, id)
    && var rec, rec' := before.withdrawals[id], t.withdrawals[id];
    && rec'.state != Pending && rec'.account == rec.account && rec'.denom == rec.denom && rec'.blinded == rec.blinded
    && (rec.signature.Some? && rec.signature == sign(rec.denom, rec.blinded) ==> rec'.signature == rec.signature)
  }

  lemma RecordMovedInv(sign: Signer, w: World, t: Tables, id: string)
    requires Inv(sign, w) && RecordMoved(sign, w.t, t, id)
    ensures RecordsValid(sign, t) && DepositsValid(t)
    ensures ProcsValid(sign, w.(t := t)) && RepliesValid(sign, w.(t := t))
  {
    forall i | i in t.withdrawals ensures RecordValid(sign, t, i) {
      assert RecordValid(sign, w.t, i);
    }
    forall q | q in w.procs ensures ProcValid(sign, t, w.procs[q]) {
      assert ProcValid(sign, w.t, w.procs[q]);
    }
  }

  lemma SignInv(sign: Signer, w: World, p: nat)
    requires Inv(sign, w) && p in w.procs && w.procs[p].Finalizing?
    requires sign(w.procs[p].denom, w.procs[p].blinded).Some?
    ensures Inv(sign, Advanced(sign, w, p))
  {
    var w', id := Advanced(sign, w, p), w.procs[p].id;
    assert ProcValid(sign, w.t, w.procs[p]) && RecordValid(sign, w.t, id);
    if w.procs[p].denom in w.served {
      RecordMovedInv(sign, w, w'.t, id);
      CountsKept(w.t, w'.t, w.log, Replied(id, w'.procs[p].signature));
    }
  }

  lemma CompensateInv(sign: Signer, w: World, p: nat)
    requires Inv(sign, w) && p in w.procs && w.procs[p].Finalizing?
    requires sign(w.procs[p].denom, w.procs[p].blinded).None?
    ensures Inv(sign, Advanced(sign, w, p))
  {
    var w', id := Advanced(sign, w, p), w.procs[p].id;
    assert ProcValid(sign, w.t, w.procs[p]) && RecordValid(sign, w.t, id);
    if w'.log != w.log {
      CountsRefund(w.t, w'.t, w.log, id);
      RecordMovedInv(sign, w, w'.t, id);
    }
  }

  lemma CompleteInv(sign: Signer, w: World, p: nat)
    requires Inv(sign, w) && p in w.procs && w.procs[p].Completing?
    ensures Inv(sign, Advanced(sign, w, p))
  {
    var w', id := Advanced(sign, w, p), w.procs[p].id;
    assert ProcValid(sign, w.t, w.procs[p]) && RecordValid(sign, w.t, id);
    CountsKept(w.t, w'.t, w.log, Replied(id, w.procs[p].signature));
    RecordMovedInv(sign, w, w'.t, id);
  }

  /** The deposit transaction on the tables it touches. */
  lemma CommitKeepsTables(t: Tables, req: DepositRequest, stale: bool)
    requires AccountsInRange(t) && DepositsValid(t)
    ensures var t' := CommitDeposit(t, req, stale).0;
            && AccountsInRange(t') && DepositsValid(t')
            && t'.withdrawals == t.withdrawals && t'.accounts.Keys == t.accounts.Keys
  {
  }

  lemma DepositInv(sign: Signer, w: World, req: DepositRequest, stale: bool)
    requires Inv(sign, w)
    ensures Inv(sign, Step(sign, w, DepositCommitted(req, stale)))
  {
    var (t, r) := CommitDeposit(w.t, req, stale);
    CommitKeepsTables(w.t, req, stale);
    CountsKept(w.t, t, w.log, Credited(req));
    forall i | i in t.withdrawals ensures RecordValid(sign, t, i) {
      assert RecordValid(sign, w.t, i);
    }
    assert ProcsValid(sign, w.(t := t)) && RepliesValid(sign, w.(t := t, log := w.log + [Credited(req)]));
  }

  /** Withdrawal steps and crashes leave the deposit tables and the set of accounts alone. */
  lemma StepFrame(sign: Signer, w: World, e: Event) returns (h: Happened)
    requires !e.Open? && !e.DepositCommitted?
    ensures var w' := Step(sign, w, e);
            && w'.t.deposits == w.t.deposits && w'.t.spent == w.t.spent && w'.t.accounts.Keys == w.t.accounts.Keys
            && (w'.log == w.log || (w'.log == w.log + [h] && !h.Opened? && !h.Credited?))
  {
    var w' := Step(sign, w, e);
    h := if |w'.log| > |w.log| then w'.log[|w.log|] else Debited("");
  }

  lemma StepInv(sign: Signer, w: World, e: Event)
    requires Inv(sign, w)
    ensures Inv(sign, Step(sign, w, e))
  {
    match e
    case Open(account, amount) => OpenInv(sign, w, account, amount);
    case Begin(p, req) =>
      if p !in w.procs && req.requestId in w.t.withdrawals {
        ResumingInv(sign, w, p, req.requestId);
      }
    case Recover(p, id) =>
      if p !in w.procs && id in w.t.withdrawals {
        ResumingInv(sign, w, p, id);
      }
    case Advance(p) =>
      if p in w.procs {
        AdvanceInv(sign, w, p);
      }
    case DepositCommitted(req, stale) => DepositInv(sign, w, req, stale);
    case Crash(_) =>
  }

  lemma AdvanceInv(sign: Signer, w: World, p: nat)
    requires Inv(sign, w) && p in w.procs
    ensures Inv(sign, Advanced(sign, w, p))
  {
    match w.procs[p]
    case Debiting(_) => DebitInv(sign, w, p);
    case Completing(_, _) => CompleteInv(sign, w, p);
    case Finalizing(_, _, denom, blinded) =>
      if sign(denom, blinded).Some? {
        SignInv(sign, w, p);
      } else {
        CompensateInv(sign, w, p);
      }
  }

  lemma {:induction false} RunInv(sign: Signer, w: World, events: seq<Event>)
    requires Inv(sign, w)
    ensures Inv(sign, Exec(sign, w, events))
    decreases |events|
  {
    if events == [] {
    } else {
      StepInv(sign, w, events[0]);
      RunInv(sign, Step(sign, w, events[0]), events[1..]);
    }
  }
}
