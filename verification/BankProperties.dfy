/** What the invariant of every run means for withdrawals, deposits and the bank's solvency. */
module BankProperties {
  import opened Common
  import opened Sums
  import opened BankTables
  import opened BankRuns
  import opened BankLedger
  import Recovery

  // ---------- withdrawals ----------

  /**
   Over every run with retries, crashes and recovery, a request id is debited at most once; all its
   successful replies carry one signature, that of the persisted blinded message; and an id that
   was ever refunded is never answered with success.
   */
  lemma WithdrawalIdempotent(sign: Signer, served: set<nat>, events: seq<Event>, i: nat, j: nat)
    requires var log := Exec(sign, Initial(served), events).log;
             i < |log| && j < |log| && log[i].Replied? && log[j].Replied? && log[i].id == log[j].id
    ensures var w := Exec(sign, Initial(served), events);
            var id := w.log[i].id;
            && Debits(w.log, id) == 1 && Refunds(w.log, id) == 0
            && w.log[i].signature == w.log[j].signature
            && id in w.t.withdrawals
            && sign(w.t.withdrawals[id].denom, w.t.withdrawals[id].blinded) == Some(w.log[i].signature)
  {
    RunInv(sign, Initial(served), events);
    var w := Exec(sign, Initial(served), events);
    assert RecordValid(sign, w.t, w.log[i].id);
  }

  lemma AtMostOneDebit(sign: Signer, served: set<nat>, events: seq<Event>, id: string)
    ensures var w := Exec(sign, Initial(served), events);
            Debits(w.log, id) == if id in w.t.withdrawals then 1 else 0
  {
    RunInv(sign, Initial(served), events);
  }

  /**
   Calling again is harmless: a success is repeated word for word, a failure that compensated stays
   a failure, and neither call changes the tables a second time.  A first call that fails to sign
   gives the debit back in full.
   */
  lemma RetryIsIdempotent(sign: Signer, t: Tables, served: set<nat>, req: WithdrawRequest)
    requires RecordsValid(sign, t)
    ensures var (t1, r1) := Withdraw(t, served, sign, req);
            var (t2, r2) := Withdraw(t1, served, sign, req);
            && (r1.Ok? ==> t2 == t1 && r2 == r1)
            && (r1 == Err(WithdrawFailed) ==> t2 == t1 && r2 == Err(WithdrawPreviouslyFailed))
            && (r1 == Err(WithdrawFailed) && req.requestId !in t.withdrawals ==> t1.accounts == t.accounts)
  {
    if req.requestId in t.withdrawals {
      assert RecordValid(sign, t, req.requestId);
    }
  }

  /** The account can pay for the withdrawal, and the denomination is one the bank signs. */
  predicate Affordable(t: Tables, served: set<nat>, req: WithdrawRequest) {
    req.denom in served && req.account in t.accounts && t.accounts[req.account] >= req.denom
  }

  /**
   A first call succeeds exactly when the denomination is served, the account can pay and the
   message can be signed; it then costs the account the denomination and nobody else anything.  One
   that cannot be signed leaves every balance as it was and the record compensated; one that
   cannot be paid says why and changes nothing.
   */
  lemma FirstCallDecided(sign: Signer, t: Tables, served: set<nat>, req: WithdrawRequest)
    requires req.requestId !in t.withdrawals && AccountsInRange(t)
    ensures var (t', r) := Withdraw(t, served, sign, req);
            && (forall s :: r == Ok(s) <==> Affordable(t, served, req) && sign(req.denom, req.blinded) == Some(s))
            && (r == Err(WithdrawFailed) <==> Affordable(t, served, req) && sign(req.denom, req.blinded) == None)
            && (r.Ok? ==>
                && t'.accounts == t.accounts[req.account := t.accounts[req.account] - req.denom]
                && t'.withdrawals == t.withdrawals[req.requestId :=
                     Withdrawal(Completed, req.account, req.denom, req.blinded, Some(r.value))])
            && (r == Err(WithdrawFailed) ==>
                && t'.accounts == t.accounts
                && t'.withdrawals == t.withdrawals[req.requestId :=
                     Withdrawal(Compensated, req.account, req.denom, req.blinded, None)])
            && t'.spent == t.spent && t'.deposits == t.deposits
            && (!Affordable(t, served, req) ==>
                && t' == t
                && r == Err(if req.denom !in served then UnknownDenomination
                            else if req.denom > I64_MAX then ValueRange
                            else if req.account !in t.accounts then AccountNotFound
                            else InsufficientBalance(t.accounts[req.account], req.denom)))
  {
    if Affordable(t, served, req) {
      FirstCallPaid(sign, t, served, req);
    }
  }

  lemma FirstCallPaid(sign: Signer, t: Tables, served: set<nat>, req: WithdrawRequest)
    requires req.requestId !in t.withdrawals && AccountsInRange(t) && Affordable(t, served, req)
    ensures var (t', r) := Withdraw(t, served, sign, req);
            match sign(req.denom, req.blinded)
            case Some(s) =>
              && r == Ok(s)
              && t' == t.(accounts := t.accounts[req.account := t.accounts[req.account] - req.denom],
                          withdrawals := t.withdrawals[req.requestId :=
                            Withdrawal(Completed, req.account, req.denom, req.blinded, Some(s))])
            case None =>
              && r == Err(WithdrawFailed)
              && t' == t.(withdrawals := t.withdrawals[req.requestId :=
                            Withdrawal(Compensated, req.account, req.denom, req.blinded, None)])
  {
    var (t1, d) := Debit(t, req);
    match sign(req.denom, req.blinded) {
      case Some(s) =>
        var t2 := SetState(MarkSigned(t1, req.requestId, s), req.requestId, Completed);
        assert t2.withdrawals == t.withdrawals[req.requestId :=
            Withdrawal(Completed, req.account, req.denom, req.blinded, Some(s))];
      case None =>
        var t2 := Compensate(t1, req.requestId, req.account, req.denom).0;
        assert t2.accounts == t.accounts;
        assert t2.withdrawals == t.withdrawals[req.requestId :=
            Withdrawal(Compensated, req.account, req.denom, req.blinded, None)];
    }
  }

  /** The outcome of a call whose id has a record, by that record. */
  ghost predicate ResumedAs(
    sign: Signer, t: Tables, served: set<nat>, rec: Withdrawal, t': Tables, r: Result<Bytes, BankError>, id: string)
    requires rec.account in t.accounts
  {
    var signature := sign(rec.denom, rec.blinded);
    var attempted := rec.state == Pending && rec.denom in served;
    var fits := t.accounts[rec.account] + rec.denom <= I64_MAX;
    && (forall s :: r == Ok(s) <==> signature == Some(s) && (rec.state != Pending || attempted))
    && (r == Err(WithdrawFailed) <==> attempted && signature == None && fits)
    && (r == Err(Database) <==> attempted && signature == None && !fits)
    && (r == Err(UnknownDenomination) <==> rec.state == Pending && !attempted)
    && (r == Err(WithdrawPreviouslyFailed) <==> rec.state == Compensated)
    && (r.Ok? ==> t' == t.(withdrawals := t.withdrawals[id := rec.(state := Completed, signature := Some(r.value))]))
    && (r == Err(WithdrawFailed) ==>
        t' == t.(accounts := t.accounts[rec.account := t.accounts[rec.account] + rec.denom],
                 withdrawals := t.withdrawals[id := rec.(state := Compensated)]))
    && (r.Err? && r != Err(WithdrawFailed) ==> t' == t)
  }

  /**
   A call whose id has a record succeeds exactly when the recorded message can be signed (and, if it
   was not signed yet, the denomination is served); every failure has its own condition.
   */
  lemma RecordedCallDecided(sign: Signer, t: Tables, served: set<nat>, req: WithdrawRequest)
    requires req.requestId in t.withdrawals && RecordValid(sign, t, req.requestId)
    ensures var (t', r) := Withdraw(t, served, sign, req);
            ResumedAs(sign, t, served, t.withdrawals[req.requestId], t', r, req.requestId)
  {
    var id, rec := req.requestId, t.withdrawals[req.requestId];
    var (t', r) := Withdraw(t, served, sign, req);
    if r.Ok? {
      assert t'.withdrawals == t.withdrawals[id := rec.(state := Completed, signature := Some(r.value))];
    }
  }

  /**
   In every reachable state the answer to a retried withdrawal agrees with all that happened: an id
   answered before gets the same signature again and costs nothing, and an id is told of an earlier
   failure exactly if it was refunded.
   */
  lemma RetryDecidedByHistory(sign: Signer, served: set<nat>, events: seq<Event>, req: WithdrawRequest)
    requires Debits(Exec(sign, Initial(served), events).log, req.requestId) > 0
    ensures var w := Exec(sign, Initial(served), events);
            var (t, r) := Withdraw(w.t, w.served, sign, req);
            && req.requestId in w.t.withdrawals
            && w.t.withdrawals[req.requestId].account in w.t.accounts
            && ResumedAs(sign, w.t, w.served, w.t.withdrawals[req.requestId], t, r, req.requestId)
            && (r == Err(WithdrawPreviouslyFailed) <==> Refunds(w.log, req.requestId) > 0)
            && forall i :: 0 <= i < |w.log| && w.log[i].Replied? && w.log[i].id == req.requestId ==>
                 r == Ok(w.log[i].signature) && t.accounts == w.t.accounts
  {
    RunInv(sign, Initial(served), events);
    var w := Exec(sign, Initial(served), events);
    assert RecordValid(sign, w.t, req.requestId);
    RecordedCallDecided(sign, w.t, w.served, req);
    var (t, r) := Withdraw(w.t, w.served, sign, req);
    forall i | 0 <= i < |w.log| && w.log[i].Replied? && w.log[i].id == req.requestId
      ensures r == Ok(w.log[i].signature) && t.accounts == w.t.accounts
    {
      RepliedAgain(sign, w, i, req);
    }
  }

  lemma RepliedAgain(sign: Signer, w: World, i: nat, req: WithdrawRequest)
    requires Inv(sign, w) && i < |w.log| && w.log[i].Replied? && w.log[i].id == req.requestId
    ensures var (t, r) := Withdraw(w.t, w.served, sign, req);
            r == Ok(w.log[i].signature) && t.accounts == w.t.accounts
  {
    var rec := w.t.withdrawals[req.requestId];
    assert RecordValid(sign, w.t, req.requestId);
    RecordedCallDecided(sign, w.t, w.served, req);
  }

  /** The log gained a reply to this id. */
  predicate NewReply(before: seq<Happened>, after: seq<Happened>, id: string, signature: Bytes) {
    exists i :: |before| <= i < |after| && after[i] == Replied(id, signature)
  }

  lemma AdvanceTwice(sign: Signer, w: World, p: nat, q: Proc)
    requires q.Finalizing? && p !in w.procs
    ensures var w0 := w.(procs := w.procs[p := q]);
            var w2 := Step(sign, Step(sign, w0, Advance(p)), Advance(p));
            var (t, r) := Finalize(w.t, w.served, sign, q.id, q.account, q.denom, q.blinded);
            && w2.t == t && w2.procs == w.procs && w2.served == w.served
            && (r.Ok? ==> w2.log == w.log + [Replied(q.id, r.value)])
            && (r.Err? ==> w2.log == w.log || w2.log == w.log + [Refunded(q.id)])
  {
    var w0 := w.(procs := w.procs[p := q]);
    assert w0.procs - {p} == w.procs;
    if q.denom in w.served {
      match sign(q.denom, q.blinded) {
        case Some(signature) =>
          var w1 := Step(sign, w0, Advance(p));
          assert w1.procs == w.procs[p := Completing(q.id, signature)];
          assert w1.procs - {p} == w.procs;
        case None =>
      }
    }
  }

  /**
   An uninterrupted withdrawal is one of the runs: the call reaches the tables its transactions reach
   one by one, and it answers with a signature exactly when they log that reply.
   */
  lemma WithdrawIsRun(sign: Signer, w: World, p: nat, req: WithdrawRequest)
    requires p !in w.procs
    ensures var w1 := Step(sign, w, Begin(p, req));
            var w4 := Step(sign, Step(sign, Step(sign, w1, Advance(p)), Advance(p)), Advance(p));
            var (t, r) := Withdraw(w.t, w.served, sign, req);
            && w4.t == t && w4.procs == w.procs
            && forall s :: r == Ok(s) <==> NewReply(w.log, w4.log, req.requestId, s)
  {
    var id := req.requestId;
    var w1 := Step(sign, w, Begin(p, req));
    var w4 := Step(sign, Step(sign, Step(sign, w1, Advance(p)), Advance(p)), Advance(p));
    var r := Withdraw(w.t, w.served, sign, req).1;
    if id in w.t.withdrawals {
      var rec := w.t.withdrawals[id];
      if rec.state == Pending {
        AdvanceTwice(sign, w, p, Finalizing(id, rec.account, rec.denom, rec.blinded));
      } else if rec.state == Signed && rec.signature.Some? {
        assert w1.procs - {p} == w.procs;
      }
    } else if req.denom in w.served {
      assert w1.procs - {p} == w.procs;
      var (t, d) := Debit(w.t, req);
      if d.Ok? {
        var w2 := w.(t := t, log := w.log + [Debited(id)]);
        var q := Finalizing(id, req.account, req.denom, req.blinded);
        assert w1.procs[p := q] == w.procs[p := q];
        AdvanceTwice(sign, w2, p, q);
      }
    }
    if r.Ok? {
      assert w4.log[|w4.log| - 1] == Replied(id, r.value);
    }
  }

  /** Whatever a crash leaves behind satisfies what recovery takes for granted. */
  lemma CrashLeavesWellFormed(sign: Signer, served: set<nat>, events: seq<Event>)
    ensures Recovery.WellFormed(Exec(sign, Initial(served), events).t)
  {
    RunInv(sign, Initial(served), events);
    var w := Exec(sign, Initial(served), events);
    forall id | id in w.t.withdrawals
      ensures w.t.withdrawals[id].account in w.t.accounts && w.t.withdrawals[id].denom <= I64_MAX
    {
      assert RecordValid(sign, w.t, id);
    }
  }

  /**
   Each committed step of recovery is a step of the runs, so all that holds of runs holds of it; a
   record that is finished gives recovery nothing to do.
   */
  lemma RecoveryIsRun(sign: Signer, w: World, p: nat, id: string)
    requires Inv(sign, w) && p !in w.procs
    ensures Step(sign, Step(sign, w, Recover(p, id)), Advance(p)).t == Recovery.Recommit(w.t, w.served, sign, id)
    ensures !Recovery.Unfinished(w.t, id) ==> Step(sign, w, Recover(p, id)) == w
  {
    if id in w.t.withdrawals {
      assert RecordValid(sign, w.t, id);
    }
  }

  /** What a restart does after a crash: each unfinished row, transaction by transaction. */
  function RecoveryEvents(rows: seq<string>): seq<Event> {
    if rows == [] then [] else [Recover(0, rows[0]), Advance(0), Advance(0)] + RecoveryEvents(rows[1..])
  }

  lemma RowIsRun(sign: Signer, w: World, id: string)
    requires Inv(sign, w) && w.procs == map[]
    ensures var w3 := Step(sign, Step(sign, Step(sign, w, Recover(0, id)), Advance(0)), Advance(0));
            && w3.t == Recovery.RecoverRow(w.t, w.served, sign, id)
            && w3.procs == map[] && w3.served == w.served && Inv(sign, w3)
  {
    var w1 := Step(sign, w, Recover(0, id));
    StepInv(sign, w, Recover(0, id));
    StepInv(sign, w1, Advance(0));
    StepInv(sign, Step(sign, w1, Advance(0)), Advance(0));
    if id in w.t.withdrawals {
      var rec := w.t.withdrawals[id];
      assert RecordValid(sign, w.t, id);
      if rec.state == Pending {
        AdvanceTwice(sign, w, 0, Finalizing(id, rec.account, rec.denom, rec.blinded));
      } else if rec.state == Signed {
        assert w1.procs - {0} == w.procs;
      }
    }
  }

  lemma {:induction false} RecoveryRuns(sign: Signer, w: World, rows: seq<string>)
    requires Inv(sign, w) && w.procs == map[]
    ensures var w' := Exec(sign, w, RecoveryEvents(rows));
            w'.t == Recovery.RecoverRows(w.t, w.served, sign, rows) && w'.procs == map[]
    decreases |rows|
  {
    if rows == [] {
    } else {
      var e, a := Recover(0, rows[0]), Advance(0);
      RowIsRun(sign, w, rows[0]);
      var w3 := Step(sign, Step(sign, Step(sign, w, e), a), a);
      ExecSplit(sign, w, [e, a, a], RecoveryEvents(rows[1..]));
      ExecSplit(sign, w, [e], [a, a]);
      assert [e] + [a, a] == [e, a, a] && [e][1..] == [];
      assert Exec(sign, w, [e]) == Step(sign, w, e);
      TwoSteps(sign, Step(sign, w, e), a, a);
      RecoveryRuns(sign, w3, rows[1..]);
    }
  }

  /**
   Crash and restart: from every reachable state a crash loses every request in flight, and the
   recovery that opens the bank again, itself a run, finishes everything if and only if it can.
   */
  lemma RestartRecovers(
    sign: Signer, served: set<nat>, events: seq<Event>, again: set<nat>, rows: seq<string>)
    requires Recovery.QueryRows(rows, Exec(sign, Initial(served), events).t)
    ensures var w := Exec(sign, Initial(served), events);
            var w' := Exec(sign, w, [Crash(again)] + RecoveryEvents(rows));
            && w'.t == Recovery.RecoverRows(w.t, again, sign, rows)
            && w'.procs == map[]
            && (Recovery.Finished(w'.t) <==> Recovery.Recoverable(w.t, again, sign))
  {
    var w := Exec(sign, Initial(served), events);
    RunInv(sign, Initial(served), events);
    StepInv(sign, w, Crash(again));
    CrashLeavesWellFormed(sign, served, events);
    ExecSplit(sign, w, [Crash(again)], RecoveryEvents(rows));
    assert [Crash(again)][1..] == [];
    assert Exec(sign, w, [Crash(again)]) == Step(sign, w, Crash(again));
    RecoveryRuns(sign, Step(sign, w, Crash(again)), rows);
    Recovery.RecoveryCompletesExactly(w.t, again, sign, rows);
  }

  // ---------- deposits ----------

  predicate CreditedUnder(log: seq<Happened>, id: string, coin: CoinId) {
    exists i :: 0 <= i < |log| && log[i].Credited? && log[i].deposit.requestId == id && log[i].deposit.coin.id == coin
  }

  predicate IdUsed(log: seq<Happened>, id: string) {
    exists i :: 0 <= i < |log| && log[i].Credited? && log[i].deposit.requestId == id
  }

  predicate CoinCredited(log: seq<Happened>, coin: CoinId) {
    exists i :: 0 <= i < |log| && log[i].Credited? && log[i].deposit.coin.id == coin
  }

  predicate AccountOpened(log: seq<Happened>, account: string) {
    exists i :: 0 <= i < |log| && log[i].Opened? && log[i].account == account
  }

  /** The tables hold exactly the credited deposits and the opened accounts. */
  ghost predicate Indexed(t: Tables, log: seq<Happened>) {
    && (forall id :: id in t.deposits <==> IdUsed(log, id))
    && (forall id :: id in t.deposits ==> CreditedUnder(log, id, t.deposits[id].coin))
    && (forall coin :: coin in t.spent <==> CoinCredited(log, coin))
    && (forall a :: a in t.accounts <==> AccountOpened(log, a))
  }

  lemma LookupSnoc(log: seq<Happened>, h: Happened)
    ensures forall id :: IdUsed(log + [h], id) <==> IdUsed(log, id) || (h.Credited? && h.deposit.requestId == id)
    ensures forall c :: CoinCredited(log + [h], c) <==> CoinCredited(log, c) || (h.Credited? && h.deposit.coin.id == c)
    ensures forall a :: AccountOpened(log + [h], a) <==> AccountOpened(log, a) || (h.Opened? && h.account == a)
    ensures forall id, c :: CreditedUnder(log, id, c) ==> CreditedUnder(log + [h], id, c)
    ensures h.Credited? ==> CreditedUnder(log + [h], h.deposit.requestId, h.deposit.coin.id)
  {
    var longer := log + [h];
    assert forall i :: 0 <= i < |log| ==> longer[i] == log[i];
    assert longer[|log|] == h;
  }

  lemma OpenIndexed(t: Tables, log: seq<Happened>, account: string, amount: nat)
    requires Indexed(t, log)
    ensures Indexed(t.(accounts := t.accounts[account := amount]), log + [Opened(account, amount)])
  {
    LookupSnoc(log, Opened(account, amount));
  }

  lemma CreditIndexed(t: Tables, log: seq<Happened>, req: DepositRequest, stale: bool)
    requires Indexed(t, log) && CommitDeposit(t, req, stale).1 == Ok(Accepted)
    ensures Indexed(CommitDeposit(t, req, stale).0, log + [Credited(req)])
  {
    LookupSnoc(log, Credited(req));
  }

  /** A step adds to the history at most one event, and to the tables what that event says. */
  lemma StepIndexed(sign: Signer, w: World, e: Event)
    requires Indexed(w.t, w.log)
    ensures Indexed(Step(sign, w, e).t, Step(sign, w, e).log)
  {
    match e
    case Open(account, amount) => OpenIndexed(w.t, w.log, account, amount);
    case DepositCommitted(req, stale) =>
      if CommitDeposit(w.t, req, stale).1 == Ok(Accepted) {
        CreditIndexed(w.t, w.log, req, stale);
      }
    case _ =>
      var h := StepFrame(sign, w, e);
      LookupSnoc(w.log, h);
  }

  lemma {:induction false} RunIndexed(sign: Signer, w: World, events: seq<Event>)
    requires Inv(sign, w) && Indexed(w.t, w.log)
    ensures Inv(sign, Exec(sign, w, events)) && Indexed(Exec(sign, w, events).t, Exec(sign, w, events).log)
    decreases |events|
  {
    if events == [] {
    } else {
      StepInv(sign, w, events[0]);
      StepIndexed(sign, w, events[0]);
      RunIndexed(sign, Step(sign, w, events[0]), events[1..]);
    }
  }

  /** Each answer is equivalent to a condition on the history; only an acceptance changes anything. */
  ghost predicate AnsweredByHistory(t: Tables, log: seq<Happened>, req: DepositRequest) {
    var (t', r) := CommitDeposit(t, req, false);
    var id, coin := req.requestId, req.coin.id;
    && (r == Ok(Replay) <==> CreditedUnder(log, id, coin))
    && (r == Ok(RequestIdReuse) <==> IdUsed(log, id) && !CreditedUnder(log, id, coin))
    && (r == Ok(DoubleSpend) <==> !IdUsed(log, id) && CoinCredited(log, coin))
    && (r == Ok(UnknownAccount) <==> !IdUsed(log, id) && !CoinCredited(log, coin) && !AccountOpened(log, req.account))
    && (r == Ok(Accepted) <==>
        && !IdUsed(log, id) && !CoinCredited(log, coin) && AccountOpened(log, req.account)
        && req.account in t.accounts && t.accounts[req.account] + coin.denom <= I64_MAX)
    && (r != Ok(Accepted) ==> t' == t)
  }

  lemma DepositDecided(t: Tables, log: seq<Happened>, req: DepositRequest)
    requires Indexed(t, log) && CreditsDistinct(log) && req.coin.id.denom <= I64_MAX
    ensures AnsweredByHistory(t, log, req)
  {
    if req.requestId in t.deposits {
      assert CreditedUnder(log, req.requestId, t.deposits[req.requestId].coin);
    }
  }

  /**
   In every reachable state a deposit with an up-to-date lookup is answered as the history of
   credited deposits says.
   */
  lemma DepositDecidedByHistory(sign: Signer, served: set<nat>, events: seq<Event>, req: DepositRequest)
    requires req.coin.id.denom <= I64_MAX
    ensures var w := Exec(sign, Initial(served), events); AnsweredByHistory(w.t, w.log, req)
  {
    var w := Exec(sign, Initial(served), events);
    RunIndexed(sign, Initial(served), events);
    UniqueCredit(sign, served, events);
    DepositDecided(w.t, w.log, req);
  }

  /** No two credits share a coin or a request id, even when lookups are stale. */
  ghost predicate CreditsDistinct(log: seq<Happened>) {
    forall i, j :: 0 <= i < j < |log| && log[i].Credited? && log[j].Credited? ==>
      && log[i].deposit.coin.id != log[j].deposit.coin.id
      && log[i].deposit.requestId != log[j].deposit.requestId
  }

  lemma StepDistinct(sign: Signer, w: World, e: Event)
    requires Indexed(w.t, w.log) && CreditsDistinct(w.log)
    ensures CreditsDistinct(Step(sign, w, e).log)
  {
    var w' := Step(sign, w, e);
    if e.DepositCommitted? && w'.log != w.log {
      assert !CoinCredited(w.log, e.deposit.coin.id) && !IdUsed(w.log, e.deposit.requestId);
    }
  }

  lemma {:induction false} RunDistinct(sign: Signer, w: World, events: seq<Event>)
    requires Indexed(w.t, w.log) && CreditsDistinct(w.log)
    ensures CreditsDistinct(Exec(sign, w, events).log)
    decreases |events|
  {
    if events == [] {
    } else {
      StepIndexed(sign, w, events[0]);
      StepDistinct(sign, w, events[0]);
      RunDistinct(sign, Step(sign, w, events[0]), events[1..]);
    }
  }

  /** Each coin is credited at most once by the bank, over every run. */
  lemma UniqueCredit(sign: Signer, served: set<nat>, events: seq<Event>)
    ensures CreditsDistinct(Exec(sign, Initial(served), events).log)
  {
    RunDistinct(sign, Initial(served), events);
  }

  /** `spent_serials` and `deposits` index each other by coin and request id, stale lookups or not. */
  lemma SpentMatchesDeposits(sign: Signer, served: set<nat>, events: seq<Event>)
    ensures DepositsValid(Exec(sign, Initial(served), events).t)
  {
    RunInv(sign, Initial(served), events);
  }

  ghost function Face(): CoinId -> int {
    (coin: CoinId) => coin.denom
  }

  ghost function CoinOf(t: Tables): string -> CoinId {
    id => if id in t.deposits then t.deposits[id].coin else CoinId(0, 0, [])
  }

  /** What the accounts were credited is the face value of the spent coins. */
  lemma DepositedIsSpent(t: Tables)
    requires DepositsValid(t)
    ensures Deposited(t, t.accounts.Keys) == Sum(t.spent.Keys, Face())
  {
    forall coin | coin in t.spent.Keys ensures exists id :: id in t.deposits.Keys && CoinOf(t)(id) == coin {
      assert CoinOf(t)(t.spent[coin]) == coin;
    }
    SumImage(t.deposits.Keys, t.spent.Keys, Credit(t, t.accounts.Keys), Face(), CoinOf(t));
  }

  // ---------- solvency ----------

  predicate IsIssued(t: Tables, id: string) {
    id in t.withdrawals && t.withdrawals[id].state in {Signed, Completed}
  }

  /** The withdrawals whose signature the bank has given out, or is about to. */
  ghost function Issued(t: Tables): string -> int {
    id => if IsIssued(t, id) then t.withdrawals[id].denom else 0
  }

  /** Each deposited coin descends from a signature issued for its denomination. */
  ghost predicate Backed(t: Tables, origin: CoinId -> string) {
    forall id :: id in t.deposits ==>
      var coin := t.deposits[id].coin;
      IsIssued(t, origin(coin)) && t.withdrawals[origin(coin)].denom == coin.denom
  }

  /** Unforgeability: a deposited coin verifies only because the bank signed for it. */
  ghost predicate Honest(w: World, e: Event, origin: CoinId -> string) {
    e.DepositCommitted? ==>
      var coin := e.deposit.coin.id;
      IsIssued(w.t, origin(coin)) && w.t.withdrawals[origin(coin)].denom == coin.denom
  }

  ghost predicate HonestRun(sign: Signer, w: World, events: seq<Event>, origin: CoinId -> string)
    decreases |events|
  {
    events != [] ==> Honest(w, events[0], origin) && HonestRun(sign, Step(sign, w, events[0]), events[1..], origin)
  }

  /** Once issued, a withdrawal stays issued. */
  lemma IssuedStays(sign: Signer, w: World, e: Event, id: string)
    requires Inv(sign, w) && IsIssued(w.t, id)
    ensures IsIssued(Step(sign, w, e).t, id)
    ensures Step(sign, w, e).t.withdrawals[id].denom == w.t.withdrawals[id].denom
  {
    if e.Advance? && e.proc in w.procs {
      AdvanceKeepsIssued(sign, w, e.proc, id);
    }
  }

  lemma AdvanceKeepsIssued(sign: Signer, w: World, p: nat, id: string)
    requires Inv(sign, w) && IsIssued(w.t, id) && p in w.procs
    ensures IsIssued(Advanced(sign, w, p).t, id)
    ensures Advanced(sign, w, p).t.withdrawals[id].denom == w.t.withdrawals[id].denom
  {
    assert RecordValid(sign, w.t, id) && ProcValid(sign, w.t, w.procs[p]);
  }

  ghost predicate KeepsIssued(t: Tables, t': Tables) {
    forall id :: IsIssued(t, id) ==> IsIssued(t', id) && t'.withdrawals[id].denom == t.withdrawals[id].denom
  }

  lemma StepKeepsIssued(sign: Signer, w: World, e: Event)
    requires Inv(sign, w)
    ensures KeepsIssued(w.t, Step(sign, w, e).t)
  {
    forall id | IsIssued(w.t, id)
      ensures IsIssued(Step(sign, w, e).t, id)
      ensures Step(sign, w, e).t.withdrawals[id].denom == w.t.withdrawals[id].denom
    {
      IssuedStays(sign, w, e, id);
    }
  }

  lemma CreditBacked(t: Tables, req: DepositRequest, stale: bool, origin: CoinId -> string)
    requires Backed(t, origin) && IsIssued(t, origin(req.coin.id))
    requires t.withdrawals[origin(req.coin.id)].denom == req.coin.id.denom
    ensures Backed(CommitDeposit(t, req, stale).0, origin)
  {
  }

  lemma StepBacked(sign: Signer, w: World, e: Event, origin: CoinId -> string)
    requires Inv(sign, w) && Backed(w.t, origin) && Honest(w, e, origin)
    ensures Backed(Step(sign, w, e).t, origin)
  {
    match e
    case Open(_, _) =>
    case DepositCommitted(req, stale) => CreditBacked(w.t, req, stale, origin);
    case _ =>
      var _ := StepFrame(sign, w, e);
      StepKeepsIssued(sign, w, e);
  }

  lemma {:induction false} RunBacked(sign: Signer, w: World, events: seq<Event>, origin: CoinId -> string)
    requires Inv(sign, w) && Backed(w.t, origin) && HonestRun(sign, w, events, origin)
    ensures Inv(sign, Exec(sign, w, events)) && Backed(Exec(sign, w, events).t, origin)
    decreases |events|
  {
    if events == [] {
    } else {
      StepInv(sign, w, events[0]);
      StepBacked(sign, w, events[0], origin);
      RunBacked(sign, Step(sign, w, events[0]), events[1..], origin);
    }
  }

  ghost function Origins(t: Tables, origin: CoinId -> string): string -> string {
    id => if id in t.deposits then origin(t.deposits[id].coin) else id
  }

  /** Deposits are worth no more than what was issued. */
  lemma DepositsBacked(t: Tables, origin: CoinId -> string)
    requires DepositsValid(t) && Backed(t, origin) && forall c, d :: origin(c) == origin(d) ==> c == d
    ensures Deposited(t, t.accounts.Keys) <= Sum(t.withdrawals.Keys, Issued(t))
  {
    SumInjection(t.deposits.Keys, t.withdrawals.Keys, Credit(t, t.accounts.Keys), Issued(t), Origins(t, origin));
  }

  /** Issued and pending withdrawals make up the active ones. */
  ghost function Unissued(t: Tables): string -> int {
    id => if id in t.withdrawals && t.withdrawals[id].state == Pending then t.withdrawals[id].denom else 0
  }

  lemma ActiveSplits(sign: Signer, t: Tables)
    requires RecordsValid(sign, t)
    ensures Withdrawn(t, t.accounts.Keys) == Sum(t.withdrawals.Keys, Issued(t)) + Sum(t.withdrawals.Keys, Unissued(t))
    ensures Sum(t.withdrawals.Keys, Unissued(t)) >= 0
  {
    forall id | id in t.withdrawals.Keys
      ensures Active(t, t.accounts.Keys)(id) == Issued(t)(id) + Unissued(t)(id)
    {
      assert RecordValid(sign, t, id);
    }
    SumAdd(t.withdrawals.Keys, Issued(t), Unissued(t), Active(t, t.accounts.Keys));
    SumNonNegative(t.withdrawals.Keys, Unissued(t));
  }

  /** Deposits never exceed what was issued, whatever else the run does. */
  lemma DepositsNeverExceedIssued(sign: Signer, served: set<nat>, events: seq<Event>, origin: CoinId -> string)
    requires forall c, d :: origin(c) == origin(d) ==> c == d
    requires HonestRun(sign, Initial(served), events, origin)
    ensures var t := Exec(sign, Initial(served), events).t;
            Deposited(t, t.accounts.Keys) <= Sum(t.withdrawals.Keys, Issued(t))
  {
    RunBacked(sign, Initial(served), events, origin);
    DepositsBacked(Exec(sign, Initial(served), events).t, origin);
  }

  /**
   Solvency: if every coin deposited descends from its own issued signature and no refund is repeated,
   balances together with pending withdrawals never exceed the opening credits.
   */
  lemma Solvency(sign: Signer, served: set<nat>, events: seq<Event>, origin: CoinId -> string)
    requires forall c, d :: origin(c) == origin(d) ==> c == d
    requires HonestRun(sign, Initial(served), events, origin)
    requires !RunRepeatsRefund(sign, Initial(served), events, Exec(sign, Initial(served), events).t.accounts.Keys)
    ensures var w := Exec(sign, Initial(served), events);
            Balances(w.t, w.t.accounts.Keys) + Sum(w.t.withdrawals.Keys, Unissued(w.t))
            <= Openings(w.log, w.t.accounts.Keys)
  {
    var w := Exec(sign, Initial(served), events);
    RunInv(sign, Initial(served), events);
    DepositsNeverExceedIssued(sign, served, events, origin);
    ActiveSplits(sign, w.t);
    LedgerRunExactly(sign, served, events, w.t.accounts.Keys);
  }
}
