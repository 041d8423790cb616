/** Startup recovery of withdrawals that a crash left unfinished. */
module Recovery {
  import opened Common
  import opened Sums
  import opened BankTables

  /** The outermost commit recovery makes for a record: one transaction, or none. */
  function Recommit(t: Tables, served: set<nat>, sign: Signer, id: string): Tables {
    if id !in t.withdrawals then t
    else
      var rec := t.withdrawals[id];
      match rec.state
      case Signed => SetState(t, id, Completed)
      case Pending =>
        if rec.denom !in served then t
        else
          (match sign(rec.denom, rec.blinded)
           case Some(signature) => MarkSigned(t, id, signature)
           case None => Compensate(t, id, rec.account, rec.denom).0)
      case _ => t
  }

  /** A committed step for each id in turn: any prefix of any sequence of recovery passes. */
  function Commits(t: Tables, served: set<nat>, sign: Signer, ids: seq<string>): Tables
    decreases |ids|
  {
    if ids == [] then t else Commits(Recommit(t, served, sign, ids[0]), served, sign, ids[1..])
  }

  /** What the loop body does to one row, uninterrupted. */
  function RecoverRow(t: Tables, served: set<nat>, sign: Signer, id: string): Tables {
    if id !in t.withdrawals then t
    else
      var rec := t.withdrawals[id];
      match rec.state
      case Pending => Finalize(t, served, sign, id, rec.account, rec.denom, rec.blinded).0
      case Signed => SetState(t, id, Completed)
      case _ => t
  }

  function RecoverRows(t: Tables, served: set<nat>, sign: Signer, rows: seq<string>): Tables
    decreases |rows|
  {
    if rows == [] then t else RecoverRows(RecoverRow(t, served, sign, rows[0]), served, sign, rows[1..])
  }

  // ---------- the goal of recovery ----------

  /** Records whose recovery has something to do. */
  predicate Unfinished(t: Tables, id: string) {
    id in t.withdrawals && t.withdrawals[id].state in {Pending, Signed}
  }

  ghost predicate Finished(t: Tables) {
    forall id :: id in t.withdrawals ==> !Unfinished(t, id)
  }

  /** Where a record ends up. */
  function Final(sign: Signer, rec: Withdrawal): Withdrawal {
    match rec.state
    case Signed => rec.(state := Completed)
    case Pending =>
      (match sign(rec.denom, rec.blinded)
       case Some(signature) => rec.(state := Completed, signature := Some(signature))
       case None => rec.(state := Compensated))
    case _ => rec
  }

  /** The refund `account` is owed for this record. */
  ghost function Owing(t: Tables, sign: Signer, account: string): string -> int {
    id => if && id in t.withdrawals
             && t.withdrawals[id].state == Pending && t.withdrawals[id].account == account
             && sign(t.withdrawals[id].denom, t.withdrawals[id].blinded).None?
          then t.withdrawals[id].denom else 0
  }

  ghost function Refund(t: Tables, sign: Signer, account: string): int {
    Sum(t.withdrawals.Keys, Owing(t, sign, account))
  }

  /** The balance every refund together would leave. */
  ghost function Settled(t: Tables, sign: Signer, account: string): int
    requires account in t.accounts
  {
    t.accounts[account] + Refund(t, sign, account)
  }

  /** What the ledger owes in total: unchanged by every committed step of recovery. */
  ghost predicate SameGoal(t: Tables, t': Tables, sign: Signer) {
    && t'.accounts.Keys == t.accounts.Keys && t'.withdrawals.Keys == t.withdrawals.Keys
    && t'.spent == t.spent && t'.deposits == t.deposits
    && (forall a :: a in t.accounts ==> Settled(t', sign, a) == Settled(t, sign, a))
    && (forall id :: id in t.withdrawals ==> Final(sign, t'.withdrawals[id]) == Final(sign, t.withdrawals[id]))
  }

  ghost predicate WellFormed(t: Tables) {
    && (forall a :: a in t.accounts ==> t.accounts[a] <= I64_MAX)
    && forall id :: id in t.withdrawals ==> t.withdrawals[id].account in t.accounts && t.withdrawals[id].denom <= I64_MAX
  }

  /** Every pending record's key is served, and the refunds fit their accounts. */
  ghost predicate Recoverable(t: Tables, served: set<nat>, sign: Signer) {
    && (forall id :: id in t.withdrawals && t.withdrawals[id].state == Pending ==> t.withdrawals[id].denom in served)
    && forall a :: a in t.accounts ==> Settled(t, sign, a) <= I64_MAX
  }

  // ---------- one committed step ----------

  /** Replacing one record changes an account's refund by that record's own term. */
  lemma RefundMoves(t: Tables, t': Tables, sign: Signer, id: string, account: string)
    requires id in t.withdrawals && id in t'.withdrawals && t'.withdrawals == t.withdrawals[id := t'.withdrawals[id]]
    ensures Refund(t', sign, account)
         == Refund(t, sign, account) - Owing(t, sign, account)(id) + Owing(t', sign, account)(id)
  {
    assert t'.withdrawals.Keys == t.withdrawals.Keys;
    SumChange(t.withdrawals.Keys, Owing(t, sign, account), Owing(t', sign, account), id);
  }

  lemma OneOwing(t: Tables, sign: Signer, account: string, id: string)
    ensures 0 <= Owing(t, sign, account)(id) <= Refund(t, sign, account)
  {
    forall i ensures Owing(t, sign, account)(i) >= 0 {
      if i in t.withdrawals {
        var rec := t.withdrawals[i];
        assert rec.denom >= 0;
      }
    }
    SumNonNegative(t.withdrawals.Keys, Owing(t, sign, account));
    if id in t.withdrawals {
      SumPick(t.withdrawals.Keys, Owing(t, sign, account), id);
      SumNonNegative(t.withdrawals.Keys - {id}, Owing(t, sign, account));
    }
  }

  /** A step that only moves a record on owes nobody more or less. */
  lemma RestatedGoal(t: Tables, t': Tables, sign: Signer, id: string)
    requires id in t.withdrawals && id in t'.withdrawals
    requires t' == t.(withdrawals := t.withdrawals[id := t'.withdrawals[id]])
    requires Final(sign, t'.withdrawals[id]) == Final(sign, t.withdrawals[id])
    requires forall a :: Owing(t', sign, a)(id) == Owing(t, sign, a)(id)
    ensures SameGoal(t, t', sign)
  {
    forall a | a in t.accounts ensures Settled(t', sign, a) == Settled(t, sign, a) {
      RefundMoves(t, t', sign, id, a);
    }
  }

  lemma CompensateGoal(t: Tables, sign: Signer, id: string)
    requires id in t.withdrawals && t.withdrawals[id].state == Pending && t.withdrawals[id].account in t.accounts
    requires var rec := t.withdrawals[id];
             sign(rec.denom, rec.blinded).None? && Compensate(t, id, rec.account, rec.denom).1.Ok?
    ensures SameGoal(t, Compensate(t, id, t.withdrawals[id].account, t.withdrawals[id].denom).0, sign)
  {
    var rec := t.withdrawals[id];
    var t' := Compensate(t, id, rec.account, rec.denom).0;
    forall a | a in t.accounts ensures Settled(t', sign, a) == Settled(t, sign, a) {
      RefundMoves(t, t', sign, id, a);
    }
  }

  lemma SignGoal(t: Tables, sign: Signer, id: string)
    requires id in t.withdrawals && t.withdrawals[id].state == Pending
    requires sign(t.withdrawals[id].denom, t.withdrawals[id].blinded).Some?
    ensures SameGoal(t, MarkSigned(t, id, sign(t.withdrawals[id].denom, t.withdrawals[id].blinded).value), sign)
  {
    RestatedGoal(t, MarkSigned(t, id, sign(t.withdrawals[id].denom, t.withdrawals[id].blinded).value), sign, id);
  }

  lemma CompleteGoal(t: Tables, sign: Signer, id: string)
    requires id in t.withdrawals && t.withdrawals[id].state == Signed
    ensures SameGoal(t, SetState(t, id, Completed), sign)
  {
    RestatedGoal(t, SetState(t, id, Completed), sign, id);
  }

  lemma RecommitGoal(t: Tables, served: set<nat>, sign: Signer, id: string)
    requires WellFormed(t)
    ensures SameGoal(t, Recommit(t, served, sign, id), sign)
  {
    if id in t.withdrawals {
      var rec := t.withdrawals[id];
      if rec.state == Signed {
        CompleteGoal(t, sign, id);
      } else if rec.state == Pending && rec.denom in served {
        if sign(rec.denom, rec.blinded).Some? {
          SignGoal(t, sign, id);
        } else if Compensate(t, id, rec.account, rec.denom).1.Ok? {
          CompensateGoal(t, sign, id);
        }
      }
    }
  }

  lemma RecommitWellFormed(t: Tables, served: set<nat>, sign: Signer, id: string)
    requires WellFormed(t)
    ensures WellFormed(Recommit(t, served, sign, id))
  {
  }

  /** A step changes no record, or moves an unfinished one on from where it was. */
  lemma RecommitShape(t: Tables, t': Tables, served: set<nat>, sign: Signer, id: string)
    requires WellFormed(t) && t' == Recommit(t, served, sign, id)
    ensures || t'.withdrawals == t.withdrawals
            || (&& Unfinished(t, id) && id in t'.withdrawals
                && t'.withdrawals == t.withdrawals[id := t'.withdrawals[id]]
                && t'.withdrawals[id].denom == t.withdrawals[id].denom && t'.withdrawals[id].state != Pending
                && !(t.withdrawals[id].state == Pending && t.withdrawals[id].denom !in served))
  {
  }

  /** What a step leaves undone, and that it undoes nothing. */
  lemma RecommitProgress(t: Tables, served: set<nat>, sign: Signer, id: string)
    requires WellFormed(t)
    ensures var t' := Recommit(t, served, sign, id);
            && t'.withdrawals.Keys == t.withdrawals.Keys
            && (forall i :: i in t.withdrawals && !Unfinished(t, i) ==> t'.withdrawals[i] == t.withdrawals[i])
            && (forall i :: i in t.withdrawals && i != id ==> t'.withdrawals[i] == t.withdrawals[i])
            && (forall i :: i in t.withdrawals ==>
                  && t'.withdrawals[i].denom == t.withdrawals[i].denom
                  && (t'.withdrawals[i].state == Pending ==> t.withdrawals[i].state == Pending))
            && (id in t.withdrawals && t.withdrawals[id].denom !in served && t.withdrawals[id].state == Pending
                ==> t'.withdrawals[id] == t.withdrawals[id])
  {
    RecommitShape(t, Recommit(t, served, sign, id), served, sign, id);
  }

  lemma RecoverableKept(t: Tables, t': Tables, served: set<nat>, sign: Signer)
    requires Recoverable(t, served, sign) && SameGoal(t, t', sign)
    requires forall id :: id in t.withdrawals ==>
               t'.withdrawals[id].denom == t.withdrawals[id].denom
               && (t'.withdrawals[id].state == Pending ==> t.withdrawals[id].state == Pending)
    ensures Recoverable(t', served, sign)
  {
  }

  lemma RecoverableStep(t: Tables, served: set<nat>, sign: Signer, id: string)
    requires WellFormed(t) && Recoverable(t, served, sign)
    ensures Recoverable(Recommit(t, served, sign, id), served, sign)
  {
    RecommitGoal(t, served, sign, id);
    RecommitProgress(t, served, sign, id);
    RecoverableKept(t, Recommit(t, served, sign, id), served, sign);
  }

  /** A refund that is owed fits. */
  lemma RefundFits(t: Tables, served: set<nat>, sign: Signer, id: string)
    requires WellFormed(t) && Recoverable(t, served, sign) && id in t.withdrawals
    requires var rec := t.withdrawals[id]; rec.state == Pending && sign(rec.denom, rec.blinded).None?
    ensures Compensate(t, id, t.withdrawals[id].account, t.withdrawals[id].denom).1.Ok?
  {
    var rec := t.withdrawals[id];
    OneOwing(t, sign, rec.account, id);
    assert Settled(t, sign, rec.account) <= I64_MAX;
  }

  /** Under the hypotheses a row is finished by its turn. */
  lemma RowFinishes(t: Tables, served: set<nat>, sign: Signer, id: string)
    requires WellFormed(t) && Recoverable(t, served, sign) && id in t.withdrawals
    ensures !Unfinished(RecoverRow(t, served, sign, id), id)
  {
    var rec := t.withdrawals[id];
    if rec.state == Pending {
      assert rec.denom in served;
      if sign(rec.denom, rec.blinded).None? {
        RefundFits(t, served, sign, id);
      }
    }
  }

  // ---------- passes, interrupted or not ----------

  lemma SameGoalTransitive(a: Tables, b: Tables, c: Tables, sign: Signer)
    requires SameGoal(a, b, sign) && SameGoal(b, c, sign)
    ensures SameGoal(a, c, sign)
  {
  }

  lemma {:induction false} CommitsGoal(t: Tables, served: set<nat>, sign: Signer, ids: seq<string>)
    requires WellFormed(t)
    ensures WellFormed(Commits(t, served, sign, ids)) && SameGoal(t, Commits(t, served, sign, ids), sign)
    decreases |ids|
  {
    if ids == [] {
    } else {
      var t1 := Recommit(t, served, sign, ids[0]);
      RecommitGoal(t, served, sign, ids[0]);
      RecommitWellFormed(t, served, sign, ids[0]);
      CommitsGoal(t1, served, sign, ids[1..]);
      SameGoalTransitive(t, t1, Commits(t1, served, sign, ids[1..]), sign);
    }
  }

  lemma {:induction false} CommitsRecoverable(t: Tables, served: set<nat>, sign: Signer, ids: seq<string>)
    requires WellFormed(t) && Recoverable(t, served, sign)
    ensures Recoverable(Commits(t, served, sign, ids), served, sign)
    decreases |ids|
  {
    if ids == [] {
    } else {
      RecoverableStep(t, served, sign, ids[0]);
      RecommitWellFormed(t, served, sign, ids[0]);
      CommitsRecoverable(Recommit(t, served, sign, ids[0]), served, sign, ids[1..]);
    }
  }

  /** The loop body is two committed steps, the second of which may find nothing to do. */
  lemma RowIsTwoCommits(t: Tables, served: set<nat>, sign: Signer, id: string)
    ensures RecoverRow(t, served, sign, id) == Recommit(Recommit(t, served, sign, id), served, sign, id)
  {
    if id in t.withdrawals && t.withdrawals[id].state == Pending {
      var rec := t.withdrawals[id];
      match sign(rec.denom, rec.blinded) {
        case Some(signature) =>
        case None =>
          var (t', r) := Compensate(t, id, rec.account, rec.denom);
          assert r.Err? ==> t' == t;
      }
    }
  }

  function Twice(rows: seq<string>): seq<string> {
    if rows == [] then [] else [rows[0], rows[0]] + Twice(rows[1..])
  }

  lemma {:induction false} RowsAreCommits(t: Tables, served: set<nat>, sign: Signer, rows: seq<string>)
    ensures RecoverRows(t, served, sign, rows) == Commits(t, served, sign, Twice(rows))
    decreases |rows|
  {
    if rows == [] {
    } else {
      var ids, id := Twice(rows), rows[0];
      assert ids[1..][1..] == Twice(rows[1..]) && ids[1..][0] == id;
      RowIsTwoCommits(t, served, sign, id);
      var t1 := Recommit(t, served, sign, id);
      assert Commits(t, served, sign, ids) == Commits(t1, served, sign, ids[1..]);
      assert Commits(t1, served, sign, ids[1..]) == Commits(Recommit(t1, served, sign, id), served, sign, ids[1..][1..]);
      RowsAreCommits(RecoverRow(t, served, sign, id), served, sign, rows[1..]);
    }
  }

  /** `rows` is what the recovery query returns: every unfinished record, in some order. */
  ghost predicate Query(rows: seq<string>, t: Tables) {
    forall id :: id in t.withdrawals && Unfinished(t, id) ==> id in rows
  }

  /** The rows themselves: each unfinished record once. */
  ghost predicate QueryRows(rows: seq<string>, t: Tables) {
    && (forall id :: id in rows <==> Unfinished(t, id))
    && forall i, j :: 0 <= i < j < |rows| ==> rows[i] != rows[j]
  }

  lemma QueryShrinks(t: Tables, t': Tables, rows: seq<string>)
    requires rows != [] && Query(rows, t) && !Unfinished(t', rows[0]) && t'.withdrawals.Keys == t.withdrawals.Keys
    requires forall i :: i in t.withdrawals && i != rows[0] ==> t'.withdrawals[i] == t.withdrawals[i]
    ensures Query(rows[1..], t')
  {
    forall i | i in t'.withdrawals && Unfinished(t', i) ensures i in rows[1..] {
      assert Unfinished(t, i) && i in rows;
    }
  }

  lemma {:induction false} PassFinishes(t: Tables, served: set<nat>, sign: Signer, rows: seq<string>)
    requires WellFormed(t) && Recoverable(t, served, sign) && Query(rows, t)
    ensures Finished(RecoverRows(t, served, sign, rows))
    decreases |rows|
  {
    if rows == [] {
      assert forall id :: id in t.withdrawals ==> !Unfinished(t, id);
    } else {
      RowKeeps(t, served, sign, rows[0]);
      var t' := RecoverRow(t, served, sign, rows[0]);
      if rows[0] in t.withdrawals {
        RowFinishes(t, served, sign, rows[0]);
      }
      QueryShrinks(t, t', rows);
      PassFinishes(t', served, sign, rows[1..]);
    }
  }

  /** A row's turn keeps the hypotheses and touches no other record. */
  lemma RowKeeps(t: Tables, served: set<nat>, sign: Signer, id: string)
    requires WellFormed(t) && Recoverable(t, served, sign)
    ensures var t' := RecoverRow(t, served, sign, id);
            && WellFormed(t') && Recoverable(t', served, sign)
            && t'.withdrawals.Keys == t.withdrawals.Keys
            && forall i :: i in t.withdrawals && i != id ==> t'.withdrawals[i] == t.withdrawals[i]
  {
    var t1 := Recommit(t, served, sign, id);
    RowIsTwoCommits(t, served, sign, id);
    RecommitWellFormed(t, served, sign, id);
    RecoverableStep(t, served, sign, id);
    RecommitProgress(t, served, sign, id);
    RecommitWellFormed(t1, served, sign, id);
    RecoverableStep(t1, served, sign, id);
    RecommitProgress(t1, served, sign, id);
  }

  /** Where recovery is heading: each record final, each account refunded. */
  ghost predicate Recovered(t: Tables, t': Tables, sign: Signer) {
    && t'.accounts.Keys == t.accounts.Keys && t'.withdrawals.Keys == t.withdrawals.Keys
    && t'.spent == t.spent && t'.deposits == t.deposits
    && (forall id :: id in t.withdrawals ==> t'.withdrawals[id] == Final(sign, t.withdrawals[id]))
    && (forall a :: a in t.accounts ==> t'.accounts[a] == Settled(t, sign, a))
  }

  lemma FinishedOwesNothing(t: Tables, sign: Signer, account: string)
    requires Finished(t)
    ensures Refund(t, sign, account) == 0
  {
    SumNonNegative(t.withdrawals.Keys, Owing(t, sign, account));
  }

  lemma FinishedIsGoal(t: Tables, t': Tables, sign: Signer)
    requires SameGoal(t, t', sign) && Finished(t')
    ensures Recovered(t, t', sign)
  {
    forall a | a in t.accounts ensures t'.accounts[a] == Settled(t, sign, a) {
      FinishedOwesNothing(t', sign, a);
    }
  }

  /** There is one recovered state. */
  lemma RecoveredUnique(t: Tables, a: Tables, b: Tables, sign: Signer)
    requires Recovered(t, a, sign) && Recovered(t, b, sign)
    ensures a == b
  {
    assert a.accounts == b.accounts && a.withdrawals == b.withdrawals;
  }

  /**
   Recovery may be interrupted after any committed step, any number of times; a pass that then runs
   to its end, over its rows in any order, reaches the one recovered state, the same that an
   uninterrupted pass reaches, with no record left pending or signed.
   */
  lemma InterruptedRecoveryConverges(
    t: Tables, served: set<nat>, sign: Signer, interrupted: seq<string>, rows: seq<string>, uninterrupted: seq<string>)
    requires WellFormed(t) && Recoverable(t, served, sign)
    requires Query(rows, Commits(t, served, sign, interrupted)) && Query(uninterrupted, t)
    ensures var t' := RecoverRows(Commits(t, served, sign, interrupted), served, sign, rows);
            && t' == RecoverRows(t, served, sign, uninterrupted)
            && Recovered(t, t', sign) && Finished(t')
  {
    var t1 := Commits(t, served, sign, interrupted);
    CommitsGoal(t, served, sign, interrupted);
    CommitsRecoverable(t, served, sign, interrupted);
    PassFinishes(t1, served, sign, rows);
    PassFinishes(t, served, sign, uninterrupted);
    RowsAreCommits(t1, served, sign, rows);
    RowsAreCommits(t, served, sign, uninterrupted);
    CommitsGoal(t1, served, sign, Twice(rows));
    CommitsGoal(t, served, sign, Twice(uninterrupted));
    var a, b := RecoverRows(t1, served, sign, rows), RecoverRows(t, served, sign, uninterrupted);
    SameGoalTransitive(t, t1, a, sign);
    FinishedIsGoal(t, a, sign);
    FinishedIsGoal(t, b, sign);
    RecoveredUnique(t, a, b, sign);
  }

  /** Recovering recovered tables does nothing. */
  lemma {:induction false} RecoveryIdempotent(t: Tables, served: set<nat>, sign: Signer, rows: seq<string>)
    requires Finished(t)
    ensures RecoverRows(t, served, sign, rows) == t
    decreases |rows|
  {
    if rows == [] {
    } else {
      assert RecoverRow(t, served, sign, rows[0]) == t;
      RecoveryIdempotent(t, served, sign, rows[1..]);
    }
  }

  // ---------- one record among others ----------

  /** The record can be finished, whatever the others do: all its account's refunds fit. */
  ghost predicate Ready(t: Tables, served: set<nat>, sign: Signer, id: string)
    requires WellFormed(t) && id in t.withdrawals
  {
    var rec := t.withdrawals[id];
    || rec.state != Pending
    || (rec.denom in served && (sign(rec.denom, rec.blinded).Some? || Settled(t, sign, rec.account) <= I64_MAX))
  }

  lemma ReadyRowFinishes(t: Tables, served: set<nat>, sign: Signer, id: string)
    requires WellFormed(t) && id in t.withdrawals && Ready(t, served, sign, id)
    ensures RecoverRow(t, served, sign, id).withdrawals[id] == Final(sign, t.withdrawals[id])
  {
    OneOwing(t, sign, t.withdrawals[id].account, id);
  }

  /** What every account is owed in all stays as it was. */
  lemma RowGoal(t: Tables, t': Tables, served: set<nat>, sign: Signer, id: string)
    requires WellFormed(t) && t' == RecoverRow(t, served, sign, id)
    ensures WellFormed(t') && SameGoal(t, t', sign)
  {
    var t1 := Recommit(t, served, sign, id);
    RowIsTwoCommits(t, served, sign, id);
    RecommitWellFormed(t, served, sign, id);
    RecommitWellFormed(t1, served, sign, id);
    RecommitGoal(t, served, sign, id);
    RecommitGoal(t1, served, sign, id);
    SameGoalTransitive(t, t1, t', sign);
  }

  /** Other records, and finished ones, stay as they were. */
  ghost predicate Untouched(t: Tables, t': Tables, id: string) {
    && t'.withdrawals.Keys == t.withdrawals.Keys
    && forall i :: i in t.withdrawals && (i != id || !Unfinished(t, i)) ==> t'.withdrawals[i] == t.withdrawals[i]
  }

  lemma RowUntouched(t: Tables, t': Tables, served: set<nat>, sign: Signer, id: string)
    requires WellFormed(t) && t' == RecoverRow(t, served, sign, id)
    ensures Untouched(t, t', id)
  {
    var t1 := Recommit(t, served, sign, id);
    RowIsTwoCommits(t, served, sign, id);
    RecommitWellFormed(t, served, sign, id);
    RecommitProgress(t, served, sign, id);
    assert Untouched(t, t1, id);
    RecommitProgress(t1, served, sign, id);
    assert Untouched(t1, t', id);
  }

  lemma ReadyKept(t: Tables, t': Tables, served: set<nat>, sign: Signer, id: string)
    requires WellFormed(t) && WellFormed(t') && SameGoal(t, t', sign)
    requires id in t.withdrawals && t'.withdrawals[id] == t.withdrawals[id] && Ready(t, served, sign, id)
    ensures Ready(t', served, sign, id)
  {
  }

  /** A turn either finishes the record or leaves it, and leaves it ready. */
  lemma ReadyTurn(t: Tables, t': Tables, served: set<nat>, sign: Signer, row: string, id: string)
    requires WellFormed(t) && t' == RecoverRow(t, served, sign, row)
    requires id in t.withdrawals && Ready(t, served, sign, id)
    ensures WellFormed(t') && id in t'.withdrawals
    ensures row == id ==> t'.withdrawals[id] == Final(sign, t.withdrawals[id])
    ensures row != id ==> t'.withdrawals[id] == t.withdrawals[id] && Ready(t', served, sign, id)
  {
    RowGoal(t, t', served, sign, row);
    if row == id {
      ReadyRowFinishes(t, served, sign, id);
    } else {
      RowUntouched(t, t', served, sign, row);
      ReadyKept(t, t', served, sign, id);
    }
  }

  lemma {:induction false} FinishedStays(t: Tables, served: set<nat>, sign: Signer, rows: seq<string>, id: string)
    requires WellFormed(t) && id in t.withdrawals && !Unfinished(t, id)
    ensures id in RecoverRows(t, served, sign, rows).withdrawals
    ensures RecoverRows(t, served, sign, rows).withdrawals[id] == t.withdrawals[id]
    decreases |rows|
  {
    if rows == [] {
    } else {
      var t' := RecoverRow(t, served, sign, rows[0]);
      RowGoal(t, t', served, sign, rows[0]);
      RowUntouched(t, t', served, sign, rows[0]);
      FinishedStays(t', served, sign, rows[1..], id);
    }
  }

  /**
   No record holds up another: a pass finishes each record that is ready, even where some other
   denomination is no longer served or some other refund does not fit.
   */
  lemma {:induction false} EachRecordRecovers(t: Tables, served: set<nat>, sign: Signer, rows: seq<string>, id: string)
    requires WellFormed(t) && id in t.withdrawals && id in rows && Ready(t, served, sign, id)
    ensures id in RecoverRows(t, served, sign, rows).withdrawals
    ensures RecoverRows(t, served, sign, rows).withdrawals[id] == Final(sign, t.withdrawals[id])
    decreases |rows|
  {
    var t' := RecoverRow(t, served, sign, rows[0]);
    ReadyTurn(t, t', served, sign, rows[0], id);
    if rows[0] == id {
      FinishedStays(t', served, sign, rows[1..], id);
    } else {
      EachRecordRecovers(t', served, sign, rows[1..], id);
    }
  }

  // ---------- exactly when nothing is left stranded ----------

  lemma {:induction false} KeylessStaysPending(t: Tables, served: set<nat>, sign: Signer, ids: seq<string>, id: string)
    requires WellFormed(t) && id in t.withdrawals
    requires t.withdrawals[id].state == Pending && t.withdrawals[id].denom !in served
    ensures Unfinished(Commits(t, served, sign, ids), id)
    decreases |ids|
  {
    if ids == [] {
    } else {
      RecommitWellFormed(t, served, sign, ids[0]);
      RecommitProgress(t, served, sign, ids[0]);
      KeylessStaysPending(Recommit(t, served, sign, ids[0]), served, sign, ids[1..], id);
    }
  }

  /**
   A pass leaves no withdrawal stranded if and only if every pending denomination is still served
   and every account has room for the refunds it is owed.
   */
  lemma RecoveryCompletesExactly(t: Tables, served: set<nat>, sign: Signer, rows: seq<string>)
    requires WellFormed(t) && Query(rows, t)
    ensures Finished(RecoverRows(t, served, sign, rows)) <==> Recoverable(t, served, sign)
  {
    var t' := RecoverRows(t, served, sign, rows);
    if Recoverable(t, served, sign) {
      PassFinishes(t, served, sign, rows);
    }
    if Finished(t') {
      RowsAreCommits(t, served, sign, rows);
      CommitsGoal(t, served, sign, Twice(rows));
      FinishedIsGoal(t, t', sign);
      forall id | id in t.withdrawals && t.withdrawals[id].state == Pending ensures t.withdrawals[id].denom in served {
        if t.withdrawals[id].denom !in served {
          KeylessStaysPending(t, served, sign, Twice(rows), id);
        }
      }
    }
  }

  /** A pending record whose denomination is no longer served is stranded by every pass. */
  lemma PendingCanStrand(sign: Signer, rows: seq<string>)
    ensures var t := Tables(map["alice" := 36], map["req-1" := Withdrawal(Pending, "alice", 64, [], None)], map[], map[]);
            Unfinished(RecoverRows(t, {}, sign, rows), "req-1")
  {
    var t := Tables(map["alice" := 36], map["req-1" := Withdrawal(Pending, "alice", 64, [], None)], map[], map[]);
    RowsAreCommits(t, {}, sign, rows);
    KeylessStaysPending(t, {}, sign, Twice(rows), "req-1");
  }
}
