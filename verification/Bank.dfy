/**
 The bank's tables and the transactions over them.  Each function is one transaction: it returns
 the tables as committed, or as they were when the transaction is rolled back.
 */
module BankTables {
  import opened Common

  datatype WithdrawState = Pending | Signed | Completed | Compensated

  datatype Withdrawal = Withdrawal(
    state: WithdrawState, account: string, denom: nat, blinded: Bytes, signature: Option<Bytes>)

  datatype Deposit = Deposit(coin: CoinId, account: string)

  datatype Tables = Tables(
    accounts: map<string, nat>,
    withdrawals: map<string, Withdrawal>,
    spent: map<CoinId, string>,
    deposits: map<string, Deposit>)

  const EMPTY := Tables(map[], map[], map[], map[])

  datatype WithdrawRequest = WithdrawRequest(account: string, requestId: string, denom: nat, blinded: Bytes)

  datatype DepositRequest = DepositRequest(coin: Coin, account: string, requestId: string)

  datatype BankError =
    | ValueRange
    | AccountExists
    | AccountNotFound
    | InsufficientBalance(balance: nat, requested: nat)
    | UnknownDenomination
    | WithdrawFailed
    | WithdrawPreviouslyFailed
    | MalformedRecord
    | RegistryUnreachable
    | Database

  datatype DepositOutcome = Accepted | Replay | DoubleSpend | RequestIdReuse | UnknownAccount

  /** Blind signing under a denomination's key: a deterministic partial function. */
  type Signer = (nat, Bytes) -> Option<Bytes>

  // ---------- transactions ----------

  function CreateAccount(t: Tables, account: string, amount: nat): (Tables, Result<nat, BankError>) {
    if amount > I64_MAX then (t, Err(ValueRange))
    else if account in t.accounts then (t, Err(AccountExists))
    else (t.(accounts := t.accounts[account := amount]), Ok(amount))
  }

  /** Debit the account and write the pending record, or neither. */
  function Debit(t: Tables, req: WithdrawRequest): (Tables, Result<(), BankError>) {
    if req.denom > I64_MAX then (t, Err(ValueRange))
    else if req.account !in t.accounts then (t, Err(AccountNotFound))
    else if t.accounts[req.account] < req.denom then
      (t, Err(InsufficientBalance(t.accounts[req.account], req.denom)))
    else if req.requestId in t.withdrawals then (t, Err(Database))
    else
      (t.(accounts := t.accounts[req.account := t.accounts[req.account] - req.denom],
          withdrawals := t.withdrawals[req.requestId :=
            Withdrawal(Pending, req.account, req.denom, req.blinded, None)]),
       Ok(()))
  }

  function MarkSigned(t: Tables, requestId: string, signature: Bytes): Tables {
    if requestId !in t.withdrawals then t
    else t.(withdrawals := t.withdrawals[requestId :=
           t.withdrawals[requestId].(state := Signed, signature := Some(signature))])
  }

  function SetState(t: Tables, requestId: string, state: WithdrawState): Tables {
    if requestId !in t.withdrawals then t
    else t.(withdrawals := t.withdrawals[requestId := t.withdrawals[requestId].(state := state)])
  }

  /** Credit the debit back and mark the record; the record's present state is not consulted. */
  function Compensate(t: Tables, requestId: string, account: string, denom: nat): (Tables, Result<(), BankError>) {
    if denom > I64_MAX then (t, Err(ValueRange))
    else if account !in t.accounts then (SetState(t, requestId, Compensated), Ok(()))
    else if t.accounts[account] + denom > I64_MAX then (t, Err(Database))
    else
      (SetState(t.(accounts := t.accounts[account := t.accounts[account] + denom]), requestId, Compensated), Ok(()))
  }

  /**
   The deposit transaction.  `stale` says that the request-id lookup ran before a concurrent
   deposit under the same id committed, so it found nothing.
   */
  function CommitDeposit(t: Tables, req: DepositRequest, stale: bool): (Tables, Result<DepositOutcome, BankError>) {
    var coin, id := req.coin.id, req.requestId;
    if coin.denom > I64_MAX then (t, Err(ValueRange))
    else if id in t.deposits && !stale then
      (t, Ok(if t.deposits[id].coin == coin then Replay else RequestIdReuse))
    else if coin in t.spent then (t, Ok(DoubleSpend))
    else if req.account !in t.accounts then (t, Ok(UnknownAccount))
    else if t.accounts[req.account] + coin.denom > I64_MAX then (t, Err(Database))
    else if id in t.deposits then (t, Err(Database))
    else
      (t.(accounts := t.accounts[req.account := t.accounts[req.account] + coin.denom],
          spent := t.spent[coin := id],
          deposits := t.deposits[id := Deposit(coin, req.account)]),
       Ok(Accepted))
  }

  // ---------- whole operations, run without interruption ----------

  /** Sign and complete, or compensate. */
  function Finalize(t: Tables, served: set<nat>, sign: Signer, id: string, account: string, denom: nat, blinded: Bytes)
    : (Tables, Result<Bytes, BankError>)
  {
    if denom !in served then (t, Err(UnknownDenomination))
    else
      match sign(denom, blinded)
      case Some(signature) => (SetState(MarkSigned(t, id, signature), id, Completed), Ok(signature))
      case None =>
        var (t', r) := Compensate(t, id, account, denom);
        (t', Err(if r.Err? then r.error else WithdrawFailed))
  }

  function Resume(t: Tables, served: set<nat>, sign: Signer, id: string): (Tables, Result<Bytes, BankError>)
    requires id in t.withdrawals
  {
    var rec := t.withdrawals[id];
    match rec.state
    case Pending => Finalize(t, served, sign, id, rec.account, rec.denom, rec.blinded)
    case Compensated => (t, Err(WithdrawPreviouslyFailed))
    case _ =>
      if rec.signature.None? then (t, Err(MalformedRecord))
      else (if rec.state == Signed then SetState(t, id, Completed) else t, Ok(rec.signature.value))
  }

  function Withdraw(t: Tables, served: set<nat>, sign: Signer, req: WithdrawRequest): (Tables, Result<Bytes, BankError>) {
    if req.requestId in t.withdrawals then Resume(t, served, sign, req.requestId)
    else if req.denom !in served then (t, Err(UnknownDenomination))
    else
      var (t', r) := Debit(t, req);
      if r.Err? then (t', Err(r.error))
      else Finalize(t', served, sign, req.requestId, req.account, req.denom, req.blinded)
  }
}

/** The bank as the service updates it in place. */
module BankService {
  import opened Common
  import T = BankTables
  import R = Recovery
  import RegistryTables
  import opened BankTables

  datatype Rejection =
    | RejectedDoubleSpend
    | InvalidSignature
    | RejectedDenomination
    | UnknownScheme
    | RejectedAccount
    | RejectedRequestId
    | RegistryDoubleSpend
    | ExposureCapExceeded

  /** The registry's answer to a submitted serial; a bank on its own asks nobody. */
  datatype RegistryAnswer = NoRegistry | Answered(outcome: RegistryTables.Outcome) | RegistryFails

  datatype DepositResponse = DepositResponse(accepted: bool, reason: Option<Rejection>)

  class Bank {
    var accounts: map<string, nat>
    var withdrawals: map<string, Withdrawal>
    var spent: map<CoinId, string>
    var deposits: map<string, Deposit>
    const served: set<nat>
    const sign: Signer
    const verify: (nat, Bytes, Bytes) -> bool

    function State(): Tables
      reads this
    {
      Tables(accounts, withdrawals, spent, deposits)
    }

    /** Opening the bank over existing tables recovers every unfinished withdrawal first. */
    constructor (t: Tables, served: set<nat>, sign: Signer, verify: (nat, Bytes, Bytes) -> bool, rows: seq<string>)
      requires R.QueryRows(rows, t)
      ensures R.WellFormed(t) ==> (R.Finished(State()) <==> R.Recoverable(t, served, sign))
      ensures State() == R.RecoverRows(t, served, sign, rows)
      ensures this.served == served && this.sign == sign && this.verify == verify
    {
      accounts, withdrawals, spent, deposits := t.accounts, t.withdrawals, t.spent, t.deposits;
      this.served, this.sign, this.verify := served, sign, verify;
      new;
      RecoverWithdrawals(rows);
    }

    method CreateAccount(account: string, amount: nat) returns (r: Result<nat, BankError>)
      modifies this
      ensures (State(), r) == T.CreateAccount(old(State()), account, amount)
      ensures r == if amount > I64_MAX then Err(ValueRange)
                   else if account in old(accounts) then Err(AccountExists)
                   else Ok(amount)
      ensures accounts == if r.Ok? then old(accounts)[account := amount] else old(accounts)
      ensures withdrawals == old(withdrawals) && spent == old(spent) && deposits == old(deposits)
    {
      if amount > I64_MAX {
        return Err(ValueRange);
      }
      if account in accounts {
        return Err(AccountExists);
      }
      accounts := accounts[account := amount];
      return Ok(amount);
    }

    method DebitAndRecordPending(req: WithdrawRequest) returns (r: Result<(), BankError>)
      modifies this
      ensures (State(), r) == T.Debit(old(State()), req)
      ensures r.Ok? <==>
                && req.denom <= I64_MAX && req.requestId !in old(withdrawals)
                && req.account in old(accounts) && req.denom <= old(accounts)[req.account]
      ensures r.Ok? ==>
                && accounts == old(accounts)[req.account := old(accounts)[req.account] - req.denom]
                && withdrawals == old(withdrawals)[req.requestId :=
                     Withdrawal(Pending, req.account, req.denom, req.blinded, None)]
                && spent == old(spent) && deposits == old(deposits)
      ensures r.Err? ==>
                && State() == old(State())
                && (r.error == ValueRange <==> req.denom > I64_MAX)
                && (r.error == AccountNotFound <==> req.denom <= I64_MAX && req.account !in old(accounts))
                && (req.denom <= I64_MAX && req.account in old(accounts) ==>
                      if old(accounts)[req.account] < req.denom
                      then && r.error.InsufficientBalance?
                           && r.error.balance == old(accounts)[req.account] && r.error.requested == req.denom
                      else r.error == Database)
    {
      if req.denom > I64_MAX {
        return Err(ValueRange);
      }
      if req.account !in accounts {
        return Err(AccountNotFound);
      }
      var balance := accounts[req.account];
      if balance < req.denom {
        return Err(InsufficientBalance(balance, req.denom));
      }
      var txAccounts := accounts[req.account := balance - req.denom];
      if req.requestId in withdrawals {
        return Err(Database);
      }
      accounts := txAccounts;
      withdrawals := withdrawals[req.requestId := Withdrawal(Pending, req.account, req.denom, req.blinded, None)];
      return Ok(());
    }

    method SetRecord(requestId: string, state: WithdrawState)
      modifies this`withdrawals
      ensures State() == T.SetState(old(State()), requestId, state)
    {
      if requestId in withdrawals {
        withdrawals := withdrawals[requestId := withdrawals[requestId].(state := state)];
      }
    }

    method CompensateDebit(requestId: string, account: string, denom: nat) returns (r: Result<(), BankError>)
      modifies this
      ensures (State(), r) == T.Compensate(old(State()), requestId, account, denom)
      ensures r == if denom > I64_MAX then Err(ValueRange)
                   else if account in old(accounts) && old(accounts)[account] + denom > I64_MAX then Err(Database)
                   else Ok(())
      ensures r.Err? ==> State() == old(State())
      ensures r.Ok? ==>
                && accounts == (if account in old(accounts) then old(accounts)[account := old(accounts)[account] + denom]
                                else old(accounts))
                && withdrawals.Keys == old(withdrawals).Keys
                && (forall id :: id in withdrawals && id != requestId ==> withdrawals[id] == old(withdrawals)[id])
                && (requestId in withdrawals ==>
                      withdrawals[requestId] == old(withdrawals)[requestId].(state := Compensated))
                && spent == old(spent) && deposits == old(deposits)
    {
      if denom > I64_MAX {
        return Err(ValueRange);
      }
      if account in accounts {
        if accounts[account] + denom > I64_MAX {
          return Err(Database);
        }
        accounts := accounts[account := accounts[account] + denom];
      }
      SetRecord(requestId, Compensated);
      return Ok(());
    }

    method FinalizeWithdraw(id: string, account: string, denom: nat, blinded: Bytes) returns (r: Result<Bytes, BankError>)
      modifies this
      ensures (State(), r) == T.Finalize(old(State()), served, sign, id, account, denom, blinded)
    {
      if denom !in served {
        return Err(UnknownDenomination);
      }
      var signed := sign(denom, blinded);
      if signed.Some? {
        if id in withdrawals {
          withdrawals := withdrawals[id := withdrawals[id].(state := Signed, signature := signed)];
        }
        SetRecord(id, Completed);
        return Ok(signed.value);
      }
      var c := CompensateDebit(id, account, denom);
      return Err(if c.Err? then c.error else WithdrawFailed);
    }

    method WithdrawCoin(req: WithdrawRequest) returns (r: Result<Bytes, BankError>)
      modifies this
      ensures (State(), r) == T.Withdraw(old(State()), served, sign, req)
    {
      if req.requestId in withdrawals {
        r := ResumeWithdraw(req.requestId);
        return;
      }
      if req.denom !in served {
        return Err(UnknownDenomination);
      }
      var d := DebitAndRecordPending(req);
      if d.Err? {
        return Err(d.error);
      }
      r := FinalizeWithdraw(req.requestId, req.account, req.denom, req.blinded);
    }

    method ResumeWithdraw(id: string) returns (r: Result<Bytes, BankError>)
      requires id in withdrawals
      modifies this
      ensures (State(), r) == T.Resume(old(State()), served, sign, id)
      ensures old(withdrawals)[id].state in {Signed, Completed} ==>
                match old(withdrawals)[id].signature
                case None => r == Err(MalformedRecord) && State() == old(State())
                case Some(s) => r == Ok(s) && withdrawals == old(withdrawals)[id := old(withdrawals)[id].(state := Completed)]
      ensures old(withdrawals)[id].state == Compensated ==> r == Err(WithdrawPreviouslyFailed) && State() == old(State())
    {
      var rec := withdrawals[id];
      if rec.state == Pending {
        r := FinalizeWithdraw(id, rec.account, rec.denom, rec.blinded);
      } else if rec.state == Compensated {
        r := Err(WithdrawPreviouslyFailed);
      } else if rec.signature.None? {
        r := Err(MalformedRecord);
      } else {
        if rec.state == Signed {
          SetRecord(id, Completed);
        }
        r := Ok(rec.signature.value);
      }
    }

    /** Drive every unfinished withdrawal forward; `rows` is what the query returns, in its order. */
    method RecoverWithdrawals(rows: seq<string>)
      requires R.QueryRows(rows, State())
      modifies this
      ensures R.WellFormed(old(State())) ==>
                (R.Finished(State()) <==> R.Recoverable(old(State()), served, sign))
      ensures State() == R.RecoverRows(old(State()), served, sign, rows)
    {
      assert rows[0..] == rows;
      for i := 0 to |rows|
        invariant R.RecoverRows(State(), served, sign, rows[i..]) == R.RecoverRows(old(State()), served, sign, rows)
      {
        assert rows[i..][1..] == rows[i + 1..];
        if rows[i] in withdrawals {
          var rec := withdrawals[rows[i]];
          match rec.state {
            case Pending =>
              var _ := FinalizeWithdraw(rows[i], rec.account, rec.denom, rec.blinded);
            case Signed =>
              SetRecord(rows[i], Completed);
            case _ =>
          }
        }
      }
      if R.WellFormed(old(State())) {
        R.RecoveryCompletesExactly(old(State()), served, sign, rows);
      }
    }

    /** The deposit transaction, with the request-id lookup already made (and possibly stale). */
    method CommitDeposit(req: DepositRequest, stale: bool) returns (r: Result<DepositOutcome, BankError>)
      modifies this
      ensures (State(), r) == T.CommitDeposit(old(State()), req, stale)
      ensures r == Ok(Accepted) ==>
                && accounts == old(accounts)[req.account := old(accounts)[req.account] + req.coin.id.denom]
                && spent == old(spent)[req.coin.id := req.requestId]
                && deposits == old(deposits)[req.requestId := Deposit(req.coin.id, req.account)]
                && withdrawals == old(withdrawals)
      ensures r != Ok(Accepted) ==> State() == old(State())
    {
      var coin, id := req.coin.id, req.requestId;
      if coin.denom > I64_MAX {
        return Err(ValueRange);
      }
      if id in deposits && !stale {
        return Ok(if deposits[id].coin == coin then Replay else RequestIdReuse);
      }
      // From here on the transaction works on copies; returning early rolls it back.
      if coin in spent {
        return Ok(DoubleSpend);
      }
      var txSpent := spent[coin := id];
      if req.account !in accounts {
        return Ok(UnknownAccount);
      }
      if accounts[req.account] + coin.denom > I64_MAX {
        return Err(Database);
      }
      var txAccounts := accounts[req.account := accounts[req.account] + coin.denom];
      if id in deposits {
        return Err(Database);
      }
      accounts, spent, deposits := txAccounts, txSpent, deposits[id := Deposit(coin, req.account)];
      return Ok(Accepted);
    }

    /** The coin is of a scheme and denomination the bank serves and its signature verifies. */
    predicate Presented(req: DepositRequest) {
      && req.coin.id.scheme == 0
      && req.coin.id.denom in served
      && verify(req.coin.id.denom, req.coin.id.serial, req.coin.signature)
    }

    predicate Admissible(req: DepositRequest, registry: RegistryAnswer) {
      Presented(req) && (registry.NoRegistry? || registry == Answered(RegistryTables.Accepted))
    }

    /** Deposit a coin: the checks, the registry's answer, then the transaction. */
    method DepositCoin(req: DepositRequest, registry: RegistryAnswer, stale: bool) returns (r: Result<DepositResponse, BankError>)
      modifies this
      ensures !Presented(req) ==>
                r == Ok(DepositResponse(false, Some(if req.coin.id.scheme != 0 then UnknownScheme
                                                    else if req.coin.id.denom !in served then RejectedDenomination
                                                    else InvalidSignature)))
      ensures Presented(req) && registry == Answered(RegistryTables.DoubleSpend) ==>
                r == Ok(DepositResponse(false, Some(RegistryDoubleSpend)))
      ensures Presented(req) && registry == Answered(RegistryTables.ExposureCapExceeded) ==>
                r == Ok(DepositResponse(false, Some(ExposureCapExceeded)))
      ensures Presented(req) && registry.RegistryFails? ==> r == Err(RegistryUnreachable)
      ensures !Admissible(req, registry) ==> State() == old(State())
      ensures Admissible(req, registry) ==> State() == T.CommitDeposit(old(State()), req, stale).0
      ensures Admissible(req, registry) && req.coin.id.denom > I64_MAX ==> r == Err(ValueRange)
      ensures Admissible(req, registry) && req.coin.id.denom <= I64_MAX ==>
                var coin, id := req.coin.id, req.requestId;
                var repeated := id in old(deposits) && !stale;
                var refused := !repeated && (coin in old(spent) || req.account !in old(accounts));
                var fits := req.account in old(accounts) && old(accounts)[req.account] + coin.denom <= I64_MAX;
                && (repeated && old(deposits)[id].coin == coin ==> r == Ok(DepositResponse(true, None)))
                && (repeated && old(deposits)[id].coin != coin ==> r == Ok(DepositResponse(false, Some(RejectedRequestId))))
                && (refused && coin in old(spent) ==> r == Ok(DepositResponse(false, Some(RejectedDoubleSpend))))
                && (refused && coin !in old(spent) ==> r == Ok(DepositResponse(false, Some(RejectedAccount))))
                && (!repeated && !refused ==>
                      r == if fits && id !in old(deposits) then Ok(DepositResponse(true, None)) else Err(Database))
                && (r == Ok(DepositResponse(true, None)) && !repeated ==>
                      accounts == old(accounts)[req.account := old(accounts)[req.account] + coin.denom])
      ensures r.Ok? && r.value.accepted ==>
                && req.coin.id.scheme == 0 && req.coin.id.denom in served
                && verify(req.coin.id.denom, req.coin.id.serial, req.coin.signature)
                && req.requestId in deposits && deposits[req.requestId].coin == req.coin.id
      ensures r == Ok(DepositResponse(false, Some(InvalidSignature))) <==>
                && req.coin.id.scheme == 0 && req.coin.id.denom in served
                && !verify(req.coin.id.denom, req.coin.id.serial, req.coin.signature)
      ensures r.Err? || !r.value.accepted ==> State() == old(State())
    {
      var coin := req.coin;
      if coin.id.scheme != 0 {
        return Ok(DepositResponse(false, Some(UnknownScheme)));
      }
      if coin.id.denom !in served {
        return Ok(DepositResponse(false, Some(RejectedDenomination)));
      }
      if !verify(coin.id.denom, coin.id.serial, coin.signature) {
        return Ok(DepositResponse(false, Some(InvalidSignature)));
      }
      match registry {
        case RegistryFails => return Err(RegistryUnreachable);
        case Answered(DoubleSpend) => return Ok(DepositResponse(false, Some(RegistryDoubleSpend)));
        case Answered(ExposureCapExceeded) => return Ok(DepositResponse(false, Some(ExposureCapExceeded)));
        case _ =>
      }
      var outcome := CommitDeposit(req, stale);
      if outcome.Err? {
        return Err(outcome.error);
      }
      match outcome.value {
        case Accepted | Replay => return Ok(DepositResponse(true, None));
        case DoubleSpend => return Ok(DepositResponse(false, Some(RejectedDoubleSpend)));
        case RequestIdReuse => return Ok(DepositResponse(false, Some(RejectedRequestId)));
        case UnknownAccount => return Ok(DepositResponse(false, Some(RejectedAccount)));
      }
    }
  }
}
