/**
 Several banks sharing one registry.  A deposit is two transactions at two services: the registry
 takes the serial, then the bank credits the account.  Either service, or the reply between them,
 may fail in between.
 */
module MultiBank {
  import opened Common
  import opened Sums
  import opened Text
  import B = BankTables
  import R = RegistryTables
  import Netting
  import BankRuns
  import RegistryRuns
  import opened BankLedger
  import opened BankProperties

  /** A deposit the registry has accepted and the bank has yet to commit. */
  datatype Token = Token(bank: string, req: B.DepositRequest)

  datatype System = System(registry: RegistryRuns.Trace, banks: map<string, BankRuns.World>, tokens: set<Token>)

  /** Every bank's signing function. */
  type Keys = string -> B.Signer

  /**
   `Fail` is a request that ends in an error before its commit.  `Local` is any other work of a bank,
   `Governed` any other work of the registry.
   */
  datatype Event =
    | Submit(bank: string, req: B.DepositRequest, issuer: string, transcript: string, now: nat, delivered: bool)
    | Commit(token: Token, stale: bool)
    | Fail(token: Token)
    | Crash(bank: string, served: set<nat>)
    | Local(bank: string, work: BankRuns.Event)
    | Governed(act: RegistryRuns.Event)

  /** The registry files a coin under its serial in hex. */
  function KeyOf(coin: CoinId): R.SerialKey {
    R.SerialKey(coin.denom, coin.scheme, Hex(coin.serial))
  }

  lemma KeyOfInjective(c: CoinId, d: CoinId)
    requires KeyOf(c) == KeyOf(d)
    ensures c == d
  {
    HexInjective(c.serial, d.serial);
  }

  /** Banks by name, each with the denominations it serves. */
  function Initial(served: map<string, set<nat>>): System {
    System(RegistryRuns.INITIAL, map b | b in served :: BankRuns.Initial(served[b]), {})
  }

  // ---------- steps ----------

  function SubmissionOf(e: Event): R.Submission
    requires e.Submit?
  {
    R.Submission(e.issuer, KeyOf(e.req.coin.id), e.transcript)
  }

  /** The registry answers the submission with an acceptance. */
  predicate Taken(s: System, e: Event)
    requires e.Submit?
  {
    var r := R.Submit(s.registry.t, e.bank, SubmissionOf(e), e.now).1;
    r.Ok? && r.value.outcome == R.Accepted
  }

  ghost function Submitted(s: System, e: Event): System
    requires e.Submit?
  {
    s.(registry := RegistryRuns.Step(s.registry, RegistryRuns.Submitted(e.bank, SubmissionOf(e), e.now)),
       tokens := if Taken(s, e) && e.delivered then s.tokens + {Token(e.bank, e.req)} else s.tokens)
  }

  function AtBank(keys: Keys, s: System, bank: string, work: BankRuns.Event): System
    requires bank in s.banks
  {
    s.(banks := s.banks[bank := BankRuns.Step(keys(bank), s.banks[bank], work)])
  }

  ghost function Step(keys: Keys, s: System, e: Event): System {
    match e
    case Submit(bank, _, _, _, _, _) => if bank in s.banks then Submitted(s, e) else s
    case Commit(token, stale) =>
      if token in s.tokens && token.bank in s.banks
      then AtBank(keys, s, token.bank, BankRuns.DepositCommitted(token.req, stale)).(tokens := s.tokens - {token})
      else s
    case Fail(token) => s.(tokens := s.tokens - {token})
    case Crash(bank, served) =>
      if bank in s.banks
      then AtBank(keys, s, bank, BankRuns.Crash(served)).(tokens := set t | t in s.tokens && t.bank != bank)
      else s
    case Local(bank, work) =>
      if bank in s.banks && !work.DepositCommitted? && !work.Crash? then AtBank(keys, s, bank, work) else s
    case Governed(act) =>
      if act.Submitted? then s else s.(registry := RegistryRuns.Step(s.registry, act))
  }

  ghost function Exec(keys: Keys, s: System, events: seq<Event>): System
    decreases |events|
  {
    if events == [] then s else Exec(keys, Step(keys, s, events[0]), events[1..])
  }

  // ---------- each service sees a run of its own ----------

  /** What the step does at the registry. */
  lemma RegistryStep(keys: Keys, s: System, e: Event) returns (acts: seq<RegistryRuns.Event>)
    ensures |acts| <= 1
    ensures Step(keys, s, e).registry == if acts == [] then s.registry else RegistryRuns.Step(s.registry, acts[0])
  {
    match e
    case Submit(bank, _, _, _, now, _) =>
      acts := if bank in s.banks then [RegistryRuns.Submitted(bank, SubmissionOf(e), now)] else [];
    case Governed(act) => acts := if act.Submitted? then [] else [act];
    case _ => acts := [];
  }

  /** What the step does at one bank. */
  lemma BankStep(keys: Keys, s: System, e: Event, bank: string) returns (works: seq<BankRuns.Event>)
    requires bank in s.banks
    ensures |works| <= 1 && Step(keys, s, e).banks.Keys == s.banks.Keys
    ensures Step(keys, s, e).banks[bank]
         == if works == [] then s.banks[bank] else BankRuns.Step(keys(bank), s.banks[bank], works[0])
  {
    works := [];
    match e
    case Commit(token, stale) =>
      if token in s.tokens && token.bank == bank {
        works := [BankRuns.DepositCommitted(token.req, stale)];
      }
    case Crash(b, served) =>
      if b == bank {
        works := [BankRuns.Crash(served)];
      }
    case Local(b, work) =>
      if b == bank && !work.DepositCommitted? && !work.Crash? {
        works := [work];
      }
    case _ =>
  }

  /** The registry's part of a run of the system is a run of the registry. */
  lemma {:induction false} RegistryRefines(keys: Keys, s: System, events: seq<Event>)
    returns (acts: seq<RegistryRuns.Event>)
    ensures Exec(keys, s, events).registry == RegistryRuns.Exec(s.registry, acts)
    decreases |events|
  {
    if events == [] {
      acts := [];
    } else {
      var first := RegistryStep(keys, s, events[0]);
      var rest := RegistryRefines(keys, Step(keys, s, events[0]), events[1..]);
      if first == [] {
        acts := rest;
      } else {
        acts := [first[0]] + rest;
        assert acts[1..] == rest;
      }
    }
  }

  /** A bank's part of a run of the system is a run of that bank. */
  lemma {:induction false} BankRefines(keys: Keys, s: System, events: seq<Event>, bank: string)
    returns (works: seq<BankRuns.Event>)
    requires bank in s.banks
    ensures Exec(keys, s, events).banks.Keys == s.banks.Keys
    ensures Exec(keys, s, events).banks[bank] == BankRuns.Exec(keys(bank), s.banks[bank], works)
    decreases |events|
  {
    if events == [] {
      works := [];
    } else {
      var first := BankStep(keys, s, events[0], bank);
      var rest := BankRefines(keys, Step(keys, s, events[0]), events[1..], bank);
      if first == [] {
        works := rest;
      } else {
        works := [first[0]] + rest;
        assert works[1..] == rest;
      }
    }
  }

  // ---------- the invariant across services ----------

  /** The registry accepted this coin from this bank. */
  predicate Registered(s: System, bank: string, coin: CoinId) {
    KeyOf(coin) in s.registry.t.serials && s.registry.t.serials[KeyOf(coin)].bank == bank
  }

  predicate InFlight(s: System, coin: CoinId) {
    exists t :: t in s.tokens && t.req.coin.id == coin
  }

  predicate CreditedAt(s: System, bank: string, coin: CoinId) {
    bank in s.banks && coin in s.banks[bank].t.spent
  }

  ghost predicate TokensValid(s: System) {
    && (forall t :: t in s.tokens ==> t.bank in s.banks && Registered(s, t.bank, t.req.coin.id))
    && (forall t :: t in s.tokens ==> !CreditedAt(s, t.bank, t.req.coin.id))
    && (forall t, u :: t in s.tokens && u in s.tokens && t.req.coin.id == u.req.coin.id ==> t == u)
  }

  /** A bank credits only what the registry accepted from it. */
  ghost predicate CreditsValid(s: System) {
    forall b, coin :: CreditedAt(s, b, coin) ==> Registered(s, b, coin)
  }

  ghost predicate Inv(s: System) {
    TokensValid(s) && CreditsValid(s)
  }

  /** Apart from deposits, a bank's work leaves its spent serials and deposits alone. */
  lemma LocalFrame(sign: B.Signer, w: BankRuns.World, work: BankRuns.Event)
    requires !work.DepositCommitted?
    ensures var w' := BankRuns.Step(sign, w, work); w'.t.spent == w.t.spent && w'.t.deposits == w.t.deposits
  {
    if !work.Open? {
      var _ := BankRuns.StepFrame(sign, w, work);
    }
  }

  /** What the registry asks of a submission it accepts. */
  predicate Acceptable(s: System, e: Event)
    requires e.Submit?
  {
    var key, p := KeyOf(e.req.coin.id), Netting.Pair(e.issuer, e.bank);
    && key.denom <= I64_MAX && e.now <= I64_MAX
    && var held := if p in s.registry.t.receivables then s.registry.t.receivables[p] else 0;
    && (p in s.registry.t.caps ==> held < s.registry.t.caps[p])
    && key !in s.registry.t.serials
    && held + key.denom <= I64_MAX
  }

  /** A submission takes the serial exactly when it is acceptable. */
  lemma SubmitTakes(keys: Keys, s: System, s': System, e: Event)
    requires e.Submit? && e.bank in s.banks && s' == Step(keys, s, e)
    ensures var key, taken := KeyOf(e.req.coin.id), s'.registry.t.serials;
            if Acceptable(s, e)
            then
              && taken.Keys == s.registry.t.serials.Keys + {key} && taken[key].bank == e.bank
              && taken == s.registry.t.serials[key := taken[key]]
              && s'.tokens == s.tokens + if e.delivered then {Token(e.bank, e.req)} else {}
            else taken == s.registry.t.serials && s'.tokens == s.tokens
    ensures s'.banks == s.banks
  {
  }

  lemma SubmitInv(keys: Keys, s: System, s': System, e: Event)
    requires Inv(s) && e.Submit? && e.bank in s.banks && s' == Step(keys, s, e)
    ensures Inv(s')
  {
    SubmitTakes(keys, s, s', e);
    forall b, coin | Registered(s, b, coin) ensures Registered(s', b, coin) {
    }
    forall b, coin | CreditedAt(s', b, coin) ensures CreditedAt(s, b, coin) && Registered(s', b, coin) {
      assert Registered(s, b, coin);
    }
    forall t | t in s'.tokens
      ensures t.bank in s'.banks && Registered(s', t.bank, t.req.coin.id) && !CreditedAt(s', t.bank, t.req.coin.id)
    {
      if t in s.tokens {
        assert Registered(s, t.bank, t.req.coin.id) && !CreditedAt(s, t.bank, t.req.coin.id);
      } else {
        assert CreditedAt(s, t.bank, t.req.coin.id) ==> Registered(s, t.bank, t.req.coin.id);
      }
    }
    forall t, u | t in s'.tokens && u in s'.tokens && t.req.coin.id == u.req.coin.id ensures t == u {
      assert t in s.tokens ==> Registered(s, t.bank, t.req.coin.id);
      assert u in s.tokens ==> Registered(s, u.bank, u.req.coin.id);
    }
  }

  lemma CommitInv(keys: Keys, s: System, s': System, e: Event)
    requires Inv(s) && e.Commit? && s' == Step(keys, s, e)
    ensures Inv(s')
  {
    forall b, coin | CreditedAt(s', b, coin) ensures Registered(s', b, coin) {
      assert CreditedAt(s, b, coin) || (b == e.token.bank && coin == e.token.req.coin.id);
      assert Registered(s, b, coin);
    }
    forall t | t in s'.tokens
      ensures t.bank in s'.banks && Registered(s', t.bank, t.req.coin.id) && !CreditedAt(s', t.bank, t.req.coin.id)
    {
      assert Registered(s, t.bank, t.req.coin.id) && !CreditedAt(s, t.bank, t.req.coin.id);
    }
  }

  /** The step takes no serial and credits no coin; at most it loses tokens. */
  ghost predicate Quiet(s: System, s': System) {
    && s'.registry.t.serials == s.registry.t.serials && s'.tokens <= s.tokens
    && s'.banks.Keys == s.banks.Keys
    && forall b :: b in s.banks ==> s'.banks[b].t.spent == s.banks[b].t.spent
  }

  lemma QuietSteps(keys: Keys, s: System, e: Event)
    requires !e.Submit? && !e.Commit?
    ensures Quiet(s, Step(keys, s, e))
  {
    match e
    case Fail(_) =>
    case Crash(bank, served) =>
      if bank in s.banks {
        AtBankQuiet(keys, s, bank, BankRuns.Crash(served));
      }
    case Local(bank, work) =>
      if bank in s.banks && !work.DepositCommitted? {
        AtBankQuiet(keys, s, bank, work);
      }
    case Governed(_) =>
  }

  lemma AtBankQuiet(keys: Keys, s: System, bank: string, work: BankRuns.Event)
    requires bank in s.banks && !work.DepositCommitted?
    ensures Quiet(s, AtBank(keys, s, bank, work))
  {
    LocalFrame(keys(bank), s.banks[bank], work);
  }

  lemma QuietInv(s: System, s': System)
    requires Inv(s) && Quiet(s, s')
    ensures Inv(s')
    ensures forall b, coin :: CreditedAt(s', b, coin) <==> CreditedAt(s, b, coin)
  {
    forall b, coin | Registered(s, b, coin) ensures Registered(s', b, coin) {
    }
  }

  lemma StepInv(keys: Keys, s: System, e: Event)
    requires Inv(s)
    ensures Inv(Step(keys, s, e))
  {
    var s' := Step(keys, s, e);
    if s' == s {
      return;
    }
    if e.Submit? {
      SubmitInv(keys, s, s', e);
    } else if e.Commit? {
      CommitInv(keys, s, s', e);
    } else {
      QuietSteps(keys, s, e);
      QuietInv(s, s');
    }
  }

  lemma {:induction false} RunInv(keys: Keys, s: System, events: seq<Event>)
    requires Inv(s)
    ensures Inv(Exec(keys, s, events))
    decreases |events|
  {
    if events == [] {
    } else {
      StepInv(keys, s, events[0]);
      RunInv(keys, Step(keys, s, events[0]), events[1..]);
    }
  }

  /**
   Over every run of any number of banks, interrupted anywhere between the two transactions, each
   coin is credited at most once: at most once in each bank's history, by at most one bank, and
   only by the bank the registry accepted it from.
   */
  lemma CreditedAtMostOnce(keys: Keys, served: map<string, set<nat>>, events: seq<Event>, b: string, d: string)
    requires b in served && d in served
    ensures var s := Exec(keys, Initial(served), events);
            && b in s.banks && d in s.banks
            && CreditsDistinct(s.banks[b].log)
            && (forall coin :: CoinCredited(s.banks[b].log, coin) ==> Registered(s, b, coin))
            && (forall coin :: CoinCredited(s.banks[b].log, coin) && CoinCredited(s.banks[d].log, coin) ==> b == d)
  {
    var s := Exec(keys, Initial(served), events);
    RunInv(keys, Initial(served), events);
    CreditsIndexed(keys, served, events, b);
    CreditsIndexed(keys, served, events, d);
    forall coin | CoinCredited(s.banks[b].log, coin) ensures Registered(s, b, coin) {
      assert CreditedAt(s, b, coin);
    }
    forall coin | CoinCredited(s.banks[b].log, coin) && CoinCredited(s.banks[d].log, coin) ensures b == d {
      assert CreditedAt(s, b, coin) && CreditedAt(s, d, coin);
    }
  }

  /** Each bank's history has its own properties, as a run of that bank. */
  lemma CreditsIndexed(keys: Keys, served: map<string, set<nat>>, events: seq<Event>, bank: string)
    requires bank in served
    ensures var s := Exec(keys, Initial(served), events);
            && bank in s.banks
            && CreditsDistinct(s.banks[bank].log)
            && (forall coin :: CreditedAt(s, bank, coin) <==> CoinCredited(s.banks[bank].log, coin))
  {
    var works := BankRefines(keys, Initial(served), events, bank);
    UniqueCredit(keys(bank), served[bank], works);
    RunIndexed(keys(bank), BankRuns.Initial(served[bank]), works);
  }

  // ---------- stranded coins ----------

  /** The serial is taken, yet the coin is neither credited nor on its way. */
  ghost predicate Stranded(s: System, coin: CoinId) {
    && KeyOf(coin) in s.registry.t.serials
    && !InFlight(s, coin)
    && forall b :: b in s.banks ==> !CreditedAt(s, b, coin)
  }

  /** What the bank asks of a deposit it credits, once the registry has accepted the coin. */
  predicate Creditable(t: B.Tables, req: B.DepositRequest) {
    && req.coin.id.denom <= I64_MAX
    && req.account in t.accounts && t.accounts[req.account] + req.coin.id.denom <= I64_MAX
    && req.requestId !in t.deposits
  }

  /** The step loses the coin. */
  predicate Strands(s: System, e: Event, coin: CoinId) {
    match e
    case Submit(bank, req, _, _, _, delivered) =>
      bank in s.banks && req.coin.id == coin && Acceptable(s, e) && !delivered
    case Commit(token, _) =>
      && token in s.tokens && token.req.coin.id == coin
      && token.bank in s.banks && !Creditable(s.banks[token.bank].t, token.req)
    case Fail(token) => token in s.tokens && token.req.coin.id == coin
    case Crash(bank, _) => bank in s.banks && exists t :: t in s.tokens && t.bank == bank && t.req.coin.id == coin
    case Local(_, _) => false
    case Governed(_) => false
  }

  /** In every reachable state the commit of an accepted deposit credits the coin or strands it. */
  lemma CommitCreditsExactly(keys: Keys, s: System, token: Token, stale: bool)
    requires Inv(s) && token in s.tokens
    ensures var s', coin := Step(keys, s, Commit(token, stale)), token.req.coin.id;
            && token.bank in s.banks
            && (CreditedAt(s', token.bank, coin) <==> Creditable(s.banks[token.bank].t, token.req))
            && (Stranded(s', coin) <==> !Creditable(s.banks[token.bank].t, token.req))
  {
    var s', coin := Step(keys, s, Commit(token, stale)), token.req.coin.id;
    assert Registered(s, token.bank, coin) && !CreditedAt(s, token.bank, coin);
    forall b | b in s'.banks && b != token.bank ensures !CreditedAt(s', b, coin) {
      assert CreditedAt(s', b, coin) ==> CreditedAt(s, b, coin);
      assert CreditedAt(s, b, coin) ==> Registered(s, b, coin);
    }
  }

  /** A coin in flight is registered, has one token, and is credited nowhere. */
  lemma TokenFate(s: System, t: Token)
    requires Inv(s) && t in s.tokens
    ensures KeyOf(t.req.coin.id) in s.registry.t.serials
    ensures forall b :: !CreditedAt(s, b, t.req.coin.id)
    ensures forall u :: u in s.tokens && u != t ==> u.req.coin.id != t.req.coin.id
  {
    assert Registered(s, t.bank, t.req.coin.id) && !CreditedAt(s, t.bank, t.req.coin.id);
    forall b ensures !CreditedAt(s, b, t.req.coin.id) {
      assert CreditedAt(s, b, t.req.coin.id) ==> Registered(s, b, t.req.coin.id);
    }
  }

  lemma UnregisteredFate(s: System, coin: CoinId)
    requires Inv(s) && KeyOf(coin) !in s.registry.t.serials
    ensures !InFlight(s, coin) && forall b :: !CreditedAt(s, b, coin)
  {
    forall t | t in s.tokens ensures t.req.coin.id != coin {
      assert Registered(s, t.bank, t.req.coin.id);
    }
    forall b ensures !CreditedAt(s, b, coin) {
      assert CreditedAt(s, b, coin) ==> Registered(s, b, coin);
    }
  }

  lemma SubmitStrands(keys: Keys, s: System, s': System, e: Event, coin: CoinId)
    requires Inv(s) && e.Submit? && e.bank in s.banks && s' == Step(keys, s, e)
    ensures Stranded(s', coin) <==> Stranded(s, coin) || Strands(s, e, coin)
  {
    SubmitTakes(keys, s, s', e);
    assert forall b :: CreditedAt(s', b, coin) <==> CreditedAt(s, b, coin);
    if e.req.coin.id != coin {
      if KeyOf(coin) == KeyOf(e.req.coin.id) {
        KeyOfInjective(coin, e.req.coin.id);
      }
      assert InFlight(s', coin) <==> InFlight(s, coin);
    } else if Acceptable(s, e) {
      UnregisteredFate(s, coin);
      assert e.delivered ==> Token(e.bank, e.req) in s'.tokens;
    }
  }

  lemma CommitStrands(keys: Keys, s: System, s': System, e: Event, coin: CoinId)
    requires Inv(s) && e.Commit? && e.token in s.tokens && s' == Step(keys, s, e)
    ensures Stranded(s', coin) <==> Stranded(s, coin) || Strands(s, e, coin)
  {
    CommitCreditsExactly(keys, s, e.token, e.stale);
    if e.token.req.coin.id == coin {
      assert InFlight(s, coin);
    } else {
      assert forall b :: CreditedAt(s', b, coin) <==> CreditedAt(s, b, coin);
      assert InFlight(s', coin) <==> InFlight(s, coin) by {
        assert forall t :: t in s.tokens && t.req.coin.id == coin ==> t in s'.tokens;
      }
    }
  }

  /** In a quiet step a coin is stranded exactly when its token goes. */
  lemma QuietStrands(s: System, s': System, coin: CoinId)
    requires Inv(s) && Quiet(s, s')
    ensures Stranded(s', coin) <==>
              Stranded(s, coin) || exists t :: t in s.tokens && t !in s'.tokens && t.req.coin.id == coin
  {
    QuietInv(s, s');
    if t :| t in s.tokens && t.req.coin.id == coin {
      TokenFate(s, t);
      assert t in s'.tokens ==> InFlight(s', coin);
    }
  }

  /**
   The exact condition, for every step from a reachable state: a coin becomes stranded if and only if
   the step is an acceptance that is not delivered, a commit the bank refuses, or an error or a
   crash of the bank that holds the coin's acceptance.
   */
  lemma StepStrandsExactly(keys: Keys, s: System, e: Event, coin: CoinId)
    requires Inv(s)
    ensures Stranded(Step(keys, s, e), coin) <==> Stranded(s, coin) || Strands(s, e, coin)
  {
    var s' := Step(keys, s, e);
    if e.Submit? && e.bank in s.banks {
      SubmitStrands(keys, s, s', e, coin);
    } else if e.Commit? && e.token in s.tokens {
      CommitStrands(keys, s, s', e, coin);
    } else if !e.Submit? && !e.Commit? {
      QuietSteps(keys, s, e);
      QuietStrands(s, s', coin);
    }
  }

  /** Some step of the run strands the coin. */
  ghost predicate RunStrands(keys: Keys, s: System, events: seq<Event>, coin: CoinId)
    decreases |events|
  {
    && events != []
    && (Strands(s, events[0], coin) || RunStrands(keys, Step(keys, s, events[0]), events[1..], coin))
  }

  /** Over every run a coin ends stranded if and only if it began so or some step strands it. */
  lemma {:induction false} RunStrandsExactly(keys: Keys, s: System, events: seq<Event>, coin: CoinId)
    requires Inv(s)
    ensures Stranded(Exec(keys, s, events), coin) <==> Stranded(s, coin) || RunStrands(keys, s, events, coin)
    decreases |events|
  {
    if events == [] {
    } else {
      StepInv(keys, s, events[0]);
      StepStrandsExactly(keys, s, events[0], coin);
      RunStrandsExactly(keys, Step(keys, s, events[0]), events[1..], coin);
    }
  }

  /** A stranded coin is never credited by anyone, however often its deposit is retried. */
  lemma StrandedForever(keys: Keys, s: System, events: seq<Event>, coin: CoinId)
    requires Inv(s) && Stranded(s, coin)
    ensures Stranded(Exec(keys, s, events), coin)
  {
    RunStrandsExactly(keys, s, events, coin);
  }

  /**
   Every way a deposit can be lost does arise.  From any reachable state, let the registry accept a
   submission: if the reply is lost, or the bank crashes next, the coin is stranded; if the bank
   commits next, it is stranded if and only if the bank refuses, as it does an unknown account.
   */
  lemma DepositsAreLost(keys: Keys, s: System, e: Event, served: set<nat>, stale: bool)
    requires Inv(s) && e.Submit? && e.bank in s.banks && Acceptable(s, e)
    ensures var coin, arrives, token := e.req.coin.id, e.(delivered := true), Token(e.bank, e.req);
            && Stranded(Exec(keys, s, [e.(delivered := false)]), coin)
            && Stranded(Exec(keys, s, [arrives, Crash(e.bank, served)]), coin)
            && (Stranded(Exec(keys, s, [arrives, Commit(token, stale)]), coin)
                <==> !Creditable(s.banks[e.bank].t, e.req))
  {
    LostReplyStrands(keys, s, e.(delivered := false));
    CrashStrands(keys, s, e.(delivered := true), served);
    RefusalStrands(keys, s, e.(delivered := true), stale);
  }

  lemma LostReplyStrands(keys: Keys, s: System, e: Event)
    requires Inv(s) && e.Submit? && e.bank in s.banks && Acceptable(s, e) && !e.delivered
    ensures Stranded(Exec(keys, s, [e]), e.req.coin.id)
  {
    OneStep(keys, s, e);
    StepStrandsExactly(keys, s, e, e.req.coin.id);
  }

  /** An acceptance that arrives is in flight, and the bank as it was. */
  lemma Arrives(keys: Keys, s: System, s': System, e: Event)
    requires Inv(s) && e.Submit? && e.bank in s.banks && Acceptable(s, e) && e.delivered && s' == Step(keys, s, e)
    ensures Inv(s') && Token(e.bank, e.req) in s'.tokens && s'.banks == s.banks
  {
    StepInv(keys, s, e);
    SubmitTakes(keys, s, s', e);
  }

  lemma CrashStrands(keys: Keys, s: System, e: Event, served: set<nat>)
    requires Inv(s) && e.Submit? && e.bank in s.banks && Acceptable(s, e) && e.delivered
    ensures Stranded(Exec(keys, s, [e, Crash(e.bank, served)]), e.req.coin.id)
  {
    var s' := Step(keys, s, e);
    TwoSteps(keys, s, e, Crash(e.bank, served));
    Arrives(keys, s, s', e);
    StepStrandsExactly(keys, s', Crash(e.bank, served), e.req.coin.id);
  }

  lemma RefusalStrands(keys: Keys, s: System, e: Event, stale: bool)
    requires Inv(s) && e.Submit? && e.bank in s.banks && Acceptable(s, e) && e.delivered
    ensures Stranded(Exec(keys, s, [e, Commit(Token(e.bank, e.req), stale)]), e.req.coin.id)
            <==> !Creditable(s.banks[e.bank].t, e.req)
  {
    var s', token := Step(keys, s, e), Token(e.bank, e.req);
    TwoSteps(keys, s, e, Commit(token, stale));
    Arrives(keys, s, s', e);
    CommitCreditsExactly(keys, s', token, stale);
  }

  lemma OneStep(keys: Keys, s: System, e: Event)
    ensures Exec(keys, s, [e]) == Step(keys, s, e)
  {
    assert Exec(keys, Step(keys, s, e), []) == Step(keys, s, e);
  }

  lemma TwoSteps(keys: Keys, s: System, e: Event, f: Event)
    ensures Exec(keys, s, [e, f]) == Step(keys, Step(keys, s, e), f)
  {
    assert [e, f][1..] == [f];
    OneStep(keys, Step(keys, s, e), f);
  }

  /** A mistyped payee on a fresh system: the first deposit of any coin, to an account nobody opened. */
  lemma MistypedAccountStrands(keys: Keys, bank: string, denoms: set<nat>, req: B.DepositRequest)
    requires req.coin.id.denom <= I64_MAX
    ensures var events := [Submit(bank, req, bank, "transcript", 0, true), Commit(Token(bank, req), false)];
            Stranded(Exec(keys, Initial(map[bank := denoms]), events), req.coin.id)
  {
    var s, e := Initial(map[bank := denoms]), Submit(bank, req, bank, "transcript", 0, true);
    assert s.banks[bank] == BankRuns.Initial(denoms);
    DepositsAreLost(keys, s, e, denoms, false);
    assert e.(delivered := true) == e;
  }

  /**
   With a registry a retried deposit is not replayed: in every run, once a coin has been credited
   no later submission of it, under any request id, is accepted.
   */
  lemma RetryNotReplayed(keys: Keys, served: map<string, set<nat>>, events: seq<Event>, bank: string, e: Event)
    requires e.Submit? && CreditedAt(Exec(keys, Initial(served), events), bank, e.req.coin.id)
    ensures var s := Exec(keys, Initial(served), events); !Taken(s, e) && Step(keys, s, e).tokens == s.tokens
  {
    RunInv(keys, Initial(served), events);
    assert Registered(Exec(keys, Initial(served), events), bank, e.req.coin.id);
  }

  // ---------- value across the services ----------

  function CreditedKeys(s: System, bank: string): set<R.SerialKey>
    requires bank in s.banks
  {
    set coin | coin in s.banks[bank].t.spent :: KeyOf(coin)
  }

  function TokensOf(s: System, bank: string): set<Token> {
    set t | t in s.tokens && t.bank == bank
  }

  function FlightKeys(s: System, bank: string): set<R.SerialKey> {
    set t | t in TokensOf(s, bank) :: KeyOf(t.req.coin.id)
  }

  /** What the registry took from the bank that is neither credited nor in flight. */
  function StrandedKeys(s: System, bank: string): set<R.SerialKey>
    requires bank in s.banks
  {
    RegistryRuns.Received(s.registry.t, bank) - CreditedKeys(s, bank) - FlightKeys(s, bank)
  }

  /** They are the keys of the stranded coins. */
  lemma StrandedKeysAre(s: System, bank: string, coin: CoinId)
    requires Inv(s) && bank in s.banks
    ensures KeyOf(coin) in StrandedKeys(s, bank) <==> Registered(s, bank, coin) && Stranded(s, coin)
  {
    if Registered(s, bank, coin) {
      if KeyOf(coin) in CreditedKeys(s, bank) {
        var c :| c in s.banks[bank].t.spent && KeyOf(c) == KeyOf(coin);
        KeyOfInjective(c, coin);
        assert CreditedAt(s, bank, coin);
      } else if KeyOf(coin) in FlightKeys(s, bank) {
        var t :| t in TokensOf(s, bank) && KeyOf(t.req.coin.id) == KeyOf(coin);
        KeyOfInjective(t.req.coin.id, coin);
        assert InFlight(s, coin);
      } else {
        NeitherCreditedNorInFlight(s, bank, coin);
      }
    }
  }

  lemma NeitherCreditedNorInFlight(s: System, bank: string, coin: CoinId)
    requires Inv(s) && bank in s.banks && KeyOf(coin) in StrandedKeys(s, bank)
    ensures Stranded(s, coin)
  {
    assert KeyOf(coin) !in CreditedKeys(s, bank);
    forall b | b in s.banks ensures !CreditedAt(s, b, coin) {
      assert CreditedAt(s, b, coin) ==> Registered(s, b, coin);
    }
    forall t | t in s.tokens ensures t.req.coin.id != coin {
      assert Registered(s, t.bank, t.req.coin.id);
      assert t.bank == bank ==> t in TokensOf(s, bank);
    }
  }

  ghost function TokenFace(): Token -> int {
    (t: Token) => t.req.coin.id.denom
  }

  /** The value of the deposits the bank has yet to commit. */
  ghost function FlightValue(s: System, bank: string): int {
    Sum(TokensOf(s, bank), TokenFace())
  }

  ghost function StrandedValue(s: System, bank: string): int
    requires bank in s.banks
  {
    Sum(StrandedKeys(s, bank), RegistryRuns.Face())
  }

  lemma CreditedKeysValue(s: System, bank: string)
    requires bank in s.banks
    ensures Sum(CreditedKeys(s, bank), RegistryRuns.Face()) == Sum(s.banks[bank].t.spent.Keys, Face())
  {
    var spent := s.banks[bank].t.spent.Keys;
    forall c, d | c in spent && d in spent && KeyOf(c) == KeyOf(d) ensures c == d {
      KeyOfInjective(c, d);
    }
    SumImage(spent, CreditedKeys(s, bank), Face(), RegistryRuns.Face(), KeyOf);
  }

  lemma FlightKeysValue(s: System, bank: string)
    requires Inv(s)
    ensures Sum(FlightKeys(s, bank), RegistryRuns.Face()) == FlightValue(s, bank)
  {
    var tokens, keyOf := TokensOf(s, bank), (t: Token) => KeyOf(t.req.coin.id);
    forall t, u | t in tokens && u in tokens && keyOf(t) == keyOf(u) ensures t == u {
      KeyOfInjective(t.req.coin.id, u.req.coin.id);
    }
    SumImage(tokens, FlightKeys(s, bank), TokenFace(), RegistryRuns.Face(), keyOf);
  }

  /** Each serial taken from a bank is credited, in flight or stranded, and only one of these. */
  lemma ReceivedSplits(s: System, bank: string)
    requires Inv(s) && bank in s.banks
    ensures CreditedKeys(s, bank) !! FlightKeys(s, bank)
    ensures RegistryRuns.Received(s.registry.t, bank)
         == CreditedKeys(s, bank) + FlightKeys(s, bank) + StrandedKeys(s, bank)
  {
    forall coin | coin in s.banks[bank].t.spent
      ensures KeyOf(coin) in RegistryRuns.Received(s.registry.t, bank) && KeyOf(coin) !in FlightKeys(s, bank)
    {
      assert CreditedAt(s, bank, coin) && Registered(s, bank, coin);
      forall t | t in TokensOf(s, bank) ensures KeyOf(t.req.coin.id) != KeyOf(coin) {
        if KeyOf(t.req.coin.id) == KeyOf(coin) {
          KeyOfInjective(t.req.coin.id, coin);
        }
      }
    }
    forall t | t in TokensOf(s, bank) ensures KeyOf(t.req.coin.id) in RegistryRuns.Received(s.registry.t, bank) {
      assert Registered(s, t.bank, t.req.coin.id);
    }
  }

  lemma ReceivedValue(s: System, bank: string)
    requires Inv(s) && bank in s.banks && RegistryRuns.ReceivedIs(s.registry, bank)
    ensures RegistryRuns.DepositorTotal(s.registry.log, bank)
         == Sum(s.banks[bank].t.spent.Keys, Face()) + FlightValue(s, bank) + StrandedValue(s, bank)
  {
    var credited, flight, stranded := CreditedKeys(s, bank), FlightKeys(s, bank), StrandedKeys(s, bank);
    ReceivedSplits(s, bank);
    SumDisjoint(credited, flight, RegistryRuns.Face());
    SumDisjoint(credited + flight, stranded, RegistryRuns.Face());
    CreditedKeysValue(s, bank);
    FlightKeysValue(s, bank);
  }

  /**
   Conservation across the services.  Over every run and for every bank, the value the registry
   accepted from it is what its accounts were credited for deposits, plus deposits in flight, plus
   stranded coins.  So its outstanding receivables and its claims, netted, are worth those three
   less what other banks deposited against it: the registry lets a bank claim for coins that it
   never credited to anyone.
   */
  lemma ValueConserved(keys: Keys, served: map<string, set<nat>>, events: seq<Event>, bank: string)
    requires bank in served
    ensures var s := Exec(keys, Initial(served), events);
            && bank in s.banks
            && var t := s.banks[bank].t;
            var accepted := Deposited(t, t.accounts.Keys) + FlightValue(s, bank) + StrandedValue(s, bank);
            && RegistryRuns.DepositorTotal(s.registry.log, bank) == accepted
            && RegistryRuns.OutstandingPosition(s.registry.t.receivables, bank)
             + RegistryRuns.ClaimPosition(s.registry.t.claims, bank)
            == accepted - RegistryRuns.IssuerTotal(s.registry.log, bank)
  {
    var s := Exec(keys, Initial(served), events);
    var works := BankRefines(keys, Initial(served), events, bank);
    var acts := RegistryRefines(keys, Initial(served), events);
    RunInv(keys, Initial(served), events);
    SpentMatchesDeposits(keys(bank), served[bank], works);
    DepositedIsSpent(s.banks[bank].t);
    RegistryRuns.RunReceived(RegistryRuns.INITIAL, acts, bank);
    RegistryRuns.PositionConserved(acts, bank);
    ReceivedValue(s, bank);
  }
}
