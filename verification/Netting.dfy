/**
 Bilateral netting of receivables.  The loop walks a hash map in an arbitrary order, remembering
 the pairs it has dealt with; what it produces does not depend on that order.
 */
module Netting {
  import opened Common
  import opened Sums

  /** A receivable: what `depositor` is owed by `issuer`. */
  datatype Pair = Pair(issuer: string, depositor: string)

  datatype Claim = Claim(owes: string, owed: string, amount: nat, windowEnd: nat)

  type Amounts = map<Pair, nat>

  function Reverse(p: Pair): Pair {
    Pair(p.depositor, p.issuer)
  }

  function ClaimPair(c: Claim): Pair {
    Pair(c.owes, c.owed)
  }

  function At(amounts: Amounts, p: Pair): nat {
    if p in amounts then amounts[p] else 0
  }

  /** The net a pair's issuer owes its depositor; negative if it is the other way round. */
  function Owed(amounts: Amounts, p: Pair): int {
    At(amounts, p) - At(amounts, Reverse(p))
  }

  // ---------- the loop as a function of the iteration order ----------

  datatype Progress = Progress(claims: seq<Claim>, done: set<Pair>)

  function Visit(amounts: Amounts, g: Progress, p: Pair, now: nat): Progress {
    if p in g.done then g
    else
      var net := Owed(amounts, p);
      var done := g.done + {p, Reverse(p)};
      if net > 0 then Progress(g.claims + [Claim(p.issuer, p.depositor, net, now)], done)
      else if net < 0 then Progress(g.claims + [Claim(p.depositor, p.issuer, -net, now)], done)
      else Progress(g.claims, done)
  }

  function NetInOrder(amounts: Amounts, order: seq<Pair>, now: nat): Progress {
    if order == [] then Progress([], {})
    else Visit(amounts, NetInOrder(amounts, order[..|order| - 1], now), order[|order| - 1], now)
  }

  /** `order` is a walk of the whole map. */
  ghost predicate Walks(order: seq<Pair>, amounts: Amounts) {
    forall p :: p in order <==> p in amounts
  }

  // ---------- what it computes ----------

  predicate DistinctPairs(claims: seq<Claim>) {
    forall i, j :: 0 <= i < j < |claims| ==> ClaimPair(claims[i]) != ClaimPair(claims[j])
  }

  predicate ClaimsOwed(amounts: Amounts, claims: seq<Claim>, now: nat) {
    forall c :: c in claims ==> c.amount == Owed(amounts, ClaimPair(c)) && c.amount > 0 && c.windowEnd == now
  }

  ghost predicate Covers(amounts: Amounts, claims: seq<Claim>, pairs: set<Pair>) {
    forall p :: p in pairs && Owed(amounts, p) > 0 ==> exists c :: c in claims && ClaimPair(c) == p
  }

  ghost predicate Netted(amounts: Amounts, g: Progress, now: nat) {
    && (forall p :: p in g.done ==> Reverse(p) in g.done)
    && (forall c :: c in g.claims ==> ClaimPair(c) in g.done)
    && ClaimsOwed(amounts, g.claims, now)
    && DistinctPairs(g.claims)
    && Covers(amounts, g.claims, g.done)
  }

  lemma VisitNetted(amounts: Amounts, g: Progress, p: Pair, now: nat)
    requires Netted(amounts, g, now)
    ensures Netted(amounts, Visit(amounts, g, p, now), now)
  {
    var g' := Visit(amounts, g, p, now);
    if p !in g.done {
      assert Reverse(Reverse(p)) == p;
      assert Owed(amounts, Reverse(p)) == -Owed(amounts, p);
      assert forall c :: c in g.claims ==> c in g'.claims;
      if Owed(amounts, p) != 0 {
        var last := g'.claims[|g.claims|];
        assert last in g'.claims;
        forall i | 0 <= i < |g.claims| ensures ClaimPair(g.claims[i]) != ClaimPair(last) {
          assert g.claims[i] in g.claims;
        }
      }
    }
  }

  lemma {:induction false} NetInOrderNetted(amounts: Amounts, order: seq<Pair>, now: nat)
    ensures Netted(amounts, NetInOrder(amounts, order, now), now)
    ensures forall p :: p in order ==> p in NetInOrder(amounts, order, now).done
  {
    if order == [] {
    } else {
      var n := |order| - 1;
      NetInOrderNetted(amounts, order[..n], now);
      VisitNetted(amounts, NetInOrder(amounts, order[..n], now), order[n], now);
      assert forall p :: p in order ==> p in order[..n] || p == order[n];
    }
  }

  /** After a whole walk every pair with a positive net has its claim. */
  lemma WholeWalkCovers(amounts: Amounts, order: seq<Pair>, now: nat)
    requires Walks(order, amounts)
    ensures forall p :: Owed(amounts, p) > 0 ==>
              exists c :: c in NetInOrder(amounts, order, now).claims && ClaimPair(c) == p
  {
    NetInOrderNetted(amounts, order, now);
    var g := NetInOrder(amounts, order, now);
    forall p | Owed(amounts, p) > 0 ensures exists c :: c in g.claims && ClaimPair(c) == p {
      assert p in amounts && p in order && p in g.done;
    }
  }

  // ---------- the sorted answer ----------

  /** Rust compares strings lexicographically by code point. */
  predicate Less(a: string, b: string) {
    b != [] && (a == [] || a[0] < b[0] || (a[0] == b[0] && Less(a[1..], b[1..])))
  }

  predicate PairLess(p: Pair, q: Pair) {
    Less(p.issuer, q.issuer) || (p.issuer == q.issuer && Less(p.depositor, q.depositor))
  }

  lemma {:induction false} LessTotal(a: string, b: string)
    ensures Less(a, b) || a == b || Less(b, a)
    ensures !(Less(a, b) && Less(b, a)) && !Less(a, a)
    decreases |a|
  {
    if a == [] {
    } else {
      if b != [] {
        LessTotal(a[1..], b[1..]);
        assert a == [a[0]] + a[1..] && b == [b[0]] + b[1..];
      }
      LessTotal(a[1..], a[1..]);
    }
  }

  lemma {:induction false} LessTransitive(a: string, b: string, c: string)
    requires Less(a, b) && Less(b, c)
    ensures Less(a, c)
  {
    if a != [] && a[0] == b[0] == c[0] {
      LessTransitive(a[1..], b[1..], c[1..]);
    }
  }

  lemma PairLessTotal(p: Pair, q: Pair)
    ensures PairLess(p, q) || p == q || PairLess(q, p)
    ensures !(PairLess(p, q) && PairLess(q, p)) && !PairLess(p, p)
  {
    LessTotal(p.issuer, q.issuer);
    LessTotal(p.depositor, q.depositor);
    LessTotal(p.issuer, p.issuer);
    LessTotal(p.depositor, p.depositor);
  }

  lemma PairLessTransitive(p: Pair, q: Pair, r: Pair)
    requires PairLess(p, q) && PairLess(q, r)
    ensures PairLess(p, r)
  {
    if Less(p.issuer, q.issuer) && Less(q.issuer, r.issuer) {
      LessTransitive(p.issuer, q.issuer, r.issuer);
    }
    if Less(p.depositor, q.depositor) && Less(q.depositor, r.depositor) {
      LessTransitive(p.depositor, q.depositor, r.depositor);
    }
  }

  predicate StrictlySorted(claims: seq<Claim>) {
    forall i, j :: 0 <= i < j < |claims| ==> PairLess(ClaimPair(claims[i]), ClaimPair(claims[j]))
  }

  /** `a` comes first in a dictionary: it ends, or has the smaller character, where the two part. */
  ghost predicate Precedes(a: string, b: string) {
    exists k: nat :: k <= |a| && k < |b| && a[..k] == b[..k] && (k == |a| || a[k] < b[k])
  }

  lemma {:induction false} LessPrecedes(a: string, b: string)
    requires Less(a, b)
    ensures Precedes(a, b)
  {
    if a == [] || a[0] < b[0] {
      assert a[..0] == b[..0];
    } else {
      LessPrecedes(a[1..], b[1..]);
      var k: nat :| k <= |a[1..]| && k < |b[1..]| && a[1..][..k] == b[1..][..k] && (k == |a[1..]| || a[1..][k] < b[1..][k]);
      assert a[..k + 1] == [a[0]] + a[1..][..k] && b[..k + 1] == [b[0]] + b[1..][..k];
    }
  }

  /** By the bank that owes, then by the bank that is owed. */
  ghost predicate Ascending(claims: seq<Claim>) {
    forall i, j :: 0 <= i < j < |claims| ==>
      || Precedes(claims[i].owes, claims[j].owes)
      || (claims[i].owes == claims[j].owes && Precedes(claims[i].owed, claims[j].owed))
  }

  lemma SortedAscends(claims: seq<Claim>)
    requires StrictlySorted(claims)
    ensures Ascending(claims)
  {
    forall i, j | 0 <= i < j < |claims|
      ensures || Precedes(claims[i].owes, claims[j].owes)
              || (claims[i].owes == claims[j].owes && Precedes(claims[i].owed, claims[j].owed))
    {
      if Less(claims[i].owes, claims[j].owes) {
        LessPrecedes(claims[i].owes, claims[j].owes);
      } else {
        LessPrecedes(claims[i].owed, claims[j].owed);
      }
    }
  }

  /**
   The settlement of a set of receivables: one claim for each pair with a positive net, for exactly
   that net, in ascending order.  Nothing here mentions an iteration order.
   */
  ghost predicate Settlement(amounts: Amounts, claims: seq<Claim>, now: nat) {
    && StrictlySorted(claims)
    && ClaimsOwed(amounts, claims, now)
    && forall p :: Owed(amounts, p) > 0 ==> exists c :: c in claims && ClaimPair(c) == p
  }

  /** There is only one settlement, so every iteration order gives the same answer. */
  lemma SettlementUnique(amounts: Amounts, a: seq<Claim>, b: seq<Claim>, now: nat)
    requires Settlement(amounts, a, now) && Settlement(amounts, b, now)
    ensures a == b
  {
    SameClaims(amounts, a, b, now);
    SameClaims(amounts, b, a, now);
    SortedUnique(a, b);
  }

  lemma SameClaims(amounts: Amounts, a: seq<Claim>, b: seq<Claim>, now: nat)
    requires Settlement(amounts, a, now) && Settlement(amounts, b, now)
    ensures forall c :: c in a ==> c in b
  {
    forall c | c in a ensures c in b {
      var d :| d in b && ClaimPair(d) == ClaimPair(c);
      assert c == d;
    }
  }

  lemma HeadLeast(a: seq<Claim>, c: Claim)
    requires StrictlySorted(a) && c in a && c != a[0]
    ensures PairLess(ClaimPair(a[0]), ClaimPair(c))
  {
  }

  lemma {:induction false} SortedUnique(a: seq<Claim>, b: seq<Claim>)
    requires StrictlySorted(a) && StrictlySorted(b) && forall c :: c in a <==> c in b
    ensures a == b
  {
    assert (a != [] ==> a[0] in a) && (b != [] ==> b[0] in b);
    if a == [] {
    } else {
      if a[0] != b[0] {
        HeadLeast(a, b[0]);
        HeadLeast(b, a[0]);
        PairLessTotal(ClaimPair(a[0]), ClaimPair(b[0]));
      }
      TailSame(a, b);
      SortedUnique(a[1..], b[1..]);
    }
  }

  lemma TailSame(a: seq<Claim>, b: seq<Claim>)
    requires StrictlySorted(a) && StrictlySorted(b) && a != [] && b != [] && a[0] == b[0]
    requires forall c :: c in a <==> c in b
    ensures forall c :: c in a[1..] <==> c in b[1..]
  {
    PairLessTotal(ClaimPair(a[0]), ClaimPair(a[0]));
    assert forall c :: c in a <==> c == a[0] || c in a[1..];
    assert forall c :: c in b <==> c == b[0] || c in b[1..];
    assert a[0] !in a[1..] && b[0] !in b[1..];
  }

  // ---------- conservation ----------

  /** A way of valuing pairs under which a claim and its reverse cancel. */
  ghost predicate Antisymmetric(w: Pair -> int) {
    forall p :: w(Reverse(p)) == -w(p)
  }

  ghost function Weigh(amounts: Amounts, w: Pair -> int): Pair -> int {
    p => w(p) * At(amounts, p)
  }

  ghost function WeighClaims(claims: seq<Claim>, w: Pair -> int): int {
    if claims == [] then 0
    else WeighClaims(claims[..|claims| - 1], w) + w(ClaimPair(claims[|claims| - 1])) * claims[|claims| - 1].amount
  }

  lemma {:induction false} WeighClaimsSplit(a: seq<Claim>, b: seq<Claim>, w: Pair -> int)
    ensures WeighClaims(a + b, w) == WeighClaims(a, w) + WeighClaims(b, w)
  {
    if b == [] {
      assert a + b == a;
    } else {
      var n := |b| - 1;
      assert (a + b)[..|a| + n] == a + b[..n];
      WeighClaimsSplit(a, b[..n], w);
    }
  }

  lemma WeighClaimsSnoc(a: seq<Claim>, c: Claim, w: Pair -> int)
    ensures WeighClaims(a + [c], w) == WeighClaims(a, w) + w(ClaimPair(c)) * c.amount
  {
    assert (a + [c])[..|a|] == a;
  }

  lemma MulNegate(x: int, y: int)
    ensures (-x) * y == -(x * y)
  {
  }

  lemma NegatedNet(x: int, n: int, y: int, m: int)
    requires y == -x && m == -n
    ensures y * m == x * n
  {
  }

  lemma MulMinus(x: int, a: int, b: int)
    ensures x * (a - b) == x * a - x * b
  {
  }

  /** A pair and its reverse together weigh as much as the pair's net. */
  lemma WeighNet(amounts: Amounts, p: Pair, w: Pair -> int)
    requires Antisymmetric(w)
    ensures Weigh(amounts, w)(p) + Weigh(amounts, w)(Reverse(p)) == w(p) * Owed(amounts, p)
    ensures Reverse(p) == p ==> w(p) * Owed(amounts, p) == 0 && Weigh(amounts, w)(p) == 0
  {
    var q := Reverse(p);
    assert w(q) == -w(p);
    MulNegate(w(p), At(amounts, q));
    MulMinus(w(p), At(amounts, p), At(amounts, q));
  }

  /** Dealing with a pair and its reverse adds exactly its net. */
  lemma SumPairAndReverse(amounts: Amounts, done: set<Pair>, p: Pair, w: Pair -> int)
    requires Antisymmetric(w) && p !in done && Reverse(p) !in done
    ensures Sum(done + {p, Reverse(p)}, Weigh(amounts, w)) == Sum(done, Weigh(amounts, w)) + w(p) * Owed(amounts, p)
  {
    var f, q := Weigh(amounts, w), Reverse(p);
    WeighNet(amounts, p, w);
    SumInsert(done, f, p);
    if q == p {
      assert done + {p, q} == done + {p};
    } else {
      assert done + {p, q} == done + {p} + {q};
      SumInsert(done + {p}, f, q);
    }
  }

  /** The claim written for a visited pair weighs its net. */
  lemma VisitWeighs(amounts: Amounts, g: Progress, p: Pair, now: nat, w: Pair -> int)
    requires Antisymmetric(w) && p !in g.done
    ensures WeighClaims(Visit(amounts, g, p, now).claims, w) == WeighClaims(g.claims, w) + w(p) * Owed(amounts, p)
  {
    var net := Owed(amounts, p);
    if net > 0 {
      WeighClaimsSnoc(g.claims, Claim(p.issuer, p.depositor, net, now), w);
    } else if net < 0 {
      WeighClaimsSnoc(g.claims, Claim(p.depositor, p.issuer, -net, now), w);
      NegatedNet(w(p), net, w(Reverse(p)), -net);
    }
  }

  lemma VisitConserves(amounts: Amounts, g: Progress, p: Pair, now: nat, w: Pair -> int)
    requires Netted(amounts, g, now) && Antisymmetric(w)
    requires WeighClaims(g.claims, w) == Sum(g.done, Weigh(amounts, w))
    ensures var g' := Visit(amounts, g, p, now);
            WeighClaims(g'.claims, w) == Sum(g'.done, Weigh(amounts, w))
  {
    if p !in g.done {
      assert Reverse(p) !in g.done by { assert Reverse(Reverse(p)) == p; }
      SumPairAndReverse(amounts, g.done, p, w);
      VisitWeighs(amounts, g, p, now, w);
    }
  }

  lemma {:induction false} NetInOrderConserves(amounts: Amounts, order: seq<Pair>, now: nat, w: Pair -> int)
    requires Antisymmetric(w)
    ensures var g := NetInOrder(amounts, order, now);
            WeighClaims(g.claims, w) == Sum(g.done, Weigh(amounts, w))
  {
    if order == [] {
    } else {
      var n := |order| - 1;
      NetInOrderConserves(amounts, order[..n], now, w);
      NetInOrderNetted(amounts, order[..n], now);
      VisitConserves(amounts, NetInOrder(amounts, order[..n], now), order[n], now, w);
    }
  }

  /** Netting turns receivables into claims of the same weight. */
  lemma NettingConserves(amounts: Amounts, order: seq<Pair>, now: nat, w: Pair -> int)
    requires Antisymmetric(w) && Walks(order, amounts)
    ensures WeighClaims(NetInOrder(amounts, order, now).claims, w) == Sum(amounts.Keys, Weigh(amounts, w))
  {
    NetInOrderConserves(amounts, order, now, w);
    NetInOrderNetted(amounts, order, now);
    var done := NetInOrder(amounts, order, now).done;
    assert amounts.Keys <= done;
    forall p | p in done && p !in amounts.Keys ensures Weigh(amounts, w)(p) == 0 {
      assert At(amounts, p) == 0;
    }
    SumExtend(amounts.Keys, done, Weigh(amounts, w));
  }

  // ---------- the loop ----------

  /** The library sort, on the claims' pairs. */
  method SortClaims(claims: seq<Claim>) returns (sorted: seq<Claim>)
    requires DistinctPairs(claims)
    ensures StrictlySorted(sorted) && forall c :: c in sorted <==> c in claims
  {
    sorted := [];
    for i := 0 to |claims|
      invariant StrictlySorted(sorted)
      invariant forall c :: c in sorted <==> c in claims[..i]
    {
      forall c | c in sorted ensures ClaimPair(c) != ClaimPair(claims[i]) {
        assert c in claims[..i];
      }
      sorted := InsertClaim(sorted, claims[i]);
      assert claims[..i + 1] == claims[..i] + [claims[i]];
    }
    assert claims[..|claims|] == claims;
  }

  method InsertClaim(sorted: seq<Claim>, c: Claim) returns (longer: seq<Claim>)
    requires StrictlySorted(sorted) && forall d :: d in sorted ==> ClaimPair(d) != ClaimPair(c)
    ensures StrictlySorted(longer) && forall d :: d in longer <==> d == c || d in sorted
  {
    var k := 0;
    while k < |sorted| && PairLess(ClaimPair(sorted[k]), ClaimPair(c))
      invariant 0 <= k <= |sorted|
      invariant forall j :: 0 <= j < k ==> PairLess(ClaimPair(sorted[j]), ClaimPair(c))
    {
      k := k + 1;
    }
    forall j | k <= j < |sorted| ensures PairLess(ClaimPair(c), ClaimPair(sorted[j])) {
      PairLessTotal(ClaimPair(sorted[k]), ClaimPair(c));
      assert sorted[k] in sorted;
      if j > k {
        PairLessTransitive(ClaimPair(c), ClaimPair(sorted[k]), ClaimPair(sorted[j]));
      }
    }
    longer := sorted[..k] + [c] + sorted[k..];
    assert forall d :: d in sorted <==> d in sorted[..k] || d in sorted[k..];
  }

  /**
   The settlement over one walk of the map: the rows it writes, in the order it writes them, and the
   sorted answer.
   */
  method Net(amounts: Amounts, order: seq<Pair>, now: nat) returns (rows: seq<Claim>, answer: seq<Claim>)
    requires Walks(order, amounts)
    requires forall p :: p in amounts ==> amounts[p] <= I64_MAX
    ensures rows == NetInOrder(amounts, order, now).claims
    ensures Settlement(amounts, answer, now) && Ascending(answer)
    ensures forall c :: c in answer <==> c in rows
    ensures forall c :: c in answer ==> c.amount <= I64_MAX && c.owes != c.owed
  {
    rows := NetRows(amounts, order, now);
    NetInOrderNetted(amounts, order, now);
    WholeWalkCovers(amounts, order, now);
    answer := SortClaims(rows);
    SortedAscends(answer);
  }

  /** The loop. */
  method NetRows(amounts: Amounts, order: seq<Pair>, now: nat) returns (rows: seq<Claim>)
    requires Walks(order, amounts)
    requires forall p :: p in amounts ==> amounts[p] <= I64_MAX
    ensures rows == NetInOrder(amounts, order, now).claims
  {
    rows := [];
    var done: set<Pair> := {};
    for i := 0 to |order|
      invariant Progress(rows, done) == NetInOrder(amounts, order[..i], now)
    {
      var p := order[i];
      assert order[..i + 1][..i] == order[..i];
      if p !in done {
        done := done + {p, Reverse(p)};
        var forward := amounts[p];
        var reverse: nat := if Reverse(p) in amounts then amounts[Reverse(p)] else 0;
        var net: int := forward - reverse;
        assert 0 <= net + I64_MAX <= 2 * I64_MAX;
        if net > 0 {
          rows := rows + [Claim(p.issuer, p.depositor, net, now)];
        } else if net < 0 {
          rows := rows + [Claim(p.depositor, p.issuer, -net, now)];
        }
      }
    }
    assert order[..|order|] == order;
  }
}
