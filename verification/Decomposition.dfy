/** Greedy decomposition of an amount into the fixed power-of-two denominations. */
module Decomposition {

  /** The denominations in cents, ascending. */
  const DENOMINATIONS: seq<nat> := [1, 2, 4, 8, 16, 32, 64, 128, 256, 512, 1024, 2048, 4096, 8192]

  /** The denominations in the order the loop visits them. */
  const LARGEST_FIRST: seq<nat> := [8192, 4096, 2048, 1024, 512, 256, 128, 64, 32, 16, 8, 4, 2, 1]

  function Total(coins: seq<nat>): nat {
    if coins == [] then 0 else coins[0] + Total(coins[1..])
  }

  predicate DrawnFrom(coins: seq<nat>, ds: seq<nat>) {
    forall c :: c in coins ==> c in ds
  }

  /** Powers of two, largest first, ending in 1. */
  predicate Halving(ds: seq<nat>) {
    && (forall i :: 0 <= i < |ds| ==> ds[i] > 0)
    && (forall i :: 0 <= i < |ds| - 1 ==> ds[i] == 2 * ds[i + 1])
    && (ds != [] ==> ds[|ds| - 1] == 1)
  }

  /** As many of each denomination as fit, largest first. */
  function Change(n: nat, ds: seq<nat>): seq<nat>
    requires Halving(ds)
    decreases |ds|, n
  {
    if ds == [] then []
    else if n >= ds[0] then [ds[0]] + Change(n - ds[0], ds)
    else Change(n, ds[1..])
  }

  /** Nothing is lost: because 1 is a denomination every amount is met exactly. */
  lemma {:induction false} ChangeExact(n: nat, ds: seq<nat>)
    requires Halving(ds) && ds != []
    ensures Total(Change(n, ds)) == n
    decreases |ds|, n
  {
    if n >= ds[0] {
      ChangeExact(n - ds[0], ds);
      assert Change(n, ds)[1..] == Change(n - ds[0], ds);
    } else if |ds| > 1 {
      ChangeExact(n, ds[1..]);
    }
  }

  // ---------- fewest coins ----------

  /** A larger denomination never makes an amount cost more coins. */
  lemma {:induction false} LargerHelps(n: nat, ds: seq<nat>)
    requires Halving(ds) && |ds| > 1
    ensures |Change(n, ds)| <= |Change(n, ds[1..])|
    decreases n
  {
    if n >= ds[0] {
      LargerHelps(n - ds[0], ds);
      var d, tail := ds[1], ds[1..];
      assert Change(n, tail) == [d] + Change(n - d, tail);
      assert Change(n - d, tail) == [d] + Change(n - d - d, tail);
    }
  }

  /** One more coin of the largest denomination costs one coin. */
  lemma OneMoreCoin(n: nat, ds: seq<nat>)
    requires Halving(ds) && ds != []
    ensures |Change(n + ds[0], ds)| == 1 + |Change(n, ds)|
  {
    assert n + ds[0] - ds[0] == n;
  }

  lemma {:induction false} WholeCoins(k: nat, n: nat, ds: seq<nat>)
    requires Halving(ds) && ds != []
    ensures |Change(k * ds[0] + n, ds)| == k + |Change(n, ds)|
    decreases k
  {
    var d := ds[0];
    if k == 0 {
      assert k * d + n == n;
    } else {
      assert k * d + n == ((k - 1) * d + n) + d && (k - 1) * d + n >= 0;
      WholeCoins(k - 1, n, ds);
      OneMoreCoin((k - 1) * d + n, ds);
    }
  }

  /** Split off the coins of the largest denomination. */
  lemma {:induction false} SplitHead(coins: seq<nat>, ds: seq<nat>) returns (k: nat, rest: seq<nat>)
    requires ds != [] && DrawnFrom(coins, ds)
    ensures DrawnFrom(rest, ds[1..]) && |coins| == k + |rest| && Total(coins) == k * ds[0] + Total(rest)
    ensures |ds| == 1 ==> rest == []
  {
    if coins == [] {
      k, rest := 0, [];
    } else {
      assert coins[0] in coins;
      k, rest := SplitHead(coins[1..], ds);
      if coins[0] == ds[0] {
        k := k + 1;
      } else {
        var longer := [coins[0]] + rest;
        assert longer[1..] == rest;
        rest := longer;
      }
    }
  }

  /** No collection of these denominations with the same total has fewer coins. */
  lemma {:induction false} ChangeFewest(coins: seq<nat>, ds: seq<nat>)
    requires Halving(ds) && ds != [] && DrawnFrom(coins, ds)
    ensures |Change(Total(coins), ds)| <= |coins|
    decreases |ds|
  {
    var k, rest := SplitHead(coins, ds);
    WholeCoins(k, Total(rest), ds);
    if |ds| > 1 {
      ChangeFewest(rest, ds[1..]);
      LargerHelps(Total(rest), ds);
    }
  }

  // ---------- at most one of each denomination below the largest ----------

  /** Strictly decreasing, except that `top` may repeat. */
  predicate Canonical(coins: seq<nat>, top: nat) {
    forall i, j :: 0 <= i < j < |coins| ==> coins[i] > coins[j] || coins[i] == coins[j] == top
  }

  lemma {:induction false} ChangeBounds(n: nat, ds: seq<nat>)
    requires Halving(ds)
    ensures forall c :: c in Change(n, ds) ==> c in ds && c <= ds[0] && c <= n
    decreases |ds|, n
  {
    if ds == [] {
    } else {
      if n >= ds[0] {
        ChangeBounds(n - ds[0], ds);
      } else {
        ChangeBounds(n, ds[1..]);
      }
    }
  }

  lemma CanonicalCons(c: nat, rest: seq<nat>, top: nat)
    requires Canonical(rest, top)
    requires forall d :: d in rest ==> c > d || c == d == top
    ensures Canonical([c] + rest, top)
  {
    var coins := [c] + rest;
    forall i, j | 0 <= i < j < |coins| ensures coins[i] > coins[j] || coins[i] == coins[j] == top {
      assert coins[j] == rest[j - 1] && rest[j - 1] in rest;
    }
  }

  /** Below twice its head, change is strictly decreasing. */
  lemma {:induction false} ChangeStrict(n: nat, ds: seq<nat>)
    requires Halving(ds) && (ds != [] ==> n < 2 * ds[0])
    ensures Canonical(Change(n, ds), 0)
    decreases |ds|, n
  {
    if ds == [] {
    } else {
      var m := if n >= ds[0] then n - ds[0] else n;
      ChangeStrict(m, ds[1..]);
      if n >= ds[0] {
        ChangeBounds(m, ds[1..]);
        assert Change(m, ds) == Change(m, ds[1..]);
        CanonicalCons(ds[0], Change(m, ds[1..]), 0);
      }
    }
  }

  /** Above that, only the head repeats. */
  lemma {:induction false} ChangeCanonical(n: nat, ds: seq<nat>)
    requires Halving(ds) && ds != []
    ensures Canonical(Change(n, ds), ds[0])
    decreases n
  {
    if n >= ds[0] {
      ChangeCanonical(n - ds[0], ds);
      ChangeBounds(n - ds[0], ds);
      CanonicalCons(ds[0], Change(n - ds[0], ds), ds[0]);
    } else {
      ChangeStrict(n, ds);
      ChangeBounds(n, ds);
      var coins := Change(n, ds);
      assert forall i :: 0 <= i < |coins| ==> coins[i] in coins && coins[i] in ds;
    }
  }

  // ---------- the loops ----------

  /** What the greedy change means for the denominations in use. */
  lemma ChangeMeaning(amount: nat)
    ensures Halving(LARGEST_FIRST)
    ensures Total(Change(amount, LARGEST_FIRST)) == amount
    ensures DrawnFrom(Change(amount, LARGEST_FIRST), DENOMINATIONS)
    ensures Canonical(Change(amount, LARGEST_FIRST), 8192)
    ensures forall other: seq<nat> :: DrawnFrom(other, DENOMINATIONS) && Total(other) == amount
              ==> |Change(amount, LARGEST_FIRST)| <= |other|
  {
    LargestFirstHalves();
    ChangeExact(amount, LARGEST_FIRST);
    ChangeCanonical(amount, LARGEST_FIRST);
    ChangeBounds(amount, LARGEST_FIRST);
    LargestFirstReverses();
    ReversalMembers(LARGEST_FIRST, DENOMINATIONS);
    forall other: seq<nat> | DrawnFrom(other, DENOMINATIONS) && Total(other) == amount
      ensures |Change(amount, LARGEST_FIRST)| <= |other|
    {
      ChangeFewest(other, LARGEST_FIRST);
    }
  }

  predicate Reversal(ds: seq<nat>, es: seq<nat>) {
    |ds| == |es| && forall i :: 0 <= i < |ds| ==> es[i] == ds[|ds| - 1 - i]
  }

  lemma ReversalMembers(ds: seq<nat>, es: seq<nat>)
    requires Reversal(ds, es)
    ensures forall d :: d in ds <==> d in es
  {
    forall i | 0 <= i < |ds| ensures ds[i] in es && es[i] in ds {
      assert es[|ds| - 1 - i] == ds[i] && es[i] == ds[|ds| - 1 - i];
    }
  }

  lemma LargestFirstHalves()
    ensures Halving(LARGEST_FIRST)
  {
  }

  lemma LargestFirstReverses()
    ensures Reversal(LARGEST_FIRST, DENOMINATIONS)
  {
  }

  method Decompose(amount: nat) returns (coins: seq<nat>)
    ensures Total(coins) == amount
    ensures DrawnFrom(coins, DENOMINATIONS)
    ensures Canonical(coins, 8192)
    ensures forall other: seq<nat> :: DrawnFrom(other, DENOMINATIONS) && Total(other) == amount
              ==> |coins| <= |other|
  {
    LargestFirstReverses();
    ChangeMeaning(amount);
    coins := DecomposeOver(amount, DENOMINATIONS, LARGEST_FIRST);
  }

  /** Taking a coin moves it from the change to come to the coins so far. */
  lemma TakeCoin(coins: seq<nat>, n: nat, ds: seq<nat>)
    requires Halving(ds) && ds != [] && n >= ds[0]
    ensures coins + Change(n, ds) == coins + [ds[0]] + Change(n - ds[0], ds)
  {
    assert coins + ([ds[0]] + Change(n - ds[0], ds)) == coins + [ds[0]] + Change(n - ds[0], ds);
  }

  /** The two nested loops, for any ascending list `denominations` and its reversal `ds`. */
  method DecomposeOver(amount: nat, denominations: seq<nat>, ghost ds: seq<nat>) returns (coins: seq<nat>)
    requires Halving(ds) && Reversal(ds, denominations)
    ensures coins == Change(amount, ds)
  {
    var remaining: nat := amount;
    coins := [];
    assert [] + Change(amount, ds) == Change(amount, ds) && ds[0..] == ds;
    for i := |denominations| downto 0
      invariant coins + Change(remaining, ds[|ds| - i..]) == Change(amount, ds)
    {
      var denomination := denominations[i];
      ghost var visible := ds[|ds| - (i + 1)..];
      assert visible[0] == denomination && visible[1..] == ds[|ds| - i..];
      while remaining >= denomination
        invariant coins + Change(remaining, visible) == Change(amount, ds)
      {
        TakeCoin(coins, remaining, visible);
        coins := coins + [denomination];
        remaining := remaining - denomination;
      }
    }
    assert ds[|ds|..] == [];
  }
}
