/**
 Exact coin selection from the coins a wallet holds: largest first, taking a coin whenever it
 still fits.  The central question is when this greedy choice is complete.
 */
module CoinSelection {
  import opened Common
  import Arith

  function Total(coins: seq<Coin>): nat {
    if coins == [] then 0 else coins[0].id.denom + Total(coins[1..])
  }

  function Denoms(coins: seq<Coin>): seq<nat> {
    seq(|coins|, i requires 0 <= i < |coins| => coins[i].id.denom)
  }

  predicate LargestFirst(coins: seq<Coin>) {
    forall i, j :: 0 <= i < j < |coins| ==> coins[i].id.denom >= coins[j].id.denom
  }

  /** The coins in an order the library sort may leave them in. */
  predicate Sorting(sorted: seq<Coin>, coins: seq<Coin>) {
    multiset(sorted) == multiset(coins) && LargestFirst(sorted)
  }

  /** `sub` can be paid out of `coins`. */
  predicate SubCollection(sub: seq<Coin>, coins: seq<Coin>) {
    multiset(sub) <= multiset(coins)
  }

  ghost predicate CanPay(coins: seq<Coin>, amount: nat) {
    exists sub: seq<Coin> :: SubCollection(sub, coins) && Total(sub) == amount
  }

  /** What the loop selects from a sorted collection, and the amount it leaves uncovered. */
  datatype Selection = Selection(coins: seq<Coin>, left: nat)

  function Greedy(coins: seq<Coin>, amount: nat): Selection {
    if coins == [] then Selection([], amount)
    else if coins[0].id.denom > amount then Greedy(coins[1..], amount)
    else if coins[0].id.denom == amount then Selection([coins[0]], 0)
    else
      var rest := Greedy(coins[1..], amount - coins[0].id.denom);
      Selection([coins[0]] + rest.coins, rest.left)
  }

  // ---------- divisibility ----------

  /** `a` divides `b`; zero is exempt because a worthless coin never matters. */
  predicate Divides(a: nat, b: nat) {
    a == 0 || b % a == 0
  }

  predicate Comparable(a: nat, b: nat) {
    Divides(a, b) || Divides(b, a)
  }

  /** Of any two held denominations one divides the other, as with powers of two. */
  predicate Chain(coins: seq<Coin>) {
    forall c, d :: c in coins && d in coins ==> Comparable(c.id.denom, d.id.denom)
  }

  lemma DividesDifference(a: nat, b: nat, c: nat)
    requires Divides(a, b) && Divides(a, c) && c <= b
    ensures Divides(a, b - c)
  {
    if a != 0 {
      assert b == a * (b / a) && c == a * (c / a);
      assert b - c == a * (b / a - c / a);
      MultipleMod(a, b / a - c / a);
    }
  }

  lemma MultipleMod(a: nat, q: int)
    requires a > 0
    ensures (a * q) % a == 0
  {
    Arith.DivModUnique(a, q, 0);
  }

  lemma MultipleFits(a: nat, b: nat)
    requires Divides(a, b) && b > 0
    ensures a <= b
  {
    if a > b {
      Arith.DivModUnique(a, 0, b);
    }
  }

  /** In a sorted chain every later denomination divides every earlier one. */
  lemma ChainSorted(coins: seq<Coin>, i: nat, j: nat)
    requires Chain(coins) && LargestFirst(coins) && i < j < |coins|
    requires coins[j].id.denom > 0
    ensures Divides(coins[j].id.denom, coins[i].id.denom)
  {
    assert Comparable(coins[i].id.denom, coins[j].id.denom);
    if Divides(coins[i].id.denom, coins[j].id.denom) {
      MultipleFits(coins[i].id.denom, coins[j].id.denom);
      MultipleMod(coins[i].id.denom, 1);
    }
  }

  // ---------- selections as masks over a sorted collection ----------

  function MaskTotal(coins: seq<Coin>, mask: seq<bool>): nat
    requires |mask| == |coins|
  {
    if coins == [] then 0
    else (if mask[0] then coins[0].id.denom else 0) + MaskTotal(coins[1..], mask[1..])
  }

  function MaskSize(mask: seq<bool>): nat {
    if mask == [] then 0 else (if mask[0] then 1 else 0) + MaskSize(mask[1..])
  }

  /**
   The exchange step.  If every coin divides `goal` and the marked coins are worth at least
   `goal`, some of them are worth exactly `goal`; the mask returned keeps the others.
   */
  lemma {:induction false} ReleaseExactly(coins: seq<Coin>, mask: seq<bool>, goal: nat) returns (keep: seq<bool>)
    requires |mask| == |coins| && LargestFirst(coins) && Chain(coins)
    requires forall i :: 0 <= i < |coins| ==> Divides(coins[i].id.denom, goal)
    requires MaskTotal(coins, mask) >= goal
    ensures |keep| == |coins|
    ensures MaskTotal(coins, keep) == MaskTotal(coins, mask) - goal
    ensures MaskSize(keep) <= MaskSize(mask)
    ensures goal > 0 ==> MaskSize(keep) < MaskSize(mask)
  {
    if goal == 0 {
      keep := mask;
    } else {
      var h := coins[0].id.denom;
      ChainTail(coins);
      if !mask[0] || h == 0 {
        var rest := ReleaseExactly(coins[1..], mask[1..], goal);
        keep := [mask[0]] + rest;
        assert keep[1..] == rest;
      } else {
        MultipleFits(h, goal);
        forall i | 0 <= i < |coins[1..]| ensures Divides(coins[1..][i].id.denom, goal - h) {
          DividesDifference(coins[i + 1].id.denom, goal, h);
        }
        var rest := ReleaseExactly(coins[1..], mask[1..], goal - h);
        keep := [false] + rest;
        assert keep[1..] == rest;
      }
    }
  }

  lemma ChainTail(coins: seq<Coin>)
    requires LargestFirst(coins) && Chain(coins) && coins != []
    ensures LargestFirst(coins[1..]) && Chain(coins[1..])
    ensures forall i :: 0 <= i < |coins[1..]| ==> Divides(coins[1..][i].id.denom, coins[0].id.denom)
  {
    assert forall c :: c in coins[1..] ==> c in coins;
    forall i | 0 <= i < |coins[1..]| ensures Divides(coins[1..][i].id.denom, coins[0].id.denom) {
      assert coins[1..][i] == coins[i + 1];
      if coins[i + 1].id.denom > 0 {
        ChainSorted(coins, 0, i + 1);
      }
    }
  }

  /** Greedy covers whatever any marked selection covers, and with no more coins. */
  lemma {:induction false} GreedyBeatsMask(coins: seq<Coin>, mask: seq<bool>)
    requires |mask| == |coins| && LargestFirst(coins) && Chain(coins)
    ensures Greedy(coins, MaskTotal(coins, mask)).left == 0
    ensures MaskTotal(coins, mask) > 0 ==> |Greedy(coins, MaskTotal(coins, mask)).coins| <= MaskSize(mask)
  {
    if coins == [] {
    } else {
      var amount, h := MaskTotal(coins, mask), coins[0].id.denom;
      ChainTail(coins);
      if h == amount {
        if amount > 0 {
          MaskSizePositive(coins, mask);
        }
      } else if h > amount || mask[0] {
        GreedyBeatsMask(coins[1..], mask[1..]);
      } else {
        var keep := ReleaseExactly(coins[1..], mask[1..], h);
        GreedyBeatsMask(coins[1..], keep);
        if h == 0 {
          ZeroTail(coins[1..], mask[1..]);
        }
      }
    }
  }

  lemma {:induction false} MaskSizePositive(coins: seq<Coin>, mask: seq<bool>)
    requires |mask| == |coins| && MaskTotal(coins, mask) > 0
    ensures MaskSize(mask) > 0
  {
    if !mask[0] {
      MaskSizePositive(coins[1..], mask[1..]);
    }
  }

  lemma {:induction false} ZeroTail(coins: seq<Coin>, mask: seq<bool>)
    requires |mask| == |coins|
    requires forall i :: 0 <= i < |coins| ==> coins[i].id.denom == 0
    ensures MaskTotal(coins, mask) == 0
  {
    if coins == [] {
    } else {
      ZeroTail(coins[1..], mask[1..]);
    }
  }

  // ---------- from sub-collections to masks ----------

  lemma {:induction false} TotalSplit(a: seq<Coin>, b: seq<Coin>)
    ensures Total(a + b) == Total(a) + Total(b)
  {
    if a == [] {
      assert a + b == b;
    } else {
      assert (a + b)[1..] == a[1..] + b;
      TotalSplit(a[1..], b);
    }
  }

  /** Take one occurrence of `c` out of `coins`. */
  lemma Extract(coins: seq<Coin>, c: Coin) returns (rest: seq<Coin>)
    requires c in coins
    ensures multiset(rest) == multiset(coins) - multiset{c}
    ensures |rest| == |coins| - 1 && Total(coins) == c.id.denom + Total(rest)
  {
    var k :| 0 <= k < |coins| && coins[k] == c;
    rest := coins[..k] + coins[k + 1..];
    assert coins == coins[..k] + ([c] + coins[k + 1..]);
    assert ([c] + coins[k + 1..])[1..] == coins[k + 1..];
    TotalSplit(coins[..k], [c] + coins[k + 1..]);
    TotalSplit(coins[..k], coins[k + 1..]);
    assert multiset(coins) == multiset(coins[..k]) + multiset{c} + multiset(coins[k + 1..]);
  }

  lemma {:induction false} MaskOf(coins: seq<Coin>, sub: seq<Coin>) returns (mask: seq<bool>)
    requires SubCollection(sub, coins)
    ensures |mask| == |coins| && MaskTotal(coins, mask) == Total(sub) && MaskSize(mask) == |sub|
  {
    if coins == [] {
      assert |multiset(sub)| == |sub|;
      mask := [];
    } else {
      var h := coins[0];
      assert coins == [h] + coins[1..];
      assert multiset(coins) == multiset{h} + multiset(coins[1..]);
      if h in sub {
        var less := Extract(sub, h);
        var rest := MaskOf(coins[1..], less);
        mask := [true] + rest;
        assert mask[1..] == rest;
      } else {
        assert h !in multiset(sub);
        var rest := MaskOf(coins[1..], sub);
        mask := [false] + rest;
        assert mask[1..] == rest;
      }
    }
  }

  // ---------- the theorems about Greedy ----------

  /** Greedy never invents a coin. */
  lemma {:induction false} GreedySelects(coins: seq<Coin>, amount: nat)
    ensures SubCollection(Greedy(coins, amount).coins, coins)
  {
    if coins == [] {
    } else {
      var h, t := coins[0], coins[1..];
      assert multiset(coins) == multiset{h} + multiset(t) by { assert coins == [h] + t; }
      if h.id.denom > amount {
        GreedySelects(t, amount);
      } else if h.id.denom < amount {
        GreedySelects(t, amount - h.id.denom);
        var rest := Greedy(t, amount - h.id.denom).coins;
        assert multiset([h] + rest) == multiset{h} + multiset(rest);
      }
    }
  }

  /** Greedy never overspends. */
  lemma {:induction false} GreedyTotal(coins: seq<Coin>, amount: nat)
    ensures Total(Greedy(coins, amount).coins) + Greedy(coins, amount).left == amount
  {
    if coins == [] {
    } else {
      var h, t := coins[0], coins[1..];
      if h.id.denom > amount {
        GreedyTotal(t, amount);
      } else if h.id.denom == amount {
        assert [h][1..] == [];
      } else {
        GreedyTotal(t, amount - h.id.denom);
        var rest := Greedy(t, amount - h.id.denom).coins;
        assert ([h] + rest)[1..] == rest;
      }
    }
  }

  lemma {:induction false} GreedyKeepsOrder(coins: seq<Coin>, amount: nat)
    requires LargestFirst(coins)
    ensures LargestFirst(Greedy(coins, amount).coins)
    ensures forall c :: c in Greedy(coins, amount).coins ==> c in coins
  {
    if coins == [] {
    } else {
      var d := coins[0].id.denom;
      if d > amount {
        GreedyKeepsOrder(coins[1..], amount);
      } else if d < amount {
        GreedyKeepsOrder(coins[1..], amount - d);
        var rest := Greedy(coins[1..], amount - d).coins;
        forall i | 0 <= i < |rest| ensures d >= rest[i].id.denom {
          assert rest[i] in coins[1..];
        }
      }
    }
  }

  /** The marked coins. */
  function Marked(coins: seq<Coin>, mask: seq<bool>): seq<Coin>
    requires |mask| == |coins|
  {
    if coins == [] then [] else (if mask[0] then [coins[0]] else []) + Marked(coins[1..], mask[1..])
  }

  /**
   Coin `i` is marked exactly if it fits what the marked coins before it leave open, and those have
   not already paid the amount.
   */
  predicate MarkedIfFits(coins: seq<Coin>, mask: seq<bool>, amount: nat, i: nat)
    requires |mask| == |coins| && i < |coins|
  {
    var paid := MaskTotal(coins[..i], mask[..i]);
    mask[i] <==> paid + coins[i].id.denom <= amount && !(paid == amount && MaskSize(mask[..i]) > 0)
  }

  lemma MaskPrefix(coins: seq<Coin>, mask: seq<bool>, i: nat)
    requires |mask| == |coins| && i < |coins|
    ensures MaskTotal(coins[..i + 1], mask[..i + 1])
         == (if mask[0] then coins[0].id.denom else 0) + MaskTotal(coins[1..][..i], mask[1..][..i])
    ensures MaskSize(mask[..i + 1]) == (if mask[0] then 1 else 0) + MaskSize(mask[1..][..i])
  {
    assert coins[..i + 1][1..] == coins[1..][..i] && mask[..i + 1][1..] == mask[1..][..i];
  }

  lemma {:induction false} NoneMarked(coins: seq<Coin>, mask: seq<bool>)
    requires |mask| == |coins| && forall i :: 0 <= i < |mask| ==> !mask[i]
    ensures MaskTotal(coins, mask) == 0 && MaskSize(mask) == 0 && Marked(coins, mask) == []
  {
    if coins == [] {
    } else {
      NoneMarked(coins[1..], mask[1..]);
    }
  }

  /** The rule carries over from the tail to the whole. */
  lemma FitsFromTail(coins: seq<Coin>, mask: seq<bool>, amount: nat, rest: nat, i: nat)
    requires |mask| == |coins| && 0 < i < |coins|
    requires rest == if mask[0] then amount - coins[0].id.denom else amount
    requires mask[0] ==> rest > 0
    requires MarkedIfFits(coins[1..], mask[1..], rest, i - 1)
    ensures MarkedIfFits(coins, mask, amount, i)
  {
    MaskPrefix(coins, mask, i - 1);
    var before, marks := coins[1..][..i - 1], mask[1..][..i - 1];
    if mask[0] && MaskTotal(before, marks) == rest {
      MaskSizePositive(before, marks);
    }
  }

  /** What greedy does, coin by coin, on any coins whatever. */
  lemma {:induction false} GreedyMarks(coins: seq<Coin>, amount: nat) returns (mask: seq<bool>)
    ensures |mask| == |coins| && Greedy(coins, amount).coins == Marked(coins, mask)
    ensures Greedy(coins, amount).left == amount - MaskTotal(coins, mask)
    ensures forall i :: 0 <= i < |coins| ==> MarkedIfFits(coins, mask, amount, i)
  {
    if coins == [] {
      mask := [];
    } else if coins[0].id.denom == amount {
      var none := seq(|coins| - 1, _ => false);
      NoneMarked(coins[1..], none);
      mask := [true] + none;
      assert mask[1..] == none;
      forall i | 0 <= i < |coins| ensures MarkedIfFits(coins, mask, amount, i) {
        if i > 0 {
          MaskPrefix(coins, mask, i - 1);
          NoneMarked(coins[1..][..i - 1], none[..i - 1]);
        }
      }
    } else {
      var rest := if coins[0].id.denom > amount then amount else amount - coins[0].id.denom;
      var tail := GreedyMarks(coins[1..], rest);
      mask := [coins[0].id.denom < amount] + tail;
      assert mask[1..] == tail;
      forall i | 0 <= i < |coins| ensures MarkedIfFits(coins, mask, amount, i) {
        if i > 0 {
          FitsFromTail(coins, mask, amount, rest, i);
        }
      }
    }
  }

  /** On a divisibility chain greedy succeeds exactly when the amount can be paid at all. */
  lemma GreedyComplete(coins: seq<Coin>, amount: nat)
    requires LargestFirst(coins) && Chain(coins)
    ensures Greedy(coins, amount).left == 0 <==> CanPay(coins, amount)
  {
    GreedySelects(coins, amount);
    GreedyTotal(coins, amount);
    if CanPay(coins, amount) {
      var sub :| SubCollection(sub, coins) && Total(sub) == amount;
      var mask := MaskOf(coins, sub);
      GreedyBeatsMask(coins, mask);
    }
  }

  /** On a divisibility chain no exact payment of a positive amount uses fewer coins. */
  lemma GreedyFewest(coins: seq<Coin>, amount: nat, sub: seq<Coin>)
    requires LargestFirst(coins) && Chain(coins) && amount > 0
    requires SubCollection(sub, coins) && Total(sub) == amount
    ensures |Greedy(coins, amount).coins| <= |sub|
  {
    var mask := MaskOf(coins, sub);
    GreedyBeatsMask(coins, mask);
  }

  // ---------- independence of the sort ----------

  predicate Descending(a: seq<nat>) {
    forall i, j :: 0 <= i < j < |a| ==> a[i] >= a[j]
  }

  lemma TailMultiset(a: seq<nat>)
    requires a != []
    ensures multiset(a[1..]) == multiset(a) - multiset{a[0]}
  {
    assert a == [a[0]] + a[1..];
  }

  lemma SameHead(a: seq<nat>, b: seq<nat>)
    requires a != [] && b != [] && multiset(a) == multiset(b) && Descending(a) && Descending(b)
    ensures a[0] == b[0]
  {
    assert a[0] in multiset(b) && b[0] in multiset(a);
  }

  lemma {:induction false} SortedUnique(a: seq<nat>, b: seq<nat>)
    requires multiset(a) == multiset(b) && Descending(a) && Descending(b)
    ensures a == b
    decreases |a|
  {
    assert |multiset(a)| == |a| && |multiset(b)| == |b|;
    if a == [] {
    } else {
      SameHead(a, b);
      TailMultiset(a);
      TailMultiset(b);
      SortedUnique(a[1..], b[1..]);
      assert a == [a[0]] + a[1..] && b == [b[0]] + b[1..];
    }
  }

  function Without<T>(s: seq<T>, k: nat): seq<T>
    requires k < |s|
  {
    s[..k] + s[k + 1..]
  }

  lemma MultisetWithout<T>(s: seq<T>, k: nat)
    requires k < |s|
    ensures multiset(s) == multiset{s[k]} + multiset(Without(s, k))
    ensures multiset(Without(s, k)) == multiset(s) - multiset{s[k]}
  {
    assert s == s[..k] + [s[k]] + s[k + 1..];
  }

  lemma DenomsWithout(s: seq<Coin>, k: nat)
    requires k < |s|
    ensures multiset(Denoms(s)) == multiset{s[k].id.denom} + multiset(Denoms(Without(s, k)))
  {
    assert Denoms(Without(s, k)) == Without(Denoms(s), k);
    MultisetWithout(Denoms(s), k);
  }

  lemma {:induction false} DenomsMultiset(a: seq<Coin>, b: seq<Coin>)
    requires multiset(a) == multiset(b)
    ensures multiset(Denoms(a)) == multiset(Denoms(b))
    decreases |a|
  {
    assert |multiset(a)| == |a| && |multiset(b)| == |b|;
    if a == [] {
    } else {
      assert a[0] in multiset(b);
      var k :| 0 <= k < |b| && b[k] == a[0];
      MultisetWithout(a, 0);
      MultisetWithout(b, k);
      DenomsMultiset(Without(a, 0), Without(b, k));
      DenomsWithout(a, 0);
      DenomsWithout(b, k);
    }
  }

  lemma {:induction false} GreedyByDenoms(a: seq<Coin>, b: seq<Coin>, amount: nat)
    requires Denoms(a) == Denoms(b)
    ensures Denoms(Greedy(a, amount).coins) == Denoms(Greedy(b, amount).coins)
    ensures Greedy(a, amount).left == Greedy(b, amount).left
  {
    assert |a| == |b|;
    if a == [] {
    } else {
      assert Denoms(a)[0] == Denoms(b)[0];
      assert Denoms(a)[1..] == Denoms(a[1..]) && Denoms(b)[1..] == Denoms(b[1..]);
      var d := a[0].id.denom;
      if d > amount {
        GreedyByDenoms(a[1..], b[1..], amount);
      } else if d < amount {
        GreedyByDenoms(a[1..], b[1..], amount - d);
        DenomsHead(a[0], Greedy(a[1..], amount - d).coins);
        DenomsHead(b[0], Greedy(b[1..], amount - d).coins);
      }
    }
  }

  lemma DenomsHead(h: Coin, t: seq<Coin>)
    ensures Denoms([h] + t) == [h.id.denom] + Denoms(t)
  {
  }

  /** However the unstable sort orders ties, the same denominations are selected. */
  lemma SelectionIndependentOfSort(coins: seq<Coin>, s: seq<Coin>, t: seq<Coin>, amount: nat)
    requires Sorting(s, coins) && Sorting(t, coins)
    ensures Denoms(Greedy(s, amount).coins) == Denoms(Greedy(t, amount).coins)
    ensures Greedy(s, amount).left == Greedy(t, amount).left
  {
    DenomsMultiset(s, t);
    SortedUnique(Denoms(s), Denoms(t));
    GreedyByDenoms(s, t, amount);
  }

  // ---------- chains are necessary ----------

  predicate DrawnFrom(coins: seq<Coin>, denominations: set<nat>) {
    forall c :: c in coins ==> c.id.denom in denominations
  }

  /** Greedy pays every payable amount out of every supply in these denominations. */
  ghost predicate CompleteFor(denominations: set<nat>) {
    forall coins: seq<Coin>, amount: nat ::
      LargestFirst(coins) && DrawnFrom(coins, denominations) && CanPay(coins, amount)
      ==> Greedy(coins, amount).left == 0
  }

  predicate ChainSet(denominations: set<nat>) {
    forall a, b :: a in denominations && b in denominations ==> Comparable(a, b)
  }

  function Copies(c: Coin, n: nat): (cs: seq<Coin>)
    ensures |cs| == n && forall i :: 0 <= i < n ==> cs[i] == c
  {
    if n == 0 then [] else [c] + Copies(c, n - 1)
  }

  lemma {:induction false} CopiesTotal(c: Coin, n: nat)
    ensures Total(Copies(c, n)) == n * c.id.denom
  {
    if n == 0 {
    } else {
      CopiesTotal(c, n - 1);
      assert Copies(c, n)[1..] == Copies(c, n - 1);
    }
  }

  lemma {:induction false} NothingFits(coins: seq<Coin>, amount: nat)
    requires forall c :: c in coins ==> c.id.denom > amount
    ensures Greedy(coins, amount) == Selection([], amount)
  {
    if coins == [] {
    } else {
      assert coins[0] in coins;
      NothingFits(coins[1..], amount);
    }
  }

  lemma CopiesPay(big: Coin, small: Coin, n: nat)
    ensures CanPay([big] + Copies(small, n), n * small.id.denom)
  {
    CopiesTotal(small, n);
    assert SubCollection(Copies(small, n), [big] + Copies(small, n));
  }

  lemma NextMultiple(a: nat, b: nat)
    requires 0 < b && a % b != 0
    ensures a < (a / b + 1) * b < a + b
  {
    assert a == b * (a / b) + a % b;
    assert (a / b + 1) * b == b * (a / b) + b;
  }

  /** One large coin and enough small ones to just overshoot it: greedy is left with a remainder. */
  lemma OvershootDefeatsGreedy(big: Coin, small: Coin, n: nat, amount: nat)
    requires big.id.denom < amount < big.id.denom + small.id.denom && small.id.denom < big.id.denom
    ensures LargestFirst([big] + Copies(small, n)) && Greedy([big] + Copies(small, n), amount).left > 0
  {
    var coins := [big] + Copies(small, n);
    assert coins[1..] == Copies(small, n);
    NothingFits(coins[1..], amount - big.id.denom);
  }

  /** Two denominations neither of which divides the other are a counterexample. */
  lemma IncomparableDefeats(denominations: set<nat>, hi: nat, lo: nat)
    requires hi in denominations && lo in denominations && 0 < lo < hi && hi % lo != 0
    ensures !CompleteFor(denominations)
  {
    var big, small := Coin(CoinId(0, hi, []), []), Coin(CoinId(0, lo, []), []);
    var coins, amount := [big] + Copies(small, hi / lo + 1), (hi / lo + 1) * lo;
    NextMultiple(hi, lo);
    CopiesPay(big, small, hi / lo + 1);
    OvershootDefeatsGreedy(big, small, hi / lo + 1, amount);
    assert DrawnFrom(coins, denominations);
    assert Greedy(coins, amount).left != 0;
  }

  lemma ChainIsComplete(denominations: set<nat>)
    requires ChainSet(denominations)
    ensures CompleteFor(denominations)
  {
    forall coins: seq<Coin>, amount: nat |
      LargestFirst(coins) && DrawnFrom(coins, denominations) && CanPay(coins, amount)
      ensures Greedy(coins, amount).left == 0
    {
      GreedyComplete(coins, amount);
    }
  }

  /**
   Greedy exact selection is complete for every supply of coins in a set of positive
   denominations if and only if the set is a divisibility chain.
   */
  lemma CompleteExactlyForChains(denominations: set<nat>)
    requires 0 !in denominations
    ensures CompleteFor(denominations) <==> ChainSet(denominations)
  {
    if ChainSet(denominations) {
      ChainIsComplete(denominations);
    } else {
      var a, b :| a in denominations && b in denominations && !Comparable(a, b);
      if a == b {
        MultipleMod(a, 1);
      } else if a > b {
        IncomparableDefeats(denominations, a, b);
      } else {
        IncomparableDefeats(denominations, b, a);
      }
    }
  }

  // ---------- the loop ----------

  function Prefixed(prefix: seq<Coin>, rest: Selection): Selection {
    Selection(prefix + rest.coins, rest.left)
  }

  /** Taking the head moves it from the selection to come into the selection made so far. */
  lemma PrefixedStep(prefix: seq<Coin>, coins: seq<Coin>, amount: nat)
    requires coins != [] && coins[0].id.denom <= amount
    ensures Prefixed(prefix, Greedy(coins, amount)) ==
            if coins[0].id.denom == amount then Selection(prefix + [coins[0]], 0)
            else Prefixed(prefix + [coins[0]], Greedy(coins[1..], amount - coins[0].id.denom))
  {
    if coins[0].id.denom < amount {
      var rest := Greedy(coins[1..], amount - coins[0].id.denom).coins;
      assert prefix + ([coins[0]] + rest) == prefix + [coins[0]] + rest;
    }
  }

  /** The library sort: any descending arrangement; ties come out in no promised order. */
  method SortUnstable(coins: seq<Coin>) returns (sorted: seq<Coin>)
    ensures Sorting(sorted, coins)
  {
    sorted := [];
    for i := 0 to |coins|
      invariant Sorting(sorted, coins[..i])
    {
      sorted := InsertSorted(sorted, coins[i]);
      assert coins[..i + 1] == coins[..i] + [coins[i]];
    }
    assert coins[..|coins|] == coins;
  }

  lemma InsertedMultiset(s: seq<Coin>, c: Coin, k: nat)
    requires k <= |s|
    ensures multiset(s[..k] + [c] + s[k..]) == multiset(s + [c])
  {
    assert s == s[..k] + s[k..];
  }

  method InsertSorted(sorted: seq<Coin>, coin: Coin) returns (longer: seq<Coin>)
    requires LargestFirst(sorted)
    ensures Sorting(longer, sorted + [coin])
  {
    var k := 0;
    while k < |sorted| && sorted[k].id.denom > coin.id.denom
      invariant 0 <= k <= |sorted|
      invariant forall j :: 0 <= j < k ==> sorted[j].id.denom > coin.id.denom
    {
      k := k + 1;
    }
    longer := sorted[..k] + [coin] + sorted[k..];
    InsertedMultiset(sorted, coin, k);
  }

  method SelectExact(coins: seq<Coin>, amount: nat) returns (r: Option<seq<Coin>>)
    ensures r.Some? ==> SubCollection(r.value, coins) && Total(r.value) == amount && LargestFirst(r.value)
    ensures Chain(coins) ==> (r.Some? <==> CanPay(coins, amount))
    ensures Chain(coins) && amount > 0 && r.Some? ==>
              forall sub: seq<Coin> :: SubCollection(sub, coins) && Total(sub) == amount ==> |r.value| <= |sub|
    ensures forall s: seq<Coin> :: Sorting(s, coins) ==>
              (r.Some? <==> Greedy(s, amount).left == 0) && (r.Some? ==> Denoms(r.value) == Denoms(Greedy(s, amount).coins))
  {
    var sorted := SortUnstable(coins);
    var remaining: nat := amount;
    var selected: seq<Coin> := [];
    ghost var goal := Greedy(sorted, amount);
    assert sorted[0..] == sorted && Prefixed([], goal) == goal;
    for i := 0 to |sorted|
      invariant goal == Prefixed(selected, Greedy(sorted[i..], remaining))
      invariant i == |sorted| ==> goal == Selection(selected, remaining)
    {
      var coin := sorted[i];
      assert sorted[i..][0] == coin && sorted[i..][1..] == sorted[i + 1..];
      if coin.id.denom <= remaining {
        PrefixedStep(selected, sorted[i..], remaining);
        remaining := remaining - coin.id.denom;
        selected := selected + [coin];
        if remaining == 0 {
          assert goal == Selection(selected, 0);
          break;
        }
      }
      assert i + 1 == |sorted| ==> sorted[i + 1..] == [];
    }
    r := if remaining == 0 then Some(selected) else None;
    SelectionMeansGreedy(coins, sorted, amount, r);
  }

  /** Everything the loop's result promises, once it is known to be the greedy selection. */
  lemma SelectionMeansGreedy(coins: seq<Coin>, sorted: seq<Coin>, amount: nat, r: Option<seq<Coin>>)
    requires Sorting(sorted, coins)
    requires r == if Greedy(sorted, amount).left == 0 then Some(Greedy(sorted, amount).coins) else None
    ensures r.Some? ==> SubCollection(r.value, coins) && Total(r.value) == amount && LargestFirst(r.value)
    ensures Chain(coins) ==> (r.Some? <==> CanPay(coins, amount))
    ensures Chain(coins) && amount > 0 && r.Some? ==>
              forall sub: seq<Coin> :: SubCollection(sub, coins) && Total(sub) == amount ==> |r.value| <= |sub|
    ensures forall s: seq<Coin> :: Sorting(s, coins) ==>
              (r.Some? <==> Greedy(s, amount).left == 0) && (r.Some? ==> Denoms(r.value) == Denoms(Greedy(s, amount).coins))
  {
    GreedySelects(sorted, amount);
    GreedyTotal(sorted, amount);
    GreedyKeepsOrder(sorted, amount);
    if Chain(coins) {
      assert forall c :: c in sorted ==> c in multiset(coins);
      assert Chain(sorted);
      GreedyComplete(sorted, amount);
      assert forall sub: seq<Coin> :: SubCollection(sub, coins) <==> SubCollection(sub, sorted);
      forall sub: seq<Coin> | SubCollection(sub, coins) && Total(sub) == amount && amount > 0
        ensures |Greedy(sorted, amount).coins| <= |sub|
      {
        GreedyFewest(sorted, amount, sub);
      }
    }
    forall s: seq<Coin> | Sorting(s, coins)
      ensures Denoms(Greedy(sorted, amount).coins) == Denoms(Greedy(s, amount).coins)
      ensures Greedy(sorted, amount).left == Greedy(s, amount).left
    {
      SelectionIndependentOfSort(coins, sorted, s, amount);
    }
  }
}
