/** The wallet's coin store and the spend operation over it. */
module WalletStore {
  import opened Common
  import opened Sums
  import opened CoinSelection

  datatype SpendError = InsufficientCoins(requested: nat, held: int) | Io | Database

  /** What the disk does: a removal may fail outright, or succeed and then fail to flush. */
  datatype Disk = Works | WriteFails | RemoveFails(at: nat) | FlushFails(at: nat)

  ghost function Worth(coins: map<Bytes, Coin>): Bytes -> int {
    s => if s in coins then coins[s].id.denom else 0
  }

  /** The value of everything in the store. */
  ghost function StoreValue(coins: map<Bytes, Coin>): int {
    Sum(coins.Keys, Worth(coins))
  }

  /** Coins are filed under their serial. */
  ghost predicate Filed(coins: map<Bytes, Coin>) {
    forall s :: s in coins ==> coins[s].id.serial == s
  }

  /** Some set of stored coins is worth exactly `amount`. */
  ghost predicate Payable(coins: map<Bytes, Coin>, amount: nat) {
    exists serials: set<Bytes> :: serials <= coins.Keys && Sum(serials, Worth(coins)) == amount
  }

  ghost predicate ChainStore(coins: map<Bytes, Coin>) {
    forall s, t :: s in coins && t in coins ==> Comparable(coins[s].id.denom, coins[t].id.denom)
  }

  /** `held` lists distinct coins of the store. */
  ghost predicate Lists(held: seq<Coin>, coins: map<Bytes, Coin>) {
    && (forall i :: 0 <= i < |held| ==> held[i].id.serial in coins && coins[held[i].id.serial] == held[i])
    && (forall i, j :: 0 <= i < j < |held| ==> held[i].id.serial != held[j].id.serial)
  }

  /** `fold(0u64, u64::saturating_add)` over the denominations. */
  function SaturatingTotal(coins: seq<Coin>): nat {
    if coins == [] then 0
    else SaturatingAdd(SaturatingTotal(coins[..|coins| - 1]), coins[|coins| - 1].id.denom)
  }

  lemma {:induction false} SaturatingTotalIs(coins: seq<Coin>)
    ensures SaturatingTotal(coins) == Capped(Total(coins))
  {
    if coins == [] {
    } else {
      var n := |coins| - 1;
      SaturatingTotalIs(coins[..n]);
      assert coins == coins[..n] + [coins[n]] && [coins[n]][1..] == [];
      TotalSplit(coins[..n], [coins[n]]);
    }
  }

  lemma TotalSnoc(coins: seq<Coin>, c: Coin)
    ensures Total(coins + [c]) == Total(coins) + c.id.denom
  {
    TotalSplit(coins, [c]);
    assert [c][1..] == [];
  }

  /** A multiset of distinct coins holds each at most once. */
  lemma {:induction false} AtMostOnce(held: seq<Coin>, coins: map<Bytes, Coin>, c: Coin)
    requires Lists(held, coins)
    ensures multiset(held)[c] <= 1
    ensures multiset(held)[c] == 1 <==> c in held
  {
    if held == [] {
    } else {
      var n := |held| - 1;
      assert held == held[..n] + [held[n]];
      AtMostOnce(held[..n], coins, c);
    }
  }

  lemma TwiceCounted(s: seq<Coin>, i: nat, j: nat)
    requires i < j < |s| && s[i] == s[j]
    ensures multiset(s)[s[i]] >= 2
  {
    assert s == s[..j] + [s[j]] + s[j + 1..];
    assert s[i] in s[..j];
  }

  /** What is selected from a listing is itself a listing. */
  lemma SelectionLists(sub: seq<Coin>, held: seq<Coin>, coins: map<Bytes, Coin>)
    requires Lists(held, coins) && SubCollection(sub, held)
    ensures Lists(sub, coins)
  {
    forall i | 0 <= i < |sub| ensures sub[i].id.serial in coins && coins[sub[i].id.serial] == sub[i] {
      assert sub[i] in multiset(held);
    }
    forall i, j | 0 <= i < j < |sub| ensures sub[i].id.serial != sub[j].id.serial {
      if sub[i].id.serial == sub[j].id.serial {
        TwiceCounted(sub, i, j);
        AtMostOnce(held, coins, sub[i]);
      }
    }
  }

  lemma ListsSnoc(held: seq<Coin>, coins: map<Bytes, Coin>, s: Bytes)
    requires Lists(held, coins) && Filed(coins) && s in coins
    requires forall c :: c in held ==> c.id.serial != s
    ensures Lists(held + [coins[s]], coins)
    ensures Total(held + [coins[s]]) == Total(held) + coins[s].id.denom
  {
    TotalSnoc(held, coins[s]);
    var longer := held + [coins[s]];
    forall i, j | 0 <= i < j < |longer| ensures longer[i].id.serial != longer[j].id.serial {
      assert held[i] in held;
    }
  }

  /** A listing whose coins all occur in another listing is a sub-collection of it. */
  lemma ListsSub(sub: seq<Coin>, held: seq<Coin>, coins: map<Bytes, Coin>)
    requires Lists(sub, coins) && Lists(held, coins)
    requires forall c :: c in sub ==> c in held
    ensures SubCollection(sub, held)
  {
    forall c | c in multiset(sub) ensures multiset(sub)[c] <= multiset(held)[c] {
      AtMostOnce(held, coins, c);
      AtMostOnce(sub, coins, c);
    }
  }

  /** Conversely a set of stored serials is listed by some coins of the same value. */
  lemma {:induction false} SerialsToCoins(serials: set<Bytes>, coins: map<Bytes, Coin>) returns (sub: seq<Coin>)
    requires serials <= coins.Keys && Filed(coins)
    ensures Lists(sub, coins) && Total(sub) == Sum(serials, Worth(coins))
    ensures forall c :: c in sub ==> c.id.serial in serials
    decreases |serials|
  {
    if serials == {} {
      sub := [];
    } else {
      var s :| s in serials;
      SumPick(serials, Worth(coins), s);
      sub := SerialsToCoins(serials - {s}, coins);
      ListsSnoc(sub, coins, s);
      sub := sub + [coins[s]];
    }
  }

  function Serials(coins: seq<Coin>): set<Bytes> {
    set c | c in coins :: c.id.serial
  }

  /** The next coin of a bundle is still in the store, and removing it removes its serial. */
  lemma RemoveNext(coins: map<Bytes, Coin>, bundle: seq<Coin>, i: nat)
    requires Lists(bundle, coins) && i < |bundle|
    ensures bundle[i].id.serial in coins - Serials(bundle[..i])
    ensures coins - Serials(bundle[..i]) - {bundle[i].id.serial} == coins - Serials(bundle[..i + 1])
  {
    assert bundle[..i + 1] == bundle[..i] + [bundle[i]];
    assert Serials(bundle[..i + 1]) == Serials(bundle[..i]) + {bundle[i].id.serial};
  }

  class Wallet {
    var coins: map<Bytes, Coin>

    ghost predicate Valid()
      reads this
    {
      Filed(coins)
    }

    method ListCoins() returns (held: seq<Coin>)
      requires Valid()
      ensures Lists(held, coins) && Total(held) == StoreValue(coins)
      ensures forall s :: s in coins ==> coins[s] in held
    {
      held := [];
      var rest := coins.Keys;
      while rest != {}
        invariant rest <= coins.Keys
        invariant Lists(held, coins)
        invariant forall c :: c in held ==> c.id.serial !in rest
        invariant forall s :: s in coins && s !in rest ==> coins[s] in held
        invariant Total(held) + Sum(rest, Worth(coins)) == StoreValue(coins)
        decreases |rest|
      {
        var s :| s in rest;
        SumPick(rest, Worth(coins), s);
        ListsSnoc(held, coins, s);
        held := held + [coins[s]];
        rest := rest - {s};
      }
    }

    /** List the store and select from it: a bundle worth the amount, or the error that reports what is held. */
    method SelectBundle(amount: nat) returns (r: Result<seq<Coin>, SpendError>)
      requires Valid()
      ensures r.Ok? ==> Lists(r.value, coins) && Total(r.value) == amount && Payable(coins, amount)
      ensures r.Err? ==> r.error == InsufficientCoins(amount, Capped(StoreValue(coins)))
      ensures r.Err? && ChainStore(coins) ==> !Payable(coins, amount)
    {
      var held := ListCoins();
      SaturatingTotalIs(held);
      var heldTotal := SaturatingTotal(held);
      var selection := SelectExact(held, amount);
      if selection.None? {
        NotPayable(held, coins, amount);
        return Err(InsufficientCoins(amount, heldTotal));
      }
      SelectionLists(selection.value, held, coins);
      ListsPayable(selection.value, coins);
      return Ok(selection.value);
    }

    /**
     Pay exactly `amount` out of the store.  The bundle is written before any coin is removed, so
     whatever fails no coin is lost; a failing removal leaves the coins from there on in both places.
     */
    method Spend(amount: nat, disk: Disk)
      returns (r: Result<seq<Coin>, SpendError>, written: Option<seq<Coin>>, removed: nat)
      requires Valid()
      modifies this
      ensures Valid()
      ensures r.Ok? ==>
                && written == Some(r.value) && removed == |r.value|
                && coins == old(coins) - Serials(r.value)
                && StoreValue(coins) + amount == StoreValue(old(coins))
      ensures written.Some? ==>
                && Total(written.value) == amount
                && Removed(old(coins), coins, written.value, removed)
                && r == (if Faulty(disk, |written.value|) then Err(Database) else Ok(written.value))
      ensures written.None? ==>
                && coins == old(coins)
                && (r == Err(Io) || r == Err(InsufficientCoins(amount, Capped(StoreValue(coins)))))
      ensures r == Err(Io) ==> disk == WriteFails && Payable(coins, amount)
      ensures !Payable(old(coins), amount) ==> r.Err? && r.error.InsufficientCoins?
      ensures ChainStore(old(coins)) && Payable(old(coins), amount) ==> (written.None? <==> disk == WriteFails)
    {
      written, removed := None, 0;
      r := SelectBundle(amount);
      if r.Err? {
        return;
      }
      var bundle := r.value;
      if disk == WriteFails {
        r := Err(Io);
        return;
      }
      written := Some(bundle);
      var ok;
      ok, removed := RemoveAll(bundle, disk);
      if !ok {
        r := Err(Database);
      }
      assert bundle[..|bundle|] == bundle;
    }

    /** Remove each coin of the bundle in turn, up to the first failure. */
    method RemoveAll(bundle: seq<Coin>, disk: Disk) returns (ok: bool, removed: nat)
      requires Valid() && Lists(bundle, coins)
      modifies this
      ensures Valid()
      ensures Removed(old(coins), coins, bundle, removed)
      ensures ok <==> !Faulty(disk, |bundle|)
      ensures removed == if ok then |bundle| else disk.at + if disk.FlushFails? then 1 else 0
    {
      ok, removed := true, 0;
      assert bundle[..0] == [];
      while ok && removed < |bundle|
        invariant removed <= |bundle|
        invariant coins == old(coins) - Serials(bundle[..removed])
        invariant Faulty(disk, |bundle|) && ok ==> removed <= disk.at
        invariant !ok ==> Faulty(disk, |bundle|) && removed == disk.at + if disk.FlushFails? then 1 else 0
        decreases ok, |bundle| - removed
      {
        ok := disk != RemoveFails(removed);
        if ok {
          RemoveNext(old(coins), bundle, removed);
          coins := coins - {bundle[removed].id.serial};
          ok := disk != FlushFails(removed);
          removed := removed + 1;
        }
      }
      RemovalValue(old(coins), bundle, removed);
      NothingLost(old(coins), bundle, removed);
    }
  }

  /** A `u64` that saturates. */
  function Capped(n: int): int {
    if n > U64_MAX then U64_MAX else n
  }

  /**
   The first `k` coins of the bundle, all distinct coins of the store, have left it and taken their
   value with them; everything the store held is still in it or in the bundle.
   */
  ghost predicate Removed(before: map<Bytes, Coin>, after: map<Bytes, Coin>, bundle: seq<Coin>, k: nat) {
    && Lists(bundle, before)
    && k <= |bundle|
    && after == before - Serials(bundle[..k])
    && StoreValue(after) + Total(bundle[..k]) == StoreValue(before)
    && forall s :: s in before ==> s in after || before[s] in bundle
  }

  lemma RemovalValue(coins: map<Bytes, Coin>, bundle: seq<Coin>, k: nat)
    requires Lists(bundle, coins) && k <= |bundle|
    ensures StoreValue(coins - Serials(bundle[..k])) + Total(bundle[..k]) == StoreValue(coins)
  {
    var gone := Serials(bundle[..k]);
    ListsPayable(bundle[..k], coins);
    var left := coins - gone;
    assert left.Keys !! gone && left.Keys + gone == coins.Keys;
    SumDisjoint(left.Keys, gone, Worth(coins));
    SumCong(left.Keys, Worth(coins), Worth(left));
  }

  /** Some removal of a bundle of `n` coins fails. */
  predicate Faulty(disk: Disk, n: nat) {
    (disk.RemoveFails? || disk.FlushFails?) && disk.at < n
  }

  /** Whatever was removed from the store is in the bundle. */
  lemma NothingLost(coins: map<Bytes, Coin>, bundle: seq<Coin>, removed: nat)
    requires Lists(bundle, coins) && removed <= |bundle|
    ensures forall s :: s in coins ==> s in coins - Serials(bundle[..removed]) || coins[s] in bundle
  {
    forall s | s in coins && s in Serials(bundle[..removed]) ensures coins[s] in bundle {
      var i :| 0 <= i < removed && bundle[i].id.serial == s;
      assert bundle[i] in bundle;
    }
  }

  /** A listing of stored coins pays its total. */
  lemma {:induction false} ListsPayable(bundle: seq<Coin>, coins: map<Bytes, Coin>)
    requires Lists(bundle, coins)
    ensures Serials(bundle) <= coins.Keys && Sum(Serials(bundle), Worth(coins)) == Total(bundle)
    ensures Payable(coins, Total(bundle))
  {
    if bundle == [] {
    } else {
      var n := |bundle| - 1;
      assert bundle == bundle[..n] + [bundle[n]];
      ListsPayable(bundle[..n], coins);
      TotalSnoc(bundle[..n], bundle[n]);
      assert Serials(bundle) == Serials(bundle[..n]) + {bundle[n].id.serial};
      SumInsert(Serials(bundle[..n]), Worth(coins), bundle[n].id.serial);
    }
  }

  lemma NotPayable(held: seq<Coin>, coins: map<Bytes, Coin>, amount: nat)
    requires Filed(coins) && Lists(held, coins) && forall s :: s in coins ==> coins[s] in held
    requires Chain(held) ==> !CanPay(held, amount)
    ensures ChainStore(coins) ==> !Payable(coins, amount)
  {
    if ChainStore(coins) && Payable(coins, amount) {
      var serials :| serials <= coins.Keys && Sum(serials, Worth(coins)) == amount;
      var sub := SerialsToCoins(serials, coins);
      ListsSub(sub, held, coins);
    }
  }
}
