/** Sums of an integer-valued function over a finite set. */
module Sums {

  ghost function Sum<T(!new)>(s: set<T>, f: T -> int): int
    decreases |s|
  {
    if s == {} then 0
    else
      var x :| x in s;
      f(x) + Sum(s - {x}, f)
  }

  /** Any element may be taken out first. */
  lemma {:induction false} SumPick<T(!new)>(s: set<T>, f: T -> int, x: T)
    requires x in s
    ensures Sum(s, f) == f(x) + Sum(s - {x}, f)
    decreases |s|
  {
    var y :| y in s && Sum(s, f) == f(y) + Sum(s - {y}, f);
    if y != x {
      SumPick(s - {y}, f, x);
      SumPick(s - {x}, f, y);
      assert s - {x} - {y} == s - {y} - {x};
    }
  }

  lemma SumInsert<T(!new)>(s: set<T>, f: T -> int, x: T)
    requires x !in s
    ensures Sum(s + {x}, f) == Sum(s, f) + f(x)
  {
    SumPick(s + {x}, f, x);
    assert s + {x} - {x} == s;
  }

  lemma {:induction false} SumCong<T(!new)>(s: set<T>, f: T -> int, g: T -> int)
    requires forall x :: x in s ==> f(x) == g(x)
    ensures Sum(s, f) == Sum(s, g)
    decreases |s|
  {
    if s == {} {
    } else {
      var x :| x in s;
      SumPick(s, f, x);
      SumPick(s, g, x);
      SumCong(s - {x}, f, g);
    }
  }

  /** Changing the function at one element changes the sum by that difference. */
  lemma SumChange<T(!new)>(s: set<T>, f: T -> int, g: T -> int, x: T)
    requires x in s
    requires forall y :: y in s && y != x ==> f(y) == g(y)
    ensures Sum(s, g) == Sum(s, f) - f(x) + g(x)
  {
    SumPick(s, f, x);
    SumPick(s, g, x);
    SumCong(s - {x}, f, g);
  }

  lemma {:induction false} SumAdd<T(!new)>(s: set<T>, f: T -> int, g: T -> int, h: T -> int)
    requires forall x :: x in s ==> h(x) == f(x) + g(x)
    ensures Sum(s, h) == Sum(s, f) + Sum(s, g)
    decreases |s|
  {
    if s == {} {
    } else {
      var x :| x in s;
      SumPick(s, f, x);
      SumPick(s, g, x);
      SumPick(s, h, x);
      SumAdd(s - {x}, f, g, h);
    }
  }

  /** A sum of non-negative terms is non-negative, and zero only if every term is. */
  lemma {:induction false} SumNonNegative<T(!new)>(s: set<T>, f: T -> int)
    requires forall x :: x in s ==> 0 <= f(x)
    ensures 0 <= Sum(s, f)
    ensures Sum(s, f) == 0 <==> forall x :: x in s ==> f(x) == 0
    decreases |s|
  {
    if s == {} {
    } else {
      var x :| x in s;
      SumPick(s, f, x);
      SumNonNegative(s - {x}, f);
      if Sum(s, f) == 0 {
        forall y | y in s ensures f(y) == 0 {
          if y != x {
            assert y in s - {x};
          }
        }
      }
    }
  }

  /** Elements whose term is zero do not matter. */
  lemma {:induction false} SumExtend<T(!new)>(s: set<T>, t: set<T>, f: T -> int)
    requires s <= t && forall x :: x in t && x !in s ==> f(x) == 0
    ensures Sum(s, f) == Sum(t, f)
    decreases |t|
  {
    if t == s {
    } else {
      var x :| x in t && x !in s;
      SumPick(t, f, x);
      SumExtend(s, t - {x}, f);
    }
  }

  /** An injection into `t` that respects the terms bounds the sum over `s` by the sum over `t`. */
  lemma {:induction false} SumInjection<S(!new), T(!new)>(
    s: set<S>, t: set<T>, f: S -> int, g: T -> int, into: S -> T)
    requires forall x :: x in s ==> into(x) in t && f(x) <= g(into(x))
    requires forall x, y :: x in s && y in s && into(x) == into(y) ==> x == y
    requires forall y :: y in t ==> 0 <= g(y)
    ensures Sum(s, f) <= Sum(t, g)
    decreases |s|
  {
    if s == {} {
      SumNonNegative(t, g);
    } else {
      var x :| x in s;
      SumPick(s, f, x);
      SumPick(t, g, into(x));
      SumInjection(s - {x}, t - {into(x)}, f, g, into);
    }
  }

  /** A sum may be taken over the image of a one-to-one map instead. */
  lemma {:induction false} SumImage<S(!new), T(!new)>(
    s: set<S>, t: set<T>, f: S -> int, g: T -> int, to: S -> T)
    requires forall x :: x in s ==> to(x) in t && f(x) == g(to(x))
    requires forall x, y :: x in s && y in s && to(x) == to(y) ==> x == y
    requires forall y :: y in t ==> exists x :: x in s && to(x) == y
    ensures Sum(s, f) == Sum(t, g)
    decreases |s|
  {
    if s == {} {
      assert t == {};
    } else {
      var x :| x in s;
      SumPick(s, f, x);
      SumPick(t, g, to(x));
      SumImage(s - {x}, t - {to(x)}, f, g, to);
    }
  }

  lemma {:induction false} SumDisjoint<T(!new)>(s: set<T>, t: set<T>, f: T -> int)
    requires s !! t
    ensures Sum(s + t, f) == Sum(s, f) + Sum(t, f)
    decreases |s|
  {
    if s == {} {
      assert s + t == t;
    } else {
      var x :| x in s;
      SumPick(s, f, x);
      SumPick(s + t, f, x);
      assert s + t - {x} == (s - {x}) + t;
      SumDisjoint(s - {x}, t, f);
    }
  }
}
