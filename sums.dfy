/**
  Finite sums of real-valued maps over a set of keys: the arithmetic behind
  "the values sum to 1" and behind the in-link totals of the iterative
  estimator.
 */
module Sums {

  /** Some element of a non-empty set, fixed once per set so that SumOver is a function. */
  ghost function Pick<K>(s: set<K>): (x: K)
    requires s != {}
    ensures x in s
  {
    var x :| x in s; x
  }

  /** The sum of m[x] over the keys x in s. */
  ghost function SumOver<K>(s: set<K>, m: map<K, real>): real
    requires s <= m.Keys
    decreases s
  {
    if s == {} then 0.0 else var x := Pick(s); m[x] + SumOver(s - {x}, m)
  }

  /** The sum of all values of a map. */
  ghost function Total<K>(m: map<K, real>): real
  {
    SumOver(m.Keys, m)
  }

  /** Any element may be taken out of a sum first: the sum does not depend on the order of the keys. */
  lemma {:induction false} SumOverRemove<K>(s: set<K>, m: map<K, real>, y: K)
    requires s <= m.Keys && y in s
    ensures SumOver(s, m) == m[y] + SumOver(s - {y}, m)
    decreases s
  {
    var x := Pick(s);
    if x != y {
      SumOverRemove(s - {x}, m, y);
      SumOverRemove(s - {y}, m, x);
      assert s - {x} - {y} == s - {y} - {x};
    }
  }

  /** A sum reads only the values on its own keys. */
  lemma {:induction false} SumOverAgree<K>(s: set<K>, m1: map<K, real>, m2: map<K, real>)
    requires s <= m1.Keys && s <= m2.Keys
    requires forall x :: x in s ==> m1[x] == m2[x]
    ensures SumOver(s, m1) == SumOver(s, m2)
    decreases s
  {
    if s != {} {
      SumOverAgree(s - {Pick(s)}, m1, m2);
    }
  }

  /** Summing a constant c over s gives |s| * c. */
  lemma {:induction false} SumOverConst<K>(s: set<K>, m: map<K, real>, c: real)
    requires s <= m.Keys
    requires forall x :: x in s ==> m[x] == c
    ensures SumOver(s, m) == |s| as real * c
    decreases s
  {
    if s != {} {
      var x := Pick(s);
      SumOverConst(s - {x}, m, c);
      assert |s - {x}| == |s| - 1;
    }
  }

  /** Dividing every summand by c divides the sum by c. */
  lemma {:induction false} SumOverScale<K>(s: set<K>, m: map<K, real>, scaled: map<K, real>, c: real)
    requires s <= m.Keys && s <= scaled.Keys && c != 0.0
    requires forall x :: x in s ==> scaled[x] == m[x] / c
    ensures SumOver(s, scaled) == SumOver(s, m) / c
    decreases s
  {
    if s != {} {
      var x := Pick(s);
      SumOverScale(s - {x}, m, scaled, c);
      assert (m[x] + SumOver(s - {x}, m)) / c == m[x] / c + SumOver(s - {x}, m) / c;
    }
  }

  /** Two maps with the same keys and the same value at every key are equal. */
  lemma MapsEqual<K>(a: map<K, real>, b: map<K, real>)
    requires a.Keys == b.Keys && forall x {:trigger a[x]} :: x in a ==> a[x] == b[x]
    ensures a == b
  {
  }

  /** A subset is no larger than the set that contains it. */
  lemma {:induction false} SubsetCard<K>(a: set<K>, b: set<K>)
    requires a <= b
    ensures |a| <= |b|
  {
    if a != {} {
      var x :| x in a;
      SubsetCard(a - {x}, b - {x});
    }
  }
}
