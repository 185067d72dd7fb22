/**
 What several components need.
 */
module Basics {

  datatype Option<+T> = None | Some(value: T)

  const TWO32: nat := 0x1_0000_0000

  /** A sequence with `data` in place of what it had at `at`. */
  function Written<T>(d: seq<T>, at: nat, data: seq<T>): (e: seq<T>)
    requires at + |data| <= |d|
    ensures |e| == |d|
  {
    d[..at] + data + d[at + |data|..]
  }

  lemma WrittenNone<T>(d: seq<T>, at: nat)
    requires at <= |d|
    ensures Written(d, at, []) == d
  {
  }

  lemma WrittenNext<T>(d: seq<T>, at: nat, data: seq<T>, x: T)
    requires at + |data| < |d|
    ensures Written(d, at, data)[at + |data| := x] == Written(d, at, data + [x])
  {
  }

  /** A range outside of the data is as it was. */
  lemma WrittenOutside<T>(d: seq<T>, at: nat, data: seq<T>, lo: nat, hi: nat)
    requires at + |data| <= |d| && lo <= hi <= |d| && (hi <= at || at + |data| <= lo)
    ensures Written(d, at, data)[lo..hi] == d[lo..hi]
  {
    WrittenAt(d, at, data);
    hide Written;
  }

  /** A range inside of the data is from there. */
  lemma WrittenInside<T>(d: seq<T>, at: nat, data: seq<T>, lo: nat, hi: nat)
    requires at + |data| <= |d| && at <= lo <= hi <= at + |data|
    ensures Written(d, at, data)[lo..hi] == data[lo - at..hi - at]
  {
    WrittenAt(d, at, data);
    hide Written;
  }

  lemma WrittenAt<T>(d: seq<T>, at: nat, data: seq<T>)
    requires at + |data| <= |d|
    ensures forall i :: 0 <= i < |d| ==>
              Written(d, at, data)[i] == if at <= i < at + |data| then data[i - at] else d[i]
  {
  }

  predicate Increasing(q: seq<nat>) {
    forall a, b :: 0 <= a < b < |q| ==> q[a] < q[b]
  }

  // ----- division

  lemma ModIs(x: int, m: int, q: int, r: int)
    requires 0 <= r < m && x == q * m + r
    ensures x % m == r && x / m == q
  {
    var d := x / m - q;
    assert x == (x / m) * m + x % m;
    assert d * m == r - x % m by {
      assert d * m == (x / m) * m - q * m;
    }
    Small(d, m);
  }

  lemma Small(d: int, m: int)
    requires m > 0 && -m < d * m < m
    ensures d == 0
  {
  }

  /** Dividing by a product is dividing by its factors. */
  lemma DivTwice(x: nat, m: nat, n: nat)
    requires m > 0 && n > 0
    ensures m * n > 0 && x / (m * n) == x / m / n
    ensures x % (m * n) == m * (x / m % n) + x % m
  {
    var q, r := x / m, x % m;
    var a, s := q / n, q % n;
    Positive(m, n);
    assert x == q * m + r && q == a * n + s;
    assert x == a * (m * n) + (m * s + r) by {
      assert (a * n + s) * m == a * (m * n) + m * s;
    }
    Remainder(m, n, s, r);
    ModIs(x, m * n, a, m * s + r);
  }

  lemma Positive(m: nat, n: nat)
    requires m > 0 && n > 0
    ensures m * n > 0
  {
  }

  lemma Remainder(m: nat, n: nat, s: nat, r: nat)
    requires s < n && r < m
    ensures m * s + r < m * n
  {
    MulMonotone(m, s + 1, n);
    MulNext(m, s);
  }

  lemma MulMonotone(m: nat, a: nat, b: nat)
    requires a <= b
    ensures m * a <= m * b
  {
  }

  lemma MulNext(m: int, a: int)
    ensures m * (a + 1) == m * a + m
  {
  }
}
