/** Small shared vocabulary: an optional value (JavaScript's `null` /
    `undefined` on the paths the application cares about) and integer
    minimum and maximum as `Math.min` / `Math.max` compute them. */
module Common {

  datatype Option<+T> = None | Some(value: T)

  function Min(a: int, b: int): int {
    if a <= b then a else b
  }

  function Max(a: int, b: int): int {
    if a >= b then a else b
  }

  /** A value `Math.random()` may return. */
  predicate IsDraw(r: real) {
    0.0 <= r < 1.0
  }

  /** `Math.floor(r * n)`: the index a draw picks out of `n` slots. */
  function RandomIndex(r: real, n: nat): (i: nat)
    requires IsDraw(r)
    ensures n > 0 ==> i < n
    ensures n == 0 ==> i == 0
  {
    RandomIndexBelow(r, n);
    (r * n as real).Floor
  }

  lemma RandomIndexBelow(r: real, n: nat)
    requires IsDraw(r)
    ensures 0 <= (r * n as real).Floor
    ensures n > 0 ==> (r * n as real).Floor < n
    ensures n == 0 ==> (r * n as real).Floor == 0
  {
    assert 0.0 <= r * n as real <= n as real;
    if n > 0 {
      assert r * n as real < n as real;
    }
  }

  /** Every slot is reachable: the draw `i / n` picks slot `i`. */
  lemma DrawFor(i: nat, n: nat)
    requires i < n
    ensures IsDraw(i as real / n as real)
    ensures RandomIndex(i as real / n as real, n) == i
  {
    var r := i as real / n as real;
    assert r * n as real == i as real;
  }

  /** The first `n` elements of `xs`, or all of them: `Array.prototype.slice(0, n)`. */
  function Take<T>(xs: seq<T>, n: nat): (r: seq<T>)
    ensures |r| == Min(n, |xs|)
    ensures r == xs[..|r|]
  {
    if |xs| <= n then xs else xs[..n]
  }

  /** A non-empty sequence is its head followed by its tail. */
  lemma HeadTail<T>(xs: seq<T>)
    requires xs != []
    ensures xs == [xs[0]] + xs[1..]
  {
  }

  lemma Assoc<T>(a: seq<T>, b: seq<T>, c: seq<T>)
    ensures a + (b + c) == (a + b) + c
  {
  }

  /** Order-preserving filter: `Array.prototype.filter`. */
  function Filter<T>(xs: seq<T>, keep: T -> bool): (r: seq<T>)
    ensures |r| <= |xs|
    ensures forall x :: x in r ==> x in xs && keep(x)
    ensures forall x :: x in xs && keep(x) ==> x in r
    decreases |xs|
  {
    if xs == [] then []
    else (if keep(xs[0]) then [xs[0]] else []) + Filter(xs[1..], keep)
  }

  lemma {:induction false} FilterAppend<T>(a: seq<T>, b: seq<T>, keep: T -> bool)
    ensures Filter(a + b, keep) == Filter(a, keep) + Filter(b, keep)
    decreases |a|
  {
    if a == [] {
      assert a + b == b;
    } else {
      assert (a + b)[1..] == a[1..] + b;
      FilterAppend(a[1..], b, keep);
    }
  }

  /** The first `n` elements a filter keeps are what it keeps of some prefix. */
  lemma {:induction false} FilterPrefix<T>(xs: seq<T>, keep: T -> bool, n: nat)
    requires n <= |Filter(xs, keep)|
    ensures exists k :: 0 <= k <= |xs| && Filter(xs[..k], keep) == Filter(xs, keep)[..n]
    decreases |xs|
  {
    if n == 0 {
      assert Filter(xs[..0], keep) == Filter(xs, keep)[..0];
    } else {
      var rest := xs[1..];
      var m: nat := if keep(xs[0]) then n - 1 else n;
      FilterPrefix(rest, keep, m);
      var j :| 0 <= j <= |rest| && Filter(rest[..j], keep) == Filter(rest, keep)[..m];
      var k := j + 1;
      var h := if keep(xs[0]) then [xs[0]] else [];
      assert xs[..k][0] == xs[0] && xs[..k][1..] == rest[..j];
      assert Filter(xs[..k], keep) == h + Filter(rest[..j], keep);
      assert Filter(xs, keep) == h + Filter(rest, keep);
      TakeAfter(h, Filter(rest, keep), m);
      assert |h| + m == n;
      assert Filter(xs[..k], keep) == Filter(xs, keep)[..n];
    }
  }

  lemma TakeAfter<T>(h: seq<T>, f: seq<T>, m: nat)
    requires m <= |f|
    ensures (h + f)[..|h| + m] == h + f[..m]
  {
  }

  /** Filtering keeps everything when everything passes. */
  lemma {:induction false} FilterAll<T>(xs: seq<T>, keep: T -> bool)
    requires forall x :: x in xs ==> keep(x)
    ensures Filter(xs, keep) == xs
    decreases |xs|
  {
    if xs != [] {
      FilterAll(xs[1..], keep);
      assert xs == [xs[0]] + xs[1..];
    }
  }

  predicate Distinct<T(==)>(xs: seq<T>) {
    forall i, j :: 0 <= i < j < |xs| ==> xs[i] != xs[j]
  }

  lemma {:induction false} FilterDistinct<T>(xs: seq<T>, keep: T -> bool)
    requires Distinct(xs)
    ensures Distinct(Filter(xs, keep))
    decreases |xs|
  {
    if xs != [] {
      FilterDistinct(xs[1..], keep);
      var rest := Filter(xs[1..], keep);
      assert xs[0] !in xs[1..];
      assert xs[0] !in rest;
    }
  }

  /** A sequence without repeats holds each of its elements exactly once. */
  lemma DistinctMultiset<T>(xs: seq<T>)
    ensures Distinct(xs) <==> forall x :: multiset(xs)[x] <= 1
    decreases |xs|
  {
    if xs != [] {
      DistinctMultiset(xs[1..]);
      assert xs == [xs[0]] + xs[1..];
      if Distinct(xs) {
        assert xs[0] !in xs[1..];
      }
      if forall x :: multiset(xs)[x] <= 1 {
        assert forall x :: multiset(xs[1..])[x] <= 1 by {
          forall x ensures multiset(xs[1..])[x] <= 1 {
            assert multiset(xs)[x] == multiset([xs[0]])[x] + multiset(xs[1..])[x];
          }
        }
        assert multiset(xs)[xs[0]] == 1 + multiset(xs[1..])[xs[0]];
        assert xs[0] !in multiset(xs[1..]);
        forall i, j | 0 <= i < j < |xs| ensures xs[i] != xs[j] {
          if i == 0 {
            assert xs[j] in xs[1..];
          } else {
            assert xs[1..][i - 1] == xs[i] && xs[1..][j - 1] == xs[j];
          }
        }
      }
    }
  }
}
