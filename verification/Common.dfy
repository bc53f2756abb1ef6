/** The outcome of an operation that the Go code reports as (value, error). */
module Results {
  datatype Result<+T, +E> = Ok(value: T) | Err(error: E)

  datatype Option<+T> = None | Some(value: T)
}

/** Go's int64: two's-complement wrap-around written out over unbounded integers. */
module Int64 {
  const MIN: int := -0x8000_0000_0000_0000
  const MAX: int := 0x7fff_ffff_ffff_ffff
  const MODULUS: int := 0x1_0000_0000_0000_0000

  type int64 = x: int | MIN <= x <= MAX

  predicate Fits(x: int) {
    MIN <= x <= MAX
  }

  function Wrap(x: int): int64 {
    (x - MIN) % MODULUS + MIN
  }

  /** Wrapping changes a number by a multiple of 2^64, and not at all in range. */
  lemma WrapResidue(x: int)
    ensures (Wrap(x) - x) % MODULUS == 0
    ensures Fits(x) ==> Wrap(x) == x
  {
  }

  /** How many times 2^64 wrapping takes off x. */
  function Laps(x: int): int {
    (x - MIN) / MODULUS
  }

  lemma WrapLaps(x: int)
    ensures Wrap(x) == x - MODULUS * Laps(x)
    ensures Laps(x) == 0 <==> Fits(x)
  {
  }

  /** A sum of two non-negative int64 numbers that overflows turns negative. */
  lemma WrapOverflow(x: int)
    requires MAX < x <= 2 * MAX
    ensures Wrap(x) < 0
  {
  }

  /** Wrap depends on the residue only. */
  lemma SameWrap(x: int, y: int)
    ensures Wrap(x) == Wrap(y) <==> (x - y) % MODULUS == 0
  {
  }

  lemma CongruentSum(x: int, y: int)
    requires x % MODULUS == 0 && y % MODULUS == 0
    ensures (x + y) % MODULUS == 0 && (x - y) % MODULUS == 0
  {
  }

  lemma WrapAdd(x: int, y: int)
    ensures Wrap(Wrap(x) + y) == Wrap(x + y)
  {
  }
}

/** Weighted sums over sequences and finite maps. */
module Sums {
  /** The sum of the weights of the elements of s. */
  function Total<T>(s: seq<T>, w: T -> int): int {
    if |s| == 0 then 0 else Total(s[..|s| - 1], w) + w(s[|s| - 1])
  }

  lemma TotalAppend<T>(s: seq<T>, x: T, w: T -> int)
    ensures Total(s + [x], w) == Total(s, w) + w(x)
  {
  }

  lemma TotalOfTwo<T>(x: T, y: T, w: T -> int)
    ensures Total([x, y], w) == w(x) + w(y)
  {
    TotalAppend([x], y, w);
    TotalAppend([], x, w);
    assert [x, y] == [x] + [y] && [x] == [] + [x];
  }

  lemma {:induction false} TotalConcat<T>(s: seq<T>, t: seq<T>, w: T -> int)
    ensures Total(s + t, w) == Total(s, w) + Total(t, w)
  {
    if |t| == 0 {
      assert s + t == s;
    } else {
      TotalConcat(s, t[..|t| - 1], w);
      assert (s + t)[..|s + t| - 1] == s + t[..|t| - 1];
    }
  }

  lemma TotalHead<T>(s: seq<T>, w: T -> int)
    requires |s| > 0
    ensures Total(s, w) == w(s[0]) + Total(s[1..], w)
  {
    assert s == ([] + [s[0]]) + s[1..];
    TotalConcat([] + [s[0]], s[1..], w);
    TotalAppend([], s[0], w);
  }

  lemma {:induction false} TotalUpdate<T>(s: seq<T>, i: nat, x: T, w: T -> int)
    requires i < |s|
    ensures Total(s[i := x], w) == Total(s, w) - w(s[i]) + w(x)
  {
    var n := |s| - 1;
    if i == n {
      assert s[i := x][..n] == s[..n];
    } else {
      TotalUpdate(s[..n], i, x, w);
      assert s[i := x][..n] == s[..n][i := x];
    }
  }

  /** A weight that is smaller everywhere has the smaller total. */
  lemma {:induction false} TotalMonotone<T>(s: seq<T>, v: T -> int, w: T -> int)
    requires forall i :: 0 <= i < |s| ==> v(s[i]) <= w(s[i])
    ensures Total(s, v) <= Total(s, w)
  {
    if |s| > 0 {
      TotalMonotone(s[..|s| - 1], v, w);
    }
  }

  /** One weight that is the sum of two others. */
  lemma {:induction false} TotalSplit<T>(s: seq<T>, u: T -> int, v: T -> int, w: T -> int)
    requires forall i :: 0 <= i < |s| ==> u(s[i]) == v(s[i]) + w(s[i])
    ensures Total(s, u) == Total(s, v) + Total(s, w)
  {
    if |s| > 0 {
      TotalSplit(s[..|s| - 1], u, v, w);
    }
  }

  /** With non-negative weights no single element outweighs the total. */
  lemma {:induction false} TotalAtLeast<T>(s: seq<T>, i: nat, w: T -> int)
    requires i < |s|
    requires forall k :: 0 <= k < |s| ==> w(s[k]) >= 0
    ensures Total(s, w) >= w(s[i])
    decreases |s|
  {
    var n := |s| - 1;
    if i == n {
      TotalNonNegative(s[..n], w);
    } else {
      TotalAtLeast(s[..n], i, w);
    }
  }

  lemma {:induction false} TotalNonNegative<T>(s: seq<T>, w: T -> int)
    requires forall k :: 0 <= k < |s| ==> w(s[k]) >= 0
    ensures Total(s, w) >= 0
  {
    if |s| > 0 {
      TotalNonNegative(s[..|s| - 1], w);
    }
  }

  lemma {:induction false} TotalPositive<T>(s: seq<T>, w: T -> int) returns (i: nat)
    requires Total(s, w) > 0
    ensures i < |s| && w(s[i]) > 0
  {
    var n := |s| - 1;
    if w(s[n]) > 0 {
      i := n;
    } else {
      i := TotalPositive(s[..n], w);
    }
  }

  lemma {:induction false} TotalConstant<T>(s: seq<T>, c: int, w: T -> int)
    requires forall k :: 0 <= k < |s| ==> w(s[k]) == c
    ensures Total(s, w) == c * |s|
  {
    if |s| > 0 {
      TotalConstant(s[..|s| - 1], c, w);
    }
  }

  /** The sum of the values of a finite map, in whatever order they are visited. */
  ghost function MapTotal<K>(m: map<K, int>): int {
    if m == map[] then 0 else
      var k :| k in m;
      m[k] + MapTotal(m - {k})
  }

  lemma {:induction false} MapTotalRemove<K>(m: map<K, int>, k: K)
    requires k in m
    ensures MapTotal(m) == m[k] + MapTotal(m - {k})
    decreases m
  {
    var j :| j in m && MapTotal(m) == m[j] + MapTotal(m - {j});
    if j != k {
      MapTotalRemove(m - {j}, k);
      MapTotalRemove(m - {k}, j);
      assert m - {j} - {k} == m - {k} - {j};
    }
  }

  lemma MapTotalSet<K>(m: map<K, int>, k: K, v: int)
    ensures MapTotal(m[k := v]) == MapTotal(m) + v - (if k in m then m[k] else 0)
  {
    MapTotalRemove(m[k := v], k);
    if k in m {
      MapTotalRemove(m, k);
      assert m[k := v] - {k} == m - {k};
    } else {
      assert m[k := v] - {k} == m;
    }
  }

  lemma {:induction false} MapTotalZero<K>(m: map<K, int>)
    requires forall k :: k in m ==> m[k] == 0
    ensures MapTotal(m) == 0
  {
    if m != map[] {
      var k :| k in m;
      MapTotalRemove(m, k);
      MapTotalZero(m - {k});
    }
  }

  /** One map that is, key by key, the sum of two others. */
  lemma {:induction false} MapTotalSum<K>(m: map<K, int>, n: map<K, int>, r: map<K, int>)
    requires m.Keys == n.Keys == r.Keys && forall k :: k in m ==> m[k] == n[k] + r[k]
    ensures MapTotal(m) == MapTotal(n) + MapTotal(r)
  {
    if m == map[] {
      assert n == map[] && r == map[];
    } else {
      var k :| k in m;
      MapTotalRemove(m, k);
      MapTotalRemove(n, k);
      MapTotalRemove(r, k);
      MapTotalSum(m - {k}, n - {k}, r - {k});
    }
  }

  lemma {:induction false} MapTotalScale<K>(m: map<K, int>, n: map<K, int>, c: int)
    requires m.Keys == n.Keys && forall k :: k in m ==> m[k] == c * n[k]
    ensures MapTotal(m) == c * MapTotal(n)
  {
    if m == map[] {
      assert n == map[];
    } else {
      var k :| k in m;
      MapTotalRemove(m, k);
      MapTotalRemove(n, k);
      MapTotalScale(m - {k}, n - {k}, c);
      Distribute(c, n[k], MapTotal(n - {k}));
    }
  }

  lemma Distribute(c: int, x: int, y: int)
    ensures c * (x + y) == c * x + c * y
  {
  }
}
