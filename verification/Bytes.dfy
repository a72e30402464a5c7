/** Bytes, and the small arithmetic that several components share. */
module Bytes {
  newtype Byte = x: int | 0 <= x < 256

  const TWO31: nat := 0x8000_0000
  const TWO32: nat := 0x1_0000_0000
  const TWO64: nat := 0x1_0000_0000_0000_0000

  function Pow2(n: nat): (p: nat)
    ensures p >= 1
  {
    if n == 0 then 1 else 2 * Pow2(n - 1)
  }

  function Min(a: int, b: int): int {
    if a <= b then a else b
  }

  function Max(a: int, b: int): int {
    if a <= b then b else a
  }

  lemma MultipleBounds(m: int, q: int)
    requires m > 0
    ensures q >= 2 ==> m * q >= 2 * m
    ensures q <= -1 ==> m * q <= -m
  {
  }

  lemma QuotientNonnegative(x: nat, m: nat)
    requires m > 0
    ensures x / m >= 0
  {
    MultipleBounds(m, x / m);
  }

  lemma ModuloOnce(a: nat, m: nat)
    requires 0 < m && a < 2 * m
    ensures a % m == if a < m then a else a - m
  {
    var q, r := a / m, a % m;
    assert a == m * q + r;
    MultipleBounds(m, q);
  }

  lemma Reassociate<T>(a: seq<T>, b: seq<T>, c: seq<T>)
    ensures (a + b) + c == a + (b + c)
  {
  }

  /** Quotient and remainder are unique. */
  lemma SameRemainder(x: int, m: nat, q: int, r: nat)
    requires 0 <= r < m && x == m * q + r
    ensures x % m == r
  {
    var q', r' := x / m, x % m;
    Distribute(m, q, q');
    SmallMultiple(m, q - q', r' - r);
  }

  lemma Distribute(m: int, p: int, q: int)
    ensures m * (p - q) == m * p - m * q
  {
  }

  /** Only the multiple zero is smaller than m in size. */
  lemma SmallMultiple(m: nat, k: int, d: int)
    requires m * k == d && d < m && -d < m
    ensures k == 0
  {
    if k >= 1 {
      MultipleBounds(m, k + 1);
      Distribute(m, k + 1, 1);
    } else if k <= -1 {
      MultipleBounds(m, k);
    }
  }

  lemma AddMultiples(x: int, p: int, m: nat)
    requires m > 0
    ensures (x + m * p) % m == x % m
  {
    Distribute(m, x / m, -p);
    assert m * -p == -(m * p);
    SameRemainder(x + m * p, m, x / m + p, x % m);
  }

  /** Pieces put back together. */
  ghost function Flatten<T>(pieces: seq<seq<T>>): (s: seq<T>) {
    if pieces == [] then [] else Flatten(pieces[..|pieces| - 1]) + pieces[|pieces| - 1]
  }

  lemma FlattenSnoc<T>(pieces: seq<seq<T>>, p: seq<T>)
    ensures Flatten(pieces + [p]) == Flatten(pieces) + p
  {
    assert (pieces + [p])[..|pieces|] == pieces;
  }

  /** Pieces of at most m bytes each. */
  lemma {:induction false} FlattenBound<T>(pieces: seq<seq<T>>, m: nat)
    requires forall k :: 0 <= k < |pieces| ==> |pieces[k]| <= m
    ensures |Flatten(pieces)| <= m * |pieces|
  {
    if pieces != [] {
      FlattenBound(pieces[..|pieces| - 1], m);
      Distribute(m, |pieces|, 1);
    }
  }
}
