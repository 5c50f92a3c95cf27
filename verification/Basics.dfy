/** Definitions shared by all models. */
module Basics {

  newtype Byte = x: int | 0 <= x < 0x100

  datatype Option<+T> = None | Some(value: T) {
    predicate IsFailure() {
      None?
    }
    function PropagateFailure<U>(): Option<U>
      requires None?
    {
      None
    }
    function Extract(): T
      requires Some?
    {
      value
    }
  }

  function Min(a: int, b: int): int {
    if a < b then a else b
  }

  /** The last n elements. */
  function Suffix<T>(s: seq<T>, n: nat): (r: seq<T>)
    ensures |r| == if |s| <= n then |s| else n
  {
    if |s| <= n then s else s[|s| - n..]
  }

  lemma Monotone(d: int, a: int, b: int)
    requires d > 0 && a <= b
    ensures d * a <= d * b && a * d <= b * d
  {
  }

  /** Quotient and remainder are the only ones. */
  lemma Quotient(x: int, d: int, q: int, r: int)
    requires d > 0 && 0 <= r < d && x == d * q + r
    ensures x / d == q && x % d == r
  {
    var q', r' := x / d, x % d;
    assert d * (q - q') == r' - r;
    if q > q' {
      Monotone(d, 1, q - q');
    } else if q < q' {
      Monotone(d, q - q', -1);
    }
  }

  /** r is l without one of its elements, which is x. */
  ghost predicate LeavesOut<T>(l: seq<T>, r: seq<T>, x: T) {
    exists k :: 0 <= k < |l| && l[k] == x && r == l[..k] + l[k + 1..]
  }

  lemma FirstOut<T>(l: seq<T>)
    requires l != []
    ensures LeavesOut(l, l[1..], l[0])
  {
    assert l[..0] + l[1..] == l[1..];
  }

  lemma OutLater<T>(l: seq<T>, r: seq<T>, x: T)
    requires l != [] && LeavesOut(l[1..], r, x)
    ensures LeavesOut(l, [l[0]] + r, x)
  {
    var k :| 0 <= k < |l[1..]| && l[1..][k] == x && r == l[1..][..k] + l[1..][k + 1..];
    assert l[1..][..k] == l[1..k + 1] && l[1..][k + 1..] == l[k + 2..];
    assert l[k + 1] == x && [l[0]] + r == l[..k + 1] + l[k + 2..];
  }
}
