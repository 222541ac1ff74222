/** Types and sequence facts shared by the whole model. */
module Common {

  datatype Option<+T> = None | Some(value: T)

  datatype Result<+T, +E> = Ok(value: T) | Err(error: E)

  /** No element occurs twice. */
  ghost predicate NoDup<T>(s: seq<T>) {
    forall i, j :: 0 <= i < j < |s| ==> s[i] != s[j]
  }

  function Elements<T>(s: seq<T>): set<T> {
    set x | x in s
  }

  /** The quotient rounded up, as `a.div_ceil(b)` or `(a + b - 1) / b` compute it for naturals. */
  function CeilDiv(a: nat, b: nat): nat
    requires b > 0
  {
    (a + b - 1) / b
  }

  lemma {:induction false} NoDupCard<T>(s: seq<T>)
    requires NoDup(s)
    ensures |Elements(s)| == |s|
    decreases |s|
  {
    if s != [] {
      var rest, last := s[..|s| - 1], s[|s| - 1];
      NoDupCard(rest);
      assert s == rest + [last];
      assert last !in Elements(rest);
      assert Elements(s) == Elements(rest) + {last};
    }
  }

  /** The elements of a set in some order. */
  ghost function SomeOrder(todo: set<nat>): (order: seq<nat>)
    ensures NoDup(order) && Elements(order) == todo
  {
    if todo == {} then []
    else
      var id: nat :| id in todo;
      var rest := SomeOrder(todo - {id});
      assert id !in Elements(rest) && Elements(rest + [id]) == Elements(rest) + {id};
      rest + [id]
  }

  lemma JoinOrders(a: seq<nat>, b: seq<nat>)
    requires NoDup(a) && NoDup(b) && Elements(a) !! Elements(b)
    ensures NoDup(a + b) && Elements(a + b) == Elements(a) + Elements(b)
  {
    assert forall x :: x in a ==> x in Elements(a);
    assert forall x :: x in b ==> x in Elements(b);
    assert forall i :: 0 <= i < |a| ==> a[i] in a;
    assert forall i :: 0 <= i < |b| ==> b[i] in b;
  }

  lemma CardMonotone<T>(a: set<T>, b: set<T>)
    requires a <= b
    ensures |a| <= |b|
    ensures |a| == |b| ==> a == b
  {
    assert b == a + (b - a);
  }
}

/** Division by positive numbers. */
module Arithmetic {
  import opened Common

  lemma MulMonotone(a: int, b: int, d: int)
    requires a <= b && d >= 0
    ensures a * d <= b * d
  {
  }

  lemma DivBounds(n: int, d: int)
    requires d > 0
    ensures n / d * d <= n < n / d * d + d && n % d == n - n / d * d
  {
  }

  lemma DivUnique(n: int, d: int, q: int)
    requires d > 0 && q * d <= n < q * d + d
    ensures n / d == q && n % d == n - q * d
  {
    DivBounds(n, d);
    if n / d < q {
      MulMonotone(n / d + 1, q, d);
    } else if n / d > q {
      MulMonotone(q + 1, n / d, d);
    }
  }

  lemma DivLess(p: int, k: int, d: int)
    requires d > 0 && p < k * d
    ensures p / d < k
  {
  }

  /** Numbers in the same block, or one block later, as division sees them. */
  lemma DivShift(p: int, d: int)
    requires d > 0 && p >= d
    ensures p / d == (p - d) / d + 1 && p % d == (p - d) % d
  {
    DivBounds(p - d, d);
    DivUnique(p, d, (p - d) / d + 1);
  }

  lemma CeilDivBounds(n: nat, d: nat)
    requires d > 0
    ensures n <= CeilDiv(n, d) * d < n + d
  {
  }

  /** One more token needs a new block exactly when all blocks are full. */
  lemma CeilDivNext(n: nat, d: nat)
    requires d > 0
    ensures CeilDiv(n + 1, d) == n / d + 1
    ensures CeilDiv(n + 1, d) == CeilDiv(n, d) + if n % d == 0 then 1 else 0
  {
    DivBounds(n, d);
    DivUnique(n + d, d, n / d + 1);
    if n % d == 0 {
      DivUnique(n + d - 1, d, n / d);
    } else {
      DivUnique(n + d - 1, d, n / d + 1);
    }
  }

  /** `k` blocks hold `n` items with less than a block to spare exactly for the rounded quotient. */
  lemma CeilDivUnique(n: nat, d: nat, k: nat)
    requires d > 0 && n <= k * d < n + d
    ensures CeilDiv(n, d) == k
  {
    DivUnique(n + d - 1, d, k);
  }
}
