/** Allocation bitmaps.

    The kernel keeps three kinds of bitmap: 32-bit words for frames and process slots, and bytes
    for disk blocks and inodes. A word is modelled by the set of positions of its one bits, so that
    `w | (1 << k)` is `w + {k}`, `w & ~(1 << k)` is `w - {k}` and `w & (1 << k)` tests `k in w`.
    The split of an index into word number and bit number is kept as the source computes it.
 */
module Bitmap {
  import opened Division

  /** The number of bits in a bitmap unit: a byte or a 32-bit word. */
  type Width = w: nat | w == 8 || w == 32 witness 8

  type Unit = set<nat>

  predicate Covers(units: seq<Unit>, w: Width, n: nat) {
    n <= |units| * w
  }

  predicate Test(units: seq<Unit>, w: Width, i: nat)
    requires i / w < |units|
  {
    i % w in units[i / w]
  }

  function Set(units: seq<Unit>, w: Width, i: nat): seq<Unit>
    requires i / w < |units|
  {
    units[i / w := units[i / w] + {i % w}]
  }

  function Clear(units: seq<Unit>, w: Width, i: nat): seq<Unit>
    requires i / w < |units|
  {
    units[i / w := units[i / w] - {i % w}]
  }

  /** Every index below a covered bound has a unit. */
  lemma InRange(units: seq<Unit>, w: Width, n: nat, i: nat)
    requires Covers(units, w, n) && i < n
    ensures i / w < |units|
  {
  }

  /** Setting or clearing bit `i` changes bit `i` and no other. */
  lemma UpdateIsLocal(units: seq<Unit>, w: Width, i: nat, j: nat)
    requires i / w < |units| && j / w < |units|
    ensures Test(Set(units, w, i), w, j) <==> (i == j || Test(units, w, j))
    ensures Test(Clear(units, w, i), w, j) <==> (i != j && Test(units, w, j))
  {
    if i != j && i / w == j / w && i % w == j % w {
      SplitIsInjective(w, i, j);
    }
  }

  /** The number of one bits among the first `n`. */
  function CountSet(units: seq<Unit>, w: Width, n: nat): nat
    requires Covers(units, w, n)
  {
    if n == 0 then 0
    else
      InRange(units, w, n, n - 1);
      CountSet(units, w, n - 1) + if Test(units, w, n - 1) then 1 else 0
  }

  /** Setting a clear bit below `n` adds one to the count; clearing a set bit takes one away; all
      other updates leave it alone. */
  lemma {:induction false} CountAfterUpdate(units: seq<Unit>, w: Width, n: nat, i: nat)
    requires Covers(units, w, n) && i / w < |units|
    ensures CountSet(Set(units, w, i), w, n) ==
            CountSet(units, w, n) + if i < n && !Test(units, w, i) then 1 else 0
    ensures CountSet(Clear(units, w, i), w, n) ==
            CountSet(units, w, n) - if i < n && Test(units, w, i) then 1 else 0
  {
    if n == 0 {
    } else {
      InRange(units, w, n, n - 1);
      CountAfterUpdate(units, w, n - 1, i);
      UpdateIsLocal(units, w, i, n - 1);
    }
  }

  /** The count reaches the bound exactly when no bit below it is clear, and 0 when none is set. */
  lemma {:induction false} CountExtremes(units: seq<Unit>, w: Width, n: nat)
    requires Covers(units, w, n)
    ensures CountSet(units, w, n) <= n
    ensures CountSet(units, w, n) == n <==> forall i: nat :: i < n ==> i / w < |units| && Test(units, w, i)
    ensures CountSet(units, w, n) == 0 <==> forall i: nat :: i < n ==> i / w < |units| && !Test(units, w, i)
  {
    if n == 0 {
    } else {
      InRange(units, w, n, n - 1);
      CountExtremes(units, w, n - 1);
      forall i: nat | i < n ensures i / w < |units| { InRange(units, w, n, i); }
    }
  }

  /** The number of zero bits among the first `n`. */
  function CountClear(units: seq<Unit>, w: Width, n: nat): nat
    requires Covers(units, w, n)
  {
    CountExtremes(units, w, n);
    n - CountSet(units, w, n)
  }

  predicate IsOne(units: seq<Unit>, w: Width, i: nat) {
    i / w < |units| && Test(units, w, i)
  }

  /** The set of one bits among the first `n`. */
  ghost function Ones(units: seq<Unit>, w: Width, n: nat): set<nat> {
    set i: nat | i < n && IsOne(units, w, i)
  }

  /** The count is the size of that set. */
  lemma {:induction false} CountIsCardinality(units: seq<Unit>, w: Width, n: nat)
    requires Covers(units, w, n)
    ensures CountSet(units, w, n) == |Ones(units, w, n)|
  {
    if n == 0 {
      assert Ones(units, w, 0) == {};
    } else {
      InRange(units, w, n, n - 1);
      CountIsCardinality(units, w, n - 1);
      OnesStep(units, w, n - 1);
    }
  }

  lemma OnesStep(units: seq<Unit>, w: Width, n: nat)
    ensures n !in Ones(units, w, n)
    ensures Ones(units, w, n + 1) == if IsOne(units, w, n) then Ones(units, w, n) + {n} else Ones(units, w, n)
  {
    hide IsOne;
  }

  /** Setting and clearing bits adds to and takes from that set. */
  lemma OnesAfterUpdate(units: seq<Unit>, w: Width, n: nat, i: nat)
    requires Covers(units, w, n) && i < n
    ensures i / w < |units|
    ensures Ones(Set(units, w, i), w, n) == Ones(units, w, n) + {i}
    ensures Ones(Clear(units, w, i), w, n) == Ones(units, w, n) - {i}
  {
    InRange(units, w, n, i);
    forall j: nat | j < n && j / w < |units|
      ensures Test(Set(units, w, i), w, j) <==> (i == j || Test(units, w, j))
      ensures Test(Clear(units, w, i), w, j) <==> (i != j && Test(units, w, j))
    {
      UpdateIsLocal(units, w, i, j);
    }
  }
}
