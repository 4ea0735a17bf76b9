/** Facts about counters that run around a ring of `size` slots. */
module Modular {

  /** Quotient and remainder are unique. */
  lemma DivModUnique(n: int, q: int, m: int, size: int)
    requires size > 0 && n == q * size + m && 0 <= m < size
    ensures n / size == q && n % size == m
  {
    var q', m' := n / size, n % size;
    assert (q' - q) * size == m - m';
    if q' > q {
      MulMonotone(1, q' - q, size);
    } else if q' < q {
      MulMonotone(q' - q, -1, size);
    }
  }

  lemma MulMonotone(a: int, b: int, size: int)
    requires a <= b && size >= 0
    ensures a * size <= b * size
  {
    assert (b - a) * size >= 0;
  }

  /** Advancing a ring index follows the counter it stands for. */
  lemma NextIndex(n: nat, size: nat)
    requires size > 0
    ensures (n % size + 1) % size == (n + 1) % size
  {
    IndexPlus(n, 1, size);
  }

  lemma IndexPlus(n: int, d: int, size: nat)
    requires size > 0
    ensures (n % size + d) % size == (n + d) % size
  {
    var t := n % size + d;
    var q := n / size;
    assert n + d == q * size + t;
    assert q * size + (t / size) * size == (q + t / size) * size;
    DivModUnique(n + d, q + t / size, t % size, size);
  }

  /** Two counters less than one lap apart stand for different slots. */
  lemma SameLap(k: int, n: int, size: nat)
    requires 0 < size && k < n < k + size
    ensures k % size != n % size
  {
    if k % size == n % size {
      var d := n / size - k / size;
      assert n - k == d * size by {
        assert n == (n / size) * size + n % size;
        assert k == (k / size) * size + k % size;
      }
      if d >= 1 {
        MulMonotone(1, d, size);
      } else {
        MulMonotone(d, 0, size);
      }
    }
  }

  /** k modulo size, by repeated subtraction. */
  function Slot(k: nat, size: nat): (s: nat)
    requires size > 0
    ensures s < size
    decreases k
  {
    if k < size then k else Slot(k - size, size)
  }

  lemma {:induction false} SlotIsMod(k: nat, size: nat)
    requires size > 0
    ensures Slot(k, size) == k % size
    decreases k
  {
    if k >= size {
      SlotIsMod(k - size, size);
      var q, m := (k - size) / size, (k - size) % size;
      assert k == (q + 1) * size + m by {
        assert (q + 1) * size == q * size + size;
      }
      DivModUnique(k, q + 1, m, size);
    } else {
      DivModUnique(k, 0, k, size);
    }
  }

  lemma {:induction false} SlotPlus(k: nat, d: nat, size: nat)
    requires size > 0
    ensures Slot(Slot(k, size) + d, size) == Slot(k + d, size)
    decreases k
  {
    if k >= size {
      SlotPlus(k - size, d, size);
      assert Slot(k + d, size) == Slot(k - size + d, size);
    }
  }

  lemma {:induction false} SlotNext(k: nat, size: nat)
    requires size > 0
    ensures Slot(k + 1, size) == if Slot(k, size) + 1 == size then 0 else Slot(k, size) + 1
    decreases k
  {
    if k >= size {
      SlotNext(k - size, size);
    }
  }

  /** Two counters less than one lap apart stand for different slots. */
  lemma {:induction false} SlotsDiffer(k: nat, n: nat, size: nat)
    requires 0 < size && k < n < k + size
    ensures Slot(k, size) != Slot(n, size)
    decreases k
  {
    if k >= size {
      SlotsDiffer(k - size, n - size, size);
    }
  }
}
