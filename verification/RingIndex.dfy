/** Slot arithmetic of a ring of n slots. A block that is the p-th ever to enter the ring lives in slot
    Wrap(p, n), so live blocks are described by unbounded positions and never by wrapped indices. */
module RingIndex {

  /** p modulo n, by repeated subtraction, so that proofs never meet a division by a variable. */
  function Wrap(p: nat, n: nat): (slot: nat)
    requires n > 0
    ensures slot < n
  {
    if p < n then p else Wrap(p - n, n)
  }

  lemma {:induction false} WrapIsMod(p: nat, n: nat)
    requires n > 0
    ensures Wrap(p, n) == p % n
    decreases p
  {
    if p >= n {
      WrapIsMod(p - n, n);
      ModMinus(p, n);
    }
  }

  lemma ModMinus(p: nat, n: nat)
    requires 0 < n <= p
    ensures (p - n) % n == p % n
  {
    var q, r := (p - n) / n, (p - n) % n;
    assert p - n == q * n + r;
    assert p == (q + 1) * n + r;
    ModUnique(p, n, q + 1, r);
  }

  lemma ModUnique(p: nat, n: nat, q: nat, r: nat)
    requires n > 0 && p == q * n + r && r < n
    ensures p % n == r
  {
    var q', r' := p / n, p % n;
    assert p == q' * n + r';
    assert q' < q ==> q * n >= (q' + 1) * n;
    assert q' > q ==> q' * n >= (q + 1) * n;
  }

  /** Advancing a wrapped index by k and wrapping again, as the drivers do, is advancing the position by k. */
  lemma {:induction false} WrapAdd(p: nat, k: nat, n: nat)
    requires n > 0
    ensures Wrap(Wrap(p, n) + k, n) == Wrap(p + k, n)
    decreases p
  {
    if p >= n {
      WrapAdd(p - n, k, n);
      assert p + k - n == (p - n) + k;
    }
  }

  /** Positions less than n apart never share a slot. */
  lemma {:induction false} WrapDistinct(p: nat, q: nat, n: nat)
    requires p < q < p + n
    ensures Wrap(p, n) != Wrap(q, n)
    decreases p
  {
    if p >= n {
      WrapDistinct(p - n, q - n, n);
    }
  }

  /** The slot of the block that is i places behind the oldest one, which sits at position base. */
  function SlotOf(base: nat, i: nat, n: nat): (slot: nat)
    requires n > 0
    ensures slot < n
  {
    Wrap(base + i, n)
  }

  /** With k < n live blocks, the slot behind them is none of theirs. */
  lemma WindowDistinct(base: nat, k: nat, n: nat)
    requires k < n
    ensures forall i: nat :: i < k ==> SlotOf(base, i, n) != SlotOf(base, k, n)
  {
    forall i: nat | i < k ensures SlotOf(base, i, n) != SlotOf(base, k, n) {
      WrapDistinct(base + i, base + k, n);
    }
  }
}
