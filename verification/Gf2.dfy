/** Exclusive-or on unsigned integers of any width, as addition over GF(2). */
module Gf2 {
  import CInt

  function Pow2(k: nat): (p: nat)
    ensures p > 0
  {
    if k == 0 then 1 else 2 * Pow2(k - 1)
  }

  function Xor(x: nat, y: nat): nat
    decreases x + y
  {
    if x == 0 && y == 0 then 0 else 2 * Xor(x / 2, y / 2) + (x + y) % 2
  }

  lemma Halves(x: nat, y: nat)
    ensures Xor(x, y) / 2 == Xor(x / 2, y / 2)
    ensures Xor(x, y) % 2 == (x + y) % 2
  {
  }

  lemma {:induction false} Commutes(x: nat, y: nat)
    ensures Xor(x, y) == Xor(y, x)
    decreases x + y
  {
    if x > 0 || y > 0 {
      Commutes(x / 2, y / 2);
    }
  }

  lemma ParityAssociates(x: nat, y: nat, z: nat)
    ensures ((x + y) % 2 + z) % 2 == (x + (y + z) % 2) % 2
  {
  }

  lemma SumParity(x: nat, y: nat)
    ensures (x + y) % 2 == (x % 2 + y) % 2 == (x + y % 2) % 2
  {
  }

  lemma AssociatesStep(x: nat, y: nat, z: nat)
    requires Xor(Xor(x / 2, y / 2), z / 2) == Xor(x / 2, Xor(y / 2, z / 2))
    ensures Xor(Xor(x, y), z) == Xor(x, Xor(y, z))
  {
    hide Xor;
    var a, b := Xor(x, y), Xor(y, z);
    var l, r := Xor(a, z), Xor(x, b);
    Halves(x, y);
    Halves(y, z);
    Halves(a, z);
    Halves(x, b);
    assert (a + z) % 2 == (x + b) % 2 by {
      SumParity(a, z);
      SumParity(x, b);
      ParityAssociates(x, y, z);
    }
    assert l / 2 == r / 2;
  }

  lemma {:induction false} Associates(x: nat, y: nat, z: nat)
    ensures Xor(Xor(x, y), z) == Xor(x, Xor(y, z))
    decreases x + y + z
  {
    if x > 0 || y > 0 || z > 0 {
      Associates(x / 2, y / 2, z / 2);
      AssociatesStep(x, y, z);
    }
  }

  lemma {:induction false} Zero(x: nat)
    ensures Xor(x, 0) == x && Xor(0, x) == x
    ensures Xor(x, x) == 0
  {
    if x > 0 {
      Zero(x / 2);
    }
  }

  /** Adding the same value twice cancels. */
  lemma Cancels(x: nat, y: nat)
    ensures Xor(Xor(x, y), y) == x && Xor(y, Xor(y, x)) == x
  {
    Associates(x, y, y);
    Associates(y, y, x);
    Zero(x);
    Zero(y);
  }

  lemma {:induction false} Bounded(x: nat, y: nat, k: nat)
    requires x < Pow2(k) && y < Pow2(k)
    ensures Xor(x, y) < Pow2(k)
  {
    if k > 0 {
      Bounded(x / 2, y / 2, k - 1);
      Halves(x, y);
    }
  }

  /** The top bit of one operand survives a shorter one. */
  lemma {:induction false} KeepsTop(x: nat, y: nat, k: nat)
    requires Pow2(k) <= x < Pow2(k + 1) && y < Pow2(k)
    ensures Pow2(k) <= Xor(x, y)
  {
    if k > 0 {
      KeepsTop(x / 2, y / 2, k - 1);
    }
    Halves(x, y);
  }

  /** Below k bits, exclusive-or leaves the rest alone. */
  lemma {:induction false} High(x: nat, y: nat, k: nat)
    requires y < Pow2(k)
    ensures Xor(x, y) / Pow2(k) == x / Pow2(k)
    decreases k
  {
    if k == 0 {
      Zero(x);
    } else {
      Halves(x, y);
      High(x / 2, y / 2, k - 1);
      DivTwice(x, Pow2(k - 1));
      DivTwice(Xor(x, y), Pow2(k - 1));
    }
  }

  lemma DivTwice(x: nat, p: nat)
    requires p > 0
    ensures x / (2 * p) == x / 2 / p
    ensures x % (2 * p) == 2 * (x / 2 % p) + x % 2
  {
    var q := x / 2 / p;
    assert x / 2 == p * q + x / 2 % p;
    assert 2 * p * q == 2 * (p * q);
    CInt.QuotientUnique(x, 2 * p, q, 2 * (x / 2 % p) + x % 2);
  }

  lemma DisjointStep(p: nat, l: nat)
    requires Xor(p, l / 2) == p + l / 2
    ensures Xor(2 * p, l) == 2 * p + l
  {
    hide Xor;
    Halves(2 * p, l);
  }

  /** A sum without carries is an exclusive-or. */
  lemma {:induction false} Disjoint(h: nat, l: nat, k: nat)
    requires l < Pow2(k)
    ensures Xor(h * Pow2(k), l) == h * Pow2(k) + l
    decreases k
  {
    if k == 0 {
      Zero(h);
    } else {
      var p := h * Pow2(k - 1);
      assert h * Pow2(k) == 2 * p;
      Disjoint(h, l / 2, k - 1);
      DisjointStep(p, l);
    }
  }
}
