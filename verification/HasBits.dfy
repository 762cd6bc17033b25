/**
  The has-bits word of a generated class.  A 32-bit word is the set of its one
  bits; a mask is given by the number in the code, so that a guard such as
  "has & 255" reads Test(has, 255).
 */
module HasBits {

  type word = set<nat>

  /** The bits of a mask, shifted up by `k`. */
  function BitsFrom(mask: nat, k: nat): (b: word)
    ensures forall j | j in b :: k <= j
  {
    if mask == 0 then {} else (if mask % 2 == 1 then {k} else {}) + BitsFrom(mask / 2, k + 1)
  }

  function Bits(mask: nat): (b: word) { BitsFrom(mask, 0) }

  /** (h & mask) != 0 */
  predicate Test(h: word, mask: nat) { h * Bits(mask) != {} }

  /** ((h & mask) ^ mask) == 0 */
  predicate TestAll(h: word, mask: nat) { Bits(mask) <= h }

  function Shl(m: nat, n: nat): (r: nat)
    ensures 0 < m ==> 0 < r
  {
    if n == 0 then m else 2 * Shl(m, n - 1)
  }

  /** A mask of shifted bits is the shifted set. */
  lemma ShiftBits(m: nat, n: nat, k: nat)
    ensures BitsFrom(Shl(m, n), k) == BitsFrom(m, k + n)
    decreases n
  {
    if n > 0 {
      var half := Shl(m, n - 1);
      assert (2 * half) / 2 == half && (2 * half) % 2 == 0;
      ShiftBits(m, n - 1, k + 1);
    }
  }

  /** The set of a mask holds the positions of its one bits. */
  lemma {:induction false} BitsAre(mask: nat, k: nat, j: nat)
    ensures k + j in BitsFrom(mask, k) <==> mask / Shl(1, j) % 2 == 1
    decreases j
  {
    if j > 0 && mask > 0 {
      BitsAre(mask / 2, k + 1, j - 1);
      HalfFirst(mask, Shl(1, j - 1));
    } else if mask == 0 {
      assert 0 / Shl(1, j) == 0;
    }
  }

  lemma HalfFirst(n: nat, d: nat)
    requires d > 0
    ensures n / 2 / d == n / (2 * d)
  {
    var q := n / 2 / d;
    assert n / 2 == q * d + n / 2 % d;
    assert 2 * d * q <= n < 2 * d * (q + 1);
    Quotient(n, 2 * d, q);
  }

  lemma Quotient(n: nat, d: nat, q: nat)
    requires d > 0 && d * q <= n < d * (q + 1)
    ensures n / d == q
  {
    var p := n / d;
    assert d * p <= n < d * (p + 1);
    assert p < q ==> d * (p + 1) <= d * q;
    assert q < p ==> d * (q + 1) <= d * p;
  }

  /** The mask of the `n` lowest bits. */
  function Ones(n: nat): (r: nat) {
    if n == 0 then 0 else 2 * Ones(n - 1) + 1
  }

  lemma OnesBits(n: nat, k: nat, j: nat)
    ensures j in BitsFrom(Ones(n), k) <==> k <= j < k + n
    decreases n
  {
    if n > 0 {
      assert Ones(n) / 2 == Ones(n - 1) && Ones(n) % 2 == 1;
      OnesBits(n - 1, k + 1, j);
    }
  }

  /** A guard over `n` adjacent bits from bit `k` on tests exactly those bits. */
  lemma GuardTests(h: word, mask: nat, n: nat, k: nat)
    requires mask == Shl(Ones(n), k)
    ensures Test(h, mask) <==> exists j :: j in h && k <= j < k + n
  {
    ShiftBits(Ones(n), k, 0);
    if j: nat :| j in h && k <= j < k + n {
      OnesBits(n, k, j);
      assert j in h * Bits(mask);
    }
    if j: nat :| j in h * Bits(mask) {
      OnesBits(n, k, j);
    }
  }

  /** A guard that is off skips only clear bits. */
  lemma GuardOff(h: word, mask: nat, n: nat, k: nat)
    requires mask == Shl(Ones(n), k)
    ensures !Test(h, mask) ==> forall j | k <= j < k + n :: j !in h
  {
    GuardTests(h, mask, n, k);
  }

  /** A required-fields mask of adjacent bits demands exactly those bits. */
  lemma AllSet(h: word, mask: nat, n: nat, k: nat)
    requires mask == Shl(Ones(n), k)
    ensures TestAll(h, mask) <==> forall j | k <= j < k + n :: j in h
  {
    ShiftBits(Ones(n), k, 0);
    forall j: nat ensures j in Bits(mask) <==> k <= j < k + n { OnesBits(n, k, j); }
  }

  /** The guard masks of the code, as runs of adjacent bits. */
  lemma MaskValues()
    ensures 4 == Shl(Ones(1), 2) && 3 == Shl(Ones(2), 0) && 7 == Shl(Ones(3), 0) && 255 == Shl(Ones(8), 0)
    ensures 254 == Shl(Ones(7), 1) && 248 == Shl(Ones(5), 3) && 252 == Shl(Ones(6), 2)
    ensures 768 == Shl(Ones(2), 8) && 32512 == Shl(Ones(7), 8)
    ensures 31744 == Shl(Ones(5), 10) && 30720 == Shl(Ones(4), 11)
  {
  }

  lemma RequiredMask()
    ensures Bits(0x401) == {0, 10}
  {
    ShiftBits(1, 9, 1);
    assert Shl(1, 9) == 512 && BitsFrom(1, 10) == {10};
  }
}
