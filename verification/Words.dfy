/**
Machine words as naturals below a power of two. The bitwise operators are defined digit by
digit; what they do to single bits is proved from that.
*/
module Words {

  function Pow2(n: nat): (p: nat)
    ensures p > 0
  {
    if n == 0 then 1 else 2 * Pow2(n - 1)
  }

  type Word = x: nat | x < Pow2(64)

  lemma {:induction false} Pow2Sum(m: nat, n: nat)
    ensures Pow2(m + n) == Pow2(m) * Pow2(n)
  {
    if m > 0 { Pow2Sum(m - 1, n); }
  }

  /** Words have 64 bits. */
  lemma WordRange()
    ensures Pow2(64) == 0x1_0000_0000_0000_0000 && ALL == 0xFFFF_FFFF_FFFF_FFFF
  {
    HalfWordRange();
    hide Pow2;
    Pow2Sum(32, 32);
  }

  lemma HalfWordRange()
    ensures Pow2(32) == 0x1_0000_0000
  {
    assert Pow2(8) == 256;
    hide Pow2;
    Pow2Sum(8, 8);
    Pow2Sum(16, 16);
  }

  /** `n` ones from the lowest bit up. */
  function Low(n: nat): nat
  {
    Pow2(n) - 1
  }

  const ALL: Word := Low(64)

  function Complement(w: Word): Word
  {
    ALL - w
  }

  predicate Bit(w: nat, i: nat)
  {
    if i == 0 then w % 2 == 1 else Bit(w / 2, i - 1)
  }

  function And(a: nat, b: nat): nat
    decreases a
  {
    if a == 0 then 0 else 2 * And(a / 2, b / 2) + (if a % 2 == 1 && b % 2 == 1 then 1 else 0)
  }

  function Or(a: nat, b: nat): nat
    decreases a + b
  {
    if a == 0 && b == 0 then 0 else 2 * Or(a / 2, b / 2) + (if a % 2 == 1 || b % 2 == 1 then 1 else 0)
  }

  function Xor(a: nat, b: nat): nat
    decreases a + b
  {
    if a == 0 && b == 0 then 0 else 2 * Xor(a / 2, b / 2) + (if a % 2 != b % 2 then 1 else 0)
  }

  // One digit at a time.

  lemma AndDigit(a: nat, b: nat)
    ensures And(a, b) / 2 == And(a / 2, b / 2) && (And(a, b) % 2 == 1 <==> a % 2 == 1 && b % 2 == 1)
  {
    if a == 0 { assert And(0, b / 2) == 0; }
  }

  lemma OrDigit(a: nat, b: nat)
    ensures Or(a, b) / 2 == Or(a / 2, b / 2) && (Or(a, b) % 2 == 1 <==> a % 2 == 1 || b % 2 == 1)
  {
    if a == 0 && b == 0 { assert Or(0, 0) == 0; }
  }

  lemma XorDigit(a: nat, b: nat)
    ensures Xor(a, b) / 2 == Xor(a / 2, b / 2) && (Xor(a, b) % 2 == 1 <==> a % 2 != b % 2)
  {
    if a == 0 && b == 0 { assert Xor(0, 0) == 0; }
  }

  // Single bits.

  lemma {:induction false} BitOfZero(i: nat)
    ensures !Bit(0, i)
  {
    if i > 0 { BitOfZero(i - 1); }
  }

  lemma {:induction false} BitOfAnd(a: nat, b: nat, i: nat)
    ensures Bit(And(a, b), i) <==> Bit(a, i) && Bit(b, i)
    decreases i
  {
    hide And;
    AndDigit(a, b);
    if i > 0 { BitOfAnd(a / 2, b / 2, i - 1); }
  }

  lemma {:induction false} BitOfOr(a: nat, b: nat, i: nat)
    ensures Bit(Or(a, b), i) <==> Bit(a, i) || Bit(b, i)
    decreases i
  {
    hide Or;
    OrDigit(a, b);
    if i > 0 { BitOfOr(a / 2, b / 2, i - 1); }
  }

  lemma {:induction false} BitOfXor(a: nat, b: nat, i: nat)
    ensures Bit(Xor(a, b), i) <==> Bit(a, i) != Bit(b, i)
    decreases i
  {
    hide Xor;
    XorDigit(a, b);
    if i > 0 { BitOfXor(a / 2, b / 2, i - 1); }
  }

  lemma {:induction false} BitOfLow(n: nat, i: nat)
    ensures Bit(Low(n), i) <==> i < n
    decreases i
  {
    if n == 0 {
      BitOfZero(i);
    } else if i > 0 {
      assert Low(n) / 2 == Low(n - 1);
      BitOfLow(n - 1, i - 1);
    }
  }

  lemma {:induction false} BitOfComplement(n: nat, w: nat, i: nat)
    requires w < Pow2(n)
    ensures Bit(Low(n) - w, i) <==> i < n && !Bit(w, i)
    decreases i
  {
    if n == 0 {
      BitOfZero(i);
    } else {
      assert Low(n) == 2 * Low(n - 1) + 1 && (Low(n) - w) / 2 == Low(n - 1) - w / 2;
      if i > 0 { BitOfComplement(n - 1, w / 2, i - 1); }
    }
  }

  lemma {:induction false} BitOfPow2(n: nat, i: nat)
    ensures Bit(Pow2(n), i) <==> i == n
    decreases i
  {
    if n == 0 {
      if i > 0 { BitOfZero(i - 1); }
    } else if i > 0 {
      BitOfPow2(n - 1, i - 1);
    }
  }

  /** A word has no bit past its width. */
  lemma {:induction false} BitWithin(n: nat, w: nat, i: nat)
    requires w < Pow2(n) && n <= i
    ensures !Bit(w, i)
  {
    if n == 0 {
      BitOfZero(i);
    } else {
      BitWithin(n - 1, w / 2, i - 1);
    }
  }

  // Widths.

  lemma {:induction false} WidthOfOr(n: nat, a: nat, b: nat)
    requires a < Pow2(n) && b < Pow2(n)
    ensures Or(a, b) < Pow2(n)
  {
    if n > 0 { WidthOfOr(n - 1, a / 2, b / 2); }
  }

  lemma {:induction false} WidthOfXor(n: nat, a: nat, b: nat)
    requires a < Pow2(n) && b < Pow2(n)
    ensures Xor(a, b) < Pow2(n)
  {
    if n > 0 { WidthOfXor(n - 1, a / 2, b / 2); }
  }

  lemma {:induction false} WidthOfAnd(a: nat, b: nat)
    ensures And(a, b) <= a
    decreases a
  {
    if a > 0 { WidthOfAnd(a / 2, b / 2); }
  }

  lemma {:induction false} Pow2Grows(m: nat, n: nat)
    requires m <= n
    ensures Pow2(m) <= Pow2(n)
    decreases n
  {
    if m < n { Pow2Grows(m, n - 1); }
  }

  function OrWords(a: Word, b: Word): Word
  {
    WidthOfOr(64, a, b);
    Or(a, b)
  }

  function XorWords(a: Word, b: Word): Word
  {
    WidthOfXor(64, a, b);
    Xor(a, b)
  }

  // Equality.

  lemma {:induction false} NonZeroHasBit(w: nat) returns (i: nat)
    requires w != 0
    ensures Bit(w, i)
  {
    if w % 2 == 1 {
      i := 0;
    } else {
      var j := NonZeroHasBit(w / 2);
      i := j + 1;
    }
  }

  lemma {:induction false} Extensional(a: nat, b: nat)
    requires forall i: nat :: Bit(a, i) <==> Bit(b, i)
    ensures a == b
    decreases a + b
  {
    if a != 0 || b != 0 {
      assert Bit(a, 0) <==> Bit(b, 0);
      forall i: nat ensures Bit(a / 2, i) <==> Bit(b / 2, i) {
        assert Bit(a, i + 1) <==> Bit(b, i + 1);
      }
      Extensional(a / 2, b / 2);
    }
  }

  // Counting and scanning.

  function Ones(w: nat): nat
  {
    if w == 0 then 0 else w % 2 + Ones(w / 2)
  }

  lemma OnesDigit(w: nat)
    ensures Ones(w) == w % 2 + Ones(w / 2)
  {
  }

  lemma OrNothing()
    ensures Or(0, 0) == 0 && Ones(0) == 0
  {
  }

  /** Disjoint words count separately. */
  lemma {:induction false} OnesOfDisjoint(a: nat, b: nat)
    requires And(a, b) == 0
    ensures Ones(Or(a, b)) == Ones(a) + Ones(b)
    decreases a + b
  {
    hide And, Or, Ones;
    OnesDigit(a);
    OnesDigit(b);
    OnesDigit(Or(a, b));
    OrDigit(a, b);
    AndDigit(a, b);
    if a == 0 && b == 0 {
      OrNothing();
    } else {
      OnesOfDisjoint(a / 2, b / 2);
    }
  }

  lemma {:induction false} OnesOfLow(n: nat)
    ensures Ones(Low(n)) == n
  {
    if n > 0 {
      assert Low(n) / 2 == Low(n - 1);
      OnesOfLow(n - 1);
    }
  }

  function TrailingZeros(w: nat): (i: nat)
    requires w > 0
    ensures Bit(w, i)
    ensures forall j: nat :: j < i ==> !Bit(w, j)
  {
    if w % 2 == 1 then 0 else TrailingZeros(w / 2) + 1
  }

  /** Masking a word with its predecessor clears its lowest set bit and no other. */
  lemma {:induction false} ClearsLowest(w: nat, i: nat)
    requires w > 0
    ensures Bit(And(w, w - 1), i) <==> Bit(w, i) && i != TrailingZeros(w)
    ensures Ones(And(w, w - 1)) == Ones(w) - 1
    decreases w
  {
    if w % 2 == 1 {
      assert (w - 1) / 2 == w / 2;
      AndSelf(w / 2);
      assert And(w, w - 1) == 2 * (w / 2);
      if i > 0 { assert Bit(And(w, w - 1), i) <==> Bit(w / 2, i - 1); }
    } else {
      var v := w / 2;
      assert (w - 1) / 2 == v - 1;
      ClearsLowest(v, if i > 0 then i - 1 else 0);
      assert And(w, w - 1) == 2 * And(v, v - 1);
    }
  }

  lemma {:induction false} AndSelf(w: nat)
    ensures And(w, w) == w
  {
    if w > 0 { AndSelf(w / 2); }
  }
}
