/** Bitwise operations on unsigned machine words, defined bit by bit, and the rank facts that make a
    bitmap-compressed array work: the entry for bit `i` sits after one entry per lower set bit. */
module Bits {

  function Pow2(n: nat): (p: nat)
    ensures p >= 1
  {
    if n == 0 then 1 else 2 * Pow2(n - 1)
  }

  /** `a & b` */
  function BitAnd(a: nat, b: nat): nat
    decreases a
  {
    if a == 0 || b == 0 then 0
    else 2 * BitAnd(a / 2, b / 2) + (if a % 2 == 1 && b % 2 == 1 then 1 else 0)
  }

  /** `a | b` */
  function BitOr(a: nat, b: nat): nat
    decreases a
  {
    if a == 0 then b
    else 2 * BitOr(a / 2, b / 2) + (if a % 2 == 1 || b % 2 == 1 then 1 else 0)
  }

  /** `a & !b` */
  function BitAndNot(a: nat, b: nat): nat
    decreases a
  {
    if a == 0 then 0
    else 2 * BitAndNot(a / 2, b / 2) + (if a % 2 == 1 && b % 2 == 0 then 1 else 0)
  }

  /** `a >> n` */
  function ShiftRight(a: nat, n: nat): nat
    decreases n
  {
    if n == 0 then a else ShiftRight(a / 2, n - 1)
  }

  /** `a.count_ones()` */
  function CountOnes(a: nat): nat {
    if a == 0 then 0 else a % 2 + CountOnes(a / 2)
  }

  /** Whether bit `i` of `a` is set. */
  predicate HasBit(a: nat, i: nat)
    decreases i
  {
    if i == 0 then a % 2 == 1 else HasBit(a / 2, i - 1)
  }

  /** The number of set bits of `a` strictly below position `i`. */
  function Rank(a: nat, i: nat): nat
    decreases i
  {
    if i == 0 then 0 else a % 2 + Rank(a / 2, i - 1)
  }

  lemma {:induction false} NoBitsInZero(i: nat)
    ensures !HasBit(0, i) && Rank(0, i) == 0
  {
    if i > 0 { NoBitsInZero(i - 1); }
  }

  /** Testing one bit with a one-bit mask. */
  lemma {:induction false} AndWithFlag(a: nat, i: nat)
    ensures BitAnd(a, Pow2(i)) == 0 <==> !HasBit(a, i)
    decreases i
  {
    if a == 0 {
      NoBitsInZero(i);
    } else if i == 0 {
      assert BitAnd(a / 2, Pow2(0) / 2) == 0;
    } else {
      AndWithFlag(a / 2, i - 1);
    }
  }

  /** The popcount of the bits under a mask is the rank of the masked position. */
  lemma {:induction false} PopcountIsRank(a: nat, i: nat)
    ensures CountOnes(BitAnd(a, Pow2(i) - 1)) == Rank(a, i)
    decreases i
  {
    if a == 0 {
      NoBitsInZero(i);
    } else if i > 0 {
      PopcountIsRank(a / 2, i - 1);
      assert (Pow2(i) - 1) / 2 == Pow2(i - 1) - 1;
      if Pow2(i - 1) == 1 { assert BitAnd(a / 2, 0) == 0; }
    }
  }

  /** Ranks of set bits index the dense array, in bit order. */
  lemma {:induction false} RankBound(a: nat, i: nat)
    ensures Rank(a, i) <= CountOnes(a)
    ensures HasBit(a, i) ==> Rank(a, i) < CountOnes(a)
    decreases i
  {
    if a == 0 {
      NoBitsInZero(i);
    } else if i > 0 {
      RankBound(a / 2, i - 1);
    }
  }

  lemma {:induction false} RankMonotone(a: nat, i: nat, j: nat)
    requires i <= j
    ensures Rank(a, i) <= Rank(a, j)
    ensures i < j && HasBit(a, i) ==> Rank(a, i) < Rank(a, j)
    decreases i
  {
    if i > 0 { RankMonotone(a / 2, i - 1, j - 1); }
  }

  /** Every slot of the dense array belongs to exactly the bit this lemma names. */
  lemma {:induction false} SlotHasBit(a: nat, width: nat, slot: nat) returns (i: nat)
    requires slot < CountOnes(a) && a < Pow2(width)
    ensures i < width && HasBit(a, i) && Rank(a, i) == slot
    decreases a
  {
    if slot == 0 && a % 2 == 1 {
      i := 0;
    } else {
      var rest := SlotHasBit(a / 2, width - 1, slot - a % 2);
      i := rest + 1;
    }
  }

  /** Setting a clear bit shifts the ranks above it by one and leaves the others alone. */
  lemma {:induction false} SetBit(a: nat, i: nat, j: nat)
    requires !HasBit(a, i)
    ensures CountOnes(BitOr(a, Pow2(i))) == CountOnes(a) + 1
    ensures HasBit(BitOr(a, Pow2(i)), j) <==> j == i || HasBit(a, j)
    ensures Rank(BitOr(a, Pow2(i)), j) == Rank(a, j) + (if i < j then 1 else 0)
    decreases i
  {
    var b := BitOr(a, Pow2(i));
    if i == 0 {
      OrWithZero(a / 2);
      assert b / 2 == a / 2 && b % 2 == 1;
    } else {
      SetBit(a / 2, i - 1, if j == 0 then 0 else j - 1);
      assert b / 2 == BitOr(a / 2, Pow2(i - 1)) && b % 2 == a % 2;
    }
  }

  lemma {:induction false} OrWithZero(a: nat)
    ensures BitOr(a, 0) == a
  {
    if a > 0 { OrWithZero(a / 2); }
  }

  lemma {:induction false} AndNotZero(a: nat)
    ensures BitAndNot(a, 0) == a
  {
    if a > 0 { AndNotZero(a / 2); }
  }

  /** Clearing a set bit is the reverse. */
  lemma {:induction false} ClearBit(a: nat, i: nat, j: nat)
    requires HasBit(a, i)
    ensures HasBit(BitAndNot(a, Pow2(i)), j) <==> j != i && HasBit(a, j)
    ensures Rank(BitAndNot(a, Pow2(i)), j) == Rank(a, j) - (if i < j then 1 else 0)
    decreases i
  {
    ClearBitHalves(a, i);
    if i == 0 {
      AndNotZero(a / 2);
    } else {
      ClearBit(a / 2, i - 1, if j == 0 then 0 else j - 1);
    }
  }

  lemma {:induction false} ClearBitCount(a: nat, i: nat)
    requires HasBit(a, i)
    ensures BitAndNot(a, Pow2(i)) <= a && CountOnes(BitAndNot(a, Pow2(i))) == CountOnes(a) - 1
    decreases i
  {
    ClearBitHalves(a, i);
    if i == 0 {
      AndNotZero(a / 2);
    } else {
      ClearBitCount(a / 2, i - 1);
    }
  }

  lemma ClearBitHalves(a: nat, i: nat)
    requires HasBit(a, i)
    ensures a > 0
    ensures BitAndNot(a, Pow2(i)) / 2 == BitAndNot(a / 2, Pow2(i) / 2)
    ensures BitAndNot(a, Pow2(i)) % 2 == if i == 0 then 0 else a % 2
    ensures i > 0 ==> Pow2(i) / 2 == Pow2(i - 1)
    ensures i == 0 ==> Pow2(i) / 2 == 0
  {
    hide BitAndNot, HasBit;
    NoBitsInZero(i);
    assert a != 0;
    AndNotHalves(a, Pow2(i));
    if i > 0 {
      assert Pow2(i) == 2 * Pow2(i - 1);
      SplitLastBit(Pow2(i), Pow2(i - 1), 0);
    }
  }

  lemma {:induction false} AndHalves(a: nat, b: nat)
    ensures BitAnd(a, b) == 2 * BitAnd(a / 2, b / 2) + (if a % 2 == 1 && b % 2 == 1 then 1 else 0)
  {
    if a == 0 || b == 0 { assert BitAnd(a / 2, b / 2) == 0; }
  }

  /** The last bit and the rest of a number split at its last bit. */
  lemma SplitLastBit(n: nat, half: nat, last: nat)
    requires n == 2 * half + last && last < 2
    ensures n / 2 == half && n % 2 == last
  {
  }

  lemma {:induction false} AndNotHalves(a: nat, p: nat)
    ensures BitAndNot(a, p) / 2 == BitAndNot(a / 2, p / 2)
    ensures BitAndNot(a, p) % 2 == if p % 2 == 0 then a % 2 else 0
  {
    var half, last := BitAndNot(a / 2, p / 2), if a % 2 == 1 && p % 2 == 0 then 1 else 0;
    if a != 0 {
      assert BitAndNot(a, p) == 2 * half + last;
      SplitLastBit(BitAndNot(a, p), half, last);
    }
  }

  /** A word with only bits below `width` stays below `2^width` when one such bit is set. */
  lemma {:induction false} SetBitBound(a: nat, i: nat, width: nat)
    requires a < Pow2(width) && i < width
    ensures BitOr(a, Pow2(i)) < Pow2(width)
    decreases i
  {
    if i == 0 {
      OrWithZero(a / 2);
    } else if a == 0 {
      Pow2Strict(i, width);
    } else {
      assert a / 2 < Pow2(width - 1);
      SetBitBound(a / 2, i - 1, width - 1);
      assert Pow2(i) / 2 == Pow2(i - 1);
      assert BitOr(a, Pow2(i)) <= 2 * BitOr(a / 2, Pow2(i - 1)) + 1;
    }
  }

  lemma {:induction false} Pow2Strict(i: nat, j: nat)
    requires i < j
    ensures Pow2(i) < Pow2(j)
    decreases j
  {
    if i < j - 1 { Pow2Strict(i, j - 1); }
  }

  lemma {:induction false} Pow2Add(i: nat, j: nat)
    ensures Pow2(i + j) == Pow2(i) * Pow2(j)
  {
    if i > 0 { Pow2Add(i - 1, j); }
  }

  lemma Pow2Double(n: nat, p: nat)
    requires Pow2(n) == p
    ensures Pow2(n + n) == p * p
  {
    Pow2Add(n, n);
  }

  lemma {:induction false} ShiftTwice(a: nat, i: nat, j: nat)
    ensures ShiftRight(a, i + j) == ShiftRight(ShiftRight(a, i), j)
    decreases i
  {
    if i > 0 { ShiftTwice(a / 2, i - 1, j); }
  }

  lemma {:induction false} ShiftedOut(a: nat, n: nat)
    requires a < Pow2(n)
    ensures ShiftRight(a, n) == 0
    decreases n
  {
    if n > 0 { ShiftedOut(a / 2, n - 1); }
  }
}
