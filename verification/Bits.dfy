/** Machine words, the bits in them, and vectors of bits packed into words. */
module Bits {

  type Word = bv64

  const WORD_BITS: nat := 64

  /** The word with only bit i set. */
  function Mask(i: nat): (r: Word)
    requires i < WORD_BITS
  {
    if i == 0 then 1 else Mask(i - 1) << 1
  }

  /** What a load or a fetch finds of a mask. */
  predicate Meets(w: Word, mask: Word) {
    w & mask != 0
  }

  predicate Bit(w: Word, i: nat)
    requires i < WORD_BITS
  {
    Meets(w, Mask(i))
  }

  function Or(w: Word, mask: Word): (r: Word) {
    w | mask
  }

  // ---------------------------------------------------------------------------
  // Facts about words

  ghost predicate SingleBit(x: Word) {
    x != 0 && x & (x - 1) == 0
  }

  /** x has room to be doubled until it reaches y. */
  ghost predicate Fits(x: Word, y: Word) {
    x <= y
  }

  /** All of x is below the single bit y. */
  ghost predicate Under(x: Word, y: Word) {
    x & (y - 1) == x
  }

  lemma Doubled(x: Word, y: Word)
    requires SingleBit(x) && Fits(x, y >> 1)
    ensures SingleBit(x << 1) && Fits(x << 1, y) && Under(x, x << 1)
  {
  }

  lemma LowerStays(x: Word, y: Word, z: Word)
    requires SingleBit(y) && Fits(y, z >> 1) && Under(x, y)
    ensures Under(x, y << 1)
  {
  }

  lemma Apart(x: Word, y: Word)
    requires SingleBit(y) && Under(x, y)
    ensures !Meets(x, y) && !Meets(y, x)
  {
  }

  lemma OrAdds(w: Word, x: Word, y: Word)
    ensures x & y == 0 ==> (w | x) & y == w & y
    ensures (w | x) & x == x
  {
  }

  lemma OrMisses(w: Word, x: Word, y: Word)
    requires !Meets(x, y)
    ensures Meets(w | x, y) <==> Meets(w, y)
  {
    OrAdds(w, x, y);
  }

  lemma OrMeets(w: Word, x: Word, y: Word)
    requires !Meets(x, y)
    ensures Meets(Or(w, x), y) <==> Meets(w, y)
  {
    hide Meets;
    OrMisses(w, x, y);
  }

  lemma OrMeetsItself(w: Word, x: Word)
    requires SingleBit(x)
    ensures Meets(Or(w, x), x)
  {
  }

  /** The top bit moved right n times: a bound on the masks with n more doublings to come. */
  ghost function Ceiling(n: nat): (r: Word) {
    if n == 0 then 0x8000_0000_0000_0000 else Ceiling(n - 1) >> 1
  }

  lemma CeilingNext(n: nat)
    ensures Ceiling(n + 1) == Ceiling(n) >> 1
  {
  }

  lemma CeilingThree(n: nat)
    ensures Ceiling(n + 3) == Ceiling(n) >> 3
  {
    hide Ceiling;
    CeilingNext(n);
    CeilingNext(n + 1);
    CeilingNext(n + 2);
  }

  lemma CeilingNine(n: nat)
    ensures Ceiling(n + 9) == Ceiling(n) >> 9
  {
    hide Ceiling;
    CeilingThree(n);
    CeilingThree(n + 3);
    CeilingThree(n + 6);
  }

  lemma CeilingLast()
    ensures Fits(1, Ceiling(63))
  {
    assert Ceiling(0) == 0x8000_0000_0000_0000;
    hide Ceiling;
    CeilingNine(0);
    CeilingNine(9);
    CeilingNine(18);
    CeilingNine(27);
    CeilingNine(36);
    CeilingNine(45);
    CeilingNine(54);
  }

  // ---------------------------------------------------------------------------
  // Facts about masks

  lemma {:induction false} MaskBit(i: nat)
    requires i < WORD_BITS
    ensures SingleBit(Mask(i)) && Fits(Mask(i), Ceiling(63 - i))
  {
    hide SingleBit, Fits, Under;
    if i == 0 {
      FirstBit();
      CeilingLast();
    } else {
      MaskBit(i - 1);
      Doubled(Mask(i - 1), Ceiling(63 - i));
    }
  }

  lemma MaskNext(i: nat)
    requires 0 < i < WORD_BITS
    ensures Mask(i) == Mask(i - 1) << 1
  {
  }

  lemma FirstBit()
    ensures SingleBit(1)
  {
  }

  lemma MaskRaises(x: Word, j: nat)
    requires 0 < j < WORD_BITS
    ensures Under(Mask(j - 1), Mask(j)) && (Under(x, Mask(j - 1)) ==> Under(x, Mask(j)))
  {
    hide Mask, SingleBit, Fits, Under, Ceiling;
    MaskBit(j - 1);
    MaskNext(j);
    CeilingNext(63 - j);
    Doubled(Mask(j - 1), Ceiling(63 - j));
    if Under(x, Mask(j - 1)) {
      LowerStays(x, Mask(j - 1), Ceiling(63 - j));
    }
  }

  /** A lower mask lies below a higher one. */
  lemma {:induction false} MaskLower(i: nat, j: nat)
    requires i < j < WORD_BITS
    ensures Under(Mask(i), Mask(j))
    decreases j
  {
    hide Mask, Under;
    MaskRaises(Mask(i), j);
    if i < j - 1 {
      MaskLower(i, j - 1);
    }
  }

  ghost predicate Less(x: Word, y: Word) {
    x < y
  }

  lemma UnderIsLess(x: Word, y: Word)
    requires SingleBit(y) && Under(x, y)
    ensures Less(x, y)
  {
  }

  /** The masks are the 64 powers of two of a word, in ascending order. */
  lemma MaskAscends(i: nat, j: nat)
    requires i < j < WORD_BITS
    ensures SingleBit(Mask(i)) && SingleBit(Mask(j)) && Less(Mask(i), Mask(j)) && Mask(0) == 1
  {
    hide *;
    MaskFirst();
    MaskBit(i);
    MaskBit(j);
    MaskLower(i, j);
    UnderIsLess(Mask(i), Mask(j));
  }

  lemma MaskFirst()
    ensures Mask(0) == 1
  {
  }

  /** Or with a mask sets that bit and leaves the others. */
  lemma OrBit(w: Word, i: nat, j: nat)
    requires i < WORD_BITS && j < WORD_BITS
    ensures Bit(Or(w, Mask(i)), j) <==> Bit(w, j) || i == j
  {
    hide Mask, SingleBit, Fits, Under, Meets, Or;
    MaskBit(i);
    MaskBit(j);
    if i == j {
      OrMeetsItself(w, Mask(i));
    } else {
      if i < j {
        MaskLower(i, j);
        Apart(Mask(i), Mask(j));
      } else {
        MaskLower(j, i);
        Apart(Mask(j), Mask(i));
      }
      OrMeets(w, Mask(i), Mask(j));
    }
  }

  // ---------------------------------------------------------------------------
  // Words with the same bits are the same

  ghost predicate AgreeBelow(v: Word, w: Word, mask: Word) {
    v & (mask - 1) == w & (mask - 1)
  }

  lemma AgreeNext(v: Word, w: Word, mask: Word, y: Word)
    requires SingleBit(mask) && Fits(mask, y >> 1)
    requires AgreeBelow(v, w, mask) && (Meets(v, mask) <==> Meets(w, mask))
    ensures AgreeBelow(v, w, mask << 1)
  {
  }

  lemma AgreeAll(v: Word, w: Word)
    requires AgreeBelow(v, w, 0x8000_0000_0000_0000)
    requires Meets(v, 0x8000_0000_0000_0000) <==> Meets(w, 0x8000_0000_0000_0000)
    ensures v == w
  {
  }

  lemma MaskThree(n: nat)
    requires n + 3 < WORD_BITS
    ensures Mask(n + 3) == Mask(n) << 3
  {
    hide Mask;
    MaskNext(n + 1);
    MaskNext(n + 2);
    MaskNext(n + 3);
  }

  lemma MaskNine(n: nat)
    requires n + 9 < WORD_BITS
    ensures Mask(n + 9) == Mask(n) << 9
  {
    hide Mask;
    MaskThree(n);
    MaskThree(n + 3);
    MaskThree(n + 6);
  }

  lemma MaskTop()
    ensures Mask(63) == 0x8000_0000_0000_0000
  {
    assert Mask(0) == 1;
    hide Mask;
    MaskNine(0);
    MaskNine(9);
    MaskNine(18);
    MaskNine(27);
    MaskNine(36);
    MaskNine(45);
    MaskNine(54);
  }

  lemma {:induction false} AgreeUpTo(v: Word, w: Word, i: nat)
    requires i < WORD_BITS && forall j :: 0 <= j < i ==> (Bit(v, j) <==> Bit(w, j))
    ensures AgreeBelow(v, w, Mask(i))
  {
    if i == 0 {
    } else {
      hide Mask, SingleBit, Fits, Ceiling, AgreeBelow, Meets;
      AgreeUpTo(v, w, i - 1);
      assert Bit(v, i - 1) <==> Bit(w, i - 1);
      MaskBit(i - 1);
      MaskNext(i);
      CeilingNext(63 - i);
      AgreeNext(v, w, Mask(i - 1), Ceiling(63 - i));
    }
  }

  lemma SameBits(v: Word, w: Word)
    requires forall i :: 0 <= i < WORD_BITS ==> (Bit(v, i) <==> Bit(w, i))
    ensures v == w
  {
    hide Mask, AgreeBelow, Meets;
    AgreeUpTo(v, w, 63);
    assert Bit(v, 63) <==> Bit(w, 63);
    MaskTop();
    AgreeAll(v, w);
  }
}
