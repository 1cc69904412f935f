/** 64-bit machine words and their unsigned values.

    Page-table entries and virtual addresses are bit-vectors, manipulated with the operators vmm.c uses;
    table indices and frame numbers are naturals.  The lemmas here relate the two. */
module Words {

  type Word = bv64

  /** `n as Word`, built one bit at a time. */
  function FromBits(n: nat): Word {
    if n == 0 then 0 else WithBit(FromBits(n / 2), n % 2 == 1)
  }

  function WithBit(b: Word, bit: bool): Word {
    if bit then (b << 1) | 1 else b << 1
  }

  function Value(b: Word): nat {
    b as nat
  }

  lemma BelowHalf(b: Word)
    requires Value(b) < 0x8000_0000_0000_0000
    ensures b <= 0x7FFF_FFFF_FFFF_FFFF
  {
  }

  lemma ShiftIn(b: Word)
    requires b <= 0x7FFF_FFFF_FFFF_FFFF
    ensures Value(b << 1) == 2 * Value(b)
    ensures Value((b << 1) | 1) == 2 * Value(b) + 1
  {
  }

  lemma DoubleValue(b: Word, bit: bool)
    requires b <= 0x7FFF_FFFF_FFFF_FFFF
    ensures Value(WithBit(b, bit)) == 2 * Value(b) + (if bit then 1 else 0)
  {
    ShiftIn(b);
    hide Value;
  }

  lemma {:induction false} FromBitsValue(n: nat)
    requires n < 0x1_0000_0000_0000_0000
    ensures Value(FromBits(n)) == n
  {
    hide Value, WithBit;
    if n == 0 {
      NothingValue();
    } else {
      FromBitsValue(n / 2);
      BelowHalf(FromBits(n / 2));
      DoubleValue(FromBits(n / 2), n % 2 == 1);
    }
  }

  lemma NothingValue()
    ensures Value(0) == 0
  {
  }

  lemma ValueThenWord(b: Word)
    ensures (b as nat) as Word == b
  {
  }

  /** Converting a number that fits a word to a word and back gives the number. */
  lemma WordThenValue(n: nat)
    requires n < 0x1_0000_0000_0000_0000
    ensures (n as Word) as nat == n
  {
    FromBitsValue(n);
    ValueThenWord(FromBits(n));
  }

  /** Distinct words have distinct values. */
  lemma ValueInjective(b: Word, c: Word)
    requires b as nat == c as nat
    ensures b == c
  {
    ValueThenWord(b);
    ValueThenWord(c);
  }

  lemma SmallIndex(b: Word)
    requires b <= 0x1FF
    ensures b as nat < 512
  {
  }

  lemma SmallFrame(n: nat)
    requires n < 0x10_0000
    ensures n as Word < 0x10_0000
  {
    WordThenValue(n);
    var b := n as Word;
    if b >= 0x10_0000 {
      LargeValue(b);
    }
  }

  lemma LargeValue(b: Word)
    requires b >= 0x10_0000
    ensures b as nat >= 0x10_0000
  {
  }

  lemma SplitLowBit(b: Word)
    ensures b == ((b >> 1) << 1) | (b & 1)
    ensures b >> 1 <= 0x7FFF_FFFF_FFFF_FFFF
    ensures b & 1 == 0 || b & 1 == 1
  {
  }

  /** A word and its halves as numbers. */
  lemma HalfValue(b: Word)
    ensures b & 1 == 1 ==> Value(b) == 2 * Value(b >> 1) + 1
    ensures b & 1 == 0 ==> Value(b) == 2 * Value(b >> 1)
  {
    SplitLowBit(b);
    ShiftIn(b >> 1);
  }

  function Half(b: Word): Word {
    b >> 1
  }

  function Eighth(b: Word): Word {
    b >> 3
  }

  lemma HalvedValue(b: Word)
    ensures Value(Half(b)) == Value(b) / 2
  {
    HalfValue(b);
    SplitLowBit(b);
    hide Value;
  }

  lemma EighthIsThreeHalves(b: Word)
    ensures Half(Half(Half(b))) == Eighth(b)
  {
  }

  lemma EighthValue(b: Word)
    ensures Value(Eighth(b)) == Value(b) / 8
  {
    hide *;
    HalvedValue(b);
    HalvedValue(Half(b));
    HalvedValue(Half(Half(b)));
    EighthIsThreeHalves(b);
  }

  lemma PageIsFourEighths(b: Word)
    ensures Eighth(Eighth(Eighth(Eighth(b)))) == b >> 12
  {
  }

  /** The page of an address, as numbers. */
  lemma PageValue(b: Word)
    ensures Value(b >> 12) == Value(b) / 4096
  {
    hide *;
    EighthValue(b);
    EighthValue(Eighth(b));
    EighthValue(Eighth(Eighth(b)));
    EighthValue(Eighth(Eighth(Eighth(b))));
    PageIsFourEighths(b);
  }

  predicate Odd(b: Word) {
    b & 1 == 1
  }

  lemma EvenValueEvenWord(b: Word)
    requires Value(b) % 2 == 0
    ensures !Odd(b)
  {
    HalfValue(b);
    hide Value;
  }

  predicate LowThreeClear(b: Word) {
    b & 7 == 0
  }

  predicate PageAligned(b: Word) {
    b & 0xFFF == 0
  }

  lemma LowThreeBits(b: Word)
    requires !Odd(b) && !Odd(Half(b)) && !Odd(Half(Half(b)))
    ensures LowThreeClear(b)
  {
  }

  lemma MultipleOfEight(b: Word)
    requires Value(b) % 8 == 0
    ensures LowThreeClear(b)
  {
    hide *;
    HalvedValue(b);
    HalvedValue(Half(b));
    EvenValueEvenWord(b);
    EvenValueEvenWord(Half(b));
    EvenValueEvenWord(Half(Half(b)));
    LowThreeBits(b);
  }

  lemma LowTwelveBits(b: Word)
    requires LowThreeClear(b) && LowThreeClear(Eighth(b)) && LowThreeClear(Eighth(Eighth(b)))
    requires LowThreeClear(Eighth(Eighth(Eighth(b))))
    ensures PageAligned(b)
  {
  }

  lemma FourEightfolds(n: nat)
    requires n % 4096 == 0
    ensures n % 8 == 0 && n / 8 % 8 == 0 && n / 8 / 8 % 8 == 0 && n / 8 / 8 / 8 % 8 == 0
  {
  }

  /** Multiples of the page size have twelve zero bits. */
  lemma PageMultiple(b: Word)
    requires Value(b) % 4096 == 0
    ensures PageAligned(b)
  {
    hide *;
    FourEightfolds(Value(b));
    EighthValue(b);
    EighthValue(Eighth(b));
    EighthValue(Eighth(Eighth(b)));
    MultipleOfEight(b);
    MultipleOfEight(Eighth(b));
    MultipleOfEight(Eighth(Eighth(b)));
    MultipleOfEight(Eighth(Eighth(Eighth(b))));
    LowTwelveBits(b);
  }

  /** A number as a machine word. */
  function ToWord(n: nat): Word
    requires n < 0x1_0000_0000_0000_0000
  {
    n as Word
  }

  lemma ToWordValue(n: nat)
    requires n < 0x1_0000_0000_0000_0000
    ensures Value(ToWord(n)) == n
  {
    WordThenValue(n);
  }

  lemma Below36Bits(b: Word)
    requires Value(b) < 0x10_0000_0000
    ensures b & 0xF_FFFF_FFFF == b
  {
    Small36(b);
    Mask36(b);
  }

  lemma Small36(b: Word)
    requires Value(b) < 0x10_0000_0000
    ensures b <= 0xF_FFFF_FFFF
  {
  }

  lemma Mask36(b: Word)
    requires b <= 0xF_FFFF_FFFF
    ensures b & 0xF_FFFF_FFFF == b
  {
  }

  // ---- indices ---------------------------------------------------------------------------------------

  lemma RemainderIs(a: nat, d: nat, q: nat, r: nat)
    requires a == d * q + r && r < d
    ensures a % d == r
  {
    var q', r' := a / d, a % d;
    Distribute(d, q, q');
    if q' > q {
      AtLeastOnce(d, q' - q);
    } else if q' < q {
      AtLeastOnce(d, q - q');
    }
  }

  lemma Distribute(d: nat, q: nat, q': nat)
    ensures d * (q' - q) == d * q' - d * q && d * (q - q') == d * q - d * q'
  {
  }

  lemma AtLeastOnce(d: nat, n: nat)
    requires n >= 1
    ensures d * n >= d
  {
  }

  lemma DoubleMod(h: nat, low: nat, p: nat)
    requires p > 0 && low < 2
    ensures (2 * h + low) % (2 * p) == 2 * (h % p) + low
  {
    var q, r := h / p, h % p;
    assert h == p * q + r;
    Twice(p, q);
    RemainderIs(2 * h + low, 2 * p, q, 2 * r + low);
  }

  lemma Twice(p: nat, q: nat)
    ensures 2 * p * q == 2 * (p * q)
  {
  }

  function Masked(b: Word, x: Word): Word {
    b & x
  }

  function Wider(x: Word): Word {
    (x << 1) | 1
  }

  /** One more bit of a mask. */
  lemma MaskBit(b: Word, x: Word)
    requires x <= 0x7FF
    ensures Half(Masked(b, Wider(x))) == Masked(Half(b), x)
    ensures Odd(Masked(b, Wider(x))) <==> Odd(b)
  {
  }

  lemma MaskedValue(b: Word, x: Word, p: nat)
    requires x <= 0x7FF && p > 0 && Value(Masked(Half(b), x)) == Value(Half(b)) % p
    ensures Value(Masked(b, Wider(x))) == Value(b) % (2 * p)
  {
    hide *;
    MaskBit(b, x);
    OddValue(b);
    OddValue(Masked(b, Wider(x)));
    DoubleMod(Value(Half(b)), if Odd(b) then 1 else 0, p);
  }

  lemma OddValue(b: Word)
    ensures Value(b) == 2 * Value(Half(b)) + (if Odd(b) then 1 else 0)
  {
    HalfValue(b);
    SplitLowBit(b);
    hide Value;
  }

  /** The k low bits. */
  function Mask(k: nat): Word {
    if k == 0 then 0 else Wider(Mask(k - 1))
  }

  function Pow2(k: nat): (p: nat)
    ensures p > 0
  {
    if k == 0 then 1 else 2 * Pow2(k - 1)
  }

  lemma Masks()
    ensures Mask(0) == 0 && Mask(1) == 1 && Mask(2) == 3 && Mask(3) == 7 && Mask(4) == 15
    ensures Mask(5) == 31 && Mask(6) == 63 && Mask(7) == 127 && Mask(8) == 255 && Mask(9) == 511
    ensures Mask(10) == 1023 && Mask(11) == 2047 && Mask(12) == 4095
  {
    assert Mask(3) == 7;
    assert Mask(6) == 63;
    assert Mask(9) == 511;
  }

  lemma NoBits(b: Word)
    ensures Value(Masked(b, 0)) == 0
  {
  }

  lemma {:induction false} LowBits(b: Word, k: nat)
    requires k <= 12
    ensures Value(Masked(b, Mask(k))) == Value(b) % Pow2(k)
    decreases k
  {
    hide Value, Half, Masked, Wider;
    if k == 0 {
      NoBits(b);
    } else {
      SmallMask(k - 1);
      LowBits(Half(b), k - 1);
      MaskedValue(b, Mask(k - 1), Pow2(k - 1));
    }
  }

  lemma SmallMask(k: nat)
    requires k <= 11
    ensures Mask(k) <= 0x7FF
  {
    Masks();
    if k == 0 || k == 1 || k == 2 || k == 3 || k == 4 || k == 5 || k == 6 || k == 7 || k == 8 || k == 9 || k == 10 {
    }
  }

  /** A table index as a number. */
  function LowNine(b: Word): Word {
    b & 0x1FF
  }

  lemma LowNineValue(b: Word)
    ensures Value(LowNine(b)) == Value(b) % 512
  {
    Masks();
    assert Pow2(9) == 512;
    hide Value;
    LowBits(b, 9);
  }

  function Ninth(b: Word): Word {
    b >> 9
  }

  lemma NinthIsThreeEighths(b: Word)
    ensures Eighth(Eighth(Eighth(b))) == Ninth(b)
  {
  }

  lemma NinthValue(b: Word)
    ensures Value(Ninth(b)) == Value(b) / 512
  {
    hide *;
    EighthValue(b);
    EighthValue(Eighth(b));
    EighthValue(Eighth(Eighth(b)));
    NinthIsThreeEighths(b);
  }

  function Twelfth(b: Word): Word {
    b >> 12
  }

  lemma TwelfthValue(b: Word)
    ensures Value(Twelfth(b)) == Value(b) / 4096
  {
    PageValue(b);
    hide Value;
  }

  lemma NineByNine(b: Word)
    ensures Ninth(Twelfth(b)) == b >> 21 && Ninth(Ninth(Twelfth(b))) == b >> 30
    ensures Ninth(Ninth(Ninth(Twelfth(b)))) == b >> 39
  {
  }

  /** A word and its low twelve bits. */
  lemma LowTwelveValue(b: Word)
    ensures Value(b) == 4096 * Value(Twelfth(b)) + Value(Masked(b, 0xFFF))
  {
    Masks();
    assert Pow2(12) == 4096;
    hide Value, Masked, Twelfth;
    TwelfthValue(b);
    LowBits(b, 12);
  }

  /** The four table indices of an address, as numbers. */
  lemma IndexValues(b: Word)
    ensures Value(LowNine(Twelfth(b))) == Value(b) / 4096 % 512
    ensures Value(LowNine(Ninth(Twelfth(b)))) == Value(b) / 4096 / 512 % 512
    ensures Value(LowNine(Ninth(Ninth(Twelfth(b))))) == Value(b) / 4096 / 512 / 512 % 512
    ensures Value(LowNine(Ninth(Ninth(Ninth(Twelfth(b)))))) == Value(b) / 4096 / 512 / 512 / 512 % 512
  {
    hide *;
    var v := Twelfth(b);
    TwelfthValue(b);
    NinthValue(v);
    NinthValue(Ninth(v));
    NinthValue(Ninth(Ninth(v)));
    LowNineValue(v);
    LowNineValue(Ninth(v));
    LowNineValue(Ninth(Ninth(v)));
    LowNineValue(Ninth(Ninth(Ninth(v))));
  }
}
