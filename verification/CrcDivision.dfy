/** The CRC against its textbook definition: the remainder of long division, bit by bit and
    highest bit first, of the message polynomial by G. */
module CrcDivision {
  import opened Slip
  import opened Polynomial
  import opened Crc32
  import opened CrcLaws

  /** One step of long division: bring down the next bit. */
  function DivideStep(r: bv32, bit: bool): bv32 {
    Plus(TimesX(r), if bit then 1 else 0)
  }

  function Divide(r: bv32, bits: seq<bool>): bv32
    decreases |bits|
  {
    if bits == [] then r else Divide(DivideStep(r, bits[0]), bits[1..])
  }

  /** The highest n bits of a word, highest first. */
  function TopBits(w: bv32, n: nat): (r: seq<bool>)
    ensures |r| == n
    decreases n
  {
    if n == 0 then [] else [TopBit(w)] + TopBits(w << 1, n - 1)
  }

  function MessageBits(data: seq<byte>): (r: seq<bool>)
    ensures |r| == 8 * |data|
  {
    if data == [] then [] else TopBits(Top(data[0]), 8) + MessageBits(data[1..])
  }

  function ZeroBits(k: nat): (r: seq<bool>)
    ensures |r| == k && forall i | 0 <= i < k :: !r[i]
  {
    if k == 0 then [] else [false] + ZeroBits(k - 1)
  }

  // ------------------------------------------- the register fed from the other end

  /** Feeding a bit in at the top, as the CRC does, saves the 32 zero bits of division. */
  function FeedStep(c: bv32, bit: bool): bv32 {
    Plus(TimesX(c), if bit then GENERATOR else 0)
  }

  function Feed(c: bv32, bits: seq<bool>): bv32
    decreases |bits|
  {
    if bits == [] then c else Feed(FeedStep(c, bits[0]), bits[1..])
  }

  lemma {:induction false} FeedConcat(c: bv32, a: seq<bool>, b: seq<bool>)
    ensures Feed(c, a + b) == Feed(Feed(c, a), b)
    decreases |a|
  {
    hide FeedStep;
    if a == [] {
      assert a + b == b;
    } else {
      assert (a + b)[1..] == a[1..] + b;
      FeedConcat(FeedStep(c, a[0]), a[1..], b);
    }
  }

  lemma {:induction false} DivideConcat(r: bv32, a: seq<bool>, b: seq<bool>)
    ensures Divide(r, a + b) == Divide(Divide(r, a), b)
    decreases |a|
  {
    hide DivideStep;
    if a == [] {
      assert a + b == b;
    } else {
      assert (a + b)[1..] == a[1..] + b;
      DivideConcat(DivideStep(r, a[0]), a[1..], b);
    }
  }

  function ShiftPow(w: bv32, n: nat): bv32
    decreases n
  {
    if n == 0 then w else ShiftPow(w << 1, n - 1)
  }

  lemma FeedOne(c: bv32, w: bv32)
    ensures TimesX(Plus(c, w)) == Plus(FeedStep(c, TopBit(w)), w << 1)
  {
    hide Plus, TopBit;
    TimesXLinear(c, w);
    PlusLaws(w << 1, Carry(w));
    PlusAssoc(TimesX(c), Carry(w), w << 1);
  }

  /** Adding a word and multiplying by x^n is feeding in its top n bits. */
  lemma {:induction false} FeedTop(c: bv32, w: bv32, n: nat)
    ensures TimesXPow(Plus(c, w), n) == Plus(Feed(c, TopBits(w, n)), ShiftPow(w, n))
    decreases n
  {
    hide Plus, TimesX, FeedStep, TopBit;
    if n > 0 {
      FeedOne(c, w);
      FeedTop(FeedStep(c, TopBit(w)), w << 1, n - 1);
      assert TopBits(w, n)[1..] == TopBits(w << 1, n - 1);
    }
  }

  lemma TopShiftsOut(b: byte)
    ensures ShiftPow(Top(b), 8) == 0
  {
  }

  lemma StepIsFeed(crc: bv32, b: byte)
    ensures TableStep(crc, b) == Feed(crc, TopBits(Top(b), 8))
  {
    hide TableStep, TimesX8, TimesXPow, Feed, TopBits, Plus, Top, ShiftPow;
    StepIsTimesX8(crc, b);
    PowEight(Plus(crc, Top(b)));
    FeedTop(crc, Top(b), 8);
    TopShiftsOut(b);
    PlusZero(Feed(crc, TopBits(Top(b), 8)));
  }

  /** The table-driven loop is the bit-at-a-time register. */
  lemma {:induction false} CrcIsFeed(crc: bv32, data: seq<byte>)
    ensures Crc(crc, data) == Feed(crc, MessageBits(data))
    decreases |data|
  {
    hide TableStep, TopBits;
    if data != [] {
      StepIsFeed(crc, data[0]);
      CrcIsFeed(TableStep(crc, data[0]), data[1..]);
      FeedConcat(crc, TopBits(Top(data[0]), 8), MessageBits(data[1..]));
    }
  }

  // --------------------------------------------------------- feeding and dividing

  lemma FeedStepLinear(a: bv32, b: bv32, bit: bool)
    ensures FeedStep(Plus(a, b), bit) == Plus(TimesX(a), FeedStep(b, bit))
  {
    hide Plus, TimesX;
    TimesXLinear(a, b);
    PlusAssoc(TimesX(a), TimesX(b), if bit then GENERATOR else 0);
  }

  /** The initial value contributes its own multiple of a power of x. */
  lemma {:induction false} FeedLinear(a: bv32, b: bv32, bits: seq<bool>)
    ensures Feed(Plus(a, b), bits) == Plus(TimesXPow(a, |bits|), Feed(b, bits))
    decreases |bits|
  {
    hide Plus, TimesX, FeedStep;
    if bits != [] {
      FeedStepLinear(a, b, bits[0]);
      FeedLinear(TimesX(a), FeedStep(b, bits[0]), bits[1..]);
    }
  }

  lemma PowCommutes(r: bv32, k: nat)
    ensures TimesXPow(TimesX(r), k) == TimesX(TimesXPow(r, k))
  {
    hide TimesX;
    PowSum(r, 1, k);
    PowSum(r, k, 1);
    assert TimesXPow(r, 1) == TimesXPow(TimesX(r), 0);
    assert TimesXPow(TimesXPow(r, k), 1) == TimesXPow(TimesX(TimesXPow(r, k)), 0);
  }

  lemma OneRises()
    ensures TimesXPow(1, 32) == GENERATOR && TimesXPow(0, 32) == 0
  {
    hide TimesX8, TimesXPow;
    PowZero(0, 32);
    PowThirtyTwo(1);
    TimesX8Shifts(1);
    TimesX8Shifts(0x100);
    TimesX8Shifts(0x1_0000);
    TopOfOne();
    assert (1 as bv32) << 8 == 0x100 && (0x100 as bv32) << 8 == 0x1_0000 && (0x1_0000 as bv32) << 8 == 0x100_0000;
  }

  lemma TopOfOne()
    ensures TimesX8(0x100_0000) == GENERATOR
  {
  }

  lemma FeedAfterDivide(r: bv32, bit: bool)
    ensures FeedStep(TimesXPow(r, 32), bit) == TimesXPow(DivideStep(r, bit), 32)
  {
    hide Plus, TimesX, TimesXPow;
    PowCommutes(r, 32);
    PowLinear(TimesX(r), if bit then 1 else 0, 32);
    OneRises();
  }

  lemma {:induction false} FeedIsDivide(r: bv32, bits: seq<bool>)
    ensures Feed(TimesXPow(r, 32), bits) == TimesXPow(Divide(r, bits), 32)
    decreases |bits|
  {
    hide FeedStep, DivideStep, TimesXPow;
    if bits != [] {
      FeedAfterDivide(r, bits[0]);
      FeedIsDivide(DivideStep(r, bits[0]), bits[1..]);
    }
  }

  lemma {:induction false} DivideZeros(r: bv32, k: nat)
    ensures Divide(r, ZeroBits(k)) == TimesXPow(r, k)
    decreases k
  {
    hide Plus, TimesX;
    if k > 0 {
      PlusZero(TimesX(r));
      assert DivideStep(r, false) == TimesX(r);
      assert ZeroBits(k)[1..] == ZeroBits(k - 1);
      DivideZeros(TimesX(r), k - 1);
    }
  }

  /** The CRC of any message is the remainder, modulo G, of the message polynomial times
      x^32, plus the initial value times x^(8n). */
  lemma DivisionLaw(crc: bv32, data: seq<byte>)
    ensures Crc(crc, data) ==
            Plus(TimesXPow(crc, 8 * |data|), Divide(0, MessageBits(data) + ZeroBits(32)))
  {
    hide Crc, Plus, TimesXPow, Feed, Divide, MessageBits, ZeroBits;
    var bits := MessageBits(data);
    CrcIsFeed(crc, data);
    PlusZero(crc);
    FeedLinear(crc, 0, bits);
    OneRises();
    FeedIsDivide(0, bits);
    DivideConcat(0, bits, ZeroBits(32));
    DivideZeros(Divide(0, bits), 32);
  }

  /** Error detection for every pattern: two messages of equal length have the same CRC exactly
      if the polynomial of their difference leaves remainder zero or the kernel word. */
  lemma SameCrcByDivision(crc: bv32, a: seq<byte>, b: seq<byte>)
    requires |a| == |b|
    ensures Crc(crc, a) == Crc(crc, b) <==>
            var r := Divide(0, MessageBits(XorBytes(a, b))); r == 0 || r == KERNEL
  {
    hide Crc, TimesXPow, Feed, Divide, MessageBits, XorBytes;
    var d := XorBytes(a, b);
    SameCrcIff(crc, a, b);
    CrcIsFeed(0, d);
    OneRises();
    FeedIsDivide(0, MessageBits(d));
    PowZero(Divide(0, MessageBits(d)), 32);
  }

  // ------------------------------------------------------------- bursts of bits

  lemma {:induction false} FeedZeros(c: bv32, k: nat)
    ensures Feed(c, ZeroBits(k)) == TimesXPow(c, k)
    decreases k
  {
    hide Plus, TimesX;
    if k > 0 {
      PlusZero(TimesX(c));
      assert FeedStep(c, false) == TimesX(c);
      assert ZeroBits(k)[1..] == ZeroBits(k - 1);
      FeedZeros(TimesX(c), k - 1);
    }
  }

  lemma {:induction false} ShiftPowSum(w: bv32, j: nat, k: nat)
    ensures ShiftPow(w, j + k) == ShiftPow(ShiftPow(w, j), k)
    decreases j
  {
    if j > 0 {
      ShiftPowSum(w << 1, j - 1, k);
    }
  }

  lemma ShiftPowEight(w: bv32)
    ensures ShiftPow(w, 8) == w << 8
  {
  }

  /** 32 shifts empty the word. */
  lemma ShiftsOut(w: bv32)
    ensures ShiftPow(w, 32) == 0
  {
    hide ShiftPow;
    ShiftPowSum(w, 8, 24);
    ShiftPowSum(w << 8, 8, 16);
    ShiftPowSum((w << 8) << 8, 8, 8);
    ShiftPowEight(w);
    ShiftPowEight(w << 8);
    ShiftPowEight((w << 8) << 8);
    ShiftPowEight(((w << 8) << 8) << 8);
  }

  lemma FeedWord(w: bv32)
    ensures Feed(0, TopBits(w, 32)) == TimesXPow(w, 32)
  {
    hide Feed, TopBits, TimesXPow, ShiftPow, Plus;
    FeedTop(0, w, 32);
    ShiftsOut(w);
    PlusZero(w);
    PlusZero(Feed(0, TopBits(w, 32)));
  }

  /** From zero, a word between zero bits leaves its own multiple of a power of x. */
  lemma FeedBurst(i: nat, w: bv32, j: nat)
    ensures Feed(0, ZeroBits(i) + TopBits(w, 32) + ZeroBits(j)) == TimesXPow(w, 32 + j)
  {
    hide Feed, TopBits, ZeroBits, TimesXPow;
    FeedConcat(0, ZeroBits(i) + TopBits(w, 32), ZeroBits(j));
    FeedConcat(0, ZeroBits(i), TopBits(w, 32));
    FeedZeros(0, i);
    PowOfZero(i);
    FeedWord(w);
    FeedZeros(TimesXPow(w, 32), j);
    PowSum(w, 32, j);
  }

  lemma PowOfZero(k: nat)
    ensures TimesXPow(0, k) == 0
  {
    hide TimesX;
    if k > 0 {
      PowZero(0, k);
    }
  }

  /** Two messages that differ at most within 32 consecutive bits, wherever these begin, have
      the same CRC exactly if they are equal or differ there by the kernel word. */
  lemma BitBurstLaw(crc: bv32, a: seq<byte>, b: seq<byte>, i: nat, w: bv32, j: nat)
    requires |a| == |b| && MessageBits(XorBytes(a, b)) == ZeroBits(i) + TopBits(w, 32) + ZeroBits(j)
    ensures Crc(crc, a) == Crc(crc, b) <==> w == 0 || w == KERNEL
  {
    hide Crc, XorBytes, MessageBits, Feed, TopBits, ZeroBits, TimesXPow;
    SameCrcIff(crc, a, b);
    CrcIsFeed(0, XorBytes(a, b));
    FeedBurst(i, w, j);
    PowZero(w, 32 + j);
  }

  /** So every burst shorter than 32 bits is noticed: the kernel word has both ends set. */
  lemma ShortBitBurstDetected(crc: bv32, a: seq<byte>, b: seq<byte>, i: nat, w: bv32, j: nat)
    requires |a| == |b| && MessageBits(XorBytes(a, b)) == ZeroBits(i) + TopBits(w, 32) + ZeroBits(j)
    requires w != 0 && (Even(w) || !TopBit(w))
    ensures Crc(crc, a) != Crc(crc, b)
  {
    hide Crc, XorBytes, MessageBits, TopBits, ZeroBits, Even, TopBit;
    BitBurstLaw(crc, a, b, i, w, j);
    KernelIsOdd();
    KernelHasTop();
  }

  lemma KernelHasTop()
    ensures TopBit(KERNEL)
  {
  }

  // ------------------------------------------------------------- the initial value

  /** Bitwise sum of two bit strings. */
  function Sum(a: seq<bool>, b: seq<bool>): (r: seq<bool>)
    requires |a| == |b|
    ensures |r| == |a| && forall i | 0 <= i < |a| :: r[i] == (a[i] != b[i])
  {
    seq(|a|, i requires 0 <= i < |a| => a[i] != b[i])
  }

  lemma DivideStepLinear(r: bv32, s: bv32, a: bool, b: bool)
    ensures DivideStep(Plus(r, s), a != b) == Plus(DivideStep(r, a), DivideStep(s, b))
  {
    hide Plus, TimesX;
    TimesXLinear(r, s);
    var x, y: bv32 := if a then 1 else 0, if b then 1 else 0;
    PlusSwap(TimesX(r), x, TimesX(s), y);
    PlusZero(0);
    PlusZero(1);
  }

  /** Long division is linear. */
  lemma {:induction false} DivideLinear(r: bv32, s: bv32, a: seq<bool>, b: seq<bool>)
    requires |a| == |b|
    ensures Divide(Plus(r, s), Sum(a, b)) == Plus(Divide(r, a), Divide(s, b))
    decreases |a|
  {
    hide Plus, DivideStep;
    if a != [] {
      DivideStepLinear(r, s, a[0], b[0]);
      DivideLinear(DivideStep(r, a[0]), DivideStep(s, b[0]), a[1..], b[1..]);
      assert Sum(a, b)[1..] == Sum(a[1..], b[1..]);
    }
  }

  function OneBits(k: nat): (r: seq<bool>)
    ensures |r| == k && forall i | 0 <= i < k :: r[i]
  {
    if k == 0 then [] else [true] + OneBits(k - 1)
  }

  /** Nothing is divided away while the top byte is clear. */
  lemma DivideByteOfOnes(r: bv32)
    requires r & 0xFF00_0000 == 0
    ensures Divide(r, OneBits(8)) == (r << 8) | 0xFF
  {
    OnesUnfold(r);
  }

  lemma OnesUnfold(r: bv32)
    ensures Divide(r, OneBits(8)) ==
            DivideStep(DivideStep(DivideStep(DivideStep(DivideStep(DivideStep(DivideStep(DivideStep(
              r, true), true), true), true), true), true), true), true)
  {
    hide DivideStep;
  }

  /** 32 ones are their own remainder. */
  lemma DivideOnes()
    ensures Divide(0, OneBits(32)) == 0xFFFF_FFFF
  {
    hide Divide;
    var o := OneBits(8);
    assert OneBits(32) == o + o + o + o;
    DivideConcat(0, o + o + o, o);
    DivideConcat(0, o + o, o);
    DivideConcat(0, o, o);
    DivideByteOfOnes(0);
    DivideByteOfOnes(0xFF);
    DivideByteOfOnes(0xFFFF);
    DivideByteOfOnes(0xFF_FFFF);
    OnesShift();
  }

  lemma OnesShift()
    ensures ((0 as bv32) << 8) | 0xFF == 0xFF && ((0xFF as bv32) << 8) | 0xFF == 0xFFFF
    ensures ((0xFFFF as bv32) << 8) | 0xFF == 0xFF_FFFF && ((0xFF_FFFF as bv32) << 8) | 0xFF == 0xFFFF_FFFF
  {
  }

  /** The first 32 bits inverted. */
  function Inverted(bits: seq<bool>): (r: seq<bool>)
    requires 32 <= |bits|
    ensures |r| == |bits| && forall i | 0 <= i < |r| :: r[i] == if i < 32 then !bits[i] else bits[i]
  {
    Sum(OneBits(32) + ZeroBits(|bits| - 32), bits)
  }

  /** calculate_crc32 of any message, the empty one included: the remainder of the message
      followed by 32 zero bits, the first 32 bits of all that inverted. */
  lemma InitialLaw(data: seq<byte>)
    ensures |MessageBits(data) + ZeroBits(32)| >= 32
    ensures Crc(INITIAL, data) == Divide(0, Inverted(MessageBits(data) + ZeroBits(32)))
  {
    hide Crc, Plus, TimesXPow, Divide, MessageBits, OneBits;
    var k, bits := 8 * |data|, MessageBits(data) + ZeroBits(32);
    DivisionLaw(INITIAL, data);
    PlusZero(0);
    DivideLinear(0, 0, OneBits(32) + ZeroBits(k), bits);
    DivideConcat(0, OneBits(32), ZeroBits(k));
    DivideOnes();
    DivideZeros(0xFFFF_FFFF, k);
  }

  /** In bytes: from the fourth byte on, inverting the first four takes the place of the initial
      value. */
  lemma InvertedLaw(a: byte, b: byte, c: byte, d: byte, rest: seq<byte>)
    ensures Crc(INITIAL, [a, b, c, d] + rest) ==
            Divide(0, MessageBits([a ^ 0xFF, b ^ 0xFF, c ^ 0xFF, d ^ 0xFF] + rest) + ZeroBits(32))
  {
    hide Crc, Plus, TimesXPow, Divide, MessageBits, ZeroBits, Word;
    var m: seq<byte>, f: seq<byte> := [a, b, c, d], [0xFF, 0xFF, 0xFF, 0xFF];
    var g := [a ^ 0xFF, b ^ 0xFF, c ^ 0xFF, d ^ 0xFF];
    SameAsOnes();
    CrcLinear(INITIAL, 0, Zeros(4), m);
    CrcLinear(0, 0, m, f);
    PlusLaws(Crc(0, m), Crc(0, f));
    PlusZero(INITIAL);
    PlusZero(0);
    XorZeros(m);
    XorOnes(a, b, c, d);
    CrcConcat(INITIAL, m, rest);
    CrcConcat(0, g, rest);
    DivisionLaw(0, g + rest);
    PowOfZero(8 * |g + rest|);
    PlusZero(Divide(0, MessageBits(g + rest) + ZeroBits(32)));
  }

  lemma SameAsOnes()
    ensures Crc(INITIAL, Zeros(4)) == Crc(0, [0xFF, 0xFF, 0xFF, 0xFF])
  {
    hide Crc, TimesXPow;
    CrcZeros(INITIAL, 4);
    WindowIsWord(0xFF, 0xFF, 0xFF, 0xFF);
    assert Word(0xFF, 0xFF, 0xFF, 0xFF) == INITIAL;
  }

  lemma XorZeros(m: seq<byte>)
    ensures XorBytes(Zeros(|m|), m) == m
  {
  }

  lemma XorOnes(a: byte, b: byte, c: byte, d: byte)
    ensures XorBytes([a, b, c, d], [0xFF, 0xFF, 0xFF, 0xFF]) == [a ^ 0xFF, b ^ 0xFF, c ^ 0xFF, d ^ 0xFF]
  {
    hide XorBytes;
    var m: seq<byte>, f: seq<byte> := [a, b, c, d], [0xFF, 0xFF, 0xFF, 0xFF];
    XorAt(m, f, 0, a, 0xFF);
    XorAt(m, f, 1, b, 0xFF);
    XorAt(m, f, 2, c, 0xFF);
    XorAt(m, f, 3, d, 0xFF);
    FourBytes(XorBytes(m, f), a ^ 0xFF, b ^ 0xFF, c ^ 0xFF, d ^ 0xFF);
  }

  lemma XorAt(x: seq<byte>, y: seq<byte>, i: nat, a: byte, b: byte)
    requires |x| == |y| && i < |x| && x[i] == a && y[i] == b
    ensures XorBytes(x, y)[i] == a ^ b
  {
  }

  lemma FourBytes(x: seq<byte>, a: byte, b: byte, c: byte, d: byte)
    requires |x| == 4 && x[0] == a && x[1] == b && x[2] == c && x[3] == d
    ensures x == [a, b, c, d]
  {
  }

  /** Two values of calculate_crc32. */
  lemma KnownValues()
    ensures Crc(INITIAL, []) == 0xFFFF_FFFF && Crc(INITIAL, [0x00]) == 0xBA19_93D0
  {
  }
}
