/** What the table-driven CRC computes, and which corruptions of a message it notices. */
module CrcLaws {
  import opened Slip
  import opened Polynomial
  import opened CrcTable
  import opened Crc32

  /** A byte at the top of a word. */
  function Top(b: byte): bv32 {
    b as bv32 << 24
  }

  // ------------------------------------------------------------- one byte at a time

  lemma LowPart(crc: bv32, low: bv32, s: bv32)
    requires low == crc & 0x00FF_FFFF && s == crc << 8
    ensures low & 0xFF00_0000 == 0 && low << 8 == s
  {
  }

  lemma HighByte(crc: bv32, b: byte, t: bv8)
    requires t == (((crc >> 24) ^ (b as bv32)) & 0xFF) as bv8
    ensures Top(t) == Plus(crc & 0xFF00_0000, Top(b))
  {
  }

  lemma Halves(crc: bv32, high: bv32, low: bv32)
    requires high == crc & 0xFF00_0000 && low == crc & 0x00FF_FFFF
    ensures crc == Plus(high, low)
  {
  }

  lemma HighPart(crc: bv32, b: byte, t: bv8, low: bv32)
    requires t == (((crc >> 24) ^ (b as bv32)) & 0xFF) as bv8 && low == crc & 0x00FF_FFFF
    ensures Plus(crc, Top(b)) == Plus(Top(t), low)
  {
    hide Plus, Top;
    HighByte(crc, b, t);
    SwapLast(crc, crc & 0xFF00_0000, low, Top(b));
  }

  lemma SwapLast(crc: bv32, high: bv32, low: bv32, u: bv32)
    requires high == crc & 0xFF00_0000 && low == crc & 0x00FF_FFFF
    ensures Plus(crc, u) == Plus(Plus(high, u), low)
  {
    hide Plus;
    Halves(crc, high, low);
    PlusAssoc(high, low, u);
    PlusLaws(low, u);
    PlusAssoc(high, u, low);
  }

  lemma StepSum(crc: bv32, b: byte, t: bv8, low: bv32, s: bv32)
    requires t == (((crc >> 24) ^ (b as bv32)) & 0xFF) as bv8 && low == crc & 0x00FF_FFFF && s == crc << 8
    ensures Plus(crc, Top(b)) == Plus(Top(t), low) && TimesX8(low) == s
  {
    hide TimesX8, Plus, Top;
    LowPart(crc, low, s);
    HighPart(crc, b, t, low);
    TimesX8Shifts(low);
  }

  lemma StepEntry(crc: bv32, b: byte, t: bv8, s: bv32, e: bv32)
    requires t == (((crc >> 24) ^ (b as bv32)) & 0xFF) as bv8 && s == crc << 8 && TableEntry(t) == e
    ensures TableStep(crc, b) == Plus(e, s)
  {
  }

  lemma StepParts(crc: bv32, b: byte, t: bv8, low: bv32, s: bv32)
    requires t == (((crc >> 24) ^ (b as bv32)) & 0xFF) as bv8 && low == crc & 0x00FF_FFFF && s == crc << 8
    ensures TableStep(crc, b) == TimesX8(Plus(crc, Top(b)))
  {
    hide TimesX8, TableEntry, TableStep, Plus, Top;
    StepSum(crc, b, t, low, s);
    EntryIsTop(t);
    StepEntry(crc, b, t, s, TimesX8(Top(t)));
    TimesX8Linear(Top(t), low);
  }

  lemma EntryIsTop(t: bv8)
    ensures TableEntry(t) == TimesX8(Top(t))
  {
    hide TableEntry, TimesX8;
    EntryIsRemainder(t);
  }

  /** A table step adds the byte at the top and multiplies by x^8. */
  lemma StepIsTimesX8(crc: bv32, b: byte)
    ensures TableStep(crc, b) == TimesX8(Plus(crc, Top(b)))
  {
    hide TimesX8, TableStep, Plus;
    StepParts(crc, b, (((crc >> 24) ^ (b as bv32)) & 0xFF) as bv8, crc & 0x00FF_FFFF, crc << 8);
  }

  // ------------------------------------------------------------------- linearity

  function XorBytes(a: seq<byte>, b: seq<byte>): (r: seq<byte>)
    requires |a| == |b|
    ensures |r| == |a| && forall i | 0 <= i < |a| :: r[i] == a[i] ^ b[i]
  {
    seq(|a|, i requires 0 <= i < |a| => a[i] ^ b[i])
  }

  lemma TopSum(a: byte, b: byte)
    ensures Top(a ^ b) == Plus(Top(a), Top(b))
  {
  }

  lemma StepLinear(c: bv32, d: bv32, a: byte, b: byte)
    ensures TableStep(Plus(c, d), a ^ b) == Plus(TableStep(c, a), TableStep(d, b))
  {
    hide TableStep, TimesX8, Plus, Top;
    StepIsTimesX8(c, a);
    StepIsTimesX8(d, b);
    StepIsTimesX8(Plus(c, d), a ^ b);
    TopSum(a, b);
    PlusSwap(c, d, Top(a), Top(b));
    TimesX8Linear(Plus(c, Top(a)), Plus(d, Top(b)));
  }

  /** The CRC is linear in message and initial value together. */
  lemma {:induction false} CrcLinear(c: bv32, d: bv32, a: seq<byte>, b: seq<byte>)
    requires |a| == |b|
    ensures Crc(Plus(c, d), XorBytes(a, b)) == Plus(Crc(c, a), Crc(d, b))
    decreases |a|
  {
    hide TableStep, Plus;
    if a != [] {
      StepLinear(c, d, a[0], b[0]);
      CrcLinear(TableStep(c, a[0]), TableStep(d, b[0]), a[1..], b[1..]);
      assert XorBytes(a, b)[1..] == XorBytes(a[1..], b[1..]);
    }
  }

  // ----------------------------------------------------------- bursts of errors

  /** The one word whose multiple by x vanishes; G has no constant term, so x divides G. */
  const KERNEL: bv32 := 0x84C1_1DB7

  predicate Even(c: bv32) {
    c & 1 == 0
  }

  lemma TimesXEven(c: bv32)
    ensures Even(TimesX(c))
  {
  }

  lemma TimesXZero(c: bv32)
    ensures TimesX(c) == 0 <==> c == 0 || c == KERNEL
  {
  }

  /** Multiplying by a positive power of x loses nothing but the kernel: after the first step
      the word is even, and no even word but zero is ever multiplied to zero. */
  lemma {:induction false} PowZero(c: bv32, k: nat)
    requires k > 0
    ensures TimesXPow(c, k) == 0 <==> c == 0 || c == KERNEL
    decreases k
  {
    hide TimesX, Even;
    TimesXZero(c);
    assert TimesXPow(c, k) == TimesXPow(TimesX(c), k - 1);
    if k > 1 {
      PowZero(TimesX(c), k - 1);
      TimesXEven(c);
      KernelIsOdd();
    } else {
      assert TimesXPow(TimesX(c), 0) == TimesX(c);
    }
  }

  lemma KernelIsOdd()
    ensures !Even(KERNEL)
  {
  }

  /** The CRC of a non-empty message is always even: it carries 31 bits, not 32. */
  lemma CrcIsEven(crc: bv32, data: seq<byte>)
    requires data != []
    ensures Even(Crc(crc, data))
  {
    hide Crc, TableStep, TimesX, Even, Plus;
    var n := |data| - 1;
    CrcNext(crc, data, n);
    assert data[..n + 1] == data;
    var c := Crc(crc, data[..n]);
    StepIsTimesX8(c, data[n]);
    TimesXEven(TimesX(TimesX(TimesX(TimesX(TimesX(TimesX(TimesX(Plus(c, Top(data[n]))))))))));
  }

  function Zeros(k: nat): (r: seq<byte>)
    ensures |r| == k && forall i | 0 <= i < k :: r[i] == 0
  {
    if k == 0 then [] else [0] + Zeros(k - 1)
  }

  lemma ZeroStep(c: bv32)
    ensures TableStep(c, 0) == TimesX8(c) && TableStep(0, 0) == 0
  {
    hide TableStep, TimesX8;
    StepIsTimesX8(c, 0);
    StepIsTimesX8(0, 0);
    PlusZero(c);
    PowEight(0);
    PowZero(0, 8);
  }

  /** Zero bytes multiply by powers of x. */
  lemma {:induction false} CrcZeros(c: bv32, k: nat)
    ensures Crc(c, Zeros(k)) == TimesXPow(c, 8 * k)
    ensures Crc(0, Zeros(k)) == 0
    decreases k
  {
    hide TableStep, TimesX8, TimesX;
    if k > 0 {
      ZeroStep(c);
      assert Zeros(k)[1..] == Zeros(k - 1);
      CrcZeros(TimesX8(c), k - 1);
      PowEight(c);
      PowSum(c, 8, 8 * (k - 1));
    }
  }

  /** Four bytes as a word, first byte at the top. */
  function Word(a: byte, b: byte, c: byte, d: byte): bv32 {
    Plus(Plus(Top(a), b as bv32 << 16), Plus(c as bv32 << 8, d as bv32))
  }

  lemma ByteShifts(b: byte, w0: bv32, w1: bv32, w2: bv32, w3: bv32)
    requires w0 == b as bv32 && w1 == b as bv32 << 8 && w2 == b as bv32 << 16 && w3 == b as bv32 << 24
    ensures w0 & 0xFF00_0000 == 0 && w1 & 0xFF00_0000 == 0 && w2 & 0xFF00_0000 == 0
    ensures w0 << 8 == w1 && w1 << 8 == w2 && w2 << 8 == w3
  {
  }

  /** A byte rises to the top of the word by multiplication with x^8. */
  lemma ByteRises(b: byte)
    ensures TimesX8(b as bv32) == b as bv32 << 8
    ensures TimesX8(b as bv32 << 8) == b as bv32 << 16
    ensures TimesX8(b as bv32 << 16) == Top(b)
  {
    hide TimesX8;
    var w0, w1, w2, w3 := b as bv32, b as bv32 << 8, b as bv32 << 16, b as bv32 << 24;
    ByteShifts(b, w0, w1, w2, w3);
    TimesX8Shifts(w0);
    TimesX8Shifts(w1);
    TimesX8Shifts(w2);
  }

  lemma PowThirtyTwo(c: bv32)
    ensures TimesXPow(c, 32) == TimesX8(TimesX8(TimesX8(TimesX8(c))))
  {
    hide TimesX8, TimesXPow;
    var d := TimesX8(c);
    var e := TimesX8(d);
    var f := TimesX8(e);
    PowEight(c);
    PowEight(d);
    PowEight(e);
    PowEight(f);
    PowSum(c, 8, 24);
    PowSum(d, 8, 16);
    PowSum(e, 8, 8);
  }

  lemma CrcFour(a: byte, b: byte, c: byte, d: byte)
    ensures Crc(0, [a, b, c, d]) == TableStep(TableStep(TableStep(TableStep(0, a), b), c), d)
  {
    hide TableStep;
    CrcCons(0, a, [b, c, d]);
    CrcCons(TableStep(0, a), b, [c, d]);
    CrcCons(TableStep(TableStep(0, a), b), c, [d]);
    CrcCons(TableStep(TableStep(TableStep(0, a), b), c), d, []);
    assert [a] + [b, c, d] == [a, b, c, d] && [b] + [c, d] == [b, c, d];
  }

  lemma CrcCons(crc: bv32, b: byte, data: seq<byte>)
    ensures Crc(crc, [b] + data) == Crc(TableStep(crc, b), data)
  {
  }

  /** Processing four bytes from zero multiplies the word they form by x^32. */
  lemma WindowIsWord(a: byte, b: byte, c: byte, d: byte)
    ensures Crc(0, [a, b, c, d]) == TimesXPow(Word(a, b, c, d), 32)
  {
    hide TableStep, TimesX8, Plus, Top;
    CrcFour(a, b, c, d);
    ByteRises(b);
    ByteRises(c);
    ByteRises(d);
    FoldFour(Top(a), b as bv32 << 16, c as bv32 << 8, d as bv32,
             c as bv32 << 16, Top(b), Top(c), Top(d), d as bv32 << 8, d as bv32 << 16, a, b, c, d);
    PowThirtyTwo(Word(a, b, c, d));
  }

  lemma FoldFour(p: bv32, q: bv32, r: bv32, s: bv32, r1: bv32, q1: bv32, r2: bv32, s3: bv32, s1: bv32, s2: bv32,
                 a: byte, b: byte, c: byte, d: byte)
    requires p == Top(a) && q1 == Top(b) && r2 == Top(c) && s3 == Top(d)
    requires TimesX8(q) == q1 && TimesX8(r) == r1 && TimesX8(r1) == r2
    requires TimesX8(s) == s1 && TimesX8(s1) == s2 && TimesX8(s2) == s3
    ensures TableStep(TableStep(TableStep(TableStep(0, a), b), c), d) ==
            TimesX8(TimesX8(TimesX8(TimesX8(Plus(Plus(p, q), Plus(r, s))))))
  {
    hide TableStep, TimesX8, Plus, Top;
    StepIsTimesX8(0, a);
    PlusZero(p);
    var x := TimesX8(p);
    StepIsTimesX8(x, b);
    TimesX8Linear(p, q);
    var pq := Plus(p, q);
    StepIsTimesX8(TimesX8(TimesX8(pq)), c);
    TimesX8Linear(pq, r);
    TimesX8Linear(TimesX8(pq), r1);
    var pqr := Plus(pq, r);
    StepIsTimesX8(TimesX8(TimesX8(TimesX8(pqr))), d);
    TimesX8Linear(pqr, s);
    TimesX8Linear(TimesX8(pqr), s1);
    TimesX8Linear(TimesX8(TimesX8(pqr)), s2);
    PlusAssoc(pq, r, s);
  }

  lemma WordIs(a: byte, b: byte, c: byte, d: byte)
    ensures Word(a, b, c, d) == 0 <==> [a, b, c, d] == [0, 0, 0, 0]
    ensures Word(a, b, c, d) == KERNEL <==> [a, b, c, d] == [0x84, 0xC1, 0x1D, 0xB7]
  {
  }

  /** The four bytes that vanish in the CRC. */
  const BLIND: seq<byte> := [0x84, 0xC1, 0x1D, 0xB7]

  /** A difference confined to four bytes, followed by `k` equal ones, leaves no trace in the
      CRC exactly if it is zero or the blind pattern. */
  lemma WindowVanishes(w: seq<byte>, k: nat)
    requires |w| == 4
    ensures Crc(0, w + Zeros(k)) == 0 <==> w == Zeros(4) || w == BLIND
  {
    hide Crc, TimesXPow, Word;
    assert w == [w[0], w[1], w[2], w[3]];
    var word := Word(w[0], w[1], w[2], w[3]);
    WindowIsWord(w[0], w[1], w[2], w[3]);
    CrcConcat(0, w, Zeros(k));
    CrcZeros(TimesXPow(word, 32), k);
    PowSum(word, 32, 8 * k);
    PowZero(word, 32 + 8 * k);
    WordIs(w[0], w[1], w[2], w[3]);
    ZerosFour();
  }

  lemma ZerosFour()
    ensures Zeros(4) == [0, 0, 0, 0]
  {
  }

  /** The CRC cannot tell two messages of equal length apart exactly if the CRC from zero of
      their difference is zero. */
  lemma SameCrcIff(crc: bv32, a: seq<byte>, b: seq<byte>)
    requires |a| == |b|
    ensures Crc(crc, a) == Crc(crc, b) <==> Crc(0, XorBytes(a, b)) == 0
  {
    hide Crc, Plus, XorBytes;
    CrcLinear(crc, crc, a, b);
    PlusZero(crc);
    PlusIsZero(Crc(crc, a), Crc(crc, b));
  }

  lemma XorBytesZero(a: seq<byte>, b: seq<byte>)
    requires |a| == |b|
    ensures XorBytes(a, b) == Zeros(|a|) <==> a == b
  {
  }

  lemma AllZero(x: seq<byte>)
    ensures x == Zeros(|x|) <==> forall i | 0 <= i < |x| :: x[i] == 0
  {
  }

  lemma XorBytesConcat(a: seq<byte>, b: seq<byte>, c: seq<byte>, d: seq<byte>)
    requires |a| == |b| && |c| == |d|
    ensures XorBytes(a + c, b + d) == XorBytes(a, b) + XorBytes(c, d)
  {
  }

  /** Only the window counts: equal bytes before it make no difference. */
  lemma SameInContext(crc: bv32, pre: seq<byte>, u: seq<byte>, v: seq<byte>, post: seq<byte>)
    requires |u| == |v|
    ensures Crc(crc, pre + u + post) == Crc(crc, pre + v + post) <==>
            Crc(0, XorBytes(u, v) + Zeros(|post|)) == 0
  {
    hide Crc, XorBytes, Zeros;
    var c := Crc(crc, pre);
    assert pre + u + post == pre + (u + post) && pre + v + post == pre + (v + post);
    CrcConcat(crc, pre, u + post);
    CrcConcat(crc, pre, v + post);
    SameCrcIff(c, u + post, v + post);
    XorBytesConcat(u, v, post, post);
    XorBytesZero(post, post);
  }

  /** Two messages that differ at most within four consecutive bytes have the same CRC exactly
      if they are equal or differ there by the blind pattern. */
  lemma BurstLaw(crc: bv32, pre: seq<byte>, u: seq<byte>, v: seq<byte>, post: seq<byte>)
    requires |u| == |v| == 4
    ensures Crc(crc, pre + u + post) == Crc(crc, pre + v + post) <==> u == v || XorBytes(u, v) == BLIND
  {
    hide Crc, XorBytes, Zeros;
    SameInContext(crc, pre, u, v, post);
    WindowVanishes(XorBytes(u, v), |post|);
    XorBytesZero(u, v);
  }

  lemma PadNotZero(pad: seq<byte>, w: seq<byte>)
    requires w != Zeros(|w|)
    ensures pad + w != Zeros(|pad| + |w|)
  {
    hide Zeros;
    AllZero(w);
    var i :| 0 <= i < |w| && w[i] != 0;
    assert (pad + w)[|pad| + i] != 0;
    AllZero(pad + w);
  }

  /** Any corruption confined to at most three consecutive bytes changes the CRC. */
  lemma ShortBurstDetected(crc: bv32, pre: seq<byte>, u: seq<byte>, v: seq<byte>, post: seq<byte>)
    requires |u| == |v| <= 3 && u != v
    ensures Crc(crc, pre + u + post) != Crc(crc, pre + v + post)
  {
    hide Crc, XorBytes, Zeros;
    SameInContext(crc, pre, u, v, post);
    XorBytesZero(u, v);
    ShortWindowShows(XorBytes(u, v), |post|);
  }

  lemma ShortWindowShows(w: seq<byte>, k: nat)
    requires |w| <= 3 && w != Zeros(|w|)
    ensures Crc(0, w + Zeros(k)) != 0
  {
    hide Crc, Zeros;
    var pad := Zeros(4 - |w|);
    CrcZeros(0, 4 - |w|);
    assert pad + (w + Zeros(k)) == (pad + w) + Zeros(k);
    CrcConcat(0, pad, w + Zeros(k));
    WindowVanishes(pad + w, k);
    PadNotZero(pad, w);
    assert (pad + w)[0] == 0;
  }

  // ----------------------------------------------------------------- verification

  /** Verification rejects every message whose payload was corrupted within three consecutive
      bytes, the stored CRC being intact; within four it lets through only the blind pattern. */
  lemma CorruptionRejected(pre: seq<byte>, u: seq<byte>, v: seq<byte>, post: seq<byte>)
    requires |u| == |v| && u != v
    ensures var received := pre + v + post + ToBytes(Crc(INITIAL, pre + u + post));
            && (|u| <= 3 ==> !Verified(received))
            && (|u| == 4 ==> (Verified(received) <==> XorBytes(u, v) == BLIND))
  {
    hide Crc, XorBytes, ToBytes;
    var p, q := pre + u + post, pre + v + post;
    var received := q + ToBytes(Crc(INITIAL, p));
    assert |u| > 0;
    VerifiedIff(received);
    assert received[..|received| - 4] == q;
    StoredWords(q, Crc(INITIAL, p), Crc(INITIAL, q));
    if |u| <= 3 {
      ShortBurstDetected(INITIAL, pre, u, v, post);
    }
    if |u| == 4 {
      BurstLaw(INITIAL, pre, u, v, post);
    }
  }

  lemma StoredWords(q: seq<byte>, c: bv32, d: bv32)
    ensures q + ToBytes(c) == q + ToBytes(d) <==> c == d
  {
    hide ToBytes;
    FromToBytes(c);
    FromToBytes(d);
    assert (q + ToBytes(c))[|q|..] == ToBytes(c) && (q + ToBytes(d))[|q|..] == ToBytes(d);
  }
}
