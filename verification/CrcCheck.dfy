/** The CRC of sequence number 1, computed bit by bit. */
module CrcCheck {
  import opened Arithmetic
  import opened Crc32
  import opened LittleEndian

  /** Four bits, lowest first, and a register of eight such digits. */
  datatype Nibble = N(a: bool, b: bool, c: bool, d: bool)

  datatype Word = W(n0: Nibble, n1: Nibble, n2: Nibble, n3: Nibble, n4: Nibble, n5: Nibble, n6: Nibble, n7: Nibble)

  const X0 := N(false, false, false, false)
  const X1 := N(true, false, false, false)
  const X2 := N(false, true, false, false)
  const X3 := N(true, true, false, false)
  const X4 := N(false, false, true, false)
  const X5 := N(true, false, true, false)
  const X6 := N(false, true, true, false)
  const X7 := N(true, true, true, false)
  const X8 := N(false, false, false, true)
  const X9 := N(true, false, false, true)
  const XA := N(false, true, false, true)
  const XB := N(true, true, false, true)
  const XC := N(false, false, true, true)
  const XD := N(true, false, true, true)
  const XE := N(false, true, true, true)
  const XF := N(true, true, true, true)

  /** A digit shifted right, the lowest bit of the next one coming in, and the polynomial's digit
      fed back. */
  function Shifted(x: Nibble, next: Nibble, feed: bool, p: Nibble): Nibble
  {
    N(x.b != (feed && p.a), x.c != (feed && p.b), x.d != (feed && p.c), next.a != (feed && p.d))
  }

  function WordStep(w: Word): Word
  {
    var f := w.n0.a;
    W(Shifted(w.n0, w.n1, f, X0), Shifted(w.n1, w.n2, f, X2), Shifted(w.n2, w.n3, f, X3),
      Shifted(w.n3, w.n4, f, X8), Shifted(w.n4, w.n5, f, X8), Shifted(w.n5, w.n6, f, XB),
      Shifted(w.n6, w.n7, f, XD), Shifted(w.n7, X0, f, XE))
  }

  function WordSteps(w: Word, k: nat): Word { if k == 0 then w else WordStep(WordSteps(w, k - 1)) }

  lemma Eight(w: Word)
    ensures WordSteps(w, 8) ==
            WordStep(WordStep(WordStep(WordStep(WordStep(WordStep(WordStep(WordStep(w))))))))
  {
    hide WordStep;
    assert WordSteps(w, 0) == w;
    assert WordSteps(w, 2) == WordStep(WordSteps(w, 1)) == WordStep(WordStep(w));
    assert WordSteps(w, 4) == WordStep(WordSteps(w, 3)) == WordStep(WordStep(WordSteps(w, 2)));
    assert WordSteps(w, 6) == WordStep(WordSteps(w, 5)) == WordStep(WordStep(WordSteps(w, 4)));
    assert WordSteps(w, 8) == WordStep(WordSteps(w, 7)) == WordStep(WordStep(WordSteps(w, 6)));
  }

  lemma Steps0To8()
    ensures WordSteps(W(X1, X0, X0, X0, X0, X0, X0, X0), 8) == W(X6, X9, X0, X3, X7, X0, X7, X7)
  {
    Eight(W(X1, X0, X0, X0, X0, X0, X0, X0));
  }

  lemma Steps8To16()
    ensures WordSteps(W(X6, X9, X0, X3, X7, X0, X7, X7), 8) == W(X1, X4, X1, X3, XB, X1, X9, X1)
  {
    Eight(W(X6, X9, X0, X3, X7, X0, X7, X7));
  }

  lemma Steps16To24()
    ensures WordSteps(W(X1, X4, X1, X3, XB, X1, X9, X1), 8) == W(X7, X3, XA, X6, X2, XC, X1, X0)
  {
    Eight(W(X1, X4, X1, X3, XB, X1, X9, X1));
  }

  lemma Steps24To32()
    ensures WordSteps(W(X7, X3, XA, X6, X2, XC, X1, X0), 8) == W(X5, X6, X7, X6, XC, XB, X8, XB)
  {
    Eight(W(X7, X3, XA, X6, X2, XC, X1, X0));
  }

  // ---- digits and registers ----

  function Digit(w: Word, k: nat): Nibble
    requires k < 8
  {
    if k == 0 then w.n0 else if k == 1 then w.n1 else if k == 2 then w.n2 else if k == 3 then w.n3
    else if k == 4 then w.n4 else if k == 5 then w.n5 else if k == 6 then w.n6 else w.n7
  }

  function BitOf(x: Nibble, j: nat): bool
    requires j < 4
  {
    if j == 0 then x.a else if j == 1 then x.b else if j == 2 then x.c else x.d
  }

  function Reg(w: Word): Register { seq(32, i requires 0 <= i < 32 => BitOf(Digit(w, i / 4), i % 4)) }

  /** The polynomial's digits are those of 0xEDB88320. */
  lemma PolyDigits(k: nat, j: nat)
    requires k < 8 && j < 4
    ensures POLY[4 * k + j] == BitOf(Digit(W(X0, X2, X3, X8, X8, XB, XD, XE), k), j)
  {}

  lemma StepAgrees(w: Word)
    ensures BitStep(Reg(w)) == Reg(WordStep(w))
  {
    forall i | 0 <= i < 32 ensures BitStep(Reg(w))[i] == Reg(WordStep(w))[i] {
      PolyDigits(i / 4, i % 4);
      DigitAgrees(w, i / 4, i % 4);
    }
  }

  lemma DigitAgrees(w: Word, k: nat, j: nat)
    requires k < 8 && j < 4
    ensures var i := 4 * k + j;
            BitOf(Digit(WordStep(w), k), j) ==
            ((i < 31 && Reg(w)[i + 1]) != (Reg(w)[0] && BitOf(Digit(W(X0, X2, X3, X8, X8, XB, XD, XE), k), j)))
  {
    if j < 3 {
      assert (4 * k + j + 1) / 4 == k && (4 * k + j + 1) % 4 == j + 1;
    } else if k < 7 {
      assert (4 * k + j + 1) / 4 == k + 1 && (4 * k + j + 1) % 4 == 0;
    }
  }

  lemma {:induction false} StepsAgree(w: Word, k: nat)
    ensures Steps(Reg(w), k) == Reg(WordSteps(w, k))
  {
    hide BitStep, WordStep, Reg;
    if k == 0 {
    } else {
      StepsAgree(w, k - 1);
      StepAgrees(WordSteps(w, k - 1));
    }
  }

  /** The register after sequence number 1. */
  lemma RunOfOne()
    ensures Run([1, 0, 0, 0]) == Reg(W(X5, X6, X7, X6, XC, XB, X8, XB))
  {
    hide BitStep, WordStep, Steps;
    FirstByte();
    Steps0To8();
    StepsAgree(W(X1, X0, X0, X0, X0, X0, X0, X0), 8);
    ZeroByte(Reg(W(X6, X9, X0, X3, X7, X0, X7, X7)));
    Steps8To16();
    StepsAgree(W(X6, X9, X0, X3, X7, X0, X7, X7), 8);
    ZeroByte(Reg(W(X1, X4, X1, X3, XB, X1, X9, X1)));
    Steps16To24();
    StepsAgree(W(X1, X4, X1, X3, XB, X1, X9, X1), 8);
    ZeroByte(Reg(W(X7, X3, XA, X6, X2, XC, X1, X0)));
    Steps24To32();
    StepsAgree(W(X7, X3, XA, X6, X2, XC, X1, X0), 8);
    RunNext([], 1);
    RunNext([1], 0);
    RunNext([1, 0], 0);
    RunNext([1, 0, 0], 0);
    assert [] + [1] == [1] && [1] + [0] == [1, 0] && [1, 0] + [0] == [1, 0, 0] && [1, 0, 0] + [0] == [1, 0, 0, 0];
  }

  lemma RunNext(s: seq<byte>, b: byte)
    ensures Run(s + [b]) == Feed(Run(s), b)
  {
    assert (s + [b])[..|s|] == s;
  }

  lemma FirstByte()
    ensures Mix(Run([]), 1) == Reg(W(X1, X0, X0, X0, X0, X0, X0, X0))
  {
    NoBitsSet(0, 7);
    assert Bits(1, 8) == [true] + Bits(0, 7);
    var m, w := Mix(Run([]), 1), W(X1, X0, X0, X0, X0, X0, X0, X0);
    hide Reg, Digit, BitOf, Mix, Bits;
    forall i | 0 <= i < 32 ensures m[i] == Reg(w)[i] {
      FirstBit(i);
    }
  }

  lemma FirstBit(i: nat)
    requires i < 32
    ensures Mix(Run([]), 1)[i] == (i == 0) == Reg(W(X1, X0, X0, X0, X0, X0, X0, X0))[i]
  {
    NoBitsSet(0, 7);
    assert Bits(1, 8) == [true] + Bits(0, 7);
  }

  lemma ZeroByte(r: Register)
    ensures Mix(r, 0) == r
  {
    NoBitsSet(0, 8);
  }

  lemma {:induction false} NoBitsSet(v: nat, n: nat)
    requires v == 0
    ensures forall i | 0 <= i < n :: !Bits(v, n)[i]
  {
    if n == 0 {
    } else {
      NoBitsSet(0, n - 1);
    }
  }

  /** The check value: the record of sequence number 1 carries the CRC 0x4743989A. */
  lemma CrcOfOne()
    ensures Crc([1, 0, 0, 0]) == [0x9A, 0x98, 0x43, 0x47]
  {
    hide Run;
    RunOfOne();
    var w := W(X5, X6, X7, X6, XC, XB, X8, XB);
    OctetOf(w, 0, XA, X9);
    OctetOf(w, 1, X8, X9);
    OctetOf(w, 2, X3, X4);
    OctetOf(w, 3, X7, X4);
  }

  function Not(x: Nibble): Nibble { N(!x.a, !x.b, !x.c, !x.d) }

  function Num(x: Nibble): nat
  {
    (if x.a then 1 else 0) + (if x.b then 2 else 0) + (if x.c then 4 else 0) + if x.d then 8 else 0
  }

  lemma RegBit(w: Word, q: nat, j: nat)
    requires q < 8 && j < 4
    ensures Reg(w)[4 * q + j] == BitOf(Digit(w, q), j) != BitOf(Not(Digit(w, q)), j)
  {}

  function BitsOf(x: Nibble): (r: seq<bool>)
    ensures |r| == 4 && forall j | 0 <= j < 4 :: r[j] == BitOf(x, j)
  {
    [x.a, x.b, x.c, x.d]
  }

  /** The digits of an output byte. */
  lemma OctetOf(w: Word, k: nat, lo: Nibble, hi: Nibble)
    requires k < 4 && lo == Not(Digit(w, 2 * k)) && hi == Not(Digit(w, 2 * k + 1))
    ensures Octet(Reg(w), k) == Num(lo) + 16 * Num(hi)
  {
    hide Reg, Digit, Not, BitsOf;
    OctetBits(w, k, lo, hi);
    ValueJoin(BitsOf(lo), BitsOf(hi));
    NibbleValue(lo);
    NibbleValue(hi);
    assert Pow2(4) == 16;
  }

  lemma OctetBits(w: Word, k: nat, lo: Nibble, hi: Nibble)
    requires k < 4 && lo == Not(Digit(w, 2 * k)) && hi == Not(Digit(w, 2 * k + 1))
    ensures seq(8, i requires 0 <= i < 8 => !Reg(w)[8 * k + i]) == BitsOf(lo) + BitsOf(hi)
    ensures Octet(Reg(w), k) == Value(BitsOf(lo) + BitsOf(hi))
  {
    hide Reg, Digit, Not, BitsOf, BitOf;
    var bits := seq(8, i requires 0 <= i < 8 => !Reg(w)[8 * k + i]);
    forall i | 0 <= i < 8 ensures bits[i] == (BitsOf(lo) + BitsOf(hi))[i] {
      if i < 4 {
        RegBit(w, 2 * k, i);
        assert 8 * k + i == 4 * (2 * k) + i;
      } else {
        RegBit(w, 2 * k + 1, i - 4);
        assert 8 * k + i == 4 * (2 * k + 1) + (i - 4);
      }
    }
    assert bits == BitsOf(lo) + BitsOf(hi);
  }

  lemma NibbleValue(x: Nibble)
    ensures Value(BitsOf(x)) == Num(x)
  {
    ValueStep(x.a, [x.b, x.c, x.d]);
    ValueStep(x.b, [x.c, x.d]);
    ValueStep(x.c, [x.d]);
    ValueStep(x.d, []);
    assert [x.a] + [x.b, x.c, x.d] == [x.a, x.b, x.c, x.d] && [x.b] + [x.c, x.d] == [x.b, x.c, x.d];
    assert [x.c] + [x.d] == [x.c, x.d] && [x.d] + [] == [x.d];
  }

  lemma ValueStep(b: bool, bits: seq<bool>)
    ensures Value([b] + bits) == (if b then 1 else 0) + 2 * Value(bits) && Value([]) == 0
  {
    assert ([b] + bits)[1..] == bits;
  }
}
