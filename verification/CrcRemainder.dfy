/** The CRC register is the remainder of the message, times x^32, under the IEEE 802.3 polynomial.
    A polynomial over two elements is the set of its exponents. */
module CrcRemainder {
  import opened Crc32
  import opened LittleEndian

  type Poly = set<nat>

  /** x^32 + x^26 + x^23 + x^22 + x^16 + x^12 + x^11 + x^10 + x^8 + x^7 + x^5 + x^4 + x^2 + x + 1. */
  const P: Poly := {0, 1, 2, 4, 5, 7, 8, 10, 11, 12, 16, 22, 23, 26, 32}

  function Plus(a: Poly, b: Poly): Poly { (a - b) + (b - a) }

  /** Times x^k. */
  function Shift(a: Poly, k: nat): Poly { set e | e in a :: e + k }

  /** P times the sum of the x^k given. */
  function MultipleOfP(ks: seq<nat>): Poly
  {
    if ks == [] then {} else Plus(Shift(P, ks[0]), MultipleOfP(ks[1..]))
  }

  ghost predicate Congruent(a: Poly, b: Poly) { exists ks :: Plus(a, b) == MultipleOfP(ks) }

  // ---- calculating with polynomials ----

  lemma ShiftAt(a: Poly, k: nat)
    ensures forall e: nat :: e in Shift(a, k) <==> e >= k && e - k in a
  {
    forall e: nat | e >= k && e - k in a ensures e in Shift(a, k) {
      assert (e - k) + k == e;
    }
  }

  lemma ShiftPlus(a: Poly, b: Poly, k: nat)
    ensures Shift(Plus(a, b), k) == Plus(Shift(a, k), Shift(b, k))
  {
    ShiftAt(a, k);
    ShiftAt(b, k);
    ShiftAt(Plus(a, b), k);
  }

  lemma ShiftTwice(a: Poly, j: nat, k: nat)
    ensures Shift(Shift(a, j), k) == Shift(a, j + k) && Shift(a, 0) == a
  {
    ShiftAt(a, j);
    ShiftAt(Shift(a, j), k);
    ShiftAt(a, j + k);
    ShiftAt(a, 0);
  }

  lemma PlusLaws(a: Poly, b: Poly, c: Poly)
    ensures Plus(a, b) == Plus(b, a) && Plus(Plus(a, b), c) == Plus(a, Plus(b, c))
    ensures Plus(a, {}) == a && Plus({}, a) == a && Plus(a, a) == {}
  {}

  lemma {:induction false} MultiplesAdd(js: seq<nat>, ks: seq<nat>)
    ensures MultipleOfP(js + ks) == Plus(MultipleOfP(js), MultipleOfP(ks))
  {
    hide Plus, Shift;
    if js == [] {
      assert js + ks == ks;
      PlusLaws(MultipleOfP(ks), {}, {});
    } else {
      MultiplesAdd(js[1..], ks);
      assert (js + ks)[0] == js[0] && (js + ks)[1..] == js[1..] + ks;
      PlusLaws(Shift(P, js[0]), MultipleOfP(js[1..]), MultipleOfP(ks));
    }
  }

  lemma {:induction false} MultipleShifts(ks: seq<nat>, k: nat) returns (js: seq<nat>)
    ensures Shift(MultipleOfP(ks), k) == MultipleOfP(js)
  {
    hide Plus;
    if ks == [] {
      js := [];
    } else {
      hide Shift;
      var rest := MultipleShifts(ks[1..], k);
      js := [ks[0] + k] + rest;
      assert js[1..] == rest;
      ShiftPlus(Shift(P, ks[0]), MultipleOfP(ks[1..]), k);
      ShiftTwice(P, ks[0], k);
    }
  }

  lemma CongruentSame(a: Poly)
    ensures Congruent(a, a)
  {
    PlusLaws(a, a, a);
    assert MultipleOfP([]) == {};
  }

  lemma CongruentTrans(a: Poly, b: Poly, c: Poly)
    requires Congruent(a, b) && Congruent(b, c)
    ensures Congruent(a, c)
  {
    hide MultipleOfP;
    var js :| Plus(a, b) == MultipleOfP(js);
    var ks :| Plus(b, c) == MultipleOfP(ks);
    MultiplesAdd(js, ks);
    assert Plus(Plus(a, b), Plus(b, c)) == Plus(a, c);
  }

  lemma CongruentPlus(a: Poly, b: Poly, c: Poly)
    requires Congruent(a, b)
    ensures Congruent(Plus(a, c), Plus(b, c))
  {
    var ks :| Plus(a, b) == MultipleOfP(ks);
    assert Plus(Plus(a, c), Plus(b, c)) == Plus(a, b);
  }

  lemma CongruentShift(a: Poly, b: Poly, k: nat)
    requires Congruent(a, b)
    ensures Congruent(Shift(a, k), Shift(b, k))
  {
    hide Plus, Shift;
    var ks :| Plus(a, b) == MultipleOfP(ks);
    var js := MultipleShifts(ks, k);
    ShiftPlus(a, b, k);
  }

  lemma CongruentMod(a: Poly)
    ensures Congruent(Plus(a, P), a)
  {
    hide Plus, Shift;
    assert [0][1..] == [] && MultipleOfP([0]) == Plus(Shift(P, 0), MultipleOfP([]));
    ShiftTwice(P, 0, 0);
    Cancels(a, P);
  }

  lemma Cancels(a: Poly, p: Poly)
    ensures Plus(Plus(a, p), a) == p == Plus(p, {})
  {}

  // ---- the register as a polynomial ----

  /** Bit 0 of the register is the coefficient of x^31. */
  predicate InRegister(r: Register, e: nat) { e < 32 && r[31 - e] }

  function OfRegister(r: Register): Poly { set e | 0 <= e < 32 && InRegister(r, e) }

  /** The first bit of a byte, the lowest one, is the highest coefficient. */
  predicate InByte(b: byte, e: nat) { e < 8 && Bits(b, 8)[7 - e] }

  function OfByte(b: byte): Poly { set e | 0 <= e < 8 && InByte(b, e) }

  /** The message, its first bit the highest coefficient. */
  function OfMessage(s: seq<byte>): Poly
  {
    if s == [] then {} else Plus(Shift(OfMessage(s[..|s| - 1]), 8), OfByte(s[|s| - 1]))
  }

  lemma PolyIsP(e: nat)
    requires e < 32
    ensures e in P <==> POLY[31 - e]
  {}

  /** A step is a multiplication by x, modulo P. */
  lemma StepMultiplies(r: Register)
    ensures OfRegister(BitStep(r)) == if r[0] then Plus(Shift(OfRegister(r), 1), P) else Shift(OfRegister(r), 1)
  {
    ShiftAt(OfRegister(r), 1);
    var after := BitStep(r);
    forall e: nat
      ensures e in OfRegister(after) <==> (e in Shift(OfRegister(r), 1)) != (r[0] && e in P)
    {
      if e < 32 {
        PolyIsP(e);
        assert after[31 - e] == ((31 - e < 31 && r[31 - e + 1]) != (r[0] && POLY[31 - e]));
      }
    }
  }

  lemma StepCongruent(r: Register)
    ensures Congruent(OfRegister(BitStep(r)), Shift(OfRegister(r), 1))
  {
    hide BitStep, Plus, Shift;
    StepMultiplies(r);
    CongruentMod(Shift(OfRegister(r), 1));
    CongruentSame(Shift(OfRegister(r), 1));
  }

  lemma {:induction false} StepsCongruent(r: Register, k: nat)
    ensures Congruent(OfRegister(Steps(r, k)), Shift(OfRegister(r), k))
  {
    hide BitStep, Shift, Congruent, OfRegister;
    var a := OfRegister(r);
    if k == 0 {
      ShiftTwice(a, 0, 0);
      CongruentSame(a);
    } else {
      var before := OfRegister(Steps(r, k - 1));
      StepsCongruent(r, k - 1);
      StepCongruent(Steps(r, k - 1));
      CongruentShift(before, Shift(a, k - 1), 1);
      ShiftTwice(a, k - 1, 1);
      CongruentTrans(OfRegister(Steps(r, k)), Shift(before, 1), Shift(a, k));
    }
  }

  lemma MixAdds(r: Register, b: byte)
    ensures OfRegister(Mix(r, b)) == Plus(OfRegister(r), Shift(OfByte(b), 24))
  {
    ShiftAt(OfByte(b), 24);
    var m := Mix(r, b);
    forall e: nat
      ensures e in OfRegister(m) <==> (e in OfRegister(r)) != (e in Shift(OfByte(b), 24))
    {
      if 24 <= e < 32 {
        assert m[31 - e] == (r[31 - e] != Bits(b, 8)[31 - e]) && 7 - (e - 24) == 31 - e;
      } else if e < 24 {
        assert m[31 - e] == r[31 - e];
      }
    }
  }

  /** The register is congruent to the message times x^32, and of degree below 32. */
  lemma {:induction false} RegisterIsRemainder(s: seq<byte>)
    ensures Congruent(OfRegister(Run(s)), Shift(OfMessage(s), 32))
    ensures forall e | e in OfRegister(Run(s)) :: e < 32
    decreases |s|
  {
    if s == [] {
      assert OfRegister(Run(s)) == {} == Shift(OfMessage(s), 32);
      CongruentSame({});
    } else {
      hide Steps, Shift, Plus, Congruent, Mix, OfByte;
      var init, b := s[..|s| - 1], s[|s| - 1];
      var r, m := OfRegister(Run(init)), OfMessage(init);
      RegisterIsRemainder(init);
      StepsCongruent(Mix(Run(init), b), 8);
      MixAdds(Run(init), b);
      ShiftPlus(r, Shift(OfByte(b), 24), 8);
      ShiftTwice(OfByte(b), 24, 8);
      var byteTerm := Shift(OfByte(b), 32);
      CongruentShift(r, Shift(m, 32), 8);
      ShiftTwice(m, 32, 8);
      CongruentPlus(Shift(r, 8), Shift(m, 40), byteTerm);
      ShiftPlus(Shift(m, 8), OfByte(b), 32);
      ShiftTwice(m, 8, 32);
      CongruentTrans(OfRegister(Run(s)), Plus(Shift(r, 8), byteTerm), Plus(Shift(m, 40), byteTerm));
    }
  }
}
