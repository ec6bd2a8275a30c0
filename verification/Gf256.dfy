/** The finite field of section 4.2 of FIPS 197 (polynomial 0x11b): bytes as polynomials over
    GF(2), addition is XOR, multiplication is modulo x^8 + x^4 + x^3 + x + 1.

    `Mul` is the schoolbook product of section 4.2.1 and mentions neither tables nor logarithms
    nor the generator 3; the tables of internal/shamir/shamir.go are proved against it. */
module Gf256 {

  /** Addition (and subtraction): XOR. */
  function Add(a: bv8, b: bv8): bv8 {
    a ^ b
  }

  /** Multiplication by x: shift, and subtract 0x11b when the degree reaches 8. */
  function Xtime(a: bv8): bv8 {
    var wide := (a as bv16) << 1;
    if wide & 0x100 != 0 then ((wide ^ 0x11b) & 0xff) as bv8 else (wide & 0xff) as bv8
  }

  predicate LowBit(b: bv8) {
    b & 1 != 0
  }

  /** The polynomial b without its constant term, divided by x. */
  function Rest(b: bv8): bv8 {
    b >> 1
  }

  /** a times the polynomial made of the low n coefficients of b. */
  function MulLow(a: bv8, b: bv8, n: nat): bv8
    decreases n
  {
    if n == 0 then 0 else Add(Xtime(MulLow(a, Rest(b), n - 1)), if LowBit(b) then a else 0)
  }

  /** Multiplication in GF(2^8). */
  function Mul(a: bv8, b: bv8): bv8 {
    MulLow(a, b, 8)
  }

  /** Multiplication by the generator 3 = x + 1, the step of the table loop. */
  function Triple(a: bv8): bv8 {
    Add(Xtime(a), a)
  }

  /** The examples of section 4.2 of FIPS 197. */
  lemma FipsExamples()
    ensures Add(0x57, 0x83) == 0xd4 && Xtime(0x57) == 0xae && Xtime(0xae) == 0x47
    ensures Mul(0x57, 0x13) == 0xfe && Mul(0x57, 0x83) == 0xc1
  {
    assert MulLow(0x57, 0x13, 8) == 0xfe;
    assert MulLow(0x57, 0x83, 8) == 0xc1;
  }

  // ---- addition ----

  lemma AddAssociates(a: bv8, b: bv8, c: bv8)
    ensures Add(Add(a, b), c) == Add(a, Add(b, c))
  {}

  lemma AddCommutes(a: bv8, b: bv8)
    ensures Add(a, b) == Add(b, a)
  {}

  lemma AddUnits(a: bv8)
    ensures Add(a, 0) == a && Add(0, a) == a && Add(a, a) == 0
  {}

  lemma AddSwaps(a: bv8, b: bv8, c: bv8, d: bv8)
    ensures Add(Add(a, b), Add(c, d)) == Add(Add(a, c), Add(b, d))
  {
    hide Add;
    AddAssociates(a, b, Add(c, d));
    AddAssociates(b, c, d);
    AddCommutes(b, c);
    AddAssociates(c, b, d);
    AddAssociates(a, c, Add(b, d));
  }

  lemma AddCancels(a: bv8, b: bv8)
    ensures Add(Add(a, b), b) == a
    ensures Add(a, b) == 0 ==> a == b
  {}

  // ---- bit-vector facts about one step ----

  lemma XtimeShift(a: bv8)
    ensures Xtime(a) == (a << 1) ^ (if a & 0x80 != 0 then 0x1b else 0)
    ensures Xtime(a) == (a << 1) ^ ((a >> 7) & 1) ^ ((a >> 6) & 2) ^ ((a >> 4) & 8) ^ ((a >> 3) & 16)
  {}

  lemma XorShifts(a: bv8, b: bv8)
    ensures ((a ^ b) << 1) ^ (((a ^ b) >> 7) & 1) ^ (((a ^ b) >> 6) & 2) ^ (((a ^ b) >> 4) & 8) ^ (((a ^ b) >> 3) & 16)
         == ((a << 1) ^ ((a >> 7) & 1) ^ ((a >> 6) & 2) ^ ((a >> 4) & 8) ^ ((a >> 3) & 16)) ^
            ((b << 1) ^ ((b >> 7) & 1) ^ ((b >> 6) & 2) ^ ((b >> 4) & 8) ^ ((b >> 3) & 16))
  {}

  lemma XtimeLinear(a: bv8, b: bv8)
    ensures Xtime(Add(a, b)) == Add(Xtime(a), Xtime(b))
    ensures Xtime(0) == 0
  {
    hide Xtime;
    XtimeShift(a);
    XtimeShift(b);
    XtimeShift(a ^ b);
    XorShifts(a, b);
    XtimeShift(0);
  }

  lemma TripleInjective(a: bv8, b: bv8)
    requires Triple(a) == Triple(b)
    ensures a == b
  {
    hide Xtime;
    XtimeShift(a);
    XtimeShift(b);
  }

  // ---- Mul is linear in its first argument, by induction over the coefficients of the second ----

  lemma {:induction false} MulLowLinear(a: bv8, b: bv8, c: bv8, n: nat)
    ensures MulLow(Add(a, b), c, n) == Add(MulLow(a, c, n), MulLow(b, c, n))
    decreases n
  {
    hide Xtime, Add, LowBit, Rest;
    AddUnits(0);
    if n != 0 {
      var x, y := MulLow(a, Rest(c), n - 1), MulLow(b, Rest(c), n - 1);
      MulLowLinear(a, b, Rest(c), n - 1);
      XtimeLinear(x, y);
      AddSwaps(Xtime(x), Xtime(y), if LowBit(c) then a else 0, if LowBit(c) then b else 0);
    }
  }

  lemma {:induction false} MulLowXtime(a: bv8, b: bv8, n: nat)
    ensures MulLow(Xtime(a), b, n) == Xtime(MulLow(a, b, n))
    decreases n
  {
    hide Xtime, Add, LowBit, Rest;
    XtimeLinear(0, 0);
    if n != 0 {
      MulLowXtime(a, Rest(b), n - 1);
      XtimeLinear(Xtime(MulLow(a, Rest(b), n - 1)), if LowBit(b) then a else 0);
    }
  }

  lemma MulTriple(a: bv8, b: bv8)
    ensures Mul(Triple(a), b) == Triple(Mul(a, b))
  {
    hide Xtime, Add, MulLow;
    MulLowLinear(Xtime(a), a, b, 8);
    MulLowXtime(a, b, 8);
  }

  lemma MulAddLeft(a: bv8, b: bv8, c: bv8)
    ensures Mul(Add(a, b), c) == Add(Mul(a, c), Mul(b, c))
  {
    hide Add, MulLow;
    MulLowLinear(a, b, c, 8);
  }

  lemma {:induction false} ZeroTimes(b: bv8, n: nat)
    ensures MulLow(0, b, n) == 0
    decreases n
  {
    hide Xtime, Add, LowBit, Rest;
    if n != 0 {
      ZeroTimes(Rest(b), n - 1);
      XtimeLinear(0, 0);
      AddUnits(0);
    }
  }

  lemma OneTimesStep(b: bv8)
    ensures Add(Xtime(Rest(b)), if LowBit(b) then 1 else 0) == b
  {}

  lemma RestEight(b: bv8)
    ensures Rest(Rest(Rest(Rest(Rest(Rest(Rest(Rest(b)))))))) == 0
  {}

  lemma OneTimes(b: bv8)
    ensures Mul(1, b) == b && Mul(0, b) == 0
  {
    ZeroTimes(b, 8);
    RestEight(b);
    hide Xtime, Add, LowBit, Rest;
    var b1 := Rest(b); var b2 := Rest(b1); var b3 := Rest(b2); var b4 := Rest(b3);
    var b5 := Rest(b4); var b6 := Rest(b5); var b7 := Rest(b6);
    OneTimesStep(b7); assert MulLow(1, b7, 1) == b7;
    OneTimesStep(b6); assert MulLow(1, b6, 2) == b6;
    OneTimesStep(b5); assert MulLow(1, b5, 3) == b5;
    OneTimesStep(b4); assert MulLow(1, b4, 4) == b4;
    OneTimesStep(b3); assert MulLow(1, b3, 5) == b3;
    OneTimesStep(b2); assert MulLow(1, b2, 6) == b2;
    OneTimesStep(b1); assert MulLow(1, b1, 7) == b1;
    OneTimesStep(b);
  }
}
