/** 3 generates the multiplicative group of GF(2^8): every non-zero byte is exactly one power
    3^i with 0 <= i < 255.  The field laws follow from this. */
module GfPowers {
  import opened Gf256

  /** 3^i * b. */
  function Scaled(i: nat, b: bv8): bv8 {
    if i == 0 then b else Triple(Scaled(i - 1, b))
  }

  /** 3^i. */
  function Power(i: nat): bv8 {
    Scaled(i, 1)
  }

  lemma {:induction false} ScaledAdds(i: nat, j: nat, b: bv8)
    ensures Scaled(i + j, b) == Scaled(i, Scaled(j, b))
  {
    hide Triple;
    if i != 0 {
      ScaledAdds(i - 1, j, b);
    }
  }

  lemma {:induction false} MulScaled(i: nat, a: bv8, b: bv8)
    ensures Mul(Scaled(i, a), b) == Scaled(i, Mul(a, b))
  {
    hide Triple, Mul;
    if i != 0 {
      MulScaled(i - 1, a, b);
      MulTriple(Scaled(i - 1, a), b);
    }
  }

  lemma {:induction false} MulPower(i: nat, b: bv8)
    ensures Mul(Power(i), b) == Scaled(i, b)
  {
    hide Triple, Mul, Scaled;
    MulScaled(i, 1, b);
    OneTimes(b);
  }

  lemma PowerAdds(i: nat, j: nat)
    ensures Mul(Power(i), Power(j)) == Power(i + j)
  {
    hide Triple, Mul, Scaled;
    MulPower(i, Power(j));
    ScaledAdds(i, j, 1);
  }

  // ---- the order of 3 is 255 ----

  lemma Products()
    ensures Mul(0x03, 0x03) == 0x05 && Mul(0x05, 0x03) == 0x0f && Mul(0x05, 0x0f) == 0x33
    ensures Mul(0x33, 0x33) == 0x72 && Mul(0x72, 0x33) == 0x35 && Mul(0x35, 0x05) == 0xe1
    ensures Mul(0xe1, 0xe1) == 0x5c && Mul(0x5c, 0xe1) == 0x0c && Mul(0x0c, 0x5c) == 0xbd
    ensures Mul(0xbd, 0xbd) == 0xbc && Mul(0xbc, 0xbd) == 0x01
  {}

  lemma PowerOne()
    ensures Power(1) == 3
  {}

  lemma KeyPowers()
    ensures Power(15) != 1 && Power(51) != 1 && Power(85) != 1 && Power(255) == 1
  {
    PowerOne();
    Products();
    hide Triple, Mul, Scaled, Power;
    PowerAdds(1, 1);
    PowerAdds(2, 1);
    PowerAdds(2, 3);
    PowerAdds(5, 5);
    PowerAdds(10, 5);
    PowerAdds(15, 2);
    PowerAdds(17, 17);
    PowerAdds(34, 17);
    PowerAdds(51, 34);
    PowerAdds(85, 85);
    PowerAdds(170, 85);
  }

  /** A period can be dropped from the exponent any number of times. */
  lemma {:induction false} DropPeriods(q: nat, d: nat, r: nat)
    requires Power(d) == 1
    ensures Power(q * d + r) == Power(r)
  {
    hide Triple, Scaled;
    if q != 0 {
      DropPeriods(q - 1, d, r);
      assert q * d + r == ((q - 1) * d + r) + d;
      ScaledAdds((q - 1) * d + r, d, 1);
    }
  }

  lemma CofactorDivides(d: nat, q: nat)
    requires d * q == 255 && q >= 2
    ensures 85 == (q / 3) * d || 51 == (q / 5) * d || 15 == (q / 17) * d
  {
    if d < 16 {
      assert d == 1 || d == 3 || d == 5 || d == 15;
    } else {
      assert 16 * q <= d * q;
      assert q == 3 || q == 5 || q == 15;
    }
  }

  /** No exponent strictly between 0 and 255 gives 1. */
  lemma {:induction false} NoShorterPeriod(d: nat)
    requires 0 < d < 255
    ensures Power(d) != 1
  {
    hide Triple, Scaled, Power;
    ZerothPower();
    KeyPowers();
    var q, r := 255 / d, 255 % d;
    assert 255 == q * d + r;
    if Power(d) == 1 {
      DropPeriods(q, d, r);
      if r == 0 {
        CofactorDivides(d, q);
        DropPeriods(q / 3, d, 0);
        DropPeriods(q / 5, d, 0);
        DropPeriods(q / 17, d, 0);
        assert false;
      } else {
        NoShorterPeriod(r);
        assert false;
      }
    }
  }

  lemma ZerothPower()
    ensures Power(0) == 1
  {}

  lemma {:induction false} ScaledInjective(i: nat, a: bv8, b: bv8)
    requires Scaled(i, a) == Scaled(i, b)
    ensures a == b
  {
    hide Triple;
    if i != 0 {
      TripleInjective(Scaled(i - 1, a), Scaled(i - 1, b));
      ScaledInjective(i - 1, a, b);
    }
  }

  lemma PowersDiffer(i: nat, j: nat)
    requires i < j < 255
    ensures Power(i) != Power(j)
  {
    hide Triple, Scaled;
    if Power(i) == Power(j) {
      ScaledAdds(i, j - i, 1);
      ScaledInjective(i, 1, Power(j - i));
      NoShorterPeriod(j - i);
      assert false;
    }
  }

  // ---- so the 255 powers are all the 255 non-zero bytes ----

  lemma {:induction false} PowerNonZero(i: nat)
    ensures Power(i) != 0
  {
    if i != 0 {
      PowerNonZero(i - 1);
      assert Triple(0) == 0;
      if Power(i) == 0 {
        TripleInjective(Power(i - 1), 0);
      }
    }
  }

  ghost function PowerSet(n: nat): set<int> {
    set i | 0 <= i < n :: Power(i) as int
  }

  lemma {:induction false} PowerSetSize(n: nat)
    requires n <= 255
    ensures |PowerSet(n)| == n
  {
    hide Triple, Scaled, Power;
    if n == 0 {
      assert PowerSet(0) == {};
    } else {
      PowerSetSize(n - 1);
      assert PowerSet(n) == PowerSet(n - 1) + {Power(n - 1) as int};
      if Power(n - 1) as int in PowerSet(n - 1) {
        var i :| 0 <= i < n - 1 && Power(i) as int == Power(n - 1) as int;
        PowersDiffer(i, n - 1);
      }
    }
  }

  /** The numbers 1..n. */
  ghost function Range(n: nat): (s: set<int>)
    ensures forall v :: v in s <==> 1 <= v <= n
    ensures |s| == n
  {
    if n == 0 then {} else Range(n - 1) + {n}
  }

  lemma SubsetOfSameSize(a: set<int>, b: set<int>)
    requires a <= b && |a| == |b|
    ensures a == b
  {
    assert b == a + (b - a);
    assert |b - a| == 0;
  }

  /** Primitivity: the table loop reaches every non-zero byte. */
  lemma EveryByteIsAPower(a: bv8)
    requires a != 0
    ensures exists i :: 0 <= i < 255 && Power(i) == a
  {
    hide Triple, Scaled, Power, Range;
    forall v | v in PowerSet(255)
      ensures v in Range(255)
    {
      var i :| 0 <= i < 255 && Power(i) as int == v;
      PowerNonZero(i);
    }
    PowerSetSize(255);
    SubsetOfSameSize(PowerSet(255), Range(255));
    assert a as int in PowerSet(255);
  }

  /** The discrete logarithm to base 3. */
  ghost function Log(a: bv8): (i: nat)
    requires a != 0
    ensures i < 255 && Power(i) == a
  {
    EveryByteIsAPower(a);
    var i: nat :| i < 255 && Power(i) == a;
    i
  }

  lemma LogOfPower(i: nat)
    requires i < 255
    ensures Power(i) != 0 && Log(Power(i)) == i
  {
    hide Triple, Scaled, Power;
    PowerNonZero(i);
    var j := Log(Power(i));
    if j < i {
      PowersDiffer(j, i);
    } else if i < j {
      PowersDiffer(i, j);
    }
  }

  // ---- field laws ----

  lemma MulZero(a: bv8)
    ensures Mul(a, 0) == 0 && Mul(0, a) == 0
  {
    hide Triple, Mul, Power;
    OneTimes(a);
    OneTimes(0);
    if a != 0 {
      MulPower(Log(a), 0);
      ScaledZero(Log(a));
    }
  }

  lemma {:induction false} ScaledZero(i: nat)
    ensures Scaled(i, 0) == 0
  {
    if i != 0 {
      ScaledZero(i - 1);
      assert Triple(0) == 0;
    }
  }

  lemma MulCommutes(a: bv8, b: bv8)
    ensures Mul(a, b) == Mul(b, a)
  {
    hide Triple, Mul, Scaled, Power;
    MulZero(a);
    MulZero(b);
    if a != 0 && b != 0 {
      PowerAdds(Log(a), Log(b));
      PowerAdds(Log(b), Log(a));
    }
  }

  lemma MulAssociates(a: bv8, b: bv8, c: bv8)
    ensures Mul(Mul(a, b), c) == Mul(a, Mul(b, c))
  {
    hide Triple, Mul, Scaled, Power;
    MulZero(a);
    MulZero(b);
    MulZero(c);
    MulZero(Mul(b, c));
    if a != 0 {
      MulPower(Log(a), b);
      MulScaled(Log(a), b, c);
      MulPower(Log(a), Mul(b, c));
    }
  }

  lemma MulOne(a: bv8)
    ensures Mul(a, 1) == a && Mul(1, a) == a
  {
    hide Triple, Mul, Scaled;
    OneTimes(a);
    MulCommutes(a, 1);
  }

  lemma MulAddRight(a: bv8, b: bv8, c: bv8)
    ensures Mul(a, Add(b, c)) == Add(Mul(a, b), Mul(a, c))
  {
    hide Add, Mul;
    MulCommutes(a, Add(b, c));
    MulAddLeft(b, c, a);
    MulCommutes(a, b);
    MulCommutes(a, c);
  }

  lemma NoZeroDivisors(a: bv8, b: bv8)
    requires a != 0 && b != 0
    ensures Mul(a, b) != 0
  {
    hide Triple, Mul, Scaled, Power;
    PowerAdds(Log(a), Log(b));
    PowerNonZero(Log(a) + Log(b));
  }

  lemma MulCancels(a: bv8, b: bv8, c: bv8)
    requires c != 0 && Mul(a, c) == Mul(b, c)
    ensures a == b
  {
    hide Add, Mul;
    MulAddLeft(a, b, c);
    AddUnits(Mul(a, c));
    if Add(a, b) != 0 {
      NoZeroDivisors(Add(a, b), c);
      assert false;
    }
    AddCancels(a, b);
  }

  lemma QuotientExists(a: bv8, b: bv8)
    requires b != 0
    ensures exists c :: Mul(c, b) == a
  {
    hide Triple, Mul, Scaled, Power;
    if a == 0 {
      MulZero(b);
      assert Mul(0, b) == a;
    } else {
      var i := Log(a) + 255 - Log(b);
      PowerAdds(i, Log(b));
      KeyPowers();
      PowerAdds(Log(a), 255);
      MulOne(Power(Log(a)));
      assert Mul(Power(i), b) == a;
    }
  }

  /** The quotient a / b: the one field element whose product with b is a. */
  ghost function Div(a: bv8, b: bv8): (c: bv8)
    requires b != 0
    ensures Mul(c, b) == a
  {
    QuotientExists(a, b);
    var c :| Mul(c, b) == a;
    c
  }
}
