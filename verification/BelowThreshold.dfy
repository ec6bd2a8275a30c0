/** What fewer shares than the threshold leave open, given that Split draws a non-zero leading coefficient. */
module BelowThreshold {
  import opened Gf256
  import opened GfPowers
  import opened Lagrange
  import opened Sequences
  import opened Shamir

  // ---- a polynomial through given points ----

  /** Adds a constant to a polynomial. */
  function Plus(p: seq<bv8>, a: bv8): (r: seq<bv8>)
    ensures p != [] ==> |r| == |p|
  {
    if p == [] then [a] else [Add(p[0], a)] + p[1..]
  }

  /** Multiplies a polynomial by (X + c). */
  function Times(q: seq<bv8>, c: bv8): (r: seq<bv8>)
    ensures q != [] ==> |r| == |q| + 1
  {
    if q == [] then [] else [Mul(c, q[0])] + Plus(Times(q[1..], c), q[0])
  }

  lemma {:induction false} EvalPlus(p: seq<bv8>, a: bv8, x: bv8)
    ensures Eval(Plus(p, a), x) == Add(a, Eval(p, x))
  {
    hide Add, Mul;
    if p == [] {
      MulZero(x);
      assert [a][1..] == [];
    } else {
      var rest := Mul(x, Eval(p[1..], x));
      AddCommutes(p[0], a);
      AddAssociates(a, p[0], rest);
    }
  }

  lemma {:induction false} EvalTimes(q: seq<bv8>, c: bv8, x: bv8)
    ensures Eval(Times(q, c), x) == Mul(Add(x, c), Eval(q, x))
    decreases |q|
  {
    hide Add, Mul;
    if q == [] {
      MulZero(Add(x, c));
    } else {
      var r, e := q[1..], Add(x, c);
      var s := Eval(r, x);
      EvalTimes(r, c, x);
      EvalPlus(Times(r, c), q[0], x);
      assert Times(q, c)[1..] == Plus(Times(r, c), q[0]);
      calc {
        Eval(Times(q, c), x);
        Add(Mul(c, q[0]), Mul(x, Add(q[0], Mul(e, s))));
        { MulAddRight(x, q[0], Mul(e, s)); }
        Add(Mul(c, q[0]), Add(Mul(x, q[0]), Mul(x, Mul(e, s))));
        { AddAssociates(Mul(c, q[0]), Mul(x, q[0]), Mul(x, Mul(e, s))); AddCommutes(Mul(c, q[0]), Mul(x, q[0])); }
        Add(Add(Mul(x, q[0]), Mul(c, q[0])), Mul(x, Mul(e, s)));
        { MulAddLeft(x, c, q[0]); }
        Add(Mul(e, q[0]), Mul(x, Mul(e, s)));
        { MulAssociates(x, e, s); MulCommutes(x, e); MulAssociates(e, x, s); }
        Add(Mul(e, q[0]), Mul(e, Mul(x, s)));
        { MulAddRight(e, q[0], Mul(x, s)); }
        Mul(e, Eval(q, x));
      }
    }
  }

  /** The slopes from the first point to the others. */
  ghost function Slopes(xs: seq<bv8>, ys: seq<bv8>): (s: seq<bv8>)
    requires Distinct(xs) && |ys| == |xs| && xs != []
    ensures |s| == |xs| - 1
  {
    seq(|xs| - 1, i requires 0 <= i < |xs| - 1 => SlopeOf(xs[i + 1], xs[0], ys[i + 1], ys[0]))
  }

  ghost function SlopeOf(x: bv8, c: bv8, y: bv8, d: bv8): (s: bv8)
    requires x != c
    ensures Add(d, Mul(Add(x, c), s)) == y
  {
    AddCancels(x, c);
    var s := Div(Add(y, d), Add(x, c));
    MulCommutes(s, Add(x, c));
    AddCommutes(d, Add(y, d));
    AddCancels(y, d);
    s
  }

  /** The last coefficient is not zero. */
  predicate FullDegree(p: seq<bv8>) {
    p != [] && p[|p| - 1] != 0
  }

  lemma {:induction false} TimesLead(q: seq<bv8>, c: bv8)
    requires q != []
    ensures Times(q, c)[|q|] == q[|q| - 1]
    decreases |q|
  {
    if |q| > 1 {
      TimesLead(q[1..], c);
    }
  }

  /** Some polynomial with at least as many coefficients as points passes through them; with more, the leading
      coefficient can be non-zero. */
  lemma {:induction false} Fit(xs: seq<bv8>, ys: seq<bv8>, m: nat) returns (p: seq<bv8>)
    requires Distinct(xs) && |ys| == |xs| && m >= |xs| && m >= 1
    ensures |p| == m && Values(p, xs) == ys
    ensures m > |xs| ==> FullDegree(p)
    decreases m
  {
    hide Add, Mul;
    if xs == [] {
      p := seq(m - 1, _ => 0) + [1];
    } else if m == 1 {
      p := [ys[0]];
      ConstantEval(ys[0], xs[0]);
    } else {
      var slopes := Slopes(xs, ys);
      var q := Fit(xs[1..], slopes, m - 1);
      p := Plus(Times(q, xs[0]), ys[0]);
      TimesLead(q, xs[0]);
      ThroughAll(xs, ys, q);
    }
  }

  lemma {:induction false} ThroughAll(xs: seq<bv8>, ys: seq<bv8>, q: seq<bv8>)
    requires Distinct(xs) && |ys| == |xs| && xs != [] && Values(q, xs[1..]) == Slopes(xs, ys)
    ensures Values(Plus(Times(q, xs[0]), ys[0]), xs) == ys
  {
    hide Add, Mul;
    var p := Plus(Times(q, xs[0]), ys[0]);
    forall i | 0 <= i < |xs|
      ensures Eval(p, xs[i]) == ys[i]
    {
      EvalPlus(Times(q, xs[0]), ys[0], xs[i]);
      EvalTimes(q, xs[0], xs[i]);
      if i == 0 {
        AddUnits(xs[0]);
        MulZero(Eval(q, xs[0]));
        AddUnits(ys[0]);
      } else {
        assert Values(q, xs[1..])[i - 1] == Slopes(xs, ys)[i - 1];
      }
    }
  }

  lemma {:induction false} ConstantEval(a: bv8, x: bv8)
    ensures Eval([a], x) == a
  {
    hide Add, Mul;
    assert [a][1..] == [];
    MulZero(x);
    AddUnits(a);
  }

  // ---- its leading coefficient is determined ----

  lemma {:induction false} QuotientLead(p: seq<bv8>, c: bv8)
    requires |p| >= 2
    ensures Quotient(p, c)[|p| - 2] == p[|p| - 1]
    decreases |p|
  {
    hide Add, Mul;
    if |p| == 2 {
      assert p[1..] == [p[1]];
      ConstantEval(p[1], c);
    } else {
      QuotientLead(p[1..], c);
    }
  }

  /** Quotients agree where the polynomials do. */
  lemma {:induction false} SameQuotient(p: seq<bv8>, q: seq<bv8>, c: bv8, x: bv8)
    requires p != [] && q != [] && x != c && Eval(p, c) == Eval(q, c) && Eval(p, x) == Eval(q, x)
    ensures Eval(Quotient(p, c), x) == Eval(Quotient(q, c), x)
  {
    hide Add, Mul, Eval, Quotient;
    var e, d, a, b := Add(x, c), Eval(p, c), Eval(Quotient(p, c), x), Eval(Quotient(q, c), x);
    Remainder(p, c, x);
    Remainder(q, c, x);
    AddCommutes(d, Mul(e, a));
    AddCommutes(d, Mul(e, b));
    AddCancels(Mul(e, a), d);
    AddCancels(Mul(e, b), d);
    MulCommutes(e, a);
    MulCommutes(e, b);
    AddCancels(x, c);
    MulCancels(a, b, e);
  }

  lemma {:induction false} SameLead(p: seq<bv8>, q: seq<bv8>, xs: seq<bv8>)
    requires Distinct(xs) && |p| == |q| == |xs| >= 1 && forall i :: 0 <= i < |xs| ==> Eval(p, xs[i]) == Eval(q, xs[i])
    ensures p[|p| - 1] == q[|q| - 1]
    decreases |xs|
  {
    hide Add, Mul;
    if |xs| == 1 {
      ConstantEval(p[0], xs[0]);
      ConstantEval(q[0], xs[0]);
      assert p == [p[0]] && q == [q[0]];
    } else {
      var c, rest := xs[0], xs[1..];
      forall i | 0 <= i < |rest|
        ensures Eval(Quotient(p, c), rest[i]) == Eval(Quotient(q, c), rest[i])
      {
        SameQuotient(p, q, c, rest[i]);
      }
      QuotientLead(p, c);
      QuotientLead(q, c);
      SameLead(Quotient(p, c), Quotient(q, c), rest);
    }
  }

  lemma {:induction false} TrailingZero(p: seq<bv8>, x: bv8)
    ensures Eval(p + [0], x) == Eval(p, x)
    decreases |p|
  {
    hide Add, Mul;
    if p == [] {
      assert p + [0] == [0];
      ConstantEval(0, x);
    } else {
      assert (p + [0])[1..] == p[1..] + [0];
      TrailingZero(p[1..], x);
    }
  }

  // ---- one byte ----

  /** m coefficients, as drawn for the secret byte s, that pass through the points. */
  ghost predicate Explains(xs: seq<bv8>, ys: seq<bv8>, s: bv8, drawn: seq<bv8>, m: nat) {
    |drawn| == m && FullDegree(drawn) && Values(Polynomial(s, drawn), xs) == ys
  }

  /** Any byte but the one the points alone would give can be the secret, and any byte at all if there are fewer
      points. */
  lemma OtherBytesFit(xs: seq<bv8>, ys: seq<bv8>, s: bv8, m: nat) returns (drawn: seq<bv8>)
    requires Distinct(xs) && 0 !in xs && |ys| == |xs| <= m && m >= 1 && (m == |xs| ==> s != Interpolate(xs, ys))
    ensures Explains(xs, ys, s, drawn, m)
  {
    hide Add, Mul, Interpolate;
    var slopes := seq(|xs|, i requires 0 <= i < |xs| => SlopeOf(xs[i], 0, ys[i], s));
    drawn := Fit(xs, slopes, m);
    var p := Polynomial(s, drawn);
    forall i | 0 <= i < |xs|
      ensures Eval(p, xs[i]) == ys[i]
    {
      assert p[1..] == drawn && Values(drawn, xs)[i] == slopes[i];
      AddUnits(xs[i]);
    }
    assert Values(p, xs) == ys;
    if drawn[|drawn| - 1] == 0 {
      ShorterGives(xs, ys, p);
    }
  }

  /** A polynomial with a zero leading coefficient is one the points determine. */
  lemma ShorterGives(xs: seq<bv8>, ys: seq<bv8>, p: seq<bv8>)
    requires Distinct(xs) && |ys| == |xs| >= 1 && |p| == |xs| + 1 && Values(p, xs) == ys && p[|xs|] == 0
    ensures p[0] == Interpolate(xs, ys)
  {
    hide Add, Mul, Interpolate, Eval;
    var q := p[..|xs|];
    assert p == q + [0];
    forall i | 0 <= i < |xs|
      ensures Eval(q, xs[i]) == ys[i]
    {
      TrailingZero(q, xs[i]);
      assert Values(p, xs)[i] == ys[i];
    }
    assert Values(q, xs) == ys;
    InterpolatesAtZero(q, xs);
    EvalAtZero(q);
  }

  /** And the byte they give cannot. */
  lemma GivenByteDiffers(xs: seq<bv8>, ys: seq<bv8>, s: bv8, drawn: seq<bv8>)
    requires Distinct(xs) && 0 !in xs && |ys| == |xs| >= 1 && Explains(xs, ys, s, drawn, |xs|)
    ensures s != Interpolate(xs, ys)
  {
    hide Add, Mul, Interpolate, Eval;
    if s == Interpolate(xs, ys) {
      var f := Fit(xs, ys, |xs|);
      InterpolatesAtZero(f, xs);
      EvalAtZero(f);
      var p, nodes := Polynomial(s, drawn), [0] + xs;
      EvalAtZero(p);
      forall i | 0 <= i < |nodes|
        ensures Eval(p, nodes[i]) == Eval(f + [0], nodes[i])
      {
        TrailingZero(f, nodes[i]);
        assert i > 0 ==> Values(p, xs)[i - 1] == Values(f, xs)[i - 1];
      }
      SameLead(p, f + [0], nodes);
    }
  }

  lemma ByteLeftOpen(xs: seq<bv8>, ys: seq<bv8>, s: bv8, m: nat)
    requires Distinct(xs) && 0 !in xs && |ys| == |xs| <= m && m >= 1
    ensures (exists drawn :: Explains(xs, ys, s, drawn, m)) <==> m > |xs| || s != Interpolate(xs, ys)
  {
    hide Interpolate, Explains;
    if m > |xs| || s != Interpolate(xs, ys) {
      var drawn := OtherBytesFit(xs, ys, s, m);
    }
    if m == |xs| && exists drawn :: Explains(xs, ys, s, drawn, m) {
      var drawn :| Explains(xs, ys, s, drawn, m);
      GivenByteDiffers(xs, ys, s, drawn);
    }
  }

  // ---- whole shares ----

  /** Coefficients as Split draws them for this secret and threshold. */
  ghost predicate Drawn(secret: seq<bv8>, drawn: seq<seq<bv8>>, k: nat) {
    |drawn| == |secret| && forall b :: 0 <= b < |drawn| ==> |drawn[b]| == k - 1 && FullDegree(drawn[b])
  }

  /** The picked shares could be shares of this secret. */
  ghost predicate CouldBe(shares: seq<Share>, secret: seq<bv8>, n: nat, k: nat, picks: seq<nat>)
    requires n <= 255 && DistinctPicks(picks, n)
  {
    exists drawn :: Drawn(secret, drawn, k) && Picked(SharesOf(secret, drawn, n), picks) == shares
  }

  /** k - 1 shares are shares of exactly those secrets of their length that differ, in every byte, from what combining
      them gives. */
  lemma OneShareLess(secret: seq<bv8>, drawn: seq<seq<bv8>>, n: nat, k: nat, picks: seq<nat>, other: seq<bv8>)
    requires |secret| > 0 && 2 <= k <= n <= 255 && Drawn(secret, drawn, k)
    requires DistinctPicks(picks, n) && |picks| == k - 1 && |other| == |secret|
    ensures var shares := Picked(SharesOf(secret, drawn, n), picks);
            && Combined(shares).Success? && |Combined(shares).value| == |secret|
            && (CouldBe(shares, other, n, k, picks) <==>
                  forall b :: 0 <= b < |other| ==> other[b] != Combined(shares).value[b])
  {
    hide ToByte, Eval, Interpolate, Explains;
    var shares := Picked(SharesOf(secret, drawn, n), picks);
    var xs := Coordinates(shares);
    assert |shares[0]| == |secret| + 1;
    PickedCoordinatesDistinct(secret, drawn, n, picks);
    NonZeroCoordinates(secret, drawn, n, picks);
    assert Combined(shares).Success?;
    if forall b :: 0 <= b < |other| ==> other[b] != Combined(shares).value[b] {
      var found := DrawAgain(shares, xs, other, k - 1);
      SharesAgree(secret, drawn, n, k, picks, other, found);
    }
    if CouldBe(shares, other, n, k, picks) {
      var found :| Drawn(other, found, k) && Picked(SharesOf(other, found, n), picks) == shares;
      forall b | 0 <= b < |other|
        ensures other[b] != Combined(shares).value[b]
      {
        ColumnExplained(shares, n, k, picks, other, found, b);
        ByteLeftOpen(xs, Column(shares, b), other[b], k - 1);
      }
    }
  }

  /** Fewer than k - 1 shares are shares of every secret of their length. */
  lemma FewerSharesTellNothing(secret: seq<bv8>, drawn: seq<seq<bv8>>, n: nat, k: nat, picks: seq<nat>, other: seq<bv8>)
    requires |secret| > 0 && 1 <= k <= n <= 255 && Drawn(secret, drawn, k)
    requires DistinctPicks(picks, n) && |picks| < k - 1 && |other| == |secret|
    ensures CouldBe(Picked(SharesOf(secret, drawn, n), picks), other, n, k, picks)
  {
    hide ToByte, Eval, Interpolate, Explains;
    var shares := Picked(SharesOf(secret, drawn, n), picks);
    PickedCoordinatesDistinct(secret, drawn, n, picks);
    NonZeroCoordinates(secret, drawn, n, picks);
    var found := DrawAgain(shares, Coordinates(shares), other, k - 1);
    SharesAgree(secret, drawn, n, k, picks, other, found);
  }

  lemma NonZeroCoordinates(secret: seq<bv8>, drawn: seq<seq<bv8>>, n: nat, picks: seq<nat>)
    requires |drawn| == |secret| && n <= 255 && DistinctPicks(picks, n)
    ensures 0 !in Coordinates(Picked(SharesOf(secret, drawn, n), picks))
  {
    hide ToByte, Eval, ToInt;
    var xs := Coordinates(Picked(SharesOf(secret, drawn, n), picks));
    forall i | 0 <= i < |xs|
      ensures xs[i] != 0
    {
      ToIntOfByte(picks[i] + 1);
      ToIntNext(0);
    }
  }

  lemma {:induction false} DrawAgain(shares: seq<Share>, xs: seq<bv8>, other: seq<bv8>, m: nat)
    returns (drawn: seq<seq<bv8>>)
    requires |shares| <= m && m >= 1 && forall i :: 0 <= i < |shares| ==> |shares[i]| > |other|
    requires xs == Coordinates(shares) && Distinct(xs) && 0 !in xs
    requires |shares| == m ==> forall b :: 0 <= b < |other| ==> other[b] != Interpolate(xs, Column(shares, b))
    ensures |drawn| == |other|
    ensures forall b :: 0 <= b < |other| ==> Explains(xs, Column(shares, b), other[b], drawn[b], m)
    decreases |other|
  {
    hide Interpolate, Explains;
    if other == [] {
      drawn := [];
    } else {
      var n := |other| - 1;
      var init := DrawAgain(shares, xs, other[..n], m);
      var last := OtherBytesFit(xs, Column(shares, n), other[n], m);
      drawn := init + [last];
    }
  }

  lemma SharesAgree(secret: seq<bv8>, drawn: seq<seq<bv8>>, n: nat, k: nat, picks: seq<nat>, other: seq<bv8>,
      found: seq<seq<bv8>>)
    requires |drawn| == |secret| == |other| == |found| && n <= 255 && DistinctPicks(picks, n) && k >= 1
    requires var shares := Picked(SharesOf(secret, drawn, n), picks);
             forall b :: 0 <= b < |other| ==>
               Explains(Coordinates(shares), Column(shares, b), other[b], found[b], k - 1)
    ensures Drawn(other, found, k) && Picked(SharesOf(other, found, n), picks) ==
              Picked(SharesOf(secret, drawn, n), picks)
  {
    hide ToByte, Eval;
    var shares, again := Picked(SharesOf(secret, drawn, n), picks), Picked(SharesOf(other, found, n), picks);
    var xs := Coordinates(shares);
    forall i | 0 <= i < |picks|
      ensures shares[i] == again[i]
    {
      forall j | 1 <= j < |shares[i]|
        ensures shares[i][j] == again[i][j]
      {
        var b := j - 1;
        assert Explains(xs, Column(shares, b), other[b], found[b], k - 1);
        assert Column(shares, b)[i] == Values(Polynomial(other[b], found[b]), xs)[i];
      }
    }
  }

  lemma ColumnExplained(shares: seq<Share>, n: nat, k: nat, picks: seq<nat>, other: seq<bv8>, found: seq<seq<bv8>>,
      b: nat)
    requires n <= 255 && DistinctPicks(picks, n) && |picks| == k - 1 && Drawn(other, found, k) && b < |other|
    requires shares == Picked(SharesOf(other, found, n), picks)
    ensures Explains(Coordinates(shares), Column(shares, b), other[b], found[b], k - 1)
  {
    hide ToByte, Eval;
    var xs := Coordinates(shares);
    assert Values(Polynomial(other[b], found[b]), xs) == Column(shares, b);
  }
}
