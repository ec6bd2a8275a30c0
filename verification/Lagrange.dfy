/** Lagrange interpolation at 0 over GF(2^8): a polynomial with at most |xs| coefficients is
    recovered at 0 from its values at the distinct points xs. */
module Lagrange {
  import opened Gf256
  import opened GfPowers
  import opened Sequences

  // ---- polynomials, constant term first ----

  function Eval(coeffs: seq<bv8>, x: bv8): bv8 {
    if coeffs == [] then 0 else Add(coeffs[0], Mul(x, Eval(coeffs[1..], x)))
  }

  /** Synthetic division: the quotient of coeffs by (X + c). */
  function Quotient(coeffs: seq<bv8>, c: bv8): (q: seq<bv8>)
    ensures coeffs != [] ==> |q| == |coeffs| - 1
  {
    if |coeffs| <= 1 then [] else [Eval(coeffs[1..], c)] + Quotient(coeffs[1..], c)
  }

  lemma {:induction false} EvalAtZero(coeffs: seq<bv8>)
    ensures Eval(coeffs, 0) == if coeffs == [] then 0 else coeffs[0]
  {
    hide Add, Mul;
    if coeffs != [] {
      MulZero(Eval(coeffs[1..], 0));
      AddUnits(coeffs[0]);
    }
  }

  /** p(x) = p(c) + (x + c) q(x). */
  lemma {:induction false} Remainder(p: seq<bv8>, c: bv8, x: bv8)
    requires p != []
    ensures Eval(p, x) == Add(Eval(p, c), Mul(Add(x, c), Eval(Quotient(p, c), x)))
    decreases |p|
  {
    hide Add, Mul;
    var r := p[1..];
    if r == [] {
      assert Eval(r, x) == 0 && Eval(r, c) == 0 && Eval(Quotient(p, c), x) == 0;
      MulZero(x);
      MulZero(c);
      MulZero(Add(x, c));
      AddUnits(p[0]);
    } else {
      var rc, s := Eval(r, c), Eval(Quotient(r, c), x);
      var e := Add(x, c);
      var q := Quotient(p, c);
      assert q[1..] == Quotient(r, c);
      calc {
        Eval(p, x);
        Add(p[0], Mul(x, Eval(r, x)));
        { Remainder(r, c, x); }
        Add(p[0], Mul(x, Add(rc, Mul(e, s))));
        { MulAddRight(x, rc, Mul(e, s)); }
        Add(p[0], Add(Mul(x, rc), Mul(x, Mul(e, s))));
        { SplitFactor(x, c, rc); }
        Add(p[0], Add(Add(Mul(c, rc), Mul(e, rc)), Mul(x, Mul(e, s))));
        { MulAssociates(x, e, s); MulCommutes(x, e); MulAssociates(e, x, s); }
        Add(p[0], Add(Add(Mul(c, rc), Mul(e, rc)), Mul(e, Mul(x, s))));
        { AddAssociates(Mul(c, rc), Mul(e, rc), Mul(e, Mul(x, s))); }
        Add(p[0], Add(Mul(c, rc), Add(Mul(e, rc), Mul(e, Mul(x, s)))));
        { AddAssociates(p[0], Mul(c, rc), Add(Mul(e, rc), Mul(e, Mul(x, s)))); }
        Add(Eval(p, c), Add(Mul(e, rc), Mul(e, Mul(x, s))));
        { MulAddRight(e, rc, Mul(x, s)); }
        Add(Eval(p, c), Mul(e, Add(rc, Mul(x, s))));
        Add(Eval(p, c), Mul(e, Eval(q, x)));
      }
    }
  }

  /** x r = c r + (x + c) r. */
  lemma SplitFactor(x: bv8, c: bv8, r: bv8)
    ensures Mul(x, r) == Add(Mul(c, r), Mul(Add(x, c), r))
  {
    hide Add, Mul;
    MulAddLeft(x, c, r);
    AddCommutes(Mul(x, r), Mul(c, r));
    AddAssociates(Mul(c, r), Mul(c, r), Mul(x, r));
    AddUnits(Mul(c, r));
    AddUnits(Mul(x, r));
  }

  // ---- Lagrange weights ----

  function Product(s: seq<bv8>): bv8 {
    if s == [] then 1 else Mul(Product(s[..|s| - 1]), s[|s| - 1])
  }

  /** The differences x - s[i]. */
  function Differences(x: bv8, s: seq<bv8>): seq<bv8> {
    seq(|s|, i requires 0 <= i < |s| => Add(x, s[i]))
  }

  lemma {:induction false} ProductSnoc(s: seq<bv8>, a: bv8)
    ensures Product(s + [a]) == Mul(Product(s), a)
  {
    assert (s + [a])[..|s|] == s;
  }

  lemma DifferencesSnoc(x: bv8, s: seq<bv8>, a: bv8)
    ensures Differences(x, s + [a]) == Differences(x, s) + [Add(x, a)]
  {}

  lemma {:induction false} DifferencesNonZero(x: bv8, s: seq<bv8>)
    requires x !in s
    ensures Product(Differences(x, s)) != 0
  {
    hide Add, Mul;
    if s != [] {
      var t, a := s[..|s| - 1], s[|s| - 1];
      assert s == t + [a];
      DifferencesNonZero(x, t);
      DifferencesSnoc(x, t, a);
      ProductSnoc(Differences(x, t), Add(x, a));
      AddCancels(x, a);
      NoZeroDivisors(Product(Differences(x, t)), Add(x, a));
    }
  }

  /** The basis polynomial of node x at 0: the product over the other nodes o of o / (x - o). */
  ghost function Weight(x: bv8, others: seq<bv8>): (w: bv8)
    requires x !in others
  {
    DifferencesNonZero(x, others);
    Div(Product(others), Product(Differences(x, others)))
  }

  /** Adding a node c multiplies the weight by c / (x + c). */
  lemma WeightSnoc(x: bv8, os: seq<bv8>, c: bv8)
    requires x !in os && x != c
    ensures x !in os + [c]
    ensures Mul(Add(x, c), Weight(x, os + [c])) == Mul(c, Weight(x, os))
  {
    hide Add, Mul, Product, Differences;
    var w, w' := Weight(x, os), Weight(x, os + [c]);
    var num, den, e := Product(os), Product(Differences(x, os)), Add(x, c);
    ProductSnoc(os, c);
    DifferencesSnoc(x, os, c);
    ProductSnoc(Differences(x, os), e);
    DifferencesNonZero(x, os);
    DifferencesNonZero(x, os + [c]);
    calc {
      Mul(Mul(e, w'), den);
      { MulCommutes(e, w'); MulAssociates(w', e, den); MulCommutes(e, den); }
      Mul(w', Mul(den, e));
      Mul(num, c);
      { MulCommutes(num, c); }
      Mul(c, Mul(w, den));
      { MulAssociates(c, w, den); }
      Mul(Mul(c, w), den);
    }
    MulCancels(Mul(e, w'), Mul(c, w), den);
  }

  lemma {:induction false} ProductSwap(s: seq<bv8>, a: bv8, b: bv8)
    ensures Product(s + [a, b]) == Product(s + [b, a])
  {
    hide Mul, Product;
    assert s + [a, b] == (s + [a]) + [b] && s + [b, a] == (s + [b]) + [a];
    ProductSnoc(s + [a], b);
    ProductSnoc(s, a);
    ProductSnoc(s + [b], a);
    ProductSnoc(s, b);
    MulAssociates(Product(s), a, b);
    MulAssociates(Product(s), b, a);
    MulCommutes(a, b);
  }

  lemma WeightSwap(x: bv8, s: seq<bv8>, a: bv8, b: bv8)
    requires x !in s && x != a && x != b
    ensures x !in s + [a, b] && x !in s + [b, a]
    ensures Weight(x, s + [a, b]) == Weight(x, s + [b, a])
  {
    hide Add, Mul, Product;
    ProductSwap(s, a, b);
    ProductSwap(Differences(x, s), Add(x, a), Add(x, b));
    assert Differences(x, s + [a, b]) == Differences(x, s) + [Add(x, a), Add(x, b)];
    assert Differences(x, s + [b, a]) == Differences(x, s) + [Add(x, b), Add(x, a)];
  }

  // ---- the interpolation sum ----

  function Without(xs: seq<bv8>, j: nat): seq<bv8>
    requires j < |xs|
  {
    xs[..j] + xs[j + 1..]
  }

  ghost function NodeWeight(xs: seq<bv8>, j: nat): bv8
    requires Distinct(xs) && j < |xs|
  {
    Weight(xs[j], Without(xs, j))
  }

  /** The first m terms of the interpolation at 0. */
  ghost function Partial(xs: seq<bv8>, ys: seq<bv8>, m: nat): bv8
    requires Distinct(xs) && |ys| == |xs| && m <= |xs|
  {
    if m == 0 then 0 else Add(Partial(xs, ys, m - 1), Mul(ys[m - 1], NodeWeight(xs, m - 1)))
  }

  ghost function Interpolate(xs: seq<bv8>, ys: seq<bv8>): bv8
    requires Distinct(xs) && |ys| == |xs|
  {
    Partial(xs, ys, |xs|)
  }

  function Values(p: seq<bv8>, xs: seq<bv8>): seq<bv8> {
    seq(|xs|, j requires 0 <= j < |xs| => Eval(p, xs[j]))
  }

  function Ones(n: nat): (s: seq<bv8>)
    ensures |s| == n
  {
    seq(n, _ => 1)
  }

  lemma NodeWeightSnoc(zs: seq<bv8>, c: bv8, j: nat)
    requires Distinct(zs + [c]) && j < |zs|
    ensures Distinct(zs)
    ensures Mul(Add(zs[j], c), NodeWeight(zs + [c], j)) == Mul(c, NodeWeight(zs, j))
  {
    hide Add, Mul, Weight;
    var xs := zs + [c];
    assert forall i :: 0 <= i < |zs| ==> zs[i] == xs[i];
    assert xs[|zs|] == c;
    assert Without(xs, j) == Without(zs, j) + [c];
    WeightSnoc(zs[j], Without(zs, j), c);
  }

  lemma DistinctSwap(zs: seq<bv8>, a: bv8, b: bv8)
    requires Distinct(zs + [a, b])
    ensures a != b && a !in zs && b !in zs
    ensures Distinct(zs + [b, a]) && Distinct(zs + [a]) && Distinct(zs + [b])
  {
    var xs := zs + [a, b];
    assert forall i :: 0 <= i < |zs| ==> zs[i] == xs[i];
    assert xs[|zs|] == a && xs[|zs| + 1] == b;
  }

  /** Swapping the last two nodes moves no weight. */
  lemma NodeWeightSwap(zs: seq<bv8>, a: bv8, b: bv8, j: nat)
    requires Distinct(zs + [a, b]) && j < |zs|
    ensures Distinct(zs + [b, a])
    ensures NodeWeight(zs + [a, b], j) == NodeWeight(zs + [b, a], j)
  {
    hide Weight;
    DistinctSwap(zs, a, b);
    var xs := zs + [a, b];
    assert forall i :: 0 <= i < |zs| ==> zs[i] == xs[i];
    assert Without(zs + [a, b], j) == Without(zs, j) + [a, b];
    assert Without(zs + [b, a], j) == Without(zs, j) + [b, a];
    WeightSwap(zs[j], Without(zs, j), a, b);
  }

  lemma LastWeightSwap(zs: seq<bv8>, a: bv8, b: bv8)
    requires Distinct(zs + [a, b])
    ensures Distinct(zs + [b, a])
    ensures NodeWeight(zs + [a, b], |zs| + 1) == NodeWeight(zs + [b, a], |zs|)
  {
    hide Weight;
    DistinctSwap(zs, a, b);
    assert Without(zs + [a, b], |zs| + 1) == zs + [a];
    assert Without(zs + [b, a], |zs|) == zs + [a];
  }

  // ---- the weights add up to 1 (Neville's recurrence on the last two nodes) ----

  /** (a + b) w_ab = a w_b + b w_a for every node before the last two. */
  lemma NevilleNode(zs: seq<bv8>, a: bv8, b: bv8, j: nat)
    requires Distinct(zs + [a, b]) && j < |zs|
    ensures Distinct(zs + [a]) && Distinct(zs + [b])
    ensures Mul(Add(a, b), NodeWeight(zs + [a, b], j)) ==
            Add(Mul(a, NodeWeight(zs + [b], j)), Mul(b, NodeWeight(zs + [a], j)))
  {
    hide Add, Mul, NodeWeight;
    DistinctSwap(zs, a, b);
    assert zs + [a, b] == (zs + [a]) + [b] && zs + [b, a] == (zs + [b]) + [a];
    var w, z := NodeWeight(zs + [a, b], j), zs[j];
    NodeWeightSnoc(zs + [a], b, j);
    NodeWeightSnoc(zs + [b], a, j);
    NodeWeightSwap(zs, a, b, j);
    calc {
      Add(Mul(a, NodeWeight(zs + [b], j)), Mul(b, NodeWeight(zs + [a], j)));
      Add(Mul(Add(z, a), w), Mul(Add(z, b), w));
      { MulAddLeft(Add(z, a), Add(z, b), w); }
      Mul(Add(Add(z, a), Add(z, b)), w);
      { AddSwaps(z, a, z, b); AddUnits(z); AddUnits(Add(a, b)); }
      Mul(Add(a, b), w);
    }
  }

  lemma {:induction false} NevillePartial(zs: seq<bv8>, a: bv8, b: bv8, m: nat)
    requires Distinct(zs + [a, b]) && m <= |zs|
    ensures Distinct(zs + [a]) && Distinct(zs + [b])
    ensures Mul(Add(a, b), Partial(zs + [a, b], Ones(|zs| + 2), m)) ==
            Add(Mul(a, Partial(zs + [b], Ones(|zs| + 1), m)), Mul(b, Partial(zs + [a], Ones(|zs| + 1), m)))
  {
    hide Add, Mul, NodeWeight;
    DistinctSwap(zs, a, b);
    MulZero(a);
    MulZero(b);
    MulZero(Add(a, b));
    AddUnits(0);
    if m != 0 {
      NevillePartial(zs, a, b, m - 1);
      NevilleNode(zs, a, b, m - 1);
      var w, wa, wb := NodeWeight(zs + [a, b], m - 1), NodeWeight(zs + [a], m - 1), NodeWeight(zs + [b], m - 1);
      MulOne(w);
      MulOne(wa);
      MulOne(wb);
      var s := Partial(zs + [a, b], Ones(|zs| + 2), m - 1);
      var sa := Partial(zs + [a], Ones(|zs| + 1), m - 1);
      var sb := Partial(zs + [b], Ones(|zs| + 1), m - 1);
      MulAddRight(Add(a, b), s, w);
      MulAddRight(a, sb, wb);
      MulAddRight(b, sa, wa);
      AddSwaps(Mul(a, sb), Mul(b, sa), Mul(a, wb), Mul(b, wa));
    }
  }

  lemma {:induction false} WeightsSumToOne(xs: seq<bv8>)
    requires Distinct(xs) && xs != []
    ensures Partial(xs, Ones(|xs|), |xs|) == 1
    decreases |xs|
  {
    hide Add, Mul, Weight;
    if |xs| == 1 {
      assert Partial(xs, Ones(1), 0) == 0;
      assert Without(xs, 0) == [];
      SingleWeight(xs[0]);
      MulOne(1);
      AddUnits(1);
    } else {
      hide NodeWeight;
      var zs, a, b := xs[..|xs| - 2], xs[|xs| - 2], xs[|xs| - 1];
      assert xs == zs + [a, b];
      DistinctSwap(zs, a, b);
      WeightsSumToOne(zs + [a]);
      WeightsSumToOne(zs + [b]);
      NevillePartial(zs, a, b, |zs|);
      LastTwo(zs, a, b);
    }
  }

  lemma SingleWeight(x: bv8)
    ensures Weight(x, []) == 1
  {
    hide Mul;
    MulOne(Weight(x, []));
    assert Differences(x, []) == [];
  }

  /** Completes the recurrence with the last two terms. */
  lemma {:induction false} LastTwo(zs: seq<bv8>, a: bv8, b: bv8)
    requires Distinct(zs + [a, b]) && Distinct(zs + [a]) && Distinct(zs + [b])
    requires Mul(Add(a, b), Partial(zs + [a, b], Ones(|zs| + 2), |zs|)) ==
             Add(Mul(a, Partial(zs + [b], Ones(|zs| + 1), |zs|)), Mul(b, Partial(zs + [a], Ones(|zs| + 1), |zs|)))
    requires Partial(zs + [a], Ones(|zs| + 1), |zs| + 1) == 1
    requires Partial(zs + [b], Ones(|zs| + 1), |zs| + 1) == 1
    ensures Partial(zs + [a, b], Ones(|zs| + 2), |zs| + 2) == 1
  {
    hide Add, Mul, NodeWeight, Partial, Ones, Distinct;
    DistinctSwap(zs, a, b);
    var xs, n := zs + [a, b], |zs|;
    assert zs + [a, b] == (zs + [a]) + [b] && zs + [b, a] == (zs + [b]) + [a];
    var va, vb := NodeWeight(zs + [a], n), NodeWeight(zs + [b], n);
    var wa, wb := NodeWeight(xs, n), NodeWeight(xs, n + 1);
    NodeWeightSnoc(zs + [a], b, n);
    NodeWeightSnoc(zs + [b], a, n);
    LastWeightSwap(zs, a, b);
    AddCommutes(a, b);
    PartialSnoc(xs, n);
    PartialSnoc(xs, n + 1);
    PartialSnoc(zs + [a], n);
    PartialSnoc(zs + [b], n);
    LastTwoAlgebra(a, b, Partial(xs, Ones(n + 2), n), Partial(zs + [a], Ones(n + 1), n),
                   Partial(zs + [b], Ones(n + 1), n), va, vb, wa, wb);
  }

  lemma PartialSnoc(xs: seq<bv8>, m: nat)
    requires Distinct(xs) && m < |xs|
    ensures Partial(xs, Ones(|xs|), m + 1) == Add(Partial(xs, Ones(|xs|), m), NodeWeight(xs, m))
  {
    hide Add, Mul, NodeWeight;
    MulOne(NodeWeight(xs, m));
  }

  lemma LastTwoAlgebra(a: bv8, b: bv8, s: bv8, sa: bv8, sb: bv8, va: bv8, vb: bv8, wa: bv8, wb: bv8)
    requires a != b
    requires Mul(Add(a, b), s) == Add(Mul(a, sb), Mul(b, sa))
    requires Mul(Add(a, b), wa) == Mul(b, va) && Mul(Add(a, b), wb) == Mul(a, vb)
    requires Add(sa, va) == 1 && Add(sb, vb) == 1
    ensures Add(Add(s, wa), wb) == 1
  {
    hide Add, Mul;
    var d, total := Add(a, b), Add(Add(s, wa), wb);
    calc {
      Mul(total, d);
      { MulCommutes(d, total); MulAddRight(d, Add(s, wa), wb); MulAddRight(d, s, wa); }
      Add(Add(Add(Mul(a, sb), Mul(b, sa)), Mul(b, va)), Mul(a, vb));
      { Regroup(Mul(a, sb), Mul(b, sa), Mul(b, va), Mul(a, vb)); }
      Add(Add(Mul(a, sb), Mul(a, vb)), Add(Mul(b, sa), Mul(b, va)));
      { MulAddRight(a, sb, vb); MulAddRight(b, sa, va); }
      Add(Mul(a, 1), Mul(b, 1));
      { MulOne(a); MulOne(b); MulOne(d); }
      Mul(1, d);
    }
    AddCancels(a, b);
    MulCancels(total, 1, d);
  }

  lemma Regroup(p: bv8, q: bv8, r: bv8, s: bv8)
    ensures Add(Add(Add(p, q), r), s) == Add(Add(p, s), Add(q, r))
  {
    hide Add;
    AddAssociates(p, q, r);
    AddAssociates(p, Add(q, r), s);
    AddCommutes(Add(q, r), s);
    AddAssociates(p, s, Add(q, r));
  }

  // ---- interpolation recovers the constant term ----

  /** Values (x + c) q(x) at the first m nodes weigh as much as c q at one node less. */
  lemma {:induction false} ScaledPartial(zs: seq<bv8>, c: bv8, p: seq<bv8>, m: nat)
    requires Distinct(zs + [c]) && Distinct(zs) && p != [] && m <= |zs|
    ensures Partial(zs + [c], Values(p, zs + [c]), m) ==
            Add(Mul(Eval(p, c), Partial(zs + [c], Ones(|zs| + 1), m)),
                Mul(c, Partial(zs, Values(Quotient(p, c), zs), m)))
  {
    hide Add, Mul, NodeWeight, Eval, Quotient;
    var xs, k, q := zs + [c], Eval(p, c), Quotient(p, c);
    MulZero(k);
    MulZero(c);
    AddUnits(0);
    if m != 0 {
      var j := m - 1;
      ScaledPartial(zs, c, p, j);
      var x, w, v, e := zs[j], NodeWeight(xs, j), NodeWeight(zs, j), Add(zs[j], c);
      var qx := Eval(q, x);
      calc {
        Mul(Eval(p, x), w);
        { Remainder(p, c, x); }
        Mul(Add(k, Mul(e, qx)), w);
        { MulAddLeft(k, Mul(e, qx), w); }
        Add(Mul(k, w), Mul(Mul(e, qx), w));
        { MulCommutes(e, qx); MulAssociates(qx, e, w); NodeWeightSnoc(zs, c, j); }
        Add(Mul(k, w), Mul(qx, Mul(c, v)));
        { MulAssociates(qx, c, v); MulCommutes(qx, c); MulAssociates(c, qx, v); }
        Add(Mul(k, w), Mul(c, Mul(qx, v)));
      }
      var ones, quot := Partial(xs, Ones(|zs| + 1), j), Partial(zs, Values(q, zs), j);
      MulOne(w);
      MulAddRight(k, ones, w);
      MulAddRight(c, quot, Mul(qx, v));
      AddSwaps(Mul(k, ones), Mul(c, quot), Mul(k, w), Mul(c, Mul(qx, v)));
    }
  }

  lemma {:induction false} ZeroPartial(xs: seq<bv8>, m: nat)
    requires Distinct(xs) && m <= |xs|
    ensures Partial(xs, Values([], xs), m) == 0
  {
    hide Add, Mul, NodeWeight;
    AddUnits(0);
    if m != 0 {
      ZeroPartial(xs, m - 1);
      MulZero(NodeWeight(xs, m - 1));
    }
  }

  /** Interpolating any polynomial with at most |xs| coefficients gives its value at 0. */
  lemma {:induction false} InterpolatesAtZero(p: seq<bv8>, xs: seq<bv8>)
    requires Distinct(xs) && |p| <= |xs|
    ensures Interpolate(xs, Values(p, xs)) == Eval(p, 0)
    decreases |p|
  {
    hide Add, Mul, NodeWeight;
    if p == [] {
      ZeroPartial(xs, |xs|);
    } else {
      var n := |xs| - 1;
      var zs, c, q := xs[..n], xs[n], Quotient(p, xs[n]);
      assert xs == zs + [c];
      InterpolatesAtZero(q, zs);
      ScaledPartial(zs, c, p, n);
      WeightsSumToOne(xs);
      hide Quotient, Eval;
      var k, w, ones, rest := Eval(p, c), NodeWeight(xs, n), Partial(xs, Ones(n + 1), n), Eval(q, 0);
      calc {
        Interpolate(xs, Values(p, xs));
        Add(Partial(xs, Values(p, xs), n), Mul(k, w));
        Add(Add(Mul(k, ones), Mul(c, rest)), Mul(k, w));
        { AddAssociates(Mul(k, ones), Mul(c, rest), Mul(k, w)); AddCommutes(Mul(c, rest), Mul(k, w));
          AddAssociates(Mul(k, ones), Mul(k, w), Mul(c, rest)); }
        Add(Add(Mul(k, ones), Mul(k, w)), Mul(c, rest));
        { MulAddRight(k, ones, w); MulOne(w); MulOne(k); }
        Add(k, Mul(c, rest));
        { AddUnits(c); AddCommutes(c, 0); Remainder(p, c, 0); AddCancels(Eval(p, 0), Mul(c, rest));
          AddCancels(k, Mul(c, rest)); }
        Eval(p, 0);
      }
    }
  }
}
