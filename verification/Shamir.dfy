/** internal/shamir/shamir.go: the log/exp tables, Split and Combine. */
module Shamir {
  import opened Wrappers
  import opened Gf256
  import opened GfPowers
  import opened Lagrange
  import opened Sequences

  // ---- the look-up tables ----

  function ToInt(b: bv8): (i: int)
    ensures 0 <= i < 256
  {
    b as int
  }

  lemma ToIntNext(b: bv8)
    ensures ToInt(0) == 0 && ToInt(255) == 255
    ensures b != 255 ==> ToInt(b + 1) == ToInt(b) + 1
  {}

  /** The byte with this value, counted up from zero. */
  function ToByte(i: int): bv8
    requires 0 <= i < 256
  {
    if i == 0 then 0 else ToByte(i - 1) + 1
  }

  lemma {:induction false} ToIntOfByte(i: int)
    requires 0 <= i < 256
    ensures ToInt(ToByte(i)) == i
    decreases i
  {
    ToIntNext(0);
    if i > 0 {
      ToIntOfByte(i - 1);
      ToIntNext(ToByte(i - 1));
    }
  }

  lemma ToIntInjective(a: bv8, b: bv8)
    requires ToInt(a) == ToInt(b)
    ensures a == b
  {}

  /** The loop's update of x, with the int arithmetic of the source. */
  function TableStep(x: bv8): bv8 {
    var wide := x as bv16;
    var doubled := if wide & 0x80 != 0 then (wide << 1) ^ 0x1b else wide << 1;
    ((doubled ^ wide) & 0xff) as bv8
  }

  lemma TableStepTriples(x: bv8)
    ensures TableStep(x) == Triple(x)
  {}

  lemma PowerSteps(i: nat)
    ensures Power(0) == 1 && Power(i + 1) == TableStep(Power(i))
  {
    TableStepTriples(Power(i));
  }

  lemma FreshIndex(i: nat)
    requires i < 255
    ensures forall j :: 0 <= j < i ==> ToInt(Power(j)) != ToInt(Power(i))
  {
    hide Power, ToInt;
    forall j | 0 <= j < i
      ensures ToInt(Power(j)) != ToInt(Power(i))
    {
      PowersDiffer(j, i);
      if ToInt(Power(j)) == ToInt(Power(i)) {
        ToIntInjective(Power(j), Power(i));
      }
    }
  }

  class Tables {
    const logTable: array<int>
    const expTable: array<bv8>

    /** exp is i -> 3^i (twice over), log its inverse on the non-zero bytes. */
    ghost predicate Valid()
      reads logTable, expTable
    {
      && logTable.Length == 256 && expTable.Length == 512
      && (forall i :: 0 <= i < 255 ==> expTable[i] == Power(i))
      && (forall i :: 255 <= i < 510 ==> expTable[i] == Power(i - 255))
      && (forall i :: 0 <= i < 255 ==> logTable[ToInt(Power(i))] == i)
    }

    constructor ()
      ensures Valid() && fresh(logTable) && fresh(expTable)
    {
      logTable := new int[256];
      expTable := new bv8[512];
      new;
      hide Power, ToInt, TableStep;
      PowerSteps(0);
      var x: bv8 := 1;
      var i := 0;
      while i < 255
        invariant 0 <= i <= 255
        invariant x == Power(i)
        invariant forall j :: 0 <= j < i ==> expTable[j] == Power(j)
        invariant forall j :: 255 <= j < 255 + i ==> expTable[j] == Power(j - 255)
        invariant forall j :: 0 <= j < i ==> logTable[ToInt(Power(j))] == j
      {
        expTable[i] := x;
        expTable[i + 255] := x;
        FreshIndex(i);
        logTable[ToInt(x)] := i;
        PowerSteps(i);
        x := TableStep(x);
        i := i + 1;
      }
    }

    method GfMul(a: bv8, b: bv8) returns (r: bv8)
      requires Valid()
      ensures r == Mul(a, b)
    {
      hide Power, ToInt, Mul;
      MulZero(a);
      MulZero(b);
      if a == 0 || b == 0 {
        return 0;
      }
      ghost var i, j := Log(a), Log(b);
      PowerAdds(i, j);
      WrapPower(i + j);
      r := expTable[logTable[ToInt(a)] + logTable[ToInt(b)]];
    }

    /** The source panics on a zero divisor. */
    method GfDiv(a: bv8, b: bv8) returns (r: bv8)
      requires Valid() && b != 0
      ensures r == Div(a, b)
      ensures Mul(r, b) == a
    {
      hide Power, ToInt, Mul;
      if a == 0 {
        MulZero(b);
        MulCancels(0, Div(a, b), b);
        return 0;
      }
      ghost var i, j := Log(a), Log(b);
      var e := (logTable[ToInt(a)] + 255 - logTable[ToInt(b)]) % 255;
      r := expTable[e];
      PowerAdds(e, j);
      WrapPower(e + j);
      MulCancels(r, Div(a, b), b);
    }
  }

  /** Exponents wrap at 255. */
  lemma WrapPower(i: nat)
    ensures i >= 255 ==> Power(i) == Power(i - 255)
  {
    hide Scaled, Triple;
    if i >= 255 {
      KeyPowers();
      ScaledAdds(i - 255, 255, 1);
    }
  }

  // ---- specification of Split and Combine ----

  datatype ShamirError = EmptySecret | BadShareCount | BadThreshold | ThresholdAboveCount
                       | NoShares | ShareTooShort | InconsistentLength | DuplicateCoordinate

  type Share = seq<bv8>

  /** The polynomial of one secret byte: the byte, then its k - 1 drawn coefficients. */
  function Polynomial(s: bv8, drawn: seq<bv8>): seq<bv8> {
    [s] + drawn
  }

  /** Share number i: the coordinate i + 1, then every byte's polynomial at that coordinate. */
  function ShareAt(secret: seq<bv8>, drawn: seq<seq<bv8>>, i: nat): Share
    requires |drawn| == |secret| && i < 255
  {
    [ToByte(i + 1)] + seq(|secret|, b requires 0 <= b < |secret| => Eval(Polynomial(secret[b], drawn[b]),
        ToByte(i + 1)))
  }

  function SharesOf(secret: seq<bv8>, drawn: seq<seq<bv8>>, n: nat): seq<Share>
    requires |drawn| == |secret| && n <= 255
  {
    seq(n, i requires 0 <= i < n => ShareAt(secret, drawn, i))
  }

  function SplitError(secret: seq<bv8>, n: int, k: int): Option<ShamirError> {
    if |secret| == 0 then Some(EmptySecret)
    else if n < 1 || n > 255 then Some(BadShareCount)
    else if k < 1 then Some(BadThreshold)
    else if k > n then Some(ThresholdAboveCount)
    else None
  }

  function Coordinates(shares: seq<Share>): seq<bv8>
    requires forall i :: 0 <= i < |shares| ==> |shares[i]| >= 1
  {
    seq(|shares|, i requires 0 <= i < |shares| => shares[i][0])
  }

  /** Byte b of every share. */
  function Column(shares: seq<Share>, b: nat): seq<bv8>
    requires forall i :: 0 <= i < |shares| ==> |shares[i]| > b + 1
  {
    seq(|shares|, i requires 0 <= i < |shares| => shares[i][b + 1])
  }

  /** What Combine must return for every input. */
  ghost function Combined(shares: seq<Share>): Result<seq<bv8>, ShamirError> {
    if |shares| == 0 then Failure(NoShares)
    else if |shares[0]| < 2 then Failure(ShareTooShort)
    else if exists i :: 0 <= i < |shares| && |shares[i]| != |shares[0]| then Failure(InconsistentLength)
    else if !Distinct(Coordinates(shares)) then Failure(DuplicateCoordinate)
    else Success(seq(|shares[0]| - 1, b requires 0 <= b < |shares[0]| - 1 =>
                     Interpolate(Coordinates(shares), Column(shares, b))))
  }

  // ---- the methods ----

  method EvalPoly(t: Tables, coeffs: seq<bv8>, x: bv8) returns (result: bv8)
    requires t.Valid()
    ensures result == Eval(coeffs, x)
  {
    hide Add, Mul;
    if |coeffs| == 0 {
      return 0;
    }
    result := coeffs[|coeffs| - 1];
    var i := |coeffs| - 2;
    EvalLast(coeffs, x);
    while i >= 0
      invariant -1 <= i <= |coeffs| - 2
      invariant result == Eval(coeffs[i + 1..], x)
    {
      var product := t.GfMul(result, x);
      result := Xor(coeffs[i], product);
      MulCommutes(x, Eval(coeffs[i + 1..], x));
      assert coeffs[i..][1..] == coeffs[i + 1..];
      i := i - 1;
    }
    assert coeffs[0..] == coeffs;
  }

  /** The source's ^ on bytes is field addition. */
  function Xor(a: bv8, b: bv8): (r: bv8)
    ensures r == Add(a, b)
  {
    a ^ b
  }

  lemma EvalLast(coeffs: seq<bv8>, x: bv8)
    requires coeffs != []
    ensures Eval(coeffs[|coeffs| - 1..], x) == coeffs[|coeffs| - 1]
  {
    hide Add, Mul;
    var last := coeffs[|coeffs| - 1..];
    assert last[1..] == [];
    MulZero(x);
    AddUnits(last[0]);
  }

  /** Writes one secret byte's column: every share's polynomial value at its coordinate. */
  method FillColumn(t: Tables, shares: seq<Share>, b: nat, coeffs: seq<bv8>) returns (filled: seq<Share>)
    requires t.Valid()
    requires |shares| <= 255 && forall j :: 0 <= j < |shares| ==> |shares[j]| > 1 + b
    ensures |filled| == |shares|
    ensures forall j :: 0 <= j < |shares| ==> filled[j] == shares[j][1 + b := Eval(coeffs, ToByte(j + 1))]
  {
    hide Eval, ToByte, Tables.Valid;
    filled := shares;
    for i := 0 to |shares|
      invariant |filled| == |shares|
      invariant forall j :: 0 <= j < i ==> filled[j] == shares[j][1 + b := Eval(coeffs, ToByte(j + 1))]
      invariant forall j :: i <= j < |shares| ==> filled[j] == shares[j]
    {
      var y := EvalPoly(t, coeffs, ToByte(i + 1));
      filled := filled[i := filled[i][1 + b := y]];
    }
  }

  /** A share after its first m bytes have been filled in. */
  function PartShare(secret: seq<bv8>, drawn: seq<seq<bv8>>, i: nat, m: nat): Share
    requires |drawn| == |secret| && i < 255 && m <= |secret|
  {
    ShareAt(secret[..m], drawn[..m], i) + seq(|secret| - m, _ => 0)
  }

  lemma {:induction false} PartShareNext(secret: seq<bv8>, drawn: seq<seq<bv8>>, i: nat, m: nat)
    requires |drawn| == |secret| && i < 255 && m < |secret|
    ensures PartShare(secret, drawn, i, m + 1) ==
            PartShare(secret, drawn, i, m)[1 + m := Eval(Polynomial(secret[m], drawn[m]), ToByte(i + 1))]
  {
    hide Eval, ToByte;
  }

  /** `drawn[b]` holds the coefficients a_1..a_{k-1} read from the random source for byte b. */
  method Split(t: Tables, secret: seq<bv8>, n: int, k: int, drawn: seq<seq<bv8>>)
    returns (r: Result<seq<Share>, ShamirError>)
    requires t.Valid()
    requires |drawn| == |secret| && (k >= 1 ==> forall b :: 0 <= b < |drawn| ==> |drawn[b]| == k - 1)
    ensures r == match SplitError(secret, n, k)
                 case Some(e) => Failure(e)
                 case None => Success(SharesOf(secret, drawn, n))
  {
    if |secret| == 0 {
      return Failure(EmptySecret);
    }
    if n < 1 || n > 255 {
      return Failure(BadShareCount);
    }
    if k < 1 {
      return Failure(BadThreshold);
    }
    if k > n {
      return Failure(ThresholdAboveCount);
    }
    hide Eval, ToByte, Tables.Valid;
    var shares: seq<Share> := [];
    for i := 0 to n
      invariant |shares| == i
      invariant forall j :: 0 <= j < i ==> shares[j] == PartShare(secret, drawn, j, 0)
    {
      shares := shares + [[ToByte(i + 1)] + seq(|secret|, _ => 0)];
      assert shares[i] == PartShare(secret, drawn, i, 0);
    }
    for b := 0 to |secret|
      invariant |shares| == n
      invariant forall j :: 0 <= j < n ==> shares[j] == PartShare(secret, drawn, j, b)
    {
      hide PartShare;
      assert forall j :: 0 <= j < n ==> |PartShare(secret, drawn, j, b)| == 1 + |secret| by {
        PartShareLength(secret, drawn, b);
      }
      shares := FillColumn(t, shares, b, Polynomial(secret[b], drawn[b]));
      forall j | 0 <= j < n {
        PartShareNext(secret, drawn, j, b);
      }
    }
    forall j | 0 <= j < n {
      PartShareDone(secret, drawn, j);
    }
    assert shares == SharesOf(secret, drawn, n);
    return Success(shares);
  }

  lemma PartShareDone(secret: seq<bv8>, drawn: seq<seq<bv8>>, i: nat)
    requires |drawn| == |secret| && i < 255
    ensures PartShare(secret, drawn, i, |secret|) == ShareAt(secret, drawn, i)
  {
    hide Eval, ToByte;
    assert secret[..|secret|] == secret && drawn[..|secret|] == drawn;
  }

  lemma PartShareLength(secret: seq<bv8>, drawn: seq<seq<bv8>>, m: nat)
    requires |drawn| == |secret| && m <= |secret|
    ensures forall i: nat :: i < 255 ==> |PartShare(secret, drawn, i, m)| == 1 + |secret|
  {
    hide Eval, ToByte;
  }

  /** The basis polynomial of node j at 0, as the inner loop computes it. */
  method BasisAtZero(t: Tables, xs: seq<bv8>, j: nat) returns (w: bv8)
    requires t.Valid() && Distinct(xs) && j < |xs|
    ensures w == NodeWeight(xs, j)
  {
    hide Add, Mul, Tables.Valid, Product, Differences;
    assert Product([]) == 1 && Differences(xs[j], []) == [] by { EmptyProduct(xs[j]); }
    var num: bv8, den: bv8 := 1, 1;
    ghost var others: seq<bv8> := [];
    for m := 0 to |xs|
      invariant others == if m <= j then xs[..m] else xs[..j] + xs[j + 1..m]
      invariant num == Product(others) && den == Product(Differences(xs[j], others))
    {
      if m != j {
        num := t.GfMul(num, xs[m]);
        den := t.GfMul(den, Xor(xs[j], xs[m]));
        ProductSnoc(others, xs[m]);
        DifferencesSnoc(xs[j], others, xs[m]);
        ProductSnoc(Differences(xs[j], others), Add(xs[j], xs[m]));
        others := others + [xs[m]];
      }
    }
    assert others == Without(xs, j);
    DifferencesNonZero(xs[j], others);
    w := t.GfDiv(num, den);
  }

  lemma EmptyProduct(x: bv8)
    ensures Product([]) == 1 && Differences(x, []) == []
  {}

  method SameLengths(shares: seq<Share>) returns (same: bool)
    requires |shares| > 0
    ensures same <==> forall i :: 0 <= i < |shares| ==> |shares[i]| == |shares[0]|
  {
    for i := 0 to |shares|
      invariant forall j :: 0 <= j < i ==> |shares[j]| == |shares[0]|
    {
      if |shares[i]| != |shares[0]| {
        return false;
      }
    }
    return true;
  }

  method CheckDistinct(xs: seq<bv8>) returns (distinct: bool)
    ensures distinct <==> Distinct(xs)
  {
    var seen: set<bv8> := {};
    for i := 0 to |xs|
      invariant seen == set j | 0 <= j < i :: xs[j]
      invariant forall j, l :: 0 <= j < l < i ==> xs[j] != xs[l]
    {
      if xs[i] in seen {
        return false;
      }
      seen := seen + {xs[i]};
    }
    return true;
  }

  method InterpolateColumn(t: Tables, xs: seq<bv8>, ys: seq<bv8>) returns (value: bv8)
    requires t.Valid() && Distinct(xs) && |ys| == |xs|
    ensures value == Interpolate(xs, ys)
  {
    hide Add, Mul, NodeWeight, Tables.Valid;
    value := 0;
    for j := 0 to |xs|
      invariant value == Partial(xs, ys, j)
    {
      var weight := BasisAtZero(t, xs, j);
      var term := t.GfMul(ys[j], weight);
      value := Xor(value, term);
    }
  }

  method Combine(t: Tables, shares: seq<Share>) returns (r: Result<seq<bv8>, ShamirError>)
    requires t.Valid()
    ensures r == Combined(shares)
  {
    hide Interpolate, Tables.Valid, Distinct;
    if |shares| == 0 {
      return Failure(NoShares);
    }
    if |shares[0]| < 2 {
      return Failure(ShareTooShort);
    }
    var same := SameLengths(shares);
    if !same {
      return Failure(InconsistentLength);
    }
    var xs := Coordinates(shares);
    var distinct := CheckDistinct(xs);
    if !distinct {
      return Failure(DuplicateCoordinate);
    }
    var secret: seq<bv8> := [];
    for b := 0 to |shares[0]| - 1
      invariant |secret| == b
      invariant forall c :: 0 <= c < b ==> secret[c] == Interpolate(xs, Column(shares, c))
    {
      var value := InterpolateColumn(t, xs, Column(shares, b));
      secret := secret + [value];
    }
    assert Combined(shares).Success? && secret == Combined(shares).value;
    return Success(secret);
  }

  // ---- any k distinct shares give the secret back ----

  ghost predicate DistinctPicks(picks: seq<nat>, n: nat) {
    && (forall i :: 0 <= i < |picks| ==> picks[i] < n)
    && Distinct(picks)
  }

  function Picked(shares: seq<Share>, picks: seq<nat>): seq<Share>
    requires forall i :: 0 <= i < |picks| ==> picks[i] < |shares|
  {
    seq(|picks|, i requires 0 <= i < |picks| => shares[picks[i]])
  }

  lemma PickedCoordinatesDistinct(secret: seq<bv8>, drawn: seq<seq<bv8>>, n: nat, picks: seq<nat>)
    requires |drawn| == |secret| && n <= 255 && DistinctPicks(picks, n)
    ensures Distinct(Coordinates(Picked(SharesOf(secret, drawn, n), picks)))
  {
    hide ToByte, Eval, ToInt;
    var xs := Coordinates(Picked(SharesOf(secret, drawn, n), picks));
    forall i, j | 0 <= i < j < |xs|
      ensures xs[i] != xs[j]
    {
      ToIntOfByte(picks[i] + 1);
      ToIntOfByte(picks[j] + 1);
    }
  }

  /** Exactly what is refused, and as what. */
  lemma RefusedIff(secret: seq<bv8>, n: int, k: int, shares: seq<Share>)
    ensures SplitError(secret, n, k) == Some(EmptySecret) <==> secret == []
    ensures SplitError(secret, n, k) == Some(BadShareCount) <==> secret != [] && !(1 <= n <= 255)
    ensures SplitError(secret, n, k) == Some(BadThreshold) <==> secret != [] && 1 <= n <= 255 && k <= 0
    ensures SplitError(secret, n, k) == Some(ThresholdAboveCount) <==> secret != [] && 1 <= n <= 255 && n < k
    ensures SplitError(secret, n, k) == None <==> secret != [] && 1 <= k <= n <= 255
    ensures Combined(shares) == Failure(NoShares) <==> shares == []
    ensures Combined(shares) == Failure(ShareTooShort) <==> shares != [] && |shares[0]| <= 1
    ensures Combined(shares) == Failure(InconsistentLength) <==>
              shares != [] && |shares[0]| > 1 && exists i :: 0 < i < |shares| && |shares[i]| != |shares[0]|
    ensures Combined(shares) == Failure(DuplicateCoordinate) <==>
              && shares != [] && |shares[0]| > 1 && (forall i :: 0 <= i < |shares| ==> |shares[i]| == |shares[0]|)
              && exists i, j :: 0 <= i < j < |shares| && shares[i][0] == shares[j][0]
  {
    hide Interpolate;
    if shares != [] && |shares[0]| > 1 && forall i :: 0 <= i < |shares| ==> |shares[i]| == |shares[0]| {
      assert forall i :: 0 <= i < |shares| ==> Coordinates(shares)[i] == shares[i][0];
    }
  }

  /** Every secret can be split, and every choice of k or more distinct shares, in any order, combines to it. */
  lemma AnyThresholdSharesCombine(secret: seq<bv8>, drawn: seq<seq<bv8>>, n: nat, k: nat, picks: seq<nat>)
    requires |secret| > 0 && 1 <= k <= n <= 255
    requires |drawn| == |secret| && forall b :: 0 <= b < |drawn| ==> |drawn[b]| == k - 1
    requires DistinctPicks(picks, n) && |picks| >= k
    ensures SplitError(secret, n, k) == None
    ensures Combined(Picked(SharesOf(secret, drawn, n), picks)) == Success(secret)
  {
    hide ToByte, Eval, Interpolate;
    var shares := Picked(SharesOf(secret, drawn, n), picks);
    var xs := Coordinates(shares);
    assert |shares[0]| == |secret| + 1;
    PickedCoordinatesDistinct(secret, drawn, n, picks);
    forall b | 0 <= b < |secret|
      ensures Interpolate(xs, Column(shares, b)) == secret[b]
    {
      var p := Polynomial(secret[b], drawn[b]);
      assert Column(shares, b) == Values(p, xs);
      InterpolatesAtZero(p, xs);
      EvalAtZero(p);
    }
    assert Combined(shares).Success?;
    assert Combined(shares).value == secret;
  }
}
