/** Values of a mix transaction, from the command line to the prover. */
module JoinSplit {
  import opened Outcomes
  import opened PrimeField
  import opened Numerals
  import opened Sums
  import opened FloatDivision

  const JS_INPUTS := 2
  const JS_OUTPUTS := 2
  const UNIT := 1000000000000  // wei per zeth unit
  const INT64_BOUND := 0x1_0000_0000_0000_0000

  /** Public values and outputs are in wei, input notes in zeth units. */
  datatype Mix = Mix(vin: nat, vout: nat, inputs: seq<nat>, outputs: seq<nat>)

  /** What the prover gets, all in zeth units. */
  datatype ProverValues = ProverValues(vin: nat, vout: nat, inputs: seq<nat>, outputs: seq<nat>)

  datatype MixError = TooManyInputs | TooManyOutputs | ValueMismatch | ValueTooLarge

  /** to_zeth_units, which divides in floating point. */
  function ToUnits(wei: nat): nat
  {
    IntOfQuotient(wei, UNIT)
  }

  function Units(s: seq<nat>): (r: seq<nat>)
    ensures |r| == |s|
  {
    seq(|s|, i requires 0 <= i < |s| => ToUnits(s[i]))
  }

  function Padded(s: seq<nat>, n: nat): (r: seq<nat>)
    requires |s| <= n
    ensures |r| == n
  {
    s + seq(n - |s|, _ => 0)
  }

  /** The check of zeth_mix, in wei. */
  predicate BalancedInWei(m: Mix)
  {
    m.vin + UNIT * Sum(m.inputs) == m.vout + Sum(m.outputs)
  }

  /** What the joinsplit circuit demands, in units. */
  predicate Balanced(v: ProverValues)
  {
    v.vin + Sum(v.inputs) == v.vout + Sum(v.outputs)
  }

  function Values(m: Mix): (v: ProverValues)
    requires |m.inputs| <= JS_INPUTS && |m.outputs| <= JS_OUTPUTS
  {
    ProverValues(ToUnits(m.vin), ToUnits(m.vout), Padded(m.inputs, JS_INPUTS), Units(Padded(m.outputs, JS_OUTPUTS)))
  }

  const TOO_LARGE := (INT64_BOUND - 1024) * UNIT

  /** Public values and outputs, converted to units, can be written as 64-bit numbers. Amounts
      within half a unit in the last place of 2^64 units are rounded up to that. */
  predicate FitsInt64(m: Mix)
  {
    && m.vin < TOO_LARGE && m.vout < TOO_LARGE
    && forall i :: 0 <= i < |m.outputs| ==> m.outputs[i] < TOO_LARGE
  }

  lemma TooLargeIff(wei: nat)
    ensures ToUnits(wei) >= INT64_BOUND <==> wei >= TOO_LARGE
  {
    ReachesPower(wei, UNIT, 11);
    assert Pow(2, 11) == 2048;
  }

  lemma Int64OfPadded(s: seq<nat>)
    requires |s| <= JS_OUTPUTS
    ensures
      var units := Units(Padded(s, JS_OUTPUTS));
      (exists i :: 0 <= i < |units| && units[i] >= INT64_BOUND) <==> !forall i :: 0 <= i < |s| ==> s[i] < TOO_LARGE
  {
    var units := Units(Padded(s, JS_OUTPUTS));
    forall i | 0 <= i < |s|
      ensures units[i] >= INT64_BOUND <==> s[i] >= TOO_LARGE
    {
      TooLargeIff(s[i]);
    }
    assert forall i :: |s| <= i < JS_OUTPUTS ==> units[i] == ToUnits(0) == 0;
  }

  /** All the checks between the command line and the prover, and the values sent to it. */
  method CreateProverValues(m: Mix) returns (r: Result<ProverValues, MixError>)
    ensures r == Err(TooManyInputs) <==> |m.inputs| > JS_INPUTS
    ensures r == Err(TooManyOutputs) <==> |m.inputs| <= JS_INPUTS && |m.outputs| > JS_OUTPUTS
    ensures r == Err(ValueMismatch) <==> |m.inputs| <= JS_INPUTS && |m.outputs| <= JS_OUTPUTS && !BalancedInWei(m)
    ensures r == Err(ValueTooLarge) <==>
      |m.inputs| <= JS_INPUTS && |m.outputs| <= JS_OUTPUTS && BalancedInWei(m) && !FitsInt64(m)
    ensures r.Ok? ==> BalancedInWei(m) && |m.inputs| <= JS_INPUTS && |m.outputs| <= JS_OUTPUTS && r.value == Values(m)
    ensures r.Ok? ==> |r.value.inputs| == JS_INPUTS && |r.value.outputs| == JS_OUTPUTS
    ensures r.Ok? ==> r.value.vin == ToUnits(m.vin) && r.value.vout == ToUnits(m.vout)
    ensures r.Ok? ==> forall i :: 0 <= i < JS_INPUTS ==>
      r.value.inputs[i] == if i < |m.inputs| then m.inputs[i] else 0
    ensures r.Ok? ==> forall i :: 0 <= i < JS_OUTPUTS ==>
      r.value.outputs[i] == if i < |m.outputs| then ToUnits(m.outputs[i]) else 0
  {
    if |m.inputs| > JS_INPUTS {
      return Err(TooManyInputs);
    }
    if |m.outputs| > JS_OUTPUTS {
      return Err(TooManyOutputs);
    }
    var inputSum, outputSum := 0, 0;
    for i := 0 to |m.inputs|
      invariant inputSum == Sum(m.inputs[..i])
    {
      assert m.inputs[..i + 1][..i] == m.inputs[..i];
      inputSum := inputSum + m.inputs[i];
    }
    for i := 0 to |m.outputs|
      invariant outputSum == Sum(m.outputs[..i])
    {
      assert m.outputs[..i + 1][..i] == m.outputs[..i];
      outputSum := outputSum + m.outputs[i];
    }
    assert m.inputs[..|m.inputs|] == m.inputs && m.outputs[..|m.outputs|] == m.outputs;
    if m.vin + UNIT * inputSum != m.vout + outputSum {
      return Err(ValueMismatch);
    }
    var outputs := Units(Padded(m.outputs, JS_OUTPUTS));
    Int64OfPadded(m.outputs);
    TooLargeIff(m.vin);
    TooLargeIff(m.vout);
    assert ToUnits(0) == 0;
    var tooLarge := exists i :: 0 <= i < |outputs| && outputs[i] >= INT64_BOUND;
    if ToUnits(m.vin) >= INT64_BOUND || ToUnits(m.vout) >= INT64_BOUND || tooLarge {
      return Err(ValueTooLarge);
    }
    return Ok(ProverValues(ToUnits(m.vin), ToUnits(m.vout), Padded(m.inputs, JS_INPUTS), outputs));
  }

  // ----- What the conversion does

  /** The conversion is the division without remainder. */
  predicate Floors(wei: nat)
  {
    ToUnits(wei) == wei / UNIT
  }

  /** Below 2^53 units it is one too many exactly if the quotient rounds up. */
  lemma FloorsIff(wei: nat)
    requires wei < MANTISSA * UNIT
    ensures Floors(wei) <==> !RoundsUp(wei, UNIT)
    ensures !Floors(wei) ==> ToUnits(wei) == wei / UNIT + 1
  {
    IntOfSmallQuotient(wei, UNIT);
  }

  lemma Pow38()
    ensures Pow(2, 38) == 0x40_0000_0000 && Pow(2, 39) == 0x80_0000_0000
  {
    assert Pow(2, 10) == 1024 && Pow(2, 9) == 512;
    PowAdd(2, 10, 9);
    PowAdd(2, 19, 19);
  }

  lemma LargeScale(wei: nat)
    requires 0 < wei < 0x4000 * UNIT
    ensures Scale(wei, UNIT, 1) >= 0x80_0000_0000
  {
    var s := Scale(wei, UNIT, 1);
    ScaleMeaning(wei, UNIT, 1);
    var j := ScaleIsPower(wei, UNIT, 1, 0);
    assert wei * s < (0x4000 * UNIT) * s;
    Pow38();
    if j <= 38 {
      PowMono(2, j, 38);
    } else {
      PowMono(2, 39, j);
    }
  }

  lemma WideGap(s: int, gap: int)
    requires s >= 0x80_0000_0000 && gap >= 1
    ensures 2 * (s * gap) > UNIT
  {
    assert s * gap >= s;
  }

  /** Below 16384 units it is never one too many. */
  lemma SmallAmountsFloor(wei: nat)
    requires wei < 0x4000 * UNIT
    ensures Floors(wei)
  {
    FloorsIff(wei);
    if wei > 0 {
      LargeScale(wei);
      WideGap(Scale(wei, UNIT, 1), UNIT - wei % UNIT);
    }
  }

  /** One wei less than 16385 units is converted to 16385 units. */
  lemma FirstRoundedUp()
    ensures ToUnits(0x4001 * UNIT - 1) == 0x4001
  {
    RoundedUp(0x4001);
  }

  /** So is one wei less than any number of units of that size. */
  lemma RoundedUp(k: nat)
    requires 0x4000 < k <= 0x8000
    ensures !Floors(k * UNIT - 1) && ToUnits(k * UNIT - 1) == k
  {
    var wei := k * UNIT - 1;
    Pow38();
    ScaleFrom(wei, UNIT, 0, 38);
    assert Scale(wei, UNIT, 1) == 0x40_0000_0000;
    assert wei / UNIT == k - 1 && wei % UNIT == UNIT - 1;
    FloorsIff(wei);
  }

  /** Whole units come out as they are if and only if they have at most 53 significant bits. */
  lemma WholeUnitsFloor(k: nat)
    ensures Floors(k * UNIT) <==> Exact(k)
  {
    IntOfWholeQuotient(k, UNIT);
    assert (k * UNIT) / UNIT == k;
  }

  // ----- Balance

  /** What the conversion cuts off, negative if it rounds up. */
  function CutOff(wei: nat): int
  {
    wei - UNIT * ToUnits(wei)
  }

  function CutOffs(s: seq<nat>): (r: seq<int>)
    ensures |r| == |s|
  {
    seq(|s|, i requires 0 <= i < |s| => CutOff(s[i]))
  }

  function Remainders(s: seq<nat>): (r: seq<nat>)
    ensures |r| == |s|
  {
    seq(|s|, i requires 0 <= i < |s| => s[i] % UNIT)
  }

  lemma {:induction false} SumSplit(s: seq<nat>)
    ensures Sum(s) == UNIT * Sum(Units(s)) + Sum(CutOffs(s))
  {
    if s != [] {
      var s0 := s[..|s| - 1];
      SumSplit(s0);
      assert Units(s)[..|s| - 1] == Units(s0) && CutOffs(s)[..|s| - 1] == CutOffs(s0);
    }
  }

  lemma {:induction false} SumPadded(s: seq<nat>, n: nat)
    requires |s| <= n
    ensures Sum(Padded(s, n)) == Sum(s)
  {
    if |s| < n {
      SumPadded(s, n - 1);
      assert Padded(s, n)[..n - 1] == Padded(s, n - 1);
    } else {
      assert Padded(s, n) == s;
    }
  }

  /** A mix that balances in wei balances in zeth units if and only if what the conversions cut
      off balances. */
  lemma BalancedIffCutOffs(m: Mix)
    requires |m.inputs| <= JS_INPUTS && |m.outputs| <= JS_OUTPUTS && BalancedInWei(m)
    ensures Balanced(Values(m)) <==> CutOff(m.vin) == CutOff(m.vout) + Sum(CutOffs(Padded(m.outputs, JS_OUTPUTS)))
  {
    SumPadded(m.inputs, JS_INPUTS);
    SumPadded(m.outputs, JS_OUTPUTS);
    SumSplit(Padded(m.outputs, JS_OUTPUTS));
  }

  /** If no amount is rounded up, these are the remainders of the amounts. */
  lemma BalancedIffRemainders(m: Mix)
    requires |m.inputs| <= JS_INPUTS && |m.outputs| <= JS_OUTPUTS && BalancedInWei(m)
    requires Floors(m.vin) && Floors(m.vout) && forall i :: 0 <= i < |m.outputs| ==> Floors(m.outputs[i])
    ensures Balanced(Values(m)) <==> m.vin % UNIT == m.vout % UNIT + Sum(Remainders(Padded(m.outputs, JS_OUTPUTS)))
  {
    var outputs := Padded(m.outputs, JS_OUTPUTS);
    forall i | 0 <= i < |outputs|
      ensures CutOffs(outputs)[i] == Remainders(outputs)[i]
    {
      assert Floors(outputs[i]);
    }
    assert CutOffs(outputs) == Remainders(outputs);
    BalancedIffCutOffs(m);
  }

  lemma {:induction false} NoRemainders(s: seq<nat>)
    requires forall i :: 0 <= i < |s| ==> s[i] % UNIT == 0
    ensures Sum(Remainders(s)) == 0
  {
    if s != [] {
      NoRemainders(s[..|s| - 1]);
      assert Remainders(s)[..|s| - 1] == Remainders(s[..|s| - 1]);
    }
  }

  /** A whole number of units, of at most 53 significant bits. */
  predicate ExactUnits(wei: nat)
  {
    wei % UNIT == 0 && Exact(wei / UNIT)
  }

  lemma ExactUnitsFloor(wei: nat)
    requires ExactUnits(wei)
    ensures Floors(wei)
  {
    WholeUnitsFloor(wei / UNIT);
  }

  /** In particular whole units balance, if each amount is exactly a double: no value is created or
      lost. */
  lemma WholeUnitsBalance(m: Mix)
    requires |m.inputs| <= JS_INPUTS && |m.outputs| <= JS_OUTPUTS && BalancedInWei(m)
    requires ExactUnits(m.vin) && ExactUnits(m.vout) && forall i :: 0 <= i < |m.outputs| ==> ExactUnits(m.outputs[i])
    ensures Balanced(Values(m))
  {
    ExactUnitsFloor(m.vin);
    ExactUnitsFloor(m.vout);
    forall i | 0 <= i < |m.outputs|
      ensures Floors(m.outputs[i])
    {
      ExactUnitsFloor(m.outputs[i]);
    }
    assert forall i :: 0 <= i < |m.outputs| ==> ExactUnits(m.outputs[i]) && m.outputs[i] % UNIT == 0;
    NoRemainders(Padded(m.outputs, JS_OUTPUTS));
    BalancedIffRemainders(m);
  }

  // ----- How the balance is lost

  lemma TwoOutputs(vin: nat, a: nat, b: nat)
    requires vin == a + b
    ensures
      var m := Mix(vin, 0, [], [a, b]);
      BalancedInWei(m) && (Balanced(Values(m)) <==> ToUnits(vin) == ToUnits(a) + ToUnits(b))
  {
    var v := Values(Mix(vin, 0, [], [a, b]));
    SumOfTwo(a, b);
    assert v.inputs == [0, 0] && v.outputs == [ToUnits(a), ToUnits(b)];
    SumOfTwo(0, 0);
    SumOfTwo(ToUnits(a), ToUnits(b));
  }

  /** Without whole units it can fail: one and a half units in, three quarters out twice. */
  lemma FractionsCanLoseValue()
    ensures
      var m := Mix(3 * UNIT / 2, 0, [], [3 * UNIT / 4, 3 * UNIT / 4]);
      BalancedInWei(m) && !Balanced(Values(m))
  {
    TwoOutputs(3 * UNIT / 2, 3 * UNIT / 4, 3 * UNIT / 4);
    SmallAmountsFloor(3 * UNIT / 2);
    SmallAmountsFloor(3 * UNIT / 4);
  }

  /** It can fail even if the remainders balance, because one of the amounts is rounded up. */
  lemma RoundingCanCreateValue()
    ensures
      var m := Mix(20000 * UNIT - 1, 0, [], [10000 * UNIT - 1, 10000 * UNIT]);
      && BalancedInWei(m) && !Balanced(Values(m))
      && m.vin % UNIT == m.outputs[0] % UNIT + m.outputs[1] % UNIT
  {
    TwoOutputs(20000 * UNIT - 1, 10000 * UNIT - 1, 10000 * UNIT);
    RoundedUp(20000);
    SmallAmountsFloor(10000 * UNIT - 1);
    SmallAmountsFloor(10000 * UNIT);
  }

  /** And it can fail for whole units from 2^53 on. */
  lemma LargeAmountsCanLoseValue()
    ensures
      var m := Mix((MANTISSA + 1) * UNIT, 0, [], [MANTISSA * UNIT, UNIT]);
      BalancedInWei(m) && !Balanced(Values(m)) && FitsInt64(m)
  {
    TwoOutputs((MANTISSA + 1) * UNIT, MANTISSA * UNIT, UNIT);
    WholeUnitsFloor(MANTISSA + 1);
    assert Exact(MANTISSA / 2) && Exact(MANTISSA);
    WholeUnitsFloor(MANTISSA);
    SmallAmountsFloor(UNIT);
  }
}
