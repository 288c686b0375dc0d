/** The discounted-cash-flow library: net present value, internal rate of
    return by Newton-Raphson, modified internal rate of return and the
    periodic annuity payment (js/financial.js).

    Numbers are reals; the library's `NaN` results are `None`. A cash-flow
    sequence holds one flow per period and index 0 is period zero, which is
    never discounted. */
module Financial {
  import opened Powers

  datatype Option<T> = None | Some(value: T)

  /** The Newton iteration budget of IRR. */
  const MaxIterations: nat := 100
  /** The convergence and zero-derivative threshold of IRR (1e-7). */
  const Precision: real := 0.0000001

  function Abs(x: real): real {
    if x < 0.0 then -x else x
  }

  /** Discounting `count` flows at `rate` never divides by zero: either the
      discount base 1 + rate is non-zero, or only period zero is present,
      whose factor (1 + rate)^0 is 1 whatever the rate. */
  predicate DiscountDefined(rate: real, count: nat) {
    1.0 + rate != 0.0 || count <= 1
  }

  // ---------------------------------------------------------------------
  // NPV
  // ---------------------------------------------------------------------

  /** The plain sum of the flows. */
  function Sum(values: seq<real>): real {
    if values == [] then 0.0 else Sum(values[..|values| - 1]) + values[|values| - 1]
  }

  /** The net present value: flow i discounted by (1 + rate)^i. */
  function NpvOf(rate: real, values: seq<real>): real
    requires DiscountDefined(rate, |values|)
  {
    if values == [] then 0.0
    else
      var k := |values| - 1;
      NpvOf(rate, values[..k]) + values[k] / Pow(1.0 + rate, k)
  }

  /** NPV (js/financial.js:11-17): accumulates the discounted flows in one pass. */
  method Npv(rate: real, values: seq<real>) returns (npv: real)
    requires DiscountDefined(rate, |values|)
    ensures npv == NpvOf(rate, values)
  {
    npv := 0.0;
    for i := 0 to |values|
      invariant npv == NpvOf(rate, values[..i])
    {
      assert values[..i + 1][..i] == values[..i];
      npv := npv + values[i] / Pow(1.0 + rate, i);
    }
    assert values[..|values|] == values;
  }

  /** At a zero rate no flow is discounted, so the NPV is the plain sum. */
  lemma {:induction false} NpvAtZeroRate(values: seq<real>)
    ensures NpvOf(0.0, values) == Sum(values)
  {
    if values != [] {
      var k := |values| - 1;
      NpvAtZeroRate(values[..k]);
      PowOfOne(k);
    }
  }

  // ---------------------------------------------------------------------
  // IRR
  // ---------------------------------------------------------------------

  /** The analytic derivative of NpvOf in the rate:
      the sum over j >= 1 of -j * values[j] / (1 + rate)^(j+1). */
  function DerivativeOf(rate: real, values: seq<real>): real
    requires DiscountDefined(rate, |values|)
  {
    if |values| <= 1 then 0.0
    else
      var k := |values| - 1;
      DerivativeOf(rate, values[..k]) - DerivativeTerm(rate, values[k], k)
  }

  /** The magnitude j * value / (1 + rate)^(j+1) of the derivative's term for period j. */
  function DerivativeTerm(rate: real, value: real, j: nat): real
    requires 1.0 + rate != 0.0
  {
    (j as real) * value / Pow(1.0 + rate, j + 1)
  }

  /** The Newton-Raphson iteration of IRR from `rate` with `fuel` steps left:
      stop with the rate once |NPV| < Precision, fail once the derivative
      is smaller than Precision in magnitude or the steps run out.
      A rate at which discounting divides by zero fails: in JavaScript
      every later value is then NaN and the loop ends in NaN. */
  function NewtonFrom(values: seq<real>, rate: real, fuel: nat): Option<real>
    decreases fuel
  {
    if fuel == 0 || !DiscountDefined(rate, |values|) then None
    else
      var npv := NpvOf(rate, values);
      if Abs(npv) < Precision then Some(rate)
      else
        var derivative := DerivativeOf(rate, values);
        if Abs(derivative) < Precision then None
        else NewtonFrom(values, rate - npv / derivative, fuel - 1)
  }

  /** IRR (js/financial.js:26-53). `evaluations` counts the NPV evaluations. */
  method Irr(values: seq<real>, guess: real) returns (r: Option<real>, ghost evaluations: nat)
    ensures r == NewtonFrom(values, guess, MaxIterations)
    ensures evaluations <= MaxIterations
    ensures r.Some? ==> DiscountDefined(r.value, |values|) && Abs(NpvOf(r.value, values)) < Precision
    ensures DiscountDefined(guess, |values|) && Abs(NpvOf(guess, values)) < Precision ==> r == Some(guess)
    ensures (DiscountDefined(guess, |values|) && Abs(NpvOf(guess, values)) >= Precision
             && Abs(DerivativeOf(guess, values)) < Precision) ==> r == None
  {
    NewtonSound(values, guess, MaxIterations);
    var rate := guess;
    evaluations := 0;
    var i := 0;
    while i < MaxIterations
      invariant 0 <= i <= MaxIterations
      invariant evaluations == i
      invariant NewtonFrom(values, rate, MaxIterations - i) == NewtonFrom(values, guess, MaxIterations)
    {
      if !DiscountDefined(rate, |values|) {
        r := None;
        return;
      }
      var npvValue := Npv(rate, values);
      evaluations := evaluations + 1;
      if Abs(npvValue) < Precision {
        r := Some(rate);
        return;
      }
      assert |values| >= 1;
      var derivative := Derivative(rate, values);
      if Abs(derivative) < Precision {
        r := None;
        return;
      }
      rate := rate - npvValue / derivative;
      i := i + 1;
    }
    r := None;
  }

  /** The derivative loop of IRR (js/financial.js:40-43). */
  method Derivative(rate: real, values: seq<real>) returns (derivative: real)
    requires DiscountDefined(rate, |values|) && |values| >= 1
    ensures derivative == DerivativeOf(rate, values)
  {
    derivative := 0.0;
    var j := 1;
    while j < |values|
      invariant 1 <= j <= |values|
      invariant derivative == DerivativeOf(rate, values[..j])
    {
      DerivativeStep(rate, values, j);
      derivative := derivative - DerivativeTerm(rate, values[j], j);
      j := j + 1;
    }
    assert values[..j] == values;
  }

  lemma {:induction false} DerivativeStep(rate: real, values: seq<real>, j: nat)
    requires 1 <= j < |values| && DiscountDefined(rate, |values|)
    ensures DerivativeOf(rate, values[..j + 1])
            == DerivativeOf(rate, values[..j]) - DerivativeTerm(rate, values[j], j)
  {
    var w := values[..j + 1];
    assert w[..j] == values[..j] && w[j] == values[j];
  }

  /** Whatever rate the iteration returns is a root of the NPV within Precision. */
  lemma {:induction false} NewtonSound(values: seq<real>, rate: real, fuel: nat)
    ensures NewtonFrom(values, rate, fuel).Some? ==>
              var root := NewtonFrom(values, rate, fuel).value;
              DiscountDefined(root, |values|) && Abs(NpvOf(root, values)) < Precision
    decreases fuel
  {
    if fuel > 0 && DiscountDefined(rate, |values|) {
      var npv := NpvOf(rate, values);
      var derivative := DerivativeOf(rate, values);
      if Abs(npv) >= Precision && Abs(derivative) >= Precision {
        NewtonSound(values, rate - npv / derivative, fuel - 1);
      }
    }
  }

  /** A larger iteration budget never changes a rate already found. */
  lemma {:induction false} NewtonMoreFuel(values: seq<real>, rate: real, fuel: nat, extra: nat)
    requires NewtonFrom(values, rate, fuel).Some?
    ensures NewtonFrom(values, rate, fuel + extra) == NewtonFrom(values, rate, fuel)
    decreases fuel
  {
    var npv := NpvOf(rate, values);
    if Abs(npv) >= Precision {
      var derivative := DerivativeOf(rate, values);
      NewtonMoreFuel(values, rate - npv / derivative, fuel - 1, extra);
    }
  }

  /** With no flow after period zero the derivative is zero, so IRR can only
      return the guess itself, and only when the single flow is already
      within Precision of zero. */
  lemma {:induction false} SingleFlowIrr(values: seq<real>, guess: real, fuel: nat)
    requires |values| == 1 && fuel > 0
    ensures NewtonFrom(values, guess, fuel) == if Abs(values[0]) < Precision then Some(guess) else None
  {
    assert values[..0] == [];
    assert NpvOf(guess, values) == values[0];
  }

  /** For conventional flows (nothing but positive flows after period zero)
      at a rate above -100%, the NPV strictly decreases in the rate: its
      derivative is negative. */
  lemma {:induction false} DerivativeNegative(rate: real, values: seq<real>)
    requires 1.0 + rate > 0.0 && |values| >= 2
    requires forall j :: 1 <= j < |values| ==> values[j] > 0.0
    ensures DerivativeOf(rate, values) < 0.0
  {
    var k := |values| - 1;
    var p := Pow(1.0 + rate, k + 1);
    assert (k as real) * values[k] > 0.0;
    assert DerivativeTerm(rate, values[k], k) == (k as real) * values[k] / p > 0.0;
    if k > 1 {
      DerivativeNegative(rate, values[..k]);
    }
  }

  // ---------------------------------------------------------------------
  // MIRR
  // ---------------------------------------------------------------------

  /** The future value at period `horizon` of the strictly positive flows,
      each compounded at the reinvestment rate for horizon - i periods. */
  function ReinvestedFv(values: seq<real>, reinvestRate: real, horizon: int): real
    requires |values| <= horizon + 1
  {
    if values == [] then 0.0
    else
      var k := |values| - 1;
      ReinvestedFv(values[..k], reinvestRate, horizon)
        + (if values[k] > 0.0 then values[k] * Pow(1.0 + reinvestRate, horizon - k) else 0.0)
  }

  /** The present value of the zero and negative flows, each discounted at
      the finance rate by (1 + financeRate)^i; it is zero or negative. */
  function FinancedPv(values: seq<real>, financeRate: real): real
    requires DiscountDefined(financeRate, |values|)
  {
    if values == [] then 0.0
    else
      var k := |values| - 1;
      FinancedPv(values[..k], financeRate)
        + (if values[k] > 0.0 then 0.0 else values[k] / Pow(1.0 + financeRate, k))
  }

  /** MIRR over n = |values| - 1 periods. `root(x, n)` stands for the
      fractional power Math.pow(x, 1/n), which the model does not compute. */
  function MirrOf(values: seq<real>, financeRate: real, reinvestRate: real,
                  root: (real, nat) -> real): Option<real>
    requires DiscountDefined(financeRate, |values|)
  {
    var n := |values| - 1;
    var pv := -FinancedPv(values, financeRate);
    var fv := ReinvestedFv(values, reinvestRate, n);
    if pv <= 0.0 || fv <= 0.0 || n <= 0 then None
    else Some(root(fv / pv, n) - 1.0)
  }

  /** MIRR (js/financial.js:62-82): one pass splitting the flows by sign. */
  method Mirr(values: seq<real>, financeRate: real, reinvestRate: real,
              root: (real, nat) -> real) returns (r: Option<real>)
    requires DiscountDefined(financeRate, |values|)
    ensures r == MirrOf(values, financeRate, reinvestRate, root)
    ensures r.None? <==> |values| <= 1 || FinancedPv(values, financeRate) >= 0.0
                         || ReinvestedFv(values, reinvestRate, |values| - 1) <= 0.0
  {
    var n := |values| - 1;
    var negativeFlowsPv := 0.0;
    var positiveFlowsFv := 0.0;
    for i := 0 to |values|
      invariant negativeFlowsPv == FinancedPv(values[..i], financeRate)
      invariant positiveFlowsFv == ReinvestedFv(values[..i], reinvestRate, n)
    {
      assert values[..i + 1][..i] == values[..i];
      var value := values[i];
      if value > 0.0 {
        positiveFlowsFv := positiveFlowsFv + value * Pow(1.0 + reinvestRate, n - i);
      } else {
        negativeFlowsPv := negativeFlowsPv + value / Pow(1.0 + financeRate, i);
      }
    }
    assert values[..|values|] == values;
    negativeFlowsPv := -negativeFlowsPv;
    if negativeFlowsPv <= 0.0 || positiveFlowsFv <= 0.0 || n == 0 {
      r := None;
    } else {
      r := Some(root(positiveFlowsFv / negativeFlowsPv, n) - 1.0);
    }
  }

  /** A strictly positive last flow is compounded for zero periods: it adds
      exactly its value to the future value. */
  lemma {:induction false} FinalPositiveFlowAddsItsValue(values: seq<real>, x: real, reinvestRate: real)
    requires x > 0.0
    ensures ReinvestedFv(values + [x], reinvestRate, |values|)
            == ReinvestedFv(values, reinvestRate, |values|) + x
  {
    assert (values + [x])[..|values|] == values;
  }

  /** A zero flow is classified with the financed flows and adds nothing. */
  lemma {:induction false} ZeroFlowAddsNothing(values: seq<real>, financeRate: real, reinvestRate: real, horizon: int)
    requires DiscountDefined(financeRate, |values| + 1) && |values| + 1 <= horizon + 1
    ensures FinancedPv(values + [0.0], financeRate) == FinancedPv(values, financeRate)
    ensures ReinvestedFv(values + [0.0], reinvestRate, horizon) == ReinvestedFv(values, reinvestRate, horizon)
  {
    assert (values + [0.0])[..|values|] == values;
  }

  /** Some flow is strictly positive. */
  predicate HasPositive(values: seq<real>) {
    exists i :: 0 <= i < |values| && values[i] > 0.0
  }

  /** Some flow is strictly negative. */
  predicate HasNegative(values: seq<real>) {
    exists i :: 0 <= i < |values| && values[i] < 0.0
  }

  /** The sign tests split over the last flow. */
  lemma {:induction false} SignsOfLast(values: seq<real>)
    requires values != []
    ensures HasPositive(values) <==> HasPositive(values[..|values| - 1]) || values[|values| - 1] > 0.0
    ensures HasNegative(values) <==> HasNegative(values[..|values| - 1]) || values[|values| - 1] < 0.0
  {
    var k := |values| - 1;
    if HasPositive(values) {
      var i :| 0 <= i < |values| && values[i] > 0.0;
      if i < k {
        assert values[..k][i] > 0.0;
      }
    }
    if HasNegative(values) {
      var i :| 0 <= i < |values| && values[i] < 0.0;
      if i < k {
        assert values[..k][i] < 0.0;
      }
    }
    if HasPositive(values[..k]) {
      var i :| 0 <= i < k && values[..k][i] > 0.0;
      assert values[i] > 0.0;
    }
    if HasNegative(values[..k]) {
      var i :| 0 <= i < k && values[..k][i] < 0.0;
      assert values[i] < 0.0;
    }
  }

  /** With a reinvestment rate above -100% the future value is positive
      exactly when some flow is positive. */
  lemma {:induction false} ReinvestedFvPositive(values: seq<real>, reinvestRate: real, horizon: int)
    requires |values| <= horizon + 1 && 1.0 + reinvestRate > 0.0
    ensures ReinvestedFv(values, reinvestRate, horizon) >= 0.0
    ensures ReinvestedFv(values, reinvestRate, horizon) > 0.0 <==> HasPositive(values)
  {
    if values != [] {
      var k := |values| - 1;
      ReinvestedFvPositive(values[..k], reinvestRate, horizon);
      SignsOfLast(values);
      if values[k] > 0.0 {
        assert values[k] * Pow(1.0 + reinvestRate, horizon - k) > 0.0;
      }
    }
  }

  /** With a finance rate above -100% the negated present value is positive
      exactly when some flow is negative. */
  lemma {:induction false} FinancedPvNegative(values: seq<real>, financeRate: real)
    requires 1.0 + financeRate > 0.0
    ensures FinancedPv(values, financeRate) <= 0.0
    ensures FinancedPv(values, financeRate) < 0.0 <==> HasNegative(values)
  {
    if values != [] {
      var k := |values| - 1;
      FinancedPvNegative(values[..k], financeRate);
      SignsOfLast(values);
      if values[k] < 0.0 {
        assert values[k] / Pow(1.0 + financeRate, k) < 0.0;
      } else if values[k] == 0.0 {
        assert values[k] / Pow(1.0 + financeRate, k) == 0.0;
      }
    }
  }

  /** At rates above -100%, MIRR has a result exactly when there are at least
      two periods and the flows change sign: some flow is positive and some
      flow is negative. */
  lemma {:induction false} MirrDefinedIffSignChange(values: seq<real>, financeRate: real, reinvestRate: real,
                                 root: (real, nat) -> real)
    requires 1.0 + financeRate > 0.0 && 1.0 + reinvestRate > 0.0
    ensures MirrOf(values, financeRate, reinvestRate, root).Some? <==>
              |values| >= 2 && HasPositive(values) && HasNegative(values)
  {
    if |values| >= 1 {
      ReinvestedFvPositive(values, reinvestRate, |values| - 1);
    }
    FinancedPvNegative(values, financeRate);
  }

  /** The reinvested future value grows with the reinvestment rate. */
  lemma {:induction false} ReinvestedFvMonotone(values: seq<real>, low: real, high: real, horizon: int)
    requires |values| <= horizon + 1 && 0.0 <= 1.0 + low && low <= high
    ensures ReinvestedFv(values, low, horizon) <= ReinvestedFv(values, high, horizon)
  {
    if values != [] {
      var k := |values| - 1;
      ReinvestedFvMonotone(values[..k], low, high, horizon);
      assert ReinvestedFv(values, low, horizon) == ReinvestedFv(values[..k], low, horizon)
        + (if values[k] > 0.0 then values[k] * Pow(1.0 + low, horizon - k) else 0.0);
      assert ReinvestedFv(values, high, horizon) == ReinvestedFv(values[..k], high, horizon)
        + (if values[k] > 0.0 then values[k] * Pow(1.0 + high, horizon - k) else 0.0);
      if values[k] > 0.0 {
        PowMonotone(1.0 + low, 1.0 + high, horizon - k);
        MulMonotone(values[k], Pow(1.0 + low, horizon - k), Pow(1.0 + high, horizon - k));
      }
    }
  }

  /** Raising the reinvestment rate never lowers MIRR, as long as the fractional
      root is monotone on positive arguments. */
  lemma {:induction false} MirrMonotoneInReinvestRate(values: seq<real>, financeRate: real, low: real, high: real,
                                   root: (real, nat) -> real)
    requires DiscountDefined(financeRate, |values|)
    requires 0.0 <= 1.0 + low && low <= high
    requires forall x: real, y: real, n: nat :: 0.0 < x <= y && n > 0 ==> root(x, n) <= root(y, n)
    requires MirrOf(values, financeRate, low, root).Some?
    ensures MirrOf(values, financeRate, high, root).Some?
    ensures MirrOf(values, financeRate, low, root).value <= MirrOf(values, financeRate, high, root).value
  {
    var n := |values| - 1;
    var pv := -FinancedPv(values, financeRate);
    ReinvestedFvMonotone(values, low, high, n);
    var fl, fh := ReinvestedFv(values, low, n), ReinvestedFv(values, high, n);
    assert fl / pv <= fh / pv by {
      assert fh / pv - fl / pv == (fh - fl) / pv;
    }
  }

  /** At equal finance and reinvestment rates (as the calculators call MIRR)
      the sign split is a split of the NPV: the financed present value plus
      the reinvested future value discounted back over the horizon. */
  lemma {:induction false} NpvSplitsBySign(values: seq<real>, rate: real, horizon: int)
    requires 1.0 + rate != 0.0 && |values| <= horizon + 1 && horizon >= 0
    ensures NpvOf(rate, values)
            == FinancedPv(values, rate) + ReinvestedFv(values, rate, horizon) / Pow(1.0 + rate, horizon)
  {
    if values != [] {
      var k := |values| - 1;
      NpvSplitsBySign(values[..k], rate, horizon);
      if values[k] > 0.0 {
        PositiveLastFlow(values, rate, horizon);
        ReinvestedSplitStep(1.0 + rate, horizon, k, NpvOf(rate, values), FinancedPv(values, rate),
                            ReinvestedFv(values, rate, horizon), NpvOf(rate, values[..k]),
                            FinancedPv(values[..k], rate), ReinvestedFv(values[..k], rate, horizon), values[k]);
      } else {
        SplitFinancedFlow(values, rate, horizon);
      }
    }
  }

  /** A positive last flow adds its discounted value to the NPV, nothing to
      the financed present value and its compounded value to the reinvested
      future value. */
  lemma {:induction false} PositiveLastFlow(values: seq<real>, rate: real, horizon: int)
    requires 1.0 + rate != 0.0 && values != [] && |values| <= horizon + 1 && values[|values| - 1] > 0.0
    ensures NpvOf(rate, values)
            == NpvOf(rate, values[..|values| - 1]) + values[|values| - 1] / Pow(1.0 + rate, |values| - 1)
    ensures FinancedPv(values, rate) == FinancedPv(values[..|values| - 1], rate)
    ensures ReinvestedFv(values, rate, horizon)
            == ReinvestedFv(values[..|values| - 1], rate, horizon)
               + values[|values| - 1] * Pow(1.0 + rate, horizon - (|values| - 1))
  {
  }

  /** The split survives a zero or negative last flow, discounted to period 0. */
  lemma {:induction false} SplitFinancedFlow(values: seq<real>, rate: real, horizon: int)
    requires 1.0 + rate != 0.0 && values != [] && |values| <= horizon + 1 && horizon >= 0
    requires values[|values| - 1] <= 0.0
    requires NpvOf(rate, values[..|values| - 1])
             == FinancedPv(values[..|values| - 1], rate)
                + ReinvestedFv(values[..|values| - 1], rate, horizon) / Pow(1.0 + rate, horizon)
    ensures NpvOf(rate, values)
            == FinancedPv(values, rate) + ReinvestedFv(values, rate, horizon) / Pow(1.0 + rate, horizon)
  {
    var k := |values| - 1;
    FinancedStep(NpvOf(rate, values), FinancedPv(values, rate), ReinvestedFv(values, rate, horizon),
                 NpvOf(rate, values[..k]), FinancedPv(values[..k], rate),
                 ReinvestedFv(values[..k], rate, horizon), values[k] / Pow(1.0 + rate, k),
                 Pow(1.0 + rate, horizon));
  }

  /** One positive flow v at period k keeps the split over the horizon. */
  lemma {:induction false} ReinvestedSplitStep(x: real, horizon: nat, k: nat, npv: real, financed: real, reinvested: real,
                            npv0: real, financed0: real, reinvested0: real, v: real)
    requires x != 0.0 && k <= horizon && npv0 == financed0 + reinvested0 / Pow(x, horizon)
    requires npv == npv0 + v / Pow(x, k) && financed == financed0
    requires reinvested == reinvested0 + v * Pow(x, horizon - k)
    ensures npv == financed + reinvested / Pow(x, horizon)
  {
    PowSplit(x, horizon, k);
    ReinvestedStep(npv, financed, reinvested, npv0, financed0, reinvested0, v,
                   Pow(x, horizon), Pow(x, horizon - k), Pow(x, k));
  }

  /** One positive flow v, worth v / g at period 0 and v * e at the horizon
      d == e * g, keeps the split. */
  lemma ReinvestedStep(npv: real, financed: real, reinvested: real,
                       npv0: real, financed0: real, reinvested0: real, v: real, d: real, e: real, g: real)
    requires e != 0.0 && g != 0.0 && d == e * g && npv0 == financed0 + reinvested0 / d
    requires npv == npv0 + v / g && financed == financed0 && reinvested == reinvested0 + v * e
    ensures npv == financed + reinvested / d
  {
    assert v * e / d == v / g;
  }

  /** One financed flow, worth t at period 0, keeps the split. */
  lemma FinancedStep(npv: real, financed: real, reinvested: real,
                     npv0: real, financed0: real, reinvested0: real, t: real, d: real)
    requires d != 0.0 && npv0 == financed0 + reinvested0 / d
    requires npv == npv0 + t && financed == financed0 + t && reinvested == reinvested0
    ensures npv == financed + reinvested / d
  {
  }

  /** With an exact principal n-th root, 1 + MIRR is the constant growth
      factor that turns the financed present value into the reinvested
      future value over the n periods. */
  lemma {:induction false} MirrGrowsPvToFv(values: seq<real>, financeRate: real, reinvestRate: real,
                        root: (real, nat) -> real)
    requires DiscountDefined(financeRate, |values|)
    requires forall x: real, n: nat :: x > 0.0 && n > 0 ==> root(x, n) > 0.0 && Pow(root(x, n), n) == x
    requires MirrOf(values, financeRate, reinvestRate, root).Some?
    ensures var m := MirrOf(values, financeRate, reinvestRate, root).value;
            1.0 + m > 0.0 &&
            Pow(1.0 + m, |values| - 1) * -FinancedPv(values, financeRate)
            == ReinvestedFv(values, reinvestRate, |values| - 1)
  {
    var n := |values| - 1;
    var pv := -FinancedPv(values, financeRate);
    var fv := ReinvestedFv(values, reinvestRate, n);
    assert fv / pv > 0.0;
    assert Pow(root(fv / pv, n), n) == fv / pv;
  }

  /** At equal finance and reinvestment rates above -100%, MIRR exceeds the
      rate exactly when the NPV at that rate is positive. */
  lemma {:induction false} MirrExceedsRateIffNpvPositive(values: seq<real>, rate: real, root: (real, nat) -> real)
    requires 1.0 + rate > 0.0
    requires forall x: real, n: nat :: x > 0.0 && n > 0 ==> root(x, n) > 0.0 && Pow(root(x, n), n) == x
    requires MirrOf(values, rate, rate, root).Some?
    ensures MirrOf(values, rate, rate, root).value > rate <==> NpvOf(rate, values) > 0.0
  {
    var n := |values| - 1;
    var m := MirrOf(values, rate, rate, root).value;
    MirrGrowsPvToFv(values, rate, rate, root);
    NpvSplitsBySign(values, rate, n);
    PowOrdersLikeBase(1.0 + rate, 1.0 + m, n);
    GrowthBeatsDiscount(NpvOf(rate, values), -FinancedPv(values, rate), ReinvestedFv(values, rate, n),
                        Pow(1.0 + rate, n), Pow(1.0 + m, n), 1.0 + m, 1.0 + rate);
  }

  /** If pv grows to fv by the factor pg, and the discount d is below pg
      exactly when the growth rate beats the discount rate, then fv
      discounted by d exceeds pv exactly when the growth rate wins. */
  lemma GrowthBeatsDiscount(npv: real, pv: real, fv: real, d: real, pg: real, growth: real, x: real)
    requires pv > 0.0 && d > 0.0 && npv == -pv + fv / d && pg * pv == fv
    requires x < growth <==> d < pg
    ensures growth > x <==> npv > 0.0
  {
    assert npv * d == fv - pv * d;
    assert fv - pv * d == (pg - d) * pv;
    if npv > 0.0 {
      MulStrictlyMonotone(d, 0.0, npv);
    } else {
      MulMonotone(d, npv, 0.0);
    }
    if pg > d {
      MulStrictlyMonotone(pv, 0.0, pg - d);
    } else {
      MulMonotone(pv, pg - d, 0.0);
    }
  }

  // ---------------------------------------------------------------------
  // PMT
  // ---------------------------------------------------------------------

  /** The balance after `periods` payments of `payment` against an opening
      balance `pv` growing at `rate` per period: ordinary payments arrive at
      the end of each period, annuity-due payments (`due`) at its start. */
  function Balance(pv: real, rate: real, payment: real, due: bool, periods: nat): real {
    if periods == 0 then pv
    else
      var b := Balance(pv, rate, payment, due, periods - 1);
      if due then (b + payment) * (1.0 + rate) else b * (1.0 + rate) + payment
  }

  /** The end-of-period payment for a non-zero rate, where pvif is (1 + rate)^nper. */
  function OrdinaryPayment(rate: real, pvif: real, pv: real, fv: real): real
    requires pvif != 1.0
  {
    rate / (pvif - 1.0) * -(pv * pvif + fv)
  }

  /** PMT (js/financial.js:94-107), Excel's periodic payment; `paymentType` 1
      is the annuity-due case, any other value the ordinary one. */
  function Pmt(rate: real, nper: nat, pv: real, fv: real, paymentType: int): (pmt: real)
    requires nper > 0
    requires rate == 0.0 || Pow(1.0 + rate, nper) != 1.0
    requires paymentType == 1 ==> 1.0 + rate != 0.0
    ensures rate == 0.0 ==> pmt * (nper as real) == -(pv + fv)
    ensures rate != 0.0 && paymentType != 1 ==> SolvesAnnuity(rate, nper, pv, fv, pmt)
  {
    if rate == 0.0 then -(pv + fv) / (nper as real)
    else
      var pvif := Pow(1.0 + rate, nper);
      AnnuityEquation(rate, nper, pv, fv);
      var pmt := OrdinaryPayment(rate, pvif, pv, fv);
      if paymentType == 1 then pmt / (1.0 + rate) else pmt
  }

  /** The annuity equation of a level payment pmt over nper periods:
      pv * (1+rate)^nper + pmt * ((1+rate)^nper - 1) / rate + fv == 0. */
  predicate SolvesAnnuity(rate: real, nper: nat, pv: real, fv: real, pmt: real)
    requires rate != 0.0
  {
    pv * Pow(1.0 + rate, nper) + pmt * (Pow(1.0 + rate, nper) - 1.0) / rate + fv == 0.0
  }

  /** The ordinary payment formula solves the annuity equation for the payment. */
  lemma {:induction false} AnnuityEquation(rate: real, nper: nat, pv: real, fv: real)
    requires rate != 0.0 && Pow(1.0 + rate, nper) != 1.0
    ensures var pvif := Pow(1.0 + rate, nper);
            var pmt := OrdinaryPayment(rate, pvif, pv, fv);
            SolvesAnnuity(rate, nper, pv, fv, pmt) && pmt * (pvif - 1.0) == rate * -(pv * pvif + fv)
  {
    var pvif := Pow(1.0 + rate, nper);
    PaymentAlgebra(rate, nper, pvif, pv, fv, OrdinaryPayment(rate, pvif, pv, fv));
  }

  /** The ordinary payment formula, solved back for the balance terms. */
  lemma {:induction false} PaymentAlgebra(rate: real, nper: nat, pvif: real, pv: real, fv: real, pmt: real)
    requires rate != 0.0 && pvif != 1.0 && pvif == Pow(1.0 + rate, nper)
    requires pmt == rate / (pvif - 1.0) * -(pv * pvif + fv)
    ensures pmt * (pvif - 1.0) == rate * -(pv * pvif + fv)
    ensures SolvesAnnuity(rate, nper, pv, fv, pmt)
  {
    ScaleCancel(rate, pvif - 1.0, -(pv * pvif + fv));
    DivideBack(pmt * (pvif - 1.0), rate, -(pv * pvif + fv));
  }

  lemma DivideBack(x: real, r: real, c: real)
    requires r != 0.0 && x == r * c
    ensures x / r == c
  {
  }

  /** The annuity-due payment is the ordinary payment discounted one period. */
  lemma {:induction false} PmtAnnuityDue(rate: real, nper: nat, pv: real, fv: real)
    requires nper > 0 && rate != 0.0 && 1.0 + rate != 0.0 && Pow(1.0 + rate, nper) != 1.0
    ensures Pmt(rate, nper, pv, fv, 1) * (1.0 + rate) == Pmt(rate, nper, pv, fv, 0)
  {
  }

  lemma {:induction false} BalanceAtZeroRate(pv: real, payment: real, due: bool, periods: nat)
    ensures Balance(pv, 0.0, payment, due, periods) == pv + (periods as real) * payment
  {
    if periods > 0 {
      BalanceAtZeroRate(pv, payment, due, periods - 1);
    }
  }

  /** Closed form of the ordinary balance, scaled by the rate to avoid dividing:
      rate * B == rate * pv * (1+rate)^k + payment * ((1+rate)^k - 1). */
  lemma {:induction false} OrdinaryBalanceClosedForm(pv: real, rate: real, payment: real, periods: nat)
    ensures rate * Balance(pv, rate, payment, false, periods)
            == rate * pv * Pow(1.0 + rate, periods) + payment * (Pow(1.0 + rate, periods) - 1.0)
  {
    if periods > 0 {
      OrdinaryBalanceClosedForm(pv, rate, payment, periods - 1);
      var b := Balance(pv, rate, payment, false, periods - 1);
      var p := Pow(1.0 + rate, periods - 1);
      assert rate * (b * (1.0 + rate) + payment) == (1.0 + rate) * (rate * b) + rate * payment;
      assert (1.0 + rate) * (rate * pv * p + payment * (p - 1.0)) + rate * payment
             == rate * pv * ((1.0 + rate) * p) + payment * ((1.0 + rate) * p - 1.0);
    }
  }

  /** Paying q at the start of each period equals paying q * (1 + rate) at its end. */
  lemma {:induction false} DueBalanceIsOrdinary(pv: real, rate: real, payment: real, periods: nat)
    ensures Balance(pv, rate, payment, true, periods)
            == Balance(pv, rate, payment * (1.0 + rate), false, periods)
  {
    if periods > 0 {
      DueBalanceIsOrdinary(pv, rate, payment, periods - 1);
    }
  }

  lemma {:induction false} OrdinaryPaymentAmortizes(rate: real, nper: nat, pv: real, fv: real)
    requires rate != 0.0 && Pow(1.0 + rate, nper) != 1.0
    ensures Balance(pv, rate, OrdinaryPayment(rate, Pow(1.0 + rate, nper), pv, fv), false, nper) == -fv
  {
    var p := Pow(1.0 + rate, nper);
    var q := OrdinaryPayment(rate, p, pv, fv);
    OrdinaryBalanceClosedForm(pv, rate, q, nper);
    AnnuityEquation(rate, nper, pv, fv);
    AmortizedBalance(rate, pv, p, fv, Balance(pv, rate, q, false, nper), q);
  }

  lemma AmortizedBalance(rate: real, pv: real, pvif: real, fv: real, balance: real, pmt: real)
    requires rate != 0.0
    requires rate * balance == rate * pv * pvif + pmt * (pvif - 1.0)
    requires pmt * (pvif - 1.0) == rate * -(pv * pvif + fv)
    ensures balance == -fv
  {
    assert rate * balance == rate * -fv;
  }

  /** The payment amortizes: `nper` payments of PMT against the balance pv,
      growing at `rate`, leave exactly -fv, for either payment timing. */
  lemma {:induction false} PmtAmortizes(rate: real, nper: nat, pv: real, fv: real, paymentType: int)
    requires nper > 0
    requires rate == 0.0 || Pow(1.0 + rate, nper) != 1.0
    requires paymentType == 1 ==> 1.0 + rate != 0.0
    ensures Balance(pv, rate, Pmt(rate, nper, pv, fv, paymentType), paymentType == 1, nper) == -fv
  {
    var pmt := Pmt(rate, nper, pv, fv, paymentType);
    if rate == 0.0 {
      BalanceAtZeroRate(pv, pmt, paymentType == 1, nper);
      assert pmt * (nper as real) == -(pv + fv);
    } else {
      OrdinaryPaymentAmortizes(rate, nper, pv, fv);
      if paymentType == 1 {
        DueBalanceIsOrdinary(pv, rate, pmt, nper);
        assert pmt * (1.0 + rate) == OrdinaryPayment(rate, Pow(1.0 + rate, nper), pv, fv);
      }
    }
  }

  /** Above -100% and away from zero, the rate always meets PMT's requirement
      that (1 + rate)^nper differ from one. */
  lemma {:induction false} PmtDefinedForOrdinaryRates(rate: real, nper: nat)
    requires rate > -1.0 && rate != 0.0 && nper > 0
    ensures Pow(1.0 + rate, nper) != 1.0
  {
    PowIsNotOne(1.0 + rate, nper);
  }
}
