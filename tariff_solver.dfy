/** The tariff solver of the page-343 calculator (js/app.js:270-355): the
    IRR of a project as a function of the yearly tariff, a bisection on the
    tariff towards a target IRR, and the free-cash-flow table rebuilt for
    the tariff found. Form reads and table rendering are left to the page;
    here the inputs are parameters and the table is a value. */
module TariffSolver {
  import opened Powers
  import opened Financial
  import opened Flows

  /** The solver's inputs (js/app.js:271-275); `investment` is the period-0
      flow, negative for an outlay. */
  datatype SolverInputs = SolverInputs(investment: real, annualCost: real, years: nat,
                                       taxRate: real, targetTir: real)

  /** The IRR guess the solver leaves at the library's default. */
  const TirGuess: real := 0.1
  /** The bisection's iteration budget. */
  const SolverIterations: nat := 100
  /** How close to the target an IRR must come to stop the bisection (1e-6). */
  const TirTolerance: real := 0.000001

  /** Straight-line yearly depreciation of the investment (js/app.js:277). */
  function Depreciation(p: SolverInputs): (d: real)
    requires p.years > 0
    ensures d * (p.years as real) == -p.investment
  {
    -p.investment / (p.years as real)
  }

  /** Earnings before tax at a tariff: revenue less cost less depreciation. */
  function Ebit(p: SolverInputs, tariff: real): real
    requires p.years > 0
  {
    tariff - p.annualCost - Depreciation(p)
  }

  /** One year's free cash flow at a tariff (js/app.js:283-285): tax is
      charged only on a positive EBIT, and depreciation is added back. */
  function FreeCashFlow(p: SolverInputs, tariff: real): real
    requires p.years > 0
  {
    var ebit := Ebit(p, tariff);
    ebit - Taxes(ebit, p.taxRate) + Depreciation(p)
  }

  /** Without a taxable profit the free cash flow is the tariff less the
      operating cost (depreciation cancels out); with one it is the EBIT
      after tax plus the depreciation added back. */
  lemma {:induction false} FreeCashFlowBranches(p: SolverInputs, tariff: real)
    requires p.years > 0
    ensures Ebit(p, tariff) <= 0.0 ==> FreeCashFlow(p, tariff) == tariff - p.annualCost
    ensures Ebit(p, tariff) > 0.0 ==>
              FreeCashFlow(p, tariff) == Ebit(p, tariff) * (1.0 - p.taxRate) + Depreciation(p)
  {
  }

  /** Tax on a year's EBIT: charged only when it is positive. */
  function Taxes(ebit: real, taxRate: real): real {
    if ebit > 0.0 then ebit * taxRate else 0.0
  }

  /** The investment followed by `count` years of the same free cash flow. */
  function TariffFlows(p: SolverInputs, tariff: real, count: nat): (flows: seq<real>)
    requires count <= p.years
    ensures |flows| == count + 1
  {
    if count == 0 then [p.investment]
    else TariffFlows(p, tariff, count - 1) + [FreeCashFlow(p, tariff)]
  }

  /** getTIRForTariff's list holds the investment and then `count` copies
      of the year's free cash flow. */
  lemma {:induction false} TariffFlowsShape(p: SolverInputs, tariff: real, count: nat)
    requires 0 < p.years && count <= p.years
    ensures TariffFlows(p, tariff, count) == [p.investment] + Level(count, FreeCashFlow(p, tariff))
  {
    if count > 0 {
      TariffFlowsShape(p, tariff, count - 1);
    }
  }

  /** The IRR of the project at a tariff, or None where IRR gives NaN; an
      IRR found is a root of that tariff's NPV within Precision. */
  function TirOf(p: SolverInputs, tariff: real): (tir: Option<real>)
    ensures tir.Some? ==> DiscountDefined(tir.value, p.years + 1)
                          && Abs(NpvOf(tir.value, TariffFlows(p, tariff, p.years))) < Precision
  {
    NewtonSound(TariffFlows(p, tariff, p.years), TirGuess, MaxIterations);
    NewtonFrom(TariffFlows(p, tariff, p.years), TirGuess, MaxIterations)
  }

  /** The flow list of getTIRForTariff (js/app.js:281-287). */
  method BuildTariffFlows(p: SolverInputs, tariff: real) returns (flows: seq<real>)
    ensures flows == TariffFlows(p, tariff, p.years)
  {
    flows := [p.investment];
    var i := 0;
    while i < p.years
      invariant 0 <= i <= p.years
      invariant flows == TariffFlows(p, tariff, i)
    {
      var ebit := tariff - p.annualCost - Depreciation(p);
      var taxes := if ebit > 0.0 then ebit * p.taxRate else 0.0;
      assert taxes == Taxes(ebit, p.taxRate);
      var fcf := ebit - taxes + Depreciation(p);
      flows := flows + [fcf];
      i := i + 1;
    }
  }

  /** getTIRForTariff (js/app.js:280-289): the IRR of the flows a tariff
      gives, which is `objective(tariff)` for an objective that agrees with TirOf.
      The ghost `objective` has no counterpart in JavaScript: it names TirOf(p, ·)
      as a value so that the bisection's proof does not unfold the IRR. */
  method TirForTariff(p: SolverInputs, tariff: real, ghost objective: real -> Option<real>)
    returns (tir: Option<real>)
    requires forall t {:trigger TirOf(p, t)} :: objective(t) == TirOf(p, t)
    ensures tir == TirOf(p, tariff) && tir == objective(tariff)
  {
    var flows := BuildTariffFlows(p, tariff);
    ghost var evaluations;
    tir, evaluations := Irr(flows, TirGuess);
  }

  // ---------------------------------------------------------------------
  // Bisection
  // ---------------------------------------------------------------------

  datatype Bracket = Bracket(low: real, high: real)

  function Midpoint(b: Bracket): real {
    (b.low + b.high) / 2.0
  }

  /** The stopping test: an IRR within TirTolerance of the target. A NaN IRR
      never passes it. */
  predicate Hits(p: SolverInputs, tir: Option<real>) {
    tir.Some? && Abs(tir.value - p.targetTir) < TirTolerance
  }

  /** One bisection step: an IRR above the target lowers the upper end to
      the midpoint; anything else, NaN included (its comparison is false),
      raises the lower end to it. */
  function Narrow(p: SolverInputs, b: Bracket, tir: Option<real>): (r: Bracket)
    ensures r.high - r.low == (b.high - b.low) / 2.0
    ensures tir.Some? && tir.value > p.targetTir ==> r.low == b.low && r.high == Midpoint(b)
    ensures !(tir.Some? && tir.value > p.targetTir) ==> r.low == Midpoint(b) && r.high == b.high
    ensures tir.None? ==> r == Bracket(Midpoint(b), b.high)
    ensures r.low == b.low || r.high == b.high
  {
    var mid := Midpoint(b);
    if tir.Some? && tir.value > p.targetTir then Bracket(b.low, mid) else Bracket(mid, b.high)
  }

  /** The IRR as a function of the tariff: the objective the bisection searches. */
  function Objective(p: SolverInputs): real -> Option<real> {
    tariff => TirOf(p, tariff)
  }

  /** The bracket after k steps that did not stop, starting from
      [0, -investment] (js/app.js:292-294), for an objective `tir`. */
  function BracketAfter(p: SolverInputs, tir: real -> Option<real>, k: nat): Bracket {
    if k == 0 then Bracket(0.0, -p.investment)
    else
      var b := BracketAfter(p, tir, k - 1);
      Narrow(p, b, tir(Midpoint(b)))
  }

  /** Step k's midpoint passes the stopping test. */
  predicate HitsAt(p: SolverInputs, tir: real -> Option<real>, k: nat) {
    Hits(p, tir(Midpoint(BracketAfter(p, tir, k))))
  }

  /** The bisection from step k with `remaining` steps left: the first
      midpoint that passes the stopping test, or None. */
  function BisectFrom(p: SolverInputs, tir: real -> Option<real>, k: nat, remaining: nat): Option<real>
    decreases remaining
  {
    if remaining == 0 then None
    else if HitsAt(p, tir, k) then Some(Midpoint(BracketAfter(p, tir, k)))
    else BisectFrom(p, tir, k + 1, remaining - 1)
  }

  /** The bisection loop (js/app.js:292-309), run for `iterations` steps;
      the page runs SolverIterations of them. `objective` is the IRR as a
      function of the tariff, which the loop evaluates by TirForTariff; like
      TirForTariff's, it is a ghost parameter of the proof only. */
  method SolveTariff(p: SolverInputs, iterations: nat, ghost objective: real -> Option<real>)
    returns (optimal: Option<real>)
    requires forall t {:trigger TirOf(p, t)} :: objective(t) == TirOf(p, t)
    ensures optimal == BisectFrom(p, objective, 0, iterations)
  {
    var low, high := 0.0, -p.investment;
    optimal := None;
    var i := 0;
    while i < iterations
      invariant 0 <= i <= iterations
      invariant Bracket(low, high) == BracketAfter(p, objective, i)
      invariant BisectFrom(p, objective, i, iterations - i)
                == BisectFrom(p, objective, 0, iterations)
    {
      var mid := (low + high) / 2.0;
      var tir := TirForTariff(p, mid, objective);
      if Hits(p, tir) {
        optimal := Some(mid);
        return;
      }
      BisectStep(p, objective, i, iterations - i);
      if tir.Some? && tir.value > p.targetTir {
        high := mid;
      } else {
        low := mid;
      }
      i := i + 1;
    }
  }

  /** A step that does not stop hands over to the next one, on the narrowed bracket. */
  lemma {:induction false} BisectStep(p: SolverInputs, tir: real -> Option<real>, k: nat, remaining: nat)
    requires remaining > 0 && !HitsAt(p, tir, k)
    ensures BisectFrom(p, tir, k, remaining) == BisectFrom(p, tir, k + 1, remaining - 1)
    ensures BracketAfter(p, tir, k + 1)
            == Narrow(p, BracketAfter(p, tir, k), tir(Midpoint(BracketAfter(p, tir, k))))
  {
  }

  /** The bisection returns None exactly when no step passes the stopping test. */
  lemma {:induction false} BisectFailsIffNoHit(p: SolverInputs, tir: real -> Option<real>, k: nat, remaining: nat)
    ensures BisectFrom(p, tir, k, remaining).None? <==>
              forall j :: k <= j < k + remaining ==> !HitsAt(p, tir, j)
    decreases remaining
  {
    if remaining > 0 && !HitsAt(p, tir, k) {
      BisectFailsIffNoHit(p, tir, k + 1, remaining - 1);
    }
  }

  /** A midpoint the bisection returns is that of the first step that passes
      the stopping test. */
  lemma {:induction false} BisectFindsFirstHit(p: SolverInputs, tir: real -> Option<real>, k: nat, remaining: nat)
    requires BisectFrom(p, tir, k, remaining).Some?
    ensures exists j :: k <= j < k + remaining && HitsAt(p, tir, j)
                        && BisectFrom(p, tir, k, remaining).value == Midpoint(BracketAfter(p, tir, j))
                        && forall i :: k <= i < j ==> !HitsAt(p, tir, i)
    decreases remaining
  {
    if HitsAt(p, tir, k) {
      assert BisectFrom(p, tir, k, remaining).value == Midpoint(BracketAfter(p, tir, k));
    } else {
      BisectFindsFirstHit(p, tir, k + 1, remaining - 1);
      var j :| k + 1 <= j < k + remaining && HitsAt(p, tir, j)
               && BisectFrom(p, tir, k + 1, remaining - 1).value == Midpoint(BracketAfter(p, tir, j))
               && forall i :: k + 1 <= i < j ==> !HitsAt(p, tir, i);
      assert forall i :: k <= i < j ==> !HitsAt(p, tir, i);
    }
  }

  /** A tariff the bisection returns passes the stopping test. */
  lemma {:induction false} SolvedTariffHitsTarget(p: SolverInputs, tir: real -> Option<real>)
    requires BisectFrom(p, tir, 0, SolverIterations).Some?
    ensures Hits(p, tir(BisectFrom(p, tir, 0, SolverIterations).value))
  {
    BisectFindsFirstHit(p, tir, 0, SolverIterations);
  }

  /** Each step halves the bracket: after k steps it is -investment / 2^k wide. */
  lemma {:induction false} BracketWidth(p: SolverInputs, tir: real -> Option<real>, k: nat)
    ensures BracketAfter(p, tir, k).high - BracketAfter(p, tir, k).low == -p.investment / Pow(2.0, k)
  {
    if k > 0 {
      BracketWidth(p, tir, k - 1);
      var b := BracketAfter(p, tir, k - 1);
      Halve(b.high - b.low, -p.investment, Pow(2.0, k - 1), Pow(2.0, k));
    }
  }

  lemma Halve(w: real, v: real, d: real, d2: real)
    requires d > 0.0 && d2 == 2.0 * d && w == v / d
    ensures w / 2.0 == v / d2
  {
  }

  /** For an outlay (investment <= 0) every bracket is well ordered and
      inside the previous one, so every midpoint tried lies in
      [0, -investment]. */
  lemma {:induction false} BracketsNest(p: SolverInputs, tir: real -> Option<real>, k: nat)
    requires p.investment <= 0.0
    ensures 0.0 <= BracketAfter(p, tir, k).low <= BracketAfter(p, tir, k).high <= -p.investment
    ensures BracketAfter(p, tir, k).low <= BracketAfter(p, tir, k + 1).low
    ensures BracketAfter(p, tir, k + 1).high <= BracketAfter(p, tir, k).high
  {
    BracketWidth(p, tir, k);
    assert -p.investment / Pow(2.0, k) >= 0.0;
    if k > 0 {
      BracketsNest(p, tir, k - 1);
    }
  }

  // ---------------------------------------------------------------------
  // Free-cash-flow table
  // ---------------------------------------------------------------------

  /** The rows of the free-cash-flow table, one entry per year
      (js/app.js:325-334), deductions shown as negative amounts. */
  datatype FcfTable = FcfTable(revenue: seq<real>, operatingCost: seq<real>,
                               depreciationCharge: seq<real>, ebit: seq<real>,
                               taxes: seq<real>, earningsAfterTax: seq<real>,
                               depreciationAddBack: seq<real>, freeCashFlow: seq<real>)

  /** `table` is the table for a tariff: its free-cash-flow row is the
      tariff's flows after period zero, and every row holds the same entry
      for each year. */
  predicate TableFor(p: SolverInputs, tariff: real, table: FcfTable) {
    table.freeCashFlow == TariffFlows(p, tariff, p.years)[1..]
    && (p.years == 0 ==> table == FcfTable([], [], [], [], [], [], [], []))
    && (p.years > 0 ==>
          var ebit := Ebit(p, tariff);
          table.revenue == Level(p.years, tariff)
          && table.operatingCost == Level(p.years, -p.annualCost)
          && table.depreciationCharge == Level(p.years, -Depreciation(p))
          && table.ebit == Level(p.years, ebit)
          && table.taxes == Level(p.years, -Taxes(ebit, p.taxRate))
          && table.earningsAfterTax == Level(p.years, ebit - Taxes(ebit, p.taxRate))
          && table.depreciationAddBack == Level(p.years, Depreciation(p)))
  }

  /** The table loop (js/app.js:325-347): it books tax as a negative row and
      depreciation as a charge and an add-back, yet its final flows are the
      ones getTIRForTariff builds for the same tariff. */
  method BuildFcfTable(p: SolverInputs, tariff: real) returns (table: FcfTable, finalFlows: seq<real>)
    ensures finalFlows == TariffFlows(p, tariff, p.years)
    ensures table.freeCashFlow == finalFlows[1..]
    ensures TableFor(p, tariff, table)
  {
    finalFlows := [p.investment];
    if p.years == 0 {
      table := FcfTable([], [], [], [], [], [], [], []);
      return;
    }
    var revenue := Level(p.years, tariff);
    var operatingCost := Level(p.years, -p.annualCost);
    var depreciationCharge := Level(p.years, -Depreciation(p));
    var depreciationAddBack := Level(p.years, Depreciation(p));
    var ebitRow, taxRow, eatRow, fcfRow := [], [], [], [];
    for i := 0 to p.years
      invariant finalFlows == [p.investment] + fcfRow
      invariant ebitRow == Level(i, Ebit(p, tariff))
      invariant taxRow == Level(i, -Taxes(Ebit(p, tariff), p.taxRate))
      invariant eatRow == Level(i, Ebit(p, tariff) - Taxes(Ebit(p, tariff), p.taxRate))
      invariant fcfRow == Level(i, FreeCashFlow(p, tariff))
    {
      var ebit := revenue[i] + operatingCost[i] + depreciationCharge[i];
      assert ebit == Ebit(p, tariff);
      ebitRow := ebitRow + [ebit];
      var tax := if ebit > 0.0 then -(ebit * p.taxRate) else 0.0;
      assert tax == -Taxes(ebit, p.taxRate);
      taxRow := taxRow + [tax];
      var eat := ebit + tax;
      eatRow := eatRow + [eat];
      var fcf := eat + depreciationAddBack[i];
      fcfRow := fcfRow + [fcf];
      finalFlows := finalFlows + [fcf];
    }
    TariffFlowsShape(p, tariff, p.years);
    assert finalFlows[1..] == fcfRow;
    table := FcfTable(revenue, operatingCost, depreciationCharge, ebitRow, taxRow, eatRow,
                      depreciationAddBack, fcfRow);
  }

  /** The whole calculator (js/app.js:270-355): the tariff found, the table
      for it and the IRR of the table's flows, shown as "verified IRR". With
      no tariff found the table and the verified IRR are absent. */
  method RunSolver(p: SolverInputs) returns (optimal: Option<real>, table: Option<FcfTable>,
                                             verifiedTir: Option<real>)
    ensures optimal == BisectFrom(p, Objective(p), 0, SolverIterations)
    ensures optimal.None? ==> table.None? && verifiedTir.None?
    ensures optimal.Some? ==> table.Some? && TableFor(p, optimal.value, table.value)
    ensures optimal.Some? ==> verifiedTir == TirOf(p, optimal.value)
    ensures optimal.Some? ==> verifiedTir.Some? && Abs(verifiedTir.value - p.targetTir) < TirTolerance
  {
    optimal := SolveTariff(p, SolverIterations, Objective(p));
    if optimal.Some? {
      SolvedTariffHitsTarget(p, Objective(p));
      var rows, finalFlows := BuildFcfTable(p, optimal.value);
      table := Some(rows);
      ghost var evaluations;
      verifiedTir, evaluations := Irr(finalFlows, TirGuess);
    } else {
      table := None;
      verifiedTir := None;
    }
  }
}
