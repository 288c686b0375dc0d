# Project evaluation calculators: discounted cash flow in Dafny

This project models the computational core of a web calculator that
evaluates investment projects.

The first part is the discounted-cash-flow library in `js/financial.js`:
- NPV, the net present value of a cash-flow sequence;
- IRR, the internal rate of return found by Newton-Raphson with the analytic derivative;
- MIRR, the modified internal rate of return, which reinvests positive flows and finances the others;
- PMT, Excel's periodic annuity payment, including the annuity-due variant.

The second part is the cash-flow constructions that the calculator pages in `js/app.js` build before calling the library:
- the incremental flows B − A used for Fisher's rate;
- the replacement chain that repeats a two-period project once;
- the equivalent annuity of an NPV;
- the tariff solver of the page-343 calculator, which has three pieces:
  - `getTIRForTariff`, the IRR of a project as a function of its yearly tariff;
  - the bisection on the tariff;
  - the free-cash-flow table whose flows are passed to IRR again as a "verified IRR".

Numbers are Dafny `real`s. Every `NaN` that the code produces is `None` in an `Option`. A cash-flow sequence has one entry per period. Index 0 is period zero and is not discounted: flow `i` is divided by `(1 + rate)^i`, which is the convention `NPV` uses at js/financial.js:14. MIRR classifies each flow purely by its sign, whatever its index (js/financial.js:68-72). Positive flows are compounded. Zero and negative flows are discounted.

Files and modules:
- `powers.dfy` (`Powers`): whole powers `Pow(x, n)`, standing for `Math.pow` with a whole exponent, and the facts about them that the proofs use.
- `financial.dfy` (`Financial`): NPV, IRR, MIRR and PMT.
  - Each loop is a `method`, proved equal to a specification function: `NpvOf`, `DerivativeOf`, `NewtonFrom`, `MirrOf`.
  - PMT has no loop, so it is a function.
- `flows.dfy` (`Flows`): the incremental flows, the replacement chain and the equivalent annuity.
- `tariff_solver.dfy` (`TariffSolver`): `getTIRForTariff`, the bisection, the table loop and the calculator run that ties them together.

How the model treats rates at or below −100%:
- The library does not reject such rates. It fails only where it divides by zero. For NPV, IRR and MIRR only a rate of exactly −1 does that. PMT also divides by zero when (1 + rate)^nper is 1 at a non-zero rate, for example at rate −2 with an even nper.
  - IRR: the model returns `None` when a Newton iterate makes the discounting divide by zero. This matches the `NaN` that the code then carries to its final result.
  - NPV, MIRR and PMT: the model requires the division to be defined (see "## Left out").
- Every other input with a rate below −1 is computed the way the code computes it.

## Model

| member | source | states |
|---|---|---|
| Powers.Pow | js/financial.js:14 | A whole power of a non-zero base is non-zero, of a positive base positive, of a non-negative base non-negative, so the discount factors divide safely |
| Financial.Npv | js/financial.js:11-17 | The one-pass loop returns exactly the sum of flow i divided by (1 + rate)^i, period zero undiscounted; it demands only that no division by zero occurs |
| Financial.NpvAtZeroRate | js/financial.js:11-17 | At a zero rate the NPV is the plain sum of the flows |
| Financial.Irr | js/financial.js:26-53 | IRR returns the Newton iteration from the guess with a budget of 100; it evaluates NPV at most 100 times; a returned rate has abs(NPV) < 1e-7; a guess that is already a root is returned unchanged; a guess with a derivative below 1e-7 in magnitude gives NaN |
| Financial.Derivative | js/financial.js:40-43 | The derivative loop returns the analytic derivative of the NPV: minus the sum over j >= 1 of j * flow j / (1 + rate)^(j+1) |
| Financial.NewtonSound | js/financial.js:32-37 | Whatever rate the iteration returns, from any start and budget, is a root of the NPV within 1e-7 at which discounting is defined |
| Financial.NewtonMoreFuel | js/financial.js:32-50 | A larger iteration budget never changes a rate already found |
| Financial.SingleFlowIrr | js/financial.js:32-47 | With no flow after period zero the derivative is zero, so IRR returns the guess if the lone flow is below 1e-7 in magnitude and NaN otherwise |
| Financial.DerivativeNegative | js/financial.js:40-43 | For flows that are all positive after period zero, at a rate above -100%, the derivative is strictly negative, so the Newton step is defined |
| Financial.Mirr | js/financial.js:62-82 | The sign-splitting loop computes the specification MIRR, and MIRR is NaN exactly when n == 0, the financed present value is not negative, or the reinvested future value is not positive |
| Financial.FinalPositiveFlowAddsItsValue | js/financial.js:68-69 | A positive last flow is compounded over zero periods and adds its own value to the future value |
| Financial.ZeroFlowAddsNothing | js/financial.js:70-71 | A zero flow falls on the financed side and changes neither the present value nor the future value |
| Financial.ReinvestedFvPositive | js/financial.js:67-73 | At a reinvestment rate above -100% the future value of the positive flows is non-negative, and positive exactly when some flow is positive |
| Financial.FinancedPvNegative | js/financial.js:67-75 | At a finance rate above -100% the present value of the other flows is non-positive, and negative exactly when some flow is negative |
| Financial.MirrDefinedIffSignChange | js/financial.js:62-82 | At rates above -100%, MIRR has a result exactly when there are at least two flows, at least one positive and at least one negative |
| Financial.ReinvestedFvMonotone | js/financial.js:69 | From a reinvestment rate of −100% up, the reinvested future value never falls as the rate rises |
| Financial.MirrMonotoneInReinvestRate | js/financial.js:62-82 | From a reinvestment rate of −100% up, if MIRR is defined at one reinvestment rate, it stays defined at any higher one and is never lower there |
| Financial.NpvSplitsBySign | js/financial.js:67-73 | With equal finance and reinvestment rates the NPV is the financed present value plus the reinvested future value discounted back over the horizon |
| Financial.MirrGrowsPvToFv | js/financial.js:81 | When MIRR is defined, compounding the financed present value at 1 + MIRR for n periods gives the reinvested future value |
| Financial.MirrExceedsRateIffNpvPositive | js/financial.js:62-82 | With equal finance and reinvestment rates above -100%, MIRR exceeds the rate exactly when the NPV at that rate is positive |
| Financial.Pmt | js/financial.js:94-107 | At a zero rate nper payments repay pv + fv; at a non-zero rate the ordinary payment solves the annuity equation pv * (1 + r)^n + pmt * ((1 + r)^n - 1) / r + fv == 0 |
| Financial.AnnuityEquation | js/financial.js:99-100 | The ordinary payment formula rate / (pvif - 1) * -(pv * pvif + fv) satisfies the annuity equation |
| Financial.PmtAnnuityDue | js/financial.js:102-104 | The annuity-due payment is the ordinary payment discounted by one period |
| Financial.PmtAmortizes | js/financial.js:94-107 | For both timings, nper payments of PMT at the rate, starting from a balance pv, leave exactly -fv |
| Financial.PmtDefinedForOrdinaryRates | js/financial.js:99-100 | For any non-zero rate above -100% the PMT denominator pvif - 1 is non-zero |
| Flows.IncrementalFlows | js/app.js:63 | The flows B - A have the projects' common length and hold, period by period, B's flow minus A's (the same construction appears at js/app.js lines 118 and 411) |
| Flows.NpvAdditive | js/financial.js:11-17 | The NPV of a period-by-period sum of flows is the sum of their NPVs |
| Flows.NpvOfIncremental | js/app.js:68 | The NPV the page shows for B - A is the NPV of B minus the NPV of A |
| Flows.FisherIntersection | js/app.js:411 | The incremental flows have zero NPV exactly at the rates where both projects have equal NPVs (Fisher's rate) |
| Flows.IncrementalIrrEqualizesNpv | js/app.js:68 | Any rate IRR finds for B - A, from any guess, is a rate where the NPVs of A and B agree within 1e-7 |
| Flows.ReplacementChain | js/app.js:236-242 | The chain is the base followed by two zeros plus two zeros followed by the base: the repeat's investment falls in the original's last period |
| Flows.NpvConcat | js/financial.js:11-17 | Flows that follow a sequence s are discounted by |s| further periods |
| Flows.ReplacementChainNpv | js/app.js:236-242 | The chain's NPV is the base NPV plus the base NPV discounted over two periods |
| Flows.ReplacementChainKeepsSign | js/app.js:236-242 | The chain's NPV is positive, or zero, exactly when the base NPV is, so the chain keeps the base's verdict |
| Flows.BalanceDiscounts | js/financial.js:94-107 | The balance after n ordinary payments is the opening balance plus the NPV of the payments, compounded over the n periods |
| Flows.EquivalentAnnuity | js/app.js:255-256 | At a zero rate n payments of the equivalent annuity add up to the NPV; at a non-zero rate the annuity solves the annuity equation for a present value of -NPV and a future value of 0 |
| Flows.EquivalentAnnuityRepaysNpv | js/app.js:255-256 | n level payments of the equivalent annuity, starting one period from now, have an NPV equal to the NPV they annualise |
| Flows.EquivalentAnnuityOrdersLikeNpv | js/app.js:255-256 | Over the same life and at a rate above -100%, a larger NPV gives a strictly larger equivalent annuity, and conversely |
| Flows.ReplacementChainSameAnnuity | js/app.js:236-256 | The four-period chain and its two-period base have the same equivalent annuity, so the two ways of comparing unequal lives agree |
| TariffSolver.FreeCashFlowBranches | js/app.js:283-285 | Without a taxable profit the yearly free cash flow is the tariff less the operating cost; with one it is the after-tax EBIT plus depreciation |
| TariffSolver.TariffFlowsShape | js/app.js:281-287 | The list getTIRForTariff builds is the investment followed by one equal free cash flow per year |
| TariffSolver.Depreciation | js/app.js:277 | The yearly straight-line depreciation, taken over `years` periods, adds up to the outlay -investment |
| TariffSolver.TirOf | js/app.js:280-289 | An IRR found for a tariff is a rate at which discounting is defined and a root, within 1e-7, of the NPV of that tariff's flows |
| TariffSolver.BuildTariffFlows | js/app.js:281-287 | The loop builds the investment followed by `years` free cash flows at the tariff |
| TariffSolver.TirForTariff | js/app.js:280-289 | getTIRForTariff returns the library IRR, from the default guess 0.1, of the tariff's flows |
| TariffSolver.Narrow | js/app.js:304-308 | One bisection step halves the bracket: an IRR above the target moves the upper end to the midpoint and keeps the lower end; any other IRR, NaN included, moves the lower end to the midpoint and keeps the upper end |
| TariffSolver.SolveTariff | js/app.js:292-309 | The loop returns the midpoint of the first of its steps whose IRR comes within 1e-6 of the target, starting from the bracket [0, -investment], and NaN when no step does |
| TariffSolver.BisectFailsIffNoHit | js/app.js:294-309 | The bisection gives NaN exactly when no step's midpoint passes the stopping test |
| TariffSolver.BisectFindsFirstHit | js/app.js:296-303 | A tariff the bisection returns is the midpoint of a step that passes the stopping test, and no earlier step passed |
| TariffSolver.SolvedTariffHitsTarget | js/app.js:300-302 | A tariff the bisection returns has an IRR within 1e-6 of the target |
| TariffSolver.BracketWidth | js/app.js:292-308 | After k steps the bracket is -investment / 2^k wide |
| TariffSolver.BracketsNest | js/app.js:292-308 | For an outlay, every bracket lies within [0, -investment] and is well ordered, and each bracket lies inside the previous one |
| TariffSolver.BuildFcfTable | js/app.js:325-347 | The table loop's final flows are exactly the flows getTIRForTariff builds for the same tariff, and its free-cash-flow row is those flows after period zero; every row holds the same entry for each year: revenue, -cost, -depreciation, EBIT, -tax, EBIT less tax, depreciation added back |
| TariffSolver.RunSolver | js/app.js:292-356 | The calculator returns the bisection's tariff; when there is one, the table is the table for that tariff (every row at that tariff, the free-cash-flow row equal to that tariff's flows after period zero) and the verified IRR of its flows is that tariff's IRR, within 1e-6 of the target; when there is none, there is no table and no verified IRR |

## Left out

- The page itself is not part of this model:
  - reading inputs from the DOM and `parseFloat`/`parseInt`;
  - formatting, charts, theme switching and event listeners;
  - the decision texts that compare the computed figures (for example js/app.js:260-264);
  - the other calculators' tables of metrics, whose NPV, IRR and MIRR calls are the modelled library functions.
- Floating point: values are exact reals.
  - Rounding, overflow to `Infinity` and `NaN` propagation are not modelled. A `NaN` result is `None`.
  - The model does not show that IRR converges: Newton's method is a specification function with the code's budget of 100 steps.
- `Math.pow(x, 1 / n)`, the fractional root in MIRR, is a parameter `root`. Lemmas that need it assume only that it is a positive n-th root, or that it is monotone.
- Financial.Npv: requires that the discounting never divides by zero (rate == -1 with two or more flows). In that case the code returns `Infinity` or `NaN`.
- Financial.Mirr: requires that discounting at the finance rate is defined, which excludes a finance rate of exactly -1 with two or more flows. On those inputs the code still returns a value, in three cases:
  - every flow after period zero is positive: nothing is divided by zero (`Math.pow(0, 0)` is 1) and MIRR is computed as at any other rate, for example a finite MIRR for [-100, 60, 60];
  - some flow after period zero is negative and none is zero: the financed present value becomes `Infinity`, so MIRR is -1 when the reinvested future value is positive and `NaN` otherwise (with a reinvestment rate of -1 as well, `[-100, 50, -20]` gives a future value of 0 and so `NaN`);
  - some flow after period zero is zero: 0 / 0 makes the result `NaN`.
- Financial.Pmt: requires nper > 0, a factor (1 + rate)^nper other than 1 at non-zero rates, and 1 + rate != 0 for annuities due. These exclude exactly the inputs where the code divides by zero and returns `Infinity` or `NaN`.
- Flows.ReplacementChain: requires a three-entry base (js/app.js:236-242 hard-codes the indices 0 to 2).
- TariffSolver.SolveTariff: takes the number of bisection steps as a parameter. The calculator passes 100 (`RunSolver`).
- TariffSolver.RunSolver: when no tariff is found, it returns no table and no verified IRR. The page still renders the table at a `NaN` tariff and shows a `NaN` IRR. In that table the revenue, EBIT, after-tax result and free-cash-flow rows are `NaN`. The operating-cost row and both depreciation rows hold numbers (js/app.js:327-328, 332). The tax row holds 0, because `NaN > 0` is false (js/app.js:340).
- TariffSolver.SolverInputs: `years` is a natural number. A negative or `NaN` year count, which `parseInt` can produce, is not modelled.
  - With zero years both loops run zero times and depreciation (a division by zero in the code) is never used. The model does not compute it.
- TariffSolver.BracketsNest: assumes an outlay (investment <= 0). For a positive investment the code starts with the inverted bracket [0, -investment], and the lemma says nothing about that case.
