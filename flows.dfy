/** The cash-flow constructions the calculator pages feed to the library
    (js/app.js): incremental flows B - A for Fisher's rate, the replacement
    chain that repeats a two-period project once, and the equivalent annuity
    of an NPV. */
module Flows {
  import opened Powers
  import opened Financial

  // ---------------------------------------------------------------------
  // Incremental flows
  // ---------------------------------------------------------------------

  /** flowsBA (js/app.js:63, 118, 411): project B's flows minus project A's,
      period by period. */
  function IncrementalFlows(a: seq<real>, b: seq<real>): (d: seq<real>)
    requires |a| == |b|
    ensures |d| == |a| && forall i :: 0 <= i < |d| ==> d[i] == b[i] - a[i]
  {
    seq(|a|, i requires 0 <= i < |a| => b[i] - a[i])
  }

  /** c is a + b, period by period. */
  predicate SumsTo(a: seq<real>, b: seq<real>, c: seq<real>) {
    |a| == |c| && |b| == |c| && forall i :: 0 <= i < |c| ==> c[i] == a[i] + b[i]
  }

  /** NPV is additive in the flows. */
  lemma {:induction false} NpvAdditive(rate: real, a: seq<real>, b: seq<real>, c: seq<real>)
    requires SumsTo(a, b, c) && DiscountDefined(rate, |c|)
    ensures NpvOf(rate, c) == NpvOf(rate, a) + NpvOf(rate, b)
  {
    if c != [] {
      var k := |c| - 1;
      assert SumsTo(a[..k], b[..k], c[..k]);
      NpvAdditive(rate, a[..k], b[..k], c[..k]);
      if k == 0 {
        assert Pow(1.0 + rate, k) == 1.0;
      }
      AddStep(NpvOf(rate, c), NpvOf(rate, a), NpvOf(rate, b),
              NpvOf(rate, c[..k]), NpvOf(rate, a[..k]), NpvOf(rate, b[..k]),
              c[k], a[k], b[k], Pow(1.0 + rate, k));
    }
  }

  /** One period's discounted flows add when the flows add. */
  lemma AddStep(n: real, na: real, nb: real, n0: real, na0: real, nb0: real,
                ck: real, ak: real, bk: real, p: real)
    requires p != 0.0 && ck == ak + bk && n0 == na0 + nb0
    requires n == n0 + ck / p && na == na0 + ak / p && nb == nb0 + bk / p
    ensures n == na + nb
  {
    DivAdd(ak, bk, p);
  }

  lemma DivAdd(a: real, b: real, d: real)
    requires d != 0.0
    ensures (a + b) / d == a / d + b / d
  {
  }

  /** The NPV of the incremental flows is the difference of the NPVs. */
  lemma {:induction false} NpvOfIncremental(rate: real, a: seq<real>, b: seq<real>)
    requires |a| == |b| && DiscountDefined(rate, |a|)
    ensures NpvOf(rate, IncrementalFlows(a, b)) == NpvOf(rate, b) - NpvOf(rate, a)
  {
    NpvAdditive(rate, a, IncrementalFlows(a, b), b);
  }

  /** Fisher's rate: the incremental flows have zero NPV exactly at the
      rates where both projects have the same NPV. */
  lemma {:induction false} FisherIntersection(rate: real, a: seq<real>, b: seq<real>)
    requires |a| == |b| && DiscountDefined(rate, |a|)
    ensures NpvOf(rate, IncrementalFlows(a, b)) == 0.0 <==> NpvOf(rate, a) == NpvOf(rate, b)
  {
    NpvOfIncremental(rate, a, b);
  }

  /** A rate IRR finds for the incremental flows (from any guess) is a
      rate where the two projects' NPVs agree within Precision. */
  lemma {:induction false} IncrementalIrrEqualizesNpv(a: seq<real>, b: seq<real>, guess: real)
    requires |a| == |b|
    requires NewtonFrom(IncrementalFlows(a, b), guess, MaxIterations).Some?
    ensures var r := NewtonFrom(IncrementalFlows(a, b), guess, MaxIterations).value;
            DiscountDefined(r, |a|) && Abs(NpvOf(r, b) - NpvOf(r, a)) < Precision
  {
    NewtonSound(IncrementalFlows(a, b), guess, MaxIterations);
    var r := NewtonFrom(IncrementalFlows(a, b), guess, MaxIterations).value;
    NpvOfIncremental(r, a, b);
  }

  // ---------------------------------------------------------------------
  // Replacement chain
  // ---------------------------------------------------------------------

  /** flowsB_rep (js/app.js:236-242): a two-period project repeated once,
      the repeat's investment falling in the original's last period. */
  function ReplacementChain(base: seq<real>): (chain: seq<real>)
    requires |base| == 3
    ensures SumsTo(base + [0.0, 0.0], [0.0, 0.0] + base, chain)
  {
    [base[0], base[1], base[2] + base[0], base[1], base[2]]
  }

  /** Flows that follow `s` are discounted by a further |s| periods. */
  lemma {:induction false} NpvConcat(rate: real, s: seq<real>, t: seq<real>)
    requires 1.0 + rate != 0.0
    ensures NpvOf(rate, s + t) == NpvOf(rate, s) + NpvOf(rate, t) / Pow(1.0 + rate, |s|)
    decreases |t|
  {
    if t == [] {
      assert s + t == s;
    } else {
      var k := |t| - 1;
      var st := s + t;
      assert st[..|st| - 1] == s + t[..k];
      assert st[|st| - 1] == t[k];
      NpvConcat(rate, s, t[..k]);
      PowAdd(1.0 + rate, k, |s|);
      ConcatStep(NpvOf(rate, st), NpvOf(rate, s), NpvOf(rate, t),
                 NpvOf(rate, st[..|st| - 1]), NpvOf(rate, t[..k]),
                 st[|st| - 1], t[k],
                 Pow(1.0 + rate, |s|), Pow(1.0 + rate, k), Pow(1.0 + rate, |st| - 1));
    }
  }

  /** One more flow v, at period |t0| of t and at period |s| + |t0| of s + t. */
  lemma ConcatStep(n: real, ns: real, nt: real, n0: real, nt0: real, v: real, w: real,
                   ps: real, pt: real, pst: real)
    requires ps != 0.0 && pt != 0.0 && pst == pt * ps && v == w
    requires n0 == ns + nt0 / ps && n == n0 + v / pst && nt == nt0 + w / pt
    ensures n == ns + nt / ps
  {
    assert w / pt / ps == v / pst;
    DivAdd(nt0, w / pt, ps);
  }

  /** The chain's NPV is the base NPV plus the base NPV again, discounted
      over the two periods the repeat starts after. */
  lemma {:induction false} ReplacementChainNpv(rate: real, base: seq<real>)
    requires |base| == 3 && 1.0 + rate != 0.0
    ensures NpvOf(rate, ReplacementChain(base))
            == NpvOf(rate, base) + NpvOf(rate, base) / Pow(1.0 + rate, 2)
  {
    var zeros := [0.0, 0.0];
    NpvAdditive(rate, base + zeros, zeros + base, ReplacementChain(base));
    NpvConcat(rate, base, zeros);
    NpvConcat(rate, zeros, base);
    assert zeros[..1] == [0.0] && zeros[..1][..0] == [];
    assert NpvOf(rate, [0.0]) == 0.0;
    assert NpvOf(rate, zeros) == 0.0;
  }

  /** The chain and its base have NPVs of the same sign, so the chain keeps
      the base's accept/reject verdict and its IRR roots. */
  lemma {:induction false} ReplacementChainKeepsSign(rate: real, base: seq<real>)
    requires |base| == 3 && 1.0 + rate != 0.0
    ensures NpvOf(rate, ReplacementChain(base)) > 0.0 <==> NpvOf(rate, base) > 0.0
    ensures NpvOf(rate, ReplacementChain(base)) == 0.0 <==> NpvOf(rate, base) == 0.0
  {
    ReplacementChainNpv(rate, base);
    var x := 1.0 + rate;
    assert Pow(x, 2) == x * x by {
      assert Pow(x, 1) == x;
    }
    GrowByPositiveShare(NpvOf(rate, ReplacementChain(base)), NpvOf(rate, base), Pow(x, 2));
  }

  lemma GrowByPositiveShare(m: real, n: real, p: real)
    requires p > 0.0 && m == n + n / p
    ensures m > 0.0 <==> n > 0.0
    ensures m == 0.0 <==> n == 0.0
  {
    assert m == n * (1.0 + 1.0 / p);
    assert 1.0 + 1.0 / p > 0.0;
  }

  // ---------------------------------------------------------------------
  // Equivalent annuity
  // ---------------------------------------------------------------------

  /** n equal amounts q: level payments, or a row of equal yearly entries. */
  function Level(n: nat, q: real): (r: seq<real>)
    ensures |r| == n && forall i :: 0 <= i < n ==> r[i] == q
  {
    if n == 0 then [] else Level(n - 1, q) + [q]
  }

  /** The equivalent annuity (js/app.js:255-256): the level end-of-period
      payment over n periods worth `npv` today, PMT(rate, n, -npv). */
  function EquivalentAnnuity(rate: real, n: nat, npv: real): (ea: real)
    requires n > 0 && (rate == 0.0 || Pow(1.0 + rate, n) != 1.0)
    ensures rate == 0.0 ==> ea * (n as real) == npv
    ensures rate != 0.0 ==> SolvesAnnuity(rate, n, -npv, 0.0, ea)
  {
    Pmt(rate, n, -npv, 0.0, 0)
  }

  /** The balance after n ordinary payments of q is the opening balance
      plus the NPV of the payments, compounded over the n periods. */
  lemma {:induction false} BalanceDiscounts(pv: real, rate: real, q: real, n: nat)
    requires 1.0 + rate != 0.0
    ensures Balance(pv, rate, q, false, n) == Pow(1.0 + rate, n) * (pv + NpvOf(rate, [0.0] + Level(n, q)))
  {
    if n == 0 {
      assert [0.0] + Level(0, q) == [0.0];
      assert [0.0][..0] == [];
    } else {
      BalanceDiscounts(pv, rate, q, n - 1);
      PaymentStreamStep(rate, q, n);
      BalanceDiscountsStep(pv, rate, q, n, NpvOf(rate, [0.0] + Level(n, q)),
                           NpvOf(rate, [0.0] + Level(n - 1, q)));
    }
  }

  /** One more payment q: if the balance after n - 1 payments is their NPV
      `a0` compounded, the balance after n is the compounded NPV `a` of n. */
  lemma {:induction false} BalanceDiscountsStep(pv: real, rate: real, q: real, n: nat, a: real, a0: real)
    requires 1.0 + rate != 0.0 && n > 0 && a == a0 + q / Pow(1.0 + rate, n)
    requires Balance(pv, rate, q, false, n - 1) == Pow(1.0 + rate, n - 1) * (pv + a0)
    ensures Balance(pv, rate, q, false, n) == Pow(1.0 + rate, n) * (pv + a)
  {
    AnnuityStep(Balance(pv, rate, q, false, n), Balance(pv, rate, q, false, n - 1),
                Pow(1.0 + rate, n), Pow(1.0 + rate, n - 1), 1.0 + rate, pv, a, a0, q);
  }

  /** The n-th payment q is discounted over n periods. */
  lemma {:induction false} PaymentStreamStep(rate: real, q: real, n: nat)
    requires 1.0 + rate != 0.0 && n > 0
    ensures NpvOf(rate, [0.0] + Level(n, q))
            == NpvOf(rate, [0.0] + Level(n - 1, q)) + q / Pow(1.0 + rate, n)
  {
    var s := [0.0] + Level(n, q);
    assert s[..n] == [0.0] + Level(n - 1, q) && s[n] == q && |s| == n + 1;
  }

  /** One more payment q, compounded from period n - 1 to n. */
  lemma AnnuityStep(b: real, b0: real, p: real, p0: real, x: real, pv: real,
                    a: real, a0: real, q: real)
    requires x != 0.0 && p0 != 0.0 && p == x * p0
    requires b0 == p0 * (pv + a0) && b == b0 * x + q && a == a0 + q / p
    ensures b == p * (pv + a)
  {
    assert p * (q / p) == q;
  }

  /** The equivalent annuity repays the NPV: n payments of it, starting one
      period from now, have exactly that NPV. */
  lemma {:induction false} EquivalentAnnuityRepaysNpv(rate: real, n: nat, npv: real)
    requires n > 0 && 1.0 + rate != 0.0 && (rate == 0.0 || Pow(1.0 + rate, n) != 1.0)
    ensures NpvOf(rate, [0.0] + Level(n, EquivalentAnnuity(rate, n, npv))) == npv
  {
    var q := EquivalentAnnuity(rate, n, npv);
    PmtAmortizes(rate, n, -npv, 0.0, 0);
    LevelPaymentsRepay(rate, n, -npv, q);
  }

  /** Level payments that bring a balance pv to zero have an NPV of -pv. */
  lemma {:induction false} LevelPaymentsRepay(rate: real, n: nat, pv: real, q: real)
    requires 1.0 + rate != 0.0 && Balance(pv, rate, q, false, n) == -0.0
    ensures NpvOf(rate, [0.0] + Level(n, q)) == -pv
  {
    BalanceDiscounts(pv, rate, q, n);
    RepaidBalance(Balance(pv, rate, q, false, n), Pow(1.0 + rate, n), pv, NpvOf(rate, [0.0] + Level(n, q)));
  }

  /** A balance of zero that is a non-zero factor times pv + a forces a == -pv. */
  lemma RepaidBalance(balance: real, p: real, pv: real, a: real)
    requires p != 0.0 && balance == -0.0 && balance == p * (pv + a)
    ensures a == -pv
  {
  }

  /** Above -100%, a larger NPV gives a larger equivalent annuity over the
      same life. */
  lemma {:induction false} EquivalentAnnuityOrdersLikeNpv(rate: real, n: nat, v1: real, v2: real)
    requires n > 0 && rate > -1.0 && (rate == 0.0 || Pow(1.0 + rate, n) != 1.0)
    ensures EquivalentAnnuity(rate, n, v1) < EquivalentAnnuity(rate, n, v2) <==> v1 < v2
  {
    if rate != 0.0 {
      var p := Pow(1.0 + rate, n);
      if rate > 0.0 {
        PowAboveOne(1.0 + rate, n);
      } else {
        PowBelowOne(1.0 + rate, n);
      }
      PositiveAnnuityFactor(rate, p);
      ScaledOrder(rate / (p - 1.0) * p, v1, v2,
                  EquivalentAnnuity(rate, n, v1), EquivalentAnnuity(rate, n, v2));
    } else {
      ScaledOrder(1.0 / (n as real), v1, v2,
                  EquivalentAnnuity(rate, n, v1), EquivalentAnnuity(rate, n, v2));
    }
  }

  /** rate * p / (p - 1) is positive when the rate and p - 1 share a sign. */
  lemma PositiveAnnuityFactor(rate: real, p: real)
    requires (rate > 0.0 && p > 1.0) || (rate < 0.0 && 0.0 < p < 1.0)
    ensures rate / (p - 1.0) * p > 0.0
  {
    if rate > 0.0 {
      assert rate / (p - 1.0) > 0.0;
    } else {
      QuotientOfNegatives(rate, p - 1.0);
    }
  }

  lemma QuotientOfNegatives(a: real, b: real)
    requires a < 0.0 && b < 0.0
    ensures a / b > 0.0
  {
    assert a / b == (-a) / (-b);
  }

  lemma ScaledOrder(c: real, v1: real, v2: real, e1: real, e2: real)
    requires c > 0.0 && e1 == c * v1 && e2 == c * v2
    ensures e1 < e2 <==> v1 < v2
  {
    assert e2 - e1 == c * (v2 - v1);
  }

  /** For a non-zero rate the equivalent annuity is the ordinary PMT formula. */
  lemma {:induction false} EquivalentAnnuityFormula(rate: real, n: nat, npv: real)
    requires n > 0 && rate != 0.0 && Pow(1.0 + rate, n) != 1.0
    ensures EquivalentAnnuity(rate, n, npv) == OrdinaryPayment(rate, Pow(1.0 + rate, n), -npv, 0.0)
  {
  }

  /** The replacement chain and its base have the same equivalent annuity:
      repeating a two-period project over four periods changes its NPV but
      not the level payment it is worth. */
  lemma {:induction false} ReplacementChainSameAnnuity(rate: real, base: seq<real>)
    requires |base| == 3 && rate > -1.0
    requires rate == 0.0 || (Pow(1.0 + rate, 2) != 1.0 && Pow(1.0 + rate, 4) != 1.0)
    ensures EquivalentAnnuity(rate, 4, NpvOf(rate, ReplacementChain(base)))
            == EquivalentAnnuity(rate, 2, NpvOf(rate, base))
  {
    ReplacementChainNpv(rate, base);
    if rate == 0.0 {
      PowOfOne(2);
    } else {
      PowAdd(1.0 + rate, 2, 2);
      EquivalentAnnuityFormula(rate, 2, NpvOf(rate, base));
      EquivalentAnnuityFormula(rate, 4, NpvOf(rate, ReplacementChain(base)));
      ChainAnnuityAlgebra(rate, Pow(1.0 + rate, 2), Pow(1.0 + rate, 4),
                          NpvOf(rate, base), NpvOf(rate, ReplacementChain(base)));
    }
  }

  lemma ChainAnnuityAlgebra(rate: real, p2: real, p4: real, npv: real, chain: real)
    requires p2 > 0.0 && p2 != 1.0 && p4 == p2 * p2 && chain == npv + npv / p2
    ensures OrdinaryPayment(rate, p4, -chain, 0.0) == OrdinaryPayment(rate, p2, -npv, 0.0)
  {
    var a := rate / (p2 - 1.0);
    assert chain * p2 == npv * p2 + npv;
    assert chain * p4 == npv * p2 * (p2 + 1.0);
    assert p4 - 1.0 == (p2 - 1.0) * (p2 + 1.0);
    DivideInTurn(rate, p4 - 1.0, p2 - 1.0, p2 + 1.0);
    assert OrdinaryPayment(rate, p4, -chain, 0.0) == a / (p2 + 1.0) * (npv * p2 * (p2 + 1.0));
    assert OrdinaryPayment(rate, p2, -npv, 0.0) == a * (npv * p2);
  }

  /** Dividing by d == x * y is dividing by x and then by y. */
  lemma DivideInTurn(r: real, d: real, x: real, y: real)
    requires x != 0.0 && y != 0.0 && d == x * y
    ensures r / d == r / x / y
  {
  }
}
