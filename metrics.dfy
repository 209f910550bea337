/** The current engine's statistic (src/bin/main.rs:255-351): for each matched row whose
    price fell, the estimated and the realized capital at risk, and the running sum and
    count of their relative deviation. Arithmetic is over exact reals. */
module Metrics {
  import opened Wrappers
  import opened Numbers
  import opened Records

  // ---------------------------------------------------------------------------
  // Per-transition amounts

  /** The closure of the first `map`: the first vault's debt when its collateral, valued
      at the second block's price, does not cover the debt times the first block's
      liquidation ratio and rate; `0.0` otherwise, and `0.0` when any text fails to parse. */
  function AtRiskDebt(meta: BlockDiffMetadata, x: VaultTransitionInner): real
  {
    AtRiskOf(ParseReal(x.first.collateral), ParseReal(x.first.debt),
             ParseReal(meta.firstLiquidationRatio), ParseReal(meta.firstRate), meta.secondPrice)
  }

  /** The test itself, on the parsed numbers. */
  function AtRiskOf(collateral: Option<real>, debt: Option<real>, ratio: Option<real>, rate: Option<real>, price: real): real
  {
    match (collateral, debt, ratio, rate)
    case (Some(c), Some(d), Some(lr), Some(r)) => if c * price > d * lr * r then 0.0 else d
    case _ => 0.0
  }

  /** The closure of the second `map`: a liquidated vault's first-snapshot debt, `0.0` for
      a vault that was not liquidated or whose debt text does not parse. */
  function LiquidatedDebt(x: VaultTransitionInner): real
  {
    if x.liquidated then
      match ParseReal(x.first.debt)
      case Some(debt) => debt
      case None => 0.0
    else 0.0
  }

  /** Which of the two amounts a sum adds up. */
  datatype Amount = AtRisk(meta: BlockDiffMetadata) | Liquidation

  function AmountOf(a: Amount, x: VaultTransitionInner): real
  {
    match a
    case AtRisk(meta) => AtRiskDebt(meta, x)
    case Liquidation => LiquidatedDebt(x)
  }

  /** Only the first block's liquidation ratio and rate and the second block's price take
      part; the other metadata fields and the second snapshot's vault do not. */
  lemma AtRiskDebtSources(meta: BlockDiffMetadata, other: BlockDiffMetadata, x: VaultTransitionInner, second: SubgraphVault)
    requires other.firstLiquidationRatio == meta.firstLiquidationRatio && other.firstRate == meta.firstRate
    requires other.secondPrice == meta.secondPrice
    ensures AtRiskDebt(other, x.(second := second)) == AtRiskDebt(meta, x)
  {
    assert x.(second := second).first == x.first;
  }

  /** A vault's amount at risk is its debt or nothing, and it is not nothing only when every
      text parses and the collateral does not cover the debt; `AtRiskDebtUncovered` gives
      the converse. */
  lemma AtRiskDebtIsDebtOrZero(meta: BlockDiffMetadata, x: VaultTransitionInner)
    ensures AtRiskDebt(meta, x) == 0.0 || (ParseReal(x.first.debt).Some? && AtRiskDebt(meta, x) == ParseReal(x.first.debt).value)
    ensures AtRiskDebt(meta, x) != 0.0 ==>
              && ParseReal(x.first.collateral).Some? && ParseReal(meta.firstLiquidationRatio).Some?
              && ParseReal(meta.firstRate).Some? && ParseReal(x.first.debt).Some?
              && ParseReal(x.first.collateral).value * meta.secondPrice <=
                 ParseReal(x.first.debt).value * ParseReal(meta.firstLiquidationRatio).value * ParseReal(meta.firstRate).value
  {
  }

  /** A vault whose texts all parse and whose collateral, valued at the second price, does
      not cover its debt times the first block's liquidation ratio and rate adds its debt. */
  lemma AtRiskDebtUncovered(meta: BlockDiffMetadata, x: VaultTransitionInner)
    requires ParseReal(x.first.collateral).Some? && ParseReal(meta.firstLiquidationRatio).Some?
    requires ParseReal(meta.firstRate).Some? && ParseReal(x.first.debt).Some?
    requires ParseReal(x.first.collateral).value * meta.secondPrice <=
             ParseReal(x.first.debt).value * ParseReal(meta.firstLiquidationRatio).value * ParseReal(meta.firstRate).value
    ensures AtRiskDebt(meta, x) == ParseReal(x.first.debt).value
  {
    var c, d := ParseReal(x.first.collateral), ParseReal(x.first.debt);
    var lr, r := ParseReal(meta.firstLiquidationRatio), ParseReal(meta.firstRate);
    assert AtRiskDebt(meta, x) == AtRiskOf(c, d, lr, r, meta.secondPrice);
    AtRiskOfCases(c, d, lr, r, meta.secondPrice);
  }

  /** `AtRiskOf` on the parsed numbers: the debt when all four parsed and the collateral
      does not cover it, `0.0` otherwise. */
  lemma AtRiskOfCases(collateral: Option<real>, debt: Option<real>, ratio: Option<real>, rate: Option<real>, price: real)
    ensures AtRiskOf(collateral, debt, ratio, rate, price) ==
            if collateral.Some? && debt.Some? && ratio.Some? && rate.Some? &&
               collateral.value * price <= debt.value * ratio.value * rate.value
            then debt.value else 0.0
  {
  }

  // ---------------------------------------------------------------------------
  // Sums over `vaultTransition.values()`

  /** The amount stored under `key`; a key without a value adds nothing. */
  function Term(entries: map<string, VaultTransitionInner>, key: string, a: Amount): real
  {
    if key in entries then AmountOf(a, entries[key]) else 0.0
  }

  /** `.map(..).fold(0.0, |x, y| x + y)` over the values, visited in the order of `keys`. */
  function SumOver(entries: map<string, VaultTransitionInner>, keys: seq<string>, a: Amount): real
  {
    if keys == [] then 0.0
    else SumOver(entries, keys[..|keys| - 1], a) + Term(entries, keys[|keys| - 1], a)
  }

  /** The estimated capital at risk of a row: `capitalAtRiskValueRisk`. */
  function Estimated(meta: BlockDiffMetadata, t: TransitionTable): real
  {
    SumOver(t.entries, t.order, AtRisk(meta))
  }

  /** The realized capital at risk of a row: `capitalAtRiskValueLiq`. */
  function Realized(t: TransitionTable): real
  {
    SumOver(t.entries, t.order, Liquidation)
  }

  /** `vaultTransitionIncludesLiquidatedVault`, the `any` over the values. */
  predicate AnyLiquidated(t: TransitionTable)
  {
    exists id :: id in t.entries && t.entries[id].liquidated
  }

  lemma {:induction false} SumOverAppend(entries: map<string, VaultTransitionInner>, s: seq<string>, u: seq<string>, a: Amount)
    ensures SumOver(entries, s + u, a) == SumOver(entries, s, a) + SumOver(entries, u, a)
  {
    if u == [] {
      assert s + u == s;
    } else {
      var n := |u| - 1;
      SumOverAppend(entries, s, u[..n], a);
      assert (s + u)[..|s + u| - 1] == s + u[..n];
    }
  }

  /** Taking the `i`-th key out of the visit takes its term out of the sum. */
  lemma SumOverRemove(entries: map<string, VaultTransitionInner>, u: seq<string>, i: nat, a: Amount)
    requires i < |u|
    ensures SumOver(entries, u, a) == SumOver(entries, u[..i] + u[i + 1..], a) + Term(entries, u[i], a)
  {
    var x := u[i];
    assert u == u[..i] + [x] + u[i + 1..];
    SumOverAppend(entries, u[..i] + [x], u[i + 1..], a);
    SumOverAppend(entries, u[..i], [x], a);
    SumOverAppend(entries, u[..i], u[i + 1..], a);
    assert [x][..0] == [];
  }

  /** Removing the same element from two sequences with equal multisets leaves equal multisets. */
  lemma MultisetRemove(s: seq<string>, u: seq<string>, i: nat)
    requires |s| > 0 && i < |u| && u[i] == s[|s| - 1]
    requires multiset(s) == multiset(u)
    ensures multiset(s[..|s| - 1]) == multiset(u[..i] + u[i + 1..])
  {
    var n := |s| - 1;
    var x := s[n];
    assert s == s[..n] + [x];
    assert u == u[..i] + [x] + u[i + 1..];
    forall y
      ensures multiset(s[..n])[y] == multiset(u[..i] + u[i + 1..])[y]
    {
      assert multiset(s)[y] == multiset(s[..n])[y] + multiset{x}[y];
      assert multiset(u)[y] == multiset(u[..i])[y] + multiset{x}[y] + multiset(u[i + 1..])[y];
    }
  }

  /** Over exact reals the visiting order does not matter: any reordering of the keys
      gives the same sum. */
  lemma {:induction false} SumOverPermutation(entries: map<string, VaultTransitionInner>, s: seq<string>, u: seq<string>, a: Amount)
    requires multiset(s) == multiset(u)
    ensures SumOver(entries, s, a) == SumOver(entries, u, a)
    decreases |s|
  {
    if s == [] {
      assert |u| == |multiset(u)| == 0;
    } else {
      var n := |s| - 1;
      assert s[n] in multiset(u);
      var i :| 0 <= i < |u| && u[i] == s[n];
      MultisetRemove(s, u, i);
      SumOverPermutation(entries, s[..n], u[..i] + u[i + 1..], a);
      SumOverRemove(entries, u, i, a);
    }
  }

  /** A sequence without repeats holds each of its elements once. */
  lemma {:induction false} DistinctMultiset(s: seq<string>)
    requires forall i, j :: 0 <= i < j < |s| ==> s[i] != s[j]
    ensures forall k :: multiset(s)[k] == if k in s then 1 else 0
  {
    if s != [] {
      var n := |s| - 1;
      DistinctMultiset(s[..n]);
      assert s == s[..n] + [s[n]];
      assert s[n] !in s[..n];
    }
  }

  /** Two well-formed tables with the same entries have the same sums, whatever order
      their keys are visited in: the hash order of `values()` is immaterial. */
  lemma SumIgnoresOrder(t: TransitionTable, u: TransitionTable, a: Amount)
    requires WellFormed(t) && WellFormed(u) && t.entries == u.entries
    ensures SumOver(t.entries, t.order, a) == SumOver(u.entries, u.order, a)
  {
    DistinctMultiset(t.order);
    DistinctMultiset(u.order);
    assert forall k :: multiset(t.order)[k] == multiset(u.order)[k];
    assert multiset(t.order) == multiset(u.order);
    SumOverPermutation(t.entries, t.order, u.order, a);
  }

  /** A sum is zero when every visited value contributes zero. */
  lemma {:induction false} SumOverZero(entries: map<string, VaultTransitionInner>, keys: seq<string>, a: Amount)
    requires forall k :: k in keys && k in entries ==> AmountOf(a, entries[k]) == 0.0
    ensures SumOver(entries, keys, a) == 0.0
  {
    if keys != [] {
      var n := |keys| - 1;
      assert forall k :: k in keys[..n] ==> k in keys;
      SumOverZero(entries, keys[..n], a);
    }
  }

  /** Without a liquidated vault the realized capital at risk is zero; so a non-zero
      realized amount means the `any` check is true. */
  lemma RealizedWithoutLiquidation(t: TransitionTable)
    ensures !AnyLiquidated(t) ==> Realized(t) == 0.0
  {
    if !AnyLiquidated(t) {
      SumOverZero(t.entries, t.order, Liquidation);
    }
  }

  // ---------------------------------------------------------------------------
  // One row's data point

  /** `secondPrice / firstPrice < 1.0` on doubles. A zero first price makes the quotient
      `+inf` (not below one), `-inf` (below one) or NaN (not below one) by the sign of
      the second price. */
  predicate PriceDropped(firstPrice: real, secondPrice: real)
  {
    if firstPrice == 0.0 then secondPrice < 0.0 else secondPrice / firstPrice < 1.0
  }

  /** For a positive first price, the test is that the price went down. */
  lemma PriceDroppedMeaning(firstPrice: real, secondPrice: real)
    ensures firstPrice > 0.0 ==> (PriceDropped(firstPrice, secondPrice) <==> secondPrice < firstPrice)
    ensures firstPrice < 0.0 ==> (PriceDropped(firstPrice, secondPrice) <==> secondPrice > firstPrice)
  {
    if firstPrice != 0.0 {
      var q := secondPrice / firstPrice;
      assert q * firstPrice == secondPrice;
      if firstPrice > 0.0 {
        assert q < 1.0 <==> q * firstPrice < firstPrice;
      } else {
        assert q < 1.0 <==> q * firstPrice > firstPrice;
      }
    }
  }

  function Abs(x: real): real
  {
    if x < 0.0 then -x else x
  }

  /** `maybeNan`, when the row is a valid data point: the deviation of the realized from
      the estimated capital at risk, relative to the estimate. A row counts only when
      the price dropped and the estimate is positive; over reals the quotient is never
      NaN, so the `is_nan` branch is unreachable here. */
  function Score(meta: BlockDiffMetadata, t: TransitionTable): (r: Option<real>)
    ensures r.Some? <==> PriceDropped(meta.firstPrice, meta.secondPrice) && Estimated(meta, t) > 0.0
    ensures r.Some? ==> r.value >= 0.0 && r.value * Estimated(meta, t) == Abs(Realized(t) - Estimated(meta, t))
    ensures r.Some? ==> (r.value == 0.0 <==> Realized(t) == Estimated(meta, t))
  {
    if PriceDropped(meta.firstPrice, meta.secondPrice) then
      var estimated := Estimated(meta, t);
      if estimated > 0.0 then Some(Abs(Realized(t) - estimated) / estimated) else None
    else None
  }

  // ---------------------------------------------------------------------------
  // The accumulators

  /** `dRatio` and `validDataPointCount`. */
  datatype Accumulator = Accumulator(dRatio: real, validDataPointCount: nat)

  const START := Accumulator(0.0, 0)

  /** `dRatio += maybeNan; validDataPointCount += 1` for a valid data point; nothing otherwise. */
  function Accumulate(acc: Accumulator, score: Option<real>): (r: Accumulator)
    ensures score.None? ==> r == acc
    ensures score.Some? ==> r.validDataPointCount == acc.validDataPointCount + 1 && r.dRatio == acc.dRatio + score.value
  {
    match score
    case None => acc
    case Some(d) => Accumulator(acc.dRatio + d, acc.validDataPointCount + 1)
  }

  /** The accumulators after a sequence of matched rows. */
  function Tally(rows: seq<VaultTransitionWithMetadata>): (acc: Accumulator)
    ensures acc.validDataPointCount <= |rows|
    ensures acc.dRatio >= 0.0
    ensures acc.validDataPointCount == 0 ==> acc.dRatio == 0.0
  {
    if rows == [] then START
    else
      var last := rows[|rows| - 1];
      Accumulate(Tally(rows[..|rows| - 1]), Score(last.meta, last.vaultTransition))
  }

  /** One more row adds its data point, if it has one. */
  lemma TallySnoc(rows: seq<VaultTransitionWithMetadata>, w: VaultTransitionWithMetadata)
    ensures Tally(rows + [w]) == Accumulate(Tally(rows), Score(w.meta, w.vaultTransition))
  {
    assert (rows + [w])[..|rows|] == rows;
  }

  /** Every row counts exactly when every row's price dropped with a positive estimate. */
  lemma {:induction false} TallyCountsAll(rows: seq<VaultTransitionWithMetadata>)
    ensures Tally(rows).validDataPointCount == |rows| <==>
            forall i :: 0 <= i < |rows| ==> Score(rows[i].meta, rows[i].vaultTransition).Some?
  {
    if rows != [] {
      var n := |rows| - 1;
      TallyCountsAll(rows[..n]);
      assert forall i :: 0 <= i < n ==> rows[..n][i] == rows[i];
    }
  }

  /** `dRatio / (validDataPointCount as f64) * 100.0`: the mean relative deviation in
      percent. With no valid data point the double division is `0.0 / 0.0`, NaN, which
      has no real value. */
  function Mean(acc: Accumulator): (r: Option<real>)
    ensures r.None? <==> acc.validDataPointCount == 0
    ensures r.Some? ==> r.value * acc.validDataPointCount as real == acc.dRatio * 100.0
    ensures r.Some? && acc.dRatio >= 0.0 ==> r.value >= 0.0
  {
    if acc.validDataPointCount == 0 then None
    else Some(acc.dRatio / acc.validDataPointCount as real * 100.0)
  }

  // ---------------------------------------------------------------------------
  // A worked row

  /** A vault with collateral 1 and debt 2, a liquidation ratio and rate of 1, and a
      price falling from 2 to 1: collateral worth 1 does not cover the debt of 2. */
  function ExampleVault(): SubgraphVault
  {
    SubgraphVault("v", "1", "2", None, None, None, None, "")
  }

  function ExampleMeta(): BlockDiffMetadata
  {
    BlockDiffMetadata("1", "10", 2.0, "1", "1", "2", "20", 1.0, "1", "1")
  }

  function ExampleTable(liquidated: bool): TransitionTable
  {
    var x := VaultTransitionInner(ExampleVault(), ExampleVault(), liquidated, if liquidated then Some(15) else None);
    TransitionTable(map["v" := x], ["v"])
  }

  /** The debt of 2 is estimated at risk. If the vault was not liquidated the deviation
      is the whole estimate, 1; if it was, the estimate was exact, 0. */
  lemma ExampleScores()
    ensures Estimated(ExampleMeta(), ExampleTable(false)) == 2.0
    ensures Score(ExampleMeta(), ExampleTable(false)) == Some(1.0)
    ensures Score(ExampleMeta(), ExampleTable(true)) == Some(0.0)
    ensures Mean(Tally([VaultTransitionWithMetadata(ExampleMeta(), ExampleTable(false)),
                        VaultTransitionWithMetadata(ExampleMeta(), ExampleTable(true))])) == Some(50.0)
  {
    ParseRealOfFormat(1);
    ParseRealOfFormat(2);
    assert FormatNat(1) == "1" && FormatNat(2) == "2";
    var keys := ["v"];
    assert keys[..0] == [];
    var rows := [VaultTransitionWithMetadata(ExampleMeta(), ExampleTable(false)),
                 VaultTransitionWithMetadata(ExampleMeta(), ExampleTable(true))];
    assert rows[..1][..0] == [];
  }
}
