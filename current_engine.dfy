/** The current engine, `main` of src/bin/main.rs: the liquidation index, the block pairs
    less than 40000 blocks apart, and the deviation statistic over every pair. */
module CurrentEngine {
  import opened Wrappers
  import opened Numbers
  import opened Records
  import opened Panics
  import opened LiquidationIndex
  import opened BlockPairs
  import opened Matcher
  import opened PairRow
  import opened Metrics

  /** The three numbers the engine prints at the end. */
  datatype Summary = Summary(dRatio: real, validDataPointCount: nat, mean: Option<real>)

  /** The accumulators after every row of the dataset, or the panic that stops the loop. */
  function Statistic(dataset: seq<Data<Snapshot>>, index: map<string, seq<u64>>): Result<Accumulator, Panic>
  {
    var m := MatchAll(dataset, index, SecondSnapshot);
    match m.panic
    case Some(e) => Failure(e)
    case None => Success(Tally(m.results))
  }

  /** The engine from its inputs: the vault history, and each block's snapshot. */
  function Current(history: map<string, Vault>, store: map<string, Snapshot>, keys: seq<string>): Result<Summary, Panic>
    requires forall k :: k in keys ==> k in store
  {
    match LiquidationIndex.Index(history)
    case Failure(e) => Failure(e)
    case Success(index) =>
      match Statistic(Pairs(store, keys, Bounded(WINDOW_BLOCKS)), index)
      case Failure(e) => Failure(e)
      case Success(acc) => Success(Summary(acc.dRatio, acc.validDataPointCount, Mean(acc)))
  }

  /** The `for index in 0..dataset.len()` loop with its two running accumulators. */
  method Aggregate(dataset: seq<Data<Snapshot>>, index: map<string, seq<u64>>) returns (r: Result<Accumulator, Panic>)
    ensures r == Statistic(dataset, index)
  {
    var dRatio := 0.0;
    var validDataPointCount := 0;
    ghost var results := [];
    for i := 0 to |dataset|
      invariant MatchAll(dataset[..i], index, SecondSnapshot) == Matched(results, None)
      invariant Accumulator(dRatio, validDataPointCount) == Tally(results)
    {
      MatchAllSnoc(dataset, index, SecondSnapshot, i);
      var row := MatchPair(dataset[i], index, SecondSnapshot);
      if row.Failure? {
        MatchAllStops(dataset, index, SecondSnapshot, i + 1);
        return Failure(row.error);
      }
      var w := row.value;
      dRatio, validDataPointCount := AddDataPoint(dRatio, validDataPointCount, w);
      TallySnoc(results, w);
      results := results + [w];
    }
    assert dataset[..|dataset|] == dataset;
    r := Success(Accumulator(dRatio, validDataPointCount));
  }

  /** src/bin/main.rs:255-345 for one matched row: when the price dropped and the estimate
      is positive, add the relative deviation and count the data point. */
  method AddDataPoint(dRatio: real, validDataPointCount: nat, w: VaultTransitionWithMetadata)
    returns (dRatio': real, validDataPointCount': nat)
    ensures Accumulator(dRatio', validDataPointCount') ==
            Accumulate(Accumulator(dRatio, validDataPointCount), Score(w.meta, w.vaultTransition))
  {
    dRatio', validDataPointCount' := dRatio, validDataPointCount;
    if PriceDropped(w.meta.firstPrice, w.meta.secondPrice) {
      var estimated := Estimated(w.meta, w.vaultTransition);
      var realized := Realized(w.vaultTransition);
      if estimated > 0.0 {
        dRatio' := dRatio + Abs(realized - estimated) / estimated;
        validDataPointCount' := validDataPointCount + 1;
      }
    }
  }

  /** `main` after the files are read: `history` is the vault history, `ids` its keys in
      iteration order, `store` the snapshots by block number, `keys` its keys (`blocks_keys`). */
  method RunCurrent(history: map<string, Vault>, ids: seq<string>, store: map<string, Snapshot>, keys: seq<string>)
    returns (r: Result<Summary, Panic>)
    requires forall id :: id in history <==> id in ids
    requires forall k :: k in keys ==> k in store
    ensures r == Current(history, store, keys)
  {
    var index := BuildLiquidationIndex(history, ids);
    if index.Failure? {
      return Failure(index.error);
    }
    var dataset := EnumeratePairs(store, keys, Bounded(WINDOW_BLOCKS));
    var acc := Aggregate(dataset, index.value);
    if acc.Failure? {
      return Failure(acc.error);
    }
    var dRatioMean := Mean(acc.value);
    r := Success(Summary(acc.value.dRatio, acc.value.validDataPointCount, dRatioMean));
  }

  /** The engine panics exactly when a history entry has no vault, or some pair's row
      panics; the panic is that of the first such row in dataset order. */
  lemma CurrentFailure(history: map<string, Vault>, store: map<string, Snapshot>, keys: seq<string>)
    requires forall k :: k in keys ==> k in store
    requires LiquidationIndex.Index(history).Success?
    ensures var dataset := Pairs(store, keys, Bounded(WINDOW_BLOCKS));
            var index := LiquidationIndex.Index(history).value;
            && (Current(history, store, keys).Failure? <==>
                  exists p :: 0 <= p < |dataset| && MatchRow(dataset[p], index, SecondSnapshot).Failure?)
            && (Current(history, store, keys).Failure? ==>
                  exists p :: 0 <= p < |dataset| && MatchRow(dataset[p], index, SecondSnapshot).Failure? &&
                    Current(history, store, keys).error == MatchRow(dataset[p], index, SecondSnapshot).error &&
                    forall q :: 0 <= q < p ==> MatchRow(dataset[q], index, SecondSnapshot).Success?)
  {
    var dataset := Pairs(store, keys, Bounded(WINDOW_BLOCKS));
    var index := LiquidationIndex.Index(history).value;
    MatchAllResults(dataset, index, SecondSnapshot);
  }

  /** A finished run counts at most one data point per pair; its sum of deviations is not
      negative; it has a mean exactly when some pair counted, and the mean is not negative. */
  lemma CurrentSummaryBounds(history: map<string, Vault>, store: map<string, Snapshot>, keys: seq<string>)
    requires forall k :: k in keys ==> k in store
    requires Current(history, store, keys).Success?
    ensures var s := Current(history, store, keys).value;
            && s.validDataPointCount <= |Pairs(store, keys, Bounded(WINDOW_BLOCKS))|
            && s.dRatio >= 0.0
            && (s.mean.None? <==> s.validDataPointCount == 0)
            && (s.mean.Some? ==> s.mean.value >= 0.0)
  {
    var index := LiquidationIndex.Index(history).value;
    MatchAllResults(Pairs(store, keys, Bounded(WINDOW_BLOCKS)), index, SecondSnapshot);
  }
}
