/** One row of the dataset: the `ETH-A` lookups, the metadata, and the join of the two
    snapshots (src/bin/main.rs:166-253, src/main.rs:269-356), and the sequence of rows up
    to the first panic. */
module PairRow {
  import opened Wrappers
  import opened Numbers
  import opened Records
  import opened Panics
  import opened Matcher

  /** Which snapshot's timestamp closes the liquidation window. src/bin/main.rs uses the
      second snapshot's; src/main.rs parses the first snapshot's timestamp for both ends. */
  datatype WindowEnd = SecondSnapshot | FirstSnapshot

  /** `blockDiffMetadata`: each block's number, timestamp, price, rate and liquidation ratio. */
  function Metadata(firstBlock: string, secondBlock: string, first: VaultSet, second: VaultSet): BlockDiffMetadata
  {
    BlockDiffMetadata(firstBlock, first.timestamp, first.price.value, first.rate, first.liquidationRatio,
                      secondBlock, second.timestamp, second.price.value, second.rate, second.liquidationRatio)
  }

  /** The timestamps that open and close the liquidation window of a row. */
  function WindowEnds(first: VaultSet, second: VaultSet, window: WindowEnd): (string, string)
  {
    match window
    case SecondSnapshot => (first.timestamp, second.timestamp)
    case FirstSnapshot => (first.timestamp, first.timestamp)
  }

  /** The body of the `for index` loop up to `vaultTransitionWithMetadata`. Indexing a
      snapshot by `"ETH-A"` panics when the collateral type is absent. */
  function MatchRow(row: Data<Snapshot>, index: map<string, seq<u64>>, window: WindowEnd)
    : Result<VaultTransitionWithMetadata, Panic>
  {
    if COLLATERAL_TYPE !in row.vaultsAtFirstBlock || COLLATERAL_TYPE !in row.vaultsAtSecondBlock then
      Failure(MissingCollateralType)
    else
      var first := row.vaultsAtFirstBlock[COLLATERAL_TYPE];
      var second := row.vaultsAtSecondBlock[COLLATERAL_TYPE];
      var (openTs, closeTs) := WindowEnds(first, second, window);
      match Transitions(first.resultArray, index, ById(second.resultArray), openTs, closeTs)
      case Failure(e) => Failure(e)
      case Success(t) => Success(VaultTransitionWithMetadata(Metadata(row.firstBlock, row.secondBlock, first, second), t))
  }

  /** The row's code as written: `secondvaultsById` built by its loop, then the loop over
      the first snapshot's vaults. */
  method MatchPair(row: Data<Snapshot>, index: map<string, seq<u64>>, window: WindowEnd)
    returns (r: Result<VaultTransitionWithMetadata, Panic>)
    ensures r == MatchRow(row, index, window)
  {
    if COLLATERAL_TYPE !in row.vaultsAtFirstBlock || COLLATERAL_TYPE !in row.vaultsAtSecondBlock {
      return Failure(MissingCollateralType);
    }
    var first := row.vaultsAtFirstBlock[COLLATERAL_TYPE];
    var second := row.vaultsAtSecondBlock[COLLATERAL_TYPE];
    var meta := Metadata(row.firstBlock, row.secondBlock, first, second);
    var byId := IndexById(second.resultArray);
    var (openTs, closeTs) := WindowEnds(first, second, window);
    var table := MatchVaults(first.resultArray, index, byId, openTs, closeTs);
    match table
    case Failure(e) => r := Failure(e);
    case Success(t) => r := Success(VaultTransitionWithMetadata(meta, t));
  }

  /** A row panics exactly when a snapshot lacks `ETH-A`, or some eligible vault of the
      first snapshot is missing from the liquidation index or from the second snapshot. */
  lemma MatchRowFailure(row: Data<Snapshot>, index: map<string, seq<u64>>, window: WindowEnd)
    ensures MatchRow(row, index, window).Failure? <==>
            COLLATERAL_TYPE !in row.vaultsAtFirstBlock || COLLATERAL_TYPE !in row.vaultsAtSecondBlock ||
            AnyFails(row.vaultsAtFirstBlock[COLLATERAL_TYPE].resultArray, index,
                     ById(row.vaultsAtSecondBlock[COLLATERAL_TYPE].resultArray))
    ensures COLLATERAL_TYPE !in row.vaultsAtFirstBlock || COLLATERAL_TYPE !in row.vaultsAtSecondBlock ==>
            MatchRow(row, index, window) == Failure(MissingCollateralType)
  {
    if COLLATERAL_TYPE in row.vaultsAtFirstBlock && COLLATERAL_TYPE in row.vaultsAtSecondBlock {
      var first := row.vaultsAtFirstBlock[COLLATERAL_TYPE];
      var second := row.vaultsAtSecondBlock[COLLATERAL_TYPE];
      var (openTs, closeTs) := WindowEnds(first, second, window);
      var r := Transitions(first.resultArray, index, ById(second.resultArray), openTs, closeTs);
      assert MatchRow(row, index, window).Failure? <==> r.Failure?;
      TransitionsFailure(first.resultArray, index, ById(second.resultArray), openTs, closeTs);
      assert r.Failure? <==> AnyFails(first.resultArray, index, ById(second.resultArray));
    }
  }

  /** What a successful row holds: the metadata takes each block's own fields, the table
      has one entry per eligible first-snapshot vault id, and each entry joins that vault
      to the second-snapshot vault with the same id. */
  lemma MatchRowSuccess(row: Data<Snapshot>, index: map<string, seq<u64>>, window: WindowEnd)
    requires MatchRow(row, index, window).Success?
    ensures COLLATERAL_TYPE in row.vaultsAtFirstBlock && COLLATERAL_TYPE in row.vaultsAtSecondBlock
    ensures var w := MatchRow(row, index, window).value;
            var first := row.vaultsAtFirstBlock[COLLATERAL_TYPE];
            var second := row.vaultsAtSecondBlock[COLLATERAL_TYPE];
            && w.meta.firstBlock == row.firstBlock && w.meta.secondBlock == row.secondBlock
            && w.meta.firstTimestamp == first.timestamp && w.meta.secondTimestamp == second.timestamp
            && w.meta.firstPrice == first.price.value && w.meta.secondPrice == second.price.value
            && w.meta.firstRate == first.rate && w.meta.firstLiquidationRatio == first.liquidationRatio
            && w.meta.secondRate == second.rate && w.meta.secondLiquidationRatio == second.liquidationRatio
            && WellFormed(w.vaultTransition)
            && (forall id :: id in w.vaultTransition.entries <==>
                  exists k :: 0 <= k < |first.resultArray| && first.resultArray[k].id == id && Eligible(first.resultArray[k]))
            && (forall id :: id in w.vaultTransition.entries ==>
                  && w.vaultTransition.entries[id].first.id == id
                  && w.vaultTransition.entries[id].first in first.resultArray
                  && w.vaultTransition.entries[id].second.id == id
                  && w.vaultTransition.entries[id].second in second.resultArray)
  {
    var first := row.vaultsAtFirstBlock[COLLATERAL_TYPE];
    var second := row.vaultsAtSecondBlock[COLLATERAL_TYPE];
    var byId := ById(second.resultArray);
    var (openTs, closeTs) := WindowEnds(first, second, window);
    var t := Transitions(first.resultArray, index, byId, openTs, closeTs);
    TransitionsWellFormed(first.resultArray, index, byId, openTs, closeTs);
    TransitionsKeys(first.resultArray, index, byId, openTs, closeTs);
    TransitionsEntries(first.resultArray, index, byId, openTs, closeTs);
    forall id | id in t.value.entries
      ensures t.value.entries[id].first.id == id && t.value.entries[id].first in first.resultArray
      ensures t.value.entries[id].second.id == id && t.value.entries[id].second in second.resultArray
    {
      var k :| 0 <= k < |first.resultArray| && first.resultArray[k].id == id && Eligible(first.resultArray[k]) &&
               Transition(first.resultArray[k], index, byId, openTs, closeTs) == Success(t.value.entries[id]);
    }
  }

  /** In src/main.rs both window ends are the first snapshot's timestamp, and no number
      lies strictly between a number and itself: no transition is ever liquidated. */
  lemma OlderNeverLiquidated(row: Data<Snapshot>, index: map<string, seq<u64>>, id: string)
    requires MatchRow(row, index, FirstSnapshot).Success?
    requires id in MatchRow(row, index, FirstSnapshot).value.vaultTransition.entries
    ensures var x := MatchRow(row, index, FirstSnapshot).value.vaultTransition.entries[id];
            !x.liquidated && x.liquidationTimestamp == None
  {
    var first := row.vaultsAtFirstBlock[COLLATERAL_TYPE];
    var second := row.vaultsAtSecondBlock[COLLATERAL_TYPE];
    var byId := ById(second.resultArray);
    var ts := first.timestamp;
    var t := Transitions(first.resultArray, index, byId, ts, ts);
    TransitionsEntries(first.resultArray, index, byId, ts, ts);
    var k :| 0 <= k < |first.resultArray| && first.resultArray[k].id == id && Eligible(first.resultArray[k]) &&
             Transition(first.resultArray[k], index, byId, ts, ts) == Success(t.value.entries[id]);
    TransitionLiquidation(first.resultArray[k], index, byId, ts, ts);
    FindLiquidationEmptyWindow(index[id], ts);
  }

  // ---------------------------------------------------------------------------
  // The `for index in 0..dataset.len()` loop up to the first panic

  /** The rows matched before the first panic, and that panic if there was one. */
  datatype Matched = Matched(results: seq<VaultTransitionWithMetadata>, panic: Option<Panic>)

  function MatchAll(rows: seq<Data<Snapshot>>, index: map<string, seq<u64>>, window: WindowEnd): Matched
  {
    if rows == [] then Matched([], None)
    else
      var m := MatchAll(rows[..|rows| - 1], index, window);
      if m.panic.Some? then m
      else
        match MatchRow(rows[|rows| - 1], index, window)
        case Failure(e) => Matched(m.results, Some(e))
        case Success(w) => Matched(m.results + [w], None)
  }

  /** The `i`-th result is row `i` matched, every row before the panic matched, and the
      panic is that of the first row that did not. */
  lemma {:induction false} MatchAllResults(rows: seq<Data<Snapshot>>, index: map<string, seq<u64>>, window: WindowEnd)
    ensures var m := MatchAll(rows, index, window);
            && |m.results| <= |rows|
            && (m.panic.None? ==> |m.results| == |rows|)
            && (m.panic.Some? ==> |m.results| < |rows|)
            && (forall i :: 0 <= i < |m.results| ==> MatchRow(rows[i], index, window) == Success(m.results[i]))
            && (m.panic.Some? ==> MatchRow(rows[|m.results|], index, window) == Failure(m.panic.value))
  {
    if rows != [] {
      var n := |rows| - 1;
      var init := rows[..n];
      MatchAllResults(init, index, window);
      assert forall i :: 0 <= i < n ==> init[i] == rows[i];
      var prev := MatchAll(init, index, window);
      if prev.panic.None? {
        assert |prev.results| == n;
      }
    }
  }

  /** Matching one more row extends the results, unless an earlier row already panicked. */
  lemma MatchAllSnoc(rows: seq<Data<Snapshot>>, index: map<string, seq<u64>>, window: WindowEnd, i: nat)
    requires i < |rows|
    requires MatchAll(rows[..i], index, window).panic.None?
    ensures MatchAll(rows[..i + 1], index, window) ==
            match MatchRow(rows[i], index, window)
            case Failure(e) => Matched(MatchAll(rows[..i], index, window).results, Some(e))
            case Success(w) => Matched(MatchAll(rows[..i], index, window).results + [w], None)
  {
    assert rows[..i + 1][..i] == rows[..i];
  }

  /** After a panic, later rows change nothing: the program has stopped. */
  lemma {:induction false} MatchAllStops(rows: seq<Data<Snapshot>>, index: map<string, seq<u64>>, window: WindowEnd, i: nat)
    requires i <= |rows|
    requires MatchAll(rows[..i], index, window).panic.Some?
    ensures MatchAll(rows, index, window) == MatchAll(rows[..i], index, window)
    decreases |rows| - i
  {
    if i < |rows| {
      assert rows[..i + 1][..i] == rows[..i];
      MatchAllStops(rows, index, window, i + 1);
    } else {
      assert rows[..i] == rows;
    }
  }
}
