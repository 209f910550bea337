# rust-subgraph-tools in Dafny

rust-subgraph-tools has two batch programs over the same MakerDAO vault data. Both read a vault history (every vault's event logs) and one snapshot per block: the `ETH-A` vaults, price, rate and liquidation ratio at that block. This project models their logic and proves what it promises:

- **The current engine** (`main` of `src/bin/main.rs`) builds a per-vault index of liquidation-start timestamps. It enumerates every ordered pair of blocks less than 40000 blocks apart. For each pair it joins the first snapshot's vaults to the second snapshot's by id, and marks a vault liquidated when an indexed timestamp falls strictly between the two snapshot times. It then folds a statistic: how far the *realized* capital at risk (debt of liquidated vaults) is from the *estimated* one (debt not covered at the new price), over pairs whose price dropped. At the end it computes the mean in percent.
- **The older engine** (`main` of `src/main.rs`) builds the same index and the same join. Its pairs have no window bound, and both ends of its liquidation window are the first snapshot's timestamp. Instead of a statistic, it writes the rows in files of 100, named `result-{lo}-{hi}.json`.
- **The shared record types** (`src/json_structure.rs`) include a price decoder, `StringOrF64`, which accepts a JSON number or a numeric string.

Modules, one per file:

| module | file | models |
|---|---|---|
| `Wrappers` | wrappers.dfy | `Option`, `Result` |
| `Numbers` | numbers.dfy | `u64`, `str::parse::<u64>`, `str::parse::<f64>` (a decimal scanner over exact reals), `format!("{}")` of a number |
| `Records` | records.dfy | the structs of `src/json_structure.rs`, `HashMap::insert` on the transition map, the `StringOrF64` visitor |
| `Panics` | panics.dfy | the four lookups that can panic, as values |
| `LiquidationIndex` | liquidation_index.dfy | `liquidationTimestampListByVault` |
| `BlockPairs` | block_pairs.dfy | the nested loops that build `dataset` |
| `Matcher` | matcher.dfy | eligibility, the `find` search, `secondvaultsById`, the `for j` loop building `vaultTransition` |
| `PairRow` | pair_row.dfy | one row of the dataset, and all rows up to the first panic |
| `Metrics` | metrics.dfy | estimated and realized sums, the price-drop test, `dRatio`, `validDataPointCount`, the mean |
| `CurrentEngine` | current_engine.dfy | `main` of `src/bin/main.rs` |
| `OlderEngine` | older_engine.dfy | `main` of `src/main.rs`, with its 100-row buffer and file names |

Modelling choices:

- **Loops.** Each loop of the source is a `method` with its loop and invariants. The method is proved equal to a specification function: `BuildLiquidationIndex`, `EnumeratePairs`, `IndexById`, `MatchVaults`, `MatchPair`, `Aggregate`, `Batch`. The properties are lemmas about those functions.
- **Panics.** A Rust panic is a `Failure(Panic)` result that ends the run. The older engine returns the files it wrote before the panic.
- **Hash maps** are Dafny maps.
  - `HashMap::keys` and `values` visit in an order Rust does not specify. For the maps being iterated, that order is a parameter (`ids`, `keys`).
  - The transition map keeps its keys in first-insertion order, so that the floating sums have an order. `SumIgnoresOrder` proves that any order gives the same sum.
- **Numbers** are exact reals. `str::parse::<f64>` is the decimal grammar Rust accepts: sign, digits, point, exponent. `inf` and `nan` have no real value.

Quirks of the code that the model keeps:

- Both engines parse `debt` from the vault's `collateral` text (src/bin/main.rs:206, src/main.rs:309). So eligibility is "collateral parses and is positive".
- The estimate uses the first block's liquidation ratio and rate with the second block's price (src/bin/main.rs:270-279).
- The older engine parses the window's closing timestamp from `firstTimestamp` (src/main.rs:320). So no transition it writes is ever liquidated.
- The older engine never writes the rows left in its buffer when the loop ends.

## Model

| member | source | states |
|---|---|---|
| Numbers.FormatNat | src/main.rs:365-369 | The decimal text of a number is non-empty and digits only, spells that number, and starts with `0` only for zero |
| Numbers.DigitsValueCorrect | src/bin/main.rs:134-135 | The digit reader accepts exactly the non-empty all-digit strings, and yields their decimal value |
| Numbers.ParseFormatU64 | src/bin/main.rs:134-135 | Parsing the decimal text of a `u64` gives it back |
| Numbers.ParseU64RejectsMinus | src/bin/main.rs:134-137 | A key starting with `-` never parses as a block number |
| Numbers.ParseU64ThenParseReal | src/json_structure.rs:51-66 | Text that parses as a `u64` parses as an `f64` with the same value, so `visit_str` and `visit_u64` agree on it |
| Records.EmptyTableWellFormed | src/bin/main.rs:196 | The fresh transition map is empty, and its visiting order lists every key once |
| Records.InsertWellFormed | src/bin/main.rs:226-242 | `insert` adds the key or replaces its value, and leaves every other key's value unchanged. The key order stays duplicate-free and complete, and grows only for a new key |
| Records.DecodeStringOrF64 | src/json_structure.rs:37-69 | A float decodes to itself and an unsigned integer to its value. A string decodes iff it parses as a float, to the parsed value, and otherwise fails with "failed to parse f64". Every other JSON kind is rejected with an invalid-type error expecting "f64 or string" |
| Records.EncodeStringOrF64 | src/json_structure.rs:26-28 | The transparent wrapper serialises as a bare number |
| Records.DecodeEncode | src/json_structure.rs:26-49 | Decoding what was serialised gives back the same price |
| Records.DecodeStringAgreesWithNumber | src/json_structure.rs:58-66 | A numeric string decodes to the same price as the number it spells |
| LiquidationIndex.LiquidationStartLogs | src/bin/main.rs:103 | The filter keeps exactly the logs tagged `liquidationStartLog`, and nothing else |
| LiquidationIndex.LiquidationTimestampsAppend | src/bin/main.rs:100-105 | An entry keeps log order: the entry of two concatenated log lists is the first list's entry followed by the second's |
| LiquidationIndex.LiquidationTimestampsSingle | src/bin/main.rs:103-104 | A log contributes its timestamp iff it is a liquidation start whose timestamp parses; otherwise it is dropped |
| LiquidationIndex.LiquidationTimestampsMembers | src/bin/main.rs:100-105 | A timestamp is in a vault's entry iff some liquidation-start log of the vault has text that parses to it |
| LiquidationIndex.Index | src/bin/main.rs:97-107 | The index succeeds iff every history entry has a first vault, and then holds exactly the history's ids. An empty vault list is the `vaults[0]` panic |
| LiquidationIndex.BuildLiquidationIndex | src/bin/main.rs:98-107 | The insert loop over the ids, visited in any order, builds the index, or panics when an entry has no vault |
| BlockPairs.EnumeratePairs | src/bin/main.rs:128-155 | The nested loops push exactly the pair sequence `Pairs` |
| BlockPairs.PairsAsIndices | src/bin/main.rs:129-155 | The dataset is the emitted index pairs, each turned into its `Data`, and every index is in range |
| BlockPairs.PairIndicesComplete | src/bin/main.rs:129-155 | Every ordered index pair whose keys parse and pass the test is emitted |
| BlockPairs.PairIndicesSorted | src/bin/main.rs:129-155 | Pairs come out strictly ordered by outer index, then inner index, so none repeats |
| BlockPairs.PairIndicesSound | src/bin/main.rs:134-141 | Every emitted pair has both keys parsing as `u64`, with `a < b` and `b - a` below the window. `b - a` is taken only once `a < b`, so it never underflows |
| BlockPairs.PairsSound | src/bin/main.rs:129-149 | Every `Data` holds two keys of the store, the snapshots stored under them, and block numbers passing the test |
| BlockPairs.PairsExactlyOnce | src/bin/main.rs:129-155 | With distinct keys, every admissible key pair appears in the dataset exactly once |
| BlockPairs.BoundedPairsAreUnbounded | src/main.rs:242-265 | The current engine's pairs are among the older engine's, which only require `a < b` |
| BlockPairs.ExampleWindowBounded | src/bin/main.rs:138-139 | Blocks 100, 139000 and 200000 lie more than 40000 apart, so the current engine pairs none of them |
| BlockPairs.ExampleWindowUnbounded | src/main.rs:251 | The older engine pairs the same three blocks in all three increasing ways, in loop order |
| Matcher.EligibleIffCollateralPositive | src/bin/main.rs:205-209 | A vault gets a transition iff its collateral text parses to a positive number |
| Matcher.EligibleIgnoresDebt | src/bin/main.rs:205-206 | The debt text plays no part in eligibility, because `debt` is parsed from `collateral` |
| Matcher.FindLiquidation | src/bin/main.rs:212-225 | `find` returns nothing iff no element lies strictly inside the window. Otherwise it returns the first element, in list order, that does |
| Matcher.FindLiquidationUnparsed | src/bin/main.rs:216-223 | If either window end does not parse, nothing is found |
| Matcher.FindLiquidationEmptyWindow | src/main.rs:319-324 | A window from a timestamp to itself finds nothing |
| Matcher.ExampleFindLiquidation | src/bin/main.rs:212-225 | With snapshot times 1000 and 2000, `[500, 1500, 2500]` finds 1500 and `[500, 2500]` finds nothing |
| Matcher.ById | src/bin/main.rs:198-201 | `secondvaultsById` has exactly the ids of the second snapshot's vaults, each mapped to a vault with that id |
| Matcher.ByIdLastWins | src/bin/main.rs:198-201 | Among second-snapshot vaults sharing an id, the last one is kept |
| Matcher.IndexById | src/bin/main.rs:198-201 | The insert loop builds `ById` |
| Matcher.Transition | src/bin/main.rs:210-241 | An eligible vault panics iff its id is missing from the index or from the second snapshot, with the index lookup checked first. Otherwise it pairs the vault with the second snapshot's vault of the same id |
| Matcher.TransitionLiquidation | src/bin/main.rs:226-241 | `liquidated` iff `liquidationTimestamp` is present, iff some indexed timestamp lies in the window. The timestamp is the first such one |
| Matcher.TransitionsWellFormed | src/bin/main.rs:196-247 | The transition map built by the loop lists every key once in its visiting order |
| Matcher.TransitionsFailure | src/bin/main.rs:203-247 | The loop panics iff some eligible vault misses the index or the second snapshot. The panic is the first such vault's |
| Matcher.StepEntries | src/bin/main.rs:207-246 | One turn skips an ineligible vault, and inserts an eligible vault's transition under its id |
| Matcher.TransitionsContains | src/bin/main.rs:203-246 | Every eligible vault's id is a key of the result |
| Matcher.TransitionsKeys | src/bin/main.rs:203-247 | The keys are exactly the ids of the eligible vaults; ineligible vaults add nothing |
| Matcher.TransitionsLastWins | src/bin/main.rs:226-242 | The entry under an id is the transition of the last eligible vault with that id |
| Matcher.TransitionsEntries | src/bin/main.rs:203-247 | Every entry is the transition of some eligible vault with that id |
| Matcher.MatchVaults | src/bin/main.rs:203-247 | The `for j` loop computes `Transitions`, stopping at the first panic |
| Matcher.PanicPersists | src/bin/main.rs:203-247 | Once the loop has panicked, later vaults change nothing |
| PairRow.MatchPair | src/bin/main.rs:167-253 | The row's code, with its two loops, computes `MatchRow` |
| PairRow.MatchRowFailure | src/bin/main.rs:170-247 | A row panics iff a snapshot lacks `ETH-A`, or some eligible vault misses the index or the second snapshot. A missing `ETH-A` is that panic |
| PairRow.MatchRowSuccess | src/bin/main.rs:183-253 | All ten metadata fields (block, timestamp, price, rate and liquidation ratio of each block) come from that block's own snapshot. The table is well formed, has one key per eligible first-snapshot id, and joins each to the same id in the second snapshot |
| PairRow.OlderNeverLiquidated | src/main.rs:318-344 | With both window ends parsed from `firstTimestamp`, no transition is liquidated and none has a timestamp |
| PairRow.MatchAllResults | src/bin/main.rs:166-253 | The rows processed are the dataset's, in order, up to the first panic, which is that row's panic. Without a panic, every row is processed |
| Metrics.AtRiskDebtSources | src/bin/main.rs:268-279 | The estimate reads only the first block's liquidation ratio and rate, and the second block's price |
| Metrics.AtRiskDebtIsDebtOrZero | src/bin/main.rs:267-290 | A vault adds its debt or 0. It adds something other than 0 only when every text parses and `collateral * secondPrice` does not exceed `debt * ratio * rate` |
| Metrics.AtRiskDebtUncovered | src/bin/main.rs:267-286 | Conversely, a vault whose texts all parse and whose `collateral * secondPrice` does not exceed `debt * ratio * rate` adds exactly its debt |
| Metrics.SumIgnoresOrder | src/bin/main.rs:263-310 | The sums over `values()` do not depend on the order the keys are visited in |
| Metrics.RealizedWithoutLiquidation | src/bin/main.rs:294-317 | With no liquidated vault, realized capital at risk is 0 |
| Metrics.PriceDroppedMeaning | src/bin/main.rs:256-261 | For a positive first price, `secondPrice / firstPrice < 1` iff the price went down |
| Metrics.Score | src/bin/main.rs:256-345 | A row is a data point iff the price dropped and the estimate is positive. Its value `d` is non-negative, with `d * estimated == abs(realized - estimated)`, and is 0 iff the two amounts are equal |
| Metrics.Accumulate | src/bin/main.rs:327-345 | A data point adds its value to `dRatio` and exactly 1 to `validDataPointCount`; any other row changes neither |
| Metrics.Tally | src/bin/main.rs:164-350 | The count is at most the number of rows, and `dRatio` is non-negative. No counted row means `dRatio` is 0 |
| Metrics.TallyCountsAll | src/bin/main.rs:327-345 | Every row counts iff every row is a data point |
| Metrics.Mean | src/bin/main.rs:351 | There is a mean iff some row counted. It satisfies `mean * count == dRatio * 100`, and is non-negative |
| Metrics.ExampleScores | src/bin/main.rs:263-351 | A debt of 2 falls uncovered as the price halves. Not liquidated, the deviation is 1; liquidated, 0; the mean over both rows is 50 |
| CurrentEngine.Aggregate | src/bin/main.rs:163-350 | The `for index` loop with its two accumulators computes `Statistic`, stopping at the first panic |
| CurrentEngine.AddDataPoint | src/bin/main.rs:255-345 | One row adds its data point, if it has one |
| CurrentEngine.RunCurrent | src/bin/main.rs:94-355 | `main` computes `Current`: index, windowed pairs, statistic, mean |
| CurrentEngine.CurrentFailure | src/bin/main.rs:166-253 | With a good index, the engine panics iff some pair's row panics. The panic is the first such row's |
| CurrentEngine.CurrentSummaryBounds | src/bin/main.rs:327-351 | At most one data point per pair, a non-negative `dRatio`, a mean iff some pair counted, and a non-negative mean |
| OlderEngine.Chunks | src/main.rs:359-373 | One file is written per full hundred rows |
| OlderEngine.Unwritten | src/main.rs:269-375 | The buffer left at the end holds the last `n % 100` rows |
| OlderEngine.CompleteChunk | src/main.rs:359-373 | Row `i` with `i % 100 == 99` adds file `result-{i-99}-{i}.json`, holding the buffer plus that row, and empties the buffer |
| OlderEngine.BufferRow | src/main.rs:357-359 | Any other row is only added to the buffer |
| OlderEngine.BatchedIsChunks | src/main.rs:267-375 | Pushing the rows one by one writes exactly `Chunks` and leaves exactly `Unwritten` |
| OlderEngine.Batch | src/main.rs:267-375 | The `for index` loop with its buffer writes the files and leaves the buffer, stopping at the first panic |
| OlderEngine.PushRow | src/main.rs:357-374 | One matched row is pushed to the buffer; at a row index `i` with `i % 100 == 99` the buffer, that row included, becomes file `result-{i-99}-{i}.json` and the buffer is emptied (`Push`, whose meaning `CompleteChunk` and `BufferRow` state) |
| OlderEngine.RunOlder | src/main.rs:208-375 | `main` computes `Older`: index, unbounded pairs, files and remaining buffer |
| OlderEngine.ChunksContiguous | src/main.rs:359-373 | File `c` holds exactly rows `100c` to `100c + 99`, so each file has 100 rows. Each file starts where the previous one ended |
| OlderEngine.ChunksCover | src/main.rs:267-375 | Written rows, in order, plus the unwritten buffer make up all rows. Fewer than 100 rows are never written |
| OlderEngine.ChunkPathInjective | src/main.rs:365-369 | Different row ranges get different file names |
| OlderEngine.ChunkPathsDistinct | src/main.rs:365-372 | No file of a run overwrites another |
| OlderEngine.ExampleChunkPath | src/main.rs:365-369 | Rows 100 to 199 go to `../subgraph-tools/data/result/result-100-199.json` |
| OlderEngine.MatchedNeverLiquidated | src/main.rs:315-344 | No row the older engine matches records a liquidation |
| OlderEngine.OlderWritesNoLiquidation | src/main.rs:318-372 | No row in a written file records a liquidation |

## Left out

- Reading the input files (`read_dir`, `read_vault_history_from_file`, `read_vault_set_from_file`) is not modelled; the engines take the parsed history and snapshots as parameters. This includes the `unwrap` of a failed history read and the silent stop when the snapshot directory cannot be read. `src/bin/analyze.rs` is not part of this model.
- Serialising the rows to JSON and `fs::write` are not modelled; a written file is its row range and its rows. The `expect` on a failed write is not modelled.
- A snapshot file that fails to decode is not modelled. This includes a price that `Records.DecodeStringOrF64` rejects, such as a negative JSON integer or a non-numeric string. Such a file makes `read_dir` return an error through `?` (src/bin/main.rs:79, src/main.rs:194). `main` then skips the whole analysis and produces no output (src/bin/main.rs:112, src/main.rs:227). The engines here start from snapshots that all decoded, so nothing links the decoder's `Failure` to a run.
- serde_json's text parser is not modelled; `Records.DecodeStringOrF64` starts from the JSON value it hands to the visitor.
- IEEE-754 doubles are modelled as exact reals: no rounding, infinities or NaN. So the `is_nan` branch (src/bin/main.rs:330) cannot be reached and is not modelled. `Numbers.ParseReal` does not accept `inf`, `infinity` or `nan`.
- `Metrics.PriceDropped` states division by a zero first price by the sign of the second price, as Rust does for `+0.0`. Signed zero is not modelled. With a first price of `-0.0` and a positive second price, Rust computes `-inf < 1` and counts the price as dropped, but `PriceDropped(0.0, p)` is false.
- Metrics.Mean: with no data point Rust divides 0.0 by 0.0 and prints NaN; the model returns `None`.
- Metrics.Accumulate: does not model the overflow of the `u32` `validDataPointCount` past 4294967295 data points; the count is a `nat`.
- Metrics.SumIgnoresOrder: proved over exact reals. Floating addition is not associative, so Rust's sums can differ in their last bits between hash orders.
- The price passes through `to_string` into the metadata, and is parsed back at src/bin/main.rs:256-257. This round trip is taken as the identity, so the metadata holds the price as a number and that parse never fails.
- Timing (`Instant`), every `println!`, and the debug lookups at the end of both `main`s (src/bin/main.rs:364-367, src/main.rs:380-387) are not modelled. The only effect of those lookups would be a panic after all work is done.
- Panics carry no vault id or key, as Rust's messages for a missing map key do not either.
