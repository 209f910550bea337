/** The older engine, `main` of src/main.rs: the same index and join over every ordered
    block pair, with rows written out in files of 100 instead of aggregated. */
module OlderEngine {
  import opened Wrappers
  import opened Numbers
  import opened Records
  import opened Panics
  import opened LiquidationIndex
  import opened BlockPairs
  import opened Matcher
  import opened PairRow

  /** `splitFileCount`: rows per written file. */
  const SPLIT_FILE_COUNT: nat := 100

  /** One `fs::write`: the indices of its first and last row, which name the file, and
      the rows it holds (serialising them to JSON is not modelled). */
  datatype ChunkFile = ChunkFile(lo: nat, hi: nat, contents: seq<VaultTransitionWithMetadata>)
  {
    /** The name the file is written under. */
    function Path(): string
    {
      ChunkPath(lo, hi)
    }
  }

  const RESULT_PREFIX := "../subgraph-tools/data/result/result-"

  /** `format!("../subgraph-tools/data/result/result-{}-{}.json", lo, hi)`. */
  function ChunkPath(lo: nat, hi: nat): string
  {
    RESULT_PREFIX + (FormatNat(lo) + ("-" + (FormatNat(hi) + ".json")))
  }

  /** The `c`-th file written: rows `100 * c` to `100 * c + 99`. */
  function ChunkAt(rows: seq<VaultTransitionWithMetadata>, c: nat): ChunkFile
    requires SPLIT_FILE_COUNT * (c + 1) <= |rows|
  {
    var lo := SPLIT_FILE_COUNT * c;
    var hi := lo + SPLIT_FILE_COUNT - 1;
    ChunkFile(lo, hi, rows[lo..hi + 1])
  }

  /** The first `k` files written. */
  function ChunksUpTo(rows: seq<VaultTransitionWithMetadata>, k: nat): (files: seq<ChunkFile>)
    requires SPLIT_FILE_COUNT * k <= |rows|
    ensures |files| == k
  {
    if k == 0 then [] else ChunksUpTo(rows, k - 1) + [ChunkAt(rows, k - 1)]
  }

  /** Every file written for a run that produced `rows`: one per full hundred. */
  function Chunks(rows: seq<VaultTransitionWithMetadata>): (files: seq<ChunkFile>)
    ensures |files| == |rows| / SPLIT_FILE_COUNT
  {
    ChunksUpTo(rows, |rows| / SPLIT_FILE_COUNT)
  }

  /** The `c`-th file is the `c`-th hundred. */
  lemma {:induction false} ChunksUpToAt(rows: seq<VaultTransitionWithMetadata>, k: nat, c: nat)
    requires SPLIT_FILE_COUNT * k <= |rows| && c < k
    ensures ChunksUpTo(rows, k)[c] == ChunkAt(rows, c)
  {
    if c < k - 1 {
      ChunksUpToAt(rows, k - 1, c);
    }
  }

  /** Files already complete do not change when rows are added after them. */
  lemma {:induction false} ChunksUpToExtend(rows: seq<VaultTransitionWithMetadata>, longer: seq<VaultTransitionWithMetadata>, k: nat)
    requires |rows| <= |longer| && rows == longer[..|rows|]
    requires SPLIT_FILE_COUNT * k <= |rows|
    ensures ChunksUpTo(longer, k) == ChunksUpTo(rows, k)
  {
    if k > 0 {
      ChunksUpToExtend(rows, longer, k - 1);
      var lo := SPLIT_FILE_COUNT * (k - 1);
      assert longer[lo..lo + SPLIT_FILE_COUNT] == rows[lo..lo + SPLIT_FILE_COUNT];
    }
  }

  /** The rows after the last full hundred: the buffer when the loop ends, never written. */
  function Unwritten(rows: seq<VaultTransitionWithMetadata>): (tail: seq<VaultTransitionWithMetadata>)
    ensures |tail| == |rows| % SPLIT_FILE_COUNT
  {
    rows[SPLIT_FILE_COUNT * (|rows| / SPLIT_FILE_COUNT)..]
  }

  /** What the run leaves behind: the files written, the rows still buffered, and the
      panic that stopped it, if one did. */
  datatype Outcome = Outcome(files: seq<ChunkFile>, unwritten: seq<VaultTransitionWithMetadata>, panic: Option<Panic>)

  /** The engine from its inputs: the vault history, and each block's snapshot. */
  function Older(history: map<string, Vault>, store: map<string, Snapshot>, keys: seq<string>): Outcome
    requires forall k :: k in keys ==> k in store
  {
    match LiquidationIndex.Index(history)
    case Failure(e) => Outcome([], [], Some(e))
    case Success(index) =>
      var m := MatchAll(Pairs(store, keys, Unbounded), index, FirstSnapshot);
      Outcome(Chunks(m.results), Unwritten(m.results), m.panic)
  }

  // ---------------------------------------------------------------------------
  // The loop

  /** src/main.rs:357-374 as a function: push the row with index `index`, and when it is
      the last of a hundred write the buffer as rows `index - 99` to `index` and empty it.
      The subtraction cannot underflow, since `index % 100 == 99` implies `index >= 99`. */
  function Push(files: seq<ChunkFile>, buffer: seq<VaultTransitionWithMetadata>, index: nat,
                w: VaultTransitionWithMetadata): (seq<ChunkFile>, seq<VaultTransitionWithMetadata>)
  {
    if index % SPLIT_FILE_COUNT == SPLIT_FILE_COUNT - 1 then
      var lo := index - (SPLIT_FILE_COUNT - 1);
      (files + [ChunkFile(lo, index, buffer + [w])], [])
    else
      (files, buffer + [w])
  }

  /** The files and the buffer after pushing `rows`, one at a time, from nothing. */
  function Batched(rows: seq<VaultTransitionWithMetadata>): (seq<ChunkFile>, seq<VaultTransitionWithMetadata>)
  {
    if rows == [] then ([], [])
    else
      var prev := Batched(rows[..|rows| - 1]);
      Push(prev.0, prev.1, |rows| - 1, rows[|rows| - 1])
  }

  lemma BatchedSnoc(rows: seq<VaultTransitionWithMetadata>, w: VaultTransitionWithMetadata)
    ensures Batched(rows + [w]) == Push(Batched(rows).0, Batched(rows).1, |rows|, w)
  {
    assert (rows + [w])[..|rows|] == rows;
  }

  /** Row `i` ends a hundred only once there have been a hundred rows. */
  lemma LastOfHundred(i: int)
    requires i >= 0 && i % SPLIT_FILE_COUNT == SPLIT_FILE_COUNT - 1
    ensures i >= SPLIT_FILE_COUNT - 1
  {
  }

  /** A row that completes a hundred completes a file: rows `100 * n` to `100 * n + 99`. */
  lemma CompleteChunk(rows: seq<VaultTransitionWithMetadata>, w: VaultTransitionWithMetadata)
    requires |rows| % SPLIT_FILE_COUNT == SPLIT_FILE_COUNT - 1
    ensures var i := |rows|;
            && Chunks(rows + [w]) == Chunks(rows) + [ChunkFile(i - (SPLIT_FILE_COUNT - 1), i, Unwritten(rows) + [w])]
            && Unwritten(rows + [w]) == []
  {
    var longer := rows + [w];
    var n := |rows| / SPLIT_FILE_COUNT;
    var lo := SPLIT_FILE_COUNT * n;
    assert |rows| == lo + SPLIT_FILE_COUNT - 1;
    assert |longer| / SPLIT_FILE_COUNT == n + 1;
    assert longer[..|rows|] == rows;
    ChunksUpToExtend(rows, longer, n);
    assert longer[lo..lo + SPLIT_FILE_COUNT] == rows[lo..] + [w];
  }

  /** Any other row stays in the buffer. */
  lemma BufferRow(rows: seq<VaultTransitionWithMetadata>, w: VaultTransitionWithMetadata)
    requires |rows| % SPLIT_FILE_COUNT != SPLIT_FILE_COUNT - 1
    ensures Chunks(rows + [w]) == Chunks(rows)
    ensures Unwritten(rows + [w]) == Unwritten(rows) + [w]
  {
    var longer := rows + [w];
    var n := |rows| / SPLIT_FILE_COUNT;
    assert |longer| / SPLIT_FILE_COUNT == n;
    assert longer[..|rows|] == rows;
    ChunksUpToExtend(rows, longer, n);
    assert longer[SPLIT_FILE_COUNT * n..] == rows[SPLIT_FILE_COUNT * n..] + [w];
  }

  /** Pushing the rows one by one writes exactly `Chunks` and leaves exactly `Unwritten`. */
  lemma {:induction false} BatchedIsChunks(rows: seq<VaultTransitionWithMetadata>)
    ensures Batched(rows) == (Chunks(rows), Unwritten(rows))
  {
    if rows != [] {
      var init := rows[..|rows| - 1];
      var w := rows[|rows| - 1];
      BatchedIsChunks(init);
      assert init + [w] == rows;
      if |init| % SPLIT_FILE_COUNT == SPLIT_FILE_COUNT - 1 {
        CompleteChunk(init, w);
      } else {
        BufferRow(init, w);
      }
    }
  }

  /** The `for index in 0..dataset.len()` loop of src/main.rs: push each matched row into
      `vaultTransitionSet`, and on every hundredth row write the buffer out and empty it.
      The loop ends at the first panic, having written what it wrote. */
  method Batch(dataset: seq<Data<Snapshot>>, index: map<string, seq<u64>>)
    returns (files: seq<ChunkFile>, vaultTransitionSet: seq<VaultTransitionWithMetadata>, panic: Option<Panic>)
    ensures var m := MatchAll(dataset, index, FirstSnapshot);
            (files, vaultTransitionSet) == Batched(m.results) && panic == m.panic
  {
    files := [];
    vaultTransitionSet := [];
    ghost var results := [];
    for i := 0 to |dataset|
      invariant MatchAll(dataset[..i], index, FirstSnapshot) == Matched(results, None)
      invariant |results| == i
      invariant (files, vaultTransitionSet) == Batched(results)
    {
      MatchAllSnoc(dataset, index, FirstSnapshot, i);
      var row := MatchPair(dataset[i], index, FirstSnapshot);
      if row.Failure? {
        MatchAllStops(dataset, index, FirstSnapshot, i + 1);
        return files, vaultTransitionSet, Some(row.error);
      }
      files, vaultTransitionSet := PushRow(files, vaultTransitionSet, i, row.value);
      BatchedSnoc(results, row.value);
      results := results + [row.value];
    }
    assert dataset[..|dataset|] == dataset;
    panic := None;
  }

  /** The body of the loop after the match: src/main.rs:357-374. */
  method PushRow(files: seq<ChunkFile>, vaultTransitionSet: seq<VaultTransitionWithMetadata>, index: nat,
                 w: VaultTransitionWithMetadata)
    returns (files': seq<ChunkFile>, vaultTransitionSet': seq<VaultTransitionWithMetadata>)
    ensures (files', vaultTransitionSet') == Push(files, vaultTransitionSet, index, w)
  {
    files', vaultTransitionSet' := files, vaultTransitionSet + [w];
    if index % SPLIT_FILE_COUNT == SPLIT_FILE_COUNT - 1 {
      LastOfHundred(index);
      var lo := index - (SPLIT_FILE_COUNT - 1);
      files' := files' + [ChunkFile(lo, index, vaultTransitionSet')];
      vaultTransitionSet' := [];
    }
  }

  /** `main` after the files are read: `history` is the vault history, `ids` its keys in
      iteration order, `store` the snapshots by block number, `keys` its keys. */
  method RunOlder(history: map<string, Vault>, ids: seq<string>, store: map<string, Snapshot>, keys: seq<string>)
    returns (r: Outcome)
    requires forall id :: id in history <==> id in ids
    requires forall k :: k in keys ==> k in store
    ensures r == Older(history, store, keys)
  {
    var index := BuildLiquidationIndex(history, ids);
    if index.Failure? {
      return Outcome([], [], Some(index.error));
    }
    var dataset := EnumeratePairs(store, keys, Unbounded);
    var files, buffer, panic := Batch(dataset, index.value);
    BatchedIsChunks(MatchAll(dataset, index.value, FirstSnapshot).results);
    r := Outcome(files, buffer, panic);
  }

  // ---------------------------------------------------------------------------
  // What is written

  /** Each file holds exactly 100 rows, `lo` to `hi = lo + 99`; the files start at row 0
      and each begins where the previous one ended. */
  lemma ChunksContiguous(rows: seq<VaultTransitionWithMetadata>, c: nat)
    requires c < |Chunks(rows)|
    ensures var f := Chunks(rows)[c];
            && f.lo == SPLIT_FILE_COUNT * c
            && f.hi == f.lo + SPLIT_FILE_COUNT - 1
            && |f.contents| == SPLIT_FILE_COUNT
            && f.contents == rows[f.lo..f.hi + 1]
    ensures c + 1 < |Chunks(rows)| ==> Chunks(rows)[c + 1].lo == Chunks(rows)[c].hi + 1
  {
    ChunksUpToAt(rows, |rows| / SPLIT_FILE_COUNT, c);
    if c + 1 < |Chunks(rows)| {
      ChunksUpToAt(rows, |rows| / SPLIT_FILE_COUNT, c + 1);
    }
  }

  /** All written rows, file after file. */
  function Flatten(files: seq<ChunkFile>): seq<VaultTransitionWithMetadata>
  {
    if files == [] then [] else Flatten(files[..|files| - 1]) + files[|files| - 1].contents
  }

  lemma {:induction false} FlattenChunksUpTo(rows: seq<VaultTransitionWithMetadata>, k: nat)
    requires SPLIT_FILE_COUNT * k <= |rows|
    ensures Flatten(ChunksUpTo(rows, k)) == rows[..SPLIT_FILE_COUNT * k]
  {
    if k > 0 {
      var prev := ChunksUpTo(rows, k - 1);
      FlattenChunksUpTo(rows, k - 1);
      assert (prev + [ChunkAt(rows, k - 1)])[..k - 1] == prev;
      var lo := SPLIT_FILE_COUNT * (k - 1);
      assert rows[..lo] + rows[lo..lo + SPLIT_FILE_COUNT] == rows[..lo + SPLIT_FILE_COUNT];
    }
  }

  /** Every row is written exactly once, in order, or is among the fewer than 100 rows
      left in the buffer when the loop ends, which are never written. */
  lemma ChunksCover(rows: seq<VaultTransitionWithMetadata>)
    ensures Flatten(Chunks(rows)) + Unwritten(rows) == rows
    ensures |Unwritten(rows)| < SPLIT_FILE_COUNT
  {
    var n := |rows| / SPLIT_FILE_COUNT;
    FlattenChunksUpTo(rows, n);
    assert rows[..SPLIT_FILE_COUNT * n] + rows[SPLIT_FILE_COUNT * n..] == rows;
  }

  /** How many digits a text begins with. */
  function LeadingDigits(s: string): (n: nat)
    ensures n <= |s|
  {
    if s == [] || !IsDigit(s[0]) then 0 else 1 + LeadingDigits(s[1..])
  }

  /** A digit string followed by a non-digit begins with exactly its own digits. */
  lemma {:induction false} LeadingDigitsOf(x: string, sep: char, u: string)
    requires AllDigits(x) && !IsDigit(sep)
    ensures LeadingDigits(x + ([sep] + u)) == |x|
  {
    if x != [] {
      assert (x + ([sep] + u))[1..] == x[1..] + ([sep] + u);
      LeadingDigitsOf(x[1..], sep, u);
    }
  }

  /** Two digit strings, each followed by the same non-digit separator, agree up to it. */
  lemma SplitAtSeparator(x: string, y: string, u: string, v: string, sep: char)
    requires AllDigits(x) && AllDigits(y) && !IsDigit(sep)
    requires x + ([sep] + u) == y + ([sep] + v)
    ensures x == y && u == v
  {
    var s := x + ([sep] + u);
    LeadingDigitsOf(x, sep, u);
    LeadingDigitsOf(y, sep, v);
    assert x == s[..|x|] == y;
    assert u == s[|x| + 1..] == v;
  }

  /** Distinct row ranges go to distinct file names, so no file overwrites another. */
  lemma ChunkPathInjective(lo1: nat, hi1: nat, lo2: nat, hi2: nat)
    requires ChunkPath(lo1, hi1) == ChunkPath(lo2, hi2)
    ensures lo1 == lo2 && hi1 == hi2
  {
    var rest1 := FormatNat(lo1) + ("-" + (FormatNat(hi1) + ".json"));
    var rest2 := FormatNat(lo2) + ("-" + (FormatNat(hi2) + ".json"));
    assert rest1 == ChunkPath(lo1, hi1)[|RESULT_PREFIX|..] == rest2;
    SplitAtSeparator(FormatNat(lo1), FormatNat(lo2), FormatNat(hi1) + ".json", FormatNat(hi2) + ".json", '-');
    var h1 := FormatNat(hi1);
    var h2 := FormatNat(hi2);
    assert h1 == (h1 + ".json")[..|h1|] == h2;
  }

  /** The files of one run all have different names. */
  lemma ChunkPathsDistinct(rows: seq<VaultTransitionWithMetadata>, c: nat, d: nat)
    requires c < d < |Chunks(rows)|
    ensures Chunks(rows)[c].Path() != Chunks(rows)[d].Path()
  {
    ChunksContiguous(rows, c);
    ChunksContiguous(rows, d);
    if Chunks(rows)[c].Path() == Chunks(rows)[d].Path() {
      ChunkPathInjective(Chunks(rows)[c].lo, Chunks(rows)[c].hi, Chunks(rows)[d].lo, Chunks(rows)[d].hi);
    }
  }

  /** Row indices 100 to 199 go to `result-100-199.json`. */
  lemma ExampleChunkPath()
    ensures ChunkPath(100, 199) == "../subgraph-tools/data/result/result-100-199.json"
  {
    assert FormatNat(100) == "100";
    assert FormatNat(199) == "199";
  }

  /** No row the older engine matches records a liquidation: its window is empty. */
  lemma MatchedNeverLiquidated(rows: seq<Data<Snapshot>>, index: map<string, seq<u64>>, i: nat, id: string)
    requires i < |MatchAll(rows, index, FirstSnapshot).results|
    requires id in MatchAll(rows, index, FirstSnapshot).results[i].vaultTransition.entries
    ensures var x := MatchAll(rows, index, FirstSnapshot).results[i].vaultTransition.entries[id];
            !x.liquidated && x.liquidationTimestamp == None
  {
    MatchAllResults(rows, index, FirstSnapshot);
    OlderNeverLiquidated(rows[i], index, id);
  }

  /** No row the older engine writes records a liquidation. */
  lemma OlderWritesNoLiquidation(history: map<string, Vault>, store: map<string, Snapshot>, keys: seq<string>,
                                 c: nat, p: nat, id: string)
    requires forall k :: k in keys ==> k in store
    requires c < |Older(history, store, keys).files|
    requires p < |Older(history, store, keys).files[c].contents|
    requires id in Older(history, store, keys).files[c].contents[p].vaultTransition.entries
    ensures var x := Older(history, store, keys).files[c].contents[p].vaultTransition.entries[id];
            !x.liquidated && x.liquidationTimestamp == None
  {
    var index := LiquidationIndex.Index(history).value;
    var dataset := Pairs(store, keys, Unbounded);
    var rows := MatchAll(dataset, index, FirstSnapshot).results;
    assert Older(history, store, keys).files == Chunks(rows);
    ChunksContiguous(rows, c);
    assert Chunks(rows)[c].contents[p] == rows[SPLIT_FILE_COUNT * c + p];
    MatchedNeverLiquidated(dataset, index, SPLIT_FILE_COUNT * c + p, id);
  }
}
