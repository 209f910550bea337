/** Pair enumeration: the nested loops over `blocks_keys` that push one `Data` per
    ordered pair of block numbers (src/bin/main.rs:114-155, src/main.rs:228-265). */
module BlockPairs {
  import opened Wrappers
  import opened Numbers
  import opened Records

  /** src/bin/main.rs bounds `second - first` by this many blocks, about one week. */
  const WINDOW_BLOCKS: u64 := 40000

  /** src/bin/main.rs uses `Bounded(WINDOW_BLOCKS)`; src/main.rs has no bound. */
  datatype WindowPolicy = Bounded(width: u64) | Unbounded

  /** `first < second && second - first < width`: the subtraction happens only once
      `first < second` holds, so it never underflows (the `u64` subtraction is checked). */
  predicate Admits(policy: WindowPolicy, first: u64, second: u64)
  {
    first < second &&
    match policy
    case Unbounded => true
    case Bounded(width) => second - first < width
  }

  /** Both keys parse as `u64` and the parsed numbers pass the engine's test. */
  predicate AdmissibleKeys(policy: WindowPolicy, firstKey: string, secondKey: string)
  {
    match (ParseU64(firstKey), ParseU64(secondKey))
    case (Some(a), Some(b)) => Admits(policy, a, b)
    case _ => false
  }

  predicate Admissible(keys: seq<string>, policy: WindowPolicy, i: nat, j: nat)
    requires i < |keys| && j < |keys|
  {
    AdmissibleKeys(policy, keys[i], keys[j])
  }

  /** The index pairs the inner loop emits for outer index `i` over inner indices `0..j`. */
  function RowUpTo(keys: seq<string>, policy: WindowPolicy, i: nat, j: nat): seq<(nat, nat)>
    requires i < |keys| && j <= |keys|
  {
    if j == 0 then []
    else RowUpTo(keys, policy, i, j - 1) + (if Admissible(keys, policy, i, j - 1) then [(i, j - 1)] else [])
  }

  /** The index pairs emitted for outer indices `0..i`, all inner indices each. */
  function RowsUpTo(keys: seq<string>, policy: WindowPolicy, i: nat): seq<(nat, nat)>
    requires i <= |keys|
  {
    if i == 0 then [] else RowsUpTo(keys, policy, i - 1) + RowUpTo(keys, policy, i - 1, |keys|)
  }

  /** All emitted index pairs, in the order of emission. */
  function PairIndices(keys: seq<string>, policy: WindowPolicy): seq<(nat, nat)>
  {
    RowsUpTo(keys, policy, |keys|)
  }

  /** Row `i` holds only pairs `(i, j')` with `j' < j`. */
  lemma {:induction false} RowUpToBounds(keys: seq<string>, policy: WindowPolicy, i: nat, j: nat)
    requires i < |keys| && j <= |keys|
    ensures forall p :: 0 <= p < |RowUpTo(keys, policy, i, j)| ==>
              RowUpTo(keys, policy, i, j)[p].0 == i && RowUpTo(keys, policy, i, j)[p].1 < j
  {
    if j > 0 {
      RowUpToBounds(keys, policy, i, j - 1);
    }
  }

  /** Rows `0..i` hold only pairs of indices into `keys`, with outer index below `i`. */
  lemma {:induction false} RowsUpToBounds(keys: seq<string>, policy: WindowPolicy, i: nat)
    requires i <= |keys|
    ensures forall p :: 0 <= p < |RowsUpTo(keys, policy, i)| ==>
              RowsUpTo(keys, policy, i)[p].0 < i && RowsUpTo(keys, policy, i)[p].1 < |keys|
  {
    if i > 0 {
      RowsUpToBounds(keys, policy, i - 1);
      RowUpToBounds(keys, policy, i - 1, |keys|);
      var a := RowsUpTo(keys, policy, i - 1);
      var b := RowUpTo(keys, policy, i - 1, |keys|);
      assert forall p :: |a| <= p < |a + b| ==> (a + b)[p] == b[p - |a|];
    }
  }

  /** Every index pair points into `keys`. Recursive rather than quantified, so that it
      unfolds one pair at a time. */
  predicate InBounds(keys: seq<string>, idx: seq<(nat, nat)>)
  {
    idx == [] ||
    (InBounds(keys, idx[..|idx| - 1]) && idx[|idx| - 1].0 < |keys| && idx[|idx| - 1].1 < |keys|)
  }

  /** The `Data` pushed for the index pair `(i, j)`. */
  function MakeData<S>(store: map<string, S>, keys: seq<string>, i: nat, j: nat): (d: Data<S>)
    requires i < |keys| && j < |keys| && keys[i] in store && keys[j] in store
    ensures d.firstBlock == keys[i] && d.secondBlock == keys[j]
  {
    Data(keys[i], keys[j], store[keys[i]], store[keys[j]])
  }

  function ToData<S>(store: map<string, S>, keys: seq<string>, idx: seq<(nat, nat)>): (ds: seq<Data<S>>)
    requires InBounds(keys, idx)
    requires forall k :: k in keys ==> k in store
    ensures |ds| == |idx|
  {
    if idx == [] then []
    else ToData(store, keys, idx[..|idx| - 1]) + [MakeData(store, keys, idx[|idx| - 1].0, idx[|idx| - 1].1)]
  }

  /** The `Data` the inner loop pushes for outer index `i` over inner indices `0..j`. */
  function RowData<S>(store: map<string, S>, keys: seq<string>, policy: WindowPolicy, i: nat, j: nat): seq<Data<S>>
    requires forall k :: k in keys ==> k in store
    requires i < |keys| && j <= |keys|
  {
    if j == 0 then []
    else RowData(store, keys, policy, i, j - 1) +
         (if AdmissibleKeys(policy, keys[i], keys[j - 1]) then [MakeData(store, keys, i, j - 1)] else [])
  }

  /** The `Data` pushed for outer indices `0..i`. */
  function RowsData<S>(store: map<string, S>, keys: seq<string>, policy: WindowPolicy, i: nat): seq<Data<S>>
    requires forall k :: k in keys ==> k in store
    requires i <= |keys|
  {
    if i == 0 then [] else RowsData(store, keys, policy, i - 1) + RowData(store, keys, policy, i - 1, |keys|)
  }

  /** The `dataset` vector. */
  function Pairs<S>(store: map<string, S>, keys: seq<string>, policy: WindowPolicy): seq<Data<S>>
    requires forall k :: k in keys ==> k in store
  {
    RowsData(store, keys, policy, |keys|)
  }

  /** The nested `for` loops; `keys` is `blocks_keys`, the store's keys in hash order. */
  method EnumeratePairs<S>(store: map<string, S>, keys: seq<string>, policy: WindowPolicy)
    returns (dataset: seq<Data<S>>)
    requires forall k :: k in keys ==> k in store
    ensures dataset == Pairs(store, keys, policy)
  {
    dataset := [];
    for i := 0 to |keys|
      invariant dataset == RowsData(store, keys, policy, i)
    {
      var j := 0;
      ghost var before := dataset;
      while j < |keys|
        invariant j <= |keys|
        invariant dataset == before + RowData(store, keys, policy, i, j)
      {
        if AdmissibleKeys(policy, keys[i], keys[j]) {
          dataset := dataset + [MakeData(store, keys, i, j)];
        }
        j := j + 1;
      }
    }
  }

  /** The `p`-th `Data` is the one made from the `p`-th index pair. */
  lemma {:induction false} ToDataAt<S>(store: map<string, S>, keys: seq<string>, idx: seq<(nat, nat)>, p: nat)
    requires forall k :: k in keys ==> k in store
    requires InBounds(keys, idx) && p < |idx|
    ensures idx[p].0 < |keys| && idx[p].1 < |keys|
    ensures ToData(store, keys, idx)[p] == MakeData(store, keys, idx[p].0, idx[p].1)
  {
    var n := |idx| - 1;
    if p < n {
      ToDataAt(store, keys, idx[..n], p);
    }
  }

  lemma {:induction false} ToDataAppend<S>(store: map<string, S>, keys: seq<string>, a: seq<(nat, nat)>, b: seq<(nat, nat)>)
    requires forall k :: k in keys ==> k in store
    requires InBounds(keys, a) && InBounds(keys, b)
    ensures InBounds(keys, a + b)
    ensures ToData(store, keys, a + b) == ToData(store, keys, a) + ToData(store, keys, b)
  {
    if b == [] {
      assert a + b == a;
    } else {
      var n := |b| - 1;
      ToDataAppend(store, keys, a, b[..n]);
      assert (a + b)[..|a + b| - 1] == a + b[..n];
    }
  }

  lemma {:induction false} RowDataAsIndices<S>(store: map<string, S>, keys: seq<string>, policy: WindowPolicy, i: nat, j: nat)
    requires forall k :: k in keys ==> k in store
    requires i < |keys| && j <= |keys|
    ensures InBounds(keys, RowUpTo(keys, policy, i, j))
    ensures RowData(store, keys, policy, i, j) == ToData(store, keys, RowUpTo(keys, policy, i, j))
  {
    if j > 0 {
      var a := RowUpTo(keys, policy, i, j - 1);
      RowDataAsIndices(store, keys, policy, i, j - 1);
      if Admissible(keys, policy, i, j - 1) {
        var b := a + [(i, j - 1)];
        assert b[..|b| - 1] == a;
        assert RowUpTo(keys, policy, i, j) == b;
        assert RowData(store, keys, policy, i, j) == RowData(store, keys, policy, i, j - 1) + [MakeData(store, keys, i, j - 1)];
      } else {
        assert RowUpTo(keys, policy, i, j) == a;
      }
    }
  }

  lemma {:induction false} RowsDataAsIndices<S>(store: map<string, S>, keys: seq<string>, policy: WindowPolicy, i: nat)
    requires forall k :: k in keys ==> k in store
    requires i <= |keys|
    ensures InBounds(keys, RowsUpTo(keys, policy, i))
    ensures RowsData(store, keys, policy, i) == ToData(store, keys, RowsUpTo(keys, policy, i))
  {
    if i > 0 {
      var a := RowsUpTo(keys, policy, i - 1);
      var b := RowUpTo(keys, policy, i - 1, |keys|);
      RowsDataAsIndices(store, keys, policy, i - 1);
      RowDataAsIndices(store, keys, policy, i - 1, |keys|);
      ToDataAppend(store, keys, a, b);
      assert RowsUpTo(keys, policy, i) == a + b;
      assert RowsData(store, keys, policy, i) == RowsData(store, keys, policy, i - 1) + RowData(store, keys, policy, i - 1, |keys|);
    }
  }

  /** The dataset is the emitted index pairs, each turned into its `Data`. */
  lemma PairsAsIndices<S>(store: map<string, S>, keys: seq<string>, policy: WindowPolicy)
    requires forall k :: k in keys ==> k in store
    ensures InBounds(keys, PairIndices(keys, policy))
    ensures Pairs(store, keys, policy) == ToData(store, keys, PairIndices(keys, policy))
  {
    RowsDataAsIndices(store, keys, policy, |keys|);
  }

  // ---------------------------------------------------------------------------
  // What the enumeration emits

  lemma {:induction false} RowUpToComplete(keys: seq<string>, policy: WindowPolicy, i: nat, j: nat, b: nat)
    requires i < |keys| && b < j <= |keys|
    requires Admissible(keys, policy, i, b)
    ensures (i, b) in RowUpTo(keys, policy, i, j)
  {
    if b < j - 1 {
      RowUpToComplete(keys, policy, i, j - 1, b);
    }
  }

  lemma {:induction false} RowsUpToComplete(keys: seq<string>, policy: WindowPolicy, i: nat, a: nat, b: nat)
    requires a < i <= |keys| && b < |keys|
    requires Admissible(keys, policy, a, b)
    ensures (a, b) in RowsUpTo(keys, policy, i)
  {
    if a < i - 1 {
      RowsUpToComplete(keys, policy, i - 1, a, b);
    } else {
      RowUpToComplete(keys, policy, a, |keys|, b);
    }
  }

  /** Every ordered pair of indices whose keys parse and pass the test is emitted. */
  lemma PairIndicesComplete(keys: seq<string>, policy: WindowPolicy, i: nat, j: nat)
    requires i < |keys| && j < |keys|
    requires Admissible(keys, policy, i, j)
    ensures (i, j) in PairIndices(keys, policy)
  {
    RowsUpToComplete(keys, policy, |keys|, i, j);
  }

  /** Lexicographic order on index pairs: outer index first, then inner index. */
  predicate LexLess(x: (nat, nat), y: (nat, nat))
  {
    x.0 < y.0 || (x.0 == y.0 && x.1 < y.1)
  }

  predicate StrictlySorted(idx: seq<(nat, nat)>)
  {
    forall p, q :: 0 <= p < q < |idx| ==> LexLess(idx[p], idx[q])
  }

  lemma {:induction false} RowUpToSorted(keys: seq<string>, policy: WindowPolicy, i: nat, j: nat)
    requires i < |keys| && j <= |keys|
    ensures StrictlySorted(RowUpTo(keys, policy, i, j))
  {
    if j > 0 {
      RowUpToSorted(keys, policy, i, j - 1);
      RowUpToBounds(keys, policy, i, j - 1);
      var a := RowUpTo(keys, policy, i, j - 1);
      var b: seq<(nat, nat)> := if Admissible(keys, policy, i, j - 1) then [(i, j - 1)] else [];
      SortedAppend(a, b);
    }
  }

  lemma SortedAppend(a: seq<(nat, nat)>, b: seq<(nat, nat)>)
    requires StrictlySorted(a) && StrictlySorted(b)
    requires forall p, q :: 0 <= p < |a| && 0 <= q < |b| ==> LexLess(a[p], b[q])
    ensures StrictlySorted(a + b)
  {
    forall p, q | 0 <= p < q < |a + b|
      ensures LexLess((a + b)[p], (a + b)[q])
    {
      if q < |a| {
        assert (a + b)[p] == a[p] && (a + b)[q] == a[q];
      } else if p >= |a| {
        assert (a + b)[p] == b[p - |a|] && (a + b)[q] == b[q - |a|];
      } else {
        assert (a + b)[p] == a[p] && (a + b)[q] == b[q - |a|];
      }
    }
  }

  lemma {:induction false} RowsUpToSorted(keys: seq<string>, policy: WindowPolicy, i: nat)
    requires i <= |keys|
    ensures StrictlySorted(RowsUpTo(keys, policy, i))
  {
    if i > 0 {
      RowsUpToSorted(keys, policy, i - 1);
      RowUpToSorted(keys, policy, i - 1, |keys|);
      RowsUpToBounds(keys, policy, i - 1);
      RowUpToBounds(keys, policy, i - 1, |keys|);
      SortedAppend(RowsUpTo(keys, policy, i - 1), RowUpTo(keys, policy, i - 1, |keys|));
    }
  }

  /** Pairs come out in outer-index-then-inner-index order, so none is emitted twice. */
  lemma PairIndicesSorted(keys: seq<string>, policy: WindowPolicy)
    ensures StrictlySorted(PairIndices(keys, policy))
    ensures forall p, q :: 0 <= p < q < |PairIndices(keys, policy)| ==> PairIndices(keys, policy)[p] != PairIndices(keys, policy)[q]
  {
    RowsUpToSorted(keys, policy, |keys|);
  }

  lemma {:induction false} RowUpToSound(keys: seq<string>, policy: WindowPolicy, i: nat, j: nat)
    requires i < |keys| && j <= |keys|
    ensures forall p :: 0 <= p < |RowUpTo(keys, policy, i, j)| ==>
              RowUpTo(keys, policy, i, j)[p].1 < |keys| && Admissible(keys, policy, i, RowUpTo(keys, policy, i, j)[p].1)
  {
    if j > 0 {
      RowUpToSound(keys, policy, i, j - 1);
    }
  }

  lemma {:induction false} RowsUpToSound(keys: seq<string>, policy: WindowPolicy, i: nat)
    requires i <= |keys|
    ensures forall p :: 0 <= p < |RowsUpTo(keys, policy, i)| ==>
              RowsUpTo(keys, policy, i)[p].0 < |keys| && RowsUpTo(keys, policy, i)[p].1 < |keys| &&
              Admissible(keys, policy, RowsUpTo(keys, policy, i)[p].0, RowsUpTo(keys, policy, i)[p].1)
  {
    if i > 0 {
      RowsUpToSound(keys, policy, i - 1);
      RowUpToSound(keys, policy, i - 1, |keys|);
      RowUpToBounds(keys, policy, i - 1, |keys|);
      var a := RowsUpTo(keys, policy, i - 1);
      var b := RowUpTo(keys, policy, i - 1, |keys|);
      assert forall p :: |a| <= p < |a + b| ==> (a + b)[p] == b[p - |a|];
    }
  }

  /** Every emitted index pair has both keys parsing and passing the engine's test. */
  lemma PairIndicesSound(keys: seq<string>, policy: WindowPolicy, p: nat)
    requires p < |PairIndices(keys, policy)|
    ensures var x := PairIndices(keys, policy)[p];
            x.0 < |keys| && x.1 < |keys| && Admissible(keys, policy, x.0, x.1)
  {
    RowsUpToSound(keys, policy, |keys|);
  }

  /** What each emitted `Data` holds: two keys that parse as block numbers `a < b`
      within the window, and the snapshots stored under those keys. */
  lemma PairsSound<S>(store: map<string, S>, keys: seq<string>, policy: WindowPolicy, p: nat)
    requires forall k :: k in keys ==> k in store
    requires p < |Pairs(store, keys, policy)|
    ensures var d := Pairs(store, keys, policy)[p];
            && d.firstBlock in keys && d.secondBlock in keys
            && d.vaultsAtFirstBlock == store[d.firstBlock]
            && d.vaultsAtSecondBlock == store[d.secondBlock]
            && ParseU64(d.firstBlock).Some? && ParseU64(d.secondBlock).Some?
            && Admits(policy, ParseU64(d.firstBlock).value, ParseU64(d.secondBlock).value)
  {
    PairsAsIndices(store, keys, policy);
    PairIndicesSound(keys, policy, p);
    ToDataAt(store, keys, PairIndices(keys, policy), p);
  }

  /** With distinct keys (as a map's keys are), every admissible key pair appears in the
      dataset exactly once: at some position, and at no other. */
  lemma PairsExactlyOnce<S>(store: map<string, S>, keys: seq<string>, policy: WindowPolicy, i: nat, j: nat)
    requires forall k :: k in keys ==> k in store
    requires forall x, y :: 0 <= x < y < |keys| ==> keys[x] != keys[y]
    requires i < |keys| && j < |keys| && Admissible(keys, policy, i, j)
    ensures var ds := Pairs(store, keys, policy);
            exists p :: 0 <= p < |ds| && ds[p].firstBlock == keys[i] && ds[p].secondBlock == keys[j] &&
              forall q :: 0 <= q < |ds| && ds[q].firstBlock == keys[i] && ds[q].secondBlock == keys[j] ==> q == p
  {
    var ds := Pairs(store, keys, policy);
    var idx := PairIndices(keys, policy);
    PairIndicesComplete(keys, policy, i, j);
    PairIndicesSorted(keys, policy);
    PairsAsIndices(store, keys, policy);
    var p :| 0 <= p < |idx| && idx[p] == (i, j);
    ToDataAt(store, keys, idx, p);
    forall q | 0 <= q < |ds| && ds[q].firstBlock == keys[i] && ds[q].secondBlock == keys[j]
      ensures q == p
    {
      ToDataAt(store, keys, idx, q);
      assert keys[idx[q].0] == keys[i] && keys[idx[q].1] == keys[j];
      assert idx[q] == (i, j);
    }
  }

  /** The current engine's pairs are among the older engine's: the window only removes pairs. */
  lemma BoundedPairsAreUnbounded(keys: seq<string>, width: u64, p: nat)
    requires p < |PairIndices(keys, Bounded(width))|
    ensures PairIndices(keys, Bounded(width))[p] in PairIndices(keys, Unbounded)
  {
    var x := PairIndices(keys, Bounded(width))[p];
    PairIndicesSound(keys, Bounded(width), p);
    PairIndicesComplete(keys, Unbounded, x.0, x.1);
  }

  lemma ExampleKey100()
    ensures ParseU64("100") == Some(100)
  {
    ParseFormatU64(100);
    assert FormatNat(100) == "100";
  }

  lemma ExampleKey139000()
    ensures ParseU64("139000") == Some(139000)
  {
    ParseFormatU64(139000);
    assert FormatNat(139000) == "139000";
  }

  lemma ExampleKey200000()
    ensures ParseU64("200000") == Some(200000)
  {
    ParseFormatU64(200000);
    assert FormatNat(200000) == "200000";
  }

  lemma ExampleKeys()
    ensures ParseU64("100") == Some(100)
    ensures ParseU64("139000") == Some(139000)
    ensures ParseU64("200000") == Some(200000)
  {
    ExampleKey100();
    ExampleKey139000();
    ExampleKey200000();
  }

  /** Blocks 100, 139000 and 200000 are pairwise more than 40000 blocks apart (gaps
      138900, 61000 and 199900), so the current engine emits no pair for them. */
  lemma ExampleWindowBounded()
    ensures PairIndices(["100", "139000", "200000"], Bounded(WINDOW_BLOCKS)) == []
  {
    var keys := ["100", "139000", "200000"];
    ExampleKeys();
    forall i, j | 0 <= i < 3 && 0 <= j < 3
      ensures !Admissible(keys, Bounded(WINDOW_BLOCKS), i, j)
    {
    }
    assert RowUpTo(keys, Bounded(WINDOW_BLOCKS), 0, 3) == [];
    assert RowUpTo(keys, Bounded(WINDOW_BLOCKS), 1, 3) == [];
    assert RowUpTo(keys, Bounded(WINDOW_BLOCKS), 2, 3) == [];
  }

  /** The older engine, with no window, emits all three ordered pairs of the same blocks. */
  lemma ExampleWindowUnbounded()
    ensures PairIndices(["100", "139000", "200000"], Unbounded) == [(0, 1), (0, 2), (1, 2)]
  {
    var keys := ["100", "139000", "200000"];
    ExampleKeys();
    forall i, j | 0 <= i < 3 && 0 <= j < 3
      ensures Admissible(keys, Unbounded, i, j) <==> i < j
    {
    }
    assert RowUpTo(keys, Unbounded, 0, 3) == [(0, 1), (0, 2)];
    assert RowUpTo(keys, Unbounded, 1, 3) == [(1, 2)];
    assert RowUpTo(keys, Unbounded, 2, 3) == [];
  }
}
