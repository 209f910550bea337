/** The per-pair join of both engines: the second snapshot's vaults indexed by id, and
    one transition per eligible first-snapshot vault, classified against the liquidation
    index (src/bin/main.rs:166-253, src/main.rs:269-356). */
module Matcher {
  import opened Wrappers
  import opened Numbers
  import opened Records
  import opened Panics

  /** The only collateral type either engine reads from a snapshot. */
  const COLLATERAL_TYPE := "ETH-A"

  // ---------------------------------------------------------------------------
  // Eligibility

  /** `collateral > 0.0 && debt > 0.0`, where both numbers are parsed from the
      `collateral` text: the `debt` text is never looked at. */
  predicate Eligible(v: SubgraphVault)
  {
    match (ParseReal(v.collateral), ParseReal(v.collateral))
    case (Some(collateral), Some(debt)) => collateral > 0.0 && debt > 0.0
    case _ => false
  }

  /** A vault is eligible exactly when its collateral text parses to a positive number. */
  lemma EligibleIffCollateralPositive(v: SubgraphVault)
    ensures Eligible(v) <==> ParseReal(v.collateral).Some? && ParseReal(v.collateral).value > 0.0
  {
  }

  /** The debt text plays no part in eligibility. */
  lemma EligibleIgnoresDebt(v: SubgraphVault, debt: string)
    ensures Eligible(v.(debt := debt)) == Eligible(v)
  {
  }

  // ---------------------------------------------------------------------------
  // The liquidation search

  /** The closure given to `find`: both window ends parse as `u64` and `t` lies strictly
      between them. The ends are parsed anew for each element; the result is the same. */
  predicate InWindow(firstTs: string, secondTs: string, t: u64)
  {
    match (ParseU64(firstTs), ParseU64(secondTs))
    case (Some(a), Some(b)) => a < t && t < b
    case _ => false
  }

  /** `Iterator::find`: the first element of the list inside the window, if any. */
  function FindLiquidation(list: seq<u64>, firstTs: string, secondTs: string): (r: Option<u64>)
    ensures r.None? <==> forall k :: 0 <= k < |list| ==> !InWindow(firstTs, secondTs, list[k])
    ensures r.Some? ==> exists k :: 0 <= k < |list| && list[k] == r.value && InWindow(firstTs, secondTs, list[k]) &&
                          forall m :: 0 <= m < k ==> !InWindow(firstTs, secondTs, list[m])
  {
    if list == [] then None
    else if InWindow(firstTs, secondTs, list[0]) then Some(list[0])
    else
      var r := FindLiquidation(list[1..], firstTs, secondTs);
      assert forall k :: 0 < k < |list| ==> list[k] == list[1..][k - 1];
      r
  }

  /** A window whose ends do not both parse contains nothing. */
  lemma FindLiquidationUnparsed(list: seq<u64>, firstTs: string, secondTs: string)
    requires ParseU64(firstTs).None? || ParseU64(secondTs).None?
    ensures FindLiquidation(list, firstTs, secondTs) == None
  {
  }

  /** A window from a timestamp to itself is empty: nothing is found. */
  lemma FindLiquidationEmptyWindow(list: seq<u64>, ts: string)
    ensures FindLiquidation(list, ts, ts) == None
  {
  }

  lemma ExampleTimestamps()
    ensures ParseU64("500") == Some(500) && ParseU64("1000") == Some(1000)
    ensures ParseU64("2000") == Some(2000)
  {
    ParseFormatU64(500);
    ParseFormatU64(1000);
    ParseFormatU64(2000);
    assert FormatNat(500) == "500";
    assert FormatNat(1000) == "1000";
    assert FormatNat(2000) == "2000";
  }

  /** Snapshot timestamps 1000 and 2000: in [500, 1500, 2500] the search finds 1500;
      in [500, 2500] it finds nothing. */
  lemma ExampleFindLiquidation()
    ensures FindLiquidation([500, 1500, 2500], "1000", "2000") == Some(1500)
    ensures FindLiquidation([500, 2500], "1000", "2000") == None
  {
    ExampleTimestamps();
    assert !InWindow("1000", "2000", 500) && InWindow("1000", "2000", 1500) && !InWindow("1000", "2000", 2500);
    var three: seq<u64> := [500, 1500, 2500];
    var two: seq<u64> := [500, 2500];
    assert three[1..] == [1500, 2500];
    assert two[1..] == [2500];
  }

  // ---------------------------------------------------------------------------
  // `secondvaultsById`

  /** The map built by inserting every vault of the list under its id, in list order. */
  function ById(vaults: seq<SubgraphVault>): (m: map<string, SubgraphVault>)
    ensures forall k :: k in m <==> exists i :: 0 <= i < |vaults| && vaults[i].id == k
    ensures forall k :: k in m ==> m[k].id == k && m[k] in vaults
  {
    if vaults == [] then map[]
    else
      var init := vaults[..|vaults| - 1];
      var m := ById(init);
      assert forall i :: 0 <= i < |init| ==> init[i] == vaults[i];
      m[vaults[|vaults| - 1].id := vaults[|vaults| - 1]]
  }

  /** Among vaults sharing an id, the last one in the list is the one kept. */
  lemma {:induction false} ByIdLastWins(vaults: seq<SubgraphVault>, i: nat)
    requires i < |vaults|
    requires forall m :: i < m < |vaults| ==> vaults[m].id != vaults[i].id
    ensures ById(vaults)[vaults[i].id] == vaults[i]
  {
    if i < |vaults| - 1 {
      var init := vaults[..|vaults| - 1];
      assert forall m :: i < m < |init| ==> init[m] == vaults[m];
      ByIdLastWins(init, i);
    }
  }

  /** The `for i in 0..secondVaults.len()` loop of `HashMap::insert` calls. */
  method IndexById(vaults: seq<SubgraphVault>) returns (m: map<string, SubgraphVault>)
    ensures m == ById(vaults)
  {
    m := map[];
    for i := 0 to |vaults|
      invariant m == ById(vaults[..i])
    {
      assert vaults[..i + 1][..i] == vaults[..i];
      m := m[vaults[i].id := vaults[i]];
    }
    assert vaults[..|vaults|] == vaults;
  }

  // ---------------------------------------------------------------------------
  // One vault's transition

  /** The body of the `for j` loop for an eligible vault. The index lookup comes first and
      panics on a missing id; the `secondvaultsById` lookup follows the search and panics too. */
  function Transition(vault: SubgraphVault, index: map<string, seq<u64>>, byId: map<string, SubgraphVault>,
                      firstTs: string, secondTs: string): (r: Result<VaultTransitionInner, Panic>)
    ensures r.Failure? <==> vault.id !in index || vault.id !in byId
    ensures r.Failure? ==> r.error == (if vault.id !in index then MissingLiquidationEntry else MissingInSecondSnapshot)
    ensures r.Success? ==> r.value.first == vault && r.value.second == byId[vault.id]
  {
    if vault.id !in index then Failure(MissingLiquidationEntry)
    else
      var found := FindLiquidation(index[vault.id], firstTs, secondTs);
      if vault.id !in byId then Failure(MissingInSecondSnapshot)
      else
        var second := byId[vault.id];
        match found
        case Some(t) => Success(VaultTransitionInner(vault, second, true, Some(t)))
        case None => Success(VaultTransitionInner(vault, second, false, None))
  }

  /** A transition is liquidated exactly when its timestamp is present, and that happens
      exactly when some indexed timestamp of the vault lies inside the window; the
      timestamp is the first such one in list order. */
  lemma TransitionLiquidation(vault: SubgraphVault, index: map<string, seq<u64>>, byId: map<string, SubgraphVault>,
                              firstTs: string, secondTs: string)
    requires Transition(vault, index, byId, firstTs, secondTs).Success?
    ensures var x := Transition(vault, index, byId, firstTs, secondTs).value;
            && (x.liquidated <==> x.liquidationTimestamp.Some?)
            && (x.liquidated <==> exists k :: 0 <= k < |index[vault.id]| && InWindow(firstTs, secondTs, index[vault.id][k]))
            && x.liquidationTimestamp == FindLiquidation(index[vault.id], firstTs, secondTs)
  {
  }

  // ---------------------------------------------------------------------------
  // All transitions of one pair

  /** One turn of the `for j` loop: an ineligible vault is skipped, an eligible vault's
      transition is inserted under its id, and a panic ends the loop. */
  function Step(acc: Result<TransitionTable, Panic>, vault: SubgraphVault, index: map<string, seq<u64>>,
                byId: map<string, SubgraphVault>, firstTs: string, secondTs: string): Result<TransitionTable, Panic>
  {
    match acc
    case Failure(e) => Failure(e)
    case Success(t) =>
      if !Eligible(vault) then Success(t)
      else
        match Transition(vault, index, byId, firstTs, secondTs)
        case Failure(e) => Failure(e)
        case Success(x) => Success(Insert(t, vault.id, x))
  }

  /** The `for j in 0..firstVaults.len()` loop over the first snapshot's vaults. */
  function Transitions(firstVaults: seq<SubgraphVault>, index: map<string, seq<u64>>, byId: map<string, SubgraphVault>,
                       firstTs: string, secondTs: string): Result<TransitionTable, Panic>
  {
    if firstVaults == [] then Success(EmptyTable())
    else Step(Transitions(firstVaults[..|firstVaults| - 1], index, byId, firstTs, secondTs),
              firstVaults[|firstVaults| - 1], index, byId, firstTs, secondTs)
  }

  lemma {:induction false} TransitionsWellFormed(firstVaults: seq<SubgraphVault>, index: map<string, seq<u64>>,
                                                 byId: map<string, SubgraphVault>, firstTs: string, secondTs: string)
    ensures var r := Transitions(firstVaults, index, byId, firstTs, secondTs);
            r.Success? ==> WellFormed(r.value)
  {
    if firstVaults == [] {
      EmptyTableWellFormed();
    } else {
      var n := |firstVaults| - 1;
      var prev := Transitions(firstVaults[..n], index, byId, firstTs, secondTs);
      TransitionsWellFormed(firstVaults[..n], index, byId, firstTs, secondTs);
      if prev.Success? && Eligible(firstVaults[n]) {
        var x := Transition(firstVaults[n], index, byId, firstTs, secondTs);
        if x.Success? {
          InsertWellFormed(prev.value, firstVaults[n].id, x.value);
        }
      }
    }
  }

  /** Would the transition of the `k`-th vault panic? */
  predicate Fails(firstVaults: seq<SubgraphVault>, index: map<string, seq<u64>>, byId: map<string, SubgraphVault>, k: nat)
    requires k < |firstVaults|
  {
    Eligible(firstVaults[k]) && (firstVaults[k].id !in index || firstVaults[k].id !in byId)
  }

  /** Would the transition of some vault panic? */
  predicate AnyFails(firstVaults: seq<SubgraphVault>, index: map<string, seq<u64>>, byId: map<string, SubgraphVault>)
  {
    exists k :: 0 <= k < |firstVaults| && Fails(firstVaults, index, byId, k)
  }

  /** The loop panics exactly when some eligible vault misses the index or the second
      snapshot, and the panic is the one of the first such vault. */
  lemma {:induction false} TransitionsFailure(firstVaults: seq<SubgraphVault>, index: map<string, seq<u64>>,
                                              byId: map<string, SubgraphVault>, firstTs: string, secondTs: string)
    ensures var r := Transitions(firstVaults, index, byId, firstTs, secondTs);
            r.Failure? <==> exists k :: 0 <= k < |firstVaults| && Fails(firstVaults, index, byId, k)
    ensures var r := Transitions(firstVaults, index, byId, firstTs, secondTs);
            r.Failure? ==> exists k :: 0 <= k < |firstVaults| && Fails(firstVaults, index, byId, k) &&
                             (forall m :: 0 <= m < k ==> !Fails(firstVaults, index, byId, m)) &&
                             r.error == Transition(firstVaults[k], index, byId, firstTs, secondTs).error
  {
    if firstVaults != [] {
      var n := |firstVaults| - 1;
      var init := firstVaults[..n];
      var v := firstVaults[n];
      var prev := Transitions(init, index, byId, firstTs, secondTs);
      var r := Transitions(firstVaults, index, byId, firstTs, secondTs);
      assert r == Step(prev, v, index, byId, firstTs, secondTs);
      TransitionsFailure(init, index, byId, firstTs, secondTs);
      assert forall m :: 0 <= m < n ==> init[m] == firstVaults[m];
      assert forall m :: 0 <= m < n ==> (Fails(init, index, byId, m) <==> Fails(firstVaults, index, byId, m));
      if prev.Failure? {
        assert r == prev;
        var k :| 0 <= k < n && Fails(init, index, byId, k) && (forall m :: 0 <= m < k ==> !Fails(init, index, byId, m)) &&
                 prev.error == Transition(init[k], index, byId, firstTs, secondTs).error;
        assert Fails(firstVaults, index, byId, k);
      } else if Fails(firstVaults, index, byId, n) {
        assert r.Failure?;
      } else {
        assert r.Success?;
      }
    }
  }

  /** What one successful turn of the loop does to the table's entries. */
  lemma StepEntries(acc: Result<TransitionTable, Panic>, v: SubgraphVault, index: map<string, seq<u64>>,
                    byId: map<string, SubgraphVault>, firstTs: string, secondTs: string)
    requires acc.Success?
    requires Step(acc, v, index, byId, firstTs, secondTs).Success?
    ensures Eligible(v) ==> Transition(v, index, byId, firstTs, secondTs).Success?
    ensures Step(acc, v, index, byId, firstTs, secondTs).value.entries ==
            if Eligible(v) then acc.value.entries[v.id := Transition(v, index, byId, firstTs, secondTs).value]
            else acc.value.entries
  {
  }

  /** Every eligible vault's id is a key of the table. */
  lemma {:induction false} TransitionsContains(firstVaults: seq<SubgraphVault>, index: map<string, seq<u64>>,
                                               byId: map<string, SubgraphVault>, firstTs: string, secondTs: string, k: nat)
    requires k < |firstVaults| && Eligible(firstVaults[k])
    requires Transitions(firstVaults, index, byId, firstTs, secondTs).Success?
    ensures firstVaults[k].id in Transitions(firstVaults, index, byId, firstTs, secondTs).value.entries
  {
    var n := |firstVaults| - 1;
    var init := firstVaults[..n];
    var v := firstVaults[n];
    var prev := Transitions(init, index, byId, firstTs, secondTs);
    assert Transitions(firstVaults, index, byId, firstTs, secondTs) == Step(prev, v, index, byId, firstTs, secondTs);
    assert prev.Success?;
    StepEntries(prev, v, index, byId, firstTs, secondTs);
    if k < n {
      assert init[k] == firstVaults[k];
      TransitionsContains(init, index, byId, firstTs, secondTs, k);
    }
  }

  /** The table's keys are exactly the ids of the eligible vaults. */
  lemma TransitionsKeys(firstVaults: seq<SubgraphVault>, index: map<string, seq<u64>>,
                        byId: map<string, SubgraphVault>, firstTs: string, secondTs: string)
    ensures var r := Transitions(firstVaults, index, byId, firstTs, secondTs);
            r.Success? ==> forall id :: id in r.value.entries <==>
                             exists k :: 0 <= k < |firstVaults| && firstVaults[k].id == id && Eligible(firstVaults[k])
  {
    var r := Transitions(firstVaults, index, byId, firstTs, secondTs);
    if r.Success? {
      TransitionsEntries(firstVaults, index, byId, firstTs, secondTs);
      forall k | 0 <= k < |firstVaults| && Eligible(firstVaults[k])
        ensures firstVaults[k].id in r.value.entries
      {
        TransitionsContains(firstVaults, index, byId, firstTs, secondTs, k);
      }
    }
  }

  /** The entry kept for an id is the transition of the last eligible vault with that id. */
  lemma {:induction false} TransitionsLastWins(firstVaults: seq<SubgraphVault>, index: map<string, seq<u64>>,
                                               byId: map<string, SubgraphVault>, firstTs: string, secondTs: string, k: nat)
    requires k < |firstVaults| && Eligible(firstVaults[k])
    requires forall m :: k < m < |firstVaults| && firstVaults[m].id == firstVaults[k].id ==> !Eligible(firstVaults[m])
    requires Transitions(firstVaults, index, byId, firstTs, secondTs).Success?
    ensures var t := Transitions(firstVaults, index, byId, firstTs, secondTs).value;
            firstVaults[k].id in t.entries &&
            Transition(firstVaults[k], index, byId, firstTs, secondTs) == Success(t.entries[firstVaults[k].id])
  {
    var n := |firstVaults| - 1;
    var init := firstVaults[..n];
    var v := firstVaults[n];
    var prev := Transitions(init, index, byId, firstTs, secondTs);
    var r := Transitions(firstVaults, index, byId, firstTs, secondTs);
    assert r == Step(prev, v, index, byId, firstTs, secondTs);
    assert prev.Success?;
    StepEntries(prev, v, index, byId, firstTs, secondTs);
    if k < n {
      assert init[k] == firstVaults[k];
      assert forall m :: k < m < n ==> init[m] == firstVaults[m];
      TransitionsLastWins(init, index, byId, firstTs, secondTs, k);
      assert Eligible(v) ==> v.id != firstVaults[k].id;
    }
  }

  /** `x` is the transition of some eligible vault of `firstVaults` with id `id`. */
  predicate Sourced(firstVaults: seq<SubgraphVault>, index: map<string, seq<u64>>, byId: map<string, SubgraphVault>,
                    firstTs: string, secondTs: string, id: string, x: VaultTransitionInner)
  {
    exists k :: 0 <= k < |firstVaults| && firstVaults[k].id == id && Eligible(firstVaults[k]) &&
      Transition(firstVaults[k], index, byId, firstTs, secondTs) == Success(x)
  }

  /** Every entry of `table` is the transition of an eligible vault of `firstVaults` with that id. */
  predicate AllSourced(firstVaults: seq<SubgraphVault>, index: map<string, seq<u64>>, byId: map<string, SubgraphVault>,
                       firstTs: string, secondTs: string, table: TransitionTable)
  {
    forall id :: id in table.entries ==> Sourced(firstVaults, index, byId, firstTs, secondTs, id, table.entries[id])
  }

  /** Every entry of the table is the transition of an eligible vault with that id. */
  lemma {:induction false} TransitionsEntries(firstVaults: seq<SubgraphVault>, index: map<string, seq<u64>>,
                                              byId: map<string, SubgraphVault>, firstTs: string, secondTs: string)
    ensures Transitions(firstVaults, index, byId, firstTs, secondTs).Success? ==>
            AllSourced(firstVaults, index, byId, firstTs, secondTs, Transitions(firstVaults, index, byId, firstTs, secondTs).value)
  {
    if firstVaults != [] {
      var n := |firstVaults| - 1;
      var init := firstVaults[..n];
      var v := firstVaults[n];
      var prev := Transitions(init, index, byId, firstTs, secondTs);
      var r := Transitions(firstVaults, index, byId, firstTs, secondTs);
      assert r == Step(prev, v, index, byId, firstTs, secondTs);
      if r.Success? {
        assert prev.Success?;
        TransitionsEntries(init, index, byId, firstTs, secondTs);
        assert AllSourced(init, index, byId, firstTs, secondTs, prev.value);
        StepEntries(prev, v, index, byId, firstTs, secondTs);
        forall id | id in r.value.entries
          ensures Sourced(firstVaults, index, byId, firstTs, secondTs, id, r.value.entries[id])
        {
          if Eligible(v) && id == v.id {
            assert firstVaults[n] == v;
          } else {
            assert id in prev.value.entries;
            var x := prev.value.entries[id];
            assert r.value.entries[id] == x;
            assert Sourced(init, index, byId, firstTs, secondTs, id, x);
            var k :| 0 <= k < n && init[k].id == id && Eligible(init[k]) &&
                     Transition(init[k], index, byId, firstTs, secondTs) == Success(x);
            assert firstVaults[k] == init[k];
          }
        }
      }
    }
  }

  /** The loop itself, inserting into `vaultTransition` and stopping at the first panic. */
  method MatchVaults(firstVaults: seq<SubgraphVault>, index: map<string, seq<u64>>, byId: map<string, SubgraphVault>,
                     firstTs: string, secondTs: string) returns (r: Result<TransitionTable, Panic>)
    ensures r == Transitions(firstVaults, index, byId, firstTs, secondTs)
  {
    var table := EmptyTable();
    for j := 0 to |firstVaults|
      invariant Transitions(firstVaults[..j], index, byId, firstTs, secondTs) == Success(table)
    {
      assert firstVaults[..j + 1][..j] == firstVaults[..j];
      var vault := firstVaults[j];
      if Eligible(vault) {
        var x := Transition(vault, index, byId, firstTs, secondTs);
        if x.Failure? {
          assert Transitions(firstVaults[..j + 1], index, byId, firstTs, secondTs) == Failure(x.error);
          PanicPersists(firstVaults, index, byId, firstTs, secondTs, j + 1);
          assert firstVaults[..|firstVaults|] == firstVaults;
          return Failure(x.error);
        }
        table := Insert(table, vault.id, x.value);
      }
    }
    assert firstVaults[..|firstVaults|] == firstVaults;
    r := Success(table);
  }

  /** Once the loop has panicked on a prefix, the whole list panics the same way. */
  lemma {:induction false} PanicPersists(firstVaults: seq<SubgraphVault>, index: map<string, seq<u64>>,
                                         byId: map<string, SubgraphVault>, firstTs: string, secondTs: string, j: nat)
    requires j <= |firstVaults|
    requires Transitions(firstVaults[..j], index, byId, firstTs, secondTs).Failure?
    ensures Transitions(firstVaults, index, byId, firstTs, secondTs) ==
            Transitions(firstVaults[..j], index, byId, firstTs, secondTs)
    decreases |firstVaults| - j
  {
    if j < |firstVaults| {
      assert firstVaults[..j + 1][..j] == firstVaults[..j];
      PanicPersists(firstVaults, index, byId, firstTs, secondTs, j + 1);
    } else {
      assert firstVaults[..j] == firstVaults;
    }
  }
}
