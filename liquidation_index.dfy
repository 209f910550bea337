/** The per-vault index of liquidation-start timestamps that both engines build first
    (src/bin/main.rs:95-107, src/main.rs:209-221). */
module LiquidationIndex {
  import opened Wrappers
  import opened Numbers
  import opened Records
  import opened Panics

  const LIQUIDATION_START_LOG := "liquidationStartLog"

  predicate IsLiquidationStart(log: VaultLog)
  {
    log.typename == LIQUIDATION_START_LOG
  }

  /** `.filter(|vaultLog| vaultLog.__typename == "liquidationStartLog")` */
  function LiquidationStartLogs(logs: seq<VaultLog>): (r: seq<VaultLog>)
    ensures forall l :: l in r ==> IsLiquidationStart(l)
    ensures forall l :: l in logs && IsLiquidationStart(l) ==> l in r
    ensures forall l :: l in r ==> l in logs
  {
    if logs == [] then []
    else (if IsLiquidationStart(logs[0]) then [logs[0]] else []) + LiquidationStartLogs(logs[1..])
  }

  /** `.filter_map(|vaultLog| vaultLog.timestamp.parse::<u64>().ok())` */
  function ParsedTimestamps(logs: seq<VaultLog>): seq<u64>
  {
    if logs == [] then []
    else
      (match ParseU64(logs[0].timestamp) case Some(t) => [t] case None => [])
      + ParsedTimestamps(logs[1..])
  }

  /** One index entry: the parseable timestamps of the liquidation-start logs, in log order. */
  function LiquidationTimestamps(logs: seq<VaultLog>): seq<u64>
  {
    ParsedTimestamps(LiquidationStartLogs(logs))
  }

  lemma {:induction false} LiquidationStartLogsAppend(a: seq<VaultLog>, b: seq<VaultLog>)
    ensures LiquidationStartLogs(a + b) == LiquidationStartLogs(a) + LiquidationStartLogs(b)
  {
    if a != [] {
      assert (a + b)[1..] == a[1..] + b;
      LiquidationStartLogsAppend(a[1..], b);
    } else {
      assert a + b == b;
    }
  }

  lemma {:induction false} ParsedTimestampsAppend(a: seq<VaultLog>, b: seq<VaultLog>)
    ensures ParsedTimestamps(a + b) == ParsedTimestamps(a) + ParsedTimestamps(b)
  {
    if a != [] {
      assert (a + b)[1..] == a[1..] + b;
      ParsedTimestampsAppend(a[1..], b);
    } else {
      assert a + b == b;
    }
  }

  /** The entry keeps log order: the entry of a concatenation of two log lists is the
      entry of the first followed by the entry of the second. */
  lemma LiquidationTimestampsAppend(a: seq<VaultLog>, b: seq<VaultLog>)
    ensures LiquidationTimestamps(a + b) == LiquidationTimestamps(a) + LiquidationTimestamps(b)
  {
    LiquidationStartLogsAppend(a, b);
    ParsedTimestampsAppend(LiquidationStartLogs(a), LiquidationStartLogs(b));
  }

  /** A single log contributes its timestamp exactly when it is a liquidation start whose
      timestamp parses; together with the append law this fixes the entry completely. */
  lemma LiquidationTimestampsSingle(l: VaultLog)
    ensures LiquidationTimestamps([l]) ==
              if IsLiquidationStart(l) && ParseU64(l.timestamp).Some? then [ParseU64(l.timestamp).value] else []
  {
    assert [l][1..] == [];
    if IsLiquidationStart(l) {
      assert LiquidationStartLogs([l]) == [l] + LiquidationStartLogs([]);
      assert ParsedTimestamps([l]) == (match ParseU64(l.timestamp) case Some(t) => [t] case None => []) + ParsedTimestamps([]);
    } else {
      assert LiquidationStartLogs([l]) == [] + LiquidationStartLogs([]);
    }
  }

  lemma {:induction false} ParsedTimestampsMembers(logs: seq<VaultLog>, t: u64)
    ensures t in ParsedTimestamps(logs) <==> exists k :: 0 <= k < |logs| && ParseU64(logs[k].timestamp) == Some(t)
  {
    if logs != [] {
      ParsedTimestampsMembers(logs[1..], t);
      if exists k :: 0 <= k < |logs[1..]| && ParseU64(logs[1..][k].timestamp) == Some(t) {
        var k :| 0 <= k < |logs[1..]| && ParseU64(logs[1..][k].timestamp) == Some(t);
        assert logs[k + 1] == logs[1..][k];
      }
      if exists k :: 0 <= k < |logs| && ParseU64(logs[k].timestamp) == Some(t) {
        var k :| 0 <= k < |logs| && ParseU64(logs[k].timestamp) == Some(t);
        if k > 0 { assert logs[1..][k - 1] == logs[k]; }
      }
    }
  }

  /** A timestamp is in a vault's entry exactly when some liquidation-start log of the
      vault carries a text that parses to it. */
  lemma LiquidationTimestampsMembers(logs: seq<VaultLog>, t: u64)
    ensures t in LiquidationTimestamps(logs) <==>
              exists l :: l in logs && IsLiquidationStart(l) && ParseU64(l.timestamp) == Some(t)
  {
    var starts := LiquidationStartLogs(logs);
    ParsedTimestampsMembers(starts, t);
    if t in LiquidationTimestamps(logs) {
      var k :| 0 <= k < |starts| && ParseU64(starts[k].timestamp) == Some(t);
      var l := starts[k];
      assert l in starts;
      assert l in logs && IsLiquidationStart(l);
    }
    if exists l :: l in logs && IsLiquidationStart(l) && ParseU64(l.timestamp) == Some(t) {
      var l :| l in logs && IsLiquidationStart(l) && ParseU64(l.timestamp) == Some(t);
      assert l in starts;
      var k :| 0 <= k < |starts| && starts[k] == l;
      assert t in ParsedTimestamps(starts);
    }
  }

  /** The entry of one vault id: the timestamps of the first `VaultWithLog`'s logs. */
  function Entry(v: Vault): seq<u64>
    requires |v.vaults| > 0
  {
    LiquidationTimestamps(v.vaults[0].logs)
  }

  /** The index: every vault id of the history maps to the entry of its first vault's
      logs. A history entry whose `vaults` list is empty makes `vaults[0]` panic. */
  function Index(history: map<string, Vault>): (r: Result<map<string, seq<u64>>, Panic>)
    ensures r.Success? <==> forall id :: id in history ==> |history[id].vaults| > 0
    ensures r.Success? ==> r.value.Keys == history.Keys
    ensures r.Failure? ==> r.error == EmptyVaultList
  {
    if exists id :: id in history && |history[id].vaults| == 0 then Failure(EmptyVaultList)
    else Success(map id | id in history :: Entry(history[id]))
  }

  /** The `for vault_id in vault_ids` loop inserting one entry per id; `ids` is the
      order in which `HashMap::keys` visits the history. */
  method BuildLiquidationIndex(history: map<string, Vault>, ids: seq<string>)
    returns (r: Result<map<string, seq<u64>>, Panic>)
    requires forall id :: id in history <==> id in ids
    ensures r == Index(history)
  {
    var index: map<string, seq<u64>> := map[];
    for i := 0 to |ids|
      invariant forall id :: id in index <==> id in ids[..i]
      invariant forall id :: id in index ==>
                  id in history && |history[id].vaults| > 0 && index[id] == Entry(history[id])
    {
      var id := ids[i];
      assert id in history;
      if |history[id].vaults| == 0 {
        assert Index(history).Failure?;
        return Failure(EmptyVaultList);
      }
      index := index[id := Entry(history[id])];
      assert ids[..i + 1] == ids[..i] + [id];
    }
    assert ids[..|ids|] == ids;
    assert forall id :: id in history ==> |history[id].vaults| > 0;
    assert index == map id | id in history :: Entry(history[id]);
    r := Success(index);
  }
}
