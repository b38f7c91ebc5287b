/**
 * Round-robin distribution of the validated rows over the agents of one admin:
 * the row at position i goes to `agentIds[i % K]`, every agent is a key of the
 * result even when it receives nothing, and each record copies the row's
 * `FirstName` and `Phone` and takes its `Notes`, or '' when that is falsy.
 */
module Distribution {
  import opened Rows
  import opened Validation

  /** `{firstName: item.FirstName, phone: item.Phone, notes: item.Notes || ''}` for a validated row. */
  function ToRecord(item: Row): (r: Record)
    requires IsValidItem(item)
    ensures Str(r.firstName) == item["FirstName"] && Str(r.phone) == item["Phone"]
    ensures r.firstName != "" && r.phone != ""
    ensures TruthyAt(item, "Notes") ==> r.notes == item["Notes"]
    ensures !TruthyAt(item, "Notes") ==> r.notes == Str("")
  {
    Record(item["FirstName"].s, item["Phone"].s, if TruthyAt(item, "Notes") then item["Notes"] else Str(""))
  }

  function ToRecords(items: seq<Row>): seq<Record>
    requires forall k :: 0 <= k < |items| ==> IsValidItem(items[k])
  {
    seq(|items|, k requires 0 <= k < |items| => ToRecord(items[k]))
  }

  /** Agent identifiers are database keys: no two agents share one. */
  predicate Distinct(agentIds: seq<AgentId>)
  {
    forall a, b :: 0 <= a < b < |agentIds| ==> agentIds[a] != agentIds[b]
  }

  /** The elements of `xs`, in order, whose position i has `agentIds[i % |agentIds|] == id`. */
  function Dealt<T>(xs: seq<T>, agentIds: seq<AgentId>, id: AgentId): seq<T>
    requires |agentIds| > 0
  {
    if xs == [] then []
    else
      var n := |xs| - 1;
      Dealt(xs[..n], agentIds, id) + (if agentIds[n % |agentIds|] == id then [xs[n]] else [])
  }

  /** The distribution object: every agent id is a key, mapped to what it was dealt. */
  function Deal<T>(xs: seq<T>, agentIds: seq<AgentId>): map<AgentId, seq<T>>
    requires |agentIds| > 0
  {
    map id | id in agentIds :: Dealt(xs, agentIds, id)
  }

  /**
   * `distributeItems`: the first loop gives every agent an empty list, the
   * second pushes the record of row i onto the list of `agentIds[i % K]`.
   */
  method DistributeItems(items: seq<Row>, agentIds: seq<AgentId>) returns (distribution: map<AgentId, seq<Record>>)
    requires |agentIds| > 0
    requires forall k :: 0 <= k < |items| ==> IsValidItem(items[k])
    ensures distribution == Deal(ToRecords(items), agentIds)
  {
    distribution := map[];
    for a := 0 to |agentIds|
      invariant distribution == map id | id in agentIds[..a] :: []
    {
      assert agentIds[..a + 1] == agentIds[..a] + [agentIds[a]];
      distribution := distribution[agentIds[a] := []];
    }
    assert agentIds[..|agentIds|] == agentIds;

    var agentCount := |agentIds|;
    ghost var records := ToRecords(items);
    for i := 0 to |items|
      invariant distribution == Deal(records[..i], agentIds)
    {
      var agentId := agentIds[i % agentCount];
      DealPush(records, agentIds, i);
      distribution := distribution[agentId := distribution[agentId] + [ToRecord(items[i])]];
    }
    assert records[..|items|] == records;
  }

  // ---------------------------------------------------------------------------
  // How many records each agent receives

  /** The number of positions i < n with i % k == j. */
  function ShareSize(n: nat, k: nat, j: nat): nat
    requires k > 0
  {
    n / k + (if j < n % k then 1 else 0)
  }

  /** Dealing one more record appends it to the list of the agent its position selects. */
  lemma DealPush<T>(xs: seq<T>, agentIds: seq<AgentId>, i: nat)
    requires |agentIds| > 0 && i < |xs|
    ensures var id := agentIds[i % |agentIds|];
      id in Deal(xs[..i], agentIds) &&
      Deal(xs[..i + 1], agentIds) == Deal(xs[..i], agentIds)[id := Deal(xs[..i], agentIds)[id] + [xs[i]]]
  {
    var k := |agentIds|;
    assert xs[..i + 1][..i] == xs[..i] && xs[..i + 1][i] == xs[i];
    forall id | id in agentIds
      ensures Dealt(xs[..i + 1], agentIds, id)
           == Dealt(xs[..i], agentIds, id) + (if agentIds[i % k] == id then [xs[i]] else [])
    {
    }
    var before, after := Deal(xs[..i], agentIds), Deal(xs[..i + 1], agentIds);
    var id := agentIds[i % k];
    var pushed := before[id := before[id] + [xs[i]]];
    assert after.Keys == pushed.Keys;
    assert forall x | x in after :: after[x] == pushed[x];
  }

  lemma {:induction false} MulLe(a: nat, b: nat, k: nat)
    requires a <= b
    ensures a * k <= b * k
  {
    if a < b { MulLe(a, b - 1, k); }
  }

  /** Quotient and remainder are unique. */
  lemma DivModOf(x: nat, k: nat, q: nat, r: nat)
    requires k > 0 && r < k && x == q * k + r
    ensures x / k == q && x % k == r
  {
    var q', r' := x / k, x % k;
    assert x == q' * k + r';
    assert (q' + 1) * k == q' * k + k && (q + 1) * k == q * k + k;
    if q' < q {
      MulLe(q' + 1, q, k);
    } else if q < q' {
      MulLe(q + 1, q', k);
    }
  }

  lemma ShareSizeStep(n: nat, k: nat, j: nat)
    requires k > 0 && j < k
    ensures ShareSize(n + 1, k, j) == ShareSize(n, k, j) + (if n % k == j then 1 else 0)
  {
    if n % k + 1 < k {
      DivModOf(n + 1, k, n / k, n % k + 1);
    } else {
      DivModOf(n + 1, k, n / k + 1, 0);
    }
  }

  /**
   * With distinct agent ids, agent j receives exactly the records at positions
   * j, j + K, j + 2K, ..., in that order, and ShareSize(N, K, j) of them.
   */
  lemma {:induction false} DealtByResidue<T>(xs: seq<T>, agentIds: seq<AgentId>, j: nat)
    requires |agentIds| > 0 && Distinct(agentIds) && j < |agentIds|
    ensures |Dealt(xs, agentIds, agentIds[j])| == ShareSize(|xs|, |agentIds|, j)
    ensures forall m :: 0 <= m < |Dealt(xs, agentIds, agentIds[j])| ==>
      j + m * |agentIds| < |xs| && Dealt(xs, agentIds, agentIds[j])[m] == xs[j + m * |agentIds|]
  {
    var k := |agentIds|;
    if xs != [] {
      var n := |xs| - 1;
      var p := xs[..n];
      DealtByResidue(p, agentIds, j);
      ShareSizeStep(n, k, j);
      var dp := Dealt(p, agentIds, agentIds[j]);
      var d := Dealt(xs, agentIds, agentIds[j]);
      assert agentIds[n % k] == agentIds[j] <==> n % k == j;
      if n % k == j {
        assert d == dp + [xs[n]];
        LastOfResidue(n, k, j);
      } else {
        assert d == dp;
      }
      forall m | 0 <= m < |d|
        ensures j + m * k < |xs| && d[m] == xs[j + m * k]
      {
        if m < |dp| {
          assert d[m] == dp[m] == p[j + m * k];
        }
      }
    }
  }

  /** The position n that agent j receives last is j + (its earlier share) * K. */
  lemma LastOfResidue(n: nat, k: nat, j: nat)
    requires k > 0 && n % k == j
    ensures n == j + ShareSize(n, k, j) * k
  {
    assert n == (n / k) * k + n % k;
  }

  /** ShareSize(n, k, j) is ⌊n/k⌋ or ⌈n/k⌉. */
  lemma ShareSizeFloorOrCeil(n: nat, k: nat, j: nat)
    requires k > 0
    ensures n / k <= ShareSize(n, k, j) <= (n + k - 1) / k
    ensures ShareSize(n, k, j) == n / k || ShareSize(n, k, j) == (n + k - 1) / k
  {
    assert n == (n / k) * k + n % k;
    if n % k == 0 {
      DivModOf(n + k - 1, k, n / k, k - 1);
    } else {
      assert n + k - 1 == (n / k + 1) * k + (n % k - 1);
      DivModOf(n + k - 1, k, n / k + 1, n % k - 1);
    }
  }

  /**
   * Every agent receives ⌊N/K⌋ or ⌈N/K⌉ records.
   */
  lemma DealBalanced<T>(xs: seq<T>, agentIds: seq<AgentId>, j: nat)
    requires |agentIds| > 0 && Distinct(agentIds) && j < |agentIds|
    ensures |xs| / |agentIds| <= |Dealt(xs, agentIds, agentIds[j])| <= (|xs| + |agentIds| - 1) / |agentIds|
    ensures |Dealt(xs, agentIds, agentIds[j])| == |xs| / |agentIds|
         || |Dealt(xs, agentIds, agentIds[j])| == (|xs| + |agentIds| - 1) / |agentIds|
  {
    DealtByResidue(xs, agentIds, j);
    ShareSizeFloorOrCeil(|xs|, |agentIds|, j);
  }

  /** Two agents' shares differ by at most one. */
  lemma DealSharesDifferByAtMostOne<T>(xs: seq<T>, agentIds: seq<AgentId>, a: nat, b: nat)
    requires |agentIds| > 0 && Distinct(agentIds) && a < |agentIds| && b < |agentIds|
    ensures -1 <= |Dealt(xs, agentIds, agentIds[a])| - |Dealt(xs, agentIds, agentIds[b])| <= 1
  {
    DealtByResidue(xs, agentIds, a);
    DealtByResidue(xs, agentIds, b);
  }

  /**
   * The distribution has exactly the agents as keys, and an agent whose
   * position is at or past N keeps the empty list it started with.
   */
  lemma DealKeepsIdleAgents<T>(xs: seq<T>, agentIds: seq<AgentId>)
    requires |agentIds| > 0 && Distinct(agentIds)
    ensures Deal(xs, agentIds).Keys == set j | 0 <= j < |agentIds| :: agentIds[j]
    ensures forall j :: |xs| <= j < |agentIds| ==> Deal(xs, agentIds)[agentIds[j]] == []
  {
    var keys := set j | 0 <= j < |agentIds| :: agentIds[j];
    forall id | id in Deal(xs, agentIds) ensures id in keys {
      var j :| 0 <= j < |agentIds| && agentIds[j] == id;
    }
    forall j | |xs| <= j < |agentIds|
      ensures Dealt(xs, agentIds, agentIds[j]) == []
    {
      DealtByResidue(xs, agentIds, j);
      DivModOf(|xs|, |agentIds|, 0, |xs|);
    }
  }

  /** The worked example: five records over two agents. */
  lemma DealFiveOverTwo()
    ensures Deal(["A", "B", "C", "D", "E"], ["W1", "W2"])
         == map["W1" := ["A", "C", "E"], "W2" := ["B", "D"]]
  {
    var xs: seq<string> := ["A", "B", "C", "D", "E"];
    var ids: seq<AgentId> := ["W1", "W2"];
    assert xs[..0] == [] && xs[..1][..0] == [];
    assert xs[..2][..1] == xs[..1] == ["A"];
    assert xs[..3][..2] == xs[..2] == ["A", "B"];
    assert xs[..4][..3] == xs[..3] == ["A", "B", "C"];
    assert xs[..4] == ["A", "B", "C", "D"] && xs[..4] == xs[..|xs| - 1];
    assert Dealt(xs[..1], ids, "W1") == ["A"] && Dealt(xs[..1], ids, "W2") == [];
    assert Dealt(xs[..2], ids, "W1") == ["A"] && Dealt(xs[..2], ids, "W2") == ["B"];
    assert Dealt(xs[..3], ids, "W1") == ["A", "C"] && Dealt(xs[..3], ids, "W2") == ["B"];
    assert Dealt(xs[..4], ids, "W1") == ["A", "C"] && Dealt(xs[..4], ids, "W2") == ["B", "D"];
    assert Dealt(xs, ids, "W1") == ["A", "C", "E"] && Dealt(xs, ids, "W2") == ["B", "D"];
  }
}
