/**
 * Reading per-agent lists back in round-robin order: one element from each
 * non-empty list in agent order, then the next round, until all are used up.
 * Applied to what `distributeItems` hands out, this rebuilds the validated
 * sequence exactly, which also shows that no record is lost or duplicated.
 */
module Interleaving {
  import opened Rows
  import opened Distribution

  function TotalSize<T>(lists: seq<seq<T>>): nat
  {
    if lists == [] then 0 else |lists[0]| + TotalSize(lists[1..])
  }

  /** One round of reading: the first element of every non-empty list, in list order. */
  function Heads<T>(lists: seq<seq<T>>): seq<T>
  {
    if lists == [] then [] else (if lists[0] == [] then [] else [lists[0][0]]) + Heads(lists[1..])
  }

  /** What is left of every list after one round. */
  function Tails<T>(lists: seq<seq<T>>): seq<seq<T>>
  {
    seq(|lists|, j requires 0 <= j < |lists| => if lists[j] == [] then [] else lists[j][1..])
  }

  lemma {:induction false} TailsSize<T>(lists: seq<seq<T>>)
    ensures TotalSize(Tails(lists)) + |Heads(lists)| == TotalSize(lists)
    ensures Heads(lists) == [] ==> TotalSize(lists) == 0
  {
    if lists != [] {
      TailsSize(lists[1..]);
      assert Tails(lists)[1..] == Tails(lists[1..]);
    }
  }

  /** Round-robin reading of `lists`; it uses up every element exactly once. */
  function Interleave<T>(lists: seq<seq<T>>): (r: seq<T>)
    ensures |r| == TotalSize(lists)
    decreases TotalSize(lists)
  {
    if TotalSize(lists) == 0 then []
    else
      TailsSize(lists);
      Heads(lists) + Interleave(Tails(lists))
  }

  /** The per-agent lists of the distribution, in agent order. */
  function AgentLists<T>(xs: seq<T>, agentIds: seq<AgentId>): (r: seq<seq<T>>)
    requires |agentIds| > 0
    ensures |r| == |agentIds|
    ensures forall j :: 0 <= j < |agentIds| ==> r[j] == Deal(xs, agentIds)[agentIds[j]]
  {
    seq(|agentIds|, j requires 0 <= j < |agentIds| => Dealt(xs, agentIds, agentIds[j]))
  }

  /** m * k as m repeated additions, unfolded one step at a time. */
  function Stride(m: nat, k: nat): nat
  {
    if m == 0 then 0 else Stride(m - 1, k) + k
  }

  lemma {:induction false} StrideIsProduct(m: nat, k: nat)
    ensures Stride(m, k) == m * k
  {
    if m > 0 {
      StrideIsProduct(m - 1, k);
      assert (m - 1) * k + k == m * k;
    }
  }

  /** The m-th element of `lists[j]` is the element of `s` at position j + m * K. */
  ghost predicate Strided<T>(lists: seq<seq<T>>, s: seq<T>)
  {
    forall j, m :: 0 <= j < |lists| && 0 <= m < |lists[j]| ==>
      j + Stride(m, |lists|) < |s| && lists[j][m] == s[j + Stride(m, |lists|)]
  }

  /** `lists[j]` holds the elements of `s` at positions j, j + K, j + 2K, ... and nothing else. */
  ghost predicate RoundRobinOf<T>(lists: seq<seq<T>>, s: seq<T>)
  {
    && |lists| > 0
    && (forall j :: 0 <= j < |lists| ==> |lists[j]| == ShareSize(|s|, |lists|, j))
    && Strided(lists, s)
  }

  /** One round takes one element from each of the first min(N, K) agents. */
  lemma ShareSizeAfterRound(n: nat, k: nat, j: nat)
    requires k > 0 && j < k
    ensures var t := if n < k then n else k;
      ShareSize(n, k, j) == ShareSize(n - t, k, j) + (if j < t then 1 else 0)
    ensures n <= k ==> ShareSize(n - (if n < k then n else k), k, j) == 0
  {
    DivModOf(0, k, 0, 0);
    if n >= k {
      var q, r := (n - k) / k, (n - k) % k;
      assert n - k == q * k + r;
      DivModOf(n, k, q + 1, r);
    } else {
      DivModOf(n, k, 0, n);
    }
  }

  /** When exactly the first t lists are non-empty, one round reads their first elements. */
  lemma {:induction false} HeadsOfPrefix<T>(lists: seq<seq<T>>, t: nat)
    requires t <= |lists|
    requires forall j :: 0 <= j < |lists| ==> (lists[j] != [] <==> j < t)
    ensures Heads(lists) == seq(t, j requires 0 <= j < t => lists[j][0])
  {
    if lists != [] {
      var t' := if t == 0 then 0 else t - 1;
      HeadsOfPrefix(lists[1..], t');
      if t > 0 {
        assert Heads(lists) == [lists[0][0]] + Heads(lists[1..]);
      }
    }
  }

  /** The number of lists that are non-empty before a round: min(N, K). */
  function RoundWidth(n: nat, k: nat): nat
  {
    if n < k then n else k
  }

  /** Before a round, the lists that are non-empty are exactly the first min(N, K). */
  lemma RoundShape<T>(lists: seq<seq<T>>, s: seq<T>)
    requires RoundRobinOf(lists, s)
    ensures var k, t := |lists|, RoundWidth(|s|, |lists|);
      forall j :: 0 <= j < k ==>
        && |lists[j]| == ShareSize(|s| - t, k, j) + (if j < t then 1 else 0)
        && (|s| <= k ==> ShareSize(|s| - t, k, j) == 0)
  {
    var k := |lists|;
    forall j | 0 <= j < k
      ensures |lists[j]| == ShareSize(|s| - RoundWidth(|s|, k), k, j) + (if j < RoundWidth(|s|, k) then 1 else 0)
      ensures |s| <= k ==> ShareSize(|s| - RoundWidth(|s|, k), k, j) == 0
    {
      ShareSizeAfterRound(|s|, k, j);
    }
  }

  /** One round of reading yields the next min(N, K) elements of `s`. */
  lemma HeadsOfRound<T>(lists: seq<seq<T>>, s: seq<T>)
    requires RoundRobinOf(lists, s)
    ensures Heads(lists) == s[..RoundWidth(|s|, |lists|)]
  {
    var k, t := |lists|, RoundWidth(|s|, |lists|);
    RoundShape(lists, s);
    HeadsOfPrefix(lists, t);
    var heads := Heads(lists);
    forall j | 0 <= j < t ensures heads[j] == s[j] {
      assert lists[j][0] == s[j + Stride(0, k)];
    }
  }

  /** What is left after one round is the round-robin dealing of the rest of `s`. */
  lemma TailsOfRound<T>(lists: seq<seq<T>>, s: seq<T>)
    requires RoundRobinOf(lists, s)
    ensures RoundRobinOf(Tails(lists), s[RoundWidth(|s|, |lists|)..])
  {
    TailsShares(lists, s);
    TailsStrided(lists, s);
  }

  /** After one round each agent's share is its share of the remaining elements. */
  lemma TailsShares<T>(lists: seq<seq<T>>, s: seq<T>)
    requires RoundRobinOf(lists, s)
    ensures forall j :: 0 <= j < |lists| ==>
      |Tails(lists)[j]| == ShareSize(|s| - RoundWidth(|s|, |lists|), |lists|, j)
  {
    var k, t := |lists|, RoundWidth(|s|, |lists|);
    var tails := Tails(lists);
    RoundShape(lists, s);
    forall j | 0 <= j < k
      ensures |tails[j]| == ShareSize(|s| - t, k, j)
    {
      if j < t {
        assert lists[j] != [] && tails[j] == lists[j][1..];
      } else {
        assert lists[j] == [] && tails[j] == [];
      }
    }
  }

  /** After one round the remaining elements still sit K positions apart. */
  lemma TailsStrided<T>(lists: seq<seq<T>>, s: seq<T>)
    requires Strided(lists, s)
    ensures Strided(Tails(lists), s[RoundWidth(|s|, |lists|)..])
  {
    var k, t := |lists|, RoundWidth(|s|, |lists|);
    var tails, rest := Tails(lists), s[t..];
    forall j, m | 0 <= j < k && 0 <= m < |tails[j]|
      ensures j + Stride(m, k) < |rest| && tails[j][m] == rest[j + Stride(m, k)]
    {
      TailAt(lists, j, m);
      StridedAt(lists, s, j, m + 1);
      StrideNext(m, k);
    }
  }

  /** Past the first round, the m-th element left to agent j is its (m + 1)-th. */
  lemma TailAt<T>(lists: seq<seq<T>>, j: nat, m: nat)
    requires j < |lists| && m < |Tails(lists)[j]|
    ensures m + 1 < |lists[j]| && Tails(lists)[j][m] == lists[j][m + 1]
  {
    assert lists[j] != [];
  }

  lemma StrideNext(m: nat, k: nat)
    ensures Stride(m + 1, k) == Stride(m, k) + k
  {
  }

  lemma StridedAt<T>(lists: seq<seq<T>>, s: seq<T>, j: nat, m: nat)
    requires Strided(lists, s) && j < |lists| && m < |lists[j]|
    ensures j + Stride(m, |lists|) < |s| && lists[j][m] == s[j + Stride(m, |lists|)]
  {
  }

  /** Round-robin reading inverts round-robin dealing. */
  lemma {:induction false} InterleaveRoundRobin<T>(lists: seq<seq<T>>, s: seq<T>)
    requires RoundRobinOf(lists, s)
    ensures Interleave(lists) == s
    decreases |s|
  {
    var t := RoundWidth(|s|, |lists|);
    HeadsOfRound(lists, s);
    TailsSize(lists);
    if s != [] {
      TailsOfRound(lists, s);
      InterleaveRoundRobin(Tails(lists), s[t..]);
      assert s == s[..t] + s[t..];
    }
  }

  /**
   * Interleaving the agents' lists round-robin rebuilds the dealt sequence, so
   * the shares together hold exactly N records.
   */
  lemma DealInterleavesBack<T>(xs: seq<T>, agentIds: seq<AgentId>)
    requires |agentIds| > 0 && Distinct(agentIds)
    ensures Interleave(AgentLists(xs, agentIds)) == xs
    ensures TotalSize(AgentLists(xs, agentIds)) == |xs|
  {
    var lists := AgentLists(xs, agentIds);
    forall j | 0 <= j < |agentIds|
      ensures |lists[j]| == ShareSize(|xs|, |lists|, j)
      ensures forall m :: 0 <= m < |lists[j]| ==>
        j + Stride(m, |lists|) < |xs| && lists[j][m] == xs[j + Stride(m, |lists|)]
    {
      DealtByResidue(xs, agentIds, j);
      forall m | 0 <= m < |lists[j]|
        ensures j + Stride(m, |lists|) < |xs| && lists[j][m] == xs[j + Stride(m, |lists|)]
      {
        StrideIsProduct(m, |lists|);
      }
    }
    InterleaveRoundRobin(lists, xs);
  }
}
