/**
 * An in-memory stand-in for the database the upload handler talks to: the
 * agents collection, read by owner, and the ListItem collection, which only
 * grows. Each saved document gets the next position as its identifier, so a
 * new document never shares an identifier with an older one.
 */
module Store {
  import opened Results
  import opened Rows
  import opened Distribution

  type UserId = string

  /** An agent document, with the two fields the upload reads: its id and its owner. */
  datatype Agent = Agent(id: AgentId, createdBy: UserId)

  /** A saved ListItem document; `id` stands for the identifier the database generates. */
  datatype ListItem = ListItem(id: nat, firstName: string, phone: string, notes: Cell, assignedAgent: AgentId)

  const SaveErrorMessage := "ListItem validation failed"

  /** The document that saving `record` for `agentId` creates under identifier `id`. */
  function Saved(id: nat, agentId: AgentId, record: Record): ListItem
  {
    ListItem(id, record.firstName, record.phone, record.notes, agentId)
  }

  /** The ids of `owner`'s agents, in collection order. */
  function OwnedBy(agents: seq<Agent>, owner: UserId): seq<AgentId>
  {
    if agents == [] then []
    else
      var last := agents[|agents| - 1];
      OwnedBy(agents[..|agents| - 1], owner) + (if last.createdBy == owner then [last.id] else [])
  }

  /** Some agent in the collection has id `id` and was created by `owner`. */
  ghost predicate Owns(agents: seq<Agent>, owner: UserId, id: AgentId)
  {
    exists j :: 0 <= j < |agents| && agents[j].createdBy == owner && agents[j].id == id
  }

  /** `OwnedBy` lists the id of every agent `owner` created, and only those. */
  lemma {:induction false} OwnedByExactly(agents: seq<Agent>, owner: UserId)
    ensures forall id :: id in OwnedBy(agents, owner) <==> Owns(agents, owner, id)
  {
    if agents != [] {
      var init, last := agents[..|agents| - 1], agents[|agents| - 1];
      OwnedByExactly(init, owner);
      var prev, ids := OwnedBy(init, owner), OwnedBy(agents, owner);
      assert ids == prev + (if last.createdBy == owner then [last.id] else []);
      forall id
        ensures id in ids <==> Owns(agents, owner, id)
      {
        if id in prev {
          var j :| 0 <= j < |init| && init[j].createdBy == owner && init[j].id == id;
          assert agents[j] == init[j];
        }
        if last.createdBy == owner {
          assert agents[|agents| - 1] == last;
        }
        if Owns(agents, owner, id) {
          var j :| 0 <= j < |agents| && agents[j].createdBy == owner && agents[j].id == id;
          if j < |init| {
            assert init[j] == agents[j];
            assert Owns(init, owner, id);
          }
        }
      }
    }
  }

  ghost predicate DistinctAgents(agents: seq<Agent>)
  {
    forall a, b :: 0 <= a < b < |agents| ==> agents[a].id != agents[b].id
  }

  /** A subsequence of agents with distinct ids has distinct ids. */
  lemma {:induction false} OwnedByDistinct(agents: seq<Agent>, owner: UserId)
    requires DistinctAgents(agents)
    ensures Distinct(OwnedBy(agents, owner))
  {
    if agents != [] {
      var init, last := agents[..|agents| - 1], agents[|agents| - 1];
      OwnedByDistinct(init, owner);
      OwnedByExactly(init, owner);
      var prev := OwnedBy(init, owner);
      forall k | 0 <= k < |prev| ensures prev[k] != last.id {
        assert Owns(init, owner, prev[k]);
        var j :| 0 <= j < |init| && init[j].createdBy == owner && init[j].id == prev[k];
        assert agents[j] == init[j];
      }
    }
  }

  /** One agent's list as (agent, record) pairs. */
  function Tagged(agentId: AgentId, records: seq<Record>): seq<(AgentId, Record)>
  {
    seq(|records|, m requires 0 <= m < |records| => (agentId, records[m]))
  }

  /** Every agent of the key order has a list in the distribution. */
  predicate Listed(agentIds: seq<AgentId>, distribution: map<AgentId, seq<Record>>)
  {
    forall i | 0 <= i < |agentIds| :: agentIds[i] in distribution
  }

  /**
   * The (agent, record) pairs that `saveDistributedItems` saves for the first
   * n agents of the key order: agent by agent, each agent's list front to back.
   */
  function SaveOrder(agentIds: seq<AgentId>, distribution: map<AgentId, seq<Record>>, n: nat): seq<(AgentId, Record)>
    requires Listed(agentIds, distribution) && n <= |agentIds|
  {
    if n == 0 then []
    else SaveOrder(agentIds, distribution, n - 1) + Tagged(agentIds[n - 1], distribution[agentIds[n - 1]])
  }

  /** The documents that saving `pending` creates, numbered from `base` on. */
  function Stamp(pending: seq<(AgentId, Record)>, base: nat): (r: seq<ListItem>)
    ensures |r| == |pending|
  {
    seq(|pending|, k requires 0 <= k < |pending| => Saved(base + k, pending[k].0, pending[k].1))
  }

  /** How many saves succeed when the store rejects the save with ordinal `firstFailure`. */
  function SavesMade(total: nat, firstFailure: Option<nat>): (n: nat)
    ensures n <= total
  {
    if firstFailure.Some? && firstFailure.value < total then firstFailure.value else total
  }

  /** The pairs saved for the first a agents are the first pairs saved for the first n. */
  lemma {:induction false} SaveOrderPrefix(agentIds: seq<AgentId>, distribution: map<AgentId, seq<Record>>, a: nat, n: nat)
    requires Listed(agentIds, distribution) && a <= n <= |agentIds|
    ensures |SaveOrder(agentIds, distribution, a)| <= |SaveOrder(agentIds, distribution, n)|
    ensures SaveOrder(agentIds, distribution, n)[..|SaveOrder(agentIds, distribution, a)|] == SaveOrder(agentIds, distribution, a)
    decreases n
  {
    var done := SaveOrder(agentIds, distribution, a);
    if a < n {
      SaveOrderPrefix(agentIds, distribution, a, n - 1);
      var prev := SaveOrder(agentIds, distribution, n - 1);
      var last := Tagged(agentIds[n - 1], distribution[agentIds[n - 1]]);
      assert (prev + last)[..|done|] == prev[..|done|];
    } else {
      assert done[..|done|] == done;
    }
  }

  /** The rejected ordinal counted from `offset` saves on, when it lies that far ahead. */
  function Later(firstFailure: Option<nat>, offset: nat): Option<nat>
  {
    if firstFailure.Some? && firstFailure.value >= offset then Some(firstFailure.value - offset) else None
  }

  lemma {:induction false} StampAppend(p: seq<(AgentId, Record)>, q: seq<(AgentId, Record)>, base: nat)
    ensures Stamp(p + q, base) == Stamp(p, base) + Stamp(q, base + |p|)
    decreases |q|
  {
    if q == [] {
      assert p + q == p;
    } else {
      var n := |q| - 1;
      assert (p + q)[..|p| + n] == p + q[..n] && (p + q)[|p| + n] == q[n];
      StampAppend(p, q[..n], base);
    }
  }

  /** The pairs saved through agent a's first `made` records continue those of the agents before it. */
  lemma PendingThroughAgent(agentIds: seq<AgentId>, distribution: map<AgentId, seq<Record>>, a: nat, made: nat)
    requires Listed(agentIds, distribution)
    requires a < |agentIds| && made <= |distribution[agentIds[a]]|
    ensures var done, id := SaveOrder(agentIds, distribution, a), agentIds[a];
      var pending := SaveOrder(agentIds, distribution, |agentIds|);
      && |done| + |distribution[id]| <= |pending|
      && pending[..|done| + made] == done + Tagged(id, distribution[id])[..made]
  {
    var done, id := SaveOrder(agentIds, distribution, a), agentIds[a];
    var tagged := Tagged(id, distribution[id]);
    var pending := SaveOrder(agentIds, distribution, |agentIds|);
    SaveOrderPrefix(agentIds, distribution, a + 1, |agentIds|);
    var through := SaveOrder(agentIds, distribution, a + 1);
    assert through == done + tagged;
    assert pending[..|done| + made] == through[..|done| + made] == done + tagged[..made];
  }

  /** The documents saved for the i-th agent: its list, numbered after everything saved for the agents before it. */
  function SavedFor(agentIds: seq<AgentId>, distribution: map<AgentId, seq<Record>>, i: nat, base: nat): (r: seq<ListItem>)
    requires Listed(agentIds, distribution) && i < |agentIds|
    ensures |r| == |distribution[agentIds[i]]|
  {
    Stamp(Tagged(agentIds[i], distribution[agentIds[i]]), base + |SaveOrder(agentIds, distribution, i)|)
  }

  /**
   * Once the store holds the documents of the whole save order, the m-th
   * document saved for the i-th agent carries that agent and the m-th record
   * of its list, and it is the document the store holds under its identifier.
   */
  lemma SavedForInStore(agentIds: seq<AgentId>, distribution: map<AgentId, seq<Record>>, prefix: seq<ListItem>, i: nat, m: nat)
    requires Listed(agentIds, distribution)
    requires i < |agentIds| && m < |distribution[agentIds[i]]|
    ensures var d := SavedFor(agentIds, distribution, i, |prefix|)[m];
      var items := prefix + Stamp(SaveOrder(agentIds, distribution, |agentIds|), |prefix|);
      && d == Saved(d.id, agentIds[i], distribution[agentIds[i]][m])
      && d.id < |items| && items[d.id] == d
  {
    var done := SaveOrder(agentIds, distribution, i);
    var tagged := Tagged(agentIds[i], distribution[agentIds[i]]);
    PendingThroughAgent(agentIds, distribution, i, |tagged|);
    var pending := SaveOrder(agentIds, distribution, |agentIds|);
    assert pending[|done| + m] == (done + tagged)[|done| + m] == tagged[m];
  }

  /**
   * When the rejected save falls inside agent a's list, the saves made are
   * exactly the first `firstFailure` pairs of the whole save order.
   */
  lemma FailureWithinAgent(agentIds: seq<AgentId>, distribution: map<AgentId, seq<Record>>, a: nat, firstFailure: Option<nat>)
    requires Listed(agentIds, distribution)
    requires a < |agentIds|
    requires var done, n := |SaveOrder(agentIds, distribution, a)|, |distribution[agentIds[a]]|;
      SavesMade(n, Later(firstFailure, done)) < n
    ensures var done, id := SaveOrder(agentIds, distribution, a), agentIds[a];
      var made := SavesMade(|distribution[id]|, Later(firstFailure, |done|));
      var pending := SaveOrder(agentIds, distribution, |agentIds|);
      && SavesMade(|pending|, firstFailure) < |pending|
      && pending[..SavesMade(|pending|, firstFailure)] == done + Tagged(id, distribution[id])[..made]
  {
    var done, id := SaveOrder(agentIds, distribution, a), agentIds[a];
    PendingThroughAgent(agentIds, distribution, a, SavesMade(|distribution[id]|, Later(firstFailure, |done|)));
  }

  /** The agent-to-documents map `saveDistributedItems` builds once the first n agents are saved. */
  function SavedLists(agentIds: seq<AgentId>, distribution: map<AgentId, seq<Record>>, n: nat, base: nat): map<AgentId, seq<ListItem>>
    requires Listed(agentIds, distribution) && n <= |agentIds|
  {
    if n == 0 then map[]
    else SavedLists(agentIds, distribution, n - 1, base)[agentIds[n - 1] := SavedFor(agentIds, distribution, n - 1, base)]
  }

  /** The saved map has exactly the first n agents as keys. */
  lemma {:induction false} SavedListsKeys(agentIds: seq<AgentId>, distribution: map<AgentId, seq<Record>>, n: nat, base: nat)
    requires Listed(agentIds, distribution) && n <= |agentIds|
    ensures SavedLists(agentIds, distribution, n, base).Keys == set i | 0 <= i < n :: agentIds[i]
  {
    if n > 0 {
      SavedListsKeys(agentIds, distribution, n - 1, base);
      assert (set i | 0 <= i < n :: agentIds[i]) == (set i | 0 <= i < n - 1 :: agentIds[i]) + {agentIds[n - 1]};
    }
  }

  /** With distinct ids no agent's list is overwritten: the i-th agent maps to the documents saved for it. */
  lemma {:induction false} SavedListsAt(agentIds: seq<AgentId>, distribution: map<AgentId, seq<Record>>, n: nat, base: nat, i: nat)
    requires Distinct(agentIds) && Listed(agentIds, distribution) && i < n <= |agentIds|
    ensures agentIds[i] in SavedLists(agentIds, distribution, n, base)
    ensures SavedLists(agentIds, distribution, n, base)[agentIds[i]] == SavedFor(agentIds, distribution, i, base)
  {
    if i < n - 1 {
      SavedListsAt(agentIds, distribution, n - 1, base, i);
      assert agentIds[i] != agentIds[n - 1];
    }
  }

  class Database {
    var agents: seq<Agent>
    var listItems: seq<ListItem>
    /** The owners whose agents were looked up, in lookup order. */
    ghost var agentQueries: seq<UserId>

    /** Agent ids are unique, and every document's id is its position in the collection. */
    ghost predicate Valid()
      reads this
    {
      && DistinctAgents(agents)
      && forall k :: 0 <= k < |listItems| ==> listItems[k].id == k
    }

    constructor (agents: seq<Agent>)
      requires DistinctAgents(agents)
      ensures Valid() && this.agents == agents && listItems == [] && agentQueries == []
    {
      this.agents := agents;
      listItems := [];
      agentQueries := [];
    }

    /** `Agent.find({ createdBy: owner }).select('_id')` */
    method FindAgents(owner: UserId) returns (ids: seq<AgentId>)
      requires Valid()
      modifies this`agentQueries
      ensures Valid()
      ensures ids == OwnedBy(agents, owner) && Distinct(ids)
      ensures agentQueries == old(agentQueries) + [owner]
    {
      OwnedByDistinct(agents, owner);
      ids := OwnedBy(agents, owner);
      agentQueries := agentQueries + [owner];
    }

    /** `new ListItem({...}).save()`: the store either appends the document or rejects it. */
    method Save(agentId: AgentId, record: Record, reject: bool) returns (r: Result<ListItem>)
      requires Valid()
      modifies this`listItems
      ensures Valid()
      ensures reject ==> r == Err(SaveErrorMessage) && listItems == old(listItems)
      ensures !reject ==> r == Ok(Saved(|old(listItems)|, agentId, record)) && listItems == old(listItems) + [r.value]
    {
      if reject {
        return Err(SaveErrorMessage);
      }
      var item := Saved(|listItems|, agentId, record);
      listItems := listItems + [item];
      r := Ok(item);
    }

    /**
     * The inner loop of `saveDistributedItems`: save one agent's records in
     * order, after the `done` pairs already saved from position `base` on.
     */
    method SaveAgentItems(agentId: AgentId, agentItems: seq<Record>, base: nat,
                          ghost prefix: seq<ListItem>, ghost done: seq<(AgentId, Record)>, firstFailure: Option<nat>)
      returns (r: Result<seq<ListItem>>)
      requires Valid() && base == |prefix| && listItems == prefix + Stamp(done, base)
      requires firstFailure.Some? ==> |done| <= firstFailure.value
      modifies this`listItems
      ensures Valid()
      ensures var made := SavesMade(|agentItems|, Later(firstFailure, |done|));
        && listItems == prefix + Stamp(done + Tagged(agentId, agentItems)[..made], base)
        && (r.Ok? <==> made == |agentItems|)
      ensures r.Err? ==> r.message == SaveErrorMessage
      ensures r.Ok? ==> r.value == Stamp(Tagged(agentId, agentItems), base + |done|)
    {
      var savedItems: seq<ListItem> := [];
      ghost var tagged := Tagged(agentId, agentItems);
      for m := 0 to |agentItems|
        invariant Valid()
        invariant |listItems| == base + |done| + m
        invariant firstFailure.Some? ==> |done| + m <= firstFailure.value
        invariant listItems == prefix + Stamp(done + tagged[..m], base)
        invariant savedItems == Stamp(tagged[..m], base + |done|)
      {
        var saved := Save(agentId, agentItems[m], firstFailure == Some(|listItems| - base));
        if saved.Err? {
          return Err(saved.message);
        }
        savedItems := savedItems + [saved.value];
        assert done + tagged[..m + 1] == (done + tagged[..m]) + [tagged[m]];
        StampAppend(done + tagged[..m], [tagged[m]], base);
        StampAppend(tagged[..m], [tagged[m]], base + |done|);
      }
      assert tagged[..|agentItems|] == tagged;
      r := Ok(savedItems);
    }

    /**
     * `saveDistributedItems`: one save per distributed record, agent by agent.
     * The store rejects the save with ordinal `firstFailure`, if any, and the
     * saves made before it stay in place.
     */
    method SaveDistributedItems(agentIds: seq<AgentId>, distribution: map<AgentId, seq<Record>>, firstFailure: Option<nat>)
      returns (r: Result<map<AgentId, seq<ListItem>>>)
      requires Valid()
      requires Distinct(agentIds) && Listed(agentIds, distribution)
      modifies this`listItems
      ensures Valid()
      ensures var pending := SaveOrder(agentIds, distribution, |agentIds|);
        var added := Stamp(pending[..SavesMade(|pending|, firstFailure)], |old(listItems)|);
        && listItems == old(listItems) + added
        && (r.Ok? <==> SavesMade(|pending|, firstFailure) == |pending|)
      ensures r.Err? ==> r.message == SaveErrorMessage
      ensures r.Ok? ==> r.value == SavedLists(agentIds, distribution, |agentIds|, |old(listItems)|)
    {
      var base := |listItems|;
      ghost var savedPairs: seq<(AgentId, Record)> := [];
      var savedDistribution: map<AgentId, seq<ListItem>> := map[];
      for a := 0 to |agentIds|
        invariant Valid()
        invariant savedPairs == SaveOrder(agentIds, distribution, a)
        invariant firstFailure.Some? ==> |savedPairs| <= firstFailure.value
        invariant listItems == old(listItems) + Stamp(savedPairs, base)
        invariant savedDistribution == SavedLists(agentIds, distribution, a, base)
      {
        var agentId := agentIds[a];
        var agentItems := distribution[agentId];
        var savedItems := SaveAgentItems(agentId, agentItems, base, old(listItems), savedPairs, firstFailure);
        if savedItems.Err? {
          FailureWithinAgent(agentIds, distribution, a, firstFailure);
          return Err(savedItems.message);
        }
        assert Tagged(agentId, agentItems)[..|agentItems|] == Tagged(agentId, agentItems);
        savedPairs := savedPairs + Tagged(agentId, agentItems);
        savedDistribution := savedDistribution[agentId := savedItems.value];
      }
      assert savedPairs[..SavesMade(|savedPairs|, firstFailure)] == savedPairs;
      r := Ok(savedDistribution);
    }
  }
}
