/**
 * The upload handler: the order in which `uploadAndDistributeList` checks
 * its input, looks up the caller's agents, deals the valid rows out and
 * saves them, and the response each path ends in.
 */
module ListController {
  import opened Results
  import opened Rows
  import opened FileFilter
  import opened Validation
  import opened Distribution
  import opened Interleaving
  import opened Store

  /**
   * The uploaded file as the handler sees it: the name the client gave it and
   * what the parser for its extension yields (the rows, or the error it throws).
   */
  datatype Upload = Upload(originalName: string, parsed: Result<seq<Row>>)

  /** The JSON body of a response. */
  datatype Body =
    | Message(message: string)
    | Failure(message: string, error: string)
    | Distributed(message: string, totalItems: nat, distribution: map<AgentId, seq<ListItem>>)

  datatype Response = Response(status: nat, body: Body)

  const NoFileMessage := "No file uploaded"
  const NoValidItemsMessage := "No valid items found in the file"
  const NoAgentsMessage := "No agents found. Please add agents first."
  const SuccessMessage := "List uploaded and distributed successfully"
  const FailureMessage := "Error processing file upload"
  /** What filtering the never-assigned `listItems` throws when the extension has no parser. */
  const NoParserError := "Cannot read properties of undefined (reading 'filter')"

  /**
   * The rows the handler goes on with: the parser's outcome for a name the
   * upload gate accepts, and for any other name the TypeError that filtering
   * the unassigned list throws.
   */
  function ParsedRows(file: Upload): (r: Result<seq<Row>>)
    ensures FileFilter.FileFilter(file.originalName) == Ok(true) ==> r == file.parsed
    ensures FileFilter.FileFilter(file.originalName).Err? ==> r == Err(NoParserError)
  {
    var ext := ToLower(ExtName(file.originalName));
    if ext == ".csv" || ext == ".xlsx" || ext == ".xls" then file.parsed else Err(NoParserError)
  }

  /**
   * What dealing `valid` over `agentIds` and saving it does to a store that
   * held `before` and now holds `after`: the saves made, in save order, are
   * appended; a rejected save answers 500, and otherwise the response reports
   * the number of valid rows and each agent's saved documents.
   */
  ghost predicate SavedAndAnswered(before: seq<ListItem>, after: seq<ListItem>, res: Response,
                                   valid: seq<Row>, agentIds: seq<AgentId>, firstFailure: Option<nat>)
    requires |agentIds| > 0 && forall k :: 0 <= k < |valid| ==> IsValidItem(valid[k])
  {
    var distribution := Deal(ToRecords(valid), agentIds);
    var pending := SaveOrder(agentIds, distribution, |agentIds|);
    var made := SavesMade(|pending|, firstFailure);
    && after == before + Stamp(pending[..made], |before|)
    && (made < |pending| ==> res == Response(500, Failure(FailureMessage, SaveErrorMessage)))
    && (made == |pending| ==>
          res == Response(200, Distributed(SuccessMessage, |valid|, SavedLists(agentIds, distribution, |agentIds|, |before|))))
  }

  /**
   * `uploadAndDistributeList`: each check answers before anything later runs.
   * No file, no parser, a parse error and no valid rows end the request before
   * the agent lookup; no agents ends it after the lookup but before any save.
   */
  method UploadAndDistributeList(db: Database, file: Option<Upload>, user: UserId, firstFailure: Option<nat>)
    returns (res: Response)
    requires db.Valid()
    modifies db`listItems, db`agentQueries
    ensures db.Valid() && db.agents == old(db.agents)
    ensures file.None? ==> res == Response(400, Message(NoFileMessage)) && unchanged(db)
    ensures file.Some? && ParsedRows(file.value).Err? ==>
      res == Response(500, Failure(FailureMessage, ParsedRows(file.value).message)) && unchanged(db)
    ensures file.Some? && ParsedRows(file.value).Ok? && ValidItems(ParsedRows(file.value).value) == [] ==>
      res == Response(400, Message(NoValidItemsMessage)) && unchanged(db)
    ensures file.Some? && ParsedRows(file.value).Ok? && ValidItems(ParsedRows(file.value).value) != [] ==>
      var valid := ValidItems(ParsedRows(file.value).value);
      var agentIds := OwnedBy(db.agents, user);
      && db.agentQueries == old(db.agentQueries) + [user]
      && (agentIds == [] ==> res == Response(400, Message(NoAgentsMessage)) && db.listItems == old(db.listItems))
      && (agentIds != [] ==> SavedAndAnswered(old(db.listItems), db.listItems, res, valid, agentIds, firstFailure))
  {
    if file.None? {
      return Response(400, Message(NoFileMessage));
    }
    var parsed := ParsedRows(file.value);
    if parsed.Err? {
      return Response(500, Failure(FailureMessage, parsed.message));
    }
    var valid := ValidItems(parsed.value);
    if |valid| == 0 {
      return Response(400, Message(NoValidItemsMessage));
    }
    var agentIds := db.FindAgents(user);
    if |agentIds| == 0 {
      return Response(400, Message(NoAgentsMessage));
    }
    res := DistributeAndSave(db, valid, agentIds, firstFailure);
  }

  /**
   * The tail of `uploadAndDistributeList` once there are valid rows and
   * agents: `distributeItems`, then `saveDistributedItems`, then the response.
   */
  method DistributeAndSave(db: Database, valid: seq<Row>, agentIds: seq<AgentId>, firstFailure: Option<nat>)
    returns (res: Response)
    requires db.Valid()
    requires |agentIds| > 0 && Distinct(agentIds) && forall k :: 0 <= k < |valid| ==> IsValidItem(valid[k])
    modifies db`listItems
    ensures db.Valid() && db.agents == old(db.agents)
    ensures SavedAndAnswered(old(db.listItems), db.listItems, res, valid, agentIds, firstFailure)
  {
    var distribution := DistributeItems(valid, agentIds);
    var saved := db.SaveDistributedItems(agentIds, distribution, firstFailure);
    if saved.Err? {
      return Response(500, Failure(FailureMessage, saved.message));
    }
    return Response(200, Distributed(SuccessMessage, |valid|, saved.value));
  }

  lemma {:induction false} TotalSizeSnoc<T>(lists: seq<seq<T>>, last: seq<T>)
    ensures TotalSize(lists + [last]) == TotalSize(lists) + |last|
  {
    if lists == [] {
      assert ([] + [last])[1..] == [];
    } else {
      assert (lists + [last])[1..] == lists[1..] + [last];
      TotalSizeSnoc(lists[1..], last);
    }
  }

  /** The first n agents' saves number as many as the records dealt to them. */
  lemma {:induction false} SaveOrderSize(records: seq<Record>, agentIds: seq<AgentId>, n: nat)
    requires |agentIds| > 0 && n <= |agentIds|
    ensures |SaveOrder(agentIds, Deal(records, agentIds), n)| == TotalSize(AgentLists(records, agentIds)[..n])
  {
    if n > 0 {
      var lists := AgentLists(records, agentIds);
      SaveOrderSize(records, agentIds, n - 1);
      assert lists[..n] == lists[..n - 1] + [lists[n - 1]];
      TotalSizeSnoc(lists[..n - 1], lists[n - 1]);
    }
  }

  /** Saving a dealt distribution makes exactly one save per record: no record is dropped or saved twice. */
  lemma SaveCountIsRecordCount(records: seq<Record>, agentIds: seq<AgentId>)
    requires |agentIds| > 0 && Distinct(agentIds)
    ensures |SaveOrder(agentIds, Deal(records, agentIds), |agentIds|)| == |records|
  {
    var lists := AgentLists(records, agentIds);
    SaveOrderSize(records, agentIds, |agentIds|);
    assert lists[..|agentIds|] == lists;
    DealInterleavesBack(records, agentIds);
  }

  /**
   * The store only grows. A 200 answer means exactly one document was added
   * per valid row; a 500 answer means fewer were.
   */
  lemma SavedAndAnsweredCounts(before: seq<ListItem>, after: seq<ListItem>, res: Response,
                               valid: seq<Row>, agentIds: seq<AgentId>, firstFailure: Option<nat>)
    requires |agentIds| > 0 && Distinct(agentIds) && forall k :: 0 <= k < |valid| ==> IsValidItem(valid[k])
    requires SavedAndAnswered(before, after, res, valid, agentIds, firstFailure)
    ensures |before| <= |after| && after[..|before|] == before
    ensures res.status == 200 || res.status == 500
    ensures res.status == 200 <==> |after| == |before| + |valid|
    ensures res.status == 200 ==> res.body.Distributed? && res.body.totalItems == |valid|
    ensures res.status == 500 ==> |after| < |before| + |valid|
  {
    SaveCountIsRecordCount(ToRecords(valid), agentIds);
    assert after[..|before|] == before;
  }

  /**
   * The map a 200 answer reports and the store after it: every agent of the
   * caller is a key, and the m-th document under agent i is the m-th record
   * dealt to it, assigned to that agent, and held by the store under its
   * identifier.
   */
  lemma SuccessListsMatchDeal(valid: seq<Row>, agentIds: seq<AgentId>, before: seq<ListItem>, i: nat)
    requires |agentIds| > 0 && Distinct(agentIds) && forall k :: 0 <= k < |valid| ==> IsValidItem(valid[k])
    requires i < |agentIds|
    ensures var distribution := Deal(ToRecords(valid), agentIds);
      var saved := SavedLists(agentIds, distribution, |agentIds|, |before|);
      && saved.Keys == (set j | 0 <= j < |agentIds| :: agentIds[j])
      && agentIds[i] in saved
      && |saved[agentIds[i]]| == |Dealt(ToRecords(valid), agentIds, agentIds[i])|
    ensures var distribution := Deal(ToRecords(valid), agentIds);
      var saved := SavedLists(agentIds, distribution, |agentIds|, |before|)[agentIds[i]];
      var after := before + Stamp(SaveOrder(agentIds, distribution, |agentIds|), |before|);
      forall m :: 0 <= m < |saved| ==>
        && saved[m] == Saved(saved[m].id, agentIds[i], Dealt(ToRecords(valid), agentIds, agentIds[i])[m])
        && saved[m].assignedAgent == agentIds[i]
        && saved[m].id < |after| && after[saved[m].id] == saved[m]
  {
    var distribution := Deal(ToRecords(valid), agentIds);
    SavedListsKeys(agentIds, distribution, |agentIds|, |before|);
    SavedListsAt(agentIds, distribution, |agentIds|, |before|, i);
    forall m | 0 <= m < |distribution[agentIds[i]]| {
      SavedForInStore(agentIds, distribution, before, i, m);
    }
  }
}
