/** The list handlers: uploading a parsed file (keep the rows that have a
    first name and a phone, record a List, hand the kept rows out to the
    agents in round-robin blocks), deleting a List, and the per-agent
    distribution view. The Lead and List collections are the fields of a
    `LeadStore`; the Agent collection is passed in as a sequence. */
module ListController {
  import opened Models
  import opened Quotas
  import Grouping

  // ---------------------------------------------------------------------
  // Parsed rows

  /** A parsed CSV row: column name to cell text. */
  type Row = map<string, string>

  /** `row.<column>` is truthy: the column is there and its text is not
      empty (a blank of spaces counts as present). */
  predicate Present(row: Row, column: string)
  {
    column in row && row[column] != ""
  }

  /** A row is kept when both `FirstName` and `Phone` are present. */
  predicate Accepted(row: Row)
  {
    Present(row, "FirstName") && Present(row, "Phone")
  }

  /** The fields a kept row contributes to its Lead. */
  datatype LeadData = LeadData(firstName: string, phone: string, notes: string)

  /** The Lead fields of a kept row; a missing or empty `Notes` becomes "". */
  function Extract(row: Row): LeadData
    requires Accepted(row)
  {
    LeadData(row["FirstName"], row["Phone"], if Present(row, "Notes") then row["Notes"] else "")
  }

  /** The kept rows' Lead fields, in file order. */
  function Kept(rows: seq<Row>): seq<LeadData>
  {
    if rows == [] then []
    else
      var last := rows[|rows| - 1];
      Kept(rows[..|rows| - 1]) + (if Accepted(last) then [Extract(last)] else [])
  }

  /** The positions in the file of the kept rows. */
  function KeptIndices(rows: seq<Row>): seq<nat>
  {
    if rows == [] then []
    else KeptIndices(rows[..|rows| - 1]) + (if Accepted(rows[|rows| - 1]) then [|rows| - 1] else [])
  }

  /** Kept rows and their positions match one for one: each position is a
      row of the file that is accepted, and the kept fields are the ones
      `Extract` reads from that row. */
  lemma {:induction false} KeptFields(rows: seq<Row>)
    ensures |Kept(rows)| == |KeptIndices(rows)| <= |rows|
    ensures forall k :: 0 <= k < |KeptIndices(rows)| ==>
              && KeptIndices(rows)[k] < |rows|
              && Accepted(rows[KeptIndices(rows)[k]])
              && Kept(rows)[k] == Extract(rows[KeptIndices(rows)[k]])
  {
    if rows != [] {
      var init := rows[..|rows| - 1];
      KeptFields(init);
      assert forall i :: 0 <= i < |init| ==> init[i] == rows[i];
    }
  }

  /** The kept rows keep their file order, so none is kept twice. */
  lemma {:induction false} KeptOrder(rows: seq<Row>)
    ensures forall k :: 0 <= k < |KeptIndices(rows)| ==> KeptIndices(rows)[k] < |rows|
    ensures forall k1, k2 :: 0 <= k1 < k2 < |KeptIndices(rows)| ==> KeptIndices(rows)[k1] < KeptIndices(rows)[k2]
  {
    if rows != [] {
      KeptOrder(rows[..|rows| - 1]);
    }
  }

  /** Every accepted row is kept. */
  lemma {:induction false} KeptComplete(rows: seq<Row>)
    ensures forall i :: 0 <= i < |rows| && Accepted(rows[i]) ==> i in KeptIndices(rows)
  {
    if rows != [] {
      var init := rows[..|rows| - 1];
      KeptComplete(init);
      assert forall i :: 0 <= i < |init| ==> init[i] == rows[i];
    }
  }

  /** Gathering the rows as the parser delivers them: each accepted row is
      pushed, the others are dropped. */
  method CollectLeads(rows: seq<Row>) returns (leads: seq<LeadData>)
    ensures leads == Kept(rows)
  {
    leads := [];
    var k := 0;
    while k < |rows|
      invariant 0 <= k <= |rows|
      invariant leads == Kept(rows[..k])
    {
      var data := rows[k];
      if Present(data, "FirstName") && Present(data, "Phone") {
        leads := leads + [LeadData(data["FirstName"], data["Phone"],
                                   if Present(data, "Notes") then data["Notes"] else "")];
      }
      assert rows[..k + 1][..k] == rows[..k];
      k := k + 1;
    }
    assert rows[..k] == rows;
  }

  // ---------------------------------------------------------------------
  // The distribution of kept rows

  /** The Leads created for the kept rows, given the agents in store order
      and the id of the first new Lead: row `k` goes to the agent that owns
      it, copies the row's fields, and gets no list reference. */
  function Distribute(kept: seq<LeadData>, agentIds: seq<Id>, firstId: Id): seq<Lead>
    requires |agentIds| > 0
  {
    seq(|kept|, k requires 0 <= k < |kept| =>
      OwnerBlock(|kept|, |agentIds|, k);
      Lead(firstId + k, kept[k].firstName, kept[k].phone, kept[k].notes,
           Some(agentIds[Owner(|kept|, |agentIds|, k)]), None))
  }

  /** Every kept row gives exactly one Lead, which copies the row's fields,
      has no list reference, and goes to the agent whose block holds it. */
  lemma DistributedLead(kept: seq<LeadData>, agentIds: seq<Id>, firstId: Id, k: nat)
    requires |agentIds| > 0 && k < |kept|
    ensures |Distribute(kept, agentIds, firstId)| == |kept|
    ensures var lead, i := Distribute(kept, agentIds, firstId)[k], Owner(|kept|, |agentIds|, k);
            && i < |agentIds|
            && Start(|kept|, |agentIds|, i) <= k < Start(|kept|, |agentIds|, i) + Quota(|kept|, |agentIds|, i)
            && lead.assignedTo == Some(agentIds[i])
            && lead.firstName == kept[k].firstName && lead.phone == kept[k].phone && lead.notes == kept[k].notes
            && lead.listId == None
            && lead.id == firstId + k
  {
    OwnerBlock(|kept|, |agentIds|, k);
  }

  /** Agent `i` receives the kept rows `Start(i) .. Start(i) + Quota(i) - 1`. */
  lemma DistributedBlock(kept: seq<LeadData>, agentIds: seq<Id>, firstId: Id, i: nat, k: nat)
    requires |agentIds| > 0 && i < |agentIds|
    requires Start(|kept|, |agentIds|, i) <= k < Start(|kept|, |agentIds|, i) + Quota(|kept|, |agentIds|, i)
    ensures k < |kept| && Distribute(kept, agentIds, firstId)[k].assignedTo == Some(agentIds[i])
  {
    OwnerInBlock(|kept|, |agentIds|, i, k);
  }

  /** One step of the upload loop: the Lead made for row `k` of agent
      `i`'s block is the next Lead of the distribution. */
  lemma DistributeStep(kept: seq<LeadData>, agentIds: seq<Id>, firstId: Id, i: nat, k: nat)
    requires |agentIds| > 0 && i < |agentIds|
    requires Start(|kept|, |agentIds|, i) <= k < Start(|kept|, |agentIds|, i) + Quota(|kept|, |agentIds|, i)
    ensures k < |kept|
    ensures Distribute(kept, agentIds, firstId)[..k + 1] == Distribute(kept, agentIds, firstId)[..k] +
              [Lead(firstId + k, kept[k].firstName, kept[k].phone, kept[k].notes, Some(agentIds[i]), None)]
  {
    OwnerInBlock(|kept|, |agentIds|, i, k);
    var created := Distribute(kept, agentIds, firstId);
    assert created[..k + 1] == created[..k] + [created[k]];
  }

  /** The created Leads take the ids `firstId .. firstId + |kept| - 1`. */
  lemma CreatedIds(kept: seq<LeadData>, agentIds: seq<Id>, firstId: Id)
    requires |agentIds| > 0
    ensures forall l :: l in Distribute(kept, agentIds, firstId) ==> firstId <= l.id < firstId + |kept|
  {
  }

  /** The number of Leads in `leads` assigned to `agent`. */
  function CountAssigned(leads: seq<Lead>, agent: Id): nat
  {
    if leads == [] then 0
    else CountAssigned(leads[..|leads| - 1], agent) + (if leads[|leads| - 1].assignedTo == Some(agent) then 1 else 0)
  }

  lemma {:induction false} CountAssignedPrefix(kept: seq<LeadData>, agentIds: seq<Id>, firstId: Id, i: nat, m: nat)
    requires |agentIds| > 0 && i < |agentIds| && m <= |kept|
    requires forall a, b :: 0 <= a < b < |agentIds| ==> agentIds[a] != agentIds[b]
    ensures CountAssigned(Distribute(kept, agentIds, firstId)[..m], agentIds[i]) == OwnedBelow(|kept|, |agentIds|, i, m)
  {
    if m > 0 {
      var created := Distribute(kept, agentIds, firstId);
      CountAssignedPrefix(kept, agentIds, firstId, i, m - 1);
      assert created[..m][..m - 1] == created[..m - 1];
      OwnerBlock(|kept|, |agentIds|, m - 1);
    }
  }

  /** With the agents' ids distinct, agent `i` gets exactly its quota of
      Leads: `L / A`, or one more for the first `L % A` agents. */
  lemma AgentShare(kept: seq<LeadData>, agentIds: seq<Id>, firstId: Id, i: nat)
    requires |agentIds| > 0 && i < |agentIds|
    requires forall a, b :: 0 <= a < b < |agentIds| ==> agentIds[a] != agentIds[b]
    ensures CountAssigned(Distribute(kept, agentIds, firstId), agentIds[i]) == Quota(|kept|, |agentIds|, i)
  {
    var created := Distribute(kept, agentIds, firstId);
    CountAssignedPrefix(kept, agentIds, firstId, i, |kept|);
    assert created[..|kept|] == created;
    OwnedCount(|kept|, |agentIds|, i);
  }

  // ---------------------------------------------------------------------
  // The store and its handlers

  /** An uploaded file: its original name and its parsed rows. */
  datatype UploadedFile = UploadedFile(originalname: string, rows: seq<Row>)

  /** What the upload handler answers. */
  datatype UploadOutcome = NoFile | NoAgents | Stored(list: ListRecord)
  {
    function Status(): nat
    {
      match this
      case NoFile => 400
      case NoAgents => 400
      case Stored(_) => 201
    }

    function Message(): string
    {
      match this
      case NoFile => "No file uploaded"
      case NoAgents => "No agents available for distribution"
      case Stored(_) => "List uploaded and distributed successfully"
    }
  }

  /** What the distribution handler answers: 404, 500 when a lead's agent
      cannot be read, or the list with every stored lead grouped by agent. */
  datatype DistributionOutcome = ListNotFound | AgentUnreadable | Found(list: ListRecord, groups: seq<Grouping.Group>)
  {
    function Status(): nat
    {
      match this
      case ListNotFound => 404
      case AgentUnreadable => 500
      case Found(_, _) => 200
    }
  }

  /** The List document with id `id`, if there is one. */
  function FindList(lists: seq<ListRecord>, id: Id): (r: Option<ListRecord>)
    ensures r.Some? ==> r.value in lists && r.value.id == id
    ensures r.None? ==> forall l :: l in lists ==> l.id != id
  {
    if lists == [] then None
    else if lists[0].id == id then Some(lists[0])
    else FindList(lists[1..], id)
  }

  /** `lists` without the document whose id is `id`. */
  function WithoutList(lists: seq<ListRecord>, id: Id): seq<ListRecord>
  {
    if lists == [] then []
    else (if lists[0].id == id then [] else [lists[0]]) + WithoutList(lists[1..], id)
  }

  ghost predicate ListIdsDistinct(lists: seq<ListRecord>)
  {
    forall a, b :: 0 <= a < b < |lists| ==> lists[a].id != lists[b].id
  }

  /** Removing an id from lists with distinct ids drops exactly the one
      document with that id, if any, and keeps every other. */
  lemma {:induction false} WithoutListSpec(lists: seq<ListRecord>, id: Id)
    requires ListIdsDistinct(lists)
    ensures |WithoutList(lists, id)| == |lists| - (if FindList(lists, id).Some? then 1 else 0)
    ensures forall l :: l in WithoutList(lists, id) <==> l in lists && l.id != id
  {
    if lists != [] {
      WithoutListSpec(lists[1..], id);
    }
  }

  /** Every stored id is below the id counter, and List ids are distinct. */
  ghost predicate StoreInvariant(lists: seq<ListRecord>, leads: seq<Lead>, nextId: Id)
  {
    && (forall l :: l in lists ==> l.id < nextId)
    && (forall l :: l in leads ==> l.id < nextId)
    && ListIdsDistinct(lists)
  }

  /** A successful upload keeps the store invariant: the new List takes
      the counter's id, and the new Leads the ids after it. */
  lemma UploadKeepsInvariant(lists: seq<ListRecord>, leads: seq<Lead>, nextId: Id,
                             list: ListRecord, kept: seq<LeadData>, agentIds: seq<Id>)
    requires StoreInvariant(lists, leads, nextId) && list.id == nextId && |agentIds| > 0
    ensures StoreInvariant(lists + [list], leads + Distribute(kept, agentIds, nextId + 1), nextId + 1 + |kept|)
  {
    CreatedIds(kept, agentIds, nextId + 1);
    var lists' := lists + [list];
    forall a, b | 0 <= a < b < |lists'|
      ensures lists'[a].id != lists'[b].id
    {
      if b == |lists| {
        assert lists'[a] in lists;
      }
    }
  }

  /** The Lead and List collections. Ids come from one counter. */
  class LeadStore {
    var lists: seq<ListRecord>
    var leads: seq<Lead>
    var nextId: Id

    /** Every stored id is below the counter, and List ids are distinct. */
    ghost predicate Valid()
      reads this
    {
      StoreInvariant(lists, leads, nextId)
    }

    constructor ()
      ensures Valid() && lists == [] && leads == []
    {
      lists, leads, nextId := [], [], 0;
    }

    /** Upload and distribute a list. Without a file the answer is 400;
        with no agents it is 400 and nothing is stored. Otherwise one List
        is stored, with `totalLeads` the number of kept rows and status
        Distributed, and then one Lead per kept row, the rows handed out
        agent by agent: agent `i` takes the next `Quota(i)` rows. */
    method UploadList(file: Option<UploadedFile>, agentIds: seq<Id>) returns (outcome: UploadOutcome)
      requires Valid()
      modifies this
      ensures Valid()
      ensures file.None? ==> outcome == NoFile && lists == old(lists) && leads == old(leads) && nextId == old(nextId)
      ensures file.Some? && |agentIds| == 0 ==>
                outcome == NoAgents && lists == old(lists) && leads == old(leads) && nextId == old(nextId)
      ensures file.Some? && |agentIds| > 0 ==>
                var kept := Kept(file.value.rows);
                var list := MakeList(old(nextId), file.value.originalname, Some(|kept|), Some(Distributed));
                && outcome == Stored(list)
                && lists == old(lists) + [list]
                && leads == old(leads) + Distribute(kept, agentIds, old(nextId) + 1)
                && nextId == old(nextId) + 1 + |kept|
    {
      if file.None? {
        return NoFile;
      }
      var fileName := file.value.originalname;
      var kept := CollectLeads(file.value.rows);
      if |agentIds| == 0 {
        return NoAgents;
      }

      var list := MakeList(nextId, fileName, Some(|kept|), Some(Distributed));
      lists := lists + [list];
      nextId := nextId + 1;

      DistributeLeads(kept, agentIds);
      UploadKeepsInvariant(old(lists), old(leads), old(nextId), list, kept, agentIds);
      return Stored(list);
    }

    /** The distribution loops of the upload: agent `i`, in store order,
        is given the next `Quota(i)` kept rows, each becoming a Lead with
        the next id. */
    method DistributeLeads(kept: seq<LeadData>, agentIds: seq<Id>)
      requires |agentIds| > 0
      modifies this
      ensures lists == old(lists)
      ensures leads == old(leads) + Distribute(kept, agentIds, old(nextId))
      ensures nextId == old(nextId) + |kept|
    {
      ghost var created := Distribute(kept, agentIds, nextId);
      ghost var firstLeadId := nextId;
      assert |created| == |kept|;
      var leadsPerAgent := |kept| / |agentIds|;
      var remainder := |kept| % |agentIds|;
      var leadIndex := 0;
      var i := 0;
      while i < |agentIds|
        invariant 0 <= i <= |agentIds|
        invariant leadIndex == Start(|kept|, |agentIds|, i) <= |kept|
        invariant lists == old(lists)
        invariant leads == old(leads) + created[..leadIndex]
        invariant nextId == firstLeadId + leadIndex
      {
        var agentLeadCount := if i < remainder then leadsPerAgent + 1 else leadsPerAgent;
        assert agentLeadCount == Quota(|kept|, |agentIds|, i);
        var j := 0;
        while j < agentLeadCount && leadIndex < |kept|
          invariant 0 <= j <= agentLeadCount
          invariant leadIndex == Start(|kept|, |agentIds|, i) + j <= |kept|
          invariant lists == old(lists)
          invariant leads == old(leads) + created[..leadIndex]
          invariant nextId == firstLeadId + leadIndex
        {
          DistributeStep(kept, agentIds, firstLeadId, i, leadIndex);
          leads := leads + [Lead(nextId, kept[leadIndex].firstName, kept[leadIndex].phone, kept[leadIndex].notes,
                                 Some(agentIds[i]), None)];
          nextId := nextId + 1;
          leadIndex := leadIndex + 1;
          j := j + 1;
        }
        BlockInRange(|kept|, |agentIds|, i);
        StartStep(|kept|, |agentIds|, i);
        i := i + 1;
      }
      StartEnd(|kept|, |agentIds|);
      assert created[..leadIndex] == created;
    }

    /** Delete the List with id `id`: only that document goes; Leads and
        other Lists stay, and an unknown id still reports success. */
    method DeleteList(id: Id) returns (message: string)
      requires Valid()
      modifies this
      ensures Valid()
      ensures lists == WithoutList(old(lists), id)
      ensures leads == old(leads) && nextId == old(nextId)
      ensures message == "List deleted successfully"
    {
      WithoutListSpec(lists, id);
      WithoutListKeepsDistinct(lists, id);
      lists := WithoutList(lists, id);
      message := "List deleted successfully";
    }

    /** The distribution of a list: 404 when the list is absent; otherwise
        every stored Lead, whatever its list, resolved to its agent and
        grouped by agent; 500 when some Lead's agent cannot be read. */
    method GetListDistribution(id: Id, agents: seq<AgentRecord>) returns (outcome: DistributionOutcome)
      ensures outcome == ListNotFound <==> FindList(lists, id).None?
      ensures outcome == AgentUnreadable <==>
                FindList(lists, id).Some? && exists k :: 0 <= k < |leads| && !Grouping.Resolves(leads[k], agents)
      ensures outcome.Found? ==>
                && FindList(lists, id) == Some(outcome.list)
                && Grouping.Populate(leads, agents).Some?
                && Grouping.IsGrouping(Grouping.Populate(leads, agents).value, outcome.groups)
    {
      var list := FindList(lists, id);
      if list.None? {
        return ListNotFound;
      }
      var populated := Grouping.Populate(leads, agents);
      if populated.None? {
        return AgentUnreadable;
      }
      var groups := Grouping.GroupByAgent(populated.value);
      return Found(list.value, groups);
    }
  }

  lemma {:induction false} WithoutListKeepsDistinct(lists: seq<ListRecord>, id: Id)
    requires ListIdsDistinct(lists)
    ensures ListIdsDistinct(WithoutList(lists, id))
  {
    if lists != [] {
      WithoutListKeepsDistinct(lists[1..], id);
      WithoutListSpec(lists[1..], id);
      var rest := WithoutList(lists[1..], id);
      if lists[0].id != id {
        forall b | 0 <= b < |rest|
          ensures lists[0].id != rest[b].id
        {
          assert rest[b] in lists[1..];
        }
      }
    }
  }

  // ---------------------------------------------------------------------
  // A worked upload

  /** Three rows, the middle one without a first name, against two agents:
      two Leads, the first to the first agent and the second to the second. */
  lemma UploadExample(x: Id, y: Id, firstId: Id)
    ensures var rows := [map["FirstName" := "A", "Phone" := "1"],
                         map["FirstName" := "", "Phone" := "2"],
                         map["FirstName" := "B", "Phone" := "3"]];
            Distribute(Kept(rows), [x, y], firstId) ==
              [Lead(firstId, "A", "1", "", Some(x), None), Lead(firstId + 1, "B", "3", "", Some(y), None)]
  {
    var r0: Row := map["FirstName" := "A", "Phone" := "1"];
    var r1: Row := map["FirstName" := "", "Phone" := "2"];
    var r2: Row := map["FirstName" := "B", "Phone" := "3"];
    var rows := [r0, r1, r2];
    assert Accepted(r0) && !Accepted(r1) && Accepted(r2);
    assert Extract(r0) == LeadData("A", "1", "") && Extract(r2) == LeadData("B", "3", "");
    assert [r0][..0] == [];
    assert Kept([r0]) == [LeadData("A", "1", "")];
    assert [r0, r1][..1] == [r0];
    assert Kept([r0, r1]) == [LeadData("A", "1", "")];
    assert rows[..2] == [r0, r1];
    assert Kept(rows) == [LeadData("A", "1", ""), LeadData("B", "3", "")];
    assert Owner(2, 2, 0) == 0 && Owner(2, 2, 1) == 1;
  }
}
