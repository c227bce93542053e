/** The distribution view: every stored Lead, with its agent reference
    resolved, is put in the group of its agent; groups come out in the
    order their agents were first met, each holding its agent's leads in
    fetch order. */
module Grouping {
  import opened Models

  /** A Lead whose `assignedTo` reference was resolved to its Agent. */
  datatype PopulatedLead = PopulatedLead(lead: Lead, agent: AgentRecord)

  /** The agent part of a group: id, name and email. */
  datatype AgentSummary = AgentSummary(id: Id, name: string, email: string)

  /** The lead part of a group: id, first name, phone and notes. */
  datatype LeadView = LeadView(id: Id, firstName: string, phone: string, notes: string)

  datatype Group = Group(agent: AgentSummary, leads: seq<LeadView>)

  /** The grouping key: the resolved agent's id. */
  function Key(p: PopulatedLead): Id { p.agent.id }

  function Summary(p: PopulatedLead): AgentSummary
  {
    AgentSummary(p.agent.id, p.agent.name, p.agent.email)
  }

  function View(p: PopulatedLead): LeadView
  {
    LeadView(p.lead.id, p.lead.firstName, p.lead.phone, p.lead.notes)
  }

  // ---------------------------------------------------------------------
  // Resolving references

  /** The Agent document with id `id`, if there is one. */
  function FindAgent(agents: seq<AgentRecord>, id: Id): (r: Option<AgentRecord>)
    ensures r.Some? ==> r.value in agents && r.value.id == id
    ensures r.None? ==> forall a :: a in agents ==> a.id != id
  {
    if agents == [] then None
    else if agents[0].id == id then Some(agents[0])
    else FindAgent(agents[1..], id)
  }

  /** Whether a lead's reference resolves to a stored agent. */
  predicate Resolves(l: Lead, agents: seq<AgentRecord>)
  {
    l.assignedTo.Some? && FindAgent(agents, l.assignedTo.value).Some?
  }

  /** Resolving every lead's `assignedTo`: `None` when some lead has no
      agent or its agent is gone, where the handler then fails reading
      the missing agent's id. */
  function Populate(leads: seq<Lead>, agents: seq<AgentRecord>): (r: Option<seq<PopulatedLead>>)
    ensures r.Some? <==> forall k :: 0 <= k < |leads| ==> Resolves(leads[k], agents)
    ensures r.Some? ==> |r.value| == |leads|
    ensures r.Some? ==> forall k :: 0 <= k < |leads| ==>
              r.value[k].lead == leads[k] && r.value[k].agent in agents &&
              Some(r.value[k].agent.id) == leads[k].assignedTo
  {
    if leads == [] then Some([])
    else if !Resolves(leads[0], agents) then None
    else
      var rest := Populate(leads[1..], agents);
      if rest.None? then None
      else Some([PopulatedLead(leads[0], FindAgent(agents, leads[0].assignedTo.value).value)] + rest.value)
  }

  // ---------------------------------------------------------------------
  // The specification of the grouping

  predicate HasKey(ps: seq<PopulatedLead>, id: Id)
  {
    exists k :: 0 <= k < |ps| && Key(ps[k]) == id
  }

  /** The position of the first lead of agent `id`. */
  function FirstIndexOf(ps: seq<PopulatedLead>, id: Id): (i: nat)
    requires HasKey(ps, id)
    ensures i < |ps| && Key(ps[i]) == id
    ensures forall k :: 0 <= k < i ==> Key(ps[k]) != id
  {
    if Key(ps[0]) == id then 0
    else
      assert HasKey(ps[1..], id) by {
        var k :| 0 <= k < |ps| && Key(ps[k]) == id;
        assert Key(ps[1..][k - 1]) == id;
      }
      1 + FirstIndexOf(ps[1..], id)
  }

  /** The leads of agent `id`, in fetch order. */
  function LeadsOf(ps: seq<PopulatedLead>, id: Id): seq<LeadView>
  {
    if ps == [] then []
    else LeadsOf(ps[..|ps| - 1], id) + (if Key(ps[|ps| - 1]) == id then [View(ps[|ps| - 1])] else [])
  }

  /** The agent ids of the groups, in order. */
  function GroupIds(groups: seq<Group>): (ids: seq<Id>)
    ensures |ids| == |groups|
    ensures forall j :: 0 <= j < |groups| ==> ids[j] == groups[j].agent.id
  {
    if groups == [] then [] else [groups[0].agent.id] + GroupIds(groups[1..])
  }

  /** `groups` is the grouping of `ps`: each group is one agent's leads in
      fetch order, headed by that agent as first met; every lead's agent
      has a group; groups follow the order in which their agents first
      appear (so no agent has two). */
  ghost predicate IsGrouping(ps: seq<PopulatedLead>, groups: seq<Group>)
  {
    && (forall j :: 0 <= j < |groups| ==>
          && HasKey(ps, groups[j].agent.id)
          && groups[j].agent == Summary(ps[FirstIndexOf(ps, groups[j].agent.id)])
          && groups[j].leads == LeadsOf(ps, groups[j].agent.id))
    && (forall k :: 0 <= k < |ps| ==> Key(ps[k]) in GroupIds(groups))
    && (forall j1, j2 :: 0 <= j1 < j2 < |groups| ==>
          FirstIndexOf(ps, groups[j1].agent.id) < FirstIndexOf(ps, groups[j2].agent.id))
  }

  // ---------------------------------------------------------------------
  // Facts used by the grouping loop

  lemma LeadsOfSnoc(ps: seq<PopulatedLead>, k: nat, id: Id)
    requires k < |ps|
    ensures LeadsOf(ps[..k + 1], id) ==
            LeadsOf(ps[..k], id) + (if Key(ps[k]) == id then [View(ps[k])] else [])
  {
    assert ps[..k + 1][..k] == ps[..k];
  }

  lemma FirstIndexOfExtend(ps: seq<PopulatedLead>, k: nat, id: Id)
    requires k < |ps| && HasKey(ps[..k], id)
    ensures HasKey(ps[..k + 1], id)
    ensures FirstIndexOf(ps[..k + 1], id) == FirstIndexOf(ps[..k], id)
  {
    var i := FirstIndexOf(ps[..k], id);
    assert ps[..k + 1][i] == ps[..k][i];
  }

  lemma FirstIndexOfNew(ps: seq<PopulatedLead>, k: nat)
    requires k < |ps| && !HasKey(ps[..k], Key(ps[k]))
    ensures HasKey(ps[..k + 1], Key(ps[k]))
    ensures FirstIndexOf(ps[..k + 1], Key(ps[k])) == k
  {
    assert ps[..k + 1][k] == ps[k];
  }

  // ---------------------------------------------------------------------
  // The grouping loop

  /** What the grouping loop has built after the first `k` leads: the
      dictionary holds, under each key of `order`, that agent's group over
      `ps[..k]`; its keys are the agents met so far, in order of first
      appearance. */
  ghost predicate GroupedUpTo(ps: seq<PopulatedLead>, k: nat, d: map<Id, Group>, order: seq<Id>)
    requires k <= |ps|
  {
    && (forall id :: id in d <==> id in order)
    && (forall j :: 0 <= j < |order| ==>
          && HasKey(ps[..k], order[j])
          && order[j] in d
          && d[order[j]] == Group(Summary(ps[FirstIndexOf(ps[..k], order[j])]), LeadsOf(ps[..k], order[j])))
    && (forall i :: 0 <= i < k ==> Key(ps[i]) in d)
    && (forall j1, j2 :: 0 <= j1 < j2 < |order| ==>
          FirstIndexOf(ps[..k], order[j1]) < FirstIndexOf(ps[..k], order[j2]))
  }

  lemma GroupStepOrder(ps: seq<PopulatedLead>, k: nat, order: seq<Id>, order': seq<Id>)
    requires k < |ps|
    requires forall j :: 0 <= j < |order| ==> HasKey(ps[..k], order[j])
    requires forall j1, j2 :: 0 <= j1 < j2 < |order| ==>
               FirstIndexOf(ps[..k], order[j1]) < FirstIndexOf(ps[..k], order[j2])
    requires order' == order || (order' == order + [Key(ps[k])] && !HasKey(ps[..k], Key(ps[k])))
    ensures forall j :: 0 <= j < |order'| ==> HasKey(ps[..k + 1], order'[j])
    ensures forall j1, j2 :: 0 <= j1 < j2 < |order'| ==>
              FirstIndexOf(ps[..k + 1], order'[j1]) < FirstIndexOf(ps[..k + 1], order'[j2])
  {
    forall j | 0 <= j < |order|
      ensures HasKey(ps[..k + 1], order[j])
      ensures FirstIndexOf(ps[..k + 1], order[j]) == FirstIndexOf(ps[..k], order[j])
    {
      FirstIndexOfExtend(ps, k, order[j]);
    }
    if order' != order {
      FirstIndexOfNew(ps, k);
      assert order'[|order|] == Key(ps[k]);
    }
  }

  /** One agent's entry after the step: it holds that agent's leads
      among `ps[..k + 1]`, under its first lead's summary. */
  lemma GroupStepEntry(ps: seq<PopulatedLead>, k: nat, d: map<Id, Group>,
                       dMid: map<Id, Group>, d': map<Id, Group>, x: Id)
    requires k < |ps|
    requires x in d ==> HasKey(ps[..k], x) && d[x] == Group(Summary(ps[FirstIndexOf(ps[..k], x)]), LeadsOf(ps[..k], x))
    requires x !in d ==> x == Key(ps[k]) && !HasKey(ps[..k], x)
    requires dMid == if Key(ps[k]) in d then d else d[Key(ps[k]) := Group(Summary(ps[k]), [])]
    requires d' == dMid[Key(ps[k]) := dMid[Key(ps[k])].(leads := dMid[Key(ps[k])].leads + [View(ps[k])])]
    ensures HasKey(ps[..k + 1], x) && x in d'
    ensures d'[x] == Group(Summary(ps[FirstIndexOf(ps[..k + 1], x)]), LeadsOf(ps[..k + 1], x))
  {
    LeadsOfSnoc(ps, k, x);
    if x in d {
      FirstIndexOfExtend(ps, k, x);
    } else {
      FirstIndexOfNew(ps, k);
      LeadsOfNone(ps[..k], x);
    }
  }

  lemma GroupStepContents(ps: seq<PopulatedLead>, k: nat, d: map<Id, Group>, order: seq<Id>,
                          dMid: map<Id, Group>, d': map<Id, Group>, order': seq<Id>)
    requires k < |ps| && GroupedUpTo(ps, k, d, order)
    requires dMid == if Key(ps[k]) in d then d else d[Key(ps[k]) := Group(Summary(ps[k]), [])]
    requires order' == if Key(ps[k]) in d then order else order + [Key(ps[k])]
    requires d' == dMid[Key(ps[k]) := dMid[Key(ps[k])].(leads := dMid[Key(ps[k])].leads + [View(ps[k])])]
    ensures forall j :: 0 <= j < |order'| ==>
              && HasKey(ps[..k + 1], order'[j])
              && order'[j] in d'
              && d'[order'[j]] == Group(Summary(ps[FirstIndexOf(ps[..k + 1], order'[j])]), LeadsOf(ps[..k + 1], order'[j]))
  {
    forall j | 0 <= j < |order'|
      ensures HasKey(ps[..k + 1], order'[j])
      ensures order'[j] in d'
      ensures d'[order'[j]] == Group(Summary(ps[FirstIndexOf(ps[..k + 1], order'[j])]), LeadsOf(ps[..k + 1], order'[j]))
    {
      var x := order'[j];
      if j < |order| {
        assert x == order[j] && x in d;
      } else {
        assert !HasKey(ps[..k], x);
      }
      GroupStepEntry(ps, k, d, dMid, d', x);
    }
  }

  lemma GroupStep(ps: seq<PopulatedLead>, k: nat, d: map<Id, Group>, order: seq<Id>,
                  dMid: map<Id, Group>, d': map<Id, Group>, order': seq<Id>)
    requires k < |ps| && GroupedUpTo(ps, k, d, order)
    requires dMid == if Key(ps[k]) in d then d else d[Key(ps[k]) := Group(Summary(ps[k]), [])]
    requires order' == if Key(ps[k]) in d then order else order + [Key(ps[k])]
    requires d' == dMid[Key(ps[k]) := dMid[Key(ps[k])].(leads := dMid[Key(ps[k])].leads + [View(ps[k])])]
    ensures GroupedUpTo(ps, k + 1, d', order')
  {
    var id := Key(ps[k]);
    if id !in d {
      assert !HasKey(ps[..k], id);
    }
    GroupStepOrder(ps, k, order, order');
    GroupStepContents(ps, k, d, order, dMid, d', order');
  }

  /** An agent with no lead among `ps` has no leads listed. */
  lemma {:induction false} LeadsOfNone(ps: seq<PopulatedLead>, id: Id)
    requires !HasKey(ps, id)
    ensures LeadsOf(ps, id) == []
  {
    if ps != [] {
      var init := ps[..|ps| - 1];
      LeadsOfNone(init, id);
    }
  }

  /** Groups the resolved leads by agent, filling a dictionary keyed by
      agent id; `order` is the dictionary's key insertion order, which is
      the order in which its values are returned. */
  method GroupByAgent(ps: seq<PopulatedLead>) returns (groups: seq<Group>)
    ensures IsGrouping(ps, groups)
  {
    var distribution: map<Id, Group> := map[];
    var order: seq<Id> := [];
    var k := 0;
    while k < |ps|
      invariant 0 <= k <= |ps|
      invariant distribution == Dict(ps, k) && order == Order(ps, k)
    {
      var p := ps[k];
      var id := Key(p);
      if id !in distribution {
        distribution := distribution[id := Group(Summary(p), [])];
        order := order + [id];
      }
      distribution := distribution[id := distribution[id].(leads := distribution[id].leads + [View(p)])];
      k := k + 1;
    }
    GroupedResult(ps);
    groups := Values(distribution, order);
  }

  /** The dictionary `d` with a group opened for `p`'s agent if it had none. */
  ghost function Opened(d: map<Id, Group>, p: PopulatedLead): map<Id, Group>
  {
    if Key(p) in d then d else d[Key(p) := Group(Summary(p), [])]
  }

  /** The dictionary after the first `k` leads. */
  ghost function Dict(ps: seq<PopulatedLead>, k: nat): map<Id, Group>
    requires k <= |ps|
  {
    if k == 0 then map[]
    else
      var p := ps[k - 1];
      var d := Opened(Dict(ps, k - 1), p);
      d[Key(p) := d[Key(p)].(leads := d[Key(p)].leads + [View(p)])]
  }

  /** The dictionary's key insertion order after the first `k` leads. */
  ghost function Order(ps: seq<PopulatedLead>, k: nat): seq<Id>
    requires k <= |ps|
  {
    if k == 0 then []
    else if Key(ps[k - 1]) in Dict(ps, k - 1) then Order(ps, k - 1)
    else Order(ps, k - 1) + [Key(ps[k - 1])]
  }

  /** After the first `k` leads the dictionary and its key order are the
      grouping of those leads. */
  lemma {:induction false} DictGrouped(ps: seq<PopulatedLead>, k: nat)
    requires k <= |ps|
    ensures GroupedUpTo(ps, k, Dict(ps, k), Order(ps, k))
  {
    if k > 0 {
      var j := k - 1;
      DictGrouped(ps, j);
      DictStep(ps, j);
    }
  }

  lemma DictStep(ps: seq<PopulatedLead>, k: nat)
    requires k < |ps| && GroupedUpTo(ps, k, Dict(ps, k), Order(ps, k))
    ensures GroupedUpTo(ps, k + 1, Dict(ps, k + 1), Order(ps, k + 1))
  {
    var d := Dict(ps, k);
    GroupStep(ps, k, d, Order(ps, k), Opened(d, ps[k]), Dict(ps, k + 1), Order(ps, k + 1));
  }

  /** The values of the final dictionary, in key insertion order, are the
      grouping of all leads. */
  lemma GroupedResult(ps: seq<PopulatedLead>)
    ensures forall j :: 0 <= j < |Order(ps, |ps|)| ==> Order(ps, |ps|)[j] in Dict(ps, |ps|)
    ensures IsGrouping(ps, Values(Dict(ps, |ps|), Order(ps, |ps|)))
  {
    var d, order := Dict(ps, |ps|), Order(ps, |ps|);
    DictGrouped(ps, |ps|);
    GroupedUpToFull(ps, d, order);
    var groups := Values(d, order);
    GroupedAllEntries(ps, d, order, groups);
    GroupedAllCover(ps, d, order, groups);
    GroupedAllOrder(ps, order, groups);
  }

  /** The dictionary's values in key insertion order. */
  function Values(d: map<Id, Group>, order: seq<Id>): (groups: seq<Group>)
    requires forall j :: 0 <= j < |order| ==> order[j] in d
    ensures |groups| == |order| && forall j :: 0 <= j < |order| ==> groups[j] == d[order[j]]
  {
    seq(|order|, j requires 0 <= j < |order| => d[order[j]])
  }

  lemma GroupedAllEntries(ps: seq<PopulatedLead>, d: map<Id, Group>, order: seq<Id>, groups: seq<Group>)
    requires forall j :: 0 <= j < |order| ==>
               && HasKey(ps, order[j])
               && order[j] in d
               && d[order[j]] == Group(Summary(ps[FirstIndexOf(ps, order[j])]), LeadsOf(ps, order[j]))
    requires |groups| == |order| && forall j :: 0 <= j < |order| ==> order[j] in d && groups[j] == d[order[j]]
    ensures GroupIds(groups) == order
    ensures forall j :: 0 <= j < |groups| ==>
              && HasKey(ps, groups[j].agent.id)
              && groups[j].agent == Summary(ps[FirstIndexOf(ps, groups[j].agent.id)])
              && groups[j].leads == LeadsOf(ps, groups[j].agent.id)
  {
    forall j | 0 <= j < |groups|
      ensures groups[j].agent.id == order[j]
    {
      var i := FirstIndexOf(ps, order[j]);
      assert groups[j].agent == Summary(ps[i]);
    }
    assert GroupIds(groups) == order;
  }

  lemma GroupedAllCover(ps: seq<PopulatedLead>, d: map<Id, Group>, order: seq<Id>, groups: seq<Group>)
    requires forall id :: id in d <==> id in order
    requires forall i :: 0 <= i < |ps| ==> Key(ps[i]) in d
    requires GroupIds(groups) == order
    ensures forall k :: 0 <= k < |ps| ==> Key(ps[k]) in GroupIds(groups)
  {
  }

  lemma GroupedAllOrder(ps: seq<PopulatedLead>, order: seq<Id>, groups: seq<Group>)
    requires forall j :: 0 <= j < |order| ==> HasKey(ps, order[j])
    requires forall j1, j2 :: 0 <= j1 < j2 < |order| ==> FirstIndexOf(ps, order[j1]) < FirstIndexOf(ps, order[j2])
    requires GroupIds(groups) == order
    ensures forall j1, j2 :: 0 <= j1 < j2 < |groups| ==>
              FirstIndexOf(ps, groups[j1].agent.id) < FirstIndexOf(ps, groups[j2].agent.id)
  {
    forall j1, j2 | 0 <= j1 < j2 < |groups|
      ensures FirstIndexOf(ps, groups[j1].agent.id) < FirstIndexOf(ps, groups[j2].agent.id)
    {
      assert groups[j1].agent.id == order[j1] && groups[j2].agent.id == order[j2];
    }
  }

  /** The loop invariant at the end, stated over the whole input. */
  lemma GroupedUpToFull(ps: seq<PopulatedLead>, d: map<Id, Group>, order: seq<Id>)
    requires GroupedUpTo(ps, |ps|, d, order)
    ensures forall id :: id in d <==> id in order
    ensures forall j :: 0 <= j < |order| ==>
              && HasKey(ps, order[j])
              && order[j] in d
              && d[order[j]] == Group(Summary(ps[FirstIndexOf(ps, order[j])]), LeadsOf(ps, order[j]))
    ensures forall i :: 0 <= i < |ps| ==> Key(ps[i]) in d
    ensures forall j1, j2 :: 0 <= j1 < j2 < |order| ==> FirstIndexOf(ps, order[j1]) < FirstIndexOf(ps, order[j2])
  {
    assert ps[..|ps|] == ps;
  }

  // ---------------------------------------------------------------------
  // Partition properties of any grouping

  lemma {:induction false} LeadsOfHas(ps: seq<PopulatedLead>, k: nat)
    requires k < |ps|
    ensures View(ps[k]) in LeadsOf(ps, Key(ps[k]))
  {
    var init := ps[..|ps| - 1];
    if k < |ps| - 1 {
      assert init[k] == ps[k];
      LeadsOfHas(init, k);
    }
  }

  /** Each lead sits in the group of its own agent, and that is the only
      group of that agent. */
  lemma EachLeadInOneGroup(ps: seq<PopulatedLead>, groups: seq<Group>, k: nat)
    requires IsGrouping(ps, groups) && k < |ps|
    ensures exists j :: 0 <= j < |groups| && groups[j].agent.id == Key(ps[k]) && View(ps[k]) in groups[j].leads
    ensures forall j1, j2 ::
              (0 <= j1 < |groups| && 0 <= j2 < |groups| &&
               groups[j1].agent.id == Key(ps[k]) && groups[j2].agent.id == Key(ps[k])) ==> j1 == j2
  {
    var id := Key(ps[k]);
    assert id in GroupIds(groups);
    var j :| 0 <= j < |groups| && GroupIds(groups)[j] == id;
    LeadsOfHas(ps, k);
    assert View(ps[k]) in groups[j].leads;
  }

  /** No group is empty. */
  lemma GroupsNonEmpty(ps: seq<PopulatedLead>, groups: seq<Group>)
    requires IsGrouping(ps, groups)
    ensures forall j :: 0 <= j < |groups| ==> |groups[j].leads| > 0
  {
    forall j | 0 <= j < |groups|
      ensures |groups[j].leads| > 0
    {
      var i := FirstIndexOf(ps, groups[j].agent.id);
      LeadsOfHas(ps, i);
    }
  }

  /** The total number of leads in the groups. */
  function TotalLeads(groups: seq<Group>): nat
  {
    if groups == [] then 0 else |groups[0].leads| + TotalLeads(groups[1..])
  }

  /** The number of occurrences of `x` in `ids`. */
  function Occurrences(ids: seq<Id>, x: Id): nat
  {
    if ids == [] then 0 else (if ids[0] == x then 1 else 0) + Occurrences(ids[1..], x)
  }

  /** The sum over `ids` of the number of leads of each. */
  function SumLeads(ps: seq<PopulatedLead>, ids: seq<Id>): nat
  {
    if ids == [] then 0 else |LeadsOf(ps, ids[0])| + SumLeads(ps, ids[1..])
  }

  lemma {:induction false} SumLeadsEmpty(ids: seq<Id>)
    ensures SumLeads([], ids) == 0
  {
    if ids != [] {
      SumLeadsEmpty(ids[1..]);
    }
  }

  lemma {:induction false} SumLeadsSnoc(ps: seq<PopulatedLead>, p: PopulatedLead, ids: seq<Id>)
    ensures SumLeads(ps + [p], ids) == SumLeads(ps, ids) + Occurrences(ids, Key(p))
  {
    if ids != [] {
      SumLeadsSnoc(ps, p, ids[1..]);
      assert (ps + [p])[..|ps + [p]| - 1] == ps;
    }
  }

  lemma {:induction false} OccursOnce(ids: seq<Id>, x: Id)
    requires forall a, b :: 0 <= a < b < |ids| ==> ids[a] != ids[b]
    requires x in ids
    ensures Occurrences(ids, x) == 1
  {
    if ids[0] != x {
      OccursOnce(ids[1..], x);
    } else {
      NoOccurrence(ids[1..], x);
    }
  }

  lemma {:induction false} NoOccurrence(ids: seq<Id>, x: Id)
    requires x !in ids
    ensures Occurrences(ids, x) == 0
  {
    if ids != [] {
      NoOccurrence(ids[1..], x);
    }
  }

  /** Over distinct ids that cover every lead's agent, the leads of each id
      add up to all the leads. */
  lemma {:induction false} SumLeadsCovers(ps: seq<PopulatedLead>, ids: seq<Id>)
    requires forall a, b :: 0 <= a < b < |ids| ==> ids[a] != ids[b]
    requires forall k :: 0 <= k < |ps| ==> Key(ps[k]) in ids
    ensures SumLeads(ps, ids) == |ps|
    decreases |ps|
  {
    if ps == [] {
      SumLeadsEmpty(ids);
    } else {
      var init, p := ps[..|ps| - 1], ps[|ps| - 1];
      assert init + [p] == ps;
      SumLeadsCovers(init, ids);
      SumLeadsSnoc(init, p, ids);
      OccursOnce(ids, Key(p));
    }
  }

  lemma {:induction false} TotalIsSumLeads(ps: seq<PopulatedLead>, groups: seq<Group>)
    requires forall j :: 0 <= j < |groups| ==> groups[j].leads == LeadsOf(ps, groups[j].agent.id)
    ensures TotalLeads(groups) == SumLeads(ps, GroupIds(groups))
  {
    if groups != [] {
      TotalIsSumLeads(ps, groups[1..]);
    }
  }

  /** The group sizes add up to the number of leads. */
  lemma GroupSizesSum(ps: seq<PopulatedLead>, groups: seq<Group>)
    requires IsGrouping(ps, groups)
    ensures TotalLeads(groups) == |ps|
  {
    var ids := GroupIds(groups);
    TotalIsSumLeads(ps, groups);
    SumLeadsCovers(ps, ids);
  }
}
