/** The agent handlers: creating an agent (refused when the email is
    already taken, otherwise stored with a bcrypt digest of the password),
    listing the agents without their passwords, and deleting an agent by
    id. The Agent collection is the field of an `AgentTable`. */
module AgentController {
  import opened Models
  import Grouping

  /** What the handlers show of an agent: everything but the password. */
  datatype AgentView = AgentView(id: Id, name: string, email: string, mobile: string)

  /** The bcrypt cost the create handler asks for. */
  const SaltRounds: nat := 10

  /** What the create handler answers. */
  datatype CreateOutcome = AlreadyExists | Created(agent: AgentView)
  {
    function Status(): nat
    {
      match this
      case AlreadyExists => 400
      case Created(_) => 201
    }

    function Message(): string
    {
      match this
      case AlreadyExists => "Agent already exists"
      case Created(_) => "Agent created successfully"
    }
  }

  /** The stored agent with the given email, if there is one. */
  function FindByEmail(agents: seq<AgentRecord>, email: string): (r: Option<AgentRecord>)
    ensures r.Some? ==> r.value in agents && r.value.email == email
    ensures r.None? ==> forall a :: a in agents ==> a.email != email
  {
    if agents == [] then None
    else if agents[0].email == email then Some(agents[0])
    else FindByEmail(agents[1..], email)
  }

  /** The agents as listed: each record without its password, in store order. */
  function Listing(agents: seq<AgentRecord>): (views: seq<AgentView>)
    ensures |views| == |agents|
    ensures forall i :: 0 <= i < |agents| ==>
              && views[i].id == agents[i].id
              && views[i].name == agents[i].name
              && views[i].email == agents[i].email
              && views[i].mobile == agents[i].mobile
  {
    if agents == [] then []
    else
      var a := agents[0];
      [AgentView(a.id, a.name, a.email, a.mobile)] + Listing(agents[1..])
  }

  /** `agents` without the record whose id is `id`. */
  function WithoutAgent(agents: seq<AgentRecord>, id: Id): seq<AgentRecord>
  {
    if agents == [] then []
    else (if agents[0].id == id then [] else [agents[0]]) + WithoutAgent(agents[1..], id)
  }

  /** Ids and emails are pairwise distinct, and every id is below the counter. */
  ghost predicate TableInvariant(agents: seq<AgentRecord>, nextId: Id)
  {
    && (forall a :: a in agents ==> a.id < nextId)
    && (forall i, j :: 0 <= i < j < |agents| ==> agents[i].id != agents[j].id)
    && (forall i, j :: 0 <= i < j < |agents| ==> agents[i].email != agents[j].email)
  }

  /** Deleting keeps every record whose id differs, in order, and drops
      the others; with distinct ids at most one record goes. */
  lemma {:induction false} WithoutAgentSpec(agents: seq<AgentRecord>, id: Id)
    requires forall i, j :: 0 <= i < j < |agents| ==> agents[i].id != agents[j].id
    ensures forall a :: a in WithoutAgent(agents, id) <==> a in agents && a.id != id
    ensures |WithoutAgent(agents, id)| == |agents| - (if Grouping.FindAgent(agents, id).Some? then 1 else 0)
  {
    if agents != [] {
      WithoutAgentSpec(agents[1..], id);
      if agents[0].id == id {
        assert forall a :: a in agents[1..] ==> a.id != id by {
          forall a | a in agents[1..]
            ensures a.id != id
          {
            var j :| 0 <= j < |agents[1..]| && agents[1..][j] == a;
            assert agents[j + 1] == a;
          }
        }
      }
    }
  }

  /** Every record left after a deletion is a record of the table that
      comes after the first one, when the first is left out. */
  lemma WithoutAgentFromTail(agents: seq<AgentRecord>, id: Id, r: AgentRecord)
    requires agents != [] && r in WithoutAgent(agents[1..], id)
    requires forall i, j :: 0 <= i < j < |agents[1..]| ==> agents[1..][i].id != agents[1..][j].id
    ensures exists j :: 1 <= j < |agents| && agents[j] == r
  {
    WithoutAgentSpec(agents[1..], id);
    var j :| 0 <= j < |agents[1..]| && agents[1..][j] == r;
    assert agents[j + 1] == r;
  }

  /** A record removed from the table leaves the others as a subsequence,
      so no two of them share an id. */
  lemma {:induction false} WithoutAgentIdsDistinct(agents: seq<AgentRecord>, id: Id)
    requires forall i, j :: 0 <= i < j < |agents| ==> agents[i].id != agents[j].id
    ensures var rest := WithoutAgent(agents, id);
            forall i, j :: 0 <= i < j < |rest| ==> rest[i].id != rest[j].id
  {
    if agents != [] {
      WithoutAgentIdsDistinct(agents[1..], id);
      var rest := WithoutAgent(agents[1..], id);
      forall b | 0 <= b < |rest|
        ensures agents[0].id != rest[b].id
      {
        WithoutAgentFromTail(agents, id, rest[b]);
      }
    }
  }

  /** Nor do any two of them share an email. */
  lemma {:induction false} WithoutAgentEmailsDistinct(agents: seq<AgentRecord>, id: Id)
    requires forall i, j :: 0 <= i < j < |agents| ==> agents[i].id != agents[j].id
    requires forall i, j :: 0 <= i < j < |agents| ==> agents[i].email != agents[j].email
    ensures var rest := WithoutAgent(agents, id);
            forall i, j :: 0 <= i < j < |rest| ==> rest[i].email != rest[j].email
  {
    if agents != [] {
      WithoutAgentEmailsDistinct(agents[1..], id);
      var rest := WithoutAgent(agents[1..], id);
      forall b | 0 <= b < |rest|
        ensures agents[0].email != rest[b].email
      {
        WithoutAgentFromTail(agents, id, rest[b]);
      }
    }
  }

  /** Appending an agent whose email is new, under the counter's id, keeps
      the table invariant. */
  lemma InsertKeepsInvariant(agents: seq<AgentRecord>, nextId: Id, record: AgentRecord)
    requires TableInvariant(agents, nextId)
    requires FindByEmail(agents, record.email).None? && record.id == nextId
    ensures TableInvariant(agents + [record], nextId + 1)
  {
    var agents' := agents + [record];
    forall i, j | 0 <= i < j < |agents'|
      ensures agents'[i].id != agents'[j].id && agents'[i].email != agents'[j].email
    {
      if j == |agents| {
        assert agents'[i] in agents;
      }
    }
  }

  /** Deleting keeps the table invariant. */
  lemma DeleteKeepsInvariant(agents: seq<AgentRecord>, nextId: Id, id: Id)
    requires TableInvariant(agents, nextId)
    ensures TableInvariant(WithoutAgent(agents, id), nextId)
  {
    WithoutAgentSpec(agents, id);
    WithoutAgentIdsDistinct(agents, id);
    WithoutAgentEmailsDistinct(agents, id);
  }

  /** With distinct emails, the listing shows an email exactly when the
      lookup the create handler makes finds it, and at most once. */
  lemma ListingLookup(agents: seq<AgentRecord>, email: string)
    requires forall i, j :: 0 <= i < j < |agents| ==> agents[i].email != agents[j].email
    ensures (exists i :: 0 <= i < |Listing(agents)| && Listing(agents)[i].email == email)
              <==> FindByEmail(agents, email).Some?
    ensures forall i, j :: 0 <= i < j < |Listing(agents)| ==> Listing(agents)[i].email != Listing(agents)[j].email
  {
    var views := Listing(agents);
    if FindByEmail(agents, email).Some? {
      var a := FindByEmail(agents, email).value;
      var i :| 0 <= i < |agents| && agents[i] == a;
      assert views[i].email == email;
    } else {
      forall i | 0 <= i < |views|
        ensures views[i].email != email
      {
        assert agents[i] in agents;
      }
    }
  }

  /** Deleting an agent that still has Leads assigned makes every later
      distribution view fail: the Leads are not touched, and their agent
      no longer resolves. */
  lemma DeletedAgentBreaksDistribution(leads: seq<Lead>, agents: seq<AgentRecord>, id: Id, k: nat)
    requires forall i, j :: 0 <= i < j < |agents| ==> agents[i].id != agents[j].id
    requires k < |leads| && leads[k].assignedTo == Some(id)
    ensures Grouping.Populate(leads, WithoutAgent(agents, id)).None?
  {
    WithoutAgentSpec(agents, id);
    assert !Grouping.Resolves(leads[k], WithoutAgent(agents, id));
  }

  /** The Agent collection. Ids come from a counter. */
  class AgentTable {
    var agents: seq<AgentRecord>
    var nextId: Id

    /** Ids and emails are distinct, and ids are below the counter. */
    ghost predicate Valid()
      reads this
    {
      TableInvariant(agents, nextId)
    }

    constructor ()
      ensures Valid() && agents == []
    {
      agents, nextId := [], 0;
    }

    /** Create an agent. A taken email answers 400 and changes nothing;
        otherwise one record is appended, holding the bcrypt digest of the
        password under a fresh salt, and the answer echoes everything but
        the password. */
    method CreateAgent(name: string, email: string, mobile: string, password: string, salt: string)
      returns (outcome: CreateOutcome)
      requires Valid()
      modifies this
      ensures Valid()
      ensures FindByEmail(old(agents), email).Some? ==>
                outcome == AlreadyExists && agents == old(agents) && nextId == old(nextId)
      ensures FindByEmail(old(agents), email).None? ==>
                && agents == old(agents) + [AgentRecord(old(nextId), name, email, mobile, Bcrypt(SaltRounds, salt, password))]
                && nextId == old(nextId) + 1
                && outcome == Created(AgentView(old(nextId), name, email, mobile))
    {
      var existing := FindByEmail(agents, email);
      if existing.Some? {
        return AlreadyExists;
      }
      var hashed := Bcrypt(SaltRounds, salt, password);
      var record := AgentRecord(nextId, name, email, mobile, hashed);
      InsertKeepsInvariant(agents, nextId, record);
      agents := agents + [record];
      nextId := nextId + 1;
      return Created(AgentView(record.id, name, email, mobile));
    }

    /** Every stored agent, in store order, without its password. */
    function GetAgents(): (views: seq<AgentView>)
      reads this
    {
      Listing(agents)
    }

    /** Delete the agent with id `id`; Leads are not touched, and an
        unknown id still reports success. */
    method DeleteAgent(id: Id) returns (message: string)
      requires Valid()
      modifies this
      ensures Valid()
      ensures agents == WithoutAgent(old(agents), id) && nextId == old(nextId)
      ensures message == "Agent deleted successfully"
    {
      DeleteKeepsInvariant(agents, nextId, id);
      agents := WithoutAgent(agents, id);
      message := "Agent deleted successfully";
    }
  }
}
