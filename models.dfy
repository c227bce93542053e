/** Record shapes of the lead-management backend: the Lead and List
    collections and the Agent collection's documents. Generated document
    identifiers are modelled as natural numbers handed out by each store. */
module Models {

  /** A generated document identifier (a stand-in for a database object id). */
  type Id = nat

  /** The status string of a List document. */
  datatype ListStatus = Uploaded | Distributed

  /** A List document: one per ingested file. The upload date is left out. */
  datatype ListRecord = ListRecord(id: Id, name: string, totalLeads: nat, status: ListStatus)

  /** Builds a List document as the schema does: a field that is not given
      takes its default, `totalLeads` 0 and `status` Uploaded. */
  function MakeList(id: Id, name: string, totalLeads: Option<nat>, status: Option<ListStatus>): (l: ListRecord)
    ensures l.id == id && l.name == name
    ensures l.totalLeads == (if totalLeads.Some? then totalLeads.value else 0)
    ensures l.status == (if status.Some? then status.value else Uploaded)
  {
    ListRecord(id, name,
               match totalLeads case Some(n) => n case None => 0,
               match status case Some(s) => s case None => Uploaded)
  }

  /** A Lead document. `assignedTo` and `listId` are optional references. */
  datatype Lead = Lead(id: Id, firstName: string, phone: string, notes: string,
                       assignedTo: Option<Id>, listId: Option<Id>)

  /** A stored password: the symbolic result of bcrypt with the given cost
      and salt over the plain text. The stored field has this type, so it is
      never the plain-text string itself. */
  datatype Digest = Bcrypt(rounds: nat, salt: string, plain: string)

  /** An Agent document. */
  datatype AgentRecord = AgentRecord(id: Id, name: string, email: string, mobile: string, password: Digest)

  datatype Option<+T> = None | Some(value: T)
}
