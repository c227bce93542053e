# Lead distribution backend — a Dafny model

This project models the core of a small lead-management backend.

- **Agents.** An administrator creates agents with a name, an email, a mobile number and a password. The password is stored as a bcrypt digest, and the email must not already be taken. Agents can be listed without their passwords and deleted by id.
- **Upload.** A parsed CSV file of leads is uploaded. A row is kept when it has a non-empty `FirstName` and `Phone`, and its `Notes` default to the empty string. One List document records the file's name and the number of kept rows.
- **Distribution.** The kept rows are handed out to the agents in store order, in contiguous blocks. With `L` kept rows and `A` agents, the first `L mod A` agents receive `floor(L/A) + 1` rows and the rest receive `floor(L/A)`. Each kept row becomes one Lead that carries the id of its agent.
- **Distribution view.** The view of a List answers 404 when the List is absent. Otherwise it resolves every stored Lead to its agent, groups the Leads by agent in order of each agent's first appearance, and answers with the List and the groups.
- **Upload filter.** The filter accepts an upload when the lower-cased text after the last `.` of its name is `csv`, `xlsx` or `xls`. The stored file name is the upload time, then `-`, then the original name.

The modules follow the backend's files:

| module | file |
|---|---|
| `Models` | the Lead and List schemas, and the shape of an Agent document |
| `Quotas` | the quota arithmetic of the upload handler |
| `ListController` | the upload, delete-list and distribution handlers, with a `LeadStore` class holding the List and Lead collections |
| `Grouping` | the grouping loop of the distribution handler |
| `AgentController` | the agent handlers, with an `AgentTable` class holding the Agent collection |
| `FileUpload` | the upload filter and the stored file name |

Where the code does something different from what a reader might expect, the model follows the code:

- Leads created by an upload are not given a `listId`.
- The distribution view of any List groups all stored Leads, whatever their List.
- Deleting a List removes only the List document. Its Leads stay.
- Deleting an agent leaves its Leads pointing at the missing agent. Every later distribution view of an existing List then fails with a 500, because the handler reads the `_id` of an agent that no longer resolves (`AgentController.DeletedAgentBreaksDistribution`).

The agent listing handler is `AgentController.AgentTable.GetAgents`, which returns `Listing(agents)`; `AgentController.Listing` states what the listing holds.

Database ids are natural numbers handed out by a counter in each store. The salt that bcrypt would generate is a parameter, and the digest is the symbolic value `Bcrypt(rounds, salt, plain)`.

## Model

| member | source | states |
|---|---|---|
| Quotas.QuotasBalanced | backend/controllers/listController.js:47-52 | each quota is `floor(L/A)` or `floor(L/A)+1`; quotas never increase along the agent order and differ by at most one |
| Quotas.StartStep | backend/controllers/listController.js:50-61 | agent i+1's block starts where agent i's block ends |
| Quotas.StartEnd | backend/controllers/listController.js:50-62 | after the last agent the shared cursor stands at exactly L |
| Quotas.QuotasSumToTotal | backend/controllers/listController.js:47-52 | the quotas of all agents sum to L |
| Quotas.BlockInRange | backend/controllers/listController.js:54 | every agent's block lies inside the kept rows, so the `leadIndex < leads.length` guard never cuts a block short |
| Quotas.LargerShareCount | backend/controllers/listController.js:48-52 | exactly `L mod A` agents receive the larger quota |
| Quotas.OwnerBlock | backend/controllers/listController.js:50-61 | every kept row index lies in the block of an agent below A |
| Quotas.OwnerInBlock | backend/controllers/listController.js:50-61 | a row in agent i's block has agent i as its owner, so blocks are disjoint |
| Quotas.OwnerMono | backend/controllers/listController.js:50-61 | rows are handed out in order: a later row never goes to an earlier agent |
| Quotas.OwnedCount | backend/controllers/listController.js:51-61 | the number of rows owned by agent i equals its quota |
| ListController.KeptFields | backend/controllers/listController.js:21-29 | each kept entry comes from an accepted row of the file and copies its FirstName and Phone, with Notes defaulting to "" |
| ListController.KeptOrder | backend/controllers/listController.js:21-29 | kept rows stay in file order |
| ListController.KeptComplete | backend/controllers/listController.js:21-29 | every row with a non-empty FirstName and Phone is kept |
| ListController.CollectLeads | backend/controllers/listController.js:21-29 | the row loop pushes exactly the kept rows, in file order |
| ListController.DistributedLead | backend/controllers/listController.js:50-61 | one Lead per kept row; Lead k copies row k's fields, is assigned to the agent whose block holds k, has no listId, and takes the k-th new id |
| ListController.DistributedBlock | backend/controllers/listController.js:50-61 | every row in agent i's block `[i*q + min(i,r), +quota_i)` is assigned to agent i |
| ListController.AgentShare | backend/controllers/listController.js:47-61 | with distinct agent ids, agent i is assigned exactly its quota of Leads |
| ListController.FindList | backend/controllers/listController.js:95-96 | the lookup finds a List with that id when there is one, and reports absence only when no List has it |
| ListController.WithoutListSpec | backend/controllers/listController.js:135 | deleting removes exactly the Lists with that id, at most one when ids are distinct |
| ListController.UploadKeepsInvariant | backend/controllers/listController.js:39-61 | an upload keeps List ids distinct and every id below the counter |
| ListController.LeadStore.constructor | backend/models/Lead.js:3-9 | an empty store satisfies the invariant |
| ListController.LeadStore.UploadList | backend/controllers/listController.js:10-75 | no file gives 400 and no agents gives 400, both with no change; otherwise one List (name, `totalLeads` = kept count, Distributed) and the distributed Leads are appended, and the answer is 201 with the List |
| ListController.LeadStore.DistributeLeads | backend/controllers/listController.js:47-62 | the nested quota loops append exactly `Distribute(kept, agents)` to the Leads and change no List |
| ListController.LeadStore.DeleteList | backend/controllers/listController.js:133-140 | only the List with that id goes; the Leads and the other Lists are unchanged; the answer is success even for an unknown id |
| ListController.LeadStore.GetListDistribution | backend/controllers/listController.js:95-126 | 404 exactly when the List is absent; 500 exactly when it exists and some Lead's agent does not resolve; otherwise the List and a grouping of every stored Lead |
| ListController.UploadExample | backend/controllers/listController.js:21-61 | a worked upload: of three rows the one without a first name is dropped, and the other two go one to each of two agents |
| Grouping.FindAgent | backend/controllers/listController.js:99 | the populate lookup finds the agent with that id, or reports that none has it |
| Grouping.Populate | backend/controllers/listController.js:99-104 | population succeeds exactly when every Lead's agent resolves, and pairs each Lead with its own agent, in fetch order |
| Grouping.GroupByAgent | backend/controllers/listController.js:102-125 | the forEach loop over the dictionary yields a grouping: one group per agent with its first-seen name and email, the agent's Leads in fetch order, every Lead's agent present, groups ordered by first appearance |
| Grouping.GroupedResult | backend/controllers/listController.js:102-125 | the values of the dictionary built lead by lead, in insertion order, form a grouping |
| Grouping.EachLeadInOneGroup | backend/controllers/listController.js:102-121 | each Lead appears in the group of its agent, and that agent has exactly one group |
| Grouping.GroupsNonEmpty | backend/controllers/listController.js:105-120 | no group is empty |
| Grouping.GroupSizesSum | backend/controllers/listController.js:102-125 | the group sizes sum to the number of Leads |
| FileUpload.Split | backend/utils/fileUpload.js:22 | `split('.')` gives at least one piece, and no piece holds a separator |
| FileUpload.LowerIdempotent | backend/utils/fileUpload.js:22 | lower-casing an already lower-cased name changes nothing |
| FileUpload.ExtensionIsLowerCase | backend/utils/fileUpload.js:22-23 | the extension holds no upper-case letter, so comparing it with the lower-case list `csv`, `xlsx`, `xls` ignores the case of the original name |
| FileUpload.SplitJoin | backend/utils/fileUpload.js:22 | joining the pieces again gives back the name |
| FileUpload.LastAfterSep | backend/utils/fileUpload.js:22 | `pop()` gives the text after the last separator |
| FileUpload.ExtensionAfterDot | backend/utils/fileUpload.js:22 | the extension is the lower-cased text after the last `.` |
| FileUpload.ExtensionNoDot | backend/utils/fileUpload.js:22 | a name without `.` is its own extension, lower-cased |
| FileUpload.ExtensionIsSuffix | backend/utils/fileUpload.js:22 | the extension of a dotted name is a `.`-prefixed suffix of the lower-cased name |
| FileUpload.SuffixIsAccepted | backend/utils/fileUpload.js:22-24 | a name that, lower-cased, is an allowed extension or ends with `.` and one has that extension |
| FileUpload.FilterAcceptsIff | backend/utils/fileUpload.js:21-28 | a name is accepted exactly when, lower-cased, it is `csv`, `xlsx` or `xls` or ends with `.` followed by one of them |
| FileUpload.RejectionMessage | backend/utils/fileUpload.js:23-27 | accepted exactly when the extension is allowed; otherwise rejected with "Only CSV, XLSX, and XLS files are allowed" |
| FileUpload.AcceptsUpperCase | backend/utils/fileUpload.js:22-24 | `Leads.CSV` is accepted |
| FileUpload.OnlyFinalExtensionCounts | backend/utils/fileUpload.js:22-24 | `a.exe.csv` is accepted and `a.csv.exe` is rejected |
| FileUpload.BareExtensionAccepted | backend/utils/fileUpload.js:22-24 | a file named `csv` is accepted |
| FileUpload.ClientMatchesServer | frontend/components/upload-list-form.tsx:23-25 | the client check accepts exactly the names the server filter accepts |
| FileUpload.DecimalRoundTrip | backend/utils/fileUpload.js:15 | the decimal text of the timestamp reads back as the timestamp |
| FileUpload.StoredNameRoundTrip | backend/utils/fileUpload.js:14-16 | the stored name ends with `-` and the original name; the timestamp and the original name can be read back from it |
| AgentController.FindByEmail | backend/controllers/agentController.js:10 | the lookup finds an agent with that email, or reports that none has it |
| AgentController.Listing | backend/controllers/agentController.js:35-36 | every stored agent is listed in store order, with id, name, email and mobile and no password |
| AgentController.WithoutAgentSpec | backend/controllers/agentController.js:45 | deleting removes exactly the agents with that id, at most one when ids are distinct |
| AgentController.InsertKeepsInvariant | backend/controllers/agentController.js:10-25 | inserting an agent whose email is new keeps emails and ids distinct |
| AgentController.DeleteKeepsInvariant | backend/controllers/agentController.js:45 | deleting keeps emails and ids distinct |
| AgentController.ListingLookup | backend/controllers/agentController.js:10-11 | an email shows in the listing exactly when the create handler's lookup finds it, and at most once |
| AgentController.DeletedAgentBreaksDistribution | backend/controllers/listController.js:99-104 | after deleting an agent that still has a Lead, populating the Leads fails, so the distribution view answers 500 |
| AgentController.AgentTable.constructor | backend/controllers/agentController.js:5-26 | an empty table satisfies the invariant |
| AgentController.AgentTable.CreateAgent | backend/controllers/agentController.js:5-30 | a taken email answers 400 "Agent already exists" and changes nothing; otherwise one agent is appended with the bcrypt digest of the password under cost 10, and the 201 answer echoes id, name, email and mobile but not the password; emails stay distinct |
| AgentController.AgentTable.DeleteAgent | backend/controllers/agentController.js:43-50 | only the agent with that id goes; emails stay distinct; the answer is success even for an unknown id |

## Left out

- CSV parsing and file streams are not modelled. The upload handler receives the parsed rows as a sequence of column-to-text maps. The removal of the uploaded file is not modelled either.
- The database is not modelled. That covers the persistence layer, `await` and the catch-all 500 answers on database errors. Each collection is a sequence in a class, and each save is an assignment.
- The saves of one upload are not atomic in the backend, and concurrent requests can interleave. The model runs each handler as one step.
- The upload date of a List and the newest-first sort of the list index are not modelled, because both depend on the clock and the database.
- The creation of the `uploads/` directory is not modelled, because it is I/O.
- A file rejected by the filter reaches the web framework's error handler. The model stops at the verdict `Reject(message)`.
- `FileUpload.Lower`: lower-casing changes only the ASCII letters `A`–`Z`; JavaScript's full Unicode case mapping is not modelled.
- The Agent schema file is not part of this model. The agent record carries the fields the agent handlers read and write.
- bcrypt is a symbolic digest. The random salt and the upload timestamp are parameters.
- Database object ids are natural numbers from a counter in each store.
- The agent order that the upload receives is a parameter, as the database returns it.
- The authentication handler, the server and route wiring, and the frontend pages are not modelled. The frontend's extension check is modelled in `FileUpload.ClientAccepts`.
