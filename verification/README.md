# Verified model of the Xolo authorization engines

Xolo decides access in several ways: by an NGAC policy graph, by RBAC roles, by ACL grants on resources and by
ABAC policies. Around the engines stand the stores they read, the platform administrators, the audit trail, the
notifications, and the license keys of the client. This project states what each of them promises and proves it, for
every input, every run of calls and every reachable store.

`dafny verify dfyconfig.toml` verifies the whole project.

| files | what they model |
|---|---|
| `Common`, `Graphs` | Python string operations, results and errors; reachability, acyclicity and breadth-first search on finite graphs |
| `NgacModel`, `NgacGraph` | the AND rule over policy classes, and the graph object with memoised closures, `check` and `explain` |
| `NgacStore`, `NgacService` | the node, assignment and association collections, the service calls and their runs |
| `NgacOutcomes` | when each NGAC call is accepted, what exactly it changes, and what strangers to a document cannot change |
| `NgacDecisions`, `NgacRemovals` | how edits can and cannot change decisions: locality, additions, removals |
| `RbacPermission`, `RbacDomain` | permission tokens; the two breadth-first and the two recursive searches of the role hierarchy |
| `RbacStore`, `RbacService` | roles and assignments, and the explained queries |
| `RbacEffects`, `RbacOutcomes` | what each edit does to permissions, when it is accepted and what it stores |
| `AclPolicy`, `AclAccess` | the grants of one resource, ownership, and what operations do to effective permissions |
| `AclStore`, `AclSharedIds`, `AclService` | the policy collection, runs of calls, and ids shared by a user and a group |
| `AclCallers` | whom the ACL lets do what, and that callers without MANAGE neither gain nor take anything |
| `Abac` | the evaluator with early exit against an order-free deny-overrides rule |
| `Platform`, `PlatformService` | platform users and the guard that keeps an active administrator |
| `Keyset`, `Audit`, `Notifications` | cursor pagination, the audit trail, read receipts and the unread count |
| `Digits`, `License` | positional notation, unpadded Base32 (section 6 of RFC 4648) and license keys |

How it is built:

- An object whose methods change fields is a class; its methods are proved against a step function on values, and the
  invariants, effects and run properties are lemmas about these functions. A run is a sequence of calls, each one atomic.
- The stores are maps keyed by the generated id. That a pair, a binding or a name occurs once is therefore not built in
  but proved as an invariant.
- Pure decisions are stated on graphs, grant lists and policies without reference to any algorithm, and each algorithm
  is proved to compute them.

Where the code and its own words differ, the code was followed:

- `base32_decode` claims to decode Base32 but adds eight padding characters when none are needed, so it rejects the
  encoding of every byte string whose length is a multiple of five. The license manager only decodes six bytes.
- `revoke_grant` names a grant but revokes through its principal id; where a user and a group share an id it can take
  away the other one's grant. The condition under which it removes the named grant is exact. One id gets two grants on a
  resource only through a transfer of ownership, and a run of four calls that leads there is given.
- A license is bound to the text of user, colon and application, so it does not tell user `a:b` with application `c`
  from user `a` with application `b:c`. The condition under which a license verifies for somebody else, or with another
  expiration time, is exact.
- `base32_encode` ends in an upper-casing that changes nothing, because the alphabet is upper-case.

## Model

| member | source | states |
|---|---|---|
| Graphs.AddEdgeAcyclic | xoloapi/ngac/application/ngac_service.py:179-185 | A new edge keeps a graph acyclic if and only if its head cannot already reach its tail; this is what both cycle guards rest on. |
| Graphs.ReachesAfterAddingEdge | xoloapi/ngac/application/ngac_service.py:179-194 | After adding an edge, exactly the old reachable pairs and those that can pass through the edge are connected. |
| Graphs.ClosureAfterAddingEdge | xoloapi/rbac/application/rbac_service.py:157-186 | A new edge adds the closure of its head to every closure that held its tail, and nothing to any other. |
| Graphs.RankFallsAlongEdge | xoloapi/rbac/application/rbac_service.py:292-302 | In an acyclic graph the number of reachable nodes falls along every edge, so a search without a visited set terminates. |
| Graphs.ExploreVisit | xoloapi/ngac/domain/services.py:45-53 | One round of a breadth-first search keeps the frontier invariant (duplicates in the queue and cycles allowed) and leaves less to visit. |
| Graphs.ExploredAll | xoloapi/ngac/domain/services.py:45-57 | When the queue is empty, the visited set is exactly the reflexive-transitive closure of the start node. |
| Graphs.SameEdgesSameClosure | xoloapi/ngac/domain/services.py:41-57 | Two graphs that agree on the edges out of everything reachable from a node give that node the same closure. |
| NgacGraph.NGACGraph.constructor | xoloapi/ngac/domain/services.py:21-39 | The indexes built from the three lists are the graph those lists describe: later entries win, operations are lower-cased, the cache is empty. |
| NgacGraph.NGACGraph.UpwardClosure | xoloapi/ngac/domain/services.py:41-57 | Returns exactly the nodes reachable from the start, keeps every memoised closure correct, and terminates on cyclic graphs. |
| NgacGraph.NGACGraph.AttributesUnder | xoloapi/ngac/domain/services.py:76-87 | The attributes of one type above a node that themselves lie under the policy class, with closures filled in on demand. |
| NgacGraph.SomePairJoins | xoloapi/ngac/domain/services.py:89-93 | Given both attribute sets, the any-expression finds a pair if and only if the policy class permits the operation. |
| NgacGraph.NGACGraph.PermitsThrough | xoloapi/ngac/domain/services.py:76-93 | One round of the loop decides exactly whether this policy class permits the operation. |
| NgacGraph.NGACGraph.FirstDenial | xoloapi/ngac/domain/services.py:75-97 | The loop ends without a denial if and only if every class permits, and otherwise names one that does not. |
| NgacGraph.NGACGraph.Check | xoloapi/ngac/domain/services.py:59-99 | For any cache contents left by earlier calls: allowed if and only if some policy class governs the object and each one that does permits the operation; a denial names a governing class that does not. |
| NgacGraph.NGACGraph.MatchesOf | xoloapi/ngac/domain/services.py:111-111 | The matching associations are exactly the pairs of listed attributes whose association holds the operation. |
| NgacGraph.NGACGraph.ClassDetail | xoloapi/ngac/domain/services.py:109-117 | Both attribute lists are complete and without repetition, and there is a match if and only if the class permits the operation. |
| NgacGraph.VerdictDecides | xoloapi/ngac/domain/services.py:101-125 | Access is granted if and only if some class governs and no governing class fails. |
| NgacGraph.ExplainsStep | xoloapi/ngac/domain/services.py:108-117 | Appending one class to the lists it belongs to keeps the explanation right for the classes looked at so far. |
| NgacGraph.NGACGraph.Explain | xoloapi/ngac/domain/services.py:101-125 | The explanation agrees with the AND rule: allowed iff governing classes exist and none failed; successful and failed classes split the sorted governing classes in order; the associations reported are exactly the joining ones. |
| NgacStore.AssignGuardIsExact | xoloapi/ngac/application/ngac_service.py:149-194 | Between existing nodes an administrator’s new assignment is accepted if and only if the store with it satisfies the whole invariant. |
| NgacStore.AssociateGuardIsExact | xoloapi/ngac/application/ngac_service.py:220-260 | Between existing nodes an administrator’s association is accepted if and only if the store with its normalised operations satisfies the whole invariant. |
| NgacStore.InsertNodeGuardIsExact | xoloapi/ngac/infrastructure/mongo_ngac_repository.py:35-52 | A node whose bindings fit its type is inserted if and only if its id is new and the invariant is kept. |
| NgacStore.ReplaceNodeGuardIsExact | xoloapi/ngac/infrastructure/mongo_ngac_repository.py:54-73 | A node of unchanged type is replaced if and only if it exists and no binding becomes shared. |
| NgacStore.NormalizeOpsNormalized | xoloapi/ngac/application/ngac_service.py:249-251 | Stored operations are non-empty, lower-case and free of repetition, or the list is rejected as empty. |
| NgacStore.NormalizeOpsMembers | xoloapi/ngac/application/ngac_service.py:249-249 | The stored operations are exactly the non-blank ones asked for, stripped and lower-cased. |
| NgacStore.DeleteRemovesExactlyTheImpact | xoloapi/ngac/application/ngac_service.py:132-145 | An allowed deletion removes the node and exactly the edges that deletion_impact announced; every other document is untouched and no edge mentions the node any more. |
| NgacStore.WithoutNodesKeepsInv | xoloapi/ngac/infrastructure/mongo_ngac_repository.py:93-136 | The cascades of both deletions keep the graph typed, acyclic, free of dangling edges and duplicates. |
| NgacStore.AssignKeepsInv | xoloapi/ngac/application/ngac_service.py:149-194 | Assigning keeps the invariant whatever the arguments. |
| NgacStore.CreateNodeKeepsInv | xoloapi/ngac/application/ngac_service.py:27-63 | Creating a node keeps the invariant, in particular binding types and uniqueness. |
| NgacStore.UpdateNodeKeepsInv | xoloapi/ngac/application/ngac_service.py:77-130 | Editing a node keeps the invariant, in particular the types that the edges rely on. |
| NgacStore.AssociateKeepsInv | xoloapi/ngac/application/ngac_service.py:220-260 | Associating keeps endpoint types, one association per pair and normalised operations. |
| NgacStore.UpdateAssociationKeepsInv | xoloapi/ngac/application/ngac_service.py:262-279 | Replacing operations keeps the invariant. |
| NgacStore.RemoveAssignmentKeepsInv | xoloapi/ngac/application/ngac_service.py:196-213 | Removing an assignment keeps the invariant. |
| NgacStore.NextKeepsInv | xoloapi/ngac/application/ngac_service.py:27-330 | Every service call keeps: acyclic assignments, typed existing endpoints, one assignment and one association per pair, at most one node per bound user or resource. |
| NgacStore.RunKeepsInv | xoloapi/ngac/application/ngac_service.py:27-330 | The invariant survives every run of calls. |
| NgacStore.ReachableStoresSatisfyInv | xoloapi/ngac/application/ngac_service.py:27-330 | Every store reachable from an empty account satisfies the invariant. |
| NgacOutcomes.TargetsAreAssignable | xoloapi/ngac/domain/value_objects.py:13-19 | The six pairs of types between which assignments are allowed, and no others. |
| NgacOutcomes.AssignOutcome | xoloapi/ngac/application/ngac_service.py:149-194 | Accepted if and only if both nodes exist, their types are assignable, the caller may change the target and the target does not reach the source; then the graph gains exactly this edge, and nothing else changes. |
| NgacOutcomes.RemoveAssignmentOutcome | xoloapi/ngac/application/ngac_service.py:196-213 | Accepted if and only if the pair is assigned and the caller may change that assignment; then the graph loses exactly this edge, and nothing else changes. |
| NgacOutcomes.AssociateOutcome | xoloapi/ngac/application/ngac_service.py:220-260 | Accepted if and only if the types fit, some operation is not blank, the pair is not associated and the caller may change the user attribute; exactly this association is added, with the operations that are kept. |
| NgacOutcomes.UpdateAssociationOutcome | xoloapi/ngac/application/ngac_service.py:262-279 | Accepted if and only if the association exists, the caller may change it and some operation is not blank; its operations and nothing else are replaced. |
| NgacOutcomes.RemoveAssociationOutcome | xoloapi/ngac/application/ngac_service.py:314-330 | Accepted if and only if the association exists and the caller may change it; it and nothing else is removed. |
| NgacOutcomes.CreateNodeOutcome | xoloapi/ngac/application/ngac_service.py:27-63 | Accepted if and only if the bindings fit the type, resolve and are free and the id is new; the node is stored as asked for, bound to the user the identifier stands for. |
| NgacOutcomes.UpdateNodeOutcome | xoloapi/ngac/application/ngac_service.py:77-130 | Accepted if and only if the caller may change the node, the name is not blank and the new bindings fit, resolve and are free; exactly the fields asked for change, in this document only. |
| NgacOutcomes.DeleteNodeOutcome | xoloapi/ngac/application/ngac_service.py:132-145 | A deletion is accepted if and only if the node exists and the caller may change it. |
| NgacOutcomes.DeleteByOwnerOutcome | xoloapi/ngac/infrastructure/mongo_ngac_repository.py:113-136 | Removes exactly the owner’s nodes and the edges that touch them, and returns the number of nodes. |
| NgacOutcomes.StrangersRespectOwners | xoloapi/ngac/application/ngac_service.py:27-330 | Whatever users other than the owner call, not as administrators: the owner’s nodes stay as they are, nothing new is assigned to them, and no association from them is new or altered except in operations of one that somebody else owns. |
| NgacOutcomes.StrangersKeepAssignments | xoloapi/ngac/application/ngac_service.py:27-330 | By any such run the owner’s assignments stay as they are, except where a node at their end, not owned by the owner, is deleted. |
| NgacOutcomes.StrangersKeepAssociations | xoloapi/ngac/application/ngac_service.py:27-330 | By any such run the owner’s associations stay as they are, except where a node at their end, not owned by the owner, is deleted. |
| NgacService.ListedGraph | xoloapi/ngac/infrastructure/mongo_ngac_repository.py:242-255 | Building a graph from any listing of a valid store gives the store’s own graph: no document hides another. |
| NgacService.NGACRepository.CreateNode | xoloapi/ngac/infrastructure/mongo_ngac_repository.py:35-52 | The collection and result are those of the insertion step, with its three conflict cases. |
| NgacService.NGACRepository.UpdateNode | xoloapi/ngac/infrastructure/mongo_ngac_repository.py:54-73 | The collection and result are those of the replacement step. |
| NgacService.NGACRepository.DeleteNode | xoloapi/ngac/infrastructure/mongo_ngac_repository.py:93-111 | The three collections afterwards are those of the cascading step. |
| NgacService.NGACRepository.DeleteNodesByOwner | xoloapi/ngac/infrastructure/mongo_ngac_repository.py:113-136 | Removes exactly the owner’s nodes with all edges that touch them, and returns their number. |
| NgacService.NGACRepository.CreateAssignment | xoloapi/ngac/infrastructure/mongo_ngac_repository.py:140-151 | An existing pair is left alone and the new id is returned all the same; otherwise the document is stored under it. |
| NgacService.NGACRepository.FindAssignment | xoloapi/ngac/infrastructure/mongo_ngac_repository.py:153-161 | Finds an assignment of the pair if and only if there is one. |
| NgacService.NGACRepository.RemoveAssignment | xoloapi/ngac/infrastructure/mongo_ngac_repository.py:163-171 | With one document per pair, deleting one leaves none of the pair and every other assignment. |
| NgacService.NGACRepository.CreateAssociation | xoloapi/ngac/infrastructure/mongo_ngac_repository.py:184-197 | Rejected if and only if the pair is associated already; else exactly the new document is added. |
| NgacService.NGACRepository.LoadGraphData | xoloapi/ngac/infrastructure/mongo_ngac_repository.py:242-255 | Returns lists that hold every document of each collection and nothing else. |
| NgacService.NGACService.CreateNode | xoloapi/ngac/application/ngac_service.py:27-63 | Store and result are those of the creation step, in the source’s order of checks. |
| NgacService.NGACService.EditedNode | xoloapi/ngac/application/ngac_service.py:96-125 | The field-by-field edit computes the edited node or the first error. |
| NgacService.NGACService.UpdateNode | xoloapi/ngac/application/ngac_service.py:77-130 | Store and result are those of the update step. |
| NgacService.NGACService.DeleteNode | xoloapi/ngac/application/ngac_service.py:132-145 | Store and result are those of the deletion step. |
| NgacService.NGACService.DeletionImpact | xoloapi/ngac/application/ngac_service.py:281-291 | Reports exactly the assignments and associations that touch the node. |
| NgacService.NGACService.Assign | xoloapi/ngac/application/ngac_service.py:149-194 | Store and result are those of the assignment step, whose outcome NgacOutcomes.AssignOutcome states; the closure computed on a freshly loaded graph rejects exactly when the target reaches the source. |
| NgacService.NGACService.RemoveAssignment | xoloapi/ngac/application/ngac_service.py:196-213 | Store and result are those of the removal step. |
| NgacService.NGACService.NormalizedOps | xoloapi/ngac/application/ngac_service.py:249-249 | The loop computes the normalised operations. |
| NgacService.NGACService.Associate | xoloapi/ngac/application/ngac_service.py:220-260 | Store and result are those of the association step. |
| NgacService.NGACService.UpdateAssociation | xoloapi/ngac/application/ngac_service.py:262-279 | Store and result are those of the edit step. |
| NgacService.NGACService.RemoveAssociation | xoloapi/ngac/application/ngac_service.py:314-330 | Store and result are those of the removal step. |
| NgacService.NGACService.CheckAccess | xoloapi/ngac/application/ngac_service.py:337-351 | On every store that satisfies the invariant the decision is the AND rule on the store’s own graph. |
| NgacService.NGACService.CheckAccessDetailed | xoloapi/ngac/application/ngac_service.py:353-358 | On every such store the explanation is right for the store’s own graph. |
| NgacDecisions.DecisionIsLocal | xoloapi/ngac/domain/services.py:59-99 | A decision depends only on the nodes, edges and associations above the user and the object. |
| NgacDecisions.CaseDoesNotMatter | xoloapi/ngac/domain/services.py:59-61 | An operation may be asked about in any case. |
| NgacDecisions.DeletingElsewhereIsInvisible | xoloapi/ngac/application/ngac_service.py:132-145 | Deleting any set of nodes outside both upward closures changes no decision about the two. |
| NgacDecisions.EditingElsewhereIsInvisible | xoloapi/ngac/application/ngac_service.py:149-213 | On a reachable store, assigning or unassigning a node outside both upward closures changes no decision about the two. |
| NgacDecisions.EditingEdgesElsewhere | xoloapi/ngac/domain/services.py:59-99 | Any change of edges whose source lies outside both closures changes no decision about the two. |
| NgacDecisions.UpdateKeepsIdentity | xoloapi/ngac/application/ngac_service.py:77-130 | An edit changes one document only and keeps its id, type and owner; a rejected edit changes nothing. |
| NgacDecisions.UpdatingNodesIsInvisible | xoloapi/ngac/application/ngac_service.py:77-130 | Editing a node changes no decision about anyone. |
| NgacDecisions.InsertingNodesIsInvisible | xoloapi/ngac/application/ngac_service.py:27-63 | In a reachable store a new node changes no decision, not even one asked about the node itself. |
| NgacDecisions.GrantAfterNewEdge | xoloapi/ngac/domain/services.py:59-99 | A grant survives a new edge if and only if every policy class that newly governs the object permits the operation. |
| NgacDecisions.BelowObjectAttribute | xoloapi/ngac/domain/value_objects.py:13-19 | In a typed graph only objects and object attributes lie below an object attribute. |
| NgacDecisions.UserSideEdgeKeepsGrants | xoloapi/ngac/domain/services.py:59-99 | In a typed graph an assignment from a user or user attribute never turns a grant into a denial, for all ids asked about. |
| NgacDecisions.MoreOperationsKeepGrants | xoloapi/ngac/domain/services.py:59-99 | More operations on associations never turn a grant into a denial. |
| NgacDecisions.WideningKeepsGrants | xoloapi/ngac/application/ngac_service.py:149-279 | On a reachable store, creating or editing a node, a user-side assignment, a new association or an edit that keeps the operations keeps every grant. |
| NgacDecisions.WideningRunKeepsGrants | xoloapi/ngac/application/ngac_service.py:149-279 | No run of such calls turns any grant into a denial. |
| NgacRemovals.GrantInWhole | xoloapi/ngac/domain/services.py:59-99 | What a part of a graph grants, the whole grants if and only if every policy class that governs the object only in the whole permits the operation. |
| NgacRemovals.RemovalEffect | xoloapi/ngac/application/ngac_service.py:132-330 | On a reachable store, for every call that only removes: a request granted afterwards was granted before if and only if every policy class that no longer governs the object permitted it. |
| NgacRemovals.UserSideRemovalGrantsNothing | xoloapi/ngac/domain/services.py:59-99 | Taking away nothing of the object side, its edges and policy classes, never turns a denial into a grant, for all ids asked about. |
| NgacRemovals.NarrowingGrantsNothing | xoloapi/ngac/application/ngac_service.py:132-330 | On a reachable store, deleting user-side nodes, removing user-side assignments, associations or operations turns no denial into a grant. |
| NgacRemovals.NarrowingRunGrantsNothing | xoloapi/ngac/application/ngac_service.py:132-330 | No run of such calls turns any denial into a grant. |
| RbacPermission.ParsePrint | xoloapi/rbac/domain/value_objects.py:23-31 | Printing and parsing gives a permission back if and only if both parts are non-empty and free of colons and white space. |
| RbacPermission.ParseAcceptsPattern | xoloapi/rbac/domain/value_objects.py:10-28 | Parsing accepts exactly the texts token:token, and printing the result restores the text. |
| RbacPermission.MatchesByText | xoloapi/rbac/domain/value_objects.py:33-37 | A stored permission grants t:a if and only if its text is one of t:a, *:a, t:* and *:*. |
| RbacDomain.ResolveEffectivePermissions | xoloapi/rbac/domain/services.py:10-29 | The search returns exactly the permissions of the existing roles reachable from the roots, for cyclic hierarchies and missing roles too. |
| RbacDomain.WouldCreateCycle | xoloapi/rbac/domain/services.py:39-55 | True if and only if the role is reachable from the proposed parent. |
| RbacDomain.Check | xoloapi/rbac/domain/services.py:31-37 | For a required t:a, true if and only if one of the texts t:a, *:a, t:* and *:* is among the effective permissions; an error if and only if the required text does not parse. |
| RbacDomain.FindIsRight | xoloapi/rbac/application/rbac_service.py:292-302 | On an acyclic hierarchy the search without a visited set finds a chain if and only if the target is reachable, and what it returns is a genuine parent chain. |
| RbacDomain.FindAmongParentsIsRight | xoloapi/rbac/application/rbac_service.py:298-302 | The loop over the parents finds a chain if and only if some remaining parent reaches the target. |
| RbacDomain.AddAncestors | xoloapi/rbac/application/rbac_service.py:441-448 | With a shared visited set, the recursion adds all parents of the role and closes everything it newly adds; it terminates on cycles. |
| RbacDomain.InheritedRoles | xoloapi/rbac/application/rbac_service.py:440-450 | Seeding the recursion from every root collects exactly the roles at least one parent step above a root. |
| RbacDomain.RootsAndInherited | xoloapi/rbac/application/rbac_service.py:439-450 | Roots and inherited roles together are the closure that the breadth-first search visits. |
| RbacDomain.OwnAndInheritedAreEffective | xoloapi/rbac/application/rbac_service.py:451-454 | Own and inherited permissions together equal the breadth-first result for every role map, cyclic or with missing roles. |
| RbacStore.AddParentKeepsInv | xoloapi/rbac/application/rbac_service.py:157-186 | Adding a parent keeps the hierarchy acyclic and every parent an existing role. |
| RbacStore.AddParentGuardIsExact | xoloapi/rbac/application/rbac_service.py:157-186 | Between existing roles a parent is accepted if and only if the hierarchy stays acyclic. |
| RbacStore.CreateRoleGuardIsExact | xoloapi/rbac/application/rbac_service.py:32-58 | A role is created if and only if the store with it satisfies the invariant. |
| RbacStore.AssignRoleGuardIsExact | xoloapi/rbac/application/rbac_service.py:203-248 | For a subject that resolves, a role is assigned if and only if the store with the assignment satisfies the invariant. |
| RbacStore.DeleteRoleKeepsInv | xoloapi/rbac/application/rbac_service.py:107-127 | Deleting a role leaves no assignment and no parent entry that names it. |
| RbacStore.NextKeepsInv | xoloapi/rbac/application/rbac_service.py:32-372 | Every call keeps: acyclic hierarchy, existing parents and assigned roles, parsing permissions, unique names and assignments. |
| RbacStore.RunKeepsInv | xoloapi/rbac/application/rbac_service.py:32-372 | The invariant survives every run of calls. |
| RbacStore.ReachableStoresSatisfyInv | xoloapi/rbac/application/rbac_service.py:32-372 | Every role store reachable from an empty account satisfies the invariant. |
| RbacService.RBACService.CreateRole | xoloapi/rbac/application/rbac_service.py:32-58 | Store and result are those of the creation step; the validation loop rejects the first permission that does not parse. |
| RbacService.RBACService.UpdateRole | xoloapi/rbac/application/rbac_service.py:72-105 | Store and result are those of the update step, including the no-change exit. |
| RbacService.RBACService.DeleteRole | xoloapi/rbac/application/rbac_service.py:107-127 | The loop over all roles strikes the id from every parent list; the store is that of the deletion step. |
| RbacService.RBACService.AddPermission | xoloapi/rbac/application/rbac_service.py:129-145 | Store and result are those of the step; a permission held already is not doubled. |
| RbacService.RBACService.RemovePermission | xoloapi/rbac/application/rbac_service.py:147-155 | Store and result are those of the removal step. |
| RbacService.RBACService.AddParent | xoloapi/rbac/application/rbac_service.py:157-186 | Rejected as a cycle exactly when the new parent already reaches the role. |
| RbacService.RBACService.RemoveParent | xoloapi/rbac/application/rbac_service.py:188-199 | Store and result are those of the removal step. |
| RbacService.RBACService.AssignRole | xoloapi/rbac/application/rbac_service.py:203-248 | Store and result are those of the assignment step, in the source’s order of checks. |
| RbacService.RBACService.UnassignRole | xoloapi/rbac/application/rbac_service.py:250-257 | Removes one matching assignment if there is one, and nothing else; with the type given, exactly the assignment of this role to this subject. |
| RbacService.RBACService.UpdateAssignment | xoloapi/rbac/application/rbac_service.py:317-369 | With unique assignments, whichever duplicate the lookup returns leads to the same store and result. |
| RbacService.RBACService.RolesOf | xoloapi/rbac/infrastructure/mongo_role_assignment_repository.py:58-68 | Lists exactly the roles assigned to one subject of one type. |
| RbacService.RBACService.GetSubjectRoles | xoloapi/rbac/application/rbac_service.py:259-278 | Exactly the existing roles held directly or through one of the user’s groups. |
| RbacService.RBACService.HasRoleExplained | xoloapi/rbac/application/rbac_service.py:284-307 | True if and only if one of the subject’s roles reaches the target, with a genuine parent chain from that role to it. |
| RbacService.RBACService.GetEffectivePermissions | xoloapi/rbac/application/rbac_service.py:407-418 | The sorted list of exactly the subject’s permissions. |
| RbacService.RBACService.CheckExplained | xoloapi/rbac/application/rbac_service.py:388-405 | For a required t:a, allowed if and only if the subject holds one of the texts t:a, *:a, t:* and *:*; the one reported is the least of those it holds. |
| RbacService.RBACService.GetEffectivePermissionsExplained | xoloapi/rbac/application/rbac_service.py:420-460 | The recursive computation reports the same sorted permissions as the search, and own, inherited, direct and group parts are each exact. |
| RbacService.PermissionsOfRoots | xoloapi/rbac/application/rbac_service.py:388-460 | Leaving missing roles out of the root list, as one caller does, or keeping them, as the other does, gives the same permissions. |
| RbacEffects.AddParentEffect | xoloapi/rbac/application/rbac_service.py:157-186 | A new parent passes on exactly its effective permissions to exactly the holders of roles at or below the child. |
| RbacEffects.AddPermissionEffect | xoloapi/rbac/application/rbac_service.py:129-145 | A new permission reaches exactly the holders of roles at or below the role. |
| RbacEffects.AssignRoleEffect | xoloapi/rbac/application/rbac_service.py:203-248 | An assignment gives exactly the role’s effective permissions to exactly the subjects it reaches, directly or through a group. |
| RbacEffects.DeletingUnreachedRole | xoloapi/rbac/application/rbac_service.py:107-127 | Deleting a role that no root reaches changes nothing for the roots. |
| RbacEffects.DeleteRoleEffect | xoloapi/rbac/application/rbac_service.py:107-127 | After delete_role exactly the permissions of the other roles remain that are reachable without passing through the role. |
| RbacEffects.RemoveParentEffect | xoloapi/rbac/application/rbac_service.py:188-199 | After remove_parent exactly the permissions remain that are reachable without that edge. |
| RbacEffects.RemovePermissionEffect | xoloapi/rbac/application/rbac_service.py:147-155 | After remove_permission the permission remains for exactly those who reach another role that grants it; nothing else changes. |
| RbacEffects.TakingAwayGainsNothing | xoloapi/rbac/application/rbac_service.py:107-257 | No run of removals, not even of parents or whole roles, gives anyone a permission. |
| RbacEffects.AddingLosesNothing | xoloapi/rbac/application/rbac_service.py:32-248 | No run of additions takes a permission from anyone. |
| RbacOutcomes.CreateRoleOutcome | xoloapi/rbac/application/rbac_service.py:32-58 | A role is created if and only if its name is free and its permissions parse; it then grants exactly those, and nobody’s permissions change by it. |
| RbacOutcomes.UpdateRoleOutcome | xoloapi/rbac/application/rbac_service.py:72-105 | An edit is accepted if and only if the role exists and a new name is free; it stores name and description, keeps permissions and parents, and changes nobody’s permissions. |
| RbacOutcomes.DeleteRoleOutcome | xoloapi/rbac/application/rbac_service.py:107-127 | Deleting an existing role takes away it, its assignments and every mention of it as a parent, and nothing else. |
| RbacOutcomes.PermissionEditOutcome | xoloapi/rbac/application/rbac_service.py:129-155 | Adding is accepted if and only if the role exists and the permission parses, removing if and only if the role exists; only that permission of that role changes. |
| RbacOutcomes.ParentEditOutcome | xoloapi/rbac/application/rbac_service.py:157-199 | A parent is added if and only if both roles exist and the parent does not reach the role, and removed if and only if the role exists; only that parent of that role changes. |
| RbacOutcomes.AssignRoleOutcome | xoloapi/rbac/application/rbac_service.py:203-248 | An existing role is assigned if and only if the recipient is a user that resolves or an existing active group, and does not hold it already; exactly that assignment is added. |
| RbacOutcomes.UpdateAssignmentOutcome | xoloapi/rbac/application/rbac_service.py:317-369 | Likewise for a change of an existing assignment, which leaves all others alone. |
| RbacOutcomes.PermissionsAreGiven | xoloapi/rbac/application/rbac_service.py:407-418 | A subject may do exactly what the roles of its assignments, direct or through groups, and the roles above them grant. |
| RbacOutcomes.UpdateAssignmentEffect | xoloapi/rbac/application/rbac_service.py:317-369 | A changed assignment takes back what it alone gave and gives the new role’s permissions to exactly the subjects it now reaches. |
| RbacOutcomes.DeletedAssignmentsEffect | xoloapi/rbac/infrastructure/mongo_role_assignment_repository.py:99-113 | After deleting one assignment, or all of one subject, everyone keeps exactly what the remaining assignments give. |
| AclPolicy.EffectivePermissions | xoloapi/acl/domain/aggregates.py:209-214 | The loop computes the union of what the matching grants are worth, an owner’s grant being worth everything. |
| AclPolicy.TransferOwnerLoop | xoloapi/acl/domain/aggregates.py:82-114 | The loop with its continue branches computes the transferred grant list. |
| AclPolicy.OneOwnerCount | xoloapi/acl/domain/aggregates.py:162-164 | With unique grant ids the sole owner is counted once, so the guard of revoke always protects it. |
| AclPolicy.ClaimsKeepSound | xoloapi/acl/domain/aggregates.py:36-80 | Both claims produce or keep exactly one owner grant with MANAGE and add no second grant for an id. |
| AclPolicy.GrantKeepsSound | xoloapi/acl/domain/aggregates.py:116-140 | Granting keeps exactly one owner and merges into an existing grant. |
| AclPolicy.RevokeKeepsSound | xoloapi/acl/domain/aggregates.py:142-177 | Revoking keeps exactly one owner whose stored permissions include MANAGE. |
| AclPolicy.UpdateKeepsSound | xoloapi/acl/domain/aggregates.py:179-203 | Editing a grant keeps exactly one owner. |
| AclPolicy.TransferKeepsSound | xoloapi/acl/domain/aggregates.py:82-114 | A transfer on a sound policy succeeds and leaves exactly one owner, the new one. |
| AclPolicy.TransferKeepsUniquePrincipals | xoloapi/acl/domain/aggregates.py:82-114 | A transfer leaves one grant per principal id if and only if no grant of another type with the new owner’s id is kept. |
| AclAccess.EffectiveOfConcatenation | xoloapi/acl/domain/aggregates.py:209-214 | Effective permissions distribute over concatenation of id lists. |
| AclAccess.GrantEffect | xoloapi/acl/domain/aggregates.py:116-140 | A grant adds exactly the granted permissions to the lists that name its principal and changes no other list. |
| AclAccess.RevokeEffect | xoloapi/acl/domain/aggregates.py:142-177 | On every sound policy, shared ids included: the first grant of the id keeps exactly its other permissions, every other grant counts as before, and lists without the id are unchanged. |
| AclAccess.RevokeFromOnlyGrant | xoloapi/acl/domain/aggregates.py:142-177 | Where the id has one grant, it loses exactly the named permissions, unless it is the owner. |
| AclAccess.UpdateEffect | xoloapi/acl/domain/aggregates.py:179-203 | On every policy with unique grant ids: the grant is worth exactly the new permissions, every other grant counts as before, and lists without its id are unchanged. |
| AclAccess.UpdateOfOnlyGrant | xoloapi/acl/domain/aggregates.py:179-203 | Where the id has one grant, it holds exactly the new permissions afterwards. |
| AclAccess.GrantThenRevoke | xoloapi/acl/domain/aggregates.py:116-177 | Granting to a principal without a grant and revoking the same permissions restores the grant list. |
| AclAccess.TransferEffect | xoloapi/acl/domain/aggregates.py:82-114 | On every sound policy, shared ids included: the new owner holds everything, the old one what was kept, every other grant counts as before, and lists that name neither are unchanged. |
| AclAccess.TransferBetweenOnlyGrants | xoloapi/acl/domain/aggregates.py:82-114 | Where ids have one grant each, the old owner holds exactly what was kept and the new one everything. |
| AclAccess.StepGainsNothing | xoloapi/acl/domain/aggregates.py:36-203 | One call by principals who jointly lack MANAGE keeps the policy sound and every grant within what its principal had. |
| AclAccess.CoalitionGainsNothing | xoloapi/acl/domain/aggregates.py:36-214 | No finite sequence of such calls ever enlarges the effective permissions of any list of principals. |
| AclCallers.GrantOutcome | xoloapi/acl/domain/aggregates.py:116-140 | Granting is accepted if and only if some grant to one of the caller’s ids is the owner’s or includes MANAGE. |
| AclCallers.RevokeOutcome | xoloapi/acl/domain/aggregates.py:142-177 | Access is denied if and only if the caller neither names itself nor may manage; a conflict arises if and only if MANAGE is to be taken from the owner; everything else is accepted. |
| AclCallers.UpdateOutcome | xoloapi/acl/domain/aggregates.py:179-203 | An edit is accepted if and only if the caller may manage, the new set is not empty and the grant exists and is not the owner’s. |
| AclCallers.ClaimOutcome | xoloapi/acl/domain/aggregates.py:36-80 | A claim succeeds if and only if nobody owns the resource or the claimant’s first grant is the owner’s; claiming an unowned resource gives the claimant everything, and nobody else’s permissions change in any case. |
| AclCallers.StepTakesNothing | xoloapi/acl/domain/aggregates.py:36-203 | One call by principals who jointly lack MANAGE leaves the permissions of all others exactly as they were. |
| AclCallers.CoalitionTakesNothing | xoloapi/acl/domain/aggregates.py:36-214 | No finite sequence of such calls changes the effective permissions of any list of ids outside the coalition. |
| AclStore.NextKeepsInv | xoloapi/acl/application/acl_service.py:75-429 | Every service call keeps every stored policy with exactly one owner grant that includes MANAGE and unique grant ids. |
| AclStore.RunKeepsInv | xoloapi/acl/application/acl_service.py:75-429 | This survives every run of calls, for any ids, also where users and groups share ids. |
| AclStore.NextKeepsOneGrantEach | xoloapi/acl/application/acl_service.py:75-429 | With disjoint user and group ids every call keeps at most one grant per principal id. |
| AclStore.RunKeepsOneGrantEach | xoloapi/acl/application/acl_service.py:75-429 | Both properties survive every run. |
| AclStore.RevokeGrantRemovesExactly | xoloapi/acl/application/acl_service.py:103-126 | revoke_grant removes exactly the grant it was given if and only if that is the first grant of its principal id. |
| AclStore.OnlyTransfersShareIds | xoloapi/acl/application/acl_service.py:75-429 | No call but a transfer gives a principal id a second grant, also where users and groups share ids. |
| AclStore.RunsWithoutTransferKeepDistinct | xoloapi/acl/application/acl_service.py:75-429 | Every run without a transfer keeps at most one grant per principal id. |
| AclSharedIds.RevokeGrantCanMissItsGrant | xoloapi/acl/application/acl_service.py:103-126 | A run of four calls from the empty store leads to a policy where revoking a group’s grant removes a user’s instead. |
| AclStore.AdminsCanAlwaysManage | xoloapi/acl/application/acl_service.py:39-41 | Acting with the owners’ ids, an administrator holds every permission on every sound policy. |
| AclStore.UserCallOnPolicy | xoloapi/acl/application/acl_service.py:75-429 | A call by users without MANAGE acts on the policy as one operation presented with their own ids and groups, or not at all. |
| AclStore.UsersWithoutManageGainNothing | xoloapi/acl/application/acl_service.py:75-429 | Users who jointly lack MANAGE on a resource can neither delete nor transfer it nor widen anyone’s access to it, by any run of calls, the guarded transfer of the users’ route included. |
| AclCallers.UsersWithoutManageTakeNothing | xoloapi/acl/application/acl_service.py:75-429 | Whatever users who jointly lack MANAGE on a resource call, ids that are neither theirs nor their groups’ keep exactly their permissions on it. |
| AclCallers.CallersManage | xoloapi/acl/application/acl_service.py:27-41 | A caller’s ids carry MANAGE if and only if the caller or one of its groups owns the resource or was granted MANAGE; an administrator’s, if and only if there is an owner. |
| AclCallers.CreateResourceOutcome | xoloapi/acl/application/acl_service.py:75-101 | A resource is created if and only if its stripped name is neither blank nor taken and the owner resolves; the owner then holds its only grant, with everything. |
| AclCallers.ClaimCallsOutcome | xoloapi/acl/application/acl_service.py:174-205 | Both claims succeed if and only if the resource has no policy or its owner claims it; no other policy changes. |
| AclCallers.GrantCallOutcome | xoloapi/acl/application/acl_service.py:209-250 | A grant call is accepted if and only if the resource exists, the principal resolves and the caller can manage; no other policy changes. |
| AclCallers.RevokeCallOutcome | xoloapi/acl/application/acl_service.py:254-301 | A revocation is accepted if and only if the resource exists, the target resolves, it is the caller or the caller can manage, and MANAGE is not taken from the owner. |
| AclCallers.RevokeGrantOutcome | xoloapi/acl/application/acl_service.py:103-126 | A grant is revoked by id if and only if it is not the owner’s, it is the caller’s own or the caller can manage, and MANAGE is not taken from the owner. |
| AclCallers.UpdateCallOutcome | xoloapi/acl/application/acl_service.py:128-159 | An edit of a grant is accepted if and only if the caller can manage, the new set is not empty and the grant is not the owner’s. |
| AclCallers.OversightOutcome | xoloapi/acl/application/acl_service.py:362-429 | Seeing, transferring and deleting a policy is open to exactly the administrators and the callers who own it or hold MANAGE, themselves or through a group. |
| AclCallers.DeleteByUserOutcome | xoloapi/acl/infrastructure/mongo_resource_policy_repository.py:147-153 | Deleting by user drops exactly the policies in which some grant names that id. |
| AclService.ACLService.CreateResource | xoloapi/acl/application/acl_service.py:75-101 | Store and result are those of the creation step, including the conflict with a stored policy. |
| AclService.ACLService.ClaimResource | xoloapi/acl/application/acl_service.py:174-188 | Store and result are those of the claim step; an unknown resource gets a new policy. |
| AclService.ACLService.ClaimResourceForPrincipal | xoloapi/acl/application/acl_service.py:190-205 | Store and result are those of the claim step for a user or group. |
| AclService.ACLService.Grant | xoloapi/acl/application/acl_service.py:209-250 | Store and result are those of the grant step, whose outcome AclCallers.GrantCallOutcome states. |
| AclService.ACLService.Revoke | xoloapi/acl/application/acl_service.py:254-301 | Store and result are those of the revoke step, whose outcome AclCallers.RevokeCallOutcome states. |
| AclService.ACLService.RevokeGrant | xoloapi/acl/application/acl_service.py:103-126 | Store and result are those of the step, whose outcome AclCallers.RevokeGrantOutcome states. |
| AclService.ACLService.UpdateGrantPermissions | xoloapi/acl/application/acl_service.py:128-159 | The grant returned keeps id and principal, carries the new permissions and is the stored one. |
| AclService.ACLService.Check | xoloapi/acl/application/acl_service.py:305-330 | Allowed if and only if the resource is known and each required permission is given by some grant to the subject or, for a user, to one of its groups. |
| AclService.ACLService.TransferOwner | xoloapi/acl/application/acl_service.py:382-401 | Store and result are those of the transfer step; absent and empty kept permissions mean the same. |
| AclService.ACLService.GetPolicyForCaller | xoloapi/acl/application/acl_service.py:362-380 | The policy is handed out exactly to administrators and holders of MANAGE. |
| AclService.TransferResourceOwner | xoloapi/acl/controller.py:240-261 | Store and result are those of the guarded transfer step: authorise, resolve the new owner, transfer. |
| AclService.ACLService.DeleteResource | xoloapi/acl/application/acl_service.py:406-429 | Store and result are those of the deletion step, with the different errors for administrators and users. |
| Keyset.SelectedAfter | xoloapi/audit/repository.py:52-58 | A usable cursor leaves exactly the documents before its own in the order; any other cursor is ignored. |
| Keyset.FirstOf | xoloapi/audit/repository.py:59-59 | Sorting and limiting yields the first entries of the descending listing. |
| Keyset.NextRequest | xoloapi/audit/repository.py:52-66 | The cursor handed out makes the next request select exactly what the page left over, even when later documents have arrived; less remains each time. |
| Keyset.NextRequestSelectsRest | xoloapi/audit/repository.py:52-66 | This needs only that nothing changes behind the cursor. |
| Keyset.WalkListsEverything | xoloapi/audit/repository.py:52-66 | Following cursors with any limit of at least one terminates and concatenates to the full listing, in order. |
| Keyset.FixedWalk | xoloapi/audit/repository.py:52-66 | Over a collection that does not change, the walk lists every document the filter lets through. |
| Keyset.UndisturbedWalk | xoloapi/audit/repository.py:52-66 | A walk ends and lists exactly what the first request could see whenever nothing changes behind its cursor between the requests. |
| Keyset.WalkDuringAdditions | xoloapi/audit/repository.py:52-66 | Whatever documents are added between the requests, a walk lists in descending order and nothing twice, and once it ends nothing that was there at its start is missing. |
| Audit.AuthorizationAuditRepository.Append | xoloapi/audit/repository.py:18-22 | Adds one event and changes no other. |
| Audit.AuthorizationAuditRepository.Query | xoloapi/audit/repository.py:24-66 | Page and cursor are those of the keyset specification, for every limit including zero; a page is never longer than the limit, and the cursor is its last id. |
| Audit.WalkListsEachEventOnce | xoloapi/audit/repository.py:52-66 | A walk lists each matching event exactly once under its own time stamp, the newest first, ties by falling id. |
| Audit.WalkDuringAppends | xoloapi/audit/repository.py:18-66 | Events with larger keys appended between the requests do not change the rest of the walk. |
| Audit.WalkDuringAnyAppends | xoloapi/audit/repository.py:18-66 | With arbitrary keys appended, a walk that ends has listed every matching event of its start once and in order, and every listed event matches. |
| Notifications.ReceiptsCountReadEvents | xoloapi/notifications/repository.py:79-83 | With at most one receipt per event and recipient, the number of receipts is the number of read events. |
| Notifications.KeptListing | xoloapi/notifications/repository.py:57-63 | Filtering the listing by receipts is the listing of the wanted events. |
| Notifications.PageFromItems | xoloapi/notifications/repository.py:46-68 | The fetched window and the early break yield exactly the page and cursor of the filtered collection. |
| Notifications.WalkListsWantedEvents | xoloapi/notifications/repository.py:23-68 | A walk lists exactly the events of the models and categories asked for, only those without a receipt where unread ones are wanted, once each and the newest first. |
| Notifications.NotificationRepository.TakeItems | xoloapi/notifications/repository.py:57-65 | The loop keeps the first limit + 1 wanted documents with their read flags. |
| Notifications.NotificationRepository.Query | xoloapi/notifications/repository.py:23-68 | Page, read flags and cursor are those of the keyset specification over the wanted events; an item is flagged read if and only if this recipient has a receipt for it. |
| Notifications.NotificationRepository.UnreadCount | xoloapi/notifications/repository.py:70-84 | The subtraction is exactly the number of unread events of the models; the clamp at zero never takes effect. |
| Notifications.NotificationRepository.MarkRead | xoloapi/notifications/repository.py:86-95 | At most one receipt per event and recipient is kept; an unknown event changes nothing. |
| Notifications.NotificationRepository.MarkAllRead | xoloapi/notifications/repository.py:97-102 | Exactly the events of the models become read, for this recipient only, and their number is returned. |
| Notifications.UnreadCountMatchesWalk | xoloapi/notifications/repository.py:23-84 | The unread count equals the number of items listed by walking all unread_only pages. |
| Notifications.NothingUnreadAfterMarkAll | xoloapi/notifications/repository.py:23-102 | Once all events of the models are read, the count is zero and every unread_only walk is empty. |
| Notifications.MarkingWhileWalking | xoloapi/notifications/repository.py:23-95 | Marking what has been shown as read between two unread_only pages, while later events arrive, changes nothing: the walk ends and lists exactly the events unread at its start, in order. |
| Notifications.ReadingPageByPage | xoloapi/notifications/repository.py:23-95 | A client that marks each page as read before it asks for the next is shown exactly the events that were unread at its start, in order, and leaves nothing unread of what it asked for. |
| License.EncodeShape | xolo-client/xolo/license/__init__.py:15-18 | The encoding has one character per started five bits, so six bytes become exactly ten characters. |
| License.QuantumRoundTrip | xolo-client/xolo/license/__init__.py:15-25 | Up to five bytes survive encoding and decoding, the filler bits being zero (section 6 of RFC 4648). |
| License.QuantaRoundTrip | xolo-client/xolo/license/__init__.py:15-25 | Byte strings of every length survive the codec apart from padding. |
| License.Base32RoundTrip | xolo-client/xolo/license/__init__.py:15-25 | base32_decode inverts base32_encode if and only if the length is not a multiple of five; otherwise it fails. |
| License.QuantumInBits | xolo-client/xolo/license/__init__.py:15-18 | Up to five bytes, filled up with zero bits, are written as the letters of the five-bit values of the same bits, most significant first, in the standard alphabet (section 6 of RFC 4648). |
| License.FiveBytesDoNotDecode | xolo-client/xolo/license/__init__.py:19-25 | Five zero bytes are a concrete input that base32_decode rejects after base32_encode. |
| License.DecimalReads | xolo-client/xolo/license/__init__.py:35-35 | The expiration time is printed as decimal digits that stand for it. |
| License.SameMessage | xolo-client/xolo/license/__init__.py:35-35 | Two authenticated messages are equal if and only if user, colon and application spell the same text and the expiration times are equal. |
| License.GeneratedLicenseVerifies | xolo-client/xolo/license/__init__.py:28-78 | A license is generated if and only if its expiration is in [0, 2^48), and it verifies as Ok(True) while now <= expiration and is an error after it; what its code authenticates is stated by License.SameMessage. |
| License.VerifiedKeysAreWellFormed | xolo-client/xolo/license/__init__.py:51-78 | A key verifies if and only if it has 62 characters and carries the code and an encoding of a six-byte expiration time that has not passed. |
| License.LicenseOfAnother | xolo-client/xolo/license/__init__.py:28-78 | The code of a license followed by any expiration time verifies for any user and application if and only if that time has not passed and both messages have one code; where the code tells the two apart, if and only if user, colon and application spell the same text and the time is the one the license was issued for. |
| License.LicenseIsShared | xolo-client/xolo/license/__init__.py:37-78 | A concrete case: a license for user a:b and application c verifies for user a and application b:c. |
| Digits.FromTo | xolo-client/xolo/license/__init__.py:44-59 | int.from_bytes inverts int.to_bytes on every number that fits. |
| Digits.ToFrom | xolo-client/xolo/license/__init__.py:44-59 | int.to_bytes inverts int.from_bytes on every byte string. |
| Abac.EvaluatePolicy | xoloapi/abac/domain/aggregates.py:72-76 | A policy yields its effect if and only if one of its events matches under the matcher version and time zone of the policy. |
| Abac.AllowedByHits | xoloapi/abac/domain/services.py:21-61 | Deny-overrides over whole policies equals: there is a matching pair and none of a DENY policy. |
| Abac.HitsPrefix | xoloapi/abac/domain/services.py:21-39 | What the nested loops have collected is always a prefix of all matching pairs. |
| Abac.Evaluate | xoloapi/abac/domain/services.py:11-61 | Allows if and only if an event of some ALLOW policy matches, and none of a DENY policy, each under its policy’s matcher version and time zone; reports the first matching DENY event, or the first match without one, and exactly the ids seen up to there. |
| Abac.OrderIsIrrelevant | xoloapi/abac/domain/services.py:11-61 | Reordering or repeating policies, or events within policies, never changes whether a request is allowed. |
| Common.StripTrims | xoloapi/platform_users/application/platform_user_service.py:222-224 | strip() cuts off exactly the white space at both ends. |
| Common.LowerLetters | xoloapi/platform_users/application/platform_user_service.py:222-224 | lower() moves the letters A to Z, and no other character, to lower case. |
| Platform.UpdateGuardIsExact | xoloapi/platform_users/application/platform_user_service.py:129-160 | An update is refused if and only if it would leave no active administrator. |
| Platform.DeleteGuardIsExact | xoloapi/platform_users/application/platform_user_service.py:194-204 | A deletion is refused if and only if it would leave no active administrator. |
| Platform.StoringKeepsInv | xoloapi/platform_users/application/platform_user_service.py:93-160 | Storing a user keeps the invariant if and only if its name is free and normal, a guest only reads, and an active administrator remains. |
| Platform.CreateGuardIsExact | xoloapi/platform_users/application/platform_user_service.py:93-127 | With a password of sufficient length, a user is created if and only if storing it keeps the invariant. |
| Platform.CreateOutcome | xoloapi/platform_users/application/platform_user_service.py:93-127 | A user is created if and only if the normalised name has three characters and is free and the password has twelve; it is stored with the role, accounts and flag asked for, active, with all permissions asked for if a member, the reading ones if a guest, none if an administrator. |
| Platform.BootstrapOutcome | xoloapi/platform_users/application/platform_user_service.py:28-59 | A bootstrap stores one active administrator who must change the password, on an empty platform only. |
| Platform.UpdateOutcome | xoloapi/platform_users/application/platform_user_service.py:129-160 | Refused if and only if it takes role or activity from the last active administrator; otherwise the fields asked for are stored, the others kept, and a guest is left with read permissions. |
| Platform.DeleteOutcome | xoloapi/platform_users/application/platform_user_service.py:194-204 | Refused if and only if the user is unknown or the last active administrator; otherwise exactly this user is gone. |
| Platform.CreatedUserCan | xoloapi/platform_users/domain/aggregates.py:23-39 | A created user can do everything as administrator; else exactly what was asked for on the accounts asked for, of that only reading as a guest. |
| Platform.CanIsEffective | xoloapi/platform_users/domain/aggregates.py:23-39 | Where no account is concerned, an active user can do exactly what its effective permissions say. |
| Platform.GuestsOnlyRead | xoloapi/platform_users/domain/aggregates.py:23-39 | On every store that satisfies the invariant, filtering a guest’s permissions again changes nothing and a guest can manage nothing. |
| Platform.ChangePasswordEffect | xoloapi/platform_users/application/platform_user_service.py:162-178 | Accepted if and only if the current password verifies and the new one is long enough and different; then an active user logs in with it, only hash and flag have changed, and everybody else logs in as before. |
| Platform.ResetPasswordEffect | xoloapi/platform_users/application/platform_user_service.py:180-192 | The same for a reset, which leaves the user obliged to change the password. |
| Platform.NewUserLogsIn | xoloapi/platform_users/application/platform_user_service.py:28-127 | A created or bootstrapped user logs in with the credentials given; everybody else as before. |
| Platform.NextKeepsInv | xoloapi/platform_users/application/platform_user_service.py:28-220 | Every call keeps an active administrator, guests with read permissions only, and usernames that are unique, normalised and long enough. |
| Platform.RunKeepsInv | xoloapi/platform_users/application/platform_user_service.py:28-220 | The invariant survives every run of calls. |
| Platform.AnAdministratorAlwaysRemains | xoloapi/platform_users/application/platform_user_service.py:28-220 | After a successful bootstrap of an empty platform the invariant holds through every run. |
| PlatformService.PlatformUserService.Bootstrap | xoloapi/platform_users/application/platform_user_service.py:28-59 | Store and result are those of the bootstrap step; a non-empty platform is left alone. |
| PlatformService.PlatformUserService.Authenticate | xoloapi/platform_users/application/platform_user_service.py:61-79 | Succeeds if and only if an active user of the normalised name has this password; a disabled user is refused whatever the password. |
| PlatformService.PlatformUserService.Create | xoloapi/platform_users/application/platform_user_service.py:93-127 | Store and result are those of the creation step, whose outcome Platform.CreateOutcome states. |
| PlatformService.PlatformUserService.EnsureAnotherAdmin | xoloapi/platform_users/application/platform_user_service.py:206-212 | An error if and only if at most one active administrator is stored. |
| PlatformService.PlatformUserService.Update | xoloapi/platform_users/application/platform_user_service.py:129-160 | The field assignments in order give the updated user of the step, whose outcome Platform.UpdateOutcome states, guard included. |
| PlatformService.PlatformUserService.ChangePassword | xoloapi/platform_users/application/platform_user_service.py:162-178 | Store and result are those of the step, in the source’s order of checks. |
| PlatformService.PlatformUserService.ResetPassword | xoloapi/platform_users/application/platform_user_service.py:180-192 | Store and result are those of the step. |
| PlatformService.PlatformUserService.Delete | xoloapi/platform_users/application/platform_user_service.py:194-204 | Store and result are those of the deletion step, guard included. |

## Left out

- Account separation: one store holds the documents of one account; the `account_id` filter of every query is not part of this model.
- Mongo failures, partial cascades and interleaved requests: each call is one atomic accepted or rejected step, and runs are sequential.
- Generated ids: they are parameters. Where the code relies on them being new without checking (assignments, associations, roles, role assignments, grants, events, users), a run assumes it.
- Lookups in other components (resolving user identifiers, groups of a user, whether a group is active, whether a resource has a policy) are arbitrary functions or parameters, and the repositories for users and policies are present, as in production; services built without them are not part of this model.
- Time stamps of documents (`created_at`, `updated_at`, `last_login_at`, `read_at`) and the result of saving them.
- Letters outside ASCII in `lower()`; white space follows Python's full list. `secrets.compare_digest` and `hmac.compare_digest` raise on text outside ASCII; in `verify` that is an error like any other, in `change_password` the exception is not modelled.
- The subject type of an assignment is parsed: any text other than USER or GROUP in any case is the value None.
- Invalid names of permissions, node types and roles: the enumerations are closed types, because requests that carry other texts are rejected before they reach the services.
- The order in which Python iterates a set or Mongo returns unsorted documents: the lists concerned are fixed as sets, not in order (attributes of an explanation, roles of a subject, held roles). Which failing policy class `check` names first is any of them.
- Audit filters by regular expression, and time ranges: one arbitrary predicate on events stands for all of them.
- `ABACEvent.matches`: an arbitrary predicate of event, matcher version and time zone stands for globs, distances and time windows; warnings and the echoed request context are not modelled.
- HMAC-SHA256 and password hashing: arbitrary functions; a hash has no salt of its own per call. Parsing of time spans and the clock are parameters.
- Python's `base64` module and `int.to_bytes` are not part of the repository; they are modelled from section 6 of RFC 4648 and their documented behaviour.
- The ACL collection relies on its unique index for one policy per resource (scripts/migrate_authorization.py:170-172); here it is a map keyed by resource id. Role assignments, node bindings and pairs are not keyed this way; their uniqueness is proved.
- `resolve_principal` of the ACL service, whose outcome is a parameter of the calls that use it; stripping of a dangling principal id is part of that parameter.
- Deletion of an assignment by id and by subject, and of all policies that mention a user, appear as steps of runs but have no class method of their own.
- The permission catalog, legacy documents and the migration: runs start from an empty store or from one that satisfies the invariant.
- Expiry of notifications by a time-to-live index.
- AclStore.UsersWithoutManageGainNothing: leaves out the transfer of the service route, which names no caller and asks for a service key instead, and delete_all_by_user, which no user can call on a resource.
- AclCallers.UsersWithoutManageTakeNothing: leaves out the same two calls.
- NgacOutcomes.StrangersRespectOwners: leaves out the deletion by owner, which belongs to the deletion of an account's user, as do the two lemmas beside it; an unowned document may be changed by anyone.
- The permissions of platform users are read or manage of an area; managing the audit trail, which the enumeration lacks, is among them and stored like any other.
- AclStore.RunKeepsOneGrantEach: assumes that user ids and group ids are disjoint, which the code nowhere enforces; without it AclStore.RunsWithoutTransferKeepDistinct covers the runs without a transfer and AclPolicy.TransferKeepsUniquePrincipals gives the exact condition for one.
- Platform.ChangePasswordEffect: assumes that a password verifies against its own hash, as do the two effects beside it.
- RbacService.RBACService.HasRoleExplained: requires an acyclic hierarchy, because the search has no visited set and does not end on a cycle; every reachable store has one by RbacStore.ReachableStoresSatisfyInv.
- Controllers, middleware, the web interface, the HTTP client, API keys, scopes, accounts, groups, password resets and sessions: plumbing and easy record updates.
