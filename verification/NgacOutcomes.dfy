/** When each NGAC call is accepted, what exactly it changes, and what strangers cannot change. */
module NgacOutcomes {
  import opened Common
  import opened Graphs
  import opened NgacModel
  import opened NgacStore

  /** Administrators, the owner, and anyone where there is no owner. */
  predicate MayChange(requester: string, isAdmin: bool, owner: string) {
    isAdmin || owner == "" || owner == requester
  }

  // ---- assignments ----

  /** The pairs of types between which an assignment is allowed. */
  const ASSIGNABLE: set<(NodeType, NodeType)> :=
    {(User, UserAttribute), (Object, ObjectAttribute), (UserAttribute, UserAttribute), (UserAttribute, PolicyClass),
     (ObjectAttribute, ObjectAttribute), (ObjectAttribute, PolicyClass)}

  lemma TargetsAreAssignable(child: NodeType, parent: NodeType)
    ensures ValidTarget(child, parent) <==> (child, parent) in ASSIGNABLE
  {
  }

  /**
   * An assignment is accepted exactly between existing nodes of assignable types, by who may change the target, where
   * it closes no cycle. Then the edge is in the graph, stored under the new id if it was not there, and nothing else
   * changes.
   */
  lemma AssignOutcome(s: Store, newId: Id, f: Id, t: Id, owner: string, isAdmin: bool)
    requires newId !in s.assignments
    ensures var (s', r) := Assign(s, newId, f, t, owner, isAdmin);
      && (r.Ok? <==>
          && f in s.nodes && t in s.nodes && (s.nodes[f].nodeType, s.nodes[t].nodeType) in ASSIGNABLE
          && MayChange(owner, isAdmin, s.nodes[t].ownerId) && !Reaches(EdgesOf(s.assignments), t, f))
      && (r == Err(ConflictError) ==> Reaches(EdgesOf(s.assignments), t, f))
      && (r.Err? ==> s' == s)
      && (r.Ok? ==>
            && r.value == newId && s'.nodes == s.nodes && s'.associations == s.associations
            && EdgesOf(s'.assignments) == EdgesOf(s.assignments) + {(f, t)}
            && s'.assignments == if (f, t) in EdgesOf(s.assignments) then s.assignments
                                 else s.assignments[newId := Assignment(f, t, owner)])
  {
    if f in s.nodes && t in s.nodes {
      TargetsAreAssignable(s.nodes[f].nodeType, s.nodes[t].nodeType);
    }
    EdgesAfterInsert(s.assignments, newId, Assignment(f, t, owner));
  }

  /** Removing takes exactly the pair's edge out of the graph, and is open to who may change that assignment. */
  lemma RemoveAssignmentOutcome(s: Store, f: Id, t: Id, requester: string, isAdmin: bool)
    requires OneAssignmentPerPair(s.assignments)
    ensures var (s', r) := RemoveAssignment(s, f, t, requester, isAdmin);
      && (r.Ok? <==> exists i :: i in s.assignments && s.assignments[i].fromId == f && s.assignments[i].toId == t &&
                                 MayChange(requester, isAdmin, s.assignments[i].ownerId))
      && (r.Err? ==> s' == s)
      && (r.Ok? ==>
            && r.value && s'.nodes == s.nodes && s'.associations == s.associations
            && EdgesOf(s'.assignments) == EdgesOf(s.assignments) - {(f, t)}
            && forall i :: i in s'.assignments <==>
                           i in s.assignments && (s.assignments[i].fromId, s.assignments[i].toId) != (f, t))
      && forall i :: i in s'.assignments ==> i in s.assignments && s'.assignments[i] == s.assignments[i]
  {
    var (s', r) := RemoveAssignment(s, f, t, requester, isAdmin);
    if Assigned(s, f, t) {
      var i :| i in s.assignments && IsPair(s.assignments[i], f, t);
      assert forall j :: j in s.assignments && IsPair(s.assignments[j], f, t) ==> j == i;
    }
    if r.Ok? {
      forall e | e in EdgesOf(s.assignments) && e != (f, t) ensures e in EdgesOf(s'.assignments) {
        var i :| i in s.assignments && e == (s.assignments[i].fromId, s.assignments[i].toId);
        assert i in s'.assignments;
      }
    }
  }

  // ---- associations ----

  /** The operations kept of a list: those that are not blank, stripped and in lower case. */
  ghost predicate KeptOperations(stored: seq<string>, asked: seq<string>) {
    forall o :: o in stored <==> o != "" && exists p :: p in asked && o == Lower(Strip(p))
  }

  ghost predicate SomeOperation(asked: seq<string>) {
    exists p :: p in asked && Lower(Strip(p)) != ""
  }

  lemma NormalizedKeeps(asked: seq<string>)
    ensures KeptOperations(NormalizeOps(asked), asked) && (NormalizeOps(asked) != [] <==> SomeOperation(asked))
  {
    NormalizeOpsMembers(asked);
    var ops := NormalizeOps(asked);
    if ops != [] {
      assert ops[0] in ops;
    }
    if p :| p in asked && Lower(Strip(p)) != "" {
      assert Lower(Strip(p)) in ops;
    }
  }

  /**
   * An association is accepted exactly from a user attribute to an object attribute that are not associated yet, with
   * some operation, by who may change the user attribute; it is stored with the kept operations beside the others.
   */
  lemma AssociateOutcome(s: Store, newId: Id, ua: Id, oa: Id, operations: seq<string>, owner: string, isAdmin: bool)
    ensures var (s', r) := Associate(s, newId, ua, oa, operations, owner, isAdmin);
      && (r.Ok? <==>
          && HasType(s.nodes, ua, UserAttribute) && HasType(s.nodes, oa, ObjectAttribute)
          && MayChange(owner, isAdmin, s.nodes[ua].ownerId) && SomeOperation(operations)
          && forall i :: i in s.associations ==>
               s.associations[i].userAttributeId != ua || s.associations[i].objectAttributeId != oa)
      && (r.Err? ==> s' == s)
      && (r.Ok? ==>
            && r.value == newId && newId in s'.associations
            && s' == s.(associations := s.associations[newId := s'.associations[newId]])
            && s'.associations[newId].userAttributeId == ua && s'.associations[newId].objectAttributeId == oa
            && s'.associations[newId].ownerId == owner
            && KeptOperations(s'.associations[newId].operations, operations))
  {
    NormalizedKeeps(operations);
  }

  /** Editing an association replaces its operations and nothing else. */
  lemma UpdateAssociationOutcome(s: Store, id: Id, operations: seq<string>, requester: string, isAdmin: bool)
    ensures var (s', r) := UpdateAssociation(s, id, operations, requester, isAdmin);
      && (r.Ok? <==> id in s.associations && MayChange(requester, isAdmin, s.associations[id].ownerId) &&
                     SomeOperation(operations))
      && (r.Err? ==> s' == s)
      && (r.Ok? ==>
            && s' == s.(associations := s.associations[id := r.value])
            && r.value.userAttributeId == s.associations[id].userAttributeId
            && r.value.objectAttributeId == s.associations[id].objectAttributeId
            && r.value.ownerId == s.associations[id].ownerId
            && KeptOperations(r.value.operations, operations))
  {
    NormalizedKeeps(operations);
  }

  lemma RemoveAssociationOutcome(s: Store, id: Id, requester: string, isAdmin: bool)
    ensures var (s', r) := RemoveAssociation(s, id, requester, isAdmin);
      && (r.Ok? <==> id in s.associations && MayChange(requester, isAdmin, s.associations[id].ownerId))
      && (r.Err? ==> s' == s)
      && (r.Ok? ==>
            && r.value && s'.nodes == s.nodes && s'.assignments == s.assignments
            && id !in s'.associations && s'.associations[id := s.associations[id]] == s.associations)
  {
  }

  // ---- nodes ----

  predicate Named(o: Option<string>) {
    o.Some? && o.value != ""
  }

  /** Nobody but this node is bound to the user or to the resource. */
  ghost predicate BindingsFree(nodes: map<Id, Node>, id: Id, userId: Option<string>, resourceId: Option<string>) {
    forall k :: k in nodes && k != id ==>
      && (Named(userId) ==> nodes[k].userId != userId)
      && (Named(resourceId) ==> nodes[k].resourceId != resourceId)
  }

  /**
   * A node is created exactly with bindings that fit its type, resolve and are free. It is stored as asked for, bound
   * to the user that the identifier stands for.
   */
  lemma CreateNodeOutcome(env: Env, s: Store, id: Id, t: NodeType, name: string, props: map<string, string>,
                          owner: string, userId: Option<string>, identifier: Option<string>, resource: Option<string>)
    ensures var (s', r) := CreateNode(env, s, id, t, name, props, owner, userId, identifier, resource);
      var wanted := if Named(identifier) then identifier else userId;
      var bound := if Named(wanted) && env.resolve(wanted.value).Ok? then Some(env.resolve(wanted.value).value)
                   else userId;
      && (r.Ok? <==>
          && (Named(wanted) ==> t == User && env.resolve(wanted.value).Ok?)
          && (Named(resource) ==> t == Object && env.hasPolicy(resource.value))
          && id !in s.nodes && BindingsFree(s.nodes, id, bound, resource))
      && (r.Err? ==> s' == s)
      && (r.Ok? ==> r.value == id &&
                    s' == s.(nodes := s.nodes[id := Node(id, t, name, props, owner, bound, resource)]))
  {
  }

  /** The user a node is bound to after an edit: unchanged, none, or the one that the identifier stands for. */
  function UserAfterEdit(env: Env, node: Node, userId: Option<string>, identifier: Option<string>,
                         bindingSet: Option<bool>): Option<string>
  {
    var wanted := if identifier.Some? then identifier else userId;
    if !(bindingSet == Some(true) || (bindingSet.None? && wanted.Some?)) then node.userId
    else if Named(wanted) && env.resolve(wanted.value).Ok? then Some(env.resolve(wanted.value).value)
    else None
  }

  function ResourceAfterEdit(node: Node, resource: Option<string>): Option<string> {
    if resource.None? then node.resourceId else if resource.value == "" then None else resource
  }

  lemma EditedFields(env: Env, node: Node, name: Option<string>, props: Option<map<string, string>>,
                     userId: Option<string>, identifier: Option<string>, bindingSet: Option<bool>,
                     resource: Option<string>)
    ensures var r := UpdatedNode(env, node, name, props, userId, identifier, bindingSet, resource);
      var wanted := if identifier.Some? then identifier else userId;
      var rebinds := bindingSet == Some(true) || (bindingSet.None? && wanted.Some?);
      && (r.Ok? <==>
          && (name.Some? ==> Strip(name.value) != "")
          && (rebinds ==> node.nodeType == User && (Named(wanted) ==> env.resolve(wanted.value).Ok?))
          && (resource.Some? ==> node.nodeType == Object && (resource.value != "" ==> env.hasPolicy(resource.value))))
      && (r.Ok? ==>
            r.value == Node(node.nodeId, node.nodeType, if name.Some? then Strip(name.value) else node.name,
                            if props.Some? then props.value else node.properties, node.ownerId,
                            UserAfterEdit(env, node, userId, identifier, bindingSet),
                            ResourceAfterEdit(node, resource)))
  {
  }

  lemma SaveOutcome(s: Store, edited: Node)
    requires edited.nodeId in s.nodes
    ensures var (s', r) := SaveNode(s, Ok(edited));
      && (r.Ok? <==> BindingsFree(s.nodes, edited.nodeId, edited.userId, edited.resourceId))
      && (r.Err? ==> s' == s)
      && (r.Ok? ==> r.value == edited && s' == s.(nodes := s.nodes[edited.nodeId := edited]))
  {
  }

  /**
   * An edit is accepted exactly from who may change the node, with a name that is not blank and bindings that fit its
   * type, resolve and are free. It stores the fields asked for and keeps the others, and touches no other document.
   */
  lemma UpdateNodeOutcome(env: Env, s: Store, id: Id, name: Option<string>, props: Option<map<string, string>>,
                          userId: Option<string>, identifier: Option<string>, bindingSet: Option<bool>,
                          resource: Option<string>, requester: string, isAdmin: bool)
    requires NodesKeyedById(s.nodes)
    ensures var (s', r) :=
        UpdateNode(env, s, id, name, props, userId, identifier, bindingSet, resource, requester, isAdmin);
      var wanted := if identifier.Some? then identifier else userId;
      var rebinds := bindingSet == Some(true) || (bindingSet.None? && wanted.Some?);
      && (r.Ok? <==>
          && id in s.nodes && MayChange(requester, isAdmin, s.nodes[id].ownerId)
          && (name.Some? ==> Strip(name.value) != "")
          && (rebinds ==> s.nodes[id].nodeType == User && (Named(wanted) ==> env.resolve(wanted.value).Ok?))
          && (resource.Some? ==> s.nodes[id].nodeType == Object &&
                                 (resource.value != "" ==> env.hasPolicy(resource.value)))
          && BindingsFree(s.nodes, id, UserAfterEdit(env, s.nodes[id], userId, identifier, bindingSet),
                          ResourceAfterEdit(s.nodes[id], resource)))
      && (r.Err? ==> s' == s)
      && (r.Ok? ==>
            var n := s.nodes[id];
            && s' == s.(nodes := s.nodes[id := r.value])
            && r.value == Node(id, n.nodeType, if name.Some? then Strip(name.value) else n.name,
                               if props.Some? then props.value else n.properties, n.ownerId,
                               UserAfterEdit(env, n, userId, identifier, bindingSet), ResourceAfterEdit(n, resource)))
  {
    if id in s.nodes {
      EditedFields(env, s.nodes[id], name, props, userId, identifier, bindingSet, resource);
      var edited := UpdatedNode(env, s.nodes[id], name, props, userId, identifier, bindingSet, resource);
      if edited.Ok? {
        SaveOutcome(s, edited.value);
      }
    }
  }

  /** Deleting by owner removes exactly the owner's nodes and the edges that touch them, and counts the nodes. */
  lemma DeleteByOwnerOutcome(s: Store, owner: string)
    ensures var (s', r) := RemoveNodesByOwner(s, owner);
      var gone := set k | k in s.nodes && s.nodes[k].ownerId == owner;
      && r == Ok(|gone|)
      && (forall k :: k in s'.nodes <==> k in s.nodes && k !in gone)
      && (forall k :: k in s'.nodes ==> s'.nodes[k] == s.nodes[k])
      && (forall i :: i in s'.assignments <==>
                      i in s.assignments && s.assignments[i].fromId !in gone && s.assignments[i].toId !in gone)
      && (forall i :: i in s'.assignments ==> s'.assignments[i] == s.assignments[i])
      && (forall i :: i in s'.associations <==>
                      i in s.associations && s.associations[i].userAttributeId !in gone &&
                      s.associations[i].objectAttributeId !in gone)
      && (forall i :: i in s'.associations ==> s'.associations[i] == s.associations[i])
  {
  }

  /** Deleting a node is open to exactly those who may change it. */
  lemma DeleteNodeOutcome(s: Store, id: Id, requester: string, isAdmin: bool)
    ensures var (s', r) := DeleteNode(s, id, requester, isAdmin);
      && (r.Ok? <==> id in s.nodes && MayChange(requester, isAdmin, s.nodes[id].ownerId))
      && (r.Ok? ==> r.value) && (r.Err? ==> s' == s)
  {
  }

  // ---- what strangers cannot change ----

  /** A call a user makes, not as administrator, under a name other than the owner's. */
  predicate ByStranger(owner: string, c: Call) {
    match c
    case CallCreateNode(_, _, _, _, who, _, _, _) => who != owner
    case CallUpdateNode(_, _, _, _, _, _, _, who, adm) => who != owner && !adm
    case CallDeleteNode(_, who, adm) => who != owner && !adm
    case CallDeleteByOwner(_) => false
    case CallAssign(_, _, _, who, adm) => who != owner && !adm
    case CallRemoveAssignment(_, _, who, adm) => who != owner && !adm
    case CallAssociate(_, _, _, _, who, adm) => who != owner && !adm
    case CallUpdateAssociation(_, _, who, adm) => who != owner && !adm
    case CallRemoveAssociation(_, who, adm) => who != owner && !adm
  }

  predicate OwnedNode(s: Store, owner: string, k: Id) {
    k in s.nodes && s.nodes[k].ownerId == owner
  }

  /**
   * The owner's nodes are as they were, nothing new has been assigned to them, and nothing new associated from them;
   * an association may carry other operations only if its own owner is somebody else.
   */
  ghost predicate Respected(s: Store, s': Store, owner: string) {
    && (forall k :: OwnedNode(s, owner, k) ==> k in s'.nodes && s'.nodes[k] == s.nodes[k])
    && (forall i :: i in s'.assignments && OwnedNode(s, owner, s'.assignments[i].toId) ==>
                    i in s.assignments && s.assignments[i] == s'.assignments[i])
    && (forall i :: i in s'.associations && OwnedNode(s, owner, s'.associations[i].userAttributeId) ==>
                    i in s.associations && SameAssociation(s.associations[i], s'.associations[i], owner))
  }

  predicate SameAssociation(a: Association, b: Association, owner: string) {
    a.(operations := b.operations) == b && (a.ownerId == owner ==> a == b)
  }

  lemma PuttingNodeRespects(s: Store, id: Id, node: Node, owner: string)
    requires !OwnedNode(s, owner, id)
    ensures Respected(s, s.(nodes := s.nodes[id := node]), owner)
  {
  }

  lemma RemovingNodeRespects(s: Store, id: Id, owner: string)
    requires !OwnedNode(s, owner, id)
    ensures Respected(s, WithoutNodes(s, {id}), owner)
  {
  }

  lemma StrangerNodeCall(env: Env, s: Store, owner: string, c: Call)
    requires owner != "" && ByStranger(owner, c) && NodesKeyedById(s.nodes)
    requires c.CallCreateNode? || c.CallUpdateNode? || c.CallDeleteNode?
    ensures Respected(s, Next(env, s, c), owner)
  {
    match c
    case CallCreateNode(id, t, n, ps, o, u, ident, r) =>
      CreateNodeOutcome(env, s, id, t, n, ps, o, u, ident, r);
      if id !in s.nodes && id in Next(env, s, c).nodes {
        PuttingNodeRespects(s, id, Next(env, s, c).nodes[id], owner);
      }
    case CallUpdateNode(id, n, ps, u, ident, b, r, who, adm) =>
      var updated := UpdateNode(env, s, id, n, ps, u, ident, b, r, who, adm).1;
      UpdateNodeOutcome(env, s, id, n, ps, u, ident, b, r, who, adm);
      if updated.Ok? {
        PuttingNodeRespects(s, id, updated.value, owner);
      }
    case CallDeleteNode(id, who, adm) =>
      DeleteNodeOutcome(s, id, who, adm);
      if DeleteNode(s, id, who, adm).1.Ok? {
        RemovingNodeRespects(s, id, owner);
      }
  }

  lemma StrangerEdgeCall(env: Env, s: Store, owner: string, c: Call)
    requires owner != "" && ByStranger(owner, c) && FreshId(s, c) && OneAssignmentPerPair(s.assignments)
    requires !c.CallCreateNode? && !c.CallUpdateNode? && !c.CallDeleteNode?
    ensures Respected(s, Next(env, s, c), owner)
  {
    if c.CallAssign? || c.CallRemoveAssignment? {
      StrangerAssignmentCall(env, s, owner, c);
    } else {
      StrangerAssociationCall(env, s, owner, c);
    }
  }

  lemma StrangerAssignmentCall(env: Env, s: Store, owner: string, c: Call)
    requires owner != "" && ByStranger(owner, c) && FreshId(s, c) && OneAssignmentPerPair(s.assignments)
    requires c.CallAssign? || c.CallRemoveAssignment?
    ensures Respected(s, Next(env, s, c), owner)
  {
    match c
    case CallAssign(id, f, t, o, adm) => AssignOutcome(s, id, f, t, o, adm);
    case CallRemoveAssignment(f, t, who, adm) => RemoveAssignmentOutcome(s, f, t, who, adm);
  }

  lemma PuttingAssociationRespects(s: Store, id: Id, a: Association, owner: string)
    requires OwnedNode(s, owner, a.userAttributeId) ==>
               id in s.associations && SameAssociation(s.associations[id], a, owner)
    ensures Respected(s, s.(associations := s.associations[id := a]), owner)
  {
  }

  lemma StrangerAssociationCall(env: Env, s: Store, owner: string, c: Call)
    requires owner != "" && ByStranger(owner, c)
    requires c.CallAssociate? || c.CallUpdateAssociation? || c.CallRemoveAssociation?
    ensures Respected(s, Next(env, s, c), owner)
  {
    match c
    case CallAssociate(id, ua, oa, ops, o, adm) =>
      AssociateOutcome(s, id, ua, oa, ops, o, adm);
      if Associate(s, id, ua, oa, ops, o, adm).1.Ok? {
        PuttingAssociationRespects(s, id, Next(env, s, c).associations[id], owner);
      }
    case CallUpdateAssociation(id, ops, who, adm) =>
      UpdateAssociationOutcome(s, id, ops, who, adm);
      if UpdateAssociation(s, id, ops, who, adm).1.Ok? {
        PuttingAssociationRespects(s, id, UpdateAssociation(s, id, ops, who, adm).1.value, owner);
      }
    case CallRemoveAssociation(id, who, adm) => RemoveAssociationOutcome(s, id, who, adm);
  }

  lemma StrangerRespects(env: Env, s: Store, owner: string, c: Call)
    requires owner != "" && ByStranger(owner, c) && Inv(s) && FreshId(s, c)
    ensures Respected(s, Next(env, s, c), owner)
  {
    if c.CallCreateNode? || c.CallUpdateNode? || c.CallDeleteNode? {
      StrangerNodeCall(env, s, owner, c);
    } else {
      StrangerEdgeCall(env, s, owner, c);
    }
  }

  /** Whatever strangers call, they change none of an owner's nodes and put nothing under them or next to them. */
  lemma {:induction false} StrangersRespectOwners(env: Env, s: Store, owner: string, calls: seq<Call>)
    requires owner != "" && Inv(s) && FreshIds(env, s, calls)
    requires forall c :: c in calls ==> ByStranger(owner, c)
    ensures Respected(s, Run(env, s, calls), owner)
    decreases |calls|
  {
    if calls != [] {
      var next := Next(env, s, calls[0]);
      StrangerRespects(env, s, owner, calls[0]);
      NextKeepsInv(env, s, calls[0]);
      StrangersRespectOwners(env, next, owner, calls[1..]);
      RespectedTransitive(s, next, Run(env, s, calls), owner);
    }
  }

  lemma RespectedTransitive(a: Store, b: Store, c: Store, owner: string)
    requires Respected(a, b, owner) && Respected(b, c, owner)
    ensures Respected(a, c, owner)
  {
  }

  /** No call of the run deletes the node, unless it is the owner's own, which strangers cannot delete. */
  predicate SafeEnd(s: Store, owner: string, calls: seq<Call>, k: Id) {
    OwnedNode(s, owner, k) || forall c :: c in calls ==> !(c.CallDeleteNode? && c.nodeId == k)
  }

  lemma OtherCallsKeepAssignments(env: Env, s: Store, c: Call)
    requires !c.CallDeleteNode? && !c.CallDeleteByOwner? && !c.CallAssign? && !c.CallRemoveAssignment?
    ensures Next(env, s, c).assignments == s.assignments
  {
  }

  lemma StrangerKeepsAssignment(env: Env, s: Store, owner: string, c: Call, i: Id)
    requires owner != "" && ByStranger(owner, c) && FreshId(s, c) && OneAssignmentPerPair(s.assignments)
    requires i in s.assignments && s.assignments[i].ownerId == owner
    requires SafeEnd(s, owner, [c], s.assignments[i].fromId) && SafeEnd(s, owner, [c], s.assignments[i].toId)
    ensures i in Next(env, s, c).assignments && Next(env, s, c).assignments[i] == s.assignments[i]
  {
    assert c in [c];
    if c.CallDeleteNode? {
      DeleteNodeOutcome(s, c.nodeId, c.requester, c.isAdmin);
    } else if c.CallRemoveAssignment? {
      RemoveAssignmentOutcome(s, c.fromId, c.toId, c.requester, c.isAdmin);
    } else if c.CallAssign? {
      AssignOutcome(s, c.newId, c.fromId, c.toId, c.owner, c.isAdmin);
    } else {
      OtherCallsKeepAssignments(env, s, c);
    }
  }

  lemma StrangerKeepsAssociation(env: Env, s: Store, owner: string, c: Call, i: Id)
    requires owner != "" && ByStranger(owner, c) && FreshId(s, c)
    requires i in s.associations && s.associations[i].ownerId == owner
    requires SafeEnd(s, owner, [c], s.associations[i].userAttributeId)
    requires SafeEnd(s, owner, [c], s.associations[i].objectAttributeId)
    ensures i in Next(env, s, c).associations && Next(env, s, c).associations[i] == s.associations[i]
  {
    assert c in [c];
    if c.CallDeleteNode? {
      DeleteNodeOutcome(s, c.nodeId, c.requester, c.isAdmin);
    } else if c.CallRemoveAssociation? {
      RemoveAssociationOutcome(s, c.id, c.requester, c.isAdmin);
    }
  }

  lemma SafeLater(env: Env, s: Store, owner: string, calls: seq<Call>, k: Id)
    requires calls != [] && SafeEnd(s, owner, calls, k) && Respected(s, Next(env, s, calls[0]), owner)
    ensures SafeEnd(s, owner, [calls[0]], k) && SafeEnd(Next(env, s, calls[0]), owner, calls[1..], k)
  {
  }

  /** Strangers leave the owner's assignments as they are, up to the cascade of deleting a node that is not its own. */
  lemma {:induction false} StrangersKeepAssignments(env: Env, s: Store, owner: string, calls: seq<Call>, i: Id)
    requires owner != "" && Inv(s) && FreshIds(env, s, calls)
    requires forall c :: c in calls ==> ByStranger(owner, c)
    requires i in s.assignments && s.assignments[i].ownerId == owner
    requires SafeEnd(s, owner, calls, s.assignments[i].fromId) && SafeEnd(s, owner, calls, s.assignments[i].toId)
    ensures i in Run(env, s, calls).assignments && Run(env, s, calls).assignments[i] == s.assignments[i]
    decreases |calls|
  {
    if calls != [] {
      var a := s.assignments[i];
      StrangerRespects(env, s, owner, calls[0]);
      SafeLater(env, s, owner, calls, a.fromId);
      SafeLater(env, s, owner, calls, a.toId);
      StrangerKeepsAssignment(env, s, owner, calls[0], i);
      NextKeepsInv(env, s, calls[0]);
      StrangersKeepAssignments(env, Next(env, s, calls[0]), owner, calls[1..], i);
    }
  }

  /** Likewise its associations. */
  lemma {:induction false} StrangersKeepAssociations(env: Env, s: Store, owner: string, calls: seq<Call>, i: Id)
    requires owner != "" && Inv(s) && FreshIds(env, s, calls)
    requires forall c :: c in calls ==> ByStranger(owner, c)
    requires i in s.associations && s.associations[i].ownerId == owner
    requires SafeEnd(s, owner, calls, s.associations[i].userAttributeId)
    requires SafeEnd(s, owner, calls, s.associations[i].objectAttributeId)
    ensures i in Run(env, s, calls).associations && Run(env, s, calls).associations[i] == s.associations[i]
    decreases |calls|
  {
    if calls != [] {
      var a := s.associations[i];
      StrangerRespects(env, s, owner, calls[0]);
      SafeLater(env, s, owner, calls, a.userAttributeId);
      SafeLater(env, s, owner, calls, a.objectAttributeId);
      StrangerKeepsAssociation(env, s, owner, calls[0], i);
      NextKeepsInv(env, s, calls[0]);
      StrangersKeepAssociations(env, Next(env, s, calls[0]), owner, calls[1..], i);
    }
  }
}
