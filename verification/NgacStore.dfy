/** The NGAC collections of one account and what every repository and service call does to them. */
module NgacStore {
  import opened Common
  import opened Graphs
  import opened NgacModel

  /** Documents keyed by node_id, assignment_id and association_id. */
  datatype Store = Store(
    nodes: map<Id, Node>,
    assignments: map<Id, Assignment>,
    associations: map<Id, Association>)

  /** The users and ACL repositories as the service sees them. */
  datatype Env = Env(resolve: string -> Result<Id>, hasPolicy: string -> bool)

  const EMPTY_STORE := Store(map[], map[], map[])

  function EdgesOf(assignments: map<Id, Assignment>): Edges {
    set i | i in assignments :: (assignments[i].fromId, assignments[i].toId)
  }

  predicate OneAssignmentPerPair(assignments: map<Id, Assignment>) {
    forall i, j | i in assignments && j in assignments && assignments[i].fromId == assignments[j].fromId &&
                  assignments[i].toId == assignments[j].toId
      :: i == j
  }

  predicate OneAssociationPerPair(associations: map<Id, Association>) {
    forall i, j | i in associations && j in associations &&
                  associations[i].userAttributeId == associations[j].userAttributeId &&
                  associations[i].objectAttributeId == associations[j].objectAttributeId
      :: i == j
  }

  /** The graph that load_graph_data and the graph constructor build from the store. */
  function DataOf(s: Store): GraphData
    requires OneAssociationPerPair(s.associations)
  {
    GraphData(s.nodes, EdgesOf(s.assignments),
      map i | i in s.associations ::
        (s.associations[i].userAttributeId, s.associations[i].objectAttributeId) :=
          LoweredOps(s.associations[i].operations))
  }

  // ---- the invariant of every reachable store ----

  predicate NodesKeyedById(nodes: map<Id, Node>) {
    forall k :: k in nodes ==> nodes[k].nodeId == k
  }

  predicate HasType(nodes: map<Id, Node>, k: Id, t: NodeType) {
    k in nodes && nodes[k].nodeType == t
  }

  /** Both ends of an assignment exist and their types obey VALID_ASSIGNMENT_TARGETS. */
  predicate AssignmentTyped(nodes: map<Id, Node>, a: Assignment) {
    a.fromId in nodes && a.toId in nodes && ValidTarget(nodes[a.fromId].nodeType, nodes[a.toId].nodeType)
  }

  predicate AssignmentsTyped(nodes: map<Id, Node>, assignments: map<Id, Assignment>) {
    forall i :: i in assignments ==> AssignmentTyped(nodes, assignments[i])
  }

  predicate Normalized(ops: seq<string>) {
    && ops != []
    && (forall o :: o in ops ==> o != "" && Lower(o) == o)
    && forall i, j :: 0 <= i < j < |ops| ==> ops[i] != ops[j]
  }

  predicate AssociationTyped(nodes: map<Id, Node>, a: Association) {
    && HasType(nodes, a.userAttributeId, UserAttribute)
    && HasType(nodes, a.objectAttributeId, ObjectAttribute)
    && Normalized(a.operations)
  }

  predicate AssociationsTyped(nodes: map<Id, Node>, associations: map<Id, Association>) {
    forall i :: i in associations ==> AssociationTyped(nodes, associations[i])
  }

  predicate BoundRight(node: Node) {
    (Truthy(node.userId) ==> node.nodeType == User) && (Truthy(node.resourceId) ==> node.nodeType == Object)
  }

  predicate SharesBinding(n: Node, m: Node) {
    (Truthy(n.userId) && n.userId == m.userId) || (Truthy(n.resourceId) && n.resourceId == m.resourceId)
  }

  /** Only USER nodes are bound to users and only OBJECT nodes to resources, and no binding is shared. */
  predicate BindingsUnique(nodes: map<Id, Node>) {
    && (forall k :: k in nodes ==> BoundRight(nodes[k]))
    && forall k, l | k in nodes && l in nodes && SharesBinding(nodes[k], nodes[l]) :: k == l
  }

  ghost predicate Inv(s: Store) {
    && NodesKeyedById(s.nodes)
    && AssignmentsTyped(s.nodes, s.assignments)
    && Acyclic(EdgesOf(s.assignments))
    && OneAssignmentPerPair(s.assignments)
    && AssociationsTyped(s.nodes, s.associations)
    && OneAssociationPerPair(s.associations)
    && BindingsUnique(s.nodes)
  }

  // ---- repository operations ----

  predicate UserTaken(s: Store, node: Node) {
    Truthy(node.userId) && exists k :: k in s.nodes && k != node.nodeId && s.nodes[k].userId == node.userId
  }

  predicate ResourceTaken(s: Store, node: Node) {
    Truthy(node.resourceId) && exists k :: k in s.nodes && k != node.nodeId && s.nodes[k].resourceId == node.resourceId
  }

  function InsertNode(s: Store, node: Node): (Store, Result<Id>) {
    if node.nodeId in s.nodes || UserTaken(s, node) || ResourceTaken(s, node) then (s, Err(AlreadyExistsError))
    else (s.(nodes := s.nodes[node.nodeId := node]), Ok(node.nodeId))
  }

  function ReplaceNode(s: Store, node: Node): (Store, Result<bool>) {
    if UserTaken(s, node) || ResourceTaken(s, node) then (s, Err(AlreadyExistsError))
    else if node.nodeId !in s.nodes then (s, Err(NotFoundError))
    else (s.(nodes := s.nodes[node.nodeId := node]), Ok(true))
  }

  predicate TouchesAssignment(a: Assignment, ids: set<Id>) {
    a.fromId in ids || a.toId in ids
  }

  predicate TouchesAssociation(a: Association, ids: set<Id>) {
    a.userAttributeId in ids || a.objectAttributeId in ids
  }

  /** The nodes and, by cascade, every edge that touches one of them are gone. */
  function WithoutNodes(s: Store, ids: set<Id>): Store {
    Store(
      map k | k in s.nodes && k !in ids :: s.nodes[k],
      map i | i in s.assignments && !TouchesAssignment(s.assignments[i], ids) :: s.assignments[i],
      map i | i in s.associations && !TouchesAssociation(s.associations[i], ids) :: s.associations[i])
  }

  function RemoveNode(s: Store, nodeId: Id): (Store, Result<bool>) {
    if nodeId !in s.nodes then (s, Err(NotFoundError)) else (WithoutNodes(s, {nodeId}), Ok(true))
  }

  function OwnedNodes(s: Store, ownerId: string): set<Id> {
    set k | k in s.nodes && s.nodes[k].ownerId == ownerId
  }

  function RemoveNodesByOwner(s: Store, ownerId: string): (Store, Result<nat>) {
    (WithoutNodes(s, OwnedNodes(s, ownerId)), Ok(|OwnedNodes(s, ownerId)|))
  }

  predicate IsPair(a: Assignment, fromId: Id, toId: Id) {
    a.fromId == fromId && a.toId == toId
  }

  predicate Assigned(s: Store, fromId: Id, toId: Id) {
    exists i :: i in s.assignments && IsPair(s.assignments[i], fromId, toId)
  }

  /** Idempotent: an existing pair is left as it is and the new id is still returned. */
  function InsertAssignment(s: Store, newId: Id, a: Assignment): (Store, Result<Id>) {
    (if Assigned(s, a.fromId, a.toId) then s else s.(assignments := s.assignments[newId := a]), Ok(newId))
  }

  function DropAssignment(s: Store, fromId: Id, toId: Id): Store {
    s.(assignments := map i | i in s.assignments && !IsPair(s.assignments[i], fromId, toId) :: s.assignments[i])
  }

  predicate Associated(s: Store, ua: Id, oa: Id) {
    exists i :: i in s.associations && s.associations[i].userAttributeId == ua &&
      s.associations[i].objectAttributeId == oa
  }

  function InsertAssociation(s: Store, newId: Id, a: Association): (Store, Result<Id>) {
    if Associated(s, a.userAttributeId, a.objectAttributeId) then (s, Err(AlreadyExistsError))
    else (s.(associations := s.associations[newId := a]), Ok(newId))
  }

  // ---- service operations ----

  /** _owns: an unowned document may be changed by anyone, another one only by its owner. */
  predicate Owns(requester: string, owner: string) {
    owner == "" || owner == requester
  }

  /** Python's `a or b` on optional strings. */
  function FirstTruthy(a: Option<string>, b: Option<string>): Option<string> {
    if Truthy(a) then a else b
  }

  function CreateNode(env: Env, s: Store, newId: Id, nodeType: NodeType, name: string, properties: map<string, string>,
                      ownerId: string, userId: Option<string>, userIdentifier: Option<string>,
                      resourceId: Option<string>): (Store, Result<Id>)
  {
    var wanted := FirstTruthy(userIdentifier, userId);
    if Truthy(wanted) && nodeType != User then (s, Err(ValidationError))
    else if Truthy(resourceId) && nodeType != Object then (s, Err(ValidationError))
    else
      var resolved := if Truthy(wanted) then env.resolve(wanted.value) else Ok("");
      if resolved.Err? then (s, Err(resolved.error))
      else if Truthy(resourceId) && !env.hasPolicy(resourceId.value) then (s, Err(NotFoundError))
      else
        InsertNode(s, Node(newId, nodeType, name, properties, ownerId,
          if Truthy(wanted) then Some(resolved.value) else userId, resourceId))
  }

  /** The node update_node saves, or the error it stops with. */
  function UpdatedNode(env: Env, node: Node, name: Option<string>, properties: Option<map<string, string>>,
                       userId: Option<string>, userIdentifier: Option<string>, bindingSet: Option<bool>,
                       resourceId: Option<string>): Result<Node>
  {
    if name.Some? && Strip(name.value) == "" then Err(ValidationError)
    else
      var renamed := node.(
        name := if name.Some? then Strip(name.value) else node.name,
        properties := if properties.Some? then properties.value else node.properties);
      var rebind := if bindingSet.Some? then bindingSet.value else userId.Some? || userIdentifier.Some?;
      if rebind && node.nodeType != User then Err(ValidationError)
      else
        var identifier := if userIdentifier.Some? then userIdentifier else userId;
        var resolved := if rebind && Truthy(identifier) then env.resolve(identifier.value) else Ok("");
        if resolved.Err? then Err(resolved.error)
        else
          var bound := renamed.(userId :=
            if !rebind then node.userId else if Truthy(identifier) then Some(resolved.value) else None);
          if resourceId.None? then Ok(bound)
          else if node.nodeType != Object then Err(ValidationError)
          else if resourceId.value != "" && !env.hasPolicy(resourceId.value) then Err(NotFoundError)
          else Ok(bound.(resourceId := if resourceId.value != "" then resourceId else None))
  }

  function UpdateNode(env: Env, s: Store, nodeId: Id, name: Option<string>, properties: Option<map<string, string>>,
                      userId: Option<string>, userIdentifier: Option<string>, bindingSet: Option<bool>,
                      resourceId: Option<string>, requester: string, isAdmin: bool): (Store, Result<Node>)
  {
    if nodeId !in s.nodes then (s, Err(NotFoundError))
    else if !isAdmin && !Owns(requester, s.nodes[nodeId].ownerId) then (s, Err(AccessDeniedError))
    else
      var node := s.nodes[nodeId];
      SaveNode(s, UpdatedNode(env, node, name, properties, userId, userIdentifier, bindingSet, resourceId))
  }

  function SaveNode(s: Store, edited: Result<Node>): (Store, Result<Node>) {
    if edited.Err? then (s, edited)
    else
      var (s', saved) := ReplaceNode(s, edited.value);
      (s', if saved.Err? then Err(saved.error) else edited)
  }

  function DeleteNode(s: Store, nodeId: Id, requester: string, isAdmin: bool): (Store, Result<bool>) {
    if nodeId !in s.nodes then (s, Err(NotFoundError))
    else if !isAdmin && !Owns(requester, s.nodes[nodeId].ownerId) then (s, Err(AccessDeniedError))
    else RemoveNode(s, nodeId)
  }

  datatype Impact = Impact(assignments: map<Id, Assignment>, associations: map<Id, Association>)

  /** What deleting a node would take with it, as shown to the user beforehand. */
  function DeletionImpact(s: Store, nodeId: Id): Result<Impact> {
    if nodeId !in s.nodes then Err(NotFoundError)
    else
      Ok(Impact(
        map i | i in s.assignments && TouchesAssignment(s.assignments[i], {nodeId}) :: s.assignments[i],
        map i | i in s.associations && TouchesAssociation(s.associations[i], {nodeId}) :: s.associations[i]))
  }

  /** An allowed deletion removes the node and exactly the edges announced; every other document is untouched. */
  lemma DeleteRemovesExactlyTheImpact(s: Store, nodeId: Id, requester: string, isAdmin: bool)
    requires DeleteNode(s, nodeId, requester, isAdmin).1.Ok?
    ensures DeletionImpact(s, nodeId).Ok?
    ensures var (s', gone) := (DeleteNode(s, nodeId, requester, isAdmin).0, DeletionImpact(s, nodeId).value);
      && s.nodes == s'.nodes[nodeId := s.nodes[nodeId]] && nodeId !in s'.nodes
      && s.assignments == s'.assignments + gone.assignments && s'.assignments.Keys !! gone.assignments.Keys
      && s.associations == s'.associations + gone.associations && s'.associations.Keys !! gone.associations.Keys
      && nodeId !in Nodes(EdgesOf(s'.assignments))
  {
  }

  ghost function Assign(s: Store, newId: Id, fromId: Id, toId: Id, ownerId: string,
                        isAdmin: bool): (Store, Result<Id>) {
    if fromId !in s.nodes || toId !in s.nodes then (s, Err(NotFoundError))
    else if !ValidTarget(s.nodes[fromId].nodeType, s.nodes[toId].nodeType) then (s, Err(ValidationError))
    else if !isAdmin && !Owns(ownerId, s.nodes[toId].ownerId) then (s, Err(AccessDeniedError))
    else if Reaches(EdgesOf(s.assignments), toId, fromId) then (s, Err(ConflictError))
    else InsertAssignment(s, newId, Assignment(fromId, toId, ownerId))
  }

  predicate AssignedByAnother(s: Store, fromId: Id, toId: Id, requester: string) {
    exists i :: i in s.assignments && IsPair(s.assignments[i], fromId, toId) &&
                !Owns(requester, s.assignments[i].ownerId)
  }

  function RemoveAssignment(s: Store, fromId: Id, toId: Id, requester: string, isAdmin: bool): (Store, Result<bool>) {
    if !Assigned(s, fromId, toId) then (s, Err(NotFoundError))
    else if !isAdmin && AssignedByAnother(s, fromId, toId, requester) then (s, Err(AccessDeniedError))
    else (DropAssignment(s, fromId, toId), Ok(true))
  }

  /** Stripped, lower-cased, blanks dropped, first occurrences kept. */
  function NormalizeOps(ops: seq<string>): seq<string> {
    if ops == [] then []
    else
      var rest := NormalizeOps(ops[..|ops| - 1]);
      var op := Lower(Strip(ops[|ops| - 1]));
      if op == "" || op in rest then rest else rest + [op]
  }

  function Associate(s: Store, newId: Id, ua: Id, oa: Id, operations: seq<string>, ownerId: string,
                     isAdmin: bool): (Store, Result<Id>) {
    if ua !in s.nodes || oa !in s.nodes then (s, Err(NotFoundError))
    else if s.nodes[ua].nodeType != UserAttribute then (s, Err(ValidationError))
    else if s.nodes[oa].nodeType != ObjectAttribute then (s, Err(ValidationError))
    else if !isAdmin && !Owns(ownerId, s.nodes[ua].ownerId) then (s, Err(AccessDeniedError))
    else if NormalizeOps(operations) == [] then (s, Err(ValidationError))
    else InsertAssociation(s, newId, Association(ua, oa, NormalizeOps(operations), ownerId))
  }

  function UpdateAssociation(s: Store, id: Id, operations: seq<string>, requester: string,
                             isAdmin: bool): (Store, Result<Association>) {
    if id !in s.associations then (s, Err(NotFoundError))
    else if !isAdmin && !Owns(requester, s.associations[id].ownerId) then (s, Err(AccessDeniedError))
    else if NormalizeOps(operations) == [] then (s, Err(ValidationError))
    else
      var updated := s.associations[id].(operations := NormalizeOps(operations));
      (s.(associations := s.associations[id := updated]), Ok(updated))
  }

  function RemoveAssociation(s: Store, id: Id, requester: string, isAdmin: bool): (Store, Result<bool>) {
    if id !in s.associations then (s, Err(NotFoundError))
    else if !isAdmin && !Owns(requester, s.associations[id].ownerId) then (s, Err(AccessDeniedError))
    else (s.(associations := s.associations - {id}), Ok(true))
  }

  // ---- runs ----

  datatype Call =
    | CallCreateNode(newId: Id, nodeType: NodeType, nodeName: string, props: map<string, string>, owner: string,
                     user: Option<string>, identifier: Option<string>, resource: Option<string>)
    | CallUpdateNode(nodeId: Id, name: Option<string>, properties: Option<map<string, string>>, user: Option<string>,
                     identifier: Option<string>, bindingSet: Option<bool>, resource: Option<string>,
                     requester: string, isAdmin: bool)
    | CallDeleteNode(nodeId: Id, requester: string, isAdmin: bool)
    | CallDeleteByOwner(owner: string)
    | CallAssign(newId: Id, fromId: Id, toId: Id, owner: string, isAdmin: bool)
    | CallRemoveAssignment(fromId: Id, toId: Id, requester: string, isAdmin: bool)
    | CallAssociate(newId: Id, ua: Id, oa: Id, operations: seq<string>, owner: string, isAdmin: bool)
    | CallUpdateAssociation(id: Id, operations: seq<string>, requester: string, isAdmin: bool)
    | CallRemoveAssociation(id: Id, requester: string, isAdmin: bool)

  ghost function Next(env: Env, s: Store, c: Call): Store {
    match c
    case CallCreateNode(id, t, n, ps, o, u, ident, r) => CreateNode(env, s, id, t, n, ps, o, u, ident, r).0
    case CallUpdateNode(id, n, ps, u, ident, b, r, who, adm) =>
      UpdateNode(env, s, id, n, ps, u, ident, b, r, who, adm).0
    case CallDeleteNode(id, who, adm) => DeleteNode(s, id, who, adm).0
    case CallDeleteByOwner(o) => RemoveNodesByOwner(s, o).0
    case CallAssign(id, f, t, o, adm) => Assign(s, id, f, t, o, adm).0
    case CallRemoveAssignment(f, t, who, adm) => RemoveAssignment(s, f, t, who, adm).0
    case CallAssociate(id, ua, oa, ops, o, adm) => Associate(s, id, ua, oa, ops, o, adm).0
    case CallUpdateAssociation(id, ops, who, adm) => UpdateAssociation(s, id, ops, who, adm).0
    case CallRemoveAssociation(id, who, adm) => RemoveAssociation(s, id, who, adm).0
  }

  /** The generated ids of assignments and associations are new; a node id is checked by the call itself. */
  predicate FreshId(s: Store, c: Call) {
    (c.CallAssign? ==> c.newId !in s.assignments) && (c.CallAssociate? ==> c.newId !in s.associations)
  }

  ghost predicate FreshIds(env: Env, s: Store, calls: seq<Call>)
    decreases |calls|
  {
    calls != [] ==> FreshId(s, calls[0]) && FreshIds(env, Next(env, s, calls[0]), calls[1..])
  }

  ghost function Run(env: Env, s: Store, calls: seq<Call>): Store
    decreases |calls|
  {
    if calls == [] then s else Run(env, Next(env, s, calls[0]), calls[1..])
  }

  lemma {:induction false} NormalizeOpsNormalized(ops: seq<string>)
    ensures NormalizeOps(ops) == [] || Normalized(NormalizeOps(ops))
  {
    if ops != [] {
      NormalizeOpsNormalized(ops[..|ops| - 1]);
      LowerIdempotent(Strip(ops[|ops| - 1]));
    }
  }

  /** The stored operations are exactly the non-blank ones asked for, stripped and in lower case. */
  lemma {:induction false} NormalizeOpsMembers(ops: seq<string>)
    ensures forall o :: o in NormalizeOps(ops) <==> o != "" && exists p :: p in ops && o == Lower(Strip(p))
  {
    if ops != [] {
      NormalizeOpsMembers(ops[..|ops| - 1]);
      assert ops == ops[..|ops| - 1] + [ops[|ops| - 1]];
    }
  }

  lemma TypesKept(nodes: map<Id, Node>, nodes': map<Id, Node>, assignments: map<Id, Assignment>,
                  associations: map<Id, Association>)
    requires AssignmentsTyped(nodes, assignments) && AssociationsTyped(nodes, associations)
    requires forall i :: i in assignments ==> assignments[i].fromId in nodes' && assignments[i].toId in nodes'
    requires forall i :: i in associations ==>
               associations[i].userAttributeId in nodes' && associations[i].objectAttributeId in nodes'
    requires forall k :: k in nodes && k in nodes' ==> nodes[k].nodeType == nodes'[k].nodeType
    ensures AssignmentsTyped(nodes', assignments) && AssociationsTyped(nodes', associations)
  {
    forall i | i in assignments ensures AssignmentTyped(nodes', assignments[i]) {
      assert AssignmentTyped(nodes, assignments[i]);
    }
    forall i | i in associations ensures AssociationTyped(nodes', associations[i]) {
      assert AssociationTyped(nodes, associations[i]);
    }
  }

  lemma WithoutNodesKeepsInv(s: Store, ids: set<Id>)
    requires Inv(s)
    ensures Inv(WithoutNodes(s, ids))
  {
    var s' := WithoutNodes(s, ids);
    FewerEdgesAcyclic(EdgesOf(s.assignments), EdgesOf(s'.assignments));
    TypesKept(s.nodes, s'.nodes, s'.assignments, s'.associations);
  }

  /** Saving a node whose bindings nobody else holds and whose type is not new for its id. */
  lemma PutNodeKeepsInv(s: Store, node: Node)
    requires Inv(s) && BoundRight(node) && !UserTaken(s, node) && !ResourceTaken(s, node)
    requires node.nodeId in s.nodes ==> s.nodes[node.nodeId].nodeType == node.nodeType
    ensures Inv(s.(nodes := s.nodes[node.nodeId := node]))
  {
    var nodes := s.nodes[node.nodeId := node];
    assert BindingsUnique(nodes) by {
      forall k, l | k in nodes && l in nodes && SharesBinding(nodes[k], nodes[l]) ensures k == l {
      }
    }
    TypesKept(s.nodes, nodes, s.assignments, s.associations);
  }

  lemma PutAssociationKeepsInv(s: Store, id: Id, a: Association)
    requires Inv(s) && Normalized(a.operations)
    requires HasType(s.nodes, a.userAttributeId, UserAttribute) &&
             HasType(s.nodes, a.objectAttributeId, ObjectAttribute)
    requires forall i | i in s.associations && s.associations[i].userAttributeId == a.userAttributeId &&
                        s.associations[i].objectAttributeId == a.objectAttributeId
               :: i == id
    ensures Inv(s.(associations := s.associations[id := a]))
  {
  }

  /** A node is inserted exactly when its id is new and, for bindings on the right types, the invariant is kept. */
  lemma InsertNodeGuardIsExact(s: Store, node: Node)
    requires Inv(s) && BoundRight(node)
    ensures InsertNode(s, node).1.Ok? <==> node.nodeId !in s.nodes && Inv(s.(nodes := s.nodes[node.nodeId := node]))
  {
    SavedNodeBindings(s, node);
    if InsertNode(s, node).1.Ok? {
      PutNodeKeepsInv(s, node);
    }
  }

  /** A node of unchanged type is replaced exactly when it exists and the invariant is kept. */
  lemma ReplaceNodeGuardIsExact(s: Store, node: Node)
    requires Inv(s) && BoundRight(node) && (node.nodeId in s.nodes ==> s.nodes[node.nodeId].nodeType == node.nodeType)
    ensures ReplaceNode(s, node).1.Ok? <==> node.nodeId in s.nodes && Inv(s.(nodes := s.nodes[node.nodeId := node]))
  {
    SavedNodeBindings(s, node);
    if ReplaceNode(s, node).1.Ok? {
      PutNodeKeepsInv(s, node);
    }
  }

  /** A binding that another node holds would be shared after saving. */
  lemma SavedNodeBindings(s: Store, node: Node)
    ensures BindingsUnique(s.nodes[node.nodeId := node]) ==> !UserTaken(s, node) && !ResourceTaken(s, node)
  {
    var nodes := s.nodes[node.nodeId := node];
    assert nodes[node.nodeId] == node;
    forall k | k in s.nodes && k != node.nodeId ensures k in nodes && nodes[k] == s.nodes[k] {
    }
  }

  lemma CreateNodeKeepsInv(env: Env, s: Store, id: Id, t: NodeType, n: string, ps: map<string, string>, o: string,
                           u: Option<string>, ident: Option<string>, r: Option<string>)
    requires Inv(s)
    ensures Inv(CreateNode(env, s, id, t, n, ps, o, u, ident, r).0)
  {
    var s' := CreateNode(env, s, id, t, n, ps, o, u, ident, r).0;
    if s' != s {
      PutNodeKeepsInv(s, s'.nodes[id]);
    }
  }

  lemma UpdateNodeKeepsInv(env: Env, s: Store, id: Id, n: Option<string>, ps: Option<map<string, string>>,
                           u: Option<string>, ident: Option<string>, b: Option<bool>, r: Option<string>,
                           who: string, adm: bool)
    requires Inv(s)
    ensures Inv(UpdateNode(env, s, id, n, ps, u, ident, b, r, who, adm).0)
  {
    var s' := UpdateNode(env, s, id, n, ps, u, ident, b, r, who, adm).0;
    if s' != s {
      PutNodeKeepsInv(s, s'.nodes[id]);
    }
  }

  lemma EdgesAfterInsert(assignments: map<Id, Assignment>, id: Id, a: Assignment)
    requires id !in assignments
    ensures EdgesOf(assignments[id := a]) == EdgesOf(assignments) + {(a.fromId, a.toId)}
  {
    var more := assignments[id := a];
    assert more[id] == a;
    forall e | e in EdgesOf(assignments) ensures e in EdgesOf(more) {
      var i :| i in assignments && e == (assignments[i].fromId, assignments[i].toId);
      assert more[i] == assignments[i];
    }
  }

  lemma AssignKeepsInv(s: Store, id: Id, f: Id, t: Id, o: string, adm: bool)
    requires Inv(s) && id !in s.assignments
    ensures Inv(Assign(s, id, f, t, o, adm).0)
  {
    var s' := Assign(s, id, f, t, o, adm).0;
    if s' != s {
      AddEdgeAcyclic(EdgesOf(s.assignments), f, t);
      EdgesAfterInsert(s.assignments, id, Assignment(f, t, o));
    }
  }

  /** Among existing nodes an administrator's assignment is accepted exactly when the new edge keeps the invariant. */
  lemma AssignGuardIsExact(s: Store, id: Id, f: Id, t: Id, o: string)
    requires Inv(s) && f in s.nodes && t in s.nodes && id !in s.assignments && !Assigned(s, f, t)
    ensures Assign(s, id, f, t, o, true).1.Ok? <==> Inv(s.(assignments := s.assignments[id := Assignment(f, t, o)]))
  {
    var more := s.assignments[id := Assignment(f, t, o)];
    EdgesAfterInsert(s.assignments, id, Assignment(f, t, o));
    AddEdgeAcyclic(EdgesOf(s.assignments), f, t);
    if !ValidTarget(s.nodes[f].nodeType, s.nodes[t].nodeType) {
      assert !AssignmentTyped(s.nodes, more[id]);
    } else if !Reaches(EdgesOf(s.assignments), t, f) {
      AssignKeepsInv(s, id, f, t, o, true);
    }
  }

  lemma RemoveAssignmentKeepsInv(s: Store, f: Id, t: Id, who: string, adm: bool)
    requires Inv(s)
    ensures Inv(RemoveAssignment(s, f, t, who, adm).0)
  {
    FewerEdgesAcyclic(EdgesOf(s.assignments), EdgesOf(RemoveAssignment(s, f, t, who, adm).0.assignments));
  }

  lemma AssociateKeepsInv(s: Store, id: Id, ua: Id, oa: Id, ops: seq<string>, o: string, adm: bool)
    requires Inv(s) && id !in s.associations
    ensures Inv(Associate(s, id, ua, oa, ops, o, adm).0)
  {
    NormalizeOpsNormalized(ops);
    var s' := Associate(s, id, ua, oa, ops, o, adm).0;
    if s' != s {
      PutAssociationKeepsInv(s, id, s'.associations[id]);
    }
  }

  /**
   * Among existing nodes an administrator's association is accepted exactly when the store with it satisfies the
   * invariant.
   */
  lemma AssociateGuardIsExact(s: Store, id: Id, ua: Id, oa: Id, ops: seq<string>, o: string)
    requires Inv(s) && ua in s.nodes && oa in s.nodes && id !in s.associations
    ensures Associate(s, id, ua, oa, ops, o, true).1.Ok? <==>
            Inv(s.(associations := s.associations[id := Association(ua, oa, NormalizeOps(ops), o)]))
  {
    var a := Association(ua, oa, NormalizeOps(ops), o);
    var more := s.associations[id := a];
    assert more[id] == a;
    if Associate(s, id, ua, oa, ops, o, true).1.Ok? {
      AssociateKeepsInv(s, id, ua, oa, ops, o, true);
    } else if Associated(s, ua, oa) {
      var i :| i in s.associations && s.associations[i].userAttributeId == ua &&
          s.associations[i].objectAttributeId == oa;
      assert more[i] == s.associations[i];
    } else {
      assert !AssociationTyped(s.nodes, more[id]);
    }
  }

  lemma UpdateAssociationKeepsInv(s: Store, id: Id, ops: seq<string>, who: string, adm: bool)
    requires Inv(s)
    ensures Inv(UpdateAssociation(s, id, ops, who, adm).0)
  {
    NormalizeOpsNormalized(ops);
    var s' := UpdateAssociation(s, id, ops, who, adm).0;
    if s' != s {
      PutAssociationKeepsInv(s, id, s'.associations[id]);
    }
  }

  /** Every call keeps the graph typed, acyclic, free of dangling edges and of duplicate edges and bindings. */
  lemma NextKeepsInv(env: Env, s: Store, c: Call)
    requires Inv(s) && FreshId(s, c)
    ensures Inv(Next(env, s, c))
  {
    match c
    case CallCreateNode(id, t, n, ps, o, u, ident, r) => CreateNodeKeepsInv(env, s, id, t, n, ps, o, u, ident, r);
    case CallUpdateNode(id, n, ps, u, ident, b, r, who, adm) =>
      UpdateNodeKeepsInv(env, s, id, n, ps, u, ident, b, r, who, adm);
    case CallDeleteNode(id, who, adm) => WithoutNodesKeepsInv(s, {id});
    case CallDeleteByOwner(o) => WithoutNodesKeepsInv(s, OwnedNodes(s, o));
    case CallAssign(id, f, t, o, adm) => AssignKeepsInv(s, id, f, t, o, adm);
    case CallRemoveAssignment(f, t, who, adm) => RemoveAssignmentKeepsInv(s, f, t, who, adm);
    case CallAssociate(id, ua, oa, ops, o, adm) => AssociateKeepsInv(s, id, ua, oa, ops, o, adm);
    case CallUpdateAssociation(id, ops, who, adm) => UpdateAssociationKeepsInv(s, id, ops, who, adm);
    case CallRemoveAssociation(id, who, adm) =>
  }

  lemma {:induction false} RunKeepsInv(env: Env, s: Store, calls: seq<Call>)
    requires Inv(s) && FreshIds(env, s, calls)
    ensures Inv(Run(env, s, calls))
    decreases |calls|
  {
    if calls != [] {
      NextKeepsInv(env, s, calls[0]);
      RunKeepsInv(env, Next(env, s, calls[0]), calls[1..]);
    }
  }

  /** Every store reachable from an empty account satisfies the invariant. */
  lemma ReachableStoresSatisfyInv(env: Env, calls: seq<Call>)
    requires FreshIds(env, EMPTY_STORE, calls)
    ensures Inv(Run(env, EMPTY_STORE, calls))
  {
    RunKeepsInv(env, EMPTY_STORE, calls);
  }
}
