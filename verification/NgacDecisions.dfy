/** How edits of the store can and cannot change access decisions. */
module NgacDecisions {
  import opened Common
  import opened Graphs
  import opened NgacModel
  import opened NgacStore

  // ---- locality ----

  ghost predicate Near(d: GraphData, user: Id, obj: Id, x: Id) {
    Reaches(d.edges, user, x) || Reaches(d.edges, obj, x)
  }

  /**
   * The two graphs agree on the nodes above user or object, on the edges out of those, and on associations among them.
   */
  ghost predicate AgreeNear(d: GraphData, d': GraphData, user: Id, obj: Id) {
    && (forall x, y :: Near(d, user, obj, x) ==> ((x, y) in d.edges <==> (x, y) in d'.edges))
    && (forall x, t :: Near(d, user, obj, x) ==> (IsA(d, x, t) <==> IsA(d', x, t)))
    && (forall x, y, op :: Near(d, user, obj, x) && Near(d, user, obj, y) ==>
        (Carries(d, x, y, op) <==> Carries(d', x, y, op)))
  }

  lemma NearClosuresAgree(d: GraphData, d': GraphData, user: Id, obj: Id, x: Id)
    requires AgreeNear(d, d', user, obj) && Near(d, user, obj, x)
    ensures forall y :: Reaches(d.edges, x, y) <==> Reaches(d'.edges, x, y)
    ensures forall y :: Reaches(d.edges, x, y) ==> Near(d, user, obj, y)
  {
    forall y | Reaches(d.edges, x, y) ensures Near(d, user, obj, y) {
      if Reaches(d.edges, user, x) { ReachesTransitive(d.edges, user, x, y); }
      if Reaches(d.edges, obj, x) { ReachesTransitive(d.edges, obj, x, y); }
    }
    SameEdgesSameClosure(d.edges, d'.edges, x);
  }

  lemma JoinsAgree(d: GraphData, d': GraphData, user: Id, obj: Id, op: string, pc: Id, ua: Id, oa: Id)
    requires AgreeNear(d, d', user, obj)
    ensures Joins(d, user, obj, op, pc, ua, oa) <==> Joins(d', user, obj, op, pc, ua, oa)
  {
    ReachesSelf(d.edges, user);
    ReachesSelf(d.edges, obj);
    NearClosuresAgree(d, d', user, obj, user);
    NearClosuresAgree(d, d', user, obj, obj);
    if Near(d, user, obj, ua) && Near(d, user, obj, oa) {
      NearClosuresAgree(d, d', user, obj, ua);
      NearClosuresAgree(d, d', user, obj, oa);
    }
  }

  /** A decision depends only on what lies above the user and the object. */
  lemma DecisionIsLocal(d: GraphData, d': GraphData, user: Id, obj: Id, operation: string)
    requires AgreeNear(d, d', user, obj)
    ensures Grants(d, user, obj, operation) <==> Grants(d', user, obj, operation)
  {
    ReachesSelf(d.edges, obj);
    NearClosuresAgree(d, d', user, obj, obj);
    var op := Lower(operation);
    forall pc ensures Governs(d, obj, pc) <==> Governs(d', obj, pc) {
      assert Near(d, user, obj, pc) <== Reaches(d.edges, obj, pc);
    }
    forall pc ensures Permits(d, user, obj, op, pc) <==> Permits(d', user, obj, op, pc) {
      forall ua, oa ensures Joins(d, user, obj, op, pc, ua, oa) <==> Joins(d', user, obj, op, pc, ua, oa) {
        JoinsAgree(d, d', user, obj, op, pc, ua, oa);
      }
    }
  }

  /** An operation may be asked about in any case. */
  lemma CaseDoesNotMatter(d: GraphData, user: Id, obj: Id, operation: string, other: string)
    requires Lower(operation) == Lower(other)
    ensures Grants(d, user, obj, operation) <==> Grants(d, user, obj, other)
    ensures Grants(d, user, obj, operation) <==> Grants(d, user, obj, Lower(operation))
  {
    LowerIdempotent(operation);
  }

  /** The association entries of a store's graph, document by document. */
  lemma CarriesInStore(s: Store, ua: Id, oa: Id, op: string)
    requires OneAssociationPerPair(s.associations)
    ensures Carries(DataOf(s), ua, oa, op) <==>
            exists i :: i in s.associations && s.associations[i].userAttributeId == ua &&
                        s.associations[i].objectAttributeId == oa && op in LoweredOps(s.associations[i].operations)
  {
  }

  lemma EdgeOutsideRemains(s: Store, ids: set<Id>, x: Id, y: Id)
    requires (x, y) in EdgesOf(s.assignments) && x !in ids && y !in ids
    ensures (x, y) in EdgesOf(WithoutNodes(s, ids).assignments)
  {
    var i :| i in s.assignments && (x, y) == (s.assignments[i].fromId, s.assignments[i].toId);
    assert i in WithoutNodes(s, ids).assignments;
  }

  lemma AssociationsOutsideRemain(s: Store, ids: set<Id>)
    requires OneAssociationPerPair(s.associations)
    ensures OneAssociationPerPair(WithoutNodes(s, ids).associations)
    ensures forall x, y, op :: x !in ids && y !in ids ==>
              (Carries(DataOf(s), x, y, op) <==> Carries(DataOf(WithoutNodes(s, ids)), x, y, op))
  {
    var s' := WithoutNodes(s, ids);
    forall x, y, op | x !in ids && y !in ids ensures Carries(DataOf(s), x, y, op) <==> Carries(DataOf(s'), x, y, op) {
      CarriesInStore(s, x, y, op);
      CarriesInStore(s', x, y, op);
      if i :| i in s.associations &&
              s.associations[i].userAttributeId == x && s.associations[i].objectAttributeId == y &&
              op in LoweredOps(s.associations[i].operations) {
        assert i in s'.associations;
      }
    }
  }

  ghost predicate FarFrom(d: GraphData, user: Id, obj: Id, ids: set<Id>) {
    forall n :: n in ids ==> !Near(d, user, obj, n)
  }

  lemma NearEdgesRemain(s: Store, ids: set<Id>, user: Id, obj: Id, x: Id, y: Id)
    requires OneAssociationPerPair(s.associations) && FarFrom(DataOf(s), user, obj, ids)
    requires Near(DataOf(s), user, obj, x) && (x, y) in EdgesOf(s.assignments)
    ensures (x, y) in EdgesOf(WithoutNodes(s, ids).assignments)
  {
    var edges := EdgesOf(s.assignments);
    ReachesEdge(edges, x, y);
    if Reaches(edges, user, x) { ReachesTransitive(edges, user, x, y); }
    if Reaches(edges, obj, x) { ReachesTransitive(edges, obj, x, y); }
    EdgeOutsideRemains(s, ids, x, y);
  }

  lemma NoNewEdges(s: Store, ids: set<Id>)
    ensures EdgesOf(WithoutNodes(s, ids).assignments) <= EdgesOf(s.assignments)
  {
  }

  lemma DeletionAgreesNear(s: Store, ids: set<Id>, user: Id, obj: Id)
    requires OneAssociationPerPair(s.associations) && FarFrom(DataOf(s), user, obj, ids)
    ensures OneAssociationPerPair(WithoutNodes(s, ids).associations)
    ensures AgreeNear(DataOf(s), DataOf(WithoutNodes(s, ids)), user, obj)
  {
    AssociationsOutsideRemain(s, ids);
    NoNewEdges(s, ids);
    forall x, y | Near(DataOf(s), user, obj, x) && (x, y) in EdgesOf(s.assignments)
      ensures (x, y) in EdgesOf(WithoutNodes(s, ids).assignments)
    {
      NearEdgesRemain(s, ids, user, obj, x, y);
    }
  }

  /** Deleting nodes that lie above neither the user nor the object changes no decision about them. */
  lemma DeletingElsewhereIsInvisible(s: Store, ids: set<Id>, user: Id, obj: Id, operation: string)
    requires OneAssociationPerPair(s.associations) && FarFrom(DataOf(s), user, obj, ids)
    ensures OneAssociationPerPair(WithoutNodes(s, ids).associations)
    ensures Grants(DataOf(s), user, obj, operation) <==> Grants(DataOf(WithoutNodes(s, ids)), user, obj, operation)
  {
    DeletionAgreesNear(s, ids, user, obj);
    DecisionIsLocal(DataOf(s), DataOf(WithoutNodes(s, ids)), user, obj, operation);
  }

  /** Nor does changing edges out of nodes that lie above neither of them. */
  lemma EditingEdgesElsewhere(s: Store, s': Store, user: Id, obj: Id, operation: string)
    requires OneAssociationPerPair(s.associations) && s'.nodes == s.nodes && s'.associations == s.associations
    requires forall x, y :: Near(DataOf(s), user, obj, x) ==>
               ((x, y) in EdgesOf(s.assignments) <==> (x, y) in EdgesOf(s'.assignments))
    ensures Grants(DataOf(s), user, obj, operation) <==> Grants(DataOf(s'), user, obj, operation)
  {
    DecisionIsLocal(DataOf(s), DataOf(s'), user, obj, operation);
  }

  /** Removing an assignment takes away edges out of its source only. */
  lemma RemoveDropsOnlyItsEdges(s: Store, f: Id, t: Id, who: string, adm: bool, x: Id, y: Id)
    requires x != f
    ensures var s' := RemoveAssignment(s, f, t, who, adm).0;
      && s'.nodes == s.nodes && s'.associations == s.associations
      && ((x, y) in EdgesOf(s.assignments) <==> (x, y) in EdgesOf(s'.assignments))
  {
    var s' := RemoveAssignment(s, f, t, who, adm).0;
    if i :| i in s.assignments && (x, y) == (s.assignments[i].fromId, s.assignments[i].toId) {
      assert i in s'.assignments && s'.assignments[i] == s.assignments[i];
    }
  }

  /** An assignment call leaves nodes, associations and every edge out of other nodes alone. */
  lemma AssignmentCallTouchesOneSource(env: Env, s: Store, c: Call)
    requires FreshId(s, c) && (c.CallAssign? || c.CallRemoveAssignment?)
    ensures var s' := Next(env, s, c);
      && s'.nodes == s.nodes && s'.associations == s.associations
      && forall x, y :: x != c.fromId ==> ((x, y) in EdgesOf(s.assignments) <==> (x, y) in EdgesOf(s'.assignments))
  {
    if c.CallAssign? {
      AssignAddsOneEdge(s, c.newId, c.fromId, c.toId, c.owner, c.isAdmin);
    } else {
      forall x, y | x != c.fromId
        ensures (x, y) in EdgesOf(s.assignments) <==> (x, y) in EdgesOf(Next(env, s, c).assignments)
      {
        RemoveDropsOnlyItsEdges(s, c.fromId, c.toId, c.requester, c.isAdmin, x, y);
      }
    }
  }

  /** Assigning or unassigning a node that lies above neither the user nor the object changes no decision about them. */
  lemma EditingElsewhereIsInvisible(env: Env, s: Store, c: Call, user: Id, obj: Id, operation: string)
    requires Inv(s) && FreshId(s, c) && (c.CallAssign? || c.CallRemoveAssignment?)
    requires !Near(DataOf(s), user, obj, c.fromId)
    ensures Inv(Next(env, s, c))
    ensures Grants(DataOf(s), user, obj, operation) <==> Grants(DataOf(Next(env, s, c)), user, obj, operation)
  {
    NextKeepsInv(env, s, c);
    AssignmentCallTouchesOneSource(env, s, c);
    SourceElsewhere(s, Next(env, s, c), c.fromId, user, obj, operation);
  }

  lemma SourceElsewhere(s: Store, s': Store, f: Id, user: Id, obj: Id, operation: string)
    requires OneAssociationPerPair(s.associations) && s'.nodes == s.nodes && s'.associations == s.associations
    requires forall x, y :: x != f ==> ((x, y) in EdgesOf(s.assignments) <==> (x, y) in EdgesOf(s'.assignments))
    requires !Near(DataOf(s), user, obj, f)
    ensures Grants(DataOf(s), user, obj, operation) <==> Grants(DataOf(s'), user, obj, operation)
  {
    EditingEdgesElsewhere(s, s', user, obj, operation);
  }

  // ---- nodes by themselves decide nothing ----

  predicate KeepsIdentity(before: Node, after: Node) {
    after.nodeId == before.nodeId && after.nodeType == before.nodeType && after.ownerId == before.ownerId
  }

  /** An edit of a node changes that document only, and keeps its id, type and owner. */
  lemma UpdateKeepsIdentity(env: Env, s: Store, id: Id, n: Option<string>, ps: Option<map<string, string>>,
                            u: Option<string>, ident: Option<string>, b: Option<bool>, r: Option<string>,
                            who: string, adm: bool)
    requires NodesKeyedById(s.nodes)
    ensures var (s', updated) := UpdateNode(env, s, id, n, ps, u, ident, b, r, who, adm);
      && (updated.Err? ==> s' == s)
      && (updated.Ok? ==> id in s.nodes && KeepsIdentity(s.nodes[id], updated.value) &&
                          s' == s.(nodes := s.nodes[id := updated.value]))
  {
  }

  lemma SameTypesDecideAlike(d: GraphData, d': GraphData, user: Id, obj: Id, operation: string)
    requires d'.edges == d.edges && d'.assoc == d.assoc && forall x, t :: IsA(d, x, t) <==> IsA(d', x, t)
    ensures Grants(d, user, obj, operation) <==> Grants(d', user, obj, operation)
  {
    DecisionIsLocal(d, d', user, obj, operation);
  }

  /** So editing nodes changes no decision about anyone. */
  lemma UpdatingNodesIsInvisible(env: Env, s: Store, id: Id, n: Option<string>, ps: Option<map<string, string>>,
                                 u: Option<string>, ident: Option<string>, b: Option<bool>, r: Option<string>,
                                 who: string, adm: bool, user: Id, obj: Id, operation: string)
    requires NodesKeyedById(s.nodes) && OneAssociationPerPair(s.associations)
    ensures var s' := UpdateNode(env, s, id, n, ps, u, ident, b, r, who, adm).0;
      && OneAssociationPerPair(s'.associations)
      && (Grants(DataOf(s), user, obj, operation) <==> Grants(DataOf(s'), user, obj, operation))
  {
    UpdateKeepsIdentity(env, s, id, n, ps, u, ident, b, r, who, adm);
    SameTypesDecideAlike(DataOf(s), DataOf(UpdateNode(env, s, id, n, ps, u, ident, b, r, who, adm).0), user, obj,
                         operation);
  }

  /** Only n itself reaches or is reached from a node without edges. */
  lemma IsolatedReaches(edges: Edges, n: Id)
    requires n !in Nodes(edges)
    ensures forall x :: Reaches(edges, n, x) <==> x == n
    ensures forall x :: Reaches(edges, x, n) <==> x == n
  {
    ReachesSelf(edges, n);
    assert Closed(edges, {n}) by {
      forall a, b | (a, b) in edges ensures a != n {
        assert (a, b).0 in Nodes(edges);
      }
    }
    ClosedContainsReachable(edges, {n}, n);
    forall x | Reaches(edges, x, n) ensures x == n {
      ReachableAreNodes(edges, x);
    }
  }

  /** Nothing points at n, from n, or is associated with n. */
  ghost predicate Isolated(d: GraphData, n: Id) {
    && n !in d.nodes && n !in Nodes(d.edges)
    && forall x, op :: !Carries(d, n, x, op) && !Carries(d, x, n, op)
  }

  lemma NoEdgesAtNewNode(d: GraphData, n: Id)
    requires EdgesTyped(d) && n !in d.nodes
    ensures n !in Nodes(d.edges)
  {
  }

  lemma NoAssociationsAtNewNode(s: Store, n: Id, x: Id, op: string)
    requires AssociationsTyped(s.nodes, s.associations) && OneAssociationPerPair(s.associations) && n !in s.nodes
    ensures !Carries(DataOf(s), n, x, op) && !Carries(DataOf(s), x, n, op)
  {
    CarriesInStore(s, n, x, op);
    CarriesInStore(s, x, n, op);
    forall i | i in s.associations
      ensures s.associations[i].userAttributeId != n && s.associations[i].objectAttributeId != n {
      assert AssociationTyped(s.nodes, s.associations[i]);
    }
  }

  lemma NewNodeIsIsolated(s: Store, n: Id)
    requires Inv(s) && n !in s.nodes
    ensures Isolated(DataOf(s), n)
  {
    StoreEdgesTyped(s);
    NoEdgesAtNewNode(DataOf(s), n);
    forall x, op ensures !Carries(DataOf(s), n, x, op) && !Carries(DataOf(s), x, n, op) {
      NoAssociationsAtNewNode(s, n, x, op);
    }
  }

  function WithNode(d: GraphData, node: Node): GraphData {
    d.(nodes := d.nodes[node.nodeId := node])
  }

  lemma PermitsWithNode(d: GraphData, node: Node, user: Id, obj: Id, op: string, pc: Id)
    requires Isolated(d, node.nodeId)
    ensures Permits(d, user, obj, op, pc) <==> Permits(WithNode(d, node), user, obj, op, pc)
  {
    var d' := WithNode(d, node);
    forall ua, oa ensures Joins(d, user, obj, op, pc, ua, oa) <==> Joins(d', user, obj, op, pc, ua, oa) {
      if ua != node.nodeId && oa != node.nodeId {
        assert IsA(d, ua, UserAttribute) <==> IsA(d', ua, UserAttribute);
        assert IsA(d, oa, ObjectAttribute) <==> IsA(d', oa, ObjectAttribute);
      }
    }
  }

  lemma GovernsWithNode(d: GraphData, node: Node, obj: Id, pc: Id)
    requires Isolated(d, node.nodeId) && obj != node.nodeId
    ensures Governs(d, obj, pc) <==> Governs(WithNode(d, node), obj, pc)
  {
    IsolatedReaches(d.edges, node.nodeId);
  }

  lemma NothingGrantedOnNewNode(d: GraphData, node: Node, user: Id, operation: string)
    requires Isolated(d, node.nodeId)
    ensures !Grants(WithNode(d, node), user, node.nodeId, operation) && !Grants(d, user, node.nodeId, operation)
  {
    IsolatedReaches(d.edges, node.nodeId);
    forall pc ensures !Permits(d, user, node.nodeId, Lower(operation), pc) {
    }
    forall pc ensures !Permits(WithNode(d, node), user, node.nodeId, Lower(operation), pc) {
      PermitsWithNode(d, node, user, node.nodeId, Lower(operation), pc);
    }
  }

  /** A new node can be asked about, but until it is assigned somewhere every request is decided as before. */
  lemma InsertingNodesIsInvisible(s: Store, node: Node, user: Id, obj: Id, operation: string)
    requires Inv(s) && node.nodeId !in s.nodes
    ensures var s' := s.(nodes := s.nodes[node.nodeId := node]);
      Grants(DataOf(s), user, obj, operation) <==> Grants(DataOf(s'), user, obj, operation)
  {
    var d := DataOf(s);
    assert DataOf(s.(nodes := s.nodes[node.nodeId := node])) == WithNode(d, node);
    NewNodeIsIsolated(s, node.nodeId);
    if obj == node.nodeId {
      NothingGrantedOnNewNode(d, node, user, operation);
    } else {
      GrantsWithNode(d, node, user, obj, operation);
    }
  }

  lemma GrantsWithNode(d: GraphData, node: Node, user: Id, obj: Id, operation: string)
    requires Isolated(d, node.nodeId) && obj != node.nodeId
    ensures Grants(d, user, obj, operation) <==> Grants(WithNode(d, node), user, obj, operation)
  {
    forall pc ensures Governs(d, obj, pc) <==> Governs(WithNode(d, node), obj, pc) {
      GovernsWithNode(d, node, obj, pc);
    }
    forall pc ensures Permits(d, user, obj, Lower(operation), pc) <==>
      Permits(WithNode(d, node), user, obj, Lower(operation), pc) {
      PermitsWithNode(d, node, user, obj, Lower(operation), pc);
    }
  }

  // ---- monotonicity ----

  function WithEdge(d: GraphData, a: Id, b: Id): GraphData {
    d.(edges := d.edges + {(a, b)})
  }

  lemma UnderGrows(d: GraphData, a: Id, b: Id, start: Id, t: NodeType, pc: Id, x: Id)
    requires Under(d, start, t, pc, x)
    ensures Under(WithEdge(d, a, b), start, t, pc, x)
  {
    ReachesMonotone(d.edges, WithEdge(d, a, b).edges, start, x);
    ReachesMonotone(d.edges, WithEdge(d, a, b).edges, x, pc);
  }

  lemma PermitsGrows(d: GraphData, a: Id, b: Id, user: Id, obj: Id, op: string, pc: Id)
    requires Permits(d, user, obj, op, pc)
    ensures Permits(WithEdge(d, a, b), user, obj, op, pc)
  {
    var ua, oa :| Joins(d, user, obj, op, pc, ua, oa);
    UnderGrows(d, a, b, user, UserAttribute, pc, ua);
    UnderGrows(d, a, b, obj, ObjectAttribute, pc, oa);
    assert Joins(WithEdge(d, a, b), user, obj, op, pc, ua, oa);
  }

  /**
   * A grant survives a new edge exactly when every policy class that newly governs the object permits the operation.
   */
  lemma GrantAfterNewEdge(d: GraphData, a: Id, b: Id, user: Id, obj: Id, operation: string)
    requires Grants(d, user, obj, operation)
    ensures Grants(WithEdge(d, a, b), user, obj, operation) <==>
            forall pc :: Governs(WithEdge(d, a, b), obj, pc) && !Governs(d, obj, pc) ==>
                         Permits(WithEdge(d, a, b), user, obj, Lower(operation), pc)
  {
    var d' := WithEdge(d, a, b);
    forall pc | Governs(d, obj, pc) ensures Governs(d', obj, pc) && Permits(d', user, obj, Lower(operation), pc) {
      ReachesMonotone(d.edges, d'.edges, obj, pc);
      PermitsGrows(d, a, b, user, obj, Lower(operation), pc);
    }
  }

  ghost predicate EdgesTyped(d: GraphData) {
    forall a, b :: (a, b) in d.edges ==>
      a in d.nodes && b in d.nodes && ValidTarget(d.nodes[a].nodeType, d.nodes[b].nodeType)
  }

  predicate ObjectSide(d: GraphData, x: Id) {
    IsA(d, x, Object) || IsA(d, x, ObjectAttribute) || IsA(d, x, PolicyClass)
  }

  /** Only objects and object attributes lie below an object attribute. */
  lemma {:induction false} BelowObjectAttribute(d: GraphData, p: seq<Id>, x: Id, oa: Id)
    requires EdgesTyped(d) && IsPath(d.edges, p, x, oa) && IsA(d, oa, ObjectAttribute)
    ensures IsA(d, x, Object) || IsA(d, x, ObjectAttribute)
  {
    if |p| > 1 {
      assert (p[0], p[1]) in d.edges;
      assert IsPath(d.edges, p[1..], p[1], oa);
      BelowObjectAttribute(d, p[1..], p[1], oa);
    }
  }

  /** Upward from the object side one stays on it. */
  lemma ObjectSideIsClosed(d: GraphData, x: Id, y: Id)
    requires EdgesTyped(d) && ObjectSide(d, x) && Reaches(d.edges, x, y)
    ensures ObjectSide(d, y)
  {
    var side := set n | n in d.nodes && ObjectSide(d, n);
    assert Closed(d.edges, side);
    ClosedContainsReachable(d.edges, side, x);
  }

  /** In a typed graph an edge from a user or user attribute never takes a grant away, whatever ids are asked about. */
  lemma UserSideEdgeKeepsGrants(d: GraphData, a: Id, b: Id, user: Id, obj: Id, operation: string)
    requires EdgesTyped(d) && (IsA(d, a, User) || IsA(d, a, UserAttribute))
    requires Grants(d, user, obj, operation)
    ensures Grants(WithEdge(d, a, b), user, obj, operation)
  {
    var op := Lower(operation);
    var pc :| Governs(d, obj, pc);
    var ua, oa :| Joins(d, user, obj, op, pc, ua, oa);
    var p :| IsPath(d.edges, p, obj, oa);
    BelowObjectAttribute(d, p, obj, oa);
    if Reaches(d.edges, obj, a) {
      ObjectSideIsClosed(d, obj, a);
    }
    forall c | Governs(WithEdge(d, a, b), obj, c) ensures Governs(d, obj, c) {
      ReachesAfterAddingEdge(d.edges, a, b, obj, c);
    }
    GrantAfterNewEdge(d, a, b, user, obj, operation);
  }

  /** More operations on associations never take a grant away. */
  lemma MoreOperationsKeepGrants(d: GraphData, d': GraphData, user: Id, obj: Id, operation: string)
    requires d'.nodes == d.nodes && d'.edges == d.edges
    requires forall ua, oa, op :: Carries(d, ua, oa, op) ==> Carries(d', ua, oa, op)
    requires Grants(d, user, obj, operation)
    ensures Grants(d', user, obj, operation)
  {
    forall pc | Governs(d', obj, pc) ensures Permits(d', user, obj, Lower(operation), pc) {
      assert Governs(d, obj, pc);
      var ua, oa :| Joins(d, user, obj, Lower(operation), pc, ua, oa);
      assert Joins(d', user, obj, Lower(operation), pc, ua, oa);
    }
    var pc :| Governs(d, obj, pc);
    assert Governs(d', obj, pc);
  }

  /**
   * Calls that take nothing away: creating and editing nodes, user-side assignments, new associations, and edits that
   * keep an association's operations.
   */
  predicate Widening(s: Store, c: Call) {
    match c
    case CallCreateNode(_, _, _, _, _, _, _, _) => true
    case CallUpdateNode(_, _, _, _, _, _, _, _, _) => true
    case CallAssign(_, f, _, _, _) => HasType(s.nodes, f, User) || HasType(s.nodes, f, UserAttribute)
    case CallAssociate(_, _, _, _, _, _) => true
    case CallUpdateAssociation(id, ops, _, _) =>
      id in s.associations ==> forall o :: o in s.associations[id].operations ==> o in NormalizeOps(ops)
    case _ => false
  }

  lemma StoreEdgesTyped(s: Store)
    requires Inv(s)
    ensures EdgesTyped(DataOf(s))
  {
    forall a, b | (a, b) in EdgesOf(s.assignments)
      ensures a in s.nodes && b in s.nodes && ValidTarget(s.nodes[a].nodeType, s.nodes[b].nodeType)
    {
      var i :| i in s.assignments && (a, b) == (s.assignments[i].fromId, s.assignments[i].toId);
      assert AssignmentTyped(s.nodes, s.assignments[i]);
    }
  }

  lemma NewUserSideEdgeKeepsGrants(s: Store, s': Store, f: Id, t: Id, user: Id, obj: Id, operation: string)
    requires OneAssociationPerPair(s.associations) && EdgesTyped(DataOf(s))
    requires s'.nodes == s.nodes && s'.associations == s.associations
    requires EdgesOf(s'.assignments) == EdgesOf(s.assignments) + {(f, t)}
    requires HasType(s.nodes, f, User) || HasType(s.nodes, f, UserAttribute)
    requires Grants(DataOf(s), user, obj, operation)
    ensures Grants(DataOf(s'), user, obj, operation)
  {
    UserSideEdgeKeepsGrants(DataOf(s), f, t, user, obj, operation);
    assert DataOf(s') == WithEdge(DataOf(s), f, t);
  }

  /** Assign either leaves the store alone or adds exactly its edge. */
  lemma AssignAddsOneEdge(s: Store, id: Id, f: Id, t: Id, o: string, adm: bool)
    requires id !in s.assignments
    ensures var s' := Assign(s, id, f, t, o, adm).0;
      && s'.nodes == s.nodes && s'.associations == s.associations
      && (s' == s || EdgesOf(s'.assignments) == EdgesOf(s.assignments) + {(f, t)})
  {
    EdgesAfterInsert(s.assignments, id, Assignment(f, t, o));
  }

  /** Keeping every association and every operation on it. */
  lemma KeptOperationsKeepGrants(s: Store, s': Store, user: Id, obj: Id, operation: string)
    requires OneAssociationPerPair(s.associations) && OneAssociationPerPair(s'.associations)
    requires s'.nodes == s.nodes && s'.assignments == s.assignments
    requires forall i :: i in s.associations ==>
      i in s'.associations && KeepsOperations(s.associations[i], s'.associations[i])
    requires Grants(DataOf(s), user, obj, operation)
    ensures Grants(DataOf(s'), user, obj, operation)
  {
    forall ua, oa, op | Carries(DataOf(s), ua, oa, op) ensures Carries(DataOf(s'), ua, oa, op) {
      CarriesInStore(s, ua, oa, op);
      CarriesInStore(s', ua, oa, op);
      var i :| i in s.associations && s.associations[i].userAttributeId == ua &&
               s.associations[i].objectAttributeId == oa && op in LoweredOps(s.associations[i].operations);
      assert KeepsOperations(s.associations[i], s'.associations[i]);
    }
    MoreOperationsKeepGrants(DataOf(s), DataOf(s'), user, obj, operation);
  }

  predicate KeepsOperations(a: Association, b: Association) {
    && b.userAttributeId == a.userAttributeId
    && b.objectAttributeId == a.objectAttributeId
    && forall o :: o in a.operations ==> o in b.operations
  }

  /** Associating and widening edits keep every association with its operations. */
  lemma WideningKeepsOperations(env: Env, s: Store, c: Call)
    requires FreshId(s, c) && Widening(s, c) && (c.CallAssociate? || c.CallUpdateAssociation?)
    ensures var s' := Next(env, s, c);
      && s'.nodes == s.nodes && s'.assignments == s.assignments
      && forall i :: i in s.associations ==>
          i in s'.associations && KeepsOperations(s.associations[i], s'.associations[i])
  {
  }

  lemma CreatingKeepsDecisions(env: Env, s: Store, c: Call, user: Id, obj: Id, operation: string)
    requires Inv(s) && c.CallCreateNode?
    ensures Inv(Next(env, s, c))
    ensures Grants(DataOf(s), user, obj, operation) <==> Grants(DataOf(Next(env, s, c)), user, obj, operation)
  {
    var s' := Next(env, s, c);
    NextKeepsInv(env, s, c);
    if s' != s {
      InsertingNodesIsInvisible(s, s'.nodes[c.newId], user, obj, operation);
    }
  }

  lemma WideningKeepsGrants(env: Env, s: Store, c: Call, user: Id, obj: Id, operation: string)
    requires Inv(s) && FreshId(s, c) && Widening(s, c)
    requires Grants(DataOf(s), user, obj, operation)
    ensures Inv(Next(env, s, c))
    ensures Grants(DataOf(Next(env, s, c)), user, obj, operation)
  {
    NextKeepsInv(env, s, c);
    match c
    case CallCreateNode(_, _, _, _, _, _, _, _) =>
      CreatingKeepsDecisions(env, s, c, user, obj, operation);
    case CallUpdateNode(id, n, ps, u, ident, b, r, who, adm) =>
      UpdatingNodesIsInvisible(env, s, id, n, ps, u, ident, b, r, who, adm, user, obj, operation);
    case CallAssign(_, _, _, _, _) =>
      AssigningKeepsGrants(env, s, c, user, obj, operation);
    case _ =>
      WideningKeepsOperations(env, s, c);
      KeptOperationsKeepGrants(s, Next(env, s, c), user, obj, operation);
  }

  lemma AssigningKeepsGrants(env: Env, s: Store, c: Call, user: Id, obj: Id, operation: string)
    requires Inv(s) && FreshId(s, c) && Widening(s, c) && c.CallAssign?
    requires Grants(DataOf(s), user, obj, operation)
    ensures Inv(Next(env, s, c))
    ensures Grants(DataOf(Next(env, s, c)), user, obj, operation)
  {
    var s' := Next(env, s, c);
    NextKeepsInv(env, s, c);
    AssignAddsOneEdge(s, c.newId, c.fromId, c.toId, c.owner, c.isAdmin);
    StoreEdgesTyped(s);
    if s' != s {
      NewUserSideEdgeKeepsGrants(s, s', c.fromId, c.toId, user, obj, operation);
    }
  }

  ghost predicate AllWidening(env: Env, s: Store, calls: seq<Call>)
    decreases |calls|
  {
    calls != [] ==> Widening(s, calls[0]) && AllWidening(env, Next(env, s, calls[0]), calls[1..])
  }

  /** No sequence of widening calls turns any grant into a denial. */
  lemma {:induction false} WideningRunKeepsGrants(env: Env, s: Store, calls: seq<Call>, user: Id, obj: Id,
                                                  operation: string)
    requires Inv(s) && FreshIds(env, s, calls) && AllWidening(env, s, calls)
    requires Grants(DataOf(s), user, obj, operation)
    ensures Inv(Run(env, s, calls))
    ensures Grants(DataOf(Run(env, s, calls)), user, obj, operation)
    decreases |calls|
  {
    if calls != [] {
      WideningKeepsGrants(env, s, calls[0], user, obj, operation);
      WideningRunKeepsGrants(env, Next(env, s, calls[0]), calls[1..], user, obj, operation);
    }
  }
}
