/** What removing nodes, assignments, associations and operations does to access decisions. */
module NgacRemovals {
  import opened Common
  import opened Graphs
  import opened NgacModel
  import opened NgacStore
  import opened NgacDecisions

  /** Every node, edge and operation of the smaller graph is in the larger one. */
  ghost predicate PartOf(d: GraphData, whole: GraphData) {
    && d.edges <= whole.edges
    && (forall x, t :: IsA(d, x, t) ==> IsA(whole, x, t))
    && forall ua, oa, op :: Carries(d, ua, oa, op) ==> Carries(whole, ua, oa, op)
  }

  lemma UnderInWhole(d: GraphData, whole: GraphData, start: Id, t: NodeType, pc: Id, x: Id)
    requires PartOf(d, whole) && Under(d, start, t, pc, x)
    ensures Under(whole, start, t, pc, x)
  {
    ReachesMonotone(d.edges, whole.edges, start, x);
    ReachesMonotone(d.edges, whole.edges, x, pc);
  }

  lemma PermitsInWhole(d: GraphData, whole: GraphData, user: Id, obj: Id, op: string, pc: Id)
    requires PartOf(d, whole) && Permits(d, user, obj, op, pc)
    ensures Permits(whole, user, obj, op, pc)
  {
    var ua, oa :| Joins(d, user, obj, op, pc, ua, oa);
    UnderInWhole(d, whole, user, UserAttribute, pc, ua);
    UnderInWhole(d, whole, obj, ObjectAttribute, pc, oa);
    assert Joins(whole, user, obj, op, pc, ua, oa);
  }

  /** A policy class that governs the object in the whole graph only. */
  ghost predicate GovernsOnlyIn(whole: GraphData, d: GraphData, obj: Id, pc: Id) {
    Governs(whole, obj, pc) && !Governs(d, obj, pc)
  }

  /** What a part grants the whole grants exactly when every class that governs there only permits the operation too. */
  lemma GrantInWhole(d: GraphData, whole: GraphData, user: Id, obj: Id, operation: string)
    requires PartOf(d, whole) && Grants(d, user, obj, operation)
    ensures Grants(whole, user, obj, operation) <==>
            forall pc :: GovernsOnlyIn(whole, d, obj, pc) ==> Permits(whole, user, obj, Lower(operation), pc)
  {
    forall pc | Governs(d, obj, pc) ensures Governs(whole, obj, pc) && Permits(whole, user, obj, Lower(operation), pc) {
      ReachesMonotone(d.edges, whole.edges, obj, pc);
      PermitsInWhole(d, whole, user, obj, Lower(operation), pc);
    }
  }

  // ---- removals through the service ----

  /** Calls that take nodes, assignments, associations or operations away and add nothing. */
  predicate TakesAway(s: Store, c: Call) {
    match c
    case CallDeleteNode(_, _, _) => true
    case CallDeleteByOwner(_) => true
    case CallRemoveAssignment(_, _, _, _) => true
    case CallRemoveAssociation(_, _, _) => true
    case CallUpdateAssociation(id, ops, _, _) =>
      id in s.associations ==> forall o :: o in NormalizeOps(ops) ==> o in s.associations[id].operations
    case _ => false
  }

  /** Every document kept is a former one, an association perhaps with fewer operations. */
  predicate KeepsOnly(s: Store, s': Store) {
    && (forall k :: k in s'.nodes ==> k in s.nodes && s'.nodes[k] == s.nodes[k])
    && (forall i :: i in s'.assignments ==> i in s.assignments && s'.assignments[i] == s.assignments[i])
    && forall i :: i in s'.associations ==>
         i in s.associations && KeepsOperations(s'.associations[i], s.associations[i])
  }

  /** A deletion is rejected or removes exactly the nodes with what touches them. */
  lemma DeletionIsWithoutNodes(env: Env, s: Store, c: Call, ids: set<Id>)
    requires c.CallDeleteNode? || c.CallDeleteByOwner?
    requires ids == if c.CallDeleteNode? then {c.nodeId} else OwnedNodes(s, c.owner)
    ensures Next(env, s, c) == s || Next(env, s, c) == WithoutNodes(s, ids)
  {
  }

  lemma WithoutNodesKeepsOnly(s: Store, ids: set<Id>)
    ensures KeepsOnly(s, WithoutNodes(s, ids))
  {
  }

  lemma DeletionKeepsOnly(env: Env, s: Store, c: Call)
    requires c.CallDeleteNode? || c.CallDeleteByOwner?
    ensures KeepsOnly(s, Next(env, s, c))
  {
    var ids := if c.CallDeleteNode? then {c.nodeId} else OwnedNodes(s, c.owner);
    DeletionIsWithoutNodes(env, s, c, ids);
    WithoutNodesKeepsOnly(s, ids);
    UnchangedKeepsOnly(s);
  }

  lemma UnchangedKeepsOnly(s: Store)
    ensures KeepsOnly(s, s)
  {
  }

  lemma EdgeRemovalKeepsOnly(env: Env, s: Store, c: Call)
    requires TakesAway(s, c) && !c.CallDeleteNode? && !c.CallDeleteByOwner?
    ensures KeepsOnly(s, Next(env, s, c))
  {
  }

  lemma TakingAwayKeepsOnly(env: Env, s: Store, c: Call)
    requires TakesAway(s, c)
    ensures KeepsOnly(s, Next(env, s, c))
  {
    if c.CallDeleteNode? || c.CallDeleteByOwner? {
      DeletionKeepsOnly(env, s, c);
    } else {
      EdgeRemovalKeepsOnly(env, s, c);
    }
  }

  lemma KeptOperationIsFormer(s: Store, s': Store, ua: Id, oa: Id, op: string)
    requires KeepsOnly(s, s') && OneAssociationPerPair(s.associations) && OneAssociationPerPair(s'.associations)
    requires Carries(DataOf(s'), ua, oa, op)
    ensures Carries(DataOf(s), ua, oa, op)
  {
    CarriesInStore(s', ua, oa, op);
    CarriesInStore(s, ua, oa, op);
    var i :| i in s'.associations && s'.associations[i].userAttributeId == ua &&
             s'.associations[i].objectAttributeId == oa && op in LoweredOps(s'.associations[i].operations);
    assert KeepsOperations(s'.associations[i], s.associations[i]);
  }

  lemma KeptEdgesAreFormer(s: Store, s': Store)
    requires KeepsOnly(s, s')
    ensures EdgesOf(s'.assignments) <= EdgesOf(s.assignments)
  {
  }

  lemma KeptIsPart(s: Store, s': Store)
    requires KeepsOnly(s, s') && OneAssociationPerPair(s.associations) && OneAssociationPerPair(s'.associations)
    ensures PartOf(DataOf(s'), DataOf(s))
  {
    KeptEdgesAreFormer(s, s');
    forall ua, oa, op | Carries(DataOf(s'), ua, oa, op) ensures Carries(DataOf(s), ua, oa, op) {
      KeptOperationIsFormer(s, s', ua, oa, op);
    }
  }

  /**
   * The exact effect of a removal on a request: where it is granted afterwards, it was granted before exactly when
   * every policy class that no longer governs the object permitted it.
   */
  lemma RemovalEffect(env: Env, s: Store, c: Call, user: Id, obj: Id, operation: string)
    requires Inv(s) && FreshId(s, c) && TakesAway(s, c)
    ensures Inv(Next(env, s, c))
    ensures var before, after := DataOf(s), DataOf(Next(env, s, c));
      Grants(after, user, obj, operation) ==>
        (Grants(before, user, obj, operation) <==>
         forall pc :: GovernsOnlyIn(before, after, obj, pc) ==> Permits(before, user, obj, Lower(operation), pc))
  {
    var s' := Next(env, s, c);
    NextKeepsInv(env, s, c);
    TakingAwayKeepsOnly(env, s, c);
    KeptIsPart(s, s');
    if Grants(DataOf(s'), user, obj, operation) {
      GrantInWhole(DataOf(s'), DataOf(s), user, obj, operation);
    }
  }

  // ---- removals on the user side ----

  predicate UserSide(d: GraphData, x: Id) {
    IsA(d, x, User) || IsA(d, x, UserAttribute)
  }

  /** All policy classes are kept, and every edge out of something else than a user or user attribute. */
  ghost predicate KeepsObjectSide(d: GraphData, whole: GraphData) {
    && (forall x :: IsA(whole, x, PolicyClass) ==> IsA(d, x, PolicyClass))
    && forall a, b :: (a, b) in whole.edges && !UserSide(whole, a) ==> (a, b) in d.edges
  }

  /** Then the same classes govern every object. */
  lemma SameGoverning(d: GraphData, whole: GraphData, obj: Id, pc: Id)
    requires PartOf(d, whole) && EdgesTyped(whole) && KeepsObjectSide(d, whole) && ObjectSide(whole, obj)
    ensures Governs(whole, obj, pc) ==> Governs(d, obj, pc)
  {
    var above := Closure(d.edges, obj);
    ClosureIsClosed(d.edges, obj);
    forall a, b | (a, b) in whole.edges && a in above ensures b in above {
      ReachesMonotone(d.edges, whole.edges, obj, a);
      ObjectSideIsClosed(whole, obj, a);
    }
    ClosedContainsReachable(whole.edges, above, obj);
  }

  /** Something granted is asked about an object or object attribute. */
  lemma GrantedIsObjectSide(d: GraphData, user: Id, obj: Id, operation: string)
    requires EdgesTyped(d) && Grants(d, user, obj, operation)
    ensures ObjectSide(d, obj)
  {
    var pc :| Governs(d, obj, pc);
    var ua, oa :| Joins(d, user, obj, Lower(operation), pc, ua, oa);
    var p :| IsPath(d.edges, p, obj, oa);
    BelowObjectAttribute(d, p, obj, oa);
  }

  /** Taking away only from the user side never turns a denial into a grant, whatever ids are asked about. */
  lemma UserSideRemovalGrantsNothing(d: GraphData, whole: GraphData, user: Id, obj: Id, operation: string)
    requires PartOf(d, whole) && EdgesTyped(whole) && EdgesTyped(d) && KeepsObjectSide(d, whole)
    requires Grants(d, user, obj, operation)
    ensures Grants(whole, user, obj, operation)
  {
    GrantedIsObjectSide(d, user, obj, operation);
    forall pc ensures !GovernsOnlyIn(whole, d, obj, pc) {
      SameGoverning(d, whole, obj, pc);
    }
    GrantInWhole(d, whole, user, obj, operation);
  }

  /** Removals that leave the object side alone: of user-side nodes and assignments, associations and operations. */
  predicate Narrowing(s: Store, c: Call) {
    && TakesAway(s, c)
    && (c.CallDeleteNode? ==> HasType(s.nodes, c.nodeId, User) || HasType(s.nodes, c.nodeId, UserAttribute))
    && (c.CallRemoveAssignment? ==> HasType(s.nodes, c.fromId, User) || HasType(s.nodes, c.fromId, UserAttribute))
    && (c.CallDeleteByOwner? ==> forall k :: k in OwnedNodes(s, c.owner) ==>
                                   HasType(s.nodes, k, User) || HasType(s.nodes, k, UserAttribute))
  }

  /** No edge leads from elsewhere to a user or user attribute. */
  lemma NoEdgeIntoUserSide(d: GraphData, a: Id, b: Id)
    requires EdgesTyped(d) && (a, b) in d.edges && !UserSide(d, a)
    ensures !UserSide(d, b)
  {
  }

  lemma DeletingUserSideKeepsObjectSide(s: Store, ids: set<Id>)
    requires OneAssociationPerPair(s.associations) && EdgesTyped(DataOf(s))
    requires OneAssociationPerPair(WithoutNodes(s, ids).associations)
    requires forall k :: k in ids ==> UserSide(DataOf(s), k)
    ensures KeepsObjectSide(DataOf(WithoutNodes(s, ids)), DataOf(s))
  {
    forall a, b | (a, b) in EdgesOf(s.assignments) && !UserSide(DataOf(s), a)
      ensures (a, b) in EdgesOf(WithoutNodes(s, ids).assignments)
    {
      NoEdgeIntoUserSide(DataOf(s), a, b);
      EdgeOutsideRemains(s, ids, a, b);
    }
  }

  lemma UnassigningKeepsObjectSide(s: Store, s': Store, f: Id)
    requires OneAssociationPerPair(s.associations) && s'.nodes == s.nodes && s'.associations == s.associations
    requires HasType(s.nodes, f, User) || HasType(s.nodes, f, UserAttribute)
    requires forall x, y :: x != f ==> ((x, y) in EdgesOf(s.assignments) <==> (x, y) in EdgesOf(s'.assignments))
    ensures KeepsObjectSide(DataOf(s'), DataOf(s))
  {
  }

  lemma WithoutUserSide(s: Store, ids: set<Id>)
    requires Inv(s) && forall k :: k in ids ==> UserSide(DataOf(s), k)
    ensures Inv(WithoutNodes(s, ids)) && KeepsObjectSide(DataOf(WithoutNodes(s, ids)), DataOf(s))
  {
    WithoutNodesKeepsInv(s, ids);
    StoreEdgesTyped(s);
    DeletingUserSideKeepsObjectSide(s, ids);
  }

  lemma DeletionKeepsObjectSide(env: Env, s: Store, c: Call, ids: set<Id>)
    requires Inv(s) && (c.CallDeleteNode? || c.CallDeleteByOwner?) && Inv(Next(env, s, c))
    requires ids == if c.CallDeleteNode? then {c.nodeId} else OwnedNodes(s, c.owner)
    requires forall k :: k in ids ==> UserSide(DataOf(s), k)
    ensures KeepsObjectSide(DataOf(Next(env, s, c)), DataOf(s))
  {
    DeletionIsWithoutNodes(env, s, c, ids);
    WithoutUserSide(s, ids);
    UnchangedKeepsObjectSide(s, s);
  }

  lemma AssociationCallKeepsNodesAndEdges(env: Env, s: Store, c: Call)
    requires c.CallRemoveAssociation? || c.CallUpdateAssociation?
    ensures Next(env, s, c).nodes == s.nodes && Next(env, s, c).assignments == s.assignments
  {
  }

  lemma NarrowingKeepsObjectSide(env: Env, s: Store, c: Call)
    requires Inv(s) && FreshId(s, c) && Narrowing(s, c)
    ensures Inv(Next(env, s, c))
    ensures KeepsObjectSide(DataOf(Next(env, s, c)), DataOf(s))
  {
    NextKeepsInv(env, s, c);
    if c.CallDeleteNode? || c.CallDeleteByOwner? {
      DeletionKeepsObjectSide(env, s, c, if c.CallDeleteNode? then {c.nodeId} else OwnedNodes(s, c.owner));
    } else {
      EdgeCallKeepsObjectSide(env, s, c);
    }
  }

  lemma EdgeCallKeepsObjectSide(env: Env, s: Store, c: Call)
    requires OneAssociationPerPair(s.associations) && OneAssociationPerPair(Next(env, s, c).associations)
    requires FreshId(s, c) && (c.CallRemoveAssignment? || c.CallRemoveAssociation? || c.CallUpdateAssociation?)
    requires c.CallRemoveAssignment? ==> HasType(s.nodes, c.fromId, User) || HasType(s.nodes, c.fromId, UserAttribute)
    ensures KeepsObjectSide(DataOf(Next(env, s, c)), DataOf(s))
  {
    if c.CallRemoveAssignment? {
      AssignmentCallTouchesOneSource(env, s, c);
      UnassigningKeepsObjectSide(s, Next(env, s, c), c.fromId);
    } else {
      AssociationCallKeepsNodesAndEdges(env, s, c);
      UnchangedKeepsObjectSide(s, Next(env, s, c));
    }
  }

  lemma UnchangedKeepsObjectSide(s: Store, s': Store)
    requires s'.nodes == s.nodes && s'.assignments == s.assignments
    requires OneAssociationPerPair(s.associations) && OneAssociationPerPair(s'.associations)
    ensures KeepsObjectSide(DataOf(s'), DataOf(s))
  {
  }

  /** One such call turns no denial into a grant. */
  lemma NarrowingGrantsNothing(env: Env, s: Store, c: Call, user: Id, obj: Id, operation: string)
    requires Inv(s) && FreshId(s, c) && Narrowing(s, c)
    ensures Inv(Next(env, s, c))
    ensures Grants(DataOf(Next(env, s, c)), user, obj, operation) ==> Grants(DataOf(s), user, obj, operation)
  {
    var s' := Next(env, s, c);
    NarrowingKeepsObjectSide(env, s, c);
    TakingAwayKeepsOnly(env, s, c);
    KeptIsPart(s, s');
    StoreEdgesTyped(s);
    StoreEdgesTyped(s');
    if Grants(DataOf(s'), user, obj, operation) {
      UserSideRemovalGrantsNothing(DataOf(s'), DataOf(s), user, obj, operation);
    }
  }

  ghost predicate AllNarrowing(env: Env, s: Store, calls: seq<Call>)
    decreases |calls|
  {
    calls != [] ==> Narrowing(s, calls[0]) && AllNarrowing(env, Next(env, s, calls[0]), calls[1..])
  }

  /** Nor does any sequence of them. */
  lemma {:induction false} NarrowingRunGrantsNothing(env: Env, s: Store, calls: seq<Call>, user: Id, obj: Id,
                                                     operation: string)
    requires Inv(s) && FreshIds(env, s, calls) && AllNarrowing(env, s, calls)
    ensures Inv(Run(env, s, calls))
    ensures Grants(DataOf(Run(env, s, calls)), user, obj, operation) ==> Grants(DataOf(s), user, obj, operation)
    decreases |calls|
  {
    if calls != [] {
      NarrowingGrantsNothing(env, s, calls[0], user, obj, operation);
      NarrowingRunGrantsNothing(env, Next(env, s, calls[0]), calls[1..], user, obj, operation);
    }
  }
}
