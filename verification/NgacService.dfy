/** The NGAC repository over its three collections and the service calls that edit and query it. */
module NgacService {
  import opened Common
  import opened Graphs
  import opened NgacModel
  import opened NgacGraph
  import S = NgacStore

  /** Every document of a collection is in the list, and nothing else is. */
  ghost predicate Lists<T>(list: seq<T>, docs: map<Id, T>) {
    && (forall d :: d in list ==> exists k :: k in docs && docs[k] == d)
    && forall k :: k in docs ==> docs[k] in list
  }

  method ToList<T>(docs: map<Id, T>) returns (list: seq<T>)
    ensures Lists(list, docs)
  {
    list := [];
    var todo := docs.Keys;
    while todo != {}
      invariant todo <= docs.Keys
      invariant forall d :: d in list ==> exists k :: k in docs && docs[k] == d
      invariant forall k :: k in docs && k !in todo ==> docs[k] in list
      decreases todo
    {
      var k :| k in todo;
      todo := todo - {k};
      list := list + [docs[k]];
    }
  }

  lemma {:induction false} NodeIndexEntries(ns: seq<Node>)
    ensures forall k :: k in NodeIndex(ns) ==> NodeIndex(ns)[k] in ns && NodeIndex(ns)[k].nodeId == k
    ensures forall n :: n in ns ==> n.nodeId in NodeIndex(ns)
  {
    if ns != [] {
      NodeIndexEntries(ns[..|ns| - 1]);
      assert ns == ns[..|ns| - 1] + [ns[|ns| - 1]];
    }
  }

  lemma {:induction false} AssocIndexEntries(ss: seq<Association>)
    ensures forall p :: p in AssocIndex(ss) ==>
      exists a :: a in ss && p == (a.userAttributeId, a.objectAttributeId) &&
        AssocIndex(ss)[p] == LoweredOps(a.operations)
    ensures forall a :: a in ss ==> (a.userAttributeId, a.objectAttributeId) in AssocIndex(ss)
  {
    if ss != [] {
      var last := ss[|ss| - 1];
      AssocIndexEntries(ss[..|ss| - 1]);
      assert ss == ss[..|ss| - 1] + [last];
      assert last in ss;
    }
  }

  /** Building a graph from any listing of a valid store gives the store's own graph: no document hides another. */
  lemma ListedGraph(s: S.Store, ns: seq<Node>, ass: seq<Assignment>, ss: seq<Association>)
    requires S.NodesKeyedById(s.nodes) && S.OneAssociationPerPair(s.associations)
    requires Lists(ns, s.nodes) && Lists(ass, s.assignments) && Lists(ss, s.associations)
    ensures GraphOf(ns, ass, ss) == S.DataOf(s)
  {
    NodeIndexEntries(ns);
    AssocIndexEntries(ss);
    var index, own := NodeIndex(ns), s.nodes;
    assert index == own by {
      forall k | k in index ensures k in own && own[k] == index[k] {
        var l :| l in own && own[l] == index[k];
      }
      forall k | k in own ensures k in index {
        assert own[k] in ns;
      }
    }
    ListedEdges(s.assignments, ass);
    ListedAssociations(s, ss);
  }

  lemma ListedEdges(assignments: map<Id, Assignment>, ass: seq<Assignment>)
    requires Lists(ass, assignments)
    ensures EdgePairs(ass) == S.EdgesOf(assignments)
  {
    forall e | e in EdgePairs(ass) ensures e in S.EdgesOf(assignments) {
      var a :| a in ass && e == (a.fromId, a.toId);
      var k :| k in assignments && assignments[k] == a;
    }
    forall e | e in S.EdgesOf(assignments) ensures e in EdgePairs(ass) {
      var i :| i in assignments && e == (assignments[i].fromId, assignments[i].toId);
      assert assignments[i] in ass;
    }
  }

  lemma ListedAssociations(s: S.Store, ss: seq<Association>)
    requires S.OneAssociationPerPair(s.associations) && Lists(ss, s.associations)
    ensures AssocIndex(ss) == S.DataOf(s).assoc
  {
    var index, own := AssocIndex(ss), S.DataOf(s).assoc;
    forall p | p in index ensures p in own && own[p] == index[p] {
      IndexedIsStored(s, ss, p);
    }
    forall p | p in own ensures p in index {
      StoredIsIndexed(s, ss, p);
    }
  }

  lemma IndexedIsStored(s: S.Store, ss: seq<Association>, p: (Id, Id))
    requires S.OneAssociationPerPair(s.associations) && Lists(ss, s.associations) && p in AssocIndex(ss)
    ensures p in S.DataOf(s).assoc && S.DataOf(s).assoc[p] == AssocIndex(ss)[p]
  {
    AssocIndexEntries(ss);
    var a :| a in ss && p == (a.userAttributeId, a.objectAttributeId) && AssocIndex(ss)[p] == LoweredOps(a.operations);
    var i :| i in s.associations && s.associations[i] == a;
  }

  lemma StoredIsIndexed(s: S.Store, ss: seq<Association>, p: (Id, Id))
    requires S.OneAssociationPerPair(s.associations) && Lists(ss, s.associations) && p in S.DataOf(s).assoc
    ensures p in AssocIndex(ss)
  {
    AssocIndexEntries(ss);
    var i :| i in s.associations && p == (s.associations[i].userAttributeId, s.associations[i].objectAttributeId);
    assert s.associations[i] in ss;
  }

  /** The cascade of one deletion, collection by collection. */
  lemma CascadeIsWithoutNode(s: S.Store, nodeId: Id)
    ensures S.WithoutNodes(s, {nodeId}) ==
            S.Store(
              map k | k in s.nodes && k != nodeId :: s.nodes[k],
              map i | i in s.assignments && !(s.assignments[i].fromId == nodeId || s.assignments[i].toId == nodeId)
                :: s.assignments[i],
              map i | i in s.associations &&
                !(s.associations[i].userAttributeId == nodeId || s.associations[i].objectAttributeId == nodeId)
                :: s.associations[i])
  {
    var without := S.WithoutNodes(s, {nodeId});
    assert without.nodes == map k | k in s.nodes && k != nodeId :: s.nodes[k];
  }

  class NGACRepository {
    var nodes: map<Id, Node>
    var assignments: map<Id, Assignment>
    var associations: map<Id, Association>

    ghost function State(): S.Store
      reads this
    {
      S.Store(nodes, assignments, associations)
    }

    constructor ()
      ensures State() == S.EMPTY_STORE
    {
      nodes, assignments, associations := map[], map[], map[];
    }

    method CreateNode(node: Node) returns (r: Result<Id>)
      modifies `nodes
      ensures (State(), r) == S.InsertNode(old(State()), node)
    {
      if node.nodeId in nodes {
        return Err(AlreadyExistsError);
      }
      if Truthy(node.userId) {
        if exists k :: k in nodes && nodes[k].userId == node.userId {
          return Err(AlreadyExistsError);
        }
      }
      if Truthy(node.resourceId) {
        if exists k :: k in nodes && nodes[k].resourceId == node.resourceId {
          return Err(AlreadyExistsError);
        }
      }
      nodes := nodes[node.nodeId := node];
      return Ok(node.nodeId);
    }

    method UpdateNode(node: Node) returns (r: Result<bool>)
      modifies `nodes
      ensures (State(), r) == S.ReplaceNode(old(State()), node)
    {
      if Truthy(node.userId) {
        if exists k :: k in nodes && k != node.nodeId && nodes[k].userId == node.userId {
          return Err(AlreadyExistsError);
        }
      }
      if Truthy(node.resourceId) {
        if exists k :: k in nodes && k != node.nodeId && nodes[k].resourceId == node.resourceId {
          return Err(AlreadyExistsError);
        }
      }
      if node.nodeId !in nodes {
        return Err(NotFoundError);
      }
      nodes := nodes[node.nodeId := node];
      return Ok(true);
    }

    /** delete_one on the nodes, then the two cascading delete_many. */
    method DeleteNode(nodeId: Id) returns (r: Result<bool>)
      modifies this
      ensures (State(), r) == S.RemoveNode(old(State()), nodeId)
    {
      if nodeId !in nodes {
        return Err(NotFoundError);
      }
      ghost var before := State();
      nodes := map k | k in nodes && k != nodeId :: nodes[k];
      assignments := map i | i in assignments &&
        !(assignments[i].fromId == nodeId || assignments[i].toId == nodeId) :: assignments[i];
      associations := map i | i in associations &&
        !(associations[i].userAttributeId == nodeId || associations[i].objectAttributeId == nodeId)
        :: associations[i];
      CascadeIsWithoutNode(before, nodeId);
      assert State() == S.WithoutNodes(before, {nodeId});
      return Ok(true);
    }

    method DeleteNodesByOwner(ownerId: string) returns (r: Result<nat>)
      modifies this
      ensures (State(), r) == S.RemoveNodesByOwner(old(State()), ownerId)
    {
      var nodeIds := set k | k in nodes && nodes[k].ownerId == ownerId;
      assert nodeIds == S.OwnedNodes(old(State()), ownerId);
      if nodeIds == {} {
        assert State() == S.WithoutNodes(old(State()), {});
        return Ok(0);
      }
      nodes := map k | k in nodes && k !in nodeIds :: nodes[k];
      assignments := map i | i in assignments && !S.TouchesAssignment(assignments[i], nodeIds) :: assignments[i];
      associations := map i | i in associations && !S.TouchesAssociation(associations[i], nodeIds) :: associations[i];
      return Ok(|nodeIds|);
    }

    method CreateAssignment(newId: Id, a: Assignment) returns (r: Result<Id>)
      modifies `assignments
      ensures (State(), r) == S.InsertAssignment(old(State()), newId, a)
    {
      if exists i :: i in assignments && S.IsPair(assignments[i], a.fromId, a.toId) {
        return Ok(newId);
      }
      assignments := assignments[newId := a];
      return Ok(newId);
    }

    /** find_one by pair. */
    method FindAssignment(fromId: Id, toId: Id) returns (found: Option<Id>)
      ensures found.None? <==> !S.Assigned(State(), fromId, toId)
      ensures found.Some? ==> found.value in assignments && S.IsPair(assignments[found.value], fromId, toId)
    {
      if i :| i in assignments && S.IsPair(assignments[i], fromId, toId) {
        return Some(i);
      }
      return None;
    }

    /** delete_one by pair: with one document per pair, all of them. */
    method RemoveAssignment(fromId: Id, toId: Id) returns (r: Result<bool>)
      requires S.OneAssignmentPerPair(assignments)
      modifies `assignments
      ensures State() == S.DropAssignment(old(State()), fromId, toId)
      ensures r == if S.Assigned(old(State()), fromId, toId) then Ok(true) else Err(NotFoundError)
    {
      var found := FindAssignment(fromId, toId);
      if found.None? {
        assert assignments == S.DropAssignment(State(), fromId, toId).assignments;
        return Err(NotFoundError);
      }
      assert S.DropAssignment(State(), fromId, toId).assignments == assignments - {found.value};
      assignments := assignments - {found.value};
      return Ok(true);
    }

    method CreateAssociation(newId: Id, a: Association) returns (r: Result<Id>)
      modifies `associations
      ensures (State(), r) == S.InsertAssociation(old(State()), newId, a)
    {
      if exists i :: i in associations && associations[i].userAttributeId == a.userAttributeId &&
                     associations[i].objectAttributeId == a.objectAttributeId {
        return Err(AlreadyExistsError);
      }
      associations := associations[newId := a];
      return Ok(newId);
    }

    method LoadGraphData() returns (ns: seq<Node>, ass: seq<Assignment>, ss: seq<Association>)
      ensures Lists(ns, nodes) && Lists(ass, assignments) && Lists(ss, associations)
    {
      ns := ToList(nodes);
      ass := ToList(assignments);
      ss := ToList(associations);
    }
  }

  class NGACService {
    const repo: NGACRepository
    const env: S.Env

    constructor (repo: NGACRepository, env: S.Env)
      ensures this.repo == repo && this.env == env
    {
      this.repo, this.env := repo, env;
    }

    method CreateNode(newId: Id, nodeType: NodeType, name: string, properties: map<string, string>, ownerId: string,
                      userId: Option<string>, userIdentifier: Option<string>, resourceId: Option<string>)
      returns (r: Result<Id>)
      modifies repo
      ensures (repo.State(), r) ==
              S.CreateNode(env, old(repo.State()), newId, nodeType, name, properties, ownerId, userId,
                           userIdentifier, resourceId)
    {
      var boundUser := userId;
      if (Truthy(userId) || Truthy(userIdentifier)) && nodeType != User {
        return Err(ValidationError);
      }
      if Truthy(resourceId) && nodeType != Object {
        return Err(ValidationError);
      }
      if Truthy(userIdentifier) || Truthy(userId) {
        var resolved := env.resolve(if Truthy(userIdentifier) then userIdentifier.value else userId.value);
        if resolved.Err? {
          return Err(resolved.error);
        }
        boundUser := Some(resolved.value);
      }
      if Truthy(resourceId) && !env.hasPolicy(resourceId.value) {
        return Err(NotFoundError);
      }
      r := repo.CreateNode(Node(newId, nodeType, name, properties, ownerId, boundUser, resourceId));
    }

    /** The field-by-field edit of update_node, before anything is saved. */
    method EditedNode(original: Node, name: Option<string>, properties: Option<map<string, string>>,
                      userId: Option<string>,
                      userIdentifier: Option<string>, bindingSet: Option<bool>, resourceId: Option<string>)
      returns (r: Result<Node>)
      ensures r == S.UpdatedNode(env, original, name, properties, userId, userIdentifier, bindingSet, resourceId)
    {
      var node := original;
      if name.Some? {
        var normalized := Strip(name.value);
        if normalized == "" {
          return Err(ValidationError);
        }
        node := node.(name := normalized);
      }
      if properties.Some? {
        node := node.(properties := properties.value);
      }
      var rebind := if bindingSet.Some? then bindingSet.value else userId.Some? || userIdentifier.Some?;
      if rebind {
        if node.nodeType != User {
          return Err(ValidationError);
        }
        var identifier := if userIdentifier.Some? then userIdentifier else userId;
        if Truthy(identifier) {
          var resolved := env.resolve(identifier.value);
          if resolved.Err? {
            return Err(resolved.error);
          }
          node := node.(userId := Some(resolved.value));
        } else {
          node := node.(userId := None);
        }
      }
      if resourceId.Some? {
        if node.nodeType != Object {
          return Err(ValidationError);
        }
        if resourceId.value != "" && !env.hasPolicy(resourceId.value) {
          return Err(NotFoundError);
        }
        node := node.(resourceId := if resourceId.value != "" then resourceId else None);
      }
      return Ok(node);
    }

    method UpdateNode(nodeId: Id, name: Option<string>, properties: Option<map<string, string>>, userId: Option<string>,
                      userIdentifier: Option<string>, bindingSet: Option<bool>, resourceId: Option<string>,
                      requester: string, isAdmin: bool)
      returns (r: Result<Node>)
      modifies repo
      ensures (repo.State(), r) ==
              S.UpdateNode(env, old(repo.State()), nodeId, name, properties, userId, userIdentifier, bindingSet,
                           resourceId, requester, isAdmin)
    {
      if nodeId !in repo.nodes {
        return Err(NotFoundError);
      }
      var node := repo.nodes[nodeId];
      if !isAdmin && !S.Owns(requester, node.ownerId) {
        return Err(AccessDeniedError);
      }
      var edited := EditedNode(node, name, properties, userId, userIdentifier, bindingSet, resourceId);
      r := SaveNode(edited);
    }

    method SaveNode(edited: Result<Node>) returns (r: Result<Node>)
      modifies repo
      ensures (repo.State(), r) == S.SaveNode(old(repo.State()), edited)
    {
      if edited.Err? {
        return Err(edited.error);
      }
      var saved := repo.UpdateNode(edited.value);
      if saved.Err? {
        return Err(saved.error);
      }
      return Ok(edited.value);
    }

    method DeleteNode(nodeId: Id, requester: string, isAdmin: bool) returns (r: Result<bool>)
      modifies repo
      ensures (repo.State(), r) == S.DeleteNode(old(repo.State()), nodeId, requester, isAdmin)
    {
      if nodeId !in repo.nodes {
        return Err(NotFoundError);
      }
      if !isAdmin && !S.Owns(requester, repo.nodes[nodeId].ownerId) {
        return Err(AccessDeniedError);
      }
      r := repo.DeleteNode(nodeId);
    }

    method DeletionImpact(nodeId: Id) returns (r: Result<S.Impact>)
      ensures r == S.DeletionImpact(repo.State(), nodeId)
    {
      if !(exists k :: k in repo.nodes && k == nodeId) {
        return Err(NotFoundError);
      }
      var assignments := map i | i in repo.assignments &&
          (nodeId == repo.assignments[i].fromId || nodeId == repo.assignments[i].toId)
        :: repo.assignments[i];
      var associations := map i | i in repo.associations &&
        (nodeId == repo.associations[i].userAttributeId || nodeId == repo.associations[i].objectAttributeId)
        :: repo.associations[i];
      assert assignments == S.DeletionImpact(repo.State(), nodeId).value.assignments;
      assert associations == S.DeletionImpact(repo.State(), nodeId).value.associations;
      return Ok(S.Impact(assignments, associations));
    }

    /** Rejects an edge whose head already reaches its tail, by a closure over a graph loaded from the store. */
    method Assign(newId: Id, fromId: Id, toId: Id, ownerId: string, isAdmin: bool) returns (r: Result<Id>)
      modifies repo
      ensures (repo.State(), r) == S.Assign(old(repo.State()), newId, fromId, toId, ownerId, isAdmin)
    {
      if fromId !in repo.nodes || toId !in repo.nodes {
        return Err(NotFoundError);
      }
      if !ValidTarget(repo.nodes[fromId].nodeType, repo.nodes[toId].nodeType) {
        return Err(ValidationError);
      }
      if !isAdmin && !S.Owns(ownerId, repo.nodes[toId].ownerId) {
        return Err(AccessDeniedError);
      }
      var ns, ass, ss := repo.LoadGraphData();
      ListedEdges(repo.assignments, ass);
      var graph := new NGACGraph(ns, ass, ss);
      assert graph.Data().edges == graph.EdgeSet();
      var above := graph.UpwardClosure(toId);
      if fromId in above {
        return Err(ConflictError);
      }
      r := repo.CreateAssignment(newId, Assignment(fromId, toId, ownerId));
    }

    method RemoveAssignment(fromId: Id, toId: Id, requester: string, isAdmin: bool) returns (r: Result<bool>)
      requires S.OneAssignmentPerPair(repo.assignments)
      modifies repo
      ensures (repo.State(), r) == S.RemoveAssignment(old(repo.State()), fromId, toId, requester, isAdmin)
    {
      var found := repo.FindAssignment(fromId, toId);
      if found.None? {
        return Err(NotFoundError);
      }
      if !isAdmin && !S.Owns(requester, repo.assignments[found.value].ownerId) {
        return Err(AccessDeniedError);
      }
      r := repo.RemoveAssignment(fromId, toId);
    }

    method NormalizedOps(operations: seq<string>) returns (ops: seq<string>)
      ensures ops == S.NormalizeOps(operations)
    {
      ops := [];
      for i := 0 to |operations|
        invariant ops == S.NormalizeOps(operations[..i])
      {
        assert operations[..i + 1][..i] == operations[..i];
        var op := Lower(Strip(operations[i]));
        if Strip(operations[i]) != "" && op !in ops {
          ops := ops + [op];
        }
      }
      assert operations[..|operations|] == operations;
    }

    method Associate(newId: Id, ua: Id, oa: Id, operations: seq<string>, ownerId: string,
                     isAdmin: bool) returns (r: Result<Id>)
      modifies repo
      ensures (repo.State(), r) == S.Associate(old(repo.State()), newId, ua, oa, operations, ownerId, isAdmin)
    {
      if ua !in repo.nodes || oa !in repo.nodes {
        return Err(NotFoundError);
      }
      if repo.nodes[ua].nodeType != UserAttribute {
        return Err(ValidationError);
      }
      if repo.nodes[oa].nodeType != ObjectAttribute {
        return Err(ValidationError);
      }
      if !isAdmin && !S.Owns(ownerId, repo.nodes[ua].ownerId) {
        return Err(AccessDeniedError);
      }
      var ops := NormalizedOps(operations);
      if ops == [] {
        return Err(ValidationError);
      }
      r := repo.CreateAssociation(newId, Association(ua, oa, ops, ownerId));
    }

    method UpdateAssociation(id: Id, operations: seq<string>, requester: string,
                             isAdmin: bool) returns (r: Result<Association>)
      modifies repo
      ensures (repo.State(), r) == S.UpdateAssociation(old(repo.State()), id, operations, requester, isAdmin)
    {
      if id !in repo.associations {
        return Err(NotFoundError);
      }
      var association := repo.associations[id];
      if !isAdmin && !S.Owns(requester, association.ownerId) {
        return Err(AccessDeniedError);
      }
      var ops := NormalizedOps(operations);
      if ops == [] {
        return Err(ValidationError);
      }
      association := association.(operations := ops);
      repo.associations := repo.associations[id := association];
      return Ok(association);
    }

    method RemoveAssociation(id: Id, requester: string, isAdmin: bool) returns (r: Result<bool>)
      modifies repo
      ensures (repo.State(), r) == S.RemoveAssociation(old(repo.State()), id, requester, isAdmin)
    {
      if id !in repo.associations {
        return Err(NotFoundError);
      }
      if !isAdmin && !S.Owns(requester, repo.associations[id].ownerId) {
        return Err(AccessDeniedError);
      }
      repo.associations := repo.associations - {id};
      return Ok(true);
    }

    /** One access decision over a valid store is the AND rule on the store's own graph. */
    method CheckAccess(userId: Id, objectId: Id, operation: string) returns (allowed: bool, reason: Reason)
      requires S.Inv(repo.State())
      ensures allowed <==> Grants(S.DataOf(repo.State()), userId, objectId, operation)
      ensures ReasonFits(S.DataOf(repo.State()), userId, objectId, operation, reason)
    {
      var ns, ass, ss := repo.LoadGraphData();
      ListedGraph(repo.State(), ns, ass, ss);
      var graph := new NGACGraph(ns, ass, ss);
      allowed, reason := graph.Check(userId, objectId, operation);
    }

    method CheckAccessDetailed(userId: Id, objectId: Id, operation: string) returns (r: Explanation)
      requires S.Inv(repo.State())
      ensures IsExplanation(S.DataOf(repo.State()), userId, objectId, operation, r)
    {
      var ns, ass, ss := repo.LoadGraphData();
      ListedGraph(repo.State(), ns, ass, ss);
      var graph := new NGACGraph(ns, ass, ss);
      r := graph.Explain(userId, objectId, operation);
    }
  }
}
