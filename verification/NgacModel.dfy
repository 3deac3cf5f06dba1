/** NGAC entities and the access rule, stated on a policy graph without reference to any algorithm. */
module NgacModel {
  import opened Common
  import opened Graphs

  datatype NodeType = User | Object | UserAttribute | ObjectAttribute | PolicyClass

  /** VALID_ASSIGNMENT_TARGETS: which node types a given type can be assigned into. */
  predicate ValidTarget(child: NodeType, parent: NodeType) {
    match child
    case User => parent == UserAttribute
    case Object => parent == ObjectAttribute
    case UserAttribute => parent == UserAttribute || parent == PolicyClass
    case ObjectAttribute => parent == ObjectAttribute || parent == PolicyClass
    case PolicyClass => false
  }

  datatype Node = Node(
    nodeId: Id,
    nodeType: NodeType,
    name: string,
    properties: map<string, string>,
    ownerId: string,
    userId: Option<string>,
    resourceId: Option<string>)

  /** A directed edge from child to parent. */
  datatype Assignment = Assignment(fromId: Id, toId: Id, ownerId: string)

  datatype Association = Association(
    userAttributeId: Id,
    objectAttributeId: Id,
    operations: seq<string>,
    ownerId: string)

  /** The graph one access decision is taken on. */
  datatype GraphData = GraphData(
    nodes: map<Id, Node>,
    edges: Edges,
    assoc: map<(Id, Id), set<string>>)

  predicate IsA(d: GraphData, x: Id, t: NodeType) {
    x in d.nodes && d.nodes[x].nodeType == t
  }

  predicate Carries(d: GraphData, ua: Id, oa: Id, op: string) {
    (ua, oa) in d.assoc && op in d.assoc[(ua, oa)]
  }

  // ---- the AND rule ----

  ghost predicate Governs(d: GraphData, obj: Id, pc: Id) {
    Reaches(d.edges, obj, pc) && IsA(d, pc, PolicyClass)
  }

  /** x is an attribute of type t above start that itself lies under the policy class pc. */
  ghost predicate Under(d: GraphData, start: Id, t: NodeType, pc: Id, x: Id) {
    Reaches(d.edges, start, x) && IsA(d, x, t) && Reaches(d.edges, x, pc)
  }

  ghost predicate Joins(d: GraphData, user: Id, obj: Id, op: string, pc: Id, ua: Id, oa: Id) {
    && Under(d, user, UserAttribute, pc, ua)
    && Under(d, obj, ObjectAttribute, pc, oa)
    && Carries(d, ua, oa, op)
  }

  ghost predicate Permits(d: GraphData, user: Id, obj: Id, op: string, pc: Id) {
    exists ua, oa :: Joins(d, user, obj, op, pc, ua, oa)
  }

  /** Some policy class governs the obj, and every one that does permits the operation. */
  ghost predicate Grants(d: GraphData, user: Id, obj: Id, operation: string) {
    && (exists pc :: Governs(d, obj, pc))
    && forall pc :: Governs(d, obj, pc) ==> Permits(d, user, obj, Lower(operation), pc)
  }

  // ---- what a list of documents becomes in the constructor of the graph ----

  function LoweredOps(ops: seq<string>): set<string> {
    set o | o in ops :: Lower(o)
  }

  /** Later entries replace earlier ones with the same key, as in a Python dictionary. */
  function NodeIndex(ns: seq<Node>): map<Id, Node> {
    if ns == [] then map[]
    else NodeIndex(ns[..|ns| - 1])[ns[|ns| - 1].nodeId := ns[|ns| - 1]]
  }

  function AssocIndex(ss: seq<Association>): map<(Id, Id), set<string>> {
    if ss == [] then map[]
    else
      var a := ss[|ss| - 1];
      AssocIndex(ss[..|ss| - 1])[(a.userAttributeId, a.objectAttributeId) := LoweredOps(a.operations)]
  }

  function EdgePairs(ass: seq<Assignment>): Edges {
    set a | a in ass :: (a.fromId, a.toId)
  }

  function GraphOf(ns: seq<Node>, ass: seq<Assignment>, ss: seq<Association>): GraphData {
    GraphData(NodeIndex(ns), EdgePairs(ass), AssocIndex(ss))
  }
}
