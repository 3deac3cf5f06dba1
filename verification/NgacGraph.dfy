/** The in-memory policy graph of one request: memoised breadth-first closures, check and explain. */
module NgacGraph {
  import opened Common
  import opened Graphs
  import opened NgacModel

  datatype Reason = NotGoverned | DeniedBy(policyClassName: string) | AccessGranted

  datatype Match = Match(userAttributeId: Id, objectAttributeId: Id, operation: string)

  datatype ClassRow = ClassRow(policyClassId: Id, name: string, userNodes: seq<Id>, objectNodes: seq<Id>)

  datatype Explanation = Explanation(
    allowed: bool,
    reason: Reason,
    governing: seq<(Id, string)>,
    successful: seq<ClassRow>,
    failed: seq<ClassRow>,
    associations: seq<Match>)

  /** The reason given is the right one; a denial names a governing class that does not permit the operation. */
  ghost predicate ReasonFits(d: GraphData, user: Id, obj: Id, operation: string, reason: Reason) {
    match reason
    case NotGoverned => forall pc :: !Governs(d, obj, pc)
    case AccessGranted => Grants(d, user, obj, operation)
    case DeniedBy(name) =>
      exists pc :: Governs(d, obj, pc) && !Permits(d, user, obj, Lower(operation), pc) && name == d.nodes[pc].name
  }

  ghost predicate NoDuplicates<T>(s: seq<T>) {
    forall i, j :: 0 <= i < j < |s| ==> s[i] != s[j]
  }

  ghost function GoverningSet(d: GraphData, obj: Id): set<Id> {
    set pc | pc in d.nodes && Governs(d, obj, pc)
  }

  /** The classes of pcs, in order, whose verdict is the wanted one. */
  ghost function WithVerdict(d: GraphData, user: Id, obj: Id, op: string, pcs: seq<Id>, want: bool): seq<Id> {
    if pcs == [] then []
    else
      var last := pcs[|pcs| - 1];
      WithVerdict(d, user, obj, op, pcs[..|pcs| - 1], want) +
      (if Permits(d, user, obj, op, last) == want then [last] else [])
  }

  function RowIds(rows: seq<ClassRow>): seq<Id> {
    seq(|rows|, i requires 0 <= i < |rows| => rows[i].policyClassId)
  }

  function Fst(pairs: seq<(Id, string)>): seq<Id> {
    seq(|pairs|, i requires 0 <= i < |pairs| => pairs[i].0)
  }

  ghost predicate RowIsRight(d: GraphData, user: Id, obj: Id, row: ClassRow) {
    && NoDuplicates(row.userNodes) && NoDuplicates(row.objectNodes)
    && (forall x :: x in row.userNodes <==> Under(d, user, UserAttribute, row.policyClassId, x))
    && (forall x :: x in row.objectNodes <==> Under(d, obj, ObjectAttribute, row.policyClassId, x))
  }

  /** No class of the list has the other verdict exactly when nothing is selected for it. */
  lemma {:induction false} WithVerdictMembers(d: GraphData, user: Id, obj: Id, op: string, pcs: seq<Id>, want: bool)
    ensures forall pc :: pc in WithVerdict(d, user, obj, op, pcs, want) <==>
                         pc in pcs && Permits(d, user, obj, op, pc) == want
  {
    if pcs != [] {
      WithVerdictMembers(d, user, obj, op, pcs[..|pcs| - 1], want);
      assert pcs == pcs[..|pcs| - 1] + [pcs[|pcs| - 1]];
    }
  }

  ghost predicate JoinsAs(d: GraphData, user: Id, obj: Id, op: string, pc: Id, m: Match) {
    m.operation == op && Joins(d, user, obj, op, pc, m.userAttributeId, m.objectAttributeId)
  }

  ghost predicate JoinedBySome(d: GraphData, user: Id, obj: Id, op: string, pcs: seq<Id>, m: Match) {
    exists pc :: pc in pcs && JoinsAs(d, user, obj, op, pc, m)
  }

  lemma JoinedBySomeAppend(d: GraphData, user: Id, obj: Id, op: string, pcs: seq<Id>, last: Id)
    ensures forall m :: JoinedBySome(d, user, obj, op, pcs + [last], m) <==>
                        JoinedBySome(d, user, obj, op, pcs, m) || JoinsAs(d, user, obj, op, last, m)
  {
    forall m | JoinedBySome(d, user, obj, op, pcs, m) || JoinsAs(d, user, obj, op, last, m)
      ensures JoinedBySome(d, user, obj, op, pcs + [last], m)
    {
      var pc :| (pc in pcs || pc == last) && JoinsAs(d, user, obj, op, pc, m);
      assert pc in pcs + [last];
    }
  }

  /** The lists of an explanation after the classes pcs have been looked at. */
  ghost predicate Explains(d: GraphData, user: Id, obj: Id, op: string, pcs: seq<Id>, r: Explanation) {
    && Fst(r.governing) == pcs
    && (forall g :: g in r.governing ==> g.0 in d.nodes && g.1 == d.nodes[g.0].name)
    && RowIds(r.successful) == WithVerdict(d, user, obj, op, pcs, true)
    && RowIds(r.failed) == WithVerdict(d, user, obj, op, pcs, false)
    && (forall row :: row in r.successful || row in r.failed ==> RowIsRight(d, user, obj, row))
    && forall m :: m in r.associations <==> JoinedBySome(d, user, obj, op, pcs, m)
  }

  /** One round of the loop in explain: append the class to the lists it belongs to. */
  function AddClass(r: Explanation, row: ClassRow, matches: seq<Match>): Explanation {
    var listed := r.(governing := r.governing + [(row.policyClassId, row.name)]);
    if matches != [] then
      listed.(successful := r.successful + [row], associations := r.associations + matches)
    else
      listed.(failed := r.failed + [row])
  }

  lemma ExplainsStep(d: GraphData, user: Id, obj: Id, op: string, pcs: seq<Id>, i: nat,
                     r: Explanation, row: ClassRow, matches: seq<Match>)
    requires i < |pcs| && pcs[i] in d.nodes && Explains(d, user, obj, op, pcs[..i], r)
    requires row.policyClassId == pcs[i] && row.name == d.nodes[pcs[i]].name && RowIsRight(d, user, obj, row)
    requires matches != [] <==> Permits(d, user, obj, op, pcs[i])
    requires forall m :: m in matches <==> JoinsAs(d, user, obj, op, pcs[i], m)
    ensures Explains(d, user, obj, op, pcs[..i + 1], AddClass(r, row, matches))
  {
    assert pcs[..i + 1] == pcs[..i] + [pcs[i]];
    assert pcs[..i + 1][..i] == pcs[..i];
    JoinedBySomeAppend(d, user, obj, op, pcs[..i], pcs[i]);
    assert Fst(r.governing + [(pcs[i], row.name)]) == Fst(r.governing) + [pcs[i]];
    assert RowIds(r.successful + [row]) == RowIds(r.successful) + [pcs[i]];
    assert RowIds(r.failed + [row]) == RowIds(r.failed) + [pcs[i]];
  }

  /** Access is granted exactly when some class governs and none of them fails. */
  lemma VerdictDecides(d: GraphData, user: Id, obj: Id, operation: string, pcs: seq<Id>)
    requires forall pc :: pc in pcs <==> Governs(d, obj, pc)
    ensures Grants(d, user, obj, operation) <==>
            pcs != [] && WithVerdict(d, user, obj, Lower(operation), pcs, false) == []
  {
    var failing := WithVerdict(d, user, obj, Lower(operation), pcs, false);
    WithVerdictMembers(d, user, obj, Lower(operation), pcs, false);
    if pcs != [] {
      assert pcs[0] in pcs;
    }
    if failing != [] {
      assert failing[0] in failing;
    }
  }

  /**
   * What explain promises: it allows exactly when the AND rule does, which is when some class governs and none failed;
   * the governing classes are listed once each in order and split in order into those that permit and those that do
   * not; each row lists the attributes on both sides; and the associations are exactly the joining ones of governing
   * classes.
   */
  ghost predicate IsExplanation(d: GraphData, user: Id, obj: Id, operation: string, r: Explanation) {
    var op := Lower(operation);
    && (r.allowed <==> Grants(d, user, obj, operation))
    && ReasonFits(d, user, obj, operation, r.reason)
    && (r.allowed <==> r.governing != [] && r.failed == [])
    && IsSortedListOf(Fst(r.governing), GoverningSet(d, obj))
    && (forall g :: g in r.governing ==> g.0 in d.nodes && g.1 == d.nodes[g.0].name)
    && RowIds(r.successful) == WithVerdict(d, user, obj, op, Fst(r.governing), true)
    && RowIds(r.failed) == WithVerdict(d, user, obj, op, Fst(r.governing), false)
    && (forall row :: row in r.successful || row in r.failed ==> RowIsRight(d, user, obj, row))
    && forall m :: m in r.associations <==> exists pc :: Governs(d, obj, pc) && JoinsAs(d, user, obj, op, pc, m)
  }

  lemma ExplainsAll(d: GraphData, user: Id, obj: Id, operation: string, pcs: seq<Id>, r: Explanation)
    requires (r.allowed <==> Grants(d, user, obj, operation)) && ReasonFits(d, user, obj, operation, r.reason)
    requires IsSortedListOf(pcs, GoverningSet(d, obj))
    requires Explains(d, user, obj, Lower(operation), pcs, r)
    ensures IsExplanation(d, user, obj, operation, r)
  {
    assert forall pc :: pc in pcs <==> Governs(d, obj, pc);
    VerdictDecides(d, user, obj, operation, pcs);
    assert |RowIds(r.failed)| == |r.failed| && |Fst(r.governing)| == |r.governing|;
    var op := Lower(operation);
    assert forall m :: JoinedBySome(d, user, obj, op, pcs, m) <==>
                       exists pc :: Governs(d, obj, pc) && JoinsAs(d, user, obj, op, pc, m);
  }

  /**
   * With all attributes on both sides at hand, some pair of them is joined exactly when the class permits the
   * operation.
   */
  lemma SomePairJoins(d: GraphData, user: Id, obj: Id, op: string, pc: Id, uas: set<Id>, oas: set<Id>)
    requires forall x :: x in uas <==> Under(d, user, UserAttribute, pc, x)
    requires forall x :: x in oas <==> Under(d, obj, ObjectAttribute, pc, x)
    ensures (exists ua, oa :: ua in uas && oa in oas && (ua, oa) in d.assoc && op in d.assoc[(ua, oa)]) <==>
            Permits(d, user, obj, op, pc)
  {
    if ua, oa :| ua in uas && oa in oas && (ua, oa) in d.assoc && op in d.assoc[(ua, oa)] {
      assert Joins(d, user, obj, op, pc, ua, oa);
    }
  }

  lemma GoverningAreInClosure(d: GraphData, obj: Id)
    ensures GoverningSet(d, obj) ==
            set nid | nid in Closure(d.edges, obj) && nid in d.nodes && d.nodes[nid].nodeType == PolicyClass
  {
  }

  lemma NoneGoverns(d: GraphData, user: Id, obj: Id, operation: string)
    requires GoverningSet(d, obj) == {}
    ensures !Grants(d, user, obj, operation) && ReasonFits(d, user, obj, operation, NotGoverned)
  {
    forall pc ensures !Governs(d, obj, pc) {
      assert pc !in GoverningSet(d, obj);
    }
  }

  lemma DeniedByOne(d: GraphData, user: Id, obj: Id, operation: string, pc: Id)
    requires pc in GoverningSet(d, obj) && !Permits(d, user, obj, Lower(operation), pc)
    ensures !Grants(d, user, obj, operation) && ReasonFits(d, user, obj, operation, DeniedBy(d.nodes[pc].name))
  {
  }

  lemma AllPermit(d: GraphData, user: Id, obj: Id, operation: string)
    requires GoverningSet(d, obj) != {}
    requires forall pc :: pc in GoverningSet(d, obj) ==> Permits(d, user, obj, Lower(operation), pc)
    ensures Grants(d, user, obj, operation) && ReasonFits(d, user, obj, operation, AccessGranted)
  {
    var pc :| pc in GoverningSet(d, obj);
    forall c | Governs(d, obj, c) ensures Permits(d, user, obj, Lower(operation), c) {
      assert c in GoverningSet(d, obj);
    }
  }

  class NGACGraph {
    var nodes: map<Id, Node>
    var parents: map<Id, set<Id>>
    var assoc: map<(Id, Id), set<string>>
    var cache: map<Id, set<Id>>

    ghost function EdgeSet(): Edges
      reads `parents
    {
      set a, b | a in parents && b in parents[a] :: (a, b)
    }

    ghost function Data(): GraphData
      reads `nodes, `parents, `assoc
    {
      GraphData(nodes, EdgeSet(), assoc)
    }

    /** Every memoised closure is the true closure. */
    ghost predicate Valid()
      reads `parents, `cache
    {
      forall id :: id in cache ==> cache[id] == Closure(EdgeSet(), id)
    }

    constructor (ns: seq<Node>, ass: seq<Assignment>, ss: seq<Association>)
      ensures Valid()
      ensures Data() == GraphOf(ns, ass, ss)
    {
      var nodes': map<Id, Node> := map[];
      for i := 0 to |ns|
        invariant nodes' == NodeIndex(ns[..i])
      {
        assert ns[..i + 1][..i] == ns[..i];
        nodes' := nodes'[ns[i].nodeId := ns[i]];
      }
      var parents': map<Id, set<Id>> := map[];
      for i := 0 to |ass|
        invariant forall a, b :: (a in parents' && b in parents'[a]) <==> (a, b) in EdgePairs(ass[..i])
      {
        var a := ass[i];
        assert ass[..i + 1] == ass[..i] + [a];
        assert EdgePairs(ass[..i + 1]) == EdgePairs(ass[..i]) + {(a.fromId, a.toId)};
        var known := if a.fromId in parents' then parents'[a.fromId] else {};
        parents' := parents'[a.fromId := known + {a.toId}];
      }
      var assoc': map<(Id, Id), set<string>> := map[];
      for i := 0 to |ss|
        invariant assoc' == AssocIndex(ss[..i])
      {
        assert ss[..i + 1][..i] == ss[..i];
        assoc' := assoc'[(ss[i].userAttributeId, ss[i].objectAttributeId) := LoweredOps(ss[i].operations)];
      }
      nodes, parents, assoc, cache := nodes', parents', assoc', map[];
      new;
      assert ns[..|ns|] == ns && ass[..|ass|] == ass && ss[..|ss|] == ss;
      assert EdgeSet() == EdgePairs(ass);
    }

    /** Breadth-first search with memoisation; the queue may hold duplicates and the graph may have cycles. */
    method UpwardClosure(nodeId: Id) returns (result: set<Id>)
      requires Valid()
      modifies `cache
      ensures Valid() && Data() == old(Data())
      ensures result == Closure(EdgeSet(), nodeId)
      ensures nodeId in cache
      ensures forall id :: id in old(cache) ==> id in cache && cache[id] == old(cache)[id]
    {
      if nodeId in cache {
        return cache[nodeId];
      }
      ghost var edges := EdgeSet();
      ghost var all := Closure(edges, nodeId);
      ClosureIsClosed(edges, nodeId);
      var visited: set<Id> := {};
      var queue := [nodeId];
      while queue != []
        invariant cache == old(cache)
        invariant Exploring(edges, [nodeId], all, visited, queue)
        decreases |all - visited|, |queue|
      {
        var cur := queue[0];
        if cur in visited {
          ExploreSkip(edges, [nodeId], all, visited, queue);
          queue := queue[1..];
          continue;
        }
        var above := if cur in parents then parents[cur] else {};
        var queued := ListOf(above);
        ExploreVisit(edges, [nodeId], all, visited, queue, queued);
        visited := visited + {cur};
        queue := queue[1..] + queued;
      }
      ExploredAll(edges, nodeId, visited);
      result := visited;
      cache := cache[nodeId := result];
      assert EdgeSet() == edges;
    }

    /** The members of a closure that have type t and lie under pc; closures are computed on demand. */
    method AttributesUnder(start: Id, closure: set<Id>, t: NodeType, pc: Id) returns (found: set<Id>)
      requires Valid() && closure == Closure(EdgeSet(), start)
      modifies `cache
      ensures Valid() && Data() == old(Data())
      ensures forall x :: x in found <==> Under(Data(), start, t, pc, x)
    {
      found := {};
      var todo := closure;
      while todo != {}
        invariant Valid()
        invariant todo <= closure
        invariant forall x :: x in found <==> x in closure - todo && Under(Data(), start, t, pc, x)
        decreases todo
      {
        var nid :| nid in todo;
        todo := todo - {nid};
        if nid in nodes && nodes[nid].nodeType == t {
          var above := UpwardClosure(nid);
          if pc in above {
            found := found + {nid};
          }
        }
      }
    }

    /** The body of the loop in check: whether one policy class permits the operation. */
    method PermitsThrough(userId: Id, userClosure: set<Id>, objectId: Id, objectClosure: set<Id>, op: string, pc: Id)
      returns (granted: bool)
      requires Valid()
      requires userClosure == Closure(EdgeSet(), userId) && objectClosure == Closure(EdgeSet(), objectId)
      modifies `cache
      ensures Valid() && Data() == old(Data())
      ensures granted <==> Permits(Data(), userId, objectId, op, pc)
    {
      var userUas := AttributesUnder(userId, userClosure, UserAttribute, pc);
      var objectOas := AttributesUnder(objectId, objectClosure, ObjectAttribute, pc);
      granted := exists ua, oa :: ua in userUas && oa in objectOas && (ua, oa) in assoc && op in assoc[(ua, oa)];
      SomePairJoins(Data(), userId, objectId, op, pc, userUas, objectOas);
    }

    /** The loop of check: the first policy class met that does not permit the operation. */
    method FirstDenial(userId: Id, userClosure: set<Id>, objectId: Id, objectClosure: set<Id>, op: string, pcs: set<Id>)
      returns (denied: Option<Id>)
      requires Valid()
      requires userClosure == Closure(EdgeSet(), userId) && objectClosure == Closure(EdgeSet(), objectId)
      modifies `cache
      ensures Valid() && Data() == old(Data())
      ensures denied.None? ==> forall pc :: pc in pcs ==> Permits(Data(), userId, objectId, op, pc)
      ensures denied.Some? ==> denied.value in pcs && !Permits(Data(), userId, objectId, op, denied.value)
    {
      var todo := pcs;
      while todo != {}
        invariant Valid()
        invariant todo <= pcs
        invariant forall pc :: pc in pcs - todo ==> Permits(Data(), userId, objectId, op, pc)
        decreases todo
      {
        var pc :| pc in todo;
        todo := todo - {pc};
        var granted := PermitsThrough(userId, userClosure, objectId, objectClosure, op, pc);
        if !granted {
          return Some(pc);
        }
      }
      return None;
    }

    /** The AND rule, decided one governing policy class at a time. */
    method Check(userId: Id, objectId: Id, operation: string) returns (allowed: bool, reason: Reason)
      requires Valid()
      modifies `cache
      ensures Valid() && Data() == old(Data())
      ensures allowed <==> Grants(Data(), userId, objectId, operation)
      ensures ReasonFits(Data(), userId, objectId, operation, reason)
    {
      ghost var d := Data();
      var objectClosure := UpwardClosure(objectId);
      var userClosure := UpwardClosure(userId);
      var pcs := set nid | nid in objectClosure && nid in nodes && nodes[nid].nodeType == PolicyClass;
      GoverningAreInClosure(d, objectId);
      assert pcs == GoverningSet(d, objectId);
      if pcs == {} {
        NoneGoverns(d, userId, objectId, operation);
        return false, NotGoverned;
      }
      var denied := FirstDenial(userId, userClosure, objectId, objectClosure, Lower(operation), pcs);
      assert Data() == d;
      if denied.Some? {
        DeniedByOne(d, userId, objectId, operation, denied.value);
        return false, DeniedBy(nodes[denied.value].name);
      }
      AllPermit(d, userId, objectId, operation);
      return true, AccessGranted;
    }

    method ListOf(s: set<Id>) returns (r: seq<Id>)
      ensures NoDuplicates(r) && forall x :: x in r <==> x in s
    {
      r := [];
      var todo := s;
      while todo != {}
        invariant todo <= s && NoDuplicates(r)
        invariant forall x :: x in r <==> x in s - todo
        decreases todo
      {
        var x :| x in todo;
        assert x !in r;
        todo := todo - {x};
        r := r + [x];
      }
    }

    /** The matching associations of one policy class, user attributes outermost. */
    method MatchesOf(uas: seq<Id>, oas: seq<Id>, op: string) returns (ms: seq<Match>)
      ensures forall m :: m in ms <==>
        m.userAttributeId in uas && m.objectAttributeId in oas && m.operation == op &&
        Carries(Data(), m.userAttributeId, m.objectAttributeId, op)
    {
      ms := [];
      for i := 0 to |uas|
        invariant forall m :: m in ms <==>
          m.userAttributeId in uas[..i] && m.objectAttributeId in oas && m.operation == op &&
          Carries(Data(), m.userAttributeId, m.objectAttributeId, op)
      {
        assert uas[..i + 1] == uas[..i] + [uas[i]];
        for j := 0 to |oas|
          invariant forall m :: m in ms <==>
            ((m.userAttributeId in uas[..i] && m.objectAttributeId in oas) ||
             (m.userAttributeId == uas[i] && m.objectAttributeId in oas[..j])) && m.operation == op &&
            Carries(Data(), m.userAttributeId, m.objectAttributeId, op)
        {
          assert oas[..j + 1] == oas[..j] + [oas[j]];
          if (uas[i], oas[j]) in assoc && op in assoc[(uas[i], oas[j])] {
            ms := ms + [Match(uas[i], oas[j], op)];
          }
        }
        assert oas[..|oas|] == oas;
      }
      assert uas[..|uas|] == uas;
    }

    method GoverningList(objectId: Id, objectClosure: set<Id>) returns (pcs: seq<Id>)
      requires objectClosure == Closure(EdgeSet(), objectId)
      ensures IsSortedListOf(pcs, GoverningSet(Data(), objectId))
    {
      var found := set nid | nid in objectClosure && nid in nodes && nodes[nid].nodeType == PolicyClass;
      assert found == GoverningSet(Data(), objectId);
      pcs := SortedList(found);
    }

    /** The attributes on both sides under one policy class, and the associations that join them. */
    method ClassDetail(userId: Id, userClosure: set<Id>, objectId: Id, objectClosure: set<Id>, op: string, pc: Id)
      returns (row: ClassRow, matches: seq<Match>)
      requires Valid() && pc in nodes
      requires userClosure == Closure(EdgeSet(), userId) && objectClosure == Closure(EdgeSet(), objectId)
      modifies `cache
      ensures Valid() && Data() == old(Data())
      ensures row.policyClassId == pc && row.name == nodes[pc].name
      ensures RowIsRight(Data(), userId, objectId, row)
      ensures matches != [] <==> Permits(Data(), userId, objectId, op, pc)
      ensures forall m :: m in matches <==> JoinsAs(Data(), userId, objectId, op, pc, m)
    {
      var uaSet := AttributesUnder(userId, userClosure, UserAttribute, pc);
      var oaSet := AttributesUnder(objectId, objectClosure, ObjectAttribute, pc);
      var uas := ListOf(uaSet);
      var oas := ListOf(oaSet);
      matches := MatchesOf(uas, oas, op);
      row := ClassRow(pc, nodes[pc].name, uas, oas);
      if matches != [] {
        var m := matches[0];
        assert JoinsAs(Data(), userId, objectId, op, pc, m);
      }
      if Permits(Data(), userId, objectId, op, pc) {
        ghost var ua, oa :| Joins(Data(), userId, objectId, op, pc, ua, oa);
        assert Match(ua, oa, op) in matches;
      }
    }

    method Explain(userId: Id, objectId: Id, operation: string) returns (r: Explanation)
      requires Valid()
      modifies `cache
      ensures Valid() && Data() == old(Data())
      ensures IsExplanation(Data(), userId, objectId, operation, r)
    {
      var allowed, reason := Check(userId, objectId, operation);
      var op := Lower(operation);
      var userClosure := UpwardClosure(userId);
      var objectClosure := UpwardClosure(objectId);
      var pcs := GoverningList(objectId, objectClosure);
      ghost var d := Data();
      r := Explanation(allowed, reason, [], [], [], []);
      for i := 0 to |pcs|
        invariant Valid() && Data() == d
        invariant r.allowed == allowed && r.reason == reason
        invariant Explains(d, userId, objectId, op, pcs[..i], r)
      {
        assert pcs[i] in pcs;
        var row, matches := ClassDetail(userId, userClosure, objectId, objectClosure, op, pcs[i]);
        ghost var before := r;
        r := AddClass(r, row, matches);
        ExplainsStep(d, userId, objectId, op, pcs, i, before, row, matches);
      }
      assert pcs[..|pcs|] == pcs;
      ExplainsAll(d, userId, objectId, operation, pcs, r);
    }
  }
}
