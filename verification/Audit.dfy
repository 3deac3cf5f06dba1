/** The append-only audit trail and its cursor queries. */
module Audit {
  import opened Common
  import opened Keyset

  datatype AuditEvent = AuditEvent(timestamp: int, model: string, actorId: string, action: string, target: string)

  /** The models, action, actor, target and time-range conditions of one query, as a single test on an event. */
  type Filter = AuditEvent -> bool

  function View(events: map<Id, AuditEvent>, filter: Filter): Snapshot {
    Snapshot(map id | id in events :: events[id].timestamp, set id | id in events && filter(events[id]))
  }

  lemma QueryIsSelected(events: map<Id, AuditEvent>, filter: Filter)
    ensures (set id | id in events && filter(events[id]) :: Key(events[id].timestamp, id)) ==
            Selected(View(events, filter), None)
  {
    var c := View(events, filter);
    forall id | id in events && filter(events[id]) ensures Key(events[id].timestamp, id) in Selected(c, None) {
      assert KeyOf(c, id) == Key(events[id].timestamp, id);
    }
    forall k | k in Selected(c, None)
      ensures k.id in events && filter(events[k.id]) && k == Key(events[k.id].timestamp, k.id) {
      assert k == KeyOf(c, k.id);
    }
  }

  class AuthorizationAuditRepository {
    var events: map<Id, AuditEvent>

    predicate ValidIds()
      reads this
    {
      "" !in events
    }

    constructor ()
      ensures events == map[]
    {
      events := map[];
    }

    /** insert_one under a generated id; nothing ever updates or deletes an event. */
    method Append(eventId: Id, event: AuditEvent)
      requires eventId != "" && eventId !in events && ValidIds()
      modifies this
      ensures ValidIds()
      ensures events == old(events)[eventId := event]
    {
      events := events[eventId := event];
    }

    /** The filter dictionary: a cursor that names no stored event is ignored. */
    method BuildQuery(filter: Filter, cursor: Option<Id>) returns (query: set<Key>)
      ensures query == Selected(View(events, filter), cursor)
    {
      query := set id | id in events && filter(events[id]) :: Key(events[id].timestamp, id);
      QueryIsSelected(events, filter);
      SelectedAfter(View(events, filter), cursor);
      if Truthy(cursor) && cursor.value in events {
        var at := events[cursor.value].timestamp;
        query := set k | k in query && (k.timestamp < at || (k.timestamp == at && Below(k.id, cursor.value)));
      }
    }

    /** One page: the first limit events after the cursor, and a cursor when there are more. */
    method Query(filter: Filter, cursor: Option<Id>, limit: nat) returns (items: seq<Id>, next: Option<Id>)
      ensures items == Ids(PageItems(View(events, filter), cursor, limit)) && |items| <= limit
      ensures next.Some? ==> |items| == limit > 0 && next.value == items[limit - 1]
      ensures next == NextCursor(View(events, filter), cursor, limit)
    {
      var query := BuildQuery(filter, cursor);
      var docs := FirstOf(query, limit + 1);
      var hasMore := |docs| > limit;
      docs := if hasMore then docs[..limit] else docs;
      items := [];
      for i := 0 to |docs|
        invariant items == Ids(docs[..i])
      {
        items := items + [docs[i].id];
      }
      assert docs[..|docs|] == docs;
      next := if hasMore && items != [] then Some(items[|items| - 1]) else None;
    }
  }

  /** Every event that the filter lets through is listed exactly once by a walk over an unchanging trail. */
  lemma WalkListsEachEventOnce(events: map<Id, AuditEvent>, filter: Filter, limit: nat)
    requires "" !in events && limit > 0
    ensures GrowsThroughout(n => View(events, filter))
    ensures var walk := Walk(n => View(events, filter), 0, None, limit);
      && NewestFirst(walk)
      && |walk| == |set id | id in events && filter(events[id])|
      && (forall id :: id in Ids(walk) <==> id in events && filter(events[id]))
      && forall k :: k in walk ==> k.id in events && k.timestamp == events[k.id].timestamp
  {
    FixedWalk(View(events, filter), limit);
    ListedIds(View(events, filter));
  }

  /** The trail only gained events, each later than all there were. */
  ghost predicate GainedLater(before: map<Id, AuditEvent>, after: map<Id, AuditEvent>) {
    && "" !in before
    && (forall id :: id in before ==> id in after && after[id] == before[id])
    && forall id, new' :: id in before && new' in after && new' !in before ==>
         Earlier(Key(before[id].timestamp, id), Key(after[new'].timestamp, new'))
  }

  /** So it did from each request to the next. */
  ghost predicate OnlyLaterAppends(trail: nat -> map<Id, AuditEvent>) {
    forall n: nat :: GainedLater(trail(n), trail(n + 1))
  }

  lemma ViewGrows(before: map<Id, AuditEvent>, after: map<Id, AuditEvent>, filter: Filter)
    requires GainedLater(before, after)
    ensures Valid(View(before, filter)) && Grows(View(before, filter), View(after, filter))
  {
  }

  /** Later events arriving between the requests change nothing: the walk lists the trail as it was at the start. */
  lemma WalkDuringAppends(trail: nat -> map<Id, AuditEvent>, filter: Filter, limit: nat)
    requires OnlyLaterAppends(trail) && limit > 0
    ensures GrowsThroughout((n: nat) => View(trail(n), filter))
    ensures Walk((n: nat) => View(trail(n), filter), 0, None, limit) == Listing(Selected(View(trail(0), filter), None))
  {
    var f: nat -> Snapshot := (n: nat) => View(trail(n), filter);
    forall n: nat ensures Valid(f(n)) && Grows(f(n), f(n + 1)) {
      ViewGrows(trail(n), trail(n + 1), filter);
    }
    WalkListsEverything(f, 0, None, limit);
  }

  /** From one request to the next the trail only gained events, with whatever keys. */
  ghost predicate OnlyAppends(trail: nat -> map<Id, AuditEvent>) {
    forall n: nat ::
      && "" !in trail(n)
      && forall id :: id in trail(n) ==> id in trail(n + 1) && trail(n + 1)[id] == trail(n)[id]
  }

  lemma SelectedAreMatches(events: map<Id, AuditEvent>, filter: Filter, x: Key)
    ensures x in Selected(View(events, filter), None) <==>
            x.id in events && filter(events[x.id]) && x == Key(events[x.id].timestamp, x.id)
  {
    QueryIsSelected(events, filter);
  }

  /** The id names a matching event of the trail at one of the first k requests. */
  ghost predicate MatchesWithin(trail: nat -> map<Id, AuditEvent>, filter: Filter, k: nat, id: Id) {
    exists m: nat :: m < k && id in trail(m) && filter(trail(m)[id])
  }

  lemma ListedMatches(trail: nat -> map<Id, AuditEvent>, filter: Filter, limit: nat, k: nat, x: Key)
    requires x in FirstPages((n: nat) => View(trail(n), filter), 0, None, limit, k)
    ensures MatchesWithin(trail, filter, k, x.id)
  {
    var f: nat -> Snapshot := (n: nat) => View(trail(n), filter);
    WalkListsOnlyWanted(f, 0, None, limit, k, x);
    var m: nat :| 0 <= m < k && x in Selected(f(m), None);
    SelectedAreMatches(trail(m), filter, x);
  }

  lemma ViewAdds(trail: nat -> map<Id, AuditEvent>, filter: Filter)
    requires OnlyAppends(trail)
    ensures AddsThroughout((n: nat) => View(trail(n), filter))
  {
  }

  /**
   * Ids are random and time stamps can tie, so an event appended during a walk may have an earlier key and be listed
   * too. Still nothing is listed twice or out of order, everything listed is a matching event of the trail at some
   * request, and a walk that ends has listed every matching event that was there at its start.
   */
  lemma WalkDuringAnyAppends(trail: nat -> map<Id, AuditEvent>, filter: Filter, limit: nat, k: nat)
    requires OnlyAppends(trail) && limit > 0
    ensures var f: nat -> Snapshot := (n: nat) => View(trail(n), filter);
      var walk := FirstPages(f, 0, None, limit, k);
      && Descending(walk)
      && (forall x :: x in walk ==> MatchesWithin(trail, filter, k, x.id))
      && (EndsWithin(f, 0, None, limit, k) ==>
          forall id :: id in trail(0) && filter(trail(0)[id]) ==> Key(trail(0)[id].timestamp, id) in walk)
  {
    var f: nat -> Snapshot := (n: nat) => View(trail(n), filter);
    ViewAdds(trail, filter);
    WalkDuringAdditions(f, 0, None, limit, k);
    forall x | x in FirstPages(f, 0, None, limit, k) ensures MatchesWithin(trail, filter, k, x.id) {
      ListedMatches(trail, filter, limit, k, x);
    }
    forall id | id in trail(0) && filter(trail(0)[id])
      ensures Key(trail(0)[id].timestamp, id) in Selected(f(0), None)
    {
      SelectedAreMatches(trail(0), filter, Key(trail(0)[id].timestamp, id));
    }
  }
}
