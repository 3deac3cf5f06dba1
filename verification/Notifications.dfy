/** Notification events, their per-recipient read receipts, and the unread listing and count. */
module Notifications {
  import opened Common
  import opened Keyset

  datatype NotificationEvent = NotificationEvent(timestamp: int, model: string, category: string)

  datatype Receipt = Receipt(notificationId: Id, recipientId: Id)

  datatype Item = Item(id: Id, isRead: bool)

  type Events = map<Id, NotificationEvent>

  /** At most one receipt per event and recipient. */
  ghost predicate UniqueReceipts(receipts: seq<Receipt>) {
    forall i, j :: 0 <= i < j < |receipts| ==> receipts[i] != receipts[j]
  }

  predicate IsRead(receipts: seq<Receipt>, id: Id, recipient: Id) {
    Receipt(id, recipient) in receipts
  }

  function OfModels(events: Events, models: seq<string>): set<Id> {
    set id | id in events && events[id].model in models
  }

  /** The events a query asks for before receipts are joined; an absent or empty category list means all. */
  function Asked(events: Events, models: seq<string>, categories: seq<string>): set<Id> {
    set id | id in events && events[id].model in models && (categories == [] || events[id].category in categories)
  }

  function Unread(receipts: seq<Receipt>, recipient: Id, ids: set<Id>): set<Id> {
    set id | id in ids && !IsRead(receipts, id, recipient)
  }

  function Stamps(events: Events): map<Id, int> {
    map id | id in events :: events[id].timestamp
  }

  /** The collection as the find of a query sees it. */
  function BaseView(events: Events, models: seq<string>, categories: seq<string>): Snapshot {
    Snapshot(Stamps(events), Asked(events, models, categories))
  }

  /** The collection as the caller sees it: read events are filtered out when only unread ones are wanted. */
  function View(events: Events, receipts: seq<Receipt>, recipient: Id, models: seq<string>, categories: seq<string>,
                unreadOnly: bool): Snapshot {
    var base := BaseView(events, models, categories);
    if unreadOnly then base.(wanted := Unread(receipts, recipient, base.wanted)) else base
  }

  /** The entries of a listing that the loop of query keeps. */
  function Kept(docs: seq<Key>, receipts: seq<Receipt>, recipient: Id, unreadOnly: bool): seq<Key> {
    if docs == [] then []
    else
      var last := docs[|docs| - 1];
      Kept(docs[..|docs| - 1], receipts, recipient, unreadOnly) +
      if unreadOnly && IsRead(receipts, last.id, recipient) then [] else [last]
  }

  lemma {:induction false} KeptMembers(docs: seq<Key>, receipts: seq<Receipt>, recipient: Id, unreadOnly: bool)
    ensures forall k :: k in Kept(docs, receipts, recipient, unreadOnly) <==>
                        k in docs && !(unreadOnly && IsRead(receipts, k.id, recipient))
    ensures !unreadOnly ==> Kept(docs, receipts, recipient, unreadOnly) == docs
  {
    if docs != [] {
      KeptMembers(docs[..|docs| - 1], receipts, recipient, unreadOnly);
      assert docs == docs[..|docs| - 1] + [docs[|docs| - 1]];
    }
  }

  lemma {:induction false} KeptDescending(docs: seq<Key>, receipts: seq<Receipt>, recipient: Id, unreadOnly: bool)
    requires Descending(docs)
    ensures Descending(Kept(docs, receipts, recipient, unreadOnly))
  {
    if docs != [] {
      var front, last := docs[..|docs| - 1], docs[|docs| - 1];
      KeptDescending(front, receipts, recipient, unreadOnly);
      KeptMembers(front, receipts, recipient, unreadOnly);
      var kept := Kept(front, receipts, recipient, unreadOnly);
      forall i | 0 <= i < |kept| ensures Earlier(last, kept[i]) {
        assert kept[i] in front;
        var j :| 0 <= j < |front| && front[j] == kept[i];
        assert docs[j] == kept[i];
      }
    }
  }

  /** The kept part of a prefix is a prefix of the kept part. */
  lemma {:induction false} KeptPrefix(docs: seq<Key>, i: nat, receipts: seq<Receipt>, recipient: Id, unreadOnly: bool)
    requires i <= |docs|
    ensures Kept(docs[..i], receipts, recipient, unreadOnly) <= Kept(docs, receipts, recipient, unreadOnly)
  {
    if i == |docs| {
      assert docs[..i] == docs;
    } else {
      KeptPrefix(docs[..|docs| - 1], i, receipts, recipient, unreadOnly);
      assert docs[..|docs| - 1][..i] == docs[..i];
    }
  }

  /** Filtering the listing of everything asked for gives the listing of what is wanted. */
  lemma KeptListing(events: Events, receipts: seq<Receipt>, recipient: Id, models: seq<string>, categories: seq<string>,
                    unreadOnly: bool, cursor: Option<Id>)
    ensures Kept(Listing(Selected(BaseView(events, models, categories), cursor)), receipts, recipient, unreadOnly) ==
            Listing(Selected(View(events, receipts, recipient, models, categories, unreadOnly), cursor))
  {
    var base := BaseView(events, models, categories);
    var view := View(events, receipts, recipient, models, categories, unreadOnly);
    var docs := Listing(Selected(base, cursor));
    ListingIsSorted(Selected(base, cursor));
    KeptMembers(docs, receipts, recipient, unreadOnly);
    KeptDescending(docs, receipts, recipient, unreadOnly);
    forall k ensures k in Selected(view, cursor) <==>
      k in Selected(base, cursor) && !(unreadOnly && IsRead(receipts, k.id, recipient)) {
      if k in Selected(view, cursor) {
        assert k == KeyOf(base, k.id);
      }
      if k in Selected(base, cursor) && !(unreadOnly && IsRead(receipts, k.id, recipient)) {
        assert k == KeyOf(view, k.id);
      }
    }
    ListingOf(Kept(docs, receipts, recipient, unreadOnly), Selected(view, cursor));
  }

  function ItemsOf(keys: seq<Key>, receipts: seq<Receipt>, recipient: Id): seq<Item> {
    seq(|keys|, i requires 0 <= i < |keys| => Item(keys[i].id, IsRead(receipts, keys[i].id, recipient)))
  }

  /** What is fetched: everything when read events must be skipped, else one more than the limit. */
  function Window(all: seq<Key>, unreadOnly: bool, limit: nat): seq<Key> {
    if unreadOnly then all else Cut(all, limit + 1)
  }

  // ---- counting ----

  /** count_documents over the receipts of one recipient for a set of events. */
  function CountReceipts(receipts: seq<Receipt>, recipient: Id, ids: set<Id>): nat {
    if receipts == [] then 0
    else
      var last := receipts[|receipts| - 1];
      CountReceipts(receipts[..|receipts| - 1], recipient, ids) +
      if last.recipientId == recipient && last.notificationId in ids then 1 else 0
  }

  function ReadIds(receipts: seq<Receipt>, recipient: Id, ids: set<Id>): set<Id> {
    set id | id in ids && IsRead(receipts, id, recipient)
  }

  /** With unique receipts the number of receipts is the number of read events. */
  lemma {:induction false} ReceiptsCountReadEvents(receipts: seq<Receipt>, recipient: Id, ids: set<Id>)
    requires UniqueReceipts(receipts)
    ensures CountReceipts(receipts, recipient, ids) == |ReadIds(receipts, recipient, ids)|
  {
    if receipts != [] {
      var front, last := receipts[..|receipts| - 1], receipts[|receipts| - 1];
      assert receipts == front + [last];
      assert last !in front;
      ReceiptsCountReadEvents(front, recipient, ids);
      if last.recipientId == recipient && last.notificationId in ids {
        assert ReadIds(receipts, recipient, ids) == ReadIds(front, recipient, ids) + {last.notificationId};
      } else {
        assert ReadIds(receipts, recipient, ids) == ReadIds(front, recipient, ids);
      }
    } else {
      assert ReadIds(receipts, recipient, ids) == {};
    }
  }

  lemma ReadAndUnread(receipts: seq<Receipt>, recipient: Id, ids: set<Id>)
    ensures |ids| == |ReadIds(receipts, recipient, ids)| + |Unread(receipts, recipient, ids)|
  {
    var read, unread := ReadIds(receipts, recipient, ids), Unread(receipts, recipient, ids);
    assert ids == read + unread && read !! unread;
  }

  /** mark_read on the receipts: upsert of the one receipt of event and recipient. */
  function Marked(receipts: seq<Receipt>, id: Id, recipient: Id): seq<Receipt> {
    if Receipt(id, recipient) in receipts then receipts else receipts + [Receipt(id, recipient)]
  }

  class NotificationRepository {
    var events: Events
    var receipts: seq<Receipt>

    ghost predicate Valid()
      reads this
    {
      UniqueReceipts(receipts) && "" !in events
    }

    constructor ()
      ensures Valid() && events == map[] && receipts == []
    {
      events, receipts := map[], [];
    }

    method Append(id: Id, event: NotificationEvent)
      requires Valid() && id != "" && id !in events
      modifies `events
      ensures Valid() && events == old(events)[id := event]
    {
      events := events[id := event];
    }

    method AskedAfter(models: seq<string>, categories: seq<string>, cursor: Option<Id>) returns (query: set<Key>)
      ensures query == Selected(BaseView(events, models, categories), cursor)
    {
      ghost var base := BaseView(events, models, categories);
      var asked := Asked(events, models, categories);
      query := set id | id in asked && id in events :: Key(events[id].timestamp, id);
      assert query == Selected(base, None) by {
        forall id | id in asked && id in events ensures Key(events[id].timestamp, id) in Selected(base, None) {
          assert KeyOf(base, id) == Key(events[id].timestamp, id);
        }
        forall k | k in Selected(base, None) ensures k in query {
          assert k == KeyOf(base, k.id);
        }
      }
      SelectedAfter(base, cursor);
      if Truthy(cursor) && cursor.value in events {
        var at := events[cursor.value].timestamp;
        query := set k | k in query && (k.timestamp < at || (k.timestamp == at && Below(k.id, cursor.value)));
      }
    }

    /** One page, with receipts joined after the find: read events are skipped until more than limit items are kept. */
    method Query(recipient: Id, models: seq<string>, categories: seq<string>, unreadOnly: bool, cursor: Option<Id>,
                 limit: nat)
      returns (items: seq<Item>, next: Option<Id>)
      ensures var view := View(events, receipts, recipient, models, categories, unreadOnly);
        items == ItemsOf(PageItems(view, cursor, limit), receipts, recipient)
      ensures |items| <= limit
      ensures forall i :: i in items ==> (i.isRead <==> Receipt(i.id, recipient) in receipts)
      ensures next.Some? ==> |items| == limit > 0 && next.value == items[limit - 1].id
      ensures next == NextCursor(View(events, receipts, recipient, models, categories, unreadOnly), cursor, limit)
    {
      var documents := Fetch(models, categories, unreadOnly, cursor, limit);
      items := TakeItems(recipient, documents, unreadOnly, limit);
      PageFromItems(events, receipts, recipient, models, categories, unreadOnly, cursor, limit, documents, items);
      var hasMore := |items| > limit;
      items := if hasMore then items[..limit] else items;
      next := if hasMore && items != [] then Some(items[|items| - 1].id) else None;
    }

    /**
     * The sorted documents after the cursor: all of them when read ones must be skipped, else one more than the limit.
     */
    method Fetch(models: seq<string>, categories: seq<string>, unreadOnly: bool, cursor: Option<Id>, limit: nat)
      returns (documents: seq<Key>)
      ensures documents == Window(Listing(Selected(BaseView(events, models, categories), cursor)), unreadOnly, limit)
    {
      var query := AskedAfter(models, categories, cursor);
      ListingIsSorted(query);
      documents := FirstOf(query, if unreadOnly then |query| else limit + 1);
    }

    /** The loop of query: stop as soon as one item more than the limit has been kept. */
    method TakeItems(recipient: Id, documents: seq<Key>, unreadOnly: bool, limit: nat) returns (items: seq<Item>)
      ensures items == ItemsOf(Cut(Kept(documents, receipts, recipient, unreadOnly), limit + 1), receipts, recipient)
    {
      items := [];
      for i := 0 to |documents|
        invariant items == ItemsOf(Kept(documents[..i], receipts, recipient, unreadOnly), receipts, recipient)
        invariant |items| <= limit
      {
        assert documents[..i + 1][..i] == documents[..i];
        var read := IsRead(receipts, documents[i].id, recipient);
        if unreadOnly && read {
          continue;
        }
        items := items + [Item(documents[i].id, read)];
        if |items| > limit {
          KeptPrefix(documents, i + 1, receipts, recipient, unreadOnly);
          return;
        }
      }
      assert documents[..|documents|] == documents;
    }

    /** The number of events minus the number of receipts, clamped at zero; the clamp never takes effect. */
    method UnreadCount(recipient: Id, models: seq<string>) returns (count: nat)
      requires Valid()
      ensures count == |Unread(receipts, recipient, OfModels(events, models))|
    {
      var eventIds := OfModels(events, models);
      ReadAndUnread(receipts, recipient, eventIds);
      ReceiptsCountReadEvents(receipts, recipient, eventIds);
      if eventIds == {} {
        return 0;
      }
      var read := CountReceipts(receipts, recipient, eventIds);
      count := if |eventIds| - read > 0 then |eventIds| - read else 0;
    }

    method MarkRead(id: Id, recipient: Id) returns (ok: bool)
      requires Valid()
      modifies `receipts
      ensures Valid()
      ensures ok <==> id in events
      ensures receipts == if ok then Marked(old(receipts), id, recipient) else old(receipts)
    {
      if id !in events {
        return false;
      }
      if Receipt(id, recipient) !in receipts {
        receipts := receipts + [Receipt(id, recipient)];
      }
      return true;
    }

    /** Every event of the models becomes read for this recipient, and nothing else changes for anyone. */
    method MarkAllRead(recipient: Id, models: seq<string>) returns (count: nat)
      requires Valid()
      modifies `receipts
      ensures Valid()
      ensures count == |OfModels(events, models)|
      ensures forall id, who :: IsRead(receipts, id, who) <==>
                IsRead(old(receipts), id, who) || (who == recipient && id in OfModels(events, models))
      ensures old(receipts) <= receipts
    {
      count := 0;
      var todo := OfModels(events, models);
      while todo != {}
        invariant Valid()
        invariant todo <= OfModels(events, models)
        invariant count + |todo| == |OfModels(events, models)|
        invariant old(receipts) <= receipts
        invariant forall id, who :: IsRead(receipts, id, who) <==>
                    IsRead(old(receipts), id, who) || (who == recipient && id in OfModels(events, models) - todo)
        decreases todo
      {
        var id :| id in todo;
        todo := todo - {id};
        ghost var before := receipts;
        var ok := MarkRead(id, recipient);
        assert forall i, who :: IsRead(receipts, i, who) <==> IsRead(before, i, who) || (i == id && who == recipient);
        count := count + 1;
      }
    }
  }

  lemma PageFromItems(events: Events, receipts: seq<Receipt>, recipient: Id, models: seq<string>,
                      categories: seq<string>,
                      unreadOnly: bool, cursor: Option<Id>, limit: nat, documents: seq<Key>, items: seq<Item>)
    requires documents == Window(Listing(Selected(BaseView(events, models, categories), cursor)), unreadOnly, limit)
    requires items == ItemsOf(Cut(Kept(documents, receipts, recipient, unreadOnly), limit + 1), receipts, recipient)
    ensures var view := View(events, receipts, recipient, models, categories, unreadOnly);
      && Cut(items, limit) == ItemsOf(PageItems(view, cursor, limit), receipts, recipient)
      && NextCursor(view, cursor, limit) == if |items| > limit > 0 then Some(items[limit - 1].id) else None
  {
    var all := Listing(Selected(BaseView(events, models, categories), cursor));
    KeptListing(events, receipts, recipient, models, categories, unreadOnly, cursor);
    KeptOfWindow(all, receipts, recipient, unreadOnly, limit);
    CutItems(Kept(all, receipts, recipient, unreadOnly), receipts, recipient, limit);
  }

  lemma CutItems(full: seq<Key>, receipts: seq<Receipt>, recipient: Id, limit: nat)
    ensures var items := ItemsOf(Cut(full, limit + 1), receipts, recipient);
      && (|items| > limit <==> |full| > limit)
      && Cut(items, limit) == ItemsOf(Cut(full, limit), receipts, recipient)
      && (|full| > limit > 0 ==> items[limit - 1].id == full[limit - 1].id)
  {
  }

  /** The fetched window holds enough: cut to limit + 1 kept items it agrees with the whole listing. */
  lemma KeptOfWindow(all: seq<Key>, receipts: seq<Receipt>, recipient: Id, unreadOnly: bool, limit: nat)
    ensures Cut(Kept(Window(all, unreadOnly, limit), receipts, recipient, unreadOnly), limit + 1) ==
            Cut(Kept(all, receipts, recipient, unreadOnly), limit + 1)
  {
    KeptMembers(all, receipts, recipient, unreadOnly);
    KeptMembers(Window(all, unreadOnly, limit), receipts, recipient, unreadOnly);
  }

  /** unread_count equals the number of items listed by walking all unread_only pages. */
  lemma UnreadCountMatchesWalk(events: Events, receipts: seq<Receipt>, recipient: Id, models: seq<string>, limit: nat)
    requires UniqueReceipts(receipts) && "" !in events && limit > 0
    ensures var view := View(events, receipts, recipient, models, [], true);
      && GrowsThroughout(n => view)
      && |Walk(n => view, 0, None, limit)| == |Unread(receipts, recipient, OfModels(events, models))|
      && |Walk(n => view, 0, None, limit)| ==
          |OfModels(events, models)| - CountReceipts(receipts, recipient, OfModels(events, models))
  {
    var view := View(events, receipts, recipient, models, [], true);
    FixedWalk(view, limit);
    ListingIsSorted(Selected(view, None));
    assert Asked(events, models, []) == OfModels(events, models);
    KeysOfIds(view, view.wanted);
    ReadAndUnread(receipts, recipient, OfModels(events, models));
    ReceiptsCountReadEvents(receipts, recipient, OfModels(events, models));
  }

  /** The event is one of the models and categories asked for and, where only unread ones are wanted, has no receipt. */
  ghost predicate Wanted(events: Events, receipts: seq<Receipt>, recipient: Id, models: seq<string>,
                         categories: seq<string>, unreadOnly: bool, id: Id) {
    && id in events && events[id].model in models && (categories != [] ==> events[id].category in categories)
    && (unreadOnly ==> Receipt(id, recipient) !in receipts)
  }

  /** A walk over an unchanging collection lists exactly the wanted events, once each and the newest first. */
  lemma WalkListsWantedEvents(events: Events, receipts: seq<Receipt>, recipient: Id, models: seq<string>,
                              categories: seq<string>, unreadOnly: bool, limit: nat)
    requires "" !in events && limit > 0
    ensures var view := View(events, receipts, recipient, models, categories, unreadOnly);
      var walk := Walk(n => view, 0, None, limit);
      && GrowsThroughout(n => view)
      && NewestFirst(walk)
      && (forall k :: k in walk ==> k.id in events && k.timestamp == events[k.id].timestamp)
      && forall id :: id in Ids(walk) <==> Wanted(events, receipts, recipient, models, categories, unreadOnly, id)
  {
    var view := View(events, receipts, recipient, models, categories, unreadOnly);
    FixedWalk(view, limit);
    ListedIds(view);
  }

  /** After everything is marked read nothing is unread, so the count and every unread_only walk are empty. */
  lemma NothingUnreadAfterMarkAll(events: Events, receipts: seq<Receipt>, recipient: Id, models: seq<string>,
                                  categories: seq<string>, limit: nat)
    requires "" !in events && limit > 0
    requires forall id :: id in OfModels(events, models) ==> IsRead(receipts, id, recipient)
    ensures Unread(receipts, recipient, OfModels(events, models)) == {}
    ensures GrowsThroughout(n => View(events, receipts, recipient, models, categories, true))
    ensures Walk(n => View(events, receipts, recipient, models, categories, true), 0, None, limit) == []
  {
    var view := View(events, receipts, recipient, models, categories, true);
    FixedWalk(view, limit);
    assert view.wanted == {};
    assert Selected(view, None) == {};
  }

  // ---- marking as read while walking ----

  datatype Stored = Stored(events: Events, receipts: seq<Receipt>)

  datatype Question = Question(recipient: Id, models: seq<string>, categories: seq<string>)

  /** The unread events that a recipient asks for. */
  function UnreadOf(s: Stored, q: Question): Snapshot {
    View(s.events, s.receipts, q.recipient, q.models, q.categories, true)
  }

  /** Events were only added, each later than every one there was. */
  ghost predicate EventsGrow(before: Events, after: Events) {
    && "" !in before && "" !in after
    && (forall id :: id in before ==> id in after && after[id] == before[id])
    && forall id, new' :: id in before && new' in after && new' !in before ==>
         Earlier(Key(before[id].timestamp, id), Key(after[new'].timestamp, new'))
  }

  /** Receipts are only added, and of the earlier events only those given become read for the recipient. */
  ghost predicate MarksOnly(a: Stored, b: Stored, recipient: Id, ids: set<Id>) {
    forall id ::
      && (IsRead(a.receipts, id, recipient) ==> IsRead(b.receipts, id, recipient))
      && (IsRead(b.receipts, id, recipient) ==> IsRead(a.receipts, id, recipient) || id in ids || id !in a.events)
  }

  function IdsOf(keys: seq<Key>): set<Id> {
    set k | k in keys :: k.id
  }

  /** What the first i requests have shown. */
  ghost function ShownBefore(f: nat -> Snapshot, limit: nat, i: nat): set<Id> {
    if i == 0 then {}
    else ShownBefore(f, limit, i - 1) + IdsOf(PageItems(f(i - 1), CursorAt(f, None, limit, i - 1), limit))
  }

  /**
   * The views are those of a recipient who walks through its unread events: whenever a next request is made, later
   * events may have arrived, and of the events there were the recipient has marked only such as read that it was shown.
   */
  ghost predicate MarksWhatItHasSeen(f: nat -> Snapshot, stored: nat -> Stored, q: Question, limit: nat) {
    forall i: nat :: MarksBefore(f, stored, q, limit, i)
  }

  ghost predicate MarksBefore(f: nat -> Snapshot, stored: nat -> Stored, q: Question, limit: nat, i: nat) {
    && f(i) == UnreadOf(stored(i), q)
    && (i > 0 && Reached(f, None, limit, i) ==>
          && EventsGrow(stored(i - 1).events, stored(i).events)
          && MarksOnly(stored(i - 1), stored(i), q.recipient, ShownBefore(f, limit, i)))
  }

  /** None of the ids is behind the cursor. */
  ghost predicate NotBehind(c: Snapshot, cursor: Option<Id>, ids: set<Id>) {
    forall id :: id in ids ==> id in c.stamps && Usable(c, cursor) && !Earlier(KeyOf(c, id), KeyOf(c, cursor.value))
  }

  /** What has been shown is not behind the cursor handed out with the page. */
  lemma ShownIsNotBehind(c: Snapshot, cursor: Option<Id>, limit: nat, seen: set<Id>)
    requires Valid(c) && limit > 0 && NotBehind(c, cursor, seen) && NextCursor(c, cursor, limit).Some?
    ensures NotBehind(c, NextCursor(c, cursor, limit), seen + IdsOf(PageItems(c, cursor, limit)))
  {
    var last := LastOfPage(c, cursor, limit);
    var page := PageItems(c, cursor, limit);
    PageIsSorted(c, cursor, limit);
    assert page[limit - 1] == last && last in page;
    forall id | id in seen ensures !Earlier(KeyOf(c, id), last) {
      assert Behind(c, cursor, last);
      EarlierIsTotalOrder(KeyOf(c, id), last, KeyOf(c, cursor.value));
    }
    forall id | id in IdsOf(page) ensures id in c.stamps && !Earlier(KeyOf(c, id), last) {
      var i :| 0 <= i < |page| && page[i].id == id;
      assert page[i] in Selected(c, cursor) && page[i] == KeyOf(c, id);
      EarlierIsTotalOrder(page[i], last, page[i]);
    }
  }

  /** A later event is not earlier than one that was there before. */
  lemma NewIsNotBehind(before: Events, after: Events, id: Id, at: Id)
    requires EventsGrow(before, after) && at in before && id in after
    requires Earlier(Key(after[id].timestamp, id), Key(before[at].timestamp, at))
    ensures id in before
  {
    EarlierIsTotalOrder(Key(after[id].timestamp, id), Key(before[at].timestamp, at), Key(after[id].timestamp, id));
  }

  /** Later events and marking what is not behind a document leave the unread events behind it as they are. */
  lemma ChangesAreSameBehind(a: Stored, b: Stored, q: Question, at: Id, ids: set<Id>)
    requires at in a.events && EventsGrow(a.events, b.events) && MarksOnly(a, b, q.recipient, ids)
    requires NotBehind(UnreadOf(a, q), Some(at), ids)
    ensures SameBehind(UnreadOf(a, q), UnreadOf(b, q), at)
  {
    var c, d := UnreadOf(a, q), UnreadOf(b, q);
    forall id | id in d.wanted && Earlier(KeyOf(d, id), KeyOf(c, at))
      ensures id in c.wanted && KeyOf(d, id) == KeyOf(c, id)
    {
      NewIsNotBehind(a.events, b.events, id, at);
    }
    forall id | id in c.wanted && Earlier(KeyOf(c, id), KeyOf(c, at))
      ensures id in d.wanted && KeyOf(d, id) == KeyOf(c, id)
    {
      assert id !in ids;
    }
  }

  /** Time stamps depend neither on receipts nor on later events. */
  lemma StillNotBehind(a: Stored, b: Stored, q: Question, cursor: Option<Id>, ids: set<Id>)
    requires EventsGrow(a.events, b.events) && NotBehind(UnreadOf(a, q), cursor, ids)
    ensures NotBehind(UnreadOf(b, q), cursor, ids)
  {
    var c, d := UnreadOf(a, q), UnreadOf(b, q);
    forall id | id in ids
      ensures id in d.stamps && Usable(d, cursor) && !Earlier(KeyOf(d, id), KeyOf(d, cursor.value))
    {
      assert id in c.stamps && cursor.value in c.stamps;
    }
  }

  /** One page, and the changes before the next. */
  lemma ChangesAfterPage(a: Stored, b: Stored, q: Question, seen: set<Id>, cursor: Option<Id>, limit: nat)
    requires limit > 0 && EventsGrow(a.events, b.events)
    requires var view := UnreadOf(a, q);
      && NotBehind(view, cursor, seen) && NextCursor(view, cursor, limit).Some?
      && MarksOnly(a, b, q.recipient, seen + IdsOf(PageItems(view, cursor, limit)))
    ensures var next := NextCursor(UnreadOf(a, q), cursor, limit);
      && Valid(UnreadOf(a, q)) && Valid(UnreadOf(b, q)) && SameBehind(UnreadOf(a, q), UnreadOf(b, q), next.value)
      && NotBehind(UnreadOf(b, q), next, seen + IdsOf(PageItems(UnreadOf(a, q), cursor, limit)))
  {
    var view := UnreadOf(a, q);
    var last := LastOfPage(view, cursor, limit);
    var shown := seen + IdsOf(PageItems(view, cursor, limit));
    ShownIsNotBehind(view, cursor, limit, seen);
    ChangesAreSameBehind(a, b, q, last.id, shown);
    StillNotBehind(a, b, q, Some(last.id), shown);
  }

  /** At every request made, nothing that was shown is behind the cursor. */
  lemma {:induction false} ShownStaysNotBehind(f: nat -> Snapshot, stored: nat -> Stored, q: Question, limit: nat,
                                               i: nat)
    requires limit > 0 && MarksWhatItHasSeen(f, stored, q, limit) && Reached(f, None, limit, i)
    ensures NotBehind(f(i), CursorAt(f, None, limit, i), ShownBefore(f, limit, i))
    ensures i > 0 ==> UndisturbedAt(f, None, limit, i)
  {
    if i > 0 {
      ShownStaysNotBehind(f, stored, q, limit, i - 1);
      assert MarksBefore(f, stored, q, limit, i - 1) && MarksBefore(f, stored, q, limit, i);
      var cursor := CursorAt(f, None, limit, i - 1);
      ChangesAfterPage(stored(i - 1), stored(i), q, ShownBefore(f, limit, i - 1), cursor, limit);
    }
  }

  /**
   * The usual walk through unread events, marking what has been shown as read before asking for the next page, while
   * later events arrive: it ends, and lists exactly the events that were unread at its start, once each and in order.
   */
  lemma MarkingWhileWalking(f: nat -> Snapshot, stored: nat -> Stored, q: Question, limit: nat, k: nat)
    requires limit > 0 && MarksWhatItHasSeen(f, stored, q, limit)
    requires k > |Unread(stored(0).receipts, q.recipient, Asked(stored(0).events, q.models, q.categories))|
    ensures EndsWithin(f, 0, None, limit, k)
    ensures FirstPages(f, 0, None, limit, k) == Listing(Selected(UnreadOf(stored(0), q), None))
  {
    var view := UnreadOf(stored(0), q);
    assert MarksBefore(f, stored, q, limit, 0);
    KeysOfIds(view, view.wanted);
    assert Selected(view, None) == set id | id in view.wanted :: KeyOf(view, id);
    forall i: nat ensures UndisturbedAt(f, None, limit, i) {
      if i > 0 && Reached(f, None, limit, i) {
        ShownStaysNotBehind(f, stored, q, limit, i);
      }
    }
    UndisturbedWalk(f, None, limit, k);
  }

  // ---- a client that reads page by page ----

  /** mark_read for each of the listed events. */
  function MarkedAll(receipts: seq<Receipt>, keys: seq<Key>, recipient: Id): seq<Receipt> {
    if keys == [] then receipts
    else Marked(MarkedAll(receipts, keys[..|keys| - 1], recipient), keys[|keys| - 1].id, recipient)
  }

  lemma IdsOfFrontAndLast(keys: seq<Key>)
    requires keys != []
    ensures IdsOf(keys) == IdsOf(keys[..|keys| - 1]) + {keys[|keys| - 1].id}
  {
    var front, last := keys[..|keys| - 1], keys[|keys| - 1];
    assert forall k :: k in keys <==> k in front || k == last by {
      assert keys == front + [last];
    }
    assert last in keys;
    forall id | id in IdsOf(front) ensures id in IdsOf(keys) {
      var k :| k in front && k.id == id;
      assert k in keys;
    }
  }

  lemma {:induction false} MarkedAllReads(receipts: seq<Receipt>, keys: seq<Key>, recipient: Id, id: Id, who: Id)
    ensures IsRead(MarkedAll(receipts, keys, recipient), id, who) <==>
            IsRead(receipts, id, who) || (who == recipient && id in IdsOf(keys))
  {
    if keys != [] {
      MarkedAllReads(receipts, keys[..|keys| - 1], recipient, id, who);
      IdsOfFrontAndLast(keys);
    }
  }

  /** Where the client stands when it makes a request: the receipts there are, and the cursor it was handed. */
  datatype Visit = Visit(receipts: seq<Receipt>, cursor: Option<Id>)

  /** Before each next request the client marks every event of the page as read. */
  ghost function VisitAt(s: Stored, q: Question, limit: nat, i: nat): Visit {
    if i == 0 then Visit(s.receipts, None)
    else
      var v := VisitAt(s, q, limit, i - 1);
      var view := UnreadOf(s.(receipts := v.receipts), q);
      Visit(MarkedAll(v.receipts, PageItems(view, v.cursor, limit), q.recipient), NextCursor(view, v.cursor, limit))
  }

  /** The collection at each request of this client, and its view of it. */
  ghost predicate ReadsPageByPage(f: nat -> Snapshot, stored: nat -> Stored, s: Stored, q: Question, limit: nat) {
    forall i: nat :: VisitsAt(f, stored, s, q, limit, i)
  }

  ghost predicate VisitsAt(f: nat -> Snapshot, stored: nat -> Stored, s: Stored, q: Question, limit: nat, i: nat) {
    stored(i) == s.(receipts := VisitAt(s, q, limit, i).receipts) && f(i) == UnreadOf(stored(i), q)
  }

  lemma NextVisit(f: nat -> Snapshot, stored: nat -> Stored, s: Stored, q: Question, limit: nat, i: nat)
    requires i > 0 && VisitsAt(f, stored, s, q, limit, i - 1)
    ensures VisitAt(s, q, limit, i).cursor == NextCursor(f(i - 1), VisitAt(s, q, limit, i - 1).cursor, limit)
  {
  }

  lemma VisitsFollowOneCursor(f: nat -> Snapshot, stored: nat -> Stored, s: Stored, q: Question, limit: nat, i: nat,
                              cursor: Option<Id>)
    requires i > 0 && CursorAt(f, None, limit, i - 1) == VisitAt(s, q, limit, i - 1).cursor == cursor
    requires VisitAt(s, q, limit, i).cursor == NextCursor(f(i - 1), cursor, limit)
    ensures CursorAt(f, None, limit, i) == VisitAt(s, q, limit, i).cursor
  {
  }

  lemma {:induction false} VisitsFollowCursors(f: nat -> Snapshot, stored: nat -> Stored, s: Stored, q: Question,
                                               limit: nat, i: nat)
    requires ReadsPageByPage(f, stored, s, q, limit)
    ensures CursorAt(f, None, limit, i) == VisitAt(s, q, limit, i).cursor
  {
    if i > 0 {
      VisitsFollowCursors(f, stored, s, q, limit, i - 1);
      assert VisitsAt(f, stored, s, q, limit, i - 1);
      NextVisit(f, stored, s, q, limit, i);
      VisitsFollowOneCursor(f, stored, s, q, limit, i, CursorAt(f, None, limit, i - 1));
    }
  }

  /** From one request to the next exactly the events of the page become read, for this recipient. */
  lemma VisitMarksPage(f: nat -> Snapshot, stored: nat -> Stored, s: Stored, q: Question, limit: nat, i: nat, id: Id,
                       who: Id)
    requires ReadsPageByPage(f, stored, s, q, limit)
    ensures stored(i).events == stored(i + 1).events == s.events
    ensures IsRead(stored(i + 1).receipts, id, who) <==>
            IsRead(stored(i).receipts, id, who) ||
            (who == q.recipient && id in IdsOf(PageItems(f(i), CursorAt(f, None, limit, i), limit)))
  {
    VisitsFollowCursors(f, stored, s, q, limit, i);
    assert VisitsAt(f, stored, s, q, limit, i) && VisitsAt(f, stored, s, q, limit, i + 1);
    MarkedAllReads(stored(i).receipts, PageItems(f(i), CursorAt(f, None, limit, i), limit), q.recipient, id, who);
  }

  lemma VisitMarks(f: nat -> Snapshot, stored: nat -> Stored, s: Stored, q: Question, limit: nat, i: nat)
    requires ReadsPageByPage(f, stored, s, q, limit)
    ensures stored(i).events == stored(i + 1).events == s.events
    ensures MarksOnly(stored(i), stored(i + 1), q.recipient, ShownBefore(f, limit, i + 1))
  {
    forall id
      ensures IsRead(stored(i).receipts, id, q.recipient) ==> IsRead(stored(i + 1).receipts, id, q.recipient)
      ensures IsRead(stored(i + 1).receipts, id, q.recipient) ==>
                IsRead(stored(i).receipts, id, q.recipient) || id in ShownBefore(f, limit, i + 1)
    {
      VisitMarksPage(f, stored, s, q, limit, i, id, q.recipient);
    }
    VisitMarksPage(f, stored, s, q, limit, i, "", "");
  }

  lemma VisitFits(f: nat -> Snapshot, stored: nat -> Stored, s: Stored, q: Question, limit: nat, i: nat)
    requires "" !in s.events && ReadsPageByPage(f, stored, s, q, limit)
    ensures MarksBefore(f, stored, q, limit, i)
  {
    assert VisitsAt(f, stored, s, q, limit, i);
    if i > 0 {
      VisitMarks(f, stored, s, q, limit, i - 1);
      SameEventsGrow(stored(i - 1).events, stored(i).events);
    }
  }

  lemma SameEventsGrow(before: Events, after: Events)
    requires after == before && "" !in before
    ensures EventsGrow(before, after)
  {
  }

  lemma VisitsMarkWhatTheyHaveSeen(f: nat -> Snapshot, stored: nat -> Stored, s: Stored, q: Question, limit: nat)
    requires "" !in s.events && ReadsPageByPage(f, stored, s, q, limit)
    ensures MarksWhatItHasSeen(f, stored, q, limit)
  {
    forall i: nat ensures MarksBefore(f, stored, q, limit, i) {
      VisitFits(f, stored, s, q, limit, i);
    }
  }

  lemma {:induction false} ReadStaysRead(f: nat -> Snapshot, stored: nat -> Stored, s: Stored, q: Question,
                                         limit: nat, n: nat, k: nat, id: Id)
    requires ReadsPageByPage(f, stored, s, q, limit) && n <= k && IsRead(stored(n).receipts, id, q.recipient)
    ensures IsRead(stored(k).receipts, id, q.recipient)
    decreases k - n
  {
    if n < k {
      VisitMarksPage(f, stored, s, q, limit, n, id, q.recipient);
      ReadStaysRead(f, stored, s, q, limit, n + 1, k, id);
    }
  }

  lemma {:induction false} ShownPagesAreRead(f: nat -> Snapshot, stored: nat -> Stored, s: Stored, q: Question,
                                             limit: nat, n: nat, k: nat)
    requires ReadsPageByPage(f, stored, s, q, limit) && n <= k
    ensures forall x :: x in FirstPages(f, n, CursorAt(f, None, limit, n), limit, k - n) ==>
              IsRead(stored(k).receipts, x.id, q.recipient)
    decreases k - n
  {
    if n < k {
      var cursor := CursorAt(f, None, limit, n);
      FirstPage(f, n, cursor, limit, k - n);
      ShownPagesAreRead(f, stored, s, q, limit, n + 1, k);
      forall x | x in PageItems(f(n), cursor, limit) ensures IsRead(stored(k).receipts, x.id, q.recipient) {
        assert x.id in IdsOf(PageItems(f(n), cursor, limit));
        VisitMarksPage(f, stored, s, q, limit, n, x.id, q.recipient);
        ReadStaysRead(f, stored, s, q, limit, n + 1, k, x.id);
      }
    }
  }

  lemma EverythingListedIsRead(s: Stored, q: Question, receipts: seq<Receipt>)
    requires "" !in s.events
    requires forall x :: x in Listing(Selected(UnreadOf(s, q), None)) ==> IsRead(receipts, x.id, q.recipient)
    requires forall id :: IsRead(s.receipts, id, q.recipient) ==> IsRead(receipts, id, q.recipient)
    ensures Unread(receipts, q.recipient, Asked(s.events, q.models, q.categories)) == {}
  {
    var l := Listing(Selected(UnreadOf(s, q), None));
    ListedIds(UnreadOf(s, q));
    forall id | id in Asked(s.events, q.models, q.categories) ensures IsRead(receipts, id, q.recipient) {
      if !IsRead(s.receipts, id, q.recipient) {
        assert id in Ids(l);
        var i :| 0 <= i < |l| && l[i].id == id;
        assert l[i] in l;
      }
    }
  }

  /**
   * A client that marks each page as read before it asks for the next one is shown exactly the events that were unread
   * at its start, once each and in order, and leaves nothing unread of what it asked for.
   */
  lemma ReadingPageByPage(f: nat -> Snapshot, stored: nat -> Stored, s: Stored, q: Question, limit: nat, k: nat)
    requires "" !in s.events && limit > 0 && ReadsPageByPage(f, stored, s, q, limit)
    requires k > |Unread(s.receipts, q.recipient, Asked(s.events, q.models, q.categories))|
    ensures EndsWithin(f, 0, None, limit, k)
    ensures FirstPages(f, 0, None, limit, k) == Listing(Selected(UnreadOf(s, q), None))
    ensures Unread(stored(k).receipts, q.recipient, Asked(s.events, q.models, q.categories)) == {}
  {
    assert VisitsAt(f, stored, s, q, limit, 0);
    assert stored(0) == s;
    VisitsMarkWhatTheyHaveSeen(f, stored, s, q, limit);
    MarkingWhileWalking(f, stored, q, limit, k);
    ShownPagesAreRead(f, stored, s, q, limit, 0, k);
    forall id | IsRead(s.receipts, id, q.recipient) ensures IsRead(stored(k).receipts, id, q.recipient) {
      ReadStaysRead(f, stored, s, q, limit, 0, k, id);
    }
    EverythingListedIsRead(s, q, stored(k).receipts);
  }
}
