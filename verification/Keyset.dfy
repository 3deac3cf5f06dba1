/** Keyset pagination: pages in (timestamp, id) descending order, continued from a cursor. */
module Keyset {
  import opened Common

  datatype Key = Key(timestamp: int, id: Id)

  /** a was stamped before b; ties are broken by the id. In a listing b comes first. */
  predicate Earlier(a: Key, b: Key) {
    a.timestamp < b.timestamp || (a.timestamp == b.timestamp && Below(a.id, b.id))
  }

  lemma EarlierIsTotalOrder(a: Key, b: Key, c: Key)
    ensures !Earlier(a, a)
    ensures Earlier(a, b) || a == b || Earlier(b, a)
    ensures Earlier(a, b) && Earlier(b, c) ==> Earlier(a, c)
    ensures !(Earlier(a, b) && Earlier(b, a))
  {
    BelowIrreflexive(a.id);
    BelowTotal(a.id, b.id);
    if Below(a.id, b.id) && Below(b.id, c.id) { BelowTransitive(a.id, b.id, c.id); }
    if Below(a.id, b.id) && Below(b.id, a.id) { BelowTransitive(a.id, b.id, a.id); }
  }

  ghost predicate Descending(l: seq<Key>) {
    forall i, j :: 0 <= i < j < |l| ==> Earlier(l[j], l[i])
  }

  /** Falling time stamps, and falling ids where they are equal. */
  ghost predicate NewestFirst(l: seq<Key>) {
    forall i, j :: 0 <= i < j < |l| ==>
      l[i].timestamp > l[j].timestamp || (l[i].timestamp == l[j].timestamp && Below(l[j].id, l[i].id))
  }

  lemma DescendingIsNewestFirst(l: seq<Key>)
    requires Descending(l)
    ensures NewestFirst(l)
  {
  }

  ghost predicate IsLatest(m: Key, s: set<Key>) {
    m in s && forall x :: x in s ==> x == m || Earlier(x, m)
  }

  lemma LatestExists(s: set<Key>)
    requires s != {}
    ensures exists m :: IsLatest(m, s)
  {
    var m :| m in s;
    if s == {m} {
      assert IsLatest(m, s);
    } else {
      LatestExists(s - {m});
      var n :| IsLatest(n, s - {m});
      EarlierIsTotalOrder(m, n, m);
      if Earlier(n, m) {
        forall x | x in s ensures x == m || Earlier(x, m) { EarlierIsTotalOrder(x, n, m); }
        assert IsLatest(m, s);
      } else {
        assert IsLatest(n, s);
      }
    }
  }

  /** The members of a set from the latest to the earliest. */
  ghost function Listing(s: set<Key>): seq<Key> {
    if s == {} then []
    else
      LatestExists(s);
      var m :| IsLatest(m, s);
      [m] + Listing(s - {m})
  }

  lemma {:induction false} ListingIsSorted(s: set<Key>)
    ensures Descending(Listing(s))
    ensures forall k :: k in Listing(s) <==> k in s
    ensures |Listing(s)| == |s|
  {
    if s != {} {
      var l := Listing(s);
      ListingIsSorted(s - {l[0]});
      assert l == [l[0]] + Listing(s - {l[0]});
      forall j | 1 <= j < |l| ensures Earlier(l[j], l[0]) {
        assert l[j] in Listing(s - {l[0]});
      }
    }
  }

  /** A descending list is determined by its members. */
  lemma {:induction false} DescendingIsUnique(a: seq<Key>, b: seq<Key>)
    requires Descending(a) && Descending(b) && forall k :: k in a <==> k in b
    ensures a == b
  {
    if a != [] { assert a[0] in a; }
    if b != [] { assert b[0] in b; }
    if a != [] {
      FirstIsLatest(a, b[0]);
      FirstIsLatest(b, a[0]);
      EarlierIsTotalOrder(a[0], b[0], a[0]);
      forall k ensures k in a[1..] <==> k in b[1..] {
        TailMembers(a, k);
        TailMembers(b, k);
      }
      DescendingIsUnique(a[1..], b[1..]);
    }
  }

  lemma FirstIsLatest(a: seq<Key>, k: Key)
    requires Descending(a) && k in a
    ensures k == a[0] || Earlier(k, a[0])
  {
  }

  lemma TailMembers(a: seq<Key>, k: Key)
    requires Descending(a) && a != []
    ensures k in a[1..] <==> k in a && k != a[0]
  {
    EarlierIsTotalOrder(k, k, k);
    assert a == [a[0]] + a[1..];
    if k in a[1..] {
      var j :| 0 <= j < |a[1..]| && a[1..][j] == k;
      assert a[j + 1] == k;
    }
  }

  lemma ListingOf(l: seq<Key>, s: set<Key>)
    requires Descending(l) && forall k :: k in l <==> k in s
    ensures l == Listing(s)
  {
    ListingIsSorted(s);
    DescendingIsUnique(l, Listing(s));
  }

  lemma SuffixDescends(l: seq<Key>, n: nat)
    requires Descending(l) && n <= |l|
    ensures Descending(l[n..])
  {
    forall i, j | 0 <= i < j < |l[n..]| ensures Earlier(l[n..][j], l[n..][i]) {
      assert l[n..][i] == l[n + i] && l[n..][j] == l[n + j];
    }
  }

  lemma SuffixIsEarlier(l: seq<Key>, i: nat, k: Key)
    requires Descending(l) && i < |l|
    ensures k in l[i + 1..] <==> k in l && Earlier(k, l[i])
  {
    if k in l[i + 1..] {
      var j :| 0 <= j < |l[i + 1..]| && l[i + 1..][j] == k;
      assert l[i + 1 + j] == k;
    }
    if k in l && Earlier(k, l[i]) {
      var j :| 0 <= j < |l| && l[j] == k;
      EarlierIsTotalOrder(k, l[i], k);
      assert j > i;
      assert l[i + 1..][j - i - 1] == k;
    }
  }

  /** What is earlier than the i-th entry of a listing is listed as the rest after it. */
  lemma ListingOfEarlier(s: set<Key>, i: nat)
    requires i < |Listing(s)|
    ensures Listing(set k | k in s && Earlier(k, Listing(s)[i])) == Listing(s)[i + 1..]
  {
    var l := Listing(s);
    ListingIsSorted(s);
    SuffixDescends(l, i + 1);
    forall k ensures k in l[i + 1..] <==> k in s && Earlier(k, l[i]) {
      SuffixIsEarlier(l, i, k);
    }
    ListingOf(l[i + 1..], set k | k in s && Earlier(k, l[i]));
  }

  // ---- pages ----

  /** A collection as a query sees it: the timestamp of every document, and the documents its filter lets through. */
  datatype Snapshot = Snapshot(stamps: map<Id, int>, wanted: set<Id>)

  /** Every document has a non-empty id. */
  predicate Valid(c: Snapshot) {
    "" !in c.stamps && c.wanted <= c.stamps.Keys
  }

  function KeyOf(c: Snapshot, id: Id): Key
    requires id in c.stamps
  {
    Key(c.stamps[id], id)
  }

  /** A cursor counts only when it is not empty and names a stored document; otherwise it is ignored. */
  predicate Usable(c: Snapshot, cursor: Option<Id>) {
    Truthy(cursor) && cursor.value in c.stamps
  }

  /** The documents a request may return. */
  function Selected(c: Snapshot, cursor: Option<Id>): set<Key> {
    set id | id in c.stamps && id in c.wanted && (Usable(c, cursor) ==> Earlier(KeyOf(c, id), KeyOf(c, cursor.value)))
      :: KeyOf(c, id)
  }

  /** A usable cursor leaves what is earlier than its document. */
  lemma SelectedAfter(c: Snapshot, cursor: Option<Id>)
    ensures Selected(c, cursor) ==
            if Usable(c, cursor) then set k | k in Selected(c, None) && Earlier(k, KeyOf(c, cursor.value))
            else Selected(c, None)
  {
    if Usable(c, cursor) {
      var after := set k | k in Selected(c, None) && Earlier(k, KeyOf(c, cursor.value));
      forall k | k in after ensures k in Selected(c, cursor) {
        assert k == KeyOf(c, k.id);
      }
      forall k | k in Selected(c, cursor) ensures k in after {
        assert k == KeyOf(c, k.id);
      }
    }
  }

  /** Distinct documents have distinct keys. */
  lemma {:induction false} KeysOfIds(c: Snapshot, ids: set<Id>)
    requires ids <= c.stamps.Keys
    ensures |set id | id in ids :: KeyOf(c, id)| == |ids|
    decreases ids
  {
    if ids != {} {
      var x :| x in ids;
      KeysOfIds(c, ids - {x});
      assert (set id | id in ids :: KeyOf(c, id)) == (set id | id in ids - {x} :: KeyOf(c, id)) + {KeyOf(c, x)};
    }
  }

  function Ids(keys: seq<Key>): seq<Id> {
    seq(|keys|, i requires 0 <= i < |keys| => keys[i].id)
  }

  /** The whole listing holds the key of every wanted document once, the newest first. */
  lemma ListedIds(c: Snapshot)
    requires Valid(c)
    ensures var l := Listing(Selected(c, None));
      && NewestFirst(l) && |l| == |c.wanted|
      && (forall k :: k in l ==> k.id in c.wanted && k == KeyOf(c, k.id))
      && forall id :: id in Ids(l) <==> id in c.wanted
  {
    var l := Listing(Selected(c, None));
    ListingIsSorted(Selected(c, None));
    DescendingIsNewestFirst(l);
    KeysOfIds(c, c.wanted);
    assert Selected(c, None) == set id | id in c.wanted :: KeyOf(c, id);
    forall k | k in l ensures k.id in c.wanted && k == KeyOf(c, k.id) {
      assert k in Selected(c, None);
    }
    forall id | id in c.wanted ensures id in Ids(l) {
      assert KeyOf(c, id) in Selected(c, None);
      var i :| 0 <= i < |l| && l[i] == KeyOf(c, id);
      assert Ids(l)[i] == id;
    }
    forall id | id in Ids(l) ensures id in c.wanted {
      var i :| 0 <= i < |Ids(l)| && Ids(l)[i] == id;
      assert l[i] in l;
    }
  }

  /** limit(n) on a list, and Python's s[:n]. */
  function Cut<T>(s: seq<T>, n: nat): seq<T> {
    if |s| > n then s[..n] else s
  }

  ghost function PageItems(c: Snapshot, cursor: Option<Id>, limit: nat): seq<Key> {
    Cut(Listing(Selected(c, cursor)), limit)
  }

  /** The cursor handed out: the last item's id when there is more to come. */
  ghost function NextCursor(c: Snapshot, cursor: Option<Id>, limit: nat): Option<Id> {
    var all := Listing(Selected(c, cursor));
    if |all| > limit && limit > 0 then Some(all[limit - 1].id) else None
  }

  // ---- walks ----

  /** Documents were only added; those there were are stamped and filtered as before. */
  ghost predicate Adds(a: Snapshot, b: Snapshot) {
    && (forall id :: id in a.stamps ==> id in b.stamps && b.stamps[id] == a.stamps[id])
    && forall id :: id in a.stamps ==> (id in a.wanted <==> id in b.wanted)
  }

  /** Documents were only added, each later than every one there was. */
  ghost predicate Grows(a: Snapshot, b: Snapshot) {
    && Adds(a, b)
    && forall id, new' :: id in a.stamps && new' in b.stamps && new' !in a.stamps ==>
         Earlier(KeyOf(a, id), KeyOf(b, new'))
  }

  ghost predicate AddsThroughout(f: nat -> Snapshot) {
    forall n: nat :: Valid(f(n)) && Adds(f(n), f(n + 1))
  }

  ghost predicate GrowsThroughout(f: nat -> Snapshot) {
    forall n: nat :: Valid(f(n)) && Grows(f(n), f(n + 1))
  }

  /** The document at is still there, and the wanted documents earlier than it are the same ones. */
  ghost predicate SameBehind(a: Snapshot, b: Snapshot, at: Id)
    requires Valid(a) && Valid(b)
  {
    && at in a.stamps && at in b.stamps && KeyOf(a, at) == KeyOf(b, at)
    && (forall id :: id in a.wanted && Earlier(KeyOf(a, id), KeyOf(a, at)) ==>
        id in b.wanted && KeyOf(b, id) == KeyOf(a, id))
    && forall id :: id in b.wanted && Earlier(KeyOf(b, id), KeyOf(a, at)) ==>
        id in a.wanted && KeyOf(b, id) == KeyOf(a, id)
  }

  /** Later documents are not behind anything. */
  lemma GrowingIsSameBehind(a: Snapshot, b: Snapshot, at: Id)
    requires Valid(a) && Valid(b) && Grows(a, b) && at in a.stamps
    ensures SameBehind(a, b, at)
  {
    forall id | id in b.wanted && Earlier(KeyOf(b, id), KeyOf(a, at))
      ensures id in a.wanted && KeyOf(b, id) == KeyOf(a, id)
    {
      EarlierIsTotalOrder(KeyOf(b, id), KeyOf(a, at), KeyOf(b, id));
    }
  }

  /** The document whose id is handed out: the last one of the page, with everything that is left earlier than it. */
  lemma LastOfPage(a: Snapshot, cursor: Option<Id>, limit: nat) returns (last: Key)
    requires Valid(a) && limit > 0 && NextCursor(a, cursor, limit).Some?
    ensures var all := Listing(Selected(a, cursor));
      && limit < |all| && last == all[limit - 1] && last in Selected(a, cursor)
      && last.id in a.stamps && last == KeyOf(a, last.id) && last.id != ""
      && NextCursor(a, cursor, limit) == Some(last.id)
      && Listing(set k | k in Selected(a, cursor) && Earlier(k, last)) == all[limit..]
  {
    var all := Listing(Selected(a, cursor));
    ListingIsSorted(Selected(a, cursor));
    last := all[limit - 1];
    assert last in Selected(a, cursor);
    ListingOfEarlier(Selected(a, cursor), limit - 1);
  }

  /** When nothing changes behind the cursor, the next request selects exactly what was left. */
  lemma NextRequestSelectsRest(a: Snapshot, b: Snapshot, cursor: Option<Id>, limit: nat)
    requires Valid(a) && Valid(b) && limit > 0 && NextCursor(a, cursor, limit).Some?
    requires SameBehind(a, b, NextCursor(a, cursor, limit).value)
    ensures var all := Listing(Selected(a, cursor));
      Listing(Selected(b, NextCursor(a, cursor, limit))) == all[limit..]
    ensures |Selected(b, NextCursor(a, cursor, limit))| < |Selected(a, cursor)|
  {
    var last := LastOfPage(a, cursor, limit);
    var c := NextCursor(a, cursor, limit);
    var left := set k | k in Selected(a, cursor) && Earlier(k, last);
    forall k ensures k in Selected(b, c) <==> k in left {
      if k in Selected(b, c) {
        assert k == KeyOf(b, k.id) && k == KeyOf(a, k.id);
        if Usable(a, cursor) {
          EarlierIsTotalOrder(k, last, KeyOf(a, cursor.value));
        }
      }
      if k in left {
        assert k == KeyOf(a, k.id) && k == KeyOf(b, k.id);
      }
    }
    assert Selected(b, c) == left;
    ListingIsSorted(Selected(a, cursor));
    ListingIsSorted(left);
  }

  /** So it does after a page even if later documents have arrived meanwhile. */
  lemma NextRequest(a: Snapshot, b: Snapshot, cursor: Option<Id>, limit: nat)
    requires Valid(a) && Valid(b) && Grows(a, b) && limit > 0 && NextCursor(a, cursor, limit).Some?
    ensures NextCursor(a, cursor, limit).value in b.stamps
    ensures var all := Listing(Selected(a, cursor));
      Listing(Selected(b, NextCursor(a, cursor, limit))) == all[limit..]
    ensures |Selected(b, NextCursor(a, cursor, limit))| < |Selected(a, cursor)|
  {
    var last := LastOfPage(a, cursor, limit);
    GrowingIsSameBehind(a, b, last.id);
    NextRequestSelectsRest(a, b, cursor, limit);
  }

  lemma PageThenRest(c: Snapshot, cursor: Option<Id>, limit: nat)
    requires limit > 0
    ensures var all := Listing(Selected(c, cursor));
      if NextCursor(c, cursor, limit).None? then PageItems(c, cursor, limit) == all
      else limit < |all| && PageItems(c, cursor, limit) + all[limit..] == all
  {
  }

  /** The items obtained by following cursors from the n-th snapshot on, one request per snapshot. */
  ghost function Walk(f: nat -> Snapshot, n: nat, cursor: Option<Id>, limit: nat): seq<Key>
    requires limit > 0 && GrowsThroughout(f)
    decreases |Selected(f(n), cursor)|
  {
    var next := NextCursor(f(n), cursor, limit);
    if next.None? then PageItems(f(n), cursor, limit)
    else
      NextRequest(f(n), f(n + 1), cursor, limit);
      PageItems(f(n), cursor, limit) + Walk(f, n + 1, next, limit)
  }

  /** Following cursors to the end lists exactly what the first request could see, in order and once each. */
  lemma {:induction false} WalkListsEverything(f: nat -> Snapshot, n: nat, cursor: Option<Id>, limit: nat)
    requires limit > 0 && GrowsThroughout(f)
    ensures Walk(f, n, cursor, limit) == Listing(Selected(f(n), cursor))
    decreases |Selected(f(n), cursor)|
  {
    var next := NextCursor(f(n), cursor, limit);
    PageThenRest(f(n), cursor, limit);
    if next.Some? {
      NextRequest(f(n), f(n + 1), cursor, limit);
      WalkListsEverything(f, n + 1, next, limit);
    }
  }

  /** Over a collection that does not change, a walk from the start lists every document the filter lets through. */
  lemma FixedWalk(c: Snapshot, limit: nat)
    requires Valid(c) && limit > 0
    ensures GrowsThroughout(n => c)
    ensures Walk(n => c, 0, None, limit) == Listing(Selected(c, None))
    ensures Selected(c, None) == set id | id in c.wanted :: KeyOf(c, id)
  {
    WalkListsEverything(n => c, 0, None, limit);
  }

  // ---- walks over collections that change in any other way ----

  /** The items of at most k requests, one per snapshot from the n-th on. */
  ghost function FirstPages(f: nat -> Snapshot, n: nat, cursor: Option<Id>, limit: nat, k: nat): seq<Key>
    decreases k
  {
    if k == 0 then []
    else
      var next := NextCursor(f(n), cursor, limit);
      PageItems(f(n), cursor, limit) + if next.None? then [] else FirstPages(f, n + 1, next, limit, k - 1)
  }

  /** One of the first k requests hands out no cursor. */
  ghost predicate EndsWithin(f: nat -> Snapshot, n: nat, cursor: Option<Id>, limit: nat, k: nat)
    decreases k
  {
    k > 0 &&
    var next := NextCursor(f(n), cursor, limit);
    next.None? || EndsWithin(f, n + 1, next, limit, k - 1)
  }

  /** The cursor of the i-th request of a walk, if it is made. */
  ghost function CursorAt(f: nat -> Snapshot, start: Option<Id>, limit: nat, i: nat): Option<Id> {
    if i == 0 then start else NextCursor(f(i - 1), CursorAt(f, start, limit, i - 1), limit)
  }

  /** Every request before the i-th has handed out a cursor. */
  ghost predicate Reached(f: nat -> Snapshot, start: Option<Id>, limit: nat, i: nat) {
    i > 0 ==> Reached(f, start, limit, i - 1) && CursorAt(f, start, limit, i).Some?
  }

  /** Since the request before the i-th nothing has changed behind the cursor that it handed out. */
  ghost predicate UndisturbedAt(f: nat -> Snapshot, start: Option<Id>, limit: nat, i: nat) {
    i > 0 && Reached(f, start, limit, i) ==>
      Valid(f(i - 1)) && Valid(f(i)) && SameBehind(f(i - 1), f(i), CursorAt(f, start, limit, i).value)
  }

  ghost predicate Undisturbed(f: nat -> Snapshot, start: Option<Id>, limit: nat) {
    forall i: nat :: UndisturbedAt(f, start, limit, i)
  }

  /** A walk that is not disturbed behind its cursors ends and lists exactly what the first request could see. */
  lemma UndisturbedWalk(f: nat -> Snapshot, start: Option<Id>, limit: nat, k: nat)
    requires limit > 0 && Undisturbed(f, start, limit) && k > |Selected(f(0), start)|
    ensures EndsWithin(f, 0, start, limit, k)
    ensures FirstPages(f, 0, start, limit, k) == Listing(Selected(f(0), start))
  {
    RestOfUndisturbedWalk(f, start, limit, 0, k);
  }

  lemma {:induction false} RestOfUndisturbedWalk(f: nat -> Snapshot, start: Option<Id>, limit: nat, n: nat, k: nat)
    requires limit > 0 && Undisturbed(f, start, limit) && Reached(f, start, limit, n)
    requires k > |Selected(f(n), CursorAt(f, start, limit, n))|
    ensures EndsWithin(f, n, CursorAt(f, start, limit, n), limit, k)
    ensures FirstPages(f, n, CursorAt(f, start, limit, n), limit, k) ==
            Listing(Selected(f(n), CursorAt(f, start, limit, n)))
    decreases k
  {
    var cursor := CursorAt(f, start, limit, n);
    var next := NextCursor(f(n), cursor, limit);
    PageThenRest(f(n), cursor, limit);
    FirstPage(f, n, cursor, limit, k);
    if next.Some? {
      assert next == CursorAt(f, start, limit, n + 1) && UndisturbedAt(f, start, limit, n + 1);
      NextRequestSelectsRest(f(n), f(n + 1), cursor, limit);
      RestOfUndisturbedWalk(f, start, limit, n + 1, k - 1);
    }
  }

  lemma FirstPage(f: nat -> Snapshot, n: nat, cursor: Option<Id>, limit: nat, k: nat)
    requires k > 0
    ensures var next := NextCursor(f(n), cursor, limit);
      && FirstPages(f, n, cursor, limit, k) ==
         PageItems(f(n), cursor, limit) + (if next.None? then [] else FirstPages(f, n + 1, next, limit, k - 1))
      && (EndsWithin(f, n, cursor, limit, k) <==> next.None? || EndsWithin(f, n + 1, next, limit, k - 1))
  {
  }

  /** What follows a cursor is earlier than its document; every other cursor is ignored. */
  ghost predicate Behind(c: Snapshot, cursor: Option<Id>, x: Key) {
    Usable(c, cursor) ==> Earlier(x, KeyOf(c, cursor.value))
  }

  lemma PageIsSorted(c: Snapshot, cursor: Option<Id>, limit: nat)
    ensures var page := PageItems(c, cursor, limit);
      && Descending(page)
      && forall x :: x in page ==> x in Selected(c, cursor) && Behind(c, cursor, x)
  {
    ListingIsSorted(Selected(c, cursor));
    forall x | x in PageItems(c, cursor, limit) ensures x in Selected(c, cursor) && Behind(c, cursor, x) {
      assert x in Listing(Selected(c, cursor));
    }
  }

  /** Whatever was selected is on the page or still selected by the next request, if documents are only added. */
  lemma NothingIsSkipped(a: Snapshot, b: Snapshot, cursor: Option<Id>, limit: nat, x: Key)
    requires Valid(a) && Adds(a, b) && limit > 0 && x in Selected(a, cursor)
    ensures NextCursor(a, cursor, limit).None? ==> x in PageItems(a, cursor, limit)
    ensures NextCursor(a, cursor, limit).Some? ==>
              x in PageItems(a, cursor, limit) || x in Selected(b, NextCursor(a, cursor, limit))
  {
    var all := Listing(Selected(a, cursor));
    ListingIsSorted(Selected(a, cursor));
    var i :| 0 <= i < |all| && all[i] == x;
    if NextCursor(a, cursor, limit).Some? {
      var last := LastOfPage(a, cursor, limit);
      if i < limit {
        assert PageItems(a, cursor, limit)[i] == x;
      } else {
        assert Earlier(all[i], all[limit - 1]);
        assert x == KeyOf(a, x.id) && x == KeyOf(b, x.id) && last == KeyOf(b, last.id);
      }
    }
  }

  lemma DescendingConcat(a: seq<Key>, b: seq<Key>)
    requires Descending(a) && Descending(b)
    requires forall x, i :: x in b && 0 <= i < |a| ==> Earlier(x, a[i])
    ensures Descending(a + b)
  {
    var l := a + b;
    forall i, j | 0 <= i < j < |l| ensures Earlier(l[j], l[i]) {
      if i < |a| <= j {
        assert l[j] == b[j - |a|] && l[j] in b;
      }
    }
  }

  /** A page and what comes behind its last item, put together. */
  lemma PagesJoin(a: Snapshot, b: Snapshot, cursor: Option<Id>, limit: nat, rest: seq<Key>)
    requires Valid(a) && Adds(a, b) && limit > 0 && NextCursor(a, cursor, limit).Some?
    requires Descending(rest) && forall x :: x in rest ==> Behind(b, NextCursor(a, cursor, limit), x)
    ensures Descending(PageItems(a, cursor, limit) + rest)
    ensures forall x :: x in rest ==> Behind(a, cursor, x)
  {
    var last := LastOfPage(a, cursor, limit);
    var page := PageItems(a, cursor, limit);
    PageIsSorted(a, cursor, limit);
    assert page[|page| - 1] == last && last == KeyOf(b, last.id);
    forall x | x in rest ensures Behind(a, cursor, x) && forall i :: 0 <= i < |page| ==> Earlier(x, page[i]) {
      assert Earlier(x, last);
      if Usable(a, cursor) {
        EarlierIsTotalOrder(x, last, KeyOf(a, cursor.value));
      }
      forall i | 0 <= i < |page| ensures Earlier(x, page[i]) {
        EarlierIsTotalOrder(x, last, page[i]);
      }
    }
    DescendingConcat(page, rest);
  }

  /**
   * Whatever keys the documents have that are added between the requests: a walk lists in descending order and so
   * nothing twice, and when it ends everything that the first request could have selected is in it.
   */
  lemma {:induction false} WalkDuringAdditions(f: nat -> Snapshot, n: nat, cursor: Option<Id>, limit: nat, k: nat)
    requires limit > 0 && AddsThroughout(f)
    ensures var walk := FirstPages(f, n, cursor, limit, k);
      && Descending(walk)
      && (forall x :: x in walk ==> Behind(f(n), cursor, x))
      && (EndsWithin(f, n, cursor, limit, k) ==> forall x :: x in Selected(f(n), cursor) ==> x in walk)
    decreases k
  {
    if k > 0 {
      var next := NextCursor(f(n), cursor, limit);
      PageIsSorted(f(n), cursor, limit);
      if next.Some? {
        WalkDuringAdditions(f, n + 1, next, limit, k - 1);
        PagesJoin(f(n), f(n + 1), cursor, limit, FirstPages(f, n + 1, next, limit, k - 1));
      }
      if EndsWithin(f, n, cursor, limit, k) {
        forall x | x in Selected(f(n), cursor) ensures x in FirstPages(f, n, cursor, limit, k) {
          NothingIsSkipped(f(n), f(n + 1), cursor, limit, x);
        }
      }
    }
  }

  lemma PageIsWanted(c: Snapshot, cursor: Option<Id>, limit: nat, x: Key)
    requires x in PageItems(c, cursor, limit)
    ensures x in Selected(c, None)
  {
    PageIsSorted(c, cursor, limit);
    SelectedAfter(c, cursor);
  }

  /** Some request from the n-th on and before the last-th let the document through. */
  ghost predicate WantedBetween(f: nat -> Snapshot, n: nat, last: nat, x: Key) {
    exists m: nat :: n <= m < last && x in Selected(f(m), None)
  }

  lemma OnPageOrLater(f: nat -> Snapshot, n: nat, cursor: Option<Id>, limit: nat, k: nat, x: Key)
    requires x in FirstPages(f, n, cursor, limit, k)
    ensures k > 0
    ensures var next := NextCursor(f(n), cursor, limit);
      || x in PageItems(f(n), cursor, limit)
      || (next.Some? && x in FirstPages(f, n + 1, next, limit, k - 1))
  {
  }

  /** And it lists only what some request let through. */
  lemma {:induction false} WalkListsOnlyWanted(f: nat -> Snapshot, n: nat, cursor: Option<Id>, limit: nat, k: nat,
                                               x: Key)
    requires x in FirstPages(f, n, cursor, limit, k)
    ensures WantedBetween(f, n, n + k, x)
    decreases k
  {
    OnPageOrLater(f, n, cursor, limit, k, x);
    var next := NextCursor(f(n), cursor, limit);
    if next.Some? && x in FirstPages(f, n + 1, next, limit, k - 1) {
      WalkListsOnlyWanted(f, n + 1, next, limit, k - 1, x);
      WantedLater(f, n, n + k, x);
    } else {
      PageIsWanted(f(n), cursor, limit, x);
      WantedOnce(f, n, n + k, n, x);
    }
  }

  lemma WantedOnce(f: nat -> Snapshot, from: nat, to: nat, m: nat, x: Key)
    requires from <= m < to && x in Selected(f(m), None)
    ensures WantedBetween(f, from, to, x)
  {
  }

  lemma WantedLater(f: nat -> Snapshot, from: nat, to: nat, x: Key)
    requires WantedBetween(f, from + 1, to, x)
    ensures WantedBetween(f, from, to, x)
  {
    var m: nat :| from + 1 <= m < to && x in Selected(f(m), None);
    WantedOnce(f, from, to, m, x);
  }

  /** find().sort().limit(): the first entries of the listing, found by taking the latest again and again. */
  method FirstOf(s: set<Key>, count: nat) returns (docs: seq<Key>)
    ensures docs == Cut(Listing(s), count)
  {
    docs := [];
    var rest := s;
    while rest != {} && |docs| < count
      invariant |docs| <= count
      invariant Listing(s) == docs + Listing(rest)
      decreases rest
    {
      LatestExists(rest);
      var m :| m in rest && forall x :: x in rest ==> x == m || Earlier(x, m);
      ListingStep(rest, m);
      assert docs + ([m] + Listing(rest - {m})) == (docs + [m]) + Listing(rest - {m});
      docs := docs + [m];
      rest := rest - {m};
    }
    ListingIsSorted(rest);
    CutOfPrefix(docs, Listing(rest), count);
  }

  lemma CutOfPrefix(docs: seq<Key>, rest: seq<Key>, count: nat)
    requires |docs| <= count && (rest == [] || |docs| == count)
    ensures Cut(docs + rest, count) == docs
  {
  }

  lemma ListingStep(s: set<Key>, m: Key)
    requires IsLatest(m, s)
    ensures Listing(s) == [m] + Listing(s - {m})
  {
    ListingIsSorted(s - {m});
    var l := [m] + Listing(s - {m});
    forall i, j | 0 <= i < j < |l| ensures Earlier(l[j], l[i]) {
      assert l[j] in Listing(s - {m});
    }
    ListingOf(l, s);
  }
}
