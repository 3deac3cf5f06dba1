/** The ABAC evaluator: one pass over all policies and events with early exit, against a deny-overrides rule. */
module Abac {
  import opened Common

  datatype Effect = Allow | Deny

  /** patterns stands for the subject, resource, location, time and action conditions of the event. */
  datatype Event = Event(eventId: Id, patterns: seq<string>)

  datatype MatcherVersion = LegacyV1 | GlobV2

  datatype Policy = Policy(policyId: Id, effect: Effect, events: seq<Event>, version: MatcherVersion, timezone: string)

  /** ABACEvent.matches for one fixed request. */
  type Matcher = (Event, MatcherVersion, string) -> bool

  datatype Reason = ExplicitDeny | AllowMatched | DefaultDeny

  datatype Decision = Decision(
    allowed: bool,
    matchedPolicy: Option<Id>,
    matchedEvent: Option<Id>,
    reason: Reason,
    matchedPolicyIds: seq<Id>,
    matchedEventIds: seq<Id>)

  predicate Hits(m: Matcher, p: Policy, e: Event) {
    m(e, p.version, p.timezone)
  }

  /** ABACPolicy.evaluate: the policy's effect if one of its events matches. */
  method EvaluatePolicy(m: Matcher, p: Policy) returns (r: Option<Effect>)
    ensures r == Verdict(m, p)
    ensures r == if exists e :: e in p.events && m(e, p.version, p.timezone) then Some(p.effect) else None
  {
    for i := 0 to |p.events|
      invariant forall j :: 0 <= j < i ==> !Hits(m, p, p.events[j])
    {
      if Hits(m, p, p.events[i]) {
        return Some(p.effect);
      }
    }
    return None;
  }

  function Verdict(m: Matcher, p: Policy): Option<Effect> {
    if exists e :: e in p.events && Hits(m, p, e) then Some(p.effect) else None
  }

  /** DENY overrides: some policy allows and none denies, whatever the order. */
  ghost predicate Allowed(m: Matcher, policies: seq<Policy>) {
    && (exists p :: p in policies && Verdict(m, p) == Some(Allow))
    && forall p :: p in policies ==> Verdict(m, p) != Some(Deny)
  }

  /** An event of a policy with this effect matches, judged by that policy's matcher version and time zone. */
  ghost predicate SomeMatches(m: Matcher, policies: seq<Policy>, effect: Effect) {
    exists p, e :: p in policies && p.effect == effect && e in p.events && m(e, p.version, p.timezone)
  }

  lemma AllowedByEvents(m: Matcher, policies: seq<Policy>)
    ensures Allowed(m, policies) <==> SomeMatches(m, policies, Allow) && !SomeMatches(m, policies, Deny)
  {
    if p :| p in policies && Verdict(m, p) == Some(Allow) {
      var e :| e in p.events && Hits(m, p, e);
      assert m(e, p.version, p.timezone);
    }
    forall p, e | p in policies && p.effect == Deny && e in p.events && m(e, p.version, p.timezone)
      ensures Verdict(m, p) == Some(Deny)
    {
      assert Hits(m, p, e);
    }
    forall p, e | p in policies && p.effect == Allow && e in p.events && m(e, p.version, p.timezone)
      ensures Verdict(m, p) == Some(Allow)
    {
      assert Hits(m, p, e);
    }
  }

  /** A policy and one of its events. */
  datatype Pair = Pair(policy: Policy, event: Event)

  function HitsInPolicy(m: Matcher, p: Policy, n: nat): seq<Pair>
    requires n <= |p.events|
  {
    if n == 0 then []
    else HitsInPolicy(m, p, n - 1) + if Hits(m, p, p.events[n - 1]) then [Pair(p, p.events[n - 1])] else []
  }

  /** All matching pairs in the order the evaluator meets them. */
  function AllHits(m: Matcher, policies: seq<Policy>): seq<Pair> {
    if policies == [] then []
    else
      var last := policies[|policies| - 1];
      AllHits(m, policies[..|policies| - 1]) + HitsInPolicy(m, last, |last.events|)
  }

  predicate NoDeny(hits: seq<Pair>) {
    forall i :: 0 <= i < |hits| ==> hits[i].policy.effect == Allow
  }

  function PolicyIds(hits: seq<Pair>): seq<Id> {
    seq(|hits|, i requires 0 <= i < |hits| => hits[i].policy.policyId)
  }

  function EventIds(hits: seq<Pair>): seq<Id> {
    seq(|hits|, i requires 0 <= i < |hits| => hits[i].event.eventId)
  }

  /**
   * The decision fits the list of all hits: a denial names the first hit of a DENY policy and has seen exactly the hits
   * up to it; without one all hits were seen and the first of them, if any, is the match of an allowing decision.
   */
  ghost predicate Fits(d: Decision, hits: seq<Pair>) {
    match d.reason
    case ExplicitDeny =>
      !d.allowed && exists k :: FirstDeny(hits, k) && Reports(d, Some(hits[k]), hits[..k + 1])
    case AllowMatched =>
      d.allowed && hits != [] && NoDeny(hits) && Reports(d, Some(hits[0]), hits)
    case DefaultDeny =>
      !d.allowed && hits == [] && Reports(d, None, [])
  }

  ghost predicate FirstDeny(hits: seq<Pair>, k: int) {
    0 <= k < |hits| && hits[k].policy.effect == Deny && NoDeny(hits[..k])
  }

  ghost predicate Reports(d: Decision, reported: Option<Pair>, seen: seq<Pair>) {
    && d.matchedPolicy == (if reported.Some? then Some(reported.value.policy.policyId) else None)
    && d.matchedEvent == (if reported.Some? then Some(reported.value.event.eventId) else None)
    && d.matchedPolicyIds == PolicyIds(seen)
    && d.matchedEventIds == EventIds(seen)
  }

  lemma {:induction false} HitsInPolicyMembers(m: Matcher, p: Policy, n: nat)
    requires n <= |p.events|
    ensures forall h :: h in HitsInPolicy(m, p, n) <==> h.policy == p && h.event in p.events[..n] && Hits(m, p, h.event)
  {
    if n > 0 {
      HitsInPolicyMembers(m, p, n - 1);
      assert p.events[..n] == p.events[..n - 1] + [p.events[n - 1]];
    }
  }

  lemma {:induction false} AllHitsMembers(m: Matcher, policies: seq<Policy>)
    ensures forall h :: h in AllHits(m, policies) <==>
            h.policy in policies && h.event in h.policy.events && Hits(m, h.policy, h.event)
  {
    if policies != [] {
      var front, last := policies[..|policies| - 1], policies[|policies| - 1];
      AllHitsMembers(m, front);
      HitsInPolicyMembers(m, last, |last.events|);
      assert last.events[..|last.events|] == last.events;
      assert policies == front + [last];
    }
  }

  /** Deny-overrides, read off the list of hits. */
  lemma AllowedByHits(m: Matcher, policies: seq<Policy>)
    ensures Allowed(m, policies) <==> AllHits(m, policies) != [] && NoDeny(AllHits(m, policies))
  {
    var hits := AllHits(m, policies);
    AllHitsMembers(m, policies);
    if hits != [] && NoDeny(hits) {
      assert hits[0] in hits;
      forall p | p in policies ensures Verdict(m, p) != Some(Deny) {
        if e :| e in p.events && Hits(m, p, e) {
          assert Pair(p, e) in hits;
        }
      }
    }
    if Allowed(m, policies) {
      var p :| p in policies && Verdict(m, p) == Some(Allow);
      var e :| e in p.events && Hits(m, p, e);
      assert Pair(p, e) in hits;
      forall i | 0 <= i < |hits| ensures hits[i].policy.effect == Allow {
        assert hits[i] in hits && Verdict(m, hits[i].policy) != Some(Deny);
      }
    }
  }

  lemma DecisionAllows(m: Matcher, policies: seq<Policy>, d: Decision)
    requires Fits(d, AllHits(m, policies))
    ensures d.allowed <==> Allowed(m, policies)
  {
    AllowedByHits(m, policies);
  }

  lemma {:induction false} HitsPrefix(m: Matcher, policies: seq<Policy>, i: nat, n: nat)
    requires i < |policies| && n <= |policies[i].events|
    ensures AllHits(m, policies[..i]) + HitsInPolicy(m, policies[i], n) <= AllHits(m, policies)
    decreases |policies| - i, |policies[i].events| - n
  {
    if n < |policies[i].events| {
      HitsPrefix(m, policies, i, n + 1);
    } else if i + 1 < |policies| {
      assert policies[..i + 1][..i] == policies[..i];
      HitsPrefix(m, policies, i + 1, 0);
    } else {
      assert policies[..i + 1] == policies;
    }
  }

  /** The accumulators of the evaluator after the hits seen so far. */
  ghost predicate Tracks(seen: seq<Pair>, policyIds: seq<Id>, eventIds: seq<Id>, firstAllow: Option<Pair>) {
    && policyIds == PolicyIds(seen)
    && eventIds == EventIds(seen)
    && firstAllow == if seen == [] then None else Some(seen[0])
  }

  lemma TracksStep(seen: seq<Pair>, policyIds: seq<Id>, eventIds: seq<Id>, firstAllow: Option<Pair>, hit: Pair)
    requires Tracks(seen, policyIds, eventIds, firstAllow)
    ensures policyIds + [hit.policy.policyId] == PolicyIds(seen + [hit])
    ensures eventIds + [hit.event.eventId] == EventIds(seen + [hit])
    ensures Tracks(seen + [hit], policyIds + [hit.policy.policyId], eventIds + [hit.event.eventId],
                   if firstAllow.None? then Some(hit) else firstAllow)
  {
  }

  /** The hits in the first i policies and the first n events of the next one. */
  ghost function HitsBefore(m: Matcher, policies: seq<Policy>, i: nat, n: nat): seq<Pair>
    requires i < |policies| && n <= |policies[i].events|
  {
    AllHits(m, policies[..i]) + HitsInPolicy(m, policies[i], n)
  }

  lemma HitsBeforeNextPolicy(m: Matcher, policies: seq<Policy>, i: nat)
    requires i < |policies|
    ensures HitsBefore(m, policies, i, 0) == AllHits(m, policies[..i])
    ensures HitsBefore(m, policies, i, |policies[i].events|) == AllHits(m, policies[..i + 1])
  {
    assert policies[..i + 1][..i] == policies[..i];
  }

  lemma HitsBeforeNextEvent(m: Matcher, policies: seq<Policy>, i: nat, n: nat)
    requires i < |policies| && n < |policies[i].events|
    ensures var event := policies[i].events[n];
      HitsBefore(m, policies, i, n + 1) ==
      HitsBefore(m, policies, i, n) + if Hits(m, policies[i], event) then [Pair(policies[i], event)] else []
  {
  }

  /** The evaluator: stop at the first matching DENY, remember the first matching ALLOW. */
  method Evaluate(m: Matcher, policies: seq<Policy>) returns (d: Decision)
    ensures Fits(d, AllHits(m, policies))
    ensures d.allowed <==> Allowed(m, policies)
    ensures d.allowed <==> SomeMatches(m, policies, Allow) && !SomeMatches(m, policies, Deny)
  {
    AllowedByEvents(m, policies);
    var firstAllow: Option<Pair> := None;
    var policyIds: seq<Id> := [];
    var eventIds: seq<Id> := [];
    ghost var seen: seq<Pair> := [];
    for i := 0 to |policies|
      invariant seen == AllHits(m, policies[..i]) && NoDeny(seen)
      invariant Tracks(seen, policyIds, eventIds, firstAllow)
    {
      var policy := policies[i];
      HitsBeforeNextPolicy(m, policies, i);
      for j := 0 to |policy.events|
        invariant seen == HitsBefore(m, policies, i, j) && NoDeny(seen)
        invariant Tracks(seen, policyIds, eventIds, firstAllow)
      {
        var event := policy.events[j];
        HitsBeforeNextEvent(m, policies, i, j);
        if !Hits(m, policy, event) {
          continue;
        }
        TracksStep(seen, policyIds, eventIds, firstAllow, Pair(policy, event));
        policyIds := policyIds + [policy.policyId];
        eventIds := eventIds + [event.eventId];
        if policy.effect == Deny {
          d := Decision(false, Some(policy.policyId), Some(event.eventId), ExplicitDeny, policyIds, eventIds);
          DenyDecides(m, policies, i, j, d);
          return;
        }
        seen := seen + [Pair(policy, event)];
        if firstAllow.None? {
          firstAllow := Some(Pair(policy, event));
        }
      }
    }
    assert policies[..|policies|] == policies;
    match firstAllow
    case Some(first) =>
      d := Decision(true, Some(first.policy.policyId), Some(first.event.eventId), AllowMatched, policyIds, eventIds);
      AllowDecides(m, policies, firstAllow, d);
    case None =>
      d := Decision(false, None, None, DefaultDeny, policyIds, eventIds);
      AllowDecides(m, policies, firstAllow, d);
  }

  /** Stopping at the first matching event of a DENY policy is right. */
  lemma DenyDecides(m: Matcher, policies: seq<Policy>, i: nat, j: nat, d: Decision)
    requires i < |policies| && j < |policies[i].events| && policies[i].effect == Deny
    requires Hits(m, policies[i], policies[i].events[j]) && NoDeny(HitsBefore(m, policies, i, j))
    requires !d.allowed && d.reason == ExplicitDeny
    requires var hit := Pair(policies[i], policies[i].events[j]);
      Reports(d, Some(hit), HitsBefore(m, policies, i, j) + [hit])
    ensures Fits(d, AllHits(m, policies)) && (d.allowed <==> Allowed(m, policies))
  {
    var before := HitsBefore(m, policies, i, j);
    var seen := before + [Pair(policies[i], policies[i].events[j])];
    HitsBeforeNextEvent(m, policies, i, j);
    HitsPrefix(m, policies, i, j + 1);
    DenyFits(AllHits(m, policies), seen, before, d);
    DecisionAllows(m, policies, d);
  }

  /** So is allowing on the first hit, and denying without any, once everything has been looked at. */
  lemma AllowDecides(m: Matcher, policies: seq<Policy>, first: Option<Pair>, d: Decision)
    requires NoDeny(AllHits(m, policies)) && Tracks(AllHits(m, policies), d.matchedPolicyIds, d.matchedEventIds, first)
    requires d.allowed == first.Some? && d.reason == if first.Some? then AllowMatched else DefaultDeny
    requires Reports(d, first, AllHits(m, policies))
    ensures Fits(d, AllHits(m, policies)) && (d.allowed <==> Allowed(m, policies))
  {
    DecisionAllows(m, policies, d);
  }

  lemma DenyFits(all: seq<Pair>, seen: seq<Pair>, before: seq<Pair>, d: Decision)
    requires seen <= all && |seen| > 0 && before == seen[..|seen| - 1] && NoDeny(before)
    requires seen[|seen| - 1].policy.effect == Deny
    requires !d.allowed && d.reason == ExplicitDeny && Reports(d, Some(seen[|seen| - 1]), seen)
    ensures Fits(d, all)
  {
    var k := |seen| - 1;
    assert all[..k] == before && all[..k + 1] == seen && all[k] == seen[k];
    assert FirstDeny(all, k);
  }

  // ---- order does not matter ----

  /** The same policy up to the order and repetition of its events. */
  ghost predicate SameUpToEvents(p: Policy, q: Policy) {
    p.(events := q.events) == q && forall e :: e in p.events <==> e in q.events
  }

  /** Reordering or repeating policies, and events within policies, never changes whether a request is allowed. */
  lemma OrderIsIrrelevant(m: Matcher, policies: seq<Policy>, others: seq<Policy>)
    requires forall p :: p in policies ==> exists q :: q in others && SameUpToEvents(p, q)
    requires forall q :: q in others ==> exists p :: p in policies && SameUpToEvents(p, q)
    ensures Allowed(m, policies) <==> Allowed(m, others)
  {
    forall p, q | SameUpToEvents(p, q) ensures Verdict(m, p) == Verdict(m, q) {
      SameVerdict(m, p, q);
    }
  }

  lemma SameVerdict(m: Matcher, p: Policy, q: Policy)
    requires SameUpToEvents(p, q)
    ensures Verdict(m, p) == Verdict(m, q)
  {
    assert forall e :: Hits(m, p, e) <==> Hits(m, q, e);
  }
}
