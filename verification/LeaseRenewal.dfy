/**
 Renewal of the conversation lock while an agent run streams
 (app/services/execute_service.py, `execute_streaming`).

 The lease is extended only when a stream event arrives, and only if more than a minute has
 passed since the last extension, so the gaps between events decide whether the lock survives.
 Times are milliseconds; Redis calls are instantaneous.
 */
module LeaseRenewal {
  import opened Wrappers
  import opened LeaseLock

  const LOCK_TTL: nat := 900000
  const EXTEND_TTL: nat := 600000
  const RENEW_INTERVAL: nat := 60000

  /** What one stream event does to the key and to `last_lock_extend_time`. */
  function OnEvent(slot: Slot, token: Token, last: nat, now: nat): (Slot, nat) {
    if now > last + RENEW_INTERVAL
    then (ExtendScript(slot, token, EXTEND_TTL, now).0, now)
    else (slot, last)
  }

  function AfterEvents(slot: Slot, token: Token, last: nat, events: seq<nat>): (Slot, nat)
    decreases |events|
  {
    if events == [] then (slot, last) else
    var (slot', last') := OnEvent(slot, token, last, events[0]);
    AfterEvents(slot', token, last', events[1..])
  }

  /** The token is in Redis at the arrival of every event. */
  predicate HeldAtEvery(slot: Slot, token: Token, last: nat, events: seq<nat>)
    decreases |events|
  {
    events == [] ||
    (OwnedBy(slot, token, events[0]) &&
     var (slot', last') := OnEvent(slot, token, last, events[0]);
     HeldAtEvery(slot', token, last', events[1..]))
  }

  /** Events arrive in order, each at most `gap` after the previous one. */
  predicate GapsWithin(prev: nat, events: seq<nat>, gap: nat)
    decreases |events|
  {
    events == [] || (prev <= events[0] <= prev + gap && GapsWithin(events[0], events[1..], gap))
  }

  /** No stream with gaps of at most `gap` after `start` ever finds the token gone. */
  ghost predicate SurvivesEveryStream(slot: Slot, token: Token, start: nat, gap: nat) {
    forall events: seq<nat> :: GapsWithin(start, events, gap) ==> HeldAtEvery(slot, token, start, events)
  }

  // ---- the bound is sufficient ----

  lemma {:induction false} SlackKeepsLease(slot: Slot, token: Token, last: nat, prev: nat, events: seq<nat>, gap: nat)
    requires slot.Some? && slot.value.owner == token
    requires prev <= last + RENEW_INTERVAL && last <= prev
    requires last + RENEW_INTERVAL + gap < slot.value.expireAt
    requires RENEW_INTERVAL + gap < EXTEND_TTL
    requires GapsWithin(prev, events, gap)
    ensures HeldAtEvery(slot, token, last, events)
    decreases |events|
  {
    if events != [] {
      var (slot', last') := OnEvent(slot, token, last, events[0]);
      SlackKeepsLease(slot', token, last', events[0], events[1..], gap);
    }
  }

  // ---- and it is necessary: a slow enough stream loses the lock ----

  /** A stream from `from` to `until` with steps of at most `gap`. */
  function Walk(from: nat, until: nat, gap: nat): (events: seq<nat>)
    requires from < until && 0 < gap
    ensures events != [] && events[|events| - 1] == until
    ensures forall i :: 0 <= i < |events| ==> from <= events[i] <= until
    ensures GapsWithin(from, events, gap)
    decreases until - from
  {
    if until - from <= gap then [until] else [from + gap] + Walk(from + gap, until, gap)
  }

  lemma {:induction false} GapsAppend(prev: nat, a: seq<nat>, b: seq<nat>, gap: nat)
    requires GapsWithin(prev, a, gap)
    requires GapsWithin(if a == [] then prev else a[|a| - 1], b, gap)
    ensures GapsWithin(prev, a + b, gap)
    decreases |a|
  {
    if a == [] {
      assert a + b == b;
    } else {
      assert (a + b)[1..] == a[1..] + b;
      GapsAppend(a[0], a[1..], b, gap);
    }
  }

  /** Events inside the renewal interval change nothing. */
  lemma {:induction false} QuietEvents(slot: Slot, token: Token, last: nat, a: seq<nat>, b: seq<nat>)
    requires forall i :: 0 <= i < |a| ==> a[i] <= last + RENEW_INTERVAL
    requires HeldAtEvery(slot, token, last, a + b)
    ensures HeldAtEvery(slot, token, last, b)
    decreases |a|
  {
    if a == [] {
      assert a + b == b;
    } else {
      assert (a + b)[1..] == a[1..] + b;
      QuietEvents(slot, token, last, a[1..], b);
    }
  }

  /** With no slack left after a renewal at `last`, some stream finds the lock gone. */
  lemma SilenceLosesLease(slot: Slot, token: Token, last: nat, gap: nat) returns (events: seq<nat>)
    requires 0 < gap
    requires slot.Some? && slot.value.expireAt <= last + RENEW_INTERVAL + gap
    ensures GapsWithin(last, events, gap) && !HeldAtEvery(slot, token, last, events)
  {
    var quiet := Walk(last, last + RENEW_INTERVAL, gap);
    var final := [last + RENEW_INTERVAL + gap];
    events := quiet + final;
    assert final[1..] == [];
    GapsAppend(last, quiet, final, gap);
    if HeldAtEvery(slot, token, last, events) {
      QuietEvents(slot, token, last, quiet, final);
      assert false;
    }
  }

  /**
   Lease continuity: for streams of any length whose events come at most `gap` apart, the lock is
   in Redis at every event exactly when setup + 60 s + gap < 900 s and 60 s + gap < 600 s.
   */
  lemma RenewalBound(token: Token, acquiredAt: nat, setup: nat, gap: nat)
    requires 0 < gap
    ensures SurvivesEveryStream(Some(Entry(token, acquiredAt + LOCK_TTL)), token, acquiredAt + setup, gap)
            <==> (setup + 60000 + gap < 900000 && 60000 + gap < 600000)
  {
    var slot := Some(Entry(token, acquiredAt + LOCK_TTL));
    var start := acquiredAt + setup;
    if setup + RENEW_INTERVAL + gap >= LOCK_TTL {
      var events := SilenceLosesLease(slot, token, start, gap);
    } else if RENEW_INTERVAL + gap >= EXTEND_TTL {
      var quiet := Walk(start, start + RENEW_INTERVAL, gap);
      var renewal := start + RENEW_INTERVAL + 1;
      var extended := Some(Entry(token, renewal + EXTEND_TTL));
      var rest := SilenceLosesLease(extended, token, renewal, gap);
      var late := [renewal] + rest;
      assert late[1..] == rest;
      assert OnEvent(slot, token, start, renewal) == (extended, renewal);
      var events := quiet + late;
      GapsAppend(start, quiet, late, gap);
      if HeldAtEvery(slot, token, start, events) {
        QuietEvents(slot, token, start, quiet, late);
        assert false;
      }
    } else {
      forall events | GapsWithin(start, events, gap)
        ensures HeldAtEvery(slot, token, start, events)
      {
        SlackKeepsLease(slot, token, start, start, events, gap);
      }
    }
  }

  /**
   The first renewal of a run shortens the lease exactly when it comes less than 300 s after the
   acquisition.
   */
  lemma FirstRenewalShortensIff(token: Token, acquiredAt: nat, start: nat, now: nat)
    requires acquiredAt <= start && start + RENEW_INTERVAL < now < acquiredAt + LOCK_TTL
    ensures var slot := Some(Entry(token, acquiredAt + LOCK_TTL));
            var (slot', last') := OnEvent(slot, token, start, now);
            && last' == now && OwnedBy(slot', token, now)
            && (slot'.value.expireAt < slot.value.expireAt <==> now - acquiredAt < 300000)
  {
    ExtendShortensIff(Some(Entry(token, acquiredAt + LOCK_TTL)), token, EXTEND_TTL, now);
  }

  /** Once a renewal has set the deadline, no event of the rest of the stream moves it earlier. */
  lemma {:induction false} LaterRenewalsNeverShorten(slot: Slot, token: Token, last: nat, events: seq<nat>)
    requires slot.Some? && slot.value.owner == token && slot.value.expireAt <= last + EXTEND_TTL
    ensures var slot' := AfterEvents(slot, token, last, events).0;
            slot'.Some? && slot'.value.owner == token && slot.value.expireAt <= slot'.value.expireAt
    decreases |events|
  {
    if events != [] {
      var (slot', last') := OnEvent(slot, token, last, events[0]);
      LaterRenewalsNeverShorten(slot', token, last', events[1..]);
    }
  }

  /** The event loop of `execute_streaming`, as far as the lock is concerned. */
  method RelayEvents(key: LockKey, token: Token, startedAt: nat, events: seq<nat>) returns (last: nat, held: bool)
    modifies key
    ensures (key.slot, last) == AfterEvents(old(key.slot), token, startedAt, events)
    ensures held == HeldAtEvery(old(key.slot), token, startedAt, events)
  {
    last := startedAt;
    held := true;
    var i := 0;
    while i < |events|
      invariant i <= |events|
      invariant AfterEvents(key.slot, token, last, events[i..]) == AfterEvents(old(key.slot), token, startedAt, events)
      invariant HeldAtEvery(old(key.slot), token, startedAt, events) ==
                (held && HeldAtEvery(key.slot, token, last, events[i..]))
    {
      held := held && key.slot.Some? && key.slot.value.owner == token && events[i] < key.slot.value.expireAt;
      assert events[i..][1..] == events[i + 1..];
      if events[i] > last + RENEW_INTERVAL {
        var _ := key.EvalExtend(token, EXTEND_TTL, events[i]);
        last := events[i];
      }
      i := i + 1;
    }
  }
}
