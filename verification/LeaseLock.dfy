/**
 The Redis lease behind the conversation lock (app/infrastructure/distributed_lock.py).

 One lock key is modelled.  Times are milliseconds; a key whose deadline has been
 reached reads as absent.  Tokens are the uuid4 values of `acquire`.
 */
module LeaseLock {
  import opened Wrappers

  type Token = nat

  datatype Entry = Entry(owner: Token, expireAt: nat)

  /** What the key holds; an entry past its deadline is still stored but no longer readable. */
  type Slot = Option<Entry>

  predicate OwnedBy(k: Slot, c: Token, now: nat) {
    k.Some? && k.value.owner == c && now < k.value.expireAt
  }

  predicate Free(k: Slot, now: nat) {
    k.Some? ==> k.value.expireAt <= now
  }

  // ---- the three atomic commands ----

  function SetNxPx(k: Slot, c: Token, ttl: nat, now: nat): (Slot, bool) {
    if Free(k, now) then (Some(Entry(c, now + ttl)), true) else (k, false)
  }

  function ReleaseScript(k: Slot, c: Token, now: nat): (Slot, bool) {
    if OwnedBy(k, c, now) then (None, true) else (k, false)
  }

  function ExtendScript(k: Slot, c: Token, ttl: nat, now: nat): (Slot, bool) {
    if OwnedBy(k, c, now) then (Some(Entry(c, now + ttl)), true) else (k, false)
  }

  // ---- clients, a network that delays or loses requests, and the clock ----

  datatype Op = Set | Extend | Release

  datatype Request = Request(op: Op, owner: Token, ttl: nat, sentAt: nat)

  /**
   `pending` are the requests the network still holds.  `lease[c]` is the end of the lease of
   client c, counted from the moment c sent the last SET or extend that succeeded.
   `released` are the clients that have sent a release.
   */
  datatype System = System(
    now: nat,
    slot: Slot,
    pending: seq<Request>,
    lease: map<Token, nat>,
    released: set<Token>)

  /** Any client may send anything at any time; the network may deliver late, reorder or drop. */
  datatype Action =
    | Tick(delta: nat)
    | Send(op: Op, owner: Token, ttl: nat)
    | Deliver(index: nat)
    | Drop(index: nat)

  function Init(): System {
    System(0, None, [], map[], {})
  }

  function WithoutRequest(s: System, i: nat): System
    requires i < |s.pending|
  {
    s.(pending := s.pending[..i] + s.pending[i + 1..])
  }

  function Serve(s: System, q: Request): System {
    match q.op
    case Set =>
      var (slot, ok) := SetNxPx(s.slot, q.owner, q.ttl, s.now);
      if ok then s.(slot := slot, lease := s.lease[q.owner := q.sentAt + q.ttl]) else s
    case Extend =>
      var (slot, ok) := ExtendScript(s.slot, q.owner, q.ttl, s.now);
      if ok then s.(slot := slot, lease := s.lease[q.owner := q.sentAt + q.ttl]) else s
    case Release =>
      var (slot, _) := ReleaseScript(s.slot, q.owner, s.now);
      s.(slot := slot)
  }

  function Apply(s: System, a: Action): System {
    match a
    case Tick(delta) => s.(now := s.now + delta)
    case Send(op, c, ttl) =>
      s.(pending := s.pending + [Request(op, c, ttl, s.now)],
         released := if op == Release then s.released + {c} else s.released)
    case Deliver(i) =>
      if i < |s.pending| then Serve(WithoutRequest(s, i), s.pending[i]) else s
    case Drop(i) =>
      if i < |s.pending| then WithoutRequest(s, i) else s
  }

  function Run(s: System, actions: seq<Action>): System
    decreases |actions|
  {
    if actions == [] then s else Run(Apply(s, actions[0]), actions[1..])
  }

  /** Client c has not released and is still inside the lease it can count on. */
  predicate Holds(s: System, c: Token) {
    c !in s.released && c in s.lease && s.now < s.lease[c]
  }

  // ---- safety over every run ----

  ghost predicate Inv(s: System) {
    && (forall i :: 0 <= i < |s.pending| ==> s.pending[i].sentAt <= s.now)
    && (forall i :: 0 <= i < |s.pending| && s.pending[i].op == Release ==> s.pending[i].owner in s.released)
    && (forall c :: Holds(s, c) ==> OwnedBy(s.slot, c, s.now) && s.lease[c] <= s.slot.value.expireAt)
  }

  lemma ServeKeepsInv(s: System, q: Request)
    requires Inv(s)
    requires q.sentAt <= s.now
    requires q.op == Release ==> q.owner in s.released
    ensures Inv(Serve(s, q))
  {
    var t := Serve(s, q);
    forall c | Holds(t, c)
      ensures OwnedBy(t.slot, c, t.now) && t.lease[c] <= t.slot.value.expireAt
    {
      if c == q.owner {
        assert q.op != Release;
      } else {
        assert Holds(s, c);
      }
    }
  }

  lemma ApplyKeepsInv(s: System, a: Action)
    requires Inv(s)
    ensures Inv(Apply(s, a))
  {
    match a
    case Tick(delta) =>
      forall c | Holds(Apply(s, a), c)
        ensures OwnedBy(s.slot, c, s.now + delta) && s.lease[c] <= s.slot.value.expireAt
      {
        assert Holds(s, c);
      }
    case Send(op, c, ttl) =>
      forall d | Holds(Apply(s, a), d)
        ensures OwnedBy(s.slot, d, s.now) && s.lease[d] <= s.slot.value.expireAt
      {
        assert Holds(s, d);
      }
    case Deliver(i) =>
      if i < |s.pending| {
        WithoutRequestKeepsInv(s, i);
        ServeKeepsInv(WithoutRequest(s, i), s.pending[i]);
      }
    case Drop(i) =>
      if i < |s.pending| {
        WithoutRequestKeepsInv(s, i);
      }
  }

  lemma WithoutRequestKeepsInv(s: System, i: nat)
    requires Inv(s) && i < |s.pending|
    ensures Inv(WithoutRequest(s, i))
  {
    var t := WithoutRequest(s, i);
    assert forall j :: 0 <= j < |t.pending| ==> t.pending[j] == s.pending[if j < i then j else j + 1];
    assert forall c :: Holds(t, c) ==> Holds(s, c);
  }

  lemma {:induction false} RunKeepsInv(s: System, actions: seq<Action>)
    requires Inv(s)
    ensures Inv(Run(s, actions))
    decreases |actions|
  {
    if actions != [] {
      ApplyKeepsInv(s, actions[0]);
      RunKeepsInv(Apply(s, actions[0]), actions[1..]);
    }
  }

  /**
   Lease safety: whatever the clients send, however late the network delivers and however the
   clock advances, a client inside its lease owns the key, so there is at most one.
   */
  lemma LeaseSafety(actions: seq<Action>, c: Token, d: Token)
    ensures var s := Run(Init(), actions);
            Holds(s, c) ==> OwnedBy(s.slot, c, s.now) && (Holds(s, d) ==> c == d)
  {
    RunKeepsInv(Init(), actions);
  }

  /** A client inside its lease cannot be dislodged by delivering any request of other clients. */
  lemma OthersCannotDislodge(actions: seq<Action>, c: Token, i: nat)
    requires Holds(Run(Init(), actions), c)
    requires i < |Run(Init(), actions).pending|
    requires Run(Init(), actions).pending[i].owner != c
    ensures var s := Run(Init(), actions);
            Apply(s, Deliver(i)).slot == s.slot && Holds(Apply(s, Deliver(i)), c)
  {
    RunKeepsInv(Init(), actions);
  }

  /** All requests under way or still to be sent come from clients other than c, and only some may be SETs. */
  ghost predicate OnlyOthers(s: System, actions: seq<Action>, c: Token, setsToo: bool) {
    && (forall i :: 0 <= i < |s.pending| ==> s.pending[i].owner != c && (s.pending[i].op == Set ==> setsToo))
    && (forall i :: 0 <= i < |actions| && actions[i].Send? ==>
          actions[i].owner != c && (actions[i].op == Set ==> setsToo))
  }

  lemma OthersStep(s: System, actions: seq<Action>, c: Token, setsToo: bool)
    requires actions != [] && OnlyOthers(s, actions, c, setsToo)
    ensures OnlyOthers(Apply(s, actions[0]), actions[1..], c, setsToo)
  {
    var t := Apply(s, actions[0]);
    if actions[0].Deliver? || actions[0].Drop? {
      var i := actions[0].index;
      if i < |s.pending| {
        assert t.pending == WithoutRequest(s, i).pending;
        assert forall j :: 0 <= j < |t.pending| ==> t.pending[j] == s.pending[if j < i then j else j + 1];
      }
    }
  }

  lemma {:induction false} ClockGoesOn(s: System, actions: seq<Action>)
    ensures s.now <= Run(s, actions).now
    decreases |actions|
  {
    if actions != [] {
      ClockGoesOn(Apply(s, actions[0]), actions[1..]);
    }
  }

  /**
   Stale clients change nothing: over any run in which only clients other than the key's owner act,
   the key stays as it is, if none of them sends a SET or if the key has not expired by the end.
   */
  lemma {:induction false} StaleClientsChangeNothing(s: System, actions: seq<Action>, c: Token, setsToo: bool)
    requires s.slot.Some? && s.slot.value.owner == c
    requires OnlyOthers(s, actions, c, setsToo)
    requires setsToo ==> Run(s, actions).now < s.slot.value.expireAt
    ensures Run(s, actions).slot == s.slot
    decreases |actions|
  {
    if actions != [] {
      OthersStep(s, actions, c, setsToo);
      ClockGoesOn(Apply(s, actions[0]), actions[1..]);
      StaleClientsChangeNothing(Apply(s, actions[0]), actions[1..], c, setsToo);
    }
  }

  /** An extend moves the deadline of its owner's key earlier exactly when the new time to live ends sooner. */
  lemma ExtendShortensIff(k: Slot, c: Token, ttl: nat, now: nat)
    requires OwnedBy(k, c, now)
    ensures var k' := ExtendScript(k, c, ttl, now).0;
            k'.Some? && k'.value.owner == c && (k'.value.expireAt < k.value.expireAt <==> now + ttl < k.value.expireAt)
  {
  }

  /**
   Extending replaces the remaining time and does not add to it: the SET of 900 s followed after
   61 s by an extend of 600 s ends the lease at 661 s, although 900 s had been granted.
   */
  lemma ExtendCanShorten()
    ensures var s := Run(Init(), [Send(Set, 7, 900000), Deliver(0)]);
            Run(s, [Tick(899999)]).slot.Some? && Holds(Run(s, [Tick(899999)]), 7)
    ensures var s := Run(Init(), [Send(Set, 7, 900000), Deliver(0), Tick(61000), Send(Extend, 7, 600000), Deliver(0)]);
            !OwnedBy(s.slot, 7, 661000) && OwnedBy(s.slot, 7, 660999)
  {
    var a := [Send(Set, 7, 900000), Deliver(0)];
    var s1 := Apply(Init(), a[0]);
    assert s1.pending == [Request(Set, 7, 900000, 0)];
    var s2 := Apply(s1, a[1]);
    assert a[1..] == [Deliver(0)] && a[1..][1..] == [];
    assert Run(Init(), a) == s2;
    var tick := [Tick(899999)];
    assert tick[1..] == [];
    assert Run(s2, tick) == Apply(s2, tick[0]);
    var b := a + [Tick(61000), Send(Extend, 7, 600000), Deliver(0)];
    assert b == [Send(Set, 7, 900000), Deliver(0), Tick(61000), Send(Extend, 7, 600000), Deliver(0)];
    RunAppend(Init(), a, b[2..]);
    assert b == a + b[2..];
    var s3 := Apply(s2, b[2]);
    var s4 := Apply(s3, b[3]);
    assert s4.pending == [Request(Extend, 7, 600000, 61000)];
    var s5 := Apply(s4, b[4]);
    var tail := b[2..];
    assert tail[0] == b[2] && tail[1..][0] == b[3] && tail[1..][1..] == [b[4]];
    assert [b[4]][1..] == [];
    assert Run(s4, [b[4]]) == s5;
    assert Run(s2, tail) == s5;
  }

  lemma {:induction false} RunAppend(s: System, a: seq<Action>, b: seq<Action>)
    ensures Run(s, a + b) == Run(Run(s, a), b)
    decreases |a|
  {
    if a == [] {
      assert a + b == b;
    } else {
      assert (a + b)[1..] == a[1..] + b;
      RunAppend(Apply(s, a[0]), a[1..], b);
    }
  }

  // ---- the code that issues the commands ----

  /** The Redis key, with the commands and scripts that `DistributedLockManager` sends. */
  class LockKey {
    var slot: Slot

    constructor ()
      ensures slot == None
    {
      slot := None;
    }

    /** SET key token NX PX ttl */
    method SetNx(c: Token, ttl: nat, now: nat) returns (ok: bool)
      modifies this
      ensures (slot, ok) == SetNxPx(old(slot), c, ttl, now)
      ensures ok <==> old(Free(slot, now))
      ensures ok ==> OwnedBy(slot, c, now) || ttl == 0
    {
      if slot.None? || slot.value.expireAt <= now {
        slot := Some(Entry(c, now + ttl));
        return true;
      }
      return false;
    }

    method EvalRelease(c: Token, now: nat) returns (ok: bool)
      modifies this
      ensures (slot, ok) == ReleaseScript(old(slot), c, now)
      ensures !OwnedBy(slot, c, now)
    {
      if slot.Some? && slot.value.owner == c && now < slot.value.expireAt {
        slot := None;
        return true;
      }
      return false;
    }

    method EvalExtend(c: Token, ttl: nat, now: nat) returns (ok: bool)
      modifies this
      ensures (slot, ok) == ExtendScript(old(slot), c, ttl, now)
      ensures !ok ==> slot == old(slot)
    {
      if slot.Some? && slot.value.owner == c && now < slot.value.expireAt {
        slot := Some(Entry(c, now + ttl));
        return true;
      }
      return false;
    }
  }

  datatype AcquireError = TimedOut | RedisFailed

  /** One turn of the acquire loop: the clock, and the key as the other clients left it. */
  datatype Turn = Turn(now: nat, others: Slot, redisUp: bool)

  /** The turn at which the loop stops, or the number of turns whose clock is before the end. */
  function StopTurn(turns: seq<Turn>, endTime: nat, i: nat): (k: nat)
    requires i <= |turns|
    ensures i <= k <= |turns|
    ensures forall j :: i <= j < k ==>
              turns[j].now < endTime && turns[j].redisUp && !Free(turns[j].others, turns[j].now)
    ensures k < |turns| ==>
              turns[k].now >= endTime || !turns[k].redisUp || Free(turns[k].others, turns[k].now)
    decreases |turns| - i
  {
    if i < |turns| && turns[i].now < endTime && turns[i].redisUp && !Free(turns[i].others, turns[i].now)
    then StopTurn(turns, endTime, i + 1)
    else i
  }

  /**
   `acquire`: retry SET NX until it succeeds, Redis fails or the deadline passes.  Between two
   turns the other clients leave the key as `turns` says; the last turn must reach the deadline.
   The lock is taken exactly at the first turn that finds the key free with Redis up, if that
   turn is before the deadline; then the key carries this token for the whole ttl.
   */
  method Acquire(key: LockKey, token: Token, ttl: nat, endTime: nat, turns: seq<Turn>)
    returns (r: Result<Token, AcquireError>)
    requires turns != [] && turns[|turns| - 1].now >= endTime
    modifies key
    ensures var k := StopTurn(turns, endTime, 0);
            && k < |turns|
            && (r == if turns[k].now >= endTime then Err(TimedOut)
                     else if !turns[k].redisUp then Err(RedisFailed)
                     else Ok(token))
            && (r.Ok? ==> key.slot == Some(Entry(token, turns[k].now + ttl)))
            && (r.Err? && k > 0 ==> key.slot == turns[k - 1].others)
            && (r.Err? && k == 0 ==> key.slot == old(key.slot))
  {
    var i := 0;
    while turns[i].now < endTime
      invariant i < |turns|
      invariant StopTurn(turns, endTime, i) == StopTurn(turns, endTime, 0)
      invariant key.slot == if i == 0 then old(key.slot) else turns[i - 1].others
      decreases |turns| - i
    {
      if !turns[i].redisUp {
        return Err(RedisFailed);
      }
      key.slot := turns[i].others;
      var acquired := key.SetNx(token, ttl, turns[i].now);
      if acquired {
        return Ok(token);
      }
      i := i + 1;
    }
    return Err(TimedOut);
  }
}
