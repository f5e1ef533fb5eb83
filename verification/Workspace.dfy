/**
 Conversations and their containers over time (app/services/container/orchestrator.py, gc.py and
 warm_pool.py), one operation after the other.

 Each operation happens at one moment, `clock`.  The two Redis writes that record an assignment are
 taken as one.  Times are milliseconds.
 */
module Workspace {
  import opened Wrappers

  type Id = nat

  type Conversation = string

  const CONTAINER_TTL: nat := 3600000
  const WARM_POOL_TTL: nat := 1800000
  const ORPHAN_MIN_AGE: nat := 300000

  datatype Status = Ready | Running | Idle | Draining

  datatype Info = Info(id: Id, c: Conversation, createdAt: int, lastActiveAt: int, status: Status)

  /** A forward hash: all fields, or only the two that an update of a missing hash writes. */
  datatype Hash = Full(info: Info, expireAt: int) | Partial(expireAt: int)

  datatype Back = Back(c: Conversation, expireAt: int)

  type Forward = map<Conversation, Hash>

  type Reverse = map<Id, Back>

  // ---- the two indexes ----

  /** Every complete forward entry and every reverse entry answer each other, with one deadline. */
  ghost predicate Mutual(f: Forward, r: Reverse) {
    && (forall c :: c in f && f[c].Full? ==>
          f[c].info.c == c && f[c].info.id in r && r[f[c].info.id] == Back(c, f[c].expireAt))
    && (forall id :: id in r ==> r[id].c in f && f[r[id].c].Full? && f[r[id].c].info.id == id)
  }

  function LiveForward(f: Forward, now: int): Forward {
    map c | c in f && now < f[c].expireAt :: f[c]
  }

  function LiveReverse(r: Reverse, now: int): Reverse {
    map id | id in r && now < r[id].expireAt :: r[id]
  }

  lemma ExpiryKeepsMutual(f: Forward, r: Reverse, now: int)
    requires Mutual(f, r)
    ensures Mutual(LiveForward(f, now), LiveReverse(r, now))
  {
  }

  lemma SaveKeepsMutual(f: Forward, r: Reverse, info: Info, deadline: int)
    requires Mutual(f, r) && info.id !in r && !(info.c in f && f[info.c].Full?)
    ensures Mutual(f[info.c := Full(info, deadline)], r[info.id := Back(info.c, deadline)])
  {
  }

  /** Container id and conversation c are each other's, as far as the indexes know them. */
  predicate Paired(f: Forward, r: Reverse, id: Id, c: Conversation) {
    && (c in f && f[c].Full? ==> f[c].info.id == id)
    && (id in r ==> r[id].c == c)
  }

  lemma DeleteKeepsMutual(f: Forward, r: Reverse, id: Id, c: Conversation)
    requires Mutual(f, r) && Paired(f, r, id, c)
    ensures Mutual(f - {c}, r - {id})
  {
  }

  lemma RefreshKeepsMutual(f: Forward, r: Reverse, c: Conversation, at: int, status: Status, deadline: int)
    requires Mutual(f, r) && c in f && f[c].Full?
    ensures Mutual(f[c := Full(f[c].info.(lastActiveAt := at, status := status), deadline)],
                   r[f[c].info.id := Back(c, deadline)])
  {
  }

  lemma PartialKeepsMutual(f: Forward, r: Reverse, c: Conversation, deadline: int)
    requires Mutual(f, r) && !(c in f && f[c].Full?)
    ensures Mutual(f[c := Partial(deadline)], r)
  {
  }

  // ---- the pool ----

  datatype PoolEntry = PoolEntry(createdAt: int, expireAt: int)

  function LiveInfo(infos: map<Id, PoolEntry>, now: int): map<Id, PoolEntry> {
    map id | id in infos && now < infos[id].expireAt :: infos[id]
  }

  /** Pooled containers are different ones, made before `next` and never served. */
  ghost predicate Unserved(pool: seq<Id>, served: set<Id>, next: Id) {
    && (forall i :: 0 <= i < |pool| ==> pool[i] < next && pool[i] !in served)
    && (forall i, j :: 0 <= i < j < |pool| ==> pool[i] != pool[j])
  }

  lemma UnservedTail(pool: seq<Id>, served: set<Id>, next: Id)
    requires Unserved(pool, served, next) && pool != []
    ensures Unserved(pool[1..], served, next)
    ensures pool[0] < next && pool[0] !in served && pool[0] !in pool[1..]
  {
  }

  ghost function Elements(pool: seq<Id>): set<Id> {
    set id | id in pool
  }

  predicate Usable(id: Id, poolInfo: map<Id, PoolEntry>, healthy: set<Id>) {
    id in poolInfo && id in healthy
  }

  /** The pool from its first usable container on. */
  function DropUnusable(pool: seq<Id>, poolInfo: map<Id, PoolEntry>, healthy: set<Id>): (rest: seq<Id>)
    ensures rest != [] ==> Usable(rest[0], poolInfo, healthy)
  {
    if pool == [] || Usable(pool[0], poolInfo, healthy) then pool else DropUnusable(pool[1..], poolInfo, healthy)
  }

  /** What is dropped is exactly the containers before the first usable one. */
  lemma {:induction false} DroppedAreUnusable(pool: seq<Id>, poolInfo: map<Id, PoolEntry>, healthy: set<Id>)
    returns (k: nat)
    ensures k <= |pool| && DropUnusable(pool, poolInfo, healthy) == pool[k..]
    ensures forall i :: 0 <= i < k ==> !Usable(pool[i], poolInfo, healthy)
    ensures k < |pool| ==> Usable(pool[k], poolInfo, healthy)
  {
    if pool == [] || Usable(pool[0], poolInfo, healthy) {
      k := 0;
    } else {
      k := DroppedAreUnusable(pool[1..], poolInfo, healthy);
      k := k + 1;
      assert pool[1..][k - 1..] == pool[k..];
      assert forall i :: 0 < i < k ==> pool[i] == pool[1..][i - 1];
    }
  }

  /** What outside services do during one operation. */
  datatype Environment = Environment(healthy: set<Id>, stuck: set<Id>, creates: bool, proxyStarts: bool)

  /** An allocation succeeds: there is a container to give and its proxy starts. */
  predicate CanAllocate(pool: seq<Id>, poolInfo: map<Id, PoolEntry>, env: Environment) {
    && (DropUnusable(pool, poolInfo, env.healthy) != [] || env.creates)
    && env.proxyStarts
  }

  /** Why one that does not succeed fails: there is no container, or its proxy does not start. */
  function AllocationError(pool: seq<Id>, poolInfo: map<Id, PoolEntry>, env: Environment): (e: Failure)
    ensures e == CreateFailed || e == ProxyFailed
    ensures e == ProxyFailed ==> DropUnusable(pool, poolInfo, env.healthy) != [] || env.creates
    ensures e == CreateFailed ==> DropUnusable(pool, poolInfo, env.healthy) == [] && !env.creates
  {
    if DropUnusable(pool, poolInfo, env.healthy) == [] && !env.creates then CreateFailed else ProxyFailed
  }

  /** One attempt to make a container for the pool, and whether Docker then fails to remove it. */
  datatype Attempt = CreateFails | NeverReady(stuck: bool) | ComesUp

  const MAX_ATTEMPTS: nat := 3

  function Smaller(a: int, b: int): int {
    if a < b then a else b
  }

  function Larger(a: int, b: int): int {
    if a > b then a else b
  }

  /** How many containers the first n attempts make. */
  ghost function MadeBy(attempts: nat -> Attempt, n: nat): nat {
    if n == 0 then 0 else MadeBy(attempts, n - 1) + (if attempts(n - 1) == CreateFails then 0 else 1)
  }

  /** The containers that Docker could not remove after the first n attempts, when they are numbered from `next`. */
  ghost function LeftBehind(attempts: nat -> Attempt, next: Id, n: nat): set<Id> {
    if n == 0 then {}
    else
      LeftBehind(attempts, next, n - 1)
      + (if attempts(n - 1) == NeverReady(true) then {next + MadeBy(attempts, n - 1)} else {})
  }

  /** The attempts that are made: up to the first that comes up. */
  ghost function AttemptsMade(attempts: nat -> Attempt): nat {
    if attempts(0) == ComesUp then 1 else if attempts(1) == ComesUp then 2 else 3
  }

  lemma AttemptsMadeIs(attempts: nat -> Attempt, i: nat)
    requires i < 3 && forall j: nat :: j < i ==> attempts(j) != ComesUp
    ensures attempts(i) == ComesUp || i == 2 ==> AttemptsMade(attempts) == i + 1
  {
  }

  lemma AttemptStep(attempts: nat -> Attempt, next: Id, n: nat)
    ensures MadeBy(attempts, n + 1) == MadeBy(attempts, n) + (if attempts(n) == CreateFails then 0 else 1)
    ensures LeftBehind(attempts, next, n + 1)
         == LeftBehind(attempts, next, n)
          + (if attempts(n) == NeverReady(true) then {next + MadeBy(attempts, n)} else {})
  {
  }

  predicate Succeeds(attempts: nat -> Attempt) {
    exists i: nat :: i < MAX_ATTEMPTS && attempts(i) == ComesUp
  }

  datatype Failure = KeyError | CreateFailed | ProxyFailed

  /** How the stream from the container ends. */
  datatype StreamEnd = Completed | TimedOut | Crashed | ProxyLost(restarts: bool)

  predicate NeedsRecovery(e: StreamEnd) {
    e == TimedOut || e == Crashed || e == ProxyLost(false)
  }

  // ---- garbage collection ----

  datatype Settings = Settings(inactiveTtl: nat, absoluteTtl: nat)

  predicate ShouldDestroy(info: Info, cfg: Settings, now: int) {
    || now - info.lastActiveAt > cfg.inactiveTtl
    || now - info.createdAt > cfg.absoluteTtl
    || info.status == Draining
  }

  /** How the field with the creation time reads: a number (of seconds since 1970), a date text, or nothing. */
  datatype TimeField = Number | DateText | Missing

  /** A container as Docker lists it, with the time it was created at. */
  datatype Listed = Listed(id: Id, createdAt: int, reported: TimeField)

  /** Only a number is read as a time; a container without one counts as old enough. */
  predicate OldEnough(l: Listed, now: int) {
    l.reported == Number ==> now - l.createdAt > ORPHAN_MIN_AGE
  }

  ghost predicate DistinctIds(listing: seq<Listed>) {
    forall j, k :: 0 <= j < k < |listing| ==> listing[j].id != listing[k].id
  }

  /** The forward index after containers `gone` were drained and, unless stuck, forgotten. */
  function Swept(f: Forward, gone: set<Id>, stuck: set<Id>): Forward {
    map c | c in f && !(f[c].Full? && f[c].info.id in gone && f[c].info.id !in stuck) ::
      if f[c].Full? && f[c].info.id in gone then f[c].(info := f[c].info.(status := Draining)) else f[c]
  }

  lemma SweepKeepsMutual(f: Forward, r: Reverse, gone: set<Id>, stuck: set<Id>)
    requires Mutual(f, r)
    ensures Mutual(Swept(f, gone, stuck), r - (gone - stuck))
  {
  }

  /** A collection cycle means to destroy this container: what the pool does not hold and is expired or unknown. */
  predicate Doomed(l: Listed, f: Forward, r: Reverse, infos: map<Id, PoolEntry>, cfg: Settings, now: int) {
    && l.id !in infos
    && if l.id in r then r[l.id].c in f && f[r[l.id].c].Full? && ShouldDestroy(f[r[l.id].c].info, cfg, now)
       else OldEnough(l, now)
  }

  ghost function AllDoomed(listing: seq<Listed>, f: Forward, r: Reverse, infos: map<Id, PoolEntry>,
                           cfg: Settings, now: int): set<Id> {
    set l | l in listing && Doomed(l, f, r, infos, cfg, now) :: l.id
  }

  /** A container that no conversation is known to own and that Docker cannot remove ends the cycle. */
  predicate EndsCycle(l: Listed, f: Forward, r: Reverse, infos: map<Id, PoolEntry>, cfg: Settings, now: int,
                      stuck: set<Id>) {
    Doomed(l, f, r, infos, cfg, now) && l.id !in r && l.id in stuck
  }

  /** What garbage collection writes. */
  datatype Store = Store(fwd: Forward, rev: Reverse, containers: set<Id>, proxies: set<Id>)

  ghost function Sweep(s: Store, gone: set<Id>, stuck: set<Id>): Store {
    Store(Swept(s.fwd, gone, stuck), s.rev - (gone - stuck), s.containers - (gone - stuck), s.proxies - gone)
  }

  lemma SweepTwice(s: Store, g: set<Id>, h: set<Id>, stuck: set<Id>)
    ensures Sweep(Sweep(s, g, stuck), h, stuck) == Sweep(s, g + h, stuck)
  {
    assert Swept(Swept(s.fwd, g, stuck), h, stuck) == Swept(s.fwd, g + h, stuck);
  }

  lemma SweepNothing(s: Store, stuck: set<Id>)
    ensures Sweep(s, {}, stuck) == s
  {
    assert Swept(s.fwd, {}, stuck) == s.fwd;
  }

  /** Sweeping other containers does not change the judgement on this one. */
  lemma SweepKeepsDoomed(l: Listed, f: Forward, r: Reverse, infos: map<Id, PoolEntry>, cfg: Settings, now: int,
                         g: set<Id>, stuck: set<Id>)
    requires Mutual(f, r) && l.id !in g
    ensures Doomed(l, Swept(f, g, stuck), r - (g - stuck), infos, cfg, now) == Doomed(l, f, r, infos, cfg, now)
  {
  }

  lemma AllDoomedStep(listing: seq<Listed>, i: nat, f: Forward, r: Reverse, infos: map<Id, PoolEntry>,
                      cfg: Settings, now: int)
    requires i < |listing|
    requires DistinctIds(listing)
    ensures AllDoomed(listing[..i + 1], f, r, infos, cfg, now)
         == AllDoomed(listing[..i], f, r, infos, cfg, now)
          + if Doomed(listing[i], f, r, infos, cfg, now) then {listing[i].id} else {}
    ensures listing[i].id !in AllDoomed(listing[..i], f, r, infos, cfg, now)
  {
    assert listing[..i + 1] == listing[..i] + [listing[i]];
  }

  lemma SweepOne(s: Store, c: Conversation, stuck: set<Id>)
    requires Mutual(s.fwd, s.rev) && c in s.fwd && s.fwd[c].Full?
    ensures var info := s.fwd[c].info;
            var drained := s.fwd[c := s.fwd[c].(info := info.(status := Draining))];
            Sweep(s, {info.id}, stuck)
            == if info.id in stuck then Store(drained, s.rev, s.containers, s.proxies - {info.id})
               else Store(drained - {c}, s.rev - {info.id}, s.containers - {info.id}, s.proxies - {info.id})
  {
    var info := s.fwd[c].info;
    var drained := s.fwd[c := s.fwd[c].(info := info.(status := Draining))];
    if info.id in stuck {
      assert {info.id} - stuck == {};
      assert Swept(s.fwd, {info.id}, stuck) == drained;
    } else {
      assert {info.id} - stuck == {info.id};
      assert Swept(s.fwd, {info.id}, stuck) == drained - {c};
    }
  }

  /**
   What a conversation is given: the first usable pooled container with the time it was made at, or one
   made now; ready, and active now.
   */
  predicate GivenNow(info: Info, c: Conversation, pool: seq<Id>, poolInfo: map<Id, PoolEntry>, nextId: Id,
                     healthy: set<Id>, now: int) {
    var rest := DropUnusable(pool, poolInfo, healthy);
    info == if rest == [] then Info(nextId, c, now, now, Ready)
            else Info(rest[0], c, poolInfo[rest[0]].createdAt, now, Ready)
  }

  class Workspace {
    const cfg: Settings
    var clock: int
    var fwd: Forward
    var rev: Reverse
    var pool: seq<Id>
    var poolInfo: map<Id, PoolEntry>
    var containers: set<Id>
    var proxies: set<Id>
    var nextId: Id
    /** Every container that a conversation was ever given. */
    ghost var served: set<Id>

    ghost predicate Valid()
      reads this
    {
      && Mutual(fwd, rev)
      && "" !in fwd
      && rev.Keys <= served
      && (forall id :: id in served ==> id < nextId)
      && Unserved(pool, served, nextId)
    }

    ghost function Contents(): Store
      reads this
    {
      Store(fwd, rev, containers, proxies)
    }

    constructor (cfg: Settings, now: int)
      ensures Valid() && this.cfg == cfg && clock == now && nextId == 0
      ensures Contents() == Store(map[], map[], {}, {}) && pool == [] && poolInfo == map[] && served == {}
    {
      this.cfg := cfg;
      clock := now;
      fwd, rev := map[], map[];
      pool, poolInfo := [], map[];
      containers, proxies := {}, {};
      nextId := 0;
      served := {};
    }

    /** The conversation has a complete entry. */
    predicate Recorded(c: Conversation)
      reads this
    {
      c in fwd && fwd[c].Full?
    }

    /** A request of the conversation finds its container recorded and healthy. */
    predicate Keeps(c: Conversation, env: Environment)
      reads this
    {
      Recorded(c) && fwd[c].info.id in env.healthy
    }

    /** No proxy and, unless Docker cannot remove it, no container of this id. */
    predicate Gone(id: Id, stuck: set<Id>)
      reads this
    {
      id !in proxies && (id in stuck || id !in containers)
    }

    /** Time passes and Redis forgets what has expired; the two indexes forget together. */
    method AdvanceTo(now: int)
      requires Valid() && clock <= now
      modifies this`clock, this`fwd, this`rev, this`poolInfo
      ensures Valid() && clock == now
      ensures fwd == LiveForward(old(fwd), now) && rev == LiveReverse(old(rev), now)
      ensures poolInfo == LiveInfo(old(poolInfo), now)
    {
      ExpiryKeepsMutual(fwd, rev, now);
      clock := now;
      fwd := LiveForward(fwd, now);
      rev := LiveReverse(rev, now);
      poolInfo := LiveInfo(poolInfo, now);
    }

    /** One attempt, below the maximum size: only one that comes up adds to the pool. */
    method TryOne(attempt: Attempt) returns (up: bool)
      requires Valid()
      modifies this`pool, this`poolInfo, this`containers, this`nextId
      ensures Valid()
      ensures up <==> attempt == ComesUp
      ensures nextId == old(nextId) + (if attempt == CreateFails then 0 else 1)
      ensures containers == old(containers) + (if up || attempt == NeverReady(true) then {old(nextId)} else {})
      ensures pool == old(pool) + (if up then [old(nextId)] else [])
      ensures poolInfo == if up then old(poolInfo)[old(nextId) := PoolEntry(clock, clock + 1800000)] else old(poolInfo)
    {
      match attempt {
        case CreateFails =>
          return false;
        case NeverReady(stuck) =>
          if stuck {
            containers := containers + {nextId};
          }
          nextId := nextId + 1;
          return false;
        case ComesUp =>
          containers := containers + {nextId};
          poolInfo := poolInfo[nextId := PoolEntry(clock, clock + WARM_POOL_TTL)];
          pool := pool + [nextId];
          nextId := nextId + 1;
          return true;
      }
    }

    /**
     `_create_and_add_with_retry`: it adds one new container unless the pool is full or every attempt
     fails; containers of failed attempts that Docker cannot remove stay behind.
     */
    method CreateAndAdd(maxSize: int, attempts: nat -> Attempt) returns (ok: bool)
      requires Valid()
      modifies this`pool, this`poolInfo, this`containers, this`nextId
      ensures Valid()
      ensures ok <==> |old(pool)| < maxSize
                      && (attempts(0) == ComesUp || attempts(1) == ComesUp || attempts(2) == ComesUp)
      ensures ok ==> pool == old(pool) + [nextId - 1] && nextId > old(nextId)
      ensures var n := if |old(pool)| < maxSize then AttemptsMade(attempts) else 0;
              && nextId == old(nextId) + MadeBy(attempts, n)
              && containers == old(containers) + LeftBehind(attempts, old(nextId), n)
                               + (if ok then {nextId - 1} else {})
      ensures ok ==> poolInfo == old(poolInfo)[nextId - 1 := PoolEntry(clock, clock + 1800000)]
      ensures !ok ==> pool == old(pool) && poolInfo == old(poolInfo)
    {
      var i := 0;
      while i < MAX_ATTEMPTS
        invariant i <= MAX_ATTEMPTS && Valid() && pool == old(pool)
        invariant poolInfo == old(poolInfo) && nextId == old(nextId) + MadeBy(attempts, i)
        invariant containers == old(containers) + LeftBehind(attempts, old(nextId), i)
        invariant i > 0 ==> |pool| < maxSize
        invariant forall j: nat :: j < i ==> attempts(j) != ComesUp
      {
        if |pool| >= maxSize {
          return false;
        }
        AttemptsMadeIs(attempts, i);
        AttemptStep(attempts, old(nextId), i);
        var up := TryOne(attempts(i));
        if up {
          return true;
        }
        i := i + 1;
      }
      return false;
    }

    /**
     `replenish` with nothing else going on: the pool keeps what it had, grows to at most the smaller
     of the two sizes, and reaches it if every creator gets a container up.
     */
    method Replenish(minSize: int, maxSize: int, creators: nat -> nat -> Attempt)
      requires Valid()
      modifies this`pool, this`poolInfo, this`containers, this`nextId
      ensures Valid()
      ensures old(pool) <= pool
      ensures |pool| <= Larger(|old(pool)|, Smaller(minSize, maxSize))
      ensures (forall n: nat :: Succeeds(creators(n))) ==> |pool| == Larger(|old(pool)|, Smaller(minSize, maxSize))
    {
      var needed := minSize - |pool|;
      var n := 0;
      while n < needed
        invariant Valid() && old(pool) <= pool
        invariant n <= needed || n == 0
        invariant |pool| <= Larger(|old(pool)|, Smaller(|old(pool)| + n, maxSize))
        invariant (forall m: nat :: Succeeds(creators(m))) ==>
                    |pool| == Larger(|old(pool)|, Smaller(|old(pool)| + n, maxSize))
      {
        var added := CreateAndAdd(maxSize, creators(n));
        n := n + 1;
      }
    }

    /** `drain`: the pool is empty, its infos are gone, and so are its containers unless Docker cannot remove them. */
    method Drain(stuck: set<Id>)
      requires Valid()
      modifies this`pool, this`poolInfo, this`containers
      ensures Valid() && pool == []
      ensures poolInfo == old(poolInfo) - Elements(old(pool))
      ensures containers == old(containers) - (Elements(old(pool)) - stuck)
    {
      ghost var was := pool;
      ghost var i := 0;
      while pool != []
        invariant i <= |was| && pool == was[i..]
        invariant poolInfo == old(poolInfo) - Elements(was[..i])
        invariant containers == old(containers) - (Elements(was[..i]) - stuck)
        decreases |pool|
      {
        var id := pool[0];
        assert was[..i + 1] == was[..i] + [id];
        pool := pool[1..];
        i := i + 1;
        poolInfo := poolInfo - {id};
        if id !in stuck {
          containers := containers - {id};
        }
      }
      assert was[..i] == was;
    }

    /** The loop of `acquire`: the first usable pooled container, everything before it discarded. */
    method PopUsable(env: Environment) returns (r: Option<Info>)
      requires Valid()
      modifies this`pool, this`poolInfo, this`containers
      ensures Valid()
      ensures r.Some? ==> r.value.id !in served && r.value.id < nextId && r.value.id !in pool
      ensures var rest := DropUnusable(old(pool), old(poolInfo), env.healthy);
              if rest == [] then
                r == None && pool == []
              else
                && r == Some(Info(rest[0], "", old(poolInfo)[rest[0]].createdAt, clock, Ready))
                && pool == rest[1..]
      ensures poolInfo == old(poolInfo) - (Elements(old(pool)) - Elements(pool))
      ensures forall id :: id in containers <==>
                && id in old(containers)
                && (id !in old(pool) || id in pool || id in env.stuck || (r.Some? && r.value.id == id))
    {
      ghost var infos := poolInfo;
      while pool != []
        invariant DropUnusable(pool, infos, env.healthy) == DropUnusable(old(pool), infos, env.healthy)
        invariant forall id :: id in pool ==> id in old(pool)
        invariant forall id :: id in poolInfo <==> id in infos && (id !in old(pool) || id in pool)
        invariant forall id :: id in poolInfo ==> poolInfo[id] == infos[id]
        invariant forall id :: id in containers <==>
                    id in old(containers) && (id !in old(pool) || id in pool || id in env.stuck)
        invariant Unserved(pool, served, nextId)
        decreases |pool|
      {
        UnservedTail(pool, served, nextId);
        var id := pool[0];
        assert forall x :: x in pool <==> x == id || x in pool[1..];
        pool := pool[1..];
        if id in poolInfo && id in env.healthy {
          var createdAt := poolInfo[id].createdAt;
          poolInfo := poolInfo - {id};
          return Some(Info(id, "", createdAt, clock, Ready));
        }
        poolInfo := poolInfo - {id};
        if id !in env.stuck {
          containers := containers - {id};
        }
      }
      return None;
    }

    /** `WarmPoolManager.acquire`: a pooled container or a new one, which never served a conversation. */
    method Acquire(env: Environment) returns (r: Result<Info, Failure>)
      requires Valid()
      modifies this`pool, this`poolInfo, this`containers, this`nextId
      ensures Valid()
      ensures r.Ok? <==> DropUnusable(old(pool), old(poolInfo), env.healthy) != [] || env.creates
      ensures r.Err? ==> r.error == CreateFailed
      ensures r.Ok? ==> r.value.id !in served && r.value.id < nextId && r.value.id !in pool
      ensures var rest := DropUnusable(old(pool), old(poolInfo), env.healthy);
              if rest == [] then
                && pool == []
                && (r.Ok? ==> r.value == Info(old(nextId), "", clock, clock, Ready) && r.value.id in containers)
              else
                && pool == rest[1..]
                && r == Ok(Info(rest[0], "", old(poolInfo)[rest[0]].createdAt, clock, Ready))
                && (r.value.id in containers <==> r.value.id in old(containers))
      ensures poolInfo == old(poolInfo) - (Elements(old(pool)) - Elements(pool))
      ensures containers <= old(containers) + {old(nextId)}
    {
      var pooled := PopUsable(env);
      if pooled.Some? {
        return Ok(pooled.value);
      }
      if !env.creates {
        return Err(CreateFailed);
      }
      var id := nextId;
      nextId := nextId + 1;
      containers := containers + {id};
      return Ok(Info(id, "", clock, clock, Ready));
    }

    /** `_cleanup_container`. */
    method CleanupContainer(info: Info, env: Environment)
      requires Valid() && Paired(fwd, rev, info.id, info.c)
      modifies this`fwd, this`rev, this`containers, this`proxies
      ensures Valid()
      ensures fwd == old(fwd) - {info.c} && rev == old(rev) - {info.id}
      ensures containers == (if info.id in env.stuck then old(containers) else old(containers) - {info.id})
      ensures proxies == old(proxies) - {info.id}
    {
      DeleteKeepsMutual(fwd, rev, info.id, info.c);
      proxies := proxies - {info.id};
      if info.id !in env.stuck {
        containers := containers - {info.id};
      }
      fwd := fwd - {info.c};
      rev := rev - {info.id};
    }

    /** `_update_redis`; on a missing or partial hash it leaves one without the container id. */
    method UpdateRedis(info: Info, status: Status)
      requires Valid() && info.c != "" && Paired(fwd, rev, info.id, info.c)
      modifies this`fwd, this`rev
      ensures Valid()
      ensures old(info.c in fwd && fwd[info.c].Full?) ==>
                && fwd == old(fwd)[info.c := Full(old(fwd)[info.c].info.(lastActiveAt := clock, status := status),
                                                  clock + CONTAINER_TTL)]
                && rev == old(rev)[info.id := Back(info.c, clock + CONTAINER_TTL)]
      ensures !old(info.c in fwd && fwd[info.c].Full?) ==>
                fwd == old(fwd)[info.c := Partial(clock + CONTAINER_TTL)] && rev == old(rev)
    {
      var deadline := clock + CONTAINER_TTL;
      if info.c in fwd && fwd[info.c].Full? {
        RefreshKeepsMutual(fwd, rev, info.c, clock, status, deadline);
        fwd := fwd[info.c := Full(fwd[info.c].info.(lastActiveAt := clock, status := status), deadline)];
      } else {
        PartialKeepsMutual(fwd, rev, info.c, deadline);
        fwd := fwd[info.c := Partial(deadline)];
      }
      if info.id in rev {
        rev := rev[info.id := rev[info.id].(expireAt := deadline)];
      }
    }

    /** `_save_to_redis`. */
    method SaveToRedis(info: Info)
      requires Valid() && info.c != "" && info.c !in fwd
      requires info.id !in served && info.id < nextId && info.id !in pool
      modifies this`fwd, this`rev, this`served
      ensures Valid()
      ensures fwd == old(fwd)[info.c := Full(info, clock + CONTAINER_TTL)]
      ensures rev == old(rev)[info.id := Back(info.c, clock + CONTAINER_TTL)]
      ensures served == old(served) + {info.id}
    {
      SaveKeepsMutual(fwd, rev, info, clock + CONTAINER_TTL);
      fwd := fwd[info.c := Full(info, clock + CONTAINER_TTL)];
      rev := rev[info.id := Back(info.c, clock + CONTAINER_TTL)];
      served := served + {info.id};
    }

    /** The second half of `get_or_create`: a container that no conversation ever had, or none. */
    method Allocate(c: Conversation, env: Environment) returns (r: Result<Info, Failure>)
      requires Valid() && c != "" && c !in fwd
      modifies this
      ensures Valid() && clock == old(clock)
      ensures r.Ok? <==> CanAllocate(old(pool), old(poolInfo), env)
      ensures r.Ok? ==> GivenNow(r.value, c, old(pool), old(poolInfo), old(nextId), env.healthy, clock)
      ensures r.Ok? ==> fwd == old(fwd)[c := Full(r.value, clock + CONTAINER_TTL)]
      ensures r.Ok? ==> rev == old(rev)[r.value.id := Back(c, clock + CONTAINER_TTL)]
      ensures r.Ok? ==> r.value.id !in old(served) && served == old(served) + {r.value.id}
      ensures proxies == old(proxies) + (if r.Ok? then {r.value.id} else {})
      ensures containers <= old(containers) + {old(nextId)}
      ensures r.Err? ==> fwd == old(fwd) && rev == old(rev)
      ensures r.Err? ==> r.error == AllocationError(old(pool), old(poolInfo), env)
    {
      var acquired := Acquire(env);
      if acquired.Err? {
        return Err(CreateFailed);
      }
      var info := acquired.value.(c := c, status := Ready, lastActiveAt := clock);
      if !env.proxyStarts {
        return Err(ProxyFailed);
      }
      proxies := proxies + {info.id};
      SaveToRedis(info);
      return Ok(info);
    }

    /**
     `get_or_create`: a healthy container of the conversation is kept and its lease renewed; otherwise
     the conversation gets one that no conversation ever had, or is left without any, and the container
     it had before is gone with its proxy.  A hash without the container id makes every call fail and
     stays as it is.
     */
    method GetOrCreate(c: Conversation, env: Environment) returns (r: Result<Info, Failure>)
      requires Valid() && c != ""
      modifies this
      ensures Valid() && clock == old(clock)
      ensures fwd - {c} == old(fwd) - {c}
      ensures r == Err(KeyError) <==> old(c in fwd && fwd[c].Partial?)
      ensures r == Err(KeyError) ==> fwd == old(fwd) && rev == old(rev)
      ensures r.Err? && r.error != KeyError ==> c !in fwd && r.error == AllocationError(old(pool), old(poolInfo), env)
      ensures rev.Keys <= old(rev).Keys + (if r.Ok? then {r.value.id} else {})
      ensures proxies <= old(proxies) + (if r.Ok? then {r.value.id} else {})
      ensures containers <= old(containers) + {old(nextId)}
      ensures r.Ok? ==> c in fwd && fwd[c] == Full(r.value, clock + CONTAINER_TTL) && r.value.lastActiveAt == clock
      ensures var kept := old(Keeps(c, env));
              && (kept ==>
                    && r == Ok(old(fwd)[c].info.(lastActiveAt := clock))
                    && containers == old(containers) && proxies == old(proxies) && pool == old(pool))
              && (!kept && r.Ok? ==>
                    && r.value.id !in old(served) && r.value.id in proxies
                    && GivenNow(r.value, c, old(pool), old(poolInfo), old(nextId), env.healthy, clock))
              && (!kept && !old(c in fwd && fwd[c].Partial?) ==>
                    (r.Ok? <==> CanAllocate(old(pool), old(poolInfo), env)))
              && (!kept && old(Recorded(c)) ==> Gone(old(fwd)[c].info.id, env.stuck))
      ensures r.Ok? ==>
                (ShouldDestroy(r.value, cfg, clock)
                 <==> clock - r.value.createdAt > cfg.absoluteTtl
                      || old(Keeps(c, env) && fwd[c].info.status == Draining))
    {
      if c in fwd && fwd[c].Partial? {
        return Err(KeyError);
      }
      if c in fwd {
        var existing := fwd[c].info;
        if existing.id in env.healthy {
          UpdateRedis(existing, existing.status);
          return Ok(fwd[c].info);
        }
        CleanupContainer(existing, env);
      }
      r := Allocate(c, env);
    }

    /** What `execute` does after a timeout, a crash or a proxy that does not come back. */
    method Recover(info: Info, env: Environment)
      requires Valid() && info.c != "" && Paired(fwd, rev, info.id, info.c)
      modifies this
      ensures Valid() && clock == old(clock)
      ensures fwd - {info.c} == old(fwd) - {info.c} && info.c in fwd
      ensures fwd[info.c].expireAt == clock + CONTAINER_TTL
      ensures fwd[info.c].Full? <==> CanAllocate(old(pool), old(poolInfo), env)
      ensures fwd[info.c].Full? ==>
                && fwd[info.c].info.id !in old(served) && fwd[info.c].info.id in proxies
                && GivenNow(fwd[info.c].info, info.c, old(pool), old(poolInfo), old(nextId), env.healthy, clock)
      ensures info.id in old(served) ==> Gone(info.id, env.stuck) && info.id !in rev
    {
      CleanupContainer(info, env);
      var r := GetOrCreate(info.c, env);
      if r.Err? {
        ghost var others := fwd - {info.c};
        UpdateRedis(info, Idle);
        assert fwd - {info.c} == others;
      }
    }

    /**
     The run itself: it starts by renewing the entry, which may expire before the run ends.  An entry
     that had gone missing by then comes back without the container id.
     */
    method RunUntil(info: Info, later: int)
      requires Valid() && info.c != "" && Paired(fwd, rev, info.id, info.c) && clock <= later
      modifies this`clock, this`fwd, this`rev, this`poolInfo
      ensures Valid() && clock == later && poolInfo == LiveInfo(old(poolInfo), later)
      ensures Paired(fwd, rev, info.id, info.c)
      ensures fwd - {info.c} == LiveForward(old(fwd), later) - {info.c}
      ensures info.c in fwd <==> later < old(clock) + CONTAINER_TTL
      ensures info.c in fwd ==>
                (fwd[info.c].Full? <==> old(Recorded(info.c)))
                && (fwd[info.c].Full? ==>
                      fwd[info.c].info == old(fwd)[info.c].info.(lastActiveAt := old(clock), status := Running))
    {
      UpdateRedis(info, Running);
      AdvanceTo(later);
    }

    /**
     `execute` with a container that was obtained before, recorded still or not: it runs until `later`,
     recovers if it has to, and records the state.  The conversation keeps a complete entry exactly
     when a recovery that was needed can allocate or, if none was needed, the entry was there at the
     start and the run ends before it expires; otherwise it is left with a hash without container id.
     */
    method Execute(info: Info, later: int, end: StreamEnd, env: Environment)
      requires Valid() && info.c != "" && Paired(fwd, rev, info.id, info.c) && clock <= later
      modifies this
      ensures Valid() && clock == later
      ensures fwd - {info.c} == LiveForward(old(fwd), later) - {info.c} && info.c in fwd
      ensures fwd[info.c].expireAt == later + CONTAINER_TTL
      ensures end == TimedOut || end == Crashed || end == ProxyLost(false) ==>
                && (fwd[info.c].Full? <==> CanAllocate(old(pool), LiveInfo(old(poolInfo), later), env))
                && (fwd[info.c].Full? ==> fwd[info.c].info.id !in old(served) && fwd[info.c].info.id in proxies)
                && (info.id in old(served) ==> Gone(info.id, env.stuck) && info.id !in rev)
      ensures end == Completed || end == ProxyLost(true) ==>
                && (fwd[info.c].Full? <==> old(Recorded(info.c)) && later < old(clock) + CONTAINER_TTL)
                && (fwd[info.c].Full? ==>
                      fwd[info.c].info == old(fwd)[info.c].info.(lastActiveAt := later, status := Idle))
    {
      RunUntil(info, later);
      if NeedsRecovery(end) {
        Recover(info, env);
      } else {
        ghost var others := fwd - {info.c};
        UpdateRedis(info, Idle);
        assert fwd - {info.c} == others;
      }
    }

    /** `_graceful_destroy`: a container that cannot be destroyed stays recorded, as draining. */
    method GracefulDestroy(info: Info, env: Environment)
      requires Valid() && info.c in fwd && fwd[info.c].Full? && fwd[info.c].info == info
      modifies this`fwd, this`rev, this`containers, this`proxies
      ensures Valid()
      ensures Contents() == Sweep(old(Contents()), {info.id}, env.stuck)
    {
      SweepKeepsMutual(fwd, rev, {info.id}, env.stuck);
      SweepOne(Contents(), info.c, env.stuck);
      fwd := fwd[info.c := fwd[info.c].(info := info.(status := Draining))];
      proxies := proxies - {info.id};
      if info.id !in env.stuck {
        containers := containers - {info.id};
        fwd := fwd - {info.c};
        rev := rev - {info.id};
      }
    }

    /** One container of a collection cycle; false when the cycle ends here with an exception. */
    method CollectOne(l: Listed, env: Environment) returns (goesOn: bool)
      requires Valid()
      modifies this`fwd, this`rev, this`containers, this`proxies
      ensures Valid()
      ensures var gone := if Doomed(l, old(fwd), old(rev), poolInfo, cfg, clock) then {l.id} else {};
              Contents() == Sweep(old(Contents()), gone, env.stuck)
      ensures goesOn <==> !EndsCycle(l, old(fwd), old(rev), poolInfo, cfg, clock, env.stuck)
    {
      goesOn := true;
      SweepNothing(Contents(), env.stuck);
      if l.id in poolInfo {
        return;
      }
      var c := if l.id in rev then rev[l.id].c else "";
      if c in fwd {
        if ShouldDestroy(fwd[c].info, cfg, clock) {
          GracefulDestroy(fwd[c].info, env);
        }
      } else if OldEnough(l, clock) {
        proxies := proxies - {l.id};
        if l.id in env.stuck {
          return false;
        }
        containers := containers - {l.id};
      }
    }

    /**
     `_collect` over what Docker lists: it handles the first n containers.  Of these exactly the doomed
     ones lose their proxy and, unless Docker cannot remove them, their container and both index
     entries; a doomed one that cannot be removed stays recorded, as draining.  The cycle ends early
     only at an unowned container that cannot be removed.
     */
    method Collect(listing: seq<Listed>, env: Environment) returns (n: nat)
      requires Valid()
      requires DistinctIds(listing)
      modifies this`fwd, this`rev, this`containers, this`proxies
      ensures Valid() && n <= |listing|
      ensures var gone := AllDoomed(listing[..n], old(fwd), old(rev), poolInfo, cfg, clock);
              Contents() == Sweep(old(Contents()), gone, env.stuck)
      ensures n < |listing| ==> n > 0 && EndsCycle(listing[n - 1], old(fwd), old(rev), poolInfo, cfg, clock, env.stuck)
      ensures forall k :: 0 <= k < n - 1 ==>
                !EndsCycle(listing[k], old(fwd), old(rev), poolInfo, cfg, clock, env.stuck)
    {
      ghost var f, r, infos, start := fwd, rev, poolInfo, Contents();
      SweepNothing(start, env.stuck);
      ghost var gone: set<Id> := {};
      n := 0;
      while n < |listing|
        invariant n <= |listing| && Valid()
        invariant gone == AllDoomed(listing[..n], f, r, infos, cfg, clock)
        invariant forall k :: 0 <= k < n ==> !EndsCycle(listing[k], f, r, infos, cfg, clock, env.stuck)
        invariant Contents() == Sweep(start, gone, env.stuck)
      {
        AllDoomedStep(listing, n, f, r, infos, cfg, clock);
        SweepKeepsDoomed(listing[n], f, r, infos, cfg, clock, gone, env.stuck);
        ghost var more := if Doomed(listing[n], f, r, infos, cfg, clock) then {listing[n].id} else {};
        SweepTwice(start, gone, more, env.stuck);
        var goesOn := CollectOne(listing[n], env);
        n := n + 1;
        gone := gone + more;
        if !goesOn {
          return;
        }
      }
    }
  }

  /**
   A run whose recovery cannot allocate leaves a hash without the container id.  Whatever the pool and
   Docker offer by then, the conversation's next request fails on it exactly while that hash lives.
   */
  method RequestAfterFailedRecovery(w: Workspace, info: Info, later: int, end: StreamEnd, env: Environment,
                                    wait: nat, env': Environment)
    returns (r: Result<Info, Failure>)
    requires w.Valid() && info.c != "" && Paired(w.fwd, w.rev, info.id, info.c) && w.clock <= later
    requires end == TimedOut || end == Crashed || end == ProxyLost(false)
    requires !CanAllocate(w.pool, LiveInfo(w.poolInfo, later), env)
    modifies w
    ensures r == Err(KeyError) <==> wait < 3600000
  {
    w.Execute(info, later, end, env);
    w.AdvanceTo(later + wait);
    r := w.GetOrCreate(info.c, env');
  }

  /**
   What a cycle is to keep: what the pool holds, what is assigned, not draining and within both limits,
   and unowned containers that Docker reports as young by a number.
   */
  ghost predicate RightlyKept(l: Listed, f: Forward, r: Reverse, infos: map<Id, PoolEntry>, cfg: Settings, now: int) {
    || l.id in infos
    || (exists c :: c in f && f[c].Full? && f[c].info.id == l.id && InUse(f[c].info, cfg, now))
    || (!(exists c :: c in f && f[c].Full? && f[c].info.id == l.id)
        && l.reported == Number && now - l.createdAt <= 300000)
  }

  ghost predicate InUse(info: Info, cfg: Settings, now: int) {
    now - info.lastActiveAt <= cfg.inactiveTtl && now - info.createdAt <= cfg.absoluteTtl && info.status != Draining
  }

  lemma DoomedIff(l: Listed, f: Forward, r: Reverse, infos: map<Id, PoolEntry>, cfg: Settings, now: int)
    requires Mutual(f, r)
    ensures Doomed(l, f, r, infos, cfg, now) <==> !RightlyKept(l, f, r, infos, cfg, now)
  {
    if l.id in r {
      var c := r[l.id].c;
      assert c in f && f[c].Full? && f[c].info.id == l.id;
      assert ShouldDestroy(f[c].info, cfg, now) <==> !InUse(f[c].info, cfg, now);
    }
  }

  /**
   A cycle dooms exactly what is not rightly kept; afterwards every survivor is rightly kept, and a second
   cycle at the same moment finds nothing to destroy.
   */
  lemma CollectionIsComplete(listing: seq<Listed>, f: Forward, r: Reverse, infos: map<Id, PoolEntry>,
                             cfg: Settings, now: int, survivors: seq<Listed>)
    requires Mutual(f, r) && DistinctIds(listing)
    requires forall l :: l in survivors ==> l in listing && l.id !in AllDoomed(listing, f, r, infos, cfg, now)
    ensures forall l :: l in listing ==>
              (l.id in AllDoomed(listing, f, r, infos, cfg, now) <==> !RightlyKept(l, f, r, infos, cfg, now))
    ensures var gone := AllDoomed(listing, f, r, infos, cfg, now);
            var f', r' := Swept(f, gone, {}), r - gone;
            && AllDoomed(survivors, f', r', infos, cfg, now) == {}
            && forall l :: l in survivors ==> RightlyKept(l, f', r', infos, cfg, now)
  {
    var gone := AllDoomed(listing, f, r, infos, cfg, now);
    SweepKeepsMutual(f, r, gone, {});
    assert gone - {} == gone;
    forall l | l in listing
      ensures l.id in gone <==> !RightlyKept(l, f, r, infos, cfg, now)
    {
      DoomedIff(l, f, r, infos, cfg, now);
      if l.id in gone {
        var other :| other in listing && Doomed(other, f, r, infos, cfg, now) && other.id == l.id;
        assert other == l;
      }
    }
    forall l | l in survivors
      ensures !Doomed(l, Swept(f, gone, {}), r - gone, infos, cfg, now)
      ensures RightlyKept(l, Swept(f, gone, {}), r - gone, infos, cfg, now)
    {
      SweepKeepsDoomed(l, f, r, infos, cfg, now, gone, {});
      DoomedIff(l, Swept(f, gone, {}), r - gone, infos, cfg, now);
    }
  }

  /**
   An unowned container below the minimum age survives a cycle exactly when Docker reports its creation
   time as a number.
   */
  lemma YoungOrphanSurvivesIff(listing: seq<Listed>, f: Forward, r: Reverse, infos: map<Id, PoolEntry>,
                               cfg: Settings, now: int, l: Listed)
    requires DistinctIds(listing) && l in listing
    requires l.id !in infos && l.id !in r && now - l.createdAt <= 300000
    ensures l.id !in AllDoomed(listing, f, r, infos, cfg, now) <==> l.reported == Number
  {
    if l.id in AllDoomed(listing, f, r, infos, cfg, now) {
      var other :| other in listing && Doomed(other, f, r, infos, cfg, now) && other.id == l.id;
      assert other == l;
    }
  }

  /** A recorded container that is listed and not pooled goes in a cycle exactly if it is to be destroyed. */
  lemma RecordedGoesIff(listing: seq<Listed>, f: Forward, r: Reverse, infos: map<Id, PoolEntry>, cfg: Settings,
                        now: int, c: Conversation)
    requires Mutual(f, r) && c in f && f[c].Full? && f[c].info.id !in infos
    requires exists l :: l in listing && l.id == f[c].info.id
    ensures f[c].info.id in AllDoomed(listing, f, r, infos, cfg, now) <==> ShouldDestroy(f[c].info, cfg, now)
  {
  }

  /**
   A request and, at once, a cycle in which Docker removes every container: the container that the
   conversation was given stays with it exactly if it is within the absolute limit and was not kept
   while draining, as one is that an earlier cycle could not remove.
   */
  method CollectAfterRequest(w: Workspace, c: Conversation, env: Environment, listing: seq<Listed>, env': Environment)
    returns (r: Result<Info, Failure>)
    requires w.Valid() && c != "" && DistinctIds(listing) && env'.stuck == {}
    modifies w
    ensures w.Valid() && (c in w.fwd && w.fwd[c].Full? ==> r.Ok? && w.fwd[c].info == r.value)
    ensures r.Ok? && r.value.id !in w.poolInfo && (exists l :: l in listing && l.id == r.value.id) ==>
              (c in w.fwd <==> && w.clock - r.value.createdAt <= w.cfg.absoluteTtl
                               && !old(w.Keeps(c, env) && w.fwd[c].info.status == Draining))
  {
    r := w.GetOrCreate(c, env);
    ghost var f, rev := w.fwd, w.rev;
    if r.Ok? && r.value.id !in w.poolInfo && exists l :: l in listing && l.id == r.value.id {
      RecordedGoesIff(listing, f, rev, w.poolInfo, w.cfg, w.clock, c);
    }
    var n := w.Collect(listing, env');
    assert n == |listing| && listing[..n] == listing;
    if r.Ok? {
      CollectedIffGone(f, AllDoomed(listing, f, rev, w.poolInfo, w.cfg, w.clock), c);
    }
  }

  lemma CollectedIffGone(f: Forward, gone: set<Id>, c: Conversation)
    requires c in f && f[c].Full?
    ensures var f' := Swept(f, gone, {});
            (c in f' <==> f[c].info.id !in gone) && (c in f' ==> f'[c] == f[c])
  {
  }

  /** `list_workspace_containers`: Docker's inspection gives the creation time as a date text. */
  function Inspected(created: seq<(Id, int)>): seq<Listed> {
    seq(|created|, i requires 0 <= i < |created| => Listed(created[i].0, created[i].1, DateText))
  }

  /** So the age limit protects no unowned container that the cycle gets from Docker, not even one made just now. */
  lemma InspectedOrphanIsDoomed(created: seq<(Id, int)>, i: nat, f: Forward, r: Reverse, infos: map<Id, PoolEntry>,
                                cfg: Settings, now: int)
    requires i < |created| && created[i].0 !in infos && created[i].0 !in r
    ensures created[i].0 in AllDoomed(Inspected(created), f, r, infos, cfg, now)
  {
    assert Inspected(created)[i] in Inspected(created);
  }

  /**
   A cycle in which Docker removes every container: it goes through the whole listing, survivors are
   rightly kept, and running it again at once would destroy nothing.  Young unowned containers are
   among the survivors exactly if Docker reported their creation time as a number.
   */
  method FullCycle(w: Workspace, listing: seq<Listed>, env: Environment, ghost survivors: seq<Listed>)
    requires w.Valid() && DistinctIds(listing) && env.stuck == {}
    requires forall l :: l in survivors <==>
               l in listing && l.id !in AllDoomed(listing, w.fwd, w.rev, w.poolInfo, w.cfg, w.clock)
    modifies w
    ensures w.Valid()
    ensures forall l :: l in listing && l.id in old(w.containers) ==> (l.id in w.containers <==> l in survivors)
    ensures forall l :: l in listing && l.id in old(w.containers) && l.id !in w.poolInfo && l.id !in old(w.rev)
                        && w.clock - l.createdAt <= ORPHAN_MIN_AGE ==>
              (l.id in w.containers <==> l.reported == Number)
    ensures AllDoomed(survivors, w.fwd, w.rev, w.poolInfo, w.cfg, w.clock) == {}
    ensures forall l :: l in survivors ==> RightlyKept(l, w.fwd, w.rev, w.poolInfo, w.cfg, w.clock)
  {
    CollectionIsComplete(listing, w.fwd, w.rev, w.poolInfo, w.cfg, w.clock, survivors);
    forall l | l in listing && l.id !in w.poolInfo && l.id !in w.rev && w.clock - l.createdAt <= ORPHAN_MIN_AGE
      ensures l.id !in AllDoomed(listing, w.fwd, w.rev, w.poolInfo, w.cfg, w.clock) <==> l.reported == Number
    {
      YoungOrphanSurvivesIff(listing, w.fwd, w.rev, w.poolInfo, w.cfg, w.clock, l);
    }
    ghost var gone := AllDoomed(listing, w.fwd, w.rev, w.poolInfo, w.cfg, w.clock);
    var n := w.Collect(listing, env);
    assert n == |listing| && listing[..n] == listing;
    assert gone - {} == gone;
  }
}
