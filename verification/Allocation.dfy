/**
 Concurrent allocation of containers (app/services/container/warm_pool.py, orchestrator.py, gc.py).

 A transition system over the shared Redis state and the tasks that are in the middle of a
 coroutine.  Each action is what one task does between two awaits, with LPOP and RPUSH atomic.
 Cleanups, garbage collection and expiring keys only ever delete index entries, so they appear as
 deletions that may happen at any time; any task may raise at any await.
 */
module Allocation {
  import opened Wrappers

  type Id = nat

  type Conversation = string

  /** A coroutine in progress; every other state of a coroutine holds no container. */
  datatype Task =
    | Idle
    | PastSizeCheck
    | Created(id: Id)
    | Acquiring(c: Conversation)
    | Popped(c: Conversation, id: Id)
    | Owning(c: Conversation, id: Id)
    | Saved(c: Conversation, id: Id)

  /**
   `next` is the next fresh container id.  `fwd` is the container id in the hash of a conversation,
   `rev` the reverse mapping, `poolInfo` the ids with a pool info hash.
   */
  datatype System = System(
    next: Id,
    pool: seq<Id>,
    poolInfo: set<Id>,
    fwd: map<Conversation, Id>,
    rev: map<Id, Conversation>,
    tasks: seq<Task>)

  /** The warm pool's maximum, and how many creators there are at a time at most. */
  datatype Limits = Limits(maxSize: int, creators: nat)

  datatype Action =
    | Spawn
    | CheckSize(t: nat)
    | Create(t: nat)
    | WriteInfo(t: nat)
    | Push(t: nat)
    | StartAcquire(t: nat, c: Conversation)
    | Pop(t: nat)
    | TakeHealthy(t: nat)
    | SkipUnhealthy(t: nat)
    | FallBack(t: nat)
    | SaveForward(t: nat)
    | SaveReverse(t: nat)
    | Raise(t: nat)
    | DropForward(c: Conversation)
    | DropReverse(id: Id)
    | DropInfo(id: Id)

  predicate IsCreator(task: Task) {
    task.PastSizeCheck? || task.Created?
  }

  /** The creators past the size check. */
  function Creators(tasks: seq<Task>): nat {
    if tasks == [] then 0
    else Creators(tasks[..|tasks| - 1]) + (if IsCreator(tasks[|tasks| - 1]) then 1 else 0)
  }

  function SetTask(s: System, t: nat, task: Task): System
    requires t < |s.tasks|
  {
    s.(tasks := s.tasks[t := task])
  }

  /** One step; an action that is not possible in the state changes nothing. */
  function Step(s: System, lim: Limits, a: Action): System {
    match a
    case Spawn => s.(tasks := s.tasks + [Idle])
    case DropForward(c) => s.(fwd := s.fwd - {c})
    case DropReverse(id) => s.(rev := s.rev - {id})
    case DropInfo(id) => s.(poolInfo := s.poolInfo - {id})
    case _ => if a.t < |s.tasks| then TaskStep(s, lim, a, s.tasks[a.t]) else s
  }

  predicate OfTask(a: Action) {
    !a.Spawn? && !a.DropForward? && !a.DropReverse? && !a.DropInfo?
  }

  function TaskStep(s: System, lim: Limits, a: Action, task: Task): System
    requires OfTask(a) && a.t < |s.tasks|
  {
    match a
    case CheckSize(t) =>
      if task == Idle && |s.pool| < lim.maxSize && Creators(s.tasks) < lim.creators
      then SetTask(s, t, PastSizeCheck) else s
    case Create(t) =>
      if task == PastSizeCheck then SetTask(s, t, Created(s.next)).(next := s.next + 1) else s
    case WriteInfo(t) =>
      if task.Created? then s.(poolInfo := s.poolInfo + {task.id}) else s
    case Push(t) =>
      if task.Created? then SetTask(s, t, Idle).(pool := s.pool + [task.id]) else s
    case StartAcquire(t, c) =>
      if task == Idle then SetTask(s, t, Acquiring(c)) else s
    case Pop(t) =>
      if task.Acquiring? && s.pool != [] then SetTask(s, t, Popped(task.c, s.pool[0])).(pool := s.pool[1..]) else s
    case TakeHealthy(t) =>
      if task.Popped? && task.id in s.poolInfo
      then SetTask(s, t, Owning(task.c, task.id)).(poolInfo := s.poolInfo - {task.id}) else s
    case SkipUnhealthy(t) =>
      if task.Popped? then SetTask(s, t, Acquiring(task.c)).(poolInfo := s.poolInfo - {task.id}) else s
    case FallBack(t) =>
      if task.Acquiring? && s.pool == []
      then SetTask(s, t, Owning(task.c, s.next)).(next := s.next + 1) else s
    case SaveForward(t) =>
      if task.Owning? then SetTask(s, t, Saved(task.c, task.id)).(fwd := s.fwd[task.c := task.id]) else s
    case SaveReverse(t) =>
      if task.Saved? then SetTask(s, t, Idle).(rev := s.rev[task.id := task.c]) else s
    case Raise(t) => SetTask(s, t, Idle)
  }

  function Init(): System {
    System(0, [], {}, map[], map[], [])
  }

  function Run(s: System, lim: Limits, actions: seq<Action>): System {
    if actions == [] then s else Step(Run(s, lim, actions[..|actions| - 1]), lim, actions[|actions| - 1])
  }

  // ---- who has a container ----

  datatype Claim =
    | InPool(index: nat)
    | Creating(t: nat)
    | InFlight(t: nat)
    | AssignedTo(c: Conversation)

  /** A container without any claim is discarded. */
  predicate Claims(s: System, id: Id, claim: Claim) {
    match claim
    case InPool(i) => i < |s.pool| && s.pool[i] == id
    case Creating(t) => t < |s.tasks| && s.tasks[t] == Created(id)
    case InFlight(t) => t < |s.tasks| && (s.tasks[t].Popped? || s.tasks[t].Owning?) && s.tasks[t].id == id
    case AssignedTo(c) => c in s.fwd && s.fwd[c] == id
  }

  ghost predicate Exclusive(s: System) {
    && (forall id: Id, a: Claim :: Claims(s, id, a) ==> id < s.next)
    && (forall id: Id, a: Claim, b: Claim :: Claims(s, id, a) && Claims(s, id, b) ==> a == b)
  }

  /** Which claim of the state before the step a claim of the state after it goes back to. */
  function Origin(s: System, lim: Limits, a: Action, claim: Claim): Claim {
    if OfTask(a) && a.t < |s.tasks| then
      var task := s.tasks[a.t];
      match a
      case Push(t) => if task.Created? && claim == InPool(|s.pool|) then Creating(t) else claim
      case Pop(t) =>
        if task.Acquiring? && s.pool != [] then
          if claim == InFlight(t) then InPool(0)
          else if claim.InPool? then InPool(claim.index + 1)
          else claim
        else claim
      case SaveForward(t) => if task.Owning? && claim == AssignedTo(task.c) then InFlight(t) else claim
      case _ => claim
    else claim
  }

  /** The container that a step makes, if it makes one. */
  function Made(s: System, a: Action): Option<(Id, Claim)> {
    if OfTask(a) && a.t < |s.tasks| then
      var task := s.tasks[a.t];
      if a.Create? && task == PastSizeCheck then Some((s.next, Creating(a.t)))
      else if a.FallBack? && task.Acquiring? && s.pool == [] then Some((s.next, InFlight(a.t)))
      else None
    else None
  }

  /** Containers change hands one to one: a claim is new or goes back to an earlier one. */
  lemma ClaimsComeFrom(s: System, lim: Limits, a: Action, id: Id, claim: Claim)
    requires Claims(Step(s, lim, a), id, claim)
    ensures Made(s, a) == Some((id, claim)) || Claims(s, id, Origin(s, lim, a, claim))
  {
  }

  lemma OriginIsInjective(s: System, lim: Limits, a: Action, id: Id, claim: Claim, other: Claim)
    requires Claims(Step(s, lim, a), id, claim) && Claims(Step(s, lim, a), id, other)
    requires Origin(s, lim, a, claim) == Origin(s, lim, a, other)
    ensures claim == other
  {
  }

  lemma StepKeepsClaimUnique(s: System, lim: Limits, a: Action, id: Id, x: Claim, y: Claim)
    requires Exclusive(s) && Claims(Step(s, lim, a), id, x) && Claims(Step(s, lim, a), id, y)
    ensures x == y
  {
    ClaimsComeFrom(s, lim, a, id, x);
    ClaimsComeFrom(s, lim, a, id, y);
    if Claims(s, id, Origin(s, lim, a, x)) && Claims(s, id, Origin(s, lim, a, y)) {
      OriginIsInjective(s, lim, a, id, x, y);
    }
  }

  lemma StepKeepsExclusive(s: System, lim: Limits, a: Action)
    requires Exclusive(s)
    ensures Exclusive(Step(s, lim, a))
  {
    var s' := Step(s, lim, a);
    assert s.next <= s'.next;
    forall id: Id, x: Claim | Claims(s', id, x) ensures id < s'.next {
      ClaimsComeFrom(s, lim, a, id, x);
    }
    forall id: Id, x: Claim, y: Claim | Claims(s', id, x) && Claims(s', id, y) ensures x == y {
      StepKeepsClaimUnique(s, lim, a, id, x, y);
    }
  }

  lemma {:induction false} RunIsExclusive(lim: Limits, actions: seq<Action>)
    ensures Exclusive(Run(Init(), lim, actions))
  {
    if actions != [] {
      RunIsExclusive(lim, actions[..|actions| - 1]);
      StepKeepsExclusive(Run(Init(), lim, actions[..|actions| - 1]), lim, actions[|actions| - 1]);
    }
  }

  /**
   Exclusive allocation: in every reachable state a container is claimed by at most one of the
   pool's positions, one creator, one acquirer and one conversation.  In particular no two
   conversations have the same container and no pooled container is assigned or in flight.
   */
  lemma ExclusiveAllocation(lim: Limits, actions: seq<Action>, id: Id, a: Claim, b: Claim)
    ensures var s := Run(Init(), lim, actions); Claims(s, id, a) && Claims(s, id, b) ==> a == b
  {
    RunIsExclusive(lim, actions);
  }

  lemma ForwardIndexIsInjective(lim: Limits, actions: seq<Action>, c: Conversation, d: Conversation)
    ensures var s := Run(Init(), lim, actions);
            && (c in s.fwd && d in s.fwd && s.fwd[c] == s.fwd[d] ==> c == d)
            && (c in s.fwd ==> s.fwd[c] !in s.pool)
  {
    var s := Run(Init(), lim, actions);
    RunIsExclusive(lim, actions);
    if c in s.fwd {
      assert Claims(s, s.fwd[c], AssignedTo(c));
      if s.fwd[c] in s.pool {
        var i :| 0 <= i < |s.pool| && s.pool[i] == s.fwd[c];
        assert Claims(s, s.fwd[c], InPool(i));
      }
      if d in s.fwd && s.fwd[d] == s.fwd[c] {
        assert Claims(s, s.fwd[c], AssignedTo(d));
      }
    }
  }

  // ---- the size of the pool ----

  lemma {:induction false} CreatorsUpdate(tasks: seq<Task>, t: nat, task: Task)
    requires t < |tasks|
    ensures Creators(tasks[t := task]) ==
            Creators(tasks) - (if IsCreator(tasks[t]) then 1 else 0) + (if IsCreator(task) then 1 else 0)
  {
    var last := |tasks| - 1;
    if t < last {
      CreatorsUpdate(tasks[..last], t, task);
      assert tasks[t := task][..last] == tasks[..last][t := task];
    } else {
      assert tasks[t := task][..last] == tasks[..last];
    }
  }

  lemma StepTouchesOneTask(s: System, lim: Limits, a: Action)
    requires OfTask(a) && a.t < |s.tasks|
    ensures var s' := Step(s, lim, a); |s'.tasks| == |s.tasks| && s'.tasks == s.tasks[a.t := s'.tasks[a.t]]
  {
  }

  function One(b: bool): nat {
    if b then 1 else 0
  }

  /** A task's step in terms of that task: it keeps the balance, or it is a creator that found room. */
  lemma StepOfTask(s: System, lim: Limits, a: Action)
    requires OfTask(a) && a.t < |s.tasks|
    ensures var s' := Step(s, lim, a);
            |s'.tasks| == |s.tasks| &&
            var before, after := IsCreator(s.tasks[a.t]), IsCreator(s'.tasks[a.t]);
            || ((after ==> before) && |s'.pool| + One(after) <= |s.pool| + One(before))
            || (&& !before && after && s'.pool == s.pool
                && |s.pool| < lim.maxSize && Creators(s.tasks) < lim.creators)
  {
  }

  /** What one step does to the pool's length and the number of creators. */
  lemma StepSizes(s: System, lim: Limits, a: Action)
    ensures var s' := Step(s, lim, a);
            || (&& |s'.pool| + Creators(s'.tasks) <= |s.pool| + Creators(s.tasks)
                && Creators(s'.tasks) <= Creators(s.tasks))
            || (&& s'.pool == s.pool && |s.pool| < lim.maxSize
                && Creators(s'.tasks) == Creators(s.tasks) + 1 && Creators(s.tasks) < lim.creators)
  {
    if a == Spawn {
      assert (s.tasks + [Idle])[..|s.tasks|] == s.tasks;
    } else if OfTask(a) && a.t < |s.tasks| {
      var s' := Step(s, lim, a);
      StepTouchesOneTask(s, lim, a);
      StepOfTask(s, lim, a);
      CreatorsUpdate(s.tasks, a.t, s'.tasks[a.t]);
    }
  }

  /**
   Pool bound: with at most K creators at a time, the pool and the creators past the size check
   together never exceed maxSize - 1 + K.
   */
  lemma {:induction false} PoolBound(lim: Limits, actions: seq<Action>)
    ensures var s := Run(Init(), lim, actions);
            && Creators(s.tasks) <= lim.creators
            && (|s.pool| + Creators(s.tasks) > 0 ==>
                  lim.maxSize >= 1 && |s.pool| + Creators(s.tasks) <= lim.maxSize - 1 + lim.creators)
  {
    if actions != [] {
      PoolBound(lim, actions[..|actions| - 1]);
      StepSizes(Run(Init(), lim, actions[..|actions| - 1]), lim, actions[|actions| - 1]);
    }
  }

  lemma RunOneMore(s: System, lim: Limits, actions: seq<Action>, a: Action)
    ensures Run(s, lim, actions + [a]) == Step(Run(s, lim, actions), lim, a)
  {
    assert (actions + [a])[..|actions|] == actions;
  }

  /** Two idle tasks and a pool of n containers. */
  lemma {:induction false} FillPool(lim: Limits, n: nat) returns (actions: seq<Action>)
    requires n <= lim.maxSize && lim.creators >= 1
    ensures var s := Run(Init(), lim, actions); |s.pool| == n && s.tasks == [Idle, Idle]
  {
    if n == 0 {
      actions := [] + [Spawn] + [Spawn];
      RunOneMore(Init(), lim, [], Spawn);
      RunOneMore(Init(), lim, [] + [Spawn], Spawn);
      assert [] + [Idle] + [Idle] == [Idle, Idle];
    } else {
      var before := FillPool(lim, n - 1);
      var s := Run(Init(), lim, before);
      actions := before + [CheckSize(0)] + [Create(0)] + [Push(0)];
      RunOneMore(Init(), lim, before, CheckSize(0));
      RunOneMore(Init(), lim, before + [CheckSize(0)], Create(0));
      RunOneMore(Init(), lim, before + [CheckSize(0)] + [Create(0)], Push(0));
      TwoCreators(s.tasks);
      assert Step(s, lim, CheckSize(0)).tasks == [PastSizeCheck, Idle];
      assert Run(Init(), lim, actions).tasks == [Idle, Idle];
    }
  }

  lemma TwoCreators(tasks: seq<Task>)
    requires |tasks| == 2
    ensures Creators(tasks) == (if IsCreator(tasks[0]) then 1 else 0) + (if IsCreator(tasks[1]) then 1 else 0)
  {
    assert tasks[..1][..0] == [] && Creators(tasks[..1]) == if IsCreator(tasks[0]) then 1 else 0;
  }

  /** Two creators that both pass the check before either pushes overfill the pool. */
  lemma TwoCreatorsOverfill(lim: Limits) returns (actions: seq<Action>)
    requires lim.maxSize >= 1 && lim.creators >= 2
    ensures |Run(Init(), lim, actions).pool| == lim.maxSize + 1
  {
    var a0 := FillPool(lim, lim.maxSize - 1);
    var s0 := Run(Init(), lim, a0);
    TwoCreators(s0.tasks);
    var s1 := Step(s0, lim, CheckSize(0));
    assert s1.tasks == [PastSizeCheck, Idle];
    TwoCreators(s1.tasks);
    var s2 := Step(s1, lim, CheckSize(1));
    assert s2.tasks == [PastSizeCheck, PastSizeCheck];
    var a1 := a0 + [CheckSize(0)];
    var a2 := a1 + [CheckSize(1)];
    RunOneMore(Init(), lim, a0, CheckSize(0));
    RunOneMore(Init(), lim, a1, CheckSize(1));
    actions := a2 + [Create(0)] + [Create(1)] + [Push(0)] + [Push(1)];
    BothPush(lim, a2);
  }

  lemma BothPush(lim: Limits, before: seq<Action>)
    requires Run(Init(), lim, before).tasks == [PastSizeCheck, PastSizeCheck]
    ensures |Run(Init(), lim, before + [Create(0)] + [Create(1)] + [Push(0)] + [Push(1)]).pool|
         == |Run(Init(), lim, before).pool| + 2
  {
    var a1 := before + [Create(0)];
    var a2 := a1 + [Create(1)];
    var a3 := a2 + [Push(0)];
    RunOneMore(Init(), lim, before, Create(0));
    RunOneMore(Init(), lim, a1, Create(1));
    RunOneMore(Init(), lim, a2, Push(0));
    RunOneMore(Init(), lim, a3, Push(1));
  }

  /** No reachable pool is longer than its maximum. */
  ghost predicate PoolNeverOverfull(lim: Limits) {
    forall actions :: |Run(Init(), lim, actions).pool| <= lim.maxSize
  }

  /** The maximum is respected in every run exactly when there is never more than one creator. */
  lemma MaximumNeedsSingleCreator(lim: Limits)
    requires lim.maxSize >= 1
    ensures PoolNeverOverfull(lim) <==> lim.creators <= 1
  {
    if lim.creators >= 2 {
      var actions := TwoCreatorsOverfill(lim);
    } else {
      forall actions ensures |Run(Init(), lim, actions).pool| <= lim.maxSize {
        PoolBound(lim, actions);
      }
    }
  }

  // ---- replenishing alone ----

  /** The actions of successful creators, and nothing else. */
  predicate Replenishing(actions: seq<Action>) {
    forall a :: a in actions ==> a.CheckSize? || a.Create? || a.WriteInfo? || a.Push?
  }

  /** How often a creator passed the size check. */
  function Passed(s: System, lim: Limits, actions: seq<Action>): nat {
    if actions == [] then 0
    else
      var before := Run(s, lim, actions[..|actions| - 1]);
      Passed(s, lim, actions[..|actions| - 1])
      + (if Creators(Step(before, lim, actions[|actions| - 1]).tasks) > Creators(before.tasks) then 1 else 0)
  }

  /** Every creator that passed the check has pushed one container or is still at it. */
  lemma {:induction false} CreatorsArePushed(s: System, lim: Limits, actions: seq<Action>)
    requires Replenishing(actions) && Creators(s.tasks) == 0
    ensures var s' := Run(s, lim, actions);
            && |s'.pool| + Creators(s'.tasks) == |s.pool| + Passed(s, lim, actions)
            && |s.pool| <= |s'.pool|
  {
    if actions != [] {
      var init, a := actions[..|actions| - 1], actions[|actions| - 1];
      assert a in actions && forall x :: x in init ==> x in actions;
      CreatorsArePushed(s, lim, init);
      var before := Run(s, lim, init);
      if a.t < |before.tasks| {
        var after := Step(before, lim, a);
        assert after.tasks == before.tasks[a.t := after.tasks[a.t]];
        CreatorsUpdate(before.tasks, a.t, after.tasks[a.t]);
      }
    }
  }

  /**
   An acquirer that runs alone takes the first pooled container, if it has an info hash, off the pool and
   records it in both indexes; nothing else changes.
   */
  lemma AcquirerIsServed(s: System, lim: Limits, t: nat, c: Conversation)
    requires t < |s.tasks| && s.tasks[t] == Idle && s.pool != [] && s.pool[0] in s.poolInfo
    ensures var id := s.pool[0];
            var taken := Step(Step(Step(s, lim, StartAcquire(t, c)), lim, Pop(t)), lim, TakeHealthy(t));
            Step(Step(taken, lim, SaveForward(t)), lim, SaveReverse(t))
            == s.(pool := s.pool[1..], poolInfo := s.poolInfo - {id}, fwd := s.fwd[c := id], rev := s.rev[id := c])
  {
    var final := s.tasks[t := Idle];
    assert final == s.tasks;
  }

  /** One that finds the pool empty records a container made for it. */
  lemma AcquirerFallsBack(s: System, lim: Limits, t: nat, c: Conversation)
    requires t < |s.tasks| && s.tasks[t] == Idle && s.pool == []
    ensures var made := Step(Step(Step(s, lim, StartAcquire(t, c)), lim, Pop(t)), lim, FallBack(t));
            Step(Step(made, lim, SaveForward(t)), lim, SaveReverse(t))
            == s.(next := s.next + 1, fwd := s.fwd[c := s.next], rev := s.rev[s.next := c])
  {
    var final := s.tasks[t := Idle];
    assert final == s.tasks;
  }

  /** One that pops an unhealthy container discards it with its info hash and goes on with the rest. */
  lemma UnhealthyIsSkipped(s: System, lim: Limits, t: nat, c: Conversation)
    requires t < |s.tasks| && s.tasks[t] == Acquiring(c) && s.pool != []
    ensures Step(Step(s, lim, Pop(t)), lim, SkipUnhealthy(t))
         == s.(pool := s.pool[1..], poolInfo := s.poolInfo - {s.pool[0]})
  {
    assert s.tasks[t := Acquiring(c)] == s.tasks;
  }

  /** A creator that runs alone below the maximum appends one new container with its info hash. */
  lemma CreatorIsPushed(s: System, lim: Limits, t: nat)
    requires t < |s.tasks| && s.tasks[t] == Idle && |s.pool| < lim.maxSize && Creators(s.tasks) < lim.creators
    ensures var created := Step(Step(s, lim, CheckSize(t)), lim, Create(t));
            Step(Step(created, lim, WriteInfo(t)), lim, Push(t))
            == s.(next := s.next + 1, pool := s.pool + [s.next], poolInfo := s.poolInfo + {s.next})
  {
    var final := s.tasks[t := Idle];
    assert final == s.tasks;
  }

  /** A creator that finds the pool full does nothing. */
  lemma FullPoolRefuses(s: System, lim: Limits, t: nat)
    requires |s.pool| >= lim.maxSize
    ensures Step(s, lim, CheckSize(t)) == s
  {
  }

  /**
   A replenish that runs alone with successful creates: once its minSize - |pool| creators are
   through, the pool has exactly minSize containers; and while a creator is still to come, the size
   check cannot refuse it as long as minSize <= maxSize.
   */
  lemma ReplenishReachesMinimum(s: System, lim: Limits, actions: seq<Action>, minSize: int, t: nat)
    requires Replenishing(actions) && Creators(s.tasks) == 0 && |s.pool| <= minSize <= lim.maxSize
    requires lim.creators >= minSize - |s.pool|
    requires t < |Run(s, lim, actions).tasks| && Run(s, lim, actions).tasks[t] == Idle
    ensures var s' := Run(s, lim, actions);
            var needed := minSize - |s.pool|;
            && (Passed(s, lim, actions) < needed ==> Step(s', lim, CheckSize(t)).tasks[t] == PastSizeCheck)
            && (Passed(s, lim, actions) == needed && Creators(s'.tasks) == 0 ==> |s'.pool| == minSize)
  {
    CreatorsArePushed(s, lim, actions);
  }
}
