/** Progress in the connection pool: nobody waits for nothing, and steps run out. */
module PoolProgress {
  import opened Bytes
  import opened PoolState
  import opened PoolInvariant
  import opened PoolSteps
  import opened PoolTheorems

  // ---- who can go on ----

  /** A step of a task that is not cancelled. */
  predicate Goes(a: Action) {
    match a
    case Spawn(_, _) => false
    case SpawnShutdown(_) => false
    case CancelEnter(_) => false
    case ProbeCancelled(_) => false
    case CancelWait(_) => false
    case CancelDialed(_) => false
    case Tick(_) => false
    case _ => true
  }

  /** A task that neither ended nor holds a connection nor is parked. */
  predicate Busy(pc: Pc) {
    !pc.Done? && !pc.Holding? && !pc.Parked?
  }

  /** Whoever has the lock, or `t` itself, can take a step. */
  lemma BusyGoes(cfg: Config, p: Pool, t: nat) returns (a: Action)
    requires LockOk(p) && t in p.tasks && Busy(p.tasks[t])
    ensures Goes(a) && !a.StartRelease? && Enabled(cfg, p, a)
  {
    if p.lock.Some? { return ProbeFresh(p.lock.value); }
    match p.tasks[t]
    case Entering(_) => a := Enter(t);
    case Woken(_, _) => a := Resume(t);
    case Dialing(_) => a := DialSucceeds(t);
    case Dialed(_) => a := FinishDial(t);
    case CleaningUp(_, _) => a := CleanUp(t);
    case ShuttingDown => a := Shutdown(t);
    case Releasing(_, _) =>
      ReleaseNeverStuck(cfg, p, t);
      var victim :| Enabled(cfg, p, Release(t, victim));
      a := Release(t, victim);
  }

  /** Only tasks that are busy take steps that need no holder. */
  lemma OnlyBusyGo(cfg: Config, p: Pool, a: Action)
    requires Goes(a) && !a.StartRelease? && Enabled(cfg, p, a)
    ensures a.t in p.tasks && Busy(p.tasks[a.t])
  {
  }

  /** Exactly as many tasks as the cap allows use the origin a task is parked on. */
  lemma ParkedBehindUsers(cfg: Config, run: seq<Pool>, i: nat, t: nat)
    requires IsRun(cfg, run) && i < |run|
    requires t in run[i].tasks && run[i].tasks[t].Parked?
    ensures var users := Users(run[i].tasks, run[i].tasks[t].o); |users| == cfg.cap && t !in users
  {
    NoLostWakeup(cfg, run, i, t);
    EveryState(cfg, run, i);
    assert OriginOk(cfg, run[i], run[i].tasks[t].o);
  }

  /** Deadlock is only waiting for holders: a step that needs no holder to release is
      possible if and only if some task is busy; otherwise every parked task is behind
      as many holders as the cap allows. */
  lemma WaitsOnlyForHolders(cfg: Config, run: seq<Pool>, i: nat)
    requires IsRun(cfg, run) && i < |run|
    ensures var p := run[i];
      && ((exists a :: Goes(a) && !a.StartRelease? && Enabled(cfg, p, a)) <==>
           exists t :: t in p.tasks && Busy(p.tasks[t]))
      && ((forall t :: t in p.tasks ==> !Busy(p.tasks[t])) ==>
           forall t :: t in p.tasks && p.tasks[t].Parked? ==>
             |Users(p.tasks, p.tasks[t].o)| == cfg.cap
             && forall u :: u in Users(p.tasks, p.tasks[t].o) ==> p.tasks[u].Holding?)
  {
    EveryState(cfg, run, i);
    var p := run[i];
    if a: Action :| Goes(a) && !a.StartRelease? && Enabled(cfg, p, a) { OnlyBusyGo(cfg, p, a); }
    if t :| t in p.tasks && Busy(p.tasks[t]) { var a := BusyGoes(cfg, p, t); }
    forall t | t in p.tasks && p.tasks[t].Parked? ensures |Users(p.tasks, p.tasks[t].o)| == cfg.cap {
      ParkedBehindUsers(cfg, run, i, t);
    }
  }

  /** With a cap of at least one, an unfinished task means a possible step. */
  lemma UnfinishedGoes(cfg: Config, p: Pool, t: nat) returns (a: Action)
    requires Inv(cfg, p) && cfg.cap >= 1 && t in p.tasks && !p.tasks[t].Done?
    ensures Goes(a) && Enabled(cfg, p, a)
  {
    if Busy(p.tasks[t]) {
      a := BusyGoes(cfg, p, t);
    } else {
      var holder := t;
      if p.tasks[t].Parked? {
        assert OriginOk(cfg, p, p.tasks[t].o);
        assert Users(p.tasks, p.tasks[t].o) != {};
        holder :| holder in Users(p.tasks, p.tasks[t].o);
      }
      if Busy(p.tasks[holder]) {
        a := BusyGoes(cfg, p, holder);
      } else {
        a := StartRelease(holder, true);
      }
    }
  }

  // ---- steps run out ----

  /** How far a task is from its end; being woken brings it no further. */
  function Rank(pc: Pc): nat {
    match pc
    case Entering(_) => 7
    case Parked(_) => 6
    case Woken(_, cancelled) => if cancelled then 1 else 6
    case Probing(_) => 5
    case Dialing(_) => 4
    case Dialed(_) => 3
    case Holding(_) => 2
    case CleaningUp(_, _) => 1
    case Releasing(_, _) => 1
    case ShuttingDown => 1
    case Done => 0
  }

  ghost function AtLeast(tasks: map<nat, Pc>, k: nat): set<nat> {
    set t | t in tasks && Rank(tasks[t]) >= k
  }

  /** The ranks of all tasks, counted up to `k` each. */
  ghost function RankSum(tasks: map<nat, Pc>, k: nat): nat {
    if k == 0 then 0 else |AtLeast(tasks, k)| + RankSum(tasks, k - 1)
  }

  /** Tasks that were woken and have yet to look again. */
  ghost function Ready(tasks: map<nat, Pc>): set<nat> {
    set t | t in tasks && tasks[t].Woken? && !tasks[t].cancelled
  }

  lemma {:induction false} RankMoves(before: map<nat, Pc>, after: map<nat, Pc>, t: nat, k: nat)
    requires Follows(before, after, t) && t in before && t in after
    ensures RankSum(after, k) == RankSum(before, k) - Min(Rank(before[t]), k) + Min(Rank(after[t]), k)
  {
    if k > 0 {
      RankMoves(before, after, t, k - 1);
      assert AtLeast(after, k) - {t} == AtLeast(before, k) - {t};
      WithOrWithout(AtLeast(before, k), t);
      WithOrWithout(AtLeast(after, k), t);
    }
  }

  /** The ranks fall, or stay with fewer idle connections, or both stay with fewer tasks
      woken. */
  ghost predicate Descends(p: Pool, q: Pool) {
    var before, after := RankSum(p.tasks, 7), RankSum(q.tasks, 7);
    var idle, left := IdleCount(p.origins), IdleCount(q.origins);
    || after < before
    || (after == before && left < idle)
    || (after == before && left == idle && |Ready(q.tasks)| < |Ready(p.tasks)|)
  }

  lemma RankFalls(p: Pool, q: Pool, t: nat)
    requires Follows(p.tasks, q.tasks, t) && t in p.tasks && t in q.tasks
    requires Rank(q.tasks[t]) < Rank(p.tasks[t])
    ensures Descends(p, q)
  {
    RankMoves(p.tasks, q.tasks, t, 7);
  }

  /** A step of a task: not a new task, nor time alone, nor cancelling it twice. */
  predicate Advances(p: Pool, a: Action) {
    && !a.Spawn? && !a.SpawnShutdown? && !a.Tick?
    && (a.CancelWait? && a.t in p.tasks && p.tasks[a.t].Woken? ==> !p.tasks[a.t].cancelled)
  }

  lemma IdleFalls(m: map<Origin, OriginState>, n: map<Origin, OriginState>, o: Origin)
    requires forall x :: |StateOf(n, x).idle| <= |StateOf(m, x).idle|
    requires |StateOf(n, o).idle| < |StateOf(m, o).idle|
    ensures IdleCount(n) < IdleCount(m)
  {
    IdleCountAt(m, o);
    IdleCountAt(n, o);
    forall x ensures |StateOf(n - {o}, x).idle| <= |StateOf(m - {o}, x).idle| {
      assert |StateOf(n, x).idle| <= |StateOf(m, x).idle|;
    }
    IdleCountShrinks(m - {o}, n - {o});
  }

  lemma FollowsOn(a: map<nat, Pc>, b: map<nat, Pc>, c: map<nat, Pc>, t: nat)
    requires Follows(a, b, t) && Follows(b, c, t) && t in a && t in b
    ensures Follows(a, c, t)
  {
  }

  /** Where looking for a connection leaves a task. */
  lemma AcquireTasks(cfg: Config, p: Pool, t: nat, o: Origin)
    requires t in p.tasks
    ensures var q := TryAcquire(cfg, p, t, o);
      && Follows(p.tasks, q.tasks, t) && t in q.tasks
      && (q.tasks[t].Done? || q.tasks[t].Probing? || q.tasks[t].Dialing? || q.tasks[t] == Parked(o))
  {
    PruneWakes(cfg, p, o);
    hide Prune, Retire;
  }

  lemma {:induction false} UnexpiredIsShorter(idle: seq<Conn>, now: real, timeout: real)
    ensures |Unexpired(idle, now, timeout)| <= |idle|
  {
    if idle != [] { UnexpiredIsShorter(idle[1..], now, timeout); }
  }

  /** Pruning closes an idle connection, or wakes nobody. */
  lemma PruneCosts(cfg: Config, p: Pool, o: Origin)
    ensures var q := Prune(cfg, p, o);
      IdleCount(q.origins) < IdleCount(p.origins) || (q.tasks == p.tasks && IdleCount(q.origins) == IdleCount(p.origins))
  {
    if cfg.idleTimeout.Some? {
      var timeout, q := cfg.idleTimeout.value, Prune(cfg, p, o);
      forall x ensures |StateOf(q.origins, x).idle| <= |StateOf(p.origins, x).idle| {
        UnexpiredIsShorter(StateOf(p.origins, x).idle, p.now, timeout);
      }
      if x :| |StateOf(q.origins, x).idle| < |StateOf(p.origins, x).idle| {
        IdleFalls(p.origins, q.origins, x);
      } else {
        IdleCountShrinks(p.origins, q.origins);
        IdleCountShrinks(q.origins, p.origins);
        forall x | x in p.origins ensures |PrunedState(p.origins[x], p.now, timeout).idle| >= |p.origins[x].idle| {
          assert |StateOf(q.origins, x).idle| >= |StateOf(p.origins, x).idle|;
        }
        assert q.tasks == p.tasks;
      }
    }
  }

  lemma EnterDescends(cfg: Config, p: Pool, t: nat)
    requires t in p.tasks && p.tasks[t].Entering?
    ensures Descends(p, EnterStep(cfg, p, t))
  {
    hide TryAcquire, Descends;
    var o, q := p.tasks[t].o, EnterStep(cfg, p, t);
    if !p.closed {
      var r := Register(Move(p, t, Done), o);
      AcquireTasks(cfg, r, t, o);
      FollowsOn(p.tasks, r.tasks, q.tasks, t);
    }
    RankFalls(p, q, t);
  }

  lemma ResumeDescends(cfg: Config, p: Pool, t: nat)
    requires t in p.tasks && p.tasks[t].Woken?
    ensures Descends(p, ResumeStep(cfg, p, t))
  {
    var o, q, r := p.tasks[t].o, ResumeStep(cfg, p, t), LeaveQueue(p, t, p.tasks[t].o);
    hide Descends, TryAcquire, Retire;
    if p.tasks[t].cancelled {
      RankFalls(p, q, t);
    } else {
      AcquireTasks(cfg, r, t, o);
      FollowsOn(p.tasks, r.tasks, q.tasks, t);
      if q.tasks[t].Parked? {
        ParkedAgain(cfg, p, t);
      } else {
        RankFalls(p, q, t);
      }
    }
  }

  /** A woken task that has to park again found nobody else to wake, or connections to close. */
  lemma ParkedAgain(cfg: Config, p: Pool, t: nat)
    requires t in p.tasks && p.tasks[t].Woken? && !p.tasks[t].cancelled
    requires var q := ResumeStep(cfg, p, t); t in q.tasks && q.tasks[t].Parked? && Follows(p.tasks, q.tasks, t)
    ensures Descends(p, ResumeStep(cfg, p, t))
  {
    var o, q := p.tasks[t].o, ResumeStep(cfg, p, t);
    var r := LeaveQueue(p, t, o);
    var pruned := Prune(cfg, r, o);
    PruneCosts(cfg, r, o);
    IdleCountSet(p.origins, o, StateOf(r.origins, o));
    RankMoves(p.tasks, q.tasks, t, 7);
    ParkedFrom(cfg, r, t, o);
    hide Prune, Retire, RankSum, Follows, ResumeStep, TryAcquire, Ready, IdleCount;
    IdleCountSet(pruned.origins, o, StateOf(q.origins, o));
    if pruned.tasks == r.tasks { OneLessReady(p.tasks, q.tasks, t, o); }
  }

  lemma OneLessReady(before: map<nat, Pc>, after: map<nat, Pc>, t: nat, o: Origin)
    requires t in before && before[t].Woken? && !before[t].cancelled && after == before[t := Done][t := Parked(o)]
    ensures |Ready(after)| < |Ready(before)|
  {
    assert Ready(after) == Ready(before) - {t};
  }

  lemma ParkedFrom(cfg: Config, r: Pool, t: nat, o: Origin)
    requires var q := TryAcquire(cfg, r, t, o); t in q.tasks && q.tasks[t].Parked?
    ensures var q, pruned := TryAcquire(cfg, r, t, o), Prune(cfg, r, o);
      && q.tasks == pruned.tasks[t := Parked(o)]
      && q.origins == pruned.origins[o := StateOf(q.origins, o)]
      && StateOf(q.origins, o).idle == StateOf(pruned.origins, o).idle
  {
    hide Prune, Retire;
  }

  lemma StaleDescends(cfg: Config, p: Pool, t: nat)
    requires Inv(cfg, p) && t in p.tasks && p.tasks[t].Probing?
    ensures Descends(p, StaleStep(cfg, p, t))
  {
    var o, q := p.tasks[t].conn.origin, StaleStep(cfg, p, t);
    assert OriginOk(cfg, p, o);
    hide Inv, Core, OriginOk, Descends;
    var r := Close(Move(p, t, Done), o);
    assert Follows(p.tasks, q.tasks, t);
    if q.tasks[t].Probing? {
      RankMoves(p.tasks, q.tasks, t, 7);
      IdleCountSet(p.origins, o, StateOf(r.origins, o));
      IdleCountSet(r.origins, o, StateOf(q.origins, o));
      ShorterIdle(p, q);
    } else {
      RankFalls(p, q, t);
    }
  }

  lemma ShorterIdle(p: Pool, q: Pool)
    requires RankSum(q.tasks, 7) == RankSum(p.tasks, 7) && IdleCount(q.origins) < IdleCount(p.origins)
    ensures Descends(p, q)
  {
  }

  lemma GiveUpDescends(p: Pool, t: nat, o: Origin)
    requires t in p.tasks && !p.tasks[t].Done?
    ensures Descends(p, GiveUp(p, t, o))
  {
    hide Retire, Descends;
    RankFalls(p, GiveUp(p, t, o), t);
  }

  lemma ReleaseDescends(cfg: Config, p: Pool, t: nat, victim: Origin)
    requires Enabled(cfg, p, Release(t, victim))
    ensures Descends(p, ReleaseStep(cfg, p, t, victim))
  {
    hide Descends, Oldest, GiveUp, IdleCount, Evict, Shelve;
    var c := p.tasks[t].conn;
    if !p.tasks[t].reusable || p.closed || cfg.maxIdle <= 0 {
      GiveUpDescends(p, t, c.origin);
    } else {
      var q := if IdleCount(p.origins) >= cfg.maxIdle then Evict(p, victim, c.origin) else p;
      if IdleCount(p.origins) >= cfg.maxIdle { EvictWakes(p, victim, c.origin); }
      ShelveDescends(p, q, t, c);
    }
  }

  lemma EvictWakes(p: Pool, victim: Origin, retained: Origin)
    requires Oldest(p.origins, victim)
    ensures OnlyWoken(p.tasks, Evict(p, victim, retained).tasks)
  {
    hide Retire;
  }

  lemma ShelveDescends(p: Pool, q: Pool, t: nat, c: Conn)
    requires t in p.tasks && p.tasks[t].Releasing? && OnlyWoken(p.tasks, q.tasks)
    ensures Descends(p, Shelve(q, t, c))
  {
    hide Descends;
    RankFalls(p, Shelve(q, t, c), t);
  }

  lemma MoveDescends(p: Pool, q: Pool, t: nat, pc: Pc)
    requires t in p.tasks && q.tasks == p.tasks[t := pc] && Rank(pc) < Rank(p.tasks[t])
    ensures Descends(p, q)
  {
    hide Descends;
    RankFalls(p, q, t);
  }

  /** A step that only moves its task. */
  predicate Moves(a: Action) {
    a.CancelEnter? || a.ProbeFresh? || a.CancelWait? || a.DialSucceeds? || a.DialFails? || a.CancelDialed?
    || a.StartRelease?
  }

  lemma MovingDescends(cfg: Config, p: Pool, a: Action)
    requires Moves(a) && Advances(p, a) && Enabled(cfg, p, a)
    ensures Descends(p, Apply(cfg, p, a))
  {
    hide Descends, Oldest, EnterStep, ResumeStep, StaleStep, GiveUp, ShutdownStep, ReleaseStep;
    var q := Apply(cfg, p, a);
    MoveDescends(p, q, a.t, q.tasks[a.t]);
  }

  /** Every step of a task descends. */
  lemma AdvanceDescends(cfg: Config, p: Pool, a: Action)
    requires Inv(cfg, p) && Advances(p, a) && Enabled(cfg, p, a)
    ensures Descends(p, Apply(cfg, p, a))
  {
    hide Inv, Descends, Oldest, EnterStep, ResumeStep, StaleStep, GiveUp, ShutdownStep, ReleaseStep, Follows, Rank;
    if Moves(a) {
      MovingDescends(cfg, p, a);
    } else {
      match a
      case Enter(t) => EnterDescends(cfg, p, t);
      case Resume(t) => ResumeDescends(cfg, p, t);
      case ProbeStale(t) => StaleDescends(cfg, p, t);
      case Release(t, victim) => ReleaseDescends(cfg, p, t, victim);
      case ProbeCancelled(t) => GiveUpDescends(p, t, p.tasks[t].conn.origin);
      case CleanUp(t) => GiveUpDescends(p, t, p.tasks[t].o);
      case FinishDial(t) => FinishDescends(p, t);
      case Shutdown(t) => ShutdownDescends(p, t);
    }
  }

  lemma FinishDescends(p: Pool, t: nat)
    requires t in p.tasks && p.tasks[t].Dialed?
    ensures var c := p.tasks[t].conn;
      Descends(p, if p.closed then GiveUp(p, t, c.origin) else Move(p, t, Holding(c)))
  {
    hide Descends, GiveUp;
    if p.closed {
      GiveUpDescends(p, t, p.tasks[t].conn.origin);
    } else {
      MoveDescends(p, Move(p, t, Holding(p.tasks[t].conn)), t, Holding(p.tasks[t].conn));
    }
  }

  lemma ShutdownDescends(p: Pool, t: nat)
    requires t in p.tasks && p.tasks[t].ShuttingDown?
    ensures Descends(p, ShutdownStep(p, t))
  {
    hide Descends, ShutdownStep;
    ShutdownFollows(p, t);
    RankFalls(p, ShutdownStep(p, t), t);
  }

  /** A run goes on only as long as tasks are spawned or time alone passes: no endless run
      consists of steps of tasks that are already there. */
  lemma NoEndlessRun(cfg: Config, f: nat -> Pool, actions: nat -> Action, n: nat)
    requires Inv(cfg, f(n))
    requires forall k :: k >= n ==>
      Enabled(cfg, f(k), actions(k)) && Advances(f(k), actions(k)) && f(k + 1) == Apply(cfg, f(k), actions(k))
    ensures false
    decreases RankSum(f(n).tasks, 7), IdleCount(f(n).origins), |Ready(f(n).tasks)|
  {
    hide Inv, Enabled, Apply, Advances, RankSum, IdleCount, Ready;
    StepKeeps(cfg, f(n), actions(n));
    AdvanceDescends(cfg, f(n), actions(n));
    NoEndlessRun(cfg, f, actions, n + 1);
  }

  /** A continuation in which tasks go on, none is cancelled and none is new. */
  ghost predicate GoesOn(cfg: Config, run: seq<Pool>) {
    run != [] && forall i :: 0 <= i < |run| - 1 ==> GoesTo(cfg, run[i], run[i + 1])
  }

  ghost predicate GoesTo(cfg: Config, p: Pool, q: Pool) {
    exists a :: Goes(a) && Enabled(cfg, p, a) && q == Apply(cfg, p, a)
  }

  lemma OneMoreStep(cfg: Config, p: Pool, rest: seq<Pool>)
    requires GoesOn(cfg, rest) && GoesTo(cfg, p, rest[0])
    ensures GoesOn(cfg, [p] + rest)
  {
    hide GoesTo;
    var run := [p] + rest;
    forall i | 0 <= i < |run| - 1 ensures GoesTo(cfg, run[i], run[i + 1]) {
      if i > 0 { assert GoesTo(cfg, rest[i - 1], rest[(i - 1) + 1]); }
    }
  }

  /** From every reachable state, tasks that go on, and release what they hold, all end. */
  lemma {:induction false} EveryoneFinishes(cfg: Config, p: Pool) returns (rest: seq<Pool>)
    requires Inv(cfg, p) && cfg.cap >= 1
    ensures GoesOn(cfg, rest) && rest[0] == p
    ensures var q := rest[|rest| - 1]; forall t :: t in q.tasks ==> q.tasks[t].Done?
    decreases RankSum(p.tasks, 7), IdleCount(p.origins), |Ready(p.tasks)|
  {
    hide Inv, Enabled, Apply, RankSum, IdleCount, Ready;
    rest := [p];
    if t :| t in p.tasks && !p.tasks[t].Done? {
      var a := UnfinishedGoes(cfg, p, t);
      StepKeeps(cfg, p, a);
      AdvanceDescends(cfg, p, a);
      rest := EveryoneFinishes(cfg, Apply(cfg, p, a));
      OneMoreStep(cfg, p, rest);
      rest := [p] + rest;
    }
  }
}
