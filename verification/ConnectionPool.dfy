/** The pool as the object it is: its helpers run their loops under the lock and
    leave exactly the state the transition system's segments describe. */
module ConnectionPool {
  import opened Bytes
  import opened PoolState
  import opened PoolInvariant
  import opened PoolSteps
  import opened PoolTheorems

  /** The first occurrence of a connection is taken out of the stack. */
  function Without(idle: seq<Conn>, c: Conn): (r: seq<Conn>)
    ensures c !in idle ==> r == idle
    ensures idle != [] && idle[0] == c ==> r == idle[1..]
  {
    if idle == [] then [] else if idle[0] == c then idle[1..] else [idle[0]] + Without(idle[1..], c)
  }

  /** Idle stacks hold their own origin's connections. */
  ghost predicate Homed(origins: map<Origin, OriginState>) {
    forall o, i :: o in origins && 0 <= i < |origins[o].idle| ==> origins[o].idle[i].origin == o
  }

  predicate KeptBy(s: OriginState, now: real, timeout: real, retained: bool) {
    retained || InUse(PrunedState(s, now, timeout))
  }

  predicate Shortened(s: OriginState, now: real, timeout: real) {
    |PrunedState(s, now, timeout).idle| < |s.idle|
  }

  lemma WakeNobody(tasks: map<nat, Pc>)
    ensures NotifyWhere(tasks, {}) == tasks
  {
  }

  lemma WakeOneMore(tasks: map<nat, Pc>, woken: set<Origin>, o: Origin)
    ensures Notify(NotifyWhere(tasks, woken), o) == NotifyWhere(tasks, woken + {o})
  {
  }

  /** Pruning has dealt with every origin but those still to do. */
  ghost predicate PrunedBut(before: map<Origin, OriginState>, after: map<Origin, OriginState>, todo: set<Origin>,
                            retained: Origin, now: real, timeout: real)
  {
    && todo <= before.Keys
    && (forall x :: x in todo ==> x in after && after[x] == before[x])
    && (forall x :: x !in todo ==> (x in after <==> x in before && KeptBy(before[x], now, timeout, x == retained)))
    && (forall x :: x in after && x !in todo ==> after[x] == PrunedState(before[x], now, timeout))
  }

  lemma PrunedOneMore(before: map<Origin, OriginState>, after: map<Origin, OriginState>, todo: set<Origin>,
                      retained: Origin, now: real, timeout: real, o: Origin)
    requires PrunedBut(before, after, todo, retained, now, timeout) && o in todo
    ensures
      var pruned := after[o := PrunedState(before[o], now, timeout)];
      PrunedBut(before, if o != retained then Retire(pruned, o) else pruned, todo - {o}, retained, now, timeout)
  {
    hide PrunedState;
  }

  ghost function ShortenedSet(before: map<Origin, OriginState>, todo: set<Origin>, now: real,
      timeout: real): set<Origin> {
    set x | x in before && x !in todo && Shortened(before[x], now, timeout)
  }

  lemma WokenOneMore(tasks: map<nat, Pc>, before: map<Origin, OriginState>, todo: set<Origin>,
                     now: real, timeout: real, o: Origin)
    requires o in todo && o in before
    ensures
      var woken := NotifyWhere(tasks, ShortenedSet(before, todo, now, timeout));
      NotifyWhere(tasks, ShortenedSet(before, todo - {o}, now, timeout))
        == if Shortened(before[o], now, timeout) then Notify(woken, o) else woken
  {
    hide Shortened;
    var woken := ShortenedSet(before, todo, now, timeout);
    if Shortened(before[o], now, timeout) {
      WakeOneMore(tasks, woken, o);
      assert ShortenedSet(before, todo - {o}, now, timeout) == woken + {o};
    } else {
      assert ShortenedSet(before, todo - {o}, now, timeout) == woken;
    }
  }

  lemma TodoUntouched(before: map<Origin, OriginState>, after: map<Origin, OriginState>, todo: set<Origin>,
                      retained: Origin, now: real, timeout: real, o: Origin)
    requires PrunedBut(before, after, todo, retained, now, timeout) && o in todo && Homed(before)
    ensures o in after && after[o] == before[o]
    ensures forall i :: 0 <= i < |after[o].idle| ==> after[o].idle[i].origin == o
  {
  }

  lemma PrunedAll(cfg: Config, p: Pool, q: Pool, retained: Origin, timeout: real)
    requires cfg.idleTimeout == Some(timeout)
    requires PrunedBut(p.origins, q.origins, {}, retained, p.now, timeout)
    requires q.tasks == NotifyWhere(p.tasks, ShortenedSet(p.origins, {}, p.now, timeout))
    requires q == p.(origins := q.origins, tasks := q.tasks)
    ensures q == Prune(cfg, p, retained)
  {
    assert ShortenedSet(p.origins, {}, p.now, timeout)
        == set o | o in p.origins && |PrunedState(p.origins[o], p.now, timeout).idle| < |p.origins[o].idle|;
    hide PrunedState;
    assert q.origins == Prune(cfg, p, retained).origins;
  }

  /** A connection a task holds is on no idle stack, and its origin is registered. */
  lemma HolderIsListed(cfg: Config, p: Pool, t: nat, c: Conn)
    requires Inv(cfg, p) && t in p.tasks && Carried(p.tasks[t]) == Some(c) && Uses(p.tasks[t], c.origin)
    ensures c.origin in p.origins && c !in p.origins[c.origin].idle
    ensures Homed(p.origins)
  {
    assert OriginOk(cfg, p, c.origin);
    assert t in Users(p.tasks, c.origin);
    forall i | 0 <= i < |p.origins[c.origin].idle| ensures p.origins[c.origin].idle[i] != c {
      assert IdAt(p, Stack(c.origin, i)).Some? && IdAt(p, With(t)).Some?;
    }
    forall o, i | o in p.origins && 0 <= i < |p.origins[o].idle| ensures p.origins[o].idle[i].origin == o {
      assert OriginOk(cfg, p, o);
    }
  }

  lemma ReleaseCloses(cfg: Config, p: Pool, t: nat, victim: Origin)
    requires t in p.tasks && p.tasks[t].Releasing? && p.lock.None?
    requires !p.tasks[t].reusable || p.closed || cfg.maxIdle <= 0
    ensures Enabled(cfg, p, PoolState.Release(t, victim))
    ensures ReleaseStep(cfg, p, t, victim) == GiveUp(p, t, p.tasks[t].conn.origin)
  {
  }

  lemma ReleaseShelves(cfg: Config, p: Pool, t: nat, victim: Origin)
    requires t in p.tasks && p.tasks[t].Releasing? && p.lock.None?
    requires p.tasks[t].reusable && !p.closed && cfg.maxIdle > 0
    requires IdleCount(p.origins) >= cfg.maxIdle ==> Oldest(p.origins, victim)
    ensures Enabled(cfg, p, PoolState.Release(t, victim))
    ensures var c := p.tasks[t].conn;
      ReleaseStep(cfg, p, t, victim) ==
        Shelve(if IdleCount(p.origins) >= cfg.maxIdle then Evict(p, victim, c.origin) else p, t, c)
  {
  }

  lemma EvictRetains(p: Pool, victim: Origin, o: Origin)
    requires Oldest(p.origins, victim) && o in p.origins
    ensures o in Evict(p, victim, o).origins
  {
  }

  lemma RetainedStays(cfg: Config, p: Pool, o: Origin)
    requires o in p.origins
    ensures o in Prune(cfg, p, o).origins
  {
  }

  /** Every stack is its own origin's, also after an entry's counts change. */
  lemma AllHomed(cfg: Config, p: Pool, o: Origin, s: OriginState)
    requires Inv(cfg, p) && s.idle == StateOf(p.origins, o).idle
    ensures Homed(p.origins) && Homed(p.origins[o := s])
  {
    forall x ensures Ordered(StateOf(p.origins, x).idle, x, p.now) { assert OriginOk(cfg, p, x); }
    forall x, i | x in p.origins && 0 <= i < |p.origins[x].idle| ensures p.origins[x].idle[i].origin == x {
      assert p.origins[x].idle == StateOf(p.origins, x).idle;
    }
    var m := p.origins[o := s];
    forall x, i | x in m && 0 <= i < |m[x].idle| ensures m[x].idle[i].origin == x {
      assert m[x].idle == StateOf(p.origins, x).idle;
    }
  }

  lemma WaiterIsListed(cfg: Config, p: Pool, t: nat, o: Origin)
    requires Inv(cfg, p) && t in p.tasks && Waits(p.tasks[t], o)
    ensures o in p.origins
  {
    assert OriginOk(cfg, p, o);
    assert t in Waiters(p.tasks, o);
  }

  /** Shutdown has dealt with every origin but those still to do. */
  ghost predicate EmptiedBut(before: map<Origin, OriginState>, after: map<Origin, OriginState>, todo: set<Origin>) {
    && todo <= before.Keys
    && (forall x :: x in todo ==> x in after && after[x] == before[x])
    && (forall x :: x !in todo ==> (x in after <==> x in before && InUse(Emptied(before[x]))))
    && (forall x :: x in after && x !in todo ==> after[x] == Emptied(before[x]))
  }

  lemma EmptiedOneMore(before: map<Origin, OriginState>, after: map<Origin, OriginState>, todo: set<Origin>, o: Origin)
    requires EmptiedBut(before, after, todo) && o in todo
    ensures o in after && after[o] == before[o]
    ensures EmptiedBut(before, Retire(after[o := Emptied(before[o])], o), todo - {o})
  {
  }

  lemma ShutdownReady(cfg: Config, p: Pool, t: nat)
    requires Inv(cfg, p) && t in p.tasks && p.tasks[t].ShuttingDown? && p.lock.None?
    ensures Homed(p.origins) && Inv(cfg, ShutdownStep(p, t))
  {
    AllHomed(cfg, p, Origin("", "", 0), StateOf(p.origins, Origin("", "", 0)));
    ShutdownKeeps(cfg, p, t);
  }

  lemma EmptiedAll(p: Pool, t: nat, q: Pool)
    requires EmptiedBut(p.origins, q.origins, {}) && q.closed
    requires q.tasks == NotifyWhere(p.tasks[t := Done], p.origins.Keys)
    requires q == p.(closed := true, origins := q.origins, tasks := q.tasks)
    ensures q == ShutdownStep(p, t)
  {
    hide NotifyWhere, Emptied;
    assert q.origins == ShutdownStep(p, t).origins;
  }

  class ConnectionPool {
    const cfg: Config
    var origins: map<Origin, OriginState>
    var closed: bool
    var now: real
    var tasks: map<nat, Pc>
    var lock: Option<nat>
    var nextId: nat

    function Value(): Pool
      reads this
    {
      Pool(origins, closed, now, tasks, lock, nextId)
    }

    constructor (cfg: Config, now: real)
      ensures this.cfg == cfg && Init(Value()) && this.now == now
    {
      this.cfg, this.now := cfg, now;
      origins, closed, tasks, lock, nextId := map[], false, map[], None, 0;
    }

    method RetireOrigin(o: Origin)
      modifies this`origins
      ensures origins == Retire(old(origins), o)
    {
      if o in origins && origins[o].openCount == 0 && origins[o].waiterCount == 0 {
        origins := origins - {o};
      }
    }

    /** The close transition: unlist the connection, free its slot, wake the origin. */
    method CloseConnection(c: Conn)
      requires c.origin in origins
      modifies this`origins, this`tasks
      ensures var s := old(origins)[c.origin];
        origins == old(origins)[c.origin := s.(idle := Without(s.idle, c), openCount := s.openCount - 1)]
      ensures tasks == Notify(old(tasks), c.origin)
    {
      var s := origins[c.origin];
      if c in s.idle { s := s.(idle := Without(s.idle, c)); }
      origins := origins[c.origin := s.(openCount := s.openCount - 1)];
      tasks := Notify(tasks, c.origin);
    }

    /** Close one origin's connections past expiry, oldest first, up to the first survivor. */
    method PruneOrigin(o: Origin, timeout: real)
      requires o in origins
      requires forall i :: 0 <= i < |origins[o].idle| ==> origins[o].idle[i].origin == o
      modifies this`origins, this`tasks
      ensures origins == old(origins)[o := PrunedState(old(origins)[o], now, timeout)]
      ensures tasks ==
        if |PrunedState(old(origins)[o], now, timeout).idle| < |old(origins)[o].idle| then Notify(old(tasks), o)
        else old(tasks)
    {
      ghost var before := origins[o];
      while origins[o].idle != [] && now - origins[o].idle[0].idleSince > timeout
        invariant o in origins && origins == old(origins)[o := origins[o]]
        invariant |origins[o].idle| <= |before.idle|
        invariant forall i :: 0 <= i < |origins[o].idle| ==> origins[o].idle[i].origin == o
        invariant Unexpired(origins[o].idle, now, timeout) == Unexpired(before.idle, now, timeout)
        invariant origins[o].openCount - |origins[o].idle| == before.openCount - |before.idle|
        invariant origins[o].waiterCount == before.waiterCount
        invariant tasks == if |origins[o].idle| < |before.idle| then Notify(old(tasks), o) else old(tasks)
        decreases |origins[o].idle|
      {
        CloseConnection(origins[o].idle[0]);
      }
    }

    method PruneAndRetire(o: Origin, timeout: real, retained: Origin)
      requires o in origins
      requires forall i :: 0 <= i < |origins[o].idle| ==> origins[o].idle[i].origin == o
      modifies this`origins, this`tasks
      ensures var pruned := old(origins)[o := PrunedState(old(origins)[o], now, timeout)];
        origins == if o != retained then Retire(pruned, o) else pruned
      ensures tasks == if Shortened(old(origins)[o], now, timeout) then Notify(old(tasks), o) else old(tasks)
    {
      PruneOrigin(o, timeout);
      if o != retained { RetireOrigin(o); }
    }

    /** Prune every origin; those left without a use go, `retained` excepted. */
    method PruneExpired(retained: Origin)
      requires Homed(origins)
      modifies this`origins, this`tasks
      ensures Value() == Prune(cfg, old(Value()), retained)
    {
      if cfg.idleTimeout.None? { return; }
      var timeout := cfg.idleTimeout.value;
      ghost var before := origins;
      var todo := origins.Keys;
      WakeNobody(tasks);
      assert ShortenedSet(before, todo, now, timeout) == {};
      assert PrunedBut(before, origins, todo, retained, now, timeout);
      hide PrunedBut, PrunedState, ShortenedSet, NotifyWhere, Notify, Retire, Homed;
      while todo != {}
        invariant todo <= before.Keys
        invariant closed == old(closed) && lock == old(lock) && now == old(now) && nextId == old(nextId)
        invariant PrunedBut(before, origins, todo, retained, now, timeout)
        invariant tasks == NotifyWhere(old(tasks), ShortenedSet(before, todo, now, timeout))
        decreases |todo|
      {
        var o :| o in todo;
        PrunedOneMore(before, origins, todo, retained, now, timeout, o);
        WokenOneMore(old(tasks), before, todo, now, timeout, o);
        TodoUntouched(before, origins, todo, retained, now, timeout, o);
        PruneAndRetire(o, timeout, retained);
        todo := todo - {o};
      }
      PrunedAll(cfg, old(Value()), Value(), retained, timeout);
    }

    method IdleTotal() returns (total: nat)
      ensures total == IdleCount(origins)
    {
      total := 0;
      var rest := origins;
      while rest != map[]
        invariant total + IdleCount(rest) == IdleCount(origins)
        decreases |rest|
      {
        var o :| o in rest;
        IdleCountAt(rest, o);
        total := total + |rest[o].idle|;
        rest := rest - {o};
      }
    }

    /** Find the origin whose oldest idle connection is the oldest of all, and close it. */
    method EvictOldestIdle(retained: Origin) returns (victim: Origin)
      requires Homed(origins)
      requires exists o :: o in origins && origins[o].idle != []
      modifies this`origins, this`tasks
      ensures Oldest(old(origins), victim)
      ensures Value() == Evict(old(Value()), victim, retained)
    {
      victim :| victim in origins && origins[victim].idle != [];
      var todo := origins.Keys;
      while todo != {}
        invariant todo <= origins.Keys && victim in origins && origins[victim].idle != []
        invariant forall o :: o in origins && o !in todo && origins[o].idle != [] ==>
          origins[victim].idle[0].idleSince <= origins[o].idle[0].idleSince
        decreases |todo|
      {
        var o :| o in todo;
        if origins[o].idle != [] && origins[o].idle[0].idleSince < origins[victim].idle[0].idleSince {
          victim := o;
        }
        todo := todo - {o};
      }
      assert Oldest(origins, victim);
      CloseConnection(origins[victim].idle[0]);
      if victim != retained { RetireOrigin(victim); }
    }

    method GiveUpSlot(t: nat, c: Conn)
      requires c.origin in origins && c !in origins[c.origin].idle
      modifies this
      ensures Value() == GiveUp(old(Value()), t, c.origin)
    {
      tasks, lock := tasks[t := Done], None;
      CloseConnection(c);
      RetireOrigin(c.origin);
    }

    method ShelveConnection(t: nat, c: Conn)
      requires c.origin in origins
      modifies this
      ensures Value() == Shelve(old(Value()), t, c)
    {
      var s := origins[c.origin];
      origins := origins[c.origin := s.(idle := s.idle + [c.(idleSince := now)])];
      tasks := Notify(tasks[t := Done], c.origin);
    }

    /** `release` under the lock, for the task that runs it. */
    method Release(t: nat) returns (victim: Origin)
      requires Inv(cfg, Value())
      requires t in tasks && tasks[t].Releasing? && lock.None?
      modifies this
      ensures Enabled(cfg, old(Value()), PoolState.Release(t, victim))
      ensures Value() == ReleaseStep(cfg, old(Value()), t, victim)
      ensures Inv(cfg, Value())
    {
      var c, reusable := tasks[t].conn, tasks[t].reusable;
      victim := c.origin;
      HolderIsListed(cfg, Value(), t, c);
      hide Inv, GiveUp, Shelve, Evict, Homed, ReleaseStep, Enabled;
      var total := IdleTotal();
      if !reusable || closed || cfg.maxIdle <= 0 {
        ReleaseCloses(cfg, Value(), t, victim);
        GiveUpSlot(t, c);
      } else {
        if total >= cfg.maxIdle {
          ghost var oldest := OldestExists(origins);
          ghost var p := Value();
          victim := EvictOldestIdle(c.origin);
          ReleaseShelves(cfg, p, t, victim);
          EvictRetains(p, victim, c.origin);
        } else {
          ReleaseShelves(cfg, Value(), t, victim);
        }
        ShelveConnection(t, c);
      }
      StepKeeps(cfg, old(Value()), PoolState.Release(t, victim));
    }

    /** Pop the newest idle connection and start probing it, or reserve a slot, or park. */
    method CheckoutIdle(t: nat, o: Origin)
      requires o in origins
      modifies this
      ensures Value() == Checkout(cfg, old(Value()), t, o)
    {
      var s := origins[o];
      if s.idle != [] {
        var c := s.idle[|s.idle| - 1];
        origins := origins[o := s.(idle := s.idle[..|s.idle| - 1])];
        tasks, lock := tasks[t := Probing(c)], Some(t);
      } else if s.openCount < cfg.cap {
        origins := origins[o := s.(openCount := s.openCount + 1)];
        tasks, lock := tasks[t := Dialing(o)], None;
      } else {
        origins := origins[o := s.(waiterCount := s.waiterCount + 1)];
        tasks, lock := tasks[t := Parked(o)], None;
      }
    }

    /** A probed connection turned out stale: close it and look further, still under the lock. */
    method DiscardStale(t: nat)
      requires Inv(cfg, Value())
      requires t in tasks && tasks[t].Probing?
      modifies this
      ensures Value() == StaleStep(cfg, old(Value()), t) && Inv(cfg, Value())
    {
      var c := tasks[t].conn;
      HolderIsListed(cfg, Value(), t, c);
      StaleKeeps(cfg, Value(), t);
      hide Inv, Checkout, Homed;
      tasks := tasks[t := Done];
      CloseConnection(c);
      CheckoutIdle(t, c.origin);
    }

    /** A dial that succeeded: keep the connection, or close it if the pool was closed meanwhile. */
    method FinishDial(t: nat)
      requires Inv(cfg, Value())
      requires t in tasks && tasks[t].Dialed? && lock.None?
      modifies this
      ensures Value() == Apply(cfg, old(Value()), PoolState.FinishDial(t)) && Inv(cfg, Value())
    {
      var c := tasks[t].conn;
      HolderIsListed(cfg, Value(), t, c);
      StepKeeps(cfg, Value(), PoolState.FinishDial(t));
      hide Inv, GiveUp, Homed;
      if closed { GiveUpSlot(t, c); } else { tasks := tasks[t := Holding(c)]; }
    }

    /** The top of `acquire`'s loop, for a task that runs it. */
    method AcquireRound(t: nat, o: Origin)
      requires o in origins && Homed(origins)
      modifies this
      ensures Value() == TryAcquire(cfg, old(Value()), t, o)
    {
      if closed {
        RetireOrigin(o);
        tasks, lock := tasks[t := Done], None;
      } else {
        PruneExpired(o);
        RetainedStays(cfg, old(Value()), o);
        CheckoutIdle(t, o);
      }
    }

    /** `acquire` up to its first await. */
    method Enter(t: nat)
      requires Inv(cfg, Value())
      requires t in tasks && tasks[t].Entering? && lock.None?
      modifies this
      ensures Value() == EnterStep(cfg, old(Value()), t) && Inv(cfg, Value())
    {
      var o := tasks[t].o;
      AllHomed(cfg, Value(), o, StateOf(origins, o));
      EnterKeeps(cfg, Value(), t);
      hide Inv, TryAcquire, Homed;
      tasks := tasks[t := Done];
      if !closed {
        if o !in origins { origins := origins[o := OriginState([], 0, 0)]; }
        assert origins == old(origins)[o := StateOf(old(origins), o)];
        AcquireRound(t, o);
      }
    }

    method StopWaiting(t: nat, o: Origin)
      requires o in origins
      modifies this
      ensures Value() == LeaveQueue(old(Value()), t, o)
      ensures origins == old(origins)[o := old(origins)[o].(waiterCount := old(origins)[o].waiterCount - 1)]
    {
      tasks := tasks[t := Done];
      origins := origins[o := origins[o].(waiterCount := origins[o].waiterCount - 1)];
    }

    /** What a woken waiter does once it has the lock back. */
    method ResumeWaiter(t: nat)
      requires Inv(cfg, Value())
      requires t in tasks && tasks[t].Woken? && lock.None?
      modifies this
      ensures Value() == ResumeStep(cfg, old(Value()), t) && Inv(cfg, Value())
    {
      var o, cancelled := tasks[t].o, tasks[t].cancelled;
      var s := StateOf(origins, o);
      AllHomed(cfg, Value(), o, s.(waiterCount := s.waiterCount - 1));
      ResumeKeeps(cfg, Value(), t);
      WaiterIsListed(cfg, Value(), t, o);
      hide Inv, TryAcquire, Homed, LeaveQueue;
      StopWaiting(t, o);
      if cancelled { RetireOrigin(o); } else { AcquireRound(t, o); }
    }

    /** Close one origin's idle connections. */
    method CloseAllIdle(o: Origin)
      requires o in origins
      requires forall i :: 0 <= i < |origins[o].idle| ==> origins[o].idle[i].origin == o
      modifies this`origins, this`tasks
      ensures origins == old(origins)[o := Emptied(old(origins)[o])]
      ensures tasks == if old(origins)[o].idle == [] then old(tasks) else Notify(old(tasks), o)
    {
      ghost var before := origins[o];
      while origins[o].idle != []
        invariant o in origins && origins == old(origins)[o := origins[o]]
        invariant |origins[o].idle| <= |before.idle|
        invariant forall i :: 0 <= i < |origins[o].idle| ==> origins[o].idle[i].origin == o
        invariant origins[o].openCount - |origins[o].idle| == before.openCount - |before.idle|
        invariant origins[o].waiterCount == before.waiterCount
        invariant tasks == if |origins[o].idle| < |before.idle| then Notify(old(tasks), o) else old(tasks)
        decreases |origins[o].idle|
      {
        CloseConnection(origins[o].idle[0]);
      }
    }

    method CloseOrigin(o: Origin)
      requires o in origins
      requires forall i :: 0 <= i < |origins[o].idle| ==> origins[o].idle[i].origin == o
      modifies this`origins, this`tasks
      ensures origins == Retire(old(origins)[o := Emptied(old(origins)[o])], o)
      ensures tasks == Notify(old(tasks), o)
    {
      CloseAllIdle(o);
      tasks := Notify(tasks, o);
      RetireOrigin(o);
    }

    /** Close what is idle on every origin, wake its waiters and forget it if unused. */
    method CloseEveryOrigin()
      requires Homed(origins)
      modifies this`origins, this`tasks
      ensures EmptiedBut(old(origins), origins, {})
      ensures tasks == NotifyWhere(old(tasks), old(origins).Keys)
    {
      ghost var before, moved := origins, tasks;
      var todo := origins.Keys;
      WakeNobody(tasks);
      assert before.Keys - todo == {};
      while todo != {}
        invariant EmptiedBut(before, origins, todo)
        invariant tasks == NotifyWhere(moved, before.Keys - todo)
        decreases |todo|
      {
        var o :| o in todo;
        EmptiedOneMore(before, origins, todo, o);
        WakeOneMore(moved, before.Keys - todo, o);
        assert before.Keys - (todo - {o}) == before.Keys - todo + {o};
        assert forall i :: 0 <= i < |before[o].idle| ==> before[o].idle[i].origin == o;
        CloseOrigin(o);
        todo := todo - {o};
      }
      assert before.Keys - {} == before.Keys;
    }

    /** `aclose` under the lock: close everything idle and wake everyone. */
    method Shutdown(t: nat)
      requires Inv(cfg, Value())
      requires t in tasks && tasks[t].ShuttingDown? && lock.None?
      modifies this
      ensures Value() == ShutdownStep(old(Value()), t) && Inv(cfg, Value())
    {
      hide Inv, Homed, NotifyWhere, EmptiedBut, ShutdownStep;
      ShutdownReady(cfg, Value(), t);
      closed, tasks := true, tasks[t := Done];
      CloseEveryOrigin();
      EmptiedAll(old(Value()), t, Value());
    }
  }
}
