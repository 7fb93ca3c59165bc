/** Each atomic segment of the pool keeps the invariant. */
module PoolSteps {
  import opened Bytes
  import opened PoolState
  import opened PoolInvariant

  /** A task moved without changing what it occupies, waits for or carries. */
  lemma QuietMove(cfg: Config, p: Pool, q: Pool, t: nat)
    requires Core(cfg, p)
    requires q.origins == p.origins && q.closed == p.closed && q.now == p.now && q.nextId == p.nextId
    requires Follows(p.tasks, q.tasks, t) && t in q.tasks && !q.tasks[t].Parked?
    requires forall x :: UsesAt(q.tasks, t, x) == UsesAt(p.tasks, t, x)
    requires forall x :: WaitsAt(q.tasks, t, x) == WaitsAt(p.tasks, t, x)
    requires IdAt(q, With(t)).Some? ==> IdAt(q, With(t)) == IdAt(p, With(t))
    ensures Core(cfg, q)
  {
    forall x ensures OriginOk(cfg, q, x) {
      assert OriginOk(cfg, p, x);
      CountsMove(p.tasks, q.tasks, t, x);
      assert UsesAt(q.tasks, t, x) == UsesAt(p.tasks, t, x);
      assert WaitsAt(q.tasks, t, x) == WaitsAt(p.tasks, t, x);
      StillParked(p, q, t, x);
    }
    PlacesKept(p, q, t);
  }

  lemma StillParked(p: Pool, q: Pool, t: nat, o: Origin)
    requires Follows(p.tasks, q.tasks, t)
    requires t in q.tasks ==> q.tasks[t] != Parked(o)
    ensures ParkedFor(q, o) ==> ParkedFor(p, o)
  {
    if ParkedFor(q, o) {
      var u :| u in q.tasks && q.tasks[u] == Parked(o);
      assert p.tasks[u] == Parked(o);
    }
  }

  lemma RegisterKeeps(cfg: Config, p: Pool, o: Origin)
    requires Core(cfg, p) && Registered(p, None)
    ensures Core(cfg, Register(p, o)) && Registered(Register(p, o), Some(o))
  {
    var q := Register(p, o);
    IdleCountSet(p.origins, o, StateOf(p.origins, o));
    SameStates(cfg, p, q);
  }

  /** Entries that read the same and tasks left alone keep the core. */
  lemma SameStates(cfg: Config, p: Pool, q: Pool)
    requires Core(cfg, p)
    requires forall x :: StateOf(q.origins, x) == StateOf(p.origins, x)
    requires q.tasks == p.tasks && q.closed == p.closed && q.now == p.now && q.nextId == p.nextId
    requires IdleCount(q.origins) <= IdleCount(p.origins)
    ensures Core(cfg, q)
  {
    forall x ensures OriginOk(cfg, q, x) {
      assert OriginOk(cfg, p, x);
      if ParkedFor(q, x) { assert ParkedFor(p, x); }
    }
    forall a ensures IdAt(q, a) == IdAt(p, a) {}
    Relocated(p, q, a => a);
  }

  lemma RetireKeeps(cfg: Config, p: Pool, o: Origin)
    requires Core(cfg, p) && Registered(p, Some(o))
    ensures Core(cfg, p.(origins := Retire(p.origins, o)))
    ensures Registered(p.(origins := Retire(p.origins, o)), None)
  {
    var q := p.(origins := Retire(p.origins, o));
    assert OriginOk(cfg, p, o);
    forall x ensures StateOf(q.origins, x) == StateOf(p.origins, x) {}
    IdleCountShrinks(p.origins, q.origins);
    SameStates(cfg, p, q);
  }

  lemma CloseKeeps(cfg: Config, p: Pool, t: nat, o: Origin)
    requires Core(cfg, p) && Registered(p, None)
    requires t in p.tasks && Uses(p.tasks[t], o) && !Waits(p.tasks[t], o)
    ensures var q := Close(Move(p, t, Done), o); Core(cfg, q) && Registered(q, Some(o))
  {
    var q := Close(Move(p, t, Done), o);
    CloseAt(cfg, p, t, o);
    CloseTouches(p, t, o);
    hide OriginOk, Uses, Waits, OnePlaceEach;
    OthersStay(cfg, p, q, t, o);
    IdleCountSet(p.origins, o, StateOf(q.origins, o));
    PlacesKept(p, q, t);
  }

  /** A task that drops what it carried, or keeps it, with the stacks as they were. */
  lemma PlacesKept(p: Pool, q: Pool, t: nat)
    requires OnePlaceEach(p) && q.nextId == p.nextId && Follows(p.tasks, q.tasks, t)
    requires forall x :: StateOf(q.origins, x).idle == StateOf(p.origins, x).idle
    requires IdAt(q, With(t)).Some? ==> IdAt(q, With(t)) == IdAt(p, With(t))
    ensures OnePlaceEach(q)
  {
    forall a | IdAt(q, a).Some? ensures IdAt(q, a) == IdAt(p, a) {}
    Relocated(p, q, a => a);
  }

  lemma CloseTouches(p: Pool, t: nat, o: Origin)
    requires t in p.tasks && Uses(p.tasks[t], o)
    ensures OnlyAt(p, Close(Move(p, t, Done), o), t, o)
  {
    UsesOne(p.tasks[t], o);
    hide Uses;
    var q := Close(Move(p, t, Done), o);
    assert q.tasks[t] == Done;
  }

  /** At the closing connection's own origin: one slot fewer, and nobody parked. */
  lemma CloseAt(cfg: Config, p: Pool, t: nat, o: Origin)
    requires OriginOk(cfg, p, o)
    requires t in p.tasks && Uses(p.tasks[t], o) && !Waits(p.tasks[t], o)
    ensures OriginOk(cfg, Close(Move(p, t, Done), o), o)
  {
    var q := Close(Move(p, t, Done), o);
    CountsMove(p.tasks, q.tasks, t, o);
    NobodyParked(q.tasks, p.tasks[t := Done], o);
    hide Uses;
    assert !ParkedFor(q, o);
  }

  lemma NobodyParked(after: map<nat, Pc>, before: map<nat, Pc>, o: Origin)
    requires after == Notify(before, o)
    ensures forall t :: t in after ==> after[t] != Parked(o)
  {
  }

  lemma UsesOne(pc: Pc, o: Origin)
    requires Uses(pc, o)
    ensures forall x :: x != o ==> !Uses(pc, x) && !Waits(pc, x)
  {
  }

  lemma CheckoutKeeps(cfg: Config, p: Pool, t: nat, o: Origin)
    requires Core(cfg, p) && Registered(p, Some(o)) && !p.closed
    requires t in p.tasks && p.tasks[t].Done?
    requires forall u :: u in p.tasks ==> !p.tasks[u].Probing?
    ensures Inv(cfg, Checkout(cfg, p, t, o))
  {
    var q := Checkout(cfg, p, t, o);
    CheckoutAt(cfg, p, t, o);
    IdleCountSet(p.origins, o, StateOf(q.origins, o));
    CheckoutTouches(cfg, p, t, o);
    hide OriginOk, Uses, Waits, OnePlaceEach, Ordered;
    OthersStay(cfg, p, q, t, o);
    if StateOf(p.origins, o).idle != [] {
      PopRelocates(p, q, t, o);
    } else {
      PlacesKept(p, q, t);
    }
  }

  lemma CheckoutTouches(cfg: Config, p: Pool, t: nat, o: Origin)
    requires OriginOk(cfg, p, o) && t in p.tasks && p.tasks[t].Done?
    ensures OnlyAt(p, Checkout(cfg, p, t, o), t, o)
  {
  }

  lemma CheckoutAt(cfg: Config, p: Pool, t: nat, o: Origin)
    requires OriginOk(cfg, p, o) && !p.closed
    requires t in p.tasks && p.tasks[t].Done?
    ensures OriginOk(cfg, Checkout(cfg, p, t, o), o)
    ensures var q := Checkout(cfg, p, t, o); o in q.origins && InUse(q.origins[o])
  {
    var s := StateOf(p.origins, o);
    var q := Checkout(cfg, p, t, o);
    CountsMove(p.tasks, q.tasks, t, o);
    if s.idle != [] || s.openCount < cfg.cap {
      StillParked(p, q, t, o);
    } else {
      assert WaitsAt(q.tasks, t, o) && t in Waiters(q.tasks, o);
    }
  }

  lemma PopRelocates(p: Pool, q: Pool, t: nat, o: Origin)
    requires OnePlaceEach(p) && StateOf(p.origins, o).idle != []
    requires q.nextId == p.nextId && t in p.tasks && p.tasks[t].Done?
    requires var s := StateOf(p.origins, o); var n := |s.idle| - 1;
      && q.tasks == p.tasks[t := Probing(s.idle[n])]
      && q.origins == p.origins[o := s.(idle := s.idle[..n])]
    ensures OnePlaceEach(q)
  {
    var n := |StateOf(p.origins, o).idle| - 1;
    var from := (a: Place) => if a == With(t) then Stack(o, n) else a;
    forall a | IdAt(q, a).Some? ensures IdAt(q, a) == IdAt(p, from(a)) {}
    forall a, b | a != b && IdAt(q, a).Some? && IdAt(q, b).Some? ensures from(a) != from(b) {}
    Relocated(p, q, from);
  }

  // ---- pruning ----

  /** Pruning a stack in age order removes the expired connections and no others. */
  lemma {:induction false} UnexpiredIs(idle: seq<Conn>, o: Origin, now: real, timeout: real)
    requires Ordered(idle, o, now)
    ensures var kept := Unexpired(idle, now, timeout);
      ExpiredGone(idle, kept, now, timeout) && Ordered(kept, o, now)
    decreases |idle|
  {
    if idle != [] && now - idle[0].idleSince > timeout {
      UnexpiredIs(idle[1..], o, now, timeout);
      var k := |idle| - |Unexpired(idle, now, timeout)|;
      forall i | 0 <= i < |idle| ensures now - idle[i].idleSince > timeout <==> i < k {
        if i > 0 { assert idle[i] == idle[1..][i - 1]; }
      }
    }
  }

  /** An entry that pruning forgets reads as its pruned state did: nothing idle, nothing counted. */
  lemma PruneStateAt(cfg: Config, p: Pool, o: Origin, timeout: real, x: Origin)
    requires OriginOk(cfg, p, x) && cfg.idleTimeout == Some(timeout)
    ensures StateOf(Prune(cfg, p, o).origins, x) == PrunedState(StateOf(p.origins, x), p.now, timeout)
  {
    hide Users, Waiters, NotifyWhere, ParkedFor;
    UnexpiredIs(StateOf(p.origins, x).idle, x, p.now, timeout);
  }

  /** A task still parked waits for an origin that lost nothing. */
  lemma PruneParkedAt(cfg: Config, p: Pool, o: Origin, timeout: real, x: Origin)
    requires cfg.idleTimeout == Some(timeout) && ParkedFor(Prune(cfg, p, o), x)
    ensures ParkedFor(p, x)
    ensures |PrunedState(StateOf(p.origins, x), p.now, timeout).idle| >= |StateOf(p.origins, x).idle|
  {
    var q := Prune(cfg, p, o);
    var u :| u in q.tasks && q.tasks[u] == Parked(x);
    assert p.tasks[u] == Parked(x);
  }

  lemma PruneAt(cfg: Config, p: Pool, o: Origin, timeout: real, x: Origin)
    requires OriginOk(cfg, p, x) && cfg.idleTimeout == Some(timeout)
    ensures StateOf(Prune(cfg, p, o).origins, x) == PrunedState(StateOf(p.origins, x), p.now, timeout)
    ensures OriginOk(cfg, Prune(cfg, p, o), x)
  {
    PruneStateAt(cfg, p, o, timeout, x);
    PruneWakes(cfg, p, o);
    if ParkedFor(Prune(cfg, p, o), x) { PruneParkedAt(cfg, p, o, timeout, x); }
    hide Prune, OriginOk, PrunedState;
    PrunedOk(cfg, p, Prune(cfg, p, o), timeout, x);
  }

  lemma PruneWakes(cfg: Config, p: Pool, o: Origin)
    ensures var q := Prune(cfg, p, o); q.closed == p.closed && q.now == p.now && OnlyWoken(p.tasks, q.tasks)
  {
    hide PrunedState;
  }

  lemma PrunedOk(cfg: Config, p: Pool, q: Pool, timeout: real, x: Origin)
    requires OriginOk(cfg, p, x)
    requires StateOf(q.origins, x) == PrunedState(StateOf(p.origins, x), p.now, timeout)
    requires q.closed == p.closed && q.now == p.now && OnlyWoken(p.tasks, q.tasks)
    requires ParkedFor(q, x) ==> ParkedFor(p, x) && |StateOf(q.origins, x).idle| >= |StateOf(p.origins, x).idle|
    ensures OriginOk(cfg, q, x)
  {
    UnexpiredIs(StateOf(p.origins, x).idle, x, p.now, timeout);
    WakingKeepsCounts(p.tasks, q.tasks, x);
    hide Users, Waiters, ParkedFor, Unexpired;
  }

  ghost predicate OnlyWoken(before: map<nat, Pc>, after: map<nat, Pc>) {
    && after.Keys == before.Keys
    && forall u :: u in before ==>
         after[u] == before[u] || (before[u].Parked? && after[u] == Woken(before[u].o, false))
  }

  /** Tasks that are only woken keep every count. */
  lemma WakingKeepsCounts(before: map<nat, Pc>, after: map<nat, Pc>, o: Origin)
    requires OnlyWoken(before, after)
    ensures Users(after, o) == Users(before, o) && Waiters(after, o) == Waiters(before, o)
  {
    forall u ensures UsesAt(after, u, o) == UsesAt(before, u, o) && WaitsAt(after, u, o) == WaitsAt(before, u, o) {
      if u in before { assert u in after; }
    }
    hide Uses, Waits;
    forall u ensures u in Users(after, o) <==> u in Users(before, o) {
      assert UsesAt(after, u, o) == UsesAt(before, u, o);
    }
    forall u ensures u in Waiters(after, o) <==> u in Waiters(before, o) {
      assert WaitsAt(after, u, o) == WaitsAt(before, u, o);
    }
  }

  lemma PruneKeeps(cfg: Config, p: Pool, o: Origin)
    requires Core(cfg, p) && Registered(p, Some(o))
    ensures Core(cfg, Prune(cfg, p, o)) && Registered(Prune(cfg, p, o), Some(o))
  {
    if cfg.idleTimeout.Some? {
      var timeout := cfg.idleTimeout.value;
      var q := Prune(cfg, p, o);
      forall x
        ensures OriginOk(cfg, q, x)
        ensures StateOf(q.origins, x) == PrunedState(StateOf(p.origins, x), p.now, timeout)
        ensures Ordered(StateOf(p.origins, x).idle, x, p.now)
      {
        assert OriginOk(cfg, p, x);
        PruneAt(cfg, p, o, timeout, x);
      }
      PruneRelocates(p, q, timeout);
      PruneShrinks(p, q, timeout);
    }
  }

  lemma PruneShrinks(p: Pool, q: Pool, timeout: real)
    requires forall x :: StateOf(q.origins, x) == PrunedState(StateOf(p.origins, x), p.now, timeout)
    requires forall x :: Ordered(StateOf(p.origins, x).idle, x, p.now)
    ensures IdleCount(q.origins) <= IdleCount(p.origins)
  {
    forall x ensures |StateOf(q.origins, x).idle| <= |StateOf(p.origins, x).idle| {
      assert Ordered(StateOf(p.origins, x).idle, x, p.now);
      UnexpiredIs(StateOf(p.origins, x).idle, x, p.now, timeout);
    }
    IdleCountShrinks(p.origins, q.origins);
  }

  function PrunedBy(p: Pool, q: Pool, o: Origin): int {
    |StateOf(p.origins, o).idle| - |StateOf(q.origins, o).idle|
  }

  lemma PruneRelocates(p: Pool, q: Pool, timeout: real)
    requires OnePlaceEach(p) && q.nextId == p.nextId && q.tasks.Keys == p.tasks.Keys
    requires forall u :: u in p.tasks ==> Carried(q.tasks[u]) == Carried(p.tasks[u])
    requires forall x :: StateOf(q.origins, x) == PrunedState(StateOf(p.origins, x), p.now, timeout)
    requires forall x :: Ordered(StateOf(p.origins, x).idle, x, p.now)
    ensures OnePlaceEach(q)
  {
    var from := (a: Place) => if a.Stack? && PrunedBy(p, q, a.o) >= 0 then Stack(a.o, a.i + PrunedBy(p, q, a.o)) else a;
    forall a | IdAt(q, a).Some? ensures IdAt(q, a) == IdAt(p, from(a)) {
      if a.Stack? {
        assert Ordered(StateOf(p.origins, a.o).idle, a.o, p.now);
        UnexpiredIs(StateOf(p.origins, a.o).idle, a.o, p.now, timeout);
      }
    }
    Relocated(p, q, from);
  }

  // ---- releasing ----

  lemma EvictKeeps(cfg: Config, p: Pool, t: nat, victim: Origin, o: Origin)
    requires Core(cfg, p) && Registered(p, None) && Oldest(p.origins, victim)
    requires t in p.tasks && !p.tasks[t].Parked?
    ensures var q := Evict(p, victim, o);
      && Core(cfg, q) && Registered(q, Some(o))
      && IdleCount(q.origins) == IdleCount(p.origins) - 1
  {
    var q := CloseOldest(p, victim);
    EvictAt(cfg, p, victim);
    EvictTouches(p, t, victim);
    IdleCountSet(p.origins, victim, StateOf(q.origins, victim));
    hide Users, Waiters, OnlyAt, OnePlaceEach, Ordered;
    OthersStay(cfg, p, q, t, victim);
    EvictRelocates(p, victim);
    if victim != o {
      RetireCount(cfg, q, victim);
      RetireKeeps(cfg, q, victim);
    }
  }

  lemma EvictAt(cfg: Config, p: Pool, victim: Origin)
    requires OriginOk(cfg, p, victim) && Oldest(p.origins, victim)
    ensures OriginOk(cfg, CloseOldest(p, victim), victim)
  {
    var q := CloseOldest(p, victim);
    WakingKeepsCounts(p.tasks, q.tasks, victim);
    NobodyParked(q.tasks, p.tasks, victim);
  }

  lemma EvictTouches(p: Pool, t: nat, victim: Origin)
    requires Oldest(p.origins, victim) && t in p.tasks && !p.tasks[t].Parked?
    ensures OnlyAt(p, CloseOldest(p, victim), t, victim)
  {
    hide Uses, Waits;
    assert CloseOldest(p, victim).tasks[t] == p.tasks[t];
  }

  /** Forgetting an origin with nothing idle does not change the idle total. */
  lemma RetireCount(cfg: Config, p: Pool, o: Origin)
    requires OriginOk(cfg, p, o)
    ensures IdleCount(Retire(p.origins, o)) == IdleCount(p.origins)
  {
    IdleCountAt(p.origins, o);
  }

  lemma EvictRelocates(p: Pool, victim: Origin)
    requires OnePlaceEach(p) && StateOf(p.origins, victim).idle != []
    ensures OnePlaceEach(CloseOldest(p, victim))
  {
    var q := CloseOldest(p, victim);
    var from := (a: Place) => if a.Stack? && a.o == victim then Stack(victim, a.i + 1) else a;
    forall a | IdAt(q, a).Some? ensures IdAt(q, a) == IdAt(p, from(a)) {}
    Relocated(p, q, from);
  }

  lemma ShelveKeeps(cfg: Config, p: Pool, t: nat, c: Conn)
    requires Core(cfg, p) && Registered(p, Some(c.origin)) && !p.closed
    requires t in p.tasks && p.tasks[t].Releasing? && p.tasks[t].conn == c
    requires IdleCount(p.origins) < cfg.maxIdle
    ensures Core(cfg, Shelve(p, t, c)) && Registered(Shelve(p, t, c), None)
  {
    var q := Shelve(p, t, c);
    ShelveAt(cfg, p, t, c);
    ShelveTouches(p, t, c);
    IdleCountSet(p.origins, c.origin, StateOf(q.origins, c.origin));
    ShelveRelocates(p, t, c);
    hide Users, Waiters, OnlyAt, OnePlaceEach, Ordered;
    OthersStay(cfg, p, q, t, c.origin);
  }

  lemma ShelveAt(cfg: Config, p: Pool, t: nat, c: Conn)
    requires OriginOk(cfg, p, c.origin) && !p.closed
    requires t in p.tasks && p.tasks[t].Releasing? && p.tasks[t].conn == c
    ensures OriginOk(cfg, Shelve(p, t, c), c.origin)
    ensures InUse(StateOf(Shelve(p, t, c).origins, c.origin))
  {
    var q := Shelve(p, t, c);
    CountsMove(p.tasks, q.tasks, t, c.origin);
    NobodyParked(q.tasks, p.tasks[t := Done], c.origin);
    assert !ParkedFor(q, c.origin);
  }

  lemma ShelveTouches(p: Pool, t: nat, c: Conn)
    requires t in p.tasks && p.tasks[t].Releasing? && p.tasks[t].conn == c
    ensures OnlyAt(p, Shelve(p, t, c), t, c.origin)
  {
    UsesOne(p.tasks[t], c.origin);
    assert Shelve(p, t, c).tasks[t] == Done;
  }

  lemma ShelveRelocates(p: Pool, t: nat, c: Conn)
    requires OnePlaceEach(p)
    requires t in p.tasks && p.tasks[t].Releasing? && p.tasks[t].conn == c
    ensures OnePlaceEach(Shelve(p, t, c))
  {
    var q := Shelve(p, t, c);
    var top := Stack(c.origin, |StateOf(p.origins, c.origin).idle|);
    var from := (a: Place) => if a == top then With(t) else a;
    forall a | IdAt(q, a).Some? ensures IdAt(q, a) == IdAt(p, from(a)) {}
    assert IdAt(q, With(t)).None?;
    forall a, b | a != b && IdAt(q, a).Some? && IdAt(q, b).Some? ensures from(a) != from(b) {}
    Relocated(p, q, from);
  }

  // ---- shutdown ----

  lemma ShutdownAt(cfg: Config, p: Pool, t: nat, o: Origin)
    requires OriginOk(cfg, p, o) && t in p.tasks && p.tasks[t].ShuttingDown?
    ensures StateOf(ShutdownStep(p, t).origins, o) == Emptied(StateOf(p.origins, o))
    ensures OriginOk(cfg, ShutdownStep(p, t), o)
  {
    var q := ShutdownStep(p, t);
    ShutdownFollows(p, t);
    ShutdownWakes(p, t, o);
    assert !ParkedFor(q, o);
    hide Users, Waiters, Uses, Waits, ParkedFor, Follows;
    EmptiedOk(cfg, p, q, t, o);
  }

  lemma ShutdownFollows(p: Pool, t: nat)
    requires t in p.tasks && p.tasks[t].ShuttingDown?
    ensures var q := ShutdownStep(p, t);
      Follows(p.tasks, q.tasks, t) && t in q.tasks && q.tasks[t].Done? && q.closed
  {
    hide Emptied, InUse;
  }

  lemma EmptiedOk(cfg: Config, p: Pool, q: Pool, t: nat, o: Origin)
    requires OriginOk(cfg, p, o) && q.closed && !ParkedFor(q, o)
    requires Follows(p.tasks, q.tasks, t)
    requires t in p.tasks && p.tasks[t].ShuttingDown? && t in q.tasks && q.tasks[t].Done?
    requires o in q.origins <==> o in p.origins && InUse(Emptied(p.origins[o]))
    requires o in q.origins ==> q.origins[o] == Emptied(p.origins[o])
    ensures StateOf(q.origins, o) == Emptied(StateOf(p.origins, o)) && OriginOk(cfg, q, o)
  {
    CountsMove(p.tasks, q.tasks, t, o);
    hide Users, Waiters, ParkedFor, Follows;
  }

  lemma ShutdownWakes(p: Pool, t: nat, o: Origin)
    requires StateOf(p.origins, o).waiterCount == |Waiters(p.tasks, o)|
    ensures forall u :: u in ShutdownStep(p, t).tasks ==> ShutdownStep(p, t).tasks[u] != Parked(o)
  {
    var q := ShutdownStep(p, t);
    forall u | u in q.tasks ensures q.tasks[u] != Parked(o) {
      if u in p.tasks && p.tasks[u] == Parked(o) {
        assert u in Waiters(p.tasks, o);
      }
    }
  }

  lemma ShutdownKeeps(cfg: Config, p: Pool, t: nat)
    requires Inv(cfg, p) && t in p.tasks && p.tasks[t].ShuttingDown? && p.lock.None?
    ensures Inv(cfg, ShutdownStep(p, t))
  {
    var q := ShutdownStep(p, t);
    forall o
      ensures OriginOk(cfg, q, o)
      ensures StateOf(q.origins, o) == Emptied(StateOf(p.origins, o))
    {
      assert OriginOk(cfg, p, o);
      ShutdownAt(cfg, p, t, o);
    }
    hide OriginOk;
    IdleCountShrinks(p.origins, q.origins);
    forall a | IdAt(q, a).Some? ensures IdAt(q, a) == IdAt(p, a) {}
    Relocated(p, q, a => a);
  }

  // ---- the segments of acquire ----

  lemma TryAcquireKeeps(cfg: Config, p: Pool, t: nat, o: Origin)
    requires Core(cfg, p) && Registered(p, Some(o))
    requires t in p.tasks && p.tasks[t].Done?
    requires forall u :: u in p.tasks ==> !p.tasks[u].Probing?
    ensures Inv(cfg, TryAcquire(cfg, p, t, o))
  {
    if p.closed {
      RetireKeeps(cfg, p, o);
      var q := p.(origins := Retire(p.origins, o));
      var r := TryAcquire(cfg, p, t, o);
      assert r.tasks == p.tasks;
      SameStates(cfg, q, q.(lock := None));
    } else {
      PruneKeeps(cfg, p, o);
      CheckoutKeeps(cfg, Prune(cfg, p, o), t, o);
    }
  }

  lemma EnterKeeps(cfg: Config, p: Pool, t: nat)
    requires Inv(cfg, p) && t in p.tasks && p.tasks[t].Entering? && p.lock.None?
    ensures Inv(cfg, EnterStep(cfg, p, t))
  {
    var o := p.tasks[t].o;
    var q := Move(p, t, Done);
    QuietMove(cfg, p, q, t);
    hide OriginOk, OnePlaceEach, TryAcquire;
    if !p.closed {
      RegisterKeeps(cfg, q, o);
      TryAcquireKeeps(cfg, Register(q, o), t, o);
    }
  }

  lemma ResumeKeeps(cfg: Config, p: Pool, t: nat)
    requires Inv(cfg, p) && t in p.tasks && p.tasks[t].Woken? && p.lock.None?
    ensures Inv(cfg, ResumeStep(cfg, p, t))
  {
    var o := p.tasks[t].o;
    var q := LeaveQueue(p, t, o);
    LeaveWait(cfg, p, t, o);
    assert q.tasks == p.tasks[t := Done] && q.lock == p.lock && q.closed == p.closed;
    hide OriginOk, OnePlaceEach, Retire, Core, TryAcquire, Registered, LeaveQueue;
    if p.tasks[t].cancelled {
      RetireKeeps(cfg, q, o);
    } else {
      TryAcquireKeeps(cfg, q, t, o);
    }
  }

  lemma LeaveWaitAt(cfg: Config, p: Pool, t: nat, o: Origin)
    requires OriginOk(cfg, p, o)
    requires t in p.tasks && p.tasks[t].Woken? && p.tasks[t].o == o
    ensures OriginOk(cfg, LeaveQueue(p, t, o), o)
  {
    var q := LeaveQueue(p, t, o);
    CountsMove(p.tasks, q.tasks, t, o);
    StillParked(p, q, t, o);
  }

  lemma LeaveWait(cfg: Config, p: Pool, t: nat, o: Origin)
    requires Core(cfg, p) && Registered(p, None)
    requires t in p.tasks && p.tasks[t].Woken? && p.tasks[t].o == o
    ensures Core(cfg, LeaveQueue(p, t, o)) && Registered(LeaveQueue(p, t, o), Some(o))
  {
    var q := LeaveQueue(p, t, o);
    LeaveWaitAt(cfg, p, t, o);
    IdleCountSet(p.origins, o, StateOf(q.origins, o));
    hide OriginOk, OnePlaceEach;
    OthersStay(cfg, p, q, t, o);
    PlacesKept(p, q, t);
  }

  lemma GiveUpKeeps(cfg: Config, p: Pool, t: nat, o: Origin)
    requires Inv(cfg, p) && t in p.tasks && Uses(p.tasks[t], o) && !Waits(p.tasks[t], o)
    requires p.lock.Some? ==> p.lock == Some(t)
    ensures Inv(cfg, GiveUp(p, t, o))
  {
    CloseKeeps(cfg, p, t, o);
    var q := Close(Move(p, t, Done), o);
    RetireKeeps(cfg, q, o);
    var r := q.(origins := Retire(q.origins, o));
    SameStates(cfg, r, r.(lock := None));
  }

  lemma ProberHasLock(cfg: Config, p: Pool, t: nat)
    requires Inv(cfg, p) && t in p.tasks && p.tasks[t].Probing?
    ensures p.lock == Some(t)
  {
  }

  lemma StaleKeeps(cfg: Config, p: Pool, t: nat)
    requires Inv(cfg, p) && t in p.tasks && p.tasks[t].Probing?
    ensures Inv(cfg, StaleStep(cfg, p, t))
  {
    var o := p.tasks[t].conn.origin;
    CloseKeeps(cfg, p, t, o);
    CheckoutKeeps(cfg, Close(Move(p, t, Done), o), t, o);
  }

  /** Putting a connection back neither probes nor takes the lock. */
  lemma ReleaseProbes(cfg: Config, p: Pool, t: nat, victim: Origin)
    requires LockOk(p) && Enabled(cfg, p, Release(t, victim))
    requires p.tasks[t].reusable && !p.closed && cfg.maxIdle > 0
    ensures LockOk(ReleaseStep(cfg, p, t, victim))
  {
    hide IdleCount, Oldest;
    var q := ReleaseStep(cfg, p, t, victim);
    forall u | u in q.tasks ensures !q.tasks[u].Probing? {
      if u in p.tasks { assert !p.tasks[u].Probing?; }
    }
  }

  lemma ReleaseKeeps(cfg: Config, p: Pool, t: nat, victim: Origin)
    requires Inv(cfg, p) && Enabled(cfg, p, Release(t, victim))
    ensures Inv(cfg, ReleaseStep(cfg, p, t, victim))
  {
    if p.tasks[t].reusable && !p.closed && cfg.maxIdle > 0 { ReleaseProbes(cfg, p, t, victim); }
    hide OriginOk, OnePlaceEach, GiveUp, Core, Registered, Shelve, Evict;
    var c, o := p.tasks[t].conn, p.tasks[t].conn.origin;
    if !p.tasks[t].reusable || p.closed || cfg.maxIdle <= 0 {
      GiveUpKeeps(cfg, p, t, o);
    } else if IdleCount(p.origins) >= cfg.maxIdle {
      EvictKeeps(cfg, p, t, victim, o);
      ShelveKeeps(cfg, Evict(p, victim, o), t, c);
    } else {
      ShelveKeeps(cfg, p, t, c);
    }
  }

  lemma NewConnectionKeeps(cfg: Config, p: Pool, t: nat)
    requires Inv(cfg, p) && t in p.tasks && p.tasks[t].Dialing?
    ensures Inv(cfg, Apply(cfg, p, DialSucceeds(t)))
  {
    var o := p.tasks[t].o;
    var q := Apply(cfg, p, DialSucceeds(t));
    forall x ensures OriginOk(cfg, q, x) {
      assert OriginOk(cfg, p, x);
      CountsMove(p.tasks, q.tasks, t, x);
      StillParked(p, q, t, x);
    }
    hide OriginOk;
    NewPlace(p, q, t);
  }

  lemma NewPlace(p: Pool, q: Pool, t: nat)
    requires OnePlaceEach(p) && q.origins == p.origins && q.nextId == p.nextId + 1
    requires Follows(p.tasks, q.tasks, t) && IdAt(q, With(t)) == Some(p.nextId)
    ensures OnePlaceEach(q)
  {
    forall a | a != With(t) ensures IdAt(q, a) == IdAt(p, a) {}
  }

  lemma TickKeeps(cfg: Config, p: Pool, to: real)
    requires Inv(cfg, p) && to >= p.now
    ensures Inv(cfg, p.(now := to))
  {
    var q := p.(now := to);
    forall x ensures OriginOk(cfg, q, x) {
      assert OriginOk(cfg, p, x);
      if ParkedFor(q, x) { assert ParkedFor(p, x); }
    }
    forall a ensures IdAt(q, a) == IdAt(p, a) {}
    Relocated(p, q, a => a);
  }

  /** Steps that only move one task between awaits, with nothing counted or carried anew. */
  lemma MoveKeeps(cfg: Config, p: Pool, a: Action)
    requires Inv(cfg, p) && Enabled(cfg, p, a)
    requires a.Spawn? || a.SpawnShutdown? || a.CancelEnter? || a.CancelWait? || a.DialFails?
    ensures Inv(cfg, Apply(cfg, p, a))
  {
    hide OriginOk, OnePlaceEach, IdleCount;
    var q := Apply(cfg, p, a);
    QuietMove(cfg, p, q, a.t);
  }

  lemma HandOverKeeps(cfg: Config, p: Pool, a: Action)
    requires Inv(cfg, p) && Enabled(cfg, p, a)
    requires a.ProbeFresh? || a.CancelDialed? || a.StartRelease? || (a.FinishDial? && !p.closed)
    ensures Inv(cfg, Apply(cfg, p, a))
  {
    hide OriginOk, OnePlaceEach, IdleCount;
    var q := Apply(cfg, p, a);
    QuietMove(cfg, p, q, a.t);
  }

  /** Every step keeps the invariant. */
  lemma StepKeeps(cfg: Config, p: Pool, a: Action)
    requires Inv(cfg, p) && Enabled(cfg, p, a)
    ensures Inv(cfg, Apply(cfg, p, a))
  {
    hide Inv, EnterStep, ResumeStep, StaleStep, GiveUp, ReleaseStep, ShutdownStep, Move;
    match a
    case Enter(t) => EnterKeeps(cfg, p, t);
    case ProbeStale(t) => StaleKeeps(cfg, p, t);
    case ProbeCancelled(t) => ProberHasLock(cfg, p, t); GiveUpKeeps(cfg, p, t, p.tasks[t].conn.origin);
    case Resume(t) => ResumeKeeps(cfg, p, t);
    case DialSucceeds(t) => NewConnectionKeeps(cfg, p, t);
    case FinishDial(t) =>
      if p.closed { GiveUpKeeps(cfg, p, t, p.tasks[t].conn.origin); } else { HandOverKeeps(cfg, p, a); }
    case CleanUp(t) => GiveUpKeeps(cfg, p, t, p.tasks[t].o);
    case Release(t, victim) => ReleaseKeeps(cfg, p, t, victim);
    case Shutdown(t) => ShutdownKeeps(cfg, p, t);
    case Tick(to) => TickKeeps(cfg, p, to);
    case _ =>
      if a.ProbeFresh? || a.CancelDialed? || a.StartRelease? { HandOverKeeps(cfg, p, a); } else { MoveKeeps(cfg, p, a); }
  }
}
