/** What holds in every state the connection pool can reach, with any number of
    tasks, in any interleaving, each cancelled at any await. */
module PoolTheorems {
  import opened Bytes
  import opened PoolState
  import opened PoolInvariant
  import opened PoolSteps

  lemma {:induction false} EveryState(cfg: Config, run: seq<Pool>, i: nat)
    requires IsRun(cfg, run) && i < |run|
    ensures Inv(cfg, run[i])
  {
    if i == 0 {
      Initially(cfg, run[0]);
    } else {
      EveryState(cfg, run, i - 1);
      assert Next(cfg, run[i - 1], run[(i - 1) + 1]);
      var a: Action :| Enabled(cfg, run[i - 1], a) && run[i] == Apply(cfg, run[i - 1], a);
      StepKeeps(cfg, run[i - 1], a);
    }
  }

  lemma Initially(cfg: Config, p: Pool)
    requires Init(p)
    ensures Inv(cfg, p)
  {
    forall o ensures OriginOk(cfg, p, o) {
      assert Users(p.tasks, o) == {} && Waiters(p.tasks, o) == {};
    }
  }

  // ---- accounting ----

  ghost function Held(tasks: map<nat, Pc>, o: Origin): set<nat> {
    set t | t in tasks && (tasks[t].Holding? || tasks[t].Releasing? || tasks[t].Dialed?) && tasks[t].conn.origin == o
  }

  ghost function Dials(tasks: map<nat, Pc>, o: Origin): set<nat> {
    set t | t in tasks && (tasks[t].Dialing? || tasks[t].CleaningUp?) && tasks[t].o == o
  }

  ghost function Probed(tasks: map<nat, Pc>, o: Origin): set<nat> {
    set t | t in tasks && tasks[t].Probing? && tasks[t].conn.origin == o
  }

  /** Each open slot is an idle, held, dialing or probed connection, and the cap holds. */
  lemma Accounting(cfg: Config, run: seq<Pool>, i: nat, o: Origin)
    requires IsRun(cfg, run) && i < |run|
    ensures var p := run[i]; var s := StateOf(p.origins, o);
      && s.openCount == |s.idle| + |Held(p.tasks, o)| + |Dials(p.tasks, o)| + |Probed(p.tasks, o)| <= cfg.cap
      && |Probed(p.tasks, o)| <= 1
  {
    EveryState(cfg, run, i);
    assert OriginOk(cfg, run[i], o);
    hide IsRun, OnePlaceEach;
    SlotsAre(run[i].tasks, o);
    OneProbe(run[i], o);
  }

  lemma SlotsAre(tasks: map<nat, Pc>, o: Origin)
    ensures |Users(tasks, o)| == |Held(tasks, o)| + |Dials(tasks, o)| + |Probed(tasks, o)|
  {
    assert Users(tasks, o) == Held(tasks, o) + Dials(tasks, o) + Probed(tasks, o);
  }

  lemma OneProbe(p: Pool, o: Origin)
    requires LockOk(p)
    ensures |Probed(p.tasks, o)| <= 1
  {
    if p.lock.Some? {
      assert Probed(p.tasks, o) <= {p.lock.value};
      SubsetSize(Probed(p.tasks, o), {p.lock.value});
    } else {
      assert Probed(p.tasks, o) == {};
    }
  }

  lemma {:induction false} SubsetSize(s: set<nat>, t: set<nat>)
    requires s <= t
    ensures |s| <= |t|
  {
    assert t == s + (t - s);
  }

  /** No connection is in two places at once. */
  lemma OneOwner(cfg: Config, run: seq<Pool>, i: nat, a: Place, b: Place)
    requires IsRun(cfg, run) && i < |run|
    requires IdAt(run[i], a).Some? && IdAt(run[i], a) == IdAt(run[i], b)
    ensures a == b
  {
    EveryState(cfg, run, i);
  }

  lemma IdleBounded(cfg: Config, run: seq<Pool>, i: nat)
    requires IsRun(cfg, run) && i < |run|
    ensures IdleCount(run[i].origins) <= Max(cfg.maxIdle, 0)
  {
    EveryState(cfg, run, i);
  }

  // ---- wake-ups ----

  /** A task is parked, unwoken, only while the pool is open and its origin is full
      with nothing idle. */
  lemma NoLostWakeup(cfg: Config, run: seq<Pool>, i: nat, t: nat)
    requires IsRun(cfg, run) && i < |run|
    requires t in run[i].tasks && run[i].tasks[t].Parked?
    ensures var s := StateOf(run[i].origins, run[i].tasks[t].o);
      !run[i].closed && s.idle == [] && s.openCount == cfg.cap
  {
    EveryState(cfg, run, i);
    assert OriginOk(cfg, run[i], run[i].tasks[t].o);
  }

  /** A step that frees a slot, adds an idle connection or closes the pool leaves
      nobody parked on that origin. */
  lemma FreeingWakes(cfg: Config, run: seq<Pool>, i: nat, o: Origin)
    requires IsRun(cfg, run) && i + 1 < |run|
    requires
      || StateOf(run[i + 1].origins, o).openCount < StateOf(run[i].origins, o).openCount
      || |StateOf(run[i + 1].origins, o).idle| > |StateOf(run[i].origins, o).idle|
      || run[i + 1].closed
    ensures !ParkedFor(run[i + 1], o)
  {
    EveryState(cfg, run, i);
    EveryState(cfg, run, i + 1);
    assert OriginOk(cfg, run[i], o) && OriginOk(cfg, run[i + 1], o);
  }

  // ---- the origin map ----

  /** An origin some task uses or waits for is registered, so no lookup of it fails. */
  lemma UsersRegistered(cfg: Config, run: seq<Pool>, i: nat, t: nat, o: Origin)
    requires IsRun(cfg, run) && i < |run|
    requires t in run[i].tasks && (Uses(run[i].tasks[t], o) || Waits(run[i].tasks[t], o))
    ensures o in run[i].origins
  {
    EveryState(cfg, run, i);
    var p := run[i];
    assert OriginOk(cfg, p, o);
    assert t in Users(p.tasks, o) || t in Waiters(p.tasks, o);
  }

  /** A registered origin has an open connection, a reservation or a waiter. */
  lemma RegisteredInUse(cfg: Config, run: seq<Pool>, i: nat, o: Origin)
    requires IsRun(cfg, run) && i < |run| && o in run[i].origins
    ensures run[i].origins[o].idle != []
            || exists t :: t in run[i].tasks && (Uses(run[i].tasks[t], o) || Waits(run[i].tasks[t], o))
  {
    EveryState(cfg, run, i);
    var p := run[i];
    assert OriginOk(cfg, p, o);
    if p.origins[o].idle == [] {
      var all := Users(p.tasks, o) + Waiters(p.tasks, o);
      assert all != {};
      var t :| t in all;
    }
  }

  // ---- shutdown ----

  lemma ClosedStays(cfg: Config, p: Pool, a: Action)
    requires LockOk(p) && Enabled(cfg, p, a) && p.closed
    ensures Apply(cfg, p, a).closed
    ensures NoNewHolder(p, Apply(cfg, p, a))
  {
    hide Oldest;
  }

  ghost predicate NoNewHolder(p: Pool, q: Pool) {
    forall t :: t in q.tasks && q.tasks[t].Holding? ==> t in p.tasks && p.tasks[t].Holding?
  }

  lemma ClosedStep(cfg: Config, p: Pool, q: Pool)
    requires Inv(cfg, p) && Next(cfg, p, q) && p.closed
    ensures q.closed && NoNewHolder(p, q)
  {
    hide Core, Registered, LockOk, Enabled, Apply, NoNewHolder;
    var a: Action :| Enabled(cfg, p, a) && q == Apply(cfg, p, a);
    ClosedStays(cfg, p, a);
  }

  lemma NothingIdle(cfg: Config, p: Pool)
    requires Inv(cfg, p) && p.closed
    ensures IdleCount(p.origins) == 0
    ensures forall o :: StateOf(p.origins, o).idle == []
  {
    forall o ensures StateOf(p.origins, o).idle == [] { assert OriginOk(cfg, p, o); }
    IdleCountShrinks(map[], p.origins);
  }

  /** Once closed: closed for good, nothing idle ever again, and no acquire succeeds. */
  lemma {:induction false} ClosedForGood(cfg: Config, run: seq<Pool>, i: nat, j: nat)
    requires IsRun(cfg, run) && i <= j < |run| && run[i].closed
    ensures run[j].closed && IdleCount(run[j].origins) == 0
    ensures forall o :: StateOf(run[j].origins, o).idle == []
    ensures NoNewHolder(run[i], run[j])
    decreases j - i
  {
    hide Inv, Init, Next;
    EveryState(cfg, run, j);
    if i < j {
      ClosedForGood(cfg, run, i, j - 1);
      EveryState(cfg, run, j - 1);
      assert Next(cfg, run[j - 1], run[(j - 1) + 1]);
      ClosedStep(cfg, run[j - 1], run[j]);
    }
    NothingIdle(cfg, run[j]);
  }

  /** A closed pool forgets every origin once its last holder, dialer and waiter left. */
  lemma ClosedEmpties(cfg: Config, run: seq<Pool>, i: nat)
    requires IsRun(cfg, run) && i < |run| && run[i].closed
    requires forall t, o :: t in run[i].tasks ==> !Uses(run[i].tasks[t], o) && !Waits(run[i].tasks[t], o)
    ensures run[i].origins == map[]
  {
    ClosedForGood(cfg, run, i, i);
    var m := run[i].origins;
    assert forall o :: o in m ==> m[o].idle == StateOf(m, o).idle;
    forall o ensures o !in m {
      if o in m { RegisteredInUse(cfg, run, i, o); }
    }
  }

  // ---- ageing ----

  /** Pruning keeps exactly the connections not past expiry, in their order. */
  lemma PruneIsExact(cfg: Config, run: seq<Pool>, i: nat, retained: Origin, o: Origin, timeout: real)
    requires IsRun(cfg, run) && i < |run| && cfg.idleTimeout == Some(timeout)
    ensures
      var before := StateOf(run[i].origins, o).idle;
      var after := StateOf(Prune(cfg, run[i], retained).origins, o).idle;
      ExpiredGone(before, after, run[i].now, timeout)
  {
    EveryState(cfg, run, i);
    assert OriginOk(cfg, run[i], o);
    hide *;
    PruneIsExactAt(cfg, run[i], retained, o, timeout);
  }

  lemma PruneIsExactAt(cfg: Config, p: Pool, retained: Origin, o: Origin, timeout: real)
    requires OriginOk(cfg, p, o) && cfg.idleTimeout == Some(timeout)
    ensures
      var before := StateOf(p.origins, o).idle;
      var after := StateOf(Prune(cfg, p, retained).origins, o).idle;
      ExpiredGone(before, after, p.now, timeout)
  {
    PruneStateAt(cfg, p, retained, timeout, o);
    hide Prune, ParkedFor, Users, Waiters, ExpiredGone;
    UnexpiredIs(StateOf(p.origins, o).idle, o, p.now, timeout);
  }

  /** Eviction closes a connection no other idle connection is older than. */
  lemma EvictsGloballyOldest(cfg: Config, run: seq<Pool>, i: nat, victim: Origin, o: Origin, n: nat)
    requires IsRun(cfg, run) && i < |run| && Oldest(run[i].origins, victim)
    requires n < |StateOf(run[i].origins, o).idle|
    ensures run[i].origins[victim].idle[0].idleSince <= StateOf(run[i].origins, o).idle[n].idleSince
  {
    EveryState(cfg, run, i);
    assert OriginOk(cfg, run[i], o);
  }

  /** A pool with anything idle has a connection to evict: a release is never stuck. */
  lemma {:induction false} OldestExists(origins: map<Origin, OriginState>) returns (victim: Origin)
    requires IdleCount(origins) > 0
    ensures Oldest(origins, victim)
    decreases |origins|
  {
    var x := AnyOrigin(origins);
    var rest := origins - {x};
    if IdleCount(rest) == 0 {
      forall o | o in rest ensures rest[o].idle == [] { IdleCountAt(rest, o); }
      victim := x;
      forall o | o in origins && o != x ensures origins[o].idle == [] { assert o in rest && rest[o] == origins[o]; }
    } else {
      victim := OldestExists(rest);
      if origins[x].idle != [] && origins[x].idle[0].idleSince < rest[victim].idle[0].idleSince {
        victim := x;
      }
      forall o | o in origins && origins[o].idle != []
        ensures origins[victim].idle[0].idleSince <= origins[o].idle[0].idleSince
      {
        if o != x { assert o in rest && rest[o] == origins[o]; }
      }
    }
  }

  lemma ReleaseNeverStuck(cfg: Config, p: Pool, t: nat)
    requires t in p.tasks && p.tasks[t].Releasing? && p.lock.None?
    ensures exists victim :: Enabled(cfg, p, Release(t, victim))
  {
    var victim := p.tasks[t].conn.origin;
    if cfg.maxIdle > 0 && IdleCount(p.origins) >= cfg.maxIdle { victim := OldestExists(p.origins); }
    assert Enabled(cfg, p, Release(t, victim));
  }
}
