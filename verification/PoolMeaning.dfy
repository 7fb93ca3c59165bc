/** What each operation of the connection pool does to connections, tasks and counts, in
    every state it can be in. */
module PoolMeaning {
  import opened Bytes
  import opened PoolState
  import opened PoolInvariant
  import opened PoolSteps
  import opened PoolTheorems
  import opened PoolProgress

  function Idle(p: Pool, o: Origin): seq<Conn> {
    StateOf(p.origins, o).idle
  }

  function Open(p: Pool, o: Origin): int {
    StateOf(p.origins, o).openCount
  }

  /** `kept` is a stack without its expired connections. */
  ghost predicate Fresh(cfg: Config, p: Pool, stack: seq<Conn>, kept: seq<Conn>) {
    match cfg.idleTimeout
    case None => kept == stack
    case Some(timeout) => ExpiredGone(stack, kept, p.now, timeout)
  }

  // ---- acquiring ----

  /** A task that looks for a connection. */
  predicate Looks(p: Pool, a: Action) {
    && (a.Enter? || a.Resume?) && a.t in p.tasks
    && (a.Enter? ==> p.tasks[a.t].Entering?)
    && (a.Resume? ==> p.tasks[a.t].Woken? && !p.tasks[a.t].cancelled)
  }

  /** What the look at origin `o` leads to, `kept` being the stack without its expired
      connections: the newest of them, else a new one under the cap, else waiting. */
  ghost predicate Chosen(cfg: Config, p: Pool, q: Pool, t: nat, o: Origin, kept: seq<Conn>) {
    && t in q.tasks
    && if p.closed then q.tasks[t].Done? && q.lock.None?
       else if kept != [] then
         && q.tasks[t] == Probing(kept[|kept| - 1]) && q.lock == Some(t)
         && Idle(q, o) == kept[..|kept| - 1] && Open(q, o) == Open(p, o) - (|Idle(p, o)| - |kept|)
       else if Open(p, o) - |Idle(p, o)| < cfg.cap then
         && q.tasks[t] == Dialing(o) && q.lock.None?
         && Idle(q, o) == [] && Open(q, o) == Open(p, o) - |Idle(p, o)| + 1
       else
         && q.tasks[t] == Parked(o) && q.lock.None?
         && Idle(q, o) == [] && Open(q, o) == Open(p, o) - |Idle(p, o)|
  }

  lemma AcquireChooses(cfg: Config, run: seq<Pool>, i: nat, a: Action)
    requires IsRun(cfg, run) && i < |run| && Enabled(cfg, run[i], a) && Looks(run[i], a)
    ensures var p := run[i]; var o := p.tasks[a.t].o;
      exists kept :: Fresh(cfg, p, Idle(p, o), kept) && Chosen(cfg, p, Apply(cfg, p, a), a.t, o, kept)
  {
    EveryState(cfg, run, i);
    var p, t := run[i], a.t;
    var o := p.tasks[t].o;
    assert OriginOk(cfg, p, o);
    hide IsRun, Inv, OriginOk, Fresh;
    var q := if a.Enter? then Register(Move(p, t, Done), o) else LeaveQueue(p, t, o);
    var kept := LookChooses(cfg, p, q, t, o);
    hide TryAcquire;
    assert Chosen(cfg, p, Apply(cfg, p, a), t, o, kept) by { if p.closed { ClosedRefuses(cfg, p, a, kept); } }
  }

  lemma ClosedRefuses(cfg: Config, p: Pool, a: Action, kept: seq<Conn>)
    requires Enabled(cfg, p, a) && Looks(p, a) && p.closed
    ensures Chosen(cfg, p, Apply(cfg, p, a), a.t, p.tasks[a.t].o, kept)
  {
    hide Retire;
  }

  lemma LookChooses(cfg: Config, p: Pool, q: Pool, t: nat, o: Origin) returns (kept: seq<Conn>)
    requires Ordered(Idle(p, o), o, p.now)
    requires o in q.origins && Idle(q, o) == Idle(p, o) && Open(q, o) == Open(p, o)
    requires q.now == p.now && q.closed == p.closed && t in q.tasks
    ensures Fresh(cfg, p, Idle(p, o), kept)
    ensures !p.closed ==> Chosen(cfg, p, TryAcquire(cfg, q, t, o), t, o, kept)
  {
    kept := KeptOf(cfg, p, o);
    PrunedHere(cfg, q, o);
    hide Fresh, Chosen, Ordered, TryAcquire, Unexpired, Prune;
    if !p.closed { CheckoutChooses(cfg, p, q, Prune(cfg, q, o), t, o, kept); }
  }

  lemma KeptOf(cfg: Config, p: Pool, o: Origin) returns (kept: seq<Conn>)
    requires Ordered(Idle(p, o), o, p.now)
    ensures kept == if cfg.idleTimeout.Some? then Unexpired(Idle(p, o), p.now, cfg.idleTimeout.value) else Idle(p, o)
    ensures Fresh(cfg, p, Idle(p, o), kept)
  {
    kept := if cfg.idleTimeout.Some? then Unexpired(Idle(p, o), p.now, cfg.idleTimeout.value) else Idle(p, o);
    if cfg.idleTimeout.Some? { UnexpiredIs(Idle(p, o), o, p.now, cfg.idleTimeout.value); }
  }

  /** What pruning leaves of the origin that is looked at. */
  lemma PrunedHere(cfg: Config, q: Pool, o: Origin)
    requires o in q.origins
    ensures var r, s := Prune(cfg, q, o), q.origins[o];
      var kept := if cfg.idleTimeout.Some? then Unexpired(s.idle, q.now, cfg.idleTimeout.value) else s.idle;
      && r.closed == q.closed
      && StateOf(r.origins, o) == s.(idle := kept, openCount := s.openCount - (|s.idle| - |kept|))
  {
    hide Unexpired, NotifyWhere;
  }

  lemma CheckoutChooses(cfg: Config, p: Pool, q: Pool, r: Pool, t: nat, o: Origin, kept: seq<Conn>)
    requires !p.closed && !q.closed && r == Prune(cfg, q, o)
    requires StateOf(r.origins, o).idle == kept
    requires StateOf(r.origins, o).openCount == Open(p, o) - (|Idle(p, o)| - |kept|)
    ensures Chosen(cfg, p, TryAcquire(cfg, q, t, o), t, o, kept)
  {
    hide Prune;
  }

  /** Looking closes expired connections of the other origins too, and does nothing else there. */
  lemma AcquirePrunesOthers(cfg: Config, run: seq<Pool>, i: nat, a: Action, x: Origin)
    requires IsRun(cfg, run) && i < |run| && Enabled(cfg, run[i], a) && Looks(run[i], a) && !run[i].closed
    requires x != run[i].tasks[a.t].o
    ensures var p := run[i]; var q := Apply(cfg, p, a);
      Fresh(cfg, p, Idle(p, x), Idle(q, x)) && Open(q, x) == Open(p, x) - (|Idle(p, x)| - |Idle(q, x)|)
  {
    EveryState(cfg, run, i);
    var p, t := run[i], a.t;
    var o := p.tasks[t].o;
    assert OriginOk(cfg, p, x);
    hide IsRun, Inv;
    var q := if a.Enter? then Register(Move(p, t, Done), o) else LeaveQueue(p, t, o);
    assert StateOf(q.origins, x) == StateOf(p.origins, x);
    PrunedOther(cfg, p, q, t, o, x);
  }

  lemma PrunedOther(cfg: Config, p: Pool, q: Pool, t: nat, o: Origin, x: Origin)
    requires x != o && StateOf(q.origins, x) == StateOf(p.origins, x) && q.now == p.now && !q.closed
    requires OriginOk(cfg, p, x)
    ensures var r := TryAcquire(cfg, q, t, o);
      Fresh(cfg, p, Idle(p, x), Idle(r, x)) && Open(r, x) == Open(p, x) - (|Idle(p, x)| - |Idle(r, x)|)
  {
    var kept := KeptOf(cfg, p, x);
    CheckoutElsewhere(cfg, q, t, o, x);
    PrunedThere(cfg, p, q, o, x);
    hide *;
  }

  lemma CheckoutElsewhere(cfg: Config, q: Pool, t: nat, o: Origin, x: Origin)
    requires x != o && !q.closed
    ensures StateOf(TryAcquire(cfg, q, t, o).origins, x) == StateOf(Prune(cfg, q, o).origins, x)
  {
    hide Prune;
  }

  /** An origin that pruning forgets had nothing open, so it reads as its pruned state did. */
  lemma PrunedThere(cfg: Config, p: Pool, q: Pool, o: Origin, x: Origin)
    requires StateOf(q.origins, x) == StateOf(p.origins, x) && q.now == p.now && OriginOk(cfg, p, x)
    ensures var r, s := Prune(cfg, q, o), StateOf(p.origins, x);
      var kept := if cfg.idleTimeout.Some? then Unexpired(s.idle, p.now, cfg.idleTimeout.value) else s.idle;
      && StateOf(r.origins, x).idle == kept
      && StateOf(r.origins, x).openCount == s.openCount - (|s.idle| - |kept|)
  {
    assert Open(p, x) >= |Idle(p, x)|;
    hide OriginOk, NotifyWhere;
    if cfg.idleTimeout.Some? { UnexpiredIsShorter(Idle(p, x), p.now, cfg.idleTimeout.value); }
    hide Unexpired;
  }

  /** A stale probe closes its connection and looks on: the newest idle connection, else the
      slot that came free. */
  lemma StaleMeans(cfg: Config, run: seq<Pool>, i: nat, t: nat)
    requires IsRun(cfg, run) && i < |run| && Enabled(cfg, run[i], ProbeStale(t))
    ensures var p := run[i]; var q := Apply(cfg, p, ProbeStale(t)); var o := p.tasks[t].conn.origin;
      var idle := Idle(p, o);
      && t in q.tasks
      && (if idle != [] then
            && q.tasks[t] == Probing(idle[|idle| - 1]) && q.lock == Some(t)
            && Idle(q, o) == idle[..|idle| - 1] && Open(q, o) == Open(p, o) - 1
          else q.tasks[t] == Dialing(o) && q.lock.None? && Idle(q, o) == [] && Open(q, o) == Open(p, o))
      && forall x :: x != o ==> StateOf(q.origins, x) == StateOf(p.origins, x)
  {
    EveryState(cfg, run, i);
    assert OriginOk(cfg, run[i], run[i].tasks[t].conn.origin);
    hide IsRun, Inv, Ordered, Users, Waiters, ParkedFor;
  }

  /** The step gives up task `t`'s connection or reservation at `o`: nothing else changes. */
  ghost predicate GivesUp(p: Pool, q: Pool, t: nat, o: Origin) {
    && t in q.tasks && q.tasks[t].Done? && q.lock.None? && q.closed == p.closed
    && Open(q, o) == Open(p, o) - 1
    && (forall x :: Idle(q, x) == Idle(p, x)) && (forall x :: x != o ==> Open(q, x) == Open(p, x))
  }

  /** Which steps of a task end its use of a connection or a reservation for good. */
  predicate Ends(cfg: Config, p: Pool, a: Action) {
    || a.ProbeCancelled? || a.CleanUp?
    || (a.FinishDial? && p.closed)
    || (a.Release? && a.t in p.tasks && p.tasks[a.t].Releasing? &&
          (!p.tasks[a.t].reusable || p.closed || cfg.maxIdle <= 0))
  }

  lemma EndsGiveUp(cfg: Config, run: seq<Pool>, i: nat, a: Action)
    requires IsRun(cfg, run) && i < |run| && Enabled(cfg, run[i], a) && Ends(cfg, run[i], a)
    ensures var pc := run[i].tasks[a.t];
      GivesUp(run[i], Apply(cfg, run[i], a), a.t, if pc.CleaningUp? then pc.o else pc.conn.origin)
  {
    EveryState(cfg, run, i);
    var p, pc := run[i], run[i].tasks[a.t];
    var o := if pc.CleaningUp? then pc.o else pc.conn.origin;
    assert OriginOk(cfg, p, o);
    UserCounts(cfg, p, a.t, o);
    hide IsRun, Inv, Ordered, Users, Waiters, ParkedFor, OriginOk, Oldest, EnterStep, ResumeStep, StaleStep, Notify;
    assert Apply(cfg, p, a) == GiveUp(p, a.t, o);
    GiveUpMeans(p, a.t, o);
  }

  lemma UserCounts(cfg: Config, p: Pool, t: nat, o: Origin)
    requires OriginOk(cfg, p, o) && t in p.tasks && Uses(p.tasks[t], o)
    ensures Open(p, o) > |Idle(p, o)| && o in p.origins
  {
    assert t in Users(p.tasks, o);
  }

  lemma GiveUpMeans(p: Pool, t: nat, o: Origin)
    requires o in p.origins && Open(p, o) > |Idle(p, o)|
    ensures GivesUp(p, GiveUp(p, t, o), t, o)
  {
  }

  /** A probe that finds its connection fresh, and a dial that ends while the pool is open,
      hand it out, and nothing else changes. */
  lemma HandedOut(cfg: Config, p: Pool, a: Action)
    requires Enabled(cfg, p, a) && (a.ProbeFresh? || (a.FinishDial? && !p.closed))
    ensures Apply(cfg, p, a) ==
      p.(tasks := p.tasks[a.t := Holding(p.tasks[a.t].conn)], lock := if a.ProbeFresh? then None else p.lock)
  {
  }

  // ---- releasing ----

  /** A reusable connection goes on top of its stack, stamped now, after making room by the
      oldest idle connection of the pool if there were as many as allowed. */
  lemma ReleaseShelves(cfg: Config, run: seq<Pool>, i: nat, t: nat, victim: Origin)
    requires IsRun(cfg, run) && i < |run| && Enabled(cfg, run[i], Release(t, victim))
    requires !Ends(cfg, run[i], Release(t, victim))
    ensures var p := run[i]; var q := Apply(cfg, p, Release(t, victim)); var c := p.tasks[t].conn;
      var evicts := IdleCount(p.origins) >= cfg.maxIdle;
      && t in q.tasks && q.tasks[t].Done? && q.closed == p.closed && q.lock == p.lock
      && (evicts ==> Idle(p, victim) != [])
      && (evicts ==>
            forall x, n: nat :: n < |Idle(p, x)| ==> Idle(p, victim)[0].idleSince <= Idle(p, x)[n].idleSince)
      && forall x ::
           var stays := if evicts && x == victim then Idle(p, x)[1..] else Idle(p, x);
           && Idle(q, x) == (if x == c.origin then stays + [c.(idleSince := p.now)] else stays)
           && Open(q, x) == Open(p, x) - (if evicts && x == victim then 1 else 0)
  {
    EveryState(cfg, run, i);
    var p, c := run[i], run[i].tasks[t].conn;
    assert OriginOk(cfg, p, c.origin) && OriginOk(cfg, p, victim);
    UserCounts(cfg, p, t, c.origin);
    if IdleCount(p.origins) >= cfg.maxIdle {
      forall x, n: nat | n < |Idle(p, x)|
        ensures Idle(p, victim)[0].idleSince <= Idle(p, x)[n].idleSince
      {
        EvictsGloballyOldest(cfg, run, i, victim, x, n);
      }
      var q := Evict(p, victim, c.origin);
      EvictMeans(cfg, p, victim, c.origin);
      ShelveMeans(q, t, c);
    } else {
      ShelveMeans(p, t, c);
    }
  }

  lemma EvictMeans(cfg: Config, p: Pool, victim: Origin, retained: Origin)
    requires Oldest(p.origins, victim) && OriginOk(cfg, p, victim)
    ensures var q := Evict(p, victim, retained);
      && q.closed == p.closed && q.now == p.now && q.lock == p.lock
      && forall x ::
           && Idle(q, x) == (if x == victim then Idle(p, x)[1..] else Idle(p, x))
           && Open(q, x) == Open(p, x) - (if x == victim then 1 else 0)
  {
    hide Notify, Users, Waiters, ParkedFor, Ordered;
  }

  lemma ShelveMeans(p: Pool, t: nat, c: Conn)
    ensures var q := Shelve(p, t, c);
      && t in q.tasks && q.tasks[t].Done? && q.closed == p.closed && q.lock == p.lock
      && forall x ::
           && Idle(q, x) == (if x == c.origin then Idle(p, x) + [c.(idleSince := p.now)] else Idle(p, x))
           && Open(q, x) == Open(p, x)
  {
  }

  // ---- holding and cancelling ----

  /** A held connection stays with its holder until the holder starts to release it. */
  lemma HeldUntilReleased(cfg: Config, p: Pool, a: Action, t: nat)
    requires Enabled(cfg, p, a) && t in p.tasks && p.tasks[t].Holding?
    ensures var q := Apply(cfg, p, a);
      && t in q.tasks
      && (q.tasks[t] == p.tasks[t]
          || (q.tasks[t].Releasing? && q.tasks[t].conn == p.tasks[t].conn && a == StartRelease(t, q.tasks[t].reusable)))
  {
    if a.Enter? || a.Resume? { LookTasks(cfg, p, a); }
    if a.Shutdown? { ShutdownFollows(p, a.t); }
    hide Oldest, Retire, EnterStep, ResumeStep, ShutdownStep;
  }

  lemma LookTasks(cfg: Config, p: Pool, a: Action)
    requires Enabled(cfg, p, a) && (a.Enter? || a.Resume?)
    ensures var q := Apply(cfg, p, a);
      && Follows(p.tasks, q.tasks, a.t) && a.t in p.tasks && a.t in q.tasks
      && (q.tasks[a.t].Probing? ==> Looks(p, a)) && !q.tasks[a.t].Releasing? && !p.tasks[a.t].Holding?
  {
    var o := p.tasks[a.t].o;
    var q := if a.Enter? then Register(Move(p, a.t, Done), o) else LeaveQueue(p, a.t, o);
    assert Follows(p.tasks, q.tasks, a.t) && q.tasks[a.t].Done?;
    AcquireTasks(cfg, q, a.t, o);
    FollowsOn(p.tasks, q.tasks, TryAcquire(cfg, q, a.t, o).tasks, a.t);
    hide Retire, TryAcquire, Register, Follows;
  }

  /** A task can be cancelled at each of its awaits: it ends, or it has yet to give back what
      it reserved, dialed or waits for. */
  lemma CancelledAnywhere(cfg: Config, p: Pool, t: nat) returns (a: Action)
    requires t in p.tasks && !p.tasks[t].Done? && !p.tasks[t].Holding? && !p.tasks[t].Releasing?
    requires !p.tasks[t].CleaningUp? && !p.tasks[t].ShuttingDown?
    ensures !a.Tick? && Enabled(cfg, p, a) && a.t == t
    ensures var q := Apply(cfg, p, a);
      && t in q.tasks
      && match p.tasks[t]
         case Entering(_) => q.tasks[t] == Done
         case Probing(_) => q.tasks[t] == Done
         case Parked(o) => q.tasks[t] == Woken(o, true)
         case Woken(o, _) => q.tasks[t] == Woken(o, true)
         case Dialing(o) => q.tasks[t] == CleaningUp(o, None)
         case Dialed(c) => q.tasks[t] == CleaningUp(c.origin, Some(c))
         case _ => true
  {
    match p.tasks[t]
    case Entering(_) => a := CancelEnter(t);
    case Probing(_) => a := ProbeCancelled(t);
    case Parked(_) => a := CancelWait(t);
    case Woken(_, _) => a := CancelWait(t);
    case Dialing(_) => a := DialFails(t);
    case Dialed(_) => a := CancelDialed(t);
  }

  // ---- shutting down ----

  /** Every idle connection is closed, and nobody stays parked. */
  lemma ShutdownMeans(cfg: Config, run: seq<Pool>, i: nat, t: nat)
    requires IsRun(cfg, run) && i < |run| && Enabled(cfg, run[i], Shutdown(t))
    ensures var p := run[i]; var q := Apply(cfg, p, Shutdown(t));
      && q.closed && t in q.tasks && q.tasks[t].Done?
      && (forall x :: Idle(q, x) == [] && Open(q, x) == Open(p, x) - |Idle(p, x)|)
      && forall u :: u in q.tasks ==> !q.tasks[u].Parked?
  {
    EveryState(cfg, run, i);
    var p := run[i];
    hide IsRun;
    var q := Apply(cfg, p, Shutdown(t));
    forall x ensures Idle(q, x) == [] && Open(q, x) == Open(p, x) - |Idle(p, x)| {
      assert OriginOk(cfg, p, x);
      EmptiedMeans(cfg, p, t, x);
    }
    forall u | u in q.tasks ensures !q.tasks[u].Parked? {
      if u != t && p.tasks[u].Parked? { UsersRegistered(cfg, run, i, u, p.tasks[u].o); }
    }
  }

  lemma EmptiedMeans(cfg: Config, p: Pool, t: nat, x: Origin)
    requires OriginOk(cfg, p, x)
    ensures var q := ShutdownStep(p, t); Idle(q, x) == [] && Open(q, x) == Open(p, x) - |Idle(p, x)|
  {
    hide Users, Waiters, ParkedFor, NotifyWhere, Ordered;
  }

  // ---- over every run ----

  /** No connection of the stack is newer than `c`. */
  ghost predicate NoneNewer(stack: seq<Conn>, c: Conn) {
    forall n :: 0 <= n < |stack| ==> stack[n].idleSince <= c.idleSince
  }

  /** The connection a task gets to probe is the newest its origin had, once those past
      expiry are gone: every connection left there is at least as old. */
  lemma NewestFirst(cfg: Config, run: seq<Pool>, i: nat, t: nat)
    requires IsRun(cfg, run) && i + 1 < |run|
    requires t in run[i + 1].tasks && run[i + 1].tasks[t].Probing?
    requires t in run[i].tasks ==> run[i].tasks[t] != run[i + 1].tasks[t]
    ensures var p, q := run[i], run[i + 1]; var c := q.tasks[t].conn;
      && t in p.tasks
      && (if p.tasks[t].Probing? then Idle(p, c.origin) == Idle(q, c.origin) + [c]
          else Fresh(cfg, p, Idle(p, c.origin), Idle(q, c.origin) + [c]))
      && NoneNewer(Idle(q, c.origin), c)
  {
    EveryState(cfg, run, i);
    var p, q := run[i], run[i + 1];
    assert Next(cfg, run[i], run[i + 1]);
    var a: Action :| Enabled(cfg, p, a) && q == Apply(cfg, p, a);
    hide Apply, Enabled, NoneNewer, Fresh, Chosen, IsRun;
    WhoProbes(cfg, p, a, t);
    if a.ProbeStale? {
      StaleMeans(cfg, run, i, t);
      var o := p.tasks[t].conn.origin;
      assert OriginOk(cfg, p, o);
      StackTop(cfg, p, Idle(p, o), Idle(p, o), o);
    } else {
      var o := p.tasks[t].o;
      assert OriginOk(cfg, p, o);
      AcquireChooses(cfg, run, i, a);
      var kept :| Fresh(cfg, p, Idle(p, o), kept) && Chosen(cfg, p, q, t, o, kept);
      ChosenProbe(cfg, p, q, t, o, kept);
      StackTop(cfg, p, Idle(p, o), kept, o);
    }
  }

  lemma ChosenProbe(cfg: Config, p: Pool, q: Pool, t: nat, o: Origin, kept: seq<Conn>)
    requires Chosen(cfg, p, q, t, o, kept) && q.tasks[t].Probing?
    ensures kept != [] && q.tasks[t].conn == kept[|kept| - 1] && Idle(q, o) == kept[..|kept| - 1]
  {
  }

  lemma WhoProbes(cfg: Config, p: Pool, a: Action, t: nat)
    requires Enabled(cfg, p, a)
    requires var q := Apply(cfg, p, a);
      t in q.tasks && q.tasks[t].Probing? && (t in p.tasks ==> p.tasks[t] != q.tasks[t])
    ensures t in p.tasks && (Looks(p, a) || a.ProbeStale?) && a.t == t
  {
    if a.Enter? || a.Resume? { LookTasks(cfg, p, a); }
    hide Oldest, Retire, EnterStep, ResumeStep;
  }

  lemma StackTop(cfg: Config, p: Pool, stack: seq<Conn>, kept: seq<Conn>, o: Origin)
    requires OriginOk(cfg, p, o) && stack == Idle(p, o) && kept != []
    requires kept == stack || Fresh(cfg, p, stack, kept)
    ensures var c := kept[|kept| - 1];
      && c.origin == o && kept == kept[..|kept| - 1] + [c] && NoneNewer(kept[..|kept| - 1], c)
  {
    assert Ordered(stack, o, p.now);
    hide OriginOk;
    KeptIsEnd(cfg, p, stack, kept);
    hide Fresh;
    OrderedTop(stack, kept, o, p.now);
  }

  lemma KeptIsEnd(cfg: Config, p: Pool, stack: seq<Conn>, kept: seq<Conn>)
    requires kept == stack || Fresh(cfg, p, stack, kept)
    ensures |kept| <= |stack| && kept == stack[|stack| - |kept|..]
  {
  }

  lemma OrderedTop(stack: seq<Conn>, kept: seq<Conn>, o: Origin, now: real)
    requires Ordered(stack, o, now) && 0 < |kept| <= |stack| && kept == stack[|stack| - |kept|..]
    ensures var c := kept[|kept| - 1];
      && c.origin == o && kept == kept[..|kept| - 1] + [c] && NoneNewer(kept[..|kept| - 1], c)
  {
    var k, c := |stack| - |kept|, kept[|kept| - 1];
    assert c == stack[|stack| - 1];
    var front := kept[..|kept| - 1];
    forall n | 0 <= n < |front| ensures front[n].idleSince <= c.idleSince {
      assert kept[n] == stack[k + n];
    }
  }
}
