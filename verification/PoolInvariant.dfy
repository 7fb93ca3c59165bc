/** The invariant every reachable state of the connection pool satisfies. */
module PoolInvariant {
  import opened Bytes
  import opened PoolState

  ghost function Users(tasks: map<nat, Pc>, o: Origin): set<nat> {
    set t | t in tasks && Uses(tasks[t], o)
  }

  ghost function Waiters(tasks: map<nat, Pc>, o: Origin): set<nat> {
    set t | t in tasks && Waits(tasks[t], o)
  }

  /** An idle stack holds its own origin's connections, oldest first. */
  ghost predicate Ordered(idle: seq<Conn>, o: Origin, now: real) {
    && (forall i :: 0 <= i < |idle| ==> idle[i].origin == o && idle[i].idleSince <= now)
    && (forall i, j :: 0 <= i < j < |idle| ==> idle[i].idleSince <= idle[j].idleSince)
  }

  ghost predicate ParkedFor(p: Pool, o: Origin) {
    exists t :: t in p.tasks && p.tasks[t] == Parked(o)
  }

  /** One origin's share: the counts are the tasks, the cap holds, the stack is in
      age order, a closed pool keeps nothing idle, and a task is parked only while
      the origin is full and has nothing idle. */
  ghost predicate OriginOk(cfg: Config, p: Pool, o: Origin) {
    var s := StateOf(p.origins, o);
    && s.openCount == |s.idle| + |Users(p.tasks, o)|
    && s.waiterCount == |Waiters(p.tasks, o)|
    && s.openCount <= cfg.cap
    && Ordered(s.idle, o, p.now)
    && (p.closed ==> s.idle == [])
    && (ParkedFor(p, o) ==> !p.closed && s.idle == [] && s.openCount == cfg.cap)
  }

  /** Every registered origin, `but` possibly one, is in use. */
  ghost predicate Registered(p: Pool, but: Option<Origin>) {
    forall o :: o in p.origins && but != Some(o) ==> InUse(p.origins[o])
  }

  /** Only the task holding the pool lock probes, and it does so while the pool is open. */
  ghost predicate LockOk(p: Pool) {
    && (forall t :: t in p.tasks && p.tasks[t].Probing? ==> p.lock == Some(t))
    && (p.lock.Some? ==> p.lock.value in p.tasks && p.tasks[p.lock.value].Probing? && !p.closed)
  }

  function Carried(pc: Pc): Option<Conn> {
    match pc
    case Probing(c) => Some(c)
    case Dialed(c) => Some(c)
    case CleaningUp(_, made) => made
    case Holding(c) => Some(c)
    case Releasing(c, _) => Some(c)
    case _ => None
  }

  /** Where a connection can be: a position in an origin's stack, or with a task. */
  datatype Place = Stack(o: Origin, i: nat) | With(t: nat)

  function IdAt(p: Pool, a: Place): Option<nat> {
    match a
    case Stack(o, i) => if i < |StateOf(p.origins, o).idle| then Some(StateOf(p.origins, o).idle[i].id) else None
    case With(t) =>
      if t in p.tasks && Carried(p.tasks[t]).Some? then Some(Carried(p.tasks[t]).value.id) else None
  }

  /** No connection is in two places, and every identity was handed out. */
  ghost predicate OnePlaceEach(p: Pool) {
    && (forall a, b :: a != b && IdAt(p, a).Some? && IdAt(p, b).Some? ==> IdAt(p, a) != IdAt(p, b))
    && (forall a :: IdAt(p, a).Some? ==> IdAt(p, a).value < p.nextId)
  }

  ghost predicate Core(cfg: Config, p: Pool) {
    && (forall o :: OriginOk(cfg, p, o))
    && IdleCount(p.origins) <= Max(cfg.maxIdle, 0)
    && OnePlaceEach(p)
  }

  ghost predicate Inv(cfg: Config, p: Pool) {
    Core(cfg, p) && Registered(p, None) && LockOk(p)
  }

  // ---- counting ----

  /** `after` is `before` with task `t` moved and some parked tasks woken. */
  ghost predicate Follows(before: map<nat, Pc>, after: map<nat, Pc>, t: nat) {
    && (forall u :: u in before ==> u in after)
    && (forall u :: u in after && u != t ==> u in before)
    && (forall u :: u in before && u != t ==>
          after[u] == before[u] || (before[u].Parked? && after[u] == Woken(before[u].o, false)))
  }

  ghost predicate UsesAt(tasks: map<nat, Pc>, t: nat, o: Origin) {
    t in tasks && Uses(tasks[t], o)
  }

  ghost predicate WaitsAt(tasks: map<nat, Pc>, t: nat, o: Origin) {
    t in tasks && Waits(tasks[t], o)
  }

  function Bit(b: bool): nat { if b then 1 else 0 }

  lemma CountsMove(before: map<nat, Pc>, after: map<nat, Pc>, t: nat, o: Origin)
    requires Follows(before, after, t)
    ensures |Users(after, o)| == |Users(before, o)| - Bit(UsesAt(before, t, o)) + Bit(UsesAt(after, t, o))
    ensures |Waiters(after, o)| == |Waiters(before, o)| - Bit(WaitsAt(before, t, o)) + Bit(WaitsAt(after, t, o))
  {
    OthersCount(before, after, t, o);
    WithOrWithout(Users(before, o), t);
    WithOrWithout(Users(after, o), t);
    WithOrWithout(Waiters(before, o), t);
    WithOrWithout(Waiters(after, o), t);
  }

  /** Waking a task changes neither whether it occupies a slot nor whether it waits. */
  lemma OthersCount(before: map<nat, Pc>, after: map<nat, Pc>, t: nat, o: Origin)
    requires Follows(before, after, t)
    ensures Users(after, o) - {t} == Users(before, o) - {t}
    ensures Waiters(after, o) - {t} == Waiters(before, o) - {t}
  {
    forall u | u != t
      ensures UsesAt(after, u, o) == UsesAt(before, u, o) && WaitsAt(after, u, o) == WaitsAt(before, u, o)
    {
      if u in before { assert u in after; }
    }
    hide Uses, Waits, Follows;
    forall u ensures u in Users(after, o) - {t} <==> u in Users(before, o) - {t} {
      if u != t { assert UsesAt(after, u, o) == UsesAt(before, u, o); }
    }
    forall u ensures u in Waiters(after, o) - {t} <==> u in Waiters(before, o) - {t} {
      if u != t { assert WaitsAt(after, u, o) == WaitsAt(before, u, o); }
    }
  }

  lemma WithOrWithout(s: set<nat>, t: nat)
    ensures |s| == |s - {t}| + Bit(t in s)
  {
    if t in s { assert s == (s - {t}) + {t}; } else { assert s == s - {t}; }
  }

  lemma {:induction false} IdleCountAt(m: map<Origin, OriginState>, o: Origin)
    ensures IdleCount(m) == IdleCount(m - {o}) + |StateOf(m, o).idle|
    decreases |m|
  {
    if o !in m {
      assert m - {o} == m;
    } else if AnyOrigin(m) != o {
      var x := AnyOrigin(m);
      IdleCountAt(m - {x}, o);
      IdleCountAt(m - {o}, x);
      assert m - {x} - {o} == m - {o} - {x};
    }
  }

  lemma IdleCountSet(m: map<Origin, OriginState>, o: Origin, s: OriginState)
    ensures IdleCount(m[o := s]) == IdleCount(m) - |StateOf(m, o).idle| + |s.idle|
  {
    IdleCountAt(m, o);
    IdleCountAt(m[o := s], o);
    assert m[o := s] - {o} == m - {o};
  }

  lemma {:induction false} IdleCountShrinks(m: map<Origin, OriginState>, n: map<Origin, OriginState>)
    requires forall o :: |StateOf(n, o).idle| <= |StateOf(m, o).idle|
    ensures IdleCount(n) <= IdleCount(m)
    decreases |n|
  {
    if n != map[] {
      var x := AnyOrigin(n);
      forall o ensures |StateOf(n - {x}, o).idle| <= |StateOf(m - {x}, o).idle| {
        assert |StateOf(n, o).idle| <= |StateOf(m, o).idle|;
      }
      IdleCountShrinks(m - {x}, n - {x});
      IdleCountAt(m, x);
    }
  }

  // ---- one step, origin by origin ----

  /** The other origins are untouched by a step of task `t` about origin `o`. */
  ghost predicate OnlyAt(p: Pool, q: Pool, t: nat, o: Origin) {
    && Follows(p.tasks, q.tasks, t)
    && (forall x :: x != o ==> StateOf(q.origins, x) == StateOf(p.origins, x))
    && (forall x :: x != o ==> UsesAt(q.tasks, t, x) == UsesAt(p.tasks, t, x))
    && (forall x :: x != o ==> WaitsAt(q.tasks, t, x) == WaitsAt(p.tasks, t, x))
    && (t in q.tasks && q.tasks[t].Parked? ==> q.tasks[t] == Parked(o))
    && q.closed == p.closed && q.now == p.now
  }

  lemma OthersStay(cfg: Config, p: Pool, q: Pool, t: nat, o: Origin)
    requires forall x :: OriginOk(cfg, p, x)
    requires OnlyAt(p, q, t, o) && OriginOk(cfg, q, o)
    ensures forall x :: OriginOk(cfg, q, x)
  {
    forall x | x != o ensures OriginOk(cfg, q, x) {
      assert OriginOk(cfg, p, x);
      CountsMove(p.tasks, q.tasks, t, x);
      assert UsesAt(q.tasks, t, x) == UsesAt(p.tasks, t, x) && WaitsAt(q.tasks, t, x) == WaitsAt(p.tasks, t, x);
      if ParkedFor(q, x) {
        var u :| u in q.tasks && q.tasks[u] == Parked(x);
        assert u != t && p.tasks[u] == Parked(x);
      }
    }
  }

  /** Places move one to one: nothing is duplicated. */
  lemma Relocated(p: Pool, q: Pool, from: Place -> Place)
    requires OnePlaceEach(p) && q.nextId >= p.nextId
    requires forall a :: IdAt(q, a).Some? ==> IdAt(q, a) == IdAt(p, from(a))
    requires forall a, b :: a != b && IdAt(q, a).Some? && IdAt(q, b).Some? ==> from(a) != from(b)
    ensures OnePlaceEach(q)
  {
  }
}
