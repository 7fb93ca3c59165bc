/** The connection pool's state and its atomic segments: what runs between two awaits. */
module PoolState {
  import opened Bytes

  datatype Origin = Origin(scheme: string, host: string, port: int)

  datatype Conn = Conn(id: nat, origin: Origin, idleSince: real)

  /** Per-origin bookkeeping; `idle` is a stack, oldest first. */
  datatype OriginState = OriginState(idle: seq<Conn>, openCount: int, waiterCount: int)

  /** Where a task stands: each constructor is an await, or the end. */
  datatype Pc =
    | Entering(o: Origin)
    | Probing(conn: Conn)
    | Parked(o: Origin)
    | Woken(o: Origin, cancelled: bool)
    | Dialing(o: Origin)
    | Dialed(conn: Conn)
    | CleaningUp(o: Origin, made: Option<Conn>)
    | Holding(conn: Conn)
    | Releasing(conn: Conn, reusable: bool)
    | ShuttingDown
    | Done

  datatype Config = Config(cap: nat, maxIdle: int, idleTimeout: Option<real>)

  datatype Pool = Pool(
    origins: map<Origin, OriginState>,
    closed: bool,
    now: real,
    tasks: map<nat, Pc>,
    lock: Option<nat>,
    nextId: nat)

  function StateOf(origins: map<Origin, OriginState>, o: Origin): OriginState {
    if o in origins then origins[o] else OriginState([], 0, 0)
  }

  /** Whether a task occupies one of the origin's slots: it probes, dials or holds. */
  predicate Uses(pc: Pc, o: Origin) {
    match pc
    case Probing(c) => c.origin == o
    case Dialing(d) => d == o
    case Dialed(c) => c.origin == o
    case CleaningUp(d, _) => d == o
    case Holding(c) => c.origin == o
    case Releasing(c, _) => c.origin == o
    case _ => false
  }

  predicate Waits(pc: Pc, o: Origin) {
    pc == Parked(o) || (pc.Woken? && pc.o == o)
  }

  // ---- the pool's helpers ----

  /** `condition.notify_all()` on the origin's condition. */
  function Notify(tasks: map<nat, Pc>, o: Origin): map<nat, Pc> {
    map t | t in tasks :: if tasks[t] == Parked(o) then Woken(o, false) else tasks[t]
  }

  function NotifyWhere(tasks: map<nat, Pc>, which: set<Origin>): map<nat, Pc> {
    map t | t in tasks :: if tasks[t].Parked? && tasks[t].o in which then Woken(tasks[t].o, false) else tasks[t]
  }

  /** Forget an origin without open connections, reservations and waiters. */
  function Retire(origins: map<Origin, OriginState>, o: Origin): map<Origin, OriginState> {
    if o in origins && origins[o].openCount == 0 && origins[o].waiterCount == 0 then origins - {o} else origins
  }

  /** The close transition of a connection outside the idle stack. */
  function Close(p: Pool, o: Origin): Pool {
    var s := StateOf(p.origins, o);
    p.(origins := p.origins[o := s.(openCount := s.openCount - 1)], tasks := Notify(p.tasks, o))
  }

  /** The close transition of the origin's oldest idle connection. */
  function CloseOldest(p: Pool, o: Origin): Pool
    requires StateOf(p.origins, o).idle != []
  {
    var s := StateOf(p.origins, o);
    p.(origins := p.origins[o := s.(idle := s.idle[1..], openCount := s.openCount - 1)], tasks := Notify(p.tasks, o))
  }

  /** The idle connections left once the expired ones at the oldest end are closed. */
  function Unexpired(idle: seq<Conn>, now: real, timeout: real): seq<Conn> {
    if idle != [] && now - idle[0].idleSince > timeout then Unexpired(idle[1..], now, timeout) else idle
  }

  /** Exactly the connections past expiry are gone; they were the oldest, and the others
      stay in order. */
  ghost predicate ExpiredGone(before: seq<Conn>, after: seq<Conn>, now: real, timeout: real) {
    && |after| <= |before| && after == before[|before| - |after|..]
    && forall i :: 0 <= i < |before| ==> (now - before[i].idleSince > timeout <==> i < |before| - |after|)
  }

  function PrunedState(s: OriginState, now: real, timeout: real): OriginState {
    var idle := Unexpired(s.idle, now, timeout);
    OriginState(idle, s.openCount - (|s.idle| - |idle|), s.waiterCount)
  }

  predicate InUse(s: OriginState) {
    s.openCount != 0 || s.waiterCount != 0
  }

  function Prune(cfg: Config, p: Pool, retained: Origin): Pool {
    match cfg.idleTimeout
    case None => p
    case Some(timeout) =>
      p.(origins := map o | o in p.origins && (o == retained || InUse(PrunedState(p.origins[o], p.now, timeout)))
           :: PrunedState(p.origins[o], p.now, timeout),
         tasks := NotifyWhere(p.tasks,
           set o | o in p.origins && |PrunedState(p.origins[o], p.now, timeout).idle| < |p.origins[o].idle|))
  }

  ghost function AnyOrigin(origins: map<Origin, OriginState>): (o: Origin)
    requires origins != map[]
    ensures o in origins
  {
    var o :| o in origins; o
  }

  /** Total idle connections, the sum over the origins. */
  ghost function IdleCount(origins: map<Origin, OriginState>): nat
    decreases |origins|
  {
    if origins == map[] then 0
    else |origins[AnyOrigin(origins)].idle| + IdleCount(origins - {AnyOrigin(origins)})
  }

  /** No origin's bottom of the stack is older than `victim`'s. */
  predicate Oldest(origins: map<Origin, OriginState>, victim: Origin) {
    && victim in origins && origins[victim].idle != []
    && forall o :: o in origins && origins[o].idle != [] ==>
         origins[victim].idle[0].idleSince <= origins[o].idle[0].idleSince
  }

  // ---- the atomic segments ----

  function Move(p: Pool, t: nat, pc: Pc): Pool {
    p.(tasks := p.tasks[t := pc])
  }

  /** From the top of the stack, else from a free slot, else from the queue; only a task
      that probes keeps the lock. */
  function Checkout(cfg: Config, p: Pool, t: nat, o: Origin): Pool {
    var s := StateOf(p.origins, o);
    if s.idle != [] then
      Move(p, t, Probing(s.idle[|s.idle| - 1])).(
        origins := p.origins[o := s.(idle := s.idle[..|s.idle| - 1])], lock := Some(t))
    else if s.openCount < cfg.cap then
      Move(p, t, Dialing(o)).(origins := p.origins[o := s.(openCount := s.openCount + 1)], lock := None)
    else
      Move(p, t, Parked(o)).(origins := p.origins[o := s.(waiterCount := s.waiterCount + 1)], lock := None)
  }

  /** The top of the acquire loop, with the origin registered. */
  function TryAcquire(cfg: Config, p: Pool, t: nat, o: Origin): Pool {
    if p.closed then Move(p, t, Done).(origins := Retire(p.origins, o), lock := None)
    else Checkout(cfg, Prune(cfg, p, o), t, o)
  }

  function Register(p: Pool, o: Origin): Pool {
    p.(origins := p.origins[o := StateOf(p.origins, o)])
  }

  function EnterStep(cfg: Config, p: Pool, t: nat): Pool
    requires t in p.tasks && p.tasks[t].Entering?
  {
    var o := p.tasks[t].o;
    if p.closed then Move(p, t, Done) else TryAcquire(cfg, Register(Move(p, t, Done), o), t, o)
  }

  /** A woken task stops waiting. */
  function LeaveQueue(p: Pool, t: nat, o: Origin): Pool {
    var s := StateOf(p.origins, o);
    Move(p, t, Done).(origins := p.origins[o := s.(waiterCount := s.waiterCount - 1)])
  }

  function ResumeStep(cfg: Config, p: Pool, t: nat): Pool
    requires t in p.tasks && p.tasks[t].Woken?
  {
    var o := p.tasks[t].o;
    var q := LeaveQueue(p, t, o);
    if p.tasks[t].cancelled then q.(origins := Retire(q.origins, o)) else TryAcquire(cfg, q, t, o)
  }

  function StaleStep(cfg: Config, p: Pool, t: nat): Pool
    requires t in p.tasks && p.tasks[t].Probing?
  {
    var o := p.tasks[t].conn.origin;
    Checkout(cfg, Close(Move(p, t, Done), o), t, o)
  }

  /** Close a connection, or give up a reservation, and end the task. */
  function GiveUp(p: Pool, t: nat, o: Origin): Pool {
    var q := Close(Move(p, t, Done), o);
    q.(origins := Retire(q.origins, o), lock := None)
  }

  /** Put a released connection on top of its origin's idle stack. */
  function Shelve(p: Pool, t: nat, c: Conn): Pool {
    var s := StateOf(p.origins, c.origin);
    p.(origins := p.origins[c.origin := s.(idle := s.idle + [c.(idleSince := p.now)])],
       tasks := Notify(p.tasks[t := Done], c.origin))
  }

  ghost function ReleaseStep(cfg: Config, p: Pool, t: nat, victim: Origin): Pool
    requires t in p.tasks && p.tasks[t].Releasing?
    requires Oldest(p.origins, victim)
             || !p.tasks[t].reusable || p.closed || cfg.maxIdle <= 0 || IdleCount(p.origins) < cfg.maxIdle
  {
    var c, o := p.tasks[t].conn, p.tasks[t].conn.origin;
    if !p.tasks[t].reusable || p.closed || cfg.maxIdle <= 0 then GiveUp(p, t, o)
    else
      var q := if IdleCount(p.origins) >= cfg.maxIdle then Evict(p, victim, o) else p;
      Shelve(q, t, c)
  }

  function Evict(p: Pool, victim: Origin, retained: Origin): Pool
    requires Oldest(p.origins, victim)
  {
    var q := CloseOldest(p, victim);
    if victim != retained then q.(origins := Retire(q.origins, victim)) else q
  }

  function ShutdownStep(p: Pool, t: nat): Pool {
    p.(closed := true,
       origins := map o | o in p.origins && InUse(Emptied(p.origins[o])) :: Emptied(p.origins[o]),
       tasks := NotifyWhere(p.tasks[t := Done], p.origins.Keys))
  }

  function Emptied(s: OriginState): OriginState {
    OriginState([], s.openCount - |s.idle|, s.waiterCount)
  }

  // ---- the transition system ----

  datatype Action =
    | Spawn(t: nat, o: Origin)
    | SpawnShutdown(t: nat)
    | Enter(t: nat)
    | CancelEnter(t: nat)
    | ProbeStale(t: nat)
    | ProbeFresh(t: nat)
    | ProbeCancelled(t: nat)
    | CancelWait(t: nat)
    | Resume(t: nat)
    | DialSucceeds(t: nat)
    | DialFails(t: nat)
    | FinishDial(t: nat)
    | CancelDialed(t: nat)
    | CleanUp(t: nat)
    | StartRelease(t: nat, reusable: bool)
    | Release(t: nat, victim: Origin)
    | Shutdown(t: nat)
    | Tick(to: real)

  /** Steps that take the pool lock find it free; the others run without it. */
  ghost predicate Enabled(cfg: Config, p: Pool, a: Action) {
    match a
    case Spawn(t, _) => t !in p.tasks
    case SpawnShutdown(t) => t !in p.tasks
    case Tick(to) => to >= p.now
    case _ =>
      a.t in p.tasks &&
      var pc := p.tasks[a.t];
      match a
      case Enter(_) => pc.Entering? && p.lock.None?
      case CancelEnter(_) => pc.Entering?
      case ProbeStale(_) => pc.Probing?
      case ProbeFresh(_) => pc.Probing?
      case ProbeCancelled(_) => pc.Probing?
      case CancelWait(_) => pc.Parked? || pc.Woken?
      case Resume(_) => pc.Woken? && p.lock.None?
      case DialSucceeds(_) => pc.Dialing?
      case DialFails(_) => pc.Dialing?
      case FinishDial(_) => pc.Dialed? && p.lock.None?
      case CancelDialed(_) => pc.Dialed?
      case CleanUp(_) => pc.CleaningUp? && p.lock.None?
      case StartRelease(_, _) => pc.Holding?
      case Release(_, victim) =>
        && pc.Releasing? && p.lock.None?
        && (Oldest(p.origins, victim)
            || !pc.reusable || p.closed || cfg.maxIdle <= 0 || IdleCount(p.origins) < cfg.maxIdle)
      case Shutdown(_) => pc.ShuttingDown? && p.lock.None?
      case _ => true
  }

  ghost function Apply(cfg: Config, p: Pool, a: Action): Pool
    requires Enabled(cfg, p, a)
  {
    match a
    case Spawn(t, o) => Move(p, t, Entering(o))
    case SpawnShutdown(t) => Move(p, t, ShuttingDown)
    case Enter(t) => EnterStep(cfg, p, t)
    case CancelEnter(t) => Move(p, t, Done)
    case ProbeStale(t) => StaleStep(cfg, p, t)
    case ProbeFresh(t) => Move(p, t, Holding(p.tasks[t].conn)).(lock := None)
    case ProbeCancelled(t) => GiveUp(p, t, p.tasks[t].conn.origin)
    case CancelWait(t) => Move(p, t, Woken(p.tasks[t].o, true))
    case Resume(t) => ResumeStep(cfg, p, t)
    case DialSucceeds(t) =>
      Move(p, t, Dialed(Conn(p.nextId, p.tasks[t].o, 0.0))).(nextId := p.nextId + 1)
    case DialFails(t) => Move(p, t, CleaningUp(p.tasks[t].o, None))
    case FinishDial(t) =>
      if p.closed then GiveUp(p, t, p.tasks[t].conn.origin) else Move(p, t, Holding(p.tasks[t].conn))
    case CancelDialed(t) => Move(p, t, CleaningUp(p.tasks[t].conn.origin, Some(p.tasks[t].conn)))
    case CleanUp(t) => GiveUp(p, t, p.tasks[t].o)
    case StartRelease(t, reusable) => Move(p, t, Releasing(p.tasks[t].conn, reusable))
    case Release(t, victim) => ReleaseStep(cfg, p, t, victim)
    case Shutdown(t) => ShutdownStep(p, t)
    case Tick(to) => p.(now := to)
  }

  ghost predicate Init(p: Pool) {
    p.origins == map[] && !p.closed && p.tasks == map[] && p.lock.None? && p.nextId == 0
  }

  ghost predicate Next(cfg: Config, p: Pool, q: Pool) {
    exists a: Action :: Enabled(cfg, p, a) && q == Apply(cfg, p, a)
  }

  /** A run: every interleaving of every number of tasks. */
  ghost predicate IsRun(cfg: Config, run: seq<Pool>) {
    run != [] && Init(run[0]) && forall i :: 0 <= i < |run| - 1 ==> Next(cfg, run[i], run[i + 1])
  }
}
