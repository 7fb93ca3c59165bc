/** Token buckets over a monotone clock, and one bucket per key. */
module Throttle {
  import opened Bytes

  datatype Limits = Limits(rate: real, capacity: real)

  datatype Bucket = Bucket(level: real, last: real)

  datatype Outcome = Granted | Refused(retryAfter: real) | InvalidAmount

  predicate Sane(limits: Limits) {
    limits.rate > 0.0 && limits.capacity > 0.0
  }

  predicate WithinCapacity(limits: Limits, b: Bucket) {
    0.0 <= b.level <= limits.capacity
  }

  predicate ValidAmount(limits: Limits, amount: real) {
    0.0 < amount <= limits.capacity
  }

  /** What flows into a bucket between two times. */
  function Inflow(limits: Limits, from: real, to: real): real {
    (to - from) * limits.rate
  }

  /** The bucket brought up to the time of a call. */
  function Refilled(limits: Limits, b: Bucket, now: real): Bucket {
    if now - b.last <= 0.0 then b
    else
      var level := b.level + Inflow(limits, b.last, now);
      Bucket(if level < limits.capacity then level else limits.capacity, now)
  }

  function Decision(limits: Limits, b: Bucket, now: real, amount: real): Outcome
    requires limits.rate != 0.0
  {
    if !ValidAmount(limits, amount) then InvalidAmount
    else
      var level := Refilled(limits, b, now).level;
      if amount <= level then Granted else Refused((amount - level) / limits.rate)
  }

  function After(limits: Limits, b: Bucket, now: real, amount: real): Bucket {
    if !ValidAmount(limits, amount) then b
    else
      var r := Refilled(limits, b, now);
      if amount <= r.level then r.(level := r.level - amount) else r
  }

  /** The answer at `now`: an amount of zero or less, or above the capacity, is invalid;
      otherwise it is granted if the bucket holds it by then, and taken out, or refused with
      the time until the bucket will hold it. */
  lemma DecisionIs(limits: Limits, b: Bucket, now: real, amount: real)
    requires Sane(limits) && WithinCapacity(limits, b) && b.last <= now
    ensures var filled := b.level + (now - b.last) * limits.rate;
      var level := if filled < limits.capacity then filled else limits.capacity;
      && (amount <= 0.0 || amount > limits.capacity ==>
            Decision(limits, b, now, amount) == InvalidAmount && After(limits, b, now, amount) == b)
      && (0.0 < amount <= limits.capacity && amount <= level ==>
            Decision(limits, b, now, amount) == Granted
            && After(limits, b, now, amount) == Bucket(level - amount, now))
      && (0.0 < amount <= limits.capacity && amount > level ==>
            Decision(limits, b, now, amount) == Refused((amount - level) / limits.rate)
            && After(limits, b, now, amount) == Bucket(level, now))
  {
  }

  class TokenBucket {
    const limits: Limits
    var currentCapacity: real
    var lastTimestamp: real

    function Value(): Bucket
      reads this
    {
      Bucket(currentCapacity, lastTimestamp)
    }

    constructor (rate: real, capacity: real, now: real)
      requires rate > 0.0 && capacity > 0.0
      ensures limits == Limits(rate, capacity) && Value() == Bucket(capacity, now)
    {
      limits, currentCapacity, lastTimestamp := Limits(rate, capacity), capacity, now;
    }

    method Reset(now: real)
      modifies this
      ensures Value() == Bucket(limits.capacity, now)
    {
      currentCapacity, lastTimestamp := limits.capacity, now;
    }

    method Refill(now: real)
      modifies this
      ensures Value() == Refilled(limits, old(Value()), now)
    {
      var elapsed := now - lastTimestamp;
      if elapsed <= 0.0 { return; }
      var filled := currentCapacity + elapsed * limits.rate;
      currentCapacity := if filled < limits.capacity then filled else limits.capacity;
      lastTimestamp := now;
    }

    method TryAcquire(now: real, amount: real) returns (outcome: Outcome)
      requires Sane(limits)
      modifies this
      ensures outcome == Decision(limits, old(Value()), now, amount)
      ensures Value() == After(limits, old(Value()), now, amount)
    {
      if amount <= 0.0 || amount > limits.capacity { return InvalidAmount; }
      Refill(now);
      if amount <= currentCapacity {
        currentCapacity := currentCapacity - amount;
        return Granted;
      }
      outcome := Refused((amount - currentCapacity) / limits.rate);
    }
  }

  // ---- the rate bound ----

  datatype Call = Call(now: real, amount: real)

  /** Call times do not go backwards, from a starting time on. */
  predicate Monotone(calls: seq<Call>, from: real) {
    && (forall i :: 0 <= i < |calls| ==> from <= calls[i].now)
    && (forall i, j :: 0 <= i < j < |calls| ==> calls[i].now <= calls[j].now)
  }

  function AfterAll(limits: Limits, b: Bucket, calls: seq<Call>): Bucket
    decreases |calls|
  {
    if calls == [] then b
    else AfterAll(limits, After(limits, b, calls[0].now, calls[0].amount), calls[1..])
  }

  /** The amount a bucket grants over a sequence of calls. */
  function GrantedTotal(limits: Limits, b: Bucket, calls: seq<Call>): real
    requires limits.rate != 0.0
    decreases |calls|
  {
    if calls == [] then 0.0
    else
      (if Decision(limits, b, calls[0].now, calls[0].amount).Granted? then calls[0].amount else 0.0)
      + GrantedTotal(limits, After(limits, b, calls[0].now, calls[0].amount), calls[1..])
  }

  lemma InflowAdds(limits: Limits, a: real, b: real, c: real)
    requires Sane(limits) && a <= b <= c
    ensures Inflow(limits, a, b) + Inflow(limits, b, c) == Inflow(limits, a, c)
    ensures Inflow(limits, a, b) >= 0.0 && Inflow(limits, b, c) >= 0.0
  {
  }

  lemma RefillAdds(limits: Limits, b: Bucket, now: real)
    requires Sane(limits) && WithinCapacity(limits, b) && b.last <= now
    ensures var r := Refilled(limits, b, now);
      && WithinCapacity(limits, r) && r.last == now
      && b.level <= r.level <= b.level + Inflow(limits, b.last, now)
  {
    InflowAdds(limits, b.last, now, now);
  }

  lemma RestOf(calls: seq<Call>, from: real)
    requires Monotone(calls, from) && calls != []
    ensures Monotone(calls[1..], calls[0].now) && Monotone(calls[1..], from)
    ensures forall i :: 0 <= i < |calls| - 1 ==> calls[1..][i] == calls[i + 1]
  {
  }

  /** A bucket grants no more than it holds plus what flows in until the end. */
  lemma {:induction false} GrantsAreFilled(limits: Limits, b: Bucket, calls: seq<Call>, end: real)
    requires Sane(limits) && WithinCapacity(limits, b) && Monotone(calls, b.last)
    requires b.last <= end && forall i :: 0 <= i < |calls| ==> calls[i].now <= end
    ensures GrantedTotal(limits, b, calls) <= b.level + Inflow(limits, b.last, end)
    decreases |calls|
  {
    InflowAdds(limits, b.last, end, end);
    if calls != [] {
      var now := calls[0].now;
      InflowAdds(limits, b.last, now, end);
      RefillAdds(limits, b, now);
      RestOf(calls, b.last);
      hide Inflow;
      GrantsAreFilled(limits, After(limits, b, now, calls[0].amount), calls[1..], end);
    }
  }

  lemma {:induction false} StaysWithin(limits: Limits, b: Bucket, calls: seq<Call>)
    requires Sane(limits) && WithinCapacity(limits, b) && Monotone(calls, b.last)
    ensures var r := AfterAll(limits, b, calls);
      && WithinCapacity(limits, r)
      && (r.last == b.last || exists i :: 0 <= i < |calls| && r.last == calls[i].now)
    decreases |calls|
  {
    if calls != [] {
      RefillAdds(limits, b, calls[0].now);
      RestOf(calls, b.last);
      StaysWithin(limits, After(limits, b, calls[0].now, calls[0].amount), calls[1..]);
    }
  }

  /** A full window's worth: from any state, the calls between two times get at most the
      capacity and what flows in between those times. */
  lemma {:induction false} WindowBound(limits: Limits, b: Bucket, calls: seq<Call>, s: real, t: real)
    requires Sane(limits) && WithinCapacity(limits, b) && Monotone(calls, b.last)
    requires s <= t && forall i :: 0 <= i < |calls| ==> s <= calls[i].now <= t
    ensures GrantedTotal(limits, b, calls) <= limits.capacity + Inflow(limits, s, t)
    decreases |calls|
  {
    InflowAdds(limits, s, t, t);
    if calls != [] {
      var now := calls[0].now;
      InflowAdds(limits, s, now, t);
      RefillAdds(limits, b, now);
      RestOf(calls, b.last);
      hide Inflow;
      var next := After(limits, b, now, calls[0].amount);
      if ValidAmount(limits, calls[0].amount) {
        GrantsAreFilled(limits, next, calls[1..], t);
      } else {
        WindowBound(limits, b, calls[1..], s, t);
      }
    }
  }

  lemma Halves(before: seq<Call>, window: seq<Call>, from: real)
    requires Monotone(before + window, from)
    ensures Monotone(before, from) && Monotone(window, from)
    ensures forall i, j :: 0 <= i < |before| && 0 <= j < |window| ==> before[i].now <= window[j].now
  {
    var all := before + window;
    assert forall i :: 0 <= i < |before| ==> before[i] == all[i];
    assert forall i :: 0 <= i < |window| ==> window[i] == all[|before| + i];
  }

  /** In every window of every run a bucket grants at most its capacity plus the rate times the window. */
  lemma RateBound(limits: Limits, b: Bucket, before: seq<Call>, window: seq<Call>, s: real, t: real)
    requires Sane(limits) && WithinCapacity(limits, b) && Monotone(before + window, b.last)
    requires s <= t && forall i :: 0 <= i < |window| ==> s <= window[i].now <= t
    ensures GrantedTotal(limits, AfterAll(limits, b, before), window) <= limits.capacity + Inflow(limits, s, t)
  {
    hide AfterAll, GrantedTotal, Inflow;
    Halves(before, window, b.last);
    StaysWithin(limits, b, before);
    WindowBound(limits, AfterAll(limits, b, before), window, s, t);
  }

  // ---- retry after ----

  /** Refilling in two steps is refilling once. */
  lemma RefillTwice(limits: Limits, b: Bucket, mid: real, now: real)
    requires Sane(limits) && WithinCapacity(limits, b) && b.last <= mid <= now
    ensures Refilled(limits, Refilled(limits, b, mid), now) == Refilled(limits, b, now)
  {
    InflowAdds(limits, b.last, mid, now);
    hide Inflow;
  }

  /** Calls that are refused, or invalid, leave the bucket as time alone would. */
  lemma {:induction false} RefusalsOnlyWait(limits: Limits, b: Bucket, calls: seq<Call>, now: real)
    requires Sane(limits) && WithinCapacity(limits, b) && Monotone(calls, b.last)
    requires b.last <= now && forall i :: 0 <= i < |calls| ==> calls[i].now <= now
    requires GrantedTotal(limits, b, calls) == 0.0
    ensures Refilled(limits, AfterAll(limits, b, calls), now) == Refilled(limits, b, now)
    decreases |calls|
  {
    if calls != [] {
      var call := calls[0];
      RestOf(calls, b.last);
      RefillAdds(limits, b, call.now);
      var next := After(limits, b, call.now, call.amount);
      GrantsAreNonNegative(limits, next, calls[1..]);
      RefillTwice(limits, b, call.now, now);
      RefusalsOnlyWait(limits, next, calls[1..], now);
    }
  }

  lemma {:induction false} GrantsAreNonNegative(limits: Limits, b: Bucket, calls: seq<Call>)
    requires Sane(limits)
    ensures GrantedTotal(limits, b, calls) >= 0.0
    decreases |calls|
  {
    if calls != [] {
      GrantsAreNonNegative(limits, After(limits, b, calls[0].now, calls[0].amount), calls[1..]);
    }
  }

  /** After a refusal, with nothing granted meanwhile, a retry for the same amount succeeds
      exactly when `retryAfter` has passed. */
  lemma RetryAfterIsExact(limits: Limits, b: Bucket, at: real, amount: real, meanwhile: seq<Call>, now: real)
    requires Sane(limits) && WithinCapacity(limits, b) && b.last <= at <= now
    requires Decision(limits, b, at, amount).Refused?
    requires var r := After(limits, b, at, amount);
      Monotone(meanwhile, at) && GrantedTotal(limits, r, meanwhile) == 0.0
    requires forall i :: 0 <= i < |meanwhile| ==> meanwhile[i].now <= now
    ensures
      var r := AfterAll(limits, After(limits, b, at, amount), meanwhile);
      Decision(limits, r, now, amount).Granted? <==> now - at >= Decision(limits, b, at, amount).retryAfter
  {
    RefillAdds(limits, b, at);
    var r := After(limits, b, at, amount);
    hide AfterAll, GrantedTotal, Inflow;
    RefusalsOnlyWait(limits, r, meanwhile, now);
    GrantedOnceFilled(limits, r, at, now, amount);
  }

  /** A bucket short of an amount has it exactly when the wait covers what is missing. */
  lemma GrantedOnceFilled(limits: Limits, r: Bucket, at: real, now: real, amount: real)
    requires Sane(limits) && WithinCapacity(limits, r) && r.last == at <= now
    requires ValidAmount(limits, amount) && r.level < amount
    ensures amount <= Refilled(limits, r, now).level <==> now - at >= (amount - r.level) / limits.rate
  {
    WaitCovers(limits.rate, amount - r.level, now - at);
    assert now == at ==> (amount - r.level) > (now - at) * limits.rate;
  }

  lemma WaitCovers(rate: real, missing: real, waited: real)
    requires rate > 0.0
    ensures waited >= missing / rate <==> waited * rate >= missing
  {
    var need := missing / rate;
    assert need * rate == missing;
    if waited >= need { assert (waited - need) * rate >= 0.0; }
    if waited < need { assert (need - waited) * rate > 0.0; }
  }

  // ---- one bucket per key ----

  datatype Ask<K> = Ask(now: real, key: K)

  function BucketFor<K>(limits: Limits, buckets: map<K, Bucket>, ask: Ask<K>): Bucket {
    if ask.key in buckets then buckets[ask.key] else Bucket(limits.capacity, ask.now)
  }

  function Answer<K>(limits: Limits, buckets: map<K, Bucket>, ask: Ask<K>): Outcome
    requires limits.rate != 0.0
  {
    Decision(limits, BucketFor(limits, buckets, ask), ask.now, 1.0)
  }

  function Asked<K>(limits: Limits, buckets: map<K, Bucket>, ask: Ask<K>): map<K, Bucket> {
    buckets[ask.key := After(limits, BucketFor(limits, buckets, ask), ask.now, 1.0)]
  }

  class TokenBucketThrottler<K(==)> {
    const limits: Limits
    var buckets: map<K, Bucket>

    /** Without a burst the bucket holds a second's worth, and one token at least. */
    constructor (rate: real, burst: Option<real>)
      requires rate > 0.0 && (burst.Some? ==> burst.value >= 1.0)
      ensures buckets == map[] && Sane(limits) && limits.rate == rate
      ensures ValidAmount(limits, 1.0)
    {
      limits := Limits(rate, if burst.Some? then burst.value else if rate < 1.0 then 1.0 else rate);
      buckets := map[];
    }

    method Reset()
      modifies this
      ensures buckets == map[]
    {
      buckets := map[];
    }

    method Check(now: real, key: K) returns (outcome: Outcome)
      requires Sane(limits)
      modifies this
      ensures outcome == Answer(limits, old(buckets), Ask(now, key))
      ensures buckets == Asked(limits, old(buckets), Ask(now, key))
    {
      var start := if key in buckets then buckets[key] else Bucket(limits.capacity, now);
      var bucket := new TokenBucket(limits.rate, limits.capacity, start.last);
      bucket.currentCapacity := start.level;
      outcome := bucket.TryAcquire(now, 1.0);
      buckets := buckets[key := bucket.Value()];
    }
  }

  /** The decisions a throttler makes over a run. */
  function Answers<K>(limits: Limits, buckets: map<K, Bucket>, run: seq<Ask<K>>): seq<Outcome>
    requires limits.rate != 0.0
    decreases |run|
  {
    if run == [] then []
    else [Answer(limits, buckets, run[0])] + Answers(limits, Asked(limits, buckets, run[0]), run[1..])
  }

  function Only<K(==)>(run: seq<Ask<K>>, key: K): seq<Ask<K>> {
    if run == [] then []
    else (if run[0].key == key then [run[0]] else []) + Only(run[1..], key)
  }

  /** The decisions made for one key's requests, in order. */
  function AnswersFor<K(==)>(run: seq<Ask<K>>, outcomes: seq<Outcome>, key: K): seq<Outcome>
    requires |run| == |outcomes|
  {
    if run == [] then []
    else (if run[0].key == key then [outcomes[0]] else []) + AnswersFor(run[1..], outcomes[1..], key)
  }

  lemma {:induction false} AnswersLength<K>(limits: Limits, buckets: map<K, Bucket>, run: seq<Ask<K>>)
    requires limits.rate != 0.0
    ensures |Answers(limits, buckets, run)| == |run|
    decreases |run|
  {
    if run != [] { AnswersLength(limits, Asked(limits, buckets, run[0]), run[1..]); }
  }

  /** A key is throttled in an interleaved run just as in a run of its own requests. */
  lemma {:induction false} KeysAreIndependent<K>(limits: Limits, buckets: map<K, Bucket>, alone: map<K, Bucket>,
                                                 run: seq<Ask<K>>, key: K)
    requires limits.rate != 0.0
    requires key in buckets <==> key in alone
    requires key in buckets ==> buckets[key] == alone[key]
    ensures |Answers(limits, buckets, run)| == |run|
    ensures AnswersFor(run, Answers(limits, buckets, run), key) == Answers(limits, alone, Only(run, key))
    decreases |run|
  {
    AnswersLength(limits, buckets, run);
    if run != [] {
      var ask, rest := run[0], run[1..];
      var outcomes := Answers(limits, buckets, run);
      assert outcomes[1..] == Answers(limits, Asked(limits, buckets, ask), rest);
      hide Answer, After, Decision;
      if ask.key == key {
        KeysAreIndependent(limits, Asked(limits, buckets, ask), Asked(limits, alone, ask), rest, key);
        assert Only(run, key)[1..] == Only(rest, key);
        assert Answer(limits, buckets, ask) == Answer(limits, alone, ask) by { SameAnswer(limits, buckets, alone, ask); }
      } else {
        KeysAreIndependent(limits, Asked(limits, buckets, ask), alone, rest, key);
        assert Only(run, key) == Only(rest, key);
      }
    }
  }

  lemma SameAnswer<K>(limits: Limits, buckets: map<K, Bucket>, alone: map<K, Bucket>, ask: Ask<K>)
    requires limits.rate != 0.0
    requires BucketFor(limits, buckets, ask) == BucketFor(limits, alone, ask)
    ensures Answer(limits, buckets, ask) == Answer(limits, alone, ask)
  {
  }
}
