/** Bounded exponential retry of serialization failures (SQLSTATE 40001). */
module BoundedRetry {
  import opened Sequences

  datatype Option<+T> = None | Some(value: T)

  datatype Attempt<+T> = Returned(value: T) | SqlError(sqlstate: Option<string>) | OtherError

  datatype Event = Called(attempt: nat) | BeforeSleep | Slept(seconds: real)

  datatype Outcome<+T> =
    | Value(value: T)
    | Raised(sqlstate: Option<string>)  // an error that is not retried
    | RaisedOther
    | Exhausted(attempts: nat)
    | InvalidConfiguration

  predicate Retryable<T>(a: Attempt<T>) {
    a == SqlError(Some("40001"))
  }

  predicate ValidConfiguration(maxAttempts: int, base: real) {
    1 <= maxAttempts <= 10 && 0.0 <= base <= 1.0
  }

  function Power2(n: nat): (p: nat)
    ensures p >= 1
  {
    if n == 0 then 1 else 2 * Power2(n - 1)
  }

  /** The sleep after attempt `n`: doubling from the base, capped at one second. */
  function Delay(base: real, n: nat): real
    requires n >= 1
  {
    var backoff := base * Power2(n - 1) as real;
    if backoff < 1.0 then backoff else 1.0
  }

  function AsOutcome<T>(a: Attempt<T>, maxAttempts: nat): Outcome<T> {
    match a
    case Returned(v) => Value(v)
    case SqlError(state) => if Retryable(a) then Exhausted(maxAttempts) else Raised(state)
    case OtherError => RaisedOther
  }

  /** The attempt that settles the call: the first from `n` on that is not retried,
      or the last allowed one. */
  function Settling<T>(operation: nat -> Attempt<T>, n: nat, maxAttempts: nat): (k: nat)
    requires n <= maxAttempts
    ensures n <= k <= maxAttempts
    ensures forall i :: n <= i < k ==> Retryable(operation(i))
    ensures k == maxAttempts || !Retryable(operation(k))
    decreases maxAttempts - n
  {
    if n == maxAttempts || !Retryable(operation(n)) then n else Settling(operation, n + 1, maxAttempts)
  }

  /** The events of attempts `n` to `k`: a pause between each two calls. */
  function Pause(hook: bool, base: real, n: nat): seq<Event>
    requires n >= 1
  {
    (if hook then [BeforeSleep] else []) + [Slept(Delay(base, n))]
  }

  function Trace(hook: bool, base: real, n: nat, k: nat): seq<Event>
    requires 1 <= n <= k
    decreases k - n
  {
    if n == k then [Called(k)] else [Called(n)] + (Pause(hook, base, n) + Trace(hook, base, n + 1, k))
  }

  /** The retry loop. The operation is called with 1, 2, ... up to the attempt that
      settles it, and its outcome is that attempt's. */
  method Retry<T>(operation: nat -> Attempt<T>, maxAttempts: int, base: real, hook: bool)
    returns (outcome: Outcome<T>, events: seq<Event>)
    ensures !ValidConfiguration(maxAttempts, base) ==> outcome == InvalidConfiguration && events == []
    ensures ValidConfiguration(maxAttempts, base) ==>
              var k := Settling(operation, 1, maxAttempts);
              outcome == AsOutcome(operation(k), maxAttempts) && events == Trace(hook, base, 1, k)
  {
    events := [];
    if !ValidConfiguration(maxAttempts, base) { return InvalidConfiguration, events; }
    ghost var k := Settling(operation, 1, maxAttempts);
    for n := 1 to maxAttempts + 1
      invariant n <= maxAttempts && n <= k && Settling(operation, n, maxAttempts) == k
      invariant events + Trace(hook, base, n, k) == Trace(hook, base, 1, k)
    {
      var attempt := operation(n);
      TraceUnfolds(events, hook, base, n, k);
      events := events + [Called(n)];
      if !Retryable(attempt) || n == maxAttempts { return AsOutcome(attempt, maxAttempts), events; }
      if hook { events := events + [BeforeSleep]; }
      events := events + [Slept(Delay(base, n))];
    }
  }

  lemma TraceUnfolds(events: seq<Event>, hook: bool, base: real, n: nat, k: nat)
    requires 1 <= n <= k
    ensures events + Trace(hook, base, n, k)
            == if n == k then events + [Called(n)]
               else events + [Called(n)] + (if hook then [BeforeSleep] else []) + [Slept(Delay(base, n))]
                    + Trace(hook, base, n + 1, k)
  {
    if n < k {
      var call, ready, sleep := [Called(n)], if hook then [BeforeSleep] else [], [Slept(Delay(base, n))];
      var rest := Trace(hook, base, n + 1, k);
      Associative(events, call, ready + sleep + rest);
      Associative(events + call, ready + sleep, rest);
      Associative(events + call, ready, sleep);
    }
  }

  /** Exhaustion means that every allowed attempt was a serialization failure. */
  lemma ExhaustedExactly<T>(operation: nat -> Attempt<T>, maxAttempts: nat)
    requires maxAttempts >= 1
    ensures AsOutcome(operation(Settling(operation, 1, maxAttempts)), maxAttempts).Exhausted?
            <==> forall i :: 1 <= i <= maxAttempts ==> Retryable(operation(i))
  {
  }

  /** Each delay is twice the one before it, up to a second, from the base on. */
  lemma DelayDoubles(base: real, n: nat)
    requires 0.0 <= base && n >= 1
    ensures Delay(base, 1) == if base < 1.0 then base else 1.0
    ensures Delay(base, n + 1) == if 2.0 * Delay(base, n) < 1.0 then 2.0 * Delay(base, n) else 1.0
  {
    var p := Power2(n - 1) as real;
    assert Power2(n) as real == 2.0 * p;
    assert base * (2.0 * p) == 2.0 * (base * p);
    assert Power2(0) == 1;
  }

  /** How many events one attempt takes that is not the last. */
  function Stride(hook: bool): nat {
    if hook then 3 else 2
  }

  /** The position of attempt `j`, counted from 0. */
  function Offset(hook: bool, j: nat): nat {
    if j == 0 then 0 else Offset(hook, j - 1) + Stride(hook)
  }

  /** Attempt `j` stands at its position, and behind it, unless it is the last, the hook,
      if there is one, and then the sleep. */
  predicate AttemptAt(trace: seq<Event>, hook: bool, base: real, n: nat, j: nat, last: bool)
    requires n >= 1
  {
    var at, w := Offset(hook, j), Stride(hook);
    && at < |trace| && trace[at] == Called(n + j)
    && (!last ==>
          && at + w < |trace|
          && (hook ==> trace[at + 1] == BeforeSleep) && trace[at + w - 1] == Slept(Delay(base, n + j)))
  }

  /** The events by position: attempt after attempt. */
  lemma {:induction false} TraceIsExact(hook: bool, base: real, n: nat, k: nat, j: nat)
    requires 1 <= n <= k && j <= k - n
    ensures |Trace(hook, base, n, k)| == Offset(hook, k - n) + 1
    ensures AttemptAt(Trace(hook, base, n, k), hook, base, n, j, j == k - n)
    decreases k - n
  {
    if n < k {
      var rest := Trace(hook, base, n + 1, k);
      TraceHead(hook, base, n, k);
      OffsetBelow(hook, k - n);
      TraceIsExact(hook, base, n + 1, k, if j > 0 then j - 1 else 0);
      hide Trace, Pause;
      if j > 0 {
        hide AttemptAt;
        LaterAttempt([Called(n)] + Pause(hook, base, n), rest, hook, base, n, j, j == k - n);
      }
    }
  }

  lemma LaterAttempt(head: seq<Event>, rest: seq<Event>, hook: bool, base: real, n: nat, j: nat, last: bool)
    requires n >= 1 && j > 0 && |head| == Stride(hook)
    requires AttemptAt(rest, hook, base, n + 1, j - 1, last)
    ensures AttemptAt(head + rest, hook, base, n, j, last)
  {
    hide Delay;
    var at := Offset(hook, j - 1);
    OffsetBelow(hook, j);
    assert (head + rest)[|head| + at] == rest[at];
  }

  lemma TraceHead(hook: bool, base: real, n: nat, k: nat)
    requires 1 <= n < k
    ensures var head := [Called(n)] + Pause(hook, base, n);
            && Trace(hook, base, n, k) == head + Trace(hook, base, n + 1, k)
            && |head| == Stride(hook) && head[0] == Called(n)
            && (hook ==> head[1] == BeforeSleep) && head[Stride(hook) - 1] == Slept(Delay(base, n))
  {
    hide Delay;
    Associative([Called(n)], Pause(hook, base, n), Trace(hook, base, n + 1, k));
  }

  lemma OffsetBelow(hook: bool, j: nat)
    requires j > 0
    ensures Offset(hook, j) == Offset(hook, j - 1) + Stride(hook)
  {
  }

  /** The outcome is that of the first attempt that is not retried, if any is allowed. */
  lemma OutcomeIsExact<T>(operation: nat -> Attempt<T>, maxAttempts: nat, n: nat)
    requires 1 <= n <= maxAttempts
    requires !Retryable(operation(n)) && forall i :: 1 <= i < n ==> Retryable(operation(i))
    ensures Settling(operation, 1, maxAttempts) == n
    ensures match operation(n)
            case Returned(v) => AsOutcome(operation(n), maxAttempts) == Value(v)
            case SqlError(state) => AsOutcome(operation(n), maxAttempts) == Raised(state) && state != Some("40001")
            case OtherError => AsOutcome(operation(n), maxAttempts) == RaisedOther
  {
    var k := Settling(operation, 1, maxAttempts);
    assert Retryable(operation(k)) || k >= n;
  }

  /** The uncapped backoff of `k` attempts: the base times 2^(k-1) - 1. */
  function Backoff(base: real, k: nat): real
    requires k >= 1
  {
    base * (Power2(k - 1) - 1) as real
  }

  function TotalSleep(base: real, k: nat): real
    requires k >= 1
  {
    if k == 1 then 0.0 else TotalSleep(base, k - 1) + Delay(base, k - 1)
  }

  function SleepIn(events: seq<Event>): real {
    if events == [] then 0.0
    else SleepIn(events[..|events| - 1]) + if events[|events| - 1].Slept? then events[|events| - 1].seconds else 0.0
  }

  lemma {:induction false} SleepAdds(a: seq<Event>, b: seq<Event>)
    ensures SleepIn(a + b) == SleepIn(a) + SleepIn(b)
    decreases |b|
  {
    if b == [] {
      assert a + b == a;
    } else {
      assert (a + b)[..|a + b| - 1] == a + b[..|b| - 1];
      SleepAdds(a, b[..|b| - 1]);
    }
  }

  /** The sleeps of a trace, added up. */
  lemma {:induction false} TraceSleeps(hook: bool, base: real, n: nat, k: nat)
    requires 1 <= n <= k
    ensures SleepIn(Trace(hook, base, n, k)) == TotalSleep(base, k) - TotalSleep(base, n)
    decreases k - n
  {
    if n < k {
      TraceSleeps(hook, base, n + 1, k);
      var ready, sleep, rest := if hook then [BeforeSleep] else [], [Slept(Delay(base, n))], Trace(hook, base, n + 1, k);
      SleepAdds([Called(n)], ready + sleep + rest);
      SleepAdds(ready + sleep, rest);
      SleepAdds(ready, sleep);
      assert [Called(n)][..0] == [] && sleep[..0] == [] && (hook ==> ready[..0] == []);
    } else {
      assert [Called(k)][..0] == [];
    }
  }

  lemma DelayBounds(base: real, n: nat)
    requires 0.0 <= base && n >= 1
    ensures 0.0 <= Delay(base, n) <= 1.0 && Delay(base, n) <= base * Power2(n - 1) as real
    ensures Delay(base, n) <= Delay(base, n + 1)
  {
    var p := Power2(n - 1) as real;
    assert Power2(n) as real == 2.0 * p;
    assert base * (2.0 * p) == base * p + base * p;
    assert base * p >= 0.0;
  }

  /** The delays never shrink, and `k` attempts sleep at most `k - 1` seconds and at
      most the base times 2^(k-1) - 1. */
  lemma {:induction false} SleepIsBounded(base: real, k: nat)
    requires 0.0 <= base && k >= 1
    ensures 0.0 <= TotalSleep(base, k) <= (k - 1) as real
    ensures TotalSleep(base, k) <= Backoff(base, k)
    ensures forall n :: 1 <= n < k ==> Delay(base, n) <= Delay(base, n + 1)
  {
    forall n | 1 <= n < k ensures Delay(base, n) <= Delay(base, n + 1) {
      DelayBounds(base, n);
    }
    if k > 1 {
      SleepIsBounded(base, k - 1);
      DelayBounds(base, k - 1);
      var p := Power2(k - 2) as real;
      assert (Power2(k - 1) - 1) as real == p - 1.0 + p;
      assert base * (p - 1.0 + p) == base * (p - 1.0) + base * p;
    }
  }

  /** A valid call never sleeps longer than its number of retries, in seconds, nor
      longer than the uncapped backoff. */
  lemma RetrySleepIsBounded<T>(operation: nat -> Attempt<T>, maxAttempts: nat, base: real, hook: bool)
    requires ValidConfiguration(maxAttempts, base)
    ensures var k := Settling(operation, 1, maxAttempts);
            var slept := SleepIn(Trace(hook, base, 1, k));
            slept <= (k - 1) as real && slept <= Backoff(base, k)
  {
    var k := Settling(operation, 1, maxAttempts);
    assert TotalSleep(base, 1) == 0.0;
    hide Trace, Delay, Power2, SleepIn, TotalSleep, Backoff;
    TraceSleeps(hook, base, 1, k);
    SleepIsBounded(base, k);
  }
}
