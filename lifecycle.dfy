/** The keepalive handle of sidekick.go as a state machine over values.

    A `Handle` holds every field of the Go `Sidekick` that matters to its
    behaviour, plus three ghost views of its surroundings: the etcd store, the
    trace of store calls the handle has issued, and the log lines it has
    written. Each public method of the Go type, and each of the two things the
    background goroutine can observe (the timer firing, the quit channel being
    closed), is one function from handle to handle. The class in sidekick.dfy
    is proved to follow these functions step by step. */
module Lifecycle {

  import opened Options
  import opened Etcd

  /** Default time-to-live, in seconds, of every write. */
  const DefaultTTL: U64 := 10

  /** Default refresh interval, in seconds. */
  const DefaultUpdateInterval: U64 := 8

  const NanosPerSecond := 1_000_000_000
  const MinInt64 := -0x8000_0000_0000_0000
  const MaxInt64 := 0x7fff_ffff_ffff_ffff

  /** The largest interval, in seconds, whose duration in nanoseconds fits an int64. */
  const MaxIntervalSeconds := 9_223_372_036

  datatype Error =
    | IntervalTooSmall   // ErrIntervalTooSmall
    | StoreFailure       // whatever error the etcd client returned

  /** What the handle writes to its logger, when it has one. */
  datatype LogEntry = UpdateFailed(key: string) | DeleteFailed(key: string) | Stopped

  datatype Handle = Handle(
    key: string,
    value: string,
    ttl: U64,
    updateInterval: U64,
    closed: bool,
    hasLogger: bool,
    quitSignalled: bool,      // quitCh has been closed
    timer: Option<int>,       // pending delay in nanoseconds; None once the loop has exited
    loopsStarted: nat,        // how many refresh goroutines this handle ever started
    store: Store,
    trace: seq<Call>,
    log: seq<LogEntry>)

  /** Reinterprets an integer as Go's int64, wrapping modulo 2^64. */
  function Int64(x: int): (r: int)
    ensures MinInt64 <= r <= MaxInt64
    ensures MinInt64 <= x <= MaxInt64 ==> r == x
    ensures (r - x) % TwoTo64 == 0
  {
    (x - MinInt64) % TwoTo64 + MinInt64
  }

  /** `time.Duration(seconds) * time.Second`: the uint64 is converted to int64
      and multiplied in int64 arithmetic, so both steps wrap. A timer armed with
      a delay of zero or less fires at once. */
  function Delay(seconds: U64): (d: int)
    ensures MinInt64 <= d <= MaxInt64
    ensures seconds <= MaxIntervalSeconds ==> d == seconds * NanosPerSecond
    ensures (d - seconds * NanosPerSecond) % TwoTo64 == 0
  {
    var a := Int64(seconds);
    ScaledWrap(a, seconds, NanosPerSecond);
    var d := Int64(a * NanosPerSecond);
    WrapTransitive(d, a * NanosPerSecond, seconds * NanosPerSecond);
    d
  }

  /** Multiplying both sides keeps a congruence modulo 2^64. */
  lemma ScaledWrap(x: int, y: int, n: int)
    requires (x - y) % TwoTo64 == 0
    ensures (x * n - y * n) % TwoTo64 == 0
  {
    var q := (x - y) / TwoTo64;
    assert x - y == TwoTo64 * q;
    assert x * n - y * n == TwoTo64 * (q * n) by {
      assert x * n - y * n == (x - y) * n;
    }
  }

  /** Congruence modulo 2^64 is transitive. */
  lemma WrapTransitive(x: int, y: int, z: int)
    requires (x - y) % TwoTo64 == 0 && (y - z) % TwoTo64 == 0
    ensures (x - z) % TwoTo64 == 0
  {
    var p := (x - y) / TwoTo64;
    var q := (y - z) / TwoTo64;
    assert x - z == TwoTo64 * (p + q);
  }

  // ---------------------------------------------------------------------------
  // The operations

  /** `New(servers, key, value)`: a zeroed handle gets its key and the two
      defaults, then the store is written with the handle's own `value` field,
      which nothing has assigned: the `value` argument is never stored. Only if
      that write succeeds does the refresh loop start, arming its timer with
      the current interval. */
  function Create(key: string, value: string, store0: Store, setOk: bool): (h: Handle)
    ensures h.key == key && !h.closed && |h.trace| == 1 && h.trace[0].op.Set?
    ensures h.timer.Some? <==> setOk
    ensures h.loopsStarted == (if setOk then 1 else 0)
    ensures setOk ==> Inv(h)
  {
    var call := Call(Set(key, "", DefaultTTL), setOk);
    Handle(key, "", DefaultTTL, DefaultUpdateInterval, false, false, false,
           if setOk then Some(Delay(DefaultUpdateInterval)) else None,
           if setOk then 1 else 0,
           Apply(store0, call), [call], [])
  }

  /** `SetLogger(logger)`; `present` says whether the logger is non-nil. */
  function SetLogger(h: Handle, present: bool): (r: Handle)
    ensures r.key == h.key && r.trace == h.trace && r.store == h.store
    ensures Inv(h) ==> Inv(r)
  {
    if h.closed then h else h.(hasLogger := present)
  }

  /** `TTL(ttl)`: no validation at all; the error result is always nil. */
  function SetTTL(h: Handle, ttl: U64): (r: (Handle, Option<Error>))
    ensures r.1 == None
    ensures r.0.key == h.key && r.0.trace == h.trace && r.0.store == h.store
    ensures Inv(h) ==> Inv(r.0)
  {
    if h.closed then (h, None) else (h.(ttl := ttl), None)
  }

  /** `UpdateInterval(interval)`: the closed check comes before validation. */
  function SetUpdateInterval(h: Handle, interval: U64): (r: (Handle, Option<Error>))
    ensures r.1.Some? ==> r.0 == h
    ensures r.0.key == h.key && r.0.trace == h.trace && r.0.store == h.store
    ensures Inv(h) ==> Inv(r.0)
  {
    if h.closed then (h, None)
    else if interval < 1 then (h, Some(IntervalTooSmall))
    else (h.(updateInterval := interval), None)
  }

  /** `Value(value)`: stores the value and resets the timer to zero. On an
      open handle without a timer, Go's `sk.timer.Reset(0)` dereferences nil;
      `Enabled` does not let such a call complete. */
  function SetValue(h: Handle, v: string): (r: Handle)
    ensures r.key == h.key && r.trace == h.trace && r.store == h.store
    ensures !h.closed ==> r.timer == Some(0)
    ensures Inv(h) ==> Inv(r)
  {
    if h.closed then h else h.(value := v, timer := Some(0))
  }

  /** `Stop()`: marks the handle closed, closes the quit channel and issues
      one delete; a failed delete and the stop itself are logged when a
      logger is set. */
  function Stop(h: Handle, deleteOk: bool): (r: Handle)
    ensures r.closed && r.key == h.key
    ensures |h.trace| <= |r.trace| <= |h.trace| + 1 && r.trace[..|h.trace|] == h.trace
    ensures Inv(h) ==> Inv(r)
  {
    if h.closed then h
    else
      var call := Call(Delete(h.key), deleteOk);
      DeletesSnoc(h.trace, call);
      h.(closed := true, quitSignalled := true,
         store := Apply(h.store, call), trace := h.trace + [call],
         log := h.log + (if !deleteOk && h.hasLogger then [DeleteFailed(h.key)] else [])
                      + (if h.hasLogger then [Stopped] else []))
  }

  /** The loop's timer case: re-arm with the current interval, then write the
      current value with the current ttl. A failure is logged, never fatal. */
  function Tick(h: Handle, setOk: bool): (r: Handle)
    requires h.timer.Some?
    ensures r.key == h.key && r.timer.Some? && r.closed == h.closed
    ensures |r.trace| == |h.trace| + 1 && r.trace[..|h.trace|] == h.trace
    ensures Inv(h) ==> Inv(r)
  {
    var call := Call(Set(h.key, h.value, h.ttl), setOk);
    DeletesSnoc(h.trace, call);
    h.(timer := Some(Delay(h.updateInterval)),
       store := Apply(h.store, call), trace := h.trace + [call],
       log := h.log + (if !setOk && h.hasLogger then [UpdateFailed(h.key)] else []))
  }

  /** The loop's quit case: stop and drop the timer, and leave the loop. */
  function Quit(h: Handle): (r: Handle)
    requires h.quitSignalled && h.timer.Some?
    ensures r.timer == None && r.trace == h.trace && r.store == h.store
    ensures Inv(h) ==> Inv(r)
  {
    h.(timer := None)
  }

  // ---------------------------------------------------------------------------
  // Runs of events

  /** Everything that can happen to a live handle: a call of one of its public
      methods, or one of the two cases of the loop's select. Store outcomes
      are part of the event. */
  datatype Event =
    | SetLoggerCalled(present: bool)
    | TTLCalled(ttl: U64)
    | UpdateIntervalCalled(interval: U64)
    | ValueCalled(v: string)
    | StopCalled(deleteOk: bool)
    | TimerFired(setOk: bool)
    | QuitObserved

  /** The timer can fire only while the loop holds one; the quit case can be
      taken only once the channel is closed and while the loop still runs.
      `Value` on an open handle resets the timer, so it completes only when
      there is one. */
  predicate Enabled(h: Handle, e: Event): (r: bool)
    ensures r && (e.TimerFired? || e.QuitObserved?) ==> h.timer.Some?
    ensures r && e.QuitObserved? ==> h.quitSignalled
    ensures Inv(h) && !e.TimerFired? && !e.QuitObserved? ==> r
  {
    match e
    case ValueCalled(_) => h.closed || h.timer.Some?
    case TimerFired(_) => h.timer.Some?
    case QuitObserved => h.quitSignalled && h.timer.Some?
    case _ => true
  }

  function Step(h: Handle, e: Event): Handle
    requires Enabled(h, e)
  {
    match e
    case SetLoggerCalled(p) => SetLogger(h, p)
    case TTLCalled(t) => SetTTL(h, t).0
    case UpdateIntervalCalled(i) => SetUpdateInterval(h, i).0
    case ValueCalled(v) => SetValue(h, v)
    case StopCalled(ok) => Stop(h, ok)
    case TimerFired(ok) => Tick(h, ok)
    case QuitObserved => Quit(h)
  }

  /** The handle after a run of events, or None if some event could not happen. */
  function Run(h: Handle, es: seq<Event>): Option<Handle>
    decreases |es|
  {
    if es == [] then Some(h)
    else if Enabled(h, es[0]) then Run(Step(h, es[0]), es[1..])
    else None
  }

  /** What holds of every handle `New` returns, at every point of its life. */
  ghost predicate Inv(h: Handle)
  {
    && h.updateInterval >= 1
    && h.loopsStarted == 1
    && h.quitSignalled == h.closed
    && (h.timer.None? ==> h.closed)
    && Deletes(h.trace) == (if h.closed then 1 else 0)
    && (forall i :: 0 <= i < |h.trace| ==> h.trace[i].op.key == h.key)
  }

  // ---------------------------------------------------------------------------
  // Construction

  /** A successful `New`: ttl 10, interval 8, one loop started, and exactly
      one call issued, a set of the key to the empty string. */
  lemma CreateSucceeds(key: string, value: string, store0: Store)
    ensures var h := Create(key, value, store0, true);
      && Inv(h)
      && h.key == key && h.value == "" && h.ttl == 10 && h.updateInterval == 8
      && !h.closed && !h.hasLogger
      && h.timer == Some(8 * NanosPerSecond)
      && h.trace == [Call(Set(key, "", 10), true)]
      && h.store == store0[key := ("", 10)]
  {
    assert Deletes([Call(Set(key, "", 10), true)]) == 0;
  }

  /** A failed `New`: the one set was issued and failed, the store is as it
      was, and no loop was started, so neither loop event can ever happen. */
  lemma CreateFailureStartsNoLoop(key: string, value: string, store0: Store)
    ensures var h := Create(key, value, store0, false);
      && h.loopsStarted == 0 && h.timer == None
      && h.trace == [Call(Set(key, "", DefaultTTL), false)]
      && h.store == store0
      && (forall ok :: !Enabled(h, TimerFired(ok)))
      && !Enabled(h, QuitObserved)
  {
  }

  /** A handle without a loop never gets one: over any run its timer stays
      absent, no loop is started, and the only calls it can still issue are
      deletes, never a set. */
  lemma {:induction false} NoLoopNoRefresh(h: Handle, es: seq<Event>, h': Handle)
    requires h.timer.None? && Run(h, es) == Some(h')
    ensures h'.timer.None? && h'.loopsStarted == h.loopsStarted
    ensures |h.trace| <= |h'.trace| && h'.trace[..|h.trace|] == h.trace
    ensures forall i :: |h.trace| <= i < |h'.trace| ==> h'.trace[i].op.Delete?
    decreases |es|
  {
    if es != [] {
      var m := Step(h, es[0]);
      NoLoopNoRefresh(m, es[1..], h');
      assert m.trace[..|h.trace|] == h.trace;
      forall i | |h.trace| <= i < |h'.trace|
        ensures h'.trace[i].op.Delete?
      {
        if i < |m.trace| {
          assert h'.trace[i] == m.trace[i];
        }
      }
    }
  }

  /** After a failed `New`, whatever happens, the handle never ticks: no loop
      is ever started and the failed first set stays the only set. */
  lemma FailedCreateNeverRefreshes(key: string, value: string, store0: Store, es: seq<Event>, h': Handle)
    requires Run(Create(key, value, store0, false), es) == Some(h')
    ensures h'.timer == None && h'.loopsStarted == 0
    ensures |h'.trace| >= 1 && h'.trace[0] == Call(Set(key, "", DefaultTTL), false)
    ensures forall i :: 1 <= i < |h'.trace| ==> h'.trace[i].op.Delete?
  {
    NoLoopNoRefresh(Create(key, value, store0, false), es, h');
  }

  // ---------------------------------------------------------------------------
  // Single operations

  /** Every operation keeps the invariant. */
  lemma StepPreservesInv(h: Handle, e: Event)
    requires Inv(h) && Enabled(h, e)
    ensures Inv(Step(h, e))
  {
    match e
    case StopCalled(ok) =>
      if !h.closed { DeletesSnoc(h.trace, Call(Delete(h.key), ok)); }
    case TimerFired(ok) =>
      DeletesSnoc(h.trace, Call(Set(h.key, h.value, h.ttl), ok));
    case _ =>
  }

  /** `SetLogger` on an open handle replaces the logger and nothing else. */
  lemma SetLoggerReplacesLogger(h: Handle, present: bool)
    requires !h.closed
    ensures SetLogger(h, present) == h.(hasLogger := present)
  {
  }

  /** `TTL` never fails, accepts zero, and is not checked against the interval. */
  lemma TTLAcceptsAnyValue(h: Handle, ttl: U64)
    ensures SetTTL(h, ttl).1 == None
    ensures !h.closed ==> SetTTL(h, ttl).0 == h.(ttl := ttl)
    ensures Inv(h) ==> Inv(SetTTL(h, ttl).0)
  {
  }

  /** `UpdateInterval` on an open handle: below one it fails with
      `IntervalTooSmall` and changes nothing; otherwise it sets the interval
      and nothing else. */
  lemma UpdateIntervalValidates(h: Handle, interval: U64)
    requires !h.closed
    ensures interval < 1 <==> SetUpdateInterval(h, interval).1 == Some(IntervalTooSmall)
    ensures interval < 1 ==> SetUpdateInterval(h, interval).0 == h
    ensures interval >= 1 ==> SetUpdateInterval(h, interval) == (h.(updateInterval := interval), None)
  {
  }

  /** After `Stop`, the setters change nothing and report no error, even an
      interval of zero. */
  lemma ClosedSettersAreNoOps(h: Handle, present: bool, ttl: U64, interval: U64, v: string)
    requires h.closed
    ensures SetLogger(h, present) == h
    ensures SetTTL(h, ttl) == (h, None)
    ensures SetUpdateInterval(h, interval) == (h, None)
    ensures SetValue(h, v) == h
  {
  }

  /** `Value` on an open handle changes the value and collapses the pending
      delay to zero, so the timer is due at once, and the write it causes
      carries the new value. */
  lemma ValueForcesRefresh(h: Handle, v: string, ok: bool)
    requires Inv(h) && !h.closed
    ensures SetValue(h, v) == h.(value := v, timer := Some(0))
    ensures Enabled(SetValue(h, v), TimerFired(ok))
    ensures Tick(SetValue(h, v), ok).trace == h.trace + [Call(Set(h.key, v, h.ttl), ok)]
  {
  }

  /** `Stop` is idempotent; the first call closes the handle and issues
      exactly one delete. */
  lemma StopIsIdempotent(h: Handle, ok: bool, ok2: bool)
    requires Inv(h)
    ensures Stop(Stop(h, ok), ok2) == Stop(h, ok)
    ensures Stop(h, ok).closed && Stop(h, ok).quitSignalled
    ensures !h.closed ==> Stop(h, ok).trace == h.trace + [Call(Delete(h.key), ok)]
    ensures h.closed ==> Stop(h, ok) == h
    ensures !h.closed ==>
      Stop(h, ok).log == h.log + (if !ok && h.hasLogger then [DeleteFailed(h.key)] else [])
                               + (if h.hasLogger then [Stopped] else [])
  {
  }

  /** The timer case re-arms with the current interval and writes the current
      fields; a failed write leaves the store alone and the loop running. */
  lemma TickRearmsThenWrites(h: Handle, ok: bool)
    requires h.timer.Some?
    ensures Tick(h, ok).timer == Some(Delay(h.updateInterval))
    ensures Tick(h, ok).trace == h.trace + [Call(Set(h.key, h.value, h.ttl), ok)]
    ensures !ok ==> Tick(h, ok).store == h.store
    ensures Enabled(Tick(h, ok), TimerFired(ok))
    ensures Tick(h, ok).log == h.log + (if !ok && h.hasLogger then [UpdateFailed(h.key)] else [])
  {
  }

  /** Once the quit case is taken the timer is gone: no further tick. */
  lemma QuitEndsLoop(h: Handle, ok: bool)
    requires h.quitSignalled && h.timer.Some?
    ensures Quit(h).timer == None
    ensures !Enabled(Quit(h), TimerFired(ok)) && !Enabled(Quit(h), QuitObserved)
  {
  }

  // ---------------------------------------------------------------------------
  // Runs

  lemma {:induction false} RunSnoc(h: Handle, es: seq<Event>, e: Event)
    ensures Run(h, es + [e]) ==
      match Run(h, es)
      case None => None
      case Some(m) => if Enabled(m, e) then Some(Step(m, e)) else None
    decreases |es|
  {
    if es == [] {
      assert es + [e] == [e];
    } else {
      assert (es + [e])[0] == es[0];
      assert (es + [e])[1..] == es[1..] + [e];
      if Enabled(h, es[0]) {
        RunSnoc(Step(h, es[0]), es[1..], e);
      }
    }
  }

  /** The invariant holds after every run: at most one loop, an interval of
      at least one, and at most one delete, issued exactly when closed. */
  lemma {:induction false} RunPreservesInv(h: Handle, es: seq<Event>, h': Handle)
    requires Inv(h) && Run(h, es) == Some(h')
    ensures Inv(h')
    decreases |es|
  {
    if es != [] {
      StepPreservesInv(h, es[0]);
      RunPreservesInv(Step(h, es[0]), es[1..], h');
    }
  }

  /** One event issues at most one call, keeps the earlier ones, and changes
      the store only by that call. */
  lemma StepReplaysCall(h: Handle, e: Event)
    requires Enabled(h, e)
    ensures var m := Step(h, e);
      && |h.trace| <= |m.trace| && m.trace[..|h.trace|] == h.trace
      && m.store == Replay(h.store, m.trace[|h.trace|..])
  {
    var m := Step(h, e);
    if m.trace == h.trace {
      assert m.trace[|h.trace|..] == [];
    } else {
      var added := m.trace[|h.trace|..];
      assert |added| == 1 && added[..0] == [];
    }
  }

  /** A prefix of a prefix is a prefix, and the suffix splits at the middle one. */
  lemma PrefixSplit(a: seq<Call>, b: seq<Call>, c: seq<Call>)
    requires |a| <= |b| <= |c| && b[..|a|] == a && c[..|b|] == b
    ensures c[..|a|] == a && c[|a|..] == b[|a|..] + c[|b|..]
  {
    assert c[..|a|] == b[..|a|];
  }

  /** Every handle reachable from a successful `New` keeps the invariant: it
      started one loop, its interval is at least one second, and it has issued
      at most one delete, exactly when it is closed. */
  lemma {:induction false} CreatedHandlesKeepInv(
    key: string, value: string, store0: Store, es: seq<Event>, h': Handle)
    requires Run(Create(key, value, store0, true), es) == Some(h')
    ensures Inv(h')
    ensures h'.loopsStarted == 1 && h'.updateInterval >= 1 && h'.key == key
    ensures Deletes(h'.trace) <= 1 && (h'.closed <==> Deletes(h'.trace) == 1)
  {
    CreateSucceeds(key, value, store0);
    RunPreservesInv(Create(key, value, store0, true), es, h');
    if h'.key != key {
      RunTouchesOnlyOwnKey(Create(key, value, store0, true), es, h', h'.key);
    }
  }

  /** The store is always what the issued calls made of it: the old trace is
      kept and the store is the old store with the new calls replayed. */
  lemma {:induction false} RunReplaysTrace(h: Handle, es: seq<Event>, h': Handle)
    requires Run(h, es) == Some(h')
    ensures |h.trace| <= |h'.trace| && h'.trace[..|h.trace|] == h.trace
    ensures h'.store == Replay(h.store, h'.trace[|h.trace|..])
    decreases |es|
  {
    if es == [] {
      assert h'.trace[|h.trace|..] == [];
    } else {
      var m := Step(h, es[0]);
      StepReplaysCall(h, es[0]);
      RunReplaysTrace(m, es[1..], h');
      PrefixSplit(h.trace, m.trace, h'.trace);
      ReplayConcat(h.store, m.trace[|h.trace|..], h'.trace[|m.trace|..]);
    }
  }

  /** The handle writes no key but its own: every other entry of the store
      is left exactly as it was. */
  lemma {:induction false} RunTouchesOnlyOwnKey(h: Handle, es: seq<Event>, h': Handle, k: string)
    requires Run(h, es) == Some(h') && k != h.key
    ensures h'.key == h.key
    ensures k in h'.store <==> k in h.store
    ensures k in h.store ==> h'.store[k] == h.store[k]
    decreases |es|
  {
    if es != [] {
      RunTouchesOnlyOwnKey(Step(h, es[0]), es[1..], h', k);
    }
  }

  /** By default no logs are written: a handle without a logger logs nothing
      over any run in which no logger is set. */
  lemma {:induction false} NoLoggerNoLog(h: Handle, es: seq<Event>, h': Handle)
    requires !h.hasLogger && Run(h, es) == Some(h')
    requires forall i :: 0 <= i < |es| ==> es[i] != SetLoggerCalled(true)
    ensures h'.log == h.log
    decreases |es|
  {
    if es != [] {
      NoLoggerNoLog(Step(h, es[0]), es[1..], h');
    }
  }

  /** Once closed, a handle stays closed, its configuration never changes
      again, no second delete is issued, and the only calls still issued are
      sets of the frozen value, from ticks taken before the quit case. */
  lemma {:induction false} ClosedIsPermanent(h: Handle, es: seq<Event>, h': Handle)
    requires h.closed && Run(h, es) == Some(h')
    ensures h'.closed && h'.key == h.key && h'.value == h.value && h'.ttl == h.ttl
    ensures h'.updateInterval == h.updateInterval && h'.hasLogger == h.hasLogger
    ensures |h.trace| <= |h'.trace| && h'.trace[..|h.trace|] == h.trace
    ensures forall i :: |h.trace| <= i < |h'.trace| ==> h'.trace[i].op == Set(h.key, h.value, h.ttl)
    decreases |es|
  {
    if es != [] {
      var m := Step(h, es[0]);
      ClosedIsPermanent(m, es[1..], h');
      assert m.trace[..|h.trace|] == h.trace;
      forall i | |h.trace| <= i < |h'.trace|
        ensures h'.trace[i].op == Set(h.key, h.value, h.ttl)
      {
        if i < |m.trace| {
          assert h'.trace[i] == m.trace[i];
        }
      }
    }
  }

  /** Once closed and with the loop exited, the handle is frozen: no event
      changes anything, and in particular no call reaches the store. */
  lemma {:induction false} LoopExitFreezesHandle(h: Handle, es: seq<Event>, h': Handle)
    requires h.closed && h.timer.None? && Run(h, es) == Some(h')
    ensures h' == h
    decreases |es|
  {
    if es != [] {
      LoopExitFreezesHandle(Step(h, es[0]), es[1..], h');
    }
  }

  /** Events other than `Value` leave the value and the key alone. */
  lemma {:induction false} RunKeepsValue(h: Handle, es: seq<Event>, h': Handle)
    requires Run(h, es) == Some(h')
    requires forall i :: 0 <= i < |es| ==> !es[i].ValueCalled?
    ensures h'.value == h.value && h'.key == h.key
    decreases |es|
  {
    if es != [] {
      RunKeepsValue(Step(h, es[0]), es[1..], h');
    }
  }

  /** After `Value(v)` on an open handle, whatever else happens, the next tick
      writes `v` (with the ttl current at that tick), unless another `Value`
      came first. */
  lemma {:induction false} ValueReachesNextTick(h: Handle, v: string, es: seq<Event>, ok: bool, h': Handle)
    requires !h.closed
    requires forall i :: 0 <= i < |es| ==> !es[i].ValueCalled?
    requires Run(SetValue(h, v), es + [TimerFired(ok)]) == Some(h')
    ensures |h'.trace| > 0 && h'.trace[|h'.trace| - 1] == Call(Set(h.key, v, h'.ttl), ok)
  {
    RunSnoc(SetValue(h, v), es, TimerFired(ok));
    var m :| Run(SetValue(h, v), es) == Some(m) && h' == Step(m, TimerFired(ok));
    RunKeepsValue(SetValue(h, v), es, m);
  }

}
