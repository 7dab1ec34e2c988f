/** Three places where sidekick.go as written does not do what its comments
    and its CLI evidently intend. For each: a lemma exhibiting the behaviour of
    the code as written (modelled in `Lifecycle`), and a corrected definition
    with the intended property proved about it. The class in sidekick.dfy
    keeps the behaviour as written. */
module Findings {

  import opened Options
  import opened Etcd
  import opened Lifecycle

  // ---------------------------------------------------------------------------
  // 1. `New` never stores its `value` argument.

  /** As written: with any non-empty `value`, the first write publishes the
      empty string, and so does the first refresh. */
  lemma CreateDropsValue(key: string, value: string, store0: Store, ok: bool)
    requires value != ""
    ensures var h := Create(key, value, store0, true);
      && key in h.store && h.store[key] == ("", DefaultTTL as nat) && h.store[key].0 != value
      && Tick(h, ok).trace == [Call(Set(key, "", DefaultTTL), true), Call(Set(key, "", DefaultTTL), ok)]
  {
  }

  /** Corrected: the argument becomes the handle's value before the first write. */
  function CreateIntended(key: string, value: string, store0: Store, setOk: bool): Handle
  {
    var call := Call(Set(key, value, DefaultTTL), setOk);
    Handle(key, value, DefaultTTL, DefaultUpdateInterval, false, false, false,
           if setOk then Some(Delay(DefaultUpdateInterval)) else None,
           if setOk then 1 else 0,
           Apply(store0, call), [call], [])
  }

  /** With the correction, a successful creation leaves the given value in the
      store, and every refresh up to the first `Value` call writes it again. */
  lemma {:induction false} CreateIntendedPublishesValue(
    key: string, value: string, store0: Store, es: seq<Event>, ok: bool, h': Handle)
    requires forall i :: 0 <= i < |es| ==> !es[i].ValueCalled?
    requires Run(CreateIntended(key, value, store0, true), es + [TimerFired(ok)]) == Some(h')
    ensures var h := CreateIntended(key, value, store0, true);
      Inv(h) && h.store[key] == (value, DefaultTTL as nat)
    ensures |h'.trace| > 0 && h'.trace[|h'.trace| - 1] == Call(Set(key, value, h'.ttl), ok)
  {
    var h := CreateIntended(key, value, store0, true);
    assert Deletes(h.trace) == 0;
    RunSnoc(h, es, TimerFired(ok));
    var m :| Run(h, es) == Some(m) && h' == Step(m, TimerFired(ok));
    RunKeepsValue(h, es, m);
  }

  // ---------------------------------------------------------------------------
  // 2. A tick taken after `Stop` writes the deleted key back.

  /** As written: `Stop` closes the quit channel and deletes, but the loop's
      select may still take a timer case that was ready at the same moment;
      that tick writes the key again after the delete. */
  lemma StopThenTickRewritesKey(h: Handle)
    requires Inv(h) && !h.closed
    ensures var r := Run(h, [StopCalled(true), TimerFired(true)]);
      && r.Some? && h.key in r.value.store
      && r.value.store[h.key] == (h.value, h.ttl as nat)
  {
    var s := Stop(h, true);
    assert Run(h, [StopCalled(true), TimerFired(true)]) == Run(s, [TimerFired(true)]);
    assert Run(s, [TimerFired(true)]) == Run(Tick(s, true), []);
  }

  /** Corrected: the loop is made to exit (and its timer released) before the
      key is deleted. */
  function StopAndJoin(h: Handle, deleteOk: bool): Handle
  {
    if h.closed then h else Stop(h.(timer := None), deleteOk)
  }

  /** With the correction, a successful delete is final: whatever happens
      afterwards, the key stays out of the store and the handle is frozen. */
  lemma StopAndJoinKeepsKeyDeleted(h: Handle, es: seq<Event>, h': Handle)
    requires Inv(h) && !h.closed
    requires Run(StopAndJoin(h, true), es) == Some(h')
    ensures Inv(StopAndJoin(h, true))
    ensures h' == StopAndJoin(h, true) && h.key !in h'.store
  {
    DeletesSnoc(h.trace, Call(Delete(h.key), true));
    LoopExitFreezesHandle(StopAndJoin(h, true), es, h');
  }

  // ---------------------------------------------------------------------------
  // 3. A large interval wraps to a negative timer delay.

  /** As written: `UpdateInterval` accepts 9223372037 seconds, but that many
      seconds in nanoseconds exceeds int64, the duration wraps negative, and
      the timer fires at once after every write. */
  lemma HugeIntervalFiresAtOnce(h: Handle, ok: bool)
    requires Inv(h) && !h.closed
    ensures SetUpdateInterval(h, MaxIntervalSeconds + 1).1 == None
    ensures Tick(SetUpdateInterval(h, MaxIntervalSeconds + 1).0, ok).timer == Some(-9_223_372_036_709_551_616)
  {
  }

  /** The errors of the corrected validation: the source's own, or a new one
      for an interval too large to be a duration. */
  datatype CheckedError = SourceError(e: Error) | IntervalTooLarge

  /** Corrected: intervals whose duration does not fit an int64 are refused. */
  function UpdateIntervalChecked(h: Handle, interval: U64): (Handle, Option<CheckedError>)
  {
    if h.closed then (h, None)
    else if interval < 1 then (h, Some(SourceError(IntervalTooSmall)))
    else if interval > MaxIntervalSeconds then (h, Some(IntervalTooLarge))
    else (h.(updateInterval := interval), None)
  }

  /** With the correction, an accepted interval of n seconds arms the timer for
      exactly n seconds, which is always a positive delay. */
  lemma CheckedIntervalArmsExactDelay(h: Handle, interval: U64, ok: bool)
    requires Inv(h) && !h.closed
    requires UpdateIntervalChecked(h, interval).1 == None
    ensures 1 <= interval <= MaxIntervalSeconds
    ensures Tick(UpdateIntervalChecked(h, interval).0, ok).timer == Some(interval * NanosPerSecond)
    ensures interval * NanosPerSecond >= NanosPerSecond
  {
  }

}
