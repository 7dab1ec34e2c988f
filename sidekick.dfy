/** The `Sidekick` type of sidekick.go as a class whose methods update its
    fields in place. The etcd client is replaced by two ghost fields, the store
    and the trace of calls issued against it; the logger by a flag and a ghost
    log. The background goroutine is not a thread here: its two select cases
    are the methods `Tick` (the timer fired) and `Quit` (the quit channel was
    seen closed), which the environment calls whenever they are enabled.

    Every method is proved to move the object's state exactly as the matching
    function of `Lifecycle` moves a `Handle`, so the lemmas proved there hold
    of this class. */
module Keepalive {

  import opened Options
  import opened Etcd
  import L = Lifecycle

  class Sidekick {
    const key: string
    var value: string
    var ttl: U64
    var updateInterval: U64
    var closed: bool
    var hasLogger: bool
    var quitSignalled: bool      // quitCh has been closed
    var timer: Option<int>       // the loop's timer: its pending delay in nanoseconds
    ghost var loopsStarted: nat
    ghost var store: Store
    ghost var trace: seq<Call>
    ghost var log: seq<L.LogEntry>

    /** The object's state as a value. */
    ghost function State(): L.Handle
      reads this
    {
      L.Handle(key, value, ttl, updateInterval, closed, hasLogger, quitSignalled,
               timer, loopsStarted, store, trace, log)
    }

    ghost predicate Valid()
      reads this
    {
      L.Inv(State())
    }

    /** `&Sidekick{}` with its key: every other field holds Go's zero value. */
    constructor Zero(key: string, ghost store0: Store)
      ensures this.key == key && value == "" && ttl == 0 && updateInterval == 0
      ensures !closed && !hasLogger && !quitSignalled && timer == None
      ensures loopsStarted == 0 && store == store0 && trace == [] && log == []
    {
      this.key := key;
      value, ttl, updateInterval := "", 0, 0;
      closed, hasLogger, quitSignalled := false, false, false;
      timer := None;
      loopsStarted, store, trace, log := 0, store0, [], [];
    }

    /** `New(servers, key, value)`. `store0` is the store before the call and
        `setOk` the outcome of the first write. On failure there is no handle
        and so no loop; on success the handle is `Lifecycle.Create`'s, with its
        loop started once. */
    static method New(key: string, value: string, ghost store0: Store, setOk: bool)
      returns (sk: Sidekick?, err: Option<L.Error>)
      ensures sk == null <==> !setOk
      ensures err == if setOk then None else Some(L.StoreFailure)
      ensures sk != null ==> fresh(sk) && sk.Valid() && sk.State() == L.Create(key, value, store0, true)
    {
      var h := new Sidekick.Zero(key, store0);
      h.ttl := L.DefaultTTL;
      h.updateInterval := L.DefaultUpdateInterval;
      // the first write sends h.value, which is still empty: `value` is never stored
      ghost var call := Call(Set(h.key, h.value, h.ttl), setOk);
      h.trace := h.trace + [call];
      h.store := Apply(h.store, call);
      if !setOk {
        return null, Some(L.StoreFailure);
      }
      // go sk.loop(): the loop's first act is to arm its timer
      h.timer := Some(L.Delay(h.updateInterval));
      h.loopsStarted := h.loopsStarted + 1;
      L.CreateSucceeds(key, value, store0);
      return h, None;
    }

    /** `SetLogger(logger)`; `present` is false for a nil logger. */
    method SetLogger(present: bool)
      requires Valid()
      modifies this
      ensures Valid() && State() == L.SetLogger(old(State()), present)
    {
      if closed {
        return;
      }
      hasLogger := present;
    }

    /** `TTL(ttl)`. */
    method TTL(ttl: U64) returns (err: Option<L.Error>)
      requires Valid()
      modifies this
      ensures Valid() && (State(), err) == L.SetTTL(old(State()), ttl)
    {
      if closed {
        return None;
      }
      this.ttl := ttl;
      return None;
    }

    /** `UpdateInterval(interval)`. */
    method UpdateInterval(interval: U64) returns (err: Option<L.Error>)
      requires Valid()
      modifies this
      ensures Valid() && (State(), err) == L.SetUpdateInterval(old(State()), interval)
    {
      if closed {
        return None;
      }
      if interval < 1 {
        return Some(L.IntervalTooSmall);
      }
      updateInterval := interval;
      return None;
    }

    /** `Value(value)`: resetting the timer to zero makes the next tick due now. */
    method Value(v: string)
      requires Valid()
      modifies this
      ensures Valid() && State() == L.SetValue(old(State()), v)
    {
      if closed {
        return;
      }
      value := v;
      timer := Some(0);
    }

    /** `Stop()`; `deleteOk` is the outcome of the delete. */
    method Stop(deleteOk: bool)
      requires Valid()
      modifies this
      ensures Valid() && State() == L.Stop(old(State()), deleteOk)
    {
      if closed {
        return;
      }
      ghost var before := State();
      closed := true;
      quitSignalled := true;
      ghost var call := Call(Delete(key), deleteOk);
      trace := trace + [call];
      store := Apply(store, call);
      ghost var failed: seq<L.LogEntry> := if !deleteOk && hasLogger then [L.DeleteFailed(key)] else [];
      ghost var stopped: seq<L.LogEntry> := if hasLogger then [L.Stopped] else [];
      log := log + failed + stopped;
      assert State() == L.Stop(before, deleteOk);
      L.StepPreservesInv(before, L.StopCalled(deleteOk));
    }

    /** The loop's timer case; `setOk` is the outcome of the write. */
    method Tick(setOk: bool)
      requires Valid() && timer.Some?
      modifies this
      ensures Valid() && State() == L.Tick(old(State()), setOk)
    {
      ghost var before := State();
      timer := Some(L.Delay(updateInterval));
      ghost var call := Call(Set(key, value, ttl), setOk);
      trace := trace + [call];
      store := Apply(store, call);
      ghost var failed: seq<L.LogEntry> := if !setOk && hasLogger then [L.UpdateFailed(key)] else [];
      log := log + failed;
      assert State() == L.Tick(before, setOk);
      L.StepPreservesInv(before, L.TimerFired(setOk));
    }

    /** The loop's quit case: the timer is stopped and dropped, and the loop returns. */
    method Quit()
      requires Valid() && quitSignalled && timer.Some?
      modifies this
      ensures Valid() && State() == L.Quit(old(State()))
    {
      timer := None;
    }
  }

}
