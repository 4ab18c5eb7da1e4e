/**
 * The `debounce` helper of `dev-server.js` over a discrete clock. The closure's
 * `timeout` variable is either idle or a pending timer with a deadline and the
 * arguments of the call that armed it. A call re-arms the timer `wait` ahead; the
 * clock reaching the deadline fires the wrapped function with those arguments.
 */
module Debounce {
  import opened Wrappers

  /** An armed timer: when it is due, and the arguments `later` passes on. */
  datatype Timer<A> = Timer(deadline: int, args: A)

  /** What the debounced function sees: a call at a time, or the clock reaching a time. */
  datatype Event<A> = Call(at: int, args: A) | Tick(at: int)

  // ---------------------------------------------------- the reference

  /** Every event is a tick before `deadline`: nothing cancels or fires that timer. */
  predicate Quiet<A>(es: seq<Event<A>>, deadline: int) {
    forall k :: 0 <= k < |es| ==> es[k].Tick? && es[k].at < deadline
  }

  /** A timer due at `deadline` armed just before `es` fires during `es`. */
  function Fires<A>(es: seq<Event<A>>, deadline: int): bool {
    if es == [] then false
    else match es[0]
      case Call(_, _) => false
      case Tick(t) => t >= deadline || Fires(es[1..], deadline)
  }

  /**
   * The invocations of the wrapped function in a history, in order: the arguments of
   * every call whose timer fires before the next call.
   */
  function Invocations<A>(es: seq<Event<A>>, wait: int): seq<A> {
    if es == [] then []
    else
      var rest := Invocations(es[1..], wait);
      match es[0]
      case Call(t, a) => if Fires(es[1..], t + wait) then [a] + rest else rest
      case Tick(_) => rest
  }

  /** The timer still armed after a history: that of a call followed only by earlier ticks. */
  function Pending<A>(es: seq<Event<A>>, wait: int): Option<Timer<A>> {
    if es == [] then None
    else match es[0]
      case Call(t, a) => if Quiet(es[1..], t + wait) then Some(Timer(t + wait, a)) else Pending(es[1..], wait)
      case Tick(_) => Pending(es[1..], wait)
  }

  // ---------------------------------------------------- the closure

  /** The state `debounce(func, wait)` closes over, and the calls of `func` so far. */
  class Debouncer<A> {
    const wait: int
    var timeout: Option<Timer<A>>
    var invoked: seq<A>
    ghost var history: seq<Event<A>>

    /** The state agrees with the reference for the events seen so far. */
    ghost predicate Valid()
      reads this
    {
      timeout == Pending(history, wait) && invoked == Invocations(history, wait)
    }

    /** `debounce(func, wait)`: no timer yet. */
    constructor (wait: int)
      ensures Valid()
      ensures this.wait == wait && timeout == None && invoked == [] && history == []
    {
      this.wait := wait;
      timeout := None;
      invoked := [];
      history := [];
    }

    /** `executedFunction(...args)`: `clearTimeout`, then `setTimeout(later, wait)`. */
    method Call(now: int, args: A)
      requires Valid()
      modifies this
      ensures Valid()
      ensures timeout == Some(Timer(now + wait, args)) && invoked == old(invoked)
      ensures history == old(history) + [Event.Call(now, args)]
    {
      CallAppended(history, wait, now, args);
      timeout := Some(Timer(now + wait, args));
      history := history + [Event.Call(now, args)];
    }

    /** The clock reaches `now`; a timer due by then runs `later`, which calls `func`. */
    method Tick(now: int)
      requires Valid()
      modifies this
      ensures Valid()
      ensures history == old(history) + [Event.Tick(now)]
      ensures match old(timeout)
        case Some(tm) =>
          if tm.deadline <= now then timeout == None && invoked == old(invoked) + [tm.args]
          else timeout == old(timeout) && invoked == old(invoked)
        case None => timeout == None && invoked == old(invoked)
    {
      TickAppended(history, wait, now);
      if timeout.Some? && timeout.value.deadline <= now {
        invoked := invoked + [timeout.value.args];
        timeout := None;
      }
      history := history + [Event.Tick(now)];
    }
  }

  // ------------------------------------------------------------- lemmas

  /** A quiet stretch arms nothing and fires nothing itself. */
  lemma {:induction false} QuietIsIdle<A>(es: seq<Event<A>>, deadline: int, wait: int)
    requires Quiet(es, deadline)
    ensures !Fires(es, deadline)
    ensures Pending(es, wait) == None && Invocations(es, wait) == []
  {
    if es != [] {
      assert Quiet(es[1..], deadline) by {
        assert forall k :: 0 <= k < |es[1..]| ==> es[1..][k] == es[k + 1];
      }
      QuietIsIdle(es[1..], deadline, wait);
    }
  }

  lemma QuietSnoc<A>(es: seq<Event<A>>, e: Event<A>, deadline: int)
    ensures Quiet(es + [e], deadline) <==> Quiet(es, deadline) && e.Tick? && e.at < deadline
  {
    assert (es + [e])[|es|] == e;
    assert forall k :: 0 <= k < |es| ==> (es + [e])[k] == es[k];
  }

  /** A later event decides a timer's fate only when all before it were quiet. */
  lemma {:induction false} FiresSnoc<A>(es: seq<Event<A>>, e: Event<A>, deadline: int)
    ensures Fires(es + [e], deadline) <==>
      Fires(es, deadline) || (Quiet(es, deadline) && e.Tick? && e.at >= deadline)
  {
    if es == [] {
      assert [] + [e] == [e];
    } else {
      assert (es + [e])[1..] == es[1..] + [e];
      FiresSnoc(es[1..], e, deadline);
      QuietCons(es, deadline);
    }
  }

  lemma QuietCons<A>(es: seq<Event<A>>, deadline: int)
    requires es != []
    ensures Quiet(es, deadline) <==> es[0].Tick? && es[0].at < deadline && Quiet(es[1..], deadline)
  {
    assert forall k :: 0 < k < |es| ==> es[k] == es[1..][k - 1];
  }

  /** After a call, its timer is the pending one and nothing has fired. */
  lemma {:induction false} CallAppended<A>(es: seq<Event<A>>, wait: int, now: int, a: A)
    ensures Pending(es + [Event.Call(now, a)], wait) == Some(Timer(now + wait, a))
    ensures Invocations(es + [Event.Call(now, a)], wait) == Invocations(es, wait)
  {
    var c := Event.Call(now, a);
    if es == [] {
      assert [] + [c] == [c];
    } else {
      assert (es + [c])[1..] == es[1..] + [c];
      CallAppended(es[1..], wait, now, a);
      QuietSnoc(es[1..], c, es[0].at + wait);
      FiresSnoc(es[1..], c, es[0].at + wait);
    }
  }

  /**
   * At a tick, the pending timer fires exactly when it is due, with the arguments of
   * the call that armed it, and is then cleared; otherwise nothing changes.
   */
  lemma {:induction false} TickAppended<A>(es: seq<Event<A>>, wait: int, now: int)
    ensures var p := Pending(es, wait);
      var due := p.Some? && p.value.deadline <= now;
      Pending(es + [Event.Tick(now)], wait) == (if due then None else p) &&
      Invocations(es + [Event.Tick(now)], wait) == Invocations(es, wait) + (if due then [p.value.args] else [])
  {
    var k := Event.Tick(now);
    if es == [] {
      assert [] + [k] == [k];
    } else {
      var rest := es[1..];
      assert (es + [k])[1..] == rest + [k];
      TickAppended(rest, wait, now);
      if es[0].Call? {
        var dl := es[0].at + wait;
        QuietSnoc(rest, k, dl);
        FiresSnoc(rest, k, dl);
        if Quiet(rest, dl) {
          QuietIsIdle(rest, dl, wait);
        }
      }
    }
  }

  /** Event `i` is a call and only ticks follow it. */
  predicate LatestCall<A>(es: seq<Event<A>>, i: nat)
    requires i < |es|
  {
    es[i].Call? && forall j :: i < j < |es| ==> es[j].Tick?
  }

  /** The pending timer carries the arguments of the latest call, `wait` after it. */
  lemma {:induction false} PendingIsLatest<A>(es: seq<Event<A>>, wait: int)
    requires Pending(es, wait).Some?
    ensures exists i ::
      0 <= i < |es| && LatestCall(es, i) && Pending(es, wait) == Some(Timer(es[i].at + wait, es[i].args))
  {
    if es[0].Call? && Quiet(es[1..], es[0].at + wait) {
      assert forall j :: 0 < j < |es| ==> es[j] == es[1..][j - 1];
    } else {
      PendingIsLatest(es[1..], wait);
      var i :| 0 <= i < |es[1..]| && LatestCall(es[1..], i) &&
        Pending(es[1..], wait) == Some(Timer(es[1..][i].at + wait, es[1..][i].args));
      assert es[i + 1] == es[1..][i];
      assert forall j :: i + 1 < j < |es| ==> es[j] == es[1..][j - 1];
    }
  }

  /** Every invocation passes on the arguments of some call, and there are no more of them than calls. */
  lemma {:induction false} InvocationsFromCalls<A>(es: seq<Event<A>>, wait: int)
    ensures |Invocations(es, wait)| <= |Calls(es)|
    ensures forall a :: a in Invocations(es, wait) ==> a in Calls(es)
  {
    if es != [] {
      InvocationsFromCalls(es[1..], wait);
    }
  }

  /** The arguments of the calls in a history. */
  function Calls<A>(es: seq<Event<A>>): seq<A> {
    if es == [] then []
    else match es[0]
      case Call(_, a) => [a] + Calls(es[1..])
      case Tick(_) => Calls(es[1..])
  }

  // -------------------------------------------------------------- bursts

  /**
   * A burst: the calls `calls`, with the clock observed at each call after the
   * first, just before it arrives.
   */
  function Burst<A>(calls: seq<(int, A)>): seq<Event<A>>
    decreases |calls|
  {
    if calls == [] then []
    else
      var n := |calls| - 1;
      var before := Burst(calls[..n]);
      (if n == 0 then [] else before + [Event.Tick(calls[n].0)]) + [Event.Call(calls[n].0, calls[n].1)]
  }

  /** Consecutive calls closer together than `wait`. */
  predicate Close<A>(calls: seq<(int, A)>, wait: int) {
    forall i :: 0 < i < |calls| ==> calls[i].0 < calls[i - 1].0 + wait
  }

  /** However long a burst of close calls, nothing fires; the last call's timer is pending. */
  lemma {:induction false} BurstPending<A>(calls: seq<(int, A)>, wait: int)
    requires calls != [] && Close(calls, wait)
    ensures var last := calls[|calls| - 1];
      Pending(Burst(calls), wait) == Some(Timer(last.0 + wait, last.1)) &&
      Invocations(Burst(calls), wait) == []
    decreases |calls|
  {
    var n := |calls| - 1;
    var last := calls[n];
    if n == 0 {
      assert Burst(calls) == [] + [Event.Call(last.0, last.1)];
      CallAppended([], wait, last.0, last.1);
    } else {
      var init := calls[..n];
      assert Close(init, wait) by {
        assert forall i :: 0 <= i < |init| ==> init[i] == calls[i];
      }
      BurstPending(init, wait);
      var before := Burst(init);
      assert init[n - 1] == calls[n - 1];
      assert Burst(calls) == before + [Event.Tick(last.0)] + [Event.Call(last.0, last.1)];
      TickThenCall(before, wait, calls[n - 1].0 + wait, calls[n - 1].1, last.0, last.1);
    }
  }

  /** A tick before the pending deadline, then a call: only the new call's timer is pending. */
  lemma TickThenCall<A>(before: seq<Event<A>>, wait: int, deadline: int, b: A, now: int, a: A)
    requires Pending(before, wait) == Some(Timer(deadline, b)) && now < deadline
    requires Invocations(before, wait) == []
    ensures Pending(before + [Event.Tick(now)] + [Event.Call(now, a)], wait) == Some(Timer(now + wait, a))
    ensures Invocations(before + [Event.Tick(now)] + [Event.Call(now, a)], wait) == []
  {
    TickAppended(before, wait, now);
    CallAppended(before + [Event.Tick(now)], wait, now, a);
  }

  /**
   * A burst of calls each less than `wait` after the one before, followed by the
   * clock reaching the last deadline, invokes the function exactly once, with the
   * arguments of the last call.
   */
  lemma BurstFiresOnce<A>(calls: seq<(int, A)>, wait: int, later: int)
    requires calls != [] && Close(calls, wait)
    requires later >= calls[|calls| - 1].0 + wait
    ensures Invocations(Burst(calls) + [Event.Tick(later)], wait) == [calls[|calls| - 1].1]
  {
    BurstPending(calls, wait);
    TickAppended(Burst(calls), wait, later);
  }

  /** The dev server's `rebuild` is `debounce(..., 500)`: 500 milliseconds. */
  const RebuildWait: int := 500

  /**
   * Changes reported less than 500 milliseconds apart rebuild once, 500 milliseconds
   * after the last of them, and not before.
   */
  lemma RebuildsOnce(calls: seq<(int, ())>, later: int)
    requires calls != [] && Close(calls, RebuildWait)
    ensures var due := calls[|calls| - 1].0 + RebuildWait;
      |Invocations(Burst(calls) + [Event.Tick(later)], RebuildWait)| == if later >= due then 1 else 0
  {
    BurstPending(calls, RebuildWait);
    TickAppended(Burst(calls), RebuildWait, later);
  }
}
