/** `throttle(func, limit)`: the wrapper forwards a call only when no call
    was forwarded within the last `limit` milliseconds. The `setTimeout` that
    ends the window is an event here (its firing is delivered by the page's
    event loop): the wrapper's life is a sequence of invocations and window
    ends, and Run says what it forwards over such a sequence. */
module Throttle {

  /** What happens to a throttled wrapper: it is invoked with an argument,
      or the timer armed by the last forwarded call fires. */
  datatype Event<A> = Invoked(arg: A) | WindowEnded

  /** `inThrottle` and the arguments handed to `func`, in order. */
  datatype ThrottleState<A> = ThrottleState(blocked: bool, forwarded: seq<A>)

  function Step<A>(s: ThrottleState<A>, e: Event<A>): ThrottleState<A> {
    match e
    case Invoked(a) => if s.blocked then s else ThrottleState(true, s.forwarded + [a])
    case WindowEnded => s.(blocked := false)
  }

  /** The wrapper's state after a sequence of events, from a fresh wrapper. */
  function Run<A>(events: seq<Event<A>>): ThrottleState<A>
    decreases |events|
  {
    if events == [] then ThrottleState(false, [])
    else Step(Run(events[..|events| - 1]), events[|events| - 1])
  }

  /** A timer fires only while one is armed, that is, while the wrapper is
      blocked. */
  predicate WellTimed<A>(events: seq<Event<A>>)
    decreases |events|
  {
    events == []
    || (WellTimed(events[..|events| - 1])
        && (events[|events| - 1].WindowEnded? ==> Run(events[..|events| - 1]).blocked))
  }

  function WindowsEnded<A>(events: seq<Event<A>>): nat
    decreases |events|
  {
    if events == [] then 0
    else WindowsEnded(events[..|events| - 1]) + (if events[|events| - 1].WindowEnded? then 1 else 0)
  }

  /** Exactly one call is forwarded per window: one for each window that has
      ended and one for the window still open. */
  lemma {:induction false} ForwardedPerWindow<A>(events: seq<Event<A>>)
    requires WellTimed(events)
    ensures |Run(events).forwarded| == WindowsEnded(events) + (if Run(events).blocked then 1 else 0)
    decreases |events|
  {
    if events != [] {
      ForwardedPerWindow(events[..|events| - 1]);
    }
  }

  /** Every forwarded argument is one the wrapper was invoked with, and the
      forwarded calls keep their order: they are the invocations of a
      subsequence of the events. */
  lemma {:induction false} ForwardedInvoked<A>(events: seq<Event<A>>)
    ensures forall k :: 0 <= k < |Run(events).forwarded| ==> Invoked(Run(events).forwarded[k]) in events
    decreases |events|
  {
    if events != [] {
      var init := events[..|events| - 1];
      ForwardedInvoked(init);
      assert forall e :: e in init ==> e in events;
    }
  }

  /** A fresh wrapper, and one whose window has ended, forwards the next call. */
  lemma FreeForwards<A>(events: seq<Event<A>>, a: A)
    requires !Run(events).blocked
    ensures Run(events + [Invoked(a)]).forwarded == Run(events).forwarded + [a]
    ensures Run(events + [Invoked(a)]).blocked
  {
    assert (events + [Invoked(a)])[..|events|] == events;
  }

  /** A blocked wrapper drops every call until its window ends. */
  lemma BlockedDrops<A>(events: seq<Event<A>>, a: A)
    requires Run(events).blocked
    ensures Run(events + [Invoked(a)]) == Run(events)
  {
    assert (events + [Invoked(a)])[..|events|] == events;
  }

  /** The closure `throttle` returns, with its captured `inThrottle`. */
  class Throttled<A> {
    var inThrottle: bool
    /** The arguments handed to `func`, in order. */
    var forwarded: seq<A>
    ghost var history: seq<Event<A>>

    ghost predicate Valid()
      reads this
    {
      && WellTimed(history)
      && Run(history) == ThrottleState(inThrottle, forwarded)
    }

    constructor ()
      ensures Valid() && history == []
    {
      inThrottle, forwarded, history := false, [], [];
    }

    /** A call of the wrapper: forwarded when not throttled, and then the
        window opens. */
    method Call(arg: A) returns (ran: bool)
      requires Valid()
      modifies this
      ensures Valid()
      ensures history == old(history) + [Invoked(arg)]
      ensures ran == !old(inThrottle) && inThrottle
      ensures forwarded == if ran then old(forwarded) + [arg] else old(forwarded)
    {
      ghost var before := history;
      history := history + [Invoked(arg)];
      assert history[..|history| - 1] == before;
      ran := !inThrottle;
      if ran {
        forwarded := forwarded + [arg];
        inThrottle := true;
      }
    }

    /** The `limit` timer fires and the window closes. */
    method WindowEnd()
      requires Valid() && inThrottle
      modifies this
      ensures Valid()
      ensures history == old(history) + [WindowEnded]
      ensures !inThrottle && forwarded == old(forwarded)
    {
      ghost var before := history;
      history := history + [WindowEnded];
      assert history[..|history| - 1] == before;
      inThrottle := false;
    }
  }
}
