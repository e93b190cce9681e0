/** `debounce(func, wait)` (script.js:105-115): the returned function keeps a
    single timeout slot; every call clears the pending timeout and schedules
    a new one `wait` after it, capturing that call's arguments, and when a
    timeout expires `func` runs with the arguments it captured. Time is an
    integer clock advanced by explicit `Elapse` events; a timeout due at the
    end of an elapse fires within it. */
module Debounce {
  import opened Wrappers

  /** The scheduled `later` callback: when it is due and what it will pass. */
  datatype Pending<A> = Pending(due: int, args: A)

  /** One run of `func`: when, and with which arguments. */
  datatype Firing<A> = Firing(at: int, args: A)

  /** The debounced function's state: its `wait`, the clock, the one timeout
      slot, and the runs of `func` so far. */
  datatype Debouncer<A> = Debouncer(wait: nat, now: int, pending: Option<Pending<A>>, fired: seq<Firing<A>>)

  datatype Event<A> = Call(args: A) | Elapse(d: nat)

  /** A fresh debounced function: nothing pending, nothing run. */
  function Create<A>(wait: nat, now: int): (s: Debouncer<A>)
    ensures s.pending.None? && s.fired == [] && s.wait == wait
  {
    Debouncer(wait, now, None, [])
  }

  /** A pending timeout lies no further ahead than `wait`. */
  predicate WellTimed<A>(s: Debouncer<A>) {
    s.pending.Some? ==> s.now <= s.pending.value.due <= s.now + s.wait
  }

  /** One event. A call replaces whatever was pending by a timeout `wait`
      from now with its own arguments and runs nothing. Letting `d` pass
      runs `func` once if the pending timeout falls due meanwhile, at its
      due time with its captured arguments, and empties the slot. */
  function Step<A>(s: Debouncer<A>, e: Event<A>): (s': Debouncer<A>)
    ensures s'.wait == s.wait
    ensures e.Call? ==>
      s'.pending == Some(Pending(s.now + s.wait, e.args)) && s'.now == s.now && s'.fired == s.fired
    ensures e.Elapse? ==> s'.now == s.now + e.d
    ensures e.Elapse? && s.pending.Some? && s.pending.value.due <= s.now + e.d ==>
      s'.pending.None?
      && s'.fired == s.fired + [Firing(s.pending.value.due, s.pending.value.args)]
    ensures e.Elapse? && !(s.pending.Some? && s.pending.value.due <= s.now + e.d) ==>
      s'.pending == s.pending && s'.fired == s.fired
    ensures WellTimed(s) ==> WellTimed(s')
  {
    match e
    case Call(args) => s.(pending := Some(Pending(s.now + s.wait, args)))
    case Elapse(d) =>
      var t := s.now + d;
      match s.pending
      case Some(p) =>
        if p.due <= t then s.(now := t, pending := None, fired := s.fired + [Firing(p.due, p.args)])
        else s.(now := t)
      case None => s.(now := t)
  }

  /** A sequence of events, in order. */
  function Run<A>(s: Debouncer<A>, events: seq<Event<A>>): (s': Debouncer<A>)
    ensures s'.wait == s.wait
    decreases |events|
  {
    if |events| == 0 then s else Run(Step(s, events[0]), events[1..])
  }

  /** Every run of events keeps the timeout slot well timed, and `func`
      never runs more often than time is let pass. */
  lemma {:induction false} RunWellTimed<A>(s: Debouncer<A>, events: seq<Event<A>>)
    requires WellTimed(s)
    ensures WellTimed(Run(s, events))
    ensures |Run(s, events).fired| <= |s.fired| + |events|
    ensures s.fired <= Run(s, events).fired
    decreases |events|
  {
    if |events| > 0 {
      RunWellTimed(Step(s, events[0]), events[1..]);
    }
  }

  function Sum(gaps: seq<nat>): nat {
    if |gaps| == 0 then 0 else gaps[0] + Sum(gaps[1..])
  }

  /** Every gap is shorter than `wait`. */
  predicate AllBelow(gaps: seq<nat>, wait: nat) {
    |gaps| == 0 || (gaps[0] < wait && AllBelow(gaps[1..], wait))
  }

  /** A burst: calls with `args[0]`, ..., `args[n-1]`, the gap before call
      `i + 1` being `gaps[i]`. */
  function Burst<A>(args: seq<A>, gaps: seq<nat>): seq<Event<A>>
    requires |args| >= 1 && |gaps| == |args| - 1
    decreases |args|
  {
    if |args| == 1 then [Call(args[0])]
    else [Call(args[0]), Elapse(gaps[0])] + Burst(args[1..], gaps[1..])
  }

  /** While the calls of a burst keep coming less than `wait` apart nothing
      runs, and afterwards exactly one timeout is pending: `wait` after the
      last call, with the last call's arguments. */
  lemma {:induction false} BurstPending<A>(s: Debouncer<A>, args: seq<A>, gaps: seq<nat>)
    requires |args| >= 1 && |gaps| == |args| - 1
    requires AllBelow(gaps, s.wait)
    ensures var s' := Run(s, Burst(args, gaps));
      && s'.fired == s.fired
      && s'.now == s.now + Sum(gaps)
      && s'.pending == Some(Pending(s.now + Sum(gaps) + s.wait, args[|args| - 1]))
    decreases |args|
  {
    var ev := Burst(args, gaps);
    if |args| == 1 {
      assert Run(s, ev) == Step(s, Call(args[0]));
    } else {
      var s1 := Step(s, Call(args[0]));
      var s2 := Step(s1, Elapse(gaps[0]));
      assert s2.fired == s.fired && s2.now == s.now + gaps[0] && s2.wait == s.wait;
      BurstPending(s2, args[1..], gaps[1..]);
      assert ev[0] == Call(args[0]) && ev[1] == Elapse(gaps[0]);
      assert ev[1..][1..] == Burst(args[1..], gaps[1..]);
      assert Run(s, ev) == Run(s2, Burst(args[1..], gaps[1..]));
    }
  }

  /** Once the slot holds a timeout due `wait` from now, letting `wait`
      pass runs `func` exactly once, at that time with those arguments, and
      empties the slot. */
  lemma QuietFires<A>(s: Debouncer<A>, last: A)
    requires s.pending == Some(Pending(s.now + s.wait, last))
    ensures Step(s, Elapse(s.wait)).fired == s.fired + [Firing(s.now + s.wait, last)]
    ensures Step(s, Elapse(s.wait)).pending.None?
  {
  }

  /** The debounce promise: a burst of calls less than `wait` apart,
      followed by `wait` of quiet, runs `func` exactly once, `wait` after the
      last call, with the last call's arguments. */
  lemma OncePerBurst<A>(s: Debouncer<A>, args: seq<A>, gaps: seq<nat>)
    requires |args| >= 1 && |gaps| == |args| - 1
    requires AllBelow(gaps, s.wait)
    ensures var after := Run(s, Burst(args, gaps));
      && after.fired == s.fired
      && Step(after, Elapse(s.wait)).fired
         == s.fired + [Firing(s.now + Sum(gaps) + s.wait, args[|args| - 1])]
      && Step(after, Elapse(s.wait)).pending.None?
  {
    BurstPending(s, args, gaps);
    var last := args[|args| - 1];
    var after := Run(s, Burst(args, gaps));
    assert after.wait == s.wait;
    assert after.pending == Some(Pending(after.now + after.wait, last));
    QuietFires(after, last);
  }
}
