/**
 * `useDebounce(value, delay)`: a mirror of a watched value that takes each
 * new value only after `delay` milliseconds without a further change. The
 * timer is one variable that every change cancels and re-arms; time is an
 * explicit clock that only `Advance` moves.
 */
module Debounce {
  import opened Optional

  /** A scheduled update: when it fires and the value it will write. */
  datatype Timer<T> = Timer(deadline: nat, value: T)

  /**
   * `source` is the watched value as the watcher last saw it, `pending` the
   * one timer (at most one exists), `debounced` the value handed out.
   */
  datatype DebounceState<T> = DebounceState(delay: nat, now: nat, source: T, pending: Option<Timer<T>>, debounced: T)

  /** Right after `useDebounce`: the output starts equal to the source and nothing is scheduled. */
  function Start<T>(initial: T, delay: nat): DebounceState<T> {
    DebounceState(delay, 0, initial, None, initial)
  }

  /** The watcher's callback for a new value `v`: cancel the pending timer and arm one that carries `v`. */
  function OnChange<T>(s: DebounceState<T>, v: T): DebounceState<T> {
    s.(source := v, pending := Some(Timer(s.now + s.delay, v)))
  }

  /** `dt` milliseconds pass; a timer whose deadline is reached fires and writes the value it carries. */
  function OnAdvance<T>(s: DebounceState<T>, dt: nat): DebounceState<T> {
    var t := s.now + dt;
    match s.pending
    case Some(timer) =>
      if timer.deadline <= t then s.(now := t, pending := None, debounced := timer.value) else s.(now := t)
    case None => s.(now := t)
  }

  /**
   * The invariant: with nothing pending the output equals the source;
   * otherwise the pending timer carries the source and fires within
   * `delay` from now.
   */
  ghost predicate Valid<T>(s: DebounceState<T>) {
    match s.pending
    case None => s.debounced == s.source
    case Some(timer) => timer.value == s.source && s.now <= timer.deadline <= s.now + s.delay
  }

  // ---------------------------------------------------------------------
  // Runs: sequences of changes and elapsed time
  // ---------------------------------------------------------------------

  datatype Event<T> = Changed(value: T) | Elapsed(dt: nat)

  function Step<T>(s: DebounceState<T>, e: Event<T>): DebounceState<T> {
    match e
    case Changed(v) => OnChange(s, v)
    case Elapsed(dt) => OnAdvance(s, dt)
  }

  function Run<T>(s: DebounceState<T>, events: seq<Event<T>>): DebounceState<T>
    decreases |events|
  {
    if events == [] then s else Run(Step(s, events[0]), events[1..])
  }

  /** The value written to the output by one event, if any. */
  function Fired<T>(s: DebounceState<T>, e: Event<T>): seq<T> {
    match e
    case Changed(_) => []
    case Elapsed(dt) =>
      if s.pending.Some? && s.pending.value.deadline <= s.now + dt then [s.pending.value.value] else []
  }

  /** Every value written to the output during a run, in order. */
  function Published<T>(s: DebounceState<T>, events: seq<Event<T>>): seq<T>
    decreases |events|
  {
    if events == [] then [] else Fired(s, events[0]) + Published(Step(s, events[0]), events[1..])
  }

  ghost function ChangedValues<T>(events: seq<Event<T>>): set<T> {
    set i | 0 <= i < |events| && events[i].Changed? :: events[i].value
  }

  function TotalElapsed<T>(events: seq<Event<T>>): nat
    decreases |events|
  {
    if events == [] then 0
    else (if events[0].Elapsed? then events[0].dt else 0) + TotalElapsed(events[1..])
  }

  /** A burst: for each step, wait `step.0` milliseconds, then change the value to `step.1`. */
  function BurstEvents<T>(steps: seq<(nat, T)>): seq<Event<T>>
    decreases |steps|
  {
    if steps == [] then [] else [Elapsed(steps[0].0), Changed(steps[0].1)] + BurstEvents(steps[1..])
  }

  // ---------------------------------------------------------------------
  // Properties
  // ---------------------------------------------------------------------

  lemma {:induction false} RunAppend<T>(s: DebounceState<T>, a: seq<Event<T>>, b: seq<Event<T>>)
    ensures Run(s, a + b) == Run(Run(s, a), b)
    ensures Published(s, a + b) == Published(s, a) + Published(Run(s, a), b)
    decreases |a|
  {
    if a == [] {
      assert a + b == b;
    } else {
      assert (a + b)[0] == a[0];
      assert (a + b)[1..] == a[1..] + b;
      RunAppend(Step(s, a[0]), a[1..], b);
    }
  }

  /** Every change and every tick keeps the invariant. */
  lemma {:induction false} RunKeepsValid<T>(s: DebounceState<T>, events: seq<Event<T>>)
    requires Valid(s)
    ensures Valid(Run(s, events))
    decreases |events|
  {
    if events != [] {
      RunKeepsValid(Step(s, events[0]), events[1..]);
    }
  }

  /** The output at the end of a run is the last value published, or the starting output if nothing was. */
  lemma {:induction false} OutputIsLastPublished<T>(s: DebounceState<T>, events: seq<Event<T>>)
    ensures var p := Published(s, events);
      Run(s, events).debounced == if p == [] then s.debounced else p[|p| - 1]
    decreases |events|
  {
    if events != [] {
      OutputIsLastPublished(Step(s, events[0]), events[1..]);
    }
  }

  /**
   * Only a change schedules an update: every value a run publishes was
   * carried by a change in the run, or by the timer pending when it began.
   */
  lemma {:induction false} PublishedValuesWereChanges<T>(s: DebounceState<T>, events: seq<Event<T>>)
    ensures forall v :: v in Published(s, events) ==>
      v in ChangedValues(events) || (s.pending.Some? && v == s.pending.value.value)
    decreases |events|
  {
    if events != [] {
      var s' := Step(s, events[0]);
      PublishedValuesWereChanges(s', events[1..]);
      assert ChangedValues(events[1..]) <= ChangedValues(events) by {
        forall v | v in ChangedValues(events[1..]) ensures v in ChangedValues(events) {
          var i :| 0 <= i < |events[1..]| && events[1..][i].Changed? && events[1..][i].value == v;
          assert events[i + 1] == events[1..][i];
        }
      }
      if events[0].Changed? {
        assert events[0].value in ChangedValues(events);
      }
    }
  }

  /** With nothing pending and no change, time passing never alters the output. */
  lemma {:induction false} NoChangeNoUpdate<T>(s: DebounceState<T>, events: seq<Event<T>>)
    requires s.pending.None?
    requires forall i :: 0 <= i < |events| ==> events[i].Elapsed?
    ensures Published(s, events) == []
    ensures Run(s, events).debounced == s.debounced && Run(s, events).pending.None?
    decreases |events|
  {
    if events != [] {
      NoChangeNoUpdate(Step(s, events[0]), events[1..]);
    }
  }

  /**
   * After a change and no further change, the output takes the changed
   * value exactly once, as soon as `delay` has passed in total, and not
   * before. Even with a delay of 0 the update waits for time to be let
   * pass: it never happens inside the change itself.
   */
  lemma {:induction false} QuietPeriodPublishes<T>(s: DebounceState<T>, v: T, waits: seq<Event<T>>)
    requires forall i :: 0 <= i < |waits| ==> waits[i].Elapsed?
    ensures Published(OnChange(s, v), waits) == if waits != [] && TotalElapsed(waits) >= s.delay then [v] else []
    ensures Run(OnChange(s, v), waits).debounced == if waits != [] && TotalElapsed(waits) >= s.delay then v else s.debounced
  {
    QuietFromPending(OnChange(s, v), waits);
    OutputIsLastPublished(OnChange(s, v), waits);
  }

  lemma {:induction false} QuietFromPending<T>(s: DebounceState<T>, waits: seq<Event<T>>)
    requires s.pending.Some?
    requires forall i :: 0 <= i < |waits| ==> waits[i].Elapsed?
    ensures Published(s, waits)
      == if waits != [] && s.now + TotalElapsed(waits) >= s.pending.value.deadline then [s.pending.value.value] else []
    decreases |waits|
  {
    if waits != [] {
      var s' := Step(s, waits[0]);
      if s'.pending.None? {
        NoChangeNoUpdate(s', waits[1..]);
      } else {
        QuietFromPending(s', waits[1..]);
      }
    }
  }

  /**
   * The output catches up with the source: from any state the invariant
   * allows, once `delay` has passed in total without a change, the output
   * equals the source.
   */
  lemma QuietCatchesUp<T>(s: DebounceState<T>, waits: seq<Event<T>>)
    requires Valid(s)
    requires forall i :: 0 <= i < |waits| ==> waits[i].Elapsed?
    requires waits != [] && TotalElapsed(waits) >= s.delay
    ensures Run(s, waits).debounced == s.source
  {
    if s.pending.Some? {
      QuietFromPending(s, waits);
      OutputIsLastPublished(s, waits);
    } else {
      NoChangeNoUpdate(s, waits);
    }
  }

  /**
   * A burst of changes closer together than `delay` publishes nothing while
   * it lasts, and leaves one timer that carries the burst's last value and
   * fires `delay` after the last change.
   */
  lemma {:induction false} BurstPublishesNothing<T>(s: DebounceState<T>, steps: seq<(nat, T)>)
    requires steps != []
    requires s.pending.None? || s.now + steps[0].0 < s.pending.value.deadline
    requires forall i :: 0 < i < |steps| ==> steps[i].0 < s.delay
    ensures Published(s, BurstEvents(steps)) == []
    ensures var t := Run(s, BurstEvents(steps));
      t.pending == Some(Timer(t.now + s.delay, steps[|steps| - 1].1)) && t.debounced == s.debounced && t.delay == s.delay
    decreases |steps|
  {
    var head := [Elapsed(steps[0].0), Changed(steps[0].1)];
    var waited := OnAdvance(s, steps[0].0);
    var s' := OnChange(waited, steps[0].1);
    assert Fired(s, head[0]) == [];
    assert Published(waited, head[1..]) == [] by {
      assert head[1..] == [Changed(steps[0].1)];
    }
    assert Run(s, head) == s' by {
      assert Step(s, head[0]) == waited;
      assert head[1..] == [Changed(steps[0].1)];
      assert Run(waited, head[1..]) == Run(s', []);
    }
    assert BurstEvents(steps) == head + BurstEvents(steps[1..]);
    RunAppend(s, head, BurstEvents(steps[1..]));
    if |steps| > 1 {
      assert steps[1].0 < s.delay;
      assert forall i :: 0 < i < |steps[1..]| ==> steps[1..][i].0 < s'.delay by {
        forall i | 0 < i < |steps[1..]| ensures steps[1..][i].0 < s'.delay {
          assert steps[1..][i] == steps[i + 1];
        }
      }
      BurstPublishesNothing(s', steps[1..]);
    } else {
      assert BurstEvents(steps[1..]) == [];
    }
  }

  /**
   * Changes spaced more closely than `delay` collapse into one update: the
   * output keeps its old value until `delay` after the last change, then
   * takes the last value, and no intermediate value is ever published.
   */
  lemma BurstCollapsesToLast<T>(s: DebounceState<T>, steps: seq<(nat, T)>, dt: nat)
    requires steps != []
    requires s.pending.None? || s.now + steps[0].0 < s.pending.value.deadline
    requires forall i :: 0 < i < |steps| ==> steps[i].0 < s.delay
    ensures Published(s, BurstEvents(steps) + [Elapsed(dt)]) == if dt >= s.delay then [steps[|steps| - 1].1] else []
    ensures Run(s, BurstEvents(steps) + [Elapsed(dt)]).debounced == if dt >= s.delay then steps[|steps| - 1].1 else s.debounced
  {
    BurstPublishesNothing(s, steps);
    RunAppend(s, BurstEvents(steps), [Elapsed(dt)]);
    OutputIsLastPublished(s, BurstEvents(steps) + [Elapsed(dt)]);
  }

  /**
   * The scenario of the "clear previous timeout" test: with a delay of 500,
   * "b" then "c" 300 later; at 600 the output is still "a" because the
   * timer for "b" was cancelled, and at 800 it is "c".
   */
  lemma CancelledTimerNeverFires()
    ensures Run(Start("a", 500), [Changed("b"), Elapsed(300), Changed("c"), Elapsed(300)]).debounced == "a"
    ensures Published(Start("a", 500), [Changed("b"), Elapsed(300), Changed("c"), Elapsed(300), Elapsed(200)]) == ["c"]
  {
  }

  /**
   * The debounced ref and the timer variable behind it. `Change` is the
   * watcher's callback for a new source value; `Advance` lets `dt`
   * milliseconds pass and runs a timer that comes due.
   */
  class Debouncer<T> {
    const delay: nat
    var now: nat
    var source: T
    var pending: Option<Timer<T>>
    var debounced: T

    function State(): DebounceState<T>
      reads this
    {
      DebounceState(delay, now, source, pending, debounced)
    }

    constructor (initial: T, delay: nat)
      ensures State() == Start(initial, delay) && Valid(State())
      ensures debounced == initial
    {
      this.delay := delay;
      now := 0;
      source := initial;
      pending := None;
      debounced := initial;
    }

    method Change(v: T)
      requires Valid(State())
      modifies this
      ensures State() == OnChange(old(State()), v) && Valid(State())
      ensures debounced == old(debounced)
      ensures pending == Some(Timer(now + delay, v))
    {
      source := v;
      // the earlier timer, if any, is dropped: only this one is armed
      pending := Some(Timer(now + delay, v));
    }

    method Advance(dt: nat)
      requires Valid(State())
      modifies this
      ensures State() == OnAdvance(old(State()), dt) && Valid(State())
      ensures now == old(now) + dt
      ensures old(pending).Some? && old(pending).value.deadline <= now ==> debounced == old(pending).value.value && pending.None?
      ensures !(old(pending).Some? && old(pending).value.deadline <= now) ==> debounced == old(debounced) && pending == old(pending)
    {
      now := now + dt;
      if pending.Some? && pending.value.deadline <= now {
        debounced := pending.value.value;
        pending := None;
      }
    }
  }
}
