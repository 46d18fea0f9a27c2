/** `Scheduler`: deferred actions kept alive in a registry of timers. Each
    `Schedule` call validates its arguments, arms a timer that first fires
    after `delay` and then every `delay` if recurring, and registers it. When
    a one-shot timer fires, the action runs and then, even if it threw, the
    timer is disposed and unregistered.

    Time is an integer tick count. A firing is split into two transitions,
    `Begin` (the timer callback starts running the action) and `Finish` (the
    action has returned or thrown, and the `finally` block runs). The timer
    does not wait for a running callback: a recurring timer whose action
    outlasts the period starts the next callback alongside it. An exception
    that leaves a callback is unhandled on the thread pool and ends the
    process. */
module Scheduler {
  import opened Wrappers

  /** A registered timer: the action, delay and recurrence it was scheduled
      with, when it fires next (`None` once it never fires again), and how
      many of its callbacks are running. */
  datatype Entry<A> = Entry(action: A, delay: nat, recurring: bool, due: Option<int>, running: nat)

  /** The `timers` dictionary, keyed by a handle standing for the `Timer`
      object; `next` is the handle the next timer gets. */
  datatype Registry<A> = Registry(entries: map<nat, Entry<A>>, next: nat)

  /** Every registered handle was handed out before. */
  predicate Valid<A>(reg: Registry<A>) {
    forall h :: h in reg.entries ==> h < reg.next
  }

  function Empty<A>(): (reg: Registry<A>)
    ensures Valid(reg) && reg.entries == map[]
  {
    Registry(map[], 0)
  }

  /** The timer's period: the delay for a recurring entry, and none (an
      infinite period) for a one-shot one. A period of zero disables periodic
      signalling as well, so a recurring entry with zero delay fires once. */
  function Period<A>(e: Entry<A>): (p: Option<nat>)
    ensures !e.recurring ==> p.None?
    ensures p.Some? ==> p.value > 0 && p.value == e.delay
    ensures e.recurring && e.delay > 0 ==> p == Some(e.delay)
  {
    if e.recurring && e.delay > 0 then Some(e.delay) else None
  }

  datatype ScheduleError = ActionNull | DelayNegative

  /** `Schedule(action, delay, recurring)` at time `now`: a null action, then a
      negative delay, is rejected and nothing is registered; otherwise one new
      timer is registered, armed to fire `delay` ticks from now. */
  function Schedule<A>(reg: Registry<A>, action: Option<A>, delay: int, recurring: bool, now: int)
    : (r: (Registry<A>, Result<nat, ScheduleError>))
    requires Valid(reg)
    ensures action.None? ==> r == (reg, Err(ActionNull))
    ensures action.Some? && delay < 0 ==> r == (reg, Err(DelayNegative))
    ensures r.1.Ok? <==> action.Some? && delay >= 0
    ensures Valid(r.0)
    ensures r.1.Ok? ==>
      var h := r.1.value;
      && h !in reg.entries
      && r.0.entries.Keys == reg.entries.Keys + {h}
      && r.0.entries[h] == Entry(action.value, delay, recurring, Some(now + delay), 0)
      && (forall g :: g in reg.entries ==> r.0.entries[g] == reg.entries[g])
  {
    if action.None? then (reg, Err(ActionNull))
    else if delay < 0 then (reg, Err(DelayNegative))
    else
      var h := reg.next;
      (Registry(reg.entries[h := Entry(action.value, delay, recurring, Some(now + delay), 0)], reg.next + 1), Ok(h))
  }

  /** The timer of `h` fires at `now`. */
  predicate CanBegin<A>(reg: Registry<A>, h: nat, now: int) {
    h in reg.entries && reg.entries[h].due.Some? && reg.entries[h].due.value <= now
  }

  /** The timer fires: one more callback starts running the action, whether
      or not earlier ones are still running, and the timer is next due one
      period after this firing, or never when it has no period. The entry
      stays registered. */
  function Begin<A>(reg: Registry<A>, h: nat, now: int): (r: Registry<A>)
    requires CanBegin(reg, h, now)
    ensures r.next == reg.next && r.entries.Keys == reg.entries.Keys
    ensures var e := reg.entries[h];
      && r.entries[h].action == e.action && r.entries[h].delay == e.delay
      && r.entries[h].recurring == e.recurring
      && r.entries[h].running == e.running + 1
      && (Period(e).None? ==> r.entries[h].due.None?)
      && (Period(e).Some? ==> r.entries[h].due == Some(e.due.value + e.delay))
    ensures forall g :: g in reg.entries && g != h ==> r.entries[g] == reg.entries[g]
  {
    var e := reg.entries[h];
    var due := match Period(e) case Some(p) => Some(e.due.value + p) case None => None;
    reg.(entries := reg.entries[h := e.(due := due, running := e.running + 1)])
  }

  predicate CanFinish<A>(reg: Registry<A>, h: nat) {
    h in reg.entries && reg.entries[h].running > 0
  }

  /** A running action has returned (or thrown, `threw`), and the `finally`
      block runs: a one-shot timer is disposed and unregistered; a recurring
      one stays as it is, with one callback fewer running. An exception
      escapes the callback after this. Returns the new registry and whether
      an exception escapes. */
  function Finish<A>(reg: Registry<A>, h: nat, threw: bool): (r: (Registry<A>, bool))
    requires CanFinish(reg, h)
    ensures r.1 == threw
    ensures r.0.next == reg.next
    ensures !reg.entries[h].recurring ==> r.0.entries == reg.entries - {h}
    ensures reg.entries[h].recurring ==>
      && r.0.entries.Keys == reg.entries.Keys
      && r.0.entries[h].running == reg.entries[h].running - 1
      && r.0.entries[h] == reg.entries[h].(running := r.0.entries[h].running)
    ensures forall g :: g in reg.entries && g != h ==> g in r.0.entries && r.0.entries[g] == reg.entries[g]
  {
    var e := reg.entries[h];
    if !e.recurring then (reg.(entries := reg.entries - {h}), threw)
    else (reg.(entries := reg.entries[h := e.(running := e.running - 1)]), threw)
  }

  /** What can happen to the registry: a `Schedule` call, a timer firing, or
      a running callback ending. */
  datatype Event<A> =
    | Add(action: Option<A>, delay: int, recurring: bool, now: int)
    | Fire(h: nat, now: int)
    | Complete(h: nat, threw: bool)

  /** Applies one event; an event that cannot happen (a timer that is not due,
      a callback that is not running) changes nothing. Returns the registry
      and whether an exception escaped a callback, which ends the process. */
  function Apply<A>(reg: Registry<A>, e: Event<A>): (r: (Registry<A>, bool))
    requires Valid(reg)
    ensures Valid(r.0)
    ensures r.0.next >= reg.next
    ensures r.1 <==> e.Complete? && e.threw && CanFinish(reg, e.h)
  {
    match e
    case Add(action, delay, recurring, now) => (Schedule(reg, action, delay, recurring, now).0, false)
    case Fire(h, now) => (if CanBegin(reg, h, now) then Begin(reg, h, now) else reg, false)
    case Complete(h, threw) => if CanFinish(reg, h) then Finish(reg, h, threw) else (reg, false)
  }

  /** Applies the events in order until one ends the process. Returns the
      last registry and whether the process ended. */
  function Run<A>(reg: Registry<A>, events: seq<Event<A>>): (r: (Registry<A>, bool))
    requires Valid(reg)
    ensures Valid(r.0)
    decreases |events|
  {
    if |events| == 0 then (reg, false)
    else
      var (reg', ended) := Apply(reg, events[0]);
      if ended then (reg', true) else Run(reg', events[1..])
  }

  /** How many times the action of `h` starts running along `events`, while
      the process lives. */
  function Starts<A>(reg: Registry<A>, events: seq<Event<A>>, h: nat): nat
    requires Valid(reg)
    decreases |events|
  {
    if |events| == 0 then 0
    else
      (if events[0].Fire? && events[0].h == h && CanBegin(reg, h, events[0].now) then 1 else 0)
      + (if Apply(reg, events[0]).1 then 0 else Starts(Apply(reg, events[0]).0, events[1..], h))
  }

  /** How many more times a one-shot timer can still start: once while it
      is due to fire, never once it has fired or is gone. */
  function Remaining<A>(reg: Registry<A>, h: nat): nat {
    if h in reg.entries && reg.entries[h].due.Some? then 1 else 0
  }

  /** A one-shot entry is either gone for good (its handle is never reused)
      or still one-shot. */
  predicate OneShotOrGone<A>(reg: Registry<A>, h: nat) {
    h < reg.next && (h in reg.entries ==> !reg.entries[h].recurring)
  }

  lemma {:induction false} OneShotStartsAtMostRemaining<A>(reg: Registry<A>, events: seq<Event<A>>, h: nat)
    requires Valid(reg) && OneShotOrGone(reg, h)
    ensures Starts(reg, events, h) <= Remaining(reg, h)
    decreases |events|
  {
    if |events| > 0 {
      var reg' := Apply(reg, events[0]).0;
      assert OneShotOrGone(reg', h);
      OneShotStartsAtMostRemaining(reg', events[1..], h);
      if events[0].Fire? && events[0].h == h && CanBegin(reg, h, events[0].now) {
        assert reg'.entries[h].due.None?;
      } else {
        assert Remaining(reg', h) <= Remaining(reg, h);
      }
    }
  }

  /** A one-shot timer runs its action at most once, whatever happens. */
  lemma OneShotFiresAtMostOnce<A>(reg: Registry<A>, events: seq<Event<A>>, h: nat)
    requires Valid(reg) && h in reg.entries && !reg.entries[h].recurring
    ensures Starts(reg, events, h) <= 1
  {
    OneShotStartsAtMostRemaining(reg, events, h);
  }

  /** A one-shot timer is gone once its callback has ended, whether or not
      the action threw, and every other entry is untouched. */
  lemma OneShotRemovedAfterFiring<A>(reg: Registry<A>, h: nat, now: int, threw: bool)
    requires Valid(reg) && CanBegin(reg, h, now) && !reg.entries[h].recurring
    ensures var running := Begin(reg, h, now);
      && h in running.entries
      && CanFinish(running, h)
      && h !in Finish(running, h, threw).0.entries
      && Finish(running, h, threw).0.entries == reg.entries - {h}
  {
    var running := Begin(reg, h, now);
    assert running.entries - {h} == reg.entries - {h};
  }

  /** A recurring timer is never removed, whatever happens. */
  lemma {:induction false} RecurringNeverRemoved<A>(reg: Registry<A>, events: seq<Event<A>>, h: nat)
    requires Valid(reg) && h in reg.entries && reg.entries[h].recurring
    ensures h in Run(reg, events).0.entries
    ensures Run(reg, events).0.entries[h].recurring
    ensures Run(reg, events).0.entries[h].action == reg.entries[h].action
    ensures Run(reg, events).0.entries[h].delay == reg.entries[h].delay
    decreases |events|
  {
    if |events| > 0 {
      RecurringNeverRemoved(Apply(reg, events[0]).0, events[1..], h);
    }
  }

  /** A recurring timer fires again one period after a firing even while
      that firing's callback is still running: two callbacks then run the
      action at once. */
  lemma RecurringOverlaps<A>(reg: Registry<A>, h: nat, now: int)
    requires Valid(reg) && CanBegin(reg, h, now)
    requires reg.entries[h].recurring && reg.entries[h].delay > 0
    ensures var first := Begin(reg, h, now);
      && CanBegin(first, h, now + reg.entries[h].delay)
      && Begin(first, h, now + reg.entries[h].delay).entries[h].running == reg.entries[h].running + 2
    ensures Starts(reg, [Fire(h, now), Fire(h, now + reg.entries[h].delay)], h) == 2
  {
    var d := reg.entries[h].delay;
    var events: seq<Event<A>> := [Fire(h, now), Fire(h, now + d)];
    var first := Begin(reg, h, now);
    var second := Begin(first, h, now + d);
    assert events[1..] == [Fire(h, now + d)];
    assert events[1..][1..] == [];
    assert Apply(first, events[1]) == (second, false);
    assert Starts(first, events[1..], h) == 1 + Starts(second, [], h);
    assert Apply(reg, events[0]) == (first, false);
  }

  /** An exception escaping a callback ends the process: the `finally` block
      has run, and nothing after it happens. */
  lemma EscapeEndsProcess<A>(reg: Registry<A>, h: nat, rest: seq<Event<A>>, g: nat)
    requires Valid(reg) && CanFinish(reg, h)
    ensures Run(reg, [Complete(h, true)] + rest) == (Finish(reg, h, true).0, true)
    ensures Starts(reg, [Complete(h, true)] + rest, g) == 0
  {
    assert ([Complete(h, true)] + rest)[0] == Complete(h, true);
  }
}
