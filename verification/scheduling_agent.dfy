/** `SchedulingAgent`'s two tools, which turn a prompt into a scheduler entry
    whose action asks the model for a response to the prompt and publishes
    that response on the message bus. The clock is read once per
    `DateTimeOffset.Now` in the source, so each reading is a parameter; the
    model's answer is a parameter too (`None` when the model call throws). */
module SchedulingAgent {
  import opened Wrappers
  import opened Chat
  import opened Scheduler

  /** The scheduled action: answer `prompt` and publish the answer. */
  datatype Job = Job(prompt: string)

  datatype ToolError = PromptNull | DateInPast | Rejected(reason: ScheduleError)

  /** Lifts a scheduler outcome into the tool's outcome. */
  function Lift(r: (Registry<Job>, Result<nat, ScheduleError>)): (t: (Registry<Job>, Result<nat, ToolError>))
    ensures t.0 == r.0
    ensures r.1.Ok? <==> t.1.Ok?
    ensures r.1.Ok? ==> t.1.value == r.1.value
    ensures r.1.Err? ==> t.1 == Err(Rejected(r.1.error))
  {
    match r.1
    case Ok(h) => (r.0, Ok(h))
    case Err(e) => (r.0, Err(Rejected(e)))
  }

  /** `SchedulePrompt(prompt, dateTime)`: a null prompt is rejected first;
      then a `dateTime` earlier than the first clock reading `nowCheck`;
      otherwise one one-shot entry is scheduled with the delay from the
      second clock reading `nowDelay` to `dateTime`. */
  function SchedulePrompt(reg: Registry<Job>, prompt: Option<string>, dateTime: int, nowCheck: int, nowDelay: int)
    : (r: (Registry<Job>, Result<nat, ToolError>))
    requires Valid(reg)
    ensures prompt.None? ==> r == (reg, Err(PromptNull))
    ensures prompt.Some? && dateTime < nowCheck ==> r == (reg, Err(DateInPast))
    ensures r.1.Err? ==> r.0 == reg
    ensures r.1.Ok? <==> prompt.Some? && nowCheck <= dateTime && nowDelay <= dateTime
    ensures Valid(r.0)
    ensures r.1.Ok? ==>
      var h := r.1.value;
      && h !in reg.entries
      && r.0.entries.Keys == reg.entries.Keys + {h}
      && r.0.entries[h] == Entry(Job(prompt.value), dateTime - nowDelay, false, Some(dateTime), 0)
      && (forall g :: g in reg.entries ==> r.0.entries[g] == reg.entries[g])
  {
    if prompt.None? then (reg, Err(PromptNull))
    else if dateTime < nowCheck then (reg, Err(DateInPast))
    else Lift(Schedule(reg, Some(Job(prompt.value)), dateTime - nowDelay, false, nowDelay))
  }

  /** `ScheduleRelativeTime(prompt, delay, recurring)`: a null prompt is
      rejected; otherwise the delay and the recurring flag go to the scheduler
      unchanged, and only the scheduler rejects a negative delay. */
  function ScheduleRelativeTime(reg: Registry<Job>, prompt: Option<string>, delay: int, recurring: bool, now: int)
    : (r: (Registry<Job>, Result<nat, ToolError>))
    requires Valid(reg)
    ensures prompt.None? ==> r == (reg, Err(PromptNull))
    ensures r.1.Err? ==> r.0 == reg
    ensures prompt.Some? && delay < 0 ==> r == (reg, Err(Rejected(DelayNegative)))
    ensures r.1.Ok? <==> prompt.Some? && delay >= 0
    ensures Valid(r.0)
    ensures r.1.Ok? ==>
      var h := r.1.value;
      && h !in reg.entries
      && r.0.entries.Keys == reg.entries.Keys + {h}
      && r.0.entries[h] == Entry(Job(prompt.value), delay, recurring, Some(now + delay), 0)
      && (forall g :: g in reg.entries ==> r.0.entries[g] == reg.entries[g])
  {
    if prompt.None? then (reg, Err(PromptNull))
    else Lift(Schedule(reg, Some(Job(prompt.value)), delay, recurring, now))
  }

  /** `SchedulePrompt` is `ScheduleRelativeTime` with the computed delay and
      no recurrence, once the past check has passed. */
  lemma SchedulePromptIsRelative(reg: Registry<Job>, prompt: Option<string>, dateTime: int, nowCheck: int, nowDelay: int)
    requires Valid(reg)
    requires nowCheck <= dateTime
    ensures SchedulePrompt(reg, prompt, dateTime, nowCheck, nowDelay)
         == ScheduleRelativeTime(reg, prompt, dateTime - nowDelay, false, nowDelay)
  {
  }

  /** The two clock readings race: when time passes `dateTime` between the
      past check and the delay computation, the check lets the call through
      and the scheduler rejects the negative delay; nothing is scheduled. */
  lemma ClockRace(reg: Registry<Job>, prompt: string, dateTime: int, nowCheck: int, nowDelay: int)
    requires Valid(reg)
    requires nowCheck <= dateTime < nowDelay
    ensures SchedulePrompt(reg, Some(prompt), dateTime, nowCheck, nowDelay) == (reg, Err(Rejected(DelayNegative)))
  {
  }

  /** The action of a job: the model's answer to the prompt (`None` when the
      call throws) is published on the bus, one notification per answer. */
  function RunJob(bus: seq<seq<Msg>>, job: Job, answer: string -> Option<seq<Msg>>): (r: (seq<seq<Msg>>, bool))
    ensures answer(job.prompt).Some? ==> r == (bus + [answer(job.prompt).value], false)
    ensures answer(job.prompt).None? ==> r == (bus, true)
  {
    match answer(job.prompt)
    case Some(response) => (bus + [response], false)
    case None => (bus, true)
  }

  /** One firing of entry `h` at `now`: the callback starts, runs the job,
      and the scheduler's `finally` block decides about the entry. Returns
      the registry, the bus, and whether an exception escapes. */
  function FireEntry(reg: Registry<Job>, bus: seq<seq<Msg>>, h: nat, now: int, answer: string -> Option<seq<Msg>>)
    : (r: (Registry<Job>, seq<seq<Msg>>, bool))
    requires Valid(reg) && CanBegin(reg, h, now)
    ensures Valid(r.0)
    ensures var p := reg.entries[h].action.prompt;
      && (answer(p).Some? ==> r.1 == bus + [answer(p).value] && !r.2)
      && (answer(p).None? ==> r.1 == bus && r.2)
    ensures !reg.entries[h].recurring ==> r.0.entries == reg.entries - {h}
    ensures reg.entries[h].recurring ==> h in r.0.entries && r.0.entries.Keys == reg.entries.Keys
  {
    var running := Begin(reg, h, now);
    var (bus', threw) := RunJob(bus, running.entries[h].action, answer);
    var (reg', escaped) := Finish(running, h, threw);
    assert !reg.entries[h].recurring ==> reg'.entries == reg.entries - {h} by {
      assert running.entries - {h} == reg.entries - {h};
    }
    (reg', bus', escaped)
  }

  /** Scheduling a prompt for a time in the future and firing the entry it
      creates publishes exactly the model's one answer to that prompt and
      leaves the registry as it was before the call. */
  lemma ScheduledPromptPublishesOnce(reg: Registry<Job>, bus: seq<seq<Msg>>, prompt: string, dateTime: int,
                                     nowCheck: int, nowDelay: int, now: int, answer: string -> Option<seq<Msg>>)
    requires Valid(reg)
    requires nowCheck <= dateTime && nowDelay <= dateTime <= now
    requires answer(prompt).Some?
    ensures var s := SchedulePrompt(reg, Some(prompt), dateTime, nowCheck, nowDelay);
      && s.1.Ok?
      && CanBegin(s.0, s.1.value, now)
      && var f := FireEntry(s.0, bus, s.1.value, now, answer);
      && f.1 == bus + [answer(prompt).value]
      && |f.1| == |bus| + 1
      && f.0.entries == reg.entries
  {
    var s := SchedulePrompt(reg, Some(prompt), dateTime, nowCheck, nowDelay);
    var h := s.1.value;
    assert s.0.entries - {h} == reg.entries;
  }
}
