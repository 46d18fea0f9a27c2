/** `AgentCoordinator`: a model turns the conversation into a plan of steps,
    each naming an agent and the steps whose output it needs; every step then
    runs as soon as its dependencies have produced their responses, and the
    final response joins the step outputs in plan order.

    The source runs one task per step, and each task waits on the completion
    sources of its dependencies. A step's result depends only on the results
    of its dependencies, so every interleaving reaches the same final state
    as the sequential evaluation modelled here: repeatedly start the first
    step whose dependencies are done, until none is. A step that can never
    start is a task that waits forever, and then `Task.WhenAll` never
    returns. */
module AgentCoordinator {
  import opened Wrappers
  import opened Seqs
  import opened Text
  import opened Chat
  import opened Agents

  /** `Step(Id, Agent, DependsOn)`; a null `DependsOn` is `None`. */
  datatype Step = Step(id: string, agent: string, dependsOn: Option<seq<string>>)

  /** The dependency ids a step waits on, in listed order. */
  function Deps(s: Step): (r: seq<string>)
    ensures s.dependsOn.None? ==> r == []
    ensures s.dependsOn.Some? ==> r == s.dependsOn.value
  {
    s.dependsOn.GetOr([])
  }

  function Ids(plan: seq<Step>): (r: seq<string>)
    ensures |r| == |plan|
    ensures forall i :: 0 <= i < |plan| ==> r[i] == plan[i].id
  {
    seq(|plan|, i requires 0 <= i < |plan| => plan[i].id)
  }

  predicate UniqueIds(plan: seq<Step>) {
    forall i, j :: 0 <= i < j < |plan| ==> plan[i].id != plan[j].id
  }

  /** The position of the step with the given id (the first one). */
  function Find(plan: seq<Step>, id: string): (r: Option<nat>)
    ensures r.Some? ==> r.value < |plan| && plan[r.value].id == id
    ensures r.Some? ==> forall k :: 0 <= k < r.value ==> plan[k].id != id
    ensures r.None? ==> forall k :: 0 <= k < |plan| ==> plan[k].id != id
    decreases |plan|
  {
    if |plan| == 0 then None
    else if plan[0].id == id then Some(0)
    else match Find(plan[1..], id)
      case None => None
      case Some(k) => Some(k + 1)
  }

  /** How far a step has got: waiting (its task is blocked or not yet run),
      done with the agent's response, or failed because its agent is not
      registered (the task throws and its completion is never set). */
  datatype Status = Pending | Done(output: seq<Msg>) | Failed

  /** The position of the plan step that dependency `d` names, if any. */
  predicate InPlanDep(plan: seq<Step>, i: nat, j: nat)
    requires i < |plan|
  {
    exists d :: d in Deps(plan[i]) && Find(plan, d) == Some(j)
  }

  /** The outputs of the listed dependencies, in listed order; an id that
      names no step contributes nothing (`TryGetValue` fails and the
      dependency is skipped). */
  function Gathered(plan: seq<Step>, st: seq<Status>, ds: seq<string>): (r: seq<Msg>)
    requires |st| == |plan|
    decreases |ds|
  {
    if |ds| == 0 then []
    else
      (match Find(plan, ds[0])
       case Some(j) => if st[j].Done? then st[j].output else []
       case None => [])
      + Gathered(plan, st, ds[1..])
  }

  /** Gathering distributes over the dependency list. */
  lemma {:induction false} GatheredAppend(plan: seq<Step>, st: seq<Status>, a: seq<string>, b: seq<string>)
    requires |st| == |plan|
    ensures Gathered(plan, st, a + b) == Gathered(plan, st, a) + Gathered(plan, st, b)
    decreases |a|
  {
    if |a| == 0 {
      assert a + b == b;
    } else {
      assert (a + b)[0] == a[0];
      assert (a + b)[1..] == a[1..] + b;
      GatheredAppend(plan, st, a[1..], b);
    }
  }

  /** A dependency id that names no step is skipped wherever it is listed. */
  lemma UnknownDependencySkipped(plan: seq<Step>, st: seq<Status>, a: seq<string>, d: string, b: seq<string>)
    requires |st| == |plan|
    requires Find(plan, d).None?
    ensures Gathered(plan, st, a + [d] + b) == Gathered(plan, st, a + b)
  {
    var ga := Gathered(plan, st, a);
    assert Gathered(plan, st, a + [d]) == ga by {
      GatheredAppend(plan, st, a, [d]);
      GatheredUnknown(plan, st, d);
      assert ga + [] == ga;
    }
    GatheredAppend(plan, st, a + [d], b);
    GatheredAppend(plan, st, a, b);
  }

  lemma GatheredUnknown(plan: seq<Step>, st: seq<Status>, d: string)
    requires |st| == |plan|
    requires Find(plan, d).None?
    ensures Gathered(plan, st, [d]) == []
  {
    assert [d][1..] == [];
  }

  /** Gathering reads only the statuses of the listed steps. */
  lemma {:induction false} GatheredFrame(plan: seq<Step>, st: seq<Status>, st': seq<Status>, ds: seq<string>)
    requires |st| == |plan| && |st'| == |plan|
    requires forall d :: d in ds && Find(plan, d).Some? ==> st'[Find(plan, d).value] == st[Find(plan, d).value]
    ensures Gathered(plan, st', ds) == Gathered(plan, st, ds)
    decreases |ds|
  {
    if |ds| > 0 {
      assert ds[0] in ds;
      assert forall d :: d in ds[1..] ==> d in ds;
      GatheredFrame(plan, st, st', ds[1..]);
    }
  }

  /** Every in-plan dependency of step `i` has produced its response. */
  predicate DepsDone(plan: seq<Step>, st: seq<Status>, i: nat)
    requires |st| == |plan| && i < |plan|
  {
    forall d :: d in Deps(plan[i]) && Find(plan, d).Some? ==> st[Find(plan, d).value].Done?
  }

  /** A waiting step whose dependencies are all done can start. */
  predicate Ready(plan: seq<Step>, st: seq<Status>, i: nat)
    requires |st| == |plan| && i < |plan|
  {
    st[i].Pending? && DepsDone(plan, st, i)
  }

  /** The messages a step's agent receives: the original conversation, then
      the outputs of its dependencies in listed order. */
  function Context(plan: seq<Step>, st: seq<Status>, history: seq<Msg>, i: nat): (r: seq<Msg>)
    requires |st| == |plan| && i < |plan|
    ensures |r| >= |history| && r[..|history|] == history
    ensures Deps(plan[i]) == [] ==> r == history
  {
    history + Gathered(plan, st, Deps(plan[i]))
  }

  /** Running a step: its agent answers the step's context, or the step fails
      when no agent has that name. */
  function Start(plan: seq<Step>, reg: Registry, history: seq<Msg>, st: seq<Status>, i: nat): (r: Status)
    requires |st| == |plan| && i < |plan|
    ensures r.Done? <==> plan[i].agent in reg
    ensures r.Done? ==> r.output == reg[plan[i].agent](Context(plan, st, history, i))
  {
    if plan[i].agent in reg then Done(reg[plan[i].agent](Context(plan, st, history, i))) else Failed
  }

  /** The first step that can start. */
  function FirstReady(plan: seq<Step>, st: seq<Status>, from: nat): (r: Option<nat>)
    requires |st| == |plan| && from <= |plan|
    ensures r.Some? ==> from <= r.value < |plan| && Ready(plan, st, r.value)
    ensures r.None? ==> forall i :: from <= i < |plan| ==> !Ready(plan, st, i)
    decreases |plan| - from
  {
    if from == |plan| then None
    else if Ready(plan, st, from) then Some(from)
    else FirstReady(plan, st, from + 1)
  }

  function PendingCount(st: seq<Status>): (r: nat)
    ensures r <= |st|
    ensures r == 0 ==> forall i :: 0 <= i < |st| ==> !st[i].Pending?
    decreases |st|
  {
    if |st| == 0 then 0 else (if st[0].Pending? then 1 else 0) + PendingCount(st[1..])
  }

  /** Starting a waiting step lowers the number of waiting steps. */
  lemma {:induction false} PendingCountDrops(st: seq<Status>, i: nat, s: Status)
    requires i < |st| && st[i].Pending? && !s.Pending?
    ensures PendingCount(st[i := s]) == PendingCount(st) - 1
    decreases |st|
  {
    if i > 0 {
      assert st[i := s][1..] == st[1..][i - 1 := s];
      PendingCountDrops(st[1..], i - 1, s);
    } else {
      assert st[i := s][1..] == st[1..];
    }
  }

  /** What holds at every point of an execution whose start order so far is
      `trace`:
      - the started steps are exactly the non-waiting ones, each started once;
      - every in-plan dependency of a started step was started before it and
        is done;
      - a started step holds the result of running it on the current state,
        so its dependents read the very response it stored. */
  ghost predicate Inv(plan: seq<Step>, reg: Registry, history: seq<Msg>, st: seq<Status>, trace: seq<nat>) {
    && |st| == |plan|
    && (forall k :: 0 <= k < |trace| ==> trace[k] < |plan|)
    && Distinct(trace)
    && (forall i :: 0 <= i < |plan| ==> (!st[i].Pending? <==> i in trace))
    && StartedAfterDeps(plan, trace)
    && (forall i :: 0 <= i < |plan| && !st[i].Pending? ==> DepsDone(plan, st, i))
    && (forall i :: 0 <= i < |plan| && !st[i].Pending? ==> st[i] == Start(plan, reg, history, st, i))
  }

  /** Every in-plan dependency of a started step started before it. */
  ghost predicate StartedAfterDeps(plan: seq<Step>, trace: seq<nat>) {
    && (forall k :: 0 <= k < |trace| ==> trace[k] < |plan|)
    && forall k :: 0 <= k < |trace| ==> DepsStartedBefore(plan, trace, k)
  }

  /** The in-plan dependencies of the `k`-th started step are among the
      steps started before it. */
  ghost predicate DepsStartedBefore(plan: seq<Step>, trace: seq<nat>, k: nat)
    requires k < |trace|
  {
    trace[k] < |plan| &&
    forall d :: d in Deps(plan[trace[k]]) && Find(plan, d).Some? ==> Find(plan, d).value in trace[..k]
  }

  /** Before anything runs: every step waits. */
  function Initial(plan: seq<Step>): (st: seq<Status>)
    ensures |st| == |plan|
    ensures forall i :: 0 <= i < |plan| ==> st[i] == Pending
  {
    seq(|plan|, i => Pending)
  }

  lemma InitialInv(plan: seq<Step>, reg: Registry, history: seq<Msg>)
    ensures Inv(plan, reg, history, Initial(plan), [])
  {
  }

  /** Starting a ready step keeps the invariant. */
  lemma StepKeepsInv(plan: seq<Step>, reg: Registry, history: seq<Msg>, st: seq<Status>, trace: seq<nat>, i: nat)
    requires Inv(plan, reg, history, st, trace)
    requires i < |plan| && Ready(plan, st, i)
    ensures Inv(plan, reg, history, st[i := Start(plan, reg, history, st, i)], trace + [i])
  {
    var s := Start(plan, reg, history, st, i);
    var st' := st[i := s];
    assert i !in trace;
    forall d | d in Deps(plan[i]) && Find(plan, d).Some? ensures Find(plan, d).value in trace {
      assert st[Find(plan, d).value].Done?;
    }
    forall j | 0 <= j < |plan| && j != i && !st[j].Pending?
      ensures DepsDone(plan, st', j) && st'[j] == Start(plan, reg, history, st', j)
    {
      StartedStays(plan, reg, history, st, i, s, j);
    }
    StartedStays(plan, reg, history, st, i, s, i);
    TraceExtends(plan, trace, i);
  }

  /** Starting the waiting step `i` changes neither whether the
      dependencies of a step `j` with done dependencies are done nor what
      running `j` gives. */
  lemma StartedStays(plan: seq<Step>, reg: Registry, history: seq<Msg>, st: seq<Status>, i: nat, s: Status, j: nat)
    requires |st| == |plan| && i < |plan| && j < |plan| && st[i].Pending?
    requires DepsDone(plan, st, j)
    ensures DepsDone(plan, st[i := s], j)
    ensures Start(plan, reg, history, st[i := s], j) == Start(plan, reg, history, st, j)
  {
    GatheredFrame(plan, st, st[i := s], Deps(plan[j]));
  }

  /** Appending a step that has not started and whose in-plan dependencies
      all have keeps the start order repetition-free and dependency-first. */
  lemma TraceExtends(plan: seq<Step>, trace: seq<nat>, i: nat)
    requires StartedAfterDeps(plan, trace) && Distinct(trace)
    requires i < |plan| && i !in trace
    requires forall d :: d in Deps(plan[i]) && Find(plan, d).Some? ==> Find(plan, d).value in trace
    ensures StartedAfterDeps(plan, trace + [i]) && Distinct(trace + [i])
  {
    var trace' := trace + [i];
    assert Distinct(trace') by {
      forall a, b | 0 <= a < b < |trace'| ensures trace'[a] != trace'[b] {
        if b == |trace| {
          assert trace[a] in trace;
        }
      }
    }
    forall k | 0 <= k < |trace'| ensures DepsStartedBefore(plan, trace', k) {
      if k < |trace| {
        assert trace'[..k] == trace[..k];
        assert DepsStartedBefore(plan, trace, k);
      } else {
        assert trace'[..k] == trace;
      }
    }
  }

  /** The sequential execution: start the first ready step until none is
      ready. Returns the final statuses and the order in which steps started. */
  function Drive(plan: seq<Step>, reg: Registry, history: seq<Msg>, st: seq<Status>, trace: seq<nat>): (r: (seq<Status>, seq<nat>))
    requires Inv(plan, reg, history, st, trace)
    ensures Inv(plan, reg, history, r.0, r.1)
    ensures forall i :: 0 <= i < |plan| ==> !Ready(plan, r.0, i)
    ensures forall i :: 0 <= i < |plan| && !st[i].Pending? ==> r.0[i] == st[i]
    ensures |trace| <= |r.1| && r.1[..|trace|] == trace
    decreases PendingCount(st)
  {
    match FirstReady(plan, st, 0)
    case None => (st, trace)
    case Some(i) =>
      var st' := st[i := Start(plan, reg, history, st, i)];
      StepKeepsInv(plan, reg, history, st, trace, i);
      PendingCountDrops(st, i, Start(plan, reg, history, st, i));
      var r := Drive(plan, reg, history, st', trace + [i]);
      DriveCarries(st, st', trace, i, r.0, r.1);
      r
  }

  /** What a later run keeps of an earlier state: the statuses of started
      steps and the start order so far. */
  lemma DriveCarries(st: seq<Status>, st': seq<Status>, trace: seq<nat>, i: nat, fin: seq<Status>, order: seq<nat>)
    requires i < |st| == |st'| == |fin| && st[i].Pending?
    requires forall j :: 0 <= j < |st| && j != i ==> st'[j] == st[j]
    requires forall j :: 0 <= j < |st| && !st'[j].Pending? ==> fin[j] == st'[j]
    requires |trace + [i]| <= |order| && order[..|trace + [i]|] == trace + [i]
    ensures forall j :: 0 <= j < |st| && !st[j].Pending? ==> fin[j] == st[j]
    ensures |trace| <= |order| && order[..|trace|] == trace
  {
    assert (trace + [i])[..|trace|] == trace;
    assert order[..|trace|] == order[..|trace + [i]|][..|trace|];
  }

  /** The statuses once no step can start. */
  function Final(plan: seq<Step>, reg: Registry, history: seq<Msg>): (st: seq<Status>)
    ensures |st| == |plan|
  {
    InitialInv(plan, reg, history);
    Drive(plan, reg, history, Initial(plan), []).0
  }

  /** The order in which the steps started. */
  function StartOrder(plan: seq<Step>, reg: Registry, history: seq<Msg>): seq<nat> {
    InitialInv(plan, reg, history);
    Drive(plan, reg, history, Initial(plan), []).1
  }

  lemma FinalFacts(plan: seq<Step>, reg: Registry, history: seq<Msg>)
    ensures Inv(plan, reg, history, Final(plan, reg, history), StartOrder(plan, reg, history))
    ensures forall i :: 0 <= i < |plan| ==> !Ready(plan, Final(plan, reg, history), i)
  {
    InitialInv(plan, reg, history);
  }

  /** A started step is done exactly when its agent is registered. */
  lemma FinalAgents(plan: seq<Step>, reg: Registry, history: seq<Msg>)
    ensures forall i :: 0 <= i < |plan| && Final(plan, reg, history)[i].Done? ==> plan[i].agent in reg
    ensures forall i :: 0 <= i < |plan| && Final(plan, reg, history)[i].Failed? ==> plan[i].agent !in reg
  {
    FinalFacts(plan, reg, history);
  }

  /** The dictionary of completions is built exactly when the ids are unique. */
  lemma UniqueIdsCheck(plan: seq<Step>)
    ensures FirstRepeat(Ids(plan), {}).None? <==> UniqueIds(plan)
  {
    if UniqueIds(plan) {
      forall i, j | 0 <= i < j < |plan| ensures Ids(plan)[i] != Ids(plan)[j] {
      }
    } else {
      var i, j :| 0 <= i < j < |plan| && plan[i].id == plan[j].id;
      assert Ids(plan)[i] == Ids(plan)[j];
    }
  }

  /** The first failed step, in plan order. */
  function FirstFailed(st: seq<Status>, from: nat): (r: Option<nat>)
    requires from <= |st|
    ensures r.Some? ==> (from <= r.value < |st| && st[r.value].Failed? &&
                         forall k :: from <= k < r.value ==> !st[k].Failed?)
    ensures r.None? ==> forall k :: from <= k < |st| ==> !st[k].Failed?
    decreases |st| - from
  {
    if from == |st| then None
    else if st[from].Failed? then Some(from)
    else FirstFailed(st, from + 1)
  }

  /** The final messages: the outputs of the steps that produced one, in plan
      order. */
  function Outputs(st: seq<Status>): (r: seq<Msg>)
    decreases |st|
  {
    if |st| == 0 then []
    else (if st[0].Done? then st[0].output else []) + Outputs(st[1..])
  }

  datatype Outcome =
    | Completed(messages: seq<Msg>)
    | DuplicateStepId(id: string)
    | AgentNotFound(step: string, agent: string)
    | Blocked

  /** Runs a plan: a repeated step id makes the completion dictionary throw
      before anything runs; a step that never starts keeps `Task.WhenAll`
      waiting forever; otherwise the first failed step's exception surfaces;
      otherwise the outputs are joined in plan order. */
  function Execute(plan: seq<Step>, reg: Registry, history: seq<Msg>): (r: Outcome)
    ensures !UniqueIds(plan) <==> r.DuplicateStepId?
    ensures r.Completed? ==> UniqueIds(plan) && forall i :: 0 <= i < |plan| ==> plan[i].agent in reg
    ensures r.AgentNotFound? ==>
      (exists i :: 0 <= i < |plan| && plan[i].id == r.step && plan[i].agent == r.agent) && r.agent !in reg
  {
    UniqueIdsCheck(plan);
    match FirstRepeat(Ids(plan), {})
    case Some(id) => DuplicateStepId(id)
    case None =>
      var st := Final(plan, reg, history);
      FinalAgents(plan, reg, history);
      if exists i :: 0 <= i < |plan| && st[i].Pending? then Blocked
      else match FirstFailed(st, 0)
        case Some(i) => AgentNotFound(plan[i].id, plan[i].agent)
        case None => Completed(Outputs(st))
  }

  /** A coordinator built from its agents and then given a plan: building
      the agent dictionary throws on a repeated name before any plan runs;
      otherwise the plan runs against that dictionary. */
  function Coordinate(agents: seq<AgentInfo>, plan: seq<Step>, history: seq<Msg>): (r: Result<Outcome, RegistryError>)
    ensures r.Err? <==> !Distinct(Names(agents))
    ensures r.Ok? && r.value.Completed? ==>
      forall i :: 0 <= i < |plan| ==> exists j :: 0 <= j < |agents| && agents[j].name == plan[i].agent
    ensures r.Ok? && r.value.AgentNotFound? ==> forall j :: 0 <= j < |agents| ==> agents[j].name != r.value.agent
  {
    match BuildRegistry(agents)
    case Err(e) => Err(e)
    case Ok(reg) => Ok(Execute(plan, reg, history))
  }

  // ---------------------------------------------------------------------
  // The reference meaning of an acyclic plan.

  /** `rank` witnesses that the dependencies are acyclic: every in-plan
      dependency has a smaller rank than its dependent. */
  predicate ValidRank(plan: seq<Step>, rank: seq<nat>) {
    && |rank| == |plan|
    && forall i, d :: 0 <= i < |plan| && d in Deps(plan[i]) && Find(plan, d).Some? ==>
         rank[Find(plan, d).value] < rank[i]
  }

  predicate AllRegistered(plan: seq<Step>, reg: Registry) {
    forall i :: 0 <= i < |plan| ==> plan[i].agent in reg
  }

  /** A step's response by recursion over the rank: its agent applied to the
      history followed by the reference responses of its dependencies. */
  function Reference(plan: seq<Step>, reg: Registry, history: seq<Msg>, rank: seq<nat>, i: nat): seq<Msg>
    requires ValidRank(plan, rank) && AllRegistered(plan, reg) && i < |plan|
    decreases rank[i], |Deps(plan[i])| + 1
  {
    reg[plan[i].agent](history + ReferenceGathered(plan, reg, history, rank, i, Deps(plan[i])))
  }

  function ReferenceGathered(plan: seq<Step>, reg: Registry, history: seq<Msg>, rank: seq<nat>, i: nat, ds: seq<string>): seq<Msg>
    requires ValidRank(plan, rank) && AllRegistered(plan, reg) && i < |plan|
    requires forall d :: d in ds ==> d in Deps(plan[i])
    decreases rank[i], |ds|
  {
    if |ds| == 0 then []
    else
      assert ds[0] in Deps(plan[i]);
      (match Find(plan, ds[0])
       case Some(j) => Reference(plan, reg, history, rank, j)
       case None => [])
      + ReferenceGathered(plan, reg, history, rank, i, ds[1..])
  }

  /** The reference responses joined in plan order. */
  function ReferenceOutputs(plan: seq<Step>, reg: Registry, history: seq<Msg>, rank: seq<nat>, from: nat): seq<Msg>
    requires ValidRank(plan, rank) && AllRegistered(plan, reg) && from <= |plan|
    decreases |plan| - from
  {
    if from == |plan| then []
    else Reference(plan, reg, history, rank, from) + ReferenceOutputs(plan, reg, history, rank, from + 1)
  }

  /** Once the lower-ranked steps hold their reference responses, gathering
      over the live statuses reads the reference responses. */
  lemma {:induction false} GatheredIsReference(plan: seq<Step>, reg: Registry, history: seq<Msg>, rank: seq<nat>,
                                               st: seq<Status>, i: nat, ds: seq<string>)
    requires ValidRank(plan, rank) && AllRegistered(plan, reg) && i < |plan| && |st| == |plan|
    requires forall d :: d in ds ==> d in Deps(plan[i])
    requires forall j :: 0 <= j < |plan| && rank[j] < rank[i] ==> st[j] == Done(Reference(plan, reg, history, rank, j))
    ensures Gathered(plan, st, ds) == ReferenceGathered(plan, reg, history, rank, i, ds)
    decreases |ds|
  {
    if |ds| > 0 {
      assert ds[0] in Deps(plan[i]);
      GatheredIsReference(plan, reg, history, rank, st, i, ds[1..]);
    }
  }

  /** In the final state of an acyclic plan whose agents are all registered,
      every step holds its reference response. */
  lemma {:induction false} FinalIsReference(plan: seq<Step>, reg: Registry, history: seq<Msg>, rank: seq<nat>,
                                            st: seq<Status>, trace: seq<nat>, i: nat)
    requires ValidRank(plan, rank) && AllRegistered(plan, reg) && i < |plan|
    requires Inv(plan, reg, history, st, trace)
    requires forall j :: 0 <= j < |plan| ==> !Ready(plan, st, j)
    ensures st[i] == Done(Reference(plan, reg, history, rank, i))
    decreases rank[i]
  {
    forall j | 0 <= j < |plan| && rank[j] < rank[i]
      ensures st[j] == Done(Reference(plan, reg, history, rank, j))
    {
      FinalIsReference(plan, reg, history, rank, st, trace, j);
    }
    forall d | d in Deps(plan[i]) && Find(plan, d).Some?
      ensures st[Find(plan, d).value].Done?
    {
      assert rank[Find(plan, d).value] < rank[i];
    }
    assert DepsDone(plan, st, i);
    assert !Ready(plan, st, i);
    assert !st[i].Pending?;
    GatheredIsReference(plan, reg, history, rank, st, i, Deps(plan[i]));
  }

  lemma {:induction false} OutputsIsReference(plan: seq<Step>, reg: Registry, history: seq<Msg>, rank: seq<nat>,
                                              st: seq<Status>, from: nat)
    requires ValidRank(plan, rank) && AllRegistered(plan, reg) && from <= |plan| && |st| == |plan|
    requires forall i :: 0 <= i < |plan| ==> st[i] == Done(Reference(plan, reg, history, rank, i))
    ensures Outputs(st[from..]) == ReferenceOutputs(plan, reg, history, rank, from)
    decreases |plan| - from
  {
    if from < |plan| {
      assert st[from..][1..] == st[from + 1..];
      OutputsIsReference(plan, reg, history, rank, st, from + 1);
    }
  }

  /** An acyclic plan with unique ids whose agents are all registered
      completes, and its response is the reference responses of the steps
      joined in plan order. */
  lemma AcyclicPlanCompletes(plan: seq<Step>, reg: Registry, history: seq<Msg>, rank: seq<nat>)
    requires UniqueIds(plan) && ValidRank(plan, rank) && AllRegistered(plan, reg)
    ensures Execute(plan, reg, history) == Completed(ReferenceOutputs(plan, reg, history, rank, 0))
  {
    var st := Final(plan, reg, history);
    FinalFacts(plan, reg, history);
    forall i | 0 <= i < |plan| ensures st[i] == Done(Reference(plan, reg, history, rank, i)) {
      FinalIsReference(plan, reg, history, rank, st, StartOrder(plan, reg, history), i);
    }
    OutputsIsReference(plan, reg, history, rank, st, 0);
    assert st[0..] == st;
    UniqueIdsCheck(plan);
    assert FirstFailed(st, 0).None?;
  }

  // ---------------------------------------------------------------------
  // Plans that do not complete.

  /** A set of steps each of which depends on another step of the set: a
      dependency cycle, or steps waiting on one. */
  predicate Stuck(plan: seq<Step>, c: set<nat>) {
    && (forall i :: i in c ==> i < |plan|)
    && forall i {:trigger DependsWithin(plan, c, i)} :: i in c ==> DependsWithin(plan, c, i)
  }

  predicate DependsWithin(plan: seq<Step>, c: set<nat>, i: nat)
    requires i < |plan|
  {
    exists j :: j in c && InPlanDep(plan, i, j)
  }

  /** No step of such a set is among the first `k` started. */
  lemma {:induction false} StuckNotStarted(plan: seq<Step>, trace: seq<nat>, c: set<nat>, k: nat)
    requires StartedAfterDeps(plan, trace)
    requires Stuck(plan, c) && k <= |trace|
    ensures forall k' :: 0 <= k' < k ==> trace[k'] !in c
  {
    if k > 0 {
      StuckNotStarted(plan, trace, c, k - 1);
      var i := trace[k - 1];
      assert DepsStartedBefore(plan, trace, k - 1);
      assert i in c ==> DependsWithin(plan, c, i);
    }
  }

  /** A step of such a set never starts. */
  lemma StuckStaysPending(plan: seq<Step>, reg: Registry, history: seq<Msg>, st: seq<Status>, trace: seq<nat>, c: set<nat>)
    requires Inv(plan, reg, history, st, trace)
    requires Stuck(plan, c)
    ensures forall i :: i in c ==> st[i].Pending?
  {
    StuckNotStarted(plan, trace, c, |trace|);
  }

  /** If some element of `c` occurs in `trace`, one occurs first. */
  lemma EarliestIn(trace: seq<nat>, c: set<nat>, x: nat)
    requires x in c && x in trace
    ensures exists k :: 0 <= k < |trace| && trace[k] in c && forall k' :: 0 <= k' < k ==> trace[k'] !in c
  {
    var n := 0;
    while n < |trace| && trace[n] !in c
      invariant 0 <= n <= |trace|
      invariant forall k' :: 0 <= k' < n ==> trace[k'] !in c
    {
      n := n + 1;
    }
  }

  /** A plan (with unique ids) containing such a set never returns. */
  lemma CycleBlocks(plan: seq<Step>, reg: Registry, history: seq<Msg>, c: set<nat>)
    requires UniqueIds(plan) && Stuck(plan, c) && c != {}
    ensures Execute(plan, reg, history) == Blocked
  {
    FinalFacts(plan, reg, history);
    StuckStaysPending(plan, reg, history, Final(plan, reg, history), StartOrder(plan, reg, history), c);
    var i :| i in c;
    assert Final(plan, reg, history)[i].Pending?;
    UniqueIdsCheck(plan);
  }

  /** A step whose agent is not registered fails, its completion is never
      set, and a step that depends on it therefore waits forever. */
  lemma MissingAgentBlocksDependents(plan: seq<Step>, reg: Registry, history: seq<Msg>, i: nat, j: nat)
    requires UniqueIds(plan) && i < |plan| && j < |plan|
    requires InPlanDep(plan, i, j) && plan[j].agent !in reg
    ensures Execute(plan, reg, history) == Blocked
    ensures !Final(plan, reg, history)[i].Done?
  {
    FinalFacts(plan, reg, history);
    var st := Final(plan, reg, history);
    var d :| d in Deps(plan[i]) && Find(plan, d) == Some(j);
    if !st[j].Pending? {
      assert st[j] == Failed;
      assert !DepsDone(plan, st, i);
      assert st[i].Pending?;
    }
    UniqueIdsCheck(plan);
  }

  /** A step whose agent is not registered never produces a response, so a
      plan holding one never completes: either something waits forever or the
      run reports a missing agent, and it is the latter whenever no step is
      left waiting. */
  lemma MissingAgentNeverCompletes(plan: seq<Step>, reg: Registry, history: seq<Msg>, i: nat)
    requires UniqueIds(plan) && i < |plan| && plan[i].agent !in reg
    ensures !Final(plan, reg, history)[i].Done?
    ensures Execute(plan, reg, history).Blocked? || Execute(plan, reg, history).AgentNotFound?
    ensures !Execute(plan, reg, history).Blocked? ==>
      Final(plan, reg, history)[i].Failed? && Execute(plan, reg, history).AgentNotFound?
  {
    FinalAgents(plan, reg, history);
    UniqueIdsCheck(plan);
    var st := Final(plan, reg, history);
    if !Execute(plan, reg, history).Blocked? {
      assert !st[i].Pending?;
      assert FirstFailed(st, 0).Some?;
    }
  }

  /** A step's agent ran only after each of its in-plan dependencies had
      stored its response, and with exactly the history followed by those
      stored responses in listed order. */
  lemma DependenciesBeforeDependents(plan: seq<Step>, reg: Registry, history: seq<Msg>, i: nat)
    requires i < |plan|
    ensures var st := Final(plan, reg, history);
      var order := StartOrder(plan, reg, history);
      st[i].Done? ==>
        && plan[i].agent in reg
        && st[i].output == reg[plan[i].agent](history + Gathered(plan, st, Deps(plan[i])))
        && (forall d :: d in Deps(plan[i]) && Find(plan, d).Some? ==>
              st[Find(plan, d).value].Done?
              && exists a, b :: 0 <= a < b < |order| && order[a] == Find(plan, d).value && order[b] == i)
  {
    FinalFacts(plan, reg, history);
    var st := Final(plan, reg, history);
    var order := StartOrder(plan, reg, history);
    if st[i].Done? {
      assert i in order;
      var b :| 0 <= b < |order| && order[b] == i;
      forall d | d in Deps(plan[i]) && Find(plan, d).Some?
        ensures exists a :: 0 <= a < b && order[a] == Find(plan, d).value
      {
        var j := Find(plan, d).value;
        assert DepsStartedBefore(plan, order, b);
        assert j in order[..b];
        var a :| 0 <= a < b && order[..b][a] == j;
        assert order[a] == j;
      }
    }
  }
}
