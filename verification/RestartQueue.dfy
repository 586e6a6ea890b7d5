/**
 The editor extension's restart queue as a step machine: restart jobs run one after the other, each pausing
 where the code awaits the old client's stop and the new client's start.
 */
module RestartQueue {
  import opened Prelude

  type ClientId = nat

  /** A client is live from its start until its stop or its failure to start is known. */
  datatype ClientStatus = Starting | Running | Stopping | StopFailed | Stopped | StartFailed {
    predicate IsLive() {
      Starting? || Running? || Stopping? || StopFailed?
    }
  }

  datatype Job = Restart | Shutdown

  /** Where the job taken from the queue stands. */
  datatype Phase =
    | Idle
    | AwaitingStop(leaving: Option<ClientId>, thenStart: bool)
    | AwaitingStart(id: ClientId)

  datatype State = State(
    client: Option<ClientId>,
    clients: seq<ClientStatus>,  // every client ever built, by id
    queue: seq<Job>,
    phase: Phase,
    deactivated: bool
  )

  const INITIAL := State(None, [], [], Idle, false)

  datatype Step =
    | RequestRestart
    | Deactivate
    | BeginRestart(shouldStart: bool)
    | BeginShutdown
    | StopSettled(ok: bool)
    | StartSettled(ok: bool)

  /** Which steps a state allows; requests may come at any time before deactivation. */
  predicate Enabled(s: State, step: Step) {
    match step
    case RequestRestart => !s.deactivated
    case Deactivate => !s.deactivated
    case BeginRestart(_) => s.phase.Idle? && s.queue != [] && s.queue[0].Restart?
    case BeginShutdown => s.phase.Idle? && s.queue != [] && s.queue[0].Shutdown?
    case StopSettled(ok) => s.phase.AwaitingStop? && KnownClient(s, s.phase.leaving) && (s.phase.leaving.None? ==> ok)
    case StartSettled(_) => s.phase.AwaitingStart? && KnownClient(s, Some(s.phase.id))
  }

  predicate KnownClient(s: State, id: Option<ClientId>) {
    id.Some? ==> id.value < |s.clients|
  }

  /** The synchronous head of `stopServer`: the client is let go before its stop is awaited. */
  function LetGo(s: State, thenStart: bool): State
    requires s.queue != [] && KnownClient(s, s.client)
  {
    s.(client := None,
       clients := if s.client.Some? then s.clients[s.client.value := Stopping] else s.clients,
       queue := s.queue[1..],
       phase := AwaitingStop(s.client, thenStart))
  }

  function Next(s: State, step: Step): State
    requires Enabled(s, step) && KnownClient(s, s.client)
  {
    match step
    case RequestRestart => s.(queue := s.queue + [Restart])
    case Deactivate => s.(queue := s.queue + [Shutdown], deactivated := true)
    case BeginRestart(shouldStart) => LetGo(s, shouldStart)
    case BeginShutdown => LetGo(s, false)
    case StopSettled(ok) =>
      var clients := if s.phase.leaving.Some? then s.clients[s.phase.leaving.value := if ok then Stopped else StopFailed] else s.clients;
      if ok && s.phase.thenStart then
        // The new client is built, held and started without a pause in between.
        s.(client := Some(|clients|), clients := clients + [Starting], phase := AwaitingStart(|clients|))
      else
        s.(clients := clients, phase := Idle)
    case StartSettled(ok) =>
      if ok then
        s.(clients := s.clients[s.phase.id := Running], phase := Idle)
      else
        // The held client is dropped only if it is still the one that failed.
        s.(clients := s.clients[s.phase.id := StartFailed],
           client := if s.client == Some(s.phase.id) then None else s.client,
           phase := Idle)
  }

  // ---------------------------------------------------------------------------------------------
  // Runs
  // ---------------------------------------------------------------------------------------------

  ghost predicate IsLive(s: State, id: ClientId) {
    id < |s.clients| && s.clients[id].IsLive()
  }

  /** Every live client but the given one failed to stop. */
  ghost predicate OnlyLive(s: State, id: Option<ClientId>) {
    forall other: ClientId :: IsLive(s, other) && Some(other) != id ==> s.clients[other].StopFailed?
  }

  /** Which client is held and live, phase by phase. */
  ghost predicate ClientInv(s: State) {
    && KnownClient(s, s.client)
    && match s.phase
       case Idle => OnlyLive(s, s.client) && (s.client.Some? ==> s.clients[s.client.value] == Running)
       case AwaitingStop(leaving, _) =>
         s.client.None? && KnownClient(s, leaving) && OnlyLive(s, leaving) && (leaving.Some? ==> s.clients[leaving.value] == Stopping)
       case AwaitingStart(id) => s.client == Some(id) && OnlyLive(s, Some(id)) && s.clients[id] == Starting
  }

  /** How many clients failed to stop. */
  function Stuck(clients: seq<ClientStatus>): nat {
    if clients == [] then 0 else Stuck(clients[..|clients| - 1]) + if clients[|clients| - 1].StopFailed? then 1 else 0
  }

  /** How many awaited stops failed. */
  function FailedStops(steps: seq<Step>): nat {
    if steps == [] then 0 else FailedStops(steps[..|steps| - 1]) + if steps[|steps| - 1] == StopSettled(false) then 1 else 0
  }

  /** The shutdown job is the last one, queued by deactivation and by nothing else. */
  ghost predicate QueueInv(s: State) {
    && (forall i :: 0 <= i < |s.queue| - 1 ==> s.queue[i].Restart?)
    && (!s.deactivated ==> Shutdown !in s.queue)
  }

  ghost predicate Inv(s: State) {
    ClientInv(s) && QueueInv(s)
  }

  lemma LetGoKeepsClientInv(s: State, thenStart: bool)
    requires ClientInv(s) && s.phase.Idle? && s.queue != []
    ensures ClientInv(LetGo(s, thenStart))
  {
    var s' := LetGo(s, thenStart);
    forall other: ClientId | IsLive(s', other) && Some(other) != s.client
      ensures s'.clients[other].StopFailed?
    {
      assert IsLive(s, other);
    }
  }

  lemma StopKeepsClientInv(s: State, ok: bool)
    requires ClientInv(s) && s.phase.AwaitingStop? && Enabled(s, StopSettled(ok))
    ensures ClientInv(Next(s, StopSettled(ok)))
  {
    var s' := Next(s, StopSettled(ok));
    forall other: ClientId | IsLive(s', other) && Some(other) != s'.client
      ensures s'.clients[other].StopFailed?
    {
      assert Some(other) != s.phase.leaving ==> IsLive(s, other);
    }
  }

  lemma StartKeepsClientInv(s: State, ok: bool)
    requires ClientInv(s) && s.phase.AwaitingStart?
    ensures ClientInv(Next(s, StartSettled(ok)))
  {
    var s' := Next(s, StartSettled(ok));
    forall other: ClientId | IsLive(s', other) && Some(other) != s'.client
      ensures s'.clients[other].StopFailed?
    {
      assert Some(other) != s.client ==> IsLive(s, other);
    }
  }

  lemma StepKeepsClientInv(s: State, step: Step)
    requires ClientInv(s) && Enabled(s, step)
    ensures ClientInv(Next(s, step))
  {
    match step
    case RequestRestart =>
      assert forall other: ClientId :: IsLive(Next(s, step), other) ==> IsLive(s, other);
    case Deactivate =>
      assert forall other: ClientId :: IsLive(Next(s, step), other) ==> IsLive(s, other);
    case BeginRestart(shouldStart) =>
      LetGoKeepsClientInv(s, shouldStart);
    case BeginShutdown =>
      LetGoKeepsClientInv(s, false);
    case StopSettled(ok) =>
      StopKeepsClientInv(s, ok);
    case StartSettled(ok) =>
      StartKeepsClientInv(s, ok);
  }

  lemma {:induction false} StuckAfterUpdate(clients: seq<ClientStatus>, id: ClientId, status: ClientStatus)
    requires id < |clients| && !clients[id].StopFailed?
    ensures Stuck(clients[id := status]) == Stuck(clients) + if status.StopFailed? then 1 else 0
    decreases |clients|
  {
    var last := |clients| - 1;
    if id == last {
      assert clients[id := status][..last] == clients[..last];
    } else {
      assert clients[id := status][..last] == clients[..last][id := status];
      StuckAfterUpdate(clients[..last], id, status);
    }
  }

  /** A step leaves one more client stuck exactly when it is a failed stop. */
  lemma StopCountsStuck(s: State, ok: bool)
    requires ClientInv(s) && Enabled(s, StopSettled(ok))
    ensures Stuck(Next(s, StopSettled(ok)).clients) == Stuck(s.clients) + if ok then 0 else 1
  {
    var settled := if ok then Stopped else StopFailed;
    if s.phase.leaving.Some? {
      StuckAfterUpdate(s.clients, s.phase.leaving.value, settled);
    }
    var clients := if s.phase.leaving.Some? then s.clients[s.phase.leaving.value := settled] else s.clients;
    assert (clients + [Starting])[..|clients|] == clients;
  }

  lemma StepCountsStuck(s: State, step: Step)
    requires ClientInv(s) && Enabled(s, step)
    ensures Stuck(Next(s, step).clients) == Stuck(s.clients) + if step == StopSettled(false) then 1 else 0
  {
    match step
    case RequestRestart =>
    case Deactivate =>
    case BeginRestart(_) =>
      if s.client.Some? {
        StuckAfterUpdate(s.clients, s.client.value, Stopping);
      }
    case BeginShutdown =>
      if s.client.Some? {
        StuckAfterUpdate(s.clients, s.client.value, Stopping);
      }
    case StopSettled(ok) =>
      StopCountsStuck(s, ok);
    case StartSettled(ok) =>
      StuckAfterUpdate(s.clients, s.phase.id, if ok then Running else StartFailed);
  }

  lemma StepKeepsQueueInv(s: State, step: Step)
    requires KnownClient(s, s.client) && QueueInv(s) && Enabled(s, step)
    ensures QueueInv(Next(s, step))
  {
    var s' := Next(s, step);
    if step.Deactivate? {
      assert s'.queue[|s'.queue| - 1] == Shutdown;
    }
    if step.BeginRestart? || step.BeginShutdown? {
      assert s.queue == [s.queue[0]] + s'.queue;
    }
  }

  /** One step keeps the invariant, whether stops and starts succeed or fail. */
  lemma StepKeepsInv(s: State, step: Step)
    requires Inv(s) && Enabled(s, step)
    ensures Inv(Next(s, step))
  {
    StepKeepsClientInv(s, step);
    StepKeepsQueueInv(s, step);
  }

  /** A run: states linked by enabled steps, from the initial state. */
  ghost predicate IsRun(states: seq<State>, steps: seq<Step>) {
    && |states| == |steps| + 1
    && states[0] == INITIAL
    && forall i :: 0 <= i < |steps| ==>
         KnownClient(states[i], states[i].client) && Enabled(states[i], steps[i]) && states[i + 1] == Next(states[i], steps[i])
  }

  lemma {:induction false} RunsKeepInv(states: seq<State>, steps: seq<Step>, i: nat)
    requires IsRun(states, steps) && i < |states|
    ensures Inv(states[i])
    ensures Stuck(states[i].clients) == FailedStops(steps[..i])
  {
    if i == 0 {
    } else {
      RunsKeepInv(states, steps, i - 1);
      StepKeepsInv(states[i - 1], steps[i - 1]);
      StepCountsStuck(states[i - 1], steps[i - 1]);
      assert steps[..i][..i - 1] == steps[..i - 1];
    }
  }

  /** The client the queue is concerned with: the one held, or the one that is being stopped. */
  function Current(s: State): Option<ClientId> {
    if s.phase.AwaitingStop? then s.phase.leaving else s.client
  }

  ghost predicate AtMostOneLive(s: State) {
    forall a: ClientId, b: ClientId :: IsLive(s, a) && IsLive(s, b) ==> a == b
  }

  ghost predicate IsStuck(clients: seq<ClientStatus>, id: ClientId) {
    id < |clients| && clients[id].StopFailed?
  }

  lemma {:induction false} StuckClient(clients: seq<ClientStatus>) returns (id: ClientId)
    requires Stuck(clients) > 0
    ensures IsStuck(clients, id)
  {
    id := |clients| - 1;
    if clients[id].StopFailed? {
    } else {
      id := StuckClient(clients[..id]);
    }
  }

  /** Whether one client is stuck, or two are, as the count says. */
  lemma TwoStuckClients(clients: seq<ClientStatus>)
    ensures Stuck(clients) > 1 <==> exists a: ClientId, b: ClientId :: a < b && IsStuck(clients, a) && IsStuck(clients, b)
    ensures Stuck(clients) > 0 <==> exists a: ClientId :: IsStuck(clients, a)
  {
    if clients == [] {
    } else {
      var last := |clients| - 1;
      var front := clients[..last];
      TwoStuckClients(front);
      assert forall a: ClientId :: IsStuck(clients, a) <==> IsStuck(front, a) || (a == last && clients[last].StopFailed?);
      if Stuck(clients) > 0 {
        var a := StuckClient(clients);
      }
      if Stuck(front) > 0 {
        var a := StuckClient(front);
        assert a < last && IsStuck(clients, a);
        assert clients[last].StopFailed? ==> IsStuck(clients, last);
      }
    }
  }

  /**
   In every interleaving of restart requests with successes and failures of stops and starts: at most one client
   is live if and only if at most one stop has failed, and none has while a client is held or being stopped.  Every
   other live client is one that failed to stop, and what `client` holds is starting or running.
   */
  lemma AtMostOneLiveClientIff(states: seq<State>, steps: seq<Step>, i: nat)
    requires IsRun(states, steps) && i < |states|
    ensures AtMostOneLive(states[i]) <==> FailedStops(steps[..i]) <= if Current(states[i]).Some? then 0 else 1
    ensures OnlyLive(states[i], Current(states[i]))
    ensures states[i].client.Some? ==>
      KnownClient(states[i], states[i].client) && (states[i].clients[states[i].client.value].Starting? || states[i].clients[states[i].client.value].Running?)
  {
    RunsKeepInv(states, steps, i);
    var s := states[i];
    TwoStuckClients(s.clients);
    assert Current(s).Some? ==> IsLive(s, Current(s).value) && !s.clients[Current(s).value].StopFailed?;
    if FailedStops(steps[..i]) > (if Current(s).Some? then 0 else 1) {
      if Current(s).Some? {
        var a := StuckClient(s.clients);
        assert IsLive(s, a) && IsLive(s, Current(s).value);
      } else {
        var a: ClientId, b: ClientId :| a < b && IsStuck(s.clients, a) && IsStuck(s.clients, b);
        assert IsLive(s, a) && IsLive(s, b);
      }
    } else {
      forall a: ClientId, b: ClientId | IsLive(s, a) && IsLive(s, b)
        ensures a == b
      {
        assert Some(a) != Current(s) ==> IsStuck(s.clients, a);
        assert Some(b) != Current(s) ==> IsStuck(s.clients, b);
        assert !(a < b && IsStuck(s.clients, a) && IsStuck(s.clients, b));
        assert !(b < a && IsStuck(s.clients, b) && IsStuck(s.clients, a));
      }
    }
  }

  /** While stops succeed at most one client is live: the one held, or the one being stopped. */
  lemma AtMostOneLiveClient(states: seq<State>, steps: seq<Step>, i: nat, a: ClientId, b: ClientId)
    requires IsRun(states, steps) && i < |states| && FailedStops(steps[..i]) == 0
    ensures IsLive(states[i], a) && IsLive(states[i], b) ==> a == b
    ensures IsLive(states[i], a) ==> Current(states[i]) == Some(a)
  {
    RunsKeepInv(states, steps, i);
    AtMostOneLiveClientIff(states, steps, i);
    TwoStuckClients(states[i].clients);
    assert !IsStuck(states[i].clients, a);
  }

  // ---------------------------------------------------------------------------------------------
  // What a run has done, told by its steps
  // ---------------------------------------------------------------------------------------------

  function RequestedBy(step: Step): seq<Job> {
    match step
    case RequestRestart => [Restart]
    case Deactivate => [Shutdown]
    case _ => []
  }

  function BegunBy(step: Step): seq<Job> {
    match step
    case BeginRestart(_) => [Restart]
    case BeginShutdown => [Shutdown]
    case _ => []
  }

  /** The jobs asked for, and the jobs taken up, in order. */
  function Requested(steps: seq<Step>): seq<Job> {
    if steps == [] then [] else Requested(steps[..|steps| - 1]) + RequestedBy(steps[|steps| - 1])
  }

  function Begun(steps: seq<Step>): seq<Job> {
    if steps == [] then [] else Begun(steps[..|steps| - 1]) + BegunBy(steps[|steps| - 1])
  }

  /** The job taken up last is a restart that wants a client. */
  predicate WantsClient(steps: seq<Step>) {
    steps != [] && match steps[|steps| - 1] case BeginRestart(shouldStart) => shouldStart case BeginShutdown => false case _ => WantsClient(steps[..|steps| - 1])
  }

  /** How often a stop has succeeded for a restart that wants a client. */
  function Built(steps: seq<Step>): nat {
    if steps == [] then 0
    else Built(steps[..|steps| - 1]) + if steps[|steps| - 1] == StopSettled(true) && WantsClient(steps) then 1 else 0
  }

  /** The job taken up last wants a client, its stop has succeeded, and its start has not failed. */
  predicate Holds(steps: seq<Step>) {
    steps != [] &&
    match steps[|steps| - 1]
    case RequestRestart => Holds(steps[..|steps| - 1])
    case Deactivate => Holds(steps[..|steps| - 1])
    case BeginRestart(_) => false
    case BeginShutdown => false
    case StopSettled(ok) => ok && WantsClient(steps)
    case StartSettled(ok) => ok
  }

  lemma StepMovesJobs(s: State, step: Step)
    requires KnownClient(s, s.client) && Enabled(s, step)
    ensures BegunBy(step) + Next(s, step).queue == s.queue + RequestedBy(step)
    ensures Next(s, step).deactivated <==> s.deactivated || Shutdown in RequestedBy(step)
    ensures s.deactivated ==> RequestedBy(step) == []
  {
    if step.BeginRestart? || step.BeginShutdown? {
      assert s.queue == [s.queue[0]] + s.queue[1..];
    }
  }

  lemma QueueMovesOn(begun: seq<Job>, queue: seq<Job>, taken: seq<Job>, left: seq<Job>, asked: seq<Job>)
    requires taken + left == queue + asked
    ensures begun + taken + left == begun + queue + asked
  {
    assert begun + taken + left == begun + (taken + left);
    assert begun + queue + asked == begun + (queue + asked);
  }

  /** Jobs are run in the order asked for, none twice and none left out; the shutdown is the last one asked for. */
  lemma {:induction false} JobsRunInOrder(states: seq<State>, steps: seq<Step>, i: nat)
    requires IsRun(states, steps) && i < |states|
    ensures var requested := Requested(steps[..i]);
      && Begun(steps[..i]) + states[i].queue == requested
      && (states[i].deactivated ==> requested != [] && requested[|requested| - 1] == Shutdown)
  {
    if i == 0 {
    } else {
      var last, before, step := i - 1, states[i - 1], steps[i - 1];
      JobsRunInOrder(states, steps, last);
      StepMovesJobs(before, step);
      assert steps[..i][..last] == steps[..last] && steps[..i][last] == step;
      QueueMovesOn(Begun(steps[..last]), before.queue, BegunBy(step), states[i].queue, RequestedBy(step));
    }
  }

  /**
   A client is built for every restart that wants one and whose stop succeeds, and for nothing else: a failed stop ends
   the job.  The client held is the one built last, as long as its job goes well and no later job has let it go.
   */
  lemma {:induction false} StepsTellClient(states: seq<State>, steps: seq<Step>, i: nat)
    requires IsRun(states, steps) && i < |states|
    ensures |states[i].clients| == Built(steps[..i])
    ensures states[i].client == if Holds(steps[..i]) then Some(Built(steps[..i]) - 1) else None
    ensures states[i].phase.AwaitingStop? ==> states[i].phase.thenStart == WantsClient(steps[..i])
    ensures states[i].phase.AwaitingStart? ==> WantsClient(steps[..i]) && Holds(steps[..i])
  {
    RunsKeepInv(states, steps, i);
    if i == 0 {
    } else {
      var last := i - 1;
      StepsTellClient(states, steps, last);
      RunsKeepInv(states, steps, last);
      assert steps[..i][..last] == steps[..last] && steps[..i][last] == steps[last];
    }
  }

  /** Between jobs the client held, if any, is running. */
  lemma IdleStateTellsOutcome(states: seq<State>, steps: seq<Step>, i: nat)
    requires IsRun(states, steps) && i < |states| && states[i].phase.Idle?
    ensures Holds(steps[..i]) <==> Built(steps[..i]) > 0 && states[i].client == Some(Built(steps[..i]) - 1)
    ensures Holds(steps[..i]) ==> |states[i].clients| == Built(steps[..i]) && states[i].clients[Built(steps[..i]) - 1].Running?
    ensures OnlyLive(states[i], states[i].client)
  {
    RunsKeepInv(states, steps, i);
    StepsTellClient(states, steps, i);
  }

  lemma {:induction false} LastBegunDecides(steps: seq<Step>)
    requires Begun(steps) != [] && Begun(steps)[|Begun(steps)| - 1] == Shutdown
    ensures !WantsClient(steps)
  {
    if steps[|steps| - 1].BeginRestart? || steps[|steps| - 1].BeginShutdown? {
    } else {
      LastBegunDecides(steps[..|steps| - 1]);
    }
  }

  /** Once deactivated, an idle machine with nothing left to do holds no client: one survives if and only if some stop failed. */
  lemma NothingSurvivesDeactivation(states: seq<State>, steps: seq<Step>, i: nat)
    requires IsRun(states, steps) && i < |states| && states[i].deactivated && states[i].phase.Idle? && states[i].queue == []
    ensures states[i].client.None?
    ensures (exists id: ClientId :: IsLive(states[i], id)) <==> FailedStops(steps[..i]) > 0
  {
    RunsKeepInv(states, steps, i);
    JobsRunInOrder(states, steps, i);
    StepsTellClient(states, steps, i);
    LastBegunDecides(steps[..i]);
    if Holds(steps[..i]) {
      HoldsWantsClient(states, steps, i);
    }
    TwoStuckClients(states[i].clients);
    if FailedStops(steps[..i]) > 0 {
      var a := StuckClient(states[i].clients);
      assert IsLive(states[i], a);
    }
    assert forall id: ClientId :: IsLive(states[i], id) ==> IsStuck(states[i].clients, id);
  }

  lemma {:induction false} HoldsWantsClient(states: seq<State>, steps: seq<Step>, i: nat)
    requires IsRun(states, steps) && i < |states| && Holds(steps[..i])
    ensures WantsClient(steps[..i])
  {
    var last := i - 1;
    assert steps[..i][..last] == steps[..last] && steps[..i][last] == steps[last];
    if steps[last].RequestRestart? || steps[last].Deactivate? {
      HoldsWantsClient(states, steps, last);
    } else if steps[last].StartSettled? {
      StepsTellClient(states, steps, last);
    }
  }

  /** The queue never gets stuck: while there is work, some step other than a new request is enabled. */
  lemma QueueMakesProgress(s: State)
    requires Inv(s) && (!s.phase.Idle? || s.queue != [])
    ensures exists step :: Enabled(s, step) && !step.RequestRestart? && !step.Deactivate?
  {
    match s.phase
    case Idle =>
      assert Enabled(s, if s.queue[0].Restart? then BeginRestart(true) else BeginShutdown);
    case AwaitingStop(_, _) =>
      assert Enabled(s, StopSettled(true));
    case AwaitingStart(_) =>
      assert Enabled(s, StartSettled(true));
  }

  lemma ExtendRun(states: seq<State>, steps: seq<Step>, step: Step) returns (longer: seq<State>, more: seq<Step>)
    requires IsRun(states, steps)
    requires var last := states[|states| - 1]; KnownClient(last, last.client) && Enabled(last, step)
    ensures IsRun(longer, more) && longer[|longer| - 1] == Next(states[|states| - 1], step)
  {
    longer, more := states + [Next(states[|states| - 1], step)], steps + [step];
  }

  /** One restart job from an idle machine that holds no client, up to the start of the new client. */
  lemma RestartFromNothing(states: seq<State>, steps: seq<Step>) returns (longer: seq<State>, more: seq<Step>)
    requires IsRun(states, steps)
    requires var last := states[|states| - 1]; last.phase.Idle? && last.queue == [] && last.client.None? && !last.deactivated
    ensures IsRun(longer, more)
    ensures var last, now := states[|states| - 1], longer[|longer| - 1];
      now == last.(client := Some(|last.clients|), clients := last.clients + [Starting], phase := AwaitingStart(|last.clients|))
  {
    longer, more := ExtendRun(states, steps, RequestRestart);
    longer, more := ExtendRun(longer, more, BeginRestart(true));
    longer, more := ExtendRun(longer, more, StopSettled(true));
  }

  /** A run with one failed stop and two live clients: one that would not stop and its successor. */
  lemma FailedStopLeavesTwo() returns (states: seq<State>, steps: seq<Step>)
    ensures IsRun(states, steps) && IsLive(states[|states| - 1], 0) && IsLive(states[|states| - 1], 1)
  {
    states, steps := [INITIAL], [];
    states, steps := RestartFromNothing(states, steps);
    states, steps := ExtendRun(states, steps, StartSettled(true));
    states, steps := ExtendRun(states, steps, RequestRestart);
    states, steps := ExtendRun(states, steps, BeginRestart(true));
    states, steps := ExtendRun(states, steps, StopSettled(false));
    states, steps := RestartFromNothing(states, steps);
  }
}
