/** The loop that decides which agent runs in a pane (`AgentDetectionPresence` and the detection
    tasks): how an identity is kept through missed probes, how a process exit is announced, and
    when the identity is given up. Clocks, the process probe and the screen rules are inputs. */
module AgentDetection {
  import opened Machine

  const AGENT_MISS_CONFIRMATION_ATTEMPTS := 6

  type Agent = nat

  datatype Action = ObserveProbe | ReportProcessExit | ClearAgent

  datatype Probe = Probe(agent: Option<Agent>, foregroundIsPaneShell: bool)

  /** The two detection tasks differ in whether a process exit can be skipped with the screen. */
  datatype Task = Basic | Full

  /** What one turn of the loop meets: a reset request, a probe of the foreground process if one is
      due, and what the screen rules would do. */
  datatype Tick = Tick(
    reset: bool,
    probe: Option<Probe>,
    suppressed: Option<Agent>,
    lifecycleAuthorityActive: bool,
    now: nat,
    graceWindow: nat,
    skipsStateUpdate: bool,
    screenPublishes: bool)

  datatype Loop = Loop(
    currentAgent: Option<Agent>,
    consecutiveMisses: nat,
    pendingForegroundShellClear: bool,
    foregroundShellExitReported: bool,
    graceUntil: Option<nat>)

  datatype Published = Published(agent: Option<Agent>, processExited: bool)

  datatype Turn = Turn(state: Loop, published: seq<Published>)

  function Start(agent: Option<Agent>): Loop {
    Loop(agent, 0, false, false, None)
  }

  function ForegroundShellAgentAction(previous: Option<Agent>, found: Option<Agent>,
                                      foregroundIsPaneShell: bool, processExitReported: bool): Action {
    if previous.None? || found.Some? then ObserveProbe
    else if processExitReported then ClearAgent
    else if foregroundIsPaneShell then ReportProcessExit
    else ObserveProbe
  }

  function ClearCurrentAgent(s: Loop): Loop {
    s.(currentAgent := None, consecutiveMisses := 0)
  }

  function ObserveProcessProbe(s: Loop, found: Option<Agent>): Loop {
    if found.Some? then s.(currentAgent := found, consecutiveMisses := 0)
    else if s.currentAgent.None? then s.(consecutiveMisses := 0)
    else if s.consecutiveMisses + 1 < AGENT_MISS_CONFIRMATION_ATTEMPTS then
      s.(consecutiveMisses := s.consecutiveMisses + 1)
    else ClearCurrentAgent(s)
  }

  /** A suppressed agent that is still found counts as not found. */
  function Found(tick: Tick): Option<Agent>
    requires tick.probe.Some?
  {
    if tick.suppressed.Some? && tick.probe.value.agent == tick.suppressed then None else tick.probe.value.agent
  }

  function AfterProbe(s: Loop, found: Option<Agent>, foregroundIsPaneShell: bool): Loop {
    match ForegroundShellAgentAction(s.currentAgent, found, foregroundIsPaneShell, s.foregroundShellExitReported)
    case ReportProcessExit =>
      s.(pendingForegroundShellClear := true)
    case ClearAgent =>
      ClearCurrentAgent(s.(pendingForegroundShellClear := false, foregroundShellExitReported := false))
    case ObserveProbe =>
      ObserveProcessProbe(s.(pendingForegroundShellClear := false, foregroundShellExitReported := false), found)
  }

  /** The probe step: a newly identified agent is announced as idle and gets a grace window. */
  function ProbeTurn(s: Loop, tick: Tick): Turn {
    if tick.probe.None? then Turn(s, [])
    else
      var next := AfterProbe(s, Found(tick), tick.probe.value.foregroundIsPaneShell);
      if next.currentAgent == s.currentAgent then Turn(next, [])
      else if next.currentAgent.Some? then
        Turn(next.(graceUntil := Some(tick.now + tick.graceWindow)), [Published(next.currentAgent, false)])
      else Turn(next.(graceUntil := None), [])
  }

  predicate ProcessExited(s: Loop) {
    s.pendingForegroundShellClear && s.currentAgent.Some? && !s.foregroundShellExitReported
  }

  /** The screen step: a pending process exit is published whatever the screen shows. */
  function ScreenTurn(task: Task, s: Loop, tick: Tick): Turn {
    var exited := ProcessExited(s);
    if tick.lifecycleAuthorityActive && !exited then Turn(s, [])
    else if s.graceUntil.Some? && !exited then
      Turn(if tick.now < s.graceUntil.value then s else s.(graceUntil := None), [])
    else
      var t := s.(graceUntil := None);
      var skips := tick.skipsStateUpdate && (task.Full? || !exited);
      if skips || (!exited && !tick.screenPublishes) then Turn(t, [])
      else
        Turn(t.(foregroundShellExitReported := t.foregroundShellExitReported || exited),
             [Published(t.currentAgent, exited)])
  }

  function AfterReset(s: Loop, tick: Tick): Loop {
    if tick.reset then Start(None) else s
  }

  function Next(task: Task, s: Loop, tick: Tick): Turn {
    var probed := ProbeTurn(AfterReset(s, tick), tick);
    var screened := ScreenTurn(task, probed.state, tick);
    Turn(screened.state, probed.published + screened.published)
  }

  class DetectionTask {
    const task: Task
    var currentAgent: Option<Agent>
    var consecutiveMisses: nat
    var pendingForegroundShellClear: bool
    var foregroundShellExitReported: bool
    var graceUntil: Option<nat>

    constructor (task: Task, agent: Option<Agent>)
      ensures this.task == task && State() == Start(agent)
    {
      this.task := task;
      currentAgent, consecutiveMisses := agent, 0;
      pendingForegroundShellClear, foregroundShellExitReported, graceUntil := false, false, None;
    }

    function State(): Loop
      reads this
    {
      Loop(currentAgent, consecutiveMisses, pendingForegroundShellClear, foregroundShellExitReported, graceUntil)
    }

    method ClearAgentPresence() returns (changed: bool)
      modifies this`currentAgent, this`consecutiveMisses
      ensures State() == ClearCurrentAgent(old(State())) && changed == old(currentAgent).Some?
    {
      changed := currentAgent.Some?;
      currentAgent, consecutiveMisses := None, 0;
    }

    method ObserveProbeResult(found: Option<Agent>) returns (changed: bool)
      modifies this`currentAgent, this`consecutiveMisses
      ensures State() == ObserveProcessProbe(old(State()), found) && changed == (currentAgent != old(currentAgent))
    {
      if found.Some? {
        consecutiveMisses := 0;
        if found == currentAgent {
          return false;
        }
        currentAgent := found;
        return true;
      }
      if currentAgent.None? {
        consecutiveMisses := 0;
        return false;
      }
      consecutiveMisses := consecutiveMisses + 1;
      if consecutiveMisses < AGENT_MISS_CONFIRMATION_ATTEMPTS {
        return false;
      }
      currentAgent, consecutiveMisses := None, 0;
      return true;
    }

    method ApplyPublish(processExited: bool) returns (event: Published)
      modifies this`foregroundShellExitReported
      ensures event == Published(currentAgent, processExited)
      ensures foregroundShellExitReported == (old(foregroundShellExitReported) || processExited)
    {
      if processExited {
        foregroundShellExitReported := true;
      }
      event := Published(currentAgent, processExited);
    }

    /** What a due probe does to the identity. */
    method ApplyProbe(tick: Tick) returns (published: seq<Published>)
      modifies this
      ensures Turn(State(), published) == ProbeTurn(old(State()), tick)
    {
      published := [];
      if tick.probe.None? {
        return;
      }
      var found := Found(tick);
      var previous := currentAgent;
      var changed;
      match ForegroundShellAgentAction(previous, found, tick.probe.value.foregroundIsPaneShell,
                                       foregroundShellExitReported) {
        case ReportProcessExit =>
          pendingForegroundShellClear, changed := true, false;
        case ClearAgent =>
          pendingForegroundShellClear, foregroundShellExitReported := false, false;
          changed := ClearAgentPresence();
        case ObserveProbe =>
          pendingForegroundShellClear, foregroundShellExitReported := false, false;
          changed := ObserveProbeResult(found);
      }
      if changed && previous != currentAgent {
        if currentAgent.Some? {
          graceUntil := Some(tick.now + tick.graceWindow);
          published := [Published(currentAgent, false)];
        } else {
          graceUntil := None;
        }
      }
    }

    /** What the screen step publishes. */
    method ReadScreen(tick: Tick) returns (published: seq<Published>)
      modifies this`graceUntil, this`foregroundShellExitReported
      ensures Turn(State(), published) == ScreenTurn(task, old(State()), tick)
    {
      published := [];
      var exited := pendingForegroundShellClear && currentAgent.Some? && !foregroundShellExitReported;
      if tick.lifecycleAuthorityActive && !exited {
        return;
      }
      if graceUntil.Some? {
        if exited {
          graceUntil := None;
        } else {
          if tick.now < graceUntil.value {
            return;
          }
          graceUntil := None;
          return;
        }
      }
      if tick.skipsStateUpdate && (task.Full? || !exited) {
        return;
      }
      if exited || tick.screenPublishes {
        var event := ApplyPublish(exited);
        published := [event];
      }
    }

    /** One turn of the detection loop. */
    method Iterate(tick: Tick) returns (published: seq<Published>)
      modifies this
      ensures Turn(State(), published) == Next(task, old(State()), tick)
    {
      if tick.reset {
        currentAgent, consecutiveMisses := None, 0;
        pendingForegroundShellClear, foregroundShellExitReported, graceUntil := false, false, None;
      }
      var announced := ApplyProbe(tick);
      var screened := ReadScreen(tick);
      published := announced + screened;
    }
  }

  // ----- runs -----

  datatype Record = Record(tick: Tick, before: Option<Agent>, published: seq<Published>, after: Option<Agent>)

  /** The state after the ticks and what each of them did. */
  function StateAfter(task: Task, s: Loop, ticks: seq<Tick>): Loop {
    if ticks == [] then s
    else Next(task, StateAfter(task, s, ticks[..|ticks| - 1]), ticks[|ticks| - 1]).state
  }

  function History(task: Task, s: Loop, ticks: seq<Tick>): seq<Record> {
    if ticks == [] then []
    else
      var rest, tick := ticks[..|ticks| - 1], ticks[|ticks| - 1];
      var before := StateAfter(task, s, rest);
      var turn := Next(task, before, tick);
      History(task, s, rest) + [Record(tick, before.currentAgent, turn.published, turn.state.currentAgent)]
  }

  predicate Identifies(tick: Tick) {
    tick.probe.Some? && Found(tick).Some?
  }

  /** Unidentified probes since the last reset or identified probe. */
  function MissedProbes(history: seq<Record>): nat {
    if history == [] then 0
    else
      var tick := history[|history| - 1].tick;
      if Identifies(tick) then 0
      else (if tick.probe.Some? then 1 else 0)
           + if tick.reset then 0 else MissedProbes(history[..|history| - 1])
  }

  function ExitsIn(published: seq<Published>, agent: Agent): nat {
    if published == [] then 0
    else (if published[0] == Published(Some(agent), true) then 1 else 0) + ExitsIn(published[1..], agent)
  }

  /** Process exits announced for the agent since the last reset or identified probe. */
  function ExitsAnnounced(history: seq<Record>, agent: Agent): nat {
    if history == [] then 0
    else
      var last := history[|history| - 1];
      ExitsIn(last.published, agent)
      + if last.tick.reset || Identifies(last.tick) then 0 else ExitsAnnounced(history[..|history| - 1], agent)
  }

  /** What the loop's flags say about its history. */
  ghost predicate Tracks(s: Loop, history: seq<Record>) {
    && s.consecutiveMisses < AGENT_MISS_CONFIRMATION_ATTEMPTS
    && s.consecutiveMisses <= MissedProbes(history)
    && (s.foregroundShellExitReported ==> s.currentAgent.Some?)
    && (forall a :: ExitsAnnounced(history, a) <= 1)
    && (s.currentAgent.Some? ==>
          ExitsAnnounced(history, s.currentAgent.value) == if s.foregroundShellExitReported then 1 else 0)
  }

  lemma ExitsOfTurn(task: Task, s: Loop, tick: Tick, agent: Agent)
    requires s.foregroundShellExitReported ==> s.currentAgent.Some?
    ensures var probed := ProbeTurn(AfterReset(s, tick), tick).state;
      var turn := Next(task, s, tick);
      && turn.state.currentAgent == probed.currentAgent
      && ExitsIn(turn.published, agent)
         == (if turn.state.foregroundShellExitReported && !probed.foregroundShellExitReported
                && turn.state.currentAgent == Some(agent) then 1 else 0)
      && (turn.state.foregroundShellExitReported ==> turn.state.currentAgent.Some?)
  {
    var probed := ProbeTurn(AfterReset(s, tick), tick);
    var screened := ScreenTurn(task, probed.state, tick);
    ExitsConcat(probed.published, screened.published, agent);
    ExitsOfProbe(AfterReset(s, tick), tick, agent);
    ExitsOfScreen(task, probed.state, tick, agent);
  }

  lemma ExitsOfOne(event: Published, agent: Agent)
    ensures ExitsIn([event], agent) == if event == Published(Some(agent), true) then 1 else 0
  {
    assert [event][1..] == [] && ExitsIn([], agent) == 0;
  }

  lemma ExitsOfProbe(s: Loop, tick: Tick, agent: Agent)
    ensures ExitsIn(ProbeTurn(s, tick).published, agent) == 0
  {
    var turn := ProbeTurn(s, tick);
    if turn.published != [] {
      ExitsOfOne(Published(turn.state.currentAgent, false), agent);
    }
  }

  lemma ExitsOfScreen(task: Task, s: Loop, tick: Tick, agent: Agent)
    ensures var turn := ScreenTurn(task, s, tick);
      && turn.state.currentAgent == s.currentAgent
      && ExitsIn(turn.published, agent)
         == (if turn.state.foregroundShellExitReported && !s.foregroundShellExitReported
                && turn.state.currentAgent == Some(agent) then 1 else 0)
  {
    var turn := ScreenTurn(task, s, tick);
    if turn.published != [] {
      ExitsOfOne(turn.published[0], agent);
      assert turn.published == [turn.published[0]];
    }
  }

  lemma {:induction false} ExitsConcat(a: seq<Published>, b: seq<Published>, agent: Agent)
    ensures ExitsIn(a + b, agent) == ExitsIn(a, agent) + ExitsIn(b, agent)
  {
    if a == [] {
      assert a + b == b;
    } else {
      assert (a + b)[1..] == a[1..] + b;
      ExitsConcat(a[1..], b, agent);
    }
  }

  lemma MissesOfTurn(task: Task, s: Loop, tick: Tick)
    requires s.consecutiveMisses < AGENT_MISS_CONFIRMATION_ATTEMPTS
    ensures var misses := Next(task, s, tick).state.consecutiveMisses;
      && misses < AGENT_MISS_CONFIRMATION_ATTEMPTS
      && misses <= if Identifies(tick) then 0
                   else (if tick.probe.Some? then 1 else 0) + if tick.reset then 0 else s.consecutiveMisses
  {}

  /** The probe step forgets an announced exit when it identifies an agent or the loop was reset,
      and otherwise only together with the agent. */
  lemma ProbeKeepsAnnouncedExit(s: Loop, tick: Tick)
    requires s.foregroundShellExitReported ==> s.currentAgent.Some?
    ensures var probed := ProbeTurn(AfterReset(s, tick), tick).state;
      if tick.reset || Identifies(tick) then !probed.foregroundShellExitReported
      else && (probed.currentAgent.Some? ==> probed.currentAgent == s.currentAgent
                                             && probed.foregroundShellExitReported == s.foregroundShellExitReported)
           && (probed.currentAgent.None? ==> !probed.foregroundShellExitReported)
  {}

  lemma AnnouncedSoFar(history: seq<Record>, record: Record, agent: Agent)
    ensures ExitsAnnounced(history + [record], agent)
         == ExitsIn(record.published, agent)
            + if record.tick.reset || Identifies(record.tick) then 0 else ExitsAnnounced(history, agent)
  {
    assert (history + [record])[..|history|] == history;
  }

  lemma TurnTracks(task: Task, s: Loop, history: seq<Record>, tick: Tick)
    requires Tracks(s, history)
    ensures var turn := Next(task, s, tick);
      Tracks(turn.state, history + [Record(tick, s.currentAgent, turn.published, turn.state.currentAgent)])
  {
    var turn := Next(task, s, tick);
    var record := Record(tick, s.currentAgent, turn.published, turn.state.currentAgent);
    var all := history + [record];
    assert MissedProbes(all) == if Identifies(tick) then 0
        else (if tick.probe.Some? then 1 else 0) + if tick.reset then 0 else MissedProbes(history) by {
      assert all[..|history|] == history;
    }
    MissesOfTurn(task, s, tick);
    ProbeKeepsAnnouncedExit(s, tick);
    ExitsOfTurn(task, s, tick, 0);
    forall a: Agent
      ensures ExitsAnnounced(all, a) <= 1
      ensures turn.state.currentAgent == Some(a) ==>
                ExitsAnnounced(all, a) == if turn.state.foregroundShellExitReported then 1 else 0
    {
      ExitsOfTurn(task, s, tick, a);
      AnnouncedSoFar(history, record, a);
    }
  }

  lemma {:induction false} LoopTracksHistory(task: Task, agent: Option<Agent>, ticks: seq<Tick>)
    ensures Tracks(StateAfter(task, Start(agent), ticks), History(task, Start(agent), ticks))
  {
    if ticks != [] {
      LoopTracksHistory(task, agent, ticks[..|ticks| - 1]);
      TurnTracks(task, StateAfter(task, Start(agent), ticks[..|ticks| - 1]),
                 History(task, Start(agent), ticks[..|ticks| - 1]), ticks[|ticks| - 1]);
    }
  }

  lemma LossOfTurn(task: Task, s: Loop, tick: Tick, misses: nat)
    requires s.foregroundShellExitReported ==> s.currentAgent.Some?
    requires s.currentAgent.Some? && Next(task, s, tick).state.currentAgent.None?
    requires s.consecutiveMisses <= misses
    ensures || tick.reset
            || s.foregroundShellExitReported
            || (tick.probe.Some? && !Identifies(tick) && misses + 1 >= AGENT_MISS_CONFIRMATION_ATTEMPTS)
  {
    ExitsOfTurn(task, s, tick, 0);
  }

  /** An identity is lost only to a reset, to six unidentified probes with no identified one between
      them, or after the process exit of that very agent was announced. */
  lemma IdentityLostOnlyForCause(task: Task, agent: Option<Agent>, ticks: seq<Tick>, tick: Tick)
    requires StateAfter(task, Start(agent), ticks).currentAgent.Some?
    requires StateAfter(task, Start(agent), ticks + [tick]).currentAgent.None?
    ensures || tick.reset
            || MissedProbes(History(task, Start(agent), ticks + [tick])) >= AGENT_MISS_CONFIRMATION_ATTEMPTS
            || ExitsAnnounced(History(task, Start(agent), ticks),
                              StateAfter(task, Start(agent), ticks).currentAgent.value) == 1
  {
    var s, history := StateAfter(task, Start(agent), ticks), History(task, Start(agent), ticks);
    assert (ticks + [tick])[..|ticks|] == ticks;
    var all := History(task, Start(agent), ticks + [tick]);
    assert all[..|history|] == history;
    LoopTracksHistory(task, agent, ticks);
    LossOfTurn(task, s, tick, MissedProbes(history));
  }

  /** Between two identifications no process exit is announced twice. */
  lemma ExitAnnouncedAtMostOnce(task: Task, agent: Option<Agent>, ticks: seq<Tick>, a: Agent)
    ensures ExitsAnnounced(History(task, Start(agent), ticks), a) <= 1
  {
    LoopTracksHistory(task, agent, ticks);
  }

  predicate Unidentified(tick: Tick) {
    !tick.reset && tick.probe.Some? && Found(tick).None?
  }

  /** Only the full task leaves a turn on the screen's account before announcing an exit. */
  predicate SkipsExit(task: Task, tick: Tick) {
    task.Full? && tick.skipsStateUpdate
  }

  /** When the shell is back and the agent is not found, the exit is announced in the same turn,
      still under the agent's name, exactly unless the full task skips the screen. */
  lemma ShellBackAnnouncesExit(task: Task, s: Loop, tick: Tick)
    requires s.currentAgent.Some? && !s.foregroundShellExitReported
    requires Unidentified(tick) && tick.probe.value.foregroundIsPaneShell
    ensures var turn := Next(task, s, tick);
      && turn.published == (if SkipsExit(task, tick) then [] else [Published(s.currentAgent, true)])
      && turn.state.currentAgent == s.currentAgent && turn.state.consecutiveMisses == s.consecutiveMisses
      && (turn.state.foregroundShellExitReported <==> !SkipsExit(task, tick))
  {
    var probed := ProbeTurn(AfterReset(s, tick), tick);
    assert probed == Turn(s.(pendingForegroundShellClear := true), []);
  }

  /** Once the exit is announced, the next unidentified probe clears the agent and announces
      nothing more under its name. */
  lemma AnnouncedExitClears(task: Task, s: Loop, tick: Tick)
    requires s.currentAgent.Some? && s.foregroundShellExitReported && Unidentified(tick)
    ensures var turn := Next(task, s, tick);
      turn.state.currentAgent.None? && ExitsIn(turn.published, s.currentAgent.value) == 0
  {
    ExitsOfTurn(task, s, tick, s.currentAgent.value);
  }

  /** The two turns together. An announced exit clears the agent in the second. After a skipped
      one the agent is kept while the shell stays in front, and its exit announced by the first
      turn that is not skipped; with another process in front the miss counter decides. */
  lemma ShellBackMeansExitThenClear(task: Task, s: Loop, first: Tick, second: Tick)
    requires s.currentAgent.Some? && !s.foregroundShellExitReported
    requires Unidentified(first) && first.probe.value.foregroundIsPaneShell && Unidentified(second)
    ensures var one := Next(task, s, first);
      var two := Next(task, one.state, second);
      var exit := [Published(s.currentAgent, true)];
      && (one.published == exit <==> !SkipsExit(task, first))
      && one.state.currentAgent == s.currentAgent
      && (!SkipsExit(task, first) ==> two.state.currentAgent.None? && ExitsIn(two.published, s.currentAgent.value) == 0)
      && (SkipsExit(task, first) && second.probe.value.foregroundIsPaneShell ==>
            two.state.currentAgent == s.currentAgent && (two.published == exit <==> !SkipsExit(task, second)))
      && (SkipsExit(task, first) && !second.probe.value.foregroundIsPaneShell ==>
            (two.state.currentAgent == s.currentAgent <==> s.consecutiveMisses + 1 < AGENT_MISS_CONFIRMATION_ATTEMPTS))
  {
    ShellBackAnnouncesExit(task, s, first);
    var one := Next(task, s, first).state;
    if !SkipsExit(task, first) {
      AnnouncedExitClears(task, one, second);
    } else if second.probe.value.foregroundIsPaneShell {
      ShellBackAnnouncesExit(task, one, second);
    } else {
      OtherProcessCountsMiss(task, one, second);
    }
  }

  lemma OtherProcessCountsMiss(task: Task, s: Loop, tick: Tick)
    requires s.currentAgent.Some? && !s.foregroundShellExitReported
    requires Unidentified(tick) && !tick.probe.value.foregroundIsPaneShell
    ensures Next(task, s, tick).state.currentAgent
         == if s.consecutiveMisses + 1 < AGENT_MISS_CONFIRMATION_ATTEMPTS then s.currentAgent else None
  {
    ExitsOfTurn(task, s, tick, 0);
  }

  predicate ShellInFront(tick: Tick) {
    Unidentified(tick) && tick.probe.value.foregroundIsPaneShell
  }

  /** However many turns are skipped while the shell is in front, nothing is announced and the agent
      is kept; the first turn that is not skipped announces the exit. */
  lemma {:induction false} SkippedExitIsAnnouncedAtLast(task: Task, s: Loop, skipped: seq<Tick>, tick: Tick)
    requires s.currentAgent.Some? && !s.foregroundShellExitReported && ShellInFront(tick)
    requires forall i :: 0 <= i < |skipped| ==> ShellInFront(skipped[i]) && SkipsExit(task, skipped[i])
    ensures var waiting := StateAfter(task, s, skipped);
      && waiting.currentAgent == s.currentAgent && !waiting.foregroundShellExitReported
      && waiting.consecutiveMisses == s.consecutiveMisses
      && (forall record :: record in History(task, s, skipped) ==> record.published == [])
      && Next(task, waiting, tick).published
         == (if SkipsExit(task, tick) then [] else [Published(s.currentAgent, true)])
  {
    if skipped != [] {
      var rest, last := skipped[..|skipped| - 1], skipped[|skipped| - 1];
      SkippedExitIsAnnouncedAtLast(task, s, rest, last);
      ShellBackAnnouncesExit(task, StateAfter(task, s, rest), last);
    }
    ShellBackAnnouncesExit(task, StateAfter(task, s, skipped), tick);
  }
}
