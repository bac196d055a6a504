/** What the detection loop tells the rest of the program: when an agent is announced, how long it is
    left in peace, when the screen is reported, and when the identity survives missed probes. */
module AgentAnnouncements {
  import opened Machine
  import opened AgentDetection

  // ----- a newly found agent is announced -----

  /** The agent the loop holds when this turn's probe is looked at. */
  function HeldAt(s: Loop, tick: Tick): Option<Agent> {
    if tick.reset then None else s.currentAgent
  }

  /** The probe step announces an agent as idle exactly when it finds one that is not the current one,
      and adopts it; it announces nothing else. */
  lemma ProbeAnnouncesExactly(s: Loop, tick: Tick)
    ensures var turn := ProbeTurn(AfterReset(s, tick), tick);
      if Identifies(tick) && Found(tick) != HeldAt(s, tick)
      then turn.published == [Published(Found(tick), false)] && turn.state.currentAgent == Found(tick)
      else turn.published == []
  {}

  /** So does the whole turn, before anything the screen adds. */
  lemma TurnAnnounces(task: Task, s: Loop, tick: Tick, a: Agent)
    requires Identifies(tick) && Found(tick) == Some(a) && HeldAt(s, tick) != Some(a)
    ensures var turn := Next(task, s, tick);
      turn.state.currentAgent == Some(a) && turn.published != [] && turn.published[0] == Published(Some(a), false)
  {
    ProbeAnnouncesExactly(s, tick);
  }

  /** Only a probe that finds it makes an agent current. */
  lemma OnlyProbesAdopt(task: Task, s: Loop, tick: Tick, a: Agent)
    requires Next(task, s, tick).state.currentAgent == Some(a)
    ensures (!tick.reset && s.currentAgent == Some(a))
         || (Identifies(tick) && Found(tick) == Some(a) && HeldAt(s, tick) != Some(a))
  {}

  /** The agent was announced at turn `i`, not being current then, and has been current since. */
  ghost predicate AnnouncedAt(history: seq<Record>, i: nat, a: Agent)
    requires i < |history|
  {
    && Published(Some(a), false) in history[i].published
    && (history[i].before != Some(a) || history[i].tick.reset)
    && forall j :: i <= j < |history| ==> history[j].after == Some(a)
  }

  ghost predicate AnnouncedSince(history: seq<Record>, a: Agent) {
    exists i :: 0 <= i < |history| && AnnouncedAt(history, i, a)
  }

  /** In every run from no agent: whoever is current was announced when it became so. */
  lemma {:induction false} CurrentWasAnnounced(task: Task, ticks: seq<Tick>, a: Agent)
    requires StateAfter(task, Start(None), ticks).currentAgent == Some(a)
    ensures AnnouncedSince(History(task, Start(None), ticks), a)
  {
    var rest, tick := ticks[..|ticks| - 1], ticks[|ticks| - 1];
    var s, history := StateAfter(task, Start(None), rest), History(task, Start(None), rest);
    var turn := Next(task, s, tick);
    var record := Record(tick, s.currentAgent, turn.published, turn.state.currentAgent);
    assert History(task, Start(None), ticks) == history + [record];
    OnlyProbesAdopt(task, s, tick, a);
    if Identifies(tick) && Found(tick) == Some(a) && HeldAt(s, tick) != Some(a) {
      TurnAnnounces(task, s, tick, a);
      NewlyAnnounced(history, record, a);
    } else {
      CurrentWasAnnounced(task, rest, a);
      StillAnnounced(history, record, a);
    }
  }

  lemma NewlyAnnounced(history: seq<Record>, record: Record, a: Agent)
    requires Published(Some(a), false) in record.published && record.after == Some(a)
    requires record.before != Some(a) || record.tick.reset
    ensures AnnouncedSince(history + [record], a)
  {
    var all := history + [record];
    assert all[|history|] == record && AnnouncedAt(all, |history|, a);
  }

  lemma StillAnnounced(history: seq<Record>, record: Record, a: Agent)
    requires AnnouncedSince(history, a) && record.after == Some(a)
    ensures AnnouncedSince(history + [record], a)
  {
    var i :| 0 <= i < |history| && AnnouncedAt(history, i, a);
    var all := history + [record];
    assert forall j :: 0 <= j < |history| ==> all[j] == history[j];
    assert AnnouncedAt(all, i, a);
  }

  // ----- then it is left in peace -----

  /** Neither a reset nor a probe that finds anything else. */
  predicate Undisturbed(tick: Tick, a: Agent) {
    !tick.reset && (tick.probe.Some? ==> Found(tick) == Some(a))
  }

  ghost predicate InGrace(s: Loop, a: Agent, until: nat) {
    s.currentAgent == Some(a) && !s.pendingForegroundShellClear && s.graceUntil == Some(until)
  }

  lemma GraceTurnIsQuiet(task: Task, s: Loop, tick: Tick, a: Agent, until: nat)
    requires InGrace(s, a, until) && Undisturbed(tick, a) && tick.now < until
    ensures var turn := Next(task, s, tick); turn.published == [] && InGrace(turn.state, a, until)
  {}

  lemma AdoptionStartsGrace(task: Task, s: Loop, tick: Tick, a: Agent)
    requires Identifies(tick) && Found(tick) == Some(a) && HeldAt(s, tick) != Some(a) && tick.graceWindow > 0
    ensures var turn := Next(task, s, tick);
      turn.published == [Published(Some(a), false)] && InGrace(turn.state, a, tick.now + tick.graceWindow)
  {}

  /** Within its grace window a newly announced agent stays current and nothing more is published,
      whatever the screen shows. */
  lemma {:induction false} GraceIsQuiet(task: Task, s: Loop, first: Tick, a: Agent, ticks: seq<Tick>)
    requires Identifies(first) && Found(first) == Some(a) && HeldAt(s, first) != Some(a) && first.graceWindow > 0
    requires forall i :: 0 <= i < |ticks| ==>
               Undisturbed(ticks[i], a) && ticks[i].now < first.now + first.graceWindow
    ensures var adopted := Next(task, s, first);
      && adopted.published == [Published(Some(a), false)]
      && InGrace(StateAfter(task, adopted.state, ticks), a, first.now + first.graceWindow)
      && forall record :: record in History(task, adopted.state, ticks) ==> record.published == []
  {
    AdoptionStartsGrace(task, s, first, a);
    if ticks != [] {
      var rest, last := ticks[..|ticks| - 1], ticks[|ticks| - 1];
      GraceIsQuiet(task, s, first, a, rest);
      GraceTurnIsQuiet(task, StateAfter(task, Next(task, s, first).state, rest), last, a, first.now + first.graceWindow);
    }
  }

  /** Outside a grace window, and with no exit to announce, a turn without a probe reports the screen
      exactly when the screen asks for it, updates are not skipped, and no other authority reports. */
  lemma ScreenIsReportedExactly(task: Task, s: Loop, tick: Tick)
    requires !tick.reset && tick.probe.None? && !s.pendingForegroundShellClear && s.graceUntil.None?
    ensures Next(task, s, tick).published
         == if tick.screenPublishes && !tick.skipsStateUpdate && !tick.lifecycleAuthorityActive
            then [Published(s.currentAgent, false)] else []
    ensures Next(task, s, tick).state == s
  {}

  /** The turn that ends a grace window still reports nothing. */
  lemma GraceEndsQuietly(task: Task, s: Loop, tick: Tick, a: Agent, until: nat)
    requires InGrace(s, a, until) && !tick.reset && tick.probe.None? && until <= tick.now
    ensures var turn := Next(task, s, tick);
      turn.published == []
      && turn.state == if tick.lifecycleAuthorityActive then s else s.(graceUntil := None)
  {}

  /** An agent that is being released is not found again by its own probe. */
  lemma SuppressedAgentIsNotFound(task: Task, s: Loop, tick: Tick, a: Agent, shell: bool)
    requires tick.suppressed == Some(a) && tick.probe == Some(Probe(Some(a), shell))
    ensures Next(task, s, tick) == Next(task, s, tick.(probe := Some(Probe(None, shell))))
  {}

  // ----- missed probes -----

  /** No reset, and probes, if any, find nothing while another process is in front. */
  predicate Missed(tick: Tick) {
    !tick.reset && (tick.probe.Some? ==> Found(tick).None? && !tick.probe.value.foregroundIsPaneShell)
  }

  function ProbesIn(ticks: seq<Tick>): nat {
    if ticks == [] then 0
    else ProbesIn(ticks[..|ticks| - 1]) + if ticks[|ticks| - 1].probe.Some? then 1 else 0
  }

  lemma MissedTurn(task: Task, s: Loop, tick: Tick)
    requires Missed(tick) && !s.pendingForegroundShellClear && !s.foregroundShellExitReported
    requires s.consecutiveMisses < 6
    ensures var next := Next(task, s, tick).state;
      && !next.pendingForegroundShellClear && !next.foregroundShellExitReported
      && (s.currentAgent.None? ==> next.currentAgent.None? && next.consecutiveMisses < 6)
      && (s.currentAgent.Some? && tick.probe.None? ==>
            next.currentAgent == s.currentAgent && next.consecutiveMisses == s.consecutiveMisses)
      && (s.currentAgent.Some? && tick.probe.Some? && s.consecutiveMisses < 5 ==>
            next.currentAgent == s.currentAgent && next.consecutiveMisses == s.consecutiveMisses + 1)
      && (s.currentAgent.Some? && tick.probe.Some? && s.consecutiveMisses == 5 ==>
            next.currentAgent.None? && next.consecutiveMisses == 0)
  {}

  /** An identity just confirmed outlasts exactly five probes that miss it. */
  lemma {:induction false} IdentityOutlastsFiveMisses(task: Task, s: Loop, ticks: seq<Tick>)
    requires s.currentAgent.Some? && s.consecutiveMisses == 0
    requires !s.pendingForegroundShellClear && !s.foregroundShellExitReported
    requires forall i :: 0 <= i < |ticks| ==> Missed(ticks[i])
    ensures var now := StateAfter(task, s, ticks);
      && !now.pendingForegroundShellClear && !now.foregroundShellExitReported && now.consecutiveMisses < 6
      && now.currentAgent == (if ProbesIn(ticks) <= 5 then s.currentAgent else None)
      && (ProbesIn(ticks) <= 5 ==> now.consecutiveMisses == ProbesIn(ticks))
  {
    if ticks != [] {
      var rest := ticks[..|ticks| - 1];
      IdentityOutlastsFiveMisses(task, s, rest);
      MissedTurn(task, StateAfter(task, s, rest), ticks[|ticks| - 1]);
    }
  }

  /** And every probe that finds the agent confirms it afresh. */
  lemma FoundAgentIsConfirmed(task: Task, s: Loop, tick: Tick)
    requires Identifies(tick)
    ensures var next := Next(task, s, tick).state;
      next.currentAgent == Found(tick) && next.consecutiveMisses == 0
      && !next.pendingForegroundShellClear && !next.foregroundShellExitReported
  {}

  // ----- what is forgotten -----

  /** A reset starts the loop afresh before the turn's own probe counts. */
  lemma ResetStartsAfresh(task: Task, s: Loop, tick: Tick)
    requires tick.reset
    ensures Next(task, s, tick) == Next(task, Loop(None, 0, false, false, None), tick.(reset := false))
  {}

  /** A turn that loses the agent leaves no grace window, no pending exit and no count behind. */
  lemma LossLeavesNothingBehind(task: Task, s: Loop, tick: Tick)
    requires !tick.reset && s.currentAgent.Some? && Next(task, s, tick).state.currentAgent.None?
    ensures Next(task, s, tick).state == Loop(None, 0, false, false, None)
  {}

  /** Announcing an exit, or waiting for the screen to let it through, ends the grace window. */
  lemma ExitEndsGrace(task: Task, s: Loop, tick: Tick)
    requires s.currentAgent.Some? && !s.foregroundShellExitReported
    requires Unidentified(tick) && tick.probe.value.foregroundIsPaneShell
    ensures Next(task, s, tick).state.graceUntil.None?
  {}
}
