/** `prepare_exact_process_exit_guard` followed by `wait_prepared_exact_process_exit`: the handle
    that was checked is kept in a guard, and held until the evidence has been written. */
module OwnedProcessGuard {
  import opened Wrappers
  import opened ProcessIdentity
  import opened WindowsProcesses

  datatype Evidence = Evidence(
    request: Request,
    exactIdentityExited: bool,
    pidReused: bool)

  /** The next call. At `Guarded` the caller has the guard and has not started to wait; a failure
      there is the caller dropping it. */
  datatype Point =
    | Opening
    | Querying(handle: nat)
    | Checking(handle: nat, actual: Identity)
    | Guarded(handle: nat)
    | Waiting(handle: nat)
    | Writing(handle: nat)
    | Dropping(handle: nat)
    | Finished

  datatype Guard = Guard(os: Os, at: Point, written: Option<Evidence>)

  function Start(os: Os): Guard {
    Guard(os, Opening, None)
  }

  function ToolStep(options: Options, s: Guard, answer: Answer): Guard {
    match s.at
    case Opening =>
      if answer != Success || options.processId !in s.os.table then s.(at := Finished)
      else s.(os := Open(s.os, options.processId), at := Querying(s.os.nextHandle))
    case Querying(handle) =>
      (match ReadIdentity(s.os, handle, answer)
       case None => s.(at := Dropping(handle))
       case Some(actual) => s.(at := Checking(handle, actual)))
    case Checking(handle, actual) =>
      s.(at := if SameIdentity(actual, options) == Same then Guarded(handle) else Dropping(handle))
    case Guarded(handle) =>
      s.(at := if answer == Success && options.timeoutSeconds > 0 then Waiting(handle) else Dropping(handle))
    case Waiting(handle) =>
      if answer == Failure || !IsOpen(s.os, handle) then s.(at := Dropping(handle))
      else if s.os.processes[s.os.own[handle]].exited then s.(at := Writing(handle))
      else if answer == Timeout then s.(at := Dropping(handle))
      else s
    case Writing(handle) =>
      var evidence := Evidence(RequestOf(options), true, false);
      s.(at := Dropping(handle), written := if answer == Success then Some(evidence) else None)
    case Dropping(handle) => s.(os := Close(s.os, handle), at := Finished)
    case Finished => s
  }

  function Step(options: Options, s: Guard, turn: Turn): Guard {
    match turn
    case Other(event) => s.(os := Happen(s.os, event))
    case Tool(answer) => ToolStep(options, s, answer)
  }

  /** The state after any sequence of tool steps and other events, stopped anywhere. */
  function Run(options: Options, os: Os, turns: seq<Turn>): Guard
    decreases |turns|
  {
    if turns == [] then Start(os)
    else Step(options, Run(options, os, turns[..|turns| - 1]), turns[|turns| - 1])
  }

  predicate HasHandle(at: Point) {
    !at.Opening? && !at.Finished?
  }

  ghost predicate Ready(options: Options, s: Guard) {
    && Valid(s.os)
    && s.os.own.Keys == (if HasHandle(s.at) then {s.at.handle} else {})
    && (HasHandle(s.at) ==>
          && s.os.own[s.at.handle] < |s.os.processes|
          && s.os.processes[s.os.own[s.at.handle]].pid == options.processId)
  }

  /** Steps that neither open nor close keep the handle. */
  lemma QuietKeepsReady(options: Options, s: Guard, next: Guard)
    requires Ready(options, s) && HasHandle(s.at)
    requires next.os == s.os && HasHandle(next.at) && next.at.handle == s.at.handle
    ensures Ready(options, next)
  {
  }

  lemma ToolKeepsReady(options: Options, s: Guard, answer: Answer)
    requires Ready(options, s)
    ensures Ready(options, ToolStep(options, s, answer))
  {
    if s.at.Opening? && options.processId in s.os.table {
      OpenKeepsValid(s.os, options.processId);
    } else if s.at.Dropping? {
      CloseKeepsValid(s.os, s.at.handle);
      assert Close(s.os, s.at.handle).own.Keys == s.os.own.Keys - {s.at.handle};
    } else if HasHandle(s.at) {
      QuietKeepsReady(options, s, ToolStep(options, s, answer));
    }
  }

  /** Once the guard is handed out it is to a match; once the wait has answered, that match is gone. */
  ghost predicate Invariant(options: Options, s: Guard) {
    && Ready(options, s)
    && (HasHandle(s.at) ==>
          var p := s.os.processes[s.os.own[s.at.handle]];
          && (s.at.Checking? ==> Query(p) == Some(s.at.actual))
          && (s.at.Guarded? || s.at.Waiting? || s.at.Writing? || s.written.Some? ==> Matches(p, options))
          && (s.at.Writing? || s.written.Some? ==> p.exited))
    && (s.written.Some? ==>
          && (s.at.Dropping? || s.at.Finished?)
          && s.written.value.request == RequestOf(options)
          && s.written.value.exactIdentityExited && !s.written.value.pidReused)
  }

  lemma EventKeepsInvariant(options: Options, s: Guard, event: Event)
    requires Invariant(options, s)
    ensures Invariant(options, s.(os := Happen(s.os, event)))
  {
    HappenKeepsValid(s.os, event);
  }

  lemma ToolKeepsInvariant(options: Options, s: Guard, answer: Answer)
    requires Invariant(options, s)
    ensures Invariant(options, ToolStep(options, s, answer))
  {
    ToolKeepsReady(options, s, answer);
  }

  lemma {:induction false} RunKeepsInvariant(options: Options, os: Os, turns: seq<Turn>)
    requires Valid(os) && os.own == map[]
    ensures Invariant(options, Run(options, os, turns))
    decreases |turns|
  {
    if turns == [] {
    } else {
      var sooner, turn := turns[..|turns| - 1], turns[|turns| - 1];
      RunKeepsInvariant(options, os, sooner);
      match turn
      case Other(event) => EventKeepsInvariant(options, Run(options, os, sooner), event);
      case Tool(answer) => ToolKeepsInvariant(options, Run(options, os, sooner), answer);
    }
  }

  /** In every state of every run, a written file says `exact_identity_exited=true` and
      `pid_reused=false`; and from the write until the guard is dropped both are true of the system:
      no running process matches, and the PID still names the process that was checked. */
  lemma GuardedEvidenceIsTrue(options: Options, os: Os, turns: seq<Turn>)
    requires Valid(os) && os.own == map[]
    ensures var s := Run(options, os, turns);
            s.written.Some? ==>
              && s.written.value.request == Request(options.processId, options.expectedExecutable, options.expectedStartTime)
              && s.written.value.exactIdentityExited && !s.written.value.pidReused
              && (!s.at.Finished? ==>
                    && Valid(s.os)
                    && ExactIdentityExited(s.os, options)
                    && !PidReused(s.os, options) && options.processId in s.os.table)
  {
    var s := Run(options, os, turns);
    RunKeepsInvariant(options, os, turns);
    if s.written.Some? && !s.at.Finished? {
      assert Bound(s.os, s.os.own[s.at.handle]);
      NoOtherMatch(s.os, options);
    }
  }

  lemma RunOneMore(options: Options, os: Os, turns: seq<Turn>, turn: Turn)
    ensures Run(options, os, turns + [turn]) == Step(options, Run(options, os, turns), turn)
  {
    assert (turns + [turn])[..|turns|] == turns;
  }

  // ---------- failing calls ----------

  /** The call the tool makes next fails if it gets this answer. */
  predicate Fails(s: Guard, answer: Answer) {
    match s.at
    case Checking(_, _) => false
    case Waiting(handle) =>
      answer == Failure || (answer == Timeout && IsOpen(s.os, handle) && !s.os.processes[s.os.own[handle]].exited)
    case Dropping(_) => false
    case Finished => false
    case _ => answer != Success
  }

  /** Nothing is written and nothing will be. */
  predicate GivenUp(s: Guard) {
    s.written.None? && (s.at.Dropping? || s.at.Finished?)
  }

  lemma FailureGivesUp(options: Options, s: Guard, answer: Answer)
    requires Invariant(options, s) && Fails(s, answer)
    ensures GivenUp(ToolStep(options, s, answer))
  {
  }

  lemma StaysGivenUp(options: Options, s: Guard, turn: Turn)
    requires GivenUp(s)
    ensures GivenUp(Step(options, s, turn))
  {
  }

  /** After a failing call no evidence is written in any continuation of the run. */
  lemma FailedCallLeavesNoEvidence(options: Options, os: Os, turns: seq<Turn>, answer: Answer, more: seq<Turn>)
    requires Valid(os) && os.own == map[] && Fails(Run(options, os, turns), answer)
    ensures Run(options, os, turns + [Tool(answer)] + more).written.None?
  {
    RunKeepsInvariant(options, os, turns);
    RunOneMore(options, os, turns, Tool(answer));
    FailureGivesUp(options, Run(options, os, turns), answer);
    var run := (ts: seq<Turn>) => Run(options, os, ts);
    forall ts, turn | GivenUp(run(ts))
      ensures GivenUp(run(ts + [turn]))
    {
      RunOneMore(options, os, ts, turn);
      StaysGivenUp(options, run(ts), turn);
    }
    KeptForever(run, s => GivenUp(s), turns + [Tool(answer)], more);
  }

  /** How many calls are left at most. */
  function Away(s: Guard): nat {
    match s.at
    case Opening => 7
    case Querying(_) => 6
    case Checking(_, _) => 5
    case Guarded(_) => 4
    case Waiting(_) => 3
    case Writing(_) => 2
    case Dropping(_) => 1
    case Finished => 0
  }

  /** The tool goes on waiting for a process that is still running. */
  predicate StillWaits(s: Guard, turn: Turn) {
    turn == Tool(Success) && s.at.Waiting? && IsOpen(s.os, s.at.handle) && !s.os.processes[s.os.own[s.at.handle]].exited
  }

  lemma CallComesNearer(options: Options, s: Guard, turn: Turn)
    ensures Away(Step(options, s, turn)) <= Away(s)
    ensures turn.Tool? && !StillWaits(s, turn) && Away(s) > 0 ==> Away(Step(options, s, turn)) < Away(s)
  {
  }

  lemma FinishedHoldsNothing(options: Options, os: Os, turns: seq<Turn>)
    requires Valid(os) && os.own == map[] && Run(options, os, turns).at.Finished?
    ensures Run(options, os, turns).os.own == map[]
  {
    RunKeepsInvariant(options, os, turns);
  }

  /** Every run ends, and with no handle open: after seven calls that do more than wait on. */
  lemma EveryRunEnds(options: Options, os: Os, turns: seq<Turn>)
    requires Valid(os) && os.own == map[]
    requires Calls((ts: seq<Turn>) => Run(options, os, ts), (s: Guard, turn: Turn) => StillWaits(s, turn), turns) >= 7
    ensures Run(options, os, turns).at.Finished? && Run(options, os, turns).os.own == map[]
  {
    var run, idle := (ts: seq<Turn>) => Run(options, os, ts), (s: Guard, turn: Turn) => StillWaits(s, turn);
    var away := (s: Guard) => Away(s);
    forall ts, turn
      ensures away(run(ts + [turn])) <= away(run(ts))
      ensures turn.Tool? && !idle(run(ts), turn) && away(run(ts)) > 0 ==> away(run(ts + [turn])) < away(run(ts))
    {
      RunOneMore(options, os, ts, turn);
      CallComesNearer(options, run(ts), turn);
    }
    CallsLeadToEnd(run, idle, away, turns);
    FinishedHoldsNothing(options, os, turns);
  }

  // ---------- what happens when no call fails ----------

  /** `n` calls of the tool, none of which fails, with nothing else happening in between. */
  function Undisturbed(options: Options, s: Guard, n: nat): Guard {
    Iterate((t: Guard) => ToolStep(options, t, Success), s, n)
  }

  /** A guard is handed out exactly when the PID names the process asked for. */
  lemma GuardOnlyForMatch(options: Options, os: Os)
    requires Valid(os) && os.own == map[] && options.processId in os.table
    ensures var s := Undisturbed(options, Start(os), 3);
            && s.written.None? && (s.at.Guarded? || s.at.Dropping? || s.at.Finished?)
            && (s.at.Guarded? <==> IsExpected(os.processes[os.table[options.processId]], options))
            && (s.at.Guarded? ==> s.os == Open(os, options.processId) && s.at.handle == os.nextHandle)
  {
    var s := Start(os);
    MatchMeaning(os.processes[os.table[options.processId]], options);
    assert Undisturbed(options, s, 1).at == Querying(os.nextHandle);
    assert Query(os.processes[os.table[options.processId]]).Some? ==> Undisturbed(options, s, 2).at.Checking?;
    assert Query(os.processes[os.table[options.processId]]).None? ==> Undisturbed(options, s, 2).at.Dropping?;
  }

  /** Waiting on a guard whose process has exited writes the evidence and closes the handle; a zero
      timeout is refused. */
  lemma GuardedWaitReports(options: Options, s: Guard)
    requires Ready(options, s) && s.at.Guarded? && s.written.None?
    requires s.os.processes[s.os.own[s.at.handle]].exited
    ensures Undisturbed(options, s, 4).written
            == if options.timeoutSeconds > 0 then Some(Evidence(RequestOf(options), true, false)) else None
    ensures Undisturbed(options, s, 4).at.Finished?
    ensures options.timeoutSeconds > 0 ==>
              Undisturbed(options, s, 4).at.Finished? && s.at.handle !in Undisturbed(options, s, 4).os.own
  {
    assert IsOpen(s.os, s.at.handle);
    if options.timeoutSeconds > 0 {
      assert Undisturbed(options, s, 1).at.Waiting?;
      assert Undisturbed(options, s, 2).at.Writing?;
      assert Undisturbed(options, s, 3).at.Dropping?;
    } else {
      assert Undisturbed(options, s, 1).at.Dropping?;
      assert Undisturbed(options, s, 2).at.Finished?;
    }
  }

  /** A guard on a process that is still running waits on, unless the timeout is zero. */
  lemma GuardedWaitGoesOn(options: Options, s: Guard)
    requires Ready(options, s) && s.at.Guarded? && s.written.None?
    requires !s.os.processes[s.os.own[s.at.handle]].exited
    ensures var t := Undisturbed(options, s, 5);
            t.written.None? && (if options.timeoutSeconds > 0 then t.at.Waiting? else t.at.Finished?)
  {
    assert IsOpen(s.os, s.at.handle);
    if options.timeoutSeconds > 0 {
      var waiting := s.(at := Waiting(s.at.handle));
      assert Undisturbed(options, s, 1) == waiting && ToolStep(options, waiting, Success) == waiting;
      IterateAtRest((t: Guard) => ToolStep(options, t, Success), s, 1, 4);
    } else {
      assert Undisturbed(options, s, 1).at.Dropping?;
      assert Undisturbed(options, s, 2).at.Finished?;
      IterateAtRest((t: Guard) => ToolStep(options, t, Success), s, 2, 3);
    }
  }

  lemma RefusedIsDropped(options: Options, s: Guard)
    requires s.at.Dropping? || s.at.Finished?
    ensures Undisturbed(options, s, 5).at.Finished? && Undisturbed(options, s, 5).written == s.written
  {
    assert Undisturbed(options, s, 1).at.Finished? && Undisturbed(options, s, 1).written == s.written;
    IterateAtRest((t: Guard) => ToolStep(options, t, Success), s, 1, 4);
  }

  lemma WaitOutcome(options: Options, s: Guard, exited: bool)
    requires s.written.None? && (s.at.Guarded? || s.at.Dropping? || s.at.Finished?)
    requires s.at.Guarded? ==> Ready(options, s) && s.os.processes[s.os.own[s.at.handle]].exited == exited
    ensures var t := Undisturbed(options, s, 5); var waited := s.at.Guarded? && options.timeoutSeconds > 0;
            && t.written == (if waited && exited then Some(Evidence(RequestOf(options), true, false)) else None)
            && (if waited && !exited then t.at.Waiting? else t.at.Finished?)
  {
    if !s.at.Guarded? {
      RefusedIsDropped(options, s);
    } else if exited {
      GuardedWaitReports(options, s);
      IterateAtRest((t: Guard) => ToolStep(options, t, Success), s, 4, 1);
    } else {
      GuardedWaitGoesOn(options, s);
    }
  }

  lemma OpenedIsReady(options: Options, os: Os)
    requires Valid(os) && os.own == map[] && options.processId in os.table
    ensures Ready(options, Guard(Open(os, options.processId), Guarded(os.nextHandle), None))
  {
    OpenKeepsValid(os, options.processId);
  }

  /** What the guard and its wait do when no call fails and nothing else happens, for every system: the
      evidence is written exactly for the process asked for, once it has exited and if there is time to
      wait; only a running one is waited for. */
  lemma QuietOutcome(options: Options, os: Os)
    requires Valid(os) && os.own == map[]
    ensures var s := Undisturbed(options, Start(os), 8);
            var found := options.processId in os.table && IsExpected(os.processes[os.table[options.processId]], options)
                         && options.timeoutSeconds > 0;
            if found && os.processes[os.table[options.processId]].exited then
              && s.at.Finished?
              && s.written == Some(Evidence(
                   Request(options.processId, options.expectedExecutable, options.expectedStartTime), true, false))
            else s.written.None? && (if found then s.at.Waiting? else s.at.Finished?)
  {
    var s := Start(os);
    if options.processId !in os.table {
      assert Undisturbed(options, s, 1).at.Finished?;
      IterateAtRest((t: Guard) => ToolStep(options, t, Success), s, 1, 7);
    } else {
      GuardOnlyForMatch(options, os);
      OpenedIsReady(options, os);
      WaitOutcome(options, Undisturbed(options, s, 3), os.processes[os.table[options.processId]].exited);
      IterateAfter((t: Guard) => ToolStep(options, t, Success), s, 3, 5);
    }
  }
}
