/** `kill_exact_owned_process` as a protocol: one step for each call it makes, any events of the
    rest of the system between them, and every call able to fail. */
module OwnedProcessKill {
  import opened Wrappers
  import opened ProcessIdentity
  import opened WindowsProcesses

  datatype Evidence = Evidence(request: Request, actual: Identity, killed: bool)

  /** The next call; `handle` is the tool's open handle and `evidence` the value under construction. */
  datatype Point =
    | Opening
    | Querying(handle: nat)
    | Checking(handle: nat, actual: Identity)
    | Terminating(handle: nat, evidence: Evidence)
    | Waiting(handle: nat, evidence: Evidence)
    | Writing(handle: nat, evidence: Evidence)
    | Dropping(handle: nat)
    | Finished

  /** `terminated` lists the objects TerminateProcess was successfully called on, `written` the
      evidence file once it has been written. */
  datatype Kill = Kill(os: Os, at: Point, terminated: seq<nat>, written: Option<Evidence>)

  function Start(os: Os): Kill {
    Kill(os, Opening, [], None)
  }

  function ToolStep(options: Options, s: Kill, answer: Answer): Kill {
    match s.at
    case Opening =>
      if answer != Success || options.processId !in s.os.table then s.(at := Finished)
      else s.(os := Open(s.os, options.processId), at := Querying(s.os.nextHandle))
    case Querying(handle) =>
      (match ReadIdentity(s.os, handle, answer)
       case None => s.(at := Dropping(handle))
       case Some(actual) => s.(at := Checking(handle, actual)))
    case Checking(handle, actual) =>
      if answer != Success || SameIdentity(actual, options) != Same then s.(at := Dropping(handle))
      else s.(at := Terminating(handle, Evidence(RequestOf(options), actual, false)))
    case Terminating(handle, evidence) =>
      if answer != Success || !IsOpen(s.os, handle) then s.(at := Dropping(handle))
      else s.(at := Waiting(handle, evidence), terminated := s.terminated + [s.os.own[handle]])
    case Waiting(handle, evidence) =>
      if answer == Failure || !IsOpen(s.os, handle) then s.(at := Dropping(handle))
      else if s.os.processes[s.os.own[handle]].exited then s.(at := Writing(handle, evidence.(killed := true)))
      else if answer == Timeout then s.(at := Dropping(handle))
      else s
    case Writing(handle, evidence) =>
      s.(at := Dropping(handle), written := if answer == Success then Some(evidence) else None)
    case Dropping(handle) => s.(os := Close(s.os, handle), at := Finished)
    case Finished => s
  }

  function Step(options: Options, s: Kill, turn: Turn): Kill {
    match turn
    case Other(event) => s.(os := Happen(s.os, event))
    case Tool(answer) => ToolStep(options, s, answer)
  }

  /** The state after any sequence of tool steps and other events, stopped anywhere. */
  function Run(options: Options, os: Os, turns: seq<Turn>): Kill
    decreases |turns|
  {
    if turns == [] then Start(os)
    else Step(options, Run(options, os, turns[..|turns| - 1]), turns[|turns| - 1])
  }

  lemma RunOneMore(options: Options, os: Os, turns: seq<Turn>, turn: Turn)
    ensures Run(options, os, turns + [turn]) == Step(options, Run(options, os, turns), turn)
  {
    assert (turns + [turn])[..|turns|] == turns;
  }

  // ---------- handles ----------

  /** The tool's only open handle, and it is to an object with the requested PID. */
  ghost predicate Holds(options: Options, os: Os, handle: nat) {
    && os.own.Keys == {handle}
    && os.own[handle] < |os.processes|
    && os.processes[os.own[handle]].pid == options.processId
  }

  /** Between opening and dropping, the tool holds exactly the handle it goes by. */
  ghost predicate Ready(options: Options, s: Kill) {
    && Valid(s.os)
    && (if s.at.Opening? || s.at.Finished? then s.os.own == map[] else Holds(options, s.os, s.at.handle))
  }

  lemma OpenKeepsReady(options: Options, s: Kill)
    requires Ready(options, s) && s.at.Opening? && options.processId in s.os.table
    ensures Ready(options, s.(os := Open(s.os, options.processId), at := Querying(s.os.nextHandle)))
  {
    OpenKeepsValid(s.os, options.processId);
  }

  lemma DropKeepsReady(options: Options, s: Kill)
    requires Ready(options, s) && s.at.Dropping?
    ensures Ready(options, s.(os := Close(s.os, s.at.handle), at := Finished))
  {
    CloseKeepsValid(s.os, s.at.handle);
    assert s.os.own.Keys - {s.at.handle} == {};
  }

  /** Steps that neither open nor close keep the handle. */
  lemma QuietKeepsReady(options: Options, s: Kill, next: Kill)
    requires Ready(options, s) && next.os == s.os
    requires !s.at.Opening? && !s.at.Finished? && !next.at.Opening? && !next.at.Finished?
    requires next.at.handle == s.at.handle
    ensures Ready(options, next)
  {
  }

  lemma ToolKeepsReady(options: Options, s: Kill, answer: Answer)
    requires Ready(options, s)
    ensures Ready(options, ToolStep(options, s, answer))
  {
    if s.at.Opening? {
      if options.processId in s.os.table { OpenKeepsReady(options, s); }
    } else if s.at.Dropping? {
      DropKeepsReady(options, s);
    } else if !s.at.Finished? {
      QuietKeepsReady(options, s, ToolStep(options, s, answer));
    }
  }

  lemma StepKeepsReady(options: Options, s: Kill, turn: Turn)
    requires Ready(options, s)
    ensures Ready(options, Step(options, s, turn))
  {
    match turn
    case Other(event) => HappenKeepsValid(s.os, event);
    case Tool(answer) => ToolKeepsReady(options, s, answer);
  }

  lemma {:induction false} RunKeepsReady(options: Options, os: Os, turns: seq<Turn>)
    requires Valid(os) && os.own == map[]
    ensures Ready(options, Run(options, os, turns))
    decreases |turns|
  {
    if turns == [] {
    } else {
      RunKeepsReady(options, os, turns[..|turns| - 1]);
      StepKeepsReady(options, Run(options, os, turns[..|turns| - 1]), turns[|turns| - 1]);
    }
  }

  // ---------- only the exact process is killed ----------

  /** The evidence describes this object, whose identity was found to match. */
  predicate Describes(options: Options, evidence: Evidence, p: Process) {
    && Matches(p, options)
    && evidence.request == RequestOf(options)
    && Query(p) == Some(evidence.actual)
  }

  /** TerminateProcess reached at most one object, and it matched. */
  ghost predicate OnlyMatchTerminated(options: Options, os: Os, terminated: seq<nat>) {
    && |terminated| <= 1
    && (terminated != [] ==> terminated[0] < |os.processes| && Matches(os.processes[terminated[0]], options))
  }

  /** A written file says truthfully that this object was killed and is gone. */
  ghost predicate TrueEvidence(options: Options, s: Kill) {
    && |s.terminated| == 1 && s.terminated[0] < |s.os.processes|
    && s.written.Some? && s.written.value.killed
    && s.os.processes[s.terminated[0]].exited
    && Describes(options, s.written.value, s.os.processes[s.terminated[0]])
  }

  /** What the tool has established at each point. */
  ghost predicate Established(options: Options, s: Kill)
    requires Ready(options, s)
  {
    match s.at
    case Opening => s.terminated == []
    case Querying(handle) => s.terminated == []
    case Checking(handle, actual) =>
      s.terminated == [] && Query(s.os.processes[s.os.own[handle]]) == Some(actual)
    case Terminating(handle, evidence) =>
      s.terminated == [] && Describes(options, evidence, s.os.processes[s.os.own[handle]])
    case Waiting(handle, evidence) =>
      s.terminated == [s.os.own[handle]] && Describes(options, evidence, s.os.processes[s.os.own[handle]])
    case Writing(handle, evidence) =>
      && s.terminated == [s.os.own[handle]] && Describes(options, evidence, s.os.processes[s.os.own[handle]])
      && s.os.processes[s.os.own[handle]].exited && evidence.killed
    case Dropping(handle) => s.written.Some? ==> s.terminated == [s.os.own[handle]]
    case Finished => true
  }

  ghost predicate Invariant(options: Options, s: Kill) {
    && Ready(options, s)
    && OnlyMatchTerminated(options, s.os, s.terminated)
    && (s.written.Some? ==> TrueEvidence(options, s) && (s.at.Dropping? || s.at.Finished?))
    && Established(options, s)
  }

  lemma EventKeepsInvariant(options: Options, s: Kill, event: Event)
    requires Invariant(options, s)
    ensures Invariant(options, s.(os := Happen(s.os, event)))
  {
    HappenKeepsValid(s.os, event);
  }

  lemma ToolKeepsInvariant(options: Options, s: Kill, answer: Answer)
    requires Invariant(options, s)
    ensures Invariant(options, ToolStep(options, s, answer))
  {
    ToolKeepsReady(options, s, answer);
    match s.at
    case Opening => OpeningEstablishes(options, s, answer);
    case Querying(handle) => QueryingEstablishes(options, s, answer);
    case Checking(handle, actual) => CheckingEstablishes(options, s, answer);
    case Terminating(handle, evidence) => TerminatingEstablishes(options, s, answer);
    case Waiting(handle, evidence) => WaitingEstablishes(options, s, answer);
    case Writing(handle, evidence) => WritingEstablishes(options, s, answer);
    case Dropping(handle) =>
    case Finished =>
  }

  lemma OpeningEstablishes(options: Options, s: Kill, answer: Answer)
    requires Invariant(options, s) && s.at.Opening? && Ready(options, ToolStep(options, s, answer))
    ensures Invariant(options, ToolStep(options, s, answer))
  {
  }

  lemma QueryingEstablishes(options: Options, s: Kill, answer: Answer)
    requires Invariant(options, s) && s.at.Querying? && Ready(options, ToolStep(options, s, answer))
    ensures Invariant(options, ToolStep(options, s, answer))
  {
  }

  lemma CheckingEstablishes(options: Options, s: Kill, answer: Answer)
    requires Invariant(options, s) && s.at.Checking? && Ready(options, ToolStep(options, s, answer))
    ensures Invariant(options, ToolStep(options, s, answer))
  {
    assert answer == Success && SameIdentity(s.at.actual, options) == Same ==>
        Matches(s.os.processes[s.os.own[s.at.handle]], options);
  }

  lemma TerminatingEstablishes(options: Options, s: Kill, answer: Answer)
    requires Invariant(options, s) && s.at.Terminating? && Ready(options, ToolStep(options, s, answer))
    ensures Invariant(options, ToolStep(options, s, answer))
  {
    assert IsOpen(s.os, s.at.handle);
  }

  lemma WaitingEstablishes(options: Options, s: Kill, answer: Answer)
    requires Invariant(options, s) && s.at.Waiting? && Ready(options, ToolStep(options, s, answer))
    ensures Invariant(options, ToolStep(options, s, answer))
  {
    assert IsOpen(s.os, s.at.handle);
  }

  lemma WritingEstablishes(options: Options, s: Kill, answer: Answer)
    requires Invariant(options, s) && s.at.Writing? && Ready(options, ToolStep(options, s, answer))
    ensures Invariant(options, ToolStep(options, s, answer))
  {
  }

  lemma {:induction false} RunKeepsInvariant(options: Options, os: Os, turns: seq<Turn>)
    requires Valid(os) && os.own == map[]
    ensures Invariant(options, Run(options, os, turns))
    decreases |turns|
  {
    if turns == [] {
    } else {
      var sooner, turn := turns[..|turns| - 1], turns[|turns| - 1];
      RunKeepsInvariant(options, os, sooner);
      match turn
      case Other(event) => EventKeepsInvariant(options, Run(options, os, sooner), event);
      case Tool(answer) => ToolKeepsInvariant(options, Run(options, os, sooner), answer);
    }
  }

  /** In every state of every run, however the calls answer and whatever else happens in between:
      TerminateProcess reached at most one object, and that one is the process asked for; a written
      `killed=true` gives the options and that object's executable and start time, it has exited, and
      its PID still names it until the handle is dropped. */
  lemma OnlyTheExactProcessIsKilled(options: Options, os: Os, turns: seq<Turn>)
    requires Valid(os) && os.own == map[]
    ensures var s := Run(options, os, turns);
            && (s.terminated == []
                || exists o: nat ::
                     s.terminated == [o] && o < |s.os.processes| && IsExpected(s.os.processes[o], options))
            && (s.written.Some? ==>
                  && |s.terminated| == 1 && s.terminated[0] < |s.os.processes|
                  && EvidenceOf(options, s.written.value, s.os.processes[s.terminated[0]])
                  && (s.at.Dropping? ==> Bound(s.os, s.terminated[0])))
  {
    RunKeepsInvariant(options, os, turns);
    var s := Run(options, os, turns);
    if s.terminated != [] {
      assert s.terminated == [s.terminated[0]];
      MatchMeaning(s.os.processes[s.terminated[0]], options);
      QueryMeaning(s.os.processes[s.terminated[0]]);
    }
  }

  /** The evidence is that this process, which has exited, was killed as asked for. */
  predicate EvidenceOf(options: Options, evidence: Evidence, p: Process) {
    && evidence.killed && p.exited
    && evidence.request == Request(options.processId, options.expectedExecutable, options.expectedStartTime)
    && evidence.actual.executable == p.executable
    && evidence.actual.startTime as int == SecondsSince1970(p.created)
  }

  /** The tool has opened `target` and nothing else, and terminates nothing else. */
  ghost predicate PinnedTo(s: Kill, target: nat) {
    && !s.at.Opening?
    && (forall h :: h in s.os.own ==> s.os.own[h] == target)
    && (s.terminated == [] || s.terminated == [target])
    && (s.at.Querying? || s.at.Checking? || s.at.Terminating? ==> s.terminated == [])
  }

  lemma StepKeepsTarget(options: Options, s: Kill, turn: Turn, target: nat)
    requires Ready(options, s) && PinnedTo(s, target)
    ensures PinnedTo(Step(options, s, turn), target)
  {
    match turn
    case Other(event) => HappenKeepsValid(s.os, event);
    case Tool(answer) =>
  }

  lemma OpeningPins(options: Options, s: Kill)
    requires s.at.Opening? && s.os.own == map[] && s.terminated == [] && options.processId in s.os.table
    ensures PinnedTo(ToolStep(options, s, Success), s.os.table[options.processId])
  {
  }

  lemma {:induction false} RunKeepsTarget(options: Options, os: Os, turns: seq<Turn>, more: seq<Turn>, target: nat)
    requires Valid(os) && os.own == map[]
    requires PinnedTo(Run(options, os, turns), target)
    ensures PinnedTo(Run(options, os, turns + more), target)
    decreases |more|
  {
    if more == [] {
      assert turns + more == turns;
    } else {
      var sooner, turn := turns + more[..|more| - 1], more[|more| - 1];
      RunKeepsTarget(options, os, turns, more[..|more| - 1], target);
      assert turns + more == sooner + [turn];
      RunOneMore(options, os, sooner, turn);
      RunKeepsReady(options, os, sooner);
      StepKeepsTarget(options, Run(options, os, sooner), turn, target);
    }
  }

  /** The object that is terminated is the one the PID named when the tool opened it, and until
      the handle is dropped the PID names nothing else, even if the process exits meanwhile. */
  lemma TerminatesWhatItOpened(options: Options, os: Os, turns: seq<Turn>, more: seq<Turn>)
    requires Valid(os) && os.own == map[]
    requires Run(options, os, turns).at.Opening?
    requires options.processId in Run(options, os, turns).os.table
    ensures var target := Run(options, os, turns).os.table[options.processId];
            var s := Run(options, os, turns + [Tool(Success)] + more);
            && (s.terminated == [] || s.terminated == [target])
            && (!s.at.Finished? ==> options.processId in s.os.table && s.os.table[options.processId] == target)
  {
    var target := Run(options, os, turns).os.table[options.processId];
    RunKeepsInvariant(options, os, turns);
    OpeningPins(options, Run(options, os, turns));
    RunOneMore(options, os, turns, Tool(Success));
    RunKeepsTarget(options, os, turns + [Tool(Success)], more, target);
    var s := Run(options, os, turns + [Tool(Success)] + more);
    RunKeepsReady(options, os, turns + [Tool(Success)] + more);
    if !s.at.Finished? {
      PinnedPidNamesTarget(options, s, target);
    }
  }

  lemma PinnedPidNamesTarget(options: Options, s: Kill, target: nat)
    requires Ready(options, s) && PinnedTo(s, target) && !s.at.Finished?
    ensures options.processId in s.os.table && s.os.table[options.processId] == target
  {
    var handle := s.at.handle;
    assert handle in s.os.own && Bound(s.os, s.os.own[handle]);
  }

  // ---------- failing calls ----------

  /** The call the tool makes next fails if it gets this answer. */
  predicate Fails(s: Kill, answer: Answer) {
    match s.at
    case Waiting(handle, _) =>
      answer == Failure || (answer == Timeout && IsOpen(s.os, handle) && !s.os.processes[s.os.own[handle]].exited)
    case Dropping(_) => false
    case Finished => false
    case _ => answer != Success
  }

  /** Nothing is written and nothing will be. */
  predicate GivenUp(s: Kill) {
    s.written.None? && (s.at.Dropping? || s.at.Finished?)
  }

  lemma FailureGivesUp(options: Options, s: Kill, answer: Answer)
    requires Invariant(options, s) && Fails(s, answer)
    ensures GivenUp(ToolStep(options, s, answer))
  {
  }

  lemma StaysGivenUp(options: Options, s: Kill, turn: Turn)
    requires GivenUp(s)
    ensures GivenUp(Step(options, s, turn))
  {
  }

  /** After a failing call no evidence is written in any continuation of the run. */
  lemma FailedCallLeavesNoEvidence(options: Options, os: Os, turns: seq<Turn>, answer: Answer, more: seq<Turn>)
    requires Valid(os) && os.own == map[] && Fails(Run(options, os, turns), answer)
    ensures Run(options, os, turns + [Tool(answer)] + more).written.None?
  {
    RunKeepsInvariant(options, os, turns);
    RunOneMore(options, os, turns, Tool(answer));
    FailureGivesUp(options, Run(options, os, turns), answer);
    var run := (ts: seq<Turn>) => Run(options, os, ts);
    forall ts, turn | GivenUp(run(ts))
      ensures GivenUp(run(ts + [turn]))
    {
      RunOneMore(options, os, ts, turn);
      StaysGivenUp(options, run(ts), turn);
    }
    KeptForever(run, s => GivenUp(s), turns + [Tool(answer)], more);
  }

  /** How many calls are left at most. */
  function Away(s: Kill): nat {
    match s.at
    case Opening => 7
    case Querying(_) => 6
    case Checking(_, _) => 5
    case Terminating(_, _) => 4
    case Waiting(_, _) => 3
    case Writing(_, _) => 2
    case Dropping(_) => 1
    case Finished => 0
  }

  /** The tool goes on waiting for a process that is still running. */
  predicate StillWaits(s: Kill, turn: Turn) {
    turn == Tool(Success) && s.at.Waiting? && IsOpen(s.os, s.at.handle) && !s.os.processes[s.os.own[s.at.handle]].exited
  }

  lemma CallComesNearer(options: Options, s: Kill, turn: Turn)
    ensures Away(Step(options, s, turn)) <= Away(s)
    ensures turn.Tool? && !StillWaits(s, turn) && Away(s) > 0 ==> Away(Step(options, s, turn)) < Away(s)
  {
  }

  lemma FinishedHoldsNothing(options: Options, os: Os, turns: seq<Turn>)
    requires Valid(os) && os.own == map[] && Run(options, os, turns).at.Finished?
    ensures Run(options, os, turns).os.own == map[]
  {
    RunKeepsInvariant(options, os, turns);
  }

  /** Every run ends, and with no handle open: after seven calls that do more than wait on. */
  lemma EveryRunEnds(options: Options, os: Os, turns: seq<Turn>)
    requires Valid(os) && os.own == map[]
    requires Calls((ts: seq<Turn>) => Run(options, os, ts), (s: Kill, turn: Turn) => StillWaits(s, turn), turns) >= 7
    ensures Run(options, os, turns).at.Finished? && Run(options, os, turns).os.own == map[]
  {
    var run, idle := (ts: seq<Turn>) => Run(options, os, ts), (s: Kill, turn: Turn) => StillWaits(s, turn);
    var away := (s: Kill) => Away(s);
    forall ts, turn
      ensures away(run(ts + [turn])) <= away(run(ts))
      ensures turn.Tool? && !idle(run(ts), turn) && away(run(ts)) > 0 ==> away(run(ts + [turn])) < away(run(ts))
    {
      RunOneMore(options, os, ts, turn);
      CallComesNearer(options, run(ts), turn);
    }
    CallsLeadToEnd(run, idle, away, turns);
    FinishedHoldsNothing(options, os, turns);
  }

  // ---------- a matching process can be killed ----------

  /** The checks do not refuse the right process: when the PID names the process asked for and no call
      fails, it is terminated, and once it has exited the evidence is written and the handle closed. */
  lemma MatchCanBeKilled(options: Options, os: Os) returns (turns: seq<Turn>)
    requires Valid(os) && os.own == map[]
    requires options.processId in os.table && IsExpected(os.processes[os.table[options.processId]], options)
    ensures var s := Run(options, os, turns);
            s.at.Finished? && s.written.Some? && s.terminated == [os.table[options.processId]]
  {
    MatchMeaning(os.processes[os.table[options.processId]], options);
    turns := MatchIsTerminated(options, os);
    var exit := Other(Exit(os.table[options.processId]));
    RunOneMore(options, os, turns, exit);
    turns := turns + [exit];
    turns := Finish(options, os, turns);
  }

  lemma MatchIsTerminated(options: Options, os: Os) returns (turns: seq<Turn>)
    requires Valid(os) && os.own == map[]
    requires options.processId in os.table && Matches(os.processes[os.table[options.processId]], options)
    ensures var s := Run(options, os, turns);
            && s.at.Waiting? && s.terminated == [os.table[options.processId]]
            && s.at.handle == os.nextHandle && s.os == Open(os, options.processId)
  {
    RunOneMore(options, os, [], Tool(Success));
    assert Run(options, os, []) == Start(os);
    turns := [] + [Tool(Success)];
    assert Run(options, os, turns).at == Querying(os.nextHandle);
    turns := MatchPassesChecks(options, os, turns);
    RunOneMore(options, os, turns, Tool(Success));
    turns := turns + [Tool(Success)];
  }

  lemma MatchPassesChecks(options: Options, os: Os, turns: seq<Turn>) returns (all: seq<Turn>)
    requires Valid(os) && os.own == map[]
    requires Run(options, os, turns).at.Querying?
    requires var s := Run(options, os, turns);
             IsOpen(s.os, s.at.handle) && Matches(s.os.processes[s.os.own[s.at.handle]], options)
    ensures var s := Run(options, os, all);
            && s.at.Terminating? && s.at.handle == Run(options, os, turns).at.handle
            && s.os == Run(options, os, turns).os && s.terminated == Run(options, os, turns).terminated
  {
    RunOneMore(options, os, turns, Tool(Success));
    all := turns + [Tool(Success)];
    assert Run(options, os, all).at.Checking?;
    RunOneMore(options, os, all, Tool(Success));
    all := all + [Tool(Success)];
  }

  lemma Finish(options: Options, os: Os, turns: seq<Turn>) returns (all: seq<Turn>)
    requires Valid(os) && os.own == map[]
    requires Run(options, os, turns).at.Waiting?
    requires var s := Run(options, os, turns); IsOpen(s.os, s.at.handle) && s.os.processes[s.os.own[s.at.handle]].exited
    ensures var s := Run(options, os, all);
            s.at.Finished? && s.written.Some? && s.terminated == Run(options, os, turns).terminated
  {
    var go := Tool(Success);
    RunOneMore(options, os, turns, go);
    RunOneMore(options, os, turns + [go], go);
    RunOneMore(options, os, turns + [go] + [go], go);
    all := turns + [go] + [go] + [go];
  }
}
