/** `wait_exact_process_exit`: the wait that opens the PID itself. The first handle lives in the
    body of an `if let`, so it is dropped before the evidence is written. */
module OwnedProcessWait {
  import opened Wrappers
  import opened ProcessIdentity
  import opened WindowsProcesses

  datatype Evidence = Evidence(
    request: Request,
    exactIdentityExited: bool,
    pidReused: bool,
    replacement: Option<Identity>)

  /** The next call. `DroppingSecond` carries what the second query read, `DroppingFirst` whether
      the function goes on to write its evidence or returns an error. */
  datatype Point =
    | Opening
    | Querying(handle: nat)
    | Checking(handle: nat, actual: Identity)
    | Waiting(handle: nat)
    | Reopening(handle: nat)
    | Requerying(handle: nat, second: nat)
    | DroppingSecond(handle: nat, second: nat, read: Option<Identity>)
    | Comparing(handle: nat, replacement: Identity)
    | DroppingFirst(handle: nat, decided: bool)
    | Writing
    | Finished

  /** `draft` is the evidence map being filled in. `observed` is how many process objects existed
      when `exact_identity_exited` was set, and `secondCheckFired` whether the comparison after
      the wait ever set `pid_reused`. */
  datatype Wait = Wait(
    os: Os,
    at: Point,
    draft: Evidence,
    written: Option<Evidence>,
    observed: nat,
    secondCheckFired: bool)

  function Start(options: Options, os: Os): Wait {
    Wait(os, Opening, Evidence(RequestOf(options), false, false, None), None, 0, false)
  }

  function ToolStep(options: Options, s: Wait, answer: Answer): Wait {
    match s.at
    case Opening =>
      if answer != Success then s.(at := Finished)
      else if options.processId !in s.os.table then
        s.(draft := s.draft.(exactIdentityExited := true), observed := |s.os.processes|, at := Writing)
      else s.(os := Open(s.os, options.processId), at := Querying(s.os.nextHandle))
    case Querying(handle) =>
      (match ReadIdentity(s.os, handle, answer)
       case None => s.(at := DroppingFirst(handle, false))
       case Some(actual) => s.(at := Checking(handle, actual)))
    case Checking(handle, actual) =>
      (match SameIdentity(actual, options)
       case Panics => s.(at := DroppingFirst(handle, false))
       case Different =>
         s.(draft := s.draft.(exactIdentityExited := true, pidReused := true, replacement := Some(actual)),
            observed := |s.os.processes|,
            at := DroppingFirst(handle, true))
       case Same => s.(at := Waiting(handle)))
    case Waiting(handle) =>
      if answer == Failure || !IsOpen(s.os, handle) then s.(at := DroppingFirst(handle, false))
      else if s.os.processes[s.os.own[handle]].exited then
        s.(draft := s.draft.(exactIdentityExited := true), observed := |s.os.processes|, at := Reopening(handle))
      else if answer == Timeout then s.(at := DroppingFirst(handle, false))
      else s
    case Reopening(handle) =>
      if answer != Success then s.(at := DroppingFirst(handle, false))
      else if options.processId !in s.os.table then s.(at := DroppingFirst(handle, true))
      else s.(os := Open(s.os, options.processId), at := Requerying(handle, s.os.nextHandle))
    case Requerying(handle, second) =>
      s.(at := DroppingSecond(handle, second, ReadIdentity(s.os, second, answer)))
    case DroppingSecond(handle, second, read) =>
      s.(os := Close(s.os, second),
         at := if read.Some? then Comparing(handle, read.value) else DroppingFirst(handle, false))
    case Comparing(handle, replacement) =>
      (match SameIdentity(replacement, options)
       case Panics => s.(at := DroppingFirst(handle, false))
       case Same => s.(at := DroppingFirst(handle, true))
       case Different =>
         s.(draft := s.draft.(pidReused := true, replacement := Some(replacement)),
            secondCheckFired := true,
            at := DroppingFirst(handle, true)))
    case DroppingFirst(handle, decided) =>
      s.(os := Close(s.os, handle), at := if decided then Writing else Finished)
    case Writing => s.(at := Finished, written := if answer == Success then Some(s.draft) else None)
    case Finished => s
  }

  function Step(options: Options, s: Wait, turn: Turn): Wait {
    match turn
    case Other(event) => s.(os := Happen(s.os, event))
    case Tool(answer) => ToolStep(options, s, answer)
  }

  /** The state after any sequence of tool steps and other events, stopped anywhere. */
  function Run(options: Options, os: Os, turns: seq<Turn>): Wait
    decreases |turns|
  {
    if turns == [] then Start(options, os)
    else Step(options, Run(options, os, turns[..|turns| - 1]), turns[|turns| - 1])
  }

  lemma RunOneMore(options: Options, os: Os, turns: seq<Turn>, turn: Turn)
    ensures Run(options, os, turns + [turn]) == Step(options, Run(options, os, turns), turn)
  {
    assert (turns + [turn])[..|turns|] == turns;
  }

  // ---------- handles ----------

  predicate HasFirst(at: Point) {
    !at.Opening? && !at.Writing? && !at.Finished?
  }

  predicate HasSecond(at: Point) {
    at.Requerying? || at.DroppingSecond?
  }

  /** The handles the tool goes by are exactly its open ones. The first is to an object with the
      requested PID; the second, if there is one, is to that same object. */
  ghost predicate Ready(options: Options, s: Wait) {
    && Valid(s.os)
    && s.os.own.Keys == (if HasSecond(s.at) then {s.at.handle, s.at.second}
                         else if HasFirst(s.at) then {s.at.handle} else {})
    && (HasFirst(s.at) ==>
          && s.os.own[s.at.handle] < |s.os.processes|
          && s.os.processes[s.os.own[s.at.handle]].pid == options.processId)
    && (HasSecond(s.at) ==> s.at.second != s.at.handle && s.os.own[s.at.second] == s.os.own[s.at.handle])
  }

  lemma OpenKeepsReady(options: Options, s: Wait)
    requires Ready(options, s) && (s.at.Opening? || s.at.Reopening?) && options.processId in s.os.table
    ensures Ready(options, ToolStep(options, s, Success))
  {
    OpenKeepsValid(s.os, options.processId);
    if s.at.Reopening? {
      assert Bound(s.os, s.os.own[s.at.handle]);
    }
  }

  lemma DropKeepsReady(options: Options, s: Wait, answer: Answer)
    requires Ready(options, s) && (s.at.DroppingFirst? || s.at.DroppingSecond?)
    ensures Ready(options, ToolStep(options, s, answer))
  {
    var handle := if s.at.DroppingFirst? then s.at.handle else s.at.second;
    CloseKeepsValid(s.os, handle);
    assert Close(s.os, handle).own.Keys == s.os.own.Keys - {handle};
  }

  lemma QuietStep(options: Options, s: Wait, answer: Answer)
    requires HasFirst(s.at) && !s.at.Reopening? && !s.at.DroppingFirst? && !s.at.DroppingSecond?
    ensures var next := ToolStep(options, s, answer);
            && next.os == s.os && HasFirst(next.at) && next.at.handle == s.at.handle
            && HasSecond(s.at) == HasSecond(next.at) && (HasSecond(s.at) ==> next.at.second == s.at.second)
  {
  }

  /** Steps that neither open nor close keep the handles. */
  lemma QuietKeepsReady(options: Options, s: Wait, next: Wait)
    requires Ready(options, s) && next.os == s.os
    requires HasFirst(s.at) == HasFirst(next.at) && HasSecond(s.at) == HasSecond(next.at)
    requires HasFirst(s.at) ==> next.at.handle == s.at.handle
    requires HasSecond(s.at) ==> next.at.second == s.at.second
    ensures Ready(options, next)
  {
  }

  lemma ToolKeepsReady(options: Options, s: Wait, answer: Answer)
    requires Ready(options, s)
    ensures Ready(options, ToolStep(options, s, answer))
  {
    if s.at.Opening? || s.at.Reopening? {
      if answer == Success && options.processId in s.os.table { OpenKeepsReady(options, s); }
    } else if s.at.DroppingFirst? || s.at.DroppingSecond? {
      DropKeepsReady(options, s, answer);
    } else if HasFirst(s.at) {
      QuietStep(options, s, answer);
      QuietKeepsReady(options, s, ToolStep(options, s, answer));
    }
  }

  // ---------- what the evidence says ----------

  /** Every match that existed when the exit was observed has exited. */
  ghost predicate ObservedExited(options: Options, s: Wait) {
    && s.observed <= |s.os.processes|
    && forall o :: 0 <= o < s.observed && Matches(s.os.processes[o], options) ==> s.os.processes[o].exited
  }

  /** The two fields are exactly right for the system as it is now. */
  ghost predicate DraftTrue(options: Options, s: Wait)
    requires Valid(s.os)
  {
    && s.draft.exactIdentityExited && ExactIdentityExited(s.os, options)
    && s.draft.pidReused == PidReused(s.os, options)
  }

  /** What the tool knows at each point about the object it holds open. */
  predicate KnownAbout(options: Options, at: Point, draft: Evidence, p: Process) {
    match at
    case Querying(_) => !draft.pidReused
    case Checking(_, actual) => !draft.pidReused && Query(p) == Some(actual)
    case Waiting(_) => !draft.pidReused && Matches(p, options)
    case Reopening(_) => MatchedAndGone(options, draft, p)
    case Requerying(_, _) => MatchedAndGone(options, draft, p)
    case DroppingSecond(_, _, read) => MatchedAndGone(options, draft, p) && (read.Some? ==> read == Query(p))
    case Comparing(_, replacement) => MatchedAndGone(options, draft, p) && Some(replacement) == Query(p)
    case DroppingFirst(_, decided) =>
      decided ==> && draft.exactIdentityExited
                  && draft.pidReused == !Matches(p, options)
                  && (Matches(p, options) ==> p.exited)
    case _ => true
  }

  predicate MatchedAndGone(options: Options, draft: Evidence, p: Process) {
    !draft.pidReused && draft.exactIdentityExited && Matches(p, options) && p.exited
  }

  /** What the tool knows about a process stays true of it. */
  lemma KnowledgeSurvives(options: Options, at: Point, draft: Evidence, p: Process, q: Process)
    requires q == p.(exited := q.exited) && (p.exited ==> q.exited)
    requires KnownAbout(options, at, draft, p)
    ensures KnownAbout(options, at, draft, q)
  {
    assert Query(q) == Query(p) && Matches(q, options) == Matches(p, options);
  }

  ghost predicate Established(options: Options, s: Wait)
    requires Ready(options, s)
  {
    && !s.secondCheckFired && s.draft.request == RequestOf(options)
    && (s.draft.exactIdentityExited ==> ObservedExited(options, s))
    && (s.written.Some? ==> s.at.Finished? && s.written.value == s.draft && s.draft.exactIdentityExited)
    && (s.at.Writing? ==> s.draft.exactIdentityExited)
    && (s.at.Opening? ==> !s.draft.pidReused && !s.draft.exactIdentityExited)
    && (HasFirst(s.at) ==> KnownAbout(options, s.at, s.draft, s.os.processes[s.os.own[s.at.handle]]))
  }

  ghost predicate Invariant(options: Options, s: Wait) {
    Ready(options, s) && Established(options, s)
  }

  /** While a handle pins the PID, knowing the pinned object decides both fields. */
  lemma PinnedVerdict(options: Options, s: Wait)
    requires Ready(options, s) && HasFirst(s.at)
    ensures options.processId in s.os.table && s.os.table[options.processId] == s.os.own[s.at.handle]
    ensures PidReused(s.os, options) == !Matches(s.os.processes[s.os.own[s.at.handle]], options)
    ensures (Matches(s.os.processes[s.os.own[s.at.handle]], options) ==> s.os.processes[s.os.own[s.at.handle]].exited)
            ==> ExactIdentityExited(s.os, options)
  {
    assert Bound(s.os, s.os.own[s.at.handle]);
    if Matches(s.os.processes[s.os.own[s.at.handle]], options) ==> s.os.processes[s.os.own[s.at.handle]].exited {
      NoOtherMatch(s.os, options);
    }
  }

  lemma LaterKeepsObserved(options: Options, s: Wait, next: Os)
    requires ObservedExited(options, s) && Later(s.os, next)
    ensures ObservedExited(options, s.(os := next))
  {
    forall o | 0 <= o < s.observed && Matches(next.processes[o], options)
      ensures next.processes[o].exited
    {
      assert Matches(s.os.processes[o], options);
    }
  }

  lemma LaterKeepsInvariant(options: Options, s: Wait, next: Os)
    requires Invariant(options, s) && Valid(next) && Later(s.os, next) && next.own == s.os.own
    ensures Invariant(options, s.(os := next))
  {
    if s.draft.exactIdentityExited {
      LaterKeepsObserved(options, s, next);
    }
    if HasFirst(s.at) {
      var o := s.os.own[s.at.handle];
      KnowledgeSurvives(options, s.at, s.draft, s.os.processes[o], next.processes[o]);
    }
  }

  lemma EventKeepsInvariant(options: Options, s: Wait, event: Event)
    requires Invariant(options, s)
    ensures Invariant(options, s.(os := Happen(s.os, event)))
  {
    HappenKeepsValid(s.os, event);
    LaterKeepsInvariant(options, s, Happen(s.os, event));
  }

  lemma OpeningEstablishes(options: Options, s: Wait, answer: Answer)
    requires Invariant(options, s) && s.at.Opening?
    ensures Invariant(options, ToolStep(options, s, answer))
  {
    ToolKeepsReady(options, s, answer);
    if options.processId !in s.os.table {
      NoOtherMatch(s.os, options);
    }
  }

  lemma CheckingEstablishes(options: Options, s: Wait, answer: Answer)
    requires Invariant(options, s) && s.at.Checking?
    ensures Invariant(options, ToolStep(options, s, answer))
  {
    ToolKeepsReady(options, s, answer);
    PinnedVerdict(options, s);
    var p := s.os.processes[s.os.own[s.at.handle]];
    assert Matches(p, options) <==> SameIdentity(s.at.actual, options) == Same;
  }

  lemma WaitingEstablishes(options: Options, s: Wait, answer: Answer)
    requires Invariant(options, s) && s.at.Waiting?
    ensures Invariant(options, ToolStep(options, s, answer))
  {
    ToolKeepsReady(options, s, answer);
    PinnedVerdict(options, s);
    assert IsOpen(s.os, s.at.handle);
  }

  /** The comparison after the wait reads the pinned object again, so it cannot differ. */
  lemma ComparingEstablishes(options: Options, s: Wait, answer: Answer)
    requires Invariant(options, s) && s.at.Comparing?
    ensures SameIdentity(s.at.replacement, options) == Same
    ensures Invariant(options, ToolStep(options, s, answer))
  {
    ToolKeepsReady(options, s, answer);
  }

  lemma QueryingEstablishes(options: Options, s: Wait, answer: Answer)
    requires Invariant(options, s) && s.at.Querying?
    ensures Invariant(options, ToolStep(options, s, answer))
  {
    ToolKeepsReady(options, s, answer);
  }

  lemma DroppingFirstEstablishes(options: Options, s: Wait, answer: Answer)
    requires Invariant(options, s) && s.at.DroppingFirst?
    ensures Invariant(options, ToolStep(options, s, answer))
  {
    ToolKeepsReady(options, s, answer);
  }

  lemma ReopeningEstablishes(options: Options, s: Wait, answer: Answer)
    requires Invariant(options, s) && s.at.Reopening?
    ensures Invariant(options, ToolStep(options, s, answer))
  {
    ToolKeepsReady(options, s, answer);
    PinnedVerdict(options, s);
  }

  lemma RequeryingEstablishes(options: Options, s: Wait, answer: Answer)
    requires Invariant(options, s) && s.at.Requerying?
    ensures Invariant(options, ToolStep(options, s, answer))
  {
    ToolKeepsReady(options, s, answer);
  }

  lemma DroppingSecondEstablishes(options: Options, s: Wait, answer: Answer)
    requires Invariant(options, s) && s.at.DroppingSecond?
    ensures Invariant(options, ToolStep(options, s, answer))
  {
    ToolKeepsReady(options, s, answer);
  }

  lemma ToolKeepsInvariant(options: Options, s: Wait, answer: Answer)
    requires Invariant(options, s)
    ensures Invariant(options, ToolStep(options, s, answer))
  {
    match s.at
    case Opening => OpeningEstablishes(options, s, answer);
    case Checking(_, _) => CheckingEstablishes(options, s, answer);
    case Waiting(_) => WaitingEstablishes(options, s, answer);
    case Comparing(_, _) => ComparingEstablishes(options, s, answer);
    case Querying(_) => QueryingEstablishes(options, s, answer);
    case DroppingFirst(_, _) => DroppingFirstEstablishes(options, s, answer);
    case Writing =>
    case Finished =>
    case Reopening(_) => ReopeningEstablishes(options, s, answer);
    case Requerying(_, _) => RequeryingEstablishes(options, s, answer);
    case DroppingSecond(_, _, _) => DroppingSecondEstablishes(options, s, answer);
  }

  lemma {:induction false} RunKeepsInvariant(options: Options, os: Os, turns: seq<Turn>)
    requires Valid(os) && os.own == map[]
    ensures Invariant(options, Run(options, os, turns))
    decreases |turns|
  {
    if turns == [] {
    } else {
      var sooner, turn := turns[..|turns| - 1], turns[|turns| - 1];
      RunKeepsInvariant(options, os, sooner);
      match turn
      case Other(event) => EventKeepsInvariant(options, Run(options, os, sooner), event);
      case Tool(answer) => ToolKeepsInvariant(options, Run(options, os, sooner), answer);
    }
  }

  // ---------- theorems over every run ----------

  /** In every state of every run: the comparison after the wait never sets `pid_reused`; a written
      file says `exact_identity_exited=true`, and every matching process that existed when that was
      observed has exited. */
  lemma WaitEvidenceOverEveryRun(options: Options, os: Os, turns: seq<Turn>, o: nat)
    requires Valid(os) && os.own == map[]
    ensures var s := Run(options, os, turns);
            && !s.secondCheckFired
            && (s.written.Some? ==>
                  && s.written.value.request == Request(options.processId, options.expectedExecutable, options.expectedStartTime)
                  && s.written.value.exactIdentityExited
                  && s.observed <= |s.os.processes|
                  && (o < s.observed && IsExpected(s.os.processes[o], options) ==> s.os.processes[o].exited))
  {
    var s := Run(options, os, turns);
    RunKeepsInvariant(options, os, turns);
    if s.written.Some? && o < s.observed {
      MatchMeaning(s.os.processes[o], options);
    }
  }

  /** `pid_reused=true` arises at one place only: the step that compares the identity read at the
      first open, and finds it different. */
  lemma ReuseOnlyFromFirstOpen(options: Options, os: Os, turns: seq<Turn>, turn: Turn)
    requires Valid(os) && os.own == map[]
    requires !Run(options, os, turns).draft.pidReused
    requires Run(options, os, turns + [turn]).draft.pidReused
    ensures var s := Run(options, os, turns);
            && turn.Tool? && s.at.Checking? && SameIdentity(s.at.actual, options) == Different
            && options.processId in s.os.table && s.os.table[options.processId] < |s.os.processes|
            && !Matches(s.os.processes[s.os.table[options.processId]], options)
            && Run(options, os, turns + [turn]).draft.replacement == Query(s.os.processes[s.os.table[options.processId]])
  {
    var s := Run(options, os, turns);
    RunKeepsInvariant(options, os, turns);
    RunOneMore(options, os, turns, turn);
    if s.at.Comparing? {
      ComparingEstablishes(options, s, Success);
    } else if HasFirst(s.at) {
      PinnedVerdict(options, s);
    }
  }

  lemma DropSettles(options: Options, s: Wait, answer: Answer)
    requires Invariant(options, s) && s.at.DroppingFirst? && s.at.decided
    ensures var next := ToolStep(options, s, answer); Valid(next.os) && DraftTrue(options, next)
  {
    PinnedVerdict(options, s);
    CloseKeepsValid(s.os, s.at.handle);
  }

  lemma UnboundSettles(options: Options, s: Wait)
    requires Invariant(options, s) && s.at.Opening? && options.processId !in s.os.table
    ensures DraftTrue(options, ToolStep(options, s, Success))
  {
    NoOtherMatch(s.os, options);
  }

  /** The step that settles the evidence (the last one before writing) leaves both fields exactly
      right: no running process matches, and `pid_reused` says whether the PID names another one. */
  lemma SettledVerdictIsTrue(options: Options, os: Os, turns: seq<Turn>, turn: Turn)
    requires Valid(os) && os.own == map[]
    requires !Run(options, os, turns).at.Writing?
    requires Run(options, os, turns + [turn]).at.Writing?
    ensures var s := Run(options, os, turns + [turn]);
            Valid(s.os) && DraftTrue(options, s)
  {
    var s := Run(options, os, turns);
    RunKeepsInvariant(options, os, turns);
    RunOneMore(options, os, turns, turn);
    if s.at.DroppingFirst? {
      DropSettles(options, s, turn.answer);
    } else {
      UnboundSettles(options, s);
    }
  }

  /** By the time the file is written the handle is gone, so the fields can have become false: here
      the PID is given to another program after it was found free, and `pid_reused=false` is written. */
  lemma WrittenVerdictCanBeStale(options: Options, os: Os, executable: string, created: Filetime)
    requires os == Os([], map[], map[], map[], 0)
    requires NormalizeExecutable(executable) != NormalizeExecutable(options.expectedExecutable)
    ensures var spawn := Other(Spawn(options.processId, executable, created));
            var s := Run(options, os, [] + [Tool(Success)] + [spawn] + [Tool(Success)]);
            && Valid(os) && Valid(s.os)
            && s.written.Some? && !s.written.value.pidReused && PidReused(s.os, options)
  {
    var spawn := Other(Spawn(options.processId, executable, created));
    RunOneMore(options, os, [], Tool(Success));
    RunOneMore(options, os, [] + [Tool(Success)], spawn);
    RunOneMore(options, os, [] + [Tool(Success)] + [spawn], Tool(Success));
    assert Run(options, os, [] + [Tool(Success)]).at == Writing;
    HappenKeepsValid(os, spawn.event);
    var intruder := Process(options.processId, executable, created, false);
    assert !Matches(intruder, options);
  }

  /** The events that make a settled verdict false before it is written: the free PID is given to a
      process, or a PID that named another process is released. */
  predicate Spoils(options: Options, s: Wait, event: Event) {
    match event
    case Spawn(pid, _, _) => pid == options.processId && pid !in s.os.table
    case Release(pid) => pid == options.processId && s.draft.pidReused && pid !in Happen(s.os, event).table
    case _ => false
  }

  lemma ProcessesUnchanged(options: Options, s: Wait, next: Os)
    requires Valid(s.os) && Valid(next) && DraftTrue(options, s) && Later(s.os, next)
    requires |next.processes| == |s.os.processes|
    ensures ExactIdentityExited(next, options)
  {
    forall o | 0 <= o < |next.processes| && Matches(next.processes[o], options)
      ensures next.processes[o].exited
    {
      assert Matches(s.os.processes[o], options);
    }
  }

  lemma SpawnSpoils(options: Options, s: Wait, event: Event)
    requires Valid(s.os) && DraftTrue(options, s) && event.Spawn? && event.pid !in s.os.table
    ensures var next := s.(os := Happen(s.os, event));
            Valid(next.os) && (DraftTrue(options, next) <==> event.pid != options.processId)
  {
    HappenKeepsValid(s.os, event);
    var next := Happen(s.os, event);
    var created := next.processes[|s.os.processes|];
    if event.pid == options.processId {
      assert next.table[event.pid] == |s.os.processes|;
      assert Matches(created, options) ==> !ExactIdentityExited(next, options);
    } else {
      assert !Matches(created, options);
      forall o | 0 <= o < |next.processes| && Matches(next.processes[o], options)
        ensures next.processes[o].exited
      {
        assert next.processes[o] == s.os.processes[o];
      }
    }
  }

  /** Exactly these events do; every other one keeps the verdict true. */
  lemma SpoiledExactlyByRebinding(options: Options, s: Wait, event: Event)
    requires Valid(s.os) && DraftTrue(options, s)
    ensures var next := s.(os := Happen(s.os, event));
            Valid(next.os) && (DraftTrue(options, next) <==> !Spoils(options, s, event))
  {
    HappenKeepsValid(s.os, event);
    var next := Happen(s.os, event);
    if event.Spawn? && event.pid !in s.os.table {
      SpawnSpoils(options, s, event);
    } else {
      ProcessesUnchanged(options, s, next);
      if options.processId in s.os.table {
        var o := s.os.table[options.processId];
        assert Matches(next.processes[o], options) == Matches(s.os.processes[o], options);
      }
    }
  }

  // ---------- from the settled verdict to the written one ----------

  /** The evidence is right about the system as it is. */
  ghost predicate VerdictHolds(options: Options, s: Wait) {
    Valid(s.os) && DraftTrue(options, s)
  }

  function After(s: Wait, events: seq<Event>): Wait {
    s.(os := HappenAll(s.os, events))
  }

  /** The verdict holds now and after each of the events. */
  ghost predicate HoldsThroughout(options: Options, s: Wait, events: seq<Event>) {
    forall k :: 0 <= k <= |events| ==> VerdictHolds(options, After(s, events[..k]))
  }

  /** None of the events spoils the verdict when it happens. */
  ghost predicate NeverSpoiled(options: Options, s: Wait, events: seq<Event>) {
    forall k :: 0 <= k < |events| ==> !Spoils(options, After(s, events[..k]), events[k])
  }

  lemma ThroughoutOneMore(options: Options, s: Wait, all: seq<Event>, events: seq<Event>, event: Event)
    requires all == events + [event]
    ensures HoldsThroughout(options, s, all)
            <==> HoldsThroughout(options, s, events) && VerdictHolds(options, After(s, all))
    ensures NeverSpoiled(options, s, all)
            <==> NeverSpoiled(options, s, events) && !Spoils(options, After(s, events), event)
  {
    assert all[..|all|] == all && all[..|events|] == events && events[..|events|] == events;
    assert forall k :: 0 <= k <= |events| ==> all[..k] == events[..k];
    assert forall k :: 0 <= k < |events| ==> all[k] == events[k];
  }

  /** Over any events: a verdict that holds goes on holding exactly as long as none of them spoils it. */
  lemma {:induction false} HoldsExactlyUnspoiled(options: Options, s: Wait, events: seq<Event>)
    requires VerdictHolds(options, s)
    ensures HoldsThroughout(options, s, events) <==> NeverSpoiled(options, s, events)
    decreases |events|
  {
    if events == [] {
      assert forall k :: 0 <= k <= |events| ==> events[..k] == [];
      assert After(s, []) == s;
    } else {
      var before, event := events[..|events| - 1], events[|events| - 1];
      HoldsExactlyUnspoiled(options, s, before);
      ThroughoutOneMore(options, s, events, before, event);
      HappenLast(s.os, before, event);
      assert events == before + [event];
      if HoldsThroughout(options, s, before) {
        assert before[..|before|] == before;
        SpoiledExactlyByRebinding(options, After(s, before), event);
      }
    }
  }

  /** A state at which nothing is left to do but the write, or nothing at all. */
  predicate Ending(at: Point) {
    at.Writing? || at.Finished?
  }

  /** One turn that starts from an ending state: if the write still lies ahead, the turn was an event of
      the rest of the system, and the write lay ahead before it. */
  predicate EndingTurn(s: Wait, turn: Turn, next: Wait) {
    && Ending(next.at)
    && (next.at.Writing? ==> turn.Other? && s.at.Writing? && next == After(s, [turn.event]))
  }

  lemma StepFromEnding(options: Options, s: Wait, turn: Turn)
    requires Ending(s.at)
    ensures EndingTurn(s, turn, Step(options, s, turn))
  {
    if turn.Other? { HappenOne(s.os, turn.event); }
  }

  lemma EveryEndingTurn(options: Options, os: Os, turns: seq<Turn>, turn: Turn)
    requires Ending(Run(options, os, turns).at)
    ensures EndingTurn(Run(options, os, turns), turn, Run(options, os, turns + [turn]))
  {
    RunOneMore(options, os, turns, turn);
    StepFromEnding(options, Run(options, os, turns), turn);
  }

  lemma AfterOneMore(s: Wait, events: seq<Event>, event: Event)
    ensures After(s, events + [event]) == After(After(s, events), [event])
  {
    HappenLast(s.os, events, event);
    HappenOne(After(s, events).os, event);
  }

  /** These turns are these events. */
  predicate AreEvents(turns: seq<Turn>, events: seq<Event>) {
    |turns| == |events| && forall k :: 0 <= k < |turns| ==> turns[k] == Other(events[k])
  }

  /** Every turn of `run` that starts from an ending state is of that kind. */
  ghost predicate EndsQuietly(run: seq<Turn> -> Wait) {
    forall turns, turn :: Ending(run(turns).at) ==> EndingTurn(run(turns), turn, run(turns + [turn]))
  }

  lemma {:induction false} OnlyEventsIn(run: seq<Turn> -> Wait, turns: seq<Turn>) returns (events: seq<Event>)
    requires EndsQuietly(run) && run([]).at.Writing?
    ensures Ending(run(turns).at)
    ensures run(turns).at.Writing? ==> AreEvents(turns, events) && run(turns) == After(run([]), events)
    decreases |turns|
  {
    if turns == [] {
      events := [];
    } else {
      var sooner, last := turns[..|turns| - 1], turns[|turns| - 1];
      events := OnlyEventsIn(run, sooner);
      assert turns == sooner + [last];
      if run(turns).at.Writing? {
        AfterOneMore(run([]), events, last.event);
        events := events + [last.event];
      }
    }
  }

  /** A run that is about to write makes no call before it writes. */
  lemma OnlyEventsBeforeWriting(options: Options, os: Os, turns: seq<Turn>, more: seq<Turn>)
    returns (events: seq<Event>)
    requires Run(options, os, turns).at.Writing? && Run(options, os, turns + more).at.Writing?
    ensures AreEvents(more, events) && Run(options, os, turns + more) == After(Run(options, os, turns), events)
  {
    var run := (later: seq<Turn>) => Run(options, os, turns + later);
    forall later, turn | Ending(run(later).at)
      ensures EndingTurn(run(later), turn, run(later + [turn]))
    {
      EveryEndingTurn(options, os, turns + later, turn);
      assert turns + (later + [turn]) == (turns + later) + [turn];
    }
    assert turns + [] == turns;
    events := OnlyEventsIn(run, more);
  }

  lemma WritingKeepsVerdict(options: Options, s: Wait)
    requires s.at.Writing?
    ensures var next := Step(options, s, Tool(Success));
            next.written == Some(s.draft) && (VerdictHolds(options, s) ==> VerdictHolds(options, next))
  {
  }

  /** Over every run, from the step that settles the evidence to the write: only events of the rest of
      the system come between, the verdict holds all the way exactly when none of them gives out the
      free PID or releases a reused one, and then what is written is true when it is written. */
  lemma WrittenVerdictOverEveryRun(options: Options, os: Os, turns: seq<Turn>, turn: Turn, more: seq<Turn>)
    returns (events: seq<Event>)
    requires Valid(os) && os.own == map[]
    requires !Run(options, os, turns).at.Writing? && Run(options, os, turns + [turn]).at.Writing?
    requires Run(options, os, turns + [turn] + more).at.Writing?
    ensures var settled := Run(options, os, turns + [turn]);
            var before := Run(options, os, turns + [turn] + more);
            var after := Run(options, os, turns + [turn] + more + [Tool(Success)]);
            && AreEvents(more, events) && before == After(settled, events)
            && (HoldsThroughout(options, settled, events) <==> NeverSpoiled(options, settled, events))
            && after.written == Some(settled.draft)
            && (NeverSpoiled(options, settled, events) ==> VerdictHolds(options, after))
  {
    SettledVerdictIsTrue(options, os, turns, turn);
    events := OnlyEventsBeforeWriting(options, os, turns + [turn], more);
    HoldsExactlyUnspoiled(options, Run(options, os, turns + [turn]), events);
    RunOneMore(options, os, turns + [turn] + more, Tool(Success));
    WritingKeepsVerdict(options, Run(options, os, turns + [turn] + more));
    assert events[..|events|] == events;
  }

  // ---------- failing calls ----------

  /** The call the tool makes next fails if it gets this answer. */
  predicate Fails(s: Wait, answer: Answer) {
    match s.at
    case Waiting(handle) =>
      answer == Failure || (answer == Timeout && IsOpen(s.os, handle) && !s.os.processes[s.os.own[handle]].exited)
    case Opening => answer != Success
    case Querying(_) => answer != Success
    case Reopening(_) => answer != Success
    case Requerying(_, _) => answer != Success
    case Writing => answer != Success
    case _ => false
  }

  /** Nothing is written and nothing will be. */
  predicate GivenUp(s: Wait) {
    && s.written.None?
    && (s.at.Finished? || (s.at.DroppingFirst? && !s.at.decided) || (s.at.DroppingSecond? && s.at.read.None?))
  }

  lemma FailureGivesUp(options: Options, s: Wait, answer: Answer)
    requires Invariant(options, s) && Fails(s, answer)
    ensures GivenUp(ToolStep(options, s, answer))
  {
  }

  lemma StaysGivenUp(options: Options, s: Wait, turn: Turn)
    requires GivenUp(s)
    ensures GivenUp(Step(options, s, turn))
  {
  }

  /** After a failing call no evidence is written in any continuation of the run. */
  lemma FailedCallLeavesNoEvidence(options: Options, os: Os, turns: seq<Turn>, answer: Answer, more: seq<Turn>)
    requires Valid(os) && os.own == map[] && Fails(Run(options, os, turns), answer)
    ensures Run(options, os, turns + [Tool(answer)] + more).written.None?
  {
    RunKeepsInvariant(options, os, turns);
    RunOneMore(options, os, turns, Tool(answer));
    FailureGivesUp(options, Run(options, os, turns), answer);
    var run := (ts: seq<Turn>) => Run(options, os, ts);
    forall ts, turn | GivenUp(run(ts))
      ensures GivenUp(run(ts + [turn]))
    {
      RunOneMore(options, os, ts, turn);
      StaysGivenUp(options, run(ts), turn);
    }
    KeptForever(run, s => GivenUp(s), turns + [Tool(answer)], more);
  }

  /** How many calls are left at most. */
  function Away(s: Wait): nat {
    match s.at
    case Opening => 10
    case Querying(_) => 9
    case Checking(_, _) => 8
    case Waiting(_) => 7
    case Reopening(_) => 6
    case Requerying(_, _) => 5
    case DroppingSecond(_, _, _) => 4
    case Comparing(_, _) => 3
    case DroppingFirst(_, _) => 2
    case Writing => 1
    case Finished => 0
  }

  /** The tool goes on waiting for a process that is still running. */
  predicate StillWaits(s: Wait, turn: Turn) {
    turn == Tool(Success) && s.at.Waiting? && IsOpen(s.os, s.at.handle) && !s.os.processes[s.os.own[s.at.handle]].exited
  }

  lemma CallComesNearer(options: Options, s: Wait, turn: Turn)
    ensures Away(Step(options, s, turn)) <= Away(s)
    ensures turn.Tool? && !StillWaits(s, turn) && Away(s) > 0 ==> Away(Step(options, s, turn)) < Away(s)
  {
  }

  lemma FinishedHoldsNothing(options: Options, os: Os, turns: seq<Turn>)
    requires Valid(os) && os.own == map[] && Run(options, os, turns).at.Finished?
    ensures Run(options, os, turns).os.own == map[]
  {
    RunKeepsInvariant(options, os, turns);
  }

  /** Every run ends, and with no handle open: after ten calls that do more than wait on. */
  lemma EveryRunEnds(options: Options, os: Os, turns: seq<Turn>)
    requires Valid(os) && os.own == map[]
    requires Calls((ts: seq<Turn>) => Run(options, os, ts), (s: Wait, turn: Turn) => StillWaits(s, turn), turns) >= 10
    ensures Run(options, os, turns).at.Finished? && Run(options, os, turns).os.own == map[]
  {
    var run, idle := (ts: seq<Turn>) => Run(options, os, ts), (s: Wait, turn: Turn) => StillWaits(s, turn);
    var away := (s: Wait) => Away(s);
    forall ts, turn
      ensures away(run(ts + [turn])) <= away(run(ts))
      ensures turn.Tool? && !idle(run(ts), turn) && away(run(ts)) > 0 ==> away(run(ts + [turn])) < away(run(ts))
    {
      RunOneMore(options, os, ts, turn);
      CallComesNearer(options, run(ts), turn);
    }
    CallsLeadToEnd(run, idle, away, turns);
    FinishedHoldsNothing(options, os, turns);
  }

  // ---------- what is reported when no call fails ----------

  /** `n` calls of the tool, none of which fails, with nothing else happening in between. */
  function Undisturbed(options: Options, s: Wait, n: nat): Wait {
    Iterate((t: Wait) => ToolStep(options, t, Success), s, n)
  }

  /** The evidence a wait on these options writes. */
  function Reported(options: Options, reused: bool, replacement: Option<Identity>): Evidence {
    Evidence(Request(options.processId, options.expectedExecutable, options.expectedStartTime), true, reused, replacement)
  }

  /** A PID that names nothing: exited, not reused. */
  lemma ReportsFreePid(options: Options, os: Os)
    requires options.processId !in os.table
    ensures var s := Undisturbed(options, Start(options, os), 2);
            s.at.Finished? && s.written == Some(Reported(options, false, None))
  {
    assert Undisturbed(options, Start(options, os), 1).at == Writing;
  }

  /** A PID that names another process: exited, reused, and by whom. */
  lemma ReportsReplacement(options: Options, os: Os, actual: Identity)
    requires Valid(os) && os.own == map[] && options.processId in os.table
    requires Query(os.processes[os.table[options.processId]]) == Some(actual)
    requires SameIdentity(actual, options) == Different
    ensures var s := Undisturbed(options, Start(options, os), 5);
            s.at.Finished? && s.written == Some(Reported(options, true, Some(actual)))
  {
    var s := Start(options, os);
    assert Undisturbed(options, s, 1).at == Querying(os.nextHandle);
    assert Undisturbed(options, s, 2).at == Checking(os.nextHandle, actual);
    assert Undisturbed(options, s, 3).at == DroppingFirst(os.nextHandle, true);
    assert Undisturbed(options, s, 4).at == Writing;
  }

  /** A PID that names a process created before 1970, or one whose start time cannot be compared: an
      error, and nothing is written. */
  lemma ReportsNothing(options: Options, os: Os)
    requires Valid(os) && os.own == map[] && options.processId in os.table
    requires var read := Query(os.processes[os.table[options.processId]]);
             read.None? || SameIdentity(read.value, options) == Panics
    ensures var s := Undisturbed(options, Start(options, os), 4); s.at.Finished? && s.written.None?
  {
    var s, read := Start(options, os), Query(os.processes[os.table[options.processId]]);
    assert Undisturbed(options, s, 1).at == Querying(os.nextHandle);
    if read.None? {
      assert Undisturbed(options, s, 2).at == DroppingFirst(os.nextHandle, false);
      assert Undisturbed(options, s, 3).at == Finished;
    } else {
      assert Undisturbed(options, s, 2).at == Checking(os.nextHandle, read.value);
      assert Undisturbed(options, s, 3).at == DroppingFirst(os.nextHandle, false);
    }
  }

  /** After the wait the second look opens and reads the same object. */
  lemma LooksAgainAtTheSame(options: Options, s: Wait)
    requires Ready(options, s) && s.at.Waiting? && s.os.processes[s.os.own[s.at.handle]].exited
    ensures Undisturbed(options, s, 1) == s.(draft := s.draft.(exactIdentityExited := true), observed := |s.os.processes|,
                                             at := Reopening(s.at.handle))
    ensures var t := Undisturbed(options, s, 3);
            && t.at == DroppingSecond(s.at.handle, s.os.nextHandle, Query(s.os.processes[s.os.own[s.at.handle]]))
            && t.draft == s.draft.(exactIdentityExited := true)
  {
    var handle, second := s.at.handle, s.os.nextHandle;
    assert IsOpen(s.os, handle);
    PinnedVerdict(options, s);
    assert Undisturbed(options, s, 1).at == Reopening(handle) && Undisturbed(options, s, 1).os == s.os;
    assert Undisturbed(options, s, 2).at == Requerying(handle, second)
           && Undisturbed(options, s, 2).os == Open(s.os, options.processId);
  }

  lemma SameAgainFinishes(options: Options, s: Wait, read: Identity)
    requires s.at.DroppingSecond? && s.at.read == Some(read) && SameIdentity(read, options) == Same
    ensures Undisturbed(options, s, 4).at.Finished? && Undisturbed(options, s, 4).written == Some(s.draft)
  {
    assert Undisturbed(options, s, 1).at == Comparing(s.at.handle, read);
    assert Undisturbed(options, s, 2).at == DroppingFirst(s.at.handle, true);
    assert Undisturbed(options, s, 3).at == Writing;
  }

  /** The process asked for, once it has exited: exited, not reused. */
  lemma ReportsExit(options: Options, s: Wait)
    requires Ready(options, s) && s.at.Waiting?
    requires IsExpected(s.os.processes[s.os.own[s.at.handle]], options) && s.os.processes[s.os.own[s.at.handle]].exited
    ensures var t := Undisturbed(options, s, 7);
            t.at.Finished? && t.written == Some(s.draft.(exactIdentityExited := true))
  {
    MatchMeaning(s.os.processes[s.os.own[s.at.handle]], options);
    LooksAgainAtTheSame(options, s);
    SameAgainFinishes(options, Undisturbed(options, s, 3), Query(s.os.processes[s.os.own[s.at.handle]]).value);
    IterateAfter((t: Wait) => ToolStep(options, t, Success), s, 3, 4);
  }

  lemma {:induction false} UndisturbedKeepsReady(options: Options, s: Wait, n: nat)
    requires Ready(options, s)
    ensures Ready(options, Undisturbed(options, s, n))
    decreases n
  {
    if n == 0 {
    } else {
      UndisturbedKeepsReady(options, s, n - 1);
      ToolKeepsReady(options, Undisturbed(options, s, n - 1), Success);
    }
  }

  /** The process asked for, while it runs: the tool waits for it. */
  lemma WaitsForMatch(options: Options, os: Os)
    requires Valid(os) && os.own == map[] && options.processId in os.table
    requires IsExpected(os.processes[os.table[options.processId]], options)
    ensures var s := Undisturbed(options, Start(options, os), 3);
            && s == Start(options, os).(os := Open(os, options.processId), at := Waiting(os.nextHandle))
            && Ready(options, s) && s.os.own[s.at.handle] == os.table[options.processId]
            && (!os.processes[os.table[options.processId]].exited ==> ToolStep(options, s, Success) == s)
  {
    var s, process := Start(options, os), os.processes[os.table[options.processId]];
    MatchMeaning(process, options);
    UndisturbedKeepsReady(options, s, 3);
    var querying := s.(os := Open(os, options.processId), at := Querying(os.nextHandle));
    assert Undisturbed(options, s, 1) == querying;
    assert Undisturbed(options, s, 2) == querying.(at := Checking(os.nextHandle, Query(process).value));
    assert Undisturbed(options, s, 3) == querying.(at := Waiting(os.nextHandle));
  }

  /** Of the process a PID names: what the wait reports about it when no call fails and nothing else
      happens. */
  lemma QuietOutcomeOfProcess(options: Options, os: Os)
    requires Valid(os) && os.own == map[] && options.processId in os.table
    ensures var p := os.processes[os.table[options.processId]];
            var s := Undisturbed(options, Start(options, os), 10);
            && (IsExpected(p, options) && p.exited ==> s.at.Finished? && s.written == Some(Reported(options, false, None)))
            && (IsExpected(p, options) && !p.exited ==> s.at.Waiting? && s.written.None?)
            && (!IsExpected(p, options) && Query(p).Some? && !IsOverflow(p, options) ==>
                  s.at.Finished? && s.written == Some(Reported(options, true, Query(p))))
            && (Query(p).None? || IsOverflow(p, options) ==> s.at.Finished? && s.written.None?)
  {
    var p, s := os.processes[os.table[options.processId]], Start(options, os);
    MatchMeaning(p, options);
    QueryMeaning(p);
    if IsExpected(p, options) {
      WaitsForMatch(options, os);
      if p.exited {
        ReportsExit(options, Undisturbed(options, s, 3));
        IterateAfter((t: Wait) => ToolStep(options, t, Success), s, 3, 7);
      } else {
        IterateAtRest((t: Wait) => ToolStep(options, t, Success), s, 3, 7);
      }
    } else if Query(p).Some? && SameIdentity(Query(p).value, options) == Different {
      ReportsReplacement(options, os, Query(p).value);
      IterateAtRest((t: Wait) => ToolStep(options, t, Success), s, 5, 5);
    } else {
      ReportsNothing(options, os);
      IterateAtRest((t: Wait) => ToolStep(options, t, Success), s, 4, 6);
    }
  }

  /** What the wait reports when no call fails and nothing else happens, for every system: a free PID and
      an exited process as exited; the process asked for, while it runs, not at all yet; another one as a
      replacement, by its executable and start time; one that cannot be compared not at all. */
  lemma QuietOutcome(options: Options, os: Os)
    requires Valid(os) && os.own == map[]
    ensures var s := Undisturbed(options, Start(options, os), 10);
            if options.processId !in os.table then s.at.Finished? && s.written == Some(Reported(options, false, None))
            else
              var p := os.processes[os.table[options.processId]];
              if IsExpected(p, options) then
                if p.exited then s.at.Finished? && s.written == Some(Reported(options, false, None))
                else s.at.Waiting? && s.written.None?
              else if WideTicks(p.created) < 116_444_736_000_000_000 || IsOverflow(p, options) then
                s.at.Finished? && s.written.None?
              else
                && s.at.Finished?
                && s.written.Some? && s.written.value.replacement.Some?
                && var found := s.written.value.replacement.value;
                   && s.written.value == Reported(options, true, Some(found))
                   && found.executable == p.executable && found.startTime as int == SecondsSince1970(p.created)
  {
    if options.processId !in os.table {
      ReportsFreePid(options, os);
      IterateAtRest((t: Wait) => ToolStep(options, t, Success), Start(options, os), 2, 8);
    } else {
      QuietOutcomeOfProcess(options, os);
      QueryMeaning(os.processes[os.table[options.processId]]);
    }
  }
}
