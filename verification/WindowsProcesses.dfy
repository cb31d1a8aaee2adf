/** The part of Windows that e2e_owned_process.rs relies on: process objects, the PID table and
    open handles, with everything other programs may do between two calls of the tool. */
module WindowsProcesses {
  import opened Wrappers
  import opened ProcessIdentity

  /** A process object. Only `exited` ever changes. */
  datatype Process = Process(pid: u32, executable: string, created: Filetime, exited: bool)

  /** `processes` holds every process object ever created, by index; `table` says which object a
      PID names; `own` and `others` map open handles of the tool and of other programs to objects. */
  datatype Os = Os(
    processes: seq<Process>,
    table: map<u32, nat>,
    own: map<nat, nat>,
    others: map<nat, nat>,
    nextHandle: nat)

  /** One step of the rest of the system. */
  datatype Event =
    | Spawn(pid: u32, executable: string, created: Filetime)
    | Exit(process: nat)
    | Release(pid: u32)
    | OpenElsewhere(handle: nat, pid: u32)
    | CloseElsewhere(handle: nat)

  /** How a call of the tool answers: it succeeds if it can, fails, or (a wait) runs out of time. */
  datatype Answer = Success | Failure | Timeout

  /** One step of a run: an event, or the next call of the tool. */
  datatype Turn = Other(event: Event) | Tool(answer: Answer)

  /** `n` steps of the same kind. */
  function Iterate<S>(step: S -> S, s: S, n: nat): S
    decreases n
  {
    if n == 0 then s else step(Iterate(step, s, n - 1))
  }

  lemma {:induction false} IterateAfter<S>(step: S -> S, s: S, m: nat, n: nat)
    ensures Iterate(step, s, m + n) == Iterate(step, Iterate(step, s, m), n)
    decreases n
  {
    if n == 0 {
    } else {
      IterateAfter(step, s, m, n - 1);
    }
  }

  /** What has come to rest stays as it is. */
  lemma {:induction false} IterateAtRest<S>(step: S -> S, s: S, m: nat, n: nat)
    requires step(Iterate(step, s, m)) == Iterate(step, s, m)
    ensures Iterate(step, s, m + n) == Iterate(step, s, m)
    decreases n
  {
    if n == 0 {
    } else {
      IterateAtRest(step, s, m, n - 1);
    }
  }

  // ---------- what holds over runs of any of the protocols ----------

  /** What one turn keeps holds from then on. */
  lemma {:induction false} KeptForever<S>(run: seq<Turn> -> S, holds: S -> bool, turns: seq<Turn>, more: seq<Turn>)
    requires forall ts, turn :: holds(run(ts)) ==> holds(run(ts + [turn]))
    requires holds(run(turns))
    ensures holds(run(turns + more))
    decreases |more|
  {
    if more == [] {
      assert turns + more == turns;
    } else {
      var sooner, last := more[..|more| - 1], more[|more| - 1];
      KeptForever(run, holds, turns, sooner);
      assert turns + more == (turns + sooner) + [last];
    }
  }

  /** How many calls of the tool a run makes, not counting those that only go on waiting. */
  function Calls<S>(run: seq<Turn> -> S, idle: (S, Turn) -> bool, turns: seq<Turn>): nat {
    if turns == [] then 0
    else
      var sooner, last := turns[..|turns| - 1], turns[|turns| - 1];
      Calls(run, idle, sooner) + if last.Tool? && !idle(run(sooner), last) then 1 else 0
  }

  /** If every such call brings the end nearer, the end is reached after as many as it was away. */
  lemma {:induction false} CallsLeadToEnd<S>(
    run: seq<Turn> -> S, idle: (S, Turn) -> bool, away: S -> nat, turns: seq<Turn>)
    requires forall ts, turn ::
               && away(run(ts + [turn])) <= away(run(ts))
               && (turn.Tool? && !idle(run(ts), turn) && away(run(ts)) > 0 ==> away(run(ts + [turn])) < away(run(ts)))
    ensures away(run(turns)) == 0 || away(run(turns)) + Calls(run, idle, turns) <= away(run([]))
    decreases |turns|
  {
    if turns == [] {
    } else {
      var sooner, last := turns[..|turns| - 1], turns[|turns| - 1];
      CallsLeadToEnd(run, idle, away, sooner);
      assert turns == sooner + [last];
    }
  }

  predicate Referenced(os: Os, process: nat) {
    (exists h :: h in os.own && os.own[h] == process) || (exists h :: h in os.others && os.others[h] == process)
  }

  /** The effect of an event; one that is not possible now changes nothing. A PID is released,
      and can then be given to a new process, only when its object has exited and no handle to it
      is open. */
  function Happen(os: Os, event: Event): Os {
    match event
    case Spawn(pid, executable, created) =>
      if pid in os.table then os
      else os.(processes := os.processes + [Process(pid, executable, created, false)],
               table := os.table[pid := |os.processes|])
    case Exit(process) =>
      if process >= |os.processes| then os
      else os.(processes := os.processes[process := os.processes[process].(exited := true)])
    case Release(pid) =>
      if pid !in os.table || os.table[pid] >= |os.processes| then os
      else if !os.processes[os.table[pid]].exited || Referenced(os, os.table[pid]) then os
      else os.(table := os.table - {pid})
    case OpenElsewhere(handle, pid) =>
      if handle in os.others || pid !in os.table then os
      else os.(others := os.others[handle := os.table[pid]])
    case CloseElsewhere(handle) =>
      os.(others := os.others - {handle})
  }

  /** `OpenProcess` of a PID that is in the table; the new handle is `os.nextHandle`. The object
      may already have exited. */
  function Open(os: Os, pid: u32): Os
    requires pid in os.table
  {
    os.(own := os.own[os.nextHandle := os.table[pid]], nextHandle := os.nextHandle + 1)
  }

  /** `CloseHandle`, which `OwnedHandle` calls when it is dropped. */
  function Close(os: Os, handle: nat): Os {
    os.(own := os.own - {handle})
  }

  /** Calls through a handle that is not open fail. */
  predicate IsOpen(os: Os, handle: nat) {
    handle in os.own && os.own[handle] < |os.processes|
  }

  /** The PID of this object still names this object. */
  predicate Bound(os: Os, process: nat) {
    && process < |os.processes|
    && os.processes[process].pid in os.table
    && os.table[os.processes[process].pid] == process
  }

  ghost predicate Valid(os: Os) {
    && (forall pid :: pid in os.table ==> os.table[pid] < |os.processes| && os.processes[os.table[pid]].pid == pid)
    && (forall o :: 0 <= o < |os.processes| && !os.processes[o].exited ==> Bound(os, o))
    && (forall h :: h in os.own ==> h < os.nextHandle && Bound(os, os.own[h]))
    && (forall h :: h in os.others ==> Bound(os, os.others[h]))
  }

  /** What one state of the system leaves fixed for every later one: objects stay, keep their PID,
      executable and creation time, and never come back to life. */
  ghost predicate Later(os: Os, next: Os) {
    && |os.processes| <= |next.processes|
    && forall o :: 0 <= o < |os.processes| ==>
         next.processes[o] == os.processes[o].(exited := next.processes[o].exited)
         && (os.processes[o].exited ==> next.processes[o].exited)
  }

  lemma SpawnKeepsValid(os: Os, pid: u32, executable: string, created: Filetime)
    requires Valid(os) && pid !in os.table
    ensures Valid(Happen(os, Spawn(pid, executable, created)))
  {
    var next := Happen(os, Spawn(pid, executable, created));
    assert forall o: nat :: Bound(os, o) ==> os.processes[o].pid != pid && Bound(next, o);
  }

  lemma ExitKeepsValid(os: Os, process: nat)
    requires Valid(os) && process < |os.processes|
    ensures Valid(Happen(os, Exit(process)))
  {
    var next := Happen(os, Exit(process));
    assert forall o: nat :: Bound(os, o) ==> Bound(next, o);
  }

  lemma ReleaseKeepsValid(os: Os, pid: u32)
    requires Valid(os) && pid in os.table
    requires os.processes[os.table[pid]].exited && !Referenced(os, os.table[pid])
    ensures Valid(Happen(os, Release(pid)))
  {
    var next := Happen(os, Release(pid));
    assert next.table == os.table - {pid};
    assert forall o: nat :: Bound(os, o) && o != os.table[pid] ==> Bound(next, o);
  }

  lemma OthersKeepValid(os: Os, others: map<nat, nat>)
    requires Valid(os)
    requires forall h :: h in others ==> Bound(os, others[h])
    ensures Valid(os.(others := others))
  {
    assert forall o: nat :: Bound(os, o) ==> Bound(os.(others := others), o);
  }

  lemma HappenIsLater(os: Os, event: Event)
    ensures Later(os, Happen(os, event))
    ensures Happen(os, event).own == os.own && Happen(os, event).nextHandle == os.nextHandle
  {
  }

  lemma HappenKeepsValid(os: Os, event: Event)
    requires Valid(os)
    ensures Valid(Happen(os, event)) && Later(os, Happen(os, event))
    ensures Happen(os, event).own == os.own && Happen(os, event).nextHandle == os.nextHandle
  {
    HappenIsLater(os, event);
    match event
    case Spawn(pid, executable, created) =>
      if pid !in os.table { SpawnKeepsValid(os, pid, executable, created); }
    case Exit(process) =>
      if process < |os.processes| { ExitKeepsValid(os, process); }
    case Release(pid) =>
      if pid in os.table && os.processes[os.table[pid]].exited && !Referenced(os, os.table[pid]) {
        ReleaseKeepsValid(os, pid);
      }
    case OpenElsewhere(handle, pid) =>
      if handle !in os.others && pid in os.table {
        OthersKeepValid(os, os.others[handle := os.table[pid]]);
      }
    case CloseElsewhere(handle) =>
      OthersKeepValid(os, os.others - {handle});
  }

  lemma OpenKeepsValid(os: Os, pid: u32)
    requires Valid(os) && pid in os.table
    ensures Valid(Open(os, pid)) && os.nextHandle !in os.own
  {
    assert forall o: nat :: Bound(os, o) ==> Bound(Open(os, pid), o);
  }

  lemma CloseKeepsValid(os: Os, handle: nat)
    requires Valid(os)
    ensures Valid(Close(os, handle))
  {
    assert forall o: nat :: Bound(os, o) ==> Bound(Close(os, handle), o);
  }

  lemma LaterTransitive(a: Os, b: Os, c: Os)
    requires Later(a, b) && Later(b, c)
    ensures Later(a, c)
  {
  }

  function HappenAll(os: Os, events: seq<Event>): Os
    decreases |events|
  {
    if events == [] then os else HappenAll(Happen(os, events[0]), events[1..])
  }

  lemma HappenOne(os: Os, event: Event)
    ensures HappenAll(os, [event]) == Happen(os, event)
  {
    assert [event][1..] == [];
  }

  lemma {:induction false} HappenLast(os: Os, events: seq<Event>, event: Event)
    ensures HappenAll(os, events + [event]) == Happen(HappenAll(os, events), event)
    decreases |events|
  {
    if events == [] {
      assert HappenAll(Happen(os, event), []) == Happen(os, event);
      assert ([] + [event])[1..] == [];
    } else {
      HappenLast(Happen(os, events[0]), events[1..], event);
      assert (events + [event])[1..] == events[1..] + [event];
    }
  }

  /** An open handle pins its PID: whatever else happens, the PID keeps naming that object. */
  lemma {:induction false} HandlePinsPid(os: Os, events: seq<Event>, handle: nat)
    requires Valid(os) && handle in os.own
    ensures var o := os.own[handle]; var after := HappenAll(os, events);
            && Valid(after) && Later(os, after)
            && handle in after.own && after.own[handle] == o
            && after.table[os.processes[o].pid] == o
    decreases |events|
  {
    if events == [] {
    } else {
      var next := Happen(os, events[0]);
      HappenKeepsValid(os, events[0]);
      HandlePinsPid(next, events[1..], handle);
      LaterTransitive(os, next, HappenAll(os, events));
    }
  }

  /** Without a handle the same PID can come to name another process, so the pinning is needed. */
  lemma UnpinnedPidIsReused(pid: u32, first: Process, executable: string, created: Filetime)
    requires first.pid == pid
    ensures var os := Os([first], map[pid := 0], map[], map[], 0);
            var after := HappenAll(os, [Exit(0), Release(pid), Spawn(pid, executable, created)]);
            && Valid(os)
            && after.table == map[pid := 1]
            && after.processes == [first.(exited := true), Process(pid, executable, created, false)]
  {
    var os := Os([first], map[pid := 0], map[], map[], 0);
    var exited := Happen(os, Exit(0));
    var released := Happen(exited, Release(pid));
    var spawned := Happen(released, Spawn(pid, executable, created));
    assert HappenAll(spawned, []) == spawned;
    assert HappenAll(released, [Spawn(pid, executable, created)]) == spawned;
    assert HappenAll(exited, [Release(pid), Spawn(pid, executable, created)]) == spawned;
  }

  /** A handle of another program pins a PID as well: it is released only once that handle is closed. */
  lemma OtherHandlePinsPid(os: Os, pid: u32, handle: nat)
    requires Valid(os) && pid in os.table && handle !in os.others && !Referenced(os, os.table[pid])
    ensures var o := os.table[pid];
            var held := HappenAll(os, [OpenElsewhere(handle, pid), Exit(o), Release(pid)]);
            var freed := HappenAll(held, [CloseElsewhere(handle), Release(pid)]);
            && held.table == os.table && held.processes == os.processes[o := os.processes[o].(exited := true)]
            && pid !in freed.table && freed.processes == held.processes
  {
    var o := os.table[pid];
    var shared := Happen(os, OpenElsewhere(handle, pid));
    var exited := Happen(shared, Exit(o));
    assert exited.others[handle] == o;
    HappenThree(os, OpenElsewhere(handle, pid), Exit(o), Release(pid));
    var closed := Happen(exited, CloseElsewhere(handle));
    assert closed.others == os.others;
    HappenTwo(exited, CloseElsewhere(handle), Release(pid));
  }

  lemma HappenTwo(os: Os, a: Event, b: Event)
    ensures HappenAll(os, [a, b]) == Happen(Happen(os, a), b)
  {
    HappenOne(Happen(os, a), b);
    assert [a, b][1..] == [b];
  }

  lemma HappenThree(os: Os, a: Event, b: Event, c: Event)
    ensures HappenAll(os, [a, b, c]) == Happen(Happen(Happen(os, a), b), c)
  {
    HappenTwo(Happen(os, a), b, c);
    assert [a, b, c][1..] == [b, c];
  }

  // ---------- what the evidence fields claim ----------

  /** What `query_identity` reads through a handle; none before the Unix epoch. */
  function Query(p: Process): Option<Identity> {
    match UnixSeconds(p.created)
    case None => None
    case Some(seconds) => Some(Identity(p.executable, seconds))
  }

  /** `query_identity`: none as well when the call fails or the handle is not open. */
  function ReadIdentity(os: Os, handle: nat, answer: Answer): Option<Identity> {
    if answer != Success || !IsOpen(os, handle) then None else Query(os.processes[os.own[handle]])
  }

  predicate Matches(p: Process, options: Options) {
    p.pid == options.processId && Query(p).Some? && SameIdentity(Query(p).value, options) == Same
  }

  /** Whole seconds from 1970 to a creation time in ticks since 1601; negative before. */
  function SecondsSince1970(created: Filetime): int {
    (WideTicks(created) - 116_444_736_000_000_000) / 10_000_000
  }

  /** The query reads the executable and the start time as they are, from 1970 on. */
  lemma QueryMeaning(p: Process)
    ensures Query(p).None? <==> WideTicks(p.created) < 116_444_736_000_000_000
    ensures Query(p).Some? ==>
              && Query(p).value.executable == p.executable
              && Query(p).value.startTime as int == SecondsSince1970(p.created)
  {
    FiletimeConversion(p.created, p.created);
  }

  /** The process that was asked for: this PID, created since 1970, the same executable key, and started
      within two seconds of the expected time. In a build without overflow checks a start time 2^63
      seconds later passes as well, because that difference wraps. */
  predicate IsExpected(p: Process, options: Options) {
    && p.pid == options.processId
    && WideTicks(p.created) >= 116_444_736_000_000_000
    && NormalizeExecutable(p.executable) == NormalizeExecutable(options.expectedExecutable)
    && var apart := SecondsSince1970(p.created) - options.expectedStartTime as int;
       -2 <= apart <= 2 || (!options.overflowChecks && apart == 0x8000_0000_0000_0000)
  }

  /** The comparison panics for this process. */
  predicate IsOverflow(p: Process, options: Options) {
    && WideTicks(p.created) >= 116_444_736_000_000_000
    && NormalizeExecutable(p.executable) == NormalizeExecutable(options.expectedExecutable)
    && options.overflowChecks
    && SecondsSince1970(p.created) - options.expectedStartTime as int >= 0x8000_0000_0000_0000
  }

  /** A match is exactly the process that was asked for, and a panic exactly that far a start time. */
  lemma MatchMeaning(p: Process, options: Options)
    ensures Matches(p, options) <==> IsExpected(p, options)
    ensures Query(p).Some? && SameIdentity(Query(p).value, options) == Panics <==> IsOverflow(p, options)
  {
    QueryMeaning(p);
    if Query(p).Some? {
      FiletimeConversion(p.created, p.created);
      SameIdentityExactly(Query(p).value, options);
    }
  }

  /** `exact_identity_exited`: no process with the expected PID and identity is still running. */
  ghost predicate ExactIdentityExited(os: Os, options: Options) {
    forall o :: 0 <= o < |os.processes| && Matches(os.processes[o], options) ==> os.processes[o].exited
  }

  /** `pid_reused`: the PID names a process of another identity. */
  predicate PidReused(os: Os, options: Options)
    requires options.processId in os.table ==> os.table[options.processId] < |os.processes|
  {
    options.processId in os.table && !Matches(os.processes[os.table[options.processId]], options)
  }

  /** A PID that does not name a running match leaves no match running anywhere. */
  lemma NoOtherMatch(os: Os, options: Options)
    requires Valid(os)
    requires options.processId in os.table && Matches(os.processes[os.table[options.processId]], options)
             ==> os.processes[os.table[options.processId]].exited
    ensures ExactIdentityExited(os, options)
  {
    forall o | 0 <= o < |os.processes| && Matches(os.processes[o], options)
      ensures os.processes[o].exited
    {
      assert !os.processes[o].exited ==> Bound(os, o);
    }
  }

  /** The two claims in terms of the process asked for. */
  lemma ClaimsMeaning(os: Os, options: Options)
    requires Valid(os)
    ensures ExactIdentityExited(os, options)
            <==> forall o :: 0 <= o < |os.processes| && IsExpected(os.processes[o], options) ==> os.processes[o].exited
    ensures PidReused(os, options)
            <==> options.processId in os.table && !IsExpected(os.processes[os.table[options.processId]], options)
  {
    forall o | 0 <= o < |os.processes|
      ensures Matches(os.processes[o], options) <==> IsExpected(os.processes[o], options)
    {
      MatchMeaning(os.processes[o], options);
    }
  }
}
