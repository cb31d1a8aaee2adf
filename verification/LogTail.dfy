/** `show_new_log_lines` of desktop_diagnostic.rs: each poll reads a whole log file again and routes
    the lines beyond the ones already shown. */
module LogTail {
  import opened Wrappers
  import opened Text

  datatype Stream = Stdout | Stderr

  /** What is done with a line. A clipboard capture or snapshot is an action on the system whose own
      outcome goes to other logs. */
  datatype Effect =
    | ChildLog(line: string)
    | ClipboardLog(line: string)
    | Console(line: string)
    | Capture(line: string)
    | Snapshot(reason: string)

  datatype Event = Event(stream: Stream, effect: Effect)

  // ---------- classification ----------

  /** What the substring tests say about a line. */
  datatype Traits = Traits(
    child: bool,
    startTrace: bool,
    clipboard: bool,
    polling: bool,
    childStatus: bool,
    success: bool,
    failure: bool,
    dispatch: bool)

  predicate IsClipboardTrace(line: string) {
    Contains(line, "copy_log_") || Contains(line, "clipboard_write_")
  }

  predicate IsRuntimePollingTrace(line: string) {
    StartsWith(line, "[KGW_START_TRACE]")
    && (Contains(line, "kgw_runtime_owner_status_v1") || Contains(line, "kgw_kgw_runtime_logs_v1"))
  }

  function Classify(line: string): Traits {
    Traits(
      StartsWith(line, "[KGW_CHILD_STDERR]") || StartsWith(line, "[KGW_CHILD_STDOUT]"),
      StartsWith(line, "[KGW_START_TRACE]"),
      IsClipboardTrace(line),
      IsRuntimePollingTrace(line),
      Contains(line, "native.child_pid_recorded") || Contains(line, "self-worker-exited-during-startup"),
      Contains(line, "copy_log_succeeded") || Contains(line, "clipboard_write_succeeded"),
      Contains(line, "copy_log_failed") || Contains(line, "clipboard_write_failed"),
      Contains(line, "copy_log_dispatched") || Contains(line, "clipboard_write_entered"))
  }

  /** Everything done with one line, in order. */
  function Route(line: string, t: Traits): seq<Effect> {
    if t.child then [ChildLog(line), Console(line)]
    else if !t.startTrace then [Console(line)]
    else if t.childStatus then [ChildLog(line)] + RouteTrace(line, t)
    else RouteTrace(line, t)
  }

  /** Where a start trace goes besides the child log. */
  function RouteTrace(line: string, t: Traits): seq<Effect> {
    if t.clipboard then [ClipboardLog(line)] + AfterClipboardLine(line, t)
    else if t.polling then []
    else [Console(line)]
  }

  /** What follows once a clipboard trace is in the clipboard log. */
  function AfterClipboardLine(line: string, t: Traits): seq<Effect> {
    if t.success then [Console(line), Capture(line)]
    else if t.failure then [Snapshot("after-clipboard-failure-trace")]
    else if t.dispatch then [Snapshot("after-clipboard-dispatch-trace")]
    else []
  }

  /** The place of an effect among those of one line. */
  function Rank(effect: Effect): nat {
    match effect
    case ChildLog(_) => 0
    case ClipboardLog(_) => 1
    case Console(_) => 2
    case Capture(_) => 3
    case Snapshot(_) => 3
  }

  /** How often this effect is among them. */
  function Times(effects: seq<Effect>, effect: Effect): nat {
    multiset(effects)[effect]
  }

  /** The two reasons differ. */
  lemma ReasonsDiffer()
    ensures "after-clipboard-failure-trace" != "after-clipboard-dispatch-trace"
  {
    assert "after-clipboard-failure-trace"[16] == 'f' && "after-clipboard-dispatch-trace"[16] == 'd';
  }

  /** The effects come in the order child log, clipboard log, console, capture or snapshot, none twice. */
  lemma RoutingOrder(line: string, t: Traits)
    ensures forall i, j :: 0 <= i < j < |Route(line, t)| ==> Rank(Route(line, t)[i]) < Rank(Route(line, t)[j])
  {
  }

  lemma ClipboardTable(line: string, t: Traits)
    ensures var effects := AfterClipboardLine(line, t);
            && Times(effects, ChildLog(line)) == 0 && Times(effects, ClipboardLog(line)) == 0
            && Times(effects, Console(line)) == (if t.success then 1 else 0)
            && Times(effects, Capture(line)) == (if t.success then 1 else 0)
            && Times(effects, Snapshot("after-clipboard-failure-trace")) == (if !t.success && t.failure then 1 else 0)
            && Times(effects, Snapshot("after-clipboard-dispatch-trace"))
               == (if !t.success && !t.failure && t.dispatch then 1 else 0)
  {
    ReasonsDiffer();
  }

  lemma TimesAppend(a: seq<Effect>, b: seq<Effect>, effect: Effect)
    ensures Times(a + b, effect) == Times(a, effect) + Times(b, effect)
  {
  }

  /** How often an effect is among those of a line. */
  lemma RoutingTimes(line: string, t: Traits, effect: Effect)
    ensures Times(Route(line, t), effect)
            == (if effect == ChildLog(line) && (t.child || (t.startTrace && t.childStatus)) then 1 else 0)
               + if t.child || !t.startTrace || (!t.clipboard && !t.polling) then (if effect == Console(line) then 1 else 0)
                 else if t.clipboard then
                   (if effect == ClipboardLog(line) then 1 else 0) + Times(AfterClipboardLine(line, t), effect)
                 else 0
  {
    if t.clipboard { TimesAppend([ClipboardLog(line)], AfterClipboardLine(line, t), effect); }
    if t.childStatus { TimesAppend([ChildLog(line)], RouteTrace(line, t), effect); }
  }

  /** Which effects a line has, each at most once, and when exactly. */
  lemma RoutingTable(line: string, t: Traits)
    requires !(t.child && t.startTrace)
    ensures var effects := Route(line, t); var traced := t.startTrace && t.clipboard;
            && Times(effects, ChildLog(line)) == (if t.child || (t.startTrace && t.childStatus) then 1 else 0)
            && Times(effects, ClipboardLog(line)) == (if traced then 1 else 0)
            && Times(effects, Console(line))
               == (if !t.startTrace || (if t.clipboard then t.success else !t.polling) then 1 else 0)
            && Times(effects, Capture(line)) == (if traced && t.success then 1 else 0)
            && Times(effects, Snapshot("after-clipboard-failure-trace"))
               == (if traced && !t.success && t.failure then 1 else 0)
            && Times(effects, Snapshot("after-clipboard-dispatch-trace"))
               == (if traced && !t.success && !t.failure && t.dispatch then 1 else 0)
  {
    ClipboardTable(line, t);
    RoutingTimes(line, t, ChildLog(line));
    RoutingTimes(line, t, ClipboardLog(line));
    RoutingTimes(line, t, Console(line));
    RoutingTimes(line, t, Capture(line));
    RoutingTimes(line, t, Snapshot("after-clipboard-failure-trace"));
    RoutingTimes(line, t, Snapshot("after-clipboard-dispatch-trace"));
  }

  /** And nothing else is done with it. */
  lemma NothingElse(line: string, t: Traits, effect: Effect)
    requires effect in Route(line, t)
    ensures effect in [ChildLog(line), ClipboardLog(line), Console(line), Capture(line),
                       Snapshot("after-clipboard-failure-trace"), Snapshot("after-clipboard-dispatch-trace")]
  {
  }

  /** No line begins both like a child line and like a start trace. */
  lemma PrefixesDiffer(line: string)
    ensures !(Classify(line).child && Classify(line).startTrace)
  {
    var trace := "[KGW_START_TRACE]";
    var stderr, stdout := "[KGW_CHILD_STDERR]", "[KGW_CHILD_STDOUT]";
    assert trace[5] == 'S' && stderr[5] == 'C' && stdout[5] == 'C';
    assert StartsWith(line, trace) ==> line[5] == trace[5];
    assert StartsWith(line, stderr) ==> line[5] == stderr[5];
    assert StartsWith(line, stdout) ==> line[5] == stdout[5];
  }

  /** What the tool does with a line, by its text alone. A start trace of the clipboard is in the
      clipboard log exactly once; its wording decides about the console, the capture and the snapshots. */
  lemma RoutingOfLine(line: string)
    ensures var effects := Route(line, Classify(line));
            var child := "[KGW_CHILD_STDERR]" <= line || "[KGW_CHILD_STDOUT]" <= line;
            var trace := "[KGW_START_TRACE]" <= line;
            var traced := trace && (Contains(line, "copy_log_") || Contains(line, "clipboard_write_"));
            var success := Contains(line, "copy_log_succeeded") || Contains(line, "clipboard_write_succeeded");
            var failure := Contains(line, "copy_log_failed") || Contains(line, "clipboard_write_failed");
            var dispatch := Contains(line, "copy_log_dispatched") || Contains(line, "clipboard_write_entered");
            && Times(effects, ChildLog(line))
               == (if child || (trace && (Contains(line, "native.child_pid_recorded")
                                          || Contains(line, "self-worker-exited-during-startup"))) then 1 else 0)
            && Times(effects, ClipboardLog(line)) == (if traced then 1 else 0)
            && Times(effects, Console(line))
               == (if !trace || (traced && success)
                      || (!traced && !Contains(line, "kgw_runtime_owner_status_v1")
                          && !Contains(line, "kgw_kgw_runtime_logs_v1")) then 1 else 0)
            && Times(effects, Capture(line)) == (if traced && success then 1 else 0)
            && Times(effects, Snapshot("after-clipboard-failure-trace")) == (if traced && !success && failure then 1 else 0)
            && Times(effects, Snapshot("after-clipboard-dispatch-trace"))
               == (if traced && !success && !failure && dispatch then 1 else 0)
  {
    PrefixesDiffer(line);
    RoutingTable(line, Classify(line));
  }

  /** What is done with a line, given how lines are classified; the tool uses `Classify`. */
  function Router(classify: string -> Traits): string -> seq<Effect> {
    line => Route(line, classify(line))
  }

  /** The effects of lines shown one after the other, for any way of routing a line. */
  function RouteAll(route: string -> seq<Effect>, lines: seq<string>): seq<Effect> {
    ConcatMap(route, lines)
  }

  lemma RouteSnoc(route: string -> seq<Effect>, lines: seq<string>, k: nat)
    requires k < |lines|
    ensures RouteAll(route, lines[..k + 1]) == RouteAll(route, lines[..k]) + route(lines[k])
  {
    ConcatMapAppend(route, lines[..k], [lines[k]]);
    ConcatMapOne(route, lines[k]);
    assert lines[..k + 1] == lines[..k] + [lines[k]];
  }

  lemma RoutePrefix(route: string -> seq<Effect>, lines: seq<string>, k: nat)
    requires k <= |lines|
    ensures RouteAll(route, lines[..k]) <= RouteAll(route, lines)
  {
    ConcatMapAppend(route, lines[..k], lines[k..]);
    assert lines == lines[..k] + lines[k..];
  }

  // ---------- polls ----------

  /** The state the polls share: a cursor for each stream, and everything done so far. */
  datatype Tail = Tail(stdoutCount: nat, stderrCount: nat, events: seq<Event>)

  function CountOf(t: Tail, stream: Stream): nat {
    match stream case Stdout => t.stdoutCount case Stderr => t.stderrCount
  }

  function WithCount(t: Tail, stream: Stream, count: nat): Tail {
    match stream case Stdout => t.(stdoutCount := count) case Stderr => t.(stderrCount := count)
  }

  function Tagged(stream: Stream, effects: seq<Effect>): (events: seq<Event>)
    ensures |events| == |effects| && forall k :: 0 <= k < |effects| ==> events[k] == Event(stream, effects[k])
  {
    seq(|effects|, k requires 0 <= k < |effects| => Event(stream, effects[k]))
  }

  lemma TaggedAppend(before: seq<Event>, stream: Stream, a: seq<Effect>, b: seq<Effect>)
    ensures before + Tagged(stream, a) + Tagged(stream, b) == before + Tagged(stream, a + b)
  {
  }

  /** One poll of one log; `None` when the file does not exist yet. */
  function Poll(route: string -> seq<Effect>, t: Tail, stream: Stream, file: Option<string>): Tail {
    if file == None || |Lines(file.value)| <= CountOf(t, stream) then t
    else
      var lines := Lines(file.value);
      WithCount(t, stream, |lines|).(events := t.events + Tagged(stream, RouteAll(route, lines[CountOf(t, stream)..])))
  }

  /** Some of the effects, from the first on, were added. */
  ghost predicate AddedPart(before: seq<Event>, now: seq<Event>, stream: Stream, effects: seq<Effect>) {
    before <= now && now <= before + Tagged(stream, effects)
  }

  lemma PartOfMore(before: seq<Event>, now: seq<Event>, stream: Stream, a: seq<Effect>, b: seq<Effect>)
    requires AddedPart(before + Tagged(stream, a), now, stream, b)
    ensures AddedPart(before, now, stream, a + b)
  {
    TaggedAppend(before, stream, a, b);
  }

  lemma PartOfLonger(before: seq<Event>, now: seq<Event>, stream: Stream, a: seq<Effect>, b: seq<Effect>)
    requires AddedPart(before, now, stream, a) && a <= b
    ensures AddedPart(before, now, stream, b)
  {
    assert Tagged(stream, a) <= Tagged(stream, b);
  }

  /** The tool's state. Everything but printing can fail; `faults` says when. */
  class LogTailer {
    var stdoutCount: nat
    var stderrCount: nat
    var events: seq<Event>
    var clock: nat

    const classify: string -> Traits
    const faults: nat -> bool

    constructor (classify: string -> Traits, faults: nat -> bool)
      ensures State() == Tail(0, 0, []) && this.classify == classify && this.faults == faults
    {
      stdoutCount, stderrCount, events, clock := 0, 0, [], 0;
      this.classify := classify;
      this.faults := faults;
    }

    function State(): Tail
      reads this
    {
      Tail(stdoutCount, stderrCount, events)
    }

    method Print(stream: Stream, line: string)
      modifies this`events
      ensures events == old(events) + [Event(stream, Console(line))]
    {
      events := events + [Event(stream, Console(line))];
    }

    method Perform(stream: Stream, effect: Effect) returns (ok: bool)
      modifies this`events, this`clock
      ensures clock == old(clock) + 1 && ok == !faults(old(clock))
      ensures events == if ok then old(events) + [Event(stream, effect)] else old(events)
    {
      ok := !faults(clock);
      clock := clock + 1;
      if ok {
        events := events + [Event(stream, effect)];
      }
    }

    method ShowClipboardLine(stream: Stream, line: string, t: Traits) returns (ok: bool)
      modifies this`events, this`clock
      ensures ok ==> events == old(events) + Tagged(stream, AfterClipboardLine(line, t))
      ensures AddedPart(old(events), events, stream, AfterClipboardLine(line, t))
      ensures (forall c :: !faults(c)) ==> ok
    {
      if t.success {
        Print(stream, line);
        ok := Perform(stream, Capture(line));
        return;
      }
      if t.failure {
        ok := Perform(stream, Snapshot("after-clipboard-failure-trace"));
        return;
      }
      ok := true;
      if t.dispatch {
        ok := Perform(stream, Snapshot("after-clipboard-dispatch-trace"));
      }
    }

    method ShowTraceLine(stream: Stream, line: string, t: Traits) returns (ok: bool)
      modifies this`events, this`clock
      ensures ok ==> events == old(events) + Tagged(stream, RouteTrace(line, t))
      ensures AddedPart(old(events), events, stream, RouteTrace(line, t))
      ensures (forall c :: !faults(c)) ==> ok
    {
      if t.clipboard {
        ghost var before := events;
        ok := Perform(stream, ClipboardLog(line));
        if ok {
          assert events == before + Tagged(stream, [ClipboardLog(line)]);
          ok := ShowClipboardLine(stream, line, t);
          PartOfMore(before, events, stream, [ClipboardLog(line)], AfterClipboardLine(line, t));
          TaggedAppend(before, stream, [ClipboardLog(line)], AfterClipboardLine(line, t));
        }
        return;
      }
      if !t.polling {
        Print(stream, line);
      }
      return true;
    }

    /** The body of the loop over the new lines. A failure leaves the rest of the line undone. */
    method ShowLine(stream: Stream, line: string, t: Traits) returns (ok: bool)
      modifies this`events, this`clock
      ensures ok ==> events == old(events) + Tagged(stream, Route(line, t))
      ensures AddedPart(old(events), events, stream, Route(line, t))
      ensures (forall c :: !faults(c)) ==> ok
    {
      if !t.child && t.startTrace && !t.childStatus {
        ok := ShowTraceLine(stream, line, t);
        return;
      }
      if !t.child && !t.startTrace {
        Print(stream, line);
        return true;
      }
      ghost var before := events;
      ok := Perform(stream, ChildLog(line));
      if ok {
        assert events == before + Tagged(stream, [ChildLog(line)]);
        if t.child {
          Print(stream, line);
        } else {
          ok := ShowTraceLine(stream, line, t);
          PartOfMore(before, events, stream, [ChildLog(line)], RouteTrace(line, t));
          TaggedAppend(before, stream, [ChildLog(line)], RouteTrace(line, t));
        }
      }
    }

    /** `show_new_log_lines` of a file that may not exist yet or may not be readable. On an error the
        cursor stays, even if lines beyond it have been shown. */
    method ShowNewLogLines(stream: Stream, file: Result<Option<string>, ()>) returns (r: Result<(), ()>)
      modifies this
      ensures r.Ok? ==> file.Ok? && State() == Poll(Router(classify), old(State()), stream, file.value)
      ensures r.Err? ==>
                && stdoutCount == old(stdoutCount) && stderrCount == old(stderrCount)
                && old(events) <= events
                && (if file.Err? then events == old(events)
                    else events <= Poll(Router(classify), old(State()), stream, file.value).events)
      ensures file.Ok? && (forall c :: !faults(c)) ==> r.Ok?
    {
      if file.Err? {
        return Err(());
      }
      if file.value == None {
        return Ok(());
      }
      var lines := Lines(file.value.value);
      var count := CountOf(State(), stream);
      if |lines| <= count {
        return Ok(());
      }
      var ok := ShowLines(stream, lines[count..]);
      if !ok {
        return Err(());
      }
      match stream {
        case Stdout => stdoutCount := |lines|;
        case Stderr => stderrCount := |lines|;
      }
      return Ok(());
    }

    method ShowLines(stream: Stream, added: seq<string>) returns (ok: bool)
      modifies this`events, this`clock
      ensures ok ==> events == old(events) + Tagged(stream, RouteAll(Router(classify), added))
      ensures AddedPart(old(events), events, stream, RouteAll(Router(classify), added))
      ensures (forall c :: !faults(c)) ==> ok
    {
      ghost var before, route := events, Router(classify);
      for k := 0 to |added|
        invariant events == before + Tagged(stream, RouteAll(route, added[..k]))
      {
        ok := ShowLine(stream, added[k], classify(added[k]));
        RouteSnoc(route, added, k);
        TaggedAppend(before, stream, RouteAll(route, added[..k]), route(added[k]));
        if !ok {
          PartOfMore(before, events, stream, RouteAll(route, added[..k]), route(added[k]));
          RoutePrefix(route, added, k + 1);
          PartOfLonger(before, events, stream, RouteAll(route, added[..k + 1]), RouteAll(route, added));
          return;
        }
      }
      assert added[..|added|] == added;
      return true;
    }
  }

  // ---------- many polls ----------

  datatype Reading = Reading(stream: Stream, file: Option<string>)

  function PollAll(route: string -> seq<Effect>, readings: seq<Reading>): Tail {
    if readings == [] then Tail(0, 0, [])
    else
      var last := readings[|readings| - 1];
      Poll(route, PollAll(route, readings[..|readings| - 1]), last.stream, last.file)
  }

  /** The effects of one stream, in order. */
  function Project(events: seq<Event>, stream: Stream): seq<Effect> {
    if events == [] then []
    else
      var rest, last := Project(events[..|events| - 1], stream), events[|events| - 1];
      if last.stream == stream then rest + [last.effect] else rest
  }

  /** What was read of one stream, in order; a missing file is nothing read. */
  function Contents(readings: seq<Reading>, stream: Stream): seq<string> {
    if readings == [] then []
    else
      var rest, last := Contents(readings[..|readings| - 1], stream), readings[|readings| - 1];
      if last.stream == stream && last.file.Some? then rest + [last.file.value] else rest
  }

  /** The lines shown after one more reading. */
  function Show(shown: seq<string>, file: string): seq<string> {
    if |Lines(file)| <= |shown| then shown else shown + Lines(file)[|shown|..]
  }

  /** The lines shown by reading these contents one after the other. */
  function Shown(files: seq<string>): seq<string> {
    if files == [] then [] else Show(Shown(files[..|files| - 1]), files[|files| - 1])
  }

  lemma {:induction false} ProjectAppend(a: seq<Event>, b: seq<Event>, stream: Stream)
    ensures Project(a + b, stream) == Project(a, stream) + Project(b, stream)
    decreases |b|
  {
    if b == [] {
      assert a + b == a;
    } else {
      ProjectAppend(a, b[..|b| - 1], stream);
      assert (a + b)[..|a + b| - 1] == a + b[..|b| - 1];
    }
  }

  lemma {:induction false} ProjectTagged(stream: Stream, effects: seq<Effect>, other: Stream)
    ensures Project(Tagged(stream, effects), other) == if other == stream then effects else []
    decreases |effects|
  {
    if effects == [] {
    } else {
      ProjectTagged(stream, effects[..|effects| - 1], other);
      assert Tagged(stream, effects)[..|effects| - 1] == Tagged(stream, effects[..|effects| - 1]);
    }
  }

  /** The cursor of a log never moves back, whatever the file does. */
  lemma CursorNeverDecreases(route: string -> seq<Effect>, t: Tail, stream: Stream, file: Option<string>, other: Stream)
    ensures CountOf(Poll(route, t, stream, file), other) >= CountOf(t, other)
    ensures t.events <= Poll(route, t, stream, file).events
  {
  }

  lemma PollShows(route: string -> seq<Effect>, t: Tail, stream: Stream, shown: seq<string>, file: string)
    requires CountOf(t, stream) == |shown| && Project(t.events, stream) == RouteAll(route, shown)
    ensures var next := Poll(route, t, stream, Some(file));
            && CountOf(next, stream) == |Show(shown, file)|
            && Project(next.events, stream) == RouteAll(route, Show(shown, file))
  {
    if |Lines(file)| > |shown| {
      var added := Lines(file)[|shown|..];
      ConcatMapAppend(route, shown, added);
      ProjectAppend(t.events, Tagged(stream, RouteAll(route, added)), stream);
      ProjectTagged(stream, RouteAll(route, added), stream);
    }
  }

  lemma PollKeepsOthers(route: string -> seq<Effect>, t: Tail, stream: Stream, file: Option<string>, other: Stream)
    requires other != stream
    ensures var next := Poll(route, t, stream, file);
            CountOf(next, other) == CountOf(t, other) && Project(next.events, other) == Project(t.events, other)
  {
    if file.Some? && |Lines(file.value)| > CountOf(t, stream) {
      var effects := RouteAll(route, Lines(file.value)[CountOf(t, stream)..]);
      ProjectAppend(t.events, Tagged(stream, effects), other);
      ProjectTagged(stream, effects, other);
    }
  }

  /** However the polls of the two logs interleave, what was done for one of them is what is done
      with the lines shown of it, and its cursor counts them. */
  lemma {:induction false} PollsShow(route: string -> seq<Effect>, readings: seq<Reading>, stream: Stream)
    ensures CountOf(PollAll(route, readings), stream) == |Shown(Contents(readings, stream))|
    ensures Project(PollAll(route, readings).events, stream) == RouteAll(route, Shown(Contents(readings, stream)))
    decreases |readings|
  {
    if readings == [] {
    } else {
      var before, last := readings[..|readings| - 1], readings[|readings| - 1];
      PollsShow(route, before, stream);
      if last.stream != stream {
        PollKeepsOthers(route, PollAll(route, before), last.stream, last.file, stream);
      } else if last.file.Some? {
        var files := Contents(before, stream);
        PollShows(route, PollAll(route, before), stream, Shown(files), last.file.value);
        assert (files + [last.file.value])[..|files|] == files;
      }
    }
  }

  // ---------- which cuts lose text ----------

  predicate BeginsCrLf(b: string) {
    |b| >= 2 && b[0] == '\r' && b[1] == '\n'
  }

  /** The first poll ended between lines, or what it took for the last line turned out to be one. */
  predicate CutIsHarmless(a: string, b: string) {
    WholeLines(a) || b == "" || BeginsCrLf(b) || (b[0] == '\n' && a[|a| - 1] != '\r')
  }

  /** A text is whole lines followed by an unfinished one. */
  lemma {:induction false} LastLine(s: string) returns (whole: string, partial: string)
    ensures s == whole + partial && WholeLines(whole) && '\n' !in partial
    ensures partial == "" <==> WholeLines(s)
    ensures partial != "" ==> s[|s| - 1] == partial[|partial| - 1]
    decreases |s|
  {
    if WholeLines(s) {
      return s, "";
    }
    var w, p := LastLine(s[..|s| - 1]);
    return w, p + [s[|s| - 1]];
  }

  lemma PartialWithoutNewline(joined: string, partial: string, b: string)
    requires joined == partial + b && joined != "" && '\n' !in partial && IndexOf(b, '\n') == |b|
    ensures Lines(joined) == [joined]
  {
    assert forall k :: 0 <= k < |joined| ==> joined[k] != '\n';
    assert IndexOf(joined, '\n') == |joined|;
  }

  lemma PartialWithNewline(joined: string, partial: string, b: string, i: nat)
    requires joined == partial + b && '\n' !in partial && IndexOf(b, '\n') == i < |b|
    ensures |Lines(joined)| >= 1 && Lines(joined)[0] == StripCarriageReturn(partial + b[..i])
  {
    IndexOfIsFirst(joined, '\n', |partial| + i);
    assert joined[..|partial| + i] == partial + b[..i];
  }

  /** What completes an unfinished line to itself: nothing, or a line end. */
  lemma LinesOfPartial(partial: string, b: string)
    requires partial != "" && '\n' !in partial
    ensures Lines(partial) == [partial]
    ensures |Lines(partial + b)| >= 1
    ensures Lines(partial + b)[0] == partial
            <==> b == "" || BeginsCrLf(b) || (b[0] == '\n' && partial[|partial| - 1] != '\r')
  {
    PartialWithoutNewline(partial, partial, "");
    var i := IndexOf(b, '\n');
    if i == |b| {
      PartialWithoutNewline(partial + b, partial, b);
    } else {
      PartialWithNewline(partial + b, partial, b, i);
      var line := partial + b[..i];
      assert i == 0 ==> line == partial;
      assert |StripCarriageReturn(line)| == |partial| && i == 1 ==> StripCarriageReturn(line) == partial;
      assert BeginsCrLf(b) <==> i == 1 && b[0] == '\r';
    }
  }

  lemma LinesOfJoined(joined: string, whole: string, rest: string)
    requires joined == whole + rest && WholeLines(whole)
    ensures Lines(joined) == Lines(whole) + Lines(rest)
  {
    LinesAppend(whole, rest);
  }

  lemma JoinedTwice(a: string, whole: string, partial: string, b: string)
    requires a == whole + partial
    ensures a + b == whole + (partial + b)
  {
  }

  /** Everything before the last line of a text stays when the text grows. */
  ghost predicate LinesStay(earlier: seq<string>, later: seq<string>) {
    earlier == [] || earlier[..|earlier| - 1] <= later
  }

  lemma PartialStays(a: string, ab: string, whole: string, partial: string, rest: string)
    requires a == whole + partial && ab == whole + rest && WholeLines(whole)
    requires Lines(partial) == [partial] && |Lines(rest)| >= 1
    ensures LinesStay(Lines(a), Lines(ab))
    ensures Lines(a) <= Lines(ab) <==> Lines(rest)[0] == partial
  {
    LinesOfJoined(a, whole, partial);
    LinesOfJoined(ab, whole, rest);
    OneMoreElement(Lines(whole), partial, Lines(rest));
  }

  lemma OneMoreElement(common: seq<string>, last: string, rest: seq<string>)
    requires |rest| >= 1
    ensures LinesStay(common + [last], common + rest)
    ensures common + [last] <= common + rest <==> rest[0] == last
  {
    var a, b, n := common + [last], common + rest, |common|;
    assert a[n] == last && b[n] == rest[0];
    assert a[..n] == common == b[..n];
  }

  /** The lines of a text are the first lines of the text continued by `rest` exactly when the cut
      between them is harmless. */
  lemma CutExactly(a: string, rest: string)
    ensures LinesStay(Lines(a), Lines(a + rest))
    ensures Lines(a) <= Lines(a + rest) <==> CutIsHarmless(a, rest)
  {
    if WholeLines(a) {
      LinesAppend(a, rest);
    } else {
      var whole, partial := LastLine(a);
      JoinedTwice(a, whole, partial, rest);
      LinesOfPartial(partial, rest);
      PartialStays(a, a + rest, whole, partial, partial + rest);
    }
  }

  /** The poll of the `i`-th content shows something new. */
  predicate ShowsNew(files: seq<string>, i: nat)
    requires i < |files|
  {
    |Lines(files[i])| > |Shown(files[..i])|
  }

  /** If the `i`-th poll showed something, it read the log at a harmless point. */
  predicate HarmlessCut(files: seq<string>, i: nat, final: string)
    requires i < |files|
  {
    ShowsNew(files, i) ==> files[i] <= final && CutIsHarmless(files[i], final[|files[i]|..])
  }

  ghost predicate HarmlessCuts(files: seq<string>, final: string) {
    forall i :: 0 <= i < |files| ==> HarmlessCut(files, i, final)
  }

  /** New lines keep what is shown right exactly when both what was shown and the file are right. */
  lemma ShowExactly(shown: seq<string>, lines: seq<string>, final: seq<string>)
    requires |lines| > |shown| && LinesStay(lines, final)
    ensures shown + lines[|shown|..] <= final <==> shown <= final && lines <= final
  {
    var next := shown + lines[|shown|..];
    assert forall k :: 0 <= k < |lines| - 1 ==> lines[k] == lines[..|lines| - 1][k];
    if next <= final {
      assert shown <= final;
      assert forall k :: |shown| <= k < |lines| ==> lines[k] == next[k] == final[k];
    }
  }

  lemma SameCut(all: seq<string>, files: seq<string>, final: string, i: nat)
    requires i < |files| < |all| && files == all[..|files|]
    ensures HarmlessCut(all, i, final) == HarmlessCut(files, i, final)
  {
    assert all[i] == files[i] && all[..i] == files[..i];
  }

  lemma LastCut(all: seq<string>, files: seq<string>, file: string, final: string)
    requires file <= final && all != [] && files == all[..|all| - 1] && file == all[|all| - 1]
    ensures HarmlessCut(all, |files|, final)
            <==> (|Lines(file)| > |Shown(files)| ==> CutIsHarmless(file, final[|file|..]))
  {
  }

  lemma HarmlessSnoc(all: seq<string>, files: seq<string>, final: string)
    requires all != [] && files == all[..|all| - 1]
    ensures HarmlessCuts(all, final) <==> HarmlessCuts(files, final) && HarmlessCut(all, |files|, final)
  {
    forall i | 0 <= i < |files|
      ensures HarmlessCut(all, i, final) == HarmlessCut(files, i, final)
    {
      SameCut(all, files, final, i);
    }
  }

  lemma CutOfGrown(file: string, final: string)
    requires file <= final
    ensures LinesStay(Lines(file), Lines(final))
    ensures Lines(file) <= Lines(final) <==> CutIsHarmless(file, final[|file|..])
  {
    var rest := final[|file|..];
    CutExactly(file, rest);
    assert final == file + rest;
  }

  lemma OneMoreFile(shown: seq<string>, file: string, final: string)
    requires file <= final
    ensures Show(shown, file) <= Lines(final)
            <==> shown <= Lines(final) && (|Lines(file)| > |shown| ==> CutIsHarmless(file, final[|file|..]))
  {
    CutOfGrown(file, final);
    if |Lines(file)| > |shown| {
      ShowExactly(shown, Lines(file), Lines(final));
    }
  }

  /** For a log that only grows, read any number of times: the lines shown are the first lines of the
      log exactly when every poll that showed something cut it at a harmless point. */
  lemma {:induction false} ShownExactly(files: seq<string>, final: string)
    requires forall i :: 0 <= i < |files| ==> files[i] <= final
    ensures Shown(files) <= Lines(final) <==> HarmlessCuts(files, final)
    decreases |files|
  {
    if files == [] {
    } else {
      var before, file := files[..|files| - 1], files[|files| - 1];
      ShownExactly(before, final);
      HarmlessSnoc(files, before, final);
      LastCut(files, before, file, final);
      OneMoreFile(Shown(before), file, final);
    }
  }

  /** What was read last; nothing before the first reading. */
  function Newest(files: seq<string>): string {
    if files == [] then "" else files[|files| - 1]
  }

  /** What was read last contains everything read before. */
  ghost predicate OnlyGrows(files: seq<string>) {
    forall i :: 0 <= i < |files| ==> files[i] <= Newest(files)
  }

  /** Over any interleaved polls of two logs, for a log that only grows: it is routed as in one pass
      over its last content, every line once and in order, exactly when the cuts are harmless. */
  lemma PollsLoseNothingExactly(route: string -> seq<Effect>, readings: seq<Reading>, stream: Stream)
    requires OnlyGrows(Contents(readings, stream))
    ensures var files := Contents(readings, stream);
            && (Shown(files) == Lines(Newest(files)) <==> HarmlessCuts(files, Newest(files)))
            && Project(PollAll(route, readings).events, stream) == RouteAll(route, Shown(files))
            && CountOf(PollAll(route, readings), stream) == |Shown(files)|
  {
    var files := Contents(readings, stream);
    PollsShow(route, readings, stream);
    ShownExactly(files, Newest(files));
    assert |Shown(files)| >= |Lines(Newest(files))|;
  }

  /** Each log only grows, and by whole lines; only what was read last may end in an unfinished one. */
  ghost predicate GrowsByLines(files: seq<string>) {
    forall i, j :: 0 <= i < j < |files| ==> WholeLines(files[i]) && files[i] <= files[j]
  }

  /** For a log that grows by whole lines no cut is harmful, so nothing is lost or repeated. */
  lemma PollsShowEachLineOnce(route: string -> seq<Effect>, readings: seq<Reading>, stream: Stream)
    requires GrowsByLines(Contents(readings, stream))
    ensures var final := Newest(Contents(readings, stream));
            && Project(PollAll(route, readings).events, stream) == RouteAll(route, Lines(final))
            && CountOf(PollAll(route, readings), stream) == |Lines(final)|
  {
    var files := Contents(readings, stream);
    var final := Newest(files);
    assert OnlyGrows(files);
    forall i | 0 <= i < |files|
      ensures HarmlessCut(files, i, final)
    {
      assert i < |files| - 1 ==> WholeLines(files[i]);
      assert i == |files| - 1 ==> final[|files[i]|..] == "";
    }
    PollsLoseNothingExactly(route, readings, stream);
  }
}
