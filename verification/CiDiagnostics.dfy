/** `preserve_review` of ci_diagnostics.rs: read everything, check everything, then replace three
    files one at a time, each through a temporary file and an atomic rename. Any file operation may
    fail; `faults` says which. */
module CiDiagnostics {
  import opened Wrappers

  const MAX_VALUE_BYTES := 16 * 1024 * 1024
  const NEWLINE: byte := 10
  const TEMPORARY_PREFIX := ".kgw-ci-diagnostic-"

  /** The environment variables that are saved, and the files they are saved to. */
  const REVIEW_OUTPUTS: seq<(string, string)> := [
    ("INVALID_LICENSE_CHANGES", "invalid-license-changes.json"),
    ("VULNERABLE_CHANGES", "vulnerable-changes.json"),
    ("DENIED_CHANGES", "denied-changes.json")
  ]

  datatype Path = Path(directory: string, name: string)

  /** What a path names; `Irregular` is a directory, a link or a device. */
  datatype Node = File(content: Bytes) | Irregular

  type Nodes = map<Path, Node>

  datatype Problem =
    | ReadFailed
    | TooLarge
    | NoDirectory
    | NotRegular(path: Path)
    | InspectFailed(path: Path)
    | CreateFailed
    | WriteFailed
    | SaveFailed(path: Path)
    | ReadBackFailed
    | ReadBackMismatch(path: Path)

  /** A target file and the bytes it is to hold. */
  datatype Record = Record(path: Path, content: Bytes)

  /** The file operations used, each of which fails when the oracle says so. `trace` records the
      file system after every change, so that what holds of all of it holds wherever a run stops. */
  class FileSystem {
    var nodes: Nodes
    const directories: set<string>
    const faults: nat -> bool
    const suffixes: nat -> string
    const cuts: nat -> nat
    var clock: nat
    ghost var trace: seq<Nodes>

    constructor (nodes: Nodes, directories: set<string>, faults: nat -> bool, suffixes: nat -> string, cuts: nat -> nat)
      ensures this.nodes == nodes && this.directories == directories && this.faults == faults
      ensures this.suffixes == suffixes && this.cuts == cuts && clock == 0 && trace == []
    {
      this.nodes := nodes;
      this.directories := directories;
      this.faults := faults;
      this.suffixes := suffixes;
      this.cuts := cuts;
      this.clock := 0;
      this.trace := [];
    }

    /** Whether the next operation fails. */
    method Fails() returns (failed: bool)
      modifies this`clock
      ensures clock == old(clock) + 1 && failed == faults(old(clock))
    {
      failed := faults(clock);
      clock := clock + 1;
    }

    /** `ordinary_target`. */
    method OrdinaryTarget(path: Path) returns (r: Result<(), Problem>)
      modifies this`clock
      ensures clock == old(clock) + 1
      ensures faults(old(clock)) ==> r == Err(InspectFailed(path))
      ensures !faults(old(clock)) ==> r == if Ordinary(nodes, path) then Ok(()) else Err(NotRegular(path))
    {
      var failed := Fails();
      if failed {
        return Err(InspectFailed(path));
      }
      if path in nodes && nodes[path].Irregular? {
        return Err(NotRegular(path));
      }
      return Ok(());
    }

    /** `tempfile_in`: an empty file under a new name. */
    method CreateTemporary(directory: string) returns (r: Result<Path, Problem>)
      modifies this`clock, this`nodes, this`trace
      ensures clock == old(clock) + 1
      ensures r.Ok? <==> !faults(old(clock)) && Temporary(directory, suffixes(old(clock))) !in old(nodes)
      ensures r.Ok? ==> r.value == Temporary(directory, suffixes(old(clock)))
                        && nodes == old(nodes)[r.value := File([])] && trace == old(trace) + [nodes]
      ensures r.Err? ==> nodes == old(nodes) && trace == old(trace) && r.error == CreateFailed
    {
      var path := Temporary(directory, suffixes(clock));
      var failed := Fails();
      if failed || path in nodes {
        return Err(CreateFailed);
      }
      nodes := nodes[path := File([])];
      trace := trace + [nodes];
      return Ok(path);
    }

    /** `write_all` and `sync_all`; a failure can leave any part of the bytes written. */
    method Write(path: Path, content: Bytes) returns (r: Result<(), Problem>)
      modifies this`clock, this`nodes, this`trace
      ensures clock == old(clock) + 1 && trace == old(trace) + [nodes]
      ensures r == if faults(old(clock)) then Err(WriteFailed) else Ok(())
      ensures exists part :: nodes == old(nodes)[path := File(part)] && (r.Ok? ==> part == content)
    {
      var cut := cuts(clock);
      var failed := Fails();
      var part := if failed && cut <= |content| then content[..cut] else content;
      nodes := nodes[path := File(part)];
      trace := trace + [nodes];
      return if failed then Err(WriteFailed) else Ok(());
    }

    /** `persist`: rename over the target, in one step. */
    method Persist(temporary: Path, path: Path) returns (r: Result<(), Problem>)
      requires temporary in nodes
      modifies this`clock, this`nodes, this`trace
      ensures clock == old(clock) + 1
      ensures r == if faults(old(clock)) then Err(SaveFailed(path)) else Ok(())
      ensures r.Ok? ==> nodes == (old(nodes) - {temporary})[path := old(nodes)[temporary]] && trace == old(trace) + [nodes]
      ensures r.Err? ==> nodes == old(nodes) && trace == old(trace)
    {
      var failed := Fails();
      if failed {
        return Err(SaveFailed(path));
      }
      nodes := (nodes - {temporary})[path := nodes[temporary]];
      trace := trace + [nodes];
      return Ok(());
    }

    /** Dropping a temporary file that was not persisted removes it if it can. */
    method Discard(temporary: Path)
      modifies this`clock, this`nodes, this`trace
      ensures clock == old(clock) + 1 && trace == old(trace) + [nodes]
      ensures nodes == if faults(old(clock)) then old(nodes) else old(nodes) - {temporary}
    {
      var failed := Fails();
      if !failed {
        nodes := nodes - {temporary};
      }
      trace := trace + [nodes];
    }

    /** `fs::read`. */
    method Read(path: Path) returns (r: Option<Bytes>)
      modifies this`clock
      ensures clock == old(clock) + 1
      ensures r == if !faults(old(clock)) && path in nodes && nodes[path].File? then Some(nodes[path].content) else None
    {
      var failed := Fails();
      if failed || path !in nodes || !nodes[path].File? {
        return None;
      }
      return Some(nodes[path].content);
    }
  }

  predicate Ordinary(nodes: Nodes, path: Path) {
    path in nodes ==> nodes[path].File?
  }

  function Temporary(directory: string, suffix: string): Path {
    Path(directory, TEMPORARY_PREFIX + suffix)
  }

  // ---------- what a run may leave behind ----------

  function Target(directory: string, i: nat): Path
    requires i < |REVIEW_OUTPUTS|
  {
    Path(directory, REVIEW_OUTPUTS[i].1)
  }

  /** Every value can be read and is small enough. */
  predicate Readable(read: string -> Result<Bytes, ()>) {
    forall i :: 0 <= i < |REVIEW_OUTPUTS| ==>
      read(REVIEW_OUTPUTS[i].0).Ok? && |read(REVIEW_OUTPUTS[i].0).value| <= MAX_VALUE_BYTES
  }

  /** This variable can be read and is at most 16 MiB. */
  predicate Fits(value: Result<Bytes, ()>) {
    value.Ok? && |value.value| <= 16_777_216
  }

  lemma ReadableMeaning(read: string -> Result<Bytes, ()>)
    ensures Readable(read)
            <==> && Fits(read("INVALID_LICENSE_CHANGES")) && Fits(read("VULNERABLE_CHANGES")) && Fits(read("DENIED_CHANGES"))
  {
    assert REVIEW_OUTPUTS[0].0 == "INVALID_LICENSE_CHANGES";
    assert REVIEW_OUTPUTS[1].0 == "VULNERABLE_CHANGES";
    assert REVIEW_OUTPUTS[2].0 == "DENIED_CHANGES";
  }

  /** What the preflight asks for, spelled out: the three values, the directory, and that none of the three
      targets is there as something other than a file. */
  lemma PreflightMeaning(nodes: Nodes, directories: set<string>, directory: string, read: string -> Result<Bytes, ()>)
    ensures PreflightPasses(nodes, directories, directory, read)
            <==> && Fits(read("INVALID_LICENSE_CHANGES")) && Fits(read("VULNERABLE_CHANGES")) && Fits(read("DENIED_CHANGES"))
                 && directory in directories
                 && forall path :: path in nodes && nodes[path].Irregular? ==>
                      path !in {Path(directory, "invalid-license-changes.json"), Path(directory, "vulnerable-changes.json"),
                                Path(directory, "denied-changes.json")}
  {
    ReadableMeaning(read);
    assert Target(directory, 0) == Path(directory, "invalid-license-changes.json");
    assert Target(directory, 1) == Path(directory, "vulnerable-changes.json");
    assert Target(directory, 2) == Path(directory, "denied-changes.json");
  }

  /** The value that cannot be saved, and what is wrong with it, when those before it can. */
  ghost predicate FirstUnreadable(read: string -> Result<Bytes, ()>, problem: Problem) {
    exists i ::
      && 0 <= i < |REVIEW_OUTPUTS|
      && (forall j :: 0 <= j < i ==> Fits(read(REVIEW_OUTPUTS[j].0)))
      && !Fits(read(REVIEW_OUTPUTS[i].0))
      && problem == if read(REVIEW_OUTPUTS[i].0).Err? then ReadFailed else TooLarge
  }

  /** The first target that is no ordinary file. */
  ghost predicate FirstIrregular(nodes: Nodes, directory: string, problem: Problem) {
    exists i ::
      && 0 <= i < |REVIEW_OUTPUTS|
      && (forall j :: 0 <= j < i ==> Ordinary(nodes, Target(directory, j)))
      && !Ordinary(nodes, Target(directory, i)) && problem == NotRegular(Target(directory, i))
  }

  /** This file of the directory holds the value with a line feed after it. */
  predicate Holds(nodes: Nodes, directory: string, file: string, value: Result<Bytes, ()>) {
    value.Ok? && Path(directory, file) in nodes && nodes[Path(directory, file)] == File(value.value + [10])
  }

  /** All three outputs are saved, each variable in its own file. */
  predicate AllSaved(nodes: Nodes, directory: string, read: string -> Result<Bytes, ()>) {
    && Holds(nodes, directory, "invalid-license-changes.json", read("INVALID_LICENSE_CHANGES"))
    && Holds(nodes, directory, "vulnerable-changes.json", read("VULNERABLE_CHANGES"))
    && Holds(nodes, directory, "denied-changes.json", read("DENIED_CHANGES"))
  }

  lemma SavedHoldsAll(directory: string, before: Nodes, read: string -> Result<Bytes, ()>)
    requires Readable(read)
    ensures AllSaved(Saved(before, Wanted(directory, read, |REVIEW_OUTPUTS|), |REVIEW_OUTPUTS|), directory, read)
  {
    SavedMeaning(directory, before, read, |REVIEW_OUTPUTS|, Path(directory, ""));
    var now := Saved(before, Wanted(directory, read, |REVIEW_OUTPUTS|), |REVIEW_OUTPUTS|);
    forall i | 0 <= i < |REVIEW_OUTPUTS|
      ensures Holds(now, directory, REVIEW_OUTPUTS[i].1, read(REVIEW_OUTPUTS[i].0))
    {
      assert Target(directory, i) in now;
    }
    assert REVIEW_OUTPUTS[0] == ("INVALID_LICENSE_CHANGES", "invalid-license-changes.json");
    assert REVIEW_OUTPUTS[1] == ("VULNERABLE_CHANGES", "vulnerable-changes.json");
    assert REVIEW_OUTPUTS[2] == ("DENIED_CHANGES", "denied-changes.json");
  }

  /** The first `n` records: value and newline. */
  function Wanted(directory: string, read: string -> Result<Bytes, ()>, n: nat): (records: seq<Record>)
    requires n <= |REVIEW_OUTPUTS|
    requires forall i :: 0 <= i < n ==> read(REVIEW_OUTPUTS[i].0).Ok?
  {
    seq(n, i requires 0 <= i < n => Record(Target(directory, i), read(REVIEW_OUTPUTS[i].0).value + [NEWLINE]))
  }

  /** The first `k` records saved, everything else as before. */
  function Saved(before: Nodes, records: seq<Record>, k: nat): Nodes
    requires k <= |records|
  {
    if k == 0 then before else Saved(before, records, k - 1)[records[k - 1].path := File(records[k - 1].content)]
  }

  /** The first `k` targets are replaced, and besides at most one new temporary file exists. */
  ghost predicate SavedUpTo(directory: string, before: Nodes, now: Nodes, records: seq<Record>, k: nat)
    requires k <= |records|
  {
    now == Saved(before, records, k)
    || exists suffix ::
         var t := Temporary(directory, suffix);
         t !in before && t in now && now - {t} == Saved(before, records, k)
  }

  ghost predicate Consistent(directory: string, before: Nodes, now: Nodes, records: seq<Record>) {
    exists k :: 0 <= k <= |records| && SavedUpTo(directory, before, now, records, k)
  }

  ghost predicate PreflightPasses(
    nodes: Nodes, directories: set<string>, directory: string, read: string -> Result<Bytes, ()>)
  {
    && Readable(read)
    && directory in directories
    && TargetsOrdinary(nodes, directory)
  }

  predicate TargetsOrdinary(nodes: Nodes, directory: string) {
    forall i :: 0 <= i < |REVIEW_OUTPUTS| ==> Ordinary(nodes, Target(directory, i))
  }

  /** The temporary names differ from each other's and from those of the three targets. */
  lemma TargetsDiffer(directory: string, i: nat, j: nat, suffix: string)
    requires i < |REVIEW_OUTPUTS| && j < |REVIEW_OUTPUTS|
    ensures Target(directory, i) == Target(directory, j) <==> i == j
    ensures Temporary(directory, suffix) != Target(directory, i)
  {
    assert Temporary(directory, suffix).name[0] == '.';
    assert REVIEW_OUTPUTS[0].1[0] == 'i' && REVIEW_OUTPUTS[1].1[0] == 'v' && REVIEW_OUTPUTS[2].1[0] == 'd';
  }

  /** Saved, path by path: the first `k` targets hold value and newline, every other path is as it was. */
  lemma {:induction false} SavedMeaning(
    directory: string, before: Nodes, read: string -> Result<Bytes, ()>, k: nat, path: Path)
    requires Readable(read) && k <= |REVIEW_OUTPUTS|
    ensures var records := Wanted(directory, read, |REVIEW_OUTPUTS|); var now := Saved(before, records, k);
            && (forall i :: 0 <= i < k ==>
                  && Target(directory, i) in now
                  && now[Target(directory, i)] == File(read(REVIEW_OUTPUTS[i].0).value + [NEWLINE]))
            && ((forall i :: 0 <= i < k ==> path != Target(directory, i)) ==>
                  (path in now <==> path in before) && (path in before ==> now[path] == before[path]))
  {
    if k == 0 {
    } else {
      SavedMeaning(directory, before, read, k - 1, path);
      forall i | 0 <= i < k - 1
        ensures Target(directory, i) != Target(directory, k - 1)
      {
        TargetsDiffer(directory, i, k - 1, "");
      }
    }
  }

  predicate SameAt(before: Nodes, now: Nodes, path: Path) {
    (path in now <==> path in before) && (path in before ==> now[path] == before[path])
  }

  /** Each of the first `k` targets holds its complete new content and the others their old one. */
  ghost predicate PrefixReplaced(
    directory: string, before: Nodes, now: Nodes, read: string -> Result<Bytes, ()>, k: nat)
    requires Readable(read) && k <= |REVIEW_OUTPUTS|
  {
    forall i :: 0 <= i < |REVIEW_OUTPUTS| ==>
      if i < k then
        Target(directory, i) in now && now[Target(directory, i)] == File(read(REVIEW_OUTPUTS[i].0).value + [NEWLINE])
      else SameAt(before, now, Target(directory, i))
  }

  /** What a consistent state is: no target is ever half written, the replaced ones come first in the
      output order, and every other path that existed or is not a temporary name is untouched. */
  lemma ConsistentMeaning(
    directory: string, before: Nodes, now: Nodes, read: string -> Result<Bytes, ()>, path: Path)
    requires Readable(read) && Consistent(directory, before, now, Wanted(directory, read, |REVIEW_OUTPUTS|))
    ensures exists k :: 0 <= k <= |REVIEW_OUTPUTS| && PrefixReplaced(directory, before, now, read, k)
    ensures (forall i :: 0 <= i < |REVIEW_OUTPUTS| ==> path != Target(directory, i))
            && (path in before || forall suffix :: path != Temporary(directory, suffix))
            ==> SameAt(before, now, path)
  {
    var records := Wanted(directory, read, |REVIEW_OUTPUTS|);
    var k :| 0 <= k <= |records| && SavedUpTo(directory, before, now, records, k);
    var saved := Saved(before, records, k);
    SavedMeaning(directory, before, read, k, path);
    forall i | 0 <= i < |REVIEW_OUTPUTS|
      ensures SameAt(saved, now, Target(directory, i))
      ensures i >= k ==> SameAt(before, saved, Target(directory, i))
    {
      forall suffix ensures Temporary(directory, suffix) != Target(directory, i) { TargetsDiffer(directory, i, i, suffix); }
      forall j | 0 <= j < k && i >= k ensures Target(directory, j) != Target(directory, i) { TargetsDiffer(directory, j, i, ""); }
      SavedMeaning(directory, before, read, k, Target(directory, i));
    }
    assert PrefixReplaced(directory, before, now, read, k);
  }

  // ---------- the operation ----------

  /** No operation fails and every name drawn for a temporary file is new. */
  ghost predicate Faultless(directory: string, before: Nodes, faults: nat -> bool, suffixes: nat -> string) {
    forall c :: !faults(c) && Temporary(directory, suffixes(c)) !in before
  }

  /** The directory check and one look at each target. */
  const PREFLIGHT_CALLS := 1 + |REVIEW_OUTPUTS|

  /** One of the next `calls` operations fails. */
  ghost predicate FaultWithin(faults: nat -> bool, clock: nat, calls: nat) {
    exists c: nat :: clock <= c < clock + calls && faults(c)
  }

  lemma SavedIsConsistent(directory: string, before: Nodes, records: seq<Record>, k: nat)
    requires k <= |records|
    ensures Consistent(directory, before, Saved(before, records, k), records)
  {
    assert SavedUpTo(directory, before, Saved(before, records, k), records, k);
  }

  lemma WithTemporaryIsConsistent(
    directory: string, before: Nodes, records: seq<Record>, k: nat, suffix: string, now: Nodes)
    requires k <= |records|
    requires Temporary(directory, suffix) !in before && Temporary(directory, suffix) in now
    requires now - {Temporary(directory, suffix)} == Saved(before, records, k)
    ensures Consistent(directory, before, now, records)
  {
    assert SavedUpTo(directory, before, now, records, k);
  }

  /** A temporary name that was free stays free while targets are saved. */
  lemma TemporaryStaysFree(
    directory: string, before: Nodes, read: string -> Result<Bytes, ()>, k: nat, suffix: string)
    requires Readable(read) && k <= |REVIEW_OUTPUTS|
    ensures var now := Saved(before, Wanted(directory, read, |REVIEW_OUTPUTS|), k);
            Temporary(directory, suffix) in now <==> Temporary(directory, suffix) in before
  {
    forall i | 0 <= i < k
      ensures Temporary(directory, suffix) != Target(directory, i)
    {
      TargetsDiffer(directory, i, i, suffix);
    }
    SavedMeaning(directory, before, read, k, Temporary(directory, suffix));
  }

  /** A target that was ordinary still is when its turn comes, whatever temporary file exists. */
  lemma TargetStaysOrdinary(
    directory: string, before: Nodes, read: string -> Result<Bytes, ()>, k: nat, suffix: string, node: Node)
    requires Readable(read) && k < |REVIEW_OUTPUTS| && Ordinary(before, Target(directory, k))
    ensures var now := Saved(before, Wanted(directory, read, |REVIEW_OUTPUTS|), k);
            Ordinary(now[Temporary(directory, suffix) := node], Target(directory, k))
  {
    forall i | 0 <= i < k
      ensures Target(directory, i) != Target(directory, k)
    {
      TargetsDiffer(directory, i, k, "");
    }
    TargetsDiffer(directory, k, k, suffix);
    SavedMeaning(directory, before, read, k, Target(directory, k));
  }

  /** The trace only grew, and every new state is consistent. */
  ghost predicate Extends(
    directory: string, before: Nodes, earlier: seq<Nodes>, trace: seq<Nodes>, records: seq<Record>)
  {
    && earlier <= trace
    && forall i :: |earlier| <= i < |trace| ==> Consistent(directory, before, trace[i], records)
  }

  lemma ExtendsByOne(directory: string, before: Nodes, earlier: seq<Nodes>, trace: seq<Nodes>, now: Nodes, records: seq<Record>)
    requires Extends(directory, before, earlier, trace, records) && Consistent(directory, before, now, records)
    ensures Extends(directory, before, earlier, trace + [now], records)
  {
  }

  lemma ExtendsTransitive(directory: string, before: Nodes, a: seq<Nodes>, b: seq<Nodes>, c: seq<Nodes>, records: seq<Record>)
    requires Extends(directory, before, a, b, records) && Extends(directory, before, b, c, records)
    ensures Extends(directory, before, a, c, records)
  {
    forall i | |a| <= i < |c|
      ensures Consistent(directory, before, c[i], records)
    {
      assert i < |b| ==> c[i] == b[i];
    }
  }

  /** First half of an iteration of the last loop: the new content in a temporary file beside the
      target. On failure the temporary file is dropped. */
  method Stage(fs: FileSystem, directory: string, records: seq<Record>, k: nat,
               ghost before: Nodes, ghost read: string -> Result<Bytes, ()>)
    returns (r: Result<Path, Problem>, ghost suffix: string)
    requires Readable(read) && records == Wanted(directory, read, |REVIEW_OUTPUTS|) && k < |records|
    requires fs.nodes == Saved(before, records, k)
    modifies fs
    ensures r.Ok? ==>
              && r.value == Temporary(directory, suffix) == Path(directory, ".kgw-ci-diagnostic-" + suffix)
              && r.value !in before
              && fs.nodes == Saved(before, records, k)[r.value := File(records[k].content)]
    ensures r.Err? ==> Consistent(directory, before, fs.nodes, records)
    ensures Extends(directory, before, old(fs.trace), fs.trace, records)
    ensures Faultless(directory, before, fs.faults, fs.suffixes) ==> r.Ok?
  {
    ghost var earlier := fs.trace;
    suffix := fs.suffixes(fs.clock);
    SavedIsConsistent(directory, before, records, k);
    TemporaryStaysFree(directory, before, read, k, suffix);
    var created := fs.CreateTemporary(directory);
    if created.Err? {
      return Err(created.error), suffix;
    }
    var temporary := created.value;
    assert fs.nodes - {temporary} == Saved(before, records, k);
    WithTemporaryIsConsistent(directory, before, records, k, suffix, fs.nodes);
    ExtendsByOne(directory, before, earlier, earlier, fs.nodes, records);
    ghost var trace := fs.trace;
    var written := fs.Write(temporary, records[k].content);
    assert fs.nodes - {temporary} == Saved(before, records, k);
    WithTemporaryIsConsistent(directory, before, records, k, suffix, fs.nodes);
    ExtendsByOne(directory, before, earlier, trace, fs.nodes, records);
    if written.Err? {
      trace := fs.trace;
      fs.Discard(temporary);
      ExtendsByOne(directory, before, earlier, trace, fs.nodes, records);
      return Err(written.error), suffix;
    }
    return Ok(temporary), suffix;
  }

  /** Second half: check the target again, rename over it, and read it back. */
  method Commit(fs: FileSystem, directory: string, records: seq<Record>, k: nat, temporary: Path,
                ghost before: Nodes, ghost read: string -> Result<Bytes, ()>, ghost suffix: string)
    returns (r: Result<(), Problem>)
    requires Readable(read) && records == Wanted(directory, read, |REVIEW_OUTPUTS|) && k < |records|
    requires temporary == Temporary(directory, suffix) && temporary !in before
    requires fs.nodes == Saved(before, records, k)[temporary := File(records[k].content)]
    modifies fs
    ensures r.Ok? ==> fs.nodes == Saved(before, records, k + 1)
    ensures r.Err? ==> Consistent(directory, before, fs.nodes, records) && !r.error.ReadBackMismatch?
    ensures r == Err(ReadBackFailed) ==> fs.nodes == Saved(before, records, k + 1)
    ensures r.Err? && r.error != ReadBackFailed ==>
              fs.nodes == Saved(before, records, k)
              || fs.nodes == Saved(before, records, k)[temporary := File(records[k].content)]
    ensures Extends(directory, before, old(fs.trace), fs.trace, records)
    ensures Faultless(directory, before, fs.faults, fs.suffixes) && Ordinary(before, records[k].path) ==> r.Ok?
  {
    ghost var earlier := fs.trace;
    var path, content := records[k].path, records[k].content;
    SavedIsConsistent(directory, before, records, k);
    SavedIsConsistent(directory, before, records, k + 1);
    TemporaryStaysFree(directory, before, read, k, suffix);
    assert fs.nodes - {temporary} == Saved(before, records, k);
    WithTemporaryIsConsistent(directory, before, records, k, suffix, fs.nodes);
    TargetsDiffer(directory, k, k, suffix);
    if Ordinary(before, path) {
      TargetStaysOrdinary(directory, before, read, k, suffix, File(content));
    }
    var ordinary := fs.OrdinaryTarget(path);
    if ordinary.Err? {
      fs.Discard(temporary);
      return Err(ordinary.error);
    }
    var persisted := fs.Persist(temporary, path);
    if persisted.Err? {
      fs.Discard(temporary);
      return Err(persisted.error);
    }
    assert fs.nodes == Saved(before, records, k + 1);
    var back := fs.Read(path);
    if back.None? {
      return Err(ReadBackFailed);
    }
    if back.value != content {
      return Err(ReadBackMismatch(path));
    }
    return Ok(());
  }

  /** The first loop: all values, each with its newline, or an error. */
  method ReadRecords(directory: string, read: string -> Result<Bytes, ()>) returns (r: Result<seq<Record>, Problem>)
    ensures r.Ok? <==> Readable(read)
    ensures r.Ok? ==> r.value == Wanted(directory, read, |REVIEW_OUTPUTS|)
    ensures r.Err? ==> FirstUnreadable(read, r.error)
  {
    var records: seq<Record> := [];
    for i := 0 to |REVIEW_OUTPUTS|
      invariant forall j :: 0 <= j < i ==>
                  read(REVIEW_OUTPUTS[j].0).Ok? && |read(REVIEW_OUTPUTS[j].0).value| <= MAX_VALUE_BYTES
      invariant records == Wanted(directory, read, i)
    {
      var value := read(REVIEW_OUTPUTS[i].0);
      if value.Err? {
        return Err(ReadFailed);
      }
      if |value.value| > MAX_VALUE_BYTES {
        return Err(TooLarge);
      }
      records := records + [Record(Path(directory, REVIEW_OUTPUTS[i].1), value.value + [NEWLINE])];
    }
    return Ok(records);
  }

  /** The directory and all targets are checked before anything is written. */
  method Preflight(fs: FileSystem, directory: string, records: seq<Record>) returns (r: Result<(), Problem>)
    requires |records| == |REVIEW_OUTPUTS| && forall i :: 0 <= i < |records| ==> records[i].path == Target(directory, i)
    modifies fs`clock
    ensures r.Ok? ==> directory in fs.directories && TargetsOrdinary(fs.nodes, directory)
    ensures (forall c :: !fs.faults(c)) && r.Err? ==> directory !in fs.directories || !TargetsOrdinary(fs.nodes, directory)
    ensures FaultWithin(fs.faults, old(fs.clock), PREFLIGHT_CALLS) ==> r.Err?
    ensures (forall c :: !fs.faults(c)) && r.Err? ==>
              if directory !in fs.directories then r.error == NoDirectory else FirstIrregular(fs.nodes, directory, r.error)
  {
    var failed := fs.Fails();
    if failed || directory !in fs.directories {
      return Err(NoDirectory);
    }
    for i := 0 to |records|
      invariant forall j :: 0 <= j < i ==> Ordinary(fs.nodes, Target(directory, j))
      invariant fs.clock == old(fs.clock) + 1 + i
      invariant forall c :: old(fs.clock) <= c < fs.clock ==> !fs.faults(c)
    {
      var ordinary := fs.OrdinaryTarget(records[i].path);
      if ordinary.Err? {
        return Err(ordinary.error);
      }
    }
    return Ok(());
  }

  /** The last loop: save the records one after the other. */
  method SaveAll(fs: FileSystem, directory: string, records: seq<Record>, ghost read: string -> Result<Bytes, ()>)
    returns (r: Result<(), Problem>)
    requires Readable(read) && records == Wanted(directory, read, |REVIEW_OUTPUTS|)
    modifies fs
    ensures Extends(directory, old(fs.nodes), old(fs.trace), fs.trace, records)
    ensures Consistent(directory, old(fs.nodes), fs.nodes, records)
    ensures r.Ok? ==> fs.nodes == Saved(old(fs.nodes), records, |records|)
    ensures Faultless(directory, old(fs.nodes), fs.faults, fs.suffixes) && TargetsOrdinary(old(fs.nodes), directory) ==> r.Ok?
  {
    ghost var before, earlier := fs.nodes, fs.trace;
    for i := 0 to |records|
      invariant fs.nodes == Saved(before, records, i)
      invariant Extends(directory, before, earlier, fs.trace, records)
    {
      ghost var trace := fs.trace;
      var staged, suffix := Stage(fs, directory, records, i, before, read);
      ExtendsTransitive(directory, before, earlier, trace, fs.trace, records);
      if staged.Err? {
        return Err(staged.error);
      }
      trace := fs.trace;
      var saved := Commit(fs, directory, records, i, staged.value, before, read, suffix);
      ExtendsTransitive(directory, before, earlier, trace, fs.trace, records);
      if saved.Err? {
        return Err(saved.error);
      }
    }
    SavedIsConsistent(directory, before, records, |records|);
    return Ok(());
  }

  /** `preserve_review`. A read, size, directory or target problem leaves everything as it was, and so
      does a failure of any of the calls that look for one. Otherwise, wherever the run stops, a prefix
      of the targets holds its complete new content and nothing else has changed, up to one temporary
      file; success means all three are saved. */
  method PreserveReview(fs: FileSystem, directory: string, read: string -> Result<Bytes, ()>)
    returns (r: Result<(), Problem>)
    modifies fs
    ensures !PreflightPasses(old(fs.nodes), fs.directories, directory, read) ==>
              r.Err? && fs.nodes == old(fs.nodes) && fs.trace == old(fs.trace)
    ensures FaultWithin(fs.faults, old(fs.clock), PREFLIGHT_CALLS) ==>
              r.Err? && fs.nodes == old(fs.nodes) && fs.trace == old(fs.trace)
    ensures Readable(read) ==>
              var records := Wanted(directory, read, |REVIEW_OUTPUTS|);
              && Extends(directory, old(fs.nodes), old(fs.trace), fs.trace, records)
              && Consistent(directory, old(fs.nodes), fs.nodes, records)
              && (r.Ok? ==> fs.nodes == Saved(old(fs.nodes), records, |REVIEW_OUTPUTS|))
    ensures r.Ok? ==> AllSaved(fs.nodes, directory, read)
    ensures !Readable(read) ==> r.Err? && FirstUnreadable(read, r.error)
    ensures (forall c :: !fs.faults(c)) && Readable(read) && directory !in fs.directories ==> r == Err(NoDirectory)
    ensures (forall c :: !fs.faults(c)) && Readable(read) && directory in fs.directories && !TargetsOrdinary(old(fs.nodes), directory) ==>
              r.Err? && FirstIrregular(old(fs.nodes), directory, r.error)
    ensures Faultless(directory, old(fs.nodes), fs.faults, fs.suffixes) ==>
              (r.Ok? <==> PreflightPasses(old(fs.nodes), fs.directories, directory, read))
  {
    var records := ReadRecords(directory, read);
    if records.Err? {
      return Err(records.error);
    }
    SavedIsConsistent(directory, fs.nodes, records.value, 0);
    var checked := Preflight(fs, directory, records.value);
    if checked.Err? {
      return Err(checked.error);
    }
    SavedHoldsAll(directory, fs.nodes, read);
    r := SaveAll(fs, directory, records.value, read);
  }
}
