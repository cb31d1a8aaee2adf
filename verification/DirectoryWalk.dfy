/** The two `find_files`: the recursive one of desktop_artifacts_stage.rs and the one with an
    explicit stack of e2e_installed_nsis.rs. */
module DirectoryWalk {
  import opened Wrappers

  type Path = seq<string>

  /** A directory tree as `read_dir` shows it: the entries of a directory, in the order listed. */
  datatype Tree = Leaf(name: string) | Directory(name: string, entries: seq<Tree>)

  /** A directory still to be walked, and where it is. */
  datatype Pending = Pending(path: Path, entries: seq<Tree>)

  datatype Problem = NotADirectory

  // ---------- specification ----------

  /** The chosen files below `path`, depth first. */
  function Files(path: Path, entries: seq<Tree>, chosen: Path -> bool): seq<Path>
    decreases entries
  {
    if entries == [] then []
    else FilesOf(path, entries[0], chosen) + Files(path, entries[1..], chosen)
  }

  function FilesOf(path: Path, tree: Tree, chosen: Path -> bool): seq<Path>
    decreases tree
  {
    match tree
    case Leaf(name) => if chosen(path + [name]) then [path + [name]] else []
    case Directory(name, entries) => Files(path + [name], entries, chosen)
  }

  /** How many entries a walk of these entries meets. */
  function Size(entries: seq<Tree>): nat
    decreases entries
  {
    if entries == [] then 0 else SizeOf(entries[0]) + Size(entries[1..])
  }

  function SizeOf(tree: Tree): nat
    decreases tree
  {
    match tree
    case Leaf(_) => 1
    case Directory(_, entries) => 1 + Size(entries)
  }

  function PendingFiles(stack: seq<Pending>, chosen: Path -> bool): multiset<Path> {
    if stack == [] then multiset{}
    else PendingFiles(stack[..|stack| - 1], chosen)
         + multiset(Files(stack[|stack| - 1].path, stack[|stack| - 1].entries, chosen))
  }

  function PendingSize(stack: seq<Pending>): nat {
    if stack == [] then 0 else PendingSize(stack[..|stack| - 1]) + 1 + Size(stack[|stack| - 1].entries)
  }

  lemma {:induction false} FilesSnoc(path: Path, entries: seq<Tree>, chosen: Path -> bool, k: nat)
    requires k < |entries|
    ensures Files(path, entries[..k + 1], chosen) == Files(path, entries[..k], chosen) + FilesOf(path, entries[k], chosen)
    decreases k
  {
    if k == 0 {
    } else {
      FilesSnoc(path, entries[1..], chosen, k - 1);
      assert entries[..k + 1][1..] == entries[1..][..k] && entries[..k][1..] == entries[1..][..k - 1];
    }
  }

  lemma {:induction false} EntryIsSmaller(entries: seq<Tree>, k: nat)
    requires k < |entries|
    ensures SizeOf(entries[k]) <= Size(entries)
    decreases k
  {
    if k == 0 {
    } else {
      EntryIsSmaller(entries[1..], k - 1);
    }
  }

  // ---------- the recursive walk ----------

  /** `find_files` of desktop_artifacts_stage.rs. A missing root has no files; a root that is a file
      cannot be read as a directory. */
  method FindFilesRecursive(path: Path, root: Option<Tree>, chosen: Path -> bool)
    returns (r: Result<seq<Path>, Problem>)
    ensures root == None ==> r == Ok([])
    ensures root.Some? && root.value.Leaf? ==> r == Err(NotADirectory)
    ensures root.Some? && root.value.Directory? ==> r == Ok(Files(path, root.value.entries, chosen))
    decreases if root == None then 0 else SizeOf(root.value)
  {
    var found: seq<Path> := [];
    if root == None {
      return Ok(found);
    }
    if root.value.Leaf? {
      return Err(NotADirectory);
    }
    var entries := root.value.entries;
    for k := 0 to |entries|
      invariant found == Files(path, entries[..k], chosen)
    {
      FilesSnoc(path, entries, chosen, k);
      var entry := path + [entries[k].name];
      EntryIsSmaller(entries, k);
      if entries[k].Directory? {
        var below := FindFilesRecursive(entry, Some(entries[k]), chosen);
        found := found + below.value;
      } else if chosen(entry) {
        found := found + [entry];
      }
    }
    assert entries[..|entries|] == entries;
    return Ok(found);
  }

  // ---------- the walk with a stack ----------

  lemma FilesCons(path: Path, entries: seq<Tree>, chosen: Path -> bool, k: nat)
    requires k < |entries|
    ensures Files(path, entries[k..], chosen) == FilesOf(path, entries[k], chosen) + Files(path, entries[k + 1..], chosen)
    ensures Size(entries[k..]) == SizeOf(entries[k]) + Size(entries[k + 1..])
  {
    assert entries[k..][1..] == entries[k + 1..];
  }

  lemma PushPending(stack: seq<Pending>, top: Pending, chosen: Path -> bool)
    ensures PendingFiles(stack + [top], chosen) == PendingFiles(stack, chosen) + multiset(Files(top.path, top.entries, chosen))
    ensures PendingSize(stack + [top]) == PendingSize(stack) + 1 + Size(top.entries)
  {
    assert (stack + [top])[..|stack|] == stack;
  }

  /** One `read_dir`: files are collected, directories pushed. */
  method ReadDirectory(dir: Pending, stack: seq<Pending>, found: seq<Path>, chosen: Path -> bool)
    returns (stack': seq<Pending>, found': seq<Path>)
    ensures multiset(found') + PendingFiles(stack', chosen)
            == multiset(found) + PendingFiles(stack, chosen) + multiset(Files(dir.path, dir.entries, chosen))
    ensures PendingSize(stack') <= PendingSize(stack) + Size(dir.entries)
  {
    stack', found' := stack, found;
    ghost var all := multiset(found) + PendingFiles(stack, chosen) + multiset(Files(dir.path, dir.entries, chosen));
    assert dir.entries[0..] == dir.entries;
    for k := 0 to |dir.entries|
      invariant multiset(found') + PendingFiles(stack', chosen) + multiset(Files(dir.path, dir.entries[k..], chosen)) == all
      invariant PendingSize(stack') + Size(dir.entries[k..]) <= PendingSize(stack) + Size(dir.entries)
    {
      FilesCons(dir.path, dir.entries, chosen, k);
      match dir.entries[k] {
        case Directory(name, inner) =>
          PushPending(stack', Pending(dir.path + [name], inner), chosen);
          stack' := stack' + [Pending(dir.path + [name], inner)];
        case Leaf(name) =>
          if chosen(dir.path + [name]) {
            found' := found' + [dir.path + [name]];
          }
      }
    }
  }

  /** `find_files` of e2e_installed_nsis.rs: the same files as the recursive walk, in another order. */
  method FindFilesStack(path: Path, root: Option<Tree>, chosen: Path -> bool)
    returns (r: Result<seq<Path>, Problem>)
    ensures root == None ==> r == Ok([])
    ensures root.Some? && root.value.Leaf? ==> r == Err(NotADirectory)
    ensures root.Some? && root.value.Directory? ==>
              r.Ok? && multiset(r.value) == multiset(Files(path, root.value.entries, chosen))
  {
    var found: seq<Path> := [];
    if root == None {
      return Ok(found);
    }
    if root.value.Leaf? {
      return Err(NotADirectory);
    }
    ghost var all := multiset(Files(path, root.value.entries, chosen));
    var stack := [] + [Pending(path, root.value.entries)];
    PushPending([], Pending(path, root.value.entries), chosen);
    while stack != []
      invariant multiset(found) + PendingFiles(stack, chosen) == all
      decreases PendingSize(stack)
    {
      var dir, rest := stack[|stack| - 1], stack[..|stack| - 1];
      stack, found := ReadDirectory(dir, rest, found, chosen);
    }
    return Ok(found);
  }

  // ---------- which files, and how often ----------

  /** Following the names of `relative` leads to a file. */
  ghost predicate IsFile(entries: seq<Tree>, relative: Path)
    decreases entries
  {
    exists k :: 0 <= k < |entries| && LeadsToFile(entries[k], relative)
  }

  ghost predicate LeadsToFile(tree: Tree, relative: Path)
    decreases tree
  {
    && relative != [] && tree.name == relative[0]
    && match tree
       case Leaf(_) => |relative| == 1
       case Directory(_, entries) => IsFile(entries, relative[1..])
  }

  /** No directory lists a name twice. */
  ghost predicate DistinctNames(entries: seq<Tree>)
    decreases entries
  {
    && (forall i, j :: 0 <= i < j < |entries| ==> entries[i].name != entries[j].name)
    && (forall k :: 0 <= k < |entries| ==> entries[k].Directory? ==> DistinctNames(entries[k].entries))
  }

  /** `p` lies below `path` and the rest of it leads to a file. */
  ghost predicate FileBelow(path: Path, entries: seq<Tree>, p: Path) {
    path <= p && IsFile(entries, p[|path|..])
  }

  lemma {:induction false} FilesOfAreFiles(path: Path, tree: Tree, chosen: Path -> bool, p: Path)
    ensures p in FilesOf(path, tree, chosen) <==> chosen(p) && path <= p && LeadsToFile(tree, p[|path|..])
    decreases tree
  {
    match tree
    case Leaf(name) =>
      if path <= p && |p| == |path| + 1 {
        assert p == path + [p[|path|]];
      }
    case Directory(name, entries) =>
      FilesAreFiles(path + [name], entries, chosen, p);
      if path <= p && |p| > |path| && p[|path|] == name {
        assert p[|path|..][1..] == p[|path| + 1..];
        assert path + [name] == p[..|path| + 1];
      }
  }

  /** A walk finds exactly the chosen files of the tree. */
  lemma {:induction false} FilesAreFiles(path: Path, entries: seq<Tree>, chosen: Path -> bool, p: Path)
    ensures p in Files(path, entries, chosen) <==> chosen(p) && FileBelow(path, entries, p)
    decreases entries
  {
    if entries == [] {
    } else {
      FilesOfAreFiles(path, entries[0], chosen, p);
      FilesAreFiles(path, entries[1..], chosen, p);
      if path <= p {
        SplitIsFile(entries, p[|path|..]);
      }
    }
  }

  lemma SplitIsFile(entries: seq<Tree>, relative: Path)
    requires entries != []
    ensures IsFile(entries, relative) <==> LeadsToFile(entries[0], relative) || IsFile(entries[1..], relative)
  {
    if IsFile(entries, relative) {
      var k :| 0 <= k < |entries| && LeadsToFile(entries[k], relative);
      assert k > 0 ==> entries[1..][k - 1] == entries[k];
    }
    if IsFile(entries[1..], relative) {
      var k :| 0 <= k < |entries[1..]| && LeadsToFile(entries[1..][k], relative);
      assert entries[k + 1] == entries[1..][k];
    }
  }

  lemma {:induction false} OnceBelow(path: Path, tree: Tree, chosen: Path -> bool, p: Path)
    requires tree.Directory? ==> DistinctNames(tree.entries)
    ensures multiset(FilesOf(path, tree, chosen))[p] <= 1
    decreases tree
  {
    if tree.Directory? {
      EachOnce(path + [tree.name], tree.entries, chosen, p);
    }
  }

  lemma NamesKeepApart(path: Path, entries: seq<Tree>, chosen: Path -> bool, p: Path)
    requires entries != [] && DistinctNames(entries) && p in FilesOf(path, entries[0], chosen)
    ensures p !in Files(path, entries[1..], chosen)
  {
    FilesOfAreFiles(path, entries[0], chosen, p);
    FilesAreFiles(path, entries[1..], chosen, p);
    forall k | 0 <= k < |entries[1..]|
      ensures !LeadsToFile(entries[1..][k], p[|path|..])
    {
      assert entries[1..][k] == entries[k + 1];
    }
  }

  /** No file is found twice. */
  lemma {:induction false} EachOnce(path: Path, entries: seq<Tree>, chosen: Path -> bool, p: Path)
    requires DistinctNames(entries)
    ensures multiset(Files(path, entries, chosen))[p] <= 1
    decreases entries
  {
    if entries == [] {
    } else {
      var head, rest := FilesOf(path, entries[0], chosen), Files(path, entries[1..], chosen);
      OnceBelow(path, entries[0], chosen, p);
      EachOnce(path, entries[1..], chosen, p);
      assert multiset(head + rest) == multiset(head) + multiset(rest);
      if p in head {
        NamesKeepApart(path, entries, chosen, p);
      }
    }
  }

  /** What both walks return: every chosen file of the tree, none twice, and nothing else. */
  lemma WalksFindEachFileOnce(path: Path, entries: seq<Tree>, chosen: Path -> bool, found: seq<Path>, p: Path)
    requires multiset(found) == multiset(Files(path, entries, chosen))
    ensures p in found <==> chosen(p) && FileBelow(path, entries, p)
    ensures DistinctNames(entries) ==> multiset(found)[p] == if chosen(p) && FileBelow(path, entries, p) then 1 else 0
  {
    assert p in found <==> p in multiset(found);
    assert p in Files(path, entries, chosen) <==> p in multiset(Files(path, entries, chosen));
    FilesAreFiles(path, entries, chosen, p);
    if DistinctNames(entries) {
      EachOnce(path, entries, chosen, p);
    }
  }
}
