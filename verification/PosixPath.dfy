/** `normalize_posix_path` of clippy_policy.rs: the lexical form under which diagnostics are
    compared with the reviewed list. */
module PosixPath {
  import opened Text

  /** `path.replace('\\', "/")`. */
  function Slashes(path: string): (r: string)
    ensures |r| == |path|
    ensures forall k :: 0 <= k < |path| ==> r[k] == if path[k] == '\\' then '/' else path[k]
  {
    seq(|path|, k requires 0 <= k < |path| => if path[k] == '\\' then '/' else path[k])
  }

  // ---------- segments ----------

  predicate Ordinary(segment: string) {
    segment != "" && segment != "." && segment != ".."
  }

  /** One turn of the loop. */
  function Visit(parts: seq<string>, segment: string): seq<string> {
    if segment == "" || segment == "." then parts
    else if segment == ".." then (if parts == [] then [] else parts[..|parts| - 1])
    else parts + [segment]
  }

  /** The parts left after visiting the segments from left to right. */
  function VisitAll(parts: seq<string>, segments: seq<string>): seq<string>
    decreases |segments|
  {
    if segments == [] then parts else VisitAll(Visit(parts, segments[0]), segments[1..])
  }

  function Segments(path: string): seq<string> {
    Split(Slashes(path), '/')
  }

  function Parts(path: string): seq<string> {
    VisitAll([], Segments(path))
  }

  function Normalize(path: string): string {
    Join(Parts(path), '/')
  }

  lemma {:induction false} VisitSnoc(parts: seq<string>, segments: seq<string>, last: string)
    ensures VisitAll(parts, segments + [last]) == Visit(VisitAll(parts, segments), last)
    decreases |segments|
  {
    if segments == [] {
      assert VisitAll(Visit(parts, last), []) == Visit(parts, last);
    } else {
      VisitSnoc(Visit(parts, segments[0]), segments[1..], last);
      assert (segments + [last])[1..] == segments[1..] + [last];
    }
  }

  /** `normalize_posix_path`. */
  method NormalizePosixPath(path: string) returns (r: string)
    ensures r == Normalize(path)
    ensures Clean(r)
    ensures Normalize(r) == r
  {
    var segments := Segments(path);
    var parts: seq<string> := [];
    for k := 0 to |segments|
      invariant parts == VisitAll([], segments[..k])
    {
      VisitSnoc([], segments[..k], segments[k]);
      assert segments[..k + 1] == segments[..k] + [segments[k]];
      match segments[k] {
        case "" =>
        case "." =>
        case ".." =>
          if parts != [] {
            parts := parts[..|parts| - 1];
          }
        case value => parts := parts + [value];
      }
    }
    assert segments[..|segments|] == segments;
    r := Join(parts, '/');
    NormalIsClean(path);
    NormalizeIdempotent(path);
  }

  // ---------- the normal form ----------

  /** A normal form: empty, or ordinary segments joined by single slashes. */
  ghost predicate Clean(path: string) {
    path == "" || forall segment :: segment in Split(path, '/') ==> Ordinary(segment) && '\\' !in segment
  }

  ghost predicate AllOrdinary(parts: seq<string>) {
    forall p :: p in parts ==> Ordinary(p) && '/' !in p && '\\' !in p
  }

  lemma {:induction false} VisitKeepsOrdinary(parts: seq<string>, segments: seq<string>)
    requires AllOrdinary(parts)
    requires forall s :: s in segments ==> '/' !in s && '\\' !in s
    ensures AllOrdinary(VisitAll(parts, segments))
    decreases |segments|
  {
    if segments == [] {
    } else {
      assert segments[0] in segments;
      VisitKeepsOrdinary(Visit(parts, segments[0]), segments[1..]);
    }
  }

  lemma {:induction false} SplitKeepsOut(s: string, sep: char, c: char)
    requires c !in s
    ensures forall p :: p in Split(s, sep) ==> c !in p
    decreases |s|
  {
    var i := IndexOf(s, sep);
    if i == |s| {
    } else {
      SplitKeepsOut(s[i + 1..], sep, c);
    }
  }

  lemma PartsAreOrdinary(path: string)
    ensures AllOrdinary(Parts(path))
  {
    SplitPartsLackSeparator(Slashes(path), '/');
    SplitKeepsOut(Slashes(path), '/', '\\');
    VisitKeepsOrdinary([], Segments(path));
  }

  lemma NormalIsClean(path: string)
    ensures Clean(Normalize(path))
  {
    PartsAreOrdinary(path);
    if Parts(path) != [] {
      SplitJoin(Parts(path), '/');
    }
  }

  lemma {:induction false} VisitOrdinary(before: seq<string>, parts: seq<string>)
    requires AllOrdinary(parts)
    ensures VisitAll(before, parts) == before + parts
    decreases |parts|
  {
    if parts == [] {
      assert before + parts == before;
    } else {
      assert parts[0] in parts;
      VisitOrdinary(before + [parts[0]], parts[1..]);
      assert before + [parts[0]] + parts[1..] == before + parts;
    }
  }

  lemma {:induction false} JoinKeepsOut(parts: seq<string>, c: char)
    requires c != '/' && forall p :: p in parts ==> c !in p
    ensures c !in Join(parts, '/')
    decreases |parts|
  {
    if |parts| == 1 {
      assert parts[0] in parts;
    } else if |parts| > 1 {
      assert parts[0] in parts;
      JoinKeepsOut(parts[1..], c);
    }
  }

  lemma SlashesOfClean(path: string)
    requires '\\' !in path
    ensures Slashes(path) == path
  {
    assert forall k :: 0 <= k < |path| ==> path[k] in path;
  }

  /** Joining ordinary parts and taking the parts again is the identity. */
  lemma PartsOfJoin(parts: seq<string>)
    requires AllOrdinary(parts)
    ensures Parts(Join(parts, '/')) == parts
  {
    JoinKeepsOut(parts, '\\');
    SlashesOfClean(Join(parts, '/'));
    if parts == [] {
      SplitWhole("", '/');
      assert VisitAll([], [""]) == VisitAll([], []) == [];
    } else {
      SplitJoin(parts, '/');
      VisitOrdinary([], parts);
      assert [] + parts == parts;
    }
  }

  lemma NormalizeIdempotent(path: string)
    ensures Parts(Normalize(path)) == Parts(path)
    ensures Normalize(Normalize(path)) == Normalize(path)
  {
    PartsAreOrdinary(path);
    PartsOfJoin(Parts(path));
  }

  /** Two paths have the same normal form exactly when the same parts are left of them. */
  lemma NormalFormsDetermineParts(p: string, q: string)
    ensures Normalize(p) == Normalize(q) <==> Parts(p) == Parts(q)
  {
    NormalizeIdempotent(p);
    NormalizeIdempotent(q);
  }

  // ---------- composition ----------

  lemma {:induction false} VisitAppend(parts: seq<string>, first: seq<string>, second: seq<string>)
    ensures VisitAll(parts, first + second) == VisitAll(VisitAll(parts, first), second)
    decreases |first|
  {
    if first == [] {
      assert first + second == second;
    } else {
      VisitAppend(Visit(parts, first[0]), first[1..], second);
      assert (first + second)[1..] == first[1..] + second;
    }
  }

  lemma SegmentsOfConcat(a: string, b: string)
    ensures Segments(a + "/" + b) == Segments(a) + Segments(b)
  {
    assert Slashes(a + "/" + b) == Slashes(a) + ['/'] + Slashes(b);
    SplitAppend(Slashes(a), Slashes(b), '/');
  }

  /** The parts of `a/b` are those left of `b` when the walk starts from the parts of `a`. */
  lemma PartsOfConcat(a: string, b: string)
    ensures Parts(a + "/" + b) == VisitAll(Parts(a), Segments(b))
  {
    SegmentsOfConcat(a, b);
    VisitAppend([], Segments(a), Segments(b));
  }

  /** A prefix can be normalised first. */
  lemma NormalizePrefixFirst(a: string, b: string)
    ensures Normalize(a + "/" + b) == Normalize(Normalize(a) + "/" + b)
  {
    PartsOfConcat(a, b);
    PartsOfConcat(Normalize(a), b);
    NormalizeIdempotent(a);
  }

  /** Among the segments an ordinary one followed by `..` can be inserted anywhere. */
  lemma DetourInSegments(before: seq<string>, x: string, after: seq<string>)
    requires Ordinary(x)
    ensures VisitAll([], before + [x, ".."] + after) == VisitAll([], before + after)
  {
    var parts := VisitAll([], before);
    VisitAppend([], before + [x, ".."], after);
    VisitAppend([], before, [x, ".."]);
    VisitAppend([], before, after);
    assert [x, ".."][1..] == [".."] && [".."][1..] == [];
    assert VisitAll(parts, [x, ".."]) == VisitAll(parts + [x], [".."]) == VisitAll(Visit(parts + [x], ".."), []);
    assert (parts + [x])[..|parts|] == parts;
  }

  lemma DetourSegments(x: string)
    requires '/' !in x && '\\' !in x
    ensures Segments(x + "/..") == [x, ".."]
  {
    SlashesOfClean(x);
    SlashesOfClean("..");
    SegmentsOfConcat(x, "..");
    assert x + "/" + ".." == x + "/..";
    SplitWhole(x, '/');
    SplitWhole("..", '/');
  }

  /** In a path too: at its beginning, at its end, between two parts of it, or as all of it. */
  lemma DetourChangesNothing(a: string, x: string, b: string)
    requires Ordinary(x) && '/' !in x && '\\' !in x
    ensures Normalize(a + "/" + (x + "/..") + "/" + b) == Normalize(a + "/" + b)
    ensures Normalize((x + "/..") + "/" + b) == Normalize(b)
    ensures Normalize(a + "/" + (x + "/..")) == Normalize(a)
    ensures Normalize(x + "/..") == ""
  {
    var detour := x + "/..";
    DetourSegments(x);
    SegmentsOfConcat(a, b);
    SegmentsOfConcat(a + "/" + detour, b);
    SegmentsOfConcat(a, detour);
    SegmentsOfConcat(detour, b);
    DetourInSegments(Segments(a), x, Segments(b));
    DetourInSegments([], x, Segments(b));
    DetourInSegments(Segments(a), x, []);
    DetourInSegments([], x, []);
    AroundNothing([x, ".."], Segments(a), Segments(b));
  }

  lemma AroundNothing(middle: seq<string>, before: seq<string>, after: seq<string>)
    ensures [] + middle + after == middle + after && before + middle + [] == before + middle && [] + middle + [] == middle
    ensures [] + after == after && before + [] == before
  {
  }

  // ---------- the same parts, read from the right ----------

  /** Reading from the right, `skip` counts the `..` not yet matched: an ordinary segment survives
      exactly when none is pending. */
  function Surviving(segments: seq<string>, skip: nat): seq<string> {
    if segments == [] then []
    else
      var rest, last := segments[..|segments| - 1], segments[|segments| - 1];
      if last == "" || last == "." then Surviving(rest, skip)
      else if last == ".." then Surviving(rest, skip + 1)
      else if skip > 0 then Surviving(rest, skip - 1)
      else Surviving(rest, 0) + [last]
  }

  function DropLast(parts: seq<string>, n: nat): seq<string> {
    if n >= |parts| then [] else parts[..|parts| - n]
  }

  /** The stack of the loop and the count from the right leave the same segments. */
  lemma {:induction false} StackAgreesWithCounter(segments: seq<string>, skip: nat)
    ensures Surviving(segments, skip) == DropLast(VisitAll([], segments), skip)
    decreases |segments|
  {
    if segments == [] {
    } else {
      var rest, last := segments[..|segments| - 1], segments[|segments| - 1];
      assert segments == rest + [last];
      VisitSnoc([], rest, last);
      if last == "" || last == "." {
        StackAgreesWithCounter(rest, skip);
      } else if last == ".." {
        StackAgreesWithCounter(rest, skip + 1);
      } else if skip > 0 {
        StackAgreesWithCounter(rest, skip - 1);
      } else {
        StackAgreesWithCounter(rest, 0);
      }
    }
  }

  lemma PartsFromTheRight(path: string)
    ensures Parts(path) == Surviving(Segments(path), 0)
  {
    StackAgreesWithCounter(Segments(path), 0);
  }
}
