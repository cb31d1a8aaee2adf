/** `verify_draft` of desktop_release_draft_stage.rs: the created draft release must carry exactly
    the staged files. The code compares counts and looks each staged name up. */
module ReleaseDraft {
  import opened Wrappers

  /** An asset as the release API reports it; a field may be missing or of the wrong type. */
  datatype Asset = Asset(name: Option<string>, size: Option<nat>, digest: Option<string>)

  /** A staged file; `None` when it cannot be read for hashing. */
  datatype Staged = Staged(name: string, content: Option<Bytes>)

  datatype Published = Missing | Null | At(time: string)

  datatype Release = Release(
    id: Option<nat>,
    draft: Option<bool>,
    publishedAt: Published,
    prerelease: Option<bool>,
    tagName: Option<string>,
    targetCommitish: Option<string>,
    assets: Option<seq<Asset>>)

  datatype Expected = Expected(releaseId: nat, version: string, commitSha: string)

  datatype Problem =
    | WrongIdentity
    | NoAssets
    | CountMismatch
    | MissingAsset(name: string)
    | ZeroSized(name: string)
    | Unreadable(name: string)
    | DigestMismatch(name: string)

  predicate SameRelease(expected: Expected, release: Release) {
    && release.id == Some(expected.releaseId)
    && release.draft == Some(true)
    && release.publishedAt == Null
    && release.prerelease == Some(false)
    && release.tagName == Some("desktop-v" + expected.version)
    && release.targetCommitish == Some(expected.commitSha)
  }

  /** `remote.iter().find(..)`: the first asset of that name. */
  function FindAsset(remote: seq<Asset>, name: string): (r: Option<Asset>)
    ensures r.Some? ==> r.value in remote && r.value.name == Some(name)
    ensures r.None? ==> forall a :: a in remote ==> a.name != Some(name)
  {
    if remote == [] then None
    else if remote[0].name == Some(name) then Some(remote[0])
    else FindAsset(remote[1..], name)
  }

  lemma {:induction false} FindsTheFirst(remote: seq<Asset>, name: string, i: nat)
    requires i < |remote| && remote[i].name == Some(name) && forall j :: 0 <= j < i ==> remote[j].name != Some(name)
    ensures FindAsset(remote, name) == Some(remote[i])
    decreases i
  {
    if i == 0 {
    } else {
      FindsTheFirst(remote[1..], name, i - 1);
    }
  }

  /** What one iteration of the loop finds wrong with one staged file. */
  function EntryProblem(entry: Staged, remote: seq<Asset>, sha256: Bytes -> string): Option<Problem> {
    match FindAsset(remote, entry.name)
    case None => Some(MissingAsset(entry.name))
    case Some(asset) =>
      if asset.size == None || asset.size == Some(0) then Some(ZeroSized(entry.name))
      else if entry.content.None? then Some(Unreadable(entry.name))
      else if asset.digest != Some("sha256:" + sha256(entry.content.value)) then Some(DigestMismatch(entry.name))
      else None
  }

  /** What is wrong with a staged file, by the first asset of its name: that there is none, that it has no
      size, that the file cannot be read, or that the digest is another one. */
  lemma ProblemMeaning(entry: Staged, remote: seq<Asset>, sha256: Bytes -> string, i: nat)
    requires i <= |remote| && forall j :: 0 <= j < i ==> remote[j].name != Some(entry.name)
    requires i < |remote| ==> remote[i].name == Some(entry.name)
    ensures var problem := EntryProblem(entry, remote, sha256);
            && (problem == Some(MissingAsset(entry.name)) <==> i == |remote|)
            && (problem == Some(ZeroSized(entry.name)) <==> i < |remote| && remote[i].size in {None, Some(0)})
            && (problem == Some(Unreadable(entry.name))
                <==> i < |remote| && remote[i].size !in {None, Some(0)} && entry.content.None?)
            && (problem == Some(DigestMismatch(entry.name))
                <==> && i < |remote| && remote[i].size !in {None, Some(0)} && entry.content.Some?
                     && remote[i].digest != Some("sha256:" + sha256(entry.content.value)))
  {
    if i < |remote| {
      FindsTheFirst(remote, entry.name, i);
    }
  }

  /** The release is accepted with these staged files. */
  ghost predicate Accepts(expected: Expected, release: Release, staged: seq<Staged>, sha256: Bytes -> string) {
    SameRelease(expected, release) && release.assets.Some? && ChecksPass(staged, release.assets.value, sha256)
  }

  method VerifyDraft(expected: Expected, release: Release, staged: seq<Staged>, sha256: Bytes -> string)
    returns (r: Result<(), Problem>)
    ensures r.Ok? <==> Accepts(expected, release, staged, sha256)
    ensures !SameRelease(expected, release) ==> r == Err(WrongIdentity)
    ensures SameRelease(expected, release) && release.assets.None? ==> r == Err(NoAssets)
    ensures SameRelease(expected, release) && release.assets.Some? && |release.assets.value| != |staged| ==>
              r == Err(CountMismatch)
    ensures SameRelease(expected, release) && release.assets.Some? && |release.assets.value| == |staged| && r.Err? ==>
              exists k ::
                && 0 <= k < |staged|
                && EntryProblem(staged[k], release.assets.value, sha256) == Some(r.error)
                && forall i :: 0 <= i < k ==> EntryProblem(staged[i], release.assets.value, sha256).None?
  {
    if !SameRelease(expected, release) {
      return Err(WrongIdentity);
    }
    if release.assets.None? {
      return Err(NoAssets);
    }
    var remote := release.assets.value;
    if |remote| != |staged| {
      return Err(CountMismatch);
    }
    for k := 0 to |staged|
      invariant forall i :: 0 <= i < k ==> EntryProblem(staged[i], remote, sha256).None?
    {
      var problem := EntryProblem(staged[k], remote, sha256);
      if problem.Some? {
        return Err(problem.value);
      }
    }
    return Ok(());
  }

  // ---------- what acceptance means ----------

  /** The asset is this staged file: same name, not empty, digest of its content. */
  predicate Certifies(asset: Asset, entry: Staged, sha256: Bytes -> string) {
    && asset.name == Some(entry.name)
    && asset.size.Some? && asset.size.value > 0
    && entry.content.Some?
    && asset.digest == Some("sha256:" + sha256(entry.content.value))
  }

  ghost predicate Distinct<T(!new)>(s: seq<T>) {
    forall i, j :: 0 <= i < j < |s| ==> s[i] != s[j]
  }

  function StagedNames(staged: seq<Staged>): (names: seq<Option<string>>)
    ensures |names| == |staged| && forall k :: 0 <= k < |staged| ==> names[k] == Some(staged[k].name)
  {
    seq(|staged|, k requires 0 <= k < |staged| => Some(staged[k].name))
  }

  function AssetNames(remote: seq<Asset>): (names: seq<Option<string>>)
    ensures |names| == |remote| && forall k :: 0 <= k < |remote| ==> names[k] == remote[k].name
  {
    seq(|remote|, k requires 0 <= k < |remote| => remote[k].name)
  }

  ghost predicate IsStaged(asset: Asset, staged: seq<Staged>, sha256: Bytes -> string) {
    exists k :: 0 <= k < |staged| && Certifies(asset, staged[k], sha256)
  }

  ghost predicate IsUploaded(entry: Staged, remote: seq<Asset>, sha256: Bytes -> string) {
    exists i :: 0 <= i < |remote| && Certifies(remote[i], entry, sha256)
  }

  /** The remote list is the staged list in some order: every asset is one of the staged files, every
      staged file has its asset, and no name occurs twice. */
  ghost predicate ExactlyStaged(staged: seq<Staged>, remote: seq<Asset>, sha256: Bytes -> string) {
    && (forall i :: 0 <= i < |remote| ==> IsStaged(remote[i], staged, sha256))
    && (forall k :: 0 <= k < |staged| ==> IsUploaded(staged[k], remote, sha256))
    && Distinct(AssetNames(remote))
    && multiset(AssetNames(remote)) == multiset(StagedNames(staged))
  }

  /** The count comparison and every lookup succeed. */
  ghost predicate ChecksPass(staged: seq<Staged>, remote: seq<Asset>, sha256: Bytes -> string) {
    && |remote| == |staged|
    && forall k :: 0 <= k < |staged| ==> EntryProblem(staged[k], remote, sha256).None?
  }

  // ---------- the release itself ----------

  /** What acceptance requires of the release, field by field. */
  lemma AcceptedRelease(expected: Expected, release: Release, staged: seq<Staged>, sha256: Bytes -> string)
    ensures Accepts(expected, release, staged, sha256)
            <==> && release.assets.Some? && ChecksPass(staged, release.assets.value, sha256)
                 && release == Release(Some(expected.releaseId), Some(true), Null, Some(false),
                                       Some("desktop-v" + expected.version), Some(expected.commitSha), release.assets)
  {
  }

  /** An accepted release determines what was asked for. */
  lemma AcceptedDeterminesRequest(
    a: Expected, b: Expected, release: Release, staged: seq<Staged>, other: seq<Staged>, sha256: Bytes -> string)
    requires Accepts(a, release, staged, sha256) && Accepts(b, release, other, sha256)
    ensures a == b
  {
    var tag := "desktop-v";
    assert a.version == (tag + a.version)[|tag|..] && b.version == (tag + b.version)[|tag|..];
  }

  /** The release that `create_draft` asks for: a draft with this tag and target, not published and no
      prerelease; the server chooses the identifier. */
  function CreatedDraft(version: string, commitSha: string, id: nat, assets: seq<Asset>): Release {
    Release(Some(id), Some(true), Null, Some(false), Some("desktop-v" + version), Some(commitSha), Some(assets))
  }

  /** One release of `matching_draft`. */
  predicate IsMatchingDraft(release: Release, version: string, commitSha: string) {
    release.draft == Some(true) && release.tagName == Some("desktop-v" + version) && release.targetCommitish == Some(commitSha)
  }

  /** `matching_draft`. */
  function MatchingDrafts(releases: seq<Release>, version: string, commitSha: string): seq<Release> {
    if releases == [] then []
    else
      (if IsMatchingDraft(releases[0], version, commitSha) then [releases[0]] else [])
      + MatchingDrafts(releases[1..], version, commitSha)
  }

  datatype ResolveProblem = ListingFailed | InvalidId | Ambiguous | NotFound

  /** The attempt that decides: no draft matched in any listing before, and one or more do now. */
  ghost predicate Decides(pages: nat -> Option<seq<Release>>, version: string, commitSha: string, k: nat) {
    && (forall i :: 0 <= i < k ==> pages(i).Some? && MatchingDrafts(pages(i).value, version, commitSha) == [])
    && (pages(k).None? || MatchingDrafts(pages(k).value, version, commitSha) != [])
  }

  /** `resolve_created_draft`: up to five listings; `None` is one that fails. */
  method ResolveCreatedDraft(version: string, commitSha: string, pages: nat -> Option<seq<Release>>)
    returns (r: Result<nat, ResolveProblem>)
    ensures forall k :: 0 <= k < 5 && Decides(pages, version, commitSha, k) ==>
              if pages(k).None? then r == Err(ListingFailed)
              else
                var matches := MatchingDrafts(pages(k).value, version, commitSha);
                if |matches| > 1 then r == Err(Ambiguous)
                else if matches[0].id.None? then r == Err(InvalidId)
                else r == Ok(matches[0].id.value)
    ensures r == Err(NotFound) <==> forall k :: 0 <= k < 5 ==> !Decides(pages, version, commitSha, k)
  {
    for attempt := 0 to 5
      invariant forall i :: 0 <= i < attempt ==> pages(i).Some? && MatchingDrafts(pages(i).value, version, commitSha) == []
    {
      if pages(attempt).None? {
        assert Decides(pages, version, commitSha, attempt);
        return Err(ListingFailed);
      }
      var matches := MatchingDrafts(pages(attempt).value, version, commitSha);
      if |matches| == 1 {
        assert Decides(pages, version, commitSha, attempt);
        return if matches[0].id.None? then Err(InvalidId) else Ok(matches[0].id.value);
      }
      if |matches| > 1 {
        assert Decides(pages, version, commitSha, attempt);
        return Err(Ambiguous);
      }
    }
    return Err(NotFound);
  }

  /** Every release that matches is kept as often as it is listed, and no other. */
  lemma {:induction false} MatchingCounts(releases: seq<Release>, version: string, commitSha: string, release: Release)
    ensures multiset(MatchingDrafts(releases, version, commitSha))[release]
            == if release.draft == Some(true) && release.tagName == Some("desktop-v" + version)
                  && release.targetCommitish == Some(commitSha)
               then multiset(releases)[release] else 0
    decreases |releases|
  {
    if releases == [] {
    } else {
      MatchingCounts(releases[1..], version, commitSha, release);
      assert releases == [releases[0]] + releases[1..];
    }
  }

  lemma {:induction false} OnlyMatch(releases: seq<Release>, version: string, commitSha: string, i: nat)
    requires i < |releases|
    requires forall j :: 0 <= j < |releases| ==> (IsMatchingDraft(releases[j], version, commitSha) <==> j == i)
    ensures MatchingDrafts(releases, version, commitSha) == [releases[i]]
    decreases i
  {
    if i == 0 {
      NoMatch(releases[1..], version, commitSha);
    } else {
      OnlyMatch(releases[1..], version, commitSha, i - 1);
    }
  }

  lemma {:induction false} NoMatch(releases: seq<Release>, version: string, commitSha: string)
    requires forall j :: 0 <= j < |releases| ==> !IsMatchingDraft(releases[j], version, commitSha)
    ensures MatchingDrafts(releases, version, commitSha) == []
    decreases |releases|
  {
    if releases == [] {
    } else {
      NoMatch(releases[1..], version, commitSha);
    }
  }

  /** From creating to verifying: the draft that was created, listed among releases of other tags, targets
      or kinds, is the one that is resolved, and it is accepted exactly when its assets pass. */
  lemma CreatedDraftIsFoundAndAccepted(
    version: string, commitSha: string, id: nat, assets: seq<Asset>, listed: seq<Release>, i: nat,
    staged: seq<Staged>, sha256: Bytes -> string)
    requires i < |listed| && listed[i] == CreatedDraft(version, commitSha, id, assets)
    requires forall j :: 0 <= j < |listed| && j != i ==>
               || listed[j].draft != Some(true) || listed[j].tagName != Some("desktop-v" + version)
               || listed[j].targetCommitish != Some(commitSha)
    ensures MatchingDrafts(listed, version, commitSha) == [listed[i]] && listed[i].id == Some(id)
    ensures Accepts(Expected(id, version, commitSha), listed[i], staged, sha256) <==> ChecksPass(staged, assets, sha256)
  {
    OnlyMatch(listed, version, commitSha, i);
  }

  // ---------- pigeonhole ----------

  function Elements<T>(s: seq<T>): set<T> {
    set x | x in s
  }

  /** A sequence has at most as many elements as places, and as many exactly when none repeats. */
  lemma {:induction false} ElementCount<T(!new)>(s: seq<T>)
    ensures |Elements(s)| <= |s|
    ensures |Elements(s)| == |s| <==> Distinct(s)
  {
    if s == [] {
    } else {
      var rest, last := s[..|s| - 1], s[|s| - 1];
      ElementCount(rest);
      assert s == rest + [last];
      assert Elements(s) == Elements(rest) + {last};
      if last in Elements(rest) {
        var i :| 0 <= i < |rest| && rest[i] == last;
        assert s[i] == s[|s| - 1];
        assert Elements(s) == Elements(rest);
      } else {
        assert Distinct(rest) ==> Distinct(s);
        assert Distinct(s) ==> forall i, j :: 0 <= i < j < |rest| ==> s[i] != s[j];
      }
    }
  }

  /** A subset with as many elements is the whole set. */
  lemma SameSizeSubset<T>(a: set<T>, b: set<T>)
    requires a <= b && |b| <= |a|
    ensures a == b
  {
    assert b == a + (b - a);
    assert |b| == |a| + |b - a|;
    assert b - a == {};
  }

  /** Two sequences without repetition and with the same elements are permutations of each other. */
  lemma {:induction false} DistinctSameElements<T(!new)>(s: seq<T>, t: seq<T>)
    requires Distinct(s) && Distinct(t) && Elements(s) == Elements(t)
    ensures multiset(s) == multiset(t)
  {
    forall x
      ensures multiset(s)[x] == multiset(t)[x]
    {
      DistinctMultiplicity(s, x);
      DistinctMultiplicity(t, x);
      assert x in s <==> x in Elements(s);
      assert x in t <==> x in Elements(t);
    }
  }

  lemma {:induction false} DistinctMultiplicity<T(!new)>(s: seq<T>, x: T)
    requires Distinct(s)
    ensures multiset(s)[x] == if x in s then 1 else 0
  {
    if s == [] {
    } else {
      var rest := s[..|s| - 1];
      assert s == rest + [s[|s| - 1]];
      DistinctMultiplicity(rest, x);
    }
  }

  lemma ReorderedStaysDistinct<T(!new)>(s: seq<T>, t: seq<T>)
    requires Distinct(s) && multiset(s) == multiset(t)
    ensures Distinct(t) && |t| == |s| && Elements(t) == Elements(s)
  {
    assert |multiset(s)| == |s| && |multiset(t)| == |t|;
    forall x
      ensures x in s <==> x in t
    {
      assert x in multiset(s) <==> x in multiset(t);
    }
    assert Elements(t) == Elements(s);
    ElementCount(s);
    ElementCount(t);
  }

  /** Equal counts and distinct staged names turn the name lookups into exactness. */
  lemma LookupsCoverRemote(staged: seq<Staged>, remote: seq<Asset>)
    requires |remote| == |staged| && Distinct(StagedNames(staged))
    requires forall k :: 0 <= k < |staged| ==> FindAsset(remote, staged[k].name).Some?
    ensures Distinct(AssetNames(remote)) && Elements(AssetNames(remote)) == Elements(StagedNames(staged))
  {
    var names, present := StagedNames(staged), AssetNames(remote);
    forall x | x in Elements(names)
      ensures x in Elements(present)
    {
      var k :| 0 <= k < |staged| && names[k] == x;
      var asset := FindAsset(remote, staged[k].name).value;
      var i :| 0 <= i < |remote| && remote[i] == asset;
      assert present[i] == x;
    }
    ElementCount(names);
    ElementCount(present);
    SameSizeSubset(Elements(names), Elements(present));
  }

  /** With no name occurring twice, the first asset of a name is the only one. */
  lemma FindIsUnique(remote: seq<Asset>, i: nat, name: string)
    requires i < |remote| && remote[i].name == Some(name) && Distinct(AssetNames(remote))
    ensures FindAsset(remote, name) == Some(remote[i])
  {
    assert remote[i] in remote;
    var found := FindAsset(remote, name).value;
    var j :| 0 <= j < |remote| && remote[j] == found;
    assert AssetNames(remote)[i] == AssetNames(remote)[j];
  }

  /** The loop's verdict on one entry is that the first asset of its name certifies it. */
  lemma NoProblemCertifies(entry: Staged, remote: seq<Asset>, sha256: Bytes -> string)
    ensures EntryProblem(entry, remote, sha256).None?
            <==> FindAsset(remote, entry.name).Some? && Certifies(FindAsset(remote, entry.name).value, entry, sha256)
  {
  }

  lemma AssetOf(entry: Staged, remote: seq<Asset>, sha256: Bytes -> string) returns (i: nat)
    requires EntryProblem(entry, remote, sha256).None?
    ensures i < |remote| && Certifies(remote[i], entry, sha256)
  {
    NoProblemCertifies(entry, remote, sha256);
    var asset := FindAsset(remote, entry.name).value;
    i :| 0 <= i < |remote| && remote[i] == asset;
  }

  lemma EntryOf(staged: seq<Staged>, remote: seq<Asset>, sha256: Bytes -> string, i: nat) returns (k: nat)
    requires i < |remote| && Distinct(AssetNames(remote))
    requires Elements(AssetNames(remote)) == Elements(StagedNames(staged))
    requires forall k :: 0 <= k < |staged| ==> EntryProblem(staged[k], remote, sha256).None?
    ensures k < |staged| && Certifies(remote[i], staged[k], sha256)
  {
    assert AssetNames(remote)[i] in Elements(AssetNames(remote));
    k :| 0 <= k < |staged| && StagedNames(staged)[k] == AssetNames(remote)[i];
    FindIsUnique(remote, i, staged[k].name);
    NoProblemCertifies(staged[k], remote, sha256);
  }

  lemma AcceptedIsExact(staged: seq<Staged>, remote: seq<Asset>, sha256: Bytes -> string)
    requires Distinct(StagedNames(staged)) && ChecksPass(staged, remote, sha256)
    ensures ExactlyStaged(staged, remote, sha256)
  {
    LookupsCoverRemote(staged, remote);
    DistinctSameElements(AssetNames(remote), StagedNames(staged));
    forall i | 0 <= i < |remote|
      ensures IsStaged(remote[i], staged, sha256)
    {
      var k := EntryOf(staged, remote, sha256, i);
    }
    forall k | 0 <= k < |staged|
      ensures IsUploaded(staged[k], remote, sha256)
    {
      var i := AssetOf(staged[k], remote, sha256);
    }
  }

  lemma CertifiedIsAccepted(entry: Staged, remote: seq<Asset>, sha256: Bytes -> string, i: nat)
    requires i < |remote| && Certifies(remote[i], entry, sha256) && Distinct(AssetNames(remote))
    ensures EntryProblem(entry, remote, sha256).None?
  {
    FindIsUnique(remote, i, entry.name);
  }

  lemma ExactIsAccepted(staged: seq<Staged>, remote: seq<Asset>, sha256: Bytes -> string)
    requires ExactlyStaged(staged, remote, sha256)
    ensures ChecksPass(staged, remote, sha256)
  {
    assert |multiset(AssetNames(remote))| == |multiset(StagedNames(staged))|;
    forall k | 0 <= k < |staged|
      ensures EntryProblem(staged[k], remote, sha256).None?
    {
      assert IsUploaded(staged[k], remote, sha256);
      var i :| 0 <= i < |remote| && Certifies(remote[i], staged[k], sha256);
      CertifiedIsAccepted(staged[k], remote, sha256, i);
    }
  }

  /** For staged files with distinct names the check accepts exactly the releases whose assets are
      the staged files, one each and nothing else. */
  lemma AcceptsExactlyTheStagedFiles(staged: seq<Staged>, remote: seq<Asset>, sha256: Bytes -> string)
    requires Distinct(StagedNames(staged))
    ensures ChecksPass(staged, remote, sha256) <==> ExactlyStaged(staged, remote, sha256)
  {
    if ChecksPass(staged, remote, sha256) {
      AcceptedIsExact(staged, remote, sha256);
    } else if ExactlyStaged(staged, remote, sha256) {
      ExactIsAccepted(staged, remote, sha256);
    }
  }

  /** For distinct names the check is that the counts agree and every staged file has an asset. */
  lemma AcceptsCountAndUploads(staged: seq<Staged>, remote: seq<Asset>, sha256: Bytes -> string)
    requires Distinct(StagedNames(staged))
    ensures ChecksPass(staged, remote, sha256)
            <==> |remote| == |staged| && forall k :: 0 <= k < |staged| ==> IsUploaded(staged[k], remote, sha256)
  {
    if ChecksPass(staged, remote, sha256) {
      AcceptedIsExact(staged, remote, sha256);
    } else if |remote| == |staged| && forall k :: 0 <= k < |staged| ==> IsUploaded(staged[k], remote, sha256) {
      forall k | 0 <= k < |staged|
        ensures FindAsset(remote, staged[k].name).Some?
      {
        assert IsUploaded(staged[k], remote, sha256);
      }
      LookupsCoverRemote(staged, remote);
      forall k | 0 <= k < |staged|
        ensures EntryProblem(staged[k], remote, sha256).None?
      {
        var i :| 0 <= i < |remote| && Certifies(remote[i], staged[k], sha256);
        CertifiedIsAccepted(staged[k], remote, sha256, i);
      }
    }
  }

  /** Of an accepted list: it is the staged files exactly when their names differ. */
  lemma AcceptedExactlyForDistinctNames(staged: seq<Staged>, remote: seq<Asset>, sha256: Bytes -> string)
    requires ChecksPass(staged, remote, sha256)
    ensures ExactlyStaged(staged, remote, sha256) <==> Distinct(StagedNames(staged))
  {
    if Distinct(StagedNames(staged)) {
      AcceptedIsExact(staged, remote, sha256);
    } else if ExactlyStaged(staged, remote, sha256) {
      ReorderedStaysDistinct(AssetNames(remote), StagedNames(staged));
    }
  }

  /** An accepted list with one of two assets of the same name replaced by one without a name. */
  function WithIntruder(staged: seq<Staged>, remote: seq<Asset>, sha256: Bytes -> string, j: nat): seq<Asset>
    requires ChecksPass(staged, remote, sha256)
  {
    seq(|staged|, k requires 0 <= k < |staged| =>
      if k == j then Asset(None, None, None)
      else
        NoProblemCertifies(staged[k], remote, sha256);
        FindAsset(remote, staged[k].name).value)
  }

  lemma IntruderIsAccepted(staged: seq<Staged>, remote: seq<Asset>, sha256: Bytes -> string, i: nat, j: nat)
    requires ChecksPass(staged, remote, sha256)
    requires i < j < |staged| && staged[i].name == staged[j].name
    ensures ChecksPass(staged, WithIntruder(staged, remote, sha256, j), sha256)
    ensures !ExactlyStaged(staged, WithIntruder(staged, remote, sha256, j), sha256)
  {
    var other := WithIntruder(staged, remote, sha256, j);
    forall k | 0 <= k < |staged|
      ensures EntryProblem(staged[k], other, sha256).None?
    {
      NoProblemCertifies(staged[k], remote, sha256);
      var same := if k == j then i else k;
      assert other[same] in other && other[same].name == Some(staged[k].name);
      var found := FindAsset(other, staged[k].name).value;
      var m :| 0 <= m < |other| && other[m] == found;
      NoProblemCertifies(staged[m], remote, sha256);
      NoProblemCertifies(staged[k], other, sha256);
    }
    assert !IsStaged(other[j], staged, sha256);
  }

  /** For staged files that some list passes for: every list that passes is exactly the staged files if
      and only if no two staged files have the same name. */
  lemma ExactOnlyForDistinctNames(staged: seq<Staged>, accepted: seq<Asset>, sha256: Bytes -> string)
    requires ChecksPass(staged, accepted, sha256)
    ensures (forall remote :: ChecksPass(staged, remote, sha256) ==> ExactlyStaged(staged, remote, sha256))
            <==> Distinct(StagedNames(staged))
  {
    var names := StagedNames(staged);
    if Distinct(names) {
      forall remote | ChecksPass(staged, remote, sha256)
        ensures ExactlyStaged(staged, remote, sha256)
      {
        AcceptedIsExact(staged, remote, sha256);
      }
    } else {
      var i, j :| 0 <= i < j < |names| && names[i] == names[j];
      IntruderIsAccepted(staged, accepted, sha256, i, j);
    }
  }
}
