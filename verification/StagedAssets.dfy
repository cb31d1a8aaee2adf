/** `assemble_assets` of desktop_release_draft_stage.rs: the ten qualified artifacts and a checksum
    file, each copied under a name made of the version and the commit. Its names are the ones that
    `verify_draft` and the checksum reader go by. */
module StagedAssets {
  import opened Wrappers
  import opened Text
  import opened ReleaseDraft
  import ChecksumManifest

  /** `is_version`. */
  predicate IsVersion(value: string) {
    var parts := Split(value, '.');
    |parts| == 3 && forall p :: p in parts ==> p != "" && forall c :: c in p ==> IsDigit(c)
  }

  predicate IsLowerHex(c: char) {
    IsDigit(c) || 'a' <= c <= 'f'
  }

  /** `is_lower_hex40`. */
  predicate IsCommitSha(value: string) {
    |value| == 40 && forall c :: c in value ==> IsLowerHex(c)
  }

  /** Three runs of digits with dots between them are a version. */
  lemma NumbersMakeVersion(a: string, b: string, c: string)
    requires IsNumber(a) && IsNumber(b) && IsNumber(c)
    ensures IsVersion(Join([a, b, c], '.'))
  {
    var parts := [a, b, c];
    forall p | p in parts
      ensures IsNumber(p) && '.' !in p
    {
      assert p == a || p == b || p == c;
    }
    SplitJoin(parts, '.');
  }

  /** And every version is three such runs. */
  lemma VersionIsNumbers(version: string) returns (a: string, b: string, c: string)
    requires IsVersion(version)
    ensures IsNumber(a) && IsNumber(b) && IsNumber(c) && version == Join([a, b, c], '.')
  {
    var parts := Split(version, '.');
    a, b, c := parts[0], parts[1], parts[2];
    assert parts == [a, b, c];
    assert a in parts && b in parts && c in parts;
    JoinSplit(version, '.');
  }

  lemma CommitMeaning(commitSha: string)
    ensures IsCommitSha(commitSha) <==> |commitSha| == 40 && forall c :: c in commitSha ==> c in "0123456789abcdef"
  {
    assert forall c :: IsLowerHex(c) <==> c in "0123456789abcdef";
  }

  const CHECKSUM_FILE := "SHA256SUMS.txt"

  /** What comes before the version and after the commit in each name. */
  const ARTIFACTS: seq<(string, string)> := [
    ("KASPA_GATEWAY_WINDOWS_X64_NSIS_", ".exe"),
    ("KASPA_GATEWAY_WINDOWS_X64_RAW_", ".exe"),
    ("KASPA_GATEWAY_MACOS_UNIVERSAL_DMG_", ".dmg"),
    ("KASPA_GATEWAY_MACOS_UNIVERSAL_APP_", ".zip"),
    ("KASPA_GATEWAY_WINDOWS_BUILD_PROVENANCE_", ".sigstore.json"),
    ("KASPA_GATEWAY_WINDOWS_SBOM_", ".spdx.json"),
    ("KASPA_GATEWAY_WINDOWS_SBOM_ATTESTATION_", ".sigstore.json"),
    ("KASPA_GATEWAY_MACOS_BUILD_PROVENANCE_", ".sigstore.json"),
    ("KASPA_GATEWAY_MACOS_SBOM_", ".spdx.json"),
    ("KASPA_GATEWAY_MACOS_SBOM_ATTESTATION_", ".sigstore.json")
  ]

  /** The fields of the request that the names are made of; `validate_request` lets through the valid
      ones only. */
  datatype Context = Context(version: string, commitSha: string)

  predicate Valid(context: Context) {
    IsVersion(context.version) && IsCommitSha(context.commitSha)
  }

  function ArtifactName(context: Context, k: nat): string
    requires k < |ARTIFACTS| && Valid(context)
  {
    ARTIFACTS[k].0 + (context.version + "_" + context.commitSha[..7] + ARTIFACTS[k].1)
  }

  function ArtifactNames(context: Context): (names: seq<string>)
    requires Valid(context)
    ensures |names| == |ARTIFACTS| && forall k :: 0 <= k < |names| ==> names[k] == ArtifactName(context, k)
  {
    seq(|ARTIFACTS|, k requires 0 <= k < |ARTIFACTS| => ArtifactName(context, k))
  }

  function AllNames(context: Context): seq<string>
    requires Valid(context)
  {
    ArtifactNames(context) + [CHECKSUM_FILE]
  }

  /** The names, spelled out. */
  lemma NamesSpelled(context: Context)
    requires Valid(context)
    ensures var tail := context.version + "_" + context.commitSha[..7];
            && |AllNames(context)| == 11
            && AllNames(context)[0] == "KASPA_GATEWAY_WINDOWS_X64_NSIS_" + (tail + ".exe")
            && AllNames(context)[1] == "KASPA_GATEWAY_WINDOWS_X64_RAW_" + (tail + ".exe")
            && AllNames(context)[2] == "KASPA_GATEWAY_MACOS_UNIVERSAL_DMG_" + (tail + ".dmg")
            && AllNames(context)[3] == "KASPA_GATEWAY_MACOS_UNIVERSAL_APP_" + (tail + ".zip")
            && AllNames(context)[4] == "KASPA_GATEWAY_WINDOWS_BUILD_PROVENANCE_" + (tail + ".sigstore.json")
            && AllNames(context)[5] == "KASPA_GATEWAY_WINDOWS_SBOM_" + (tail + ".spdx.json")
            && AllNames(context)[6] == "KASPA_GATEWAY_WINDOWS_SBOM_ATTESTATION_" + (tail + ".sigstore.json")
            && AllNames(context)[7] == "KASPA_GATEWAY_MACOS_BUILD_PROVENANCE_" + (tail + ".sigstore.json")
            && AllNames(context)[8] == "KASPA_GATEWAY_MACOS_SBOM_" + (tail + ".spdx.json")
            && AllNames(context)[9] == "KASPA_GATEWAY_MACOS_SBOM_ATTESTATION_" + (tail + ".sigstore.json")
            && AllNames(context)[10] == "SHA256SUMS.txt"
  {
  }

  // ---------- the names differ ----------

  function CharAt(name: string, i: nat): char {
    if i < |name| then name[i] else ' '
  }

  /** Which of the eleven files a name belongs to, read off single characters of it. A name that goes on
      after `SBOM_` with a digit has no `ATTESTATION` in it. */
  function Slot(name: string): nat {
    if CharAt(name, 0) == 'S' then 10
    else if CharAt(name, 14) == 'W' then
      if CharAt(name, 22) == 'X' then (if CharAt(name, 26) == 'N' then 0 else 1)
      else if CharAt(name, 22) == 'B' then 4
      else if CharAt(name, 27) == 'A' then 6
      else 5
    else if CharAt(name, 20) == 'U' then (if CharAt(name, 30) == 'D' then 2 else 3)
    else if CharAt(name, 20) == 'B' then 7
    else if CharAt(name, 25) == 'A' then 9
    else 8
  }

  /** Every character of a text is a separator or stands in one of its parts. */
  lemma {:induction false} SplitCovers(s: string, sep: char, c: char)
    requires c in s && c != sep
    ensures exists p :: p in Split(s, sep) && c in p
    decreases |s|
  {
    var i := IndexOf(s, sep);
    if i == |s| {
      assert s in Split(s, sep);
    } else {
      assert s == s[..i] + [sep] + s[i + 1..];
      if c in s[..i] {
        assert s[..i] in Split(s, sep);
      } else {
        SplitCovers(s[i + 1..], sep, c);
        var p :| p in Split(s[i + 1..], sep) && c in p;
        assert p in Split(s, sep);
      }
    }
  }

  lemma VersionCharacters(version: string)
    requires IsVersion(version)
    ensures version != "" && IsDigit(version[0])
    ensures forall c :: c in version ==> c == '.' || IsDigit(c)
  {
    forall c | c in version && c != '.'
      ensures IsDigit(c)
    {
      SplitCovers(version, '.', c);
    }
    var first := Split(version, '.')[0];
    assert first in Split(version, '.');
    assert first[0] in first && version[0] == first[0];
  }

  /** Each name can be told from all the others. */
  lemma SlotOfName(context: Context, k: nat)
    requires k < |ARTIFACTS| && Valid(context)
    ensures Slot(ArtifactName(context, k)) == k
  {
    VersionCharacters(context.version);
    var prefix := ARTIFACTS[k].0;
    var rest := context.version + "_" + context.commitSha[..7] + ARTIFACTS[k].1;
    assert rest[0] == context.version[0];
    SlotAfter(k, rest);
  }

  lemma SlotAfter(k: nat, rest: string)
    requires k < |ARTIFACTS| && rest != "" && IsDigit(rest[0])
    ensures Slot(ARTIFACTS[k].0 + rest) == k
  {
    var prefix := ARTIFACTS[k].0;
    if prefix[14] == 'W' {
      WindowsSlot(k, prefix + rest, rest[0]);
    } else {
      MacosSlot(k, prefix + rest, rest[0]);
    }
  }

  lemma WindowsSlot(k: nat, name: string, digit: char)
    requires k < |ARTIFACTS| && ARTIFACTS[k].0[14] == 'W' && IsDigit(digit) && ARTIFACTS[k].0 + [digit] <= name
    ensures Slot(name) == k
  {
  }

  lemma MacosSlot(k: nat, name: string, digit: char)
    requires k < |ARTIFACTS| && ARTIFACTS[k].0[14] != 'W' && IsDigit(digit) && ARTIFACTS[k].0 + [digit] <= name
    ensures Slot(name) == k
  {
  }

  lemma NamesDiffer(context: Context)
    requires Valid(context)
    ensures Distinct(AllNames(context))
  {
    forall k | 0 <= k < |ARTIFACTS|
      ensures Slot(AllNames(context)[k]) == k
    {
      SlotOfName(context, k);
    }
    assert Slot(CHECKSUM_FILE) == 10;
  }

  /** Printable ASCII without spaces: what `to_string_lossy` shows unchanged, and one word of a line. */
  predicate IsPlain(name: string) {
    name != "" && forall c :: c in name ==> '!' <= c <= '~'
  }

  lemma PrefixesArePlain(k: nat)
    requires k < |ARTIFACTS|
    ensures IsPlain(ARTIFACTS[k].0) && ARTIFACTS[k].0[0] == 'K'
  {
  }

  lemma SuffixesArePlain(k: nat)
    requires k < |ARTIFACTS|
    ensures IsPlain(ARTIFACTS[k].1)
  {
  }

  lemma NamesArePlain(context: Context)
    requires Valid(context)
    ensures forall name :: name in AllNames(context) ==> IsPlain(name) && IsWord(name) && name[0] != '*'
  {
    forall k | 0 <= k < |ARTIFACTS|
      ensures IsPlain(ArtifactName(context, k)) && ArtifactName(context, k)[0] == 'K'
    {
      PrefixesArePlain(k);
      SuffixesArePlain(k);
      VersionCharacters(context.version);
      assert forall c :: c in context.commitSha[..7] ==> c in context.commitSha;
    }
    assert IsPlain(CHECKSUM_FILE);
  }

  // ---------- assembling ----------

  /** Text order; for these names it is that of `Path`. */
  predicate AtMost(a: string, b: string) {
    a == "" || (b != "" && (a[0] < b[0] || (a[0] == b[0] && AtMost(a[1..], b[1..]))))
  }

  /** One text comes before another when it begins it, or has the smaller character where they part. */
  lemma {:induction false} AtMostMeaning(a: string, b: string)
    ensures AtMost(a, b) <==> a <= b || exists k :: PartAt(a, b, k) && a[k] < b[k]
    decreases |a|
  {
    if a == "" || b == "" {
    } else if a[0] != b[0] {
      assert PartAt(a, b, 0);
      assert forall k :: PartAt(a, b, k) && k > 0 ==> a[..k][0] == b[..k][0];
    } else {
      AtMostMeaning(a[1..], b[1..]);
      SameFirst(a, b);
      forall k: int
        ensures PartAt(a, b, k + 1) <==> PartAt(a[1..], b[1..], k)
      {
        PartLater(a, b, k);
      }
      assert forall k: int :: PartAt(a, b, k) ==> PartAt(a[1..], b[1..], k - 1) by {
        assert forall k: int :: PartAt(a, b, k) ==> PartAt(a, b, k - 1 + 1);
      }
    }
  }

  lemma SameFirst(a: string, b: string)
    requires a != "" && b != "" && a[0] == b[0]
    ensures a <= b <==> a[1..] <= b[1..]
  {
    assert a == [a[0]] + a[1..] && b == [b[0]] + b[1..];
  }

  lemma PartLater(a: string, b: string, k: int)
    requires a != "" && b != "" && a[0] == b[0]
    ensures PartAt(a, b, k + 1) <==> PartAt(a[1..], b[1..], k)
  {
    if 0 <= k < |a| - 1 && k < |b| - 1 {
      assert a[..k + 1] == [a[0]] + a[1..][..k] && b[..k + 1] == [b[0]] + b[1..][..k];
      if a[..k + 1] == b[..k + 1] {
        assert a[1..][..k] == a[..k + 1][1..] == b[..k + 1][1..] == b[1..][..k];
      }
    }
  }

  /** The texts agree up to `k` and differ there. */
  predicate PartAt(a: string, b: string, k: int) {
    0 <= k < |a| && k < |b| && a[..k] == b[..k] && a[k] != b[k]
  }

  function Insert(name: string, sorted: seq<string>): seq<string> {
    if sorted == [] || AtMost(name, sorted[0]) then [name] + sorted
    else [sorted[0]] + Insert(name, sorted[1..])
  }

  /** `staged.sort()`. */
  function Sort(names: seq<string>): seq<string> {
    if names == [] then [] else Insert(names[0], Sort(names[1..]))
  }

  ghost predicate IsSorted(names: seq<string>) {
    forall k :: 0 <= k < |names| - 1 ==> AtMost(names[k], names[k + 1])
  }

  lemma {:induction false} AtMostTotal(a: string, b: string)
    ensures AtMost(a, b) || AtMost(b, a)
  {
    if a == "" || b == "" {
    } else {
      AtMostTotal(a[1..], b[1..]);
    }
  }

  lemma {:induction false} InsertPermutes(name: string, sorted: seq<string>)
    ensures multiset(Insert(name, sorted)) == multiset(sorted) + multiset{name}
  {
    if sorted == [] || AtMost(name, sorted[0]) {
    } else {
      InsertPermutes(name, sorted[1..]);
      HeadAndTail(sorted);
    }
  }

  lemma {:induction false} InsertKeepsSorted(name: string, sorted: seq<string>)
    requires IsSorted(sorted)
    ensures IsSorted(Insert(name, sorted))
    ensures Insert(name, sorted)[0] == name || (sorted != [] && Insert(name, sorted)[0] == sorted[0])
  {
    if sorted == [] || AtMost(name, sorted[0]) {
    } else {
      AtMostTotal(name, sorted[0]);
      InsertKeepsSorted(name, sorted[1..]);
    }
  }

  lemma {:induction false} SortSorts(names: seq<string>)
    ensures IsSorted(Sort(names)) && multiset(Sort(names)) == multiset(names)
  {
    if names == [] {
    } else {
      SortSorts(names[1..]);
      InsertKeepsSorted(names[0], Sort(names[1..]));
      InsertPermutes(names[0], Sort(names[1..]));
      HeadAndTail(names);
    }
  }

  lemma HeadAndTail(names: seq<string>)
    requires names != []
    ensures multiset(names) == multiset(names[1..]) + multiset{names[0]}
  {
    assert names == [names[0]] + names[1..];
  }

  lemma SortKeepsMembers(names: seq<string>)
    ensures forall n :: n in Sort(names) <==> n in names
  {
    SortSorts(names);
    forall n
      ensures n in Sort(names) <==> n in names
    {
      assert n in multiset(Sort(names)) <==> n in multiset(names);
    }
  }

  /** What is in the checksum file: a line for each artifact, in order of the names. */
  function ChecksumText(context: Context, stage: map<string, Bytes>, sha256: Bytes -> string): string
    requires Valid(context) && forall n :: n in ArtifactNames(context) ==> n in stage
  {
    SortKeepsMembers(ArtifactNames(context));
    ChecksumManifest.Print(ChecksumManifest.Describe(Sort(ArtifactNames(context)), stage, sha256))
  }

  /** Each artifact is in the directory under its own name, the checksum file beside them, and nothing
      else. */
  ghost predicate Assembled(context: Context, contents: seq<Bytes>, stage: map<string, Bytes>)
    requires Valid(context)
  {
    && |contents| == |ARTIFACTS|
    && stage.Keys == Elements(AllNames(context))
    && forall k :: 0 <= k < |contents| ==> stage[ArtifactName(context, k)] == contents[k]
  }

  lemma {:induction false} DescribeIgnores(
    names: seq<string>, files: map<string, Bytes>, other: map<string, Bytes>, sha256: Bytes -> string)
    requires forall n :: n in names ==> n in files && n in other && files[n] == other[n]
    ensures ChecksumManifest.Describe(names, files, sha256) == ChecksumManifest.Describe(names, other, sha256)
  {
    if names == [] {
    } else {
      DescribeIgnores(names[1..], files, other, sha256);
    }
  }

  /** The loop that copies. Because the names differ no copy replaces another. */
  method CopyAll(names: seq<string>, sources: seq<Option<Bytes>>) returns (r: Result<map<string, Bytes>, ()>)
    requires |names| == |sources| && Distinct(names)
    ensures r.Ok? <==> forall k :: 0 <= k < |sources| ==> sources[k].Some?
    ensures r.Ok? ==> r.value.Keys == Elements(names)
    ensures r.Ok? ==> forall k :: 0 <= k < |sources| ==> sources[k] == Some(r.value[names[k]])
  {
    var stage: map<string, Bytes> := map[];
    for k := 0 to |names|
      invariant forall i :: 0 <= i < k ==> names[i] in stage && sources[i] == Some(stage[names[i]])
      invariant stage.Keys == Elements(names[..k])
    {
      if sources[k].None? {
        return Err(());
      }
      assert names[..k + 1] == names[..k] + [names[k]];
      stage := stage[names[k] := sources[k].value];
    }
    assert names[..|names|] == names;
    return Ok(stage);
  }

  /** Writing the checksum file beside the copies completes the directory. */
  lemma ChecksumFileCompletes(
    context: Context, contents: seq<Bytes>, copied: map<string, Bytes>, sums: Bytes, sha256: Bytes -> string)
    requires Valid(context) && |contents| == |ARTIFACTS| && copied.Keys == Elements(ArtifactNames(context))
    requires forall k :: 0 <= k < |contents| ==> copied[ArtifactName(context, k)] == contents[k]
    ensures var stage := copied[CHECKSUM_FILE := sums];
            && Assembled(context, contents, stage)
            && ChecksumText(context, stage, sha256) == ChecksumText(context, copied, sha256)
  {
    var stage, names := copied[CHECKSUM_FILE := sums], ArtifactNames(context);
    forall n | n in names
      ensures n != CHECKSUM_FILE
    {
      var k :| 0 <= k < |names| && names[k] == n;
      SlotOfName(context, k);
    }
    SortKeepsMembers(names);
    DescribeIgnores(Sort(names), stage, copied, sha256);
  }

  /** `assemble_assets`. An artifact that cannot be copied is `None`; `writable` says whether the checksum
      file can be written. */
  method AssembleAssets(
    context: Context, sources: seq<Option<Bytes>>, writable: bool, encode: string -> Bytes, sha256: Bytes -> string)
    returns (r: Result<map<string, Bytes>, ()>)
    requires Valid(context) && |sources| == |ARTIFACTS|
    ensures r.Ok? <==> writable && forall k :: 0 <= k < |sources| ==> sources[k].Some?
    ensures r.Ok? ==>
              && (forall k :: 0 <= k < |sources| ==> sources[k].Some?)
              && Assembled(context, Contents(sources), r.value)
              && r.value[CHECKSUM_FILE] == encode(ChecksumText(context, r.value, sha256))
  {
    ArtifactNamesDiffer(context);
    var copied := CopyAll(ArtifactNames(context), sources);
    if copied.Err? || !writable {
      return Err(());
    }
    var sums := encode(ChecksumText(context, copied.value, sha256));
    ChecksumFileCompletes(context, Contents(sources), copied.value, sums, sha256);
    return Ok(copied.value[CHECKSUM_FILE := sums]);
  }

  function Contents(sources: seq<Option<Bytes>>): seq<Bytes>
    requires forall k :: 0 <= k < |sources| ==> sources[k].Some?
  {
    seq(|sources|, k requires 0 <= k < |sources| => sources[k].value)
  }

  lemma ArtifactNamesDiffer(context: Context)
    requires Valid(context)
    ensures Distinct(ArtifactNames(context))
  {
    NamesDiffer(context);
    assert forall i :: 0 <= i < |ARTIFACTS| ==> AllNames(context)[i] == ArtifactNames(context)[i];
  }

  // ---------- what the checks then say ----------

  /** The listing of the directory: each file once, some of which may not be readable any more. */
  ghost predicate Lists(staged: seq<Staged>, stage: map<string, Bytes>) {
    && Distinct(StagedNames(staged))
    && (forall k :: 0 <= k < |staged| ==>
          staged[k].name in stage && (staged[k].content.None? || staged[k].content == Some(stage[staged[k].name])))
    && (forall n :: n in stage ==> exists k :: 0 <= k < |staged| && staged[k].name == n)
  }

  /** One asset of the draft has this name, a size and the digest of this content. */
  ghost predicate Carries(remote: seq<Asset>, name: string, content: Bytes, sha256: Bytes -> string) {
    IsUploaded(Staged(name, Some(content)), remote, sha256)
  }

  function Optional(names: seq<string>): (r: seq<Option<string>>)
    ensures |r| == |names| && forall k :: 0 <= k < |names| ==> r[k] == Some(names[k])
  {
    seq(|names|, k requires 0 <= k < |names| => Some(names[k]))
  }

  lemma ListingIsComplete(context: Context, contents: seq<Bytes>, stage: map<string, Bytes>, staged: seq<Staged>)
    requires Valid(context) && Assembled(context, contents, stage) && Lists(staged, stage)
    ensures |staged| == |ARTIFACTS| + 1
  {
    var listed, names := StagedNames(staged), Optional(AllNames(context));
    NamesDiffer(context);
    assert Distinct(names);
    forall x
      ensures x in Elements(listed) <==> x in Elements(names)
    {
      if x in Elements(names) {
        var i :| 0 <= i < |names| && names[i] == x;
        assert AllNames(context)[i] in stage;
      }
      if x in Elements(listed) {
        var k :| 0 <= k < |staged| && listed[k] == x;
        var i :| 0 <= i < |names| && AllNames(context)[i] == staged[k].name;
        assert names[i] == x;
      }
    }
    ElementCount(listed);
    ElementCount(names);
    assert Elements(listed) == Elements(names);
  }

  /** The draft check, after the artifacts have been assembled: it accepts exactly the lists of eleven
      assets that carry each of the ten artifacts and the checksum file under its own name. */
  lemma DraftCarriesTheArtifacts(
    context: Context, contents: seq<Bytes>, stage: map<string, Bytes>, staged: seq<Staged>, remote: seq<Asset>,
    sha256: Bytes -> string)
    requires Valid(context) && Assembled(context, contents, stage) && Lists(staged, stage)
    requires forall k :: 0 <= k < |staged| ==> staged[k].content.Some?
    ensures ChecksPass(staged, remote, sha256)
            <==> && |remote| == |ARTIFACTS| + 1
                 && (forall k :: 0 <= k < |contents| ==> Carries(remote, ArtifactName(context, k), contents[k], sha256))
                 && Carries(remote, CHECKSUM_FILE, stage[CHECKSUM_FILE], sha256)
    ensures ChecksPass(staged, remote, sha256) ==> ExactlyStaged(staged, remote, sha256)
  {
    ListingIsComplete(context, contents, stage, staged);
    AcceptsCountAndUploads(staged, remote, sha256);
    AcceptsExactlyTheStagedFiles(staged, remote, sha256);
    UploadsOfListing(staged, stage, remote, sha256);
    CarriesAllByName(context, contents, stage, remote, sha256);
  }

  ghost predicate CarriesAll(remote: seq<Asset>, stage: map<string, Bytes>, sha256: Bytes -> string) {
    forall n :: n in stage ==> Carries(remote, n, stage[n], sha256)
  }

  lemma UploadsOfListing(staged: seq<Staged>, stage: map<string, Bytes>, remote: seq<Asset>, sha256: Bytes -> string)
    requires Lists(staged, stage) && forall k :: 0 <= k < |staged| ==> staged[k].content.Some?
    ensures (forall k :: 0 <= k < |staged| ==> IsUploaded(staged[k], remote, sha256))
            <==> CarriesAll(remote, stage, sha256)
  {
    forall n | n in stage
      ensures exists k :: 0 <= k < |staged| && staged[k] == Staged(n, Some(stage[n]))
    {
      var k :| 0 <= k < |staged| && staged[k].name == n;
      assert staged[k] == Staged(n, Some(stage[n]));
    }
    assert forall k :: 0 <= k < |staged| ==> staged[k] == Staged(staged[k].name, Some(stage[staged[k].name]));
  }

  lemma CarriesAllByName(
    context: Context, contents: seq<Bytes>, stage: map<string, Bytes>, remote: seq<Asset>, sha256: Bytes -> string)
    requires Valid(context) && Assembled(context, contents, stage)
    ensures CarriesAll(remote, stage, sha256)
            <==> && (forall k :: 0 <= k < |contents| ==> Carries(remote, ArtifactName(context, k), contents[k], sha256))
                 && Carries(remote, CHECKSUM_FILE, stage[CHECKSUM_FILE], sha256)
  {
    var names := AllNames(context);
    assert forall i :: 0 <= i < |contents| ==> names[i] == ArtifactName(context, i) && names[i] in stage;
    assert names[|ARTIFACTS|] == CHECKSUM_FILE;
    forall n | n in stage
      ensures n == CHECKSUM_FILE || exists i :: 0 <= i < |contents| && n == ArtifactName(context, i)
    {
      var i :| 0 <= i < |names| && names[i] == n;
    }
  }

  /** This file is there with the digest it was staged with. */
  predicate Unchanged(name: string, content: Bytes, now: map<string, Bytes>, sha256: Bytes -> string) {
    name in now && sha256(now[name]) == sha256(content)
  }

  lemma ChecksumTextDetectsChange(
    context: Context, stage: map<string, Bytes>, now: map<string, Bytes>, sha256: Bytes -> string)
    requires Valid(context) && forall n :: n in ArtifactNames(context) ==> n in stage
    requires forall content :: |sha256(content)| == 64 && forall c :: c in sha256(content) ==> IsLowerHex(c)
    ensures var text := ChecksumText(context, stage, sha256);
            && ChecksumManifest.Accepts(text, stage, sha256)
            && (ChecksumManifest.Accepts(text, now, sha256)
                <==> forall n :: n in ArtifactNames(context) ==> Unchanged(n, stage[n], now, sha256))
  {
    var names := ArtifactNames(context);
    SortKeepsMembers(names);
    NamesArePlain(context);
    assert Sort(names) != [] by { assert names[0] in Sort(names); }
    ChecksumManifest.WrittenManifestDetectsChange(Sort(names), stage, now, sha256);
  }

  /** The checksum file, read back by the checksum reader against any later state of the directory: it is
      accepted exactly while each of the ten artifacts is there with the digest it was staged with. */
  lemma ChecksumFileGuardsTheArtifacts(
    context: Context, contents: seq<Bytes>, stage: map<string, Bytes>, now: map<string, Bytes>, sha256: Bytes -> string)
    requires Valid(context) && Assembled(context, contents, stage)
    requires forall content :: |sha256(content)| == 64 && forall c :: c in sha256(content) ==> IsLowerHex(c)
    ensures var text := ChecksumText(context, stage, sha256);
            && ChecksumManifest.Accepts(text, stage, sha256)
            && (ChecksumManifest.Accepts(text, now, sha256) <==>
                forall k :: 0 <= k < |contents| ==> Unchanged(ArtifactName(context, k), contents[k], now, sha256))
  {
    ChecksumTextDetectsChange(context, stage, now, sha256);
    var names := ArtifactNames(context);
    assert forall k :: 0 <= k < |contents| ==> ArtifactName(context, k) == names[k] && names[k] in names;
  }

  /** The checksum file as it is read: one entry for each of the ten artifacts, in order of their names,
      with the digest of its content. */
  lemma ChecksumFileEntries(context: Context, stage: map<string, Bytes>, sha256: Bytes -> string)
    returns (entries: seq<ChecksumManifest.Entry>)
    requires Valid(context) && forall n :: n in ArtifactNames(context) ==> n in stage
    requires forall content :: |sha256(content)| == 64 && forall c :: c in sha256(content) ==> IsLowerHex(c)
    ensures ChecksumManifest.ReadEntries(Lines(ChecksumText(context, stage, sha256))) == Some(entries)
    ensures IsSorted(EntryNames(entries)) && multiset(EntryNames(entries)) == multiset(ArtifactNames(context))
    ensures forall e :: e in entries ==> e.name in stage && e.digest == sha256(stage[e.name])
  {
    var names := Sort(ArtifactNames(context));
    SortSorts(ArtifactNames(context));
    SortKeepsMembers(ArtifactNames(context));
    NamesArePlain(context);
    assert forall n :: n in names ==> n in AllNames(context);
    entries := DescribedEntries(names, stage, sha256);
    ChecksumManifest.ManifestRoundTrip(entries);
  }

  lemma DescribedEntries(names: seq<string>, stage: map<string, Bytes>, sha256: Bytes -> string)
    returns (entries: seq<ChecksumManifest.Entry>)
    requires forall n :: n in names ==> n in stage && IsWord(n) && n[0] != '*'
    requires forall content :: |sha256(content)| == 64 && forall c :: c in sha256(content) ==> IsLowerHex(c)
    ensures entries == ChecksumManifest.Describe(names, stage, sha256) && EntryNames(entries) == names
    ensures forall e :: e in entries ==> ChecksumManifest.Printable(e) && e.name in stage && e.digest == sha256(stage[e.name])
  {
    entries := ChecksumManifest.Describe(names, stage, sha256);
    ChecksumManifest.DescribeEntries(names, stage, sha256);
    forall e | e in entries
      ensures ChecksumManifest.Printable(e) && e.name in stage && e.digest == sha256(stage[e.name])
    {
      var k :| 0 <= k < |entries| && entries[k] == e;
      assert names[k] in names;
    }
  }

  function EntryNames(entries: seq<ChecksumManifest.Entry>): (names: seq<string>)
    ensures |names| == |entries| && forall k :: 0 <= k < |entries| ==> names[k] == entries[k].name
  {
    seq(|entries|, k requires 0 <= k < |entries| => entries[k].name)
  }
}
