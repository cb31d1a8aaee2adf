/** SHA256SUMS files: the reader `verify_checksum_manifest` of desktop_release_draft_stage.rs, and
    the `digest  name` lines that it and desktop_artifacts_stage.rs write. */
module ChecksumManifest {
  import opened Wrappers
  import opened Text

  datatype Entry = Entry(digest: string, name: string)

  datatype Problem =
    | UnreadableManifest
    | Malformed
    | UnreadableFile(name: string)
    | Mismatch(name: string)
    | Empty

  /** `str::len`: bytes of the UTF-8 encoding. */
  function Utf8Length(s: string): nat {
    if s == "" then 0
    else
      var v := s[0] as int;
      (if v < 0x80 then 1 else if v < 0x800 then 2 else if v < 0x1_0000 then 3 else 4) + Utf8Length(s[1..])
  }

  /** How many characters have this code or a higher one. */
  function AtLeast(s: string, code: int): nat {
    if s == "" then 0 else (if s[0] as int >= code then 1 else 0) + AtLeast(s[1..], code)
  }

  /** One byte a character, and one more from each of U+0080, U+0800 and U+10000 on (RFC 3629, section 3). */
  lemma {:induction false} Utf8LengthCounts(s: string)
    ensures Utf8Length(s) == |s| + AtLeast(s, 0x80) + AtLeast(s, 0x800) + AtLeast(s, 0x1_0000)
    decreases |s|
  {
    if s == "" {
    } else {
      Utf8LengthCounts(s[1..]);
    }
  }

  /** `name.trim_start_matches('*')`. */
  function DropStars(s: string): string {
    if s != "" && s[0] == '*' then DropStars(s[1..]) else s
  }

  predicate Blank(line: string) {
    Trim(line) == ""
  }

  /** The two fields of a line, when it is well formed. */
  function ParseLine(line: string): Option<Entry> {
    var fields := SplitWhitespace(line);
    if |fields| != 2 then None
    else
      var name := DropStars(fields[1]);
      if Utf8Length(fields[0]) != 64 || name == "" then None else Some(Entry(fields[0], name))
  }

  /** The file hashes to the digest, ignoring ASCII case. */
  predicate Confirmed(entry: Entry, files: map<string, Bytes>, sha256: Bytes -> string) {
    entry.name in files && EqIgnoreCase(entry.digest, sha256(files[entry.name]))
  }

  predicate AllStars(s: string) {
    forall k :: 0 <= k < |s| ==> s[k] == '*'
  }

  /** A well-formed line: a 64-byte word, a gap, any stars, and a name that begins with no star, all
      free of white space, with white space around. */
  predicate LineShape(line: string, entry: Entry, lead: string, gap: string, mark: string, tail: string) {
    && line == lead + (entry.digest + (gap + (mark + entry.name + tail)))
    && AllSpace(lead) && AllSpace(gap) && AllSpace(tail) && gap != ""
    && IsWord(entry.digest) && Utf8Length(entry.digest) == 64
    && AllStars(mark) && IsWord(entry.name) && entry.name[0] != '*'
  }

  lemma {:induction false} DropStarsOf(mark: string, name: string)
    requires AllStars(mark) && (name == "" || name[0] != '*')
    ensures DropStars(mark + name) == name
    decreases |mark|
  {
    if mark == "" {
      assert mark + name == name;
    } else {
      assert (mark + name)[1..] == mark[1..] + name;
      DropStarsOf(mark[1..], name);
    }
  }

  lemma {:induction false} CutStars(s: string) returns (mark: string)
    ensures AllStars(mark) && s == mark + DropStars(s) && (DropStars(s) == "" || DropStars(s)[0] != '*')
    decreases |s|
  {
    if s != "" && s[0] == '*' {
      var rest := CutStars(s[1..]);
      mark := "*" + rest;
    } else {
      mark := "";
    }
  }

  /** Every line of that shape is read as that entry. */
  lemma ShapedLineIsRead(line: string, entry: Entry, lead: string, gap: string, mark: string, tail: string)
    requires LineShape(line, entry, lead, gap, mark, tail)
    ensures ParseLine(line) == Some(entry)
  {
    assert forall c :: c in mark + entry.name ==> c == '*' || c in entry.name;
    SplitTwoWords(lead, entry.digest, gap, mark + entry.name, tail);
    DropStarsOf(mark, entry.name);
  }

  /** And no other line is read as an entry. */
  lemma ReadLineIsShaped(line: string) returns (lead: string, gap: string, mark: string, tail: string)
    requires ParseLine(line).Some?
    ensures LineShape(line, ParseLine(line).value, lead, gap, mark, tail)
  {
    lead, gap, tail := CutTwoWords(line);
    var word := SplitWhitespace(line)[1];
    mark := CutStars(word);
    assert forall c :: c in DropStars(word) ==> c in word;
  }

  /** What the reader makes of one line: nothing on it, in order, or a problem. */
  datatype Judgement = Nothing | InOrder | Bad(problem: Problem)

  /** A problem is the form of the line, a file that cannot be read, or another digest. */
  function Judge(line: string, files: map<string, Bytes>, sha256: Bytes -> string): Judgement {
    if Blank(line) then Nothing
    else
      match ParseLine(line)
      case None => Bad(Malformed)
      case Some(entry) =>
        if entry.name !in files then Bad(UnreadableFile(entry.name))
        else if !EqIgnoreCase(entry.digest, sha256(files[entry.name])) then Bad(Mismatch(entry.name))
        else InOrder
  }

  /** A well-formed line for this entry, for some white space around its two fields and some stars. */
  ghost predicate HasShape(line: string, entry: Entry) {
    exists lead, gap, mark, tail :: LineShape(line, entry, lead, gap, mark, tail)
  }

  /** A line is in order exactly when it is a well-formed line for an entry that its file confirms; it
      is malformed exactly when it says something and is a well-formed line for no entry; otherwise it
      names a file that is missing or has another digest. */
  lemma JudgementMeaning(line: string, files: map<string, Bytes>, sha256: Bytes -> string, name: string)
    ensures Judge(line, files, sha256) == InOrder
            <==> exists entry :: HasShape(line, entry) && Confirmed(entry, files, sha256)
    ensures Judge(line, files, sha256) == Bad(Malformed)
            <==> Trim(line) != "" && forall entry :: !HasShape(line, entry)
    ensures Judge(line, files, sha256) == Bad(UnreadableFile(name))
            <==> name !in files && exists entry :: HasShape(line, entry) && entry.name == name
    ensures Judge(line, files, sha256) == Bad(Mismatch(name))
            <==> name in files && exists entry ::
                   HasShape(line, entry) && entry.name == name && !EqIgnoreCase(entry.digest, sha256(files[name]))
  {
    if ParseLine(line).Some? {
      var lead, gap, mark, tail := ReadLineIsShaped(line);
      assert HasShape(line, ParseLine(line).value);
      if Blank(line) { BlankHasNoWords(line); }
    }
    forall entry | HasShape(line, entry)
      ensures ParseLine(line) == Some(entry)
    {
      var lead, gap, mark, tail :| LineShape(line, entry, lead, gap, mark, tail);
      ShapedLineIsRead(line, entry, lead, gap, mark, tail);
    }
  }

  /** The two lines are well formed for the same name, with digests that differ at most in the case of
      their letters. */
  ghost predicate SameButForCase(line: string, other: string) {
    exists entry, digest ::
      && HasShape(line, entry) && HasShape(other, Entry(digest, entry.name))
      && |digest| == |entry.digest| && forall k :: 0 <= k < |digest| ==> SameLetter(digest[k], entry.digest[k])
  }

  lemma SameJudgement(line: string, other: string, files: map<string, Bytes>, sha256: Bytes -> string)
    requires SameButForCase(line, other)
    ensures Judge(line, files, sha256) == Judge(other, files, sha256)
  {
    var entry, digest :| && HasShape(line, entry) && HasShape(other, Entry(digest, entry.name))
                         && |digest| == |entry.digest| && forall k :: 0 <= k < |digest| ==> SameLetter(digest[k], entry.digest[k]);
    EqIgnoreCaseMeaning(digest, entry.digest);
    ShapeIsRead(line, entry);
    ShapeIsRead(other, Entry(digest, entry.name));
  }

  lemma ShapeIsRead(line: string, entry: Entry)
    requires HasShape(line, entry)
    ensures ParseLine(line) == Some(entry) && !Blank(line)
  {
    var lead, gap, mark, tail :| LineShape(line, entry, lead, gap, mark, tail);
    ShapedLineIsRead(line, entry, lead, gap, mark, tail);
    if Blank(line) { BlankHasNoWords(line); }
  }

  /** Writing the digests of any lines in upper or lower case changes no verdict. */
  lemma DigestCaseDoesNotMatter(
    lines: seq<string>, other: seq<string>, files: map<string, Bytes>, sha256: Bytes -> string, problem: Problem)
    requires |lines| == |other|
    requires forall k :: 0 <= k < |lines| ==> lines[k] == other[k] || SameButForCase(lines[k], other[k])
    ensures var judge := Judging(files, sha256);
            && (Accepted(lines, judge) <==> Accepted(other, judge))
            && (FirstProblem(lines, judge, problem) <==> FirstProblem(other, judge, problem))
            && (AllBlank(lines, judge) <==> AllBlank(other, judge))
  {
    forall k | 0 <= k < |lines|
      ensures Judge(lines[k], files, sha256) == Judge(other[k], files, sha256)
    {
      if lines[k] != other[k] {
        SameJudgement(lines[k], other[k], files, sha256);
      }
    }
    SameVerdict(lines, other, Judging(files, sha256), problem);
  }

  lemma SameVerdict(lines: seq<string>, other: seq<string>, judge: string -> Judgement, problem: Problem)
    requires |lines| == |other| && forall k :: 0 <= k < |lines| ==> judge(lines[k]) == judge(other[k])
    ensures Accepted(lines, judge) <==> Accepted(other, judge)
    ensures FirstProblem(lines, judge, problem) <==> FirstProblem(other, judge, problem)
    ensures AllBlank(lines, judge) <==> AllBlank(other, judge)
  {
  }

  /** Some line says something, and every line that does is in order. */
  ghost predicate Accepted(lines: seq<string>, judge: string -> Judgement) {
    && (exists k :: 0 <= k < |lines| && judge(lines[k]) == InOrder)
    && (forall k :: 0 <= k < |lines| ==> !judge(lines[k]).Bad?)
  }

  /** The problem is that of the first line that has one. */
  ghost predicate FirstProblem(lines: seq<string>, judge: string -> Judgement, problem: Problem) {
    exists k :: 0 <= k < |lines| && judge(lines[k]) == Bad(problem) && forall i :: 0 <= i < k ==> !judge(lines[i]).Bad?
  }

  ghost predicate AllBlank(lines: seq<string>, judge: string -> Judgement) {
    forall k :: 0 <= k < |lines| ==> judge(lines[k]) == Nothing
  }

  function Judging(files: map<string, Bytes>, sha256: Bytes -> string): string -> Judgement {
    line => Judge(line, files, sha256)
  }

  ghost predicate Accepts(manifest: string, files: map<string, Bytes>, sha256: Bytes -> string) {
    Accepted(Lines(manifest), Judging(files, sha256))
  }

  /** `verify_checksum_manifest`. */
  method VerifyManifest(manifest: Option<string>, files: map<string, Bytes>, sha256: Bytes -> string)
    returns (r: Result<(), Problem>)
    ensures r.Ok? <==> manifest.Some? && Accepts(manifest.value, files, sha256)
    ensures manifest.None? ==> r == Err(UnreadableManifest)
    ensures manifest.Some? && r.Err? ==>
              || FirstProblem(Lines(manifest.value), Judging(files, sha256), r.error)
              || (r.error == Empty && AllBlank(Lines(manifest.value), Judging(files, sha256)))
  {
    if manifest.None? {
      return Err(UnreadableManifest);
    }
    r := CheckLines(Lines(manifest.value), Judging(files, sha256));
  }

  /** The loop over the lines. */
  method CheckLines(lines: seq<string>, judge: string -> Judgement) returns (r: Result<(), Problem>)
    ensures r.Ok? <==> Accepted(lines, judge)
    ensures r.Err? ==> FirstProblem(lines, judge, r.error) || (r.error == Empty && AllBlank(lines, judge))
  {
    var seen := 0;
    for k := 0 to |lines|
      invariant forall i :: 0 <= i < k ==> !judge(lines[i]).Bad?
      invariant seen > 0 ==> exists i :: 0 <= i < k && judge(lines[i]) == InOrder
      invariant seen == 0 ==> forall i :: 0 <= i < k ==> judge(lines[i]) == Nothing
    {
      match judge(lines[k]) {
        case Nothing =>
        case Bad(problem) => return Err(problem);
        case InOrder => seen := seen + 1;
      }
    }
    if seen == 0 {
      return Err(Empty);
    }
    return Ok(());
  }

  // ---------- writing and reading back ----------

  function PrintLine(entry: Entry): string {
    entry.digest + "  " + entry.name
  }

  function Print(entries: seq<Entry>): string {
    if entries == [] then "" else PrintLine(entries[0]) + "\n" + Print(entries[1..])
  }

  /** What is printed, entry by entry: the digest, two spaces, the name and a line feed. */
  lemma {:induction false} PrintedText(entries: seq<Entry>, more: seq<Entry>, entry: Entry)
    ensures Print([entry]) == entry.digest + "  " + entry.name + "\n"
    ensures Print(entries + more) == Print(entries) + Print(more)
    decreases |entries|
  {
    assert [entry][1..] == [];
    if entries == [] {
      assert entries + more == more;
    } else {
      PrintedText(entries[1..], more, entry);
      assert (entries + more)[1..] == entries[1..] + more;
      Prepend(PrintLine(entries[0]) + "\n", Print(entries[1..]), Print(more));
    }
  }

  predicate IsHex(c: char) {
    '0' <= c <= '9' || 'a' <= c <= 'f' || 'A' <= c <= 'F'
  }

  /** What the writers produce: a 64-character hexadecimal digest and a plain file name. */
  predicate Printable(entry: Entry) {
    && |entry.digest| == 64 && (forall c :: c in entry.digest ==> IsHex(c))
    && IsWord(entry.name) && entry.name[0] != '*'
  }

  lemma {:induction false} AsciiLength(s: string)
    requires forall c :: c in s ==> c as int < 0x80
    ensures Utf8Length(s) == |s|
  {
    if s == "" {
    } else {
      assert forall c :: c in s[1..] ==> c in s;
      assert s[0] in s;
      AsciiLength(s[1..]);
    }
  }

  lemma PrintedLine(entry: Entry)
    requires Printable(entry)
    ensures ParseLine(PrintLine(entry)) == Some(entry) && !Blank(PrintLine(entry))
    ensures '\n' !in PrintLine(entry) && StripCarriageReturn(PrintLine(entry)) == PrintLine(entry)
  {
    AsciiLength(entry.digest);
    assert "" + entry.name + "" == entry.name;
    ShapedLineIsRead(PrintLine(entry), entry, "", "  ", "", "");
    PrintedEnds(entry, PrintLine(entry));
  }

  lemma PrintedEnds(entry: Entry, line: string)
    requires Printable(entry) && line == PrintLine(entry)
    ensures Trim(line) == line != "" && '\n' !in line && line[|line| - 1] != '\r'
  {
    assert line[0] == entry.digest[0] && entry.digest[0] in entry.digest;
    assert line[|line| - 1] == entry.name[|entry.name| - 1] && entry.name[|entry.name| - 1] in entry.name;
    assert Trimmed(line);
    assert "" + line + "" == line;
    TrimAround("", line, "");
  }

  lemma {:induction false} PrintedLines(entries: seq<Entry>)
    requires forall e :: e in entries ==> Printable(e)
    ensures |Lines(Print(entries))| == |entries|
    ensures forall k :: 0 <= k < |entries| ==> Lines(Print(entries))[k] == PrintLine(entries[k])
    decreases |entries|
  {
    if entries == [] {
    } else {
      var head, rest := entries[0], entries[1..];
      PrintedLine(head);
      LinesHead(PrintLine(head), Print(rest));
      PrintedLines(rest);
    }
  }

  /** The entries of a manifest all of whose lines are well formed. */
  function ReadEntries(lines: seq<string>): Option<seq<Entry>> {
    if lines == [] then Some([])
    else if Blank(lines[0]) then ReadEntries(lines[1..])
    else
      match ParseLine(lines[0])
      case None => None
      case Some(entry) =>
        match ReadEntries(lines[1..])
        case None => None
        case Some(rest) => Some([entry] + rest)
  }

  lemma {:induction false} ReadPrinted(entries: seq<Entry>, lines: seq<string>)
    requires |lines| == |entries|
    requires forall k :: 0 <= k < |entries| ==> Printable(entries[k]) && lines[k] == PrintLine(entries[k])
    ensures ReadEntries(lines) == Some(entries)
    decreases |entries|
  {
    if entries == [] {
    } else {
      PrintedLine(entries[0]);
      var rest := entries[1..];
      ReadPrinted(rest, lines[1..]);
      assert ReadEntries(lines) == Some([entries[0]] + rest);
      assert entries == [entries[0]] + rest;
    }
  }

  /** Round trip: a printed manifest is read back as exactly the list it was printed from. */
  lemma ManifestRoundTrip(entries: seq<Entry>)
    requires forall e :: e in entries ==> Printable(e)
    ensures ReadEntries(Lines(Print(entries))) == Some(entries)
  {
    PrintedLines(entries);
    ReadPrinted(entries, Lines(Print(entries)));
  }

  /** A printed manifest is accepted exactly when it is not empty and every file it names hashes to
      the digest printed for it. */
  lemma PrintedManifestAccepted(entries: seq<Entry>, files: map<string, Bytes>, sha256: Bytes -> string)
    requires forall e :: e in entries ==> Printable(e)
    ensures Accepts(Print(entries), files, sha256)
            <==> entries != [] && forall e :: e in entries ==> Confirmed(e, files, sha256)
  {
    PrintedLines(entries);
    JudgedLines(entries, Lines(Print(entries)), Judging(files, sha256), files, sha256);
  }

  lemma JudgedLines(
    entries: seq<Entry>, lines: seq<string>, judge: string -> Judgement,
    files: map<string, Bytes>, sha256: Bytes -> string)
    requires |lines| == |entries| && judge == Judging(files, sha256)
    requires forall k :: 0 <= k < |entries| ==> Printable(entries[k]) && lines[k] == PrintLine(entries[k])
    ensures Accepted(lines, judge) <==> entries != [] && forall e :: e in entries ==> Confirmed(e, files, sha256)
  {
    forall k | 0 <= k < |entries|
      ensures judge(lines[k]) != Nothing
      ensures judge(lines[k]) == InOrder <==> Confirmed(entries[k], files, sha256)
    {
      PrintedLine(entries[k]);
    }
    if entries != [] {
      assert judge(lines[0]) != Nothing;
    }
  }

  /** `s.to_ascii_uppercase()`. */
  function Upper(s: string): string {
    seq(|s|, k requires 0 <= k < |s| => if 'a' <= s[k] <= 'z' then (s[k] as int - 32) as char else s[k])
  }

  function WithUpperDigests(entries: seq<Entry>): (r: seq<Entry>)
    ensures |r| == |entries|
    ensures forall k :: 0 <= k < |entries| ==> r[k] == Entry(Upper(entries[k].digest), entries[k].name)
  {
    seq(|entries|, k requires 0 <= k < |entries| => Entry(Upper(entries[k].digest), entries[k].name))
  }

  /** A printed manifest whose digests are written in upper case is accepted exactly when it is. */
  lemma UpperCaseManifest(entries: seq<Entry>, files: map<string, Bytes>, sha256: Bytes -> string)
    requires forall e :: e in entries ==> Printable(e)
    ensures Accepts(Print(WithUpperDigests(entries)), files, sha256) <==> Accepts(Print(entries), files, sha256)
  {
    var upper := WithUpperDigests(entries);
    forall k | 0 <= k < |entries|
      ensures Printable(upper[k])
      ensures Confirmed(upper[k], files, sha256) <==> Confirmed(entries[k], files, sha256)
    {
      assert entries[k] in entries;
      UpperDigest(entries[k].digest);
    }
    PrintedManifestAccepted(entries, files, sha256);
    PrintedManifestAccepted(upper, files, sha256);
    assert forall e :: e in upper ==> exists k :: 0 <= k < |upper| && upper[k] == e;
    assert forall e :: e in entries ==> exists k :: 0 <= k < |entries| && entries[k] == e;
  }

  lemma UpperDigest(digest: string)
    requires forall c :: c in digest ==> IsHex(c)
    ensures |Upper(digest)| == |digest| && (forall c :: c in Upper(digest) ==> IsHex(c)) && EqIgnoreCase(Upper(digest), digest)
  {
    forall k | 0 <= k < |digest|
      ensures IsHex(Upper(digest)[k]) && SameLetter(Upper(digest)[k], digest[k])
    {
      assert digest[k] in digest;
    }
    EqIgnoreCaseMeaning(Upper(digest), digest);
  }

  function Describe(names: seq<string>, files: map<string, Bytes>, sha256: Bytes -> string): seq<Entry>
    requires forall n :: n in names ==> n in files
  {
    if names == [] then []
    else [Entry(sha256(files[names[0]]), names[0])] + Describe(names[1..], files, sha256)
  }

  lemma {:induction false} DescribeEntries(names: seq<string>, files: map<string, Bytes>, sha256: Bytes -> string)
    requires forall n :: n in names ==> n in files
    ensures var entries := Describe(names, files, sha256);
            |entries| == |names| && forall k :: 0 <= k < |names| ==> entries[k] == Entry(sha256(files[names[k]]), names[k])
    decreases |names|
  {
    if names == [] {
    } else {
      DescribeEntries(names[1..], files, sha256);
    }
  }

  /** What the writers write is accepted, and stays accepted for another state of the directory
      exactly when every listed file is there with the digest it had. */
  lemma WrittenManifestDetectsChange(
    names: seq<string>, files: map<string, Bytes>, now: map<string, Bytes>, sha256: Bytes -> string)
    requires names != [] && forall n :: n in names ==> n in files && IsWord(n) && n[0] != '*'
    requires forall content :: |sha256(content)| == 64 && forall c :: c in sha256(content) ==> '0' <= c <= '9' || 'a' <= c <= 'f'
    ensures var manifest := Print(Describe(names, files, sha256));
            && Accepts(manifest, files, sha256)
            && (Accepts(manifest, now, sha256) <==>
                forall n :: n in names ==> n in now && sha256(now[n]) == sha256(files[n]))
  {
    var entries := Describe(names, files, sha256);
    DescribeEntries(names, files, sha256);
    forall e | e in entries
      ensures Printable(e) && e.name in names && e.digest == sha256(files[e.name])
    {
      var k :| 0 <= k < |entries| && entries[k] == e;
      assert names[k] in names;
    }
    PrintedManifestAccepted(entries, files, sha256);
    PrintedManifestAccepted(entries, now, sha256);
    forall n | n in names
      ensures Entry(sha256(files[n]), n) in entries
      ensures n in now ==> (EqIgnoreCase(sha256(files[n]), sha256(now[n])) <==> sha256(now[n]) == sha256(files[n]))
    {
      var k :| 0 <= k < |names| && names[k] == n;
      assert entries[k] == Entry(sha256(files[n]), n);
      LowerCaseDigest(sha256(files[n]));
      if n in now { LowerCaseDigest(sha256(now[n])); }
    }
  }

  lemma LowerCaseDigest(digest: string)
    requires forall c :: c in digest ==> '0' <= c <= '9' || 'a' <= c <= 'f'
    ensures Lower(digest) == digest
  {
    assert forall k :: 0 <= k < |digest| ==> digest[k] in digest;
  }
}
