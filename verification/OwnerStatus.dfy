/** The status line of the runtime owner as e2e_static_smokes.rs reads it: `key=value` fields between
    semicolons, and the decision whether the owner has stopped. */
module OwnerStatus {
  import opened Wrappers
  import opened Text

  datatype Field = Field(key: string, value: string)

  /** One part between semicolons; no field without `=` or with nothing before it. */
  function ParsePart(part: string): Option<Field> {
    var index := IndexOf(part, '=');
    if index == |part| || index == 0 then None
    else Some(Field(Trim(part[..index]), Trim(part[index + 1..])))
  }

  /** A part that is read as this field: a key and a value with white space around each, at the first
      equals sign; the text before it may be blank but not empty. */
  ghost predicate Writes(part: string, field: Field) {
    exists a, b :: part == a + "=" + b && a != "" && '=' !in a && IsPadded(a, field.key) && IsPadded(b, field.value)
  }

  lemma PartMeaning(part: string, field: Field)
    ensures ParsePart(part) == Some(field) <==> Writes(part, field)
  {
    if ParsePart(part) == Some(field) {
      ReadPartIsWritten(part, field);
    }
    if Writes(part, field) {
      WrittenPartIsRead(part, field);
    }
  }

  lemma ReadPartIsWritten(part: string, field: Field)
    requires ParsePart(part) == Some(field)
    ensures Writes(part, field)
  {
    var i := IndexOf(part, '=');
    var a, b := part[..i], part[i + 1..];
    TrimMeaning(a, field.key);
    TrimMeaning(b, field.value);
    Reassemble(part, i, '=');
    assert part == a + "=" + b && a != "" && '=' !in a && IsPadded(a, field.key) && IsPadded(b, field.value);
  }

  lemma WrittenPartIsRead(part: string, field: Field)
    requires Writes(part, field)
    ensures ParsePart(part) == Some(field)
  {
    var a, b :| part == a + "=" + b && a != "" && '=' !in a && IsPadded(a, field.key) && IsPadded(b, field.value);
    CutAtEquals(part, a, b);
    TrimMeaning(a, field.key);
    TrimMeaning(b, field.value);
  }

  lemma CutAtEquals(part: string, a: string, b: string)
    requires part == a + "=" + b && '=' !in a
    ensures IndexOf(part, '=') == |a| < |part| && part[..|a|] == a && part[|a| + 1..] == b
  {
    assert forall k :: 0 <= k < |a| ==> part[k] == a[k];
    IndexOfIsFirst(part, '=', |a|);
  }

  function PartFields(part: string): seq<Field> {
    match ParsePart(part)
    case None => []
    case Some(field) => [field]
  }

  /** `filter_map` over the parts. */
  function ParseParts(parts: seq<string>): seq<Field> {
    ConcatMap(PartFields, parts)
  }

  /** `parse_key_value_line`. */
  function ParseKeyValueLine(text: string): seq<Field> {
    ParseParts(Split(text, ';'))
  }

  /** `field`: the value of the first field of that name, or nothing. */
  function Lookup(fields: seq<Field>, name: string): string {
    if fields == [] then ""
    else if fields[0].key == name then fields[0].value
    else Lookup(fields[1..], name)
  }

  /** The regular expression `no .*worker status yet`; a dot matches anything but a line feed. */
  ghost predicate SaysNoStatusYet(s: string) {
    exists i, j :: NoStatusAt(s, i, j)
  }

  predicate NoStatusAt(s: string, i: int, j: int) {
    OccursAt(s, "no ", i) && i + 3 <= j && OccursAt(s, "worker status yet", j) && '\n' !in s[i + 3..j]
  }

  /** The wording: that there is no status yet, or that something has stopped. */
  ghost predicate SaysStopped(status: string) {
    SaysNoStatusYet(Lower(status)) || Contains(Lower(status), "stopped")
  }

  /** The word stands at `i`, in any case of letters. */
  predicate SaysAt(s: string, word: string, i: int) {
    0 <= i && i + |word| <= |s| && forall k :: 0 <= k < |word| ==> SameLetter(s[i + k], word[k])
  }

  lemma LowerOccurs(s: string, word: string, i: int)
    requires Lower(word) == word
    ensures OccursAt(Lower(s), word, i) <==> SaysAt(s, word, i)
  {
    if 0 <= i && i + |word| <= |s| {
      var part := s[i..i + |word|];
      assert Lower(s)[i..i + |word|] == Lower(part);
      EqIgnoreCaseMeaning(part, word);
      assert forall k :: 0 <= k < |word| ==> part[k] == s[i + k];
    }
  }

  /** What the wording is, in any case of letters: the word stopped, or "no " and later on the same line
      "worker status yet". */
  lemma WordingMeaning(status: string)
    ensures SaysStopped(status)
            <==> (exists i :: SaysAt(status, "stopped", i)) || (exists i, j :: DeniesStatusAt(status, i, j))
  {
    LowerWords();
    forall i
      ensures OccursAt(Lower(status), "stopped", i) <==> SaysAt(status, "stopped", i)
    {
      LowerOccurs(status, "stopped", i);
    }
    forall i, j
      ensures NoStatusAt(Lower(status), i, j) <==> DeniesStatusAt(status, i, j)
    {
      DenialMeaning(status, i, j);
    }
  }

  predicate DeniesStatusAt(s: string, i: int, j: int) {
    SaysAt(s, "no ", i) && i + 3 <= j && SaysAt(s, "worker status yet", j) && '\n' !in s[i + 3..j]
  }

  lemma DenialMeaning(s: string, i: int, j: int)
    ensures NoStatusAt(Lower(s), i, j) <==> DeniesStatusAt(s, i, j)
  {
    LowerWords();
    LowerOccurs(s, "no ", i);
    LowerOccurs(s, "worker status yet", j);
    if 0 <= i && i + 3 <= j <= |s| {
      assert Lower(s)[i + 3..j] == Lower(s[i + 3..j]);
      LowerKeepsLineFeeds(s[i + 3..j]);
    }
  }

  lemma LowerWords()
    ensures Lower("stopped") == "stopped" && Lower("no ") == "no " && Lower("worker status yet") == "worker status yet"
  {
  }

  lemma LowerKeepsLineFeeds(s: string)
    ensures '\n' in Lower(s) <==> '\n' in s
  {
    assert forall k :: 0 <= k < |s| ==> (Lower(s)[k] == '\n' <==> s[k] == '\n');
  }

  /** `is_stopped_owner_status`. */
  ghost predicate IsStoppedOwnerStatus(status: string) {
    var running := Lookup(ParseKeyValueLine(status), "running");
    || EqIgnoreCase(running, "false")
    || (SaysStopped(status) && !EqIgnoreCase(running, "true"))
  }

  // ---------- printing and reading back ----------

  function PrintField(field: Field): string {
    field.key + "=" + field.value
  }

  function PrintParts(fields: seq<Field>): (parts: seq<string>)
    ensures |parts| == |fields|
    ensures forall k :: 0 <= k < |fields| ==> parts[k] == PrintField(fields[k])
  {
    seq(|fields|, k requires 0 <= k < |fields| => PrintField(fields[k]))
  }

  function PrintStatus(fields: seq<Field>): string {
    Join(PrintParts(fields), ';')
  }

  /** A field that survives printing: a plain key, and a value that may contain `=` but no `;`. */
  predicate Printable(field: Field) {
    && field.key != "" && Trimmed(field.key) && '=' !in field.key && ';' !in field.key
    && Trimmed(field.value) && ';' !in field.value
  }

  lemma {:induction s} TrimTrimmed(s: string)
    requires Trimmed(s)
    ensures Trim(s) == s
  {
  }

  lemma PrintedPart(field: Field)
    requires Printable(field)
    ensures ParsePart(PrintField(field)) == Some(field)
    ensures ';' !in PrintField(field)
  {
    var part := PrintField(field);
    assert part[..|field.key|] == field.key;
    IndexOfIsFirst(part, '=', |field.key|);
    assert part[|field.key| + 1..] == field.value;
    TrimTrimmed(field.key);
    TrimTrimmed(field.value);
  }

  lemma {:induction false} ParsePrintedParts(fields: seq<Field>, parts: seq<string>)
    requires forall f :: f in fields ==> Printable(f)
    requires |parts| == |fields| && forall k :: 0 <= k < |fields| ==> parts[k] == PrintField(fields[k])
    ensures ParseParts(parts) == fields
    decreases |fields|
  {
    if fields == [] {
    } else {
      PrintedPart(fields[0]);
      ParsePrintedParts(fields[1..], parts[1..]);
      assert fields == [fields[0]] + fields[1..];
    }
  }

  /** Round trip: the fields of a printed status are the fields it was printed from. */
  lemma StatusRoundTrip(fields: seq<Field>)
    requires forall f :: f in fields ==> Printable(f)
    ensures ParseKeyValueLine(PrintStatus(fields)) == fields
  {
    var parts := PrintParts(fields);
    if fields == [] {
      SplitWhole("", ';');
      ConcatMapOne(PartFields, "");
    } else {
      forall p | p in parts
        ensures ';' !in p
      {
        var k :| 0 <= k < |parts| && parts[k] == p;
        PrintedPart(fields[k]);
      }
      SplitJoin(parts, ';');
      ParsePrintedParts(fields, parts);
    }
  }

  /** A part without `=`, or with nothing before it, adds no field wherever it stands. */
  lemma JunkPartIsIgnored(before: string, junk: string, after: string)
    requires ';' !in junk && ('=' !in junk || junk[0] == '=')
    ensures ParseKeyValueLine(before + ";" + junk + ";" + after) == ParseKeyValueLine(before + ";" + after)
  {
    SplitAppend(before + ";" + junk, after, ';');
    SplitAppend(before, junk, ';');
    SplitWhole(junk, ';');
    SplitAppend(before, after, ';');
    PartWithoutField(Split(before, ';'), junk, Split(after, ';'));
  }

  lemma PartWithoutField(a: seq<string>, junk: string, b: seq<string>)
    requires ParsePart(junk) == None
    ensures ParseParts(a + [junk] + b) == ParseParts(a + b)
  {
    ConcatMapOne(PartFields, junk);
    ConcatMapAppend(PartFields, a + [junk], b);
    ConcatMapAppend(PartFields, a, [junk]);
    ConcatMapAppend(PartFields, a, b);
  }

  ghost predicate DistinctKeys(fields: seq<Field>) {
    forall i, j :: 0 <= i < j < |fields| ==> fields[i].key != fields[j].key
  }

  lemma {:induction false} LookupFinds(fields: seq<Field>, i: nat)
    requires i < |fields| && DistinctKeys(fields)
    ensures Lookup(fields, fields[i].key) == fields[i].value
    decreases i
  {
    if i == 0 {
    } else {
      LookupFinds(fields[1..], i - 1);
    }
  }

  /** Each key of a printed status is looked up to its own value. */
  lemma PrintedFieldIsFound(fields: seq<Field>, i: nat)
    requires (forall f :: f in fields ==> Printable(f)) && DistinctKeys(fields) && i < |fields|
    ensures Lookup(ParseKeyValueLine(PrintStatus(fields)), fields[i].key) == fields[i].value
  {
    StatusRoundTrip(fields);
    LookupFinds(fields, i);
  }

  // ---------- what decides, in any text ----------

  predicate IsField(part: string, name: string) {
    ParsePart(part).Some? && ParsePart(part).value.key == name
  }

  /** The first part that is a field of this name has this value. */
  ghost predicate FirstValue(parts: seq<string>, name: string, value: string) {
    exists i :: 0 <= i < |parts| && IsFirstField(parts, name, value, i)
  }

  predicate IsFirstField(parts: seq<string>, name: string, value: string, i: nat)
    requires i < |parts|
  {
    ParsePart(parts[i]) == Some(Field(name, value)) && forall k :: 0 <= k < i ==> !IsField(parts[k], name)
  }

  lemma {:induction false} LookupInParts(parts: seq<string>, name: string)
    ensures (forall k :: 0 <= k < |parts| ==> !IsField(parts[k], name)) ==> Lookup(ParseParts(parts), name) == ""
    ensures forall value :: FirstValue(parts, name, value) ==> Lookup(ParseParts(parts), name) == value
    decreases |parts|
  {
    if parts == [] {
    } else {
      var rest := parts[1..];
      LookupInParts(rest, name);
      assert ParseParts(parts) == PartFields(parts[0]) + ParseParts(rest);
      if IsField(parts[0], name) {
        assert Lookup(ParseParts(parts), name) == ParsePart(parts[0]).value.value;
      } else {
        LookupSkips(parts[0], ParseParts(rest), name);
        forall value | FirstValue(parts, name, value)
          ensures FirstValue(rest, name, value)
        {
          var i :| 0 <= i < |parts| && IsFirstField(parts, name, value, i);
          assert IsFirstField(rest, name, value, i - 1) by {
            assert rest[i - 1] == parts[i] && forall k :: 0 <= k < i - 1 ==> rest[k] == parts[k + 1];
          }
        }
      }
    }
  }

  lemma LookupSkips(part: string, fields: seq<Field>, name: string)
    requires !IsField(part, name)
    ensures Lookup(PartFields(part) + fields, name) == Lookup(fields, name)
  {
    if ParsePart(part).Some? {
      assert ([ParsePart(part).value] + fields)[1..] == fields;
    } else {
      assert [] + fields == fields;
    }
  }

  /** In any text the first `running` field decides, whatever stands around it: true is never stopped,
      false always is, in any case of letters; with another value the wording decides. */
  lemma RunningFieldDecides(status: string, value: string)
    requires FirstValue(Split(status, ';'), "running", value)
    ensures Says(value, "true") ==> !IsStoppedOwnerStatus(status)
    ensures Says(value, "false") ==> IsStoppedOwnerStatus(status)
    ensures !Says(value, "true") && !Says(value, "false") ==> (IsStoppedOwnerStatus(status) <==> SaysStopped(status))
  {
    LookupInParts(Split(status, ';'), "running");
    EqIgnoreCaseMeaning(value, "true");
    EqIgnoreCaseMeaning(value, "false");
  }

  /** The text is this word, in any case of letters. */
  predicate Says(s: string, word: string) {
    |s| == |word| && SaysAt(s, word, 0)
  }

  /** In any text without a `running` field the wording decides. */
  lemma TextDecidesWithoutRunning(status: string)
    requires forall part :: part in Split(status, ';') ==> !IsField(part, "running")
    ensures IsStoppedOwnerStatus(status) <==> SaysStopped(status)
  {
    LookupInParts(Split(status, ';'), "running");
    assert |Lower("")| == 0 && |Lower("false")| == 5 && |Lower("true")| == 4;
  }

  /** The same by position: a part that writes a running value, with white space wherever it may stand,
      after any text in which no field is called so. */
  lemma RunningAnywhere(before: string, part: string, value: string, after: string)
    requires ';' !in part && Writes(part, Field("running", value))
    requires forall p :: p in Split(before, ';') ==> !IsField(p, "running")
    ensures FirstValue(Split(before + ";" + part + ";" + after, ';'), "running", value)
    ensures FirstValue(Split(before + ";" + part, ';'), "running", value)
    ensures FirstValue(Split(part + ";" + after, ';'), "running", value)
    ensures FirstValue(Split(part, ';'), "running", value)
  {
    var parts := Split(before, ';');
    PartMeaning(part, Field("running", value));
    SplitAround(before, part, after);
    FirstAfter(Split(part, ';'), [], part, "running");
    FirstAfter(Split(before + ";" + part, ';'), parts, part, "running");
    FirstAfter(Split(part + ";" + after, ';'), [], part, "running");
    FirstAfter(Split(before + ";" + part + ";" + after, ';'), parts, part, "running");
  }

  lemma SplitAround(before: string, part: string, after: string)
    requires ';' !in part
    ensures Split(before + ";" + part + ";" + after, ';') == Split(before, ';') + [part] + Split(after, ';')
    ensures Split(before + ";" + part, ';') == Split(before, ';') + [part]
    ensures Split(part + ";" + after, ';') == [part] + Split(after, ';')
    ensures Split(part, ';') == [part]
  {
    SplitWhole(part, ';');
    SplitAppend(before, part, ';');
    SplitAppend(before + ";" + part, after, ';');
    SplitAppend(part, after, ';');
  }

  lemma FirstAfter(parts: seq<string>, before: seq<string>, part: string, name: string)
    requires before < parts && parts[|before|] == part
    requires IsField(part, name) && forall p :: p in before ==> !IsField(p, name)
    ensures FirstValue(parts, name, ParsePart(part).value.value)
  {
    assert forall k :: 0 <= k < |before| ==> parts[k] == before[k];
    assert IsFirstField(parts, name, ParsePart(part).value.value, |before|);
  }
}
