/** `contains_hardcoded_visible_version` of desktop_version.rs: a search that jumps past each
    occurrence of its needle, with a hand-written matcher for three dotted numbers. */
module VersionScan {
  import opened Wrappers
  import opened Text

  const NEEDLE := "KaspaGateway V"

  // ---------- the version pattern ----------

  predicate AllDigits(text: string, from: nat, to: nat) {
    from <= to <= |text| && forall k :: from <= k < to ==> IsDigit(text[k])
  }

  predicate NumberThenDot(text: string, from: nat, dot: nat) {
    from < dot < |text| && AllDigits(text, from, dot) && text[dot] == '.'
  }

  /** `text` begins with digits, a dot, digits, a dot, digits. */
  ghost predicate BeginsWithVersion(text: string) {
    exists i: nat, j: nat, k: nat :: DottedNumbers(text, i, j, k)
  }

  predicate DottedNumbers(text: string, i: nat, j: nat, k: nat) {
    NumberThenDot(text, 0, i) && NumberThenDot(text, i + 1, j) && j + 1 < k && AllDigits(text, j + 1, k)
  }

  /** The end of the run of digits at `i`. */
  function DigitsEnd(text: string, i: nat): (j: nat)
    requires i <= |text|
    ensures i <= j <= |text| && AllDigits(text, i, j)
    ensures j < |text| ==> !IsDigit(text[j])
    decreases |text| - i
  {
    if i < |text| && IsDigit(text[i]) then DigitsEnd(text, i + 1) else i
  }

  /** Taking each run of digits as long as possible, `parts` dotted numbers stand at `i`. */
  predicate GreedyVersion(text: string, i: nat, parts: nat)
    requires i <= |text|
    decreases parts
  {
    parts == 0 ||
    var j := DigitsEnd(text, i);
    i < j && (parts == 1 || (j < |text| && text[j] == '.' && GreedyVersion(text, j + 1, parts - 1)))
  }

  lemma DottedIsGreedy(text: string, i: nat, j: nat, k: nat)
    requires DottedNumbers(text, i, j, k)
    ensures GreedyVersion(text, 0, 3)
  {
    assert DigitsEnd(text, 0) == i;
    assert DigitsEnd(text, i + 1) == j;
    assert DigitsEnd(text, j + 1) >= k;
  }

  /** Greedy runs lose no match: dots are not digits, and the last run may stop anywhere. */
  lemma GreedyIsComplete(text: string)
    ensures GreedyVersion(text, 0, 3) <==> BeginsWithVersion(text)
  {
    if GreedyVersion(text, 0, 3) {
      var i := DigitsEnd(text, 0);
      var j := DigitsEnd(text, i + 1);
      assert DottedNumbers(text, i, j, DigitsEnd(text, j + 1));
    }
    if BeginsWithVersion(text) {
      var i: nat, j: nat, k: nat :| DottedNumbers(text, i, j, k);
      DottedIsGreedy(text, i, j, k);
    }
  }

  /** `semver_prefix`: digits, dot, digits, dot, digits, each run as long as it goes. */
  method SemverPrefix(text: string) returns (r: bool)
    ensures r <==> BeginsWithVersion(text)
  {
    ghost var matches := GreedyVersion(text, 0, 3);
    GreedyIsComplete(text);
    var cursor := 0;
    for part := 0 to 3
      invariant cursor <= |text|
      invariant matches <==> GreedyVersion(text, cursor, 3 - part)
    {
      var begin := cursor;
      while cursor < |text| && IsDigit(text[cursor])
        invariant begin <= cursor <= |text|
        invariant DigitsEnd(text, cursor) == DigitsEnd(text, begin)
      {
        cursor := cursor + 1;
      }
      if cursor == begin {
        return false;
      }
      if part < 2 {
        if cursor == |text| || text[cursor] != '.' {
          return false;
        }
        cursor := cursor + 1;
      }
    }
    return true;
  }

  // ---------- the search ----------

  /** The needle stands at `i`, directly followed by a version. */
  ghost predicate VisibleVersionAt(text: string, i: nat) {
    OccursAt(text, NEEDLE, i) && BeginsWithVersion(text[i + |NEEDLE|..])
  }

  ghost predicate HasVisibleVersion(text: string, from: nat) {
    exists i :: from <= i && VisibleVersionAt(text, i)
  }

  /** The needle has no border: two occurrences never overlap, because its first letter does not
      occur in it again. */
  lemma NoOverlap(text: string, i: nat, j: nat)
    requires OccursAt(text, NEEDLE, i) && OccursAt(text, NEEDLE, j) && i < j
    ensures j >= i + |NEEDLE|
  {
    assert text[j] == text[j..j + |NEEDLE|][0] == 'K';
    forall p | i < p < i + |NEEDLE|
      ensures text[p] != 'K'
    {
      assert text[p] == text[i..i + |NEEDLE|][p - i] == NEEDLE[p - i];
    }
  }

  /** An occurrence that is not followed by a version can be jumped over. */
  lemma JumpSkipsNothing(text: string, from: nat, i: nat)
    requires FindFrom(text, NEEDLE, from) == Some(i)
    requires !BeginsWithVersion(text[i + |NEEDLE|..])
    ensures HasVisibleVersion(text, from) <==> HasVisibleVersion(text, i + |NEEDLE|)
  {
    if HasVisibleVersion(text, from) {
      var j :| from <= j && VisibleVersionAt(text, j);
      assert j > i;
      NoOverlap(text, i, j);
      assert i + |NEEDLE| <= j && VisibleVersionAt(text, j);
    }
  }

  /** `contains_hardcoded_visible_version`. */
  method ContainsHardcodedVisibleVersion(text: string) returns (r: bool)
    ensures r <==> HasVisibleVersion(text, 0)
  {
    var start := 0;
    while true
      invariant start <= |text|
      invariant HasVisibleVersion(text, 0) <==> HasVisibleVersion(text, start)
      decreases |text| - start
    {
      var found := FindFrom(text, NEEDLE, start);
      if found.None? {
        return false;
      }
      var matched := SemverPrefix(text[found.value + |NEEDLE|..]);
      if matched {
        assert VisibleVersionAt(text, found.value);
        return true;
      }
      JumpSkipsNothing(text, start, found.value);
      start := found.value + |NEEDLE|;
    }
  }

  function Dotted(x: string, y: string, z: string, rest: string): string {
    x + ("." + (y + ("." + (z + rest))))
  }

  /** The text begins with three numbers with dots between them. */
  ghost predicate StartsWithNumbers(text: string) {
    exists x, y, z, rest :: IsNumber(x) && IsNumber(y) && IsNumber(z) && text == Dotted(x, y, z, rest)
  }

  lemma VersionIsNumbers(text: string, i: nat, j: nat, k: nat)
    requires DottedNumbers(text, i, j, k)
    ensures StartsWithNumbers(text)
  {
    var x, y, z, rest := text[..i], text[i + 1..j], text[j + 1..k], text[k..];
    assert text[j + 1..] == z + rest;
    assert text[j..] == "." + (z + rest);
    assert text[i + 1..] == y + ("." + (z + rest));
    assert text[i..] == "." + (y + ("." + (z + rest)));
    assert text == Dotted(x, y, z, rest);
    assert IsNumber(x) && IsNumber(y) && IsNumber(z);
  }

  lemma RunStands(text: string, from: nat, number: string, rest: string)
    requires from <= |text| && text[from..] == number + rest && IsNumber(number)
    ensures from + |number| <= |text| && AllDigits(text, from, from + |number|) && text[from + |number|..] == rest
  {
    var tail := text[from..];
    assert forall k :: 0 <= k < |number| ==> text[from + k] == tail[k] == number[k] && number[k] in number;
    assert text[from + |number|..] == tail[|number|..];
  }

  lemma DotStands(text: string, from: nat, rest: string)
    requires from <= |text| && text[from..] == "." + rest
    ensures from < |text| && text[from] == '.' && text[from + 1..] == rest
  {
    var tail := text[from..];
    assert text[from] == tail[0] && text[from + 1..] == tail[1..];
  }

  lemma NumbersAreVersion(text: string, x: string, y: string, z: string, rest: string)
    requires IsNumber(x) && IsNumber(y) && IsNumber(z) && text == Dotted(x, y, z, rest)
    ensures BeginsWithVersion(text)
  {
    var last := z + rest;
    var second := y + ("." + last);
    var i, j := |x|, |x| + 1 + |y|;
    assert text[0..] == text;
    RunStands(text, 0, x, "." + second);
    DotStands(text, i, second);
    RunStands(text, i + 1, y, "." + last);
    DotStands(text, j, last);
    RunStands(text, j + 1, z, rest);
    assert DottedNumbers(text, i, j, j + 1 + |z|);
  }

  lemma BeginningMeaning(text: string)
    ensures BeginsWithVersion(text) <==> StartsWithNumbers(text)
  {
    if BeginsWithVersion(text) {
      var i: nat, j: nat, k: nat :| DottedNumbers(text, i, j, k);
      VersionIsNumbers(text, i, j, k);
    }
    if StartsWithNumbers(text) {
      var x, y, z, rest :| IsNumber(x) && IsNumber(y) && IsNumber(z) && text == Dotted(x, y, z, rest);
      NumbersAreVersion(text, x, y, z, rest);
    }
  }

  /** What is found: the words "KaspaGateway V" directly followed by three dotted numbers, anywhere. */
  lemma VisibleVersionMeaning(text: string)
    ensures HasVisibleVersion(text, 0)
            <==> exists before, after :: text == before + ("KaspaGateway V" + after) && StartsWithNumbers(after)
  {
    if HasVisibleVersion(text, 0) {
      var i :| 0 <= i && VisibleVersionAt(text, i);
      VersionStands(text, i);
    }
    forall before, after | text == before + ("KaspaGateway V" + after) && StartsWithNumbers(after)
      ensures VisibleVersionAt(text, |before|)
    {
      StandingVersion(text, before, after);
    }
  }

  lemma VersionStands(text: string, i: nat)
    requires VisibleVersionAt(text, i)
    ensures exists before, after :: text == before + ("KaspaGateway V" + after) && StartsWithNumbers(after)
  {
    var before, after := text[..i], text[i + |NEEDLE|..];
    BeginningMeaning(after);
    assert text[i..] == "KaspaGateway V" + after;
    assert text == before + text[i..];
  }

  lemma StandingVersion(text: string, before: string, after: string)
    requires text == before + ("KaspaGateway V" + after) && StartsWithNumbers(after)
    ensures VisibleVersionAt(text, |before|)
  {
    BeginningMeaning(after);
    assert text[|before|..] == "KaspaGateway V" + after;
    assert text[|before|..|before| + |NEEDLE|] == NEEDLE && text[|before| + |NEEDLE|..] == after;
  }
}
