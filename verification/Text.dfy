/** The parts of Rust's `str` that the tools use, as functions on sequences.
    A `char` is a Unicode scalar value, so a `string` here is a Rust `str`. */
module Text {
  import opened Wrappers

  // ---------- searching ----------

  /** The first index of `x`, or the length when it does not occur. */
  function IndexOf<T(==)>(s: seq<T>, x: T): (i: nat)
    ensures i <= |s|
    ensures forall k :: 0 <= k < i ==> s[k] != x
    ensures i < |s| ==> s[i] == x
  {
    if |s| == 0 || s[0] == x then 0 else 1 + IndexOf(s[1..], x)
  }

  lemma {:induction false} IndexOfIsFirst<T>(s: seq<T>, x: T, i: nat)
    requires i < |s| && s[i] == x
    requires forall k :: 0 <= k < i ==> s[k] != x
    ensures IndexOf(s, x) == i
  {
    var j := IndexOf(s, x);
    assert j >= i;
  }

  predicate OccursAt(s: string, needle: string, i: int) {
    0 <= i && i + |needle| <= |s| && s[i..i + |needle|] == needle
  }

  /** `s[from..].find(needle)`, as an index into `s`. */
  function FindFrom(s: string, needle: string, from: nat): (r: Option<nat>)
    ensures r.Some? ==> from <= r.value && OccursAt(s, needle, r.value)
    ensures r.Some? ==> forall i :: from <= i < r.value ==> !OccursAt(s, needle, i)
    ensures r.None? ==> forall i :: from <= i ==> !OccursAt(s, needle, i)
    decreases |s| - from
  {
    if from + |needle| > |s| then None
    else if OccursAt(s, needle, from) then Some(from)
    else FindFrom(s, needle, from + 1)
  }

  predicate Contains(s: string, needle: string) {
    FindFrom(s, needle, 0).Some?
  }

  predicate StartsWith(s: string, prefix: string) {
    prefix <= s
  }

  /** A text contains another exactly when it is that text with something before and after it. */
  lemma ContainsMeaning(s: string, needle: string)
    ensures Contains(s, needle) <==> exists before, after :: s == before + needle + after
  {
    var found := FindFrom(s, needle, 0);
    if found.Some? {
      var i := found.value;
      assert s == s[..i] + needle + s[i + |needle|..];
    }
    forall before, after | s == before + needle + after
      ensures OccursAt(s, needle, |before|)
    {
      assert s[|before|..|before| + |needle|] == needle;
    }
  }

  lemma StartsWithMeaning(s: string, prefix: string)
    ensures StartsWith(s, prefix) <==> exists rest :: s == prefix + rest
  {
    if StartsWith(s, prefix) {
      assert s == prefix + s[|prefix|..];
    }
  }

  // ---------- split and join ----------

  /** `s.split(sep)`: always at least one part. */
  function Split(s: string, sep: char): (parts: seq<string>)
    ensures |parts| >= 1
    decreases |s|
  {
    var i := IndexOf(s, sep);
    if i == |s| then [s] else [s[..i]] + Split(s[i + 1..], sep)
  }

  /** `parts.join(sep)`. */
  function Join(parts: seq<string>, sep: char): string {
    if |parts| == 0 then ""
    else if |parts| == 1 then parts[0]
    else parts[0] + [sep] + Join(parts[1..], sep)
  }

  lemma Regroup<T>(whole: seq<T>, x: T, left: seq<T>, right: seq<T>, joined: seq<T>)
    requires joined == left + right && whole == [x] + joined
    ensures whole == ([x] + left) + right
  {
  }

  lemma {:induction false} SplitHead(p: string, rest: string, sep: char)
    requires sep !in p
    ensures Split(p + [sep] + rest, sep) == [p] + Split(rest, sep)
  {
    var s := p + [sep] + rest;
    assert s[..|p|] == p;
    IndexOfIsFirst(s, sep, |p|);
    assert s[|p| + 1..] == rest;
  }

  lemma {:induction false} SplitWhole(p: string, sep: char)
    requires sep !in p
    ensures Split(p, sep) == [p]
  {
    assert IndexOf(p, sep) == |p|;
  }

  lemma SplitAfterCut(a: string, tail: string, sep: char, i: nat)
    requires i < |a| && IndexOf(a, sep) == i
    ensures Split(a + tail, sep) == [a[..i]] + Split(a[i + 1..] + tail, sep)
  {
    IndexOfIsFirst(a + tail, sep, i);
    assert (a + tail)[..i] == a[..i];
    assert (a + tail)[i + 1..] == a[i + 1..] + tail;
  }

  lemma SplitCutStep(a: string, tail: string, parts: seq<string>, sep: char, i: nat)
    requires i < |a| && IndexOf(a, sep) == i
    requires Split(a[i + 1..] + tail, sep) == Split(a[i + 1..], sep) + parts
    ensures Split(a + tail, sep) == Split(a, sep) + parts
  {
    var rest := a[i + 1..];
    SplitAfterCut(a, tail, sep, i);
    Regroup(Split(a + tail, sep), a[..i], Split(rest, sep), parts, Split(rest + tail, sep));
  }

  lemma SplitBeforeHead(a: string, tail: string, b: string, sep: char)
    requires tail == [sep] + b && sep !in a
    ensures Split(a + tail, sep) == Split(a, sep) + Split(b, sep)
  {
    var s := a + tail;
    IndexOfIsFirst(s, sep, |a|);
    assert s[..|a|] == a && s[|a| + 1..] == b;
    SplitWhole(a, sep);
  }

  lemma {:induction false} SplitBefore(a: string, tail: string, b: string, sep: char)
    requires tail == [sep] + b
    ensures Split(a + tail, sep) == Split(a, sep) + Split(b, sep)
    decreases |a|
  {
    var i := IndexOf(a, sep);
    if i == |a| {
      SplitBeforeHead(a, tail, b, sep);
    } else {
      SplitBefore(a[i + 1..], tail, b, sep);
      SplitCutStep(a, tail, Split(b, sep), sep, i);
    }
  }

  /** Splitting distributes over a separator placed anywhere. */
  lemma SplitAppend(a: string, b: string, sep: char)
    ensures Split(a + [sep] + b, sep) == Split(a, sep) + Split(b, sep)
  {
    SplitBefore(a, [sep] + b, b, sep);
    assert a + ([sep] + b) == a + [sep] + b;
  }

  lemma {:induction false} SplitJoin(parts: seq<string>, sep: char)
    requires |parts| > 0
    requires forall p :: p in parts ==> sep !in p
    ensures Split(Join(parts, sep), sep) == parts
    decreases |parts|
  {
    assert parts[0] in parts;
    if |parts| == 1 {
      SplitWhole(parts[0], sep);
    } else {
      SplitHead(parts[0], Join(parts[1..], sep), sep);
      SplitJoin(parts[1..], sep);
    }
  }

  /** And back: joining the parts of a text gives the text. */
  lemma {:induction false} JoinSplit(s: string, sep: char)
    ensures Join(Split(s, sep), sep) == s
    decreases |s|
  {
    var i := IndexOf(s, sep);
    if i == |s| {
    } else {
      JoinSplit(s[i + 1..], sep);
      JoinCons(s[..i], Split(s[i + 1..], sep), sep);
      Reassemble(s, i, sep);
    }
  }

  lemma JoinCons(p: string, parts: seq<string>, sep: char)
    requires parts != []
    ensures Join([p] + parts, sep) == p + [sep] + Join(parts, sep)
  {
    assert ([p] + parts)[1..] == parts;
  }

  lemma Reassemble(s: string, i: nat, sep: char)
    requires i < |s| && s[i] == sep
    ensures s == s[..i] + [sep] + s[i + 1..]
  {
  }

  lemma {:induction false} SplitPartsLackSeparator(s: string, sep: char)
    ensures forall p :: p in Split(s, sep) ==> sep !in p
    decreases |s|
  {
    var i := IndexOf(s, sep);
    if i == |s| {
    } else {
      SplitPartsLackSeparator(s[i + 1..], sep);
    }
  }

  /** The results of `f` on the elements, one after the other. */
  function ConcatMap<A, B>(f: A -> seq<B>, s: seq<A>): seq<B> {
    if s == [] then [] else f(s[0]) + ConcatMap(f, s[1..])
  }

  lemma Prepend<T>(head: seq<T>, left: seq<T>, right: seq<T>)
    ensures head + (left + right) == (head + left) + right
  {
  }

  lemma {:induction false} ConcatMapAppend<A, B>(f: A -> seq<B>, a: seq<A>, b: seq<A>)
    ensures ConcatMap(f, a + b) == ConcatMap(f, a) + ConcatMap(f, b)
    decreases |a|
  {
    if a == [] {
      assert a + b == b;
    } else {
      ConcatMapAppend(f, a[1..], b);
      assert (a + b)[1..] == a[1..] + b;
      Prepend(f(a[0]), ConcatMap(f, a[1..]), ConcatMap(f, b));
    }
  }

  lemma ConcatMapOne<A, B>(f: A -> seq<B>, x: A)
    ensures ConcatMap(f, [x]) == f(x)
  {
    assert ConcatMap(f, [x]) == f(x) + ConcatMap(f, []);
  }

  // ---------- lines ----------

  function StripCarriageReturn(line: string): string {
    if line != "" && line[|line| - 1] == '\r' then line[..|line| - 1] else line
  }

  /** `s.lines()`: `\n` and `\r\n` end a line; an unterminated last line keeps a final `\r`. */
  function Lines(s: string): seq<string>
    decreases |s|
  {
    if s == "" then []
    else
      var i := IndexOf(s, '\n');
      if i == |s| then [s] else [StripCarriageReturn(s[..i])] + Lines(s[i + 1..])
  }

  predicate WholeLines(s: string) {
    s == "" || s[|s| - 1] == '\n'
  }

  lemma {:induction false} LinesHead(p: string, rest: string)
    requires '\n' !in p
    ensures Lines(p + "\n" + rest) == [StripCarriageReturn(p)] + Lines(rest)
  {
    var s := p + "\n" + rest;
    assert s[..|p|] == p;
    IndexOfIsFirst(s, '\n', |p|);
    assert s[|p| + 1..] == rest;
  }

  lemma LinesAfterCut(a: string, b: string, i: nat)
    requires i < |a| && IndexOf(a, '\n') == i
    ensures Lines(a + b) == [StripCarriageReturn(a[..i])] + Lines(a[i + 1..] + b)
  {
    IndexOfIsFirst(a + b, '\n', i);
    assert (a + b)[..i] == a[..i];
    assert (a + b)[i + 1..] == a[i + 1..] + b;
  }

  lemma LinesCutStep(a: string, b: string, i: nat)
    requires i < |a| && IndexOf(a, '\n') == i
    requires Lines(a[i + 1..] + b) == Lines(a[i + 1..]) + Lines(b)
    ensures Lines(a + b) == Lines(a) + Lines(b)
  {
    var rest := a[i + 1..];
    LinesAfterCut(a, b, i);
    Regroup(Lines(a + b), StripCarriageReturn(a[..i]), Lines(rest), Lines(b), Lines(rest + b));
  }

  lemma {:induction false} LinesAppend(a: string, b: string)
    requires WholeLines(a)
    ensures Lines(a + b) == Lines(a) + Lines(b)
    decreases |a|
  {
    if a == "" {
      assert a + b == b;
    } else {
      assert a[|a| - 1] == '\n';
      var i := IndexOf(a, '\n');
      LinesAppend(a[i + 1..], b);
      LinesCutStep(a, b, i);
    }
  }

  // ---------- whitespace ----------

  /** The Unicode White_Space property, as `char::is_whitespace` uses it. */
  predicate IsWhitespace(c: char) {
    var v := c as int;
    9 <= v <= 13 || v == 0x20 || v == 0x85 || v == 0xA0 || v == 0x1680
    || 0x2000 <= v <= 0x200A || v == 0x2028 || v == 0x2029 || v == 0x202F
    || v == 0x205F || v == 0x3000
  }

  /** All of them, in order. */
  const WHITE_SPACE := "\U{9}\U{A}\U{B}\U{C}\U{D}\U{20}\U{85}\U{A0}\U{1680}\U{2000}\U{2001}\U{2002}\U{2003}"
    + "\U{2004}\U{2005}\U{2006}\U{2007}\U{2008}\U{2009}\U{200A}\U{2028}\U{2029}\U{202F}\U{205F}\U{3000}"

  lemma WhitespaceMeaning(c: char)
    ensures IsWhitespace(c) <==> c in WHITE_SPACE
  {
  }

  function TrimStart(s: string): string {
    if s != "" && IsWhitespace(s[0]) then TrimStart(s[1..]) else s
  }

  function TrimEnd(s: string): string {
    if s != "" && IsWhitespace(s[|s| - 1]) then TrimEnd(s[..|s| - 1]) else s
  }

  function Trim(s: string): string {
    TrimEnd(TrimStart(s))
  }

  predicate Trimmed(s: string) {
    s == "" || (!IsWhitespace(s[0]) && !IsWhitespace(s[|s| - 1]))
  }

  /** The length of the leading run without whitespace. */
  function WordLength(s: string): (n: nat)
    ensures n <= |s|
    ensures forall k :: 0 <= k < n ==> !IsWhitespace(s[k])
    ensures n < |s| ==> IsWhitespace(s[n])
  {
    if s == "" || IsWhitespace(s[0]) then 0 else 1 + WordLength(s[1..])
  }

  predicate AllSpace(s: string) {
    forall k :: 0 <= k < |s| ==> IsWhitespace(s[k])
  }

  lemma {:induction false} TrimStartDrops(space: string, rest: string)
    requires AllSpace(space) && (rest == "" || !IsWhitespace(rest[0]))
    ensures TrimStart(space + rest) == rest
    decreases |space|
  {
    if space == "" {
      assert space + rest == rest;
    } else {
      assert (space + rest)[1..] == space[1..] + rest;
      TrimStartDrops(space[1..], rest);
    }
  }

  lemma {:induction false} TrimEndDrops(rest: string, space: string)
    requires AllSpace(space) && (rest == "" || !IsWhitespace(rest[|rest| - 1]))
    ensures TrimEnd(rest + space) == rest
    decreases |space|
  {
    if space == "" {
      assert rest + space == rest;
    } else {
      assert (rest + space)[..|rest + space| - 1] == rest + space[..|space| - 1];
      TrimEndDrops(rest, space[..|space| - 1]);
    }
  }

  /** Trimming removes exactly the white space around a trimmed text. */
  lemma TrimAround(before: string, s: string, after: string)
    requires AllSpace(before) && AllSpace(after) && Trimmed(s)
    ensures Trim(before + s + after) == s
  {
    if s == "" {
      TrimStartDrops(before + s + after, "");
      assert before + s + after + "" == before + s + after;
    } else {
      assert before + s + after == before + (s + after);
      TrimStartDrops(before, s + after);
      TrimEndDrops(s, after);
    }
  }

  lemma {:induction false} TrimEndCut(s: string) returns (space: string)
    ensures AllSpace(space) && s == TrimEnd(s) + space
    ensures TrimEnd(s) == "" || (!IsWhitespace(TrimEnd(s)[|TrimEnd(s)| - 1]) && TrimEnd(s)[0] == s[0])
    decreases |s|
  {
    if s != "" && IsWhitespace(s[|s| - 1]) {
      var rest := TrimEndCut(s[..|s| - 1]);
      space := rest + [s[|s| - 1]];
    } else {
      space := "";
    }
  }

  /** Every text is its trimmed form with white space around it. */
  lemma CutAround(s: string) returns (before: string, after: string)
    ensures AllSpace(before) && AllSpace(after) && Trimmed(Trim(s)) && s == before + Trim(s) + after
  {
    before := TrimStartCut(s);
    after := TrimEndCut(TrimStart(s));
    TrimStartShortens(s);
  }

  lemma {:induction false} TrimStartCut(s: string) returns (space: string)
    ensures AllSpace(space) && s == space + TrimStart(s)
    decreases |s|
  {
    if s != "" && IsWhitespace(s[0]) {
      var rest := TrimStartCut(s[1..]);
      space := [s[0]] + rest;
    } else {
      space := "";
    }
  }

  /** `s` is `core`, which has no white space at its ends, with white space around it. */
  ghost predicate IsPadded(s: string, core: string) {
    exists before, after :: AllSpace(before) && AllSpace(after) && Trimmed(core) && s == before + core + after
  }

  lemma TrimMeaning(s: string, core: string)
    ensures Trim(s) == core <==> IsPadded(s, core)
  {
    var before, after := CutAround(s);
    assert IsPadded(s, Trim(s));
    if IsPadded(s, core) {
      var x, y :| AllSpace(x) && AllSpace(y) && Trimmed(core) && s == x + core + y;
      TrimAround(x, core, y);
    }
  }

  lemma {:induction s} TrimStartShortens(s: string)
    ensures |TrimStart(s)| <= |s|
    ensures TrimStart(s) != "" ==> !IsWhitespace(TrimStart(s)[0])
  {
  }

  /** `s.split_whitespace()`. */
  function SplitWhitespace(s: string): seq<string>
    decreases |s|
  {
    TrimStartShortens(s);
    var t := TrimStart(s);
    if t == "" then []
    else
      var n := WordLength(t);
      assert n > 0;
      [t[..n]] + SplitWhitespace(t[n..])
  }

  lemma {:induction s} TrimEndKeepsStart(s: string)
    requires s != "" && !IsWhitespace(s[0])
    ensures TrimEnd(s) != ""
  {
  }

  lemma BlankHasNoWords(s: string)
    requires Trim(s) == ""
    ensures SplitWhitespace(s) == []
  {
    TrimStartShortens(s);
    if TrimStart(s) != "" { TrimEndKeepsStart(TrimStart(s)); }
  }

  predicate IsWord(s: string) {
    s != "" && forall c :: c in s ==> !IsWhitespace(c)
  }

  lemma {:induction false} WordThenSpace(w: string, rest: string)
    requires IsWord(w)
    requires rest == "" || IsWhitespace(rest[0])
    ensures SplitWhitespace(w + rest) == [w] + SplitWhitespace(rest)
  {
    var s := w + rest;
    assert s[0] == w[0];
    assert !IsWhitespace(s[0]);
    var n := WordLength(s);
    assert forall k :: 0 <= k < |w| ==> s[k] == w[k] && w[k] in w;
    assert rest != "" ==> s[|w|] == rest[0];
    assert s[..n] == w && s[n..] == rest;
  }

  lemma {:induction false} SplitSpace(space: string)
    requires AllSpace(space)
    ensures SplitWhitespace(space) == []
  {
    TrimStartDrops(space, "");
    assert space + "" == space;
  }

  lemma SplitLeadingSpace(space: string, rest: string)
    requires AllSpace(space) && (rest == "" || !IsWhitespace(rest[0]))
    ensures SplitWhitespace(space + rest) == SplitWhitespace(rest)
  {
    TrimStartDrops(space, rest);
    TrimStartDrops("", rest);
    assert "" + rest == rest;
  }

  /** Space, a word, space, a word, space: split into the two words. */
  lemma SplitTwoWords(lead: string, a: string, gap: string, b: string, tail: string)
    requires AllSpace(lead) && AllSpace(gap) && AllSpace(tail) && gap != ""
    requires IsWord(a) && IsWord(b)
    ensures SplitWhitespace(lead + (a + (gap + (b + tail)))) == [a, b]
  {
    assert a[0] in a && b[0] in b;
    SplitLeadingSpace(lead, a + (gap + (b + tail)));
    WordThenSpace(a, gap + (b + tail));
    SplitLeadingSpace(gap, b + tail);
    WordThenSpace(b, tail);
    SplitSpace(tail);
  }

  /** The first word of a text and what surrounds it. */
  lemma FirstWord(s: string) returns (space: string, rest: string)
    requires SplitWhitespace(s) != []
    ensures var a := SplitWhitespace(s)[0];
            && s != "" && AllSpace(space) && IsWord(a) && s == space + (a + rest)
            && (rest == "" || IsWhitespace(rest[0]))
            && SplitWhitespace(rest) == SplitWhitespace(s)[1..]
            && (IsWhitespace(s[0]) ==> space != "")
  {
    space := TrimStartCut(s);
    TrimStartShortens(s);
    var t := TrimStart(s);
    var n := WordLength(t);
    rest := t[n..];
    assert t == t[..n] + rest;
  }

  /** A text that splits into two words has that shape. */
  lemma CutTwoWords(s: string) returns (lead: string, gap: string, tail: string)
    requires |SplitWhitespace(s)| == 2
    ensures var a, b := SplitWhitespace(s)[0], SplitWhitespace(s)[1];
            && AllSpace(lead) && AllSpace(gap) && AllSpace(tail) && gap != "" && IsWord(a) && IsWord(b)
            && s == lead + (a + (gap + (b + tail)))
  {
    var rest, after;
    lead, rest := FirstWord(s);
    gap, after := FirstWord(rest);
    tail := TrimStartCut(after);
    TrimStartShortens(after);
    assert TrimStart(after) == "";
    assert after == tail;
  }

  // ---------- ASCII case ----------

  function LowerChar(c: char): char {
    if 'A' <= c <= 'Z' then (c as int + 32) as char else c
  }

  /** `s.to_ascii_lowercase()`. */
  function Lower(s: string): (r: string)
    ensures |r| == |s|
    ensures forall k :: 0 <= k < |s| ==> r[k] == LowerChar(s[k])
  {
    seq(|s|, k requires 0 <= k < |s| => LowerChar(s[k]))
  }

  /** `a.eq_ignore_ascii_case(b)`. */
  predicate EqIgnoreCase(a: string, b: string) {
    Lower(a) == Lower(b)
  }

  /** The same letter, or the capital and the small form of one of the 26. */
  predicate SameLetter(a: char, b: char) {
    || a == b
    || ('A' <= a <= 'Z' && b as int == a as int + 32)
    || ('A' <= b <= 'Z' && a as int == b as int + 32)
  }

  /** Equal ignoring case: as long, and the same letter at every place. Nothing outside ASCII is folded. */
  lemma EqIgnoreCaseMeaning(a: string, b: string)
    ensures EqIgnoreCase(a, b) <==> |a| == |b| && forall k :: 0 <= k < |a| ==> SameLetter(a[k], b[k])
  {
    if EqIgnoreCase(a, b) {
      forall k | 0 <= k < |a|
        ensures SameLetter(a[k], b[k])
      {
        assert Lower(a)[k] == Lower(b)[k];
      }
    }
  }

  predicate IsDigit(c: char) {
    '0' <= c <= '9'
  }

  /** A run of digits. */
  predicate IsNumber(s: string) {
    s != "" && forall c :: c in s ==> '0' <= c <= '9'
  }

  lemma DigitMeaning(c: char)
    ensures IsDigit(c) <==> c in "0123456789"
  {
  }
}
