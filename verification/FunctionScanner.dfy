/** The scanner of bridge_node_mode_routing.rs that cuts one function out of a source text: it
    follows braces, and skips string literals with their escapes. */
module FunctionScanner {
  import opened Wrappers
  import opened Text

  const NEWLINE: byte := 10
  const DOUBLE_QUOTE: byte := 34
  const SINGLE_QUOTE: byte := 39
  const BACKSLASH: byte := 92
  const BACKTICK: byte := 96
  const OPEN_BRACE: byte := 123
  const CLOSE_BRACE: byte := 125

  predicate IsQuote(b: byte) {
    b == DOUBLE_QUOTE || b == SINGLE_QUOTE || b == BACKTICK
  }

  // ---------- the reading of a text as a nesting of braces ----------

  /** The index just after the literal whose characters start at `i`; a backslash takes the next
      byte with it. The length when the literal does not end. */
  function AfterLiteral(s: seq<byte>, i: nat, quote: byte): (j: nat)
    requires i <= |s|
    ensures i <= j <= |s|
    decreases |s| - i
  {
    if i == |s| then i
    else if s[i] == BACKSLASH then (if i + 1 == |s| then |s| else AfterLiteral(s, i + 2, quote))
    else if s[i] == quote then i + 1
    else AfterLiteral(s, i + 1, quote)
  }

  /** items ::= (literal | block | other byte)*, up to a closing brace: the index of that brace. */
  function Items(s: seq<byte>, i: nat): (r: Option<nat>)
    requires i <= |s|
    ensures r.Some? ==> i <= r.value < |s| && s[r.value] == CLOSE_BRACE
    decreases |s| - i
  {
    if i == |s| then None
    else if s[i] == CLOSE_BRACE then Some(i)
    else if IsQuote(s[i]) then Items(s, AfterLiteral(s, i + 1, s[i]))
    else if s[i] == OPEN_BRACE then
      match Items(s, i + 1)
      case None => None
      case Some(j) => Items(s, j + 1)
    else Items(s, i + 1)
  }

  /** block ::= '{' items '}': the index just after it. */
  function Block(s: seq<byte>, i: nat): (r: Option<nat>)
    requires i < |s| && s[i] == OPEN_BRACE
    ensures r.Some? ==> i + 1 < r.value <= |s|
  {
    match Items(s, i + 1)
    case None => None
    case Some(j) => Some(j + 1)
  }

  /** Closing `depth` open blocks from `i`. */
  function CloseAll(s: seq<byte>, i: nat, depth: nat): Option<nat>
    requires i <= |s| && depth > 0
    decreases depth
  {
    match Items(s, i)
    case None => None
    case Some(j) => if depth == 1 then Some(j + 1) else CloseAll(s, j + 1, depth - 1)
  }

  // ---------- the same reading one byte at a time ----------

  datatype Mode = Code | Literal(quote: byte, escaped: bool)

  datatype Reading = Reading(depth: int, mode: Mode)

  function ReadByte(r: Reading, b: byte): Reading {
    match r.mode
    case Literal(quote, escaped) =>
      if escaped then r.(mode := Literal(quote, false))
      else if b == BACKSLASH then r.(mode := Literal(quote, true))
      else if b == quote then r.(mode := Code)
      else r
    case Code =>
      if IsQuote(b) then r.(mode := Literal(b, false))
      else if b == OPEN_BRACE then r.(depth := r.depth + 1)
      else if b == CLOSE_BRACE then r.(depth := r.depth - 1)
      else r
  }

  function ReadAll(s: seq<byte>): Reading {
    if s == [] then Reading(0, Code) else ReadByte(ReadAll(s[..|s| - 1]), s[|s| - 1])
  }

  /** The depth in force just before `end`, reading from `brace`. */
  function DepthAt(s: seq<byte>, brace: nat, end: nat): int
    requires brace <= end <= |s|
  {
    ReadAll(s[brace..end]).depth
  }

  lemma ReadNext(s: seq<byte>, brace: nat, end: nat)
    requires brace <= end < |s|
    ensures ReadAll(s[brace..end + 1]) == ReadByte(ReadAll(s[brace..end]), s[end])
  {
    assert s[brace..end + 1][..end - brace] == s[brace..end];
  }

  /** What the byte-at-a-time state still has to close, in terms of the nested reading. */
  function Remaining(s: seq<byte>, i: nat, r: Reading): Option<nat>
    requires i <= |s| && r.depth > 0
  {
    match r.mode
    case Code => CloseAll(s, i, r.depth)
    case Literal(quote, false) => CloseAll(s, AfterLiteral(s, i, quote), r.depth)
    case Literal(quote, true) => if i == |s| then None else CloseAll(s, AfterLiteral(s, i + 1, quote), r.depth)
  }

  /** Reading one byte leaves the same end to find, or finds it. */
  lemma {:induction false} RemainingStep(s: seq<byte>, i: nat, r: Reading)
    requires i < |s| && r.depth > 0
    ensures var next := ReadByte(r, s[i]);
            && next.depth >= 0
            && Remaining(s, i, r) == (if next.depth == 0 then Some(i + 1) else Remaining(s, i + 1, next))
  {
    if r.mode.Code? && s[i] == OPEN_BRACE {
      assert CloseAll(s, i + 1, r.depth + 1) == CloseAll(s, i, r.depth);
    }
  }

  lemma RemainingAtEnd(s: seq<byte>, r: Reading)
    requires r.depth > 0
    ensures Remaining(s, |s|, r) == None
  {
  }

  /** `end` is the first place after the opening brace where every block is closed. */
  ghost predicate FirstClosed(s: seq<byte>, brace: nat, end: nat) {
    && brace < end <= |s|
    && DepthAt(s, brace, end) == 0
    && forall e :: brace < e < end ==> DepthAt(s, brace, e) >= 1
  }

  /** There is no such place; in particular when there is no opening brace at all. */
  ghost predicate NeverClosed(s: seq<byte>, brace: nat)
    requires brace <= |s|
  {
    forall e :: brace < e <= |s| ==> DepthAt(s, brace, e) >= 1
  }

  /** The scanner loop. The nested and the byte-at-a-time reading both say what it finds. */
  method FindEnd(bytes: seq<byte>, brace: nat) returns (r: Option<nat>)
    requires brace < |bytes| && bytes[brace] == OPEN_BRACE
    ensures r == Block(bytes, brace)
    ensures r.Some? ==> FirstClosed(bytes, brace, r.value)
    ensures r.None? ==> NeverClosed(bytes, brace)
  {
    var depth := 0;
    var inString := false;
    var quote: byte := 0;
    var escape := false;
    var index := brace;
    while index < |bytes|
      invariant brace <= index <= |bytes|
      invariant ReadAll(bytes[brace..index]) == Reading(depth, if inString then Literal(quote, escape) else Code)
      invariant !inString ==> !escape
      invariant index == brace ==> depth == 0 && !inString
      invariant index > brace ==>
          && 1 <= depth <= index - brace
          && Remaining(bytes, index, Reading(depth, if inString then Literal(quote, escape) else Code)) == Block(bytes, brace)
      invariant forall e :: brace < e <= index ==> DepthAt(bytes, brace, e) >= 1
    {
      ghost var before := Reading(depth, if inString then Literal(quote, escape) else Code);
      ReadNext(bytes, brace, index);
      if index > brace {
        RemainingStep(bytes, index, before);
      }
      var b := bytes[index];
      if inString {
        if escape {
          escape := false;
        } else if b == BACKSLASH {
          escape := true;
        } else if b == quote {
          inString := false;
        }
        index := index + 1;
        continue;
      }
      if IsQuote(b) {
        inString := true;
        quote := b;
        index := index + 1;
        continue;
      }
      if b == OPEN_BRACE {
        depth := depth + 1;
      } else if b == CLOSE_BRACE {
        depth := depth - 1;
        if depth == 0 {
          return Some(index + 1);
        }
      }
      index := index + 1;
    }
    RemainingAtEnd(bytes, Reading(depth, if inString then Literal(quote, escape) else Code));
    return None;
  }

  // ---------- extraction ----------

  datatype Extract = Extract(startLine: nat, endLine: nat, text: seq<byte>)

  function CountNewlines(s: seq<byte>): nat {
    multiset(s)[NEWLINE]
  }

  /** `line_number_at`. */
  function LineNumberAt(text: seq<byte>, index: nat): nat
    requires index <= |text|
  {
    CountNewlines(text[..index]) + 1
  }

  /** Where the block that belongs to a declaration at `start` ends. */
  function BodyEnd(text: seq<byte>, start: nat): (r: Option<nat>)
    requires start <= |text|
    ensures r.Some? ==> start < r.value <= |text|
  {
    var brace := start + IndexOf(text[start..], OPEN_BRACE);
    if brace == |text| then None else Block(text, brace)
  }

  function Extraction(text: seq<byte>, start: nat): Option<Extract>
    requires start <= |text|
  {
    match BodyEnd(text, start)
    case None => None
    case Some(end) => Some(Extract(LineNumberAt(text, start), LineNumberAt(text, end), text[start..end]))
  }

  /** `extract_cutby_name`, given where the first declaration pattern matched. */
  method ExtractFunction(text: seq<byte>, found: Option<nat>) returns (r: Option<Extract>)
    requires found.Some? ==> found.value <= |text|
    ensures r == if found.None? then None else Extraction(text, found.value)
    ensures r.Some? ==>
              var end := found.value + |r.value.text|;
              && end <= |text| && r.value.text == text[found.value..end]
              && FirstClosed(text, found.value + IndexOf(text[found.value..], 123), end)
              && r.value.startLine == 1 + multiset(text[..found.value])[10]
              && r.value.endLine == 1 + multiset(text[..end])[10]
    ensures r.None? && found.Some? ==> NeverClosed(text, found.value + IndexOf(text[found.value..], 123))
  {
    if found.None? {
      return None;
    }
    var start := found.value;
    var brace := start + IndexOf(text[start..], OPEN_BRACE);
    if brace == |text| {
      return None;
    }
    var end := FindEnd(text, brace);
    if end.None? {
      return None;
    }
    return Some(Extract(LineNumberAt(text, start), LineNumberAt(text, end.value), text[start..end.value]));
  }

  // ---------- stability ----------

  /** The two texts begin with the same `n` bytes. */
  ghost predicate Agree(s: seq<byte>, t: seq<byte>, n: nat) {
    n <= |s| && n <= |t| && forall k :: 0 <= k < n ==> s[k] == t[k]
  }

  /** A literal that ends is read the same in every text that begins the same way. */
  lemma {:induction false} LiteralDependsOnPrefix(s: seq<byte>, t: seq<byte>, i: nat, quote: byte)
    requires i <= |s| && AfterLiteral(s, i, quote) < |s|
    requires Agree(s, t, AfterLiteral(s, i, quote))
    ensures AfterLiteral(t, i, quote) == AfterLiteral(s, i, quote)
    decreases |s| - i
  {
    if s[i] == BACKSLASH {
      LiteralDependsOnPrefix(s, t, i + 2, quote);
    } else if s[i] != quote {
      LiteralDependsOnPrefix(s, t, i + 1, quote);
    }
  }

  lemma {:induction false} ItemsDependOnPrefix(s: seq<byte>, t: seq<byte>, i: nat)
    requires i <= |s| && Items(s, i).Some? && Agree(s, t, Items(s, i).value + 1)
    ensures Items(t, i) == Items(s, i)
    decreases |s| - i
  {
    if s[i] == CLOSE_BRACE {
    } else if IsQuote(s[i]) {
      LiteralDependsOnPrefix(s, t, i + 1, s[i]);
      ItemsDependOnPrefix(s, t, AfterLiteral(s, i + 1, s[i]));
    } else if s[i] == OPEN_BRACE {
      ItemsDependOnPrefix(s, t, i + 1);
      ItemsDependOnPrefix(s, t, Items(s, i + 1).value + 1);
    } else {
      ItemsDependOnPrefix(s, t, i + 1);
    }
  }

  lemma {:induction false} LiteralShift(s: seq<byte>, a: nat, i: nat, quote: byte)
    requires a + i <= |s|
    ensures AfterLiteral(s[a..], i, quote) + a == AfterLiteral(s, a + i, quote)
    decreases |s| - i
  {
    if a + i >= |s| {
    } else {
      assert s[a..][i] == s[a + i];
      if s[a + i] == BACKSLASH {
        if a + i + 1 < |s| { LiteralShift(s, a, i + 2, quote); }
      } else if s[a + i] != quote {
        LiteralShift(s, a, i + 1, quote);
      }
    }
  }

  function Shift(r: Option<nat>, a: nat): Option<nat> {
    match r case None => None case Some(i) => Some(i + a)
  }

  lemma {:induction false} ItemsShift(s: seq<byte>, a: nat, i: nat)
    requires a + i <= |s|
    ensures Shift(Items(s[a..], i), a) == Items(s, a + i)
    decreases |s| - i
  {
    if a + i >= |s| || s[a + i] == CLOSE_BRACE {
    } else {
      assert s[a..][i] == s[a + i];
      if IsQuote(s[a + i]) {
        LiteralShift(s, a, i + 1, s[a + i]);
        ItemsShift(s, a, AfterLiteral(s[a..], i + 1, s[a + i]));
      } else if s[a + i] == OPEN_BRACE {
        ItemsShift(s, a, i + 1);
        if Items(s, a + i + 1).Some? {
          ItemsShift(s, a, Items(s[a..], i + 1).value + 1);
        }
      } else {
        ItemsShift(s, a, i + 1);
      }
    }
  }

  /** The body end depends only on the text up to it. */
  lemma BodyEndDependsOnPrefix(s: seq<byte>, t: seq<byte>, start: nat)
    requires start <= |s| && BodyEnd(s, start).Some? && Agree(s, t, BodyEnd(s, start).value)
    ensures BodyEnd(t, start) == BodyEnd(s, start)
  {
    var offset := IndexOf(s[start..], OPEN_BRACE);
    ItemsDependOnPrefix(s, t, start + offset + 1);
    assert forall k :: 0 <= k <= offset ==> s[start..][k] == s[start + k] == t[start + k] == t[start..][k];
    IndexOfIsFirst(t[start..], OPEN_BRACE, offset);
  }

  lemma BodyEndShift(s: seq<byte>, start: nat)
    requires start <= |s|
    ensures Shift(BodyEnd(s[start..], 0), start) == BodyEnd(s, start)
  {
    var offset := IndexOf(s[start..], OPEN_BRACE);
    assert s[start..][0..] == s[start..];
    if start + offset < |s| {
      ItemsShift(s, start, offset + 1);
    }
  }

  lemma TailBody(text: seq<byte>, start: nat, other: seq<byte>, changed: seq<byte>, end: nat)
    requires start <= |text| && BodyEnd(text, start) == Some(end) && changed == text[..end] + other
    ensures BodyEnd(changed, start) == Some(end)
    ensures changed[..end] == text[..end] && changed[..start] == text[..start] && changed[start..end] == text[start..end]
  {
    BodyEndDependsOnPrefix(text, changed, start);
  }

  /** Whatever follows the extracted function does not matter. */
  lemma TailDoesNotMatter(text: seq<byte>, start: nat, extract: Extract, end: nat, other: seq<byte>)
    requires start <= |text| && Extraction(text, start) == Some(extract) && end == start + |extract.text|
    ensures end <= |text| && Extraction(text[..end] + other, start) == Some(extract)
  {
    var changed := text[..end] + other;
    TailBody(text, start, other, changed, end);
    assert LineNumberAt(changed, end) == LineNumberAt(text, end) && LineNumberAt(changed, start) == LineNumberAt(text, start);
  }

  lemma WholeTextLines(body: seq<byte>)
    ensures body[0..|body|] == body
    ensures LineNumberAt(body, 0) == 1 && LineNumberAt(body, |body|) == 1 + CountNewlines(body)
  {
    assert body[..|body|] == body && body[..0] == [];
  }

  lemma RescanBody(text: seq<byte>, start: nat, body: seq<byte>)
    requires start <= |text| && BodyEnd(text, start).Some? && body == text[start..BodyEnd(text, start).value]
    ensures BodyEnd(body, 0) == Some(|body|)
  {
    BodyEndShift(text, start);
    assert Agree(text[start..], body, |body|);
    BodyEndDependsOnPrefix(text[start..], body, 0);
  }

  /** Scanning an extract again returns all of it. */
  lemma RescanReturnsAll(text: seq<byte>, start: nat)
    requires start <= |text| && Extraction(text, start).Some?
    ensures var extract := Extraction(text, start).value;
            Extraction(extract.text, 0) == Some(Extract(1, 1 + CountNewlines(extract.text), extract.text))
  {
    var body := text[start..BodyEnd(text, start).value];
    RescanBody(text, start, body);
    WholeTextLines(body);
  }

  /** The reported line numbers differ by the newlines inside the extract. */
  lemma LineNumbersSpanExtract(text: seq<byte>, start: nat)
    requires start <= |text| && Extraction(text, start).Some?
    ensures var extract := Extraction(text, start).value;
            extract.endLine - extract.startLine == CountNewlines(extract.text)
  {
    var end := BodyEnd(text, start).value;
    assert text[..end] == text[..start] + text[start..end];
  }

  // ---------- source texts as they are written ----------

  /** One character of a literal: as it is, or after a backslash. */
  datatype Character = Raw(b: byte) | Escaped(b: byte)

  /** What stands between two braces. */
  datatype Item = Other(b: byte) | Quoted(quote: byte, characters: seq<Character>) | Braces(items: seq<Item>)

  function WriteCharacters(characters: seq<Character>): seq<byte> {
    if characters == [] then []
    else
      (match characters[0] case Raw(b) => [b] case Escaped(b) => [92, b]) + WriteCharacters(characters[1..])
  }

  function WriteItem(item: Item): seq<byte>
    decreases item
  {
    match item
    case Other(b) => [b]
    case Quoted(quote, characters) => [quote] + (WriteCharacters(characters) + [quote])
    case Braces(items) => [123] + (WriteItems(items) + [125])
  }

  function WriteItems(items: seq<Item>): seq<byte>
    decreases items
  {
    if items == [] then [] else WriteItem(items[0]) + WriteItems(items[1..])
  }

  /** Literals are in double or single quotes or backticks; what ends one inside it is escaped. */
  predicate WellWritten(item: Item)
    decreases item
  {
    match item
    case Other(b) => b !in [34, 39, 96, 123, 125]
    case Quoted(quote, characters) =>
      quote in [34, 39, 96] && forall c :: c in characters && c.Raw? ==> c.b != quote && c.b != 92
    case Braces(items) => forall i :: i in items ==> WellWritten(i)
  }

  /** `part` stands at `i`. */
  predicate StandsAt(s: seq<byte>, i: nat, part: seq<byte>) {
    i + |part| <= |s| && s[i..i + |part|] == part
  }

  lemma StandsApart(s: seq<byte>, i: nat, a: seq<byte>, b: seq<byte>)
    requires StandsAt(s, i, a + b)
    ensures StandsAt(s, i, a) && StandsAt(s, i + |a|, b)
  {
    assert s[i..i + |a|] == (a + b)[..|a|];
    assert s[i + |a|..i + |a| + |b|] == (a + b)[|a|..];
  }

  lemma StandsFirst(s: seq<byte>, i: nat, part: seq<byte>)
    requires StandsAt(s, i, part) && part != []
    ensures i < |s| && s[i] == part[0] && StandsAt(s, i + 1, part[1..])
  {
    assert s[i] == s[i..i + |part|][0];
    assert s[i + 1..i + |part|] == s[i..i + |part|][1..];
  }

  lemma {:induction false} LiteralIsRead(s: seq<byte>, i: nat, quote: byte, characters: seq<Character>)
    requires quote in [34, 39, 96] && forall c :: c in characters && c.Raw? ==> c.b != quote && c.b != 92
    requires StandsAt(s, i, WriteCharacters(characters) + [quote])
    ensures i <= |s| && AfterLiteral(s, i, quote) == i + |WriteCharacters(characters)| + 1
    decreases |characters|
  {
    var all := WriteCharacters(characters) + [quote];
    StandsFirst(s, i, all);
    if characters == [] {
      assert all == [quote];
    } else {
      var head, rest := WriteCharacters(characters[..1]), WriteCharacters(characters[1..]);
      var after := rest + [quote];
      assert characters[0] in characters;
      match characters[0] {
        case Raw(b) =>
          assert all == [b] + after;
          StandsApart(s, i, [b], after);
          LiteralIsRead(s, i + 1, quote, characters[1..]);
        case Escaped(b) =>
          assert all == [92, b] + after;
          StandsApart(s, i, [92, b], after);
          LiteralIsRead(s, i + 2, quote, characters[1..]);
      }
    }
  }

  /** Written items are passed over as a whole, braces and quotes inside them and all. */
  lemma {:induction false} ItemIsRead(s: seq<byte>, i: nat, item: Item)
    requires WellWritten(item) && StandsAt(s, i, WriteItem(item))
    ensures Items(s, i) == Items(s, i + |WriteItem(item)|)
    decreases item
  {
    match item
    case Other(b) => StandsFirst(s, i, [b]);
    case Quoted(quote, characters) => QuotedIsRead(s, i, quote, characters);
    case Braces(items) => BracesAreRead(s, i, items);
  }

  lemma QuotedIsRead(s: seq<byte>, i: nat, quote: byte, characters: seq<Character>)
    requires WellWritten(Quoted(quote, characters)) && StandsAt(s, i, WriteItem(Quoted(quote, characters)))
    ensures Items(s, i) == Items(s, i + |WriteItem(Quoted(quote, characters))|)
  {
    var rest := WriteCharacters(characters) + [quote];
    StandsFirst(s, i, [quote] + rest);
    StandsApart(s, i, [quote], rest);
    LiteralIsRead(s, i + 1, quote, characters);
  }

  lemma {:induction false} BracesAreRead(s: seq<byte>, i: nat, items: seq<Item>)
    requires WellWritten(Braces(items)) && StandsAt(s, i, WriteItem(Braces(items)))
    ensures i < |s| && s[i] == 123 && Items(s, i + 1) == Some(i + 1 + |WriteItems(items)|)
    decreases Braces(items), 0
  {
    var inner := WriteItems(items);
    StandsFirst(s, i, [123] + (inner + [125]));
    StandsApart(s, i, [123], inner + [125]);
    StandsApart(s, i + 1, inner, [125]);
    StandsFirst(s, i + 1 + |inner|, [125]);
    ItemsAreRead(s, i + 1, items);
  }

  lemma {:induction false} ItemsAreRead(s: seq<byte>, i: nat, items: seq<Item>)
    requires (forall item :: item in items ==> WellWritten(item)) && StandsAt(s, i, WriteItems(items))
    ensures Items(s, i) == Items(s, i + |WriteItems(items)|)
    decreases items
  {
    if items == [] {
    } else {
      assert items[0] in items;
      var first, rest := WriteItem(items[0]), WriteItems(items[1..]);
      StandsApart(s, i, first, rest);
      ItemIsRead(s, i, items[0]);
      ItemsAreRead(s, i + |first|, items[1..]);
    }
  }

  lemma BodyIsFound(text: seq<byte>, start: nat, head: seq<byte>, block: seq<byte>, body: seq<Item>)
    requires 123 !in head && WellWritten(Braces(body)) && block == WriteItem(Braces(body))
    requires StandsAt(text, start, head + block)
    ensures BodyEnd(text, start) == Some(start + |head| + |block|)
  {
    StandsApart(text, start, head, block);
    BlockIsRead(text, start + |head|, block, body);
    FirstBrace(text, start, head);
  }

  lemma BlockIsRead(s: seq<byte>, i: nat, block: seq<byte>, body: seq<Item>)
    requires WellWritten(Braces(body)) && block == WriteItem(Braces(body)) && StandsAt(s, i, block)
    ensures i < |s| && s[i] == 123 && Block(s, i) == Some(i + |block|)
  {
    BracesAreRead(s, i, body);
  }

  lemma FirstBrace(text: seq<byte>, start: nat, head: seq<byte>)
    requires 123 !in head && StandsAt(text, start, head) && start + |head| < |text| && text[start + |head|] == 123
    ensures IndexOf(text[start..], OPEN_BRACE) == |head|
  {
    assert forall k :: 0 <= k < |head| ==> text[start..][k] == text[start..start + |head|][k] == head[k];
    IndexOfIsFirst(text[start..], OPEN_BRACE, |head|);
  }

  lemma Pieces(text: seq<byte>, before: seq<byte>, cut: seq<byte>, after: seq<byte>)
    requires text == before + cut + after
    ensures StandsAt(text, |before|, cut)
    ensures text[..|before|] == before && text[..|before| + |cut|] == before + cut && text[|before|..|before| + |cut|] == cut
  {
  }

  /** A function as it is written: anything before it, a head without a brace, a body in braces, anything
      after it. It is cut out from its head to the end of its body, with the lines on which both stand. */
  lemma WrittenFunctionIsExtracted(before: seq<byte>, head: seq<byte>, body: seq<Item>, cut: seq<byte>, after: seq<byte>)
    requires 123 !in head && WellWritten(Braces(body)) && cut == head + WriteItem(Braces(body))
    ensures Extraction(before + cut + after, |before|)
            == Some(Extract(1 + multiset(before)[10], 1 + multiset(before + cut)[10], cut))
  {
    Pieces(before + cut + after, before, cut, after);
    BodyIsFound(before + cut + after, |before|, head, WriteItem(Braces(body)), body);
  }
}
