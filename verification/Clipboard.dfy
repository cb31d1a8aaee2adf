/** The text side of e2e_clipboard.rs: UTF-16 in a clipboard block, and the metadata counts. */
module Clipboard {
  import opened Wrappers
  import opened Text

  // ---------- UTF-16 (RFC 2781, sections 2.1 and 2.2) ----------

  function EncodeChar(c: char): (units: seq<u16>)
    ensures 1 <= |units| <= 2
  {
    var v := c as int;
    if v < 0x1_0000 then [v as u16]
    else [(0xD800 + (v - 0x1_0000) / 0x400) as u16, (0xDC00 + (v - 0x1_0000) % 0x400) as u16]
  }

  /** `text.encode_utf16()`. */
  function Encode(text: string): seq<u16> {
    if text == "" then [] else EncodeChar(text[0]) + Encode(text[1..])
  }

  predicate IsHigh(unit: u16) {
    0xD800 <= unit < 0xDC00
  }

  predicate IsLow(unit: u16) {
    0xDC00 <= unit < 0xE000
  }

  const REPLACEMENT: char := '\U{FFFD}'

  function PairedChar(high: u16, low: u16): char
    requires IsHigh(high) && IsLow(low)
  {
    (0x1_0000 + (high as int - 0xD800) * 0x400 + (low as int - 0xDC00)) as char
  }

  /** `String::from_utf16_lossy`: an unpaired surrogate becomes U+FFFD. */
  function Decode(units: seq<u16>): string {
    if units == [] then ""
    else if IsHigh(units[0]) && |units| > 1 && IsLow(units[1]) then
      [PairedChar(units[0], units[1])] + Decode(units[2..])
    else if IsHigh(units[0]) || IsLow(units[0]) then [REPLACEMENT] + Decode(units[1..])
    else [units[0] as char] + Decode(units[1..])
  }

  /** Every surrogate is half of a pair. */
  predicate WellFormed(units: seq<u16>) {
    if units == [] then true
    else if IsHigh(units[0]) then |units| > 1 && IsLow(units[1]) && WellFormed(units[2..])
    else !IsLow(units[0]) && WellFormed(units[1..])
  }

  lemma EncodeOne(c: char, rest: seq<u16>)
    ensures Decode(EncodeChar(c) + rest) == [c] + Decode(rest)
    ensures WellFormed(EncodeChar(c) + rest) <==> WellFormed(rest)
  {
    var v := c as int;
    var all := EncodeChar(c) + rest;
    if v < 0x1_0000 {
      assert all[1..] == rest;
    } else {
      assert all[2..] == rest;
      assert v == 0x1_0000 + (v - 0x1_0000) / 0x400 * 0x400 + (v - 0x1_0000) % 0x400;
      assert PairedChar(all[0], all[1]) == c;
    }
  }

  /** Decoding an encoding gives the text back. */
  lemma {:induction false} DecodeEncode(text: string)
    ensures Decode(Encode(text)) == text
    ensures WellFormed(Encode(text))
    decreases |text|
  {
    if text == "" {
    } else {
      DecodeEncode(text[1..]);
      EncodeOne(text[0], Encode(text[1..]));
    }
  }

  lemma {:induction false} DecodeThenEncode(units: seq<u16>)
    requires WellFormed(units)
    ensures Encode(Decode(units)) == units
    decreases |units|
  {
    if units == [] {
    } else {
      if IsHigh(units[0]) {
        DecodeThenEncode(units[2..]);
        var c := PairedChar(units[0], units[1]);
        assert EncodeChar(c) == units[..2];
        assert Decode(units)[1..] == Decode(units[2..]);
        assert units == units[..2] + units[2..];
      } else {
        DecodeThenEncode(units[1..]);
        assert EncodeChar(units[0] as char) == units[..1];
        assert Decode(units)[1..] == Decode(units[1..]);
        assert units == units[..1] + units[1..];
      }
    }
  }

  /** The units of a character: itself, or a high and a low surrogate with ten bits each (RFC 2781, section
      2.1). */
  lemma UnitsOfCharacter(c: char)
    ensures var units := EncodeChar(c);
            if c as int < 0x1_0000 then |units| == 1 && units[0] as int == c as int
            else
              && |units| == 2 && 0xD800 <= units[0] < 0xDC00 && 0xDC00 <= units[1] < 0xE000
              && c as int == 0x1_0000 + (units[0] as int - 0xD800) * 0x400 + (units[1] as int - 0xDC00)
  {
  }

  lemma {:induction false} DecodeAfterText(text: string, units: seq<u16>)
    ensures Decode(Encode(text) + units) == text + Decode(units)
    decreases |text|
  {
    if text == "" {
      assert Encode(text) + units == units;
    } else {
      DecodeAfterText(text[1..], units);
      EncodeOne(text[0], Encode(text[1..]) + units);
      assert Encode(text) + units == EncodeChar(text[0]) + (Encode(text[1..]) + units);
      assert text == [text[0]] + text[1..];
    }
  }

  /** A surrogate that is not half of a pair is read as one U+FFFD, and reading goes on after it. */
  lemma UnpairedIsReplaced(text: string, unit: u16, units: seq<u16>)
    requires 0xD800 <= unit < 0xE000
    requires unit >= 0xDC00 || units == [] || !(0xDC00 <= units[0] < 0xE000)
    ensures Decode(Encode(text) + ([unit] + units)) == text + ("\U{FFFD}" + Decode(units))
  {
    DecodeAfterText(text, [unit] + units);
    assert ([unit] + units)[1..] == units;
  }

  /** Reading loses nothing exactly when the units are well formed. */
  lemma {:induction false} LossyDecodingIsLossless(units: seq<u16>)
    ensures Encode(Decode(units)) == units <==> WellFormed(units)
  {
    if WellFormed(units) {
      DecodeThenEncode(units);
    } else {
      DecodeEncode(Decode(units));
    }
  }

  // ---------- the clipboard block ----------

  /** The text before the first U+0000, or all of it. */
  function UpToNul(text: string): string {
    text[..IndexOf(text, '\0')]
  }

  /** The first zero unit of an encoding followed by a zero is where the encoding of the text before
      its first U+0000 ends. */
  lemma {:induction false} FirstZeroUnit(text: string, tail: seq<u16>)
    requires tail != [] && tail[0] == 0
    ensures var n := |Encode(UpToNul(text))|;
            IndexOf(Encode(text) + tail, 0) == n && (Encode(text) + tail)[..n] == Encode(UpToNul(text))
    decreases |text|
  {
    if text == "" {
      assert Encode(text) + tail == tail;
    } else if text[0] == '\0' {
      assert (Encode(text) + tail)[0] == 0;
    } else {
      FirstZeroUnit(text[1..], tail);
      UpToNulStep(text);
      NonZeroUnits(text[0]);
      FirstZeroStep(EncodeChar(text[0]), Encode(text[1..]), tail, |Encode(UpToNul(text[1..]))|);
    }
  }

  lemma FirstZeroStep(head: seq<u16>, units: seq<u16>, tail: seq<u16>, n: nat)
    requires forall k :: 0 <= k < |head| ==> head[k] != 0
    requires n <= |units + tail| && IndexOf(units + tail, 0) == n
    ensures IndexOf((head + units) + tail, 0) == |head| + n
    ensures ((head + units) + tail)[..|head| + n] == head + (units + tail)[..n]
  {
    assert (head + units) + tail == head + (units + tail);
    SkipNonZero(head, units + tail);
  }

  lemma UpToNulStep(text: string)
    requires text != "" && text[0] != '\0'
    ensures Encode(UpToNul(text)) == EncodeChar(text[0]) + Encode(UpToNul(text[1..]))
  {
    assert UpToNul(text) == [text[0]] + UpToNul(text[1..]);
    assert UpToNul(text)[1..] == UpToNul(text[1..]);
  }

  lemma NonZeroUnits(c: char)
    requires c != '\0'
    ensures forall k :: 0 <= k < |EncodeChar(c)| ==> EncodeChar(c)[k] != 0
  {
  }

  lemma SkipNonZero(head: seq<u16>, tail: seq<u16>)
    requires forall k :: 0 <= k < |head| ==> head[k] != 0
    ensures IndexOf(head + tail, 0) == |head| + IndexOf(tail, 0)
  {
    var i := IndexOf(tail, 0);
    if i < |tail| {
      IndexOfIsFirst(head + tail, 0, |head| + i);
    } else {
      assert forall k :: 0 <= k < |head + tail| ==> (head + tail)[k] != 0;
    }
  }

  /** `write_clipboard_text`: the encoding and a terminator into a zero-initialised block, which the
      system may have made larger than asked for. */
  method WriteClipboardText(text: string, slack: nat) returns (block: array<u16>)
    ensures fresh(block)
    ensures block[..] == Encode(text) + [0] + seq(slack, _ => 0)
  {
    var units := Encode(text) + [0];
    block := new u16[|units| + slack](_ => 0);
    forall k | 0 <= k < |units| {
      block[k] := units[k];
    }
    assert block[..] == units + seq(slack, _ => 0);
  }

  /** `read_clipboard_text` of a block: up to the first zero unit, or to its end. */
  method ReadClipboardText(block: array<u16>) returns (r: Result<string, ()>)
    ensures r == if block.Length == 0 then Err(()) else Ok(Decode(block[..IndexOf(block[..], 0)]))
  {
    if block.Length == 0 {
      return Err(());
    }
    var length := 0;
    while length < block.Length && block[length] != 0
      invariant 0 <= length <= block.Length
      invariant forall k :: 0 <= k < length ==> block[k] != 0
    {
      length := length + 1;
    }
    if length < block.Length {
      IndexOfIsFirst(block[..], 0, length);
    }
    return Ok(Decode(block[..length]));
  }

  /** Writing and reading back returns the text up to its first U+0000, whatever the padding; a text
      without U+0000 comes back whole. */
  lemma ClipboardRoundTrip(text: string, slack: nat)
    ensures var block := Encode(text) + [0] + seq(slack, _ => 0 as u16);
            && Decode(block[..IndexOf(block, 0)]) == UpToNul(text)
            && ('\0' !in text ==> Decode(block[..IndexOf(block, 0)]) == text)
  {
    var tail := [0] + seq(slack, _ => 0 as u16);
    assert Encode(text) + tail == Encode(text) + [0] + seq(slack, _ => 0 as u16);
    FirstZeroUnit(text, tail);
    DecodeEncode(UpToNul(text));
  }

  /** How many characters lie beyond the basic plane. */
  function Supplementary(text: string): nat {
    if text == "" then 0 else (if text[0] as int >= 0x1_0000 then 1 else 0) + Supplementary(text[1..])
  }

  /** `utf16_len` is one unit a character and one more for each beyond the basic plane; it is additive. */
  lemma {:induction false} Utf16Length(a: string, b: string)
    ensures |Encode(a)| == |a| + Supplementary(a)
    ensures |Encode(a + b)| == |Encode(a)| + |Encode(b)|
    decreases |a|
  {
    if a == "" {
      assert a + b == b;
    } else {
      Utf16Length(a[1..], b);
      assert (a + b)[1..] == a[1..] + b;
    }
  }

  // ---------- line count ----------

  /** `text.replace("\r\n", "\n")`. */
  function ReplaceCrLf(s: string): string {
    if s == "" then ""
    else if s[0] == '\r' && |s| > 1 && s[1] == '\n' then "\n" + ReplaceCrLf(s[2..])
    else [s[0]] + ReplaceCrLf(s[1..])
  }

  /** `text.replace('\r', "\n")`. */
  function ReplaceCr(s: string): string {
    if s == "" then "" else [if s[0] == '\r' then '\n' else s[0]] + ReplaceCr(s[1..])
  }

  /** `line_count`. */
  function LineCount(text: string): nat {
    if text == "" then 0 else |Split(ReplaceCr(ReplaceCrLf(text)), '\n')|
  }

  /** Line breaks counted in one pass; a line feed right after a carriage return is not another. */
  function Breaks(s: string, afterCr: bool): nat {
    if s == "" then 0
    else if s[0] == '\r' then 1 + Breaks(s[1..], true)
    else if s[0] == '\n' then (if afterCr then 0 else 1) + Breaks(s[1..], false)
    else Breaks(s[1..], false)
  }

  function Count(s: string, c: char): nat {
    if s == "" then 0 else (if s[0] == c then 1 else 0) + Count(s[1..], c)
  }

  /** How often a carriage return is directly followed by a line feed. */
  function CountCrLf(s: string): nat {
    if |s| < 2 then 0 else (if s[0] == '\r' && s[1] == '\n' then 1 else 0) + CountCrLf(s[1..])
  }

  lemma {:induction false} CountIsMultiplicity(s: string, c: char)
    ensures Count(s, c) == multiset(s)[c]
    decreases |s|
  {
    if s == "" {
    } else {
      CountIsMultiplicity(s[1..], c);
      assert s == [s[0]] + s[1..];
    }
  }

  lemma {:induction false} SplitCount(s: string, sep: char)
    ensures |Split(s, sep)| == 1 + Count(s, sep)
    decreases |s|
  {
    var i := IndexOf(s, sep);
    CountUntil(s, sep);
    if i < |s| {
      SplitCount(s[i + 1..], sep);
      assert |Split(s, sep)| == 1 + |Split(s[i + 1..], sep)|;
    } else {
      assert |Split(s, sep)| == 1;
    }
  }

  lemma {:induction false} CountUntil(s: string, c: char)
    ensures var i := IndexOf(s, c); Count(s, c) == if i == |s| then 0 else 1 + Count(s[i + 1..], c)
    decreases |s|
  {
    if s == "" || s[0] == c {
    } else {
      CountUntil(s[1..], c);
      var i := IndexOf(s[1..], c);
      assert i < |s[1..]| ==> s[1..][i + 1..] == s[i + 2..];
    }
  }

  lemma {:induction false} ReplacementsCountBreaks(s: string)
    ensures Count(ReplaceCr(ReplaceCrLf(s)), '\n') == Breaks(s, false)
    decreases |s|
  {
    if s == "" {
    } else {
      if s[0] == '\r' && |s| > 1 && s[1] == '\n' {
        ReplacementsCountBreaks(s[2..]);
        assert ReplaceCrLf(s)[1..] == ReplaceCrLf(s[2..]);
        assert s[1..][1..] == s[2..];
      } else {
        ReplacementsCountBreaks(s[1..]);
        assert ReplaceCrLf(s)[1..] == ReplaceCrLf(s[1..]);
      }
    }
  }

  lemma {:induction false} BreaksCounted(s: string, afterCr: bool)
    ensures Breaks(s, afterCr) + CountCrLf(s) + (if afterCr && s != "" && s[0] == '\n' then 1 else 0)
            == Count(s, '\r') + Count(s, '\n')
    decreases |s|
  {
    if s == "" {
    } else {
      BreaksCounted(s[1..], s[0] == '\r');
    }
  }

  /** The two replacements and the split agree with the single pass, and with the plain counts. */
  lemma LineCountIsOnePass(text: string)
    ensures LineCount(text) == if text == "" then 0 else 1 + Breaks(text, false)
    ensures text != "" ==> LineCount(text) + CountCrLf(text) == 1 + multiset(text)['\r'] + multiset(text)['\n']
  {
    CountIsMultiplicity(text, '\r');
    CountIsMultiplicity(text, '\n');
    SplitCount(ReplaceCr(ReplaceCrLf(text)), '\n');
    ReplacementsCountBreaks(text);
    BreaksCounted(text, false);
  }

  lemma {:induction false} BreaksAppend(a: string, b: string, afterCr: bool)
    requires a != ""
    ensures Breaks(a + b, afterCr) == Breaks(a, afterCr) + Breaks(b, a[|a| - 1] == '\r')
    decreases |a|
  {
    assert (a + b)[1..] == a[1..] + b;
    if |a| == 1 {
      assert a[1..] + b == b;
      assert Breaks(a[1..], true) == 0 == Breaks(a[1..], false);
    } else {
      BreaksAppend(a[1..], b, a[0] == '\r');
    }
  }

  /** Joining two texts joins their last and first line, and a line break formed at the joint counts once. */
  lemma LineCountOfConcat(a: string, b: string)
    requires a != "" && b != ""
    ensures LineCount(a + b)
            == LineCount(a) + LineCount(b) - (if a[|a| - 1] == '\r' && b[0] == '\n' then 2 else 1)
  {
    LineCountIsOnePass(a);
    LineCountIsOnePass(b);
    LineCountIsOnePass(a + b);
    BreaksAppend(a, b, false);
  }
}
