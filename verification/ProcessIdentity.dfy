/** Process identity as e2e_owned_process.rs compares it: a normalised executable path and a
    start time in Unix seconds, converted from a FILETIME. */
module ProcessIdentity {
  import opened Wrappers
  import Text

  newtype u32 = x: int | 0 <= x < 0x1_0000_0000
  newtype u64 = x: int | 0 <= x < 0x1_0000_0000_0000_0000
  newtype i64 = x: int | -0x8000_0000_0000_0000 <= x < 0x8000_0000_0000_0000

  const TICKS_PER_SECOND: u64 := 10_000_000
  const WINDOWS_TO_UNIX_EPOCH_SECONDS: u64 := 11_644_473_600

  // ---------- FILETIME ----------

  /** A FILETIME: 100 ns ticks since 1601 in two 32-bit words. */
  datatype Filetime = Filetime(high: u32, low: u32)

  /** `(high << 32) | low`; JoinedBits shows the shift and the or are this sum. */
  function Ticks(f: Filetime): u64 {
    f.high as u64 * 0x1_0000_0000 + f.low as u64
  }

  /** The 64-bit shift loses no bit and the or adds without a carry. */
  lemma JoinedBits(high: bv64, low: bv64)
    requires high < 0x1_0000_0000 && low < 0x1_0000_0000
    ensures (high << 32) | low == high * 0x1_0000_0000 + low
    ensures ((high << 32) | low) / 0x1_0000_0000 == high
    ensures ((high << 32) | low) % 0x1_0000_0000 == low
  {
  }

  /** `filetime_to_unix_seconds`. */
  function UnixSeconds(f: Filetime): Option<i64> {
    var seconds := Ticks(f) / TICKS_PER_SECOND;
    if seconds < WINDOWS_TO_UNIX_EPOCH_SECONDS then None
    else Some((seconds - WINDOWS_TO_UNIX_EPOCH_SECONDS) as i64)
  }

  /** The tick count of a FILETIME as a number without a machine width. */
  function WideTicks(f: Filetime): nat {
    f.high as int * 0x1_0000_0000 + f.low as int
  }

  /** Conversion is exact division into a small range, fails exactly before 1970, and keeps order. */
  lemma FiletimeConversion(f: Filetime, g: Filetime)
    ensures UnixSeconds(f).None? <==> WideTicks(f) < 116_444_736_000_000_000
    ensures UnixSeconds(f).Some? ==>
              var s := UnixSeconds(f).value as int;
              && 0 <= s < 1_833_029_933_771
              && 10_000_000 * (s + 11_644_473_600) <= WideTicks(f) < 10_000_000 * (s + 11_644_473_601)
    ensures UnixSeconds(f).Some? && WideTicks(f) <= WideTicks(g) ==>
              UnixSeconds(g).Some? && UnixSeconds(f).value <= UnixSeconds(g).value
  {
    assert (Ticks(f) / TICKS_PER_SECOND) as int == WideTicks(f) / 10_000_000;
    assert (Ticks(g) / TICKS_PER_SECOND) as int == WideTicks(g) / 10_000_000;
  }

  // ---------- the two-second tolerance ----------

  /** What `(actual - expected).abs() <= 2` does on i64. Overflow panics in a build with overflow
      checks and wraps in one without them. */
  datatype TimeVerdict = Near | Far | Overflow

  /** The i64 with the same low 64 bits, for a sum or difference of two i64. */
  function Wrap(x: int): i64
    requires -0x1_0000_0000_0000_0000 < x < 0x1_0000_0000_0000_0000
  {
    if x >= 0x8000_0000_0000_0000 then (x - 0x1_0000_0000_0000_0000) as i64
    else if x < -0x8000_0000_0000_0000 then (x + 0x1_0000_0000_0000_0000) as i64
    else x as i64
  }

  predicate InRange(x: int) {
    -0x8000_0000_0000_0000 <= x < 0x8000_0000_0000_0000
  }

  function CompareTimes(actual: i64, expected: i64, overflowChecks: bool): TimeVerdict {
    var difference := actual as int - expected as int;
    var magnitude := if Wrap(difference) < 0 then -(Wrap(difference) as int) else Wrap(difference) as int;
    if overflowChecks && (!InRange(difference) || !InRange(magnitude)) then Overflow
    else if Wrap(magnitude) <= 2 then Near
    else Far
  }

  /** The exact meaning of the comparison for every converted start time. Without overflow checks
      one far pair is accepted: a difference of exactly 2^63, whose absolute value wraps to itself. */
  lemma CompareTimesExact(actual: i64, expected: i64, overflowChecks: bool)
    requires 0 <= actual < 1_833_029_933_771
    ensures CompareTimes(actual, expected, overflowChecks) == Overflow
            <==> overflowChecks && actual as int - expected as int >= 0x8000_0000_0000_0000
    ensures CompareTimes(actual, expected, overflowChecks) == Near
            <==> -2 <= actual as int - expected as int <= 2
                 || (!overflowChecks && actual as int - expected as int == 0x8000_0000_0000_0000)
  {
  }

  /** The comparison in ticks, exactly. Start times at most two seconds apart always compare as
      near and those three seconds or more apart as far; in between it depends on how far the
      earlier one is into its second. */
  lemma ToleranceOnTicks(f: Filetime, g: Filetime, overflowChecks: bool)
    requires UnixSeconds(f).Some? && UnixSeconds(g).Some?
    requires WideTicks(g) <= WideTicks(f)
    ensures var forward := CompareTimes(UnixSeconds(f).value, UnixSeconds(g).value, overflowChecks);
            var backward := CompareTimes(UnixSeconds(g).value, UnixSeconds(f).value, overflowChecks);
            var apart := WideTicks(f) - WideTicks(g);
            && forward == backward != Overflow
            && (forward == Near <==> WideTicks(g) % 10_000_000 + apart < 30_000_000)
            && (apart <= 20_000_000 ==> forward == Near)
            && (apart >= 30_000_000 ==> forward == Far)
  {
    FiletimeConversion(f, g);
    FiletimeConversion(g, f);
    CompareTimesExact(UnixSeconds(f).value, UnixSeconds(g).value, overflowChecks);
    CompareTimesExact(UnixSeconds(g).value, UnixSeconds(f).value, overflowChecks);
  }

  // ---------- identities ----------

  predicate IsSlash(c: char) {
    c == '\\' || c == '/'
  }

  predicate EndsInSlash(s: string) {
    s != "" && IsSlash(s[|s| - 1])
  }

  function DropTrailingSlashes(s: string): string {
    if EndsInSlash(s) then DropTrailingSlashes(s[..|s| - 1]) else s
  }

  const LONG_PATH := "\\\\?\\"

  /** What is left of an executable: no white space around it, no long-path prefix, no slashes after it. */
  function BarePath(value: string): string {
    var text := Text.Trim(value);
    DropTrailingSlashes(if Text.StartsWith(text, LONG_PATH) then text[4..] else text)
  }

  /** `normalize_executable`: the key under which executables are compared. */
  function NormalizeExecutable(value: string): string {
    Text.Lower(BarePath(value))
  }

  predicate AllSlashes(s: string) {
    forall k :: 0 <= k < |s| ==> IsSlash(s[k])
  }

  lemma {:induction false} DropTrailingSlashesOf(path: string, slashes: string)
    requires AllSlashes(slashes) && !EndsInSlash(path)
    ensures DropTrailingSlashes(path + slashes) == path
    decreases |slashes|
  {
    if slashes == "" {
      assert path + slashes == path;
    } else {
      assert (path + slashes)[..|path + slashes| - 1] == path + slashes[..|slashes| - 1];
      DropTrailingSlashesOf(path, slashes[..|slashes| - 1]);
    }
  }

  lemma {:induction false} CutTrailingSlashes(s: string) returns (slashes: string)
    ensures AllSlashes(slashes) && s == DropTrailingSlashes(s) + slashes && !EndsInSlash(DropTrailingSlashes(s))
    decreases |s|
  {
    if EndsInSlash(s) {
      var fewer := CutTrailingSlashes(s[..|s| - 1]);
      slashes := fewer + [s[|s| - 1]];
    } else {
      slashes := "";
    }
  }

  /** A spelling of this path: slashes after it, the long-path prefix once or not at all before it, and
      white space around all of that. */
  predicate Spelling(value: string, before: string, prefix: string, path: string, slashes: string, after: string) {
    && value == before + (prefix + (path + slashes)) + after
    && Text.AllSpace(before) && Text.AllSpace(after) && Text.Trimmed(prefix + (path + slashes))
    && (forall k :: 0 <= k < |slashes| ==> slashes[k] == '\\' || slashes[k] == '/')
    && (path == "" || (path[|path| - 1] != '\\' && path[|path| - 1] != '/'))
    && (prefix == "\\\\?\\" || (prefix == "" && !("\\\\?\\" <= path + slashes)))
  }

  ghost predicate Spells(value: string, path: string) {
    exists before, prefix, slashes, after :: Spelling(value, before, prefix, path, slashes, after)
  }

  lemma SpellingIsStripped(value: string, before: string, prefix: string, path: string, slashes: string, after: string)
    requires Spelling(value, before, prefix, path, slashes, after)
    ensures BarePath(value) == path
  {
    var core := prefix + (path + slashes);
    Text.TrimAround(before, core, after);
    if prefix == LONG_PATH {
      assert core[..4] == LONG_PATH && core[4..] == path + slashes;
    } else {
      assert core == path + slashes;
    }
    DropTrailingSlashesOf(path, slashes);
  }

  lemma StrippedIsSpelled(value: string)
    ensures Spells(value, BarePath(value))
  {
    var before, after := Text.CutAround(value);
    var text := Text.Trim(value);
    var prefix := if Text.StartsWith(text, LONG_PATH) then LONG_PATH else "";
    var slashes := CutTrailingSlashes(text[|prefix|..]);
    assert text == prefix + text[|prefix|..];
    assert Spelling(value, before, prefix, BarePath(value), slashes, after);
  }

  /** Every text spells exactly one path. */
  lemma SpellsOnePath(value: string, path: string)
    ensures Spells(value, path) <==> path == BarePath(value)
  {
    StrippedIsSpelled(value);
    if Spells(value, path) {
      var before, prefix, slashes, after :| Spelling(value, before, prefix, path, slashes, after);
      SpellingIsStripped(value, before, prefix, path, slashes, after);
    }
  }

  /** Two executables have the same key exactly when the paths they spell differ at most in the case of
      ASCII letters. */
  lemma ExecutableKey(v: string, w: string, p: string, q: string)
    requires Spells(v, p) && Spells(w, q)
    ensures NormalizeExecutable(v) == NormalizeExecutable(w)
            <==> |p| == |q| && forall k :: 0 <= k < |p| ==> Text.SameLetter(p[k], q[k])
  {
    SpellsOnePath(v, p);
    SpellsOnePath(w, q);
    Text.EqIgnoreCaseMeaning(p, q);
  }

  datatype Identity = Identity(executable: string, startTime: i64)

  datatype Options = Options(
    processId: u32,
    expectedExecutable: string,
    expectedStartTime: i64,
    timeoutSeconds: u32,
    overflowChecks: bool)

  /** The three fields of every evidence file that name the process asked for. */
  datatype Request = Request(processId: u32, executable: string, startTime: i64)

  function RequestOf(options: Options): Request {
    Request(options.processId, options.expectedExecutable, options.expectedStartTime)
  }

  datatype Verdict = Same | Different | Panics

  /** `same_identity`, and the two checks of `kill_exact_owned_process`: the executable first,
      so a different executable never reaches the subtraction. */
  function SameIdentity(actual: Identity, options: Options): Verdict {
    if NormalizeExecutable(actual.executable) != NormalizeExecutable(options.expectedExecutable) then Different
    else match CompareTimes(actual.startTime, options.expectedStartTime, options.overflowChecks)
      case Near => Same
      case Far => Different
      case Overflow => Panics
  }

  /** The verdict on every identity, in numbers: the same key and at most two seconds apart; a panic only
      for the same key, with overflow checks, 2^63 seconds or more apart; else different. */
  lemma SameIdentityExactly(actual: Identity, options: Options)
    requires 0 <= actual.startTime < 1_833_029_933_771
    ensures SameIdentity(actual, options) == Same
            <==> && NormalizeExecutable(actual.executable) == NormalizeExecutable(options.expectedExecutable)
                 && var apart := actual.startTime as int - options.expectedStartTime as int;
                    -2 <= apart <= 2 || (!options.overflowChecks && apart == 0x8000_0000_0000_0000)
    ensures SameIdentity(actual, options) == Panics
            <==> && NormalizeExecutable(actual.executable) == NormalizeExecutable(options.expectedExecutable)
                 && options.overflowChecks
                 && actual.startTime as int - options.expectedStartTime as int >= 0x8000_0000_0000_0000
  {
    CompareTimesExact(actual.startTime, options.expectedStartTime, options.overflowChecks);
  }
}
