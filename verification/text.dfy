/**
 * The pieces of Rust's `str` and integer parsing that the crate relies on,
 * written out so that their edge cases are part of the model:
 * `lines`, `trim`, `split_once`, `split`, `starts_with`,
 * `trim_start_matches`, `<usize as FromStr>::from_str` and `Display` for integers.
 */
module Text {
  import opened Wrappers

  /** Rust's `char::is_whitespace`: the Unicode White_Space property. */
  predicate IsWhitespace(c: char)
  {
    var n := c as int;
    (9 <= n <= 13) || n == 32 || n == 0x85 || n == 0xA0 || n == 0x1680
    || (0x2000 <= n <= 0x200A) || n == 0x2028 || n == 0x2029 || n == 0x202F
    || n == 0x205F || n == 0x3000
  }

  predicate StartsWith(s: string, prefix: string)
  {
    |prefix| <= |s| && s[..|prefix|] == prefix
  }

  predicate EndsWith(s: string, suffix: string)
  {
    |suffix| <= |s| && s[|s| - |suffix|..] == suffix
  }

  lemma AffixesOfConcat(a: string, b: string)
    ensures StartsWith(a + b, a) && EndsWith(a + b, b)
  {
    assert (a + b)[..|a|] == a;
    assert (a + b)[|a|..] == b;
  }

  /** Leading whitespace removed: what is dropped is all whitespace, what is kept starts with none. */
  function TrimStart(s: string): (r: string)
    ensures |r| <= |s| && r == s[|s| - |r|..]
    ensures r == [] || !IsWhitespace(r[0])
    ensures forall i :: 0 <= i < |s| - |r| ==> IsWhitespace(s[i])
  {
    if s != [] && IsWhitespace(s[0]) then TrimStart(s[1..]) else s
  }

  /** Trailing whitespace removed. */
  function TrimEnd(s: string): (r: string)
    ensures |r| <= |s| && r == s[..|r|]
    ensures r == [] || !IsWhitespace(r[|r| - 1])
    ensures forall i :: |r| <= i < |s| ==> IsWhitespace(s[i])
  {
    if s != [] && IsWhitespace(s[|s| - 1]) then TrimEnd(s[..|s| - 1]) else s
  }

  /** `str::trim`: the longest infix of `s` that neither starts nor ends with whitespace. */
  function Trim(s: string): (r: string)
    ensures |r| <= |s|
    ensures r == [] || (!IsWhitespace(r[0]) && !IsWhitespace(r[|r| - 1]))
  {
    TrimEnd(TrimStart(s))
  }

  /** A string that neither starts nor ends with whitespace is its own trim. */
  lemma TrimUnchanged(s: string)
    requires s != [] && !IsWhitespace(s[0]) && !IsWhitespace(s[|s| - 1])
    ensures Trim(s) == s
  {
  }

  /** Position of the first occurrence of `c`. */
  function IndexOf(s: string, c: char): (r: Option<nat>)
    ensures r.None? <==> c !in s
    ensures r.Some? ==> r.value < |s| && s[r.value] == c && c !in s[..r.value]
  {
    if s == [] then None
    else if s[0] == c then Some(0)
    else match IndexOf(s[1..], c)
      case None => None
      case Some(i) =>
        assert s[..i + 1] == [s[0]] + s[1..][..i];
        Some(i + 1)
  }

  /** `str::split_once(c)`: the text before the first `c` and the text after it. */
  function SplitOnce(s: string, c: char): (r: Option<(string, string)>)
    ensures r.None? <==> c !in s
    ensures r.Some? ==> s == r.value.0 + [c] + r.value.1 && c !in r.value.0
  {
    match IndexOf(s, c)
    case None => None
    case Some(i) =>
      assert s == s[..i] + [c] + s[i + 1..];
      Some((s[..i], s[i + 1..]))
  }

  lemma SplitOnceOf(a: string, c: char, b: string)
    requires c !in a
    ensures SplitOnce(a + [c] + b, c) == Some((a, b))
  {
    var s := a + [c] + b;
    assert s[|a|] == c;
    assert s[..|a|] == a;
    assert s[|a| + 1..] == b;
  }

  /** Glue the pieces of a split back together. */
  function Join(parts: seq<string>, c: char): string
    requires |parts| >= 1
  {
    if |parts| == 1 then parts[0] else parts[0] + [c] + Join(parts[1..], c)
  }

  /** `str::split(c)`: always at least one piece, no piece contains `c`, and the pieces rejoin to `s`. */
  function Split(s: string, c: char): (r: seq<string>)
    ensures |r| >= 1
    ensures forall i :: 0 <= i < |r| ==> c !in r[i]
    ensures Join(r, c) == s
    decreases |s|
  {
    match SplitOnce(s, c)
    case None => [s]
    case Some((a, b)) =>
      var rest := Split(b, c);
      assert ([a] + rest)[1..] == rest;
      [a] + rest
  }

  /** The first piece of a split is the text before the first separator. */
  lemma SplitFirst(s: string, c: char)
    ensures SplitOnce(s, c).None? ==> Split(s, c) == [s]
    ensures SplitOnce(s, c).Some? ==>
      |Split(s, c)| >= 2 && Split(s, c)[0] == SplitOnce(s, c).value.0
      && Split(s, c)[1..] == Split(SplitOnce(s, c).value.1, c)
  {
  }

  /** A line ending "\r\n" loses its carriage return as well. */
  function StripCr(line: string): (r: string)
    ensures r == line || (line == r + ['\r'])
  {
    if |line| > 0 && line[|line| - 1] == '\r' then line[..|line| - 1] else line
  }

  /**
   * `str::lines`: split at '\n' (a "\r\n" ending counts as one), and an input
   * ending with a line terminator has no empty last line.
   */
  function Lines(s: string): (r: seq<string>)
    ensures forall i :: 0 <= i < |r| ==> '\n' !in r[i]
    ensures s == [] <==> r == []
    decreases |s|
  {
    if s == [] then []
    else match SplitOnce(s, '\n')
      case None => [s]
      case Some((line, rest)) =>
        assert '\n' !in StripCr(line) by {
          if StripCr(line) != line { assert line == StripCr(line) + ['\r']; }
        }
        [StripCr(line)] + Lines(rest)
  }

  lemma LinesCons(line: string, rest: string)
    requires '\n' !in line
    ensures Lines(line + ['\n'] + rest) == [StripCr(line)] + Lines(rest)
  {
    SplitOnceOf(line, '\n', rest);
  }

  lemma LinesLast(line: string)
    requires '\n' !in line && line != []
    ensures Lines(line) == [line]
  {
  }

  /** `str::trim_start_matches(prefix)`: every leading copy of `prefix` removed. */
  function TrimStartMatches(s: string, prefix: string): (r: string)
    ensures |r| <= |s| && r == s[|s| - |r|..]
    ensures prefix != [] ==> !StartsWith(r, prefix)
    ensures prefix == [] ==> r == s
    decreases |s|
  {
    if prefix != [] && StartsWith(s, prefix) then TrimStartMatches(s[|prefix|..], prefix) else s
  }

  /** `n` copies of `p`. */
  function Repeat(p: string, n: nat): string
  {
    if n == 0 then [] else p + Repeat(p, n - 1)
  }

  /** How many leading copies of `prefix` `TrimStartMatches` removes. */
  function LeadingCopies(s: string, prefix: string): nat
    decreases |s|
  {
    if prefix != [] && StartsWith(s, prefix) then 1 + LeadingCopies(s[|prefix|..], prefix) else 0
  }

  /** One leading copy of the prefix is removed, and the rest is trimmed the same way. */
  lemma TrimStartMatchesStep(s: string, prefix: string)
    requires prefix != [] && StartsWith(s, prefix)
    ensures s == prefix + s[|prefix|..]
    ensures LeadingCopies(s, prefix) == 1 + LeadingCopies(s[|prefix|..], prefix)
    ensures TrimStartMatches(s, prefix) == TrimStartMatches(s[|prefix|..], prefix)
  {
    assert s == s[..|prefix|] + s[|prefix|..];
  }

  /** What `TrimStartMatches` removes is a whole number of copies of the prefix. */
  lemma {:induction false} TrimStartMatchesRemovesCopies(s: string, prefix: string)
    ensures s == Repeat(prefix, LeadingCopies(s, prefix)) + TrimStartMatches(s, prefix)
    decreases |s|
  {
    if prefix != [] && StartsWith(s, prefix) {
      var rest := s[|prefix|..];
      TrimStartMatchesStep(s, prefix);
      TrimStartMatchesRemovesCopies(rest, prefix);
      var n := LeadingCopies(rest, prefix);
      assert Repeat(prefix, n + 1) == prefix + Repeat(prefix, n);
    } else {
      assert Repeat(prefix, 0) == [];
    }
  }

  // ---- decimal numbers ----

  predicate IsDigit(c: char)
  {
    '0' <= c <= '9'
  }

  predicate AllDigits(s: string)
  {
    forall i :: 0 <= i < |s| ==> IsDigit(s[i])
  }

  function DigitValue(c: char): nat
    requires IsDigit(c)
  {
    c as int - '0' as int
  }

  function DigitChar(d: nat): (c: char)
    requires d < 10
    ensures IsDigit(c) && DigitValue(c) == d
  {
    ('0' as int + d) as char
  }

  /** The value of a string of decimal digits, most significant first (leading zeros allowed). */
  function DigitsValue(s: string): nat
    requires AllDigits(s)
  {
    if s == [] then 0 else DigitsValue(s[..|s| - 1]) * 10 + DigitValue(s[|s| - 1])
  }

  /** `usize::MAX` on a 64-bit target. */
  const USIZE_MAX: nat := 0xFFFF_FFFF_FFFF_FFFF

  /** The digits of a number: the text without one leading '+'. */
  function Unsigned(s: string): string
  {
    if |s| > 0 && s[0] == '+' then s[1..] else s
  }

  /**
   * `<usize as FromStr>::from_str`: an optional '+', then at least one ASCII
   * digit and nothing else, and a value that fits in a usize.
   */
  function ParseUsize(s: string): (r: Option<nat>)
    ensures r.Some? <==> Unsigned(s) != [] && AllDigits(Unsigned(s)) && DigitsValue(Unsigned(s)) <= USIZE_MAX
    ensures r.Some? ==> r.value == DigitsValue(Unsigned(s)) && r.value <= USIZE_MAX
    ensures r.Some? ==> |s| >= 1 && (IsDigit(s[0]) || s[0] == '+')
  {
    var digits := Unsigned(s);
    if digits == [] || !AllDigits(digits) then None
    else
      var v := DigitsValue(digits);
      if v <= USIZE_MAX then Some(v) else None
  }

  /** A size with any character that is not a digit (other than a leading '+') is rejected. */
  lemma NonDigitRejected(s: string, i: nat)
    requires i < |s| && !IsDigit(s[i]) && !(i == 0 && s[i] == '+')
    ensures ParseUsize(s).None?
  {
    var digits := Unsigned(s);
    if |s| > 0 && s[0] == '+' {
      assert digits[i - 1] == s[i];
    } else {
      assert digits[i] == s[i];
    }
  }

  /** Decimal rendering of a number, as `format!("{n}")` writes it. */
  function NatToString(n: nat): (r: string)
    ensures r != [] && AllDigits(r)
  {
    if n < 10 then [DigitChar(n)] else NatToString(n / 10) + [DigitChar(n % 10)]
  }

  lemma {:induction false} DigitsValueOfNatToString(n: nat)
    ensures DigitsValue(NatToString(n)) == n
  {
    var s := NatToString(n);
    if n >= 10 {
      DigitsValueOfNatToString(n / 10);
      assert s[..|s| - 1] == NatToString(n / 10);
    } else {
      assert s[..0] == [];
    }
  }

  /** Formatting a usize and parsing it back gives the number again. */
  lemma ParseNatToString(n: nat)
    requires n <= USIZE_MAX
    ensures ParseUsize(NatToString(n)) == Some(n)
  {
    DigitsValueOfNatToString(n);
  }
}
