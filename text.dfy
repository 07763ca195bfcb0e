/**
 * The parts of Python's `str` that the core relies on: the whitespace and
 * line-boundary classes, digits, per-character case mapping, `strip`,
 * `splitlines`, `join`, substring tests, `int()` of a digit run, `str()` of a
 * non-negative integer, and the `{:08X}` rendering of a 32-bit checksum.
 *
 * Strings are sequences of Unicode scalar values. Case mapping covers ASCII
 * and the basic Cyrillic block only; the digit class is ASCII.
 */
module Text {

  /** `str.isspace()`; the regex class `\s` on `str` patterns is the same set. */
  predicate IsSpace(c: char)
  {
    || c == ' '
    || '\t' <= c <= '\r'
    || '\U{1C}' <= c <= '\U{1F}'
    || c == '\U{85}' || c == '\U{A0}' || c == '\U{1680}'
    || '\U{2000}' <= c <= '\U{200A}'
    || c == '\U{2028}' || c == '\U{2029}' || c == '\U{202F}' || c == '\U{205F}' || c == '\U{3000}'
  }

  /** The characters at which `str.splitlines()` ends a line (`\r\n` counts as one). */
  predicate IsLineBreak(c: char)
  {
    '\n' <= c <= '\r' || '\U{1C}' <= c <= '\U{1E}' || c == '\U{85}' || c == '\U{2028}' || c == '\U{2029}'
  }

  predicate NoLineBreak(s: string)
  {
    forall k | 0 <= k < |s| :: !IsLineBreak(s[k])
  }

  /** The regex class `\d` (ASCII digits in this model). */
  predicate IsDigit(c: char)
  {
    '0' <= c <= '9'
  }

  predicate AllDigits(s: string)
  {
    forall k | 0 <= k < |s| :: IsDigit(s[k])
  }

  /** The regex class `[0-9A-Fa-f]`. */
  predicate IsHexDigit(c: char)
  {
    IsDigit(c) || 'A' <= c <= 'F' || 'a' <= c <= 'f'
  }

  predicate IsUpperHexDigit(c: char)
  {
    IsDigit(c) || 'A' <= c <= 'F'
  }

  predicate AllUpperHex(s: string)
  {
    forall k | 0 <= k < |s| :: IsUpperHexDigit(s[k])
  }

  // ---------------------------------------------------------------------------
  // Case mapping

  /** `str.upper()` on one character: ASCII and basic Cyrillic letters. */
  function Upper(c: char): char
  {
    if 'a' <= c <= 'z' then (c as int - 0x20) as char
    else if '\U{430}' <= c <= '\U{44F}' then (c as int - 0x20) as char
    else if '\U{450}' <= c <= '\U{45F}' then (c as int - 0x50) as char
    else c
  }

  /** `str.lower()` on one character: ASCII and basic Cyrillic letters. */
  function Lower(c: char): char
  {
    if 'A' <= c <= 'Z' then (c as int + 0x20) as char
    else if '\U{410}' <= c <= '\U{42F}' then (c as int + 0x20) as char
    else if '\U{400}' <= c <= '\U{40F}' then (c as int + 0x50) as char
    else c
  }

  function UpperStr(s: string): string
  {
    seq(|s|, k requires 0 <= k < |s| => Upper(s[k]))
  }

  function LowerStr(s: string): string
  {
    seq(|s|, k requires 0 <= k < |s| => Lower(s[k]))
  }

  /** Lower-casing twice is lower-casing once, so a lower-cased key is its own lookup key. */
  lemma LowerStrIdempotent(s: string)
    ensures LowerStr(LowerStr(s)) == LowerStr(s)
  {
    assert forall k | 0 <= k < |s| :: Lower(Lower(s[k])) == Lower(s[k]);
  }

  lemma UpperStrIdempotent(s: string)
    ensures UpperStr(UpperStr(s)) == UpperStr(s)
  {
    assert forall k | 0 <= k < |s| :: Upper(Upper(s[k])) == Upper(s[k]);
  }

  /** Upper-casing never turns a non-empty string into an empty one (Python's `x.upper() or None`). */
  lemma UpperStrEmpty(s: string)
    ensures UpperStr(s) == [] <==> s == []
  {
    assert |UpperStr(s)| == |s|;
  }

  // ---------------------------------------------------------------------------
  // strip

  /** `p` holds on every character of `s[lo..hi]`. */
  predicate AllIn(s: string, lo: nat, hi: nat, p: char -> bool)
    requires lo <= hi <= |s|
  {
    forall k | lo <= k < hi :: p(s[k])
  }

  /** The first index at or after `i` whose character fails `p` (or `|s|`). */
  function SkipWhile(s: string, i: nat, p: char -> bool): (j: nat)
    requires i <= |s|
    ensures i <= j <= |s|
    ensures forall k | i <= k < j :: p(s[k])
    ensures j < |s| ==> !p(s[j])
    decreases |s| - i
  {
    if i < |s| && p(s[i]) then SkipWhile(s, i + 1, p) else i
  }

  /** A greedy run is determined by where it must stop. */
  lemma SkipWhileAt(s: string, i: nat, j: nat, p: char -> bool)
    requires i <= j <= |s| && AllIn(s, i, j, p) && (j < |s| ==> !p(s[j]))
    ensures SkipWhile(s, i, p) == j
  {
  }

  /** The end of `s[lo..]` once trailing whitespace is cut off. */
  function TrimEnd(s: string, lo: nat, hi: nat): (b: nat)
    requires lo <= hi <= |s|
    ensures lo <= b <= hi
    ensures forall k | b <= k < hi :: IsSpace(s[k])
    ensures b > lo ==> !IsSpace(s[b - 1])
    decreases hi
  {
    if hi > lo && IsSpace(s[hi - 1]) then TrimEnd(s, lo, hi - 1) else hi
  }

  /** Where `strip` starts: the first non-whitespace index. */
  function StripStart(s: string): nat
  {
    SkipWhile(s, 0, IsSpace)
  }

  /** Where `strip` ends. */
  function StripEnd(s: string): nat
  {
    TrimEnd(s, StripStart(s), |s|)
  }

  /** `str.strip()`: the input without its leading and trailing whitespace. */
  function Strip(s: string): string
  {
    s[StripStart(s)..StripEnd(s)]
  }

  /**
   * What `strip` leaves: a contiguous slice of the input with no whitespace at
   * either end, everything cut away being whitespace.
   */
  lemma StripSlice(s: string)
    ensures StripStart(s) <= StripEnd(s) <= |s|
    ensures forall k | 0 <= k < StripStart(s) :: IsSpace(s[k])
    ensures forall k | StripEnd(s) <= k < |s| :: IsSpace(s[k])
    ensures Strip(s) == [] || (!IsSpace(Strip(s)[0]) && !IsSpace(Strip(s)[|Strip(s)| - 1]))
  {
  }

  /** A stripped string is its own stripped form. */
  lemma StripFixpoint(s: string)
    ensures Strip(Strip(s)) == Strip(s)
  {
    var r := Strip(s);
    StripSlice(s);
    assert StripStart(r) == 0;
    assert StripEnd(r) == |r|;
  }

  /** Stripping a string without line breaks leaves none. */
  lemma StripNoLineBreak(s: string)
    requires NoLineBreak(s)
    ensures NoLineBreak(Strip(s))
  {
    StripSlice(s);
  }

  // ---------------------------------------------------------------------------
  // splitlines and join

  /** Index of the first line boundary, or `|s|` when there is none. */
  function FirstBreak(s: string): (i: nat)
    ensures i <= |s|
    ensures forall k | 0 <= k < i :: !IsLineBreak(s[k])
    ensures i < |s| ==> IsLineBreak(s[i])
  {
    if s == [] || IsLineBreak(s[0]) then 0 else 1 + FirstBreak(s[1..])
  }

  /** Where the next line starts after the boundary at `i`: `\r\n` is one boundary. */
  function BreakEnd(s: string, i: nat): (j: nat)
    requires i < |s|
    ensures i < j <= |s|
  {
    if s[i] == '\r' && i + 1 < |s| && s[i + 1] == '\n' then i + 2 else i + 1
  }

  /**
   * `str.splitlines()`: the lines between boundaries; a final boundary does not
   * open an empty last line, and the empty string has no lines.
   */
  function SplitLines(s: string): (lines: seq<string>)
    ensures forall l | l in lines :: NoLineBreak(l)
    decreases |s|
  {
    if s == [] then []
    else
      var i := FirstBreak(s);
      if i == |s| then [s] else [s[..i]] + SplitLines(s[BreakEnd(s, i)..])
  }

  /** `sep.join(parts)`. */
  function Join(parts: seq<string>, sep: string): string
  {
    if parts == [] then ""
    else if |parts| == 1 then parts[0]
    else parts[0] + sep + Join(parts[1..], sep)
  }

  /** `ls` without its last element when that element is empty. */
  function DropTrailingEmpty(ls: seq<string>): seq<string>
  {
    if ls != [] && ls[|ls| - 1] == "" then ls[..|ls| - 1] else ls
  }

  lemma FirstBreakOfConcat(x: string, y: string)
    requires NoLineBreak(x) && y != [] && IsLineBreak(y[0])
    ensures FirstBreak(x + y) == |x|
  {
    assert (x + y)[|x|] == y[0];
    assert forall k | 0 <= k < |x| :: (x + y)[k] == x[k];
  }

  /**
   * Splitting lines joined by `"\n"` gives them back, except that an empty
   * last line is lost (it only contributed a trailing newline).
   */
  lemma {:induction false} SplitLinesOfJoin(ls: seq<string>)
    requires forall l | l in ls :: NoLineBreak(l)
    ensures SplitLines(Join(ls, "\n")) == DropTrailingEmpty(ls)
  {
    if |ls| == 1 {
      assert ls[0] in ls;
    } else if |ls| > 1 {
      var x, rest := ls[0], Join(ls[1..], "\n");
      var s := Join(ls, "\n");
      assert s == x + ("\n" + rest);
      FirstBreakOfConcat(x, "\n" + rest);
      assert s[|x|] == '\n';
      assert s[..|x|] == x;
      assert s[BreakEnd(s, |x|)..] == rest;
      SplitLinesOfJoin(ls[1..]);
      assert ls[1..] != [];
      assert DropTrailingEmpty(ls) == [x] + DropTrailingEmpty(ls[1..]);
    }
  }

  /** A joined text contains a character only if a part or the separator does. */
  lemma {:induction false} JoinChars(parts: seq<string>, sep: string, c: char)
    requires c !in sep
    requires forall p | p in parts :: c !in p
    ensures c !in Join(parts, sep)
  {
    if |parts| > 1 {
      JoinChars(parts[1..], sep, c);
    }
  }

  /** `str.replace(a, b)` for single characters. */
  function ReplaceChar(s: string, a: char, b: char): (r: string)
    ensures |r| == |s|
    ensures forall k | 0 <= k < |s| :: r[k] == (if s[k] == a then b else s[k])
  {
    seq(|s|, k requires 0 <= k < |s| => if s[k] == a then b else s[k])
  }

  // ---------------------------------------------------------------------------
  // Substrings

  predicate OccursAt(s: string, t: string, i: nat)
  {
    i + |t| <= |s| && s[i..i + |t|] == t
  }

  /** `t` occurs at `i` when both are compared with case folded (`re.IGNORECASE`). */
  predicate OccursAtIgnoreCase(s: string, t: string, i: nat)
  {
    i + |t| <= |s| && forall k | 0 <= k < |t| :: Lower(s[i + k]) == Lower(t[k])
  }

  /** Python's `t in s` for strings. */
  predicate Contains(s: string, t: string)
  {
    exists i | 0 <= i <= |s| :: OccursAt(s, t, i)
  }

  /** `s.endswith(t)`. */
  predicate EndsWith(s: string, t: string)
  {
    |t| <= |s| && s[|s| - |t|..] == t
  }

  // ---------------------------------------------------------------------------
  // Decimal numbers

  function DigitValue(c: char): nat
    requires IsDigit(c)
  {
    c as int - '0' as int
  }

  function DigitChar(d: nat): (c: char)
    requires d < 10
    ensures IsDigit(c) && DigitValue(c) == d
  {
    ('0' as int + d) as char
  }

  /** `int(s)` for a run of decimal digits. */
  function DecimalValue(s: string): nat
    requires AllDigits(s)
  {
    if s == [] then 0 else DecimalValue(s[..|s| - 1]) * 10 + DigitValue(s[|s| - 1])
  }

  /** `str(n)` for a non-negative integer; `int()` reads the number back. */
  function DecimalString(n: nat): (r: string)
    ensures r != [] && AllDigits(r)
    ensures DecimalValue(r) == n
  {
    if n < 10 then [DigitChar(n)]
    else
      var p := DecimalString(n / 10);
      var r := p + [DigitChar(n % 10)];
      assert r[..|r| - 1] == p;
      r
  }

  // ---------------------------------------------------------------------------
  // Hexadecimal checksums

  /** A value of an unsigned 32-bit integer, such as `zlib.crc32(...) & 0xFFFFFFFF`. */
  type u32 = x: nat | x < 0x1_0000_0000

  function Pow16(n: nat): (p: nat)
    ensures p > 0
  {
    if n == 0 then 1 else 16 * Pow16(n - 1)
  }

  function HexDigitChar(d: nat): (c: char)
    requires d < 16
    ensures IsUpperHexDigit(c)
  {
    if d < 10 then ('0' as int + d) as char else ('A' as int + d - 10) as char
  }

  function HexValue(c: char): (d: nat)
    requires IsHexDigit(c)
    ensures d < 16
  {
    if IsDigit(c) then c as int - '0' as int
    else if 'A' <= c <= 'F' then c as int - 'A' as int + 10
    else c as int - 'a' as int + 10
  }

  /** `int(s, 16)` for a run of hexadecimal digits. */
  function ParseHex(s: string): nat
    requires AllUpperHex(s)
  {
    if s == [] then 0 else ParseHex(s[..|s| - 1]) * 16 + HexValue(s[|s| - 1])
  }

  /** The `n` low hexadecimal digits of `x`, upper case, most significant first. */
  function HexDigits(x: nat, n: nat): (r: string)
    ensures |r| == n
  {
    if n == 0 then "" else HexDigits(x / 16, n - 1) + [HexDigitChar(x % 16)]
  }

  /**
   * The digits are upper-case hexadecimal, and `n` of them are enough for any
   * `x` below `16^n`: then they read back as `x`.
   */
  lemma {:induction false} HexDigitsReadBack(x: nat, n: nat)
    ensures AllUpperHex(HexDigits(x, n))
    ensures x < Pow16(n) ==> ParseHex(HexDigits(x, n)) == x
  {
    if n > 0 {
      HexDigitsReadBack(x / 16, n - 1);
      var r := HexDigits(x, n);
      assert r[..|r| - 1] == HexDigits(x / 16, n - 1);
    }
  }

  lemma Pow16Of8()
    ensures Pow16(8) == 0x1_0000_0000
  {
  }

  /** `f"{x:08X}"`: eight hexadecimal digits. */
  function Hex8(x: u32): (r: string)
    ensures |r| == 8
  {
    HexDigits(x, 8)
  }

  /** The eight digits are upper-case hexadecimal and read back as `x`. */
  lemma Hex8ReadBack(x: u32)
    ensures AllUpperHex(Hex8(x)) && ParseHex(Hex8(x)) == x
  {
    Pow16Of8();
    HexDigitsReadBack(x, 8);
  }

  /** Distinct checksums render differently (a consequence of the read-back). */
  lemma Hex8Injective(x: u32, y: u32)
    ensures Hex8(x) == Hex8(y) <==> x == y
  {
    Hex8ReadBack(x);
    Hex8ReadBack(y);
  }

  /**
   * The other half of the round trip: an upper-case hexadecimal string of
   * length `n` is the rendering of the number it denotes.
   */
  lemma {:induction false} HexDigitsOfParse(s: string)
    requires AllUpperHex(s)
    ensures ParseHex(s) < Pow16(|s|)
    ensures HexDigits(ParseHex(s), |s|) == s
  {
    if s != [] {
      var p, c := s[..|s| - 1], s[|s| - 1];
      HexDigitsOfParse(p);
      var v := ParseHex(s);
      assert v == ParseHex(p) * 16 + HexValue(c);
      assert v / 16 == ParseHex(p) && v % 16 == HexValue(c);
      assert HexDigitChar(HexValue(c)) == c;
      assert s == p + [c];
    }
  }

  /** Round trip: every eight-digit upper-case hexadecimal string is `Hex8` of its value. */
  lemma Hex8OfParse(s: string)
    requires |s| == 8 && AllUpperHex(s)
    ensures ParseHex(s) < 0x1_0000_0000
    ensures Hex8(ParseHex(s)) == s
  {
    HexDigitsOfParse(s);
    Pow16Of8();
  }
}
