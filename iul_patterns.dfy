/**
 * The regular expressions with which certification-sheet (ИУЛ) text is mined:
 *
 *   CRC_RE          `CRC[-\s_]*32\s*([0-9A-Fa-f]{8})`
 *   IFC_RE          `([\w\-. ]+?\.ifc)`              (IGNORECASE)
 *   DT_RE           `(\d{2}\.\d{2}\.\d{4}\s+\d{2}:\d{2})`
 *   SIZE_RE         `Размер\s+файла\D*(\d+)`          (IGNORECASE)
 *   IUL_KEYWORD_RE  `(^|[\s_])(ИУЛ|УЛ)([\s_]|$)`
 *   findall(`\d+`)  the digit runs of a string
 *
 * For each pattern whose match is read there is a declarative predicate (the
 * strings the pattern describes, at a given start), a matcher that follows
 * the engine's backtracking order at one start position, and `re.search`: the
 * leftmost start at which the matcher succeeds. `IUL_KEYWORD_RE` is only
 * tested for a match anywhere, so it is the predicate `HasIulKeyword` alone.
 */
module IulPatterns {
  import opened Wrappers
  import opened Text

  // ---------------------------------------------------------------------------
  // re.search

  /**
   * The leftmost start in `[i, n]` at which the matcher `m` succeeds, with its
   * result: `re.search` tries each start in turn and keeps the first match.
   */
  function Leftmost<T>(i: nat, n: nat, m: nat -> Option<T>): (r: Option<(nat, T)>)
    requires i <= n
    ensures r.Some? ==> i <= r.value.0 <= n && m(r.value.0) == Some(r.value.1)
    ensures r.Some? ==> forall j | i <= j < r.value.0 :: m(j).None?
    ensures r.None? ==> forall j | i <= j <= n :: m(j).None?
    decreases n - i
  {
    match m(i)
    case Some(v) => Some((i, v))
    case None => if i == n then None else Leftmost(i + 1, n, m)
  }

  // ---------------------------------------------------------------------------
  // CRC_RE

  /** The class `[-\s_]`. */
  predicate IsCrcSep(c: char)
  {
    c == '-' || c == '_' || IsSpace(c)
  }

  /**
   * `CRC_RE` matches at `i`: the separator run is `s[i + 3..p]`, the spaces
   * before the digits are `s[p + 2..q]` and the captured group is `s[q..q + 8]`.
   */
  predicate IsCrcMatch(s: string, i: nat, p: nat, q: nat)
  {
    i + 3 <= p && p + 2 <= q && q + 8 <= |s|
    && OccursAt(s, "CRC", i)
    && AllIn(s, i + 3, p, IsCrcSep)
    && OccursAt(s, "32", p)
    && AllIn(s, p + 2, q, IsSpace)
    && AllIn(s, q, q + 8, IsHexDigit)
  }

  /**
   * The engine at start `i`: both starred runs are greedy, and since the text
   * after each (`3`, a hex digit) is outside the starred class, backing off
   * never helps; the result is the start of the captured digits.
   */
  function CrcMatchAt(s: string, i: nat): (r: Option<nat>)
    ensures r.Some? ==> r.value + 8 <= |s| && AllIn(s, r.value, r.value + 8, IsHexDigit)
    ensures r.Some? ==> exists p: nat :: IsCrcMatch(s, i, p, r.value)
  {
    if !OccursAt(s, "CRC", i) then None
    else
      var p := SkipWhile(s, i + 3, IsCrcSep);
      if !OccursAt(s, "32", p) then None
      else
        var q := SkipWhile(s, p + 2, IsSpace);
        if q + 8 <= |s| && AllIn(s, q, q + 8, IsHexDigit) then
          assert IsCrcMatch(s, i, p, q);
          Some(q)
        else None
  }

  /** Every match the pattern describes is the one the engine finds at that start. */
  lemma CrcMatchAtComplete(s: string, i: nat, p: nat, q: nat)
    requires IsCrcMatch(s, i, p, q)
    ensures CrcMatchAt(s, i) == Some(q)
  {
    assert !IsCrcSep(s[p]);
    SkipWhileAt(s, i + 3, p, IsCrcSep);
    assert !IsSpace(s[q]);
    SkipWhileAt(s, p + 2, q, IsSpace);
  }

  /** `CRC_RE.search(s)`: the leftmost start and the start of its captured digits. */
  function CrcSearch(s: string): (r: Option<(nat, nat)>)
    ensures r.Some? ==> r.value.0 <= |s| && CrcMatchAt(s, r.value.0) == Some(r.value.1)
    ensures r.Some? ==> forall j | 0 <= j < r.value.0 :: CrcMatchAt(s, j).None?
    ensures r.None? ==> forall j | 0 <= j <= |s| :: CrcMatchAt(s, j).None?
  {
    var m := j => CrcMatchAt(s, j);
    assert forall j :: m(j) == CrcMatchAt(s, j);
    Leftmost(0, |s|, m)
  }

  /** `CRC_RE.search(s).group(1)`, or `None` when the line has no checksum. */
  function CrcCapture(s: string): (r: Option<string>)
    ensures r.Some? ==> |r.value| == 8 && AllIn(r.value, 0, 8, IsHexDigit)
  {
    match CrcSearch(s)
    case None => None
    case Some((_, q)) => Some(s[q..q + 8])
  }

  /**
   * The captured checksum is eight hex digits of the leftmost match; there is
   * none exactly when no position of the line starts a match.
   */
  lemma CrcCaptureSpec(s: string)
    ensures CrcCapture(s).None? <==> forall i: nat, p: nat, q: nat :: !IsCrcMatch(s, i, p, q)
    ensures CrcCapture(s).Some? ==>
      exists i: nat, p: nat, q: nat :: IsCrcMatch(s, i, p, q) && CrcCapture(s).value == s[q..q + 8]
        && forall i': nat, p': nat, q': nat | i' < i :: !IsCrcMatch(s, i', p', q')
  {
    match CrcSearch(s)
    case None =>
      forall i: nat, p: nat, q: nat | IsCrcMatch(s, i, p, q)
        ensures false
      {
        CrcMatchAtComplete(s, i, p, q);
      }
    case Some((i, q)) =>
      var p: nat :| IsCrcMatch(s, i, p, q);
      forall i': nat, p': nat, q': nat | i' < i && IsCrcMatch(s, i', p', q')
        ensures false
      {
        CrcMatchAtComplete(s, i', p', q');
      }
  }

  // ---------------------------------------------------------------------------
  // DT_RE

  predicate IsDigitsAt(s: string, i: nat, n: nat)
  {
    i + n <= |s| && AllIn(s, i, i + n, IsDigit)
  }

  /** `DT_RE` matches `s[i..q + 5]`, the run of whitespace being `s[i + 10..q]`. */
  predicate IsDtMatch(s: string, i: nat, q: nat)
  {
    i + 10 < q && q + 5 <= |s|
    && IsDigitsAt(s, i, 2) && s[i + 2] == '.'
    && IsDigitsAt(s, i + 3, 2) && s[i + 5] == '.'
    && IsDigitsAt(s, i + 6, 4)
    && AllIn(s, i + 10, q, IsSpace)
    && IsDigitsAt(s, q, 2) && s[q + 2] == ':' && IsDigitsAt(s, q + 3, 2)
  }

  /** The engine at start `i`; the result is the end of the match. */
  function DtMatchAt(s: string, i: nat): (r: Option<nat>)
    ensures r.Some? ==> i < r.value <= |s|
    ensures r.Some? ==> exists q: nat :: IsDtMatch(s, i, q) && r.value == q + 5
  {
    if i + 10 < |s| && IsDigitsAt(s, i, 2) && s[i + 2] == '.' && IsDigitsAt(s, i + 3, 2)
      && s[i + 5] == '.' && IsDigitsAt(s, i + 6, 4)
    then
      var q := SkipWhile(s, i + 10, IsSpace);
      if i + 10 < q && q + 5 <= |s| && IsDigitsAt(s, q, 2) && s[q + 2] == ':' && IsDigitsAt(s, q + 3, 2)
      then
        assert IsDtMatch(s, i, q);
        Some(q + 5)
      else None
    else None
  }

  lemma DtMatchAtComplete(s: string, i: nat, q: nat)
    requires IsDtMatch(s, i, q)
    ensures DtMatchAt(s, i) == Some(q + 5)
  {
    assert !IsSpace(s[q]);
    SkipWhileAt(s, i + 10, q, IsSpace);
  }

  /** `DT_RE.search(s)`: the leftmost start and the end of its match. */
  function DtSearch(s: string): (r: Option<(nat, nat)>)
    ensures r.Some? ==> r.value.0 <= |s| && DtMatchAt(s, r.value.0) == Some(r.value.1)
    ensures r.Some? ==> forall j | 0 <= j < r.value.0 :: DtMatchAt(s, j).None?
    ensures r.None? ==> forall j | 0 <= j <= |s| :: DtMatchAt(s, j).None?
  {
    var m := j => DtMatchAt(s, j);
    assert forall j :: m(j) == DtMatchAt(s, j);
    Leftmost(0, |s|, m)
  }

  /** `DT_RE.search(s).group(1)`. */
  function DtCapture(s: string): Option<string>
  {
    match DtSearch(s)
    case None => None
    case Some((i, e)) => Some(s[i..e])
  }

  /** The date is the text of the leftmost `DT_RE` match, if any. */
  lemma DtCaptureSpec(s: string)
    ensures DtCapture(s).None? <==> forall i: nat, q: nat :: !IsDtMatch(s, i, q)
    ensures DtCapture(s).Some? ==>
      exists i: nat, q: nat :: IsDtMatch(s, i, q) && DtCapture(s).value == s[i..q + 5]
        && forall i': nat, q': nat | i' < i :: !IsDtMatch(s, i', q')
  {
    match DtSearch(s)
    case None =>
      forall i: nat, q: nat | IsDtMatch(s, i, q)
        ensures false
      {
        DtMatchAtComplete(s, i, q);
      }
    case Some((i, e)) =>
      var q: nat :| IsDtMatch(s, i, q) && e == q + 5;
      forall i': nat, q': nat | i' < i && IsDtMatch(s, i', q')
        ensures false
      {
        DtMatchAtComplete(s, i', q');
      }
  }

  // ---------------------------------------------------------------------------
  // SIZE_RE

  predicate NotDigit(c: char)
  {
    !IsDigit(c)
  }

  /**
   * `SIZE_RE` matches at `i`: the label words ignoring case with whitespace
   * `s[i + 6..p]` between them, non-digits `s[p + 5..a]`, and the captured
   * number `s[a..b]`, which the greedy `\d+` takes to the end of the digit run.
   */
  predicate IsSizeMatch(s: string, i: nat, p: nat, a: nat, b: nat)
  {
    i + 6 < p && p + 5 <= a < b <= |s|
    && OccursAtIgnoreCase(s, "Размер", i)
    && AllIn(s, i + 6, p, IsSpace)
    && OccursAtIgnoreCase(s, "файла", p)
    && AllIn(s, p + 5, a, NotDigit)
    && AllIn(s, a, b, IsDigit)
    && (b < |s| ==> !IsDigit(s[b]))
  }

  /** The engine at start `i`; the result is the captured digit run `(a, b)`. */
  function SizeMatchAt(s: string, i: nat): (r: Option<(nat, nat)>)
    ensures r.Some? ==> r.value.0 < r.value.1 <= |s| && AllIn(s, r.value.0, r.value.1, IsDigit)
    ensures r.Some? ==> exists p: nat :: IsSizeMatch(s, i, p, r.value.0, r.value.1)
  {
    if i + 6 <= |s| && OccursAtIgnoreCase(s, "Размер", i) then
      var p := SkipWhile(s, i + 6, IsSpace);
      if i + 6 < p then
        var r := SizeTailAt(s, p);
        if r.Some? then
          assert IsSizeMatch(s, i, p, r.value.0, r.value.1);
          r
        else None
      else None
    else None
  }

  /** The rest of the engine once the spaces after the first label word are skipped, at `p`. */
  function SizeTailAt(s: string, p: nat): (r: Option<(nat, nat)>)
    ensures r.Some? ==> var (a, b) := r.value;
      && p + 5 <= a < b <= |s|
      && OccursAtIgnoreCase(s, "файла", p)
      && AllIn(s, p + 5, a, NotDigit)
      && AllIn(s, a, b, IsDigit)
      && (b < |s| ==> !IsDigit(s[b]))
  {
    if OccursAtIgnoreCase(s, "файла", p) then
      var a := SkipWhile(s, p + 5, NotDigit);
      if a < |s| then
        assert IsDigit(s[a]);
        Some((a, SkipWhile(s, a, IsDigit)))
      else None
    else None
  }

  /** The second label word does not begin with whitespace, so the skip over spaces stops at it. */
  lemma LabelStartsNonSpace(s: string, p: nat)
    requires OccursAtIgnoreCase(s, "файла", p)
    ensures p < |s| && !IsSpace(s[p])
  {
    assert Lower(s[p + 0]) == Lower("файла"[0]);
  }

  lemma SizeTailAtComplete(s: string, p: nat, a: nat, b: nat)
    requires p + 5 <= a < b <= |s| && OccursAtIgnoreCase(s, "файла", p)
    requires AllIn(s, p + 5, a, NotDigit) && AllIn(s, a, b, IsDigit) && (b < |s| ==> !IsDigit(s[b]))
    ensures SizeTailAt(s, p) == Some((a, b))
  {
    assert !NotDigit(s[a]);
    SkipWhileAt(s, p + 5, a, NotDigit);
    SkipWhileAt(s, a, b, IsDigit);
  }

  lemma SizeMatchAtComplete(s: string, i: nat, p: nat, a: nat, b: nat)
    requires IsSizeMatch(s, i, p, a, b)
    ensures SizeMatchAt(s, i) == Some((a, b))
  {
    LabelStartsNonSpace(s, p);
    SkipWhileAt(s, i + 6, p, IsSpace);
    SizeTailAtComplete(s, p, a, b);
  }

  /** `SIZE_RE.search(s)`: the leftmost start and its captured digit run. */
  function SizeSearch(s: string): (r: Option<(nat, (nat, nat))>)
    ensures r.Some? ==> r.value.0 <= |s| && SizeMatchAt(s, r.value.0) == Some(r.value.1)
    ensures r.Some? ==> forall j | 0 <= j < r.value.0 :: SizeMatchAt(s, j).None?
    ensures r.None? ==> forall j | 0 <= j <= |s| :: SizeMatchAt(s, j).None?
  {
    var m := j => SizeMatchAt(s, j);
    assert forall j :: m(j) == SizeMatchAt(s, j);
    Leftmost(0, |s|, m)
  }

  /** `int(SIZE_RE.search(s).group(1))`. */
  function SizeCapture(s: string): Option<nat>
  {
    match SizeSearch(s)
    case None => None
    case Some((_, (a, b))) => Some(DecimalValue(s[a..b]))
  }

  /** The labelled size is the number of the leftmost `SIZE_RE` match, if any. */
  lemma SizeCaptureSpec(s: string)
    ensures SizeCapture(s).None? <==> forall i: nat, p: nat, a: nat, b: nat :: !IsSizeMatch(s, i, p, a, b)
    ensures SizeCapture(s).Some? ==>
      exists i: nat, p: nat, a: nat, b: nat :: IsSizeMatch(s, i, p, a, b) && SizeCapture(s).value == DecimalValue(s[a..b])
        && forall i': nat, p': nat, a': nat, b': nat | i' < i :: !IsSizeMatch(s, i', p', a', b')
  {
    match SizeSearch(s)
    case None =>
      forall i: nat, p: nat, a: nat, b: nat | IsSizeMatch(s, i, p, a, b)
        ensures false
      {
        SizeMatchAtComplete(s, i, p, a, b);
      }
    case Some((i, (a, b))) =>
      var p: nat :| IsSizeMatch(s, i, p, a, b);
      forall i': nat, p': nat, a': nat, b': nat | i' < i && IsSizeMatch(s, i', p', a', b')
        ensures false
      {
        SizeMatchAtComplete(s, i', p', a', b');
      }
  }

  // ---------------------------------------------------------------------------
  // IFC_RE

  /** The class `\w` on `str` patterns: letters, digits and `_` (ASCII and Cyrillic here). */
  predicate IsWordChar(c: char)
  {
    || 'a' <= c <= 'z' || 'A' <= c <= 'Z' || IsDigit(c) || c == '_'
    || '\U{400}' <= c <= '\U{481}' || '\U{48A}' <= c <= '\U{4FF}'
  }

  /** The class `[\w\-. ]`. */
  predicate IsIfcNameChar(c: char)
  {
    IsWordChar(c) || c == '-' || c == '.' || c == ' '
  }

  /** `IFC_RE` can match `s[i..e + 4]`: name characters up to `e`, then `.ifc` in any case. */
  predicate IsIfcMatch(s: string, i: nat, e: nat)
  {
    i < e <= |s| && AllIn(s, i, e, IsIfcNameChar) && OccursAtIgnoreCase(s, ".ifc", e)
  }

  /**
   * The lazy `+?` at start `i`, having taken `s[i..e]`: try the suffix first,
   * and take one more name character only when it fails.
   */
  function IfcLazy(s: string, i: nat, e: nat): (r: Option<nat>)
    requires i < e <= |s| && AllIn(s, i, e, IsIfcNameChar)
    ensures r.Some? ==> e <= r.value && IsIfcMatch(s, i, r.value)
    ensures r.Some? ==> forall e': nat | e <= e' < r.value :: !IsIfcMatch(s, i, e')
    ensures r.None? ==> forall e': nat | e <= e' :: !IsIfcMatch(s, i, e')
    decreases |s| - e
  {
    if OccursAtIgnoreCase(s, ".ifc", e) then Some(e)
    else if e < |s| && IsIfcNameChar(s[e]) then IfcLazy(s, i, e + 1)
    else None
  }

  /** The engine at start `i`: the shortest name run that `.ifc` can follow. */
  function IfcMatchAt(s: string, i: nat): (r: Option<nat>)
    ensures r.Some? ==> IsIfcMatch(s, i, r.value)
    ensures r.Some? ==> forall e': nat | e' < r.value :: !IsIfcMatch(s, i, e')
    ensures r.None? ==> forall e': nat :: !IsIfcMatch(s, i, e')
  {
    if i < |s| && IsIfcNameChar(s[i]) then IfcLazy(s, i, i + 1) else None
  }

  /** `IFC_RE.search(s)`: the leftmost start and where its `.ifc` begins. */
  function IfcFind(s: string): (r: Option<(nat, nat)>)
    ensures r.Some? ==> r.value.0 <= |s| && IfcMatchAt(s, r.value.0) == Some(r.value.1)
    ensures r.Some? ==> forall j | 0 <= j < r.value.0 :: IfcMatchAt(s, j).None?
    ensures r.None? ==> forall j | 0 <= j <= |s| :: IfcMatchAt(s, j).None?
  {
    var m := j => IfcMatchAt(s, j);
    assert forall j :: m(j) == IfcMatchAt(s, j);
    Leftmost(0, |s|, m)
  }

  /**
   * `IFC_RE.search(s)` as `(start, end)`: the leftmost position where a name
   * ending in `.ifc` starts, and the nearest `.ifc` after it.
   */
  function IfcSearch(s: string): (r: Option<(nat, nat)>)
    ensures r.Some? ==> r.value.0 + 4 < r.value.1 <= |s|
  {
    match IfcFind(s)
    case None => None
    case Some((i, e)) => Some((i, e + 4))
  }

  /**
   * The match is the leftmost start at which a name ending in `.ifc` exists,
   * extended only to the first `.ifc` after it.
   */
  lemma IfcSearchSpec(s: string)
    ensures IfcSearch(s).None? <==> forall i: nat, e: nat :: !IsIfcMatch(s, i, e)
    ensures IfcSearch(s).Some? ==>
      var (i, end) := IfcSearch(s).value;
      IsIfcMatch(s, i, end - 4)
      && (forall e: nat | e < end - 4 :: !IsIfcMatch(s, i, e))
      && (forall i': nat, e: nat | i' < i :: !IsIfcMatch(s, i', e))
  {
    match IfcFind(s)
    case None =>
      forall i: nat, e: nat
        ensures !IsIfcMatch(s, i, e)
      {
        if i <= |s| {
          assert IfcMatchAt(s, i).None?;
        }
      }
    case Some((i, e)) =>
      forall i': nat, e': nat | i' < i
        ensures !IsIfcMatch(s, i', e')
      {
        assert IfcMatchAt(s, i').None?;
      }
  }

  // ---------------------------------------------------------------------------
  // findall(r"\d+", t)[-1]

  /** The end of the last digit run of `t[..hi]` (0 when there is none). */
  function LastDigitEnd(t: string, hi: nat): (e: nat)
    requires hi <= |t|
    ensures e <= hi
    ensures forall k | e <= k < hi :: !IsDigit(t[k])
    ensures e > 0 ==> IsDigit(t[e - 1])
  {
    if hi > 0 && !IsDigit(t[hi - 1]) then LastDigitEnd(t, hi - 1) else hi
  }

  /** The start of the digit run that ends at `e`. */
  function DigitRunStart(t: string, e: nat): (b: nat)
    requires e <= |t|
    ensures b <= e
    ensures AllIn(t, b, e, IsDigit)
    ensures b > 0 ==> !IsDigit(t[b - 1])
  {
    if e > 0 && IsDigit(t[e - 1]) then DigitRunStart(t, e - 1) else e
  }

  /**
   * The value of the last maximal digit run of `t` (`ints[-1]` of the
   * `findall`), or `None` when `t` has no digit.
   */
  function LastNumber(t: string): (r: Option<nat>)
    ensures r.None? <==> forall k | 0 <= k < |t| :: !IsDigit(t[k])
    ensures r.Some? ==>
      exists b: nat, e: nat :: b < e <= |t| && AllIn(t, b, e, IsDigit)
        && (b > 0 ==> !IsDigit(t[b - 1]))
        && (forall k | e <= k < |t| :: !IsDigit(t[k]))
        && r.value == DecimalValue(t[b..e])
  {
    var e := LastDigitEnd(t, |t|);
    if e == 0 then None
    else
      var b := DigitRunStart(t, e);
      assert t[b..e] == t[b..e];
      Some(DecimalValue(t[b..e]))
  }

  // ---------------------------------------------------------------------------
  // IUL_KEYWORD_RE

  /** The classes on either side of the keyword: `[\s_]`. */
  predicate IsKeywordBoundary(c: char)
  {
    IsSpace(c) || c == '_'
  }

  /**
   * The keyword `w` (`ИУЛ` or `УЛ`) stands at `k`: preceded by the start of
   * the string or by `[\s_]`, and followed by `[\s_]` or the end.
   */
  predicate KeywordAt(s: string, k: nat, w: string)
  {
    (w == "ИУЛ" || w == "УЛ")
    && OccursAt(s, w, k)
    && (k == 0 || IsKeywordBoundary(s[k - 1]))
    && (k + |w| == |s| || IsKeywordBoundary(s[k + |w|]))
  }

  /**
   * `bool(IUL_KEYWORD_RE.search(s))`: a standalone `ИУЛ` or `УЛ` occurs in
   * `s`; a string ending in `_УЛ` or equal to a keyword has one, and a
   * string shorter than the shortest keyword has none.
   */
  predicate HasIulKeyword(s: string): (found: bool)
    ensures EndsWith(s, "_УЛ") ==> found
    ensures s == "УЛ" || s == "ИУЛ" ==> found
    ensures |s| < 2 ==> !found
  {
    var found := exists k | 0 <= k <= |s| :: KeywordAt(s, k, "ИУЛ") || KeywordAt(s, k, "УЛ");
    assert EndsWith(s, "_УЛ") ==> found by {
      if EndsWith(s, "_УЛ") {
        var k := |s| - 2;
        assert s[k - 1..] == "_УЛ";
        assert s[k - 1] == '_' && s[k..k + 2] == "УЛ";
        assert KeywordAt(s, k, "УЛ");
      }
    }
    assert s == "УЛ" ==> KeywordAt(s, 0, "УЛ");
    assert s == "ИУЛ" ==> KeywordAt(s, 0, "ИУЛ");
    found
  }
}
