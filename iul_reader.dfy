/**
 * Mining a certification sheet (ИУЛ): the page text of a PDF is normalised,
 * split into lines, and every line naming an `.ifc` file yields an entry with
 * the checksum, date and size found for it. The PDF text extractors are not
 * modelled: each document arrives as its primary text and its OCR text.
 */
module IulReader {
  import opened Wrappers
  import opened Text
  import opened OrderedDict
  import opened IulPatterns
  import opened Seqs

  /** One file listed on a certification sheet. */
  datatype IulEntry = IulEntry(
    basename: string,
    crcHex: Option<string>,
    dtStr: Option<string>,
    sizeBytes: Option<nat>,
    context: string,
    sourcePdf: string)

  /** A scanned PDF: its name and the text its two extractors return (`""` on failure). */
  datatype PdfText = PdfText(name: string, primary: string, ocr: string)

  // ---------------------------------------------------------------------------
  // _normalize_text

  function StripAll(ls: seq<string>): (r: seq<string>)
    ensures |r| == |ls| && forall k | 0 <= k < |ls| :: r[k] == Strip(ls[k])
  {
    seq(|ls|, k requires 0 <= k < |ls| => Strip(ls[k]))
  }

  /** Carriage returns become newlines, then every line is stripped; empty lines stay. No carriage return is left. */
  function Normalize(txt: string): (r: string)
    ensures '\r' !in r
  {
    var ls := StripAll(SplitLines(ReplaceChar(txt, '\r', '\n')));
    NoCarriageReturnLeft(txt);
    Join(ls, "\n")
  }

  lemma NoCarriageReturnLeft(txt: string)
    ensures '\r' !in Join(StripAll(SplitLines(ReplaceChar(txt, '\r', '\n'))), "\n")
  {
    var ls := StripAll(SplitLines(ReplaceChar(txt, '\r', '\n')));
    StrippedLinesHaveNoBreaks(SplitLines(ReplaceChar(txt, '\r', '\n')));
    forall l | l in ls
      ensures '\r' !in l
    {
      assert IsLineBreak('\r');
    }
    JoinChars(ls, "\n", '\r');
  }

  lemma StrippedLinesHaveNoBreaks(ls: seq<string>)
    requires forall l | l in ls :: NoLineBreak(l)
    ensures forall l | l in StripAll(ls) :: NoLineBreak(l)
  {
    forall l | l in StripAll(ls)
      ensures NoLineBreak(l)
    {
      var k :| 0 <= k < |ls| && StripAll(ls)[k] == l;
      assert ls[k] in ls;
      StripNoLineBreak(ls[k]);
    }
  }

  /** Every line of normalised text is its own stripped form. */
  lemma NormalizeLinesStripped(txt: string)
    ensures forall l | l in SplitLines(Normalize(txt)) :: Strip(l) == l
  {
    var raw := SplitLines(ReplaceChar(txt, '\r', '\n'));
    var ls := StripAll(raw);
    StrippedLinesHaveNoBreaks(raw);
    SplitLinesOfJoin(ls);
    forall l | l in SplitLines(Normalize(txt))
      ensures Strip(l) == l
    {
      var k :| 0 <= k < |ls| && ls[k] == l;
      StripFixpoint(raw[k]);
    }
  }

  /** The lines that are not empty, in order (`[ln for ln in lines if ln]`). */
  function NonEmpty(ls: seq<string>): (r: seq<string>)
    ensures forall l | l in r :: l != "" && l in ls
    ensures forall l | l in ls && l != "" :: l in r
  {
    if ls == [] then []
    else (if ls[0] == "" then [] else [ls[0]]) + NonEmpty(ls[1..])
  }

  lemma {:induction false} NonEmptyAppend(a: seq<string>, b: seq<string>)
    ensures NonEmpty(a + b) == NonEmpty(a) + NonEmpty(b)
  {
    if a == [] {
      assert a + b == b;
    } else {
      assert (a + b)[0] == a[0];
      assert (a + b)[1..] == a[1..] + b;
      NonEmptyAppend(a[1..], b);
    }
  }

  lemma NonEmptyDropTrailing(ls: seq<string>)
    ensures NonEmpty(DropTrailingEmpty(ls)) == NonEmpty(ls)
  {
    if ls != [] && ls[|ls| - 1] == "" {
      var n := |ls| - 1;
      assert ls == ls[..n] + [""];
      NonEmptyAppend(ls[..n], [""]);
      assert NonEmpty([""]) == [];
    }
  }

  /**
   * The parser sees exactly the stripped non-empty lines of the raw text: the
   * empty lines that normalisation keeps are the ones it drops.
   */
  lemma NormalizeNonEmptyLines(txt: string)
    ensures NonEmpty(SplitLines(Normalize(txt)))
         == NonEmpty(StripAll(SplitLines(ReplaceChar(txt, '\r', '\n'))))
  {
    var raw := SplitLines(ReplaceChar(txt, '\r', '\n'));
    var ls := StripAll(raw);
    assert Normalize(txt) == Join(ls, "\n");
    StrippedLinesHaveNoBreaks(raw);
    SplitLinesOfJoin(ls);
    NonEmptyDropTrailing(ls);
  }

  // ---------------------------------------------------------------------------
  // _parse_entries

  /** The checksum a line records, upper-cased (`m_crc.group(1).upper()`). */
  function LineCrc(ln: string): (r: Option<string>)
    ensures r.Some? ==> |r.value| == 8 && AllUpperHex(r.value)
  {
    match CrcCapture(ln)
    case None => None
    case Some(c) => Some(UpperStr(c))
  }

  /** The checksum recorded by each line. */
  function LineCrcs(lines: seq<string>): (cs: seq<Option<string>>)
    ensures |cs| == |lines| && forall j | 0 <= j < |lines| :: cs[j] == LineCrc(lines[j])
  {
    seq(|lines|, j requires 0 <= j < |lines| => LineCrc(lines[j]))
  }

  /** `last_crc` once the first `n` lines are read. */
  function CrcBefore(lines: seq<string>, n: nat): Option<string>
    requires n <= |lines|
  {
    Latest(LineCrcs(lines), n)
  }

  /** A line names a file when it has a literal `.ifc` or `.IFC` and `IFC_RE` matches it. */
  predicate HasIfcMarker(ln: string)
  {
    Contains(ln, ".ifc") || Contains(ln, ".IFC")
  }

  /** `x or None` for an optional string. */
  function OrNone(x: Option<string>): Option<string>
  {
    if x == Some("") then None else x
  }

  /**
   * The size of a listed file: the number labelled "Размер файла" anywhere on
   * the line, else the last number after the file name, else none.
   */
  function LineSize(ln: string, nameEnd: nat): (r: Option<nat>)
    requires nameEnd <= |ln|
    ensures r.None? <==>
      (forall i: nat, p: nat, a: nat, b: nat :: !IsSizeMatch(ln, i, p, a, b))
      && forall k | nameEnd <= k < |ln| :: !IsDigit(ln[k])
    ensures (exists i: nat, p: nat, a: nat, b: nat :: IsSizeMatch(ln, i, p, a, b)) ==> r == SizeCapture(ln)
    ensures (forall i: nat, p: nat, a: nat, b: nat :: !IsSizeMatch(ln, i, p, a, b)) ==> r == LastNumber(ln[nameEnd..])
  {
    SizeCaptureSpec(ln);
    var t := ln[nameEnd..];
    assert forall k | nameEnd <= k < |ln| :: ln[k] == t[k - nameEnd];
    assert forall k | 0 <= k < |t| :: t[k] == ln[nameEnd + k];
    if SizeCapture(ln).Some? then SizeCapture(ln) else LastNumber(t)
  }

  /**
   * The entry a line yields, given the checksum in force for it: one exactly
   * when the line has the marker and `IFC_RE` matches it.
   */
  function LineEntry(ln: string, crc: Option<string>, pdfName: string): (r: Option<IulEntry>)
    ensures r.Some? <==> HasIfcMarker(ln) && IfcSearch(ln).Some?
    ensures r.Some? ==> r.value.context == ln && r.value.sourcePdf == pdfName
  {
    if !HasIfcMarker(ln) then None
    else
      match IfcSearch(ln)
      case None => None
      case Some((i, e)) =>
        Some(IulEntry(ln[i..e], OrNone(crc), DtCapture(ln), LineSize(ln, e), ln, pdfName))
  }

  /**
   * The fields of the entry a line yields: the text `IFC_RE` matched, the
   * checksum in force (`or None`), the line's date capture and its size after
   * the match.
   */
  lemma LineEntryFields(ln: string, crc: Option<string>, pdfName: string)
    requires HasIfcMarker(ln) && IfcSearch(ln).Some?
    ensures var r, (i, e) := LineEntry(ln, crc, pdfName).value, IfcSearch(ln).value;
      && r.basename == ln[i..e] && r.crcHex == OrNone(crc)
      && r.dtStr == DtCapture(ln) && r.sizeBytes == LineSize(ln, e)
  {
  }

  /** What each line yields, with the checksum in force for it. */
  function Outcomes(lines: seq<string>, pdfName: string): (xs: seq<Option<IulEntry>>)
    ensures |xs| == |lines|
    ensures forall j | 0 <= j < |lines| :: xs[j] == LineEntry(lines[j], CrcBefore(lines, j + 1), pdfName)
  {
    seq(|lines|, j requires 0 <= j < |lines| => LineEntry(lines[j], CrcBefore(lines, j + 1), pdfName))
  }

  /** The entries of the first `n` lines. */
  function Parse(lines: seq<string>, n: nat, pdfName: string): seq<IulEntry>
    requires n <= |lines|
  {
    Somes(Outcomes(lines, pdfName), n)
  }

  /**
   * `_parse_entries(text, pdf_name)`: every entry comes from a non-empty line
   * of the text that has an `.ifc` marker, and records the PDF it was read from.
   */
  function ParseText(text: string, pdfName: string): (r: seq<IulEntry>)
    ensures forall e | e in r ::
      e.sourcePdf == pdfName && HasIfcMarker(e.context) && e.context != "" && e.context in SplitLines(text)
  {
    var lines := NonEmpty(SplitLines(text));
    ParseProvenance(lines, |lines|, pdfName);
    assert lines[..|lines|] == lines;
    Parse(lines, |lines|, pdfName)
  }

  /**
   * `_parse_entries`: one pass over the non-empty lines, carrying the most
   * recent checksum from line to line.
   */
  method ParseEntries(text: string, pdfName: string) returns (entries: seq<IulEntry>)
    ensures entries == ParseText(text, pdfName)
  {
    var lines := NonEmpty(SplitLines(text));
    entries := [];
    var lastCrc: Option<string> := None;
    for n := 0 to |lines|
      invariant lastCrc == CrcBefore(lines, n)
      invariant entries == Parse(lines, n, pdfName)
    {
      var entry;
      lastCrc, entry := ParseLine(lines[n], lastCrc, pdfName);
      ParseStep(lines, n, pdfName);
      if entry.Some? {
        entries := entries + [entry.value];
      }
    }
  }

  /** Reading line `n` updates the checksum in force and appends the entry the line yields, if any. */
  lemma ParseStep(lines: seq<string>, n: nat, pdfName: string)
    requires n < |lines|
    ensures CrcBefore(lines, n + 1) == if LineCrc(lines[n]).Some? then LineCrc(lines[n]) else CrcBefore(lines, n)
    ensures var x := LineEntry(lines[n], CrcBefore(lines, n + 1), pdfName);
      Parse(lines, n + 1, pdfName) == Parse(lines, n, pdfName) + if x.Some? then [x.value] else []
  {
    CrcStep(lines, n);
    SomesStep(Outcomes(lines, pdfName), n, LineEntry(lines[n], CrcBefore(lines, n + 1), pdfName));
  }

  lemma CrcStep(lines: seq<string>, n: nat)
    requires n < |lines|
    ensures CrcBefore(lines, n + 1) == if LineCrc(lines[n]).Some? then LineCrc(lines[n]) else CrcBefore(lines, n)
  {
    assert LineCrcs(lines)[n] == LineCrc(lines[n]);
  }

  /** The body of the loop for one line: the checksum now in force, and the entry the line yields. */
  method ParseLine(ln: string, lastCrc: Option<string>, pdfName: string) returns (crc: Option<string>, entry: Option<IulEntry>)
    ensures crc == if LineCrc(ln).Some? then LineCrc(ln) else lastCrc
    ensures entry == LineEntry(ln, crc, pdfName)
  {
    crc := lastCrc;
    entry := None;
    var mCrc := CrcCapture(ln);
    if mCrc.Some? {
      crc := Some(UpperStr(mCrc.value));
    }
    if Contains(ln, ".ifc") || Contains(ln, ".IFC") {
      var mIfc := IfcSearch(ln);
      if mIfc.None? {
        return;
      }
      var (start, end) := mIfc.value;
      var fname := ln[start..end];
      var dt := DtCapture(ln);
      var size: Option<nat> := None;
      var mSize := SizeCapture(ln);
      if mSize.Some? {
        size := mSize;
      } else {
        size := LastNumber(ln[end..]);
      }
      entry := Some(IulEntry(fname, if crc == Some("") then None else crc, dt, size, ln, pdfName));
    }
  }

  /** Whether a line yields an entry does not depend on the checksum or the PDF name. */
  lemma LineEntryEmits(ln: string, crc: Option<string>, pdfName: string)
    ensures LineEntry(ln, crc, pdfName).Some? <==> LineEntry(ln, None, "").Some?
  {
  }

  /**
   * The parse has one entry per line that names a file, in line order; the
   * entry is built from that line and the checksum in force there.
   */
  lemma ParseFollowsLines(lines: seq<string>, n: nat, pdfName: string)
    requires n <= |lines|
    ensures var js := SomeIndices(Outcomes(lines, pdfName), n);
      && |Parse(lines, n, pdfName)| == |js|
      && (forall k, l | 0 <= k < l < |js| :: js[k] < js[l])
      && (forall j | 0 <= j < n :: j in js <==> LineEntry(lines[j], None, "").Some?)
      && (forall k | 0 <= k < |js| ::
            js[k] < n && Some(Parse(lines, n, pdfName)[k]) == LineEntry(lines[js[k]], CrcBefore(lines, js[k] + 1), pdfName))
  {
    var xs := Outcomes(lines, pdfName);
    SomesAt(xs, n);
    forall j | 0 <= j < n
      ensures xs[j].Some? <==> LineEntry(lines[j], None, "").Some?
    {
      LineEntryEmits(lines[j], CrcBefore(lines, j + 1), pdfName);
    }
  }

  /**
   * The checksum in force after `n` lines is the one recorded by the last line
   * among them that has one, and none when no line has one.
   */
  lemma CrcBeforeNearest(lines: seq<string>, n: nat)
    requires n <= |lines|
    ensures CrcBefore(lines, n).None? <==> forall j | 0 <= j < n :: LineCrc(lines[j]).None?
    ensures CrcBefore(lines, n).Some? ==>
      exists j | 0 <= j < n :: LineCrc(lines[j]) == CrcBefore(lines, n)
        && forall j' | j < j' < n :: LineCrc(lines[j']).None?
  {
    LatestNearest(LineCrcs(lines), n);
  }

  /** A recorded checksum is never empty, so `last_crc or None` is `last_crc`. */
  lemma CrcBeforeWellFormed(lines: seq<string>, n: nat)
    requires n <= |lines|
    ensures CrcBefore(lines, n).Some? ==> |CrcBefore(lines, n).value| == 8 && AllUpperHex(CrcBefore(lines, n).value)
    ensures OrNone(CrcBefore(lines, n)) == CrcBefore(lines, n)
  {
    CrcBeforeNearest(lines, n);
  }

  /** Every entry names its source PDF and keeps its own line as context. */
  lemma ParseProvenance(lines: seq<string>, n: nat, pdfName: string)
    requires n <= |lines|
    ensures forall e | e in Parse(lines, n, pdfName) ::
      e.sourcePdf == pdfName && e.context in lines[..n] && HasIfcMarker(e.context)
  {
    var xs := Outcomes(lines, pdfName);
    var ps := Parse(lines, n, pdfName);
    SomesAt(xs, n);
    forall k | 0 <= k < |ps|
      ensures ps[k].sourcePdf == pdfName && ps[k].context in lines[..n] && HasIfcMarker(ps[k].context)
    {
      var j := SomeIndices(xs, n)[k];
      assert xs[j] == LineEntry(lines[j], CrcBefore(lines, j + 1), pdfName);
      assert lines[..n][j] == lines[j];
    }
  }

  /**
   * The other direction of `ParseText`'s contract: `js` lists, in increasing
   * order, exactly the non-empty lines that have the marker and on which
   * `IFC_RE` matches, and the `k`-th entry is the one line `js[k]` yields with
   * the checksum in force there.
   */
  lemma ParseTextLines(text: string, pdfName: string)
    ensures var lines, r := NonEmpty(SplitLines(text)), ParseText(text, pdfName);
      var js := SomeIndices(Outcomes(lines, pdfName), |lines|);
      && |r| == |js|
      && (forall k, l | 0 <= k < l < |js| :: js[k] < js[l])
      && (forall j | 0 <= j < |lines| :: j in js <==> HasIfcMarker(lines[j]) && IfcSearch(lines[j]).Some?)
      && (forall k | 0 <= k < |js| ::
            js[k] < |lines| && r[k].context == lines[js[k]]
            && Some(r[k]) == LineEntry(lines[js[k]], CrcBefore(lines, js[k] + 1), pdfName))
  {
    var lines := NonEmpty(SplitLines(text));
    assert ParseText(text, pdfName) == Parse(lines, |lines|, pdfName);
    ParseFollowsLines(lines, |lines|, pdfName);
    forall j | 0 <= j < |lines|
      ensures LineEntry(lines[j], None, "").Some? <==> HasIfcMarker(lines[j]) && IfcSearch(lines[j]).Some?
    {
    }
  }

  // ---------------------------------------------------------------------------
  // extract_iul_entries_from_pdf, extract_iul_entries

  /** The entries of one PDF: from its primary text, or from OCR when that gives none. */
  function PdfEntries(doc: PdfText): (es: seq<IulEntry>)
    ensures es == [] <==> ParseText(Normalize(doc.primary), doc.name) == [] && ParseText(Normalize(doc.ocr), doc.name) == []
    ensures forall e | e in es :: e.sourcePdf == doc.name && HasIfcMarker(e.context)
    ensures ParseText(Normalize(doc.primary), doc.name) != [] ==> es == ParseText(Normalize(doc.primary), doc.name)
    ensures ParseText(Normalize(doc.primary), doc.name) == [] ==> es == ParseText(Normalize(doc.ocr), doc.name)
  {
    var primary := ParseText(Normalize(doc.primary), doc.name);
    if primary != [] then primary else ParseText(Normalize(doc.ocr), doc.name)
  }

  /** `extract_iul_entries_from_pdf`: the OCR text is read only when the primary text yields nothing. */
  method ExtractIulEntriesFromPdf(doc: PdfText) returns (entries: seq<IulEntry>)
    ensures entries == PdfEntries(doc)
  {
    var text := Normalize(doc.primary);
    entries := ParseEntries(text, doc.name);
    if entries == [] {
      var textOcr := Normalize(doc.ocr);
      entries := ParseEntries(textOcr, doc.name);
    }
  }

  /** The entries of a PDF keyed by their basenames. */
  function Keyed(es: seq<IulEntry>): (r: seq<(string, IulEntry)>)
    ensures |r| == |es| && forall k | 0 <= k < |es| :: r[k] == (es[k].basename, es[k])
  {
    seq(|es|, k requires 0 <= k < |es| => (es[k].basename, es[k]))
  }

  /** All candidate `(basename, entry)` pairs, by PDF and then by line. */
  function AllKeyed(docs: seq<PdfText>): seq<(string, IulEntry)>
  {
    if docs == [] then [] else AllKeyed(docs[..|docs| - 1]) + Keyed(PdfEntries(docs[|docs| - 1]))
  }

  /**
   * `extract_iul_entries`: the first entry seen for each basename wins; the
   * dict is then `FirstWins(AllKeyed(docs))`, whose keys, values and order
   * are those of `OrderedDict.FirstWinsKeys`, `FirstWinsEarliest` and
   * `FirstWinsOrder`.
   */
  method ExtractIulEntries(docs: seq<PdfText>) returns (res: seq<(string, IulEntry)>)
    ensures res == FirstWins(AllKeyed(docs))
  {
    res := [];
    for d := 0 to |docs|
      invariant res == FirstWins(AllKeyed(docs[..d]))
    {
      assert docs[..d + 1][..d] == docs[..d];
      var es := ExtractIulEntriesFromPdf(docs[d]);
      res := InsertFirstWins(res, AllKeyed(docs[..d]), Keyed(es));
    }
    assert docs[..|docs|] == docs;
  }

  // ---------------------------------------------------------------------------
  // pdf_name_ok_lenient, pdf_name_ok_strict

  /** The index of the last `.` in `s[..hi]` (`rfind`). */
  function LastDot(s: string, hi: nat): (r: Option<nat>)
    requires hi <= |s|
    ensures r.Some? ==> r.value < hi && s[r.value] == '.' && forall k | r.value < k < hi :: s[k] != '.'
    ensures r.None? ==> forall k | 0 <= k < hi :: s[k] != '.'
  {
    if hi == 0 then None else if s[hi - 1] == '.' then Some(hi - 1) else LastDot(s, hi - 1)
  }

  /**
   * `Path(name).stem` of a file name: the name without its last suffix, where
   * a suffix starts at a dot that is neither first nor last.
   */
  function Stem(name: string): (r: string)
    ensures name == "." ==> r == ""
    ensures name != "." ==> r <= name
    ensures name != "." && r != name ==>
      0 < |r| < |name| - 1 && name[|r|] == '.' && forall k | |r| < k < |name| :: name[k] != '.'
  {
    if name == "." then ""
    else
      match LastDot(name, |name|)
      case Some(i) => if 0 < i < |name| - 1 then name[..i] else name
      case None => name
  }

  /** The upper-cased stem both rules compare. */
  function UpperStem(name: string): string
  {
    UpperStr(Stem(name))
  }

  /**
   * Lenient rule: the PDF stem contains the IFC stem and a standalone `ИУЛ` or
   * `УЛ`. It accepts every name the strict rule accepts, and no name whose
   * stem does not contain the IFC stem.
   */
  predicate PdfNameOkLenient(ifcName: string, pdfName: string): (ok: bool)
    ensures PdfNameOkStrict(ifcName, pdfName) ==> ok
    ensures !Contains(UpperStem(pdfName), UpperStem(ifcName)) ==> !ok
  {
    Contains(UpperStem(pdfName), UpperStem(ifcName)) && HasIulKeyword(UpperStem(pdfName))
  }

  /**
   * Strict rule: the PDF stem contains the IFC stem and ends with `_УЛ`; an
   * accepted stem therefore has a standalone keyword.
   */
  predicate PdfNameOkStrict(ifcName: string, pdfName: string): (ok: bool)
    ensures ok ==> HasIulKeyword(UpperStem(pdfName))
    ensures !Contains(UpperStem(pdfName), UpperStem(ifcName)) ==> !ok
  {
    Contains(UpperStem(pdfName), UpperStem(ifcName)) && EndsWith(UpperStem(pdfName), "_УЛ")
  }
}
