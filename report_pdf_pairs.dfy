/**
 * Checking paired PDFs (`build_report_pdf_pairs`): for each certification
 * sheet PDF listed in the pairs, with the base document it belongs to and the
 * checksums the XML expects for both, whether the two PDFs are present among
 * the given files and whether their checksums agree.
 *
 * The report is specified by `PairRows`; `BuildReportPdfPairs` computes it
 * with the loop of the original and is proved equal to it.
 */
module ReportPdfPairs {
  import opened Wrappers
  import opened Text
  import opened Utils
  import opened Seqs

  /** A PDF file with the CRC-32 computed from its contents. */
  datatype PdfFile = PdfFile(name: string, crc: u32)

  /** What the pairs map holds for a sheet: its base document's name, and the expected checksums. */
  datatype PairMeta = PairMeta(baseName: Option<string>, iulCrc: Option<string>, baseCrc: Option<string>)

  /** One report row; `status` holds the codes behind the status column. */
  datatype PairRow = PairRow(
    iulPdf: string,
    iulCrc: Option<string>,
    basePdf: Option<string>,
    baseCrc: Option<string>,
    status: seq<Code>,
    details: Option<string>)

  const MissingIulNote := "Не найден PDF ИУЛ"
  const MissingBaseNote := "Не найден PDF осн."

  function CrcNote(which: string, expected: string, actual: string): string
  {
    "CRC " + which + ": XML=" + expected + ", факт=" + actual
  }

  function NoCrcNote(which: string, actual: string): string
  {
    "CRC " + which + " отсутствует в XML, факт=" + actual
  }

  // ---------------------------------------------------------------------------
  // The name index

  /** `{p.name: p for p in pdf_files}.get(name)`: the last file with that name wins. */
  function Located(files: seq<PdfFile>, name: string): (r: Option<PdfFile>)
    ensures r.None? <==> forall i | 0 <= i < |files| :: files[i].name != name
    ensures r.Some? ==> r.value.name == name
  {
    if files == [] then None
    else if files[|files| - 1].name == name then Some(files[|files| - 1])
    else Located(files[..|files| - 1], name)
  }

  /** `index.get(name)` on the index under construction. */
  function Lookup(index: map<string, PdfFile>, name: string): Option<PdfFile>
  {
    if name in index then Some(index[name]) else None
  }

  // ---------------------------------------------------------------------------
  // The specification of one pair's row

  /** `index.get(base_name) if base_name else None`. */
  function BasePath(files: seq<PdfFile>, meta: PairMeta): Option<PdfFile>
  {
    if meta.baseName.Some? && meta.baseName.value != "" then Located(files, meta.baseName.value) else None
  }

  /** A present file whose checksum is not the expected one, or has none expected. */
  predicate CrcBad(path: Option<PdfFile>, expected: Option<string>)
  {
    path.Some? && (expected.None? || Hex8(path.value.crc) != expected.value)
  }

  /** `code` when the file is missing. */
  function IfMissing(path: Option<PdfFile>, code: Code): seq<Code>
  {
    if path.None? then [code] else []
  }

  /**
   * The status of a pair: `MISSING_IUL` and `MISSING_BASE` for the missing
   * files, then `CRC_MISMATCH` once if either present file's checksum is bad;
   * `OK` when none of these apply.
   */
  function PairStatus(iulPath: Option<PdfFile>, basePath: Option<PdfFile>, iulCrc: Option<string>, baseCrc: Option<string>)
    : seq<Code>
  {
    var codes := IfMissing(iulPath, MissingIul) + IfMissing(basePath, MissingBase)
      + if CrcBad(iulPath, iulCrc) || CrcBad(basePath, baseCrc) then [CrcMismatch] else [];
    if codes == [] then [OK] else codes
  }

  /** The note on a present file's checksum, labelled with the file it is. */
  function CrcNotes(which: string, path: Option<PdfFile>, expected: Option<string>): seq<string>
  {
    if path.None? then []
    else if expected.None? then [NoCrcNote(which, Hex8(path.value.crc))]
    else if Hex8(path.value.crc) != expected.value then [CrcNote(which, expected.value, Hex8(path.value.crc))]
    else []
  }

  function PairNotes(iulPath: Option<PdfFile>, basePath: Option<PdfFile>, iulCrc: Option<string>, baseCrc: Option<string>)
    : seq<string>
  {
    (if iulPath.None? then [MissingIulNote] else []) + (if basePath.None? then [MissingBaseNote] else [])
      + CrcNotes("ИУЛ", iulPath, iulCrc) + CrcNotes("осн.", basePath, baseCrc)
  }

  /**
   * The row of the pair keyed by `iulName`. Its status is never empty, and it
   * is `OK` (alone) exactly when both PDFs are present and each carries the
   * checksum the XML expects.
   */
  function PairRowOf(iulName: string, meta: PairMeta, files: seq<PdfFile>): (r: PairRow)
    ensures var iul, base := Located(files, iulName), BasePath(files, meta);
      && r.iulPdf == iulName
      && r.status != []
      && (OK in r.status ==> r.status == [OK])
      && (OK in r.status <==>
            iul.Some? && base.Some?
            && UpperOrNone(meta.iulCrc) == Some(Hex8(iul.value.crc))
            && UpperOrNone(meta.baseCrc) == Some(Hex8(base.value.crc)))
  {
    var iulCrc, baseCrc := UpperOrNone(meta.iulCrc), UpperOrNone(meta.baseCrc);
    var iulPath, basePath := Located(files, iulName), BasePath(files, meta);
    PairRow(iulName, iulCrc, meta.baseName, baseCrc,
      PairStatus(iulPath, basePath, iulCrc, baseCrc),
      DetailsCell(PairNotes(iulPath, basePath, iulCrc, baseCrc)))
  }

  /** The rows of the pairs, in order. */
  function PairRows(pairs: seq<(string, PairMeta)>, files: seq<PdfFile>): (rows: seq<PairRow>)
    ensures |rows| == |pairs|
  {
    MapSeq((p: (string, PairMeta)) => PairRowOf(p.0, p.1, files), pairs)
  }

  // ---------------------------------------------------------------------------
  // build_report_pdf_pairs

  method BuildReportPdfPairs(pairs: seq<(string, PairMeta)>, pdfFiles: seq<PdfFile>) returns (rows: seq<PairRow>)
    ensures rows == PairRows(pairs, pdfFiles)
  {
    var index := BuildIndex(pdfFiles);
    rows := [];
    for i := 0 to |pairs|
      invariant rows == PairRows(pairs[..i], pdfFiles)
    {
      var (iulName, meta) := pairs[i];
      var row := CheckPair(iulName, meta, pdfFiles, index);
      rows := rows + [row];
      MapSeqSnoc((p: (string, PairMeta)) => PairRowOf(p.0, p.1, pdfFiles), pairs, i);
    }
    assert pairs[..|pairs|] == pairs;
  }

  /** `index = {p.name: p for p in pdf_files}`. */
  method BuildIndex(pdfFiles: seq<PdfFile>) returns (index: map<string, PdfFile>)
    ensures forall name :: Lookup(index, name) == Located(pdfFiles, name)
  {
    index := map[];
    for i := 0 to |pdfFiles|
      invariant forall name :: Lookup(index, name) == Located(pdfFiles[..i], name)
    {
      index := index[pdfFiles[i].name := pdfFiles[i]];
      assert pdfFiles[..i + 1][..i] == pdfFiles[..i];
    }
    assert pdfFiles[..|pdfFiles|] == pdfFiles;
  }

  /** The body of the loop: one pair's row, with the membership-guarded appends of the original. */
  method CheckPair(iulName: string, meta: PairMeta, ghost files: seq<PdfFile>, index: map<string, PdfFile>)
    returns (row: PairRow)
    requires forall name :: Lookup(index, name) == Located(files, name)
    ensures row == PairRowOf(iulName, meta, files)
  {
    var iulCrc := UpperOrNone(meta.iulCrc);
    var baseCrc := UpperOrNone(meta.baseCrc);
    var iulPath := Lookup(index, iulName);
    var basePath := if meta.baseName.Some? && meta.baseName.value != "" then Lookup(index, meta.baseName.value) else None;
    assert iulPath == Located(files, iulName) && basePath == BasePath(files, meta);
    var status: seq<Code> := [];
    var details: seq<string> := [];
    if iulPath.None? {
      status := status + [MissingIul];
      details := details + [MissingIulNote];
    }
    if basePath.None? {
      status := status + [MissingBase];
      details := details + [MissingBaseNote];
    }
    ghost var missingCodes := status;
    assert missingCodes == IfMissing(iulPath, MissingIul) + IfMissing(basePath, MissingBase);
    assert CrcMismatch !in missingCodes && OK !in missingCodes;
    ghost var missing := details;
    assert missing == (if iulPath.None? then [MissingIulNote] else []) + (if basePath.None? then [MissingBaseNote] else []);
    status, details := CheckCrc("ИУЛ", iulPath, iulCrc, status, details);
    status, details := CheckCrc("осн.", basePath, baseCrc, status, details);
    assert details == missing + CrcNotes("ИУЛ", iulPath, iulCrc) + CrcNotes("осн.", basePath, baseCrc);
    assert status == missingCodes + if CrcBad(iulPath, iulCrc) || CrcBad(basePath, baseCrc) then [CrcMismatch] else [];
    if status == [] {
      status := status + [OK];
    }
    assert status == PairStatus(iulPath, basePath, iulCrc, baseCrc);
    row := PairRow(iulName, iulCrc, meta.baseName, baseCrc, status, DetailsCell(details));
  }

  /**
   * The checksum check of one present file: `CRC_MISMATCH` unless the status
   * already has it (for the sheet, checked first, it never has), and a note.
   */
  method CheckCrc(which: string, path: Option<PdfFile>, expected: Option<string>, status: seq<Code>, details: seq<string>)
    returns (status': seq<Code>, details': seq<string>)
    ensures status' == if CrcBad(path, expected) && CrcMismatch !in status then status + [CrcMismatch] else status
    ensures details' == details + CrcNotes(which, path, expected)
  {
    status', details' := status, details;
    if path.Some? && expected.Some? {
      var actual := Hex8(path.value.crc);
      if actual != expected.value {
        if CrcMismatch !in status' {
          status' := status' + [CrcMismatch];
        }
        details' := details' + [CrcNote(which, expected.value, actual)];
      }
    } else if path.Some? {
      var actual := Hex8(path.value.crc);
      if CrcMismatch !in status' {
        status' := status' + [CrcMismatch];
      }
      details' := details' + [NoCrcNote(which, actual)];
    }
  }

  // ---------------------------------------------------------------------------
  // Properties

  /** When several files share a name, the index holds the last of them. */
  lemma {:induction false} LocatedLast(files: seq<PdfFile>, name: string) returns (i: nat)
    requires Located(files, name).Some?
    ensures i < |files| && files[i] == Located(files, name).value
    ensures forall k | i < k < |files| :: files[k].name != name
  {
    var n := |files| - 1;
    if files[n].name == name {
      i := n;
    } else {
      i := LocatedLast(files[..n], name);
    }
  }

  /** The report has one row per pair, in the pairs' order, each keyed by its sheet's name. */
  lemma PairRowsAt(pairs: seq<(string, PairMeta)>, files: seq<PdfFile>)
    ensures forall i | 0 <= i < |pairs| :: PairRows(pairs, files)[i] == PairRowOf(pairs[i].0, pairs[i].1, files)
    ensures forall i | 0 <= i < |pairs| :: PairRows(pairs, files)[i].iulPdf == pairs[i].0
  {
    MapSeqAt((p: (string, PairMeta)) => PairRowOf(p.0, p.1, files), pairs);
  }

  /**
   * `MISSING_IUL` exactly when no file bears the sheet's name; `MISSING_BASE`
   * exactly when the base name is absent or empty, or no file bears it.
   */
  lemma MissingCodes(iulName: string, meta: PairMeta, files: seq<PdfFile>)
    ensures var st := PairRowOf(iulName, meta, files).status;
      && (MissingIul in st <==> forall i | 0 <= i < |files| :: files[i].name != iulName)
      && (MissingBase in st <==>
            meta.baseName.None? || meta.baseName.value == ""
            || forall i | 0 <= i < |files| :: files[i].name != meta.baseName.value)
  {
  }

  /**
   * `CRC_MISMATCH` exactly when a present file has no expected checksum or a
   * different one, and never more than once.
   */
  lemma CrcMismatchCode(iulName: string, meta: PairMeta, files: seq<PdfFile>)
    ensures var st, iul, base := PairRowOf(iulName, meta, files).status, Located(files, iulName), BasePath(files, meta);
      && (CrcMismatch in st <==>
            (iul.Some? && (UpperOrNone(meta.iulCrc).None? || Hex8(iul.value.crc) != UpperOrNone(meta.iulCrc).value))
            || (base.Some? && (UpperOrNone(meta.baseCrc).None? || Hex8(base.value.crc) != UpperOrNone(meta.baseCrc).value)))
      && (forall a, b | 0 <= a < b < |st| :: st[a] != st[b])
  {
  }

  /** The expected checksums are shown upper-cased, an empty one as absent. */
  lemma ExpectedCrcColumns(iulName: string, meta: PairMeta, files: seq<PdfFile>)
    ensures var r := PairRowOf(iulName, meta, files);
      && (r.iulCrc.None? <==> meta.iulCrc.None? || meta.iulCrc.value == "")
      && (r.iulCrc.Some? ==> r.iulCrc.value != "" && UpperStr(r.iulCrc.value) == r.iulCrc.value)
      && (r.baseCrc.None? <==> meta.baseCrc.None? || meta.baseCrc.value == "")
      && (r.baseCrc.Some? ==> r.baseCrc.value != "" && UpperStr(r.baseCrc.value) == r.baseCrc.value)
  {
    if meta.iulCrc.Some? {
      UpperStrIdempotent(meta.iulCrc.value);
    }
    if meta.baseCrc.Some? {
      UpperStrIdempotent(meta.baseCrc.value);
    }
  }
}
