/**
 * Reconciling IFC files on disk with the records read from certification
 * sheets (`build_report_iul`). Each file is matched by exact name or, failing
 * that, as the only record carrying its checksum; the record's checksum, size,
 * date and PDF name are then checked independently. Records no file consumed
 * become rows of their own.
 *
 * The report is specified by `Report`; `BuildReportIul` computes it with the
 * loops of the original and is proved equal to it.
 */
module ReportIul {
  import opened Wrappers
  import opened Text
  import opened OrderedDict
  import opened Seqs
  import opened IulReader
  import opened Utils

  /**
   * An IFC file together with what is read from disk: its CRC-32, its size in
   * bytes and its modification time already formatted as `DD.MM.YYYY HH:MM`.
   */
  datatype IfcFile = IfcFile(name: string, crc: u32, size: nat, mtime: string)

  /** One report row, column by column; `status` holds the codes behind the status column. */
  datatype Row = Row(
    fileName: Option<string>,
    pdfName: Option<string>,
    iulFile: Option<string>,
    iulCrc: Option<string>,
    ifcCrc: Option<string>,
    iulDt: Option<string>,
    ifcDt: Option<string>,
    iulSize: Option<nat>,
    ifcSize: Option<nat>,
    nameOk: string,
    crcOk: string,
    dtOk: string,
    sizeOk: string,
    pdfRuleOk: string,
    status: seq<Code>,
    details: Option<string>,
    recommendation: Option<string>)

  /** `RECOMMENDATIONS.get(code)`. */
  function Recommendations(code: Code): (r: Option<string>)
    ensures r.Some? ==> r.value != ""
    ensures r.None? <==> code in {ErrorXmlExtra, MissingIul, MissingBase, MissingIfc, MissingPdf, MissingXml}
  {
    match code
    case OK => Some("Действий не требуется")
    case ErrorIfcExtra => Some("Удалите лишний файл или добавьте запись в ИУЛ")
    case ErrorIulExtra => Some("Удалите лишнюю запись из ИУЛ или добавьте соответствующий файл")
    case CrcMismatch => Some("Проверьте корректность файлов и пересоздайте CRC")
    case NameMismatch => Some("Переименуйте файл или обновите запись в ИУЛ")
    case SizeMismatch => Some("Проверьте размер файла и обновите информацию в ИУЛ")
    case DtMismatch => Some("Обновите дату/время в ИУЛ или замените файл")
    case PdfNameMismatch => Some("Переименуйте PDF согласно требуемому правилу")
    case _ => None
  }

  // ---------------------------------------------------------------------------
  // Notes written to the details column

  const RenamedNote := "Сопоставлено по CRC-32, имя различается"
  const NoRecordNote := "Файл есть, но отсутствует запись в ИУЛ"
  const NoCrcNote := "В ИУЛ отсутствует CRC-32"
  const NoSizeNote := "В ИУЛ отсутствует размер файла"
  const NoDtNote := "В ИУЛ отсутствует дата/время"
  const OrphanNote := "Запись в ИУЛ есть, соответствующий файл не найден"

  function ManyHitsNote(crc: string): string
  {
    "Найдено несколько записей в ИУЛ с тем же CRC (" + crc + ")"
  }

  function CrcNote(iul: string, ifc: string): string
  {
    "CRC-32 не совпадает: ИУЛ=" + iul + ", IFC=" + ifc
  }

  function SizeNote(iul: nat, ifc: nat): string
  {
    "Размер не совпадает: ИУЛ=" + DecimalString(iul) + ", IFC=" + DecimalString(ifc)
  }

  function DtNote(iul: string, ifc: string): string
  {
    "Дата/время не совпадает: ИУЛ=" + iul + ", IFC=" + ifc
  }

  function PdfNote(pdf: string, strict: bool): string
  {
    "Имя PDF не соответствует правилу: " + pdf + " ["
      + (if strict then "строгое (_УЛ.pdf)" else "мягкое (содержит ИУЛ и имя IFC)") + "]"
  }

  // ---------------------------------------------------------------------------
  // Record fields as the report reads them

  /** `e.crc_hex` is truthy. */
  predicate HasCrc(e: IulEntry)
  {
    e.crcHex.Some? && e.crcHex.value != ""
  }

  /** The record's checksum, upper-cased, when it has one (the `CRC-32 ИУЛ` column). */
  function IulCrc(e: IulEntry): (r: Option<string>)
    ensures r.Some? <==> HasCrc(e)
  {
    if HasCrc(e) then Some(UpperStr(e.crcHex.value)) else None
  }

  /** `e.dt_str` is truthy. */
  predicate HasDt(e: IulEntry)
  {
    e.dtStr.Some? && e.dtStr.value != ""
  }

  /** The PDF name rule chosen by `strict`. */
  predicate PdfRuleOk(strict: bool, ifcName: string, pdfName: string)
  {
    if strict then PdfNameOkStrict(ifcName, pdfName) else PdfNameOkLenient(ifcName, pdfName)
  }

  // ---------------------------------------------------------------------------
  // The checksum index

  /** `iul_crc_index.get(c, [])`: the keys whose record's upper-cased checksum is `c`, in map order. */
  function CrcHits(m: seq<(string, IulEntry)>, c: string): seq<string>
  {
    if m == [] then []
    else CrcHits(m[..|m| - 1], c) + if IulCrc(m[|m| - 1].1) == Some(c) then [m[|m| - 1].0] else []
  }

  /** `d.get(c, [])` for the index under construction. */
  function IndexGet(index: map<string, seq<string>>, c: string): seq<string>
  {
    if c in index then index[c] else []
  }

  // ---------------------------------------------------------------------------
  // The specification of one file's row

  /**
   * How a file finds its record: under its own name, as the only record
   * carrying its checksum (with that record's key), or not at all (with the
   * checksum hits that were found).
   */
  datatype Match = ByName(e: IulEntry) | ByCrc(key: string, e: IulEntry) | Unmatched(hits: seq<string>)

  function FindRecord(m: seq<(string, IulEntry)>, f: IfcFile): Match
  {
    if HasKey(m, f.name) then ByName(Get(m, f.name).value)
    else
      var hits := CrcHits(m, Hex8(f.crc));
      if |hits| == 1 && HasKey(m, hits[0]) then ByCrc(hits[0], Get(m, hits[0]).value) else Unmatched(hits)
  }

  function MatchedEntry(mt: Match): Option<IulEntry>
  {
    if mt.Unmatched? then None else Some(mt.e)
  }

  /** The key a file consumes, if any. */
  function Consumed(m: seq<(string, IulEntry)>, f: IfcFile): Option<string>
  {
    match FindRecord(m, f)
    case ByName(_) => Some(f.name)
    case ByCrc(k, _) => Some(k)
    case Unmatched(_) => None
  }

  // The five comparison outcomes; `None` is "not compared".

  function NameFlag(mt: Match, f: IfcFile): Option<bool>
  {
    match mt
    case ByName(_) => Some(true)
    case ByCrc(_, e) => Some(e.basename == f.name)
    case Unmatched(_) => None
  }

  function CrcFlag(mt: Match, f: IfcFile): Option<bool>
  {
    match mt
    case ByName(e) => if HasCrc(e) then Some(IulCrc(e).value == Hex8(f.crc)) else None
    case ByCrc(_, _) => Some(true)
    case Unmatched(_) => None
  }

  function EntrySizeFlag(e: IulEntry, f: IfcFile): Option<bool>
  {
    if e.sizeBytes.None? then None else Some(e.sizeBytes.value == f.size)
  }

  function EntryDtFlag(e: IulEntry, f: IfcFile): Option<bool>
  {
    if !HasDt(e) then None else Some(e.dtStr.value == f.mtime)
  }

  function EntryPdfFlag(e: IulEntry, f: IfcFile, strict: bool): Option<bool>
  {
    if e.sourcePdf == "" then None else Some(PdfRuleOk(strict, f.name, e.sourcePdf))
  }

  function SizeFlag(mt: Match, f: IfcFile): Option<bool>
  {
    if mt.Unmatched? then None else EntrySizeFlag(mt.e, f)
  }

  function DtFlag(mt: Match, f: IfcFile): Option<bool>
  {
    if mt.Unmatched? then None else EntryDtFlag(mt.e, f)
  }

  function PdfFlag(mt: Match, f: IfcFile, strict: bool): Option<bool>
  {
    if mt.Unmatched? then None else EntryPdfFlag(mt.e, f, strict)
  }

  /** The codes of the lookup: a renamed file, or a checksum that differs. */
  function LookupCodes(mt: Match, f: IfcFile): seq<Code>
  {
    IfFailed(NameFlag(mt, f), NameMismatch) + IfFailed(CrcFlag(mt, f), CrcMismatch)
  }

  /** The codes of the checks on a found record: size, date and PDF name. */
  function EntryCodes(e: IulEntry, f: IfcFile, strict: bool): seq<Code>
  {
    IfFailed(EntrySizeFlag(e, f), SizeMismatch) + IfFailed(EntryDtFlag(e, f), DtMismatch)
      + IfFailed(EntryPdfFlag(e, f, strict), PdfNameMismatch)
  }

  /**
   * The status of a file's row: `ERROR_IFC_EXTRA` when no record was found;
   * otherwise one code per failed comparison, in column order, or `OK` when
   * none failed.
   */
  function FileStatus(mt: Match, f: IfcFile, strict: bool): seq<Code>
  {
    if mt.Unmatched? then [ErrorIfcExtra]
    else
      var codes := LookupCodes(mt, f) + EntryCodes(mt.e, f, strict);
      if codes == [] then [OK] else codes
  }

  // The notes on a found record's size, date and PDF name.

  function SizeNotes(e: IulEntry, f: IfcFile): seq<string>
  {
    if e.sizeBytes.None? then [NoSizeNote]
    else if e.sizeBytes.value != f.size then [SizeNote(e.sizeBytes.value, f.size)] else []
  }

  function DtNotes(e: IulEntry, f: IfcFile): seq<string>
  {
    if !HasDt(e) then [NoDtNote]
    else if e.dtStr.value != f.mtime then [DtNote(e.dtStr.value, f.mtime)] else []
  }

  function PdfNotes(e: IulEntry, f: IfcFile, strict: bool): seq<string>
  {
    if e.sourcePdf != "" && !PdfRuleOk(strict, f.name, e.sourcePdf) then [PdfNote(e.sourcePdf, strict)] else []
  }

  function EntryNotes(e: IulEntry, f: IfcFile, strict: bool): seq<string>
  {
    SizeNotes(e, f) + DtNotes(e, f) + PdfNotes(e, f, strict)
  }

  /** The notes of the lookup. */
  function LookupNotes(mt: Match, f: IfcFile): seq<string>
  {
    match mt
    case Unmatched(hits) => if |hits| > 1 then [ManyHitsNote(Hex8(f.crc))] else [NoRecordNote]
    case ByCrc(_, e) => if e.basename != f.name then [RenamedNote] else []
    case ByName(e) =>
      if !HasCrc(e) then [NoCrcNote]
      else if IulCrc(e).value != Hex8(f.crc) then [CrcNote(IulCrc(e).value, Hex8(f.crc))] else []
  }

  function FileNotes(mt: Match, f: IfcFile, strict: bool): seq<string>
  {
    if mt.Unmatched? then LookupNotes(mt, f) else LookupNotes(mt, f) + EntryNotes(mt.e, f, strict)
  }

  function FileRow(m: seq<(string, IulEntry)>, f: IfcFile, strict: bool): (r: Row)
    ensures r.fileName == Some(f.name)
  {
    MatchRow(FindRecord(m, f), f, strict)
  }

  /** The row of file `f` once the lookup has produced `mt`. */
  function MatchRow(mt: Match, f: IfcFile, strict: bool): Row
  {
    var e := MatchedEntry(mt);
    var status := FileStatus(mt, f, strict);
    Row(
      Some(f.name),
      if e.Some? then Some(e.value.sourcePdf) else None,
      if e.Some? then Some(e.value.basename) else None,
      if e.Some? then IulCrc(e.value) else None,
      Some(Hex8(f.crc)),
      if e.Some? then e.value.dtStr else None,
      Some(f.mtime),
      if e.Some? then e.value.sizeBytes else None,
      Some(f.size),
      Tri(NameFlag(mt, f)),
      Tri(CrcFlag(mt, f)),
      Tri(DtFlag(mt, f)),
      Tri(SizeFlag(mt, f)),
      Tri(PdfFlag(mt, f, strict)),
      status,
      DetailsCell(FileNotes(mt, f, strict)),
      Recommendation(status, Recommendations))
  }

  /** The row of a record that no file consumed. */
  function OrphanRow(e: IulEntry): Row
  {
    Row(None, Some(e.sourcePdf), Some(e.basename), IulCrc(e), None, e.dtStr, None, e.sizeBytes, None,
      "—", "—", "—", "—", "—", [ErrorIulExtra], Some(OrphanNote), Recommendations(ErrorIulExtra))
  }

  // ---------------------------------------------------------------------------
  // The whole report

  function FileRows(m: seq<(string, IulEntry)>, files: seq<IfcFile>, strict: bool): (rows: seq<Row>)
    ensures |rows| == |files|
  {
    MapSeq(f => FileRow(m, f, strict), files)
  }

  /** The keys consumed by `files[..n]`. */
  function Used(m: seq<(string, IulEntry)>, files: seq<IfcFile>, n: nat): set<string>
    requires n <= |files|
  {
    if n == 0 then {} else Consume(Used(m, files, n - 1), Consumed(m, files[n - 1]))
  }

  /** `used.add(k)` when a key was consumed. */
  function Consume(used: set<string>, k: Option<string>): set<string>
  {
    if k.Some? then used + {k.value} else used
  }

  /** For each record, its orphan row when its key is not in `used`. */
  function OrphanOutcomes(m: seq<(string, IulEntry)>, used: set<string>): (xs: seq<Option<Row>>)
    ensures |xs| == |m|
    ensures forall i | 0 <= i < |xs| :: xs[i].Some? ==> xs[i].value.status == [ErrorIulExtra] && xs[i].value.fileName == None
  {
    seq(|m|, i requires 0 <= i < |m| => if m[i].0 in used then None else Some(OrphanRow(m[i].1)))
  }

  /** The rows of the records no file consumed, in record order: each reports `ERROR_IUL_EXTRA` and no file. */
  function Orphans(m: seq<(string, IulEntry)>, used: set<string>): (b: seq<Row>)
    ensures |b| <= |m|
    ensures forall k | 0 <= k < |b| :: b[k].status == [ErrorIulExtra] && b[k].fileName == None
  {
    var xs := OrphanOutcomes(m, used);
    var b := Somes(xs, |m|);
    SomesLength(xs, |m|);
    SomesAt(xs, |m|);
    assert forall k | 0 <= k < |b| :: xs[SomeIndices(xs, |m|)[k]] == Some(b[k]);
    b
  }

  /**
   * The report: one row per IFC file, in order, then at most one row per
   * record, each an unclaimed record reported as `ERROR_IUL_EXTRA`.
   */
  function Report(m: seq<(string, IulEntry)>, files: seq<IfcFile>, strict: bool): (r: seq<Row>)
    ensures |files| <= |r| <= |files| + |m|
    ensures forall j | 0 <= j < |files| :: r[j] == FileRow(m, files[j], strict)
    ensures forall t | |files| <= t < |r| :: r[t].status == [ErrorIulExtra] && r[t].fileName == None
  {
    var a, b := FileRows(m, files, strict), Orphans(m, Used(m, files, |files|));
    FileRowsAt(m, files, strict);
    ConcatAt(a, b);
    assert forall t | |a| <= t < |a + b| :: (a + b)[t] == b[t - |a|];
    a + b
  }

  // ---------------------------------------------------------------------------
  // build_report_iul

  method BuildReportIul(iulMap: seq<(string, IulEntry)>, ifcFiles: seq<IfcFile>, strict: bool)
    returns (rows: seq<Row>)
    requires DistinctKeys(iulMap)
    ensures rows == Report(iulMap, ifcFiles, strict)
  {
    var index := BuildCrcIndex(iulMap);
    var used;
    rows, used := MatchFiles(iulMap, index, ifcFiles, strict);
    rows := AppendOrphans(iulMap, used, rows);
  }

  /** The file loop: a row per file, and the set of consumed keys. */
  method MatchFiles(iulMap: seq<(string, IulEntry)>, index: map<string, seq<string>>, ifcFiles: seq<IfcFile>, strict: bool)
    returns (rows: seq<Row>, used: set<string>)
    requires DistinctKeys(iulMap)
    requires forall c :: IndexGet(index, c) == CrcHits(iulMap, c)
    ensures rows == FileRows(iulMap, ifcFiles, strict)
    ensures used == Used(iulMap, ifcFiles, |ifcFiles|)
  {
    rows, used := [], {};
    for j := 0 to |ifcFiles|
      invariant rows == FileRows(iulMap, ifcFiles[..j], strict)
      invariant used == Used(iulMap, ifcFiles, j)
    {
      var row, consumed := CheckFile(iulMap, index, ifcFiles[j], strict);
      if consumed.Some? {
        used := used + {consumed.value};
      }
      assert used == Consume(Used(iulMap, ifcFiles, j), consumed);
      rows := rows + [row];
      FileRowsSnoc(iulMap, ifcFiles, j, strict);
    }
    assert ifcFiles[..|ifcFiles|] == ifcFiles;
  }

  /** The orphan loop: a row for every record whose key is not in `used`, in map order. */
  method AppendOrphans(iulMap: seq<(string, IulEntry)>, used: set<string>, fileRows: seq<Row>)
    returns (rows: seq<Row>)
    ensures rows == fileRows + Somes(OrphanOutcomes(iulMap, used), |iulMap|)
  {
    rows := fileRows;
    ghost var orphans := OrphanOutcomes(iulMap, used);
    for i := 0 to |iulMap|
      invariant rows == fileRows + Somes(orphans, i)
    {
      var (k, e) := iulMap[i];
      if k in used {
        assert orphans[i] == None;
        continue;
      }
      assert orphans[i] == Some(OrphanRow(e));
      assert Somes(orphans, i + 1) == Somes(orphans, i) + [OrphanRow(e)];
      rows := rows + [OrphanRow(e)];
    }
  }

  /** `iul_crc_index`: upper-cased record checksum to the keys carrying it, in map order. */
  method BuildCrcIndex(iulMap: seq<(string, IulEntry)>) returns (index: map<string, seq<string>>)
    ensures forall c :: IndexGet(index, c) == CrcHits(iulMap, c)
  {
    index := map[];
    for i := 0 to |iulMap|
      invariant forall c :: IndexGet(index, c) == CrcHits(iulMap[..i], c)
    {
      var (k, e) := iulMap[i];
      if HasCrc(e) {
        var u := UpperStr(e.crcHex.value);
        index := index[u := IndexGet(index, u) + [k]];
      }
      assert iulMap[..i + 1][..i] == iulMap[..i];
    }
    assert iulMap[..|iulMap|] == iulMap;
  }

  /** The body of the file loop: one file's row, and the key it consumes. */
  method CheckFile(iulMap: seq<(string, IulEntry)>, index: map<string, seq<string>>, f: IfcFile, strict: bool)
    returns (row: Row, consumed: Option<string>)
    requires DistinctKeys(iulMap)
    requires forall c :: IndexGet(index, c) == CrcHits(iulMap, c)
    ensures row == FileRow(iulMap, f, strict)
    ensures consumed == Consumed(iulMap, f)
  {
    ghost var mt := FindRecord(iulMap, f);
    var e, nameMatch, crcMatch, status, details;
    e, nameMatch, crcMatch, status, details, consumed := LookupRecord(iulMap, index, f);
    var sizeMatch: Option<bool> := None;
    var dtMatch: Option<bool> := None;
    var pdfOk: Option<bool> := None;
    if e.Some? {
      var codes, notes;
      sizeMatch, dtMatch, pdfOk, codes, notes := CheckRecord(e.value, f, strict);
      status := status + codes;
      details := details + notes;
    }
    if status == [] && e.Some? {
      status := status + [OK];
    }
    assert status == FileStatus(mt, f, strict);
    assert details == FileNotes(mt, f, strict);
    row := Row(
      Some(f.name),
      if e.Some? then Some(e.value.sourcePdf) else None,
      if e.Some? then Some(e.value.basename) else None,
      if e.Some? then IulCrc(e.value) else None,
      Some(Hex8(f.crc)),
      if e.Some? then e.value.dtStr else None,
      Some(f.mtime),
      if e.Some? then e.value.sizeBytes else None,
      Some(f.size),
      Tri(nameMatch),
      Tri(crcMatch),
      Tri(dtMatch),
      Tri(sizeMatch),
      Tri(pdfOk),
      status,
      DetailsCell(details),
      Recommendation(status, Recommendations));
  }

  /** Finding a file's record: by name, else by a unique checksum hit. */
  method LookupRecord(iulMap: seq<(string, IulEntry)>, index: map<string, seq<string>>, f: IfcFile)
    returns (e: Option<IulEntry>, nameMatch: Option<bool>, crcMatch: Option<bool>,
             status: seq<Code>, details: seq<string>, consumed: Option<string>)
    requires DistinctKeys(iulMap)
    requires forall c :: IndexGet(index, c) == CrcHits(iulMap, c)
    ensures e == MatchedEntry(FindRecord(iulMap, f))
    ensures nameMatch == NameFlag(FindRecord(iulMap, f), f)
    ensures crcMatch == CrcFlag(FindRecord(iulMap, f), f)
    ensures status == if e.None? then [ErrorIfcExtra] else LookupCodes(FindRecord(iulMap, f), f)
    ensures details == LookupNotes(FindRecord(iulMap, f), f)
    ensures consumed == Consumed(iulMap, f)
  {
    var base := f.name;
    var actualCrc := Hex8(f.crc);
    e := Get(iulMap, base);
    nameMatch, crcMatch := None, None;
    status, details := [], [];
    if e.None? {
      var hits := IndexGet(index, actualCrc);
      if |hits| == 1 {
        CrcHitsAreKeys(iulMap, actualCrc);
        e := Get(iulMap, hits[0]);
        consumed := Some(hits[0]);
        nameMatch := Some(e.value.basename == base);
        if !nameMatch.value {
          status := status + [NameMismatch];
          details := details + [RenamedNote];
        }
        crcMatch := Some(true);
      } else if |hits| > 1 {
        consumed := None;
        status := status + [ErrorIfcExtra];
        details := details + [ManyHitsNote(actualCrc)];
      } else {
        consumed := None;
        status := status + [ErrorIfcExtra];
        details := details + [NoRecordNote];
      }
    } else {
      consumed := Some(base);
      nameMatch := Some(true);
      if HasCrc(e.value) {
        crcMatch := Some(UpperStr(e.value.crcHex.value) == actualCrc);
        if !crcMatch.value {
          status := status + [CrcMismatch];
          details := details + [CrcNote(UpperStr(e.value.crcHex.value), actualCrc)];
        }
      } else {
        details := details + [NoCrcNote];
      }
    }
  }

  /** The checks on a found record: size, date and PDF name, each independently. */
  method CheckRecord(e: IulEntry, f: IfcFile, strict: bool)
    returns (sizeMatch: Option<bool>, dtMatch: Option<bool>, pdfOk: Option<bool>,
             codes: seq<Code>, notes: seq<string>)
    ensures sizeMatch == EntrySizeFlag(e, f)
    ensures dtMatch == EntryDtFlag(e, f)
    ensures pdfOk == EntryPdfFlag(e, f, strict)
    ensures codes == EntryCodes(e, f, strict)
    ensures notes == EntryNotes(e, f, strict)
  {
    var sizeCodes, sizeNotes, dtCodes, dtNotes, pdfCodes, pdfNotes;
    sizeMatch, sizeCodes, sizeNotes := CheckSize(e, f);
    dtMatch, dtCodes, dtNotes := CheckDt(e, f);
    pdfOk, pdfCodes, pdfNotes := CheckPdfName(e, f, strict);
    codes := sizeCodes + dtCodes + pdfCodes;
    notes := sizeNotes + dtNotes + pdfNotes;
  }

  method CheckSize(e: IulEntry, f: IfcFile) returns (sizeMatch: Option<bool>, codes: seq<Code>, notes: seq<string>)
    ensures sizeMatch == EntrySizeFlag(e, f)
    ensures codes == IfFailed(sizeMatch, SizeMismatch)
    ensures notes == SizeNotes(e, f)
  {
    sizeMatch, codes, notes := None, [], [];
    if e.sizeBytes.Some? {
      sizeMatch := Some(e.sizeBytes.value == f.size);
      if !sizeMatch.value {
        codes := codes + [SizeMismatch];
        notes := notes + [SizeNote(e.sizeBytes.value, f.size)];
      }
    } else {
      notes := notes + [NoSizeNote];
    }
  }

  method CheckDt(e: IulEntry, f: IfcFile) returns (dtMatch: Option<bool>, codes: seq<Code>, notes: seq<string>)
    ensures dtMatch == EntryDtFlag(e, f)
    ensures codes == IfFailed(dtMatch, DtMismatch)
    ensures notes == DtNotes(e, f)
  {
    dtMatch, codes, notes := None, [], [];
    if HasDt(e) {
      dtMatch := Some(e.dtStr.value == f.mtime);
      if !dtMatch.value {
        codes := codes + [DtMismatch];
        notes := notes + [DtNote(e.dtStr.value, f.mtime)];
      }
    } else {
      notes := notes + [NoDtNote];
    }
  }

  method CheckPdfName(e: IulEntry, f: IfcFile, strict: bool) returns (pdfOk: Option<bool>, codes: seq<Code>, notes: seq<string>)
    ensures pdfOk == EntryPdfFlag(e, f, strict)
    ensures codes == IfFailed(pdfOk, PdfNameMismatch)
    ensures notes == PdfNotes(e, f, strict)
  {
    pdfOk, codes, notes := None, [], [];
    if e.sourcePdf != "" {
      pdfOk := Some(PdfRuleOk(strict, f.name, e.sourcePdf));
      if !pdfOk.value {
        codes := codes + [PdfNameMismatch];
        notes := notes + [PdfNote(e.sourcePdf, strict)];
      }
    }
  }

  lemma FileRowsSnoc(m: seq<(string, IulEntry)>, files: seq<IfcFile>, j: nat, strict: bool)
    requires j < |files|
    ensures FileRows(m, files[..j + 1], strict) == FileRows(m, files[..j], strict) + [FileRow(m, files[j], strict)]
  {
    MapSeqSnoc(f => FileRow(m, f, strict), files, j);
  }

  // ---------------------------------------------------------------------------
  // Properties of the index

  lemma {:induction false} CrcHitsAreKeys(m: seq<(string, IulEntry)>, c: string)
    ensures forall k | k in CrcHits(m, c) :: HasKey(m, k)
  {
    if m != [] {
      var n := |m| - 1;
      CrcHitsAreKeys(m[..n], c);
      assert m == m[..n] + [m[n]];
      forall k | k in CrcHits(m, c) ensures HasKey(m, k) {
        HasKeyAppend(m[..n], m[n], k);
      }
    }
  }

  /**
   * The index lists exactly the keys whose record carries checksum `c`
   * (upper-cased), in map order.
   */
  lemma {:induction false} CrcIndexSpec(m: seq<(string, IulEntry)>, c: string)
    requires DistinctKeys(m)
    ensures forall k :: k in CrcHits(m, c) <==> HasKey(m, k) && IulCrc(Get(m, k).value) == Some(c)
    ensures forall t, u | 0 <= t < u < |CrcHits(m, c)| ::
      FirstIndex(m, CrcHits(m, c)[t]) < FirstIndex(m, CrcHits(m, c)[u])
  {
    if m != [] {
      var n := |m| - 1;
      var p, last := m[..n], m[n];
      assert DistinctKeys(p);
      CrcIndexSpec(p, c);
      CrcHitsAreKeys(p, c);
      assert m == p + [last];
      assert !HasKey(p, last.0);
      FirstIndexOfLast(m);
      var hp, hits := CrcHits(p, c), CrcHits(m, c);
      forall k | HasKey(p, k) ensures Get(m, k) == Get(p, k) && FirstIndex(m, k) < n {
        FirstIndexOfPrefix(m, n, k);
      }
      forall k ensures k in hits <==> HasKey(m, k) && IulCrc(Get(m, k).value) == Some(c) {
        HasKeyAppend(p, last, k);
      }
      forall t, u | 0 <= t < u < |hits| ensures FirstIndex(m, hits[t]) < FirstIndex(m, hits[u]) {
        assert hits[t] in hp;
        if u < |hp| {
          assert hits[u] in hp;
        }
      }
    }
  }

  /**
   * A file consumes a key exactly when it is found under that key by name, or
   * has no record under its name and the key is the only checksum hit.
   */
  lemma ConsumedKey(m: seq<(string, IulEntry)>, f: IfcFile, k: string)
    ensures Consumed(m, f) == Some(k) <==>
      (HasKey(m, f.name) && k == f.name) || (!HasKey(m, f.name) && CrcHits(m, Hex8(f.crc)) == [k])
  {
    CrcHitsAreKeys(m, Hex8(f.crc));
  }

  /** The `used` set holds exactly the keys some file consumed. */
  lemma {:induction false} UsedSpec(m: seq<(string, IulEntry)>, files: seq<IfcFile>, n: nat, k: string)
    requires n <= |files|
    ensures k in Used(m, files, n) <==> exists j | 0 <= j < n :: Consumed(m, files[j]) == Some(k)
  {
    if n > 0 {
      UsedSpec(m, files, n - 1, k);
    }
  }

  /** The positions of the records no file consumed. */
  function OrphanIndices(m: seq<(string, IulEntry)>, files: seq<IfcFile>): seq<nat>
  {
    SomeIndices(OrphanOutcomes(m, Used(m, files, |files|)), |m|)
  }

  /**
   * The report is one row per file, in input order, followed by one
   * `ERROR_IUL_EXTRA` row per record whose key no file consumed, in map order.
   */
  lemma ReportShape(m: seq<(string, IulEntry)>, files: seq<IfcFile>, strict: bool)
    ensures var r, js := Report(m, files, strict), OrphanIndices(m, files);
      && |r| == |files| + |js|
      && (forall j | 0 <= j < |files| :: r[j] == FileRow(m, files[j], strict) && r[j].fileName == Some(files[j].name))
      && (forall i | 0 <= i < |m| :: i in js <==> forall j | 0 <= j < |files| :: Consumed(m, files[j]) != Some(m[i].0))
      && (forall t | 0 <= t < |js| ::
            js[t] < |m| && r[|files| + t] == OrphanRow(m[js[t]].1)
            && r[|files| + t].status == [ErrorIulExtra] && r[|files| + t].fileName == None)
      && (forall t, u | 0 <= t < u < |js| :: js[t] < js[u])
  {
    ReportOrphanRows(m, files, strict);
    OrphanIndicesSpec(m, files);
  }

  /** The rows after the file rows are the orphan rows, one per unclaimed position. */
  lemma ReportOrphanRows(m: seq<(string, IulEntry)>, files: seq<IfcFile>, strict: bool)
    ensures var r, js := Report(m, files, strict), OrphanIndices(m, files);
      && |r| == |files| + |js|
      && forall t | 0 <= t < |js| :: js[t] < |m| && r[|files| + t] == OrphanRow(m[js[t]].1)
  {
    var used := Used(m, files, |files|);
    var a, b := FileRows(m, files, strict), Orphans(m, used);
    OrphansAt(m, used);
    ConcatAt(a, b);
  }

  /** The orphan positions are those of the records whose key no file consumed. */
  lemma OrphanIndicesSpec(m: seq<(string, IulEntry)>, files: seq<IfcFile>)
    ensures var js := OrphanIndices(m, files);
      forall i | 0 <= i < |m| :: i in js <==> forall j | 0 <= j < |files| :: Consumed(m, files[j]) != Some(m[i].0)
  {
    var used := Used(m, files, |files|);
    forall i | 0 <= i < |m|
      ensures m[i].0 in used <==> exists j | 0 <= j < |files| :: Consumed(m, files[j]) == Some(m[i].0)
    {
      UsedSpec(m, files, |files|, m[i].0);
    }
  }

  /** The orphan rows are those of the records at the orphan positions, in order. */
  lemma OrphansAt(m: seq<(string, IulEntry)>, used: set<string>)
    ensures var xs := OrphanOutcomes(m, used);
      var b, js := Orphans(m, used), SomeIndices(xs, |m|);
      && |b| == |js|
      && forall t | 0 <= t < |js| :: js[t] < |m| && b[t] == OrphanRow(m[js[t]].1)
  {
    SomesAt(OrphanOutcomes(m, used), |m|);
  }

  lemma FileRowsAt(m: seq<(string, IulEntry)>, files: seq<IfcFile>, strict: bool)
    ensures forall j | 0 <= j < |files| :: FileRows(m, files, strict)[j] == FileRow(m, files[j], strict)
  {
    MapSeqAt(f => FileRow(m, f, strict), files);
  }

  /**
   * A file with no record under its name and zero or several checksum hits
   * finds nothing and consumes nothing.
   */
  lemma UnmatchedFile(m: seq<(string, IulEntry)>, f: IfcFile)
    requires !HasKey(m, f.name) && |CrcHits(m, Hex8(f.crc))| != 1
    ensures FindRecord(m, f) == Unmatched(CrcHits(m, Hex8(f.crc))) && Consumed(m, f) == None
  {
  }

  /** Its row is only `ERROR_IFC_EXTRA` and compares nothing. */
  lemma UnmatchedRow(hits: seq<string>, f: IfcFile, strict: bool)
    ensures var r := MatchRow(Unmatched(hits), f, strict);
      && r.status == [ErrorIfcExtra]
      && r.nameOk == "—" && r.crcOk == "—" && r.dtOk == "—" && r.sizeOk == "—" && r.pdfRuleOk == "—"
      && r.iulFile == None && r.pdfName == None && r.iulCrc == None
      && r.details == Some(if |hits| > 1 then ManyHitsNote(Hex8(f.crc)) else NoRecordNote)
  {
  }

  /**
   * A file with no record under its name and exactly one checksum hit takes
   * the record under that key, and consumes the key.
   */
  lemma UniqueCrcHit(m: seq<(string, IulEntry)>, f: IfcFile, k: string)
    requires !HasKey(m, f.name) && CrcHits(m, Hex8(f.crc)) == [k]
    ensures HasKey(m, k) && FindRecord(m, f) == ByCrc(k, Get(m, k).value) && Consumed(m, f) == Some(k)
  {
    CrcHitsAreKeys(m, Hex8(f.crc));
  }

  /**
   * A record found by checksum counts as matching on checksum, and
   * `NAME_MISMATCH` is reported exactly when it names another file.
   */
  lemma ByCrcRow(k: string, e: IulEntry, f: IfcFile, strict: bool)
    ensures var r := MatchRow(ByCrc(k, e), f, strict);
      && r.crcOk == "Да"
      && (NameMismatch in r.status <==> e.basename != f.name)
      && (r.nameOk == "Да" <==> e.basename == f.name)
      && CrcMismatch !in r.status
      && r.iulFile == Some(e.basename)
  {
    var mt := ByCrc(k, e);
    assert LookupCodes(mt, f) == IfFailed(NameFlag(mt, f), NameMismatch);
    assert NameMismatch !in EntryCodes(e, f, strict) && CrcMismatch !in EntryCodes(e, f, strict);
  }

  /** The order in which the codes of a found record are reported. */
  function Rank(c: Code): nat
  {
    match c
    case NameMismatch => 0
    case CrcMismatch => 1
    case SizeMismatch => 2
    case DtMismatch => 3
    case PdfNameMismatch => 4
    case _ => 5
  }

  /** The codes of the five comparisons, given their outcomes. */
  function FlagCodes(name: Option<bool>, crc: Option<bool>, size: Option<bool>, dt: Option<bool>, pdf: Option<bool>): seq<Code>
  {
    IfFailed(name, NameMismatch) + IfFailed(crc, CrcMismatch) + IfFailed(size, SizeMismatch)
      + IfFailed(dt, DtMismatch) + IfFailed(pdf, PdfNameMismatch)
  }

  /** The codes in `cs` come in strictly increasing rank, all below `r`. */
  predicate RankedBelow(cs: seq<Code>, r: nat)
  {
    && (forall c | c in cs :: Rank(c) < r)
    && (forall a, b | 0 <= a < b < |cs| :: Rank(cs[a]) < Rank(cs[b]))
  }

  lemma RankedStep(cs: seq<Code>, flag: Option<bool>, code: Code)
    requires RankedBelow(cs, Rank(code))
    ensures RankedBelow(cs + IfFailed(flag, code), Rank(code) + 1)
  {
  }

  /** Each comparison contributes its own code exactly when it failed. */
  lemma FlagCodesMembers(name: Option<bool>, crc: Option<bool>, size: Option<bool>, dt: Option<bool>, pdf: Option<bool>)
    ensures var cs := FlagCodes(name, crc, size, dt, pdf);
      && (NameMismatch in cs <==> name == Some(false))
      && (CrcMismatch in cs <==> crc == Some(false))
      && (SizeMismatch in cs <==> size == Some(false))
      && (DtMismatch in cs <==> dt == Some(false))
      && (PdfNameMismatch in cs <==> pdf == Some(false))
  {
  }

  /** The codes come in rank order, and each is one of the five comparison codes. */
  lemma FlagCodesRanked(name: Option<bool>, crc: Option<bool>, size: Option<bool>, dt: Option<bool>, pdf: Option<bool>)
    ensures RankedBelow(FlagCodes(name, crc, size, dt, pdf), 5)
  {
    var c0 := IfFailed(name, NameMismatch);
    var c1 := c0 + IfFailed(crc, CrcMismatch);
    var c2 := c1 + IfFailed(size, SizeMismatch);
    var c3 := c2 + IfFailed(dt, DtMismatch);
    RankedStep([], name, NameMismatch);
    assert [] + c0 == c0;
    RankedStep(c0, crc, CrcMismatch);
    RankedStep(c1, size, SizeMismatch);
    RankedStep(c2, dt, DtMismatch);
    RankedStep(c3, pdf, PdfNameMismatch);
  }

  /** The status of a found record is the failed comparisons' codes, or `OK`. */
  lemma FoundStatus(mt: Match, f: IfcFile, strict: bool)
    requires !mt.Unmatched?
    ensures var cs := FlagCodes(NameFlag(mt, f), CrcFlag(mt, f), SizeFlag(mt, f), DtFlag(mt, f), PdfFlag(mt, f, strict));
      FileStatus(mt, f, strict) == if cs == [] then [OK] else cs
  {
    assert LookupCodes(mt, f) + EntryCodes(mt.e, f, strict)
      == FlagCodes(NameFlag(mt, f), CrcFlag(mt, f), SizeFlag(mt, f), DtFlag(mt, f), PdfFlag(mt, f, strict));
  }

  /**
   * When a record is found, the status holds no error code, and the lookup
   * reports `NAME_MISMATCH` exactly when the record was found by checksum
   * under another name and `CRC_MISMATCH` exactly when it was found by name
   * and carries a different checksum.
   */
  lemma FoundRecordCodes(mt: Match, f: IfcFile, strict: bool)
    requires !mt.Unmatched?
    ensures var st, e := FileStatus(mt, f, strict), mt.e;
      && ErrorIfcExtra !in st && ErrorIulExtra !in st
      && (NameMismatch in st <==> mt.ByCrc? && e.basename != f.name)
      && (CrcMismatch in st <==> mt.ByName? && HasCrc(e) && UpperStr(e.crcHex.value) != Hex8(f.crc))
  {
    var name, crc := NameFlag(mt, f), CrcFlag(mt, f);
    var cs := FlagCodes(name, crc, SizeFlag(mt, f), DtFlag(mt, f), PdfFlag(mt, f, strict));
    FoundStatus(mt, f, strict);
    FlagCodesMembers(name, crc, SizeFlag(mt, f), DtFlag(mt, f), PdfFlag(mt, f, strict));
    FlagCodesRanked(name, crc, SizeFlag(mt, f), DtFlag(mt, f), PdfFlag(mt, f, strict));
    assert ErrorIfcExtra !in cs && ErrorIulExtra !in cs;
    assert name == Some(false) <==> mt.ByCrc? && mt.e.basename != f.name;
    assert crc == Some(false) <==> mt.ByName? && HasCrc(mt.e) && UpperStr(mt.e.crcHex.value) != Hex8(f.crc);
  }

  /** The codes of a found record come in a fixed order: name, checksum, size, date, PDF name. */
  lemma FoundRecordOrder(mt: Match, f: IfcFile, strict: bool)
    requires !mt.Unmatched?
    ensures var st := FileStatus(mt, f, strict);
      forall a, b | 0 <= a < b < |st| :: Rank(st[a]) < Rank(st[b])
  {
    FoundStatus(mt, f, strict);
    FlagCodesRanked(NameFlag(mt, f), CrcFlag(mt, f), SizeFlag(mt, f), DtFlag(mt, f), PdfFlag(mt, f, strict));
  }

  /**
   * The checks on a found record report their codes independently: exactly
   * when the field is present and differs, or when the PDF name fails the
   * chosen rule.
   */
  lemma FoundEntryCodes(mt: Match, f: IfcFile, strict: bool)
    requires !mt.Unmatched?
    ensures var st, e := FileStatus(mt, f, strict), mt.e;
      && (SizeMismatch in st <==> e.sizeBytes.Some? && e.sizeBytes.value != f.size)
      && (DtMismatch in st <==> HasDt(e) && e.dtStr.value != f.mtime)
      && (PdfNameMismatch in st <==> e.sourcePdf != "" && !PdfRuleOk(strict, f.name, e.sourcePdf))
  {
    FoundStatus(mt, f, strict);
    FlagCodesMembers(NameFlag(mt, f), CrcFlag(mt, f), SizeFlag(mt, f), DtFlag(mt, f), PdfFlag(mt, f, strict));
  }

  /** A field missing from the found record adds no code and shows `—`. */
  lemma MissingFields(mt: Match, f: IfcFile, strict: bool)
    requires !mt.Unmatched?
    ensures var r, e := MatchRow(mt, f, strict), mt.e;
      && (e.sizeBytes.None? ==> r.sizeOk == "—" && SizeMismatch !in r.status)
      && (!HasDt(e) ==> r.dtOk == "—" && DtMismatch !in r.status)
      && (mt.ByName? && !HasCrc(e) ==> r.crcOk == "—" && CrcMismatch !in r.status)
      && (e.sourcePdf == "" ==> r.pdfRuleOk == "—" && PdfNameMismatch !in r.status)
  {
    FoundRecordCodes(mt, f, strict);
    FoundEntryCodes(mt, f, strict);
  }

  /**
   * A file's status is never empty, and it is `OK` (alone) exactly when a
   * record was found and no comparison shows "Нет".
   */
  lemma FileStatusOk(mt: Match, f: IfcFile, strict: bool)
    ensures var r := MatchRow(mt, f, strict);
      && r.status != []
      && (OK in r.status ==> r.status == [OK])
      && (OK in r.status <==>
            r.iulFile.Some? && r.nameOk != "Нет" && r.crcOk != "Нет" && r.dtOk != "Нет"
            && r.sizeOk != "Нет" && r.pdfRuleOk != "Нет")
  {
    if !mt.Unmatched? {
      var codes := LookupCodes(mt, f) + EntryCodes(mt.e, f, strict);
      assert OK !in codes;
    }
  }

  /** The codes a file's status can hold: a comparison code, `OK` or `ERROR_IFC_EXTRA`. */
  predicate FileCode(c: Code)
  {
    Rank(c) < 5 || c == OK || c == ErrorIfcExtra
  }

  /** Each of them has a recommendation. */
  lemma FileCodeMapped(c: Code)
    requires FileCode(c)
    ensures Mapped(Recommendations, c)
  {
  }

  lemma StatusCodes(mt: Match, f: IfcFile, strict: bool)
    ensures forall c | c in FileStatus(mt, f, strict) :: FileCode(c)
  {
    if !mt.Unmatched? {
      FoundStatus(mt, f, strict);
      FlagCodesRanked(NameFlag(mt, f), CrcFlag(mt, f), SizeFlag(mt, f), DtFlag(mt, f), PdfFlag(mt, f, strict));
    }
  }

  /** A file's row always carries a recommendation. */
  lemma MatchRowRecommended(mt: Match, f: IfcFile, strict: bool)
    ensures MatchRow(mt, f, strict).recommendation.Some?
  {
    var st := FileStatus(mt, f, strict);
    FileStatusOk(mt, f, strict);
    StatusCodes(mt, f, strict);
    assert st[0] in st;
    FileCodeMapped(st[0]);
  }

  lemma FileRowsRecommended(m: seq<(string, IulEntry)>, files: seq<IfcFile>, strict: bool)
    ensures forall r | r in FileRows(m, files, strict) :: r.recommendation.Some?
  {
    FileRowsAt(m, files, strict);
    forall j | 0 <= j < |files| ensures FileRows(m, files, strict)[j].recommendation.Some? {
      MatchRowRecommended(FindRecord(m, files[j]), files[j], strict);
    }
  }

  lemma OrphanRowsRecommended(m: seq<(string, IulEntry)>, used: set<string>)
    ensures forall r | r in Somes(OrphanOutcomes(m, used), |m|) :: r.recommendation.Some?
  {
    var xs := OrphanOutcomes(m, used);
    var os := Somes(xs, |m|);
    SomesAt(xs, |m|);
    forall k | 0 <= k < |os| ensures os[k].recommendation.Some? {
      var i := SomeIndices(xs, |m|)[k];
      assert xs[i] == Some(OrphanRow(m[i].1));
    }
  }

  /** Every row of the report carries a recommendation. */
  lemma RecommendationPresent(m: seq<(string, IulEntry)>, files: seq<IfcFile>, strict: bool)
    ensures forall r | r in Report(m, files, strict) :: r.recommendation.Some?
  {
    var used := Used(m, files, |files|);
    FileRowsRecommended(m, files, strict);
    OrphanRowsRecommended(m, used);
    var a, b := FileRows(m, files, strict), Somes(OrphanOutcomes(m, used), |m|);
    assert forall r | r in a + b :: r in a || r in b;
  }

  /**
   * The `CRC-32 IFC` column is the 8-digit upper-case hexadecimal form of the
   * file's 32-bit checksum.
   */
  lemma IfcCrcColumn(m: seq<(string, IulEntry)>, f: IfcFile, strict: bool)
    ensures var x := FileRow(m, f, strict).ifcCrc;
      x.Some? && |x.value| == 8 && AllUpperHex(x.value) && ParseHex(x.value) == f.crc
  {
    Hex8ReadBack(f.crc);
  }
}
