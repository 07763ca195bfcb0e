/**
 * Reconciling IFC files on disk with the manifest read from the XML
 * (`build_report`). Each file is looked up under its name (lower-cased when
 * the comparison ignores case) or, failing that, as the only record carrying
 * its checksum; a record found by name has its checksum compared. Records no
 * file consumed become `ERROR_XML_EXTRA` rows of their own.
 *
 * The report is specified by `Report`; `BuildReport` computes it with the
 * loops of the original and is proved equal to it.
 */
module ReportXml {
  import opened Wrappers
  import opened Text
  import opened OrderedDict
  import opened Seqs
  import opened XmlReader
  import opened Utils

  /** An IFC file with the CRC-32 computed from its contents: all the report reads of it. */
  datatype IfcFile = IfcFile(name: string, crc: u32)

  /** One report row, column by column; `status` holds the codes behind the status column. */
  datatype Row = Row(
    fileName: Option<string>,
    xmlFile: Option<string>,
    xmlCrc: Option<string>,
    ifcCrc: Option<string>,
    nameOk: string,
    crcOk: string,
    status: seq<Code>,
    details: Option<string>,
    recommendation: Option<string>)

  /** `RECOMMENDATIONS.get(code)`. */
  function Recommendations(code: Code): (r: Option<string>)
    ensures r.Some? ==> r.value != ""
    ensures r.Some? <==> code in {OK, ErrorIfcExtra, ErrorXmlExtra, CrcMismatch, NameMismatch}
  {
    match code
    case OK => Some("Действий не требуется")
    case ErrorIfcExtra => Some("Удалите лишний файл или добавьте запись в XML")
    case ErrorXmlExtra => Some("Удалите лишнюю запись из XML или добавьте соответствующий файл IFC")
    case CrcMismatch => Some("Проверьте корректность файлов и пересоздайте CRC")
    case NameMismatch => Some("Переименуйте файл или исправьте запись в XML")
    case _ => None
  }

  // ---------------------------------------------------------------------------
  // Notes written to the details column

  const RenamedNote := "Сопоставлено по CRC-32, имя различается"
  const NoRecordNote := "Файл есть, но отсутствует запись в XML"
  const NoCrcNote := "В XML отсутствует CRC-32"
  const OrphanNote := "Запись в XML есть, соответствующий файл не найден"

  function ManyHitsNote(crc: string): string
  {
    "Найдено несколько записей в XML с тем же CRC (" + crc + ")"
  }

  function CrcNote(xml: string, ifc: string): string
  {
    "CRC-32 не совпадает: XML=" + xml + ", IFC=" + ifc
  }

  // ---------------------------------------------------------------------------
  // Names and checksums as the report reads them

  /** `(meta.get("crc_hex") or "").upper()`: the `CRC-32 XML` column of a found record. */
  function StoredCrc(meta: XmlMeta): string
  {
    UpperStr(if meta.crcHex.Some? then meta.crcHex.value else "")
  }

  /** The same, `or None`: the record's checksum when it has a non-empty one. */
  function XmlCrc(meta: XmlMeta): Option<string>
  {
    UpperOrNone(meta.crcHex)
  }

  // ---------------------------------------------------------------------------
  // The checksum index

  /** `xml_crc_index.get(c, [])`: the keys whose record's upper-cased checksum is `c`, in map order. */
  function CrcHits(m: seq<(string, XmlMeta)>, c: string): seq<string>
  {
    if m == [] then []
    else CrcHits(m[..|m| - 1], c) + if XmlCrc(m[|m| - 1].1) == Some(c) then [m[|m| - 1].0] else []
  }

  /** `d.get(c, [])` for the index under construction. */
  function IndexGet(index: map<string, seq<string>>, c: string): seq<string>
  {
    if c in index then index[c] else []
  }

  // ---------------------------------------------------------------------------
  // The specification of one file's row

  /**
   * How a file finds its record: under its key (with the record's metadata),
   * as the only record carrying its checksum (with that record's name), or
   * not at all (with the checksum hits that were found).
   */
  datatype Match = ByName(meta: XmlMeta) | ByCrc(xmlName: string) | Unmatched(hits: seq<string>)

  function FindRecord(m: seq<(string, XmlMeta)>, f: IfcFile, caseSensitive: bool): Match
  {
    var key := NameKey(f.name, caseSensitive);
    if HasKey(m, key) then ByName(Get(m, key).value)
    else
      var hits := CrcHits(m, Hex8(f.crc));
      if |hits| == 1 then ByCrc(hits[0]) else Unmatched(hits)
  }

  /** The key a file consumes, if any, normalised like the file's own key. */
  function Consumed(m: seq<(string, XmlMeta)>, f: IfcFile, caseSensitive: bool): Option<string>
  {
    match FindRecord(m, f, caseSensitive)
    case ByName(_) => Some(NameKey(f.name, caseSensitive))
    case ByCrc(n) => Some(NameKey(n, caseSensitive))
    case Unmatched(_) => None
  }

  // The two comparison outcomes; `None` is "not compared".

  function NameFlag(mt: Match, f: IfcFile): Option<bool>
  {
    match mt
    case ByName(_) => Some(true)
    case ByCrc(n) => Some(n == f.name)
    case Unmatched(_) => None
  }

  function CrcFlag(mt: Match, f: IfcFile): Option<bool>
  {
    match mt
    case ByName(meta) => if XmlCrc(meta).Some? then Some(XmlCrc(meta).value == Hex8(f.crc)) else None
    case ByCrc(_) => Some(true)
    case Unmatched(_) => None
  }

  /** The codes of the lookup: no record, a renamed file, or a checksum that differs. */
  function LookupCodes(mt: Match, f: IfcFile): seq<Code>
  {
    match mt
    case Unmatched(_) => [ErrorIfcExtra]
    case ByCrc(_) => IfFailed(NameFlag(mt, f), NameMismatch)
    case ByName(_) => IfFailed(CrcFlag(mt, f), CrcMismatch)
  }

  /**
   * The status of a file's row: the codes of the lookup, or `OK` when there
   * are none and the names match and the checksums do not differ.
   */
  function FileStatus(mt: Match, f: IfcFile): seq<Code>
  {
    var codes := LookupCodes(mt, f);
    if codes == [] && NameFlag(mt, f) == Some(true) && CrcFlag(mt, f) != Some(false) then [OK] else codes
  }

  function FileNotes(mt: Match, f: IfcFile): seq<string>
  {
    match mt
    case Unmatched(hits) => if |hits| > 1 then [ManyHitsNote(Hex8(f.crc))] else [NoRecordNote]
    case ByCrc(n) => if n != f.name then [RenamedNote] else []
    case ByName(meta) =>
      if XmlCrc(meta).None? then [NoCrcNote]
      else if XmlCrc(meta).value != Hex8(f.crc) then [CrcNote(XmlCrc(meta).value, Hex8(f.crc))] else []
  }

  /** The `Файл из XML` column: the file's own name, the record found by checksum, or the first hit. */
  function XmlFileColumn(mt: Match, f: IfcFile): Option<string>
  {
    match mt
    case ByName(_) => Some(f.name)
    case ByCrc(n) => Some(n)
    case Unmatched(hits) => if hits != [] then Some(hits[0]) else None
  }

  function FileRow(m: seq<(string, XmlMeta)>, f: IfcFile, caseSensitive: bool): (r: Row)
    ensures r.fileName == Some(f.name)
  {
    MatchRow(FindRecord(m, f, caseSensitive), f)
  }

  /** The row of file `f` once the lookup has produced `mt`. */
  function MatchRow(mt: Match, f: IfcFile): Row
  {
    var status := FileStatus(mt, f);
    Row(
      Some(f.name),
      XmlFileColumn(mt, f),
      if mt.ByName? then Some(StoredCrc(mt.meta)) else None,
      Some(Hex8(f.crc)),
      Tri(NameFlag(mt, f)),
      Tri(CrcFlag(mt, f)),
      status,
      DetailsCell(FileNotes(mt, f)),
      Recommendation(status, Recommendations))
  }

  /** The row of a record that no file consumed. */
  function OrphanRow(name: string, meta: XmlMeta): Row
  {
    Row(None, Some(name), XmlCrc(meta), None, "—", "—", [ErrorXmlExtra], Some(OrphanNote),
      Recommendations(ErrorXmlExtra))
  }

  // ---------------------------------------------------------------------------
  // The whole report

  function FileRows(m: seq<(string, XmlMeta)>, files: seq<IfcFile>, caseSensitive: bool): (rows: seq<Row>)
    ensures |rows| == |files|
  {
    MapSeq(f => FileRow(m, f, caseSensitive), files)
  }

  /** The key each file consumes, in file order. */
  function ConsumedKeys(m: seq<(string, XmlMeta)>, files: seq<IfcFile>, caseSensitive: bool): (ks: seq<Option<string>>)
    ensures |ks| == |files|
  {
    seq(|files|, j requires 0 <= j < |files| => Consumed(m, files[j], caseSensitive))
  }

  /** The keys consumed by `files[..n]`. */
  function Used(m: seq<(string, XmlMeta)>, files: seq<IfcFile>, caseSensitive: bool, n: nat): set<string>
    requires n <= |files|
  {
    Present(ConsumedKeys(m, files, caseSensitive), n)
  }

  /** For each record, its orphan row when its normalised key is not in `used`. */
  function OrphanOutcomes(m: seq<(string, XmlMeta)>, used: set<string>, caseSensitive: bool): (xs: seq<Option<Row>>)
    ensures |xs| == |m|
    ensures forall i | 0 <= i < |xs| :: xs[i].Some? ==> xs[i].value.status == [ErrorXmlExtra] && xs[i].value.fileName == None
  {
    seq(|m|, i requires 0 <= i < |m| =>
      if NameKey(m[i].0, caseSensitive) in used then None else Some(OrphanRow(m[i].0, m[i].1)))
  }

  /** The rows of the records no file consumed, in record order: each reports `ERROR_XML_EXTRA` and no file. */
  function Orphans(m: seq<(string, XmlMeta)>, used: set<string>, caseSensitive: bool): (b: seq<Row>)
    ensures |b| <= |m|
    ensures forall k | 0 <= k < |b| :: b[k].status == [ErrorXmlExtra] && b[k].fileName == None
  {
    var xs := OrphanOutcomes(m, used, caseSensitive);
    var b := Somes(xs, |m|);
    SomesLength(xs, |m|);
    SomesAt(xs, |m|);
    assert forall k | 0 <= k < |b| :: xs[SomeIndices(xs, |m|)[k]] == Some(b[k]);
    b
  }

  /**
   * The report: one row per IFC file, in order, then at most one row per
   * record, each an unclaimed record reported as `ERROR_XML_EXTRA`.
   */
  function Report(m: seq<(string, XmlMeta)>, files: seq<IfcFile>, caseSensitive: bool): (r: seq<Row>)
    ensures |files| <= |r| <= |files| + |m|
    ensures forall j | 0 <= j < |files| :: r[j] == FileRow(m, files[j], caseSensitive)
    ensures forall t | |files| <= t < |r| :: r[t].status == [ErrorXmlExtra] && r[t].fileName == None
  {
    var a, b := FileRows(m, files, caseSensitive), Orphans(m, Used(m, files, caseSensitive, |files|), caseSensitive);
    FileRowsAt(m, files, caseSensitive);
    ConcatAt(a, b);
    assert forall t | |a| <= t < |a + b| :: (a + b)[t] == b[t - |a|];
    a + b
  }

  // ---------------------------------------------------------------------------
  // build_report

  method BuildReport(xmlMap: seq<(string, XmlMeta)>, ifcFiles: seq<IfcFile>, caseSensitive: bool)
    returns (rows: seq<Row>)
    requires DistinctKeys(xmlMap)
    ensures rows == Report(xmlMap, ifcFiles, caseSensitive)
  {
    var index := BuildCrcIndex(xmlMap);
    var used;
    rows, used := MatchFiles(xmlMap, index, ifcFiles, caseSensitive);
    rows := AppendOrphans(xmlMap, used, caseSensitive, rows);
  }

  /** The file loop: a row per file, and the set of consumed keys. */
  method MatchFiles(xmlMap: seq<(string, XmlMeta)>, index: map<string, seq<string>>, ifcFiles: seq<IfcFile>,
                    caseSensitive: bool)
    returns (rows: seq<Row>, used: set<string>)
    requires forall c :: IndexGet(index, c) == CrcHits(xmlMap, c)
    ensures rows == FileRows(xmlMap, ifcFiles, caseSensitive)
    ensures used == Used(xmlMap, ifcFiles, caseSensitive, |ifcFiles|)
  {
    rows, used := [], {};
    for j := 0 to |ifcFiles|
      invariant rows == FileRows(xmlMap, ifcFiles[..j], caseSensitive)
      invariant used == Used(xmlMap, ifcFiles, caseSensitive, j)
    {
      rows, used := MatchFile(xmlMap, index, ifcFiles, j, caseSensitive, rows, used);
    }
    assert ifcFiles[..|ifcFiles|] == ifcFiles;
  }

  /** One turn of the file loop: the row of `ifcFiles[j]` is appended and its key consumed. */
  method MatchFile(xmlMap: seq<(string, XmlMeta)>, index: map<string, seq<string>>, ifcFiles: seq<IfcFile>, j: nat,
                   caseSensitive: bool, rows: seq<Row>, used: set<string>)
    returns (rows': seq<Row>, used': set<string>)
    requires forall c :: IndexGet(index, c) == CrcHits(xmlMap, c)
    requires j < |ifcFiles|
    requires rows == FileRows(xmlMap, ifcFiles[..j], caseSensitive)
    requires used == Used(xmlMap, ifcFiles, caseSensitive, j)
    ensures rows' == FileRows(xmlMap, ifcFiles[..j + 1], caseSensitive)
    ensures used' == Used(xmlMap, ifcFiles, caseSensitive, j + 1)
  {
    var row, consumed := CheckFile(xmlMap, index, ifcFiles[j], caseSensitive);
    used' := used + if consumed.Some? then {consumed.value} else {};
    UsedSnoc(xmlMap, ifcFiles, caseSensitive, j, consumed);
    rows' := rows + [row];
    FileRowsSnoc(xmlMap, ifcFiles, j, caseSensitive);
  }

  lemma UsedSnoc(m: seq<(string, XmlMeta)>, files: seq<IfcFile>, caseSensitive: bool, j: nat, consumed: Option<string>)
    requires j < |files| && consumed == Consumed(m, files[j], caseSensitive)
    ensures Used(m, files, caseSensitive, j + 1)
      == Used(m, files, caseSensitive, j) + if consumed.Some? then {consumed.value} else {}
  {
    assert ConsumedKeys(m, files, caseSensitive)[j] == consumed;
  }

  /** The orphan loop: a row for every record whose normalised key is not in `used`, in map order. */
  method AppendOrphans(xmlMap: seq<(string, XmlMeta)>, used: set<string>, caseSensitive: bool, fileRows: seq<Row>)
    returns (rows: seq<Row>)
    ensures rows == fileRows + Somes(OrphanOutcomes(xmlMap, used, caseSensitive), |xmlMap|)
  {
    rows := fileRows;
    ghost var orphans := OrphanOutcomes(xmlMap, used, caseSensitive);
    for i := 0 to |xmlMap|
      invariant rows == fileRows + Somes(orphans, i)
    {
      var (name, meta) := xmlMap[i];
      var k := if caseSensitive then name else LowerStr(name);
      if k in used {
        assert orphans[i] == None;
        continue;
      }
      var crc := UpperStr(if meta.crcHex.Some? then meta.crcHex.value else "");
      var row := Row(None, Some(name), if crc != "" then Some(crc) else None, None, "—", "—",
        [ErrorXmlExtra], Some(OrphanNote), Recommendations(ErrorXmlExtra));
      assert orphans[i] == Some(row);
      rows := rows + [row];
    }
  }

  /** `xml_crc_index`: upper-cased record checksum to the keys carrying it, in map order. */
  method BuildCrcIndex(xmlMap: seq<(string, XmlMeta)>) returns (index: map<string, seq<string>>)
    ensures forall c :: IndexGet(index, c) == CrcHits(xmlMap, c)
  {
    index := map[];
    for i := 0 to |xmlMap|
      invariant forall c :: IndexGet(index, c) == CrcHits(xmlMap[..i], c)
    {
      var (name, meta) := xmlMap[i];
      var crc := UpperStr(if meta.crcHex.Some? then meta.crcHex.value else "");
      if crc != "" {
        index := index[crc := IndexGet(index, crc) + [name]];
      }
      assert xmlMap[..i + 1][..i] == xmlMap[..i];
    }
    assert xmlMap[..|xmlMap|] == xmlMap;
  }

  /** The body of the file loop: one file's row, and the key it consumes. */
  method CheckFile(xmlMap: seq<(string, XmlMeta)>, index: map<string, seq<string>>, f: IfcFile, caseSensitive: bool)
    returns (row: Row, consumed: Option<string>)
    requires forall c :: IndexGet(index, c) == CrcHits(xmlMap, c)
    ensures row == FileRow(xmlMap, f, caseSensitive)
    ensures consumed == Consumed(xmlMap, f, caseSensitive)
  {
    ghost var mt := FindRecord(xmlMap, f, caseSensitive);
    var meta, xmlFile, nameMatch, crcMatch, status, details;
    meta, xmlFile, nameMatch, crcMatch, status, details, consumed := LookupRecord(xmlMap, index, f, caseSensitive);
    if status == [] && nameMatch == Some(true) && (crcMatch == Some(true) || crcMatch == None) {
      status := status + [OK];
    }
    assert status == FileStatus(mt, f);
    row := Row(
      Some(f.name),
      xmlFile,
      if meta.Some? then Some(UpperStr(if meta.value.crcHex.Some? then meta.value.crcHex.value else "")) else None,
      Some(Hex8(f.crc)),
      Tri(nameMatch),
      Tri(crcMatch),
      status,
      DetailsCell(details),
      Recommendation(status, Recommendations));
  }

  /** Finding a file's record: by its key, else by a unique checksum hit. */
  method LookupRecord(xmlMap: seq<(string, XmlMeta)>, index: map<string, seq<string>>, f: IfcFile, caseSensitive: bool)
    returns (meta: Option<XmlMeta>, xmlFile: Option<string>, nameMatch: Option<bool>, crcMatch: Option<bool>,
             status: seq<Code>, details: seq<string>, consumed: Option<string>)
    requires forall c :: IndexGet(index, c) == CrcHits(xmlMap, c)
    ensures var mt := FindRecord(xmlMap, f, caseSensitive);
      && meta == (if mt.ByName? then Some(mt.meta) else None)
      && xmlFile == XmlFileColumn(mt, f)
      && nameMatch == NameFlag(mt, f)
      && crcMatch == CrcFlag(mt, f)
      && status == LookupCodes(mt, f)
      && details == FileNotes(mt, f)
      && consumed == Consumed(xmlMap, f, caseSensitive)
  {
    var base := f.name;
    var key := if caseSensitive then base else LowerStr(base);
    meta := Get(xmlMap, key);
    var actualCrc := Hex8(f.crc);
    nameMatch, crcMatch := None, None;
    status, details := [], [];
    if meta.None? {
      var hits := IndexGet(index, actualCrc);
      xmlFile := if hits != [] then Some(hits[0]) else None;
      if |hits| == 1 {
        var xmlName := hits[0];
        consumed := Some(if caseSensitive then xmlName else LowerStr(xmlName));
        nameMatch := Some(xmlName == base);
        if !nameMatch.value {
          status := status + [NameMismatch];
          details := details + [RenamedNote];
        }
        crcMatch := Some(true);
      } else if |hits| > 1 {
        consumed := None;
        status := status + [ErrorIfcExtra];
        details := details + [ManyHitsNote(actualCrc)];
      } else {
        consumed := None;
        status := status + [ErrorIfcExtra];
        details := details + [NoRecordNote];
      }
    } else {
      xmlFile := Some(base);
      consumed := Some(key);
      nameMatch := Some(true);
      var xmlCrc := UpperStr(if meta.value.crcHex.Some? then meta.value.crcHex.value else "");
      if xmlCrc != "" {
        crcMatch := Some(xmlCrc == actualCrc);
        if !crcMatch.value {
          status := status + [CrcMismatch];
          details := details + [CrcNote(xmlCrc, actualCrc)];
        }
      } else {
        details := details + [NoCrcNote];
      }
    }
  }

  lemma FileRowsSnoc(m: seq<(string, XmlMeta)>, files: seq<IfcFile>, j: nat, caseSensitive: bool)
    requires j < |files|
    ensures FileRows(m, files[..j + 1], caseSensitive)
      == FileRows(m, files[..j], caseSensitive) + [FileRow(m, files[j], caseSensitive)]
  {
    MapSeqSnoc(f => FileRow(m, f, caseSensitive), files, j);
  }

  lemma FileRowsAt(m: seq<(string, XmlMeta)>, files: seq<IfcFile>, caseSensitive: bool)
    ensures forall j | 0 <= j < |files| :: FileRows(m, files, caseSensitive)[j] == FileRow(m, files[j], caseSensitive)
  {
    MapSeqAt(f => FileRow(m, f, caseSensitive), files);
  }

  // ---------------------------------------------------------------------------
  // Properties of the index

  lemma {:induction false} CrcHitsAreKeys(m: seq<(string, XmlMeta)>, c: string)
    ensures forall k | k in CrcHits(m, c) :: HasKey(m, k)
  {
    if m != [] {
      var n := |m| - 1;
      CrcHitsAreKeys(m[..n], c);
      assert m == m[..n] + [m[n]];
      forall k | k in CrcHits(m, c) ensures HasKey(m, k) {
        HasKeyAppend(m[..n], m[n], k);
      }
    }
  }

  /**
   * The index lists exactly the keys whose record carries the non-empty
   * checksum `c` (upper-cased), in map order.
   */
  lemma {:induction false} CrcIndexSpec(m: seq<(string, XmlMeta)>, c: string)
    requires DistinctKeys(m)
    ensures forall k :: k in CrcHits(m, c) <==> HasKey(m, k) && XmlCrc(Get(m, k).value) == Some(c)
    ensures forall t, u | 0 <= t < u < |CrcHits(m, c)| ::
      FirstIndex(m, CrcHits(m, c)[t]) < FirstIndex(m, CrcHits(m, c)[u])
  {
    if m != [] {
      var n := |m| - 1;
      var p, last := m[..n], m[n];
      assert DistinctKeys(p);
      CrcIndexSpec(p, c);
      CrcHitsAreKeys(p, c);
      assert m == p + [last];
      assert !HasKey(p, last.0);
      FirstIndexOfLast(m);
      var hp, hits := CrcHits(p, c), CrcHits(m, c);
      forall k | HasKey(p, k) ensures Get(m, k) == Get(p, k) && FirstIndex(m, k) < n {
        FirstIndexOfPrefix(m, n, k);
      }
      forall k ensures k in hits <==> HasKey(m, k) && XmlCrc(Get(m, k).value) == Some(c) {
        HasKeyAppend(p, last, k);
      }
      forall t, u | 0 <= t < u < |hits| ensures FirstIndex(m, hits[t]) < FirstIndex(m, hits[u]) {
        assert hits[t] in hp;
        if u < |hp| {
          assert hits[u] in hp;
        }
      }
    }
  }

  // ---------------------------------------------------------------------------
  // Consumption and the orphan rows

  /**
   * A file consumes a key exactly when its own key names a record (and it
   * consumes that key), or no record has its key and the normalised key of
   * the only checksum hit is consumed.
   */
  lemma ConsumedKey(m: seq<(string, XmlMeta)>, f: IfcFile, caseSensitive: bool, k: string)
    ensures var key, hits := NameKey(f.name, caseSensitive), CrcHits(m, Hex8(f.crc));
      Consumed(m, f, caseSensitive) == Some(k) <==>
        (HasKey(m, key) && k == key) || (!HasKey(m, key) && |hits| == 1 && k == NameKey(hits[0], caseSensitive))
  {
  }

  /** The `used_xml` set holds exactly the keys some file consumed. */
  lemma UsedSpec(m: seq<(string, XmlMeta)>, files: seq<IfcFile>, caseSensitive: bool, n: nat, k: string)
    requires n <= |files|
    ensures k in Used(m, files, caseSensitive, n) <==> exists j | 0 <= j < n :: Consumed(m, files[j], caseSensitive) == Some(k)
  {
    var ks := ConsumedKeys(m, files, caseSensitive);
    PresentSpec(ks, n, k);
    assert forall j | 0 <= j < n :: ks[j] == Consumed(m, files[j], caseSensitive);
  }

  /** The positions of the records whose normalised key no file consumed. */
  function OrphanIndices(m: seq<(string, XmlMeta)>, files: seq<IfcFile>, caseSensitive: bool): seq<nat>
  {
    SomeIndices(OrphanOutcomes(m, Used(m, files, caseSensitive, |files|), caseSensitive), |m|)
  }

  /**
   * The report is one row per file, in input order, followed by one
   * `ERROR_XML_EXTRA` row per record whose normalised key no file consumed,
   * in map order.
   */
  lemma ReportShape(m: seq<(string, XmlMeta)>, files: seq<IfcFile>, caseSensitive: bool)
    ensures var r, js := Report(m, files, caseSensitive), OrphanIndices(m, files, caseSensitive);
      && |r| == |files| + |js|
      && (forall j | 0 <= j < |files| :: r[j] == FileRow(m, files[j], caseSensitive) && r[j].fileName == Some(files[j].name))
      && (forall i | 0 <= i < |m| :: i in js <==>
            forall j | 0 <= j < |files| :: Consumed(m, files[j], caseSensitive) != Some(NameKey(m[i].0, caseSensitive)))
      && (forall t | 0 <= t < |js| ::
            js[t] < |m| && r[|files| + t] == OrphanRow(m[js[t]].0, m[js[t]].1)
            && r[|files| + t].status == [ErrorXmlExtra] && r[|files| + t].fileName == None
            && r[|files| + t].xmlFile == Some(m[js[t]].0))
      && (forall t, u | 0 <= t < u < |js| :: js[t] < js[u])
  {
    ReportOrphanRows(m, files, caseSensitive);
    OrphanIndicesSpec(m, files, caseSensitive);
  }

  /** The rows after the file rows are the orphan rows, one per unclaimed position. */
  lemma ReportOrphanRows(m: seq<(string, XmlMeta)>, files: seq<IfcFile>, caseSensitive: bool)
    ensures var r, js := Report(m, files, caseSensitive), OrphanIndices(m, files, caseSensitive);
      && |r| == |files| + |js|
      && forall t | 0 <= t < |js| :: js[t] < |m| && r[|files| + t] == OrphanRow(m[js[t]].0, m[js[t]].1)
  {
    var used := Used(m, files, caseSensitive, |files|);
    var a, b := FileRows(m, files, caseSensitive), Orphans(m, used, caseSensitive);
    OrphansAt(m, used, caseSensitive);
    ConcatAt(a, b);
  }

  /** The orphan positions are those of the records whose normalised key no file consumed. */
  lemma OrphanIndicesSpec(m: seq<(string, XmlMeta)>, files: seq<IfcFile>, caseSensitive: bool)
    ensures var js := OrphanIndices(m, files, caseSensitive);
      forall i | 0 <= i < |m| :: i in js <==>
        forall j | 0 <= j < |files| :: Consumed(m, files[j], caseSensitive) != Some(NameKey(m[i].0, caseSensitive))
  {
    var used := Used(m, files, caseSensitive, |files|);
    forall i | 0 <= i < |m|
      ensures NameKey(m[i].0, caseSensitive) in used <==>
        exists j | 0 <= j < |files| :: Consumed(m, files[j], caseSensitive) == Some(NameKey(m[i].0, caseSensitive))
    {
      UsedSpec(m, files, caseSensitive, |files|, NameKey(m[i].0, caseSensitive));
    }
  }

  /** The orphan rows are those of the records at the orphan positions, in order. */
  lemma OrphansAt(m: seq<(string, XmlMeta)>, used: set<string>, caseSensitive: bool)
    ensures var xs := OrphanOutcomes(m, used, caseSensitive);
      var b, js := Orphans(m, used, caseSensitive), SomeIndices(xs, |m|);
      && |b| == |js|
      && forall t | 0 <= t < |js| :: js[t] < |m| && b[t] == OrphanRow(m[js[t]].0, m[js[t]].1)
  {
    var xs := OrphanOutcomes(m, used, caseSensitive);
    SomesAt(xs, |m|);
  }

  /**
   * The map's keys are already in the form the comparison uses: lower-case
   * when case is ignored. `extract_from_xml` stores them so when run with the
   * same setting.
   */
  predicate Normalized(m: seq<(string, XmlMeta)>, caseSensitive: bool)
  {
    !caseSensitive ==> forall i | 0 <= i < |m| :: LowerStr(m[i].0) == m[i].0
  }

  lemma ManifestNormalized(root: Element, tags: Tags, caseSensitive: bool)
    ensures Normalized(Manifest(root, tags, caseSensitive), caseSensitive)
    ensures DistinctKeys(Manifest(root, tags, caseSensitive))
  {
    var m := Manifest(root, tags, caseSensitive);
    forall t | 0 <= t < |m| ensures WellStored(m[t], tags.filter, caseSensitive) {
      var _ := ManifestEarliest(root, tags, caseSensitive, t);
    }
  }

  /** File `f` found the record named `name`: under its own key, or as the only checksum hit. */
  predicate Found(m: seq<(string, XmlMeta)>, f: IfcFile, caseSensitive: bool, name: string)
  {
    match FindRecord(m, f, caseSensitive)
    case ByName(_) => NameKey(f.name, caseSensitive) == name
    case ByCrc(n) => n == name
    case Unmatched(_) => false
  }

  /**
   * On a normalised map, consuming a record's normalised key is the same as
   * finding that record: lookup and consumption lower-case alike.
   */
  lemma ConsumedIffFound(m: seq<(string, XmlMeta)>, f: IfcFile, caseSensitive: bool, i: nat)
    requires i < |m| && Normalized(m, caseSensitive)
    ensures Consumed(m, f, caseSensitive) == Some(NameKey(m[i].0, caseSensitive)) <==> Found(m, f, caseSensitive, m[i].0)
  {
    var name := m[i].0;
    assert NameKey(name, caseSensitive) == name;
    match FindRecord(m, f, caseSensitive)
    case ByName(_) =>
      LowerStrIdempotent(f.name);
    case ByCrc(n) =>
      CrcHitsAreKeys(m, Hex8(f.crc));
      assert n in CrcHits(m, Hex8(f.crc));
      var h :| 0 <= h < |m| && m[h].0 == n;
      assert NameKey(n, caseSensitive) == n;
    case Unmatched(_) =>
  }

  /**
   * On a normalised map, a record gets an `ERROR_XML_EXTRA` row exactly when
   * no file found it.
   */
  lemma OrphanIffUnfound(m: seq<(string, XmlMeta)>, files: seq<IfcFile>, caseSensitive: bool, i: nat)
    requires i < |m| && Normalized(m, caseSensitive)
    ensures i in OrphanIndices(m, files, caseSensitive) <==>
      forall j | 0 <= j < |files| :: !Found(m, files[j], caseSensitive, m[i].0)
  {
    ReportShape(m, files, caseSensitive);
    forall j | 0 <= j < |files|
      ensures Consumed(m, files[j], caseSensitive) == Some(NameKey(m[i].0, caseSensitive))
        <==> Found(m, files[j], caseSensitive, m[i].0)
    {
      ConsumedIffFound(m, files[j], caseSensitive, i);
    }
  }

  // ---------------------------------------------------------------------------
  // The row of one file

  /** No record under the file's key and zero or several checksum hits: nothing is found or consumed. */
  lemma UnmatchedFile(m: seq<(string, XmlMeta)>, f: IfcFile, caseSensitive: bool)
    requires !HasKey(m, NameKey(f.name, caseSensitive)) && |CrcHits(m, Hex8(f.crc))| != 1
    ensures FindRecord(m, f, caseSensitive) == Unmatched(CrcHits(m, Hex8(f.crc)))
    ensures Consumed(m, f, caseSensitive) == None
  {
  }

  /** Its row is only `ERROR_IFC_EXTRA`, compares nothing, and shows the first hit if there is one. */
  lemma UnmatchedRow(hits: seq<string>, f: IfcFile)
    ensures var r := MatchRow(Unmatched(hits), f);
      && r.status == [ErrorIfcExtra]
      && r.nameOk == "—" && r.crcOk == "—" && r.xmlCrc == None
      && r.xmlFile == (if hits == [] then None else Some(hits[0]))
      && r.details == Some(if |hits| > 1 then ManyHitsNote(Hex8(f.crc)) else NoRecordNote)
  {
  }

  /**
   * A record found by checksum counts as matching on checksum; the status is
   * `NAME_MISMATCH` when it is named differently from the file, and `OK`
   * otherwise.
   */
  lemma ByCrcRow(n: string, f: IfcFile)
    ensures var r := MatchRow(ByCrc(n), f);
      && r.crcOk == "Да"
      && r.status == (if n != f.name then [NameMismatch] else [OK])
      && (r.nameOk == "Да" <==> n == f.name)
      && r.xmlFile == Some(n) && r.xmlCrc == None
      && (n != f.name ==> r.details == Some(RenamedNote))
  {
  }

  /**
   * A record found by name counts as matching on name; the status is
   * `CRC_MISMATCH` exactly when the record has a checksum and it differs from
   * the file's, and otherwise `OK`; a record without a checksum is noted.
   */
  lemma ByNameRow(meta: XmlMeta, f: IfcFile)
    ensures var r, x := MatchRow(ByName(meta), f), XmlCrc(meta);
      && r.nameOk == "Да"
      && r.status == (if x.Some? && x.value != Hex8(f.crc) then [CrcMismatch] else [OK])
      && (r.crcOk == "—" <==> x.None?)
      && (x.None? ==> r.details == Some(NoCrcNote))
      && (x.Some? && x.value != Hex8(f.crc) ==> r.details == Some(CrcNote(x.value, Hex8(f.crc))))
      && r.xmlFile == Some(f.name) && r.xmlCrc == Some(StoredCrc(meta))
  {
  }

  /**
   * A file's status is exactly one code, and it is `OK` exactly when the names
   * match and the checksums do not differ.
   */
  lemma FileStatusOk(mt: Match, f: IfcFile)
    ensures var r := MatchRow(mt, f);
      && |r.status| == 1
      && (r.status == [OK] <==> r.nameOk == "Да" && r.crcOk != "Нет")
  {
  }

  /**
   * On a normalised map, a file found only by checksum never carries the
   * record's name: its status is always `NAME_MISMATCH`.
   */
  lemma CrcMatchIsRename(m: seq<(string, XmlMeta)>, f: IfcFile, caseSensitive: bool)
    requires Normalized(m, caseSensitive)
    requires FindRecord(m, f, caseSensitive).ByCrc?
    ensures FindRecord(m, f, caseSensitive).xmlName != f.name
    ensures FileRow(m, f, caseSensitive).status == [NameMismatch]
  {
    var n := FindRecord(m, f, caseSensitive).xmlName;
    CrcHitsAreKeys(m, Hex8(f.crc));
    assert n in CrcHits(m, Hex8(f.crc));
    var h :| 0 <= h < |m| && m[h].0 == n;
    assert NameKey(n, caseSensitive) == n;
  }

  /** Every row of the report carries a recommendation. */
  lemma RecommendationPresent(m: seq<(string, XmlMeta)>, files: seq<IfcFile>, caseSensitive: bool)
    ensures forall r | r in Report(m, files, caseSensitive) :: r.recommendation.Some?
  {
    var used := Used(m, files, caseSensitive, |files|);
    var a, b := FileRows(m, files, caseSensitive), Somes(OrphanOutcomes(m, used, caseSensitive), |m|);
    FileRowsAt(m, files, caseSensitive);
    forall j | 0 <= j < |files| ensures a[j].recommendation.Some? {
      var mt := FindRecord(m, files[j], caseSensitive);
      var st := FileStatus(mt, files[j]);
      FileStatusOk(mt, files[j]);
      assert st[0] in st && Mapped(Recommendations, st[0]);
    }
    var xs := OrphanOutcomes(m, used, caseSensitive);
    SomesAt(xs, |m|);
    forall k | 0 <= k < |b| ensures b[k].recommendation.Some? {
      var i := SomeIndices(xs, |m|)[k];
      assert xs[i] == Some(OrphanRow(m[i].0, m[i].1));
    }
    assert forall r | r in a + b :: r in a || r in b;
  }

  /**
   * The `CRC-32 IFC` column is the 8-digit upper-case hexadecimal form of the
   * file's 32-bit checksum.
   */
  lemma IfcCrcColumn(m: seq<(string, XmlMeta)>, f: IfcFile, caseSensitive: bool)
    ensures var x := FileRow(m, f, caseSensitive).ifcCrc;
      x.Some? && |x.value| == 8 && AllUpperHex(x.value) && ParseHex(x.value) == f.crc
  {
    Hex8ReadBack(f.crc);
  }
}
