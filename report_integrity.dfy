/**
 * The three-way presence check (`build_integrity_report`): every name seen
 * among the IFC files, the certification sheet records and the XML records
 * (lower-cased when case is ignored) gets one row, in sorted order, saying in
 * which of the three sources it is missing.
 *
 * The report is specified by `IntegrityReport`; `BuildIntegrityReport`
 * computes it with the loop of the original and is proved equal to it.
 */
module ReportIntegrity {
  import opened Wrappers
  import opened Text
  import opened Seqs
  import opened OrderedDict
  import opened StrOrder
  import opened Utils
  import opened XmlReader
  import opened IulReader

  /** One report row; `status` holds the codes behind the status column. */
  datatype IntegrityRow = IntegrityRow(
    ifc: Option<string>,
    pdf: Option<string>,
    xml: Option<string>,
    hasIfc: bool,
    hasPdf: bool,
    hasXml: bool,
    status: seq<Code>,
    details: Option<string>)

  const NoIfcNote := "IFC отсутствует"
  const NoPdfNote := "PDF отсутствует"
  const NoXmlNote := "XML отсутствует"

  /** `{n if case_sensitive else n.lower() for n in names}`. */
  function NameSet(names: seq<string>, caseSensitive: bool): set<string>
  {
    set i | 0 <= i < |names| :: NameKey(names[i], caseSensitive)
  }

  /** `item` when `name` is missing from the source. */
  function IfAbsent<T>(present: bool, item: T): seq<T>
  {
    if present then [] else [item]
  }

  /**
   * The row of `name`: present or missing in each of the three sets. The flags
   * are set membership, and each column shows the name exactly when its flag
   * holds.
   */
  function NameRow(name: string, ifcs: set<string>, pdfs: set<string>, xmls: set<string>): (r: IntegrityRow)
    ensures r.hasIfc == (name in ifcs) && r.hasPdf == (name in pdfs) && r.hasXml == (name in xmls)
    ensures r.ifc == (if r.hasIfc then Some(name) else None)
    ensures r.pdf == (if r.hasPdf then Some(name) else None)
    ensures r.xml == (if r.hasXml then Some(name) else None)
  {
    var hasIfc, hasPdf, hasXml := name in ifcs, name in pdfs, name in xmls;
    var codes := IfAbsent(hasIfc, MissingIfc) + IfAbsent(hasPdf, MissingPdf) + IfAbsent(hasXml, MissingXml);
    IntegrityRow(
      if hasIfc then Some(name) else None,
      if hasPdf then Some(name) else None,
      if hasXml then Some(name) else None,
      hasIfc, hasPdf, hasXml,
      if codes == [] then [OK] else codes,
      DetailsCell(IfAbsent(hasIfc, NoIfcNote) + IfAbsent(hasPdf, NoPdfNote) + IfAbsent(hasXml, NoXmlNote)))
  }

  function IntegrityRows(names: seq<string>, ifcs: set<string>, pdfs: set<string>, xmls: set<string>)
    : (rows: seq<IntegrityRow>)
    ensures |rows| == |names|
  {
    MapSeq((n: string) => NameRow(n, ifcs, pdfs, xmls), names)
  }

  /** The three name sets: IFC files, sheet record keys, XML record keys. */
  function IfcNames(ifcNames: seq<string>, caseSensitive: bool): set<string>
  {
    NameSet(ifcNames, caseSensitive)
  }

  function PdfNames(iulMap: seq<(string, IulEntry)>, caseSensitive: bool): set<string>
  {
    NameSet(Keys(iulMap), caseSensitive)
  }

  function XmlNames(xmlMap: seq<(string, XmlMeta)>, caseSensitive: bool): set<string>
  {
    NameSet(Keys(xmlMap), caseSensitive)
  }

  /** All names, sorted. */
  ghost function AllNames(xmlMap: seq<(string, XmlMeta)>, iulMap: seq<(string, IulEntry)>, ifcNames: seq<string>,
                          caseSensitive: bool): seq<string>
  {
    SortedNames(IfcNames(ifcNames, caseSensitive) + PdfNames(iulMap, caseSensitive) + XmlNames(xmlMap, caseSensitive))
  }

  /**
   * The report: one row per distinct name of the union of the three sets, in
   * strictly increasing order of names.
   */
  ghost function IntegrityReport(xmlMap: seq<(string, XmlMeta)>, iulMap: seq<(string, IulEntry)>, ifcNames: seq<string>,
                                 caseSensitive: bool): (rows: seq<IntegrityRow>)
    ensures var names := AllNames(xmlMap, iulMap, ifcNames, caseSensitive);
      var ifcs, pdfs, xmls := IfcNames(ifcNames, caseSensitive), PdfNames(iulMap, caseSensitive), XmlNames(xmlMap, caseSensitive);
      && |rows| == |names|
      && (forall i, j | 0 <= i < j < |names| :: Below(names[i], names[j]))
      && (forall i | 0 <= i < |names| :: names[i] in ifcs + pdfs + xmls && rows[i] == NameRow(names[i], ifcs, pdfs, xmls))
      && (forall x | x in ifcs + pdfs + xmls :: x in names)
  {
    var ifcs, pdfs, xmls := IfcNames(ifcNames, caseSensitive), PdfNames(iulMap, caseSensitive), XmlNames(xmlMap, caseSensitive);
    var names := AllNames(xmlMap, iulMap, ifcNames, caseSensitive);
    MapSeqAt((n: string) => NameRow(n, ifcs, pdfs, xmls), names);
    IntegrityRows(names, ifcs, pdfs, xmls)
  }

  // ---------------------------------------------------------------------------
  // build_integrity_report

  /** The IFC files are given by their names, all the check reads of them. */
  method BuildIntegrityReport(xmlMap: seq<(string, XmlMeta)>, iulMap: seq<(string, IulEntry)>, ifcNames: seq<string>,
                              caseSensitive: bool)
    returns (rows: seq<IntegrityRow>)
    ensures rows == IntegrityReport(xmlMap, iulMap, ifcNames, caseSensitive)
  {
    var ifcs := IfcNames(ifcNames, caseSensitive);
    var pdfs := PdfNames(iulMap, caseSensitive);
    var xmls := XmlNames(xmlMap, caseSensitive);
    var names := SortNames(ifcs + pdfs + xmls);
    rows := [];
    for i := 0 to |names|
      invariant rows == IntegrityRows(names[..i], ifcs, pdfs, xmls)
    {
      var row := CheckName(names[i], ifcs, pdfs, xmls);
      rows := rows + [row];
      MapSeqSnoc((n: string) => NameRow(n, ifcs, pdfs, xmls), names, i);
    }
    assert names[..|names|] == names;
  }

  /** The body of the loop: the row of one name. */
  method CheckName(name: string, namesIfc: set<string>, namesPdf: set<string>, namesXml: set<string>)
    returns (row: IntegrityRow)
    ensures row == NameRow(name, namesIfc, namesPdf, namesXml)
  {
    var hasIfc := name in namesIfc;
    var hasPdf := name in namesPdf;
    var hasXml := name in namesXml;
    var status: seq<Code> := [];
    var details: seq<string> := [];
    if !hasIfc {
      status := status + [MissingIfc];
      details := details + [NoIfcNote];
    }
    if !hasPdf {
      status := status + [MissingPdf];
      details := details + [NoPdfNote];
    }
    if !hasXml {
      status := status + [MissingXml];
      details := details + [NoXmlNote];
    }
    assert status == IfAbsent(hasIfc, MissingIfc) + IfAbsent(hasPdf, MissingPdf) + IfAbsent(hasXml, MissingXml);
    assert details == IfAbsent(hasIfc, NoIfcNote) + IfAbsent(hasPdf, NoPdfNote) + IfAbsent(hasXml, NoXmlNote);
    if status == [] {
      status := status + [OK];
    }
    row := IntegrityRow(
      if hasIfc then Some(name) else None,
      if hasPdf then Some(name) else None,
      if hasXml then Some(name) else None,
      hasIfc, hasPdf, hasXml,
      status,
      DetailsCell(details));
  }

  // ---------------------------------------------------------------------------
  // Properties

  /** The order the codes are reported in. */
  function Rank(c: Code): nat
  {
    match c
    case MissingIfc => 0
    case MissingPdf => 1
    case MissingXml => 2
    case _ => 3
  }

  /**
   * Each `MISSING_*` code appears exactly when its name is absent from its
   * set, and the status is `OK`
   * (alone) exactly when the name is in all three sets.
   */
  lemma NameRowStatus(name: string, ifcs: set<string>, pdfs: set<string>, xmls: set<string>)
    ensures var st := NameRow(name, ifcs, pdfs, xmls).status;
      && (MissingIfc in st <==> name !in ifcs)
      && (MissingPdf in st <==> name !in pdfs)
      && (MissingXml in st <==> name !in xmls)
      && st != []
      && (OK in st ==> st == [OK])
      && (OK in st <==> name in ifcs && name in pdfs && name in xmls)
  {
    var codes := IfAbsent(name in ifcs, MissingIfc) + IfAbsent(name in pdfs, MissingPdf) + IfAbsent(name in xmls, MissingXml);
    assert OK !in codes;
  }

  /** The codes come in the order IFC, PDF, XML. */
  lemma NameRowOrder(name: string, ifcs: set<string>, pdfs: set<string>, xmls: set<string>)
    ensures var st := NameRow(name, ifcs, pdfs, xmls).status;
      forall a, b | 0 <= a < b < |st| :: Rank(st[a]) < Rank(st[b])
  {
    var codes := IfAbsent(name in ifcs, MissingIfc) + IfAbsent(name in pdfs, MissingPdf) + IfAbsent(name in xmls, MissingXml);
    assert forall a, b | 0 <= a < b < |codes| :: Rank(codes[a]) < Rank(codes[b]);
  }

  /** A name of the union is in at least one set, so never carries all three `MISSING_*` codes. */
  lemma NeverAllMissing(name: string, ifcs: set<string>, pdfs: set<string>, xmls: set<string>)
    requires name in ifcs + pdfs + xmls
    ensures var st := NameRow(name, ifcs, pdfs, xmls).status;
      |st| <= 2 && !(MissingIfc in st && MissingPdf in st && MissingXml in st)
  {
  }

  lemma NameSetLower(names: seq<string>)
    ensures forall x | x in NameSet(names, false) :: LowerStr(x) == x
    ensures forall k | 0 <= k < |names| :: LowerStr(names[k]) in NameSet(names, false)
  {
    forall x | x in NameSet(names, false) ensures LowerStr(x) == x {
      var i :| 0 <= i < |names| && x == LowerStr(names[i]);
      LowerStrIdempotent(names[i]);
    }
  }

  /**
   * When case is ignored, every row is of a lower-case name, so no two rows
   * are the same name up to case.
   */
  lemma CaseInsensitiveRows(xmlMap: seq<(string, XmlMeta)>, iulMap: seq<(string, IulEntry)>, ifcNames: seq<string>)
    ensures var names := AllNames(xmlMap, iulMap, ifcNames, false);
      && (forall i | 0 <= i < |names| :: LowerStr(names[i]) == names[i])
      && (forall i, j | 0 <= i < j < |names| :: LowerStr(names[i]) != LowerStr(names[j]))
  {
    var names := AllNames(xmlMap, iulMap, ifcNames, false);
    NameSetLower(ifcNames);
    NameSetLower(Keys(iulMap));
    NameSetLower(Keys(xmlMap));
    forall i, j | 0 <= i < j < |names| ensures LowerStr(names[i]) != LowerStr(names[j]) {
      BelowIrreflexive(names[i]);
    }
  }

  /**
   * When case is ignored, names that differ only in case share one row: each
   * IFC file, sheet record and XML record is listed under its lower-cased name.
   */
  lemma CaseInsensitiveMerge(xmlMap: seq<(string, XmlMeta)>, iulMap: seq<(string, IulEntry)>, ifcNames: seq<string>)
    ensures var names := AllNames(xmlMap, iulMap, ifcNames, false);
      && (forall k | 0 <= k < |ifcNames| :: LowerStr(ifcNames[k]) in names)
      && (forall k | 0 <= k < |iulMap| :: LowerStr(iulMap[k].0) in names)
      && (forall k | 0 <= k < |xmlMap| :: LowerStr(xmlMap[k].0) in names)
  {
    NameSetLower(ifcNames);
    NameSetLower(Keys(iulMap));
    NameSetLower(Keys(xmlMap));
    assert forall k | 0 <= k < |iulMap| :: Keys(iulMap)[k] == iulMap[k].0;
    assert forall k | 0 <= k < |xmlMap| :: Keys(xmlMap)[k] == xmlMap[k].0;
  }
}
