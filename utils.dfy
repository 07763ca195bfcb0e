/**
 * The helpers every report shares: the three-valued flag cell (`tri`), the
 * status codes, and the recommendation text built from a status list. A mapping from codes
 * to texts is given by its `get`: `None` for a code it does not hold.
 */
module Utils {
  import opened Wrappers
  import opened Text

  /** `tri`: how a yes/no/unknown comparison outcome is shown in a report cell. */
  function Tri(v: Option<bool>): (r: string)
    ensures v == Some(true) <==> r == "Да"
    ensures v == Some(false) <==> r == "Нет"
    ensures v == None <==> r == "—"
  {
    match v
    case Some(true) => "Да"
    case Some(false) => "Нет"
    case None => "—"
  }

  /** The status codes the reports emit. */
  datatype Code =
    | OK
    | ErrorIfcExtra
    | ErrorIulExtra
    | ErrorXmlExtra
    | NameMismatch
    | CrcMismatch
    | SizeMismatch
    | DtMismatch
    | PdfNameMismatch
    | MissingIul
    | MissingBase
    | MissingIfc
    | MissingPdf
    | MissingXml
  {
    /** The code as it appears in the status column. */
    function Name(): string
    {
      match this
      case OK => "OK"
      case ErrorIfcExtra => "ERROR_IFC_EXTRA"
      case ErrorIulExtra => "ERROR_IUL_EXTRA"
      case ErrorXmlExtra => "ERROR_XML_EXTRA"
      case NameMismatch => "NAME_MISMATCH"
      case CrcMismatch => "CRC_MISMATCH"
      case SizeMismatch => "SIZE_MISMATCH"
      case DtMismatch => "DT_MISMATCH"
      case PdfNameMismatch => "PDF_NAME_MISMATCH"
      case MissingIul => "MISSING_IUL"
      case MissingBase => "MISSING_BASE"
      case MissingIfc => "MISSING_IFC"
      case MissingPdf => "MISSING_PDF"
      case MissingXml => "MISSING_XML"
    }
  }

  /** `(s or "").upper() or None`: an optional text upper-cased, an empty one counting as absent. */
  function UpperOrNone(s: Option<string>): (r: Option<string>)
    ensures r.Some? <==> s.Some? && s.value != ""
    ensures r.Some? ==> r.value != "" && r.value == UpperStr(s.value)
  {
    UpperStrEmpty(if s.Some? then s.value else "");
    var u := UpperStr(if s.Some? then s.value else "");
    if u == "" then None else Some(u)
  }

  /** `name if case_sensitive else name.lower()`: the form names are compared in. */
  function NameKey(name: string, caseSensitive: bool): string
  {
    if caseSensitive then name else LowerStr(name)
  }

  /** `code` when the comparison was made and failed. */
  function IfFailed(flag: Option<bool>, code: Code): seq<Code>
  {
    if flag == Some(false) then [code] else []
  }

  /** The status column: the code names joined by `";"`, or `"—"` when there are none. */
  function StatusCell(status: seq<Code>): (r: string)
    ensures status == [] ==> r == "—"
    ensures |status| == 1 ==> r == status[0].Name()
  {
    if status == [] then "—" else Join(CodeNames(status), ";")
  }

  /** The names of the codes, in order. */
  function CodeNames(status: seq<Code>): (names: seq<string>)
    ensures |names| == |status|
    ensures forall k | 0 <= k < |status| :: names[k] == status[k].Name()
  {
    if status == [] then [] else CodeNames(status[..|status| - 1]) + [status[|status| - 1].Name()]
  }

  /** Each further code extends the status column by `";"` and its name. */
  lemma StatusCellSnoc(status: seq<Code>, c: Code)
    ensures StatusCell(status + [c]) == if status == [] then c.Name() else StatusCell(status) + ";" + c.Name()
  {
    assert (status + [c])[..|status|] == status;
    JoinSnoc(CodeNames(status), c.Name(), ";");
  }

  /** A details column: the notes joined by `"; "`, or nothing when there are none. */
  function DetailsCell(details: seq<string>): (r: Option<string>)
    ensures r.None? <==> details == []
    ensures |details| == 1 ==> r == Some(details[0])
  {
    if details == [] then None else Some(Join(details, "; "))
  }

  /** Each further note extends the details column by `"; "` and the note. */
  lemma DetailsCellSnoc(details: seq<string>, x: string)
    ensures DetailsCell(details + [x]) == Some(if details == [] then x else DetailsCell(details).value + "; " + x)
  {
    JoinSnoc(details, x, "; ");
  }

  // ---------------------------------------------------------------------------
  // recommendation

  /** `mapping.get(s)` is truthy: present and non-empty. */
  predicate Mapped<K>(mapping: K -> Option<string>, s: K)
  {
    mapping(s).Some? && mapping(s).value != ""
  }

  /** `[mapping.get(s) for s in status if mapping.get(s)]`. */
  function Recs<K>(status: seq<K>, mapping: K -> Option<string>): (recs: seq<string>)
    ensures |recs| <= |status|
    ensures forall r | r in recs :: r != ""
  {
    if status == [] then []
    else (if Mapped(mapping, status[0]) then [mapping(status[0]).value] else []) + Recs(status[1..], mapping)
  }

  /**
   * `recommendation`: the mapped texts joined by `"; "`; nothing exactly when
   * no code has a (non-empty) text, so the empty list has none.
   */
  function Recommendation<K>(status: seq<K>, mapping: K -> Option<string>): (r: Option<string>)
    ensures r.None? <==> forall s | s in status :: !Mapped(mapping, s)
    ensures r.Some? ==> r.value != ""
  {
    var recs := Recs(status, mapping);
    RecsEmpty(status, mapping);
    if recs == [] then None
    else
      assert recs[0] in recs;
      Some(Join(recs, "; "))
  }

  lemma {:induction false} RecsConcat<K>(a: seq<K>, b: seq<K>, mapping: K -> Option<string>)
    ensures Recs(a + b, mapping) == Recs(a, mapping) + Recs(b, mapping)
  {
    if a != [] {
      assert (a + b)[1..] == a[1..] + b;
      RecsConcat(a[1..], b, mapping);
    } else {
      assert a + b == b;
    }
  }

  lemma {:induction false} RecsEmpty<K>(status: seq<K>, mapping: K -> Option<string>)
    ensures Recs(status, mapping) == [] <==> forall s | s in status :: !Mapped(mapping, s)
  {
    if status != [] {
      RecsEmpty(status[1..], mapping);
      assert forall s | s in status :: s == status[0] || s in status[1..];
    }
  }

  /**
   * Otherwise the texts are joined in status order, one per occurrence: the
   * recommendation of `a + [s]` extends that of `a` by the text of `s`.
   */
  lemma RecommendationInOrder<K>(a: seq<K>, s: K, mapping: K -> Option<string>)
    requires Mapped(mapping, s)
    ensures Recommendation([s], mapping) == Some(mapping(s).value)
    ensures Recommendation(a + [s], mapping) ==
      Some(if Recs(a, mapping) == [] then mapping(s).value else Join(Recs(a, mapping), "; ") + "; " + mapping(s).value)
  {
    RecsConcat(a, [s], mapping);
    assert Recs([s], mapping) == [mapping(s).value];
    JoinSnoc(Recs(a, mapping), mapping(s).value, "; ");
  }

  lemma {:induction false} JoinSnoc(ps: seq<string>, x: string, sep: string)
    ensures Join(ps + [x], sep) == if ps == [] then x else Join(ps, sep) + sep + x
  {
    if |ps| == 1 {
      assert ps + [x] == [ps[0], x];
    } else if |ps| > 1 {
      assert (ps + [x])[1..] == ps[1..] + [x];
      JoinSnoc(ps[1..], x, sep);
    }
  }

  /** An unmapped code anywhere in the status list changes nothing. */
  lemma RecommendationIgnoresUnmapped<K>(a: seq<K>, s: K, b: seq<K>, mapping: K -> Option<string>)
    requires !Mapped(mapping, s)
    ensures Recommendation(a + [s] + b, mapping) == Recommendation(a + b, mapping)
  {
    RecsConcat(a + [s], b, mapping);
    RecsConcat(a, [s], mapping);
    RecsConcat(a, b, mapping);
    assert Recs([s], mapping) == [];
    assert Recs(a + [s], mapping) == Recs(a, mapping);
    assert Recs(a + [s] + b, mapping) == Recs(a + b, mapping);
  }
}
