/**
 * Reading the XML manifest: the element tree is given (parsing it is the
 * library's job); the model selects the entry elements, reads their name,
 * format and checksum children, and keys them first-wins. The rules that name
 * the tags are the defaults, overridden key by key from a loaded YAML mapping.
 */
module XmlReader {
  import opened Wrappers
  import opened Text
  import opened OrderedDict
  import opened Seqs

  // ---------------------------------------------------------------------------
  // DEFAULT_RULES and read_rules

  /** The keys of `DEFAULT_RULES`, in their order. */
  const RuleKeys: seq<string> := ["entry_tag", "name_tag", "checksum_tag", "format_tag", "filter_format"]

  /** `DEFAULT_RULES`. */
  const DefaultRules: map<string, string> :=
    map["entry_tag" := "ModelFile", "name_tag" := "FileName", "checksum_tag" := "FileChecksum",
        "format_tag" := "FileFormat", "filter_format" := "IFC"]

  /**
   * The value `read_rules` gives key `k`: the loaded one when the mapping was
   * loaded and holds `k` with a non-null value, the default otherwise. A loaded
   * mapping maps keys to a scalar, or to `None` for a YAML null.
   */
  function RuleValue(data: Option<map<string, Option<string>>>, k: string): (v: string)
    requires k in DefaultRules
    ensures data.None? ==> v == DefaultRules[k]
    ensures data.Some? && (k !in data.value || data.value[k].None?) ==> v == DefaultRules[k]
    ensures data.Some? && k in data.value && data.value[k].Some? ==> v == data.value[k].value
  {
    if data.Some? && k in data.value && data.value[k].Some? then data.value[k].value else DefaultRules[k]
  }

  /**
   * `read_rules`: a copy of the defaults, each default key overwritten by its
   * loaded non-null value. `data` is `None` when there is no file, no YAML
   * library, or the file cannot be read.
   */
  method ReadRules(data: Option<map<string, Option<string>>>) returns (rules: map<string, string>)
    ensures rules.Keys == DefaultRules.Keys
    ensures forall k | k in rules :: rules[k] == RuleValue(data, k)
  {
    rules := DefaultRules;
    assert forall k :: k in DefaultRules <==> k in RuleKeys;
    if data.Some? {
      for t := 0 to |RuleKeys|
        invariant rules.Keys == DefaultRules.Keys
        invariant forall k | k in rules :: rules[k] == if k in RuleKeys[..t] then RuleValue(data, k) else DefaultRules[k]
      {
        var k := RuleKeys[t];
        assert RuleKeys[..t + 1] == RuleKeys[..t] + [k];
        if k in data.value && data.value[k].Some? {
          rules := rules[k := data.value[k].value];
        }
      }
      assert RuleKeys[..|RuleKeys|] == RuleKeys;
    }
  }

  /** Reading the rules back from their own values changes nothing. */
  lemma RuleValueReload(rules: map<string, string>, k: string)
    requires rules.Keys == DefaultRules.Keys && k in DefaultRules
    ensures RuleValue(Some(map k' | k' in rules :: Some(rules[k'])), k) == rules[k]
  {
  }

  // ---------------------------------------------------------------------------
  // _localname

  /** The position of the first `c` in `s`. */
  function IndexOf(s: string, c: char): (r: Option<nat>)
    ensures r.None? <==> c !in s
    ensures r.Some? ==> r.value < |s| && s[r.value] == c && c !in s[..r.value]
  {
    if s == [] then None
    else if s[0] == c then Some(0)
    else
      var r := IndexOf(s[1..], c);
      if r.None? then None
      else
        assert s[..r.value + 1] == [s[0]] + s[1..][..r.value];
        Some(r.value + 1)
  }

  /**
   * `_localname`: the tag without a leading `{namespace}`. A tag without `}`
   * is its own local name; otherwise it is what follows the first `}`.
   */
  function Localname(tag: string): (r: string)
    ensures '}' !in tag ==> r == tag
    ensures '}' in tag ==> exists i | 0 <= i < |tag| :: tag[i] == '}' && '}' !in tag[..i] && r == tag[i + 1..]
  {
    match IndexOf(tag, '}')
    case None => tag
    case Some(i) =>
      assert tag[i] == '}' && '}' !in tag[..i];
      tag[i + 1..]
  }

  /** The qualified name `{ns}name` that the XML parser produces has local name `name`. */
  lemma LocalnameQualified(ns: string, name: string)
    requires '}' !in ns
    ensures Localname("{" + ns + "}" + name) == name
  {
    var tag := "{" + ns + "}" + name;
    var i := |ns| + 1;
    assert tag[i] == '}';
    assert tag[..i] == "{" + ns;
    assert '}' !in tag[..i];
    var j := IndexOf(tag, '}').value;
    assert j == i;
    assert tag[i + 1..] == name;
  }

  // ---------------------------------------------------------------------------
  // The element tree and _find_child_text

  /** An XML element: its (possibly namespace-qualified) tag, its text and its children. */
  datatype Element = Element(tag: string, text: Option<string>, children: seq<Element>)

  /** The element's local name equals `wanted`, ignoring case. */
  predicate Named(e: Element, wanted: string)
  {
    LowerStr(Localname(e.tag)) == LowerStr(wanted)
  }

  /** `(ch.text or "").strip()`, or nothing when that is empty. */
  function TextOf(e: Element): (r: Option<string>)
    ensures r.Some? ==> r.value != "" && Strip(r.value) == r.value
  {
    var t := Strip(if e.text.Some? then e.text.value else "");
    StripFixpoint(if e.text.Some? then e.text.value else "");
    if t == "" then None else Some(t)
  }

  /** The position of the first child named `wanted`. */
  function FirstNamed(children: seq<Element>, wanted: string): (r: Option<nat>)
    ensures r.None? <==> forall i | 0 <= i < |children| :: !Named(children[i], wanted)
    ensures r.Some? ==> r.value < |children| && Named(children[r.value], wanted)
    ensures r.Some? ==> forall i | 0 <= i < r.value :: !Named(children[i], wanted)
  {
    FirstWhere(children, e => Named(e, wanted), 0)
  }

  /** The first child with the name is the one before which none has it. */
  lemma FirstNamedAt(children: seq<Element>, wanted: string, i: nat)
    requires i < |children| && Named(children[i], wanted)
    requires forall j | 0 <= j < i :: !Named(children[j], wanted)
    ensures FirstNamed(children, wanted) == Some(i)
  {
  }

  /** The scan of `_find_child_text` from `children[k]` on: the text of the first child named `wanted`, if it has any. */
  function ChildTextFrom(children: seq<Element>, wanted: string, k: nat): (r: Option<string>)
    requires k <= |children|
    ensures r.Some? ==> r.value != "" && Strip(r.value) == r.value
    decreases |children| - k
  {
    if k == |children| then None
    else if Named(children[k], wanted) then TextOf(children[k])
    else ChildTextFrom(children, wanted, k + 1)
  }

  /**
   * What `_find_child_text` finds: a non-empty stripped text, and nothing for
   * an element without children.
   */
  function ChildText(e: Element, wanted: string): (r: Option<string>)
    ensures r.Some? ==> r.value != "" && Strip(r.value) == r.value
    ensures e.children == [] ==> r.None?
  {
    ChildTextFrom(e.children, wanted, 0)
  }

  lemma {:induction false} ChildTextFromFirst(children: seq<Element>, wanted: string, k: nat)
    requires k <= |children|
    ensures ChildTextFrom(children, wanted, k) ==
      match FirstWhere(children, e => Named(e, wanted), k)
      case None => None
      case Some(i) => TextOf(children[i])
    decreases |children| - k
  {
    if k < |children| && !Named(children[k], wanted) {
      ChildTextFromFirst(children, wanted, k + 1);
    }
  }

  /** The scan finds the text of the first child with the name, and nothing when there is none. */
  lemma ChildTextFirst(e: Element, wanted: string)
    ensures ChildText(e, wanted) ==
      match FirstNamed(e.children, wanted)
      case None => None
      case Some(i) => TextOf(e.children[i])
  {
    ChildTextFromFirst(e.children, wanted, 0);
  }

  /** `_find_child_text`: scan the children and stop at the first one with the wanted name. */
  method FindChildText(elem: Element, wanted: string) returns (r: Option<string>)
    ensures r == ChildText(elem, wanted)
  {
    var w := LowerStr(wanted);
    var children := elem.children;
    for i := 0 to |children|
      invariant ChildTextFrom(children, wanted, i) == ChildText(elem, wanted)
    {
      var ch := children[i];
      var hit := LowerStr(Localname(ch.tag)) == w;
      assert hit == Named(ch, wanted);
      if hit {
        var txt := Strip(if ch.text.Some? then ch.text.value else "");
        r := if txt != "" then Some(txt) else None;
        assert r == TextOf(ch);
        return;
      }
    }
    return None;
  }

  /**
   * Only the first child with the wanted name counts: children after it do
   * not change the result, and a blank first match hides later ones.
   */
  lemma ChildTextFirstOnly(e: Element, more: seq<Element>, wanted: string)
    requires FirstNamed(e.children, wanted).Some?
    ensures ChildText(Element(e.tag, e.text, e.children + more), wanted) == ChildText(e, wanted)
  {
    var cs := e.children + more;
    ChildTextFirst(e, wanted);
    ChildTextFirst(Element(e.tag, e.text, cs), wanted);
    var i := FirstNamed(e.children, wanted).value;
    assert cs[i] == e.children[i];
    FirstNamedAt(cs, wanted, i);
  }

  /** Nothing is found exactly when no child has the name or the first one's text is blank. */
  lemma ChildTextNone(e: Element, wanted: string)
    ensures ChildText(e, wanted).None? <==>
      (forall i | 0 <= i < |e.children| :: !Named(e.children[i], wanted))
      || (exists i | 0 <= i < |e.children| ::
            Named(e.children[i], wanted) && (forall j | 0 <= j < i :: !Named(e.children[j], wanted))
            && Strip(if e.children[i].text.Some? then e.children[i].text.value else "") == "")
  {
    ChildTextFirst(e, wanted);
    forall i | 0 <= i < |e.children| && Named(e.children[i], wanted)
        && (forall j | 0 <= j < i :: !Named(e.children[j], wanted))
      ensures FirstNamed(e.children, wanted) == Some(i)
    {
      FirstNamedAt(e.children, wanted, i);
    }
  }

  // ---------------------------------------------------------------------------
  // extract_from_xml

  /** `root.iter()`: the element and all its descendants, in document order. */
  function Iter(e: Element): (r: seq<Element>)
    ensures |r| > 0 && r[0] == e
    decreases e, 1
  {
    [e] + IterAll(e.children)
  }

  function IterAll(es: seq<Element>): seq<Element>
    decreases es, 0
  {
    if es == [] then [] else Iter(es[0]) + IterAll(es[1..])
  }

  /** The elements of `es` whose local name is `tag`, ignoring case, in order. */
  function Selected(es: seq<Element>, tag: string): (r: seq<Element>)
    ensures forall e | e in r :: e in es && Named(e, tag)
    ensures forall e | e in es && Named(e, tag) :: e in r
  {
    if es == [] then []
    else (if Named(es[0], tag) then [es[0]] else []) + Selected(es[1..], tag)
  }

  /** What is stored for an entry: its checksum (stripped, upper-cased) and its format. */
  datatype XmlMeta = XmlMeta(crcHex: Option<string>, format: Option<string>)

  /** `rules.get(k) or DEFAULT_RULES[k]`. */
  function RuleOr(rules: map<string, string>, k: string): string
    requires k in DefaultRules
  {
    if k in rules && rules[k] != "" then rules[k] else DefaultRules[k]
  }

  /** The tag names and the format filter `extract_from_xml` takes from the rules; an empty filter means none. */
  datatype Tags = Tags(entry: string, name: string, checksum: string, format: string, filter: string)

  function TagsOf(rules: map<string, string>): (t: Tags)
    ensures t.entry != "" && t.name != "" && t.checksum != "" && t.format != ""
  {
    Tags(RuleOr(rules, "entry_tag"), RuleOr(rules, "name_tag"), RuleOr(rules, "checksum_tag"),
      RuleOr(rules, "format_tag"),
      if "filter_format" in rules then rules["filter_format"] else DefaultRules["filter_format"])
  }

  /** The entry's checksum as stored: stripped and upper-cased. */
  function CleanCrc(crc: Option<string>): Option<string>
  {
    if crc.Some? then Some(UpperStr(Strip(crc.value))) else None
  }

  /** The format filter lets an entry with format `fmt` through. */
  predicate FormatPasses(filter: string, fmt: Option<string>)
  {
    filter == "" || UpperStr(Strip(if fmt.Some? then fmt.value else "")) == UpperStr(filter)
  }

  /**
   * What one entry contributes: nothing when it has no name or its format is
   * filtered out, else its key (lower-cased unless case-sensitive) and meta.
   */
  function Candidate(e: Element, tags: Tags, caseSensitive: bool): Option<(string, XmlMeta)>
  {
    Keyed(ChildText(e, tags.name), ChildText(e, tags.format), ChildText(e, tags.checksum), tags.filter, caseSensitive)
  }

  /** The candidate of an entry whose name, format and checksum children read `name`, `fmt` and `crc`. */
  function Keyed(name: Option<string>, fmt: Option<string>, crc: Option<string>, filter: string, caseSensitive: bool)
    : Option<(string, XmlMeta)>
  {
    if name.None? || !FormatPasses(filter, fmt) then None
    else Some((if caseSensitive then name.value else LowerStr(name.value), XmlMeta(CleanCrc(crc), fmt)))
  }

  /** The entry elements of the document. */
  function Entries(root: Element, tags: Tags): seq<Element>
  {
    Selected(Iter(root), tags.entry)
  }

  /** The candidates of the entry elements `es`, in document order. */
  function Candidates(es: seq<Element>, tags: Tags, caseSensitive: bool): (cs: seq<Option<(string, XmlMeta)>>)
    ensures |cs| == |es|
  {
    if es == [] then [] else Candidates(es[..|es| - 1], tags, caseSensitive) + [Candidate(es[|es| - 1], tags, caseSensitive)]
  }

  lemma {:induction false} CandidateAt(es: seq<Element>, tags: Tags, caseSensitive: bool, t: nat)
    requires t < |es|
    ensures Candidates(es, tags, caseSensitive)[t] == Candidate(es[t], tags, caseSensitive)
  {
    if t < |es| - 1 {
      CandidateAt(es[..|es| - 1], tags, caseSensitive, t);
    }
  }

  /** The manifest read from `root`: the entries' candidates, first key wins. */
  function Manifest(root: Element, tags: Tags, caseSensitive: bool): (d: seq<(string, XmlMeta)>)
    ensures DistinctKeys(d)
  {
    var cs := Candidates(Entries(root, tags), tags, caseSensitive);
    FirstWins(Somes(cs, |cs|))
  }

  /** `extract_from_xml` on the parsed tree: the loop over the entry elements. */
  method ExtractFromXml(root: Element, rules: map<string, string>, caseSensitive: bool)
    returns (result: seq<(string, XmlMeta)>)
    ensures result == Manifest(root, TagsOf(rules), caseSensitive)
  {
    var tags := TagsOf(rules);
    var entries := Entries(root, tags);
    result := Collect(entries, tags, caseSensitive);
  }

  /** The loop of `extract_from_xml` over the entry elements `entries`. */
  method Collect(entries: seq<Element>, tags: Tags, caseSensitive: bool) returns (result: seq<(string, XmlMeta)>)
    ensures result == FirstWins(Somes(Candidates(entries, tags, caseSensitive), |entries|))
  {
    ghost var cs := Candidates(entries, tags, caseSensitive);
    result := [];
    for t := 0 to |entries|
      invariant result == FirstWins(Somes(cs, t))
    {
      result := AddEntry(entries, t, tags, caseSensitive, result);
    }
  }

  /**
   * The body of the loop, for the entry `entries[t]`: its candidate is stored
   * unless its key already is, which extends the first-wins dict of the
   * earlier entries by one entry.
   */
  method AddEntry(entries: seq<Element>, t: nat, tags: Tags, caseSensitive: bool, result: seq<(string, XmlMeta)>)
    returns (result': seq<(string, XmlMeta)>)
    requires t < |entries|
    requires result == FirstWins(Somes(Candidates(entries, tags, caseSensitive), t))
    ensures result' == FirstWins(Somes(Candidates(entries, tags, caseSensitive), t + 1))
  {
    var c := ReadEntry(entries, t, tags, caseSensitive);
    InsertStep(Candidates(entries, tags, caseSensitive), t, result);
    result' := result;
    if c.Some? && !HasKey(result, c.value.0) {
      result' := result + [c.value];
    }
  }

  /** Reading the entry `entries[t]`: its name, format and checksum. */
  method ReadEntry(entries: seq<Element>, t: nat, tags: Tags, caseSensitive: bool) returns (c: Option<(string, XmlMeta)>)
    requires t < |entries|
    ensures c == Candidates(entries, tags, caseSensitive)[t]
  {
    CandidateAt(entries, tags, caseSensitive, t);
    var e := entries[t];
    var name := FindChildText(e, tags.name);
    if name.None? {
      return None;
    }
    var fmt := FindChildText(e, tags.format);
    var crc := FindChildText(e, tags.checksum);
    ghost var read := (name, fmt, crc);
    if crc.Some? {
      crc := Some(UpperStr(Strip(crc.value)));
    }
    if tags.filter != "" && UpperStr(Strip(if fmt.Some? then fmt.value else "")) != UpperStr(tags.filter) {
      return None;
    }
    var key := if caseSensitive then name.value else LowerStr(name.value);
    c := Some((key, XmlMeta(crc, fmt)));
    assert crc == CleanCrc(read.2);
  }

  // ---------------------------------------------------------------------------
  // What the manifest holds

  /**
   * What a stored pair looks like: a non-empty key, lower-case unless the
   * comparison is case-sensitive; a format the filter lets through; a
   * checksum that, when present, is non-empty and upper-case.
   */
  predicate WellStored(p: (string, XmlMeta), filter: string, caseSensitive: bool)
  {
    && p.0 != ""
    && (!caseSensitive ==> LowerStr(p.0) == p.0)
    && FormatPasses(filter, p.1.format)
    && (p.1.crcHex.Some? ==> p.1.crcHex.value != "" && UpperStr(p.1.crcHex.value) == p.1.crcHex.value)
  }

  /**
   * An entry yields a pair exactly when it names a file and its format passes;
   * the pair is well stored, keyed by the name text (lower-cased unless the
   * comparison is case-sensitive) and holding the checksum text upper-cased.
   */
  lemma CandidateSpec(e: Element, tags: Tags, caseSensitive: bool)
    ensures Candidate(e, tags, caseSensitive).Some?
      <==> ChildText(e, tags.name).Some? && FormatPasses(tags.filter, ChildText(e, tags.format))
    ensures Candidate(e, tags, caseSensitive).Some? ==>
      && WellStored(Candidate(e, tags, caseSensitive).value, tags.filter, caseSensitive)
      && Candidate(e, tags, caseSensitive).value.1.format == ChildText(e, tags.format)
    ensures Candidate(e, tags, caseSensitive).Some? ==>
      var name := ChildText(e, tags.name).value;
      Candidate(e, tags, caseSensitive).value.0 == if caseSensitive then name else LowerStr(name)
    ensures Candidate(e, tags, caseSensitive).Some? ==>
      var crc := ChildText(e, tags.checksum);
      Candidate(e, tags, caseSensitive).value.1.crcHex == if crc.Some? then Some(UpperStr(crc.value)) else None
  {
    var name, crc := ChildText(e, tags.name), ChildText(e, tags.checksum);
    if name.Some? {
      LowerStrIdempotent(name.value);
      assert |LowerStr(name.value)| == |name.value|;
    }
    if crc.Some? {
      assert Strip(crc.value) == crc.value;
      UpperStrEmpty(crc.value);
      UpperStrIdempotent(crc.value);
    }
  }

  /**
   * The manifest: each stored pair is the pair of the first entry carrying its
   * key, and is well stored; a key is stored exactly when some entry yields it.
   */
  lemma ManifestEarliest(root: Element, tags: Tags, caseSensitive: bool, t: nat) returns (j: nat)
    requires t < |Manifest(root, tags, caseSensitive)|
    ensures j < |Entries(root, tags)|
    ensures Candidate(Entries(root, tags)[j], tags, caseSensitive) == Some(Manifest(root, tags, caseSensitive)[t])
    ensures forall i | 0 <= i < j ::
      var c := Candidate(Entries(root, tags)[i], tags, caseSensitive);
      c.None? || c.value.0 != Manifest(root, tags, caseSensitive)[t].0
    ensures WellStored(Manifest(root, tags, caseSensitive)[t], tags.filter, caseSensitive)
  {
    var es := Entries(root, tags);
    var cs := Candidates(es, tags, caseSensitive);
    forall j | 0 <= j < |es|
      ensures cs[j] == Candidate(es[j], tags, caseSensitive)
    {
      CandidateAt(es, tags, caseSensitive, j);
    }
    j := FirstWinsOfSomes(cs, t);
    CandidateSpec(Entries(root, tags)[j], tags, caseSensitive);
  }

  lemma ManifestKeys(root: Element, tags: Tags, caseSensitive: bool, key: string)
    ensures HasKey(Manifest(root, tags, caseSensitive), key) <==>
      exists j | 0 <= j < |Entries(root, tags)| ::
        var c := Candidate(Entries(root, tags)[j], tags, caseSensitive);
        c.Some? && c.value.0 == key
  {
    var es := Entries(root, tags);
    var cs := Candidates(es, tags, caseSensitive);
    forall j | 0 <= j < |es|
      ensures cs[j] == Candidate(es[j], tags, caseSensitive)
    {
      CandidateAt(es, tags, caseSensitive, j);
    }
    FirstWinsOfSomesKeys(cs, key);
  }
}
