# xmlchecks — a verified model of the reconciliation core

`xmlchecks` checks a set of delivered IFC model files against two
descriptions of them:

- the certification sheets (ИУЛ, "информационно-удостоверяющий лист"), PDFs
  whose text lists each file with its CRC-32, date, time and size;
- the XML manifest of the delivery.

It produces tabular reports of what matches, what differs and what is missing.
This project models the core of that tool in Dafny and proves properties of
the model:

- **Sheet text mining** (`IulReader`, `IulPatterns`). The page text is
  normalised. The line scanner carries the last seen checksum from line to
  line and emits one entry per line that names an `.ifc` file. The primary
  text falls back to OCR text only when it yields no entry. A first-wins
  index keys the entries by basename. Two PDF-name rules are modelled, one
  lenient and one strict. The regular expressions whose match is read
  (`CRC_RE`, `DT_RE`, `SIZE_RE`, `IFC_RE`) are each modelled twice: as a
  predicate describing what it matches, and as a matcher run at each start
  position the way `re.search` does. The matcher is proved complete for the
  predicate, and the search is proved to be the leftmost match.
  `IUL_KEYWORD_RE` is only ever tested for a match
  (`bool(IUL_KEYWORD_RE.search(stem))`), so it is modelled only as the
  predicate `HasIulKeyword`: a standalone `ИУЛ` or `УЛ` between `[\s_]` or
  the ends of the string.
- **Reconciliation engines**:
  - `ReportIul`: `build_report_iul`, IFC files against sheet entries;
  - `ReportXml`: `build_report`, IFC files against the XML manifest;
  - `ReportPdfPairs`: `build_report_pdf_pairs`, paired PDFs and their
    checksums;
  - `ReportIntegrity`: `build_integrity_report`, a three-way presence check
    over the sorted union of names.
- **Manifest entry selection** (`XmlReader`). It covers:
  - rules merged with their defaults;
  - namespace stripping;
  - the first-matching-child lookup;
  - the format filter;
  - first-wins keying over an abstract element tree.
- **Shared helpers** (`Utils`): `tri`, the status codes, and `recommendation`.

Supporting modules model Python built-ins the core relies on:

- `Text`: `str.strip`, `str.splitlines`, `"\n".join`, `upper`/`lower`,
  `int()` and `f"{x:08X}"`;
- `OrderedDict`: an insertion-ordered `dict` as a sequence of key–value
  pairs with distinct keys, and the first-wins insertion
  `if key not in d: d[key] = v`;
- `StrOrder`: string `<` and `sorted` over a set;
- `Seqs`: list comprehensions and filters.

Where the source loops over mutable state, the model has a `method` with the
same loop and the same local state. Examples are the `last_crc` scanner, the
checksum index built by `setdefault(...).append(...)`, the `used` set and
the `status`/`details` lists. Each such method is proved equal to a
functional specification (`ParseText`, `Report`, `PairRows`,
`IntegrityReport`, `Manifest`, …). The properties the tool promises are
lemmas about those specifications.

Where the code and the scenario tests disagree, the model follows the code.
`tests/test_report_builder.py:38` expects the `CRC-32 XML` column to be
filled on a row matched by checksum under another name. `build_report` leaves
that column `None` whenever no record is found under the file's own name
(`pkg/report_builder.py:92`), and `ReportXml.ByCrcRow` proves exactly that.

## Model

| member | source | states |
|---|---|---|
| Utils.Tri | pkg/utils.py:6-14 | `tri` / `_tri`: "Да" exactly for True, "Нет" exactly for False, "—" exactly for None |
| Utils.UpperOrNone | pkg/report_builder.py:77 | `(s or "").upper() or None` is present exactly when `s` is a non-empty string, and is then its upper-cased form |
| Utils.StatusCell | pkg/report_builder_iul.py:126 | the status column is "—" for no code and the code's own name for a single code |
| Utils.StatusCellSnoc | pkg/report_builder_iul.py:126 | one more code appends `";"` and its name to the status column (`";".join(status)`) |
| Utils.DetailsCell | pkg/report_builder_iul.py:127 | the details column is None exactly when there are no notes, and a single note is shown as is |
| Utils.DetailsCellSnoc | pkg/report_builder_iul.py:127 | one more note appends `"; "` and the note to the details column (`"; ".join(details)`) |
| Utils.Recs | pkg/utils.py:27 | the comprehension keeps at most one text per status code, and only non-empty texts |
| Utils.RecsConcat | pkg/utils.py:27 | the kept texts of a concatenated status list are the kept texts of each part, in order |
| Utils.RecsEmpty | pkg/utils.py:27 | nothing is kept exactly when no code has a truthy mapping |
| Utils.Recommendation | pkg/utils.py:17-28 | `recommendation` is None exactly when no code has a truthy mapping (so also for an empty status list), and a present recommendation is non-empty |
| Utils.RecommendationInOrder | pkg/utils.py:27-28 | a mapped code appended to the status appends its text after "; ", so the texts follow status order and duplicates are kept |
| Utils.JoinSnoc | pkg/utils.py:28 | `"; ".join` of a list with one more element is the old join, the separator and the new element |
| Utils.RecommendationIgnoresUnmapped | pkg/utils.py:27 | inserting an unmapped code anywhere in the status list leaves the recommendation unchanged |
| Text.StripFixpoint | pkg/iul_reader.py:137 | a stripped string is its own stripped form |
| Text.StripNoLineBreak | pkg/iul_reader.py:137 | stripping a line that has no line break gives a line with no line break |
| Text.SplitLinesOfJoin | pkg/iul_reader.py:137 | `"\n".join` of lines without line breaks splits back into those lines, up to trailing empty lines |
| Text.Hex8ReadBack | pkg/report_builder_iul.py:45 | `f"{crc:08X}"` is eight upper-case hexadecimal digits that read back as the 32-bit value |
| Text.Hex8Injective | pkg/report_builder_iul.py:45 | two checksums render to the same eight digits exactly when they are equal |
| Text.Hex8OfParse | pkg/report_builder_iul.py:77 | every eight-digit upper-case hexadecimal string is the rendering of the value it denotes (the other half of the round trip) |
| Text.DecimalString | pkg/iul_reader.py:159 | the decimal digits of a number read back with `int()` as that number |
| IulPatterns.Leftmost | pkg/iul_reader.py:144 | `re.search` scans start positions left to right: the first start where the matcher succeeds, and no earlier one |
| IulPatterns.CrcMatchAt | pkg/iul_reader.py:28 | the engine's match of `CRC_RE` at one start is a match the pattern describes, with eight hex digits captured |
| IulPatterns.CrcMatchAtComplete | pkg/iul_reader.py:28 | every match the pattern describes at a start is the one the engine finds there |
| IulPatterns.CrcSearch | pkg/iul_reader.py:144 | `CRC_RE.search` returns the leftmost start with a match, and none when no start matches |
| IulPatterns.CrcCapture | pkg/iul_reader.py:144-146 | the captured checksum is eight hexadecimal digits |
| IulPatterns.CrcCaptureSpec | pkg/iul_reader.py:28-146 | there is no capture exactly when no position starts a match; otherwise the capture is the digits of the leftmost match (case-sensitive "CRC") |
| IulPatterns.DtMatchAtComplete | pkg/iul_reader.py:30 | every `DT_RE` match the pattern describes at a start is the one the engine finds there |
| IulPatterns.DtSearch | pkg/iul_reader.py:153 | `DT_RE.search` returns the leftmost start with a match |
| IulPatterns.DtCaptureSpec | pkg/iul_reader.py:30-154 | the date is None exactly when no position of the whole line starts a date match; otherwise it is the text of the leftmost match |
| IulPatterns.SizeMatchAt | pkg/iul_reader.py:31 | the engine's `SIZE_RE` match captures a maximal run of digits after the label |
| IulPatterns.SizeTailAtComplete | pkg/iul_reader.py:31 | after the second label word, skipping non-digits stops at the first digit run, which is captured whole |
| IulPatterns.SizeMatchAtComplete | pkg/iul_reader.py:31 | every `SIZE_RE` match the pattern describes at a start is the one the engine finds there |
| IulPatterns.SizeSearch | pkg/iul_reader.py:157 | `SIZE_RE.search` returns the leftmost start with a match |
| IulPatterns.SizeCaptureSpec | pkg/iul_reader.py:31-159 | the labelled size is None exactly when no position of the line starts a match; otherwise it is the number of the leftmost match's digit run |
| IulPatterns.IfcLazy | pkg/iul_reader.py:29 | the lazy `+?` stops at the first `.ifc` (in any case) after the name characters, and reports none when no `.ifc` can follow |
| IulPatterns.IfcMatchAt | pkg/iul_reader.py:29 | at one start, the engine finds the shortest run of name characters followed by `.ifc` |
| IulPatterns.IfcFind | pkg/iul_reader.py:149 | `IFC_RE.search` takes the leftmost start where the pattern matches |
| IulPatterns.IfcSearchSpec | pkg/iul_reader.py:29-149 | no match exactly when no name ending in `.ifc` occurs; otherwise the leftmost start, extended only to the first `.ifc` after it |
| IulPatterns.HasIulKeyword | pkg/iul_reader.py:33 | `IUL_KEYWORD_RE.search` succeeds on a string ending in `_УЛ` or equal to `ИУЛ` or `УЛ`, and fails on a string shorter than two characters |
| IulPatterns.LastNumber | pkg/iul_reader.py:161-164 | `findall(r"\d+", tail)[-1]` is None exactly when the tail has no digit; otherwise it is the value of the last maximal digit run |
| IulReader.Normalize | pkg/iul_reader.py:135-137 | normalised text contains no `'\r'` |
| IulReader.NormalizeLinesStripped | pkg/iul_reader.py:135-137 | every line of normalised text equals its own stripped form |
| IulReader.StrippedLinesHaveNoBreaks | pkg/iul_reader.py:137 | stripping the lines produced by `splitlines` introduces no line break |
| IulReader.NonEmpty | pkg/iul_reader.py:140 | `[ln for ln in lines if ln]`: the result holds only non-empty lines of the input, and every non-empty line of the input is in it |
| IulReader.NonEmptyAppend | pkg/iul_reader.py:140 | the filter distributes over concatenation, so line order is kept |
| IulReader.NonEmptyDropTrailing | pkg/iul_reader.py:140 | dropping trailing empty lines does not change the filtered lines |
| IulReader.NormalizeNonEmptyLines | pkg/iul_reader.py:135-140 | the scanner sees exactly the stripped non-empty lines of the raw text; the empty lines normalisation keeps are the ones the scanner drops |
| IulReader.LineCrc | pkg/iul_reader.py:144-146 | the checksum a line records is eight upper-case hexadecimal digits |
| IulReader.LineEntry | pkg/iul_reader.py:148-174 | a line yields an entry exactly when it has `.ifc`/`.IFC` and `IFC_RE` matches; the entry keeps the line as context and the PDF name as its source |
| IulReader.LineEntryFields | pkg/iul_reader.py:152-174 | the entry a line yields is named by the `IFC_RE` match, carries the checksum in force (`last_crc or None`), the line's date capture and the size `LineSize` finds after the match |
| IulReader.LineSize | pkg/iul_reader.py:155-164 | no size exactly when `SIZE_RE` matches nowhere on the line and no digit follows the file name; when `SIZE_RE` matches, its leftmost labelled number; otherwise the last digit run after the file name |
| IulReader.ParseText | pkg/iul_reader.py:139-180 | every entry comes from a non-empty line of the text that has an `.ifc`/`.IFC` marker, and records the PDF it was read from |
| IulReader.ParseTextLines | pkg/iul_reader.py:139-180 | the entries correspond, in increasing line order, to exactly the non-empty lines that have `.ifc`/`.IFC` and on which `IFC_RE` matches; each entry is the one its line yields with the checksum in force there |
| IulReader.ParseEntries | pkg/iul_reader.py:139-180 | the scanning loop, with `last_crc` and `entries` as loop state, computes `ParseText` |
| IulReader.ParseStep | pkg/iul_reader.py:143-174 | reading one line first updates the checksum in force, then appends that line's entry if it yields one |
| IulReader.ParseLine | pkg/iul_reader.py:144-174 | the loop body: the new `last_crc`, and the entry the line yields with it |
| IulReader.LineEntryEmits | pkg/iul_reader.py:148-151 | whether a line yields an entry depends on the line only, not on the checksum or the PDF name |
| IulReader.ParseFollowsLines | pkg/iul_reader.py:140-174 | one entry per line that names a file, in line order, each built from its line and the checksum in force there; lines with the marker but no `IFC_RE` match yield nothing |
| IulReader.CrcBeforeNearest | pkg/iul_reader.py:142-146 | the checksum in force is the one recorded by the nearest line at or before, and None when no such line has one |
| IulReader.CrcBeforeWellFormed | pkg/iul_reader.py:146-168 | a checksum in force is eight upper-case hexadecimal digits, so `last_crc or None` is `last_crc` |
| IulReader.ParseProvenance | pkg/iul_reader.py:166-174 | every entry names the PDF it came from and keeps, as context, one of the scanned lines, which names a file |
| IulReader.PdfEntries | pkg/iul_reader.py:183-191 | a PDF yields no entry exactly when neither its primary nor its OCR text does; every entry names this PDF as its source and comes from a marked line |
| IulReader.ExtractIulEntriesFromPdf | pkg/iul_reader.py:183-191 | the OCR text is parsed only when the primary text yields no entry; the result is `PdfEntries` |
| IulReader.ExtractIulEntries | pkg/iul_reader.py:193-203 | the insertion loop builds the first-wins dict of all `(basename, entry)` pairs, by PDF and then by line |
| OrderedDict.FirstWins | pkg/iul_reader.py:197-203 | the first-wins dict has distinct keys |
| OrderedDict.FirstWinsKeys | pkg/iul_reader.py:200-202 | a key is in the dict exactly when some pair carries it |
| OrderedDict.FirstWinsEarliest | pkg/iul_reader.py:201-202 | every kept pair is the earliest pair with its key; later duplicates are dropped |
| OrderedDict.FirstWinsOrder | pkg/iul_reader.py:197-203 | kept pairs are in the order in which their keys first occur |
| OrderedDict.FirstWinsGet | pkg/iul_reader.py:201-202 | looking a key up finds the value of its earliest pair |
| OrderedDict.FirstWinsSnoc | pkg/iul_reader.py:201-202 | one more pair is added exactly when its key is new |
| OrderedDict.InsertFirstWins | pkg/iul_reader.py:199-202 | the loop `if key not in res: res[key] = e` continues a first-wins dict |
| OrderedDict.InsertStep | pkg/xml_reader.py:73-75 | a candidate that is present is stored exactly when its key is not stored yet |
| OrderedDict.SomesHasKey | pkg/xml_reader.py:73-75 | a key occurs among the present candidates exactly when some candidate carries it |
| OrderedDict.SomesFirst | pkg/xml_reader.py:73-75 | the first pair with a key is the value of the first candidate with that key |
| OrderedDict.FirstWinsOfSomes | pkg/xml_reader.py:61-75 | every stored pair is the value of the earliest candidate with its key |
| OrderedDict.FirstWinsOfSomesKeys | pkg/xml_reader.py:61-75 | a key is stored exactly when some candidate carries it |
| IulReader.LastDot | pkg/iul_reader.py:206-207 | the last `.` of a name, and none when the name has no dot |
| IulReader.Stem | pkg/iul_reader.py:206-207 | `Path(name).stem`: the name without its last suffix, which starts at a dot that is neither first nor last |
| IulReader.PdfNameOkLenient | pkg/iul_reader.py:205-210 | the lenient rule accepts every name the strict rule accepts, and rejects a PDF whose upper-cased stem does not contain the upper-cased IFC stem |
| IulReader.PdfNameOkStrict | pkg/iul_reader.py:212-215 | a name the strict rule accepts has a standalone keyword in its stem, and a PDF whose upper-cased stem does not contain the upper-cased IFC stem is rejected |
| ReportIul.Recommendations | pkg/report_builder_iul.py:10-19 | the eight recommendation texts are non-empty, and exactly the codes the sheet report never emits have none |
| ReportIul.IulCrc | pkg/report_builder_iul.py:39-77 | an entry has an upper-cased checksum exactly when its `crc_hex` is truthy |
| ReportIul.FileRows | pkg/report_builder_iul.py:42-129 | one row per IFC file |
| ReportIul.OrphanOutcomes | pkg/report_builder_iul.py:131-152 | one outcome per map entry |
| ReportIul.BuildReportIul | pkg/report_builder_iul.py:33-153 | index, file loop and orphan loop together compute `Report` |
| ReportIul.MatchFiles | pkg/report_builder_iul.py:42-129 | the file loop yields the file rows and exactly the set of keys the files consumed |
| ReportIul.AppendOrphans | pkg/report_builder_iul.py:131-152 | the orphan loop appends the rows of the entries whose key is not in `used`, in map order |
| ReportIul.BuildCrcIndex | pkg/report_builder_iul.py:37-40 | the `setdefault(...).append(...)` loop builds, for each checksum, the keys whose entry carries it |
| ReportIul.CheckFile | pkg/report_builder_iul.py:43-129 | the loop body computes the file's row and the key it consumes |
| ReportIul.LookupRecord | pkg/report_builder_iul.py:57-82 | lookup by name, else a unique checksum hit: the entry found, the name and checksum flags, the codes and notes, and the consumed key |
| ReportIul.CheckRecord | pkg/report_builder_iul.py:84-106 | the three checks on a found entry: the size, date and PDF-name flags, codes and notes |
| ReportIul.CheckSize | pkg/report_builder_iul.py:85-91 | the size flag is compared only when the entry has a size, and `SIZE_MISMATCH` is added exactly when it is False |
| ReportIul.CheckDt | pkg/report_builder_iul.py:93-99 | the date flag is compared only when the entry has a non-empty date, and `DT_MISMATCH` is added exactly when it is False |
| ReportIul.CheckPdfName | pkg/report_builder_iul.py:101-106 | the chosen rule is applied only when the entry has a source PDF, and `PDF_NAME_MISMATCH` is added exactly when it fails |
| ReportIul.FileRowsSnoc | pkg/report_builder_iul.py:111 | one more file appends its row |
| ReportIul.CrcHitsAreKeys | pkg/report_builder_iul.py:37-40 | every checksum hit is a key of the map |
| ReportIul.CrcIndexSpec | pkg/report_builder_iul.py:37-40 | the hits for a checksum are exactly the keys whose entry's upper-cased checksum equals it, in map order |
| ReportIul.ConsumedKey | pkg/report_builder_iul.py:57-74 | a file consumes a key exactly when it finds that key by name, or has no record by name and that key is the only checksum hit |
| ReportIul.UsedSpec | pkg/report_builder_iul.py:61-74 | `used` holds exactly the keys some file consumed |
| ReportIul.ReportShape | pkg/report_builder_iul.py:42-152 | one row per file in input order, then one `ERROR_IUL_EXTRA` row per entry no file consumed, in map order |
| ReportIul.Report | pkg/report_builder_iul.py:42-152 | the report has one row per file, each the row of that file, then at most one row per entry, each `ERROR_IUL_EXTRA` with no file |
| ReportIul.Orphans | pkg/report_builder_iul.py:131-152 | the rows of the entries no file consumed are at most one per entry, each `ERROR_IUL_EXTRA` with no file |
| ReportIul.OrphansAt | pkg/report_builder_iul.py:131-152 | the t-th unclaimed-entry row is the row of the entry at the t-th unclaimed position |
| ReportIul.ReportOrphanRows | pkg/report_builder_iul.py:131-152 | after the file rows come exactly the unclaimed-entry rows, the t-th being the row of the entry at the t-th unclaimed position |
| ReportIul.OrphanIndicesSpec | pkg/report_builder_iul.py:131-133 | an entry's position is unclaimed exactly when no file consumed its key |
| ReportIul.FileRow | pkg/report_builder_iul.py:111-129 | the row of a file names that file |
| ReportIul.FileRowsAt | pkg/report_builder_iul.py:42-111 | the j-th file row is the row of the j-th file |
| ReportIul.UnmatchedFile | pkg/report_builder_iul.py:57-72 | no record by name and zero or several checksum hits: nothing is found and nothing is consumed |
| ReportIul.UnmatchedRow | pkg/report_builder_iul.py:67-129 | such a row's status is exactly `ERROR_IFC_EXTRA`, every flag is "—" and no entry column is filled |
| ReportIul.UniqueCrcHit | pkg/report_builder_iul.py:58-61 | no record by name and exactly one hit: that entry is taken and its key is consumed |
| ReportIul.ByCrcRow | pkg/report_builder_iul.py:59-66 | found by checksum: the CRC flag is "Да", `NAME_MISMATCH` appears exactly when the names differ, and there is no `CRC_MISMATCH` |
| ReportIul.RankedStep | pkg/report_builder_iul.py:84-106 | appending a check's code keeps the codes in rank order |
| ReportIul.FlagCodesMembers | pkg/report_builder_iul.py:62-106 | each comparison adds its own code exactly when its flag is False |
| ReportIul.FlagCodesRanked | pkg/report_builder_iul.py:62-106 | the codes come in the order name, CRC, size, date, PDF name |
| ReportIul.FoundStatus | pkg/report_builder_iul.py:57-109 | the status of a found entry is its failed comparisons' codes, or `OK` when there are none |
| ReportIul.FoundRecordCodes | pkg/report_builder_iul.py:57-82 | a found entry never gets `ERROR_*`; `NAME_MISMATCH` appears exactly when found by checksum under another name, and `CRC_MISMATCH` exactly when found by name with a different checksum |
| ReportIul.FoundRecordOrder | pkg/report_builder_iul.py:76-106 | the codes of a found entry are in the fixed order `CRC_MISMATCH`, `SIZE_MISMATCH`, `DT_MISMATCH`, `PDF_NAME_MISMATCH` (after `NAME_MISMATCH`) |
| ReportIul.FoundEntryCodes | pkg/report_builder_iul.py:84-106 | `SIZE_MISMATCH` and `DT_MISMATCH` appear exactly when the field is present and differs; `PDF_NAME_MISMATCH` exactly when the chosen rule fails for the file's own name |
| ReportIul.MissingFields | pkg/report_builder_iul.py:81-99 | a CRC, size, date or source PDF missing from the entry adds no code, and its flag is "—" |
| ReportIul.FileStatusOk | pkg/report_builder_iul.py:108-109 | the status is never empty, and it is `OK`, alone, exactly when an entry was found and no flag is "Нет" |
| ReportIul.FileCodeMapped | pkg/report_builder_iul.py:10-19 | every code a file row can carry has a recommendation |
| ReportIul.StatusCodes | pkg/report_builder_iul.py:57-109 | a file's status holds only comparison codes, `OK` or `ERROR_IFC_EXTRA` |
| ReportIul.MatchRowRecommended | pkg/report_builder_iul.py:128 | every file row carries a recommendation |
| ReportIul.FileRowsRecommended | pkg/report_builder_iul.py:128 | every file row of the report carries a recommendation |
| ReportIul.OrphanRowsRecommended | pkg/report_builder_iul.py:151 | every orphan row carries the `ERROR_IUL_EXTRA` recommendation |
| ReportIul.RecommendationPresent | pkg/report_builder_iul.py:128-151 | every row of the report carries a recommendation |
| ReportIul.IfcCrcColumn | pkg/report_builder_iul.py:45-116 | the `CRC-32 IFC` column is the 8-digit upper-case hexadecimal form of the file's 32-bit checksum |
| ReportXml.Recommendations | pkg/report_builder.py:8-14 | the five recommendation texts are non-empty, and exactly those five codes have one |
| ReportXml.FileRows | pkg/report_builder.py:46-99 | one row per IFC file |
| ReportXml.ConsumedKeys | pkg/report_builder.py:62-75 | the key each file consumes, file by file |
| ReportXml.OrphanOutcomes | pkg/report_builder.py:102-116 | one outcome per manifest record |
| ReportXml.BuildReport | pkg/report_builder.py:24-118 | index, file loop and orphan loop together compute `Report` |
| ReportXml.MatchFiles | pkg/report_builder.py:46-99 | the file loop yields the file rows and exactly the set of normalised keys the files consumed |
| ReportXml.MatchFile | pkg/report_builder.py:47-99 | the loop body: one file's row, and `used_xml` grown by the key it consumes |
| ReportXml.UsedSnoc | pkg/report_builder.py:62-75 | one more file adds its consumed key, if any, to `used_xml` |
| ReportXml.AppendOrphans | pkg/report_builder.py:101-116 | the orphan loop appends the rows of the records whose normalised key is not in `used_xml`, in map order |
| ReportXml.BuildCrcIndex | pkg/report_builder.py:40-44 | the index maps each upper-cased checksum to the keys carrying it |
| ReportXml.CheckFile | pkg/report_builder.py:47-99 | the file's row and the key it consumes |
| ReportXml.LookupRecord | pkg/report_builder.py:48-84 | lookup by normalised name, else a unique checksum hit: the match, the flags, the codes and notes, and the consumed key |
| ReportXml.FileRowsSnoc | pkg/report_builder.py:89 | one more file appends its row |
| ReportXml.FileRowsAt | pkg/report_builder.py:46-89 | the j-th file row is the row of the j-th file |
| ReportXml.CrcHitsAreKeys | pkg/report_builder.py:40-44 | every checksum hit is a key of the manifest |
| ReportXml.CrcIndexSpec | pkg/report_builder.py:40-44 | the hits for a checksum are exactly the keys whose record's upper-cased checksum equals it, in map order |
| ReportXml.ConsumedKey | pkg/report_builder.py:57-75 | a file consumes a key exactly when it finds the record by its normalised name, or as the only checksum hit |
| ReportXml.UsedSpec | pkg/report_builder.py:62-75 | `used_xml` holds exactly the keys some file consumed |
| ReportXml.ReportShape | pkg/report_builder.py:46-116 | one row per file in input order, then one `ERROR_XML_EXTRA` row per record whose normalised key no file consumed, in map order |
| ReportXml.Report | pkg/report_builder.py:46-116 | the report has one row per file, each the row of that file, then at most one row per record, each `ERROR_XML_EXTRA` with no file |
| ReportXml.Orphans | pkg/report_builder.py:101-116 | the rows of the records no file consumed are at most one per record, each `ERROR_XML_EXTRA` with no file |
| ReportXml.OrphansAt | pkg/report_builder.py:101-116 | the t-th unclaimed-record row is the row of the record at the t-th unclaimed position |
| ReportXml.ReportOrphanRows | pkg/report_builder.py:101-116 | after the file rows come exactly the unclaimed-record rows, the t-th being the row of the record at the t-th unclaimed position |
| ReportXml.OrphanIndicesSpec | pkg/report_builder.py:101-104 | a record's position is unclaimed exactly when no file consumed its normalised key |
| ReportXml.FileRow | pkg/report_builder.py:89-99 | the row of a file names that file |
| ReportXml.ManifestNormalized | pkg/xml_reader.py:73-75 | a manifest read with a case setting has distinct keys, lower-case when case is ignored |
| ReportXml.ConsumedIffFound | pkg/report_builder.py:48-103 | on such a manifest, consumption and lookup normalise case alike: a record's key is consumed exactly when a file found that record |
| ReportXml.OrphanIffUnfound | pkg/report_builder.py:101-105 | on such a manifest, a record gets an `ERROR_XML_EXTRA` row exactly when no file found it |
| ReportXml.UnmatchedFile | pkg/report_builder.py:57-73 | no record under the file's key and zero or several hits: nothing is found or consumed |
| ReportXml.UnmatchedRow | pkg/report_builder.py:68-92 | such a row's status is exactly `ERROR_IFC_EXTRA`, both flags are "—", and the first hit, if any, is shown |
| ReportXml.ByCrcRow | pkg/report_builder.py:59-92 | found by checksum: the CRC flag is "Да", the status is `NAME_MISMATCH` when the names differ and `OK` otherwise, and the `CRC-32 XML` column is None |
| ReportXml.ByNameRow | pkg/report_builder.py:74-92 | found by name: `CRC_MISMATCH` exactly when the record has a checksum and it differs; without a checksum, a note only and `OK` |
| ReportXml.FileStatusOk | pkg/report_builder.py:86-87 | a file's status is exactly one code, and it is `OK` exactly when the names match and the checksums do not differ |
| ReportXml.CrcMatchIsRename | pkg/report_builder.py:48-66 | on a normalised manifest, a file found only by checksum never has the record's name, so its status is `NAME_MISMATCH` |
| ReportXml.RecommendationPresent | pkg/report_builder.py:98-115 | every row of the report carries a recommendation |
| ReportXml.IfcCrcColumn | pkg/report_builder.py:50-93 | the `CRC-32 IFC` column is the 8-digit upper-case hexadecimal form of the file's checksum |
| XmlReader.ReadRules | pkg/xml_reader.py:20-31 | the rules have exactly the default keys, each with its loaded value when present and non-null, else the default |
| XmlReader.RuleValueReload | pkg/xml_reader.py:20-31 | reading rules back from their own values changes nothing |
| XmlReader.IndexOf | pkg/xml_reader.py:34-35 | the first position of a character, and none exactly when it does not occur |
| XmlReader.Localname | pkg/xml_reader.py:33-36 | a tag without `}` is its own local name; otherwise everything up to and including the first `}` is dropped |
| XmlReader.LocalnameQualified | pkg/xml_reader.py:33-36 | a `{namespace}name` tag has local name `name` |
| XmlReader.TextOf | pkg/xml_reader.py:42-43 | a child's text is non-empty and stripped when present |
| XmlReader.FirstNamed | pkg/xml_reader.py:40-41 | the first child whose local name matches ignoring case, and none exactly when no child matches |
| XmlReader.FirstNamedAt | pkg/xml_reader.py:40-41 | a matching child with no matching child before it is the first match |
| XmlReader.ChildTextFrom | pkg/xml_reader.py:40-44 | the scan's result, when present, is non-empty stripped text |
| XmlReader.ChildTextFromFirst | pkg/xml_reader.py:40-44 | the scan from any position returns the text of the first matching child from there |
| XmlReader.ChildTextFirst | pkg/xml_reader.py:38-44 | `_find_child_text` returns the text of the first matching child, and None when there is none |
| XmlReader.ChildText | pkg/xml_reader.py:38-44 | a found text is non-empty and stripped, and an element without children yields nothing |
| XmlReader.FindChildText | pkg/xml_reader.py:38-44 | the loop with its early return computes `ChildText` |
| XmlReader.ChildTextFirstOnly | pkg/xml_reader.py:40-43 | children after the first match do not change the result, so a blank first match hides later ones |
| XmlReader.ChildTextNone | pkg/xml_reader.py:38-44 | None exactly when no child matches or the first match's text is blank |
| XmlReader.Iter | pkg/xml_reader.py:58 | `root.iter()` starts with the root |
| XmlReader.Selected | pkg/xml_reader.py:58 | the entries are exactly the elements whose local name equals the entry tag, ignoring case |
| XmlReader.TagsOf | pkg/xml_reader.py:52-56 | the four tag names are never empty, because an empty rule falls back to the default |
| XmlReader.Candidates | pkg/xml_reader.py:61-75 | one candidate per entry element |
| XmlReader.CandidateAt | pkg/xml_reader.py:61-75 | the t-th candidate is that of the t-th entry |
| XmlReader.ExtractFromXml | pkg/xml_reader.py:46-77 | the entry loop over the parsed tree computes `Manifest` |
| XmlReader.Collect | pkg/xml_reader.py:61-75 | the loop builds the first-wins dict of the entries' candidates |
| XmlReader.AddEntry | pkg/xml_reader.py:62-75 | one iteration, including both `continue`s, inserts the entry's candidate first-wins |
| XmlReader.ReadEntry | pkg/xml_reader.py:62-73 | reading one entry's name, format and checksum children gives its candidate |
| XmlReader.CandidateSpec | pkg/xml_reader.py:62-75 | an entry yields a pair exactly when it has a name and its format passes the filter; the key is the name text, lower-cased when case is ignored; the checksum is the checksum text upper-cased, or None; the format is kept |
| XmlReader.ManifestEarliest | pkg/xml_reader.py:61-75 | every stored pair is that of the earliest entry with its key, and is well stored |
| XmlReader.ManifestKeys | pkg/xml_reader.py:61-75 | a key is stored exactly when some entry yields it |
| XmlReader.Manifest | pkg/xml_reader.py:61-75 | the manifest holds each key once |
| ReportPdfPairs.Located | pkg/report_builder_pdf_pairs.py:10-17 | the index finds a file with that name, and none exactly when no file has it |
| ReportPdfPairs.LocatedLast | pkg/report_builder_pdf_pairs.py:10 | when several PDFs share a name, the index holds the last of them |
| ReportPdfPairs.PairRows | pkg/report_builder_pdf_pairs.py:12-62 | one row per pair |
| ReportPdfPairs.BuildReportPdfPairs | pkg/report_builder_pdf_pairs.py:8-64 | the loop over the pairs computes `PairRows` |
| ReportPdfPairs.BuildIndex | pkg/report_builder_pdf_pairs.py:10 | the dict comprehension gives the same lookups as `Located` |
| ReportPdfPairs.CheckPair | pkg/report_builder_pdf_pairs.py:13-62 | the loop body, with its membership-guarded appends, computes the pair's row |
| ReportPdfPairs.CheckCrc | pkg/report_builder_pdf_pairs.py:30-50 | one file's checksum check adds `CRC_MISMATCH` when it is bad and not yet present, and always adds its note |
| ReportPdfPairs.PairRowsAt | pkg/report_builder_pdf_pairs.py:12-62 | exactly one row per pair, in the pairs' order, each keyed by its sheet's name |
| ReportPdfPairs.MissingCodes | pkg/report_builder_pdf_pairs.py:17-28 | `MISSING_IUL` exactly when no PDF bears the sheet's name; `MISSING_BASE` exactly when the base name is None, empty, or borne by no PDF |
| ReportPdfPairs.CrcMismatchCode | pkg/report_builder_pdf_pairs.py:30-50 | `CRC_MISMATCH` exactly when a present file has no expected checksum or a different one, and the status never repeats a code |
| ReportPdfPairs.PairRowOf | pkg/report_builder_pdf_pairs.py:12-62 | the row is keyed by the sheet's name; its status is never empty, and it is `OK`, alone, exactly when both PDFs are present with the expected checksums |
| ReportPdfPairs.ExpectedCrcColumns | pkg/report_builder_pdf_pairs.py:14-59 | the expected checksums are shown upper-cased, and an empty one as None |
| ReportIntegrity.IntegrityRows | pkg/report_builder_integrity.py:29-59 | one row per name |
| ReportIntegrity.BuildIntegrityReport | pkg/report_builder_integrity.py:9-61 | the sorted union and the row loop compute `IntegrityReport` |
| ReportIntegrity.CheckName | pkg/report_builder_integrity.py:30-59 | the loop body computes the name's row |
| ReportIntegrity.IntegrityReport | pkg/report_builder_integrity.py:27-29 | one row per distinct name of the union of the three sets, in strictly increasing order, each the row of its name |
| ReportIntegrity.NameRowStatus | pkg/report_builder_integrity.py:36-46 | each `MISSING_*` code appears exactly when the name is absent from its set, and `OK`, alone, exactly when it is in all three |
| ReportIntegrity.NameRowOrder | pkg/report_builder_integrity.py:36-44 | the codes come in the order `MISSING_IFC`, `MISSING_PDF`, `MISSING_XML` |
| ReportIntegrity.NeverAllMissing | pkg/report_builder_integrity.py:27-44 | a name of the union never carries all three `MISSING_*` codes |
| ReportIntegrity.NameSetLower | pkg/report_builder_integrity.py:17-25 | with case ignored, the set holds the lower-cased form of every name, and only lower-case names |
| ReportIntegrity.CaseInsensitiveRows | pkg/report_builder_integrity.py:17-27 | with case ignored, every row's name is lower-case, so no two rows name the same file up to case |
| ReportIntegrity.CaseInsensitiveMerge | pkg/report_builder_integrity.py:17-27 | with case ignored, each IFC file, sheet record and XML record is listed under its lower-cased name |
| StrOrder.BelowTransitive | pkg/report_builder_integrity.py:27 | string `<` is transitive |
| StrOrder.BelowTotal | pkg/report_builder_integrity.py:27 | any two distinct strings are ordered by `<` |
| StrOrder.LeastExists | pkg/report_builder_integrity.py:27 | every non-empty set of names has a least element |
| StrOrder.SortedNames | pkg/report_builder_integrity.py:27 | `sorted(set)`: strictly increasing, and holding exactly the set's elements |
| StrOrder.SortNames | pkg/report_builder_integrity.py:27 | repeatedly taking out the least name produces `sorted(set)` |

## Left out

- PDF text extraction (`_extract_text_pypdf2`, `_extract_text_ocr`, pkg/iul_reader.py:88-133) wraps PDF and OCR libraries. The two texts are inputs of `IulReader.PdfText`, and an extractor failure is the empty text. Tesseract discovery and configuration (pkg/iul_reader.py:36-76, 218-219) is environment set-up and is not part of this model.
- The `progress` callback of `_parse_entries` (pkg/iul_reader.py:175-179) is left out. The model assumes the callback does not mutate the entry it receives and raises nothing outside `Exception`. `IulEntry` is a mutable dataclass (pkg/iul_reader.py:79-86) and the callback receives the very object appended to the list, so a callback that changed its fields would change the returned entries. A `BaseException` such as `KeyboardInterrupt` escapes the `except Exception` and ends the parse. Under that assumption the returned list does not depend on the callback.
- `compute_crc32` (pkg/crc.py) reads the file. Each file's checksum is an input, a `u32`, which is all the reports read of it.
- `_fmt_mtime` (pkg/report_builder_iul.py:29-31) depends on the local time zone, and `stat().st_size` reads the file system. The formatted time and the size are per-file inputs of `ReportIul.IfcFile`.
- `ET.parse` and YAML loading are library parsers. The tree is the `XmlReader.Element` datatype, and a loaded mapping is an `Option<map<string, Option<string>>>`. A missing file, a missing YAML library or an unreadable file is a mapping of `None`, as `read_rules` then keeps the defaults.
- The `FileNotFoundError` of `extract_from_xml` (pkg/xml_reader.py:47-48) is an I/O check and is not modelled.
- XmlReader.ReadRules: YAML values are modelled as strings. A loaded non-string scalar (a number, a boolean) and a top-level YAML document that is not a mapping are not modelled.
- Text.Upper: `str.upper`/`str.lower` and the `\w` class of `IFC_RE` are modelled on ASCII and the basic Cyrillic block only. Other Unicode letters, and case mappings that change a string's length, are not modelled. `\d` is the ASCII digits only; the source's `\d` also accepts other Unicode decimal digits.
- Python dicts are modelled as sequences of key–value pairs with distinct keys, in insertion order; sets are Dafny sets. Each `Path` is modelled by its name. `Path(m_ifc.group(1)).name` is the match itself, because the class `[\w\-. ]` has no path separator.
- ReportXml.LookupRecord: for an unmatched file, the `Файл из XML` column is `hits[0]` when there are hits. The `'hits' in locals()` guard (pkg/report_builder.py:91) always holds there, because `hits` is assigned in the same iteration.
- The `Статус` column is kept in the rows as the list of codes (`status: seq<Code>`), so that lemmas can speak about single codes. Its text is `Utils.StatusCell` of that list, and the `Подробности` column is computed through `Utils.DetailsCell`.
- The report rows are records with one field per column. The dictionary keys (column titles) and the xlsx writers, scanner, GUI, CLI and diagnostics scripts are not part of this model.
