# Word translate-and-replace text handling, modelled in Dafny

This project models the text handling of a tool for translating Word
documents (WordprocessingML, ECMA-376 Part 1). The tool has four pieces.

- **The replacer** (`ReplaceWordContentData`).
  - It reads a list of translation records and keeps those whose original is not blank.
  - It sorts them longest original first, with equal lengths in ordinal order. Lengths and the ordinal order are those of .NET strings, that is, of UTF-16 code units.
  - For every paragraph, it turns the `w:t` elements into a list of text segments, one per run.
  - It applies each rule over and over. Each round finds the leftmost occurrence of the original in the combined text of the segments and splices the translation into the segments. The match's first segment receives its text before the match, the translation, and the last segment's text after the match. The segments after it, up to the last one the match touches, are emptied.
  - At the end it writes each segment's text back to its element.
- **The tree-to-lines extractor** (`ExtractContentData`).
  - It walks the element tree of each relevant package part.
  - It turns each paragraph into text: `t`, `delText` and `instrText` give their value, `tab` gives a tab, `br`/`cr` give a line feed, and any other element is entered.
  - It walks tables row by row and then cell by cell.
  - Each paragraph's text becomes trimmed, non-blank lines.
  - A predicate on entry names picks the package parts to read.
- **The flat body extractor** (`ExtractWordContentData`).
  - It builds the text of each direct paragraph child of the body from the paragraph's descendants.
  - It cuts the text at line breaks and trims the pieces.
  - It removes duplicates, keeping the first occurrence, and sorts the records the way the replacer sorts its rules.
- **The XML extractor** (`ExtractXmlContentData`).
  - It scans raw XML text left to right for the expression `<w:t(?:\s[^>]*)?>(.*?)</w:t>`.
  - It skips title-page captures, trims and drops empty captures, and removes duplicates, keeping first-occurrence order.

Shared modules:
- `Strings` holds the .NET string operations the tool relies on: ordinal search, `Trim`, `Split`, the UTF-16 encoding behind `Length` and ordinal comparison, and ASCII case-insensitive comparison.
- `Entries` holds the exchange record and the rank order used for sorting, with an in-place insertion sort. It also holds order-preserving de-duplication, and the invariant of the `HashSet`-plus-list loop that the two flat extractors use.
- `XmlTree` holds an element tree.
- `SegmentText` holds the value-level specification that the replacer's methods are proved against.

Three behaviours of the code that differ from what one might expect of such a replacer; the model follows the code:

- A match that begins and ends inside one run stays in that run. With the runs `"Hel"`, `"lo wor"`, `"ld"` and the rule `"lo wo" → "XX"`, the match starts at offset 3, which `FindSegmentIndex` places in the second run (the first run ends at 3). The result is `"Hel"`, `"XXr"`, `"ld"`, not `"HelXX"`, `""`, `"rld"`; `MatchInsideOneRun` states it.
- Only the splice policy exists. No code spreads the rewritten text over the runs in proportion to their original lengths.
- A rule's own replacement is scanned again. A rule whose translation contains its original, such as `"a" → "aa"`, makes the loop run for ever instead of stopping after one pass; `ReplaceRepeatedlyNeverExhausts` states it.

## Model

| member | source | states |
|---|---|---|
| ReplaceWordContentData.SegmentList.constructor | office-tools/office-tools/WordProcess/ReplaceWordContentData.cs:219-230 | one segment per `w:t` element, in order, each starting with its element's text |
| ReplaceWordContentData.SegmentList.RecalculateStarts | office-tools/office-tools/WordProcess/ReplaceWordContentData.cs:174-182 | texts unchanged; the first start is 0 and each next start is the previous start plus the previous text's length, so every start is the segment's offset in the combined text |
| ReplaceWordContentData.SegmentList.FindSegmentIndex | office-tools/office-tools/WordProcess/ReplaceWordContentData.cs:184-197 | the first segment whose end lies beyond the position, or -1 when there is none; with recalculated starts and a non-negative position the segment found is never empty and -1 means the position is at or past the end of the text |
| ReplaceWordContentData.SegmentList.CombineSegments | office-tools/office-tools/WordProcess/ReplaceWordContentData.cs:199-213 | the in-order concatenation of the segment texts, the one-segment shortcut included |
| ReplaceWordContentData.SegmentList.ApplyReplacement | office-tools/office-tools/WordProcess/ReplaceWordContentData.cs:145-172 | the texts become the splice of the match described by `SpliceSegments` (whose properties are the `SegmentText` lemmas below); the segment count is kept |
| ReplaceWordContentData.SegmentList.SpliceMatch | office-tools/office-tools/WordProcess/ReplaceWordContentData.cs:157-171 | with recalculated starts and both segments found, the texts become the splice of the match; the starts are not touched |
| ReplaceWordContentData.SegmentList.SpliceBetween | office-tools/office-tools/WordProcess/ReplaceWordContentData.cs:157-171 | start segment := its text before the match + replacement + end segment's text after the match; segments after it up to the end segment become empty; every other segment keeps its text; starts untouched |
| ReplaceWordContentData.SegmentList.ReplaceInSegments | office-tools/office-tools/WordProcess/ReplaceWordContentData.cs:121-143 | an empty target changes nothing; an absent translation counts as empty; the texts become `ApplyRule` of the old texts; the loop reports finished exactly when the target no longer occurs in the combined text; every round recalculates the starts first, so after a non-empty target the starts are the offsets of the final texts, and an empty target leaves them untouched |
| ReplaceWordContentData.ReplaceInParagraph | office-tools/office-tools/WordProcess/ReplaceWordContentData.cs:67-82 | a paragraph without `w:t` elements is left alone; otherwise the element values become the rules applied in list order to the old values, element by element, count and order kept; `allFinished` holds exactly when every rule, at the end of its turn, left no occurrence of its original (`RulesDone`) |
| ReplaceWordContentData.SegmentList.WriteBack | office-tools/office-tools/WordProcess/ReplaceWordContentData.cs:78-81 | with no element listed twice, the element values become exactly the segment texts, in order |
| ReplaceWordContentData.ReplaceInParagraphOf | office-tools/office-tools/WordProcess/ReplaceWordContentData.cs:66-83 | one turn of the paragraph loop: the paragraph gets the rules applied to its texts, reports whether every rule finished, and when no element belongs to two paragraphs every other paragraph keeps its values |
| ReplaceWordContentData.ReplaceInDocument | office-tools/office-tools/WordProcess/ReplaceWordContentData.cs:65-83 | when no element belongs to two paragraphs, every paragraph ends with the rules applied to its own texts, and `allFinished` holds exactly when every rule finished in every paragraph |
| ReplaceWordContentData.RemoveBlankOrigins | office-tools/office-tools/WordProcess/ReplaceWordContentData.cs:106 | every record with a non-blank original is kept as often as it occurs; every other record is dropped |
| ReplaceWordContentData.ReadTranslations | office-tools/office-tools/WordProcess/ReplaceWordContentData.cs:105-118 | a `null` list counts as empty; the result is a permutation of the records with non-blank originals, sorted by the rank order, so longest original first, lengths counted in UTF-16 code units |
| ReplaceWordContentData.Generate | office-tools/office-tools/WordProcess/ReplaceWordContentData.cs:39-83 | the rules read are those of `ReadTranslations`; an empty rule list leaves every element as it was and reports every rule finished; otherwise, when no element belongs to two paragraphs, each paragraph ends with all rules applied to its texts and `allFinished` holds exactly when every rule finished in every paragraph |
| ReplaceWordContentData.MatchInsideOneRun | office-tools/office-tools/WordProcess/ReplaceWordContentData.cs:145-172 | `["Hel","lo wor","ld"]` with `"lo wo" → "XX"` gives `["Hel","XXr","ld"]` |
| SegmentText.StartOfNext | office-tools/office-tools/WordProcess/ReplaceWordContentData.cs:176-181 | each start is the previous start plus the previous segment's length |
| SegmentText.StartOfLast | office-tools/office-tools/WordProcess/ReplaceWordContentData.cs:176-181 | the offset after the last segment is the length of the combined text |
| SegmentText.SegmentAtFirst | office-tools/office-tools/WordProcess/ReplaceWordContentData.cs:186-196 | the index found is the smallest whose end lies beyond the position; -1 means every segment ends at or before it |
| SegmentText.SegmentAtHolds | office-tools/office-tools/WordProcess/ReplaceWordContentData.cs:184-197 | for a non-negative position the segment found holds that offset and is non-empty; -1 exactly when the position is at or past the end of the text |
| SegmentText.ConcatSplit | office-tools/office-tools/WordProcess/ReplaceWordContentData.cs:206-212 | the combined text is the combined text of any prefix of the segments followed by that of the rest |
| SegmentText.SpliceSegmentsSplices | office-tools/office-tools/WordProcess/ReplaceWordContentData.cs:145-172 | for a match inside the text, the new combined text is the old one with the match replaced: `old[..start] + replacement + old[start+length..]`, segment count unchanged |
| SegmentText.SpliceSegmentsFrame | office-tools/office-tools/WordProcess/ReplaceWordContentData.cs:150-171 | segments before the start segment and after the end segment are unchanged, those in between up to the end segment are empty, the start segment begins with its text before the match |
| SegmentText.SpliceSegmentsPastEnd | office-tools/office-tools/WordProcess/ReplaceWordContentData.cs:150-155 | a match reaching past the end of the text leaves every segment as it was |
| SegmentText.ReplaceFirst | office-tools/office-tools/WordProcess/ReplaceWordContentData.cs:135-141 | no occurrence leaves the text as it is; otherwise the length changes by the replacement's length minus the target's |
| SegmentText.SpliceIsReplaceFirst | office-tools/office-tools/WordProcess/ReplaceWordContentData.cs:133-141 | one round of the loop on the segments is one leftmost replacement on the combined text |
| SegmentText.RuleOnSegmentsConcat | office-tools/office-tools/WordProcess/ReplaceWordContentData.cs:131-142 | how the text is cut into runs does not change what the loop makes of the combined text |
| SegmentText.ReplaceRepeatedlyExhausts | office-tools/office-tools/WordProcess/ReplaceWordContentData.cs:131-142 | with a translation shorter than its original, as many rounds as the text has characters leave no occurrence of the original |
| SegmentText.ReplaceRepeatedlyNeverExhausts | office-tools/office-tools/WordProcess/ReplaceWordContentData.cs:131-142 | with `"a" → "aa"` the original is still there after any number of rounds: the loop does not end |
| SegmentText.ApplyRule | office-tools/office-tools/WordProcess/ReplaceWordContentData.cs:123-129 | an empty original leaves the segments unchanged; the segment count is kept |
| SegmentText.RulesDoneOnNothing | office-tools/office-tools/WordProcess/ReplaceWordContentData.cs:67-70 | a paragraph without text leaves every rule finished |
| SegmentText.RulesDoneWhenShrinking | office-tools/office-tools/WordProcess/ReplaceWordContentData.cs:74-77 | when every translation is shorter than its original and the bound is at least the paragraph's text length, every rule finishes, so the cut-off never fires |
| SegmentText.RuleOnSegmentsSettled | office-tools/office-tools/WordProcess/ReplaceWordContentData.cs:131-142 | once the target is gone within the bound, any larger bound gives the same segments, so the result is that of the `while (true)` loop |
| SegmentText.RulesDoneSettled | office-tools/office-tools/WordProcess/ReplaceWordContentData.cs:74-77 | when every rule finished within the bound, any larger bound gives the same texts and every rule still finishes, so `allFinished` means the paragraph got what the unbounded loops give it |
| SegmentText.RulesNotDoneWhenGrowing | office-tools/office-tools/WordProcess/ReplaceWordContentData.cs:131-142 | the rule `"a" → "aa"` on the text `"a"` is never finished, whatever the bound |
| SegmentText.ApplyRulesConcat | office-tools/office-tools/WordProcess/ReplaceWordContentData.cs:74-77 | the combined text after all rules depends only on the combined text before them |
| Entries.RankLeTotal | office-tools/office-tools/WordProcess/ReplaceWordContentData.cs:107-116 | the comparer orders any two records |
| Entries.RankLeTransitive | office-tools/office-tools/WordProcess/ReplaceWordContentData.cs:107-116 | the comparer's order is transitive |
| Entries.RankLeAntisymmetric | office-tools/office-tools/WordProcess/ReplaceWordContentData.cs:107-116 | two records the comparer ranks equal have the same original |
| Entries.SortByRank | office-tools/office-tools/WordProcess/ReplaceWordContentData.cs:107-116 | the array ends sorted by UTF-16 length descending, then ordinal ascending over UTF-16 code units, and is a permutation of what it held |
| Entries.SortedOriginsDetermined | office-tools/office-tools/WordProcess/ReplaceWordContentData.cs:107-116 | two sorted arrangements of the same records list the same originals in the same order, so the instability of the library sort cannot change the order of originals |
| Entries.RankLeCountsCodeUnits | office-tools/office-tools/WordProcess/ReplaceWordContentData.cs:107-116 | lengths count UTF-16 code units: an original of two supplementary characters (4 units) ranks before one of a supplementary character and an ASCII letter (3 units), and not the other way round |
| Entries.Dedup | office-tools/office-tools/WordProcess/ExtractWordContentData.cs:82-87 | no duplicates, and exactly the contents of the input |
| Entries.DedupKeepsFirstOccurrenceOrder | office-tools/office-tools/WordProcess/ExtractXMLContentData.cs:49-54 | the kept contents appear in the order of their first occurrences |
| Entries.CollectedStep | office-tools/office-tools/WordProcess/ExtractWordContentData.cs:82-87 | a content already in the `HashSet` changes nothing; a new one is added to the set and its record appended; either way the results stay the de-duplicated contents seen |
| Entries.ToEntries | office-tools/office-tools/WordProcess/ExtractWordContentData.cs:87 | one record per content, with an empty translation |
| Entries.NoDuplicatesMultiplicity | office-tools/office-tools/WordProcess/ExtractWordContentData.cs:91-100 | a list has no duplicates exactly when every element occurs at most once in its multiset |
| Entries.RearrangedRecords | office-tools/office-tools/WordProcess/ExtractWordContentData.cs:91-100 | a rearrangement of the records of distinct contents has distinct originals, each present, each one of the contents, each with an empty translation |
| XmlTree.ChildrenNamed | office-tools/office-tools/WordProcess/ExtractWordContentData.cs:47 | exactly the element children with the name |
| XmlTree.ChildrenNamedAppend | office-tools/office-tools/WordProcess/ExtractWordContentData.cs:47 | document order: the named children of one list followed by another are those of the first followed by those of the second |
| XmlTree.ChildrenNamedCounts | office-tools/office-tools/WordProcess/ExtractWordContentData.cs:47 | each child with the name is listed as often as it occurs, and nothing else is listed |
| XmlTree.FirstChildNamed | office-tools/office-tools/WordProcess/ExtractWordContentData.cs:41 | the first child element with the name (no earlier child has it), or none exactly when there is no such child |
| Strings.IndexOf | office-tools/office-tools/WordProcess/ReplaceWordContentData.cs:135 | the leftmost ordinal occurrence, or -1 exactly when there is none |
| Strings.TrimFacts | office-tools/office-tools/WordProcess/ExtractContentData.cs:160 | `Trim` gives a trimmed string of characters of the input, empty exactly when the input is blank |
| Strings.TrimStartFacts | office-tools/office-tools/WordProcess/ExtractXMLContentData.cs:38 | `TrimStart` drops exactly the leading whitespace |
| Strings.TrimEndFacts | office-tools/office-tools/WordProcess/ExtractXMLContentData.cs:43 | `TrimEnd` drops exactly the trailing whitespace |
| Strings.RemoveCharFacts | office-tools/office-tools/WordProcess/ExtractContentData.cs:157 | `Replace("\r", "")` leaves no `\r` and adds no character |
| Strings.SplitOnChars | office-tools/office-tools/WordProcess/ExtractContentData.cs:158 | no piece of `Split('\n')` holds a `\n`, and the pieces hold only characters of the input |
| Strings.SplitLinesChars | office-tools/office-tools/WordProcess/ExtractWordContentData.cs:73 | no piece of the split on `\r\n`, `\n`, `\r` holds a line break |
| Strings.NonEmptyMembers | office-tools/office-tools/WordProcess/ExtractContentData.cs:158 | `RemoveEmptyEntries` keeps exactly the non-empty pieces |
| Strings.TrimmedNonEmptyMembers | office-tools/office-tools/WordProcess/ExtractContentData.cs:158-165 | the lines kept are exactly the non-empty trims of the pieces |
| Strings.OrdinalLessTotal | office-tools/office-tools/WordProcess/ReplaceWordContentData.cs:115 | `CompareOrdinal`, over UTF-16 code units, orders any two different strings |
| Strings.OrdinalLessTransitive | office-tools/office-tools/WordProcess/ReplaceWordContentData.cs:115 | `CompareOrdinal`'s order is transitive |
| Strings.OrdinalLessSurrogates | office-tools/office-tools/WordProcess/ReplaceWordContentData.cs:115 | `CompareOrdinal` compares UTF-16 code units: U+10000 (a surrogate pair of length 2) sorts before U+FFFD |
| Strings.Utf16Injective | office-tools/office-tools/WordProcess/ReplaceWordContentData.cs:115 | different strings have different UTF-16 encodings, so `CompareOrdinal` returns 0 only for equal strings |
| Strings.FoldIdempotent | office-tools/office-tools/WordProcess/ExtractContentData.cs:170-197 | case folding twice is folding once |
| ExtractContentData.StringBuilder.Append | office-tools/office-tools/WordProcess/ExtractContentData.cs:128 | the text grows by exactly the appended string |
| ExtractContentData.LineList.Add | office-tools/office-tools/WordProcess/ExtractContentData.cs:163 | the list grows by exactly the added line |
| ExtractContentData.AppendNodeText | office-tools/office-tools/WordProcess/ExtractContentData.cs:117-148 | appends exactly `NodeText(node)`: a non-element nothing, `t`/`delText`/`instrText` their whole value, `tab` a tab, `br`/`cr` a line feed, any other element its children's text in order |
| ExtractContentData.GetParagraphText | office-tools/office-tools/WordProcess/ExtractContentData.cs:105-115 | the in-order text of the paragraph's child nodes |
| ExtractContentData.AppendNormalizedLines | office-tools/office-tools/WordProcess/ExtractContentData.cs:150-166 | appends exactly the normalised lines, in order, duplicates kept |
| ExtractContentData.AppendTrimmedLines | office-tools/office-tools/WordProcess/ExtractContentData.cs:158-165 | appends the non-empty trims of the pieces in order |
| ExtractContentData.AppendTrimmedLine | office-tools/office-tools/WordProcess/ExtractContentData.cs:160-164 | appends the trimmed piece unless it is blank |
| ExtractContentData.ContainerLinesClean | office-tools/office-tools/WordProcess/ExtractContentData.cs:74-103 | every line the whole walk of a container appends, through nested elements and table cells, is non-empty, trimmed and free of `\r` and `\n` |
| ExtractContentData.NormalizedLinesClean | office-tools/office-tools/WordProcess/ExtractContentData.cs:150-166 | every line is non-empty, trimmed and free of `\r` and `\n`; blank text gives no line |
| ExtractContentData.ExtractFromContainer | office-tools/office-tools/WordProcess/ExtractContentData.cs:74-92 | appends exactly the container's lines: its children in document order |
| ExtractContentData.ExtractChild | office-tools/office-tools/WordProcess/ExtractContentData.cs:76-91 | a paragraph gives its normalised lines and is not entered, a table goes through `ExtractTable`, any other element is entered |
| ExtractContentData.ExtractTable | office-tools/office-tools/WordProcess/ExtractContentData.cs:94-103 | appends the lines of every `tc` of every `tr`, in order, ignoring the table's other children |
| ExtractContentData.ExtractRow | office-tools/office-tools/WordProcess/ExtractContentData.cs:98-101 | appends the lines of each `tc` child as a container, ignoring other children |
| ExtractContentData.IsRelevantWordEntryCharacterised | office-tools/office-tools/WordProcess/ExtractContentData.cs:168-198 | relevant only under `word/`, outside `/_rels/`, ending in `.xml`; among those, relevant exactly for `glossary/document.xml` or a name starting with one of the six part prefixes, all ignoring case |
| ExtractContentData.IsRelevantWordEntryIgnoresCase | office-tools/office-tools/WordProcess/ExtractContentData.cs:168-198 | a name and its lower-cased form are judged alike |
| ExtractWordContentData.BodyOf | office-tools/office-tools/WordProcess/ExtractWordContentData.cs:41-42 | the body found is the first `body` child element of the root; there is none exactly when the root is missing, is not an element, or has no `body` child |
| ExtractWordContentData.BodyParagraphs | office-tools/office-tools/WordProcess/ExtractWordContentData.cs:47 | exactly the direct `p` children of the body |
| ExtractWordContentData.DescendantText | office-tools/office-tools/WordProcess/ExtractWordContentData.cs:53-64 | `t` gives its value, `tab` a tab, `br`/`cr` a line feed, every other node (`delText` included) nothing |
| ExtractWordContentData.ParagraphText | office-tools/office-tools/WordProcess/ExtractWordContentData.cs:49-67 | the paragraph text is the descendants' contributions in document order |
| ExtractWordContentData.CollectFragments | office-tools/office-tools/WordProcess/ExtractWordContentData.cs:73-88 | keeps the set/list invariant over the fragments of one paragraph text |
| ExtractWordContentData.CollectParagraphs | office-tools/office-tools/WordProcess/ExtractWordContentData.cs:44-89 | the records are the de-duplicated fragments of all paragraphs in first-occurrence order, an empty text skipped |
| ExtractWordContentData.Generate | office-tools/office-tools/WordProcess/ExtractWordContentData.cs:41-100 | a missing body is an error; otherwise the result is a sorted permutation of those records, with distinct originals and empty translations |
| ExtractWordContentData.FragmentsClean | office-tools/office-tools/WordProcess/ExtractWordContentData.cs:67-80 | every content is non-empty, trimmed, free of line breaks and the trim of a piece between line breaks; an empty text yields nothing |
| ExtractWordContentData.CollectParagraph | office-tools/office-tools/WordProcess/ExtractWordContentData.cs:49-88 | the kept set and the record list stay the de-duplicated contents seen so far, now followed by this paragraph's; a paragraph with empty text adds nothing |
| ExtractWordContentData.GatheredMembers | office-tools/office-tools/WordProcess/ExtractWordContentData.cs:47-89 | a content is in the paragraphs' contents together exactly when it is in the contents of one of them |
| ExtractWordContentData.AllFragmentsMembers | office-tools/office-tools/WordProcess/ExtractWordContentData.cs:47-89 | the contents of the paragraphs together are exactly those of each paragraph |
| ExtractWordContentData.ExtractedContents | office-tools/office-tools/WordProcess/ExtractWordContentData.cs:44-87 | the emitted contents are distinct and are exactly the contents of all paragraphs |
| ExtractXmlContentData.FindFromFacts | office-tools/office-tools/WordProcess/ExtractXMLContentData.cs:16 | the lazy `(.*?)` search finds the first occurrence from the position, or reports there is none |
| ExtractXmlContentData.OpenTagEnd | office-tools/office-tools/WordProcess/ExtractXMLContentData.cs:16 | the opening tag ends inside the text, at least five characters after `<` |
| ExtractXmlContentData.MatchAt | office-tools/office-tools/WordProcess/ExtractXMLContentData.cs:16 | a match at a position starts there and its capture and closing tag lie inside the text |
| ExtractXmlContentData.MatchAtSound | office-tools/office-tools/WordProcess/ExtractXMLContentData.cs:16 | what the scanner finds is a match the expression admits, and its capture holds no `</w:t>` |
| ExtractXmlContentData.MatchAtComplete | office-tools/office-tools/WordProcess/ExtractXMLContentData.cs:16 | every match the expression admits at a position is found there, with the same capture start and the shortest capture |
| ExtractXmlContentData.OpenTagDetermined | office-tools/office-tools/WordProcess/ExtractXMLContentData.cs:16 | the opening tag of an admitted match is the one the scanner finds |
| ExtractXmlContentData.MatchesFromFound | office-tools/office-tools/WordProcess/ExtractXMLContentData.cs:35 | every match listed is the scanner's match at its start |
| ExtractXmlContentData.MatchesFromOrdered | office-tools/office-tools/WordProcess/ExtractXMLContentData.cs:35 | matches are listed left to right and do not overlap |
| ExtractXmlContentData.MatchesFromNext | office-tools/office-tools/WordProcess/ExtractXMLContentData.cs:35 | each match after the first is the first one from the end of the previous |
| ExtractXmlContentData.MatchesFromLeftmost | office-tools/office-tools/WordProcess/ExtractXMLContentData.cs:35 | no match is skipped: there is none before the first and none between two consecutive ones |
| ExtractXmlContentData.CollectCapture | office-tools/office-tools/WordProcess/ExtractXMLContentData.cs:36-54 | the kept set and the record list stay the de-duplicated contents kept so far, followed by this capture's: nothing for a title-page capture or one that trims to nothing, its trim otherwise |
| ExtractXmlContentData.Generate | office-tools/office-tools/WordProcess/ExtractXMLContentData.cs:32-55 | the records are the de-duplicated kept captures: title-page captures skipped, captures trimmed, empty ones dropped |
| ExtractXmlContentData.KeptClean | office-tools/office-tools/WordProcess/ExtractXMLContentData.cs:37-47 | every kept content is non-empty, trimmed, and the trim of a capture that does not start with `<w:titlePg/>` after leading whitespace |
| ExtractXmlContentData.ExtractedXmlContents | office-tools/office-tools/WordProcess/ExtractXMLContentData.cs:32-54 | the emitted contents are distinct, each the raw trim of a non-title-page capture, in first-occurrence order, unsorted |

## Left out

- File, archive and path handling is not modelled: file existence checks, copying, reading and writing, ZIP entry lookup, deletion and creation, and the data directory. The replacer's and the flat extractor's failure when `word/document.xml` is missing is left out for the same reason.
- JSON reading and writing is not modelled. The rule list is given as a sequence of records, with `None` for a JSON `null` list, and the extractors return their records as a sequence.
- XML parsing and saving is not modelled. Documents are given as an `XmlTree.Node` value. Setting an element's `Value` is modelled as setting the text of a `TextElement` object.
- The replacer's search for the body and its `Descendants(w:p)`/`Descendants(w:t)` queries are not modelled. `ReplaceInDocument` takes the paragraphs' `w:t` element lists as input.
- ReplaceWordContentData.ReplaceInDocument: the per-paragraph result is stated only when no element belongs to two paragraphs. With nested paragraphs a later paragraph sees the earlier one's writes, and the model does not describe that case.
- ReplaceWordContentData.SegmentList.ReplaceInSegments: the loop is cut off after `fuel` rounds, because the source's `while (true)` need not end. `finished` tells whether the target is gone, `ReplaceInParagraph`, `ReplaceInDocument` and `Generate` pass on whether every rule finished as `allFinished`, `RulesDoneSettled` shows that a finished result is what any larger bound gives, and `RulesDoneWhenShrinking` gives a bound that always suffices when every translation is shorter than its original.
- The replacer's offsets and lengths (`IndexOf`, `Start`, `Substring`) count characters, not UTF-16 code units. A well-formed target can only match a well-formed text at a character boundary, so the same matches are found and the same splices made; only the numbering of positions differs.
- ReplaceWordContentData.SegmentList.ReplaceInSegments: requires a present original. The source dereferences it and would throw on `null`, but `ReadTranslations` already removes such records.
- ReplaceWordContentData.SegmentList: the list of `TextSegment` objects is modelled as one object with parallel columns (element, text, start). Segments are never shared or aliased, so the model captures what the source does.
- Entries.SortByRank: `List.Sort` is an unstable introsort, while the model uses a stable insertion sort. Only "sorted and a permutation" is promised, and `SortedOriginsDetermined` shows that the resulting order of originals is the same either way. Which of several records sharing an original comes first is not determined; with `cat → chat` and `cat → gato` either order is sorted, and the rule that comes first wins.
- `char.IsWhiteSpace`, `Trim` and regex `\s` use the .NET whitespace set as a fixed list of code points. `OrdinalIgnoreCase` is modelled as an ASCII case fold, so culture and full Unicode case mapping are not modelled.
- The regular expression engine is modelled only for the one pattern, as a hand-written scanner. Captures are emitted raw, with no entity unescaping, just as the source emits them.
- In the flat extractor, the `StringBuilder` of each paragraph is a local string. The `HashSet` of the two flat extractors is a `set<string>` passed alongside the list; the tree-to-lines extractor has none and keeps duplicates.
- The tree-to-lines extractor's `Generate` and `ExtractLines` are not modelled: file handling, the ordering of the relevant entries and the per-entry loop. Only the predicate choosing the entries and the per-part walk are modelled.
- The XML extractor's `Generate` takes the XML text as a parameter instead of reading `test.xml`.
