/**
 * The tree-to-lines extractor: the relevant parts of the package are walked
 * in document order; each paragraph's text is assembled from its runs by
 * element name, split into lines, trimmed and appended; tables are walked
 * row by row and cell by cell. Each method is proved against a function that
 * states the lines it appends.
 */
module ExtractContentData {
  import opened Wrappers
  import opened Strings
  import opened XmlTree

  /** `System.Text.StringBuilder`, reduced to its content. */
  class StringBuilder {
    var content: string

    constructor()
      ensures content == ""
    {
      content := "";
    }

    method Append(s: string)
      modifies this
      ensures content == old(content) + s
    {
      content := content + s;
    }
  }

  /** The `ICollection<string>` the lines are appended to. */
  class LineList {
    var items: seq<string>

    constructor()
      ensures items == []
    {
      items := [];
    }

    method Add(line: string)
      modifies this
      ensures items == old(items) + [line]
    {
      items := items + [line];
    }
  }

  /** What `AppendNodeText` appends for one node: the value of a `t`,
      `delText` or `instrText` element, a tab for `tab`, a line feed for
      `br` and `cr`, the children's text for any other element, and nothing
      for a node that is not an element. */
  function NodeText(n: Node): string
    decreases n, 1
  {
    match n
    case Element(name, children) =>
      if name == W("t") || name == W("delText") || name == W("instrText") then Value(n)
      else if name == W("tab") then "\t"
      else if name == W("br") || name == W("cr") then "\n"
      else NodesText(children)
    case _ => ""
  }

  function NodesText(ns: seq<Node>): string
    decreases ns, 0
  {
    if ns == [] then "" else NodesText(ns[..|ns| - 1]) + NodeText(ns[|ns| - 1])
  }

  /** The text `GetParagraphText` builds: its child nodes' text in order. */
  function ParagraphText(paragraph: Node): string
    requires paragraph.Element?
  {
    NodesText(paragraph.children)
  }

  lemma NodesTextSnoc(ns: seq<Node>, i: nat)
    requires i < |ns|
    ensures NodesText(ns[..i + 1]) == NodesText(ns[..i]) + NodeText(ns[i])
  {
    assert ns[..i + 1][..i] == ns[..i];
  }

  /** `AppendNodeText`. */
  method AppendNodeText(node: Node, builder: StringBuilder)
    modifies builder
    ensures builder.content == old(builder.content) + NodeText(node)
    decreases node, 1
  {
    if !node.Element? {
      return;
    }
    var name := node.name;
    if name == W("t") || name == W("delText") || name == W("instrText") {
      builder.Append(Value(node));
      return;
    }
    if name == W("tab") {
      builder.Append("\t");
      return;
    }
    if name == W("br") || name == W("cr") {
      builder.Append("\n");
      return;
    }
    var i := 0;
    while i < |node.children|
      invariant 0 <= i <= |node.children|
      invariant builder.content == old(builder.content) + NodesText(node.children[..i])
    {
      NodesTextSnoc(node.children, i);
      AppendNodeText(node.children[i], builder);
      i := i + 1;
    }
    assert node.children[..i] == node.children;
  }

  /** `GetParagraphText`. */
  method GetParagraphText(paragraph: Node) returns (r: string)
    requires paragraph.Element?
    ensures r == ParagraphText(paragraph)
  {
    var builder := new StringBuilder();
    var i := 0;
    while i < |paragraph.children|
      invariant 0 <= i <= |paragraph.children|
      invariant builder.content == NodesText(paragraph.children[..i])
    {
      NodesTextSnoc(paragraph.children, i);
      AppendNodeText(paragraph.children[i], builder);
      i := i + 1;
    }
    assert paragraph.children[..i] == paragraph.children;
    r := builder.content;
  }

  /** The lines `AppendNormalizedLines` appends for a paragraph text:
      nothing for a blank text; otherwise the text without carriage returns,
      cut at line feeds, empty pieces dropped, each piece trimmed, pieces
      that trim to nothing dropped. */
  function NormalizedLines(paragraphText: string): seq<string>
  {
    if IsBlank(paragraphText) then []
    else TrimmedNonEmpty(NonEmpty(SplitOn(RemoveChar(paragraphText, '\r'), '\n')))
  }

  /** `AppendNormalizedLines`. */
  method AppendNormalizedLines(paragraphText: string, lines: LineList)
    modifies lines
    ensures lines.items == old(lines.items) + NormalizedLines(paragraphText)
  {
    if IsBlank(paragraphText) {
      return;
    }
    var normalized := RemoveChar(paragraphText, '\r');
    var segments := NonEmpty(SplitOn(normalized, '\n'));
    AppendTrimmedLines(segments, lines);
  }

  /** The loop of `AppendNormalizedLines`. */
  method AppendTrimmedLines(segments: seq<string>, lines: LineList)
    modifies lines
    ensures lines.items == old(lines.items) + TrimmedNonEmpty(segments)
  {
    var i := 0;
    while i < |segments|
      invariant 0 <= i <= |segments|
      invariant lines.items == old(lines.items) + TrimmedNonEmpty(segments[..i])
    {
      TrimmedNonEmptySnoc(segments, i);
      AppendTrimmedLine(segments[i], lines);
      i := i + 1;
    }
    assert segments[..i] == segments;
  }

  /** One round of that loop: the piece trimmed, and appended unless the
      trimmed piece is blank. */
  method AppendTrimmedLine(segment: string, lines: LineList)
    modifies lines
    ensures lines.items == old(lines.items) + TrimmedLine(segment)
  {
    var trimmed := Trim(segment);
    var blank := IsBlank(trimmed);
    assert blank <==> trimmed == "" by {
      TrimFacts(segment);
      TrimmedBlankIsEmpty(trimmed);
    }
    if !blank {
      lines.Add(trimmed);
    }
  }

  /** Every line appended for a paragraph is trimmed, non-empty and free of
      line breaks; a blank paragraph text gives no line at all. */
  lemma NormalizedLinesClean(paragraphText: string)
    ensures forall line :: line in NormalizedLines(paragraphText) ==>
      line != "" && IsTrimmed(line) && '\r' !in line && '\n' !in line
    ensures IsBlank(paragraphText) ==> NormalizedLines(paragraphText) == []
  {
    var normalized := RemoveChar(paragraphText, '\r');
    var pieces := NonEmpty(SplitOn(normalized, '\n'));
    TrimmedNonEmptyMembers(pieces);
    RemoveCharFacts(paragraphText, '\r');
    SplitOnChars(normalized, '\n');
    NonEmptyMembers(SplitOn(normalized, '\n'));
    forall line | line in NormalizedLines(paragraphText)
      ensures line != "" && IsTrimmed(line) && '\r' !in line && '\n' !in line
    {
      var p :| p in pieces && line == Trim(p);
      TrimFacts(p);
      assert p in SplitOn(normalized, '\n');
    }
  }

  /** The lines `ExtractFromContainer` appends for a container: those of its
      element children in order. */
  function ContainerLines(container: Node): seq<string>
    decreases container, 3
  {
    if container.Element? then ChildrenLines(container.children) else []
  }

  function ChildrenLines(ns: seq<Node>): seq<string>
    decreases ns, 2
  {
    if ns == [] then [] else ChildrenLines(ns[..|ns| - 1]) + ChildLines(ns[|ns| - 1])
  }

  /** One child of a container: a paragraph gives its normalised lines and
      is not entered, a table is walked by `TableLines`, any other element is
      itself a container, and a node that is not an element gives nothing. */
  function ChildLines(n: Node): seq<string>
    decreases n, 1
  {
    match n
    case Element(name, children) =>
      if name == W("p") then NormalizedLines(ParagraphText(n))
      else if name == W("tbl") then TableLines(n)
      else ChildrenLines(children)
    case _ => []
  }

  /** The lines `ExtractTable` appends: for each `tr` child in order, for
      each of its `tc` children in order, the cell's lines as a container;
      the table's other children are ignored. */
  function TableLines(table: Node): seq<string>
    requires table.Element?
    decreases table, 0
  {
    RowsLines(table.children)
  }

  function RowsLines(ns: seq<Node>): seq<string>
    decreases ns, 2
  {
    if ns == [] then []
    else
      var last := ns[|ns| - 1];
      RowsLines(ns[..|ns| - 1]) + if last.Element? && last.name == W("tr") then CellsLines(last.children) else []
  }

  function CellsLines(ns: seq<Node>): seq<string>
    decreases ns, 2
  {
    if ns == [] then []
    else
      var last := ns[|ns| - 1];
      CellsLines(ns[..|ns| - 1]) + if last.Element? && last.name == W("tc") then ChildrenLines(last.children) else []
  }

  lemma ChildrenLinesSnoc(ns: seq<Node>, i: nat)
    requires i < |ns|
    ensures ChildrenLines(ns[..i + 1]) == ChildrenLines(ns[..i]) + ChildLines(ns[i])
  {
    assert ns[..i + 1][..i] == ns[..i];
  }

  /** Regrouping the lines appended so far; kept as a lemma so that the
      loops of `ExtractTable` and `ExtractRow` see only this one fact. */
  lemma AppendAssociates(a: seq<string>, b: seq<string>, c: seq<string>)
    ensures a + b + c == a + (b + c)
  {
  }

  lemma RowsLinesSnoc(ns: seq<Node>, i: nat)
    requires i < |ns|
    ensures RowsLines(ns[..i + 1]) == RowsLines(ns[..i]) +
      if ns[i].Element? && ns[i].name == W("tr") then CellsLines(ns[i].children) else []
  {
    assert ns[..i + 1][..i] == ns[..i];
  }

  lemma CellsLinesSnoc(ns: seq<Node>, i: nat)
    requires i < |ns|
    ensures CellsLines(ns[..i + 1]) == CellsLines(ns[..i]) +
      if ns[i].Element? && ns[i].name == W("tc") then ChildrenLines(ns[i].children) else []
  {
    assert ns[..i + 1][..i] == ns[..i];
  }

  /** `ExtractFromContainer`. */
  method ExtractFromContainer(container: Node, lines: LineList)
    requires container.Element?
    modifies lines
    ensures lines.items == old(lines.items) + ContainerLines(container)
    decreases container, 1
  {
    var children := container.children;
    var i := 0;
    while i < |children|
      invariant 0 <= i <= |children|
      invariant lines.items == old(lines.items) + ChildrenLines(children[..i])
    {
      ChildrenLinesSnoc(children, i);
      ExtractChild(children[i], lines);
      i := i + 1;
    }
    assert children[..i] == children;
  }

  /** One round of the loop of `ExtractFromContainer`: a paragraph's text is
      normalised into lines, a table is walked, another element is entered
      as a container, and a node that is not an element is skipped. */
  method ExtractChild(element: Node, lines: LineList)
    modifies lines
    ensures lines.items == old(lines.items) + ChildLines(element)
    decreases element, 2
  {
    if element.Element? {
      if element.name == W("p") {
        var text := GetParagraphText(element);
        AppendNormalizedLines(text, lines);
      } else if element.name == W("tbl") {
        ExtractTable(element, lines);
      } else {
        ExtractFromContainer(element, lines);
      }
    }
  }

  /** `ExtractTable`. */
  method ExtractTable(table: Node, lines: LineList)
    requires table.Element?
    modifies lines
    ensures lines.items == old(lines.items) + TableLines(table)
    decreases table, 0
  {
    var rows := table.children;
    var i := 0;
    while i < |rows|
      invariant 0 <= i <= |rows|
      invariant lines.items == old(lines.items) + RowsLines(rows[..i])
    {
      var row := rows[i];
      RowsLinesSnoc(rows, i);
      if row.Element? && row.name == W("tr") {
        ExtractRow(row.children, lines);
        AppendAssociates(old(lines.items), RowsLines(rows[..i]), CellsLines(row.children));
      }
      i := i + 1;
    }
    assert rows[..i] == rows;
  }

  /** The inner loop of `ExtractTable`: each `tc` child of a row is walked
      as a container, the row's other children are ignored. */
  method ExtractRow(cells: seq<Node>, lines: LineList)
    modifies lines
    ensures lines.items == old(lines.items) + CellsLines(cells)
    decreases cells, 1
  {
    var j := 0;
    while j < |cells|
      invariant 0 <= j <= |cells|
      invariant lines.items == old(lines.items) + CellsLines(cells[..j])
    {
      var cell := cells[j];
      CellsLinesSnoc(cells, j);
      if cell.Element? && cell.name == W("tc") {
        ExtractFromContainer(cell, lines);
        AppendAssociates(old(lines.items), CellsLines(cells[..j]), ChildrenLines(cell.children));
      }
      j := j + 1;
    }
    assert cells[..j] == cells;
  }

  /** Every line is non-empty, trimmed and free of line breaks. */
  predicate CleanLines(lines: seq<string>)
  {
    forall line :: line in lines ==> line != "" && IsTrimmed(line) && '\r' !in line && '\n' !in line
  }

  /** Every line the whole walk of a container appends, through nested
      elements and table cells alike, is non-empty, trimmed and free of line
      breaks. */
  lemma ContainerLinesClean(container: Node)
    ensures CleanLines(ContainerLines(container))
  {
    if container.Element? {
      ChildrenLinesClean(container.children);
    }
  }

  lemma {:induction false} ChildrenLinesClean(ns: seq<Node>)
    ensures CleanLines(ChildrenLines(ns))
    decreases ns, 2
  {
    if ns != [] {
      ChildrenLinesClean(ns[..|ns| - 1]);
      ChildLinesClean(ns[|ns| - 1]);
    }
  }

  lemma {:induction false} ChildLinesClean(n: Node)
    ensures CleanLines(ChildLines(n))
    decreases n, 1
  {
    match n
    case Element(name, children) =>
      if name == W("p") {
        NormalizedLinesClean(ParagraphText(n));
      } else if name == W("tbl") {
        RowsLinesClean(children);
      } else {
        ChildrenLinesClean(children);
      }
    case _ =>
  }

  lemma {:induction false} RowsLinesClean(ns: seq<Node>)
    ensures CleanLines(RowsLines(ns))
    decreases ns, 2
  {
    if ns != [] {
      var last := ns[|ns| - 1];
      RowsLinesClean(ns[..|ns| - 1]);
      if last.Element? && last.name == W("tr") {
        CellsLinesClean(last.children);
      }
    }
  }

  lemma {:induction false} CellsLinesClean(ns: seq<Node>)
    ensures CleanLines(CellsLines(ns))
    decreases ns, 2
  {
    if ns != [] {
      var last := ns[|ns| - 1];
      CellsLinesClean(ns[..|ns| - 1]);
      if last.Element? && last.name == W("tc") {
        ChildrenLinesClean(last.children);
      }
    }
  }

  /** The part-name prefixes (after `word/`) whose parts are read. */
  const PartPrefixes: seq<string> := ["document", "header", "footer", "footnotes", "endnotes", "comments"]

  /** `IsRelevantWordEntry`, on the entry's full name: under `word/`, not
      under a `_rels` folder, an `.xml` part, and either the glossary
      document or a part whose name starts with one of `PartPrefixes`; every
      comparison ignores case. */
  predicate IsRelevantWordEntry(fullName: string)
  {
    if !StartsWithIgnoreCase(fullName, "word/") then false
    else if ContainsIgnoreCase(fullName, "/_rels/") then false
    else
      var relativeName := fullName[|"word/"|..];
      if !EndsWithIgnoreCase(relativeName, ".xml") then false
      else if EqualsIgnoreCase(relativeName, "glossary/document.xml") then true
      else exists k :: 0 <= k < |PartPrefixes| && StartsWithIgnoreCase(relativeName, PartPrefixes[k])
  }

  /** A relevant entry lies under `word/` and outside every `_rels` folder,
      and its name after `word/` ends in `.xml`; among such names, exactly
      the glossary document and the names starting with one of the six
      prefixes are relevant. */
  lemma IsRelevantWordEntryCharacterised(fullName: string)
    ensures IsRelevantWordEntry(fullName) ==>
      StartsWithIgnoreCase(fullName, "word/") && !ContainsIgnoreCase(fullName, "/_rels/") &&
      EndsWithIgnoreCase(fullName[5..], ".xml")
    ensures (StartsWithIgnoreCase(fullName, "word/") && !ContainsIgnoreCase(fullName, "/_rels/") &&
      EndsWithIgnoreCase(fullName[5..], ".xml")) ==>
      (IsRelevantWordEntry(fullName) <==>
        EqualsIgnoreCase(fullName[5..], "glossary/document.xml") ||
        StartsWithIgnoreCase(fullName[5..], "document") || StartsWithIgnoreCase(fullName[5..], "header") ||
        StartsWithIgnoreCase(fullName[5..], "footer") || StartsWithIgnoreCase(fullName[5..], "footnotes") ||
        StartsWithIgnoreCase(fullName[5..], "endnotes") || StartsWithIgnoreCase(fullName[5..], "comments"))
  {
    if StartsWithIgnoreCase(fullName, "word/") {
      PrefixesListed(fullName[5..]);
    }
  }

  /** Some prefix of `PartPrefixes` starts `rest` exactly when one of the six
      named ones does. */
  lemma PrefixesListed(rest: string)
    ensures (exists k :: 0 <= k < |PartPrefixes| && StartsWithIgnoreCase(rest, PartPrefixes[k])) <==>
      StartsWithIgnoreCase(rest, "document") || StartsWithIgnoreCase(rest, "header") ||
      StartsWithIgnoreCase(rest, "footer") || StartsWithIgnoreCase(rest, "footnotes") ||
      StartsWithIgnoreCase(rest, "endnotes") || StartsWithIgnoreCase(rest, "comments")
  {
    if StartsWithIgnoreCase(rest, "document") { assert StartsWithIgnoreCase(rest, PartPrefixes[0]); }
    if StartsWithIgnoreCase(rest, "header") { assert StartsWithIgnoreCase(rest, PartPrefixes[1]); }
    if StartsWithIgnoreCase(rest, "footer") { assert StartsWithIgnoreCase(rest, PartPrefixes[2]); }
    if StartsWithIgnoreCase(rest, "footnotes") { assert StartsWithIgnoreCase(rest, PartPrefixes[3]); }
    if StartsWithIgnoreCase(rest, "endnotes") { assert StartsWithIgnoreCase(rest, PartPrefixes[4]); }
    if StartsWithIgnoreCase(rest, "comments") { assert StartsWithIgnoreCase(rest, PartPrefixes[5]); }
  }

  /** The decision ignores case: a name and its lower-cased form are read
      alike. */
  lemma IsRelevantWordEntryIgnoresCase(fullName: string)
    ensures IsRelevantWordEntry(Fold(fullName)) == IsRelevantWordEntry(fullName)
  {
    var folded := Fold(fullName);
    FoldIdempotent(fullName);
    if |fullName| >= 5 {
      FoldSuffix(fullName, 5);
      var rest, foldedRest := fullName[5..], folded[5..];
      forall k | 0 <= k < |PartPrefixes|
        ensures StartsWithIgnoreCase(foldedRest, PartPrefixes[k]) == StartsWithIgnoreCase(rest, PartPrefixes[k])
      {
      }
    }
  }

  lemma FoldSuffix(s: string, n: nat)
    requires n <= |s|
    ensures Fold(s)[n..] == Fold(s[n..])
    ensures Fold(Fold(s)[n..]) == Fold(s[n..])
  {
    assert Fold(s)[n..] == Fold(s[n..]);
    FoldIdempotent(s[n..]);
  }
}
