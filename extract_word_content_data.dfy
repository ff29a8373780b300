/**
 * The flat body extractor: the text of each paragraph directly under the
 * document body is assembled from its descendants, cut at line breaks,
 * trimmed, de-duplicated in order of first occurrence, and the records
 * sorted by the comparer the replacer uses for its rules.
 */
module ExtractWordContentData {
  import opened Wrappers
  import opened Strings
  import opened Entries
  import opened XmlTree

  /** Why the extractor stops: the main part has no root or no `body`. */
  datatype ExtractError = MissingBody

  /** `document.Root?.Element(w:body)`: the first `body` child of the root,
      or none when there is no root element or it has no `body` child. */
  function BodyOf(root: Option<Node>): (r: Option<Node>)
    ensures r.Some? ==> r.value.Element? && r.value.name == W("body")
    ensures r.Some? ==> root.Some? && root.value.Element?
    ensures r.Some? ==> exists k :: FirstNamedAt(root.value.children, k, W("body")) && root.value.children[k] == r.value
    ensures r.None? <==>
      (root.None? || !root.value.Element? || forall c :: c in root.value.children ==> !IsNamed(c, W("body")))
  {
    if root.Some? && root.value.Element? then FirstChildNamed(root.value.children, W("body")) else None
  }

  /** `body.Elements(w:p)`: only the direct paragraph children are read. */
  function BodyParagraphs(body: Node): (r: seq<Node>)
    requires body.Element?
    ensures forall p :: p in r <==> p in body.children && p.Element? && p.name == W("p")
  {
    ChildrenNamed(body.children, W("p"))
  }

  /** What one descendant adds to the paragraph text: the value of a `t`, a
      tab for `tab`, a line feed for `br` and `cr`; every other element,
      `delText` and `instrText` included, adds nothing. */
  function DescendantText(d: Node): (r: string)
    ensures d.Element? && d.name == W("t") ==> r == Value(d)
    ensures d.Element? && d.name == W("tab") ==> r == "\t"
    ensures d.Element? && (d.name == W("br") || d.name == W("cr")) ==> r == "\n"
    ensures !(d.Element? && d.name in {W("t"), W("tab"), W("br"), W("cr")}) ==> r == ""
  {
    if !d.Element? then ""
    else if d.name == W("t") then Value(d)
    else if d.name == W("tab") then "\t"
    else if d.name == W("br") || d.name == W("cr") then "\n"
    else ""
  }

  function DescendantsText(ds: seq<Node>): string
  {
    if ds == [] then "" else DescendantsText(ds[..|ds| - 1]) + DescendantText(ds[|ds| - 1])
  }

  /** The text the extractor builds for a paragraph: the contributions of
      all its descendants in document order. */
  function FlatText(paragraph: Node): string
  {
    DescendantsText(Descendants(paragraph))
  }

  /** The contents one paragraph text yields: nothing for an empty text;
      otherwise the pieces between `\r\n`, `\n` and `\r`, empty pieces
      dropped, each piece trimmed, pieces that trim to nothing dropped. */
  function Fragments(text: string): seq<string>
  {
    if |text| == 0 then [] else TrimmedNonEmpty(NonEmpty(SplitLines(text)))
  }

  /** The contents one paragraph yields. */
  function ParagraphContents(paragraph: Node): seq<string>
  {
    Fragments(FlatText(paragraph))
  }

  /** The contents of a list of paragraphs, in document order, duplicates
      included, where `contents` gives those of one paragraph. */
  function Gathered(paragraphs: seq<Node>, contents: Node -> seq<string>): seq<string>
  {
    if paragraphs == [] then []
    else Gathered(paragraphs[..|paragraphs| - 1], contents) + contents(paragraphs[|paragraphs| - 1])
  }

  /** The contents of the body's paragraphs, duplicates included. */
  function AllFragments(paragraphs: seq<Node>): seq<string>
  {
    Gathered(paragraphs, ParagraphContents)
  }

  /** The contents the extractor emits before sorting. */
  function Extracted(paragraphs: seq<Node>): seq<string>
  {
    Dedup(AllFragments(paragraphs))
  }

  /** The text-building loop over `paragraph.Descendants()`. */
  method ParagraphText(paragraph: Node) returns (text: string)
    ensures text == FlatText(paragraph)
  {
    var nodes := Descendants(paragraph);
    text := "";
    var i := 0;
    while i < |nodes|
      invariant 0 <= i <= |nodes|
      invariant text == DescendantsText(nodes[..i])
    {
      assert nodes[..i + 1][..i] == nodes[..i];
      var node := nodes[i];
      if node.name == W("t") {
        text := text + Value(node);
      } else if node.name == W("tab") {
        text := text + "\t";
      } else if node.name == W("br") || node.name == W("cr") {
        text := text + "\n";
      }
      i := i + 1;
    }
    assert nodes[..i] == nodes;
  }

  /** The inner loop over the pieces of one non-empty paragraph text: each
      piece is trimmed, skipped when it trims to nothing, and otherwise
      offered to the `HashSet`. */
  method CollectFragments(text: string, unique: set<string>, results: seq<Entry>, ghost seen: seq<string>)
    returns (unique': set<string>, results': seq<Entry>)
    requires |text| != 0 && Collected(unique, results, seen)
    ensures Collected(unique', results', seen + Fragments(text))
  {
    var segments := NonEmpty(SplitLines(text));
    unique', results' := unique, results;
    ghost var acc := seen;
    var j := 0;
    while j < |segments|
      invariant 0 <= j <= |segments|
      invariant acc == seen + TrimmedNonEmpty(segments[..j])
      invariant Collected(unique', results', acc)
    {
      TrimmedNonEmptySnoc(segments, j);
      var content := Trim(segments[j]);
      if |content| != 0 {
        CollectedStep(unique', results', acc, content);
        if content !in unique' {
          unique' := unique' + {content};
          results' := results' + [Entry(Some(content), Some(""))];
        }
        acc := acc + [content];
      }
      j := j + 1;
    }
    assert segments[..j] == segments;
  }

  /** The loop over the body's paragraphs: the records of the distinct
      contents, in order of first occurrence. */
  method CollectParagraphs(paragraphs: seq<Node>) returns (results: seq<Entry>)
    ensures results == ToEntries(Extracted(paragraphs))
  {
    var unique: set<string> := {};
    results := [];
    CollectedEmpty();
    ghost var acc: seq<string> := [];
    var i := 0;
    while i < |paragraphs|
      invariant 0 <= i <= |paragraphs|
      invariant acc == AllFragments(paragraphs[..i])
      invariant Collected(unique, results, acc)
    {
      AllFragmentsSnoc(paragraphs, i);
      unique, results := CollectParagraph(paragraphs[i], unique, results, acc);
      acc := acc + ParagraphContents(paragraphs[i]);
      i := i + 1;
    }
    assert paragraphs[..i] == paragraphs;
  }

  /** One round of the paragraph loop: the paragraph's text is built, an
      empty text is skipped, and otherwise its pieces are collected. */
  method CollectParagraph(paragraph: Node, unique: set<string>, results: seq<Entry>, ghost seen: seq<string>)
    returns (unique': set<string>, results': seq<Entry>)
    requires Collected(unique, results, seen)
    ensures Collected(unique', results', seen + ParagraphContents(paragraph))
  {
    var text := ParagraphText(paragraph);
    if |text| != 0 {
      unique', results' := CollectFragments(text, unique, results, seen);
    } else {
      assert seen + Fragments(text) == seen;
      unique', results' := unique, results;
    }
  }

  lemma AllFragmentsSnoc(paragraphs: seq<Node>, i: nat)
    requires i < |paragraphs|
    ensures AllFragments(paragraphs[..i + 1]) == AllFragments(paragraphs[..i]) + ParagraphContents(paragraphs[i])
  {
    assert paragraphs[..i + 1][..i] == paragraphs[..i];
  }

  /** The extraction of `Generate`, from the loaded main part on: the body's
      paragraphs are read in order, their contents collected without
      duplicates, and the records sorted in place. */
  method Generate(root: Option<Node>) returns (r: Result<seq<Entry>, ExtractError>)
    ensures r.Failure? <==> BodyOf(root).None?
    ensures r.Success? ==>
      Sorted(r.value) &&
      multiset(r.value) == multiset(ToEntries(Extracted(BodyParagraphs(BodyOf(root).value))))
    ensures r.Success? ==>
      NoDuplicates(Origins(r.value)) &&
      forall e :: e in r.value ==> e.originContent.Some? && e.translatedContent == Some("")
  {
    var body := BodyOf(root);
    if body.None? {
      return Failure(MissingBody);
    }
    var results := CollectParagraphs(BodyParagraphs(body.value));
    var sorted := new Entry[|results|](k requires 0 <= k < |results| => results[k]);
    assert sorted[..] == results;
    SortByRank(sorted);
    r := Success(sorted[..]);
    RearrangedRecords(Extracted(BodyParagraphs(body.value)), r.value);
  }

  /** Every content a paragraph text yields is non-empty, trimmed, free of
      line breaks, and the trim of one of the text's pieces between line
      breaks; an empty text yields nothing. */
  lemma FragmentsClean(text: string)
    ensures forall x :: x in Fragments(text) ==>
      x != "" && IsTrimmed(x) && '\r' !in x && '\n' !in x &&
      exists piece :: piece in SplitLines(text) && x == Trim(piece)
    ensures |text| == 0 ==> Fragments(text) == []
  {
    if |text| != 0 {
      var pieces := NonEmpty(SplitLines(text));
      TrimmedNonEmptyMembers(pieces);
      NonEmptyMembers(SplitLines(text));
      SplitLinesChars(text);
      forall x | x in Fragments(text)
        ensures x != "" && IsTrimmed(x) && '\r' !in x && '\n' !in x &&
          exists piece :: piece in SplitLines(text) && x == Trim(piece)
      {
        var p :| p in pieces && x == Trim(p);
        TrimFacts(p);
      }
    }
  }

  /** The gathered contents are those of the single paragraphs. */
  lemma {:induction false} GatheredMembers(paragraphs: seq<Node>, contents: Node -> seq<string>)
    ensures forall x :: x in Gathered(paragraphs, contents) <==>
      exists i :: 0 <= i < |paragraphs| && x in contents(paragraphs[i])
  {
    if paragraphs != [] {
      var n := |paragraphs| - 1;
      var front := paragraphs[..n];
      GatheredMembers(front, contents);
      forall x | x in Gathered(paragraphs, contents)
        ensures exists i :: 0 <= i < |paragraphs| && x in contents(paragraphs[i])
      {
        if x in Gathered(front, contents) {
          var i :| 0 <= i < |front| && x in contents(front[i]);
          assert paragraphs[i] == front[i];
        } else {
          assert x in contents(paragraphs[n]);
        }
      }
      forall x, i | 0 <= i < |paragraphs| && x in contents(paragraphs[i])
        ensures x in Gathered(paragraphs, contents)
      {
        if i < n {
          assert front[i] == paragraphs[i];
        }
      }
    }
  }

  /** The contents of a list of paragraphs are those of its paragraphs. */
  lemma AllFragmentsMembers(paragraphs: seq<Node>)
    ensures forall x :: x in AllFragments(paragraphs) <==>
      exists i :: 0 <= i < |paragraphs| && x in Fragments(FlatText(paragraphs[i]))
  {
    GatheredMembers(paragraphs, ParagraphContents);
  }

  /** The emitted contents are distinct, and they are exactly the contents
      of the paragraphs: a content yielded by several paragraphs, or
      several times by one, is emitted once. */
  lemma ExtractedContents(paragraphs: seq<Node>)
    ensures NoDuplicates(Extracted(paragraphs))
    ensures forall x :: x in Extracted(paragraphs) <==>
      exists i :: 0 <= i < |paragraphs| && x in Fragments(FlatText(paragraphs[i]))
  {
    AllFragmentsMembers(paragraphs);
  }
}
