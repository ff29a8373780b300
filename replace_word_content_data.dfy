/**
 * The replacer: a paragraph's `w:t` elements become mutable text segments,
 * each translation rule is applied to them over and over (find the leftmost
 * occurrence in the combined text, splice it into the segments), and the
 * final segment texts are written back to the elements. Every method is
 * proved against the value-level functions of `SegmentText`.
 */
module ReplaceWordContentData {
  import opened Wrappers
  import opened Strings
  import opened Entries
  import opened SegmentText

  /** A `w:t` element, reduced to its settable text value. */
  class TextElement {
    var value: string

    constructor(value: string)
      ensures this.value == value
    {
      this.value := value;
    }
  }

  /** The current values of the elements, in order. */
  function Values(elements: seq<TextElement>): (r: seq<string>)
    reads elements
    ensures |r| == |elements| && forall i :: 0 <= i < |elements| ==> r[i] == elements[i].value
  {
    seq(|elements|, i reads elements requires 0 <= i < |elements| => elements[i].value)
  }

  /**
   * A paragraph's list of text segments. Segment `i` is the triple
   * (`elements[i]`, `texts[i]`, `starts[i]`): the element it was made from,
   * its current `Text` and its `Start`. The segments are created afresh for
   * each paragraph and never shared, so one object holding the three
   * columns stands for the list of segment objects.
   */
  class SegmentList {
    const elements: seq<TextElement>
    var texts: seq<string>
    var starts: seq<int>

    /** Every segment has its element, its text and its start. */
    predicate Valid()
      reads this
    {
      |texts| == |elements| && |starts| == |elements|
    }

    /** Every `Start` is the offset of its segment in the combined text. */
    predicate StartsRecalculated()
      reads this
    {
      |starts| == |texts| && forall i :: 0 <= i < |texts| ==> starts[i] == StartOf(texts, i)
    }

    /** One segment per element, each starting out with the element's text. */
    constructor(elements: seq<TextElement>)
      ensures this.elements == elements && texts == Values(elements)
      ensures |starts| == |elements| && forall i :: 0 <= i < |elements| ==> starts[i] == 0
      ensures Valid()
    {
      this.elements := elements;
      texts := Values(elements);
      starts := seq(|elements|, i => 0);
    }

    /** `RecalculateStarts`: every `Start` becomes the total length of the
        texts before it; the texts stay as they are. */
    method RecalculateStarts()
      requires Valid()
      modifies this
      ensures Valid() && texts == old(texts) && StartsRecalculated()
      ensures |starts| > 0 ==> starts[0] == 0
      ensures forall i :: 0 <= i < |starts| - 1 ==> starts[i + 1] == starts[i] + |texts[i]|
    {
      var offset := 0;
      var i := 0;
      while i < |texts|
        invariant Valid() && texts == old(texts)
        invariant 0 <= i <= |texts|
        invariant offset == StartOf(texts, i)
        invariant forall k :: 0 <= k < i ==> starts[k] == StartOf(texts, k)
      {
        starts := starts[i := offset];
        StartOfNext(texts, i);
        offset := offset + |texts[i]|;
        i := i + 1;
      }
      StartOfFirst(texts);
      forall i | 0 <= i < |starts| - 1 ensures starts[i + 1] == starts[i] + |texts[i]| {
        StartOfNext(texts, i);
      }
    }

    /** `FindSegmentIndex`: the first segment whose end, by its `Start`, lies
        beyond `position`, or -1. With recalculated starts this is the
        segment holding character `position` of the combined text. */
    method FindSegmentIndex(position: int) returns (r: int)
      requires Valid()
      ensures -1 <= r < |texts|
      ensures r >= 0 ==> position < starts[r] + |texts[r]|
      ensures r >= 0 ==> forall j :: 0 <= j < r ==> starts[j] + |texts[j]| <= position
      ensures r < 0 ==> forall j :: 0 <= j < |texts| ==> starts[j] + |texts[j]| <= position
      ensures StartsRecalculated() ==> r == SegmentAt(texts, position)
      ensures StartsRecalculated() && position >= 0 ==> (r >= 0 ==> texts[r] != "")
      ensures StartsRecalculated() && position >= 0 ==> (r < 0 <==> position >= |Concat(texts)|)
    {
      SegmentAtFirst(texts, position);
      if position >= 0 {
        SegmentAtHolds(texts, position);
      }
      var i := 0;
      while i < |texts|
        invariant 0 <= i <= |texts|
        invariant forall j :: 0 <= j < i ==> starts[j] + |texts[j]| <= position
      {
        var endExclusive := starts[i] + |texts[i]|;
        if position < endExclusive {
          return i;
        }
        i := i + 1;
      }
      return -1;
    }

    /** `CombineSegments`: the texts one after the other; a single segment's
        text is returned as it is. */
    method CombineSegments() returns (r: string)
      ensures r == Concat(texts)
    {
      if |texts| == 1 {
        assert texts == [texts[0]];
        ConcatSingle(texts[0]);
        return texts[0];
      }
      var builder := "";
      var i := 0;
      while i < |texts|
        invariant 0 <= i <= |texts|
        invariant builder == Concat(texts[..i])
      {
        assert texts[..i + 1] == texts[..i] + [texts[i]];
        ConcatSnoc(texts[..i], texts[i]);
        builder := builder + texts[i];
        i := i + 1;
      }
      assert texts[..i] == texts;
      r := builder;
    }

    /** `ApplyReplacement`: the `matchLength` characters at `matchStart` of
        the combined text are spliced out for `replacement`, as
        `SpliceSegments` describes; the starts are left as they were computed
        for the texts before the splice. */
    method ApplyReplacement(matchStart: int, matchLength: int, replacement: string)
      requires Valid() && 0 <= matchStart && 0 < matchLength
      modifies this
      ensures Valid()
      ensures texts == SpliceSegments(old(texts), matchStart, matchLength, replacement)
      ensures forall i :: 0 <= i < |texts| ==> starts[i] == StartOf(old(texts), i)
    {
      RecalculateStarts();
      ghost var ts := texts;
      var matchEnd := matchStart + matchLength;
      var startSegmentIndex := FindSegmentIndex(matchStart);
      var endSegmentIndex := FindSegmentIndex(matchEnd - 1);
      if startSegmentIndex < 0 || endSegmentIndex < 0 {
        SpliceSegmentsNotFound(ts, matchStart, matchLength, replacement);
        return;
      }
      SpliceMatch(startSegmentIndex, endSegmentIndex, matchStart, matchLength, replacement);
    }

    /** The rest of `ApplyReplacement` once both segments are found: the
        offsets into them come from their starts, and the writes of
        `SpliceBetween` make the texts the splice of the match. */
    method SpliceMatch(startSegmentIndex: int, endSegmentIndex: int, matchStart: int, matchLength: int,
                       replacement: string)
      requires Valid() && StartsRecalculated() && 0 <= matchStart && 0 < matchLength
      requires startSegmentIndex == SegmentAt(texts, matchStart) && startSegmentIndex >= 0
      requires endSegmentIndex == SegmentAt(texts, matchStart + matchLength - 1) && endSegmentIndex >= 0
      modifies this
      ensures Valid() && starts == old(starts)
      ensures texts == SpliceSegments(old(texts), matchStart, matchLength, replacement)
    {
      ghost var ts := texts;
      SegmentsAtMatch(ts, matchStart, matchLength, startSegmentIndex, endSegmentIndex);
      SpliceBetween(startSegmentIndex, endSegmentIndex, matchStart - starts[startSegmentIndex],
        matchStart + matchLength - starts[endSegmentIndex], replacement);
      SpliceSegmentsByIndex(ts, texts, matchStart, matchLength, replacement, startSegmentIndex, endSegmentIndex);
    }

    /** The writes of `ApplyReplacement` once the segments holding the first
        and the last matched character are known: the start segment gets its
        text before the match, the replacement and the end segment's text
        after the match, the segments after it up to the end segment are
        emptied, and every other segment keeps its text. */
    method SpliceBetween(startSegmentIndex: int, endSegmentIndex: int, startOffset: int, endOffset: int,
                         replacement: string)
      requires Valid() && 0 <= startSegmentIndex <= endSegmentIndex < |texts|
      requires 0 <= startOffset <= |texts[startSegmentIndex]| && 0 <= endOffset <= |texts[endSegmentIndex]|
      modifies this
      ensures Valid() && starts == old(starts) && |texts| == |old(texts)|
      ensures texts[startSegmentIndex] == old(texts)[startSegmentIndex][..startOffset] + replacement +
        old(texts)[endSegmentIndex][endOffset..]
      ensures forall k :: startSegmentIndex < k <= endSegmentIndex ==> texts[k] == ""
      ensures forall k :: 0 <= k < |texts| && (k < startSegmentIndex || endSegmentIndex < k) ==>
        texts[k] == old(texts)[k]
    {
      var prefix := if startOffset > 0 then texts[startSegmentIndex][..startOffset] else "";
      var suffix := if endOffset < |texts[endSegmentIndex]| then texts[endSegmentIndex][endOffset..] else "";
      assert prefix == texts[startSegmentIndex][..startOffset];
      assert suffix == texts[endSegmentIndex][endOffset..];
      texts := texts[startSegmentIndex := prefix + replacement + suffix];
      var i := startSegmentIndex + 1;
      while i <= endSegmentIndex
        invariant startSegmentIndex < i <= endSegmentIndex + 1
        invariant Valid() && starts == old(starts) && |texts| == |old(texts)|
        invariant forall k :: 0 <= k < |texts| && (k < startSegmentIndex || i <= k) ==> texts[k] == old(texts)[k]
        invariant forall k :: startSegmentIndex < k < i ==> texts[k] == ""
        invariant texts[startSegmentIndex] == prefix + replacement + suffix
      {
        texts := texts[i := ""];
        i := i + 1;
      }
    }

    /** The write-back loop: each segment's element receives the segment's
        text; the segments themselves stay as they are. */
    method WriteBack()
      requires Valid() && NoDuplicates(elements)
      modifies elements
      ensures Values(elements) == texts
    {
      var i := 0;
      while i < |elements|
        invariant 0 <= i <= |elements|
        invariant forall j :: 0 <= j < i ==> elements[j].value == texts[j]
      {
        elements[i].value := texts[i];
        i := i + 1;
      }
    }

    /** `ReplaceInSegments`: an empty target changes nothing; otherwise the
        leftmost occurrence of the target in the combined text is replaced,
        again and again, until there is none. The source's loop has no bound;
        here it stops after `fuel` replacements, and `finished` tells whether
        it stopped because the target is gone. Every round begins by
        recalculating the starts, so after a non-empty target they match the
        final texts. */
    method ReplaceInSegments(translation: Entry, fuel: nat) returns (finished: bool)
      requires Valid() && translation.originContent.Some?
      modifies this
      ensures Valid()
      ensures texts == ApplyRule(old(texts), translation, fuel)
      ensures finished <==> RuleDone(texts, translation)
      ensures Origin(translation) == "" ==> starts == old(starts)
      ensures Origin(translation) != "" ==> StartsRecalculated()
    {
      var target := translation.originContent.value;
      if |target| == 0 {
        return true;
      }
      var replacement := translation.translatedContent.GetOr("");
      var rounds := 0;
      while true
        invariant Valid() && 0 <= rounds <= fuel
        invariant RuleOnSegments(texts, target, replacement, fuel - rounds) ==
          RuleOnSegments(old(texts), target, replacement, fuel)
        decreases fuel - rounds
      {
        RecalculateStarts();
        var combined := CombineSegments();
        var index := IndexOf(combined, target);
        if index < 0 {
          return true;
        }
        if rounds == fuel {
          return false;
        }
        RuleOnSegmentsStep(texts, target, replacement, fuel - rounds);
        ApplyReplacement(index, |target|, replacement);
        rounds := rounds + 1;
      }
    }
  }

  /** The body of the paragraph loop of `Generate`: a paragraph without
      `w:t` elements is skipped; otherwise its elements become segments, every
      rule is applied in list order, and each element receives its segment's
      final text. `allFinished` tells whether every rule ran until its target
      was gone, that is, whether the bound on the rounds never cut one off. */
  method ReplaceInParagraph(textElements: seq<TextElement>, rules: seq<Entry>, fuel: nat)
    returns (allFinished: bool)
    requires NoDuplicates(textElements)
    requires forall k :: 0 <= k < |rules| ==> rules[k].originContent.Some?
    modifies textElements
    ensures Values(textElements) == ApplyRules(old(Values(textElements)), rules, fuel)
    ensures allFinished == RulesDone(old(Values(textElements)), rules, fuel)
  {
    if |textElements| == 0 {
      RulesDoneOnNothing(rules, fuel);
      return true;
    }
    var segments := new SegmentList(textElements);
    allFinished := true;
    var k := 0;
    while k < |rules|
      invariant 0 <= k <= |rules|
      invariant segments.Valid() && |segments.texts| == |textElements|
      invariant segments.texts == ApplyRules(old(Values(textElements)), rules[..k], fuel)
      invariant allFinished == RulesDone(old(Values(textElements)), rules[..k], fuel)
      invariant Values(textElements) == old(Values(textElements))
    {
      assert rules[..k + 1][..k] == rules[..k];
      var finished := segments.ReplaceInSegments(rules[k], fuel);
      allFinished := allFinished && finished;
      k := k + 1;
    }
    assert rules[..k] == rules;
    segments.WriteBack();
  }

  /** The text elements of the paragraphs, all together. */
  function ElementsOf(paragraphs: seq<seq<TextElement>>): (r: set<TextElement>)
    ensures forall i, j :: 0 <= i < |paragraphs| && 0 <= j < |paragraphs[i]| ==> paragraphs[i][j] in r
  {
    set i, j | 0 <= i < |paragraphs| && 0 <= j < |paragraphs[i]| :: paragraphs[i][j]
  }

  /** No text element belongs to two paragraphs. */
  predicate Disjoint(paragraphs: seq<seq<TextElement>>)
  {
    forall i, j, e :: 0 <= i < j < |paragraphs| && e in paragraphs[i] ==> e !in paragraphs[j]
  }

  /** The paragraph loop of `Generate`, over the `w:t` elements of each
      paragraph in document order. When no element belongs to two paragraphs,
      each paragraph ends up with the rules applied to its own texts, and
      `allFinished` tells whether every rule finished in every paragraph. */
  method ReplaceInDocument(paragraphs: seq<seq<TextElement>>, rules: seq<Entry>, fuel: nat)
    returns (allFinished: bool)
    requires forall i :: 0 <= i < |paragraphs| ==> NoDuplicates(paragraphs[i])
    requires forall k :: 0 <= k < |rules| ==> rules[k].originContent.Some?
    modifies ElementsOf(paragraphs)
    ensures Disjoint(paragraphs) ==> forall i :: 0 <= i < |paragraphs| ==>
      Values(paragraphs[i]) == ApplyRules(old(Values(paragraphs[i])), rules, fuel)
    ensures Disjoint(paragraphs) ==>
      (allFinished <==> forall i :: 0 <= i < |paragraphs| ==> RulesDone(old(Values(paragraphs[i])), rules, fuel))
  {
    allFinished := true;
    var i := 0;
    while i < |paragraphs|
      invariant 0 <= i <= |paragraphs|
      invariant Disjoint(paragraphs) ==> forall j :: 0 <= j < i ==>
        Values(paragraphs[j]) == ApplyRules(old(Values(paragraphs[j])), rules, fuel)
      invariant Disjoint(paragraphs) ==>
        (allFinished <==> forall j :: 0 <= j < i ==> RulesDone(old(Values(paragraphs[j])), rules, fuel))
      invariant Disjoint(paragraphs) ==> forall j :: i <= j < |paragraphs| ==>
        Values(paragraphs[j]) == old(Values(paragraphs[j]))
    {
      var finished := ReplaceInParagraphOf(paragraphs, i, rules, fuel);
      allFinished := allFinished && finished;
      i := i + 1;
    }
  }

  /** One turn of the paragraph loop: paragraph `i` is processed, and when no
      element belongs to two paragraphs every other paragraph keeps its
      values. */
  method ReplaceInParagraphOf(paragraphs: seq<seq<TextElement>>, i: nat, rules: seq<Entry>, fuel: nat)
    returns (finished: bool)
    requires i < |paragraphs| && NoDuplicates(paragraphs[i])
    requires forall k :: 0 <= k < |rules| ==> rules[k].originContent.Some?
    modifies paragraphs[i]
    ensures Values(paragraphs[i]) == ApplyRules(old(Values(paragraphs[i])), rules, fuel)
    ensures finished == RulesDone(old(Values(paragraphs[i])), rules, fuel)
    ensures Disjoint(paragraphs) ==> forall j :: 0 <= j < |paragraphs| && j != i ==>
      Values(paragraphs[j]) == old(Values(paragraphs[j]))
  {
    finished := ReplaceInParagraph(paragraphs[i], rules, fuel);
    if Disjoint(paragraphs) {
      forall j, k | 0 <= j < |paragraphs| && j != i && 0 <= k < |paragraphs[j]|
        ensures paragraphs[j][k] !in paragraphs[i]
      {
        var e := paragraphs[j][k];
        assert e in paragraphs[j];
      }
    }
  }

  /** A record that survives `RemoveAll`: its original is neither `null` nor
      empty nor whitespace only. */
  predicate IsRule(e: Entry)
  {
    e.originContent.Some? && !IsBlank(e.originContent.value)
  }

  /** `RemoveAll(e => string.IsNullOrWhiteSpace(e.OriginContent))`: every
      rule is kept as often as it occurs, every other record is dropped. */
  function RemoveBlankOrigins(entries: seq<Entry>): (r: seq<Entry>)
    ensures forall e :: multiset(r)[e] == if IsRule(e) then multiset(entries)[e] else 0
  {
    if entries == [] then []
    else
      var front, last := entries[..|entries| - 1], entries[|entries| - 1];
      assert entries == front + [last];
      RemoveBlankOrigins(front) + if IsRule(last) then [last] else []
  }

  /** `ReadTranslations` after the JSON text is parsed (`json` is `None` for
      a JSON `null`): the records without an original are removed and the
      rest sorted longest original first, equal lengths in ordinal order. */
  method ReadTranslations(json: Option<seq<Entry>>) returns (rules: seq<Entry>)
    ensures forall e :: multiset(rules)[e] == if IsRule(e) then multiset(json.GetOr([]))[e] else 0
    ensures forall k :: 0 <= k < |rules| ==> IsRule(rules[k])
    ensures Sorted(rules)
    ensures forall i, j :: 0 <= i < j < |rules| ==> Utf16Length(Origin(rules[i])) >= Utf16Length(Origin(rules[j]))
  {
    var entries := json.GetOr([]);
    entries := RemoveBlankOrigins(entries);
    var a := new Entry[|entries|](i requires 0 <= i < |entries| => entries[i]);
    assert a[..] == entries;
    SortByRank(a);
    rules := a[..];
    forall k | 0 <= k < |rules| ensures IsRule(rules[k]) {
      assert multiset(rules)[rules[k]] > 0;
    }
  }

  /** `Generate` once the files are opened and the document parsed: an empty
      rule list leaves the document as it is; otherwise every paragraph is
      processed in document order. `allFinished` tells whether every rule
      finished in every paragraph. */
  method Generate(json: Option<seq<Entry>>, paragraphs: seq<seq<TextElement>>, fuel: nat)
    returns (rules: seq<Entry>, allFinished: bool)
    requires forall i :: 0 <= i < |paragraphs| ==> NoDuplicates(paragraphs[i])
    modifies ElementsOf(paragraphs)
    ensures forall e :: multiset(rules)[e] == if IsRule(e) then multiset(json.GetOr([]))[e] else 0
    ensures Sorted(rules)
    ensures |rules| == 0 ==> allFinished && forall i, k :: 0 <= i < |paragraphs| && 0 <= k < |paragraphs[i]| ==>
      paragraphs[i][k].value == old(paragraphs[i][k].value)
    ensures Disjoint(paragraphs) ==> forall i :: 0 <= i < |paragraphs| ==>
      Values(paragraphs[i]) == ApplyRules(old(Values(paragraphs[i])), rules, fuel)
    ensures Disjoint(paragraphs) ==>
      (allFinished <==> forall i :: 0 <= i < |paragraphs| ==> RulesDone(old(Values(paragraphs[i])), rules, fuel))
  {
    rules := ReadTranslations(json);
    if |rules| == 0 {
      allFinished := true;
      forall i | 0 <= i < |paragraphs|
        ensures Values(paragraphs[i]) == ApplyRules(old(Values(paragraphs[i])), rules, fuel)
        ensures RulesDone(old(Values(paragraphs[i])), rules, fuel)
      {
      }
    } else {
      allFinished := ReplaceInDocument(paragraphs, rules, fuel);
    }
  }

  /** A match inside one run: `"lo wo"` in the runs `"Hel"`, `"lo wor"`,
      `"ld"` becomes `"XX"` in the run where the match begins, and the rest of
      that run stays behind it. */
  lemma MatchInsideOneRun()
    ensures ApplyRule(["Hel", "lo wor", "ld"], Entry(Some("lo wo"), Some("XX")), 1) == ["Hel", "XXr", "ld"]
  {
    var ts := ["Hel", "lo wor", "ld"];
    ExampleText();
    ExampleIndex();
    ExampleSegments();
    SpliceSegmentsByIndex(ts, ["Hel", "XXr", "ld"], 3, 5, "XX", 1, 1);
  }

  lemma ExampleText()
    ensures Concat(["Hel", "lo wor", "ld"]) == "Hello world"
  {
    var ts := ["Hel", "lo wor", "ld"];
    assert ts[..2] == ["Hel", "lo wor"] && ts[..2][..1] == ["Hel"] && ["Hel"][..0] == [];
  }

  lemma ExampleIndex()
    ensures IndexOf("Hello world", "lo wo") == 3
  {
    var text := "Hello world";
    assert text[0..5][0] == 'H' && text[1..6][0] == 'e' && text[2..7][1] == 'l';
    assert OccursAt(text, "lo wo", 3);
    assert IndexOfFrom(text, "lo wo", 3) == 3;
  }

  lemma ExampleSegments()
    ensures StartOf(["Hel", "lo wor", "ld"], 1) == 3
    ensures SegmentAt(["Hel", "lo wor", "ld"], 3) == 1 && SegmentAt(["Hel", "lo wor", "ld"], 7) == 1
  {
    var ts := ["Hel", "lo wor", "ld"];
    assert StartOf(ts, 0) == 0 && StartOf(ts, 1) == 3 by {
      assert ts[..0] == [] && ts[..1] == ["Hel"] && ["Hel"][..0] == [];
    }
    assert SegmentAtFrom(ts, 3, 1) == 1 && SegmentAtFrom(ts, 7, 1) == 1;
  }
}
