/**
 * The pattern-based extractor: the raw text of the main part is scanned
 * left to right for `w:t` elements with the expression
 * `<w:t(?:\s[^>]*)?>(.*?)</w:t>` (single-line mode), and the captured texts
 * are filtered, trimmed and de-duplicated in order of first occurrence.
 * The expression is stated twice: as the set of matches it admits at a
 * position, and as the deterministic scanner the regular-expression engine
 * realises; the two are proved to agree.
 */
module ExtractXmlContentData {
  import opened Wrappers
  import opened Strings
  import opened Entries

  const OpenTag: string := "<w:t"
  const CloseTag: string := "</w:t>"
  const TitlePageTag: string := "<w:titlePg/>"

  /** One match: it starts at `start`, its capture is
      `s[captureStart..captureEnd]`, and the closing tag follows. */
  datatype Match = Match(start: nat, captureStart: nat, captureEnd: nat)

  /** The position just past a match. */
  function MatchEnd(m: Match): nat
  {
    m.captureEnd + |CloseTag|
  }

  /** The expression matches `s` from `i` with the capture `s[b..e]`:
      `<w:t` at `i`; then either `>` straight away, or a whitespace
      character, characters other than `>`, and `>`, ending before `b`;
      then `</w:t>` at `e`. */
  ghost predicate IsMatch(s: string, i: nat, b: nat, e: nat)
  {
    OccursAt(s, OpenTag, i) && i + 5 <= b <= e && OccursAt(s, CloseTag, e) &&
    s[b - 1] == '>' &&
    (b == i + 5 || (IsWhitespace(s[i + 4]) && forall k :: i + 5 <= k < b - 1 ==> s[k] != '>'))
  }

  /** The first position at or after `k` where `t` occurs in `s`, if any:
      the left-to-right search of the regular-expression engine. */
  function FindFrom(s: string, t: string, k: nat): (r: Option<nat>)
    ensures r.Some? ==> k <= r.value && r.value + |t| <= |s|
    decreases |s| - k
  {
    if k + |t| > |s| then None
    else if s[k..k + |t|] == t then Some(k)
    else FindFrom(s, t, k + 1)
  }

  /** `FindFrom` finds an occurrence, the first one. */
  lemma {:induction false} FindFromFacts(s: string, t: string, k: nat)
    ensures FindFrom(s, t, k).Some? ==> OccursAt(s, t, FindFrom(s, t, k).value)
    ensures FindFrom(s, t, k).Some? ==> forall j :: k <= j < FindFrom(s, t, k).value ==> !OccursAt(s, t, j)
    ensures FindFrom(s, t, k).None? ==> forall j :: k <= j ==> !OccursAt(s, t, j)
    decreases |s| - k
  {
    if k + |t| <= |s| && s[k..k + |t|] != t {
      FindFromFacts(s, t, k + 1);
    }
  }

  /** The end of the opening tag at `i`, if there is one there: the
      optional group is tried first, and its `[^>]*` stops at the first `>`. */
  function OpenTagEnd(s: string, i: nat): (r: Option<nat>)
    ensures r.Some? ==> i + 5 <= r.value <= |s|
  {
    if !OccursAt(s, OpenTag, i) || i + 4 >= |s| then None
    else if s[i + 4] == '>' then Some(i + 5)
    else if IsWhitespace(s[i + 4]) then
      match FindFrom(s, ">", i + 5)
      case None => None
      case Some(g) => Some(g + 1)
    else None
  }

  /** The match at `i`, if any: the lazy `(.*?)` stops at the first
      `</w:t>` after the opening tag. */
  function MatchAt(s: string, i: nat): (r: Option<Match>)
    ensures r.Some? ==> r.value.start == i && i + 5 <= r.value.captureStart <= r.value.captureEnd
    ensures r.Some? ==> MatchEnd(r.value) <= |s|
  {
    match OpenTagEnd(s, i)
    case None => None
    case Some(b) =>
      match FindFrom(s, CloseTag, b)
      case None => None
      case Some(e) => Some(Match(i, b, e))
  }

  /** What the scanner finds at `i` is a match the expression admits, and
      its capture holds no closing tag. */
  lemma MatchAtSound(s: string, i: nat)
    requires MatchAt(s, i).Some?
    ensures IsMatch(s, i, MatchAt(s, i).value.captureStart, MatchAt(s, i).value.captureEnd)
    ensures forall j :: MatchAt(s, i).value.captureStart <= j < MatchAt(s, i).value.captureEnd ==>
      !OccursAt(s, CloseTag, j)
  {
    OpenTagEndSound(s, i);
    FindFromFacts(s, CloseTag, OpenTagEnd(s, i).value);
  }

  /** The opening tag the scanner finds is one the expression admits. */
  lemma OpenTagEndSound(s: string, i: nat)
    requires OpenTagEnd(s, i).Some?
    ensures OccursAt(s, OpenTag, i) && s[OpenTagEnd(s, i).value - 1] == '>'
    ensures OpenTagEnd(s, i).value == i + 5 || (IsWhitespace(s[i + 4]) &&
      forall k :: i + 5 <= k < OpenTagEnd(s, i).value - 1 ==> s[k] != '>')
  {
    var b := OpenTagEnd(s, i).value;
    if b != i + 5 {
      FindFromFacts(s, ">", i + 5);
      forall k | i + 5 <= k < b - 1 ensures s[k] != '>' {
        assert !OccursAt(s, ">", k);
      }
      assert OccursAt(s, ">", b - 1);
    }
  }

  /** The scanner misses no match the expression admits at `i`, and of
      those it finds the one with the shortest capture: the opening tag is
      determined, and the capture ends at the first closing tag. */
  lemma MatchAtComplete(s: string, i: nat, b: nat, e: nat)
    requires IsMatch(s, i, b, e)
    ensures MatchAt(s, i).Some?
    ensures MatchAt(s, i).value.captureStart == b && MatchAt(s, i).value.captureEnd <= e
  {
    OpenTagDetermined(s, i, b, e);
    FindFromFacts(s, CloseTag, b);
  }

  /** An admitted match has the opening tag the scanner finds. */
  lemma OpenTagDetermined(s: string, i: nat, b: nat, e: nat)
    requires IsMatch(s, i, b, e)
    ensures OpenTagEnd(s, i) == Some(b)
  {
    if b != i + 5 {
      assert s[i + 4] != '>';
      assert s[b - 1 .. b] == ">";
      assert OccursAt(s, ">", b - 1);
      FindFromFacts(s, ">", i + 5);
      var g := FindFrom(s, ">", i + 5).value;
      assert s[g..g + 1] == ">";
      assert s[g] == '>';
      assert g == b - 1;
    } else {
      assert s[i + 4] == '>';
    }
  }

  /** `Regex.Matches`: from `i` on, the leftmost match, then the matches
      after its end. */
  function MatchesFrom(s: string, i: nat): seq<Match>
    decreases |s| - i
  {
    if i >= |s| then []
    else
      match MatchAt(s, i)
      case None => MatchesFrom(s, i + 1)
      case Some(m) => [m] + MatchesFrom(s, MatchEnd(m))
  }

  /** Every match found is the scanner's match at its start. */
  lemma {:induction false} MatchesFromFound(s: string, i: nat)
    ensures forall k :: 0 <= k < |MatchesFrom(s, i)| ==>
      i <= MatchesFrom(s, i)[k].start && MatchAt(s, MatchesFrom(s, i)[k].start) == Some(MatchesFrom(s, i)[k])
    decreases |s| - i
  {
    if i < |s| {
      if MatchAt(s, i).None? {
        assert MatchesFrom(s, i) == MatchesFrom(s, i + 1);
        MatchesFromFound(s, i + 1);
      } else {
        var m := MatchAt(s, i).value;
        MatchesFromFound(s, MatchEnd(m));
        var rest := MatchesFrom(s, MatchEnd(m));
        var r := MatchesFrom(s, i);
        assert r == [m] + rest;
        forall k | 1 <= k < |r| ensures i <= r[k].start && MatchAt(s, r[k].start) == Some(r[k]) {
          assert r[k] == rest[k - 1];
        }
      }
    }
  }

  /** The matches found do not overlap: each starts at or after the end of
      the one before it. */
  lemma {:induction false} MatchesFromOrdered(s: string, i: nat)
    ensures forall k :: 0 <= k < |MatchesFrom(s, i)| - 1 ==>
      MatchEnd(MatchesFrom(s, i)[k]) <= MatchesFrom(s, i)[k + 1].start
    decreases |s| - i
  {
    if i < |s| {
      if MatchAt(s, i).None? {
        assert MatchesFrom(s, i) == MatchesFrom(s, i + 1);
        MatchesFromOrdered(s, i + 1);
      } else {
        var m := MatchAt(s, i).value;
        MatchesFromOrdered(s, MatchEnd(m));
        MatchesFromStartsAfter(s, MatchEnd(m));
        var rest := MatchesFrom(s, MatchEnd(m));
        var r := MatchesFrom(s, i);
        assert r == [m] + rest;
        forall k | 0 <= k < |r| - 1 ensures MatchEnd(r[k]) <= r[k + 1].start {
          assert r[k + 1] == rest[k];
          if k > 0 {
            assert r[k] == rest[k - 1];
          }
        }
      }
    }
  }

  /** The first match found from `i` starts at or after `i`. */
  lemma {:induction false} MatchesFromStartsAfter(s: string, i: nat)
    ensures MatchesFrom(s, i) != [] ==> i <= MatchesFrom(s, i)[0].start
    decreases |s| - i
  {
    if i < |s| && MatchAt(s, i).None? {
      MatchesFromStartsAfter(s, i + 1);
    }
  }

  /** Where the scan from `i` finds its first match, or the end of `s`. */
  function FirstStart(s: string, i: nat): nat
  {
    var r := MatchesFrom(s, i);
    if r == [] then |s| else r[0].start
  }

  /** No match starts before the first match found from `i`. */
  lemma {:induction false} MatchesFromFirst(s: string, i: nat)
    ensures forall j :: i <= j < FirstStart(s, i) ==> MatchAt(s, j).None?
    decreases |s| - i
  {
    if i < |s| && MatchAt(s, i).None? {
      MatchesFromFirst(s, i + 1);
    }
  }

  /** Each match found after the first is the first match from the end of
      the one before it. */
  lemma {:induction false} MatchesFromNext(s: string, i: nat)
    ensures forall k :: 0 <= k < |MatchesFrom(s, i)| - 1 ==>
      MatchesFrom(s, i)[k + 1].start == FirstStart(s, MatchEnd(MatchesFrom(s, i)[k]))
    decreases |s| - i
  {
    if i < |s| {
      if MatchAt(s, i).None? {
        assert MatchesFrom(s, i) == MatchesFrom(s, i + 1);
        MatchesFromNext(s, i + 1);
      } else {
        var m := MatchAt(s, i).value;
        var rest := MatchesFrom(s, MatchEnd(m));
        var r := MatchesFrom(s, i);
        assert r == [m] + rest;
        MatchesFromNext(s, MatchEnd(m));
        forall k | 0 <= k < |r| - 1 ensures r[k + 1].start == FirstStart(s, MatchEnd(r[k])) {
          if k > 0 {
            assert r[k] == rest[k - 1] && r[k + 1] == rest[k];
          }
        }
      }
    }
  }

  /** No match is missed: none starts before the first match found, nor
      between the end of one match found and the start of the next. */
  lemma MatchesFromLeftmost(s: string, i: nat)
    ensures forall j :: i <= j < FirstStart(s, i) ==> MatchAt(s, j).None?
    ensures forall k, j ::
      (0 <= k < |MatchesFrom(s, i)| - 1 && MatchEnd(MatchesFrom(s, i)[k]) <= j < MatchesFrom(s, i)[k + 1].start) ==>
      MatchAt(s, j).None?
  {
    MatchesFromFirst(s, i);
    MatchesFromNext(s, i);
    var r := MatchesFrom(s, i);
    forall k | 0 <= k < |r| - 1 ensures forall j :: MatchEnd(r[k]) <= j < r[k + 1].start ==> MatchAt(s, j).None? {
      MatchesFromFirst(s, MatchEnd(r[k]));
    }
  }

  /** The captured texts, raw: no entity is unescaped. */
  function Captures(s: string): seq<string>
  {
    var ms := MatchesFrom(s, 0);
    MatchesFromFound(s, 0);
    seq(|ms|, k requires 0 <= k < |ms| => s[ms[k].captureStart..ms[k].captureEnd])
  }

  /** What one capture contributes: nothing when its text, leading
      whitespace skipped, starts with `<w:titlePg/>`; otherwise its trim,
      unless that is empty. */
  function KeptCapture(inner: string): seq<string>
  {
    if StartsWith(TrimStart(inner), TitlePageTag) then [] else TrimmedLine(inner)
  }

  /** The contents the captures yield, in order, duplicates included. */
  function Kept(captures: seq<string>): seq<string>
  {
    if captures == [] then [] else Kept(captures[..|captures| - 1]) + KeptCapture(captures[|captures| - 1])
  }

  lemma KeptSnoc(captures: seq<string>, i: nat)
    requires i < |captures|
    ensures Kept(captures[..i + 1]) == Kept(captures[..i]) + KeptCapture(captures[i])
  {
    assert captures[..i + 1][..i] == captures[..i];
  }

  /** The extraction of `Generate`, from the read text on: the loop over the
      matches, with the title-page skip, the trim, the empty skip and the
      `HashSet` filter. The records are not sorted. */
  method Generate(xmlContent: string) returns (results: seq<Entry>)
    ensures results == ToEntries(Dedup(Kept(Captures(xmlContent))))
  {
    var captures := Captures(xmlContent);
    var unique: set<string> := {};
    results := [];
    CollectedEmpty();
    ghost var acc: seq<string> := [];
    var i := 0;
    while i < |captures|
      invariant 0 <= i <= |captures|
      invariant acc == Kept(captures[..i])
      invariant Collected(unique, results, acc)
    {
      KeptSnoc(captures, i);
      unique, results := CollectCapture(captures[i], unique, results, acc);
      acc := acc + KeptCapture(captures[i]);
      i := i + 1;
    }
    assert captures[..i] == captures;
  }

  /** One round of the match loop of `Generate`: a title-page capture and a
      capture that trims to nothing are skipped; otherwise the trimmed
      content goes through the `HashSet` filter. */
  method CollectCapture(inner: string, unique: set<string>, results: seq<Entry>, ghost seen: seq<string>)
    returns (unique': set<string>, results': seq<Entry>)
    requires Collected(unique, results, seen)
    ensures Collected(unique', results', seen + KeptCapture(inner))
  {
    unique', results' := unique, results;
    if StartsWith(TrimStart(inner), TitlePageTag) {
      assert seen + KeptCapture(inner) == seen;
      return;
    }
    var content := Trim(inner);
    if |content| == 0 {
      assert seen + KeptCapture(inner) == seen;
      return;
    }
    CollectedStep(unique, results, seen, content);
    if content !in unique {
      unique' := unique + {content};
      results' := results + [Entry(Some(content), Some(""))];
    }
  }

  /** Every content kept is non-empty, trimmed, and the trim of a capture
      whose text, leading whitespace skipped, does not start with
      `<w:titlePg/>`. */
  lemma {:induction false} KeptClean(captures: seq<string>)
    ensures forall x :: x in Kept(captures) ==>
      x != "" && IsTrimmed(x) &&
      exists c :: c in captures && x == Trim(c) && !StartsWith(TrimStart(c), TitlePageTag)
  {
    if captures != [] {
      var front, last := captures[..|captures| - 1], captures[|captures| - 1];
      KeptClean(front);
      TrimFacts(last);
      assert captures == front + [last];
    }
  }

  /** The extracted contents are distinct and clean, and they keep the order
      in which they first occur among the kept captures. */
  lemma ExtractedXmlContents(xmlContent: string)
    ensures NoDuplicates(Dedup(Kept(Captures(xmlContent))))
    ensures forall x :: x in Dedup(Kept(Captures(xmlContent))) ==>
      x != "" && IsTrimmed(x) &&
      exists c :: c in Captures(xmlContent) && x == Trim(c) && !StartsWith(TrimStart(c), TitlePageTag)
    ensures forall i, j :: 0 <= i < j < |Dedup(Kept(Captures(xmlContent)))| ==>
      FirstIndex(Kept(Captures(xmlContent)), Dedup(Kept(Captures(xmlContent)))[i]) <
      FirstIndex(Kept(Captures(xmlContent)), Dedup(Kept(Captures(xmlContent)))[j])
  {
    KeptClean(Captures(xmlContent));
    DedupKeepsFirstOccurrenceOrder(Kept(Captures(xmlContent)));
  }
}
