/**
 * The texts of a paragraph's `w:t` segments as a value, `seq<string>`, and
 * what the replacer does to them: the combined text, each segment's start
 * offset, the lookup of the segment holding an offset, the splice of one
 * match into the segments, and the repeated application of a rule. The
 * methods of `ReplaceWordContentData` are proved against these functions.
 */
module SegmentText {
  import opened Wrappers
  import opened Strings
  import opened Entries

  /** The in-order concatenation of the segment texts. */
  function Concat(ts: seq<string>): string
  {
    if ts == [] then "" else Concat(ts[..|ts| - 1]) + ts[|ts| - 1]
  }

  lemma ConcatSnoc(ts: seq<string>, t: string)
    ensures Concat(ts + [t]) == Concat(ts) + t
  {
    assert (ts + [t])[..|ts|] == ts;
  }

  /** The combined text splits at every segment boundary. */
  lemma {:induction false} ConcatSplit(ts: seq<string>, i: nat)
    requires i <= |ts|
    ensures Concat(ts) == Concat(ts[..i]) + Concat(ts[i..])
    decreases |ts|
  {
    if i == |ts| {
      assert ts[..i] == ts;
      assert ts[i..] == [];
    } else {
      var front, last := ts[..|ts| - 1], ts[|ts| - 1];
      ConcatSplit(front, i);
      assert front[..i] == ts[..i];
      assert ts[i..] == front[i..] + [last];
      ConcatSnoc(front[i..], last);
      var a, b := Concat(ts[..i]), Concat(front[i..]);
      assert Concat(ts) == a + b + last;
      assert a + b + last == a + (b + last);
    }
  }

  /** Segments that are all empty contribute nothing. */
  lemma {:induction false} ConcatOfEmpties(ts: seq<string>)
    requires forall k :: 0 <= k < |ts| ==> ts[k] == ""
    ensures Concat(ts) == ""
  {
    if ts != [] {
      ConcatOfEmpties(ts[..|ts| - 1]);
    }
  }

  /** The offset of segment `i` in the combined text, as `RecalculateStarts`
      sets `Start`. */
  function StartOf(ts: seq<string>, i: nat): nat
    requires i <= |ts|
  {
    |Concat(ts[..i])|
  }

  lemma StartOfFirst(ts: seq<string>)
    ensures StartOf(ts, 0) == 0
  {
    assert ts[..0] == [];
  }

  /** Consecutive starts differ by the length of the segment between them. */
  lemma StartOfNext(ts: seq<string>, i: nat)
    requires i < |ts|
    ensures StartOf(ts, i + 1) == StartOf(ts, i) + |ts[i]|
  {
    assert ts[..i + 1][..i] == ts[..i];
  }

  lemma StartOfLast(ts: seq<string>)
    ensures StartOf(ts, |ts|) == |Concat(ts)|
  {
    assert ts[..|ts|] == ts;
  }

  /** Starts never decrease along the segments. */
  lemma {:induction false} StartOfMonotone(ts: seq<string>, i: nat, j: nat)
    requires i <= j <= |ts|
    ensures StartOf(ts, i) <= StartOf(ts, j)
    decreases j - i
  {
    if i < j {
      StartOfNext(ts, j - 1);
      StartOfMonotone(ts, i, j - 1);
    }
  }

  /** The scan of `FindSegmentIndex` from segment `i` on. */
  function SegmentAtFrom(ts: seq<string>, pos: int, i: nat): (r: int)
    requires i <= |ts|
    decreases |ts| - i
    ensures r == -1 || i <= r < |ts|
  {
    if i == |ts| then -1
    else if pos < StartOf(ts, i) + |ts[i]| then i
    else SegmentAtFrom(ts, pos, i + 1)
  }

  /** The scan stops at the first segment from `i` on whose end lies beyond
      `pos`, and fails only when there is none. */
  lemma {:induction false} SegmentAtFromFirst(ts: seq<string>, pos: int, i: nat)
    requires i <= |ts|
    decreases |ts| - i
    ensures var r := SegmentAtFrom(ts, pos, i);
      (r >= 0 ==> pos < StartOf(ts, r) + |ts[r]|) &&
      (r >= 0 ==> forall j {:trigger StartOf(ts, j)} :: i <= j < r ==> StartOf(ts, j) + |ts[j]| <= pos) &&
      (r < 0 ==> forall j {:trigger StartOf(ts, j)} :: i <= j < |ts| ==> StartOf(ts, j) + |ts[j]| <= pos)
  {
    if i < |ts| && pos >= StartOf(ts, i) + |ts[i]| {
      SegmentAtFromFirst(ts, pos, i + 1);
    }
  }

  /** `FindSegmentIndex` with recalculated starts: the index of a segment,
      or -1. */
  function SegmentAt(ts: seq<string>, pos: int): (r: int)
    ensures -1 <= r < |ts|
  {
    SegmentAtFrom(ts, pos, 0)
  }

  /** The segment found is the first one whose end lies beyond `pos`; -1
      means every segment ends at or before `pos`. */
  lemma SegmentAtFirst(ts: seq<string>, pos: int)
    ensures var r := SegmentAt(ts, pos);
      (r >= 0 ==> pos < StartOf(ts, r) + |ts[r]|) &&
      (r >= 0 ==> forall j {:trigger StartOf(ts, j)} :: 0 <= j < r ==> StartOf(ts, j) + |ts[j]| <= pos) &&
      (r < 0 ==> forall j {:trigger StartOf(ts, j)} :: 0 <= j < |ts| ==> StartOf(ts, j) + |ts[j]| <= pos)
  {
    SegmentAtFromFirst(ts, pos, 0);
  }

  /** For an offset inside the text, the segment found holds that offset:
      it starts at or before it, so it is never an empty segment; and -1 is
      returned exactly for offsets at or past the end of the text. */
  lemma SegmentAtHolds(ts: seq<string>, pos: int)
    requires pos >= 0
    ensures SegmentAt(ts, pos) >= 0 ==>
      StartOf(ts, SegmentAt(ts, pos)) <= pos < StartOf(ts, SegmentAt(ts, pos)) + |ts[SegmentAt(ts, pos)]| &&
      ts[SegmentAt(ts, pos)] != ""
    ensures SegmentAt(ts, pos) < 0 <==> pos >= |Concat(ts)|
  {
    var r := SegmentAt(ts, pos);
    SegmentAtFirst(ts, pos);
    StartOfLast(ts);
    if r > 0 {
      StartOfNext(ts, r - 1);
    } else if r == 0 {
      StartOfFirst(ts);
    }
    if r >= 0 {
      StartOfNext(ts, r);
      StartOfMonotone(ts, r + 1, |ts|);
    } else if ts != [] {
      StartOfNext(ts, |ts| - 1);
    }
  }

  /** `n` empty segments. */
  function Blanks(n: nat): (r: seq<string>)
    ensures |r| == n && forall k :: 0 <= k < n ==> r[k] == ""
  {
    if n == 0 then [] else Blanks(n - 1) + [""]
  }

  /** `ApplyReplacement` on the segment texts: the segment holding the match
      start becomes its text before the match, the replacement and the text
      of the segment holding the match end after the match; the segments
      after it up to that end segment become empty. When either offset lies
      past the text, nothing changes. */
  function SpliceSegments(ts: seq<string>, matchStart: int, matchLength: int, replacement: string): (r: seq<string>)
    requires 0 <= matchStart && 0 < matchLength
    ensures |r| == |ts|
  {
    var si := SegmentAt(ts, matchStart);
    var ei := SegmentAt(ts, matchStart + matchLength - 1);
    if si < 0 || ei < 0 then ts
    else
      SegmentAtFirst(ts, matchStart);
      SegmentAtHolds(ts, matchStart);
      SegmentAtHolds(ts, matchStart + matchLength - 1);
      var startOffset := matchStart - StartOf(ts, si);
      var endOffset := matchStart + matchLength - StartOf(ts, ei);
      // `Substring(0, startOffset)` and `Substring(endOffset)`; the source's
      // guards for an empty prefix or suffix give the same strings.
      ts[..si] + [ts[si][..startOffset] + replacement + ts[ei][endOffset..]] + Blanks(ei - si) + ts[ei + 1..]
  }

  lemma {:induction false} ConcatAppend(a: seq<string>, b: seq<string>)
    ensures Concat(a + b) == Concat(a) + Concat(b)
    decreases |b|
  {
    if b == [] {
      assert a + b == a;
    } else {
      var front := b[..|b| - 1];
      assert a + b == (a + front) + [b[|b| - 1]];
      ConcatSnoc(a + front, b[|b| - 1]);
      ConcatAppend(a, front);
    }
  }

  /** The combined text around segment `k`. */
  lemma ConcatAround(ts: seq<string>, k: nat)
    requires k < |ts|
    ensures Concat(ts) == Concat(ts[..k]) + ts[k] + Concat(ts[k + 1..])
  {
    ConcatSplit(ts, k + 1);
    TakeOneMore(ts, k);
    ConcatSnoc(ts[..k], ts[k]);
  }

  lemma TakeOneMore<T>(s: seq<T>, k: nat)
    requires k < |s|
    ensures s[..k + 1] == s[..k] + [s[k]]
  {
  }

  lemma ConcatSingle(t: string)
    ensures Concat([t]) == t
  {
    assert [t][..0] == [];
  }

  lemma SlicePrefix(a: string, b: string, c: string, k: int)
    requires |a| <= k <= |a| + |b|
    ensures (a + b + c)[..k] == a + b[..k - |a|]
  {
  }

  lemma SliceSuffix(a: string, b: string, c: string, k: int)
    requires |a| <= k <= |a| + |b|
    ensures (a + b + c)[k..] == b[k - |a|..] + c
  {
  }

  /** The combined text up to an offset inside segment `i`. */
  lemma ConcatBefore(ts: seq<string>, i: nat, pos: int)
    requires i < |ts| && StartOf(ts, i) <= pos <= StartOf(ts, i) + |ts[i]| && pos <= |Concat(ts)|
    ensures Concat(ts)[..pos] == Concat(ts[..i]) + ts[i][..pos - StartOf(ts, i)]
  {
    ConcatAround(ts, i);
    SlicePrefix(Concat(ts[..i]), ts[i], Concat(ts[i + 1..]), pos);
  }

  /** The combined text from an offset inside segment `i` on. */
  lemma ConcatAfter(ts: seq<string>, i: nat, pos: int)
    requires i < |ts| && StartOf(ts, i) <= pos <= StartOf(ts, i) + |ts[i]| && pos <= |Concat(ts)|
    ensures Concat(ts)[pos..] == ts[i][pos - StartOf(ts, i)..] + Concat(ts[i + 1..])
  {
    ConcatAround(ts, i);
    SliceSuffix(Concat(ts[..i]), ts[i], Concat(ts[i + 1..]), pos);
  }

  /** Empty segments between two groups add nothing to the combined text. */
  lemma ConcatSpliced(a: seq<string>, middle: string, n: nat, b: seq<string>)
    ensures Concat(a + [middle] + Blanks(n) + b) == Concat(a) + middle + Concat(b)
  {
    ConcatAppend(a + [middle] + Blanks(n), b);
    ConcatAppend(a + [middle], Blanks(n));
    ConcatSnoc(a, middle);
    ConcatOfEmpties(Blanks(n));
  }

  /** The splice invariant: the new combined text is the old one with the
      matched range replaced, and the number of segments is unchanged. */
  lemma SpliceSegmentsSplices(ts: seq<string>, matchStart: int, matchLength: int, replacement: string)
    requires 0 <= matchStart && 0 < matchLength && matchStart + matchLength <= |Concat(ts)|
    ensures |SpliceSegments(ts, matchStart, matchLength, replacement)| == |ts|
    ensures Concat(SpliceSegments(ts, matchStart, matchLength, replacement)) ==
      Concat(ts)[..matchStart] + replacement + Concat(ts)[matchStart + matchLength..]
  {
    SegmentsFound(ts, matchStart, matchLength);
    SplicedBetween(ts, matchStart, matchLength, replacement,
      SegmentAt(ts, matchStart), SegmentAt(ts, matchStart + matchLength - 1));
  }

  /** `SpliceSegmentsSplices` once the start and end segments are found. */
  lemma SplicedBetween(ts: seq<string>, matchStart: int, matchLength: int, replacement: string, si: int, ei: int)
    requires 0 <= matchStart && 0 < matchLength && matchStart + matchLength <= |Concat(ts)|
    requires si == SegmentAt(ts, matchStart) && ei == SegmentAt(ts, matchStart + matchLength - 1)
    requires si >= 0 && ei >= 0
    ensures Concat(SpliceSegments(ts, matchStart, matchLength, replacement)) ==
      Concat(ts)[..matchStart] + replacement + Concat(ts)[matchStart + matchLength..]
  {
    var matchEnd := matchStart + matchLength;
    SpliceSegmentsShape(ts, matchStart, matchLength, replacement, si, ei);
    SplicedText(ts, si, ei, matchStart, matchEnd, replacement, SpliceSegments(ts, matchStart, matchLength, replacement));
  }

  /** The spliced segments once the start and end segments are found. */
  lemma SpliceSegmentsShape(ts: seq<string>, matchStart: int, matchLength: int, replacement: string, si: int, ei: int)
    requires 0 <= matchStart && 0 < matchLength
    requires si == SegmentAt(ts, matchStart) && ei == SegmentAt(ts, matchStart + matchLength - 1)
    requires si >= 0 && ei >= 0
    ensures si <= ei
    ensures StartOf(ts, si) <= matchStart < StartOf(ts, si) + |ts[si]|
    ensures StartOf(ts, ei) < matchStart + matchLength <= StartOf(ts, ei) + |ts[ei]|
    ensures SpliceSegments(ts, matchStart, matchLength, replacement) ==
      ts[..si] + [ts[si][..matchStart - StartOf(ts, si)] + replacement +
        ts[ei][matchStart + matchLength - StartOf(ts, ei)..]] + Blanks(ei - si) + ts[ei + 1..]
  {
    SegmentsAtMatch(ts, matchStart, matchLength, si, ei);
  }

  /** When no segment holds the first or the last matched character, the
      splice changes nothing. */
  lemma SpliceSegmentsNotFound(ts: seq<string>, matchStart: int, matchLength: int, replacement: string)
    requires 0 <= matchStart && 0 < matchLength
    requires SegmentAt(ts, matchStart) < 0 || SegmentAt(ts, matchStart + matchLength - 1) < 0
    ensures SpliceSegments(ts, matchStart, matchLength, replacement) == ts
  {
  }

  /** Both ends of a match inside the text lie in some segment. */
  lemma SegmentsFound(ts: seq<string>, matchStart: int, matchLength: int)
    requires 0 <= matchStart && 0 < matchLength && matchStart + matchLength <= |Concat(ts)|
    ensures SegmentAt(ts, matchStart) >= 0 && SegmentAt(ts, matchStart + matchLength - 1) >= 0
  {
    SegmentAtHolds(ts, matchStart);
    SegmentAtHolds(ts, matchStart + matchLength - 1);
  }

  /** The segments found for the first and the last character of a match
      inside the text. */
  lemma SegmentsAtMatch(ts: seq<string>, matchStart: int, matchLength: int, si: int, ei: int)
    requires 0 <= matchStart && 0 < matchLength
    requires si == SegmentAt(ts, matchStart) && ei == SegmentAt(ts, matchStart + matchLength - 1)
    requires si >= 0 && ei >= 0
    ensures si <= ei
    ensures StartOf(ts, si) <= matchStart < StartOf(ts, si) + |ts[si]|
    ensures StartOf(ts, ei) < matchStart + matchLength <= StartOf(ts, ei) + |ts[ei]|
  {
    SegmentAtFirst(ts, matchStart);
    SegmentAtHolds(ts, matchStart);
    SegmentAtHolds(ts, matchStart + matchLength - 1);
  }

  /** A list that agrees with `ts` outside the found segments, holds the
      spliced text in the start segment and empty texts after it up to the
      end segment is the splice. */
  lemma SpliceSegmentsByIndex(ts: seq<string>, r: seq<string>, matchStart: int, matchLength: int, replacement: string,
                              si: int, ei: int)
    requires 0 <= matchStart && 0 < matchLength
    requires si == SegmentAt(ts, matchStart) && ei == SegmentAt(ts, matchStart + matchLength - 1)
    requires 0 <= si <= ei && |r| == |ts|
    requires StartOf(ts, si) <= matchStart <= StartOf(ts, si) + |ts[si]|
    requires StartOf(ts, ei) <= matchStart + matchLength <= StartOf(ts, ei) + |ts[ei]|
    requires forall k :: 0 <= k < |ts| && (k < si || ei < k) ==> r[k] == ts[k]
    requires forall k :: si < k <= ei ==> r[k] == ""
    requires r[si] == ts[si][..matchStart - StartOf(ts, si)] + replacement +
      ts[ei][matchStart + matchLength - StartOf(ts, ei)..]
    ensures r == SpliceSegments(ts, matchStart, matchLength, replacement)
  {
    SpliceSegmentsShape(ts, matchStart, matchLength, replacement, si, ei);
    SplicedEqual(ts, si, ei, ts[si][..matchStart - StartOf(ts, si)] + replacement +
      ts[ei][matchStart + matchLength - StartOf(ts, ei)..], r);
  }

  /** A list that agrees position by position with a splice built from `ts`
      is that splice. */
  lemma SplicedEqual(ts: seq<string>, si: nat, ei: nat, middle: string, r: seq<string>)
    requires si <= ei < |ts| && |r| == |ts| && r[si] == middle
    requires forall k :: 0 <= k < |ts| && (k < si || ei < k) ==> r[k] == ts[k]
    requires forall k :: si < k <= ei ==> r[k] == ""
    ensures r == ts[..si] + [middle] + Blanks(ei - si) + ts[ei + 1..]
  {
    var spliced := ts[..si] + [middle] + Blanks(ei - si) + ts[ei + 1..];
    SplicedFrame(ts, si, ei, middle, spliced);
    assert forall k :: 0 <= k < |r| ==> r[k] == spliced[k];
  }

  /** The combined text of the spliced segments, for given start and end
      segments and offsets. */
  lemma SplicedText(ts: seq<string>, si: nat, ei: nat, matchStart: int, matchEnd: int, replacement: string, r: seq<string>)
    requires si <= ei < |ts| && matchStart <= matchEnd <= |Concat(ts)|
    requires StartOf(ts, si) <= matchStart <= StartOf(ts, si) + |ts[si]|
    requires StartOf(ts, ei) <= matchEnd <= StartOf(ts, ei) + |ts[ei]|
    requires r == ts[..si] + [ts[si][..matchStart - StartOf(ts, si)] + replacement + ts[ei][matchEnd - StartOf(ts, ei)..]]
      + Blanks(ei - si) + ts[ei + 1..]
    ensures Concat(r) == Concat(ts)[..matchStart] + replacement + Concat(ts)[matchEnd..]
  {
    ConcatBefore(ts, si, matchStart);
    ConcatAfter(ts, ei, matchEnd);
    ConcatSpliced(ts[..si], ts[si][..matchStart - StartOf(ts, si)] + replacement + ts[ei][matchEnd - StartOf(ts, ei)..],
      ei - si, ts[ei + 1..]);
  }

  /** A match reaching past the end of the text changes nothing. */
  lemma SpliceSegmentsPastEnd(ts: seq<string>, matchStart: int, matchLength: int, replacement: string)
    requires 0 <= matchStart && 0 < matchLength && matchStart + matchLength > |Concat(ts)|
    ensures SpliceSegments(ts, matchStart, matchLength, replacement) == ts
  {
    SegmentAtHolds(ts, matchStart + matchLength - 1);
  }

  /** Segment by segment, for a match inside the text: the segments before
      the start segment and after the end segment keep their text, those
      after the start segment up to the end segment become empty, and the
      start segment holds its own text before the match, the replacement and
      the end segment's text after the match, so it still begins with its
      text before the match. */
  lemma SpliceSegmentsFrame(ts: seq<string>, matchStart: int, matchLength: int, replacement: string, si: int, ei: int)
    requires 0 <= matchStart && 0 < matchLength && matchStart + matchLength <= |Concat(ts)|
    requires si == SegmentAt(ts, matchStart) && ei == SegmentAt(ts, matchStart + matchLength - 1)
    ensures 0 <= si <= ei < |ts|
    ensures StartOf(ts, si) <= matchStart < StartOf(ts, si) + |ts[si]|
    ensures StartOf(ts, ei) < matchStart + matchLength <= StartOf(ts, ei) + |ts[ei]|
    ensures forall k :: 0 <= k < si || ei < k < |ts| ==> SpliceSegments(ts, matchStart, matchLength, replacement)[k] == ts[k]
    ensures forall k :: si < k <= ei ==> SpliceSegments(ts, matchStart, matchLength, replacement)[k] == ""
    ensures SpliceSegments(ts, matchStart, matchLength, replacement)[si] ==
      ts[si][..matchStart - StartOf(ts, si)] + replacement + ts[ei][matchStart + matchLength - StartOf(ts, ei)..]
    ensures StartsWith(SpliceSegments(ts, matchStart, matchLength, replacement)[si], ts[si][..matchStart - StartOf(ts, si)])
  {
    SegmentsFound(ts, matchStart, matchLength);
    SpliceSegmentsShape(ts, matchStart, matchLength, replacement, si, ei);
    var prefix := ts[si][..matchStart - StartOf(ts, si)];
    var rest := replacement + ts[ei][matchStart + matchLength - StartOf(ts, ei)..];
    assert prefix + replacement + ts[ei][matchStart + matchLength - StartOf(ts, ei)..] == prefix + rest;
    SplicedFrame(ts, si, ei, prefix + rest, SpliceSegments(ts, matchStart, matchLength, replacement));
    StartsWithAppend(prefix, rest);
  }

  lemma StartsWithAppend(prefix: string, rest: string)
    ensures StartsWith(prefix + rest, prefix)
  {
    assert (prefix + rest)[..|prefix|] == prefix;
  }

  /** Positions in a splice built from `ts`: outside `si..ei` the old texts,
      `middle` at `si`, and empty texts after it up to `ei`. */
  lemma SplicedFrame(ts: seq<string>, si: nat, ei: nat, middle: string, r: seq<string>)
    requires si <= ei < |ts| && r == ts[..si] + [middle] + Blanks(ei - si) + ts[ei + 1..]
    ensures |r| == |ts| && r[si] == middle
    ensures forall k :: 0 <= k < si || ei < k < |ts| ==> r[k] == ts[k]
    ensures forall k :: si < k <= ei ==> r[k] == ""
  {
    var blanks := Blanks(ei - si);
    forall k | 0 <= k < si || ei < k < |ts| ensures r[k] == ts[k] {
      if k < si {
        assert r[k] == ts[..si][k];
      } else {
        assert r[k] == ts[ei + 1..][k - ei - 1];
      }
    }
    forall k | si < k <= ei ensures r[k] == "" {
      assert r[k] == blanks[k - si - 1];
    }
  }

  /** `string.Replace`-style splice of the leftmost occurrence of `target`. */
  function ReplaceFirst(text: string, target: string, replacement: string): (r: string)
    requires target != ""
    ensures !Contains(text, target) ==> r == text
    ensures Contains(text, target) ==> |r| == |text| - |target| + |replacement|
  {
    var i := IndexOf(text, target);
    if i < 0 then text else text[..i] + replacement + text[i + |target|..]
  }

  /** The loop of `ReplaceInSegments` on the combined text, cut off after
      `fuel` replacements. */
  function ReplaceRepeatedly(text: string, target: string, replacement: string, fuel: nat): string
    requires target != ""
    decreases fuel
  {
    if fuel == 0 || !Contains(text, target) then text
    else ReplaceRepeatedly(ReplaceFirst(text, target, replacement), target, replacement, fuel - 1)
  }

  /** The loop of `ReplaceInSegments` on the segment texts, cut off after
      `fuel` replacements. */
  function RuleOnSegments(ts: seq<string>, target: string, replacement: string, fuel: nat): (r: seq<string>)
    requires target != ""
    ensures |r| == |ts|
    decreases fuel
  {
    var i := IndexOf(Concat(ts), target);
    if fuel == 0 || i < 0 then ts
    else RuleOnSegments(SpliceSegments(ts, i, |target|, replacement), target, replacement, fuel - 1)
  }

  /** One round of the loop on the segments is one `ReplaceFirst` on the
      combined text. */
  lemma SpliceIsReplaceFirst(ts: seq<string>, target: string, replacement: string)
    requires target != "" && Contains(Concat(ts), target)
    ensures Concat(SpliceSegments(ts, IndexOf(Concat(ts), target), |target|, replacement)) ==
      ReplaceFirst(Concat(ts), target, replacement)
  {
    ReplaceFirstFound(Concat(ts), target, replacement);
    SpliceSegmentsSplices(ts, IndexOf(Concat(ts), target), |target|, replacement);
  }

  /** A text holding the target has it replaced at its leftmost occurrence. */
  lemma ReplaceFirstFound(text: string, target: string, replacement: string)
    requires target != "" && Contains(text, target)
    ensures 0 <= IndexOf(text, target) && IndexOf(text, target) + |target| <= |text|
    ensures ReplaceFirst(text, target, replacement) ==
      text[..IndexOf(text, target)] + replacement + text[IndexOf(text, target) + |target|..]
  {
  }

  lemma RuleOnSegmentsUnchanged(ts: seq<string>, target: string, replacement: string, fuel: nat)
    requires target != "" && (fuel == 0 || !Contains(Concat(ts), target))
    ensures Concat(RuleOnSegments(ts, target, replacement, fuel)) ==
      ReplaceRepeatedly(Concat(ts), target, replacement, fuel)
  {
  }

  lemma ReplaceRepeatedlyStep(text: string, target: string, replacement: string, fuel: nat)
    requires target != "" && fuel > 0 && Contains(text, target)
    ensures ReplaceRepeatedly(text, target, replacement, fuel) ==
      ReplaceRepeatedly(ReplaceFirst(text, target, replacement), target, replacement, fuel - 1)
  {
  }

  lemma RuleOnSegmentsStep(ts: seq<string>, target: string, replacement: string, fuel: nat)
    requires target != "" && fuel > 0 && Contains(Concat(ts), target)
    ensures RuleOnSegments(ts, target, replacement, fuel) ==
      RuleOnSegments(SpliceSegments(ts, IndexOf(Concat(ts), target), |target|, replacement), target, replacement, fuel - 1)
  {
  }

  /** Splitting the text into segments does not change what the loop makes
      of the combined text. */
  lemma {:induction false} RuleOnSegmentsConcat(ts: seq<string>, target: string, replacement: string, fuel: nat)
    requires target != ""
    ensures Concat(RuleOnSegments(ts, target, replacement, fuel)) ==
      ReplaceRepeatedly(Concat(ts), target, replacement, fuel)
    decreases fuel
  {
    if fuel > 0 && Contains(Concat(ts), target) {
      var next := SpliceSegments(ts, IndexOf(Concat(ts), target), |target|, replacement);
      RuleOnSegmentsStep(ts, target, replacement, fuel);
      ReplaceRepeatedlyStep(Concat(ts), target, replacement, fuel);
      SpliceIsReplaceFirst(ts, target, replacement);
      RuleOnSegmentsConcat(next, target, replacement, fuel - 1);
    } else {
      RuleOnSegmentsUnchanged(ts, target, replacement, fuel);
    }
  }

  /** When the replacement is shorter than the target, every replacement
      shortens the text, so `|text|` rounds suffice for the target to
      disappear. */
  lemma {:induction false} ReplaceRepeatedlyExhausts(text: string, target: string, replacement: string, fuel: nat)
    requires target != "" && |replacement| < |target| && fuel >= |text|
    ensures !Contains(ReplaceRepeatedly(text, target, replacement, fuel), target)
    decreases fuel
  {
    if Contains(text, target) {
      ShrinkingStep(text, target, replacement, fuel);
      ReplaceRepeatedlyExhausts(ReplaceFirst(text, target, replacement), target, replacement, fuel - 1);
    }
  }

  /** One round with a shorter replacement: the text shrinks, so the bound
      left over still covers its length. */
  lemma ShrinkingStep(text: string, target: string, replacement: string, fuel: nat)
    requires target != "" && |replacement| < |target| && fuel >= |text| && Contains(text, target)
    ensures fuel > 0 && fuel - 1 >= |ReplaceFirst(text, target, replacement)|
    ensures ReplaceRepeatedly(text, target, replacement, fuel) ==
      ReplaceRepeatedly(ReplaceFirst(text, target, replacement), target, replacement, fuel - 1)
  {
  }

  /** A text of `n` copies of `c`. */
  function Repeat(c: char, n: nat): (r: string)
    ensures |r| == n && forall k :: 0 <= k < n ==> r[k] == c
  {
    seq(n, k => c)
  }

  /** The loop need not end: with the rule `"a" -> "aa"` the text grows by
      one `a` per round and never loses its target, whatever the bound. */
  lemma ReplaceRepeatedlyNeverExhausts(n: nat, fuel: nat)
    requires n >= 1
    ensures ReplaceRepeatedly(Repeat('a', n), "a", "aa", fuel) == Repeat('a', n + fuel)
    ensures Contains(ReplaceRepeatedly(Repeat('a', n), "a", "aa", fuel), "a")
  {
    ReplaceRepeatedlyGrows(n, fuel);
    RepeatStartsWithA(n + fuel);
  }

  /** With the rule `"a" -> "aa"`, every round adds one `a`. */
  lemma {:induction false} ReplaceRepeatedlyGrows(n: nat, fuel: nat)
    requires n >= 1
    ensures ReplaceRepeatedly(Repeat('a', n), "a", "aa", fuel) == Repeat('a', n + fuel)
    decreases fuel
  {
    if fuel > 0 {
      GrowingStep(n, fuel);
      ReplaceRepeatedlyGrows(n + 1, fuel - 1);
    }
  }

  /** One round of `"a" -> "aa"` on a text of `a`s, inside the loop. */
  lemma GrowingStep(n: nat, fuel: nat)
    requires n >= 1 && fuel > 0
    ensures ReplaceRepeatedly(Repeat('a', n), "a", "aa", fuel) ==
      ReplaceRepeatedly(Repeat('a', n + 1), "a", "aa", fuel - 1)
  {
    RepeatGrows(n);
    ReplaceRepeatedlyStep(Repeat('a', n), "a", "aa", fuel);
  }

  /** A text of `a`s finds `"a"` at its start. */
  lemma RepeatStartsWithA(n: nat)
    requires n >= 1
    ensures IndexOf(Repeat('a', n), "a") == 0
  {
    assert OccursAt(Repeat('a', n), "a", 0);
  }

  /** One round of `"a" -> "aa"` on a text of `a`s adds one `a`. */
  lemma RepeatGrows(n: nat)
    requires n >= 1
    ensures Contains(Repeat('a', n), "a")
    ensures ReplaceFirst(Repeat('a', n), "a", "aa") == Repeat('a', n + 1)
  {
    RepeatStartsWithA(n);
    var text := Repeat('a', n);
    assert text[..0] + "aa" + text[1..] == Repeat('a', n + 1);
  }

  /** One translation rule on the segment texts: an empty target changes
      nothing and an absent (`null`) translation counts as empty. */
  function ApplyRule(ts: seq<string>, rule: Entry, fuel: nat): (r: seq<string>)
    ensures |r| == |ts|
    ensures Origin(rule) == "" ==> r == ts
  {
    var target := Origin(rule);
    if target == "" then ts
    else RuleOnSegments(ts, target, rule.translatedContent.GetOr(""), fuel)
  }

  /** The rules in list order, each on the result of the ones before. */
  function ApplyRules(ts: seq<string>, rules: seq<Entry>, fuel: nat): (r: seq<string>)
    ensures |r| == |ts|
  {
    if rules == [] then ts
    else ApplyRule(ApplyRules(ts, rules[..|rules| - 1], fuel), rules[|rules| - 1], fuel)
  }

  /** The same rules on the combined text alone. */
  function ApplyRulesToText(text: string, rules: seq<Entry>, fuel: nat): string
  {
    if rules == [] then text
    else
      var before := ApplyRulesToText(text, rules[..|rules| - 1], fuel);
      var rule := rules[|rules| - 1];
      if Origin(rule) == "" then before
      else ReplaceRepeatedly(before, Origin(rule), rule.translatedContent.GetOr(""), fuel)
  }

  /** The combined text after all rules depends only on the combined text
      before them, not on how it is cut into runs. */
  lemma {:induction false} ApplyRulesConcat(ts: seq<string>, rules: seq<Entry>, fuel: nat)
    ensures Concat(ApplyRules(ts, rules, fuel)) == ApplyRulesToText(Concat(ts), rules, fuel)
  {
    if rules != [] {
      var rule := rules[|rules| - 1];
      ApplyRulesConcat(ts, rules[..|rules| - 1], fuel);
      if Origin(rule) != "" {
        RuleOnSegmentsConcat(ApplyRules(ts, rules[..|rules| - 1], fuel), Origin(rule),
          rule.translatedContent.GetOr(""), fuel);
      }
    }
  }

  /** A rule has done its work on `ts`, the texts left after its turn, when
      its target no longer occurs in their combined text; a rule with an
      empty target does nothing and so is always done. */
  predicate RuleDone(ts: seq<string>, rule: Entry)
  {
    Origin(rule) == "" || !Contains(Concat(ts), Origin(rule))
  }

  /** Every rule, at the end of its own turn in list order, has done its
      work: the bounded loop was never cut off while its target remained. */
  predicate RulesDone(ts: seq<string>, rules: seq<Entry>, fuel: nat)
  {
    rules == [] ||
    (RulesDone(ts, rules[..|rules| - 1], fuel) && RuleDone(ApplyRules(ts, rules, fuel), rules[|rules| - 1]))
  }

  /** A paragraph without text leaves every rule nothing to do. */
  lemma {:induction false} RulesDoneOnNothing(rules: seq<Entry>, fuel: nat)
    ensures RulesDone([], rules, fuel)
  {
    if rules != [] {
      RulesDoneOnNothing(rules[..|rules| - 1], fuel);
      assert ApplyRules([], rules, fuel) == [];
      if Origin(rules[|rules| - 1]) != "" {
        assert IndexOfFrom("", Origin(rules[|rules| - 1]), 0) == -1;
      }
    }
  }

  /** A replacement shorter than its target never lengthens the text. */
  lemma {:induction false} ReplaceRepeatedlyNoLonger(text: string, target: string, replacement: string, fuel: nat)
    requires target != "" && |replacement| < |target| && fuel >= |text|
    ensures |ReplaceRepeatedly(text, target, replacement, fuel)| <= |text|
    decreases fuel
  {
    if Contains(text, target) {
      ShrinkingStep(text, target, replacement, fuel);
      ReplaceRepeatedlyNoLonger(ReplaceFirst(text, target, replacement), target, replacement, fuel - 1);
    }
  }

  /** Every translation shorter than its original. */
  predicate Shrinking(rules: seq<Entry>)
  {
    forall k :: 0 <= k < |rules| && Origin(rules[k]) != "" ==>
      |rules[k].translatedContent.GetOr("")| < |Origin(rules[k])|
  }

  /** Shrinking rules never lengthen the combined text. */
  lemma {:induction false} ApplyRulesToTextNoLonger(text: string, rules: seq<Entry>, fuel: nat)
    requires Shrinking(rules) && fuel >= |text|
    ensures |ApplyRulesToText(text, rules, fuel)| <= |text|
  {
    if rules != [] {
      var rule := rules[|rules| - 1];
      ApplyRulesToTextNoLonger(text, rules[..|rules| - 1], fuel);
      if Origin(rule) != "" {
        ReplaceRepeatedlyNoLonger(ApplyRulesToText(text, rules[..|rules| - 1], fuel), Origin(rule),
          rule.translatedContent.GetOr(""), fuel);
      }
    }
  }

  /** When every translation is shorter than its original, a bound of one
      round per character of the paragraph lets every rule finish: the cut-off
      never changes the outcome of the unbounded loop. */
  lemma {:induction false} RulesDoneWhenShrinking(ts: seq<string>, rules: seq<Entry>, fuel: nat)
    requires Shrinking(rules) && fuel >= |Concat(ts)|
    ensures RulesDone(ts, rules, fuel)
  {
    if rules != [] {
      var front, rule := rules[..|rules| - 1], rules[|rules| - 1];
      RulesDoneWhenShrinking(ts, front, fuel);
      if Origin(rule) != "" {
        ApplyRulesConcat(ts, rules, fuel);
        ApplyRulesToTextNoLonger(Concat(ts), front, fuel);
        ReplaceRepeatedlyExhausts(ApplyRulesToText(Concat(ts), front, fuel), Origin(rule),
          rule.translatedContent.GetOr(""), fuel);
      }
    }
  }

  /** A rule whose translation contains its original is never done: with
      `"a" -> "aa"` on the text `"a"` every bound leaves the target behind. */
  lemma RulesNotDoneWhenGrowing(fuel: nat)
    ensures !RulesDone(["a"], [Entry(Some("a"), Some("aa"))], fuel)
  {
    var rules := [Entry(Some("a"), Some("aa"))];
    assert rules[..0] == [];
    ConcatSingle("a");
    ApplyRulesConcat(["a"], rules, fuel);
    assert Repeat('a', 1) == "a";
    ReplaceRepeatedlyNeverExhausts(1, fuel);
  }

  /** A text without the target is left as it is, whatever the bound. */
  lemma RuleOnSegmentsAtRest(ts: seq<string>, target: string, replacement: string, fuel: nat)
    requires target != "" && !Contains(Concat(ts), target)
    ensures RuleOnSegments(ts, target, replacement, fuel) == ts
  {
  }

  /** Once the loop has removed every occurrence within the bound, a larger
      bound gives the same segments: the result is that of the unbounded
      loop. */
  lemma {:induction false} RuleOnSegmentsSettled(ts: seq<string>, target: string, replacement: string, fuel: nat, more: nat)
    requires target != "" && !Contains(Concat(RuleOnSegments(ts, target, replacement, fuel)), target)
    ensures RuleOnSegments(ts, target, replacement, fuel + more) == RuleOnSegments(ts, target, replacement, fuel)
    decreases fuel
  {
    if Contains(Concat(ts), target) {
      var next := SpliceSegments(ts, IndexOf(Concat(ts), target), |target|, replacement);
      RuleOnSegmentsStep(ts, target, replacement, fuel);
      RuleOnSegmentsStep(ts, target, replacement, fuel + more);
      RuleOnSegmentsSettled(next, target, replacement, fuel - 1, more);
    } else {
      RuleOnSegmentsAtRest(ts, target, replacement, fuel);
      RuleOnSegmentsAtRest(ts, target, replacement, fuel + more);
    }
  }

  /** When every rule finished within the bound, a larger bound changes
      nothing: the paragraph gets what the unbounded loops give it. */
  lemma {:induction false} RulesDoneSettled(ts: seq<string>, rules: seq<Entry>, fuel: nat, more: nat)
    requires RulesDone(ts, rules, fuel)
    ensures ApplyRules(ts, rules, fuel + more) == ApplyRules(ts, rules, fuel)
    ensures RulesDone(ts, rules, fuel + more)
  {
    if rules != [] {
      var front, rule := rules[..|rules| - 1], rules[|rules| - 1];
      RulesDoneSettled(ts, front, fuel, more);
      if Origin(rule) != "" {
        RuleOnSegmentsSettled(ApplyRules(ts, front, fuel), Origin(rule), rule.translatedContent.GetOr(""), fuel, more);
      }
    }
  }
}
