/**
 * The .NET string operations the tools rely on, stated over `seq<char>`:
 * whitespace and trimming, ordinal search and comparison, splitting, and
 * the ASCII part of ordinal case-insensitive comparison.
 */
module Strings {

  /** `char.IsWhiteSpace`: the Unicode space separators, line and paragraph
      separators, U+0009 to U+000D and U+0085. The regular-expression class
      `\s` denotes the same set. */
  predicate IsWhitespace(c: char)
  {
    ('\U{0009}' <= c <= '\U{000D}') || c == ' ' || c == '\U{0085}' || c == '\U{00A0}' ||
    c == '\U{1680}' || ('\U{2000}' <= c <= '\U{200A}') || c == '\U{2028}' || c == '\U{2029}' ||
    c == '\U{202F}' || c == '\U{205F}' || c == '\U{3000}'
  }

  /** `string.IsNullOrWhiteSpace` for a non-null string: empty or all whitespace. */
  predicate IsBlank(s: string)
  {
    forall k :: 0 <= k < |s| ==> IsWhitespace(s[k])
  }

  /** A string that neither starts nor ends with whitespace. */
  predicate IsTrimmed(s: string)
  {
    s == [] || (!IsWhitespace(s[0]) && !IsWhitespace(s[|s| - 1]))
  }

  /** `string.TrimStart()`: drops the leading whitespace. */
  function TrimStart(s: string): (r: string)
    ensures |r| <= |s|
  {
    if s != [] && IsWhitespace(s[0]) then TrimStart(s[1..]) else s
  }

  /** `TrimStart` keeps a suffix, drops only whitespace, and stops at the
      first other character. */
  lemma {:induction false} TrimStartFacts(s: string)
    ensures TrimStart(s) == s[|s| - |TrimStart(s)|..]
    ensures forall k :: 0 <= k < |s| - |TrimStart(s)| ==> IsWhitespace(s[k])
    ensures TrimStart(s) == [] || !IsWhitespace(TrimStart(s)[0])
  {
    if s != [] && IsWhitespace(s[0]) {
      TrimStartFacts(s[1..]);
      forall k | 1 <= k < |s| - |TrimStart(s)| ensures IsWhitespace(s[k]) {
        assert s[k] == s[1..][k - 1];
      }
    }
  }

  /** `string.TrimEnd()`: drops the trailing whitespace. */
  function TrimEnd(s: string): (r: string)
    ensures |r| <= |s|
  {
    if s != [] && IsWhitespace(s[|s| - 1]) then TrimEnd(s[..|s| - 1]) else s
  }

  /** `TrimEnd` keeps a prefix, drops only whitespace, and stops at the
      last other character. */
  lemma {:induction false} TrimEndFacts(s: string)
    ensures TrimEnd(s) == s[..|TrimEnd(s)|]
    ensures forall k :: |TrimEnd(s)| <= k < |s| ==> IsWhitespace(s[k])
    ensures TrimEnd(s) == [] || !IsWhitespace(TrimEnd(s)[|TrimEnd(s)| - 1])
  {
    if s != [] && IsWhitespace(s[|s| - 1]) {
      TrimEndFacts(s[..|s| - 1]);
      forall k | |TrimEnd(s)| <= k < |s| - 1 ensures IsWhitespace(s[k]) {
        assert s[k] == s[..|s| - 1][k];
      }
    }
  }

  /** `string.Trim()`: drops whitespace at both ends. */
  function Trim(s: string): (r: string)
    ensures |r| <= |s|
  {
    TrimEnd(TrimStart(s))
  }

  /** The result of `Trim` is trimmed, keeps only characters of `s`, and is
      empty exactly when `s` is blank. */
  lemma TrimFacts(s: string)
    ensures IsTrimmed(Trim(s))
    ensures forall x :: x in Trim(s) ==> x in s
    ensures Trim(s) == [] <==> IsBlank(s)
  {
    var front := TrimStart(s);
    var r := TrimEnd(front);
    TrimStartFacts(s);
    TrimEndFacts(front);
    if r != [] {
      assert r[0] == front[0];
    }
    forall x | x in r ensures x in s {
      var k :| 0 <= k < |r| && r[k] == x;
      assert front[k] == x;
      assert s[|s| - |front| + k] == x;
    }
    if r != [] {
      assert !IsWhitespace(s[|s| - |front|]);
    }
  }

  /** A trimmed string is blank only when it is empty, so the tools' two
      emptiness tests on a trimmed string (`Length == 0` and
      `IsNullOrWhiteSpace`) agree. */
  lemma TrimmedBlankIsEmpty(s: string)
    requires IsTrimmed(s)
    ensures IsBlank(s) <==> s == []
  {
    if s != [] {
      assert !IsWhitespace(s[0]);
    }
  }

  /** `s.StartsWith(p, StringComparison.Ordinal)`. */
  predicate StartsWith(s: string, p: string)
  {
    |p| <= |s| && s[..|p|] == p
  }

  /** `s.EndsWith(p, StringComparison.Ordinal)`. */
  predicate EndsWith(s: string, p: string)
  {
    |p| <= |s| && s[|s| - |p|..] == p
  }

  /** `t` occurs in `s` at position `k`. */
  predicate OccursAt(s: string, t: string, k: int)
  {
    0 <= k && k + |t| <= |s| && s[k..k + |t|] == t
  }

  /** The first position at or after `k` where `t` occurs in `s`, or -1. */
  function IndexOfFrom(s: string, t: string, k: nat): (r: int)
    decreases |s| - k
    ensures r == -1 || (k <= r && OccursAt(s, t, r))
    ensures r == -1 ==> forall j :: k <= j ==> !OccursAt(s, t, j)
    ensures r >= 0 ==> forall j :: k <= j < r ==> !OccursAt(s, t, j)
  {
    if k + |t| > |s| then -1
    else if s[k..k + |t|] == t then k
    else IndexOfFrom(s, t, k + 1)
  }

  /** `s.IndexOf(t, StringComparison.Ordinal)`: the leftmost ordinal
      occurrence of `t` in `s`, or -1 when there is none. */
  function IndexOf(s: string, t: string): (r: int)
    ensures r == -1 || OccursAt(s, t, r)
    ensures r == -1 <==> forall j :: !OccursAt(s, t, j)
    ensures r >= 0 ==> forall j :: 0 <= j < r ==> !OccursAt(s, t, j)
  {
    IndexOfFrom(s, t, 0)
  }

  /** `s.Contains(t, StringComparison.Ordinal)`. */
  predicate Contains(s: string, t: string)
  {
    IndexOf(s, t) >= 0
  }

  /** `s.Replace(c.ToString(), string.Empty)`: every `c` removed. */
  function RemoveChar(s: string, c: char): (r: string)
  {
    if s == [] then []
    else (if s[0] == c then [] else [s[0]]) + RemoveChar(s[1..], c)
  }

  /** No `c` is left, and only characters of `s` are. */
  lemma {:induction false} RemoveCharFacts(s: string, c: char)
    ensures c !in RemoveChar(s, c)
    ensures forall x :: x in RemoveChar(s, c) ==> x in s
  {
    if s != [] {
      RemoveCharFacts(s[1..], c);
    }
  }

  /** `s.Split(c)`: the pieces between the occurrences of `c`, empty ones
      included; there is always at least one piece. */
  function SplitOn(s: string, c: char): (r: seq<string>)
    ensures |r| >= 1
  {
    if s == [] then [""]
    else
      var rest := SplitOn(s[1..], c);
      if s[0] == c then [""] + rest
      else [[s[0]] + rest[0]] + rest[1..]
  }

  /** No piece holds the separator, and the pieces hold only characters of `s`. */
  lemma {:induction false} SplitOnChars(s: string, c: char)
    ensures forall p :: p in SplitOn(s, c) ==> c !in p
    ensures forall p, x :: p in SplitOn(s, c) && x in p ==> x in s
  {
    if s != [] {
      SplitOnChars(s[1..], c);
    }
  }

  /** `s.Split(new[] { "\r\n", "\n", "\r" }, ...)`: at each position the
      separators are tried in that order, so `\r\n` is one separator. */
  function SplitLines(s: string): (r: seq<string>)
    ensures |r| >= 1
  {
    if s == [] then [""]
    else if s[0] == '\r' && |s| >= 2 && s[1] == '\n' then [""] + SplitLines(s[2..])
    else if s[0] == '\r' || s[0] == '\n' then [""] + SplitLines(s[1..])
    else
      var rest := SplitLines(s[1..]);
      [[s[0]] + rest[0]] + rest[1..]
  }

  /** No piece holds a line break, and the pieces hold only characters of `s`. */
  lemma {:induction false} SplitLinesChars(s: string)
    ensures forall p :: p in SplitLines(s) ==> '\r' !in p && '\n' !in p
    ensures forall p, x :: p in SplitLines(s) && x in p ==> x in s
  {
    if s != [] {
      if s[0] == '\r' && |s| >= 2 && s[1] == '\n' {
        SplitLinesChars(s[2..]);
      } else {
        SplitLinesChars(s[1..]);
      }
    }
  }

  /** `StringSplitOptions.RemoveEmptyEntries`: the non-empty pieces, in order. */
  function NonEmpty(pieces: seq<string>): (r: seq<string>)
  {
    if pieces == [] then []
    else
      var last := pieces[|pieces| - 1];
      NonEmpty(pieces[..|pieces| - 1]) + (if last == "" then [] else [last])
  }

  /** The kept pieces are exactly the non-empty ones. */
  lemma {:induction false} NonEmptyMembers(pieces: seq<string>)
    ensures forall p :: p in NonEmpty(pieces) <==> p in pieces && p != ""
  {
    if pieces != [] {
      var front := pieces[..|pieces| - 1];
      NonEmptyMembers(front);
      assert pieces == front + [pieces[|pieces| - 1]];
    }
  }

  /** One piece trimmed, or nothing when it trims to nothing. */
  function TrimmedLine(piece: string): (r: seq<string>)
  {
    var t := Trim(piece);
    if t == "" then [] else [t]
  }

  /** Each piece trimmed, the pieces that trim to nothing dropped, in order. */
  function TrimmedNonEmpty(pieces: seq<string>): (r: seq<string>)
  {
    if pieces == [] then []
    else TrimmedNonEmpty(pieces[..|pieces| - 1]) + TrimmedLine(pieces[|pieces| - 1])
  }

  /** The kept lines are exactly the non-empty trims of the pieces. */
  lemma {:induction false} TrimmedNonEmptyMembers(pieces: seq<string>)
    ensures forall t :: t in TrimmedNonEmpty(pieces) <==> t != "" && exists p :: p in pieces && t == Trim(p)
  {
    if pieces != [] {
      var front := pieces[..|pieces| - 1];
      TrimmedNonEmptyMembers(front);
      assert pieces == front + [pieces[|pieces| - 1]];
    }
  }

  lemma TrimmedNonEmptySnoc(pieces: seq<string>, i: nat)
    requires i < |pieces|
    ensures TrimmedNonEmpty(pieces[..i + 1]) == TrimmedNonEmpty(pieces[..i]) + TrimmedLine(pieces[i])
  {
    assert pieces[..i + 1][..i] == pieces[..i];
  }

  /** The UTF-16 code units of one character, as .NET stores it: the
      character itself below U+10000, a surrogate pair above. A character
      is never itself a surrogate, so the first unit tells the two apart. */
  function Utf16Char(c: char): (r: seq<int>)
    ensures 1 <= |r| <= 2
    ensures |r| == 1 <==> (c as int) < 0x1_0000
    ensures |r| == 1 ==> !(0xD800 <= r[0] < 0xDC00)
    ensures |r| == 2 ==> 0xD800 <= r[0] < 0xDC00
  {
    var v := c as int;
    if v < 0x1_0000 then [v]
    else [0xD800 + (v - 0x1_0000) / 0x400, 0xDC00 + (v - 0x1_0000) % 0x400]
  }

  /** The UTF-16 encoding of a string: the code units `Length`, indexing and
      `CompareOrdinal` work on. */
  function Utf16(s: string): seq<int>
  {
    if s == [] then [] else Utf16Char(s[0]) + Utf16(s[1..])
  }

  /** `string.Length`: the number of UTF-16 code units. */
  function Utf16Length(s: string): nat
  {
    |Utf16(s)|
  }

  lemma Utf16CharInjective(c: char, d: char)
    requires Utf16Char(c) == Utf16Char(d)
    ensures c == d
  {
    var v, w := c as int, d as int;
    if v >= 0x1_0000 {
      assert (v - 0x1_0000) / 0x400 == (w - 0x1_0000) / 0x400;
      assert (v - 0x1_0000) % 0x400 == (w - 0x1_0000) % 0x400;
    }
  }

  /** Different strings have different encodings. */
  lemma {:induction false} Utf16Injective(s: string, t: string)
    requires Utf16(s) == Utf16(t)
    ensures s == t
  {
    if s != [] && t != [] {
      var cs, ct := Utf16Char(s[0]), Utf16Char(t[0]);
      assert Utf16(s)[0] == cs[0] && Utf16(t)[0] == ct[0];
      assert |cs| == |ct|;
      assert Utf16(s)[..|cs|] == cs && Utf16(t)[..|ct|] == ct;
      Utf16CharInjective(s[0], t[0]);
      assert Utf16(s)[|cs|..] == Utf16(s[1..]) && Utf16(t)[|ct|..] == Utf16(t[1..]);
      Utf16Injective(s[1..], t[1..]);
      assert s == [s[0]] + s[1..] && t == [t[0]] + t[1..];
    }
  }

  /** Lexicographic order on code units, a proper prefix first. */
  predicate UnitsLess(a: seq<int>, b: seq<int>)
  {
    if a == [] then b != []
    else if b == [] then false
    else if a[0] == b[0] then UnitsLess(a[1..], b[1..])
    else a[0] < b[0]
  }

  lemma {:induction false} UnitsLessIrreflexive(a: seq<int>)
    ensures !UnitsLess(a, a)
  {
    if a != [] {
      UnitsLessIrreflexive(a[1..]);
    }
  }

  lemma {:induction false} UnitsLessTransitive(a: seq<int>, b: seq<int>, c: seq<int>)
    requires UnitsLess(a, b) && UnitsLess(b, c)
    ensures UnitsLess(a, c)
  {
    if a != [] && b != [] && c != [] && a[0] == b[0] && b[0] == c[0] {
      UnitsLessTransitive(a[1..], b[1..], c[1..]);
    }
  }

  lemma {:induction false} UnitsLessTotal(a: seq<int>, b: seq<int>)
    requires a != b
    ensures UnitsLess(a, b) || UnitsLess(b, a)
  {
    if a != [] && b != [] && a[0] == b[0] {
      assert a == [a[0]] + a[1..] && b == [b[0]] + b[1..];
      UnitsLessTotal(a[1..], b[1..]);
    }
  }

  /** `string.CompareOrdinal(a, b) < 0`: lexicographic order on the UTF-16
      code units, a proper prefix first. */
  predicate OrdinalLess(a: string, b: string)
  {
    UnitsLess(Utf16(a), Utf16(b))
  }

  lemma OrdinalLessIrreflexive(a: string)
    ensures !OrdinalLess(a, a)
  {
    UnitsLessIrreflexive(Utf16(a));
  }

  lemma OrdinalLessTransitive(a: string, b: string, c: string)
    requires OrdinalLess(a, b) && OrdinalLess(b, c)
    ensures OrdinalLess(a, c)
  {
    UnitsLessTransitive(Utf16(a), Utf16(b), Utf16(c));
  }

  lemma OrdinalLessAsymmetric(a: string, b: string)
    requires OrdinalLess(a, b)
    ensures !OrdinalLess(b, a)
  {
    if OrdinalLess(b, a) {
      OrdinalLessTransitive(a, b, a);
      OrdinalLessIrreflexive(a);
    }
  }

  /** Two different strings are ordered one way or the other. */
  lemma OrdinalLessTotal(a: string, b: string)
    requires a != b
    ensures OrdinalLess(a, b) || OrdinalLess(b, a)
  {
    if Utf16(a) == Utf16(b) {
      Utf16Injective(a, b);
    }
    UnitsLessTotal(Utf16(a), Utf16(b));
  }

  /** A surrogate pair sorts below the characters U+E000 to U+FFFF, although
      the character it encodes is larger: U+10000 comes before U+FFFD. */
  lemma OrdinalLessSurrogates()
    ensures OrdinalLess("\U{10000}", "\U{FFFD}")
    ensures Utf16Length("\U{10000}") == 2
  {
    assert Utf16("\U{10000}") == [0xD800, 0xDC00];
    assert Utf16("\U{FFFD}") == [0xFFFD];
  }

  /** The ASCII part of the case mapping behind `OrdinalIgnoreCase`. */
  function FoldChar(c: char): (r: char)
    ensures !('A' <= r <= 'Z')
  {
    if 'A' <= c <= 'Z' then (c as int + 32) as char else c
  }

  function Fold(s: string): (r: string)
    ensures |r| == |s| && forall k :: 0 <= k < |s| ==> r[k] == FoldChar(s[k])
  {
    seq(|s|, k requires 0 <= k < |s| => FoldChar(s[k]))
  }

  /** Folding twice is folding once. */
  lemma FoldIdempotent(s: string)
    ensures Fold(Fold(s)) == Fold(s)
  {
  }

  /** `a.Equals(b, StringComparison.OrdinalIgnoreCase)`. */
  predicate EqualsIgnoreCase(a: string, b: string)
  {
    Fold(a) == Fold(b)
  }

  /** `s.StartsWith(p, StringComparison.OrdinalIgnoreCase)`. */
  predicate StartsWithIgnoreCase(s: string, p: string)
  {
    StartsWith(Fold(s), Fold(p))
  }

  /** `s.EndsWith(p, StringComparison.OrdinalIgnoreCase)`. */
  predicate EndsWithIgnoreCase(s: string, p: string)
  {
    EndsWith(Fold(s), Fold(p))
  }

  /** `s.Contains(t, StringComparison.OrdinalIgnoreCase)`. */
  predicate ContainsIgnoreCase(s: string, t: string)
  {
    Contains(Fold(s), Fold(t))
  }
}
