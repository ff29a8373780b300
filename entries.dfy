/**
 * The exchange record `{ originContent, tranlastedContent }` shared by the
 * extractors (which write it) and the replacer (which reads it as its list of
 * translation rules), the order in which both sort such lists, and the
 * first-occurrence de-duplication the extractors perform with a `HashSet`.
 */
module Entries {
  import opened Wrappers
  import opened Strings

  /** One exchange record; `None` stands for a JSON `null` or a missing field. */
  datatype Entry = Entry(originContent: Option<string>, translatedContent: Option<string>)

  /** The sort key: the original text (never `null` in a list that is sorted). */
  function Origin(e: Entry): string
  {
    e.originContent.GetOr("")
  }

  /** The comparer of both `Sort` calls returns a value `<= 0` for `(x, y)`:
      the longer original first, equal lengths in ordinal ascending order;
      lengths and the ordinal order are those of the UTF-16 code units. */
  predicate RankLe(x: Entry, y: Entry)
  {
    Utf16Length(Origin(x)) > Utf16Length(Origin(y)) ||
    (Utf16Length(Origin(x)) == Utf16Length(Origin(y)) && !OrdinalLess(Origin(y), Origin(x)))
  }

  lemma RankLeTotal(x: Entry, y: Entry)
    ensures RankLe(x, y) || RankLe(y, x)
  {
    if Utf16Length(Origin(x)) == Utf16Length(Origin(y)) {
      if Origin(x) == Origin(y) {
        OrdinalLessIrreflexive(Origin(x));
      } else {
        OrdinalLessTotal(Origin(x), Origin(y));
        if OrdinalLess(Origin(x), Origin(y)) {
          OrdinalLessAsymmetric(Origin(x), Origin(y));
        } else {
          OrdinalLessAsymmetric(Origin(y), Origin(x));
        }
      }
    }
  }

  lemma RankLeTransitive(x: Entry, y: Entry, z: Entry)
    requires RankLe(x, y) && RankLe(y, z)
    ensures RankLe(x, z)
  {
    if Utf16Length(Origin(x)) == Utf16Length(Origin(z)) && OrdinalLess(Origin(z), Origin(x)) {
      assert Utf16Length(Origin(y)) == Utf16Length(Origin(x));
      if OrdinalLess(Origin(y), Origin(x)) {
      } else if Origin(y) == Origin(x) {
      } else {
        OrdinalLessTotal(Origin(x), Origin(y));
        OrdinalLessTransitive(Origin(z), Origin(x), Origin(y));
      }
    }
  }

  /** Two entries the comparer puts both ways round have the same original. */
  lemma RankLeAntisymmetric(x: Entry, y: Entry)
    requires RankLe(x, y) && RankLe(y, x)
    ensures Origin(x) == Origin(y)
  {
    if Origin(x) != Origin(y) {
      OrdinalLessTotal(Origin(x), Origin(y));
    }
  }

  /** Lengths count UTF-16 code units: two characters above U+FFFF make an
      original of length 4, which ranks before one such character followed
      by `x`, of length 3. */
  lemma RankLeCountsCodeUnits()
    ensures RankLe(Entry(Some("\U{20000}\U{20000}"), Some("P")), Entry(Some("\U{20000}x"), Some("Q")))
    ensures !RankLe(Entry(Some("\U{20000}x"), Some("Q")), Entry(Some("\U{20000}\U{20000}"), Some("P")))
  {
    assert Utf16Length("\U{20000}\U{20000}") == 4;
    assert Utf16Length("\U{20000}x") == 3;
  }

  /** Ordered as the comparer demands: longest original first, then ordinal. */
  ghost predicate Sorted(s: seq<Entry>)
  {
    forall i, j :: 0 <= i < j < |s| ==> RankLe(s[i], s[j])
  }

  /** `List<T>.Sort(comparison)` with the tools' comparer, in place. The
      library's sort is an unstable introsort; this one is an insertion sort,
      which realises one of the orders the library may produce. */
  method SortByRank(a: array<Entry>)
    modifies a
    ensures Sorted(a[..])
    ensures multiset(a[..]) == multiset(old(a[..]))
  {
    var i := 0;
    while i < a.Length
      invariant 0 <= i <= a.Length
      invariant Sorted(a[..i])
      invariant multiset(a[..]) == multiset(old(a[..]))
    {
      InsertLast(a, i);
      i := i + 1;
    }
  }

  /** One pass of the insertion sort: sinks `a[i]` into the sorted prefix. */
  method InsertLast(a: array<Entry>, i: nat)
    requires i < a.Length && Sorted(a[..i])
    modifies a
    ensures Sorted(a[..i + 1])
    ensures multiset(a[..]) == multiset(old(a[..]))
  {
    var j := i;
    while j > 0 && !RankLe(a[j - 1], a[j])
      invariant 0 <= j <= i
      invariant forall p, q :: 0 <= p < q <= i && p != j && q != j ==> RankLe(a[p], a[q])
      invariant forall q :: j < q <= i ==> RankLe(a[j], a[q])
      invariant multiset(a[..]) == multiset(old(a[..]))
    {
      RankLeTotal(a[j - 1], a[j]);
      SwapWithPrevious(a, j);
      j := j - 1;
    }
    forall p, q | 0 <= p < q <= i ensures RankLe(a[p], a[q]) {
      if q == j && p < j - 1 {
        RankLeTransitive(a[p], a[j - 1], a[j]);
      }
    }
  }

  /** Exchanges `a[j - 1]` and `a[j]`. */
  method SwapWithPrevious(a: array<Entry>, j: nat)
    requires 0 < j < a.Length
    modifies a
    ensures a[..] == old(a[..])[j - 1 := old(a[j])][j := old(a[j - 1])]
    ensures multiset(a[..]) == multiset(old(a[..]))
  {
    a[j - 1], a[j] := a[j], a[j - 1];
  }

  /** The originals of a list of records, in order. */
  function Origins(s: seq<Entry>): (r: seq<string>)
    ensures |r| == |s| && forall i :: 0 <= i < |s| ==> r[i] == Origin(s[i])
  {
    seq(|s|, i requires 0 <= i < |s| => Origin(s[i]))
  }

  /** The comparer puts every record at or before itself. */
  lemma RankLeReflexive(x: Entry)
    ensures RankLe(x, x)
  {
    OrdinalLessIrreflexive(Origin(x));
  }

  /** The comparer leaves only records with equal originals unordered, so
      every sorted arrangement of the same records lists the same originals
      in the same order: whichever order an unstable sort picks, the
      sequence of search targets is the same. Which of several records with
      the same original comes first is left open. */
  lemma {:induction false} SortedOriginsDetermined(a: seq<Entry>, b: seq<Entry>)
    requires Sorted(a) && Sorted(b) && multiset(Origins(a)) == multiset(Origins(b))
    ensures Origins(a) == Origins(b)
    decreases |a|
  {
    if a == [] {
      assert |multiset(Origins(b))| == |b|;
    } else {
      SortedHeadsAgree(a, b);
      SortedTail(a);
      SortedTail(b);
      OriginsTail(a);
      OriginsTail(b);
      MultisetTail(Origins(a), Origins(b));
      SortedOriginsDetermined(a[1..], b[1..]);
      assert Origins(a) == [Origins(a)[0]] + Origins(a)[1..];
      assert Origins(b) == [Origins(b)[0]] + Origins(b)[1..];
    }
  }

  lemma OriginsTail(a: seq<Entry>)
    requires a != []
    ensures Origins(a[1..]) == Origins(a)[1..]
  {
  }

  /** Two lists with the same elements and the same head have tails with
      the same elements. */
  lemma MultisetTail(xs: seq<string>, ys: seq<string>)
    requires multiset(xs) == multiset(ys) && xs != [] && ys != [] && xs[0] == ys[0]
    ensures multiset(xs[1..]) == multiset(ys[1..])
  {
    assert xs == [xs[0]] + xs[1..];
    assert ys == [ys[0]] + ys[1..];
    assert multiset(xs[1..]) == multiset(xs) - multiset{xs[0]};
    assert multiset(ys[1..]) == multiset(ys) - multiset{ys[0]};
  }

  /** Two sorted arrangements of the same originals begin with the same one. */
  lemma SortedHeadsAgree(a: seq<Entry>, b: seq<Entry>)
    requires Sorted(a) && Sorted(b) && multiset(Origins(a)) == multiset(Origins(b)) && a != []
    ensures b != [] && Origin(a[0]) == Origin(b[0])
  {
    assert Origins(a)[0] in multiset(Origins(b));
    var k :| 0 <= k < |b| && Origins(b)[k] == Origin(a[0]);
    assert Origins(b)[0] in multiset(Origins(a));
    var m :| 0 <= m < |a| && Origins(a)[m] == Origin(b[0]);
    RankLeReflexive(a[0]);
    RankLeReflexive(b[0]);
    assert RankLe(b[0], b[k]) && RankLe(a[0], a[m]);
    RankLeAntisymmetric(a[0], b[0]);
  }

  /** The tail of a sorted list is sorted. */
  lemma SortedTail(a: seq<Entry>)
    requires Sorted(a) && a != []
    ensures Sorted(a[1..])
  {
    forall i, j | 0 <= i < j < |a| - 1 ensures RankLe(a[1..][i], a[1..][j]) {
      assert a[1..][i] == a[i + 1] && a[1..][j] == a[j + 1];
    }
  }

  /** No string occurs twice. */
  predicate NoDuplicates<T(==)>(s: seq<T>)
  {
    forall i, j :: 0 <= i < j < |s| ==> s[i] != s[j]
  }

  /** The `HashSet<string>.Add` filter of the extractors: each string is kept
      at its first occurrence and dropped afterwards. */
  function Dedup(xs: seq<string>): (r: seq<string>)
    ensures NoDuplicates(r)
    ensures forall x :: x in r <==> x in xs
  {
    if xs == [] then []
    else
      var d := Dedup(xs[..|xs| - 1]);
      var x := xs[|xs| - 1];
      assert xs == xs[..|xs| - 1] + [x];
      if x in d then d else d + [x]
  }

  /** The index of the first occurrence of `x` in `xs`. */
  function FirstIndex(xs: seq<string>, x: string): (k: nat)
    requires x in xs
    ensures k < |xs| && xs[k] == x && x !in xs[..k]
  {
    if xs[0] == x then 0 else 1 + FirstIndex(xs[1..], x)
  }

  /** De-duplication keeps the order of first occurrences. */
  lemma {:induction false} DedupKeepsFirstOccurrenceOrder(xs: seq<string>)
    ensures forall i, j :: 0 <= i < j < |Dedup(xs)| ==>
      FirstIndex(xs, Dedup(xs)[i]) < FirstIndex(xs, Dedup(xs)[j])
  {
    if xs != [] {
      var front, x := xs[..|xs| - 1], xs[|xs| - 1];
      var d := Dedup(front);
      DedupKeepsFirstOccurrenceOrder(front);
      assert xs == front + [x];
      forall y | y in front ensures FirstIndex(xs, y) == FirstIndex(front, y) < |front| {
        FirstIndexPrefix(front, [x], y);
      }
      if x in d {
        assert Dedup(xs) == d;
      } else {
        assert Dedup(xs) == d + [x];
        assert x !in front;
        forall k | 0 <= k < |front| ensures xs[k] != x {
          assert xs[k] == front[k];
        }
        assert FirstIndex(xs, x) == |front|;
        forall i | 0 <= i < |d| ensures FirstIndex(xs, d[i]) < |front| {
          assert d[i] in front;
        }
      }
    }
  }

  lemma {:induction false} FirstIndexPrefix(a: seq<string>, b: seq<string>, x: string)
    requires x in a
    ensures FirstIndex(a + b, x) == FirstIndex(a, x)
  {
    if a[0] != x {
      assert (a + b)[1..] == a[1..] + b;
      FirstIndexPrefix(a[1..], b, x);
    }
  }

  /** De-duplicating a longer list extends the de-duplicated shorter one. */
  lemma DedupSnoc(xs: seq<string>, x: string)
    ensures Dedup(xs + [x]) == if x in xs then Dedup(xs) else Dedup(xs) + [x]
  {
    assert (xs + [x])[..|xs + [x]| - 1] == xs;
  }

  /** The records the extractors emit: each extracted text with an empty
      translation. */
  function ToEntries(xs: seq<string>): (r: seq<Entry>)
    ensures |r| == |xs|
    ensures forall i :: 0 <= i < |xs| ==> r[i] == Entry(Some(xs[i]), Some(""))
  {
    seq(|xs|, i requires 0 <= i < |xs| => Entry(Some(xs[i]), Some("")))
  }

  /** The state of the extractors' de-duplicating loop after the contents
      `seen`: the `HashSet` holds exactly the contents seen so far, and the
      result list holds one record per distinct content, in the order of
      first occurrence. */
  ghost predicate Collected(unique: set<string>, results: seq<Entry>, seen: seq<string>)
  {
    (forall x :: x in unique <==> x in seen) && results == ToEntries(Dedup(seen))
  }

  /** One round of that loop: `HashSet.Add` refuses a content already seen,
      and otherwise the content is added and its record appended. */
  lemma CollectedStep(unique: set<string>, results: seq<Entry>, seen: seq<string>, content: string)
    requires Collected(unique, results, seen)
    ensures content in unique ==> Collected(unique, results, seen + [content])
    ensures content !in unique ==>
      Collected(unique + {content}, results + [Entry(Some(content), Some(""))], seen + [content])
  {
    DedupSnoc(seen, content);
    if content !in unique {
      assert ToEntries(Dedup(seen) + [content]) == results + [Entry(Some(content), Some(""))];
    }
  }

  /** Nothing seen: an empty set and an empty list. */
  lemma CollectedEmpty()
    ensures Collected({}, [], [])
  {
    assert ToEntries([]) == [];
  }

  /** A list has no duplicates exactly when no element occurs in it twice. */
  lemma NoDuplicatesMultiplicity<T>(s: seq<T>)
    ensures NoDuplicates(s) <==> forall x :: multiset(s)[x] <= 1
  {
    if NoDuplicates(s) {
      NoDuplicatesAtMostOnce(s);
    } else {
      var i, j :| 0 <= i < j < |s| && s[i] == s[j];
      RepeatedTwice(s, i, j);
    }
  }

  lemma {:induction false} NoDuplicatesAtMostOnce<T>(s: seq<T>)
    requires NoDuplicates(s)
    ensures forall x :: multiset(s)[x] <= 1
  {
    if s != [] {
      var front, last := s[..|s| - 1], s[|s| - 1];
      assert s == front + [last];
      assert forall k :: 0 <= k < |front| ==> front[k] == s[k];
      NoDuplicatesAtMostOnce(front);
      assert last !in front;
    }
  }

  lemma RepeatedTwice<T>(s: seq<T>, i: nat, j: nat)
    requires i < j < |s| && s[i] == s[j]
    ensures multiset(s)[s[i]] >= 2
  {
    assert s == s[..j] + s[j..];
    assert s[i] in multiset(s[..j]) && s[j..][0] == s[i];
  }

  /** A rearrangement of a list without duplicates has none either. */
  lemma PermutationNoDuplicates<T>(a: seq<T>, b: seq<T>)
    requires multiset(a) == multiset(b) && NoDuplicates(a)
    ensures NoDuplicates(b)
  {
    NoDuplicatesMultiplicity(a);
    NoDuplicatesMultiplicity(b);
  }

  /** Any rearrangement of the records of distinct contents holds distinct
      originals, each one of the contents, each with an empty translation. */
  lemma RearrangedRecords(contents: seq<string>, records: seq<Entry>)
    requires NoDuplicates(contents) && multiset(records) == multiset(ToEntries(contents))
    ensures NoDuplicates(Origins(records))
    ensures forall e :: e in records ==>
      e.originContent.Some? && e.originContent.value in contents && e.translatedContent == Some("")
  {
    var entries := ToEntries(contents);
    PermutationNoDuplicates(entries, records);
    forall e | e in records
      ensures e.originContent.Some? && e.originContent.value in contents && e.translatedContent == Some("")
    {
      assert e in multiset(entries);
      var k :| 0 <= k < |entries| && entries[k] == e;
    }
    forall i, j | 0 <= i < j < |records| ensures Origins(records)[i] != Origins(records)[j] {
      assert records[i] in records && records[j] in records;
    }
  }
}
