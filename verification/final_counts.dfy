/**
 * MapReduce.storeFinalCounts: the entries of the word-count table, taken in
 * the table's iteration order, sorted with the comparator "higher count
 * first, then the word in String.compareTo order", and written as one
 * `word:count` line each.
 */
module FinalCounts {
  import opened JavaText
  import opened CountTables

  /** One Map.Entry<String, Integer> of the table. */
  datatype WordCount = WordCount(word: string, count: int)

  // ---------------------------------------------------------------------
  // String.compareTo and the comparator
  // ---------------------------------------------------------------------

  /** `a.compareTo(b) < 0`: lexicographic order on chars, a proper prefix first. */
  predicate LexLess(a: string, b: string)
    decreases |a|
  {
    if a == [] then b != []
    else if b == [] then false
    else if a[0] != b[0] then a[0] < b[0]
    else LexLess(a[1..], b[1..])
  }

  lemma {:induction false} LexIrreflexive(a: string)
    ensures !LexLess(a, a)
    decreases |a|
  {
    if a != [] {
      LexIrreflexive(a[1..]);
    }
  }

  lemma {:induction false} LexTransitive(a: string, b: string, c: string)
    requires LexLess(a, b) && LexLess(b, c)
    ensures LexLess(a, c)
    decreases |a|
  {
    if a != [] && a[0] == b[0] && b[0] == c[0] {
      LexTransitive(a[1..], b[1..], c[1..]);
    }
  }

  lemma {:induction false} LexTotal(a: string, b: string)
    ensures a == b || LexLess(a, b) || LexLess(b, a)
    decreases |a|
  {
    if a != [] && b != [] && a[0] == b[0] {
      LexTotal(a[1..], b[1..]);
      if a[1..] == b[1..] {
        assert a == [a[0]] + a[1..] && b == [b[0]] + b[1..];
      }
    }
  }

  /**
   * The comparator of storeFinalCounts says x < y: x has the higher count,
   * or the same count and the smaller word.
   */
  predicate Before(x: WordCount, y: WordCount) {
    x.count > y.count || (x.count == y.count && LexLess(x.word, y.word))
  }

  /** Exactly one of x before y, y before x, x == y. */
  lemma BeforeTotal(x: WordCount, y: WordCount)
    ensures x != y ==> Before(x, y) || Before(y, x)
    ensures !(Before(x, y) && Before(y, x))
    ensures !Before(x, x)
  {
    LexTotal(x.word, y.word);
    LexIrreflexive(x.word);
    if LexLess(x.word, y.word) && LexLess(y.word, x.word) {
      LexTransitive(x.word, y.word, x.word);
    }
  }

  lemma BeforeTransitive(x: WordCount, y: WordCount, z: WordCount)
    requires Before(x, y) && Before(y, z)
    ensures Before(x, z)
  {
    if x.count == y.count == z.count {
      LexTransitive(x.word, y.word, z.word);
    }
  }

  // ---------------------------------------------------------------------
  // Sorting (Collections.sort with the comparator)
  // ---------------------------------------------------------------------

  /** No entry comes after one that the comparator puts after it. */
  predicate Sorted(s: seq<WordCount>) {
    forall i, j :: 0 <= i < j < |s| ==> !Before(s[j], s[i])
  }

  /** `e` placed after every entry that the comparator puts before it. */
  function Insert(s: seq<WordCount>, e: WordCount): (r: seq<WordCount>)
    requires Sorted(s)
    ensures Sorted(r)
    ensures multiset(r) == multiset(s) + multiset{e}
  {
    if s == [] || !Before(s[0], e) then
      InsertFront(s, e);
      [e] + s
    else
      var r := [s[0]] + Insert(s[1..], e);
      assert s == [s[0]] + s[1..];
      BeforeTotal(s[0], e);
      assert forall x :: x in multiset(Insert(s[1..], e)) ==> x in multiset(s[1..]) || x == e;
      InsertBehind(s, e, r);
      r
  }

  lemma InsertFront(s: seq<WordCount>, e: WordCount)
    requires Sorted(s)
    requires s == [] || !Before(s[0], e)
    ensures Sorted([e] + s)
  {
    forall i, j | 0 <= i < j < |[e] + s| ensures !Before(([e] + s)[j], ([e] + s)[i]) {
      if i == 0 {
        var x := s[j - 1];
        if Before(x, e) {
          if j - 1 > 0 {
            BeforeTotal(x, s[0]);
            if x != s[0] {
              BeforeTransitive(s[0], x, e);
            }
          }
        }
      }
    }
  }

  lemma InsertBehind(s: seq<WordCount>, e: WordCount, r: seq<WordCount>)
    requires Sorted(s) && s != [] && Before(s[0], e)
    requires |r| >= 1 && r[1..] == Insert(s[1..], e) && r[0] == s[0]
    requires forall x :: x in multiset(r[1..]) ==> x in multiset(s[1..]) || x == e
    ensures Sorted(r)
  {
    forall j | 0 < j < |r| ensures !Before(r[j], r[0]) {
      assert r[j] in multiset(r[1..]) by {
        assert r[j] == r[1..][j - 1];
      }
      BeforeTotal(r[j], s[0]);
      if r[j] != e {
        var k :| 0 <= k < |s[1..]| && s[1..][k] == r[j];
        assert s[k + 1] == r[j];
      }
    }
  }

  /** Collections.sort(entries, comparator): a sorted permutation of `entries`. */
  method SortEntries(entries: seq<WordCount>) returns (sorted: seq<WordCount>)
    ensures Sorted(sorted)
    ensures multiset(sorted) == multiset(entries)
  {
    sorted := [];
    var i := 0;
    while i < |entries|
      invariant 0 <= i <= |entries|
      invariant Sorted(sorted)
      invariant multiset(sorted) == multiset(entries[..i])
    {
      assert entries[..i + 1] == entries[..i] + [entries[i]];
      sorted := Insert(sorted, entries[i]);
      i := i + 1;
    }
    assert entries[..i] == entries;
  }

  /** A sorted sequence is determined by its multiset of entries. */
  lemma {:induction false} SortedUnique(a: seq<WordCount>, b: seq<WordCount>)
    requires Sorted(a) && Sorted(b)
    requires multiset(a) == multiset(b)
    ensures a == b
    decreases |a|
  {
    assert |b| == |multiset(b)| == |a|;
    if a != [] {
      HeadsAgree(a, b);
      assert a == [a[0]] + a[1..];
      assert b == [b[0]] + b[1..];
      calc {
        multiset(a[1..]);
        multiset(a) - multiset{a[0]};
        multiset(b) - multiset{b[0]};
        multiset(b[1..]);
      }
      SortedUnique(a[1..], b[1..]);
    }
  }

  /** Two sorted sequences with the same entries start with the same entry. */
  lemma HeadsAgree(a: seq<WordCount>, b: seq<WordCount>)
    requires Sorted(a) && Sorted(b)
    requires multiset(a) == multiset(b) && a != [] && b != []
    ensures a[0] == b[0]
  {
    assert a[0] in multiset(b);
    assert b[0] in multiset(a);
    var j :| 0 <= j < |b| && b[j] == a[0];
    var i :| 0 <= i < |a| && a[i] == b[0];
    BeforeTotal(a[0], b[0]);
    if i != 0 && j != 0 {
      assert !Before(a[i], a[0]) && !Before(b[j], b[0]);
    }
  }

  // ---------------------------------------------------------------------
  // The ranking of a table
  // ---------------------------------------------------------------------

  /** Every entry of the table. */
  function EntrySet(t: Table): (r: set<WordCount>)
    ensures forall e :: e in r <==> e.word in t && t[e.word] == e.count
  {
    set w | w in t :: WordCount(w, t[w])
  }

  /**
   * The entries of the table, in the order storeFinalCounts writes them.
   * Defined by inserting the entries one at a time; the order is the same
   * whichever entry comes first (SortedUnique).
   */
  ghost function Ranking(t: Table): (r: seq<WordCount>)
    ensures Sorted(r)
    ensures multiset(r) == multiset(EntrySet(t))
    decreases |t.Keys|
  {
    if t.Keys == {} then
      assert EntrySet(t) == {};
      []
    else
      var w :| w in t.Keys;
      EntrySetRemove(t, w);
      Insert(Ranking(t - {w}), WordCount(w, t[w]))
  }

  lemma EntrySetRemove(t: Table, w: string)
    requires w in t
    ensures |(t - {w}).Keys| < |t.Keys|
    ensures |EntrySet(t)| == |EntrySet(t - {w})| + 1
    ensures multiset(EntrySet(t)) == multiset(EntrySet(t - {w})) + multiset{WordCount(w, t[w])}
  {
    assert (t - {w}).Keys == t.Keys - {w};
    var e := WordCount(w, t[w]);
    assert EntrySet(t) == EntrySet(t - {w}) + {e};
    assert e !in EntrySet(t - {w});
    assert |EntrySet(t)| == |EntrySet(t - {w})| + 1;
  }

  /** What the ranking holds: each entry of the table once, and nothing else. */
  lemma RankingEntries(t: Table)
    ensures |Ranking(t)| == |t|
    ensures forall e :: e in Ranking(t) <==> e.word in t && t[e.word] == e.count
  {
    var r := Ranking(t);
    forall e ensures e in r <==> e.word in t && t[e.word] == e.count {
      assert e in r <==> e in multiset(r);
    }
    EntrySetSize(t);
    assert |r| == |multiset(r)|;
  }

  /** The ranking is in strict comparator order: count descending, then word ascending. */
  lemma RankingOrdered(t: Table)
    ensures forall i, j :: 0 <= i < j < |Ranking(t)| ==> Before(Ranking(t)[i], Ranking(t)[j])
  {
    var r := Ranking(t);
    forall i, j | 0 <= i < j < |r| ensures Before(r[i], r[j]) {
      BeforeTotal(r[i], r[j]);
      if r[i] == r[j] {
        EntrySetNoDuplicate(t, r, i, j);
      }
    }
  }

  lemma EntrySetNoDuplicate(t: Table, r: seq<WordCount>, i: nat, j: nat)
    requires multiset(r) == multiset(EntrySet(t))
    requires i < j < |r|
    ensures r[i] != r[j]
  {
    assert r == r[..i] + [r[i]] + r[i + 1..j] + [r[j]] + r[j + 1..];
    assert multiset(r) ==
      multiset(r[..i]) + multiset{r[i]} + multiset(r[i + 1..j]) + multiset{r[j]} + multiset(r[j + 1..]);
    assert multiset(EntrySet(t))[r[i]] <= 1;
  }

  lemma EntrySetSize(t: Table)
    ensures |EntrySet(t)| == |t|
    decreases |t.Keys|
  {
    if t.Keys != {} {
      var w :| w in t.Keys;
      EntrySetRemove(t, w);
      EntrySetSize(t - {w});
    }
  }

  // ---------------------------------------------------------------------
  // Writing
  // ---------------------------------------------------------------------

  /** `entry.getKey() + ":" + entry.getValue()`. */
  function Render(e: WordCount): string {
    e.word + ":" + IntToString(e.count)
  }

  function RenderAll(s: seq<WordCount>): (r: seq<string>)
    ensures |r| == |s|
  {
    if s == [] then [] else RenderAll(s[..|s| - 1]) + [Render(s[|s| - 1])]
  }

  /**
   * storeFinalCounts: the lines of the output file. The entries are taken in
   * an arbitrary order (the HashMap's), yet the lines are always those of the
   * ranking.
   */
  method StoreFinalCounts(wordCounts: Table) returns (lines: seq<string>)
    ensures lines == RenderAll(Ranking(wordCounts))
  {
    var entries := EntryList(wordCounts);
    var sorted := SortEntries(entries);
    lines := [];
    var i := 0;
    while i < |sorted|
      invariant 0 <= i <= |sorted|
      invariant lines == RenderAll(sorted[..i])
    {
      RenderAllNext(sorted, i);
      lines := lines + [Render(sorted[i])];
      i := i + 1;
    }
    assert sorted[..i] == sorted;
    SortedUnique(sorted, Ranking(wordCounts));
  }

  lemma RenderAllNext(s: seq<WordCount>, i: nat)
    requires i < |s|
    ensures RenderAll(s[..i + 1]) == RenderAll(s[..i]) + [Render(s[i])]
  {
    assert s[..i + 1][..i] == s[..i];
  }

  /**
   * `new ArrayList<>(wordCounts.entrySet())`: every entry once, in the
   * table's iteration order, which the model leaves open.
   */
  method EntryList(t: Table) returns (entries: seq<WordCount>)
    ensures multiset(entries) == multiset(EntrySet(t))
  {
    entries := [];
    var rest := t.Keys;
    while rest != {}
      invariant rest <= t.Keys
      invariant multiset(entries) == multiset(EntrySet(t - rest))
      decreases |rest|
    {
      var w :| w in rest;
      EntriesStep(t, rest, w);
      entries := entries + [WordCount(w, t[w])];
      rest := rest - {w};
    }
    assert t - {} == t;
  }

  lemma EntriesStep(t: Table, rest: set<string>, w: string)
    requires w in rest && rest <= t.Keys
    ensures multiset(EntrySet(t - (rest - {w}))) == multiset(EntrySet(t - rest)) + multiset{WordCount(w, t[w])}
  {
    var e := WordCount(w, t[w]);
    assert EntrySet(t - (rest - {w})) == EntrySet(t - rest) + {e};
    assert e !in EntrySet(t - rest);
  }
}
