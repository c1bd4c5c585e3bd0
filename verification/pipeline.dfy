/**
 * The stages together: the records map writes, read by collectWordCounts,
 * count how often each word occurs in the chunks; and the file
 * storeFinalCounts writes, read by collectWordCounts, gives back the table it
 * was written from.
 */
module Pipeline {
  import opened Wrappers
  import opened JavaText
  import opened Files
  import opened CountTables
  import opened Chunker
  import opened Mapper
  import opened FinalCounts
  import opened Reducer

  /** How often each word occurs in `ws`. */
  function Occurrences(ws: seq<string>): Table {
    map w | w in ws :: multiset(ws)[w]
  }

  lemma OccurrencesGet(ws: seq<string>, w: string)
    ensures Get(Occurrences(ws), w) == multiset(ws)[w]
  {
    if w !in ws {
      assert w !in multiset(ws);
    }
  }

  lemma OccurrencesConcat(a: seq<string>, b: seq<string>)
    ensures Occurrences(a + b) == Merge(Occurrences(a), Occurrences(b))
  {
    var l := Occurrences(a + b);
    var r := Merge(Occurrences(a), Occurrences(b));
    assert multiset(a + b) == multiset(a) + multiset(b);
    assert l.Keys == r.Keys by {
      forall w ensures w in l <==> w in r {
        assert w in a + b <==> w in a || w in b;
      }
    }
    forall w ensures Get(l, w) == Get(r, w) {
      OccurrencesGet(a + b, w);
      OccurrencesGet(a, w);
      OccurrencesGet(b, w);
    }
    TableExt(l, r);
  }

  lemma OccurrencesOne(w: string)
    ensures Occurrences([w]) == map[w := 1]
  {
    assert forall v :: v in [w] <==> v == w;
  }

  /** Every line of `lines` is one collectWordCounts reads without failing. */
  predicate LinesOk(lines: seq<string>) {
    forall k :: 0 <= k < |lines| ==> LineOk(lines[k])
  }

  lemma LinesOkSnoc(lines: seq<string>, line: string)
    requires LinesOk(lines) && LineOk(line)
    ensures LinesOk(lines + [line])
  {
    Snoc(lines, line);
  }

  lemma LinesTableSnoc(lines: seq<string>, line: string, w: string, n: int)
    requires ParseLine(line) == Counted(w, n)
    ensures LinesTable(lines + [line]) == Add(LinesTable(lines), w, n)
  {
    Snoc(lines, line);
  }

  /** The `w:1` records of words without ':' all parse cleanly. */
  lemma {:induction false} UnitRecordsOk(ws: seq<string>)
    requires forall k :: 0 <= k < |ws| ==> ':' !in ws[k]
    ensures LinesOk(UnitRecords(ws))
    decreases |ws|
  {
    if ws != [] {
      var init := ws[..|ws| - 1];
      var w := ws[|ws| - 1];
      UnitRecordsOk(init);
      UnitRecordParses(w);
      LinesOkSnoc(UnitRecords(init), w + ":1");
    }
  }

  /** The `w:1` records of words without ':' count each word's occurrences. */
  lemma {:induction false} UnitRecordsTally(ws: seq<string>)
    requires forall k :: 0 <= k < |ws| ==> ':' !in ws[k]
    ensures LinesTable(UnitRecords(ws)) == Occurrences(ws)
    decreases |ws|
  {
    if ws == [] {
      assert Occurrences(ws) == map[];
    } else {
      var init := ws[..|ws| - 1];
      var w := ws[|ws| - 1];
      UnitRecordsTally(init);
      UnitRecordParses(w);
      LinesTableSnoc(UnitRecords(init), w + ":1", w, 1);
      InitLast(ws);
      calc {
        LinesTable(UnitRecords(ws));
        Add(LinesTable(UnitRecords(init)), w, 1);
        Add(Occurrences(init), w, 1);
        { AddIsMerge(Occurrences(init), w, 1); OccurrencesOne(w); }
        Merge(Occurrences(init), Occurrences([w]));
        { OccurrencesConcat(init, [w]); }
        Occurrences(ws);
      }
    }
  }

  /** The map files map writes for the chunks, chunk by chunk. */
  function MapOutputs(chunks: seq<seq<string>>): (r: seq<Entry>)
    ensures |r| == |chunks|
  {
    if chunks == [] then []
    else MapOutputs(chunks[..|chunks| - 1]) + [File(UnitRecords(ChunkWords(chunks[|chunks| - 1])))]
  }

  lemma {:induction false} ChunkWordsConcat(a: seq<string>, b: seq<string>)
    ensures ChunkWords(a + b) == ChunkWords(a) + ChunkWords(b)
    decreases |b|
  {
    if b == [] {
      assert a + b == a;
    } else {
      var init := b[..|b| - 1];
      var last := b[|b| - 1];
      DropLast(a, b);
      assert ChunkWords(a + b) == ChunkWords(a + init) + LineWords(last);
      assert ChunkWords(b) == ChunkWords(init) + LineWords(last);
      ChunkWordsConcat(a, init);
      Assoc(ChunkWords(a), ChunkWords(init), LineWords(last));
    }
  }

  lemma Assoc<T>(x: seq<T>, y: seq<T>, z: seq<T>)
    ensures (x + y) + z == x + (y + z)
  {
  }

  lemma DropLast<T>(a: seq<T>, b: seq<T>)
    requires b != []
    ensures (a + b)[..|a + b| - 1] == a + b[..|b| - 1]
    ensures (a + b)[|a + b| - 1] == b[|b| - 1]
  {
  }

  lemma InitLast<T>(s: seq<T>)
    requires s != []
    ensures s[..|s| - 1] + [s[|s| - 1]] == s
  {
  }

  /** The last element of `s + [x]` is x, and what precedes it is s. */
  lemma Snoc<T>(s: seq<T>, x: T)
    ensures (s + [x])[..|s|] == s && (s + [x])[|s|] == x
    ensures forall k :: 0 <= k < |s| ==> (s + [x])[k] == s[k]
  {
  }

  lemma NoColonInWords(ws: seq<string>)
    requires AllLowerWords(ws)
    ensures forall k :: 0 <= k < |ws| ==> ':' !in ws[k]
  {
    forall k | 0 <= k < |ws| ensures ':' !in ws[k] {
      assert IsLowerWord(ws[k]);
    }
  }

  /** The map files of the chunks are readable to the end. */
  lemma {:induction false} MapOutputsReadable(chunks: seq<seq<string>>)
    ensures AllReadable(MapOutputs(chunks))
    decreases |chunks|
  {
    if chunks != [] {
      var init := chunks[..|chunks| - 1];
      var last := chunks[|chunks| - 1];
      MapOutputsReadable(init);
      ChunkWordsLower(last);
      NoColonInWords(ChunkWords(last));
      UnitRecordsOk(ChunkWords(last));
      Snoc(MapOutputs(init), File(UnitRecords(ChunkWords(last))));
    }
  }

  /** Together the map files of the chunks count how often each word occurs in all the chunks' lines. */
  lemma {:induction false} MapOutputsTally(chunks: seq<seq<string>>)
    ensures Tally(MapOutputs(chunks)) == Occurrences(ChunkWords(Flatten(chunks)))
    decreases |chunks|
  {
    if chunks == [] {
      assert Occurrences([]) == map[];
    } else {
      var init := chunks[..|chunks| - 1];
      var last := chunks[|chunks| - 1];
      MapOutputsTally(init);
      ChunkWordsLower(last);
      NoColonInWords(ChunkWords(last));
      UnitRecordsTally(ChunkWords(last));
      Snoc(MapOutputs(init), File(UnitRecords(ChunkWords(last))));
      calc {
        Tally(MapOutputs(chunks));
        Merge(Tally(MapOutputs(init)), LinesTable(UnitRecords(ChunkWords(last))));
        Merge(Occurrences(ChunkWords(Flatten(init))), Occurrences(ChunkWords(last)));
        { OccurrencesConcat(ChunkWords(Flatten(init)), ChunkWords(last)); }
        Occurrences(ChunkWords(Flatten(init)) + ChunkWords(last));
        { ChunkWordsConcat(Flatten(init), last); }
        Occurrences(ChunkWords(Flatten(init) + last));
      }
    }
  }

  /**
   * Map, then reduce over a directory whose `map*.txt` files are exactly the
   * map files of the chunks, listed in any order: reduce succeeds and writes the ranking of the
   * words of the chunks by their number of occurrences.
   */
  lemma MapThenReduce(listing: seq<DirEntry>, chunks: seq<seq<string>>)
    requires multiset(Selected(listing)) == multiset(MapOutputs(chunks))
    ensures Outcome(listing) == Ok(RenderAll(Ranking(Occurrences(ChunkWords(Flatten(chunks))))))
  {
    var files := Selected(listing);
    MapOutputsReadable(chunks);
    MapOutputsTally(chunks);
    ReadablePermutation(files, MapOutputs(chunks));
    TallyPermutation(files, MapOutputs(chunks));
    AddFilesSpec(map[], files);
    MergeEmpty(Tally(files));
  }

  /**
   * The chunks of an input file hold its lines except the oversized ones, so
   * the counts reduce writes are the occurrences of the words of those lines;
   * each counted word is a non-empty run of `[a-z0-9]` and occurs at least once.
   */
  lemma InputCounts(input: seq<string>, sep: string, chunks: seq<seq<string>>, listing: seq<DirEntry>)
    requires Flatten(chunks) == Kept(input, sep)
    requires multiset(Selected(listing)) == multiset(MapOutputs(chunks))
    ensures Outcome(listing) == Ok(RenderAll(Ranking(Occurrences(ChunkWords(Kept(input, sep))))))
    ensures forall w :: w in Occurrences(ChunkWords(Kept(input, sep))) ==>
              IsLowerWord(w) && Occurrences(ChunkWords(Kept(input, sep)))[w] >= 1
  {
    MapThenReduce(listing, chunks);
    ChunkWordsLower(Kept(input, sep));
    OccurrencesOfLowerWords(ChunkWords(Kept(input, sep)));
  }

  lemma OccurrencesOfLowerWords(ws: seq<string>)
    requires AllLowerWords(ws)
    ensures forall w :: w in Occurrences(ws) ==> IsLowerWord(w) && Occurrences(ws)[w] >= 1
  {
    forall w | w in Occurrences(ws) ensures IsLowerWord(w) && Occurrences(ws)[w] >= 1 {
      var k :| 0 <= k < |ws| && ws[k] == w;
    }
  }

  // ---------------------------------------------------------------------
  // Reading the final file back
  // ---------------------------------------------------------------------

  /** The table the entries describe, later entries overriding earlier ones. */
  function TableOf(s: seq<WordCount>): Table {
    if s == [] then map[] else Add(TableOf(s[..|s| - 1]), s[|s| - 1].word, s[|s| - 1].count)
  }

  /** The `word:count` lines of entries whose words lack ':' parse cleanly. */
  lemma {:induction false} RenderedOk(s: seq<WordCount>)
    requires forall k :: 0 <= k < |s| ==> ':' !in s[k].word && InIntRange(s[k].count)
    ensures LinesOk(RenderAll(s))
    decreases |s|
  {
    if s != [] {
      var init := s[..|s| - 1];
      var e := s[|s| - 1];
      RenderedOk(init);
      RecordParses(e.word, e.count);
      LinesOkSnoc(RenderAll(init), Render(e));
    }
  }

  /** Read back, the `word:count` lines of entries whose words lack ':' give one count per entry. */
  lemma {:induction false} RenderedTally(s: seq<WordCount>)
    requires forall k :: 0 <= k < |s| ==> ':' !in s[k].word && InIntRange(s[k].count)
    ensures LinesTable(RenderAll(s)) == TableOf(s)
    decreases |s|
  {
    if s != [] {
      var init := s[..|s| - 1];
      var e := s[|s| - 1];
      RenderedTally(init);
      RecordParses(e.word, e.count);
      LinesTableSnoc(RenderAll(init), Render(e), e.word, e.count);
    }
  }

  /** No word occurs in two entries. */
  ghost predicate DistinctWords(s: seq<WordCount>) {
    forall i, j :: 0 <= i < j < |s| ==> s[i].word != s[j].word
  }

  /** Entries with distinct words describe the table holding exactly those words and counts. */
  lemma {:induction false} TableOfDistinct(s: seq<WordCount>)
    requires DistinctWords(s)
    ensures forall w :: w in TableOf(s) <==> exists k :: 0 <= k < |s| && s[k].word == w
    ensures forall k :: 0 <= k < |s| ==> Get(TableOf(s), s[k].word) == s[k].count
    decreases |s|
  {
    if s != [] {
      var init := s[..|s| - 1];
      TableOfDistinct(init);
      assert forall k :: 0 <= k < |init| ==> init[k] == s[k];
    }
  }

  /** The ranking never lists a word twice. */
  lemma RankingWordsDistinct(t: Table)
    ensures DistinctWords(Ranking(t))
  {
    var r := Ranking(t);
    RankingEntries(t);
    RankingOrdered(t);
    forall i, j | 0 <= i < j < |r| ensures r[i].word != r[j].word {
      assert r[i] in r && r[j] in r;
      BeforeTotal(r[i], r[j]);
    }
  }

  /** The entries of the ranking describe the table it ranks. */
  lemma RankingTable(t: Table)
    ensures TableOf(Ranking(t)) == t
  {
    var back := TableOf(Ranking(t));
    forall w ensures (w in back <==> w in t) && Get(back, w) == Get(t, w) {
      RankingTableAt(t, w);
    }
    assert back.Keys == t.Keys;
    TableExt(back, t);
  }

  lemma RankingTableAt(t: Table, w: string)
    ensures w in TableOf(Ranking(t)) <==> w in t
    ensures Get(TableOf(Ranking(t)), w) == Get(t, w)
  {
    if w in t {
      RankingHas(t, w);
    } else {
      RankingLacks(t, w);
    }
  }

  lemma RankingHas(t: Table, w: string)
    requires w in t
    ensures w in TableOf(Ranking(t)) && Get(TableOf(Ranking(t)), w) == t[w]
  {
    var r := Ranking(t);
    RankingEntries(t);
    assert WordCount(w, t[w]) in r;
    var k :| 0 <= k < |r| && r[k] == WordCount(w, t[w]);
    assert DistinctWords(r) by {
      RankingWordsDistinct(t);
    }
    TableOfDistinct(r);
    assert r[k].word == w;
  }

  lemma RankingLacks(t: Table, w: string)
    requires w !in t
    ensures w !in TableOf(Ranking(t))
  {
    var r := Ranking(t);
    RankingEntries(t);
    forall k | 0 <= k < |r| ensures r[k].word != w {
      assert r[k] in r;
    }
    assert DistinctWords(r) by {
      RankingWordsDistinct(t);
    }
    TableOfDistinct(r);
  }

  /**
   * storeFinalCounts, then collectWordCounts on its file: every line parses,
   * and the table comes back unchanged, provided no word holds ':' or a line
   * terminator (each written string must come back as one line) and every
   * count fits in an int.
   */
  lemma ReadBack(t: Table)
    requires forall w :: w in t ==> ':' !in w && '\n' !in w && '\r' !in w && InIntRange(t[w])
    ensures AddLines(map[], RenderAll(Ranking(t))) == Ok(t)
  {
    var r := Ranking(t);
    RankingEntries(t);
    assert forall k :: 0 <= k < |r| ==> r[k] in r;
    RenderedOk(r);
    RenderedTally(r);
    RankingTable(t);
    AddLinesSpec(map[], RenderAll(r));
    MergeEmpty(t);
  }
}
