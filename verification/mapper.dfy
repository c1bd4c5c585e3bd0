/**
 * MapReduce.map: every line of a chunk is filtered, split into words, and
 * each word that passes isValidWord is written, lower-cased, as the record
 * `word:1` to the chunk's map file `map-<chunk name without .txt>.txt`.
 */
module Mapper {
  import opened Wrappers
  import opened JavaText
  import opened WordExtractor
  import opened Chunker
  import opened Seqs

  /** The words of `words` that pass isValidWord, lower-cased, in order. */
  function ValidLower(words: seq<string>): (r: seq<string>)
    ensures |r| <= |words|
  {
    if words == [] then []
    else
      var last := words[|words| - 1];
      ValidLower(words[..|words| - 1]) + (if IsValidWord(Some(last)) then [LowerCase(last)] else [])
  }

  /** The words map emits for one line of a chunk. */
  function LineWords(line: string): seq<string> {
    ValidLower(SplitTextIntoWords(Some(FilterPunctuations(Some(line)))))
  }

  /** The words map emits for a whole chunk, line after line. */
  function ChunkWords(chunk: seq<string>): seq<string> {
    if chunk == [] then [] else ChunkWords(chunk[..|chunk| - 1]) + LineWords(chunk[|chunk| - 1])
  }

  /** The record written for each word. */
  function UnitRecords(words: seq<string>): seq<string> {
    if words == [] then [] else UnitRecords(words[..|words| - 1]) + [words[|words| - 1] + ":1"]
  }

  /** `"map-" + name.replace(".txt", "") + ".txt"`. */
  function MapFileName(chunkName: string): (r: string)
    ensures StartsWith(r, "map") && EndsWith(r, ".txt")
  {
    var r := "map-" + RemoveAll(chunkName, ".txt") + ".txt";
    assert r[..3] == "map";
    assert r[|r| - 4..] == ".txt";
    r
  }

  /**
   * The inner loop of map over the words of one line: one `w:1` record,
   * lower-cased, per word that passes isValidWord.
   */
  method EmitRecords(words: seq<string>) returns (records: seq<string>)
    ensures records == UnitRecords(ValidLower(words))
  {
    records := [];
    var j := 0;
    while j < |words|
      invariant 0 <= j <= |words|
      invariant records == UnitRecords(ValidLower(words[..j]))
    {
      var word := words[j];
      ValidLowerStep(words, j);
      if IsValidWord(Some(word)) {
        word := LowerCase(word);
        UnitRecordsAppend(ValidLower(words[..j]), word);
        records := records + [word + ":1"];
      } else {
        assert ValidLower(words[..j + 1]) == ValidLower(words[..j]);
      }
      j := j + 1;
    }
    assert words[..j] == words;
  }

  /**
   * map on a chunk file named `chunkName` holding `chunk`: the map file's
   * name, and its records, one `w:1` per emitted word in line order.
   */
  method Map(chunkName: string, chunk: seq<string>) returns (mapName: string, records: seq<string>)
    ensures mapName == MapFileName(chunkName)
    ensures records == UnitRecords(ChunkWords(chunk))
  {
    mapName := "map-" + RemoveAll(chunkName, ".txt") + ".txt";
    records := MapRecords(chunk);
  }

  /** map's loop over the lines of the chunk. */
  method MapRecords(chunk: seq<string>) returns (records: seq<string>)
    ensures records == UnitRecords(ChunkWords(chunk))
  {
    records := [];
    var i := 0;
    while i < |chunk|
      invariant 0 <= i <= |chunk|
      invariant records == UnitRecords(ChunkWords(chunk[..i]))
    {
      var lineRecords := MapLine(chunk[i]);
      MapStep(chunk, i, lineRecords);
      records := records + lineRecords;
      i := i + 1;
    }
    WholePrefix(chunk);
  }

  /** The body of map's loop over lines: filter the line, split it, emit its records. */
  method MapLine(line: string) returns (lineRecords: seq<string>)
    ensures lineRecords == UnitRecords(LineWords(line))
  {
    var filtered := FilterPunctuations(Some(line));
    var words := SplitTextIntoWords(Some(filtered));
    lineRecords := EmitRecords(words);
  }

  lemma MapStep(chunk: seq<string>, i: nat, lineRecords: seq<string>)
    requires i < |chunk| && lineRecords == UnitRecords(LineWords(chunk[i]))
    ensures UnitRecords(ChunkWords(chunk[..i + 1])) == UnitRecords(ChunkWords(chunk[..i])) + lineRecords
  {
    ChunkWordsStep(chunk, i);
    UnitRecordsConcat(ChunkWords(chunk[..i]), LineWords(chunk[i]));
  }

  lemma ValidLowerStep(words: seq<string>, j: nat)
    requires j < |words|
    ensures ValidLower(words[..j + 1]) ==
              ValidLower(words[..j]) + (if IsValidWord(Some(words[j])) then [LowerCase(words[j])] else [])
  {
    assert words[..j + 1][..j] == words[..j];
  }

  lemma ChunkWordsStep(chunk: seq<string>, i: nat)
    requires i < |chunk|
    ensures ChunkWords(chunk[..i + 1]) == ChunkWords(chunk[..i]) + LineWords(chunk[i])
  {
    PrefixOfPrefix(chunk, i);
  }

  lemma UnitRecordsAppend(words: seq<string>, w: string)
    ensures UnitRecords(words + [w]) == UnitRecords(words) + [w + ":1"]
  {
    assert (words + [w])[..|words|] == words;
  }

  lemma {:induction false} UnitRecordsConcat(a: seq<string>, b: seq<string>)
    ensures UnitRecords(a + b) == UnitRecords(a) + UnitRecords(b)
    decreases |b|
  {
    if b == [] {
      assert a + b == a;
    } else {
      var init := b[..|b| - 1];
      var w := b[|b| - 1];
      assert a + b == (a + init) + [w];
      UnitRecordsAppend(a + init, w);
      UnitRecordsConcat(a, init);
      assert b == init + [w];
      UnitRecordsAppend(init, w);
    }
  }

  // ---------------------------------------------------------------------
  // What map emits
  // ---------------------------------------------------------------------

  lemma {:induction false} ValidLowerKeeps(words: seq<string>)
    requires forall k :: 0 <= k < |words| ==> IsValidWord(Some(words[k])) && LowerCase(words[k]) == words[k]
    ensures ValidLower(words) == words
    decreases |words|
  {
    if words != [] {
      var init := words[..|words| - 1];
      ValidLowerKeeps(init);
      assert words == init + [words[|words| - 1]];
    }
  }

  /**
   * The words map emits for a line are the words of the filtered line, and
   * none at all when filtering leaves nothing: isValidWord only ever rejects
   * the single empty word, and lower-casing changes nothing.
   */
  lemma LineWordsAreFilteredWords(line: string)
    ensures FilterPunctuations(Some(line)) == [] ==> LineWords(line) == []
    ensures FilterPunctuations(Some(line)) != [] ==>
              LineWords(line) == SplitTextIntoWords(Some(FilterPunctuations(Some(line))))
  {
    var f := FilterPunctuations(Some(line));
    assert IsNormalised(f) by {
      FilterPunctuationsSpec(Some(line));
    }
    var ws := SplitTextIntoWords(Some(f));
    assert LineWords(line) == ValidLower(ws);
    NormalisedWordsValid(f);
    if f == [] {
      EmptyWordDropped();
    } else {
      AllValidLowerKept(ws);
    }
  }

  /**
   * The words map emits for a line, in order: the letters and digits,
   * lower-cased, of each `\s`-separated piece of the line that has any.
   */
  lemma LineWordsArePieces(line: string)
    ensures LineWords(line) == LowerAll(AlnumPieces(Runs(line)))
  {
    LineWordsAreFilteredWords(line);
    FilteredWords(line);
  }

  lemma EmptyWordDropped()
    ensures ValidLower([[]]) == []
  {
    var ws: seq<string> := [[]];
    assert ws[..0] == [];
    assert !IsValidWord(Some(ws[0]));
  }

  lemma AllValidLowerKept(ws: seq<string>)
    requires forall w :: w in ws ==> IsValidWord(Some(w)) && LowerCase(w) == w
    ensures ValidLower(ws) == ws
  {
    forall k | 0 <= k < |ws| ensures IsValidWord(Some(ws[k])) && LowerCase(ws[k]) == ws[k] {
      assert ws[k] in ws;
    }
    ValidLowerKeeps(ws);
  }

  /** Joined with single spaces, the words map emits for a line rebuild the filtered line. */
  lemma LineWordsJoin(line: string)
    ensures JoinWithSpaces(LineWords(line)) == FilterPunctuations(Some(line))
  {
    var f := FilterPunctuations(Some(line));
    FilterPunctuationsSpec(Some(line));
    LineWordsAreFilteredWords(line);
    if f != [] {
      SplitJoin(f);
    }
  }

  /** A non-empty word of `[a-z0-9]`. */
  predicate IsLowerWord(w: string) {
    w != [] && forall j :: 0 <= j < |w| ==> IsLowerAlnum(w[j])
  }

  predicate AllLowerWords(ws: seq<string>) {
    forall k :: 0 <= k < |ws| ==> IsLowerWord(ws[k])
  }

  /** Every word map emits is a non-empty run of `[a-z0-9]`. */
  lemma {:induction false} ChunkWordsLower(chunk: seq<string>)
    ensures AllLowerWords(ChunkWords(chunk))
    decreases |chunk|
  {
    if chunk != [] {
      var init := chunk[..|chunk| - 1];
      var line := chunk[|chunk| - 1];
      ChunkWordsLower(init);
      LineWordsLower(line);
      assert ChunkWords(chunk) == ChunkWords(init) + LineWords(line);
      AllLowerConcat(ChunkWords(init), LineWords(line));
    }
  }

  lemma AllLowerConcat(a: seq<string>, b: seq<string>)
    requires AllLowerWords(a) && AllLowerWords(b)
    ensures AllLowerWords(a + b)
  {
    forall k | 0 <= k < |a + b| ensures IsLowerWord((a + b)[k]) {
      if k < |a| {
        assert (a + b)[k] == a[k];
      } else {
        assert (a + b)[k] == b[k - |a|];
      }
    }
  }

  lemma LineWordsLower(line: string)
    ensures AllLowerWords(LineWords(line))
  {
    var f := FilterPunctuations(Some(line));
    var ws := LineWords(line);
    LineWordsAreFilteredWords(line);
    if f != [] {
      assert IsNormalised(f) by {
        FilterPunctuationsSpec(Some(line));
      }
      NormalisedWordsValid(f);
      forall k | 0 <= k < |ws| ensures IsLowerWord(ws[k]) {
        assert ws[k] in SplitTextIntoWords(Some(f));
        ValidIsLowerWord(ws[k]);
      }
    }
  }

  lemma ValidIsLowerWord(w: string)
    requires IsValidWord(Some(w)) && LowerCase(w) == w
    ensures IsLowerWord(w)
  {
    forall j | 0 <= j < |w| ensures IsLowerAlnum(w[j]) {
      assert w[j] == ToLower(w[j]);
    }
  }

  // ---------------------------------------------------------------------
  // Map file names
  // ---------------------------------------------------------------------

  /** The map file of chunk k is `map-chunk<k as %03d>.txt`: the name of the chunk behind "map-". */
  lemma MapFileNameOfChunk(k: nat)
    ensures MapFileName(ChunkName(k)) == "map-" + ChunkName(k)
  {
    var d := Format03d(k);
    var x := "chunk" + d;
    assert '.' !in x by {
      forall j | 0 <= j < |x| ensures x[j] != '.' {
        if j >= 5 {
          assert x[j] == d[j - 5];
        }
      }
    }
    assert "chunk" + d + ".txt" == x + ".txt";
    RemoveAllSkips(x, ".txt", ".txt");
    assert ".txt"[..4] == ".txt";
    assert RemoveAll(".txt", ".txt") == RemoveAll([], ".txt");
    assert x + [] == x;
  }
}
