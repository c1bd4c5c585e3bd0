/**
 * MapReduce.makeChunks: the input file's lines are packed greedily, in
 * order, into chunk files of at most CHUNK_SIZE bytes each, where a line
 * costs the bytes of the line followed by the platform line separator.
 * A line too large for any chunk is skipped; no line is ever split.
 */
module Chunker {
  import opened JavaText

  const CHUNK_SIZE: nat := 500

  /** Bytes of one code point in UTF-8 (the default charset assumed here). */
  function Utf8Width(c: char): (n: nat)
    ensures 1 <= n <= 4
  {
    if c as int < 0x80 then 1
    else if c as int < 0x800 then 2
    else if c as int < 0x1_0000 then 3
    else 4
  }

  /** `s.getBytes(UTF_8).length`. */
  function Utf8Length(s: string): (n: nat)
    ensures |s| <= n <= 4 * |s|
  {
    if s == [] then 0 else Utf8Width(s[0]) + Utf8Length(s[1..])
  }

  /** The bytes written for `line`: the line followed by the separator `sep`. */
  function LineBytes(line: string, sep: string): nat {
    Utf8Length(line + sep)
  }

  /** A line that can go into some chunk; the others are skipped. */
  predicate Fits(line: string, sep: string) {
    LineBytes(line, sep) <= CHUNK_SIZE
  }

  /** The lines of `lines` that fit, in order. */
  function Kept(lines: seq<string>, sep: string): (r: seq<string>)
    ensures |r| <= |lines|
    ensures forall k :: 0 <= k < |r| ==> Fits(r[k], sep)
  {
    if lines == [] then []
    else
      var last := lines[|lines| - 1];
      Kept(lines[..|lines| - 1], sep) + (if Fits(last, sep) then [last] else [])
  }

  /** A line is kept iff it is one of the input lines and fits in a chunk. */
  lemma {:induction false} KeptMembers(lines: seq<string>, sep: string)
    ensures forall x :: x in Kept(lines, sep) <==> x in lines && Fits(x, sep)
    decreases |lines|
  {
    if lines != [] {
      var init := lines[..|lines| - 1];
      KeptMembers(init, sep);
      assert lines == init + [lines[|lines| - 1]];
    }
  }

  /** The bytes of a chunk file: the sum of its lines' costs. */
  function ChunkBytes(chunk: seq<string>, sep: string): nat {
    if chunk == [] then 0 else ChunkBytes(chunk[..|chunk| - 1], sep) + LineBytes(chunk[|chunk| - 1], sep)
  }

  /** The chunks' lines one after the other, in chunk order. */
  function Flatten(chunks: seq<seq<string>>): seq<string> {
    if chunks == [] then [] else Flatten(chunks[..|chunks| - 1]) + chunks[|chunks| - 1]
  }

  /** `"chunk" + String.format("%03d", k) + ".txt"`. */
  function ChunkName(k: nat): string {
    "chunk" + Format03d(k) + ".txt"
  }

  /** No chunk is over CHUNK_SIZE bytes. */
  ghost predicate Bounded(chunks: seq<seq<string>>, sep: string) {
    forall k :: 0 <= k < |chunks| ==> ChunkBytes(chunks[k], sep) <= CHUNK_SIZE
  }

  /** `next` starts with a line that would not have fit after `prev`. */
  predicate Overflows(prev: seq<string>, next: seq<string>, sep: string) {
    next != [] && ChunkBytes(prev, sep) + LineBytes(next[0], sep) > CHUNK_SIZE
  }

  /** Every chunk after the first starts with a line that would have overflowed the chunk before it. */
  ghost predicate Maximal(chunks: seq<seq<string>>, sep: string) {
    forall k :: 0 < k < |chunks| ==> Overflows(chunks[k - 1], chunks[k], sep)
  }

  /** Only a lone chunk may be empty. */
  ghost predicate EmptyOnlyAlone(chunks: seq<seq<string>>) {
    forall k :: 0 <= k < |chunks| ==> chunks[k] != [] || |chunks| == 1
  }

  /**
   * The inner loop of makeChunks: starting at line `start`, lines that do not
   * fit are skipped and the others are appended while they fit in the chunk.
   * The chunk holds exactly the fitting lines of input[start..i]; it starts
   * with input[start] when that line fits; and when lines remain, line i
   * fits on its own but would overflow the chunk.
   */
  method FillChunk(input: seq<string>, start: nat, sep: string) returns (chunk: seq<string>, i: nat)
    requires start < |input|
    ensures start < i <= |input|
    ensures ChunkBytes(chunk, sep) <= CHUNK_SIZE
    ensures Kept(input[..i], sep) == Kept(input[..start], sep) + chunk
    ensures Fits(input[start], sep) ==> chunk != [] && chunk[0] == input[start]
    ensures i < |input| ==>
              chunk != [] && Fits(input[i], sep) && ChunkBytes(chunk, sep) + LineBytes(input[i], sep) > CHUNK_SIZE
  {
    var fileSize := 0;
    chunk := [];
    i := start;
    while i < |input|
      invariant start <= i <= |input|
      invariant fileSize == ChunkBytes(chunk, sep) <= CHUNK_SIZE
      invariant Kept(input[..i], sep) == Kept(input[..start], sep) + chunk
      invariant i == start ==> chunk == []
      invariant Fits(input[start], sep) && i > start ==> chunk != [] && chunk[0] == input[start]
      decreases |input| - i
    {
      var bytes := LineBytes(input[i], sep);
      if bytes > CHUNK_SIZE {
        KeptSkip(input, i, sep);
        i := i + 1;
        continue;
      }
      if fileSize + bytes > CHUNK_SIZE {
        break;
      }
      KeptTake(input, i, sep);
      ChunkBytesAppend(chunk, input[i], sep);
      AppendAssoc(Kept(input[..start], sep), chunk, input[i]);
      chunk := chunk + [input[i]];
      fileSize := fileSize + bytes;
      i := i + 1;
    }
  }

  /**
   * makeChunks on the lines of the input file. Chunk k (from 0) is written
   * to names[k]; the chunks hold exactly the lines that fit, in order, each
   * at most CHUNK_SIZE bytes; a chunk is closed only when the next line
   * would overflow it; no chunk is empty unless no line fits at all, and
   * then there is exactly one, empty, chunk.
   */
  method MakeChunks(input: seq<string>, sep: string) returns (names: seq<string>, chunks: seq<seq<string>>)
    ensures |names| == |chunks|
    ensures forall k :: 0 <= k < |names| ==> names[k] == ChunkName(k + 1)
    ensures Flatten(chunks) == Kept(input, sep)
    ensures Bounded(chunks, sep)
    ensures Maximal(chunks, sep)
    ensures Kept(input, sep) != [] ==> forall k :: 0 <= k < |chunks| ==> chunks[k] != []
    ensures input != [] && Kept(input, sep) == [] ==> chunks == [[]]
    ensures chunks == [] <==> input == []
  {
    var count := 1;
    var i := 0;
    names, chunks := [], [];
    while i < |input|
      invariant 0 <= i <= |input|
      invariant count == |chunks| + 1
      invariant |names| == |chunks|
      invariant forall k :: 0 <= k < |names| ==> names[k] == ChunkName(k + 1)
      invariant Flatten(chunks) == Kept(input[..i], sep)
      invariant Bounded(chunks, sep) && Maximal(chunks, sep) && EmptyOnlyAlone(chunks)
      invariant chunks == [] <==> i == 0
      invariant i < |input| && chunks != [] ==>
                  && chunks[|chunks| - 1] != []
                  && Fits(input[i], sep)
                  && ChunkBytes(chunks[|chunks| - 1], sep) + LineBytes(input[i], sep) > CHUNK_SIZE
      decreases |input| - i
    {
      var name := ChunkName(count);
      count := count + 1;
      var chunk;
      chunk, i := FillChunk(input, i, sep);
      assert Flatten(chunks) + chunk == Kept(input[..i], sep);
      FlattenAppend(chunks, chunk);
      SealChunk(chunks, chunk, sep);
      NameNext(names, names + [name]);
      names := names + [name];
      chunks := chunks + [chunk];
    }
    assert input[..i] == input;
    EmptyChunks(input, chunks, sep);
  }

  lemma NameNext(names: seq<string>, names': seq<string>)
    requires forall k :: 0 <= k < |names| ==> names[k] == ChunkName(k + 1)
    requires names' == names + [ChunkName(|names| + 1)]
    ensures forall k :: 0 <= k < |names'| ==> names'[k] == ChunkName(k + 1)
  {
    forall k | 0 <= k < |names'| ensures names'[k] == ChunkName(k + 1) {
      if k < |names| {
        assert names'[k] == names[k];
      } else {
        assert k == |names|;
      }
    }
  }

  lemma AppendAssoc(a: seq<string>, b: seq<string>, x: string)
    ensures a + (b + [x]) == (a + b) + [x]
  {
  }

  /** Only a lone chunk may be empty, so an empty chunk means that no line fit. */
  lemma EmptyChunks(input: seq<string>, chunks: seq<seq<string>>, sep: string)
    requires Flatten(chunks) == Kept(input, sep) && EmptyOnlyAlone(chunks)
    requires chunks == [] <==> input == []
    ensures Kept(input, sep) != [] ==> forall k :: 0 <= k < |chunks| ==> chunks[k] != []
    ensures input != [] && Kept(input, sep) == [] ==> chunks == [[]]
  {
    if |chunks| == 1 {
      FlattenAppend([], chunks[0]);
      assert [] + [chunks[0]] == chunks;
    } else if chunks != [] {
      var last := chunks[|chunks| - 1];
      assert last != [];
      assert |Flatten(chunks)| >= |last| > 0;
    }
  }

  lemma FlattenAppend(chunks: seq<seq<string>>, chunk: seq<string>)
    ensures Flatten(chunks + [chunk]) == Flatten(chunks) + chunk
  {
    assert (chunks + [chunk])[..|chunks|] == chunks;
  }

  /** Sealing a chunk that respects the bound and, after the first, starts with an overflowing line keeps the packing. */
  lemma SealChunk(chunks: seq<seq<string>>, chunk: seq<string>, sep: string)
    requires Bounded(chunks, sep) && Maximal(chunks, sep) && EmptyOnlyAlone(chunks)
    requires ChunkBytes(chunk, sep) <= CHUNK_SIZE
    requires chunks != [] ==>
               && chunks[|chunks| - 1] != [] && chunk != []
               && ChunkBytes(chunks[|chunks| - 1], sep) + LineBytes(chunk[0], sep) > CHUNK_SIZE
    ensures Bounded(chunks + [chunk], sep) && Maximal(chunks + [chunk], sep) && EmptyOnlyAlone(chunks + [chunk])
  {
    SealBounded(chunks, chunk, sep);
    SealMaximal(chunks, chunk, sep);
    SealNonEmpty(chunks, chunk);
  }

  lemma SealBounded(chunks: seq<seq<string>>, chunk: seq<string>, sep: string)
    requires Bounded(chunks, sep) && ChunkBytes(chunk, sep) <= CHUNK_SIZE
    ensures Bounded(chunks + [chunk], sep)
  {
    var c := chunks + [chunk];
    forall k | 0 <= k < |c| ensures ChunkBytes(c[k], sep) <= CHUNK_SIZE {
      if k < |chunks| {
        assert c[k] == chunks[k];
      }
    }
  }

  lemma SealNonEmpty(chunks: seq<seq<string>>, chunk: seq<string>)
    requires EmptyOnlyAlone(chunks)
    requires chunks != [] ==> chunks[|chunks| - 1] != [] && chunk != []
    ensures EmptyOnlyAlone(chunks + [chunk])
  {
    var c := chunks + [chunk];
    forall k | 0 <= k < |c| ensures c[k] != [] || |c| == 1 {
      if k < |chunks| {
        assert c[k] == chunks[k];
      }
    }
  }

  lemma SealMaximal(chunks: seq<seq<string>>, chunk: seq<string>, sep: string)
    requires Maximal(chunks, sep)
    requires chunks != [] ==>
               && chunk != []
               && ChunkBytes(chunks[|chunks| - 1], sep) + LineBytes(chunk[0], sep) > CHUNK_SIZE
    ensures Maximal(chunks + [chunk], sep)
  {
    var c := chunks + [chunk];
    forall k | 0 < k < |c| ensures Overflows(c[k - 1], c[k], sep) {
      if k < |chunks| {
        assert c[k - 1] == chunks[k - 1] && c[k] == chunks[k];
      } else {
        assert c[k - 1] == chunks[|chunks| - 1] && c[k] == chunk;
      }
    }
  }

  lemma KeptSkip(input: seq<string>, i: nat, sep: string)
    requires i < |input| && !Fits(input[i], sep)
    ensures Kept(input[..i + 1], sep) == Kept(input[..i], sep)
  {
    assert input[..i + 1][..i] == input[..i];
  }

  lemma KeptTake(input: seq<string>, i: nat, sep: string)
    requires i < |input| && Fits(input[i], sep)
    ensures Kept(input[..i + 1], sep) == Kept(input[..i], sep) + [input[i]]
  {
    assert input[..i + 1][..i] == input[..i];
  }

  lemma ChunkBytesAppend(chunk: seq<string>, line: string, sep: string)
    ensures ChunkBytes(chunk + [line], sep) == ChunkBytes(chunk, sep) + LineBytes(line, sep)
  {
    assert (chunk + [line])[..|chunk|] == chunk;
  }

  // ---------------------------------------------------------------------
  // Chunk names
  // ---------------------------------------------------------------------

  /** Distinct ordinals give distinct chunk file names. */
  lemma ChunkNameInjective(j: nat, k: nat)
    requires ChunkName(j) == ChunkName(k)
    ensures j == k
  {
    var a, b := Format03d(j), Format03d(k);
    assert |a| == |b|;
    assert a == ChunkName(j)[5..5 + |a|];
    assert b == ChunkName(k)[5..5 + |b|];
  }

  /** Chunk files are the ones the map phase looks for ("chunk" prefix), never a map artifact. */
  lemma ChunkNameShape(k: nat)
    ensures StartsWith(ChunkName(k), "chunk")
    ensures EndsWith(ChunkName(k), ".txt")
    ensures !StartsWith(ChunkName(k), "map")
  {
    var n := ChunkName(k);
    assert n[..5] == "chunk";
    assert n[0] == 'c';
    assert n[|n| - 4..] == ".txt";
  }
}
