/**
 * MapReduce.collectWordCounts and MapReduce.reduce: every `map*.txt` file of
 * the map directory is read line by line; a line that splits on ':' into
 * exactly two fields adds its count to its word; a count that is not an int
 * aborts the whole reduce, and so does a map file that cannot be read.
 */
module Reducer {
  import opened Wrappers
  import opened JavaText
  import opened Files
  import opened CountTables
  import opened FinalCounts
  import opened Seqs

  /**
   * Why reduce stops before writing anything: a listed map file that cannot
   * be opened (FileNotFoundException), or a count field that Integer.parseInt
   * rejects (NumberFormatException).
   */
  datatype ReduceError = ReadFailed | BadCount(text: string)

  /** What collectWordCounts makes of one line. */
  datatype LineParse = Skipped | Counted(word: string, count: int) | Malformed(text: string)

  function ParseLine(line: string): (r: LineParse)
    ensures r.Counted? ==> ':' !in r.word && InIntRange(r.count)
  {
    var parts := Split(line, ':');
    if |parts| != 2 then Skipped
    else
      match ParseInt(parts[1])
      case None => Malformed(parts[1])
      case Some(n) => Counted(parts[0], n)
  }

  /** A line without ':' is one field and is skipped. */
  lemma NoColonSkipped(line: string)
    requires ':' !in line
    ensures ParseLine(line).Skipped?
  {
  }

  /** Two fields whose second is not an int make the line malformed. */
  lemma ParseLineMalformed(w: string, v: string)
    requires ':' !in w && ':' !in v && v != [] && ParseInt(v).None?
    ensures ParseLine(w + ":" + v) == Malformed(v)
  {
    SplitPair(w, v, ':');
    assert w + ":" + v == w + [':'] + v;
  }

  /** A line with a third field that is not all colons is skipped, whatever its second field holds. */
  lemma ParseLineManyFields(w: string, v: string, u: string)
    requires ':' !in w && ':' !in v
    requires exists m :: 0 <= m < |u| && u[m] != ':'
    ensures ParseLine(w + ":" + v + ":" + u) == Skipped
  {
    SplitManyFields(w, v, u, ':');
    assert w + ":" + v + ":" + u == w + [':'] + v + [':'] + u;
  }

  /**
   * A line is counted as n occurrences of w exactly when it is w, ':', a
   * colon-free text that parses to n, and nothing but colons after that.
   */
  lemma ParseLineCounted(line: string, w: string, n: int)
    ensures ParseLine(line) == Counted(w, n) <==>
            exists v, k :: CountedLine(line, w, v, k) && ParseInt(v) == Some(n)
  {
    if ParseLine(line) == Counted(w, n) {
      var parts := Split(line, ':');
      assert ':' in line;
      SplitRejoins(line, ':');
      var k :| line == JoinSep(parts, ':') + Repeat(':', k);
      assert parts[1..] == [parts[1]];
      assert JoinSep(parts, ':') == w + ":" + parts[1];
      assert CountedLine(line, w, parts[1], k);
    }
    if exists v, k :: CountedLine(line, w, v, k) && ParseInt(v) == Some(n) {
      var v, k :| CountedLine(line, w, v, k) && ParseInt(v) == Some(n);
      SplitTwoFields(w, v, k, ':');
      assert line == w + [':'] + v + Repeat(':', k);
    }
  }

  /** `line` is the field w, ':', the non-empty field v and k more colons. */
  predicate CountedLine(line: string, w: string, v: string, k: nat) {
    ':' !in w && ':' !in v && v != [] && line == w + ":" + v + Repeat(':', k)
  }

  /** The line `word:count` that storeFinalCounts writes is read back as that word and count. */
  lemma RecordParses(w: string, n: int)
    requires ':' !in w && InIntRange(n)
    ensures ParseLine(w + ":" + IntToString(n)) == Counted(w, n)
  {
    var v := IntToString(n);
    assert ':' !in v by {
      var d := Decimal(if n < 0 then -n else n);
      assert forall k :: 0 <= k < |d| ==> d[k] != ':';
      if n < 0 {
        assert v == "-" + d;
        assert forall k :: 1 <= k < |v| ==> v[k] == d[k - 1];
      }
    }
    SplitPair(w, v, ':');
    assert w + ":" + v == w + [':'] + v;
    ParseIntToString(n);
  }

  /** The record `w:1` that map writes is read back as one occurrence of w. */
  lemma UnitRecordParses(w: string)
    requires ':' !in w
    ensures ParseLine(w + ":1") == Counted(w, 1)
  {
    assert DigitChar(1) == '1';
    assert IntToString(1) == "1";
    RecordParses(w, 1);
    assert w + ":" + "1" == w + ":1";
  }

  // ---------------------------------------------------------------------
  // collectWordCounts, step by step
  // ---------------------------------------------------------------------

  /** The table after one more line. */
  function AddLine(t: Table, line: string): Result<Table, ReduceError> {
    match ParseLine(line)
    case Skipped => Ok(t)
    case Counted(w, n) => Ok(Add(t, w, n))
    case Malformed(x) => Err(BadCount(x))
  }

  /** The table after the lines of one map file, in order; the first bad count aborts. */
  function AddLines(t: Table, lines: seq<string>): Result<Table, ReduceError>
    decreases |lines|
  {
    if lines == [] then Ok(t)
    else
      match AddLines(t, lines[..|lines| - 1])
      case Err(e) => Err(e)
      case Ok(t') => AddLine(t', lines[|lines| - 1])
  }

  /** The table after the map files, in order; an unreadable file aborts. */
  function AddFiles(t: Table, files: seq<Entry>): Result<Table, ReduceError>
    decreases |files|
  {
    if files == [] then Ok(t)
    else
      match AddFiles(t, files[..|files| - 1])
      case Err(e) => Err(e)
      case Ok(t') =>
        match files[|files| - 1]
        case Folder => Err(ReadFailed)
        case File(lines) => AddLines(t', lines)
  }

  lemma {:induction false} AddLinesErrSticks(t: Table, lines: seq<string>, k: nat)
    requires k <= |lines| && AddLines(t, lines[..k]).Err?
    ensures AddLines(t, lines) == AddLines(t, lines[..k])
    decreases |lines| - k
  {
    if k < |lines| {
      var init := lines[..|lines| - 1];
      if k < |init| {
        assert init[..k] == lines[..k];
        AddLinesErrSticks(t, init, k);
      } else {
        assert init == lines[..k];
      }
      assert lines[..k] == lines[..k][..k];
    } else {
      assert lines[..k] == lines;
    }
  }

  lemma {:induction false} AddFilesErrSticks(t: Table, files: seq<Entry>, k: nat)
    requires k <= |files| && AddFiles(t, files[..k]).Err?
    ensures AddFiles(t, files) == AddFiles(t, files[..k])
    decreases |files| - k
  {
    if k < |files| {
      var init := files[..|files| - 1];
      if k < |init| {
        assert init[..k] == files[..k];
        AddFilesErrSticks(t, init, k);
      } else {
        assert init == files[..k];
      }
      assert files[..k] == files[..k][..k];
    } else {
      assert files[..k] == files;
    }
  }

  lemma AddLinesNext(t: Table, lines: seq<string>, i: nat)
    requires i < |lines| && AddLines(t, lines[..i]).Ok?
    ensures AddLines(t, lines[..i + 1]) == AddLine(AddLines(t, lines[..i]).value, lines[i])
  {
    assert lines[..i + 1][..i] == lines[..i];
  }

  lemma AddFilesNext(t: Table, files: seq<Entry>, i: nat)
    requires i < |files| && AddFiles(t, files[..i]).Ok?
    ensures files[i].Folder? ==> AddFiles(t, files[..i + 1]) == Err(ReadFailed)
    ensures files[i].File? ==> AddFiles(t, files[..i + 1]) == AddLines(AddFiles(t, files[..i]).value, files[i].lines)
  {
    assert files[..i + 1][..i] == files[..i];
  }

  /** The inner loop of collectWordCounts: the lines of one map file. */
  method ReadLines(t: Table, lines: seq<string>) returns (r: Result<Table, ReduceError>)
    ensures r == AddLines(t, lines)
  {
    var counts := t;
    var i := 0;
    while i < |lines|
      invariant 0 <= i <= |lines|
      invariant AddLines(t, lines[..i]) == Ok(counts)
    {
      AddLinesNext(t, lines, i);
      match ParseLine(lines[i]) {
        case Skipped =>
        case Malformed(text) =>
          AddLinesErrSticks(t, lines, i + 1);
          return Err(BadCount(text));
        case Counted(word, count) =>
          counts := Add(counts, word, count);
      }
      i := i + 1;
    }
    assert lines[..i] == lines;
    return Ok(counts);
  }

  /**
   * collectWordCounts over the map files, given by what opening each path
   * yields: the summed counts, or the first failure.
   */
  method CollectWordCounts(mapFiles: seq<Entry>) returns (r: Result<Table, ReduceError>)
    ensures r == AddFiles(map[], mapFiles)
    ensures r.Ok? <==> AllReadable(mapFiles)
    ensures r.Ok? ==> r.value == Tally(mapFiles)
  {
    var totalCounts: Table := map[];
    var i := 0;
    while i < |mapFiles|
      invariant 0 <= i <= |mapFiles|
      invariant AddFiles(map[], mapFiles[..i]) == Ok(totalCounts)
    {
      AddFilesNext(map[], mapFiles, i);
      match mapFiles[i] {
        case Folder =>
          AddFilesErrSticks(map[], mapFiles, i + 1);
          r := Err(ReadFailed);
          AddFilesSpec(map[], mapFiles);
          return;
        case File(lines) =>
          var next := ReadLines(totalCounts, lines);
          if next.Err? {
            AddFilesErrSticks(map[], mapFiles, i + 1);
            r := next;
            AddFilesSpec(map[], mapFiles);
            return;
          }
          totalCounts := next.value;
      }
      i := i + 1;
    }
    assert mapFiles[..i] == mapFiles;
    r := Ok(totalCounts);
    AddFilesSpec(map[], mapFiles);
    MergeEmpty(Tally(mapFiles));
  }

  // ---------------------------------------------------------------------
  // What collectWordCounts computes, whatever the order
  // ---------------------------------------------------------------------

  predicate LineOk(line: string) {
    !ParseLine(line).Malformed?
  }

  /** A map file collectWordCounts can read to the end. */
  predicate Readable(e: Entry) {
    e.File? && forall k :: 0 <= k < |e.lines| ==> LineOk(e.lines[k])
  }

  predicate AllReadable(files: seq<Entry>) {
    forall k :: 0 <= k < |files| ==> Readable(files[k])
  }

  /** The counts of one file's lines, word by word. */
  function LinesTable(lines: seq<string>): Table {
    if lines == [] then map[]
    else
      var t := LinesTable(lines[..|lines| - 1]);
      match ParseLine(lines[|lines| - 1])
      case Counted(w, n) => Add(t, w, n)
      case _ => t
  }

  function EntryTable(e: Entry): Table {
    if e.File? then LinesTable(e.lines) else map[]
  }

  /** The counts of all files, merged. */
  function Tally(files: seq<Entry>): Table {
    if files == [] then map[] else Merge(Tally(files[..|files| - 1]), EntryTable(files[|files| - 1]))
  }

  /** Reading lines into a table succeeds iff no count is malformed, and merges the lines' counts in. */
  lemma {:induction false} AddLinesSpec(t: Table, lines: seq<string>)
    ensures AddLines(t, lines).Ok? <==> forall k :: 0 <= k < |lines| ==> LineOk(lines[k])
    ensures AddLines(t, lines).Ok? ==> AddLines(t, lines).value == Merge(t, LinesTable(lines))
    decreases |lines|
  {
    if lines == [] {
      MergeEmpty(t);
    } else {
      var init := lines[..|lines| - 1];
      var last := lines[|lines| - 1];
      AddLinesSpec(t, init);
      assert forall k :: 0 <= k < |init| ==> init[k] == lines[k];
      if AddLines(t, init).Ok? {
        match ParseLine(last)
        case Counted(w, n) =>
          AddIsMerge(Merge(t, LinesTable(init)), w, n);
          AddIsMerge(LinesTable(init), w, n);
          MergeAssociates(t, LinesTable(init), map[w := n]);
        case Skipped =>
        case Malformed(_) =>
      }
    }
  }

  lemma {:induction false} AddFilesSpec(t: Table, files: seq<Entry>)
    ensures AddFiles(t, files).Ok? <==> AllReadable(files)
    ensures AddFiles(t, files).Ok? ==> AddFiles(t, files).value == Merge(t, Tally(files))
    decreases |files|
  {
    if files == [] {
      MergeEmpty(t);
    } else {
      var init := files[..|files| - 1];
      var last := files[|files| - 1];
      AddFilesSpec(t, init);
      AllReadableSnoc(files);
      if AddFiles(t, init).Ok? && last.File? {
        var t' := Merge(t, Tally(init));
        AddLinesSpec(t', last.lines);
        MergeAssociates(t, Tally(init), LinesTable(last.lines));
      }
    }
  }

  lemma AllReadableSnoc(files: seq<Entry>)
    requires files != []
    ensures AllReadable(files) <==> AllReadable(files[..|files| - 1]) && Readable(files[|files| - 1])
  {
    var init := files[..|files| - 1];
    assert forall k :: 0 <= k < |init| ==> init[k] == files[k];
  }

  // ---------------------------------------------------------------------
  // reduce
  // ---------------------------------------------------------------------

  /** The FilenameFilter of reduce: `name.startsWith("map") && name.endsWith(".txt")`. */
  predicate IsMapArtifact(name: string) {
    StartsWith(name, "map") && EndsWith(name, ".txt")
  }

  /** The map files listFiles returns, in listing order. */
  function Selected(listing: seq<DirEntry>): seq<Entry> {
    if listing == [] then []
    else
      var last := listing[|listing| - 1];
      Selected(listing[..|listing| - 1]) + (if IsMapArtifact(last.name) then [last.entry] else [])
  }

  /** What reduce ends with for a directory whose listing succeeded: the output lines, or the failure. */
  ghost function Outcome(listing: seq<DirEntry>): Result<seq<string>, ReduceError> {
    match AddFiles(map[], Selected(listing))
    case Err(e) => Err(e)
    case Ok(t) => Ok(RenderAll(Ranking(t)))
  }

  /**
   * reduce on the map directory: None when the directory cannot be listed
   * (nothing is read or written); otherwise the lines of the output file,
   * or the failure that stopped reduce before it wrote anything.
   */
  method Reduce(listing: Option<seq<DirEntry>>) returns (out: Option<Result<seq<string>, ReduceError>>)
    ensures listing.None? ==> out.None?
    ensures listing.Some? ==> out == Some(Outcome(listing.value))
  {
    if listing.None? {
      return None;
    }
    var entries := listing.value;
    var mapFiles: seq<Entry> := [];
    var i := 0;
    while i < |entries|
      invariant 0 <= i <= |entries|
      invariant mapFiles == Selected(entries[..i])
    {
      assert entries[..i + 1][..i] == entries[..i];
      if IsMapArtifact(entries[i].name) {
        mapFiles := mapFiles + [entries[i].entry];
      }
      i := i + 1;
    }
    assert entries[..i] == entries;
    var wordCounts := CollectWordCounts(mapFiles);
    if wordCounts.Err? {
      return Some(Err(wordCounts.error));
    }
    var lines := StoreFinalCounts(wordCounts.value);
    return Some(Ok(lines));
  }

  // ---------------------------------------------------------------------
  // Properties of reduce
  // ---------------------------------------------------------------------

  /** Every map file of the listing is a readable file. */
  predicate ArtifactsReadable(listing: seq<DirEntry>) {
    forall e :: e in listing && IsMapArtifact(e.name) ==> Readable(e.entry)
  }

  /** The counts of the listing's map files, merged. */
  function ListingTally(listing: seq<DirEntry>): Table {
    if listing == [] then map[]
    else Merge(ListingTally(listing[..|listing| - 1]), ArtifactTable(listing[|listing| - 1]))
  }

  function ArtifactTable(e: DirEntry): Table {
    if IsMapArtifact(e.name) then EntryTable(e.entry) else map[]
  }

  /**
   * reduce succeeds iff every map file is readable with well-formed counts;
   * then it writes the ranking of the summed counts of exactly the map files.
   */
  lemma OutcomeSpec(listing: seq<DirEntry>)
    ensures Outcome(listing).Ok? <==> ArtifactsReadable(listing)
    ensures Outcome(listing).Ok? ==> Outcome(listing).value == RenderAll(Ranking(ListingTally(listing)))
  {
    AddFilesSpec(map[], Selected(listing));
    SelectedReadable(listing);
    SelectedTally(listing);
    MergeEmpty(ListingTally(listing));
  }

  lemma {:induction false} SelectedReadable(listing: seq<DirEntry>)
    ensures AllReadable(Selected(listing)) <==> ArtifactsReadable(listing)
    decreases |listing|
  {
    if listing != [] {
      var init := listing[..|listing| - 1];
      var last := listing[|listing| - 1];
      SelectedReadable(init);
      assert listing == init + [last];
      var s := Selected(listing);
      assert forall k :: 0 <= k < |Selected(init)| ==> s[k] == Selected(init)[k];
      if IsMapArtifact(last.name) {
        assert s[|s| - 1] == last.entry;
      }
    }
  }

  lemma {:induction false} SelectedTally(listing: seq<DirEntry>)
    ensures Tally(Selected(listing)) == ListingTally(listing)
    decreases |listing|
  {
    if listing != [] {
      var init := listing[..|listing| - 1];
      var last := listing[|listing| - 1];
      SelectedTally(init);
      var s := Selected(listing);
      if IsMapArtifact(last.name) {
        assert s[..|s| - 1] == Selected(init);
      } else {
        assert s == Selected(init);
        assert ArtifactTable(last) == map[];
        MergeEmpty(ListingTally(init));
      }
    }
  }

  /**
   * The order in which listFiles returns the entries does not matter:
   * whether reduce succeeds, and what it writes, depend only on which
   * entries the directory holds.
   */
  lemma OrderIndependent(a: seq<DirEntry>, b: seq<DirEntry>)
    requires multiset(a) == multiset(b)
    ensures Outcome(a).Ok? <==> Outcome(b).Ok?
    ensures Outcome(a).Ok? ==> Outcome(a) == Outcome(b)
  {
    OutcomeSpec(a);
    OutcomeSpec(b);
    assert forall e :: e in a <==> e in b by {
      forall e ensures e in a <==> e in b {
        assert e in a <==> e in multiset(a);
        assert e in b <==> e in multiset(b);
      }
    }
    ListingTallyPermutation(a, b);
  }

  lemma {:induction false} ListingTallyPermutation(a: seq<DirEntry>, b: seq<DirEntry>)
    requires multiset(a) == multiset(b)
    ensures ListingTally(a) == ListingTally(b)
    decreases |a|
  {
    if a == [] {
      assert b == [] by {
        assert |b| == |multiset(b)| == 0;
      }
    } else {
      var init := a[..|a| - 1];
      var x := a[|a| - 1];
      assert a == init + [x];
      assert x in multiset(b);
      var j :| 0 <= j < |b| && b[j] == x;
      var rest := b[..j] + b[j + 1..];
      assert b == b[..j] + [x] + b[j + 1..];
      RemoveKeepsRest(a, b, j);
      ListingTallyPermutation(init, rest);
      ListingTallyRemove(b, j);
    }
  }

  lemma RemoveKeepsRest<T>(a: seq<T>, b: seq<T>, j: nat)
    requires multiset(a) == multiset(b) && a != [] && j < |b| && b[j] == a[|a| - 1]
    ensures multiset(b[..j] + b[j + 1..]) == multiset(a[..|a| - 1])
  {
    var x := b[j];
    assert a == a[..|a| - 1] + [x];
    assert b == b[..j] + [x] + b[j + 1..];
    calc {
      multiset(b[..j] + b[j + 1..]);
      multiset(b[..j]) + multiset(b[j + 1..]);
      multiset(b) - multiset{x};
      multiset(a) - multiset{x};
      multiset(a[..|a| - 1]);
    }
  }

  /** Taking one entry out of the listing takes its counts out of the tally. */
  lemma {:induction false} ListingTallyRemove(b: seq<DirEntry>, j: nat)
    requires j < |b|
    ensures ListingTally(b) == Merge(ListingTally(b[..j] + b[j + 1..]), ArtifactTable(b[j]))
    decreases |b|
  {
    var init := b[..|b| - 1];
    var y := b[|b| - 1];
    if j == |b| - 1 {
      assert b[..j] + b[j + 1..] == init;
    } else {
      ListingTallyRemove(init, j);
      var rest := init[..j] + init[j + 1..];
      RemoveSnoc(b, j);
      ListingTallySnoc(rest, y);
      assert init[j] == b[j];
      MergeSwap(ListingTally(rest), ArtifactTable(b[j]), ArtifactTable(y));
    }
  }

  /** The counts of the map files, summed, do not depend on the order they are read in. */
  lemma {:induction false} TallyPermutation(a: seq<Entry>, b: seq<Entry>)
    requires multiset(a) == multiset(b)
    ensures Tally(a) == Tally(b)
    decreases |a|
  {
    if a == [] {
      assert b == [] by {
        assert |b| == |multiset(b)| == 0;
      }
    } else {
      var init := a[..|a| - 1];
      var x := a[|a| - 1];
      assert x in multiset(b);
      var j :| 0 <= j < |b| && b[j] == x;
      RemoveKeepsRest(a, b, j);
      TallyPermutation(init, b[..j] + b[j + 1..]);
      TallyRemove(b, j);
    }
  }

  /** Taking one file out takes its counts out of the tally. */
  lemma {:induction false} TallyRemove(b: seq<Entry>, j: nat)
    requires j < |b|
    ensures Tally(b) == Merge(Tally(b[..j] + b[j + 1..]), EntryTable(b[j]))
    decreases |b|
  {
    var init := b[..|b| - 1];
    var y := b[|b| - 1];
    if j == |b| - 1 {
      assert b[..j] + b[j + 1..] == init;
    } else {
      TallyRemove(init, j);
      var rest := init[..j] + init[j + 1..];
      RemoveSnoc(b, j);
      TallySnoc(rest, y);
      assert init[j] == b[j];
      MergeSwap(Tally(rest), EntryTable(b[j]), EntryTable(y));
    }
  }

  lemma TallySnoc(a: seq<Entry>, y: Entry)
    ensures Tally(a + [y]) == Merge(Tally(a), EntryTable(y))
  {
    assert (a + [y])[..|a|] == a;
  }

  /** Whether every map file can be read does not depend on their order. */
  lemma ReadablePermutation(a: seq<Entry>, b: seq<Entry>)
    requires multiset(a) == multiset(b)
    ensures AllReadable(a) <==> AllReadable(b)
  {
    forall e ensures e in a <==> e in b {
      assert e in a <==> e in multiset(a);
      assert e in b <==> e in multiset(b);
    }
    assert AllReadable(a) <==> forall e :: e in a ==> Readable(e);
    assert AllReadable(b) <==> forall e :: e in b ==> Readable(e);
  }

  lemma RemoveSnoc<T>(b: seq<T>, j: nat)
    requires j < |b| - 1
    ensures b[..j] + b[j + 1..] == (b[..|b| - 1][..j] + b[..|b| - 1][j + 1..]) + [b[|b| - 1]]
  {
    var init := b[..|b| - 1];
    assert b[..j] == init[..j];
    assert b[j + 1..] == init[j + 1..] + [b[|b| - 1]];
  }

  lemma ListingTallySnoc(a: seq<DirEntry>, y: DirEntry)
    ensures ListingTally(a + [y]) == Merge(ListingTally(a), ArtifactTable(y))
  {
    assert (a + [y])[..|a|] == a;
  }

  /** Entries whose names are not `map*.txt` add nothing to what listFiles selects. */
  lemma {:induction false} SelectedIgnoresOthers(a: seq<DirEntry>, others: seq<DirEntry>)
    requires forall e :: e in others ==> !IsMapArtifact(e.name)
    ensures Selected(a + others) == Selected(a)
    decreases |others|
  {
    if others != [] {
      var init := others[..|others| - 1];
      assert (a + others)[..|a + others| - 1] == a + init;
      var last := others[|others| - 1];
      assert (a + others)[|a + others| - 1] == last;
      assert last in others;
      assert forall e :: e in init ==> e in others;
      SelectedIgnoresOthers(a, init);
    } else {
      assert a + others == a;
    }
  }

  /** Only the `map*.txt` entries are read: other entries in the directory change nothing. */
  lemma OnlyArtifactsRead(a: seq<DirEntry>, others: seq<DirEntry>)
    requires forall e :: e in others ==> !IsMapArtifact(e.name)
    ensures Outcome(a + others) == Outcome(a)
  {
    SelectedIgnoresOthers(a, others);
  }
}
