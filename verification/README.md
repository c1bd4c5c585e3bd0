# Word-count MapReduce over gRPC: a Dafny model

This project models the core of a small word-count MapReduce system: the
`MapReduce` class of task 2 (chunking, the map and reduce phases, and the
final sorted output) and the `MrClient` coordinator of task 3 (it registers
the chunk files as jobs, streams map requests and asks for the reduce once
every job is reported completed).

- **Chunking** (`Chunker`, `chunker.dfy`): `makeChunks` packs the lines of
  the input file greedily, in order, into files `chunk001.txt`,
  `chunk002.txt`, … of at most 500 bytes. A line costs its UTF-8 bytes plus
  the line separator's. A line too large for any chunk is skipped, and no
  line is ever split. `MakeChunks` is proved to keep exactly the fitting
  lines, in order, and to keep every chunk within the bound. It is also
  proved to close a chunk only when the next line would overflow it.
- **Words** (`WordExtractor`, `word_extractor.dfy`; string primitives in
  `JavaText`, `java_text.dfy`): this covers `filterPunctuations`,
  `splitTextIntoWords` and `isValidWord`.
  - `filterPunctuations` keeps the ASCII letters and digits of the line, in
    order and lower-cased. Every other char is deleted, except Java's `\s`
    chars: each maximal run of those becomes a single space, and none is left
    at either end. The function is idempotent.
  - The words a line yields are, in order, the lower-cased letters and digits
    of each `\s`-separated piece of the line that has any (`FilteredWords`).
  - `splitTextIntoWords` cuts a filtered line into words that joined with
    spaces give the line back.
  - `isValidWord` holds exactly for non-empty ASCII alphanumeric words.
- **Map** (`Mapper`, `mapper.dfy`): `map` writes one `word:1` record per
  valid word, lower-cased, to `map-chunkNNN.txt`. Every word it emits is a
  non-empty run of `[a-z0-9]`.
- **Reduce** (`Reducer`, `count_tables.dfy`, `final_counts.dfy`):
  - `collectWordCounts` sums the counts of `word:count` lines. A line that
    does not split into exactly two fields on `:` is skipped. A count that
    `Integer.parseInt` rejects aborts the reduce, and so does a listed map
    file that cannot be opened.
  - `storeFinalCounts` writes the entries sorted by count descending, then
    by word. Whatever order the hash map yields its entries in, the output
    is the same (`StoreFinalCounts`, `SortedUnique`).
  - Which order the directory lists its files in does not matter, and
    neither do files not named `map*.txt` (`OrderIndependent`,
    `OnlyArtifactsRead`).
- **Pipeline** (`pipeline.dfy`): after chunking and mapping, reduce writes
  the ranking of how often each word occurs in the kept input lines
  (`MapThenReduce`, `InputCounts`), whatever order `listFiles` returns the map
  files in. Reading the final file back with
  `collectWordCounts` gives the table it was written from (`ReadBack`).
- **Coordinator** (`Coordinator`, `coordinator.dfy`): `MrClient` is a class
  whose `jobStatus` field is a map from chunk path to status.
  - Registration adds every chunk file as pending (1).
  - `requestMap` sends one request per job.
  - One map response with status 2 marks every job completed.
  - The reduce gate holds iff the table is non-empty and every job is
    completed. For a fresh client this means the chunk directory held a
    chunk file and the map server answered 2 at least once
    (`FreshRunGate`).

Files and directories are values: a file is its sequence of lines
(`Files.Entry`). A directory listing is a sequence of named entries. A
listing that fails (`listFiles` returning `null`) is `None`. The platform
line separator is a parameter. The map server's responses and the reduce
server's status are parameters of the client run.

## Model

| member | source | states |
|---|---|---|
| JavaText.LowerCase | Tasks/app/src/main/java/io/grpc/filesystem/task2/MapReduce.java:70 | `toLowerCase` keeps the length and lower-cases char by char; only `A`–`Z` change |
| JavaText.Trim | Tasks/app/src/main/java/io/grpc/filesystem/task2/MapReduce.java:69 | `trim` leaves a string that neither starts nor ends with a char up to U+0020; the result is empty iff every char is such a char |
| JavaText.TrimInfix | Tasks/app/src/main/java/io/grpc/filesystem/task2/MapReduce.java:69 | the result of `trim` is an infix `s[i..j]` of its input, and every char before `i` and from `j` on is a char up to U+0020 |
| JavaText.Split | Tasks/app/src/main/java/io/grpc/filesystem/task2/MapReduce.java:139 | no piece of `split(":")` contains the separator; a text without the separator is its own single piece; otherwise the last piece, if any, is non-empty |
| JavaText.PiecesJoin | Tasks/app/src/main/java/io/grpc/filesystem/task2/MapReduce.java:139 | the pieces between separators, empty ones included, joined back with the separator give the text again |
| JavaText.SplitRejoins | Tasks/app/src/main/java/io/grpc/filesystem/task2/MapReduce.java:139 | a text holding the separator is its `split` fields joined with the separator, followed only by separators (the dropped trailing empty fields) |
| JavaText.SplitTwoFields | Tasks/app/src/main/java/io/grpc/filesystem/task2/MapReduce.java:139-142 | a separator-free field, the separator, a non-empty separator-free field and any run of separators split into exactly those two fields |
| JavaText.SplitManyFields | Tasks/app/src/main/java/io/grpc/filesystem/task2/MapReduce.java:139-141 | two separator-free fields followed by a third part holding some char other than the separator split into at least three fields |
| JavaText.SplitPair | Tasks/app/src/main/java/io/grpc/filesystem/task2/MapReduce.java:139-142 | `w:v` with colon-free `w` and non-empty colon-free `v` splits into exactly the two fields `w` and `v` |
| JavaText.Format03d | Tasks/app/src/main/java/io/grpc/filesystem/task2/MapReduce.java:36 | `%03d` gives ASCII digits (under a locale whose zero digit is `'0'`) whose value is the number: exactly the plain decimal numeral when that has three or more digits, and exactly three digits otherwise |
| JavaText.ParseInt | Tasks/app/src/main/java/io/grpc/filesystem/task2/MapReduce.java:143 | `Integer.parseInt` only ever yields a 32-bit int |
| JavaText.ParseIntRejects | Tasks/app/src/main/java/io/grpc/filesystem/task2/MapReduce.java:143 | empty text, a lone sign, a leading char that is neither sign nor digit, a later non-digit, and digits (unsigned or after `+` or `-`) whose signed value is outside the 32-bit range are all rejected (NumberFormatException) |
| JavaText.ParseIntAccepts | Tasks/app/src/main/java/io/grpc/filesystem/task2/MapReduce.java:143 | an optional `+` or `-` followed by one or more ASCII digits (leading zeros allowed) parses to the digits' value, negated after `-`, whenever that value is a 32-bit int, and is rejected otherwise |
| JavaText.ParseIntToString | Tasks/app/src/main/java/io/grpc/filesystem/task2/MapReduce.java:143 | `parseInt` reads back every int that string concatenation writes |
| Chunker.Utf8Length | Tasks/app/src/main/java/io/grpc/filesystem/task2/MapReduce.java:40 | the UTF-8 byte count lies between one and four bytes per char |
| Chunker.Kept | Tasks/app/src/main/java/io/grpc/filesystem/task2/MapReduce.java:41-45 | every line that is not skipped fits in a chunk on its own |
| Chunker.KeptMembers | Tasks/app/src/main/java/io/grpc/filesystem/task2/MapReduce.java:41-45 | a line is kept iff it is an input line that fits in a chunk on its own |
| Chunker.FillChunk | Tasks/app/src/main/java/io/grpc/filesystem/task2/MapReduce.java:38-51 | the inner loop consumes at least one line and fills a chunk of at most CHUNK_SIZE bytes with exactly the fitting lines it consumed; when lines remain, the next one fits alone but would overflow this chunk |
| Chunker.MakeChunks | Tasks/app/src/main/java/io/grpc/filesystem/task2/MapReduce.java:24-56 | chunk k is named `chunk` + `%03d`(k) + `.txt` from 1 up; the chunks, concatenated, are exactly the fitting lines in order; each chunk is at most 500 bytes; every chunk after the first starts with a line that overflowed its predecessor; chunks are non-empty unless no line fits, and then there is one empty chunk; there are no chunks iff the input has no lines |
| Chunker.ChunkNameInjective | Tasks/app/src/main/java/io/grpc/filesystem/task2/MapReduce.java:36 | distinct counters give distinct chunk file names |
| Chunker.ChunkNameShape | Tasks/app/src/main/java/io/grpc/filesystem/task2/MapReduce.java:36 | chunk file names start with `chunk`, end with `.txt` and never start with `map` |
| WordExtractor.StripPunctuation | Tasks/app/src/main/java/io/grpc/filesystem/task2/MapReduce.java:67 | the result has only ASCII letters, digits and `\s` chars, and keeps every letter and digit in order |
| WordExtractor.StripChar | Tasks/app/src/main/java/io/grpc/filesystem/task2/MapReduce.java:67 | a single char is kept iff it is an ASCII letter, a digit or a `\s` char |
| WordExtractor.StripConcat | Tasks/app/src/main/java/io/grpc/filesystem/task2/MapReduce.java:67 | the deletion works char by char: stripping a concatenation concatenates the stripped parts (with StripChar this fixes the result on every string) |
| WordExtractor.CollapseSpaces | Tasks/app/src/main/java/io/grpc/filesystem/task2/MapReduce.java:69 | the result never has two adjacent spaces; a first or last char that is not whitespace stays in place |
| WordExtractor.CollapseWord | Tasks/app/src/main/java/io/grpc/filesystem/task2/MapReduce.java:69 | a run of non-`\s` chars passes through unchanged |
| WordExtractor.CollapseRun | Tasks/app/src/main/java/io/grpc/filesystem/task2/MapReduce.java:69 | a maximal run of `\s` chars becomes exactly one space |
| WordExtractor.FilterPunctuationsSpec | Tasks/app/src/main/java/io/grpc/filesystem/task2/MapReduce.java:64-71 | `null` gives the empty string; otherwise the result is lower-case alphanumerics with single inner spaces, and its letters and digits are the input's, lower-cased, in order |
| WordExtractor.FilterIdempotent | Tasks/app/src/main/java/io/grpc/filesystem/task2/MapReduce.java:64-71 | filtering a filtered line changes nothing |
| WordExtractor.SplitTextIntoWordsSpec | Tasks/app/src/main/java/io/grpc/filesystem/task2/MapReduce.java:79-83 | `null` gives no words; a blank line gives the single empty word; otherwise at least one word, every word non-empty and free of `\s` chars |
| WordExtractor.SplitJoin | Tasks/app/src/main/java/io/grpc/filesystem/task2/MapReduce.java:79-83 | on a non-empty filtered line, the words joined by single spaces rebuild the line |
| WordExtractor.MatchesAlnumRun | Tasks/app/src/main/java/io/grpc/filesystem/task2/MapReduce.java:94 | `^[a-zA-Z0-9]+$` matches exactly the non-empty strings of ASCII letters and digits |
| WordExtractor.IsValidWord | Tasks/app/src/main/java/io/grpc/filesystem/task2/MapReduce.java:91-95 | true iff the word is non-null, non-empty and all ASCII letters and digits |
| WordExtractor.RunsStrip | Tasks/app/src/main/java/io/grpc/filesystem/task2/MapReduce.java:67 | deleting the other chars leaves, of each `\s`-separated piece, its letters and digits, and drops the pieces with none |
| WordExtractor.RunsTrim | Tasks/app/src/main/java/io/grpc/filesystem/task2/MapReduce.java:69 | trimming a string of letters, digits and `\s` chars changes none of its pieces |
| WordExtractor.RunsCollapse | Tasks/app/src/main/java/io/grpc/filesystem/task2/MapReduce.java:69 | collapsing `\s` runs changes none of the pieces |
| WordExtractor.RunsLower | Tasks/app/src/main/java/io/grpc/filesystem/task2/MapReduce.java:70 | lower-casing lower-cases each piece and moves no piece boundary |
| WordExtractor.SplitRuns | Tasks/app/src/main/java/io/grpc/filesystem/task2/MapReduce.java:82 | `split("\\s+")` of a string that neither starts nor ends with a `\s` char gives exactly its `\s`-separated pieces |
| WordExtractor.FilteredWords | Tasks/app/src/main/java/io/grpc/filesystem/task2/MapReduce.java:64-83 | a line filters to the empty string iff none of its `\s`-separated pieces has a letter or digit; otherwise its words are, in order, the lower-cased letters and digits of each piece that has any |
| WordExtractor.NormalisedWordsValid | Tasks/app/src/main/java/io/grpc/filesystem/task2/MapReduce.java:111-115 | of a filtered line's words, only the empty word of an empty line fails `isValidWord`, and lower-casing leaves every word unchanged |
| Mapper.MapFileName | Tasks/app/src/main/java/io/grpc/filesystem/task2/MapReduce.java:105 | a map file name starts with `map` and ends with `.txt`, so reduce selects it |
| Mapper.MapFileNameOfChunk | Tasks/app/src/main/java/io/grpc/filesystem/task2/MapReduce.java:105 | chunk k's map file is `map-` followed by the chunk's full name |
| Mapper.EmitRecords | Tasks/app/src/main/java/io/grpc/filesystem/task2/MapReduce.java:113-119 | one `w:1` record per word that passes `isValidWord`, lower-cased, in order |
| Mapper.Map | Tasks/app/src/main/java/io/grpc/filesystem/task2/MapReduce.java:103-124 | the map file's name is derived from the chunk's name, and its records are `w:1` for every emitted word, line after line |
| Mapper.MapRecords | Tasks/app/src/main/java/io/grpc/filesystem/task2/MapReduce.java:110-121 | the loop over the chunk's lines emits `w:1` for every word map emits, line after line |
| Mapper.MapLine | Tasks/app/src/main/java/io/grpc/filesystem/task2/MapReduce.java:111-119 | one line's records are `w:1` for each of the line's emitted words, in order |
| Mapper.LineWordsAreFilteredWords | Tasks/app/src/main/java/io/grpc/filesystem/task2/MapReduce.java:110-119 | a line map emits for is exactly the words of the filtered line; a line that filters to nothing gives no records |
| Mapper.LineWordsArePieces | Tasks/app/src/main/java/io/grpc/filesystem/task2/MapReduce.java:110-119 | the words map emits for a line are, in order, the lower-cased letters and digits of each `\s`-separated piece of the line that has any |
| Mapper.LineWordsJoin | Tasks/app/src/main/java/io/grpc/filesystem/task2/MapReduce.java:110-119 | the words emitted for a line, joined by spaces, are the filtered line |
| Mapper.ChunkWordsLower | Tasks/app/src/main/java/io/grpc/filesystem/task2/MapReduce.java:110-119 | every word map emits is a non-empty run of `[a-z0-9]` |
| CountTables.Add | Tasks/app/src/main/java/io/grpc/filesystem/task2/MapReduce.java:144 | `put(w, getOrDefault(w, 0) + n)` adds `w` to the keys, raises `w`'s count by `n` and leaves every other word's count alone |
| CountTables.Merge | Tasks/app/src/main/java/io/grpc/filesystem/task2/MapReduce.java:134-148 | summing two tables keeps both key sets and adds the counts word by word |
| CountTables.MergeCommutes | Tasks/app/src/main/java/io/grpc/filesystem/task2/MapReduce.java:135-148 | the order in which two files' counts are added does not matter |
| CountTables.MergeAssociates | Tasks/app/src/main/java/io/grpc/filesystem/task2/MapReduce.java:135-148 | nor does the grouping of three files' counts |
| Reducer.ParseLine | Tasks/app/src/main/java/io/grpc/filesystem/task2/MapReduce.java:139-145 | a counted line's word has no `:` and its count is a 32-bit int |
| Reducer.NoColonSkipped | Tasks/app/src/main/java/io/grpc/filesystem/task2/MapReduce.java:139-141 | a line without `:` is skipped |
| Reducer.ParseLineCounted | Tasks/app/src/main/java/io/grpc/filesystem/task2/MapReduce.java:139-144 | a line counts `n` occurrences of `w` iff it is `w`, `:`, a non-empty colon-free text that `parseInt` reads as `n`, and then only colons, with `w` colon-free |
| Reducer.ParseLineMalformed | Tasks/app/src/main/java/io/grpc/filesystem/task2/MapReduce.java:139-143 | `w:v` with colon-free `w` and non-empty colon-free `v` that `parseInt` rejects aborts with that `v` as the bad count |
| Reducer.ParseLineManyFields | Tasks/app/src/main/java/io/grpc/filesystem/task2/MapReduce.java:139-141 | `w:v:u` with colon-free `w`, `v` and a `u` holding some char other than `:` has three or more fields and is skipped |
| Reducer.RecordParses | Tasks/app/src/main/java/io/grpc/filesystem/task2/MapReduce.java:139-144 | a line `word:count` with a colon-free word and an int count is counted as exactly that word and count |
| Reducer.UnitRecordParses | Tasks/app/src/main/java/io/grpc/filesystem/task2/MapReduce.java:139-144 | a map record `w:1` counts one occurrence of `w` |
| Reducer.AddLinesErrSticks | Tasks/app/src/main/java/io/grpc/filesystem/task2/MapReduce.java:137-146 | once a bad count has aborted a file, more lines change nothing |
| Reducer.AddFilesErrSticks | Tasks/app/src/main/java/io/grpc/filesystem/task2/MapReduce.java:135-148 | once a file has aborted the reduce, more files change nothing |
| Reducer.ReadLines | Tasks/app/src/main/java/io/grpc/filesystem/task2/MapReduce.java:137-146 | the loop over one file's lines computes the line-by-line table update, stopping at the first bad count |
| Reducer.AddLinesSpec | Tasks/app/src/main/java/io/grpc/filesystem/task2/MapReduce.java:137-146 | reading a file succeeds iff none of its counts is malformed, and then adds the file's counts to the table |
| Reducer.CollectWordCounts | Tasks/app/src/main/java/io/grpc/filesystem/task2/MapReduce.java:133-152 | succeeds iff every map file can be opened and has no malformed count; then the table is the sum of all files' counts |
| Reducer.AddFilesSpec | Tasks/app/src/main/java/io/grpc/filesystem/task2/MapReduce.java:133-152 | the files are read without error iff every one is readable; then their counts are summed into the starting table |
| Reducer.Reduce | Tasks/app/src/main/java/io/grpc/filesystem/task2/MapReduce.java:161-177 | an unlistable directory gives nothing; otherwise the result is the outcome of reducing the directory's `map*.txt` files |
| Reducer.OutcomeSpec | Tasks/app/src/main/java/io/grpc/filesystem/task2/MapReduce.java:161-177 | reduce succeeds iff every map file is readable; then it writes the ranking of the map files' summed counts |
| Reducer.OrderIndependent | Tasks/app/src/main/java/io/grpc/filesystem/task2/MapReduce.java:164-175 | two listings with the same entries in any order succeed or fail together and write the same lines |
| Reducer.TallyPermutation | Tasks/app/src/main/java/io/grpc/filesystem/task2/MapReduce.java:133-147 | the summed counts of the map files do not depend on the order in which collectWordCounts reads them |
| Reducer.ReadablePermutation | Tasks/app/src/main/java/io/grpc/filesystem/task2/MapReduce.java:133-147 | whether every map file can be read without a bad count does not depend on the order of the files |
| Reducer.SelectedIgnoresOthers | Tasks/app/src/main/java/io/grpc/filesystem/task2/MapReduce.java:164-169 | entries not named `map*.txt` are not selected |
| Reducer.OnlyArtifactsRead | Tasks/app/src/main/java/io/grpc/filesystem/task2/MapReduce.java:164-169 | adding entries not named `map*.txt` to the directory does not change what reduce does |
| FinalCounts.LexIrreflexive | Tasks/app/src/main/java/io/grpc/filesystem/task2/MapReduce.java:196 | no word compares below itself |
| FinalCounts.LexTransitive | Tasks/app/src/main/java/io/grpc/filesystem/task2/MapReduce.java:196 | the word order is transitive |
| FinalCounts.LexTotal | Tasks/app/src/main/java/io/grpc/filesystem/task2/MapReduce.java:196 | any two distinct words are ordered one way or the other |
| FinalCounts.BeforeTotal | Tasks/app/src/main/java/io/grpc/filesystem/task2/MapReduce.java:193-199 | the comparator is a strict total order on entries: distinct entries are ordered, never both ways, and no entry precedes itself |
| FinalCounts.BeforeTransitive | Tasks/app/src/main/java/io/grpc/filesystem/task2/MapReduce.java:193-199 | the comparator is transitive |
| FinalCounts.Insert | Tasks/app/src/main/java/io/grpc/filesystem/task2/MapReduce.java:191-200 | inserting into a sorted list keeps it sorted and adds exactly the new entry |
| FinalCounts.SortEntries | Tasks/app/src/main/java/io/grpc/filesystem/task2/MapReduce.java:191-200 | the sort returns a permutation of its input, sorted by the comparator |
| FinalCounts.SortedUnique | Tasks/app/src/main/java/io/grpc/filesystem/task2/MapReduce.java:191-200 | two sorted lists with the same entries are equal, so the hash map's entry order cannot affect the output |
| FinalCounts.EntrySet | Tasks/app/src/main/java/io/grpc/filesystem/task2/MapReduce.java:188 | an entry is in the entry set iff its word maps to its count |
| FinalCounts.EntryList | Tasks/app/src/main/java/io/grpc/filesystem/task2/MapReduce.java:188 | the entry list holds every entry of the table exactly once |
| FinalCounts.Ranking | Tasks/app/src/main/java/io/grpc/filesystem/task2/MapReduce.java:186-200 | the ranking is sorted and holds exactly the table's entries |
| FinalCounts.RankingEntries | Tasks/app/src/main/java/io/grpc/filesystem/task2/MapReduce.java:188-200 | the ranking has one entry per word, and an entry appears iff its word has that count in the table |
| FinalCounts.RankingOrdered | Tasks/app/src/main/java/io/grpc/filesystem/task2/MapReduce.java:191-200 | in the ranking, higher counts come first and equal counts are in ascending word order, strictly |
| FinalCounts.RenderAll | Tasks/app/src/main/java/io/grpc/filesystem/task2/MapReduce.java:204-207 | one output line per entry |
| FinalCounts.StoreFinalCounts | Tasks/app/src/main/java/io/grpc/filesystem/task2/MapReduce.java:186-209 | whatever order the entries arrive in, the lines written are `word:count` for the ranking of the table |
| Pipeline.OccurrencesConcat | Tasks/app/src/main/java/io/grpc/filesystem/task2/MapReduce.java:135-148 | the occurrences in two word lists are the sum of each list's occurrences |
| Pipeline.UnitRecordsTally | Tasks/app/src/main/java/io/grpc/filesystem/task2/MapReduce.java:137-146 | reading the `w:1` records of colon-free words gives each word's number of occurrences |
| Pipeline.MapOutputsReadable | Tasks/app/src/main/java/io/grpc/filesystem/task2/MapReduce.java:103-146 | collectWordCounts reads every map file to the end without error |
| Pipeline.MapOutputsTally | Tasks/app/src/main/java/io/grpc/filesystem/task2/MapReduce.java:103-152 | the map files together count how often each word occurs in all chunks' lines |
| Pipeline.MapThenReduce | Tasks/app/src/main/java/io/grpc/filesystem/task2/MapReduce.java:103-177 | if the directory's map files are exactly the chunks' map files, listed in any order, reduce succeeds and writes the ranking of word occurrences in the chunks |
| Pipeline.InputCounts | Tasks/app/src/main/java/io/grpc/filesystem/task2/MapReduce.java:24-177 | end to end, whatever order the map files are listed in: reduce writes the ranking of word occurrences in the non-skipped input lines; every counted word is a non-empty run of `[a-z0-9]` with a count of at least one |
| Pipeline.RankingWordsDistinct | Tasks/app/src/main/java/io/grpc/filesystem/task2/MapReduce.java:188-207 | the output never lists a word twice |
| Pipeline.RankingTable | Tasks/app/src/main/java/io/grpc/filesystem/task2/MapReduce.java:186-209 | the written entries describe exactly the table they were written from |
| Pipeline.ReadBack | Tasks/app/src/main/java/io/grpc/filesystem/task2/MapReduce.java:203-207 | reading the output file with collectWordCounts gives back the table, provided no word holds `:` or a line terminator and every count is an int |
| Coordinator.ChunkJobsSpec | Tasks/app/src/main/java/io/grpc/filesystem/task3/MrClient.java:45-50 | every job registered is pending; every chunk file's path is registered; every registered path is a chunk file's |
| Coordinator.ReplaySpec | Tasks/app/src/main/java/io/grpc/filesystem/task3/MrClient.java:83-99 | responses never add or drop jobs; any status-2 response marks every job completed; without one the table is unchanged |
| Coordinator.ReduceGate | Tasks/app/src/main/java/io/grpc/filesystem/task3/MrClient.java:60-61 | "one distinct value and it is 2" holds iff the table is non-empty and every job is completed |
| Coordinator.MrClient.constructor | Tasks/app/src/main/java/io/grpc/filesystem/task3/MrClient.java:26 | a new client has no jobs |
| Coordinator.MrClient.Register | Tasks/app/src/main/java/io/grpc/filesystem/task3/MrClient.java:46-50 | the job table afterwards is the old one overridden by the chunk files' pending jobs |
| Coordinator.MrClient.Observe | Tasks/app/src/main/java/io/grpc/filesystem/task3/MrClient.java:81-100 | `onNext(2)` keeps the jobs and marks all completed; any other event leaves the table unchanged |
| Coordinator.SendRequests | Tasks/app/src/main/java/io/grpc/filesystem/task3/MrClient.java:105-111 | one request per path, every path exactly once, each with the output path |
| Coordinator.MrClient.RequestMap | Tasks/app/src/main/java/io/grpc/filesystem/task3/MrClient.java:76-123 | one request per job naming the job's path and the output path; then the job table is the replay of the server's responses |
| Coordinator.MrClient.Run | Tasks/app/src/main/java/io/grpc/filesystem/task3/MrClient.java:43-72 | an unlistable chunk directory stops the run with nothing sent and nothing changed; otherwise the jobs are registered and requested; one request is sent per registered job, each naming the output path; the run ends in map failure iff the gate fails, and otherwise in reduce success iff the reduce server answers 2, a failure carrying the server's status |
| Coordinator.FreshRunGate | Tasks/app/src/main/java/io/grpc/filesystem/task3/MrClient.java:45-61 | for a fresh client the reduce is requested iff the chunk directory held a chunk file and some map response had status 2 |

## Left out

- File and console I/O. Files are their sequences of lines, as `readLine` returns them. A directory is a listing of named entries. The `System.out`/`System.err` messages are not modelled.
- The platform line separator and the default charset. The separator is a parameter (`sep`), and the charset is taken to be UTF-8.
- makeChunks's directory handling. The model does not cover creating `temp` next to the input file (`mkdirs`), an input path without a parent (`"null/temp"`), the path returned, or files left in that directory by an earlier run.
- I/O failures while writing chunk, map or output files. Only reading is modelled: a listed map file that cannot be opened (a directory named `map*.txt`) aborts the reduce as `ReadFailed`.
- Reducer.CollectWordCounts: it takes the opened map files' contents, not their paths.
- Pipeline.ReadBack: requires words without `\n` or `\r`, because a file is modelled as the strings written to it, one per line; `readLine` would split the line of such a word.
- Pipeline.InputCounts, Pipeline.MapThenReduce: reading a chunk file back as the lines written to it assumes that `sep` is a line terminator and that no input line contains one.
- CountTables.Add: 32-bit `int` wrap-around in `getOrDefault(word, 0) + count` is not modelled. Sums are unbounded, which is why `Pipeline.ReadBack` requires counts in `int` range.
- JavaText.Format03d: writes ASCII digits, so the model is exact only for a locale whose zero digit is `'0'`. `String.format` uses the default locale's zero digit, so under an Arabic-Indic or Persian locale the first chunk would be named `chunk٠٠١.txt`. `Chunker.ChunkNameInjective` and `Chunker.ChunkNameShape` hold under either kind of locale, but the names themselves differ.
- JavaText.ParseInt: accepts ASCII digits only. Java also accepts other Unicode decimal digits.
- FinalCounts.LexLess: compares Unicode scalar values rather than UTF-16 code units. The two orders differ only above U+FFFF, and every word the map phase emits is ASCII.
- JavaText.LowerCase: maps only `A`–`Z` to `a`–`z`. `toLowerCase()` uses the default locale, so this is exact only for a locale that lower-cases `A`–`Z` to ASCII. Under a Turkish or Azeri locale `I` becomes the dotless `ı`, and `isValidWord` then drops the word; that behaviour is not modelled.
- FinalCounts.SortEntries: `Collections.sort` is modelled by insertion sort. Both produce the unique sorted permutation (`SortedUnique`), so the output is the same.
- FinalCounts.EntryList: the hash map's iteration order is left open (any order may be chosen). Coordinator.SendRequests does the same for the job table's keys.
- The gRPC layer of MrClient: channels, stubs, `CountDownLatch` and its one-minute timeout, and channel shutdown. The map server's responses are a parameter (a sequence of observer events). The reduce server's answer (`requestReduce`) is a status parameter. The map and reduce servers themselves are not part of this model.
- Coordinator.MrClient.RequestMap: applies the responses after all requests are sent. In the source they arrive concurrently. Responses only change values, never keys, and the request loop only reads keys, so the requests and the final table are the same either way.
- Coordinator.MrClient.RequestMap: does not model the `RuntimeException` path, where `onError` is sent to the server and the exception is rethrown.
- MrClient.main: parsing the command-line arguments and ports is not modelled. The `makeChunks` call is modelled by `Chunker.MakeChunks`. `Run` starts from the chunk directory's listing.
- `MapReduce.main` (the task-2 command-line driver) is not part of this model.
