/**
 * The word extractor of MapReduce.java: filterPunctuations,
 * splitTextIntoWords and isValidWord, pure functions on strings. A Java
 * `null` argument is `None`.
 */
module WordExtractor {
  import opened Wrappers
  import opened JavaText
  import opened Seqs

  // ---------------------------------------------------------------------
  // Vocabulary
  // ---------------------------------------------------------------------

  /** The ASCII letters and digits of `s`, in order. */
  function Alnums(s: string): string {
    if s == [] then [] else (if IsAlnum(s[0]) then [s[0]] else []) + Alnums(s[1..])
  }

  /** Two spaces at positions i and i + 1. */
  predicate DoubleSpaceAt(s: string, i: int) {
    0 <= i && i + 1 < |s| && s[i] == ' ' && s[i + 1] == ' '
  }

  /** No two adjacent spaces. */
  ghost predicate SingleSpaced(s: string) {
    forall i :: !DoubleSpaceAt(s, i)
  }

  /** Every char is a letter, a digit or a `\s` char. */
  predicate AlnumOrSpace(s: string) {
    forall i :: 0 <= i < |s| ==> IsAlnum(s[i]) || IsSpace(s[i])
  }

  /** Every char is a letter, a digit or the space U+0020. */
  predicate AlnumOrBlank(s: string) {
    forall i :: 0 <= i < |s| ==> IsAlnum(s[i]) || s[i] == ' '
  }

  /** Every char is in `[a-z0-9]` or the space U+0020. */
  predicate LowerOrBlank(s: string) {
    forall i :: 0 <= i < |s| ==> IsLowerAlnum(s[i]) || s[i] == ' '
  }

  /** No `\s` char. */
  predicate NoSpaceIn(s: string) {
    forall i :: 0 <= i < |s| ==> !IsSpace(s[i])
  }

  /**
   * The form filterPunctuations gives every line: only `[a-z0-9]` and single
   * spaces, none at either end.
   */
  ghost predicate IsNormalised(s: string) {
    && LowerOrBlank(s)
    && (s != [] ==> s[0] != ' ' && s[|s| - 1] != ' ')
    && SingleSpaced(s)
  }

  lemma {:induction false} AlnumsConcat(a: string, b: string)
    ensures Alnums(a + b) == Alnums(a) + Alnums(b)
    decreases |a|
  {
    if a == [] {
      assert a + b == b;
    } else {
      var h := if IsAlnum(a[0]) then [a[0]] else [];
      assert (a + b)[0] == a[0];
      assert (a + b)[1..] == a[1..] + b;
      calc {
        Alnums(a + b);
        h + Alnums(a[1..] + b);
        { AlnumsConcat(a[1..], b); }
        h + (Alnums(a[1..]) + Alnums(b));
        (h + Alnums(a[1..])) + Alnums(b);
      }
    }
  }

  lemma {:induction false} AlnumsNone(s: string)
    requires forall i :: 0 <= i < |s| ==> !IsAlnum(s[i])
    ensures Alnums(s) == []
    decreases |s|
  {
    if s != [] {
      AlnumsNone(s[1..]);
    }
  }

  lemma {:induction false} AlnumsLower(s: string)
    ensures Alnums(LowerCase(s)) == LowerCase(Alnums(s))
    decreases |s|
  {
    if s != [] {
      var l := LowerCase(s);
      assert l[1..] == LowerCase(s[1..]);
      AlnumsLower(s[1..]);
      if IsAlnum(s[0]) {
        assert LowerCase([s[0]] + Alnums(s[1..]))[1..] == LowerCase(Alnums(s[1..]));
      }
    }
  }

  // ---------------------------------------------------------------------
  // filterPunctuations, stage by stage
  // ---------------------------------------------------------------------

  /** `replaceAll("[^a-zA-Z0-9\\s]", "")`. */
  function StripPunctuation(s: string): (r: string)
    ensures AlnumOrSpace(r)
    ensures Alnums(r) == Alnums(s)
  {
    if s == [] then []
    else
      var head := if IsAlnum(s[0]) || IsSpace(s[0]) then [s[0]] else [];
      var r := head + StripPunctuation(s[1..]);
      AlnumsConcat(head, StripPunctuation(s[1..]));
      r
  }

  /** The leading run of `\s` chars removed. */
  function DropSpaces(s: string): (r: string)
    ensures |r| <= |s| && r == s[|s| - |r|..]
    ensures forall i :: 0 <= i < |s| - |r| ==> IsSpace(s[i])
    ensures r == [] || !IsSpace(r[0])
  {
    if s != [] && IsSpace(s[0]) then DropSpaces(s[1..]) else s
  }

  /** `replaceAll("\\s+", " ")`: every maximal run of `\s` chars becomes one space. */
  function CollapseSpaces(s: string): (r: string)
    ensures SingleSpaced(r)
    ensures s != [] && !IsSpace(s[0]) ==> r != [] && r[0] == s[0]
    ensures s != [] && !IsSpace(s[|s| - 1]) ==> r != [] && r[|r| - 1] == s[|s| - 1]
    decreases |s|
  {
    if s == [] then []
    else if IsSpace(s[0]) then
      var rest := DropSpaces(s[1..]);
      assert !IsSpace(s[|s| - 1]) ==> rest != [] && rest[|rest| - 1] == s[|s| - 1];
      var tail := CollapseSpaces(rest);
      ConsSingleSpaced(' ', tail);
      [' '] + tail
    else
      var tail := CollapseSpaces(s[1..]);
      ConsSingleSpaced(s[0], tail);
      [s[0]] + tail
  }

  lemma ConsSingleSpaced(h: char, x: string)
    requires SingleSpaced(x)
    requires h == ' ' ==> x == [] || x[0] != ' '
    ensures SingleSpaced([h] + x)
  {
    var r := [h] + x;
    forall i | 0 <= i && i + 1 < |r| ensures !DoubleSpaceAt(r, i) {
      if i > 0 {
        assert !DoubleSpaceAt(x, i - 1);
        assert r[i] == x[i - 1] && r[i + 1] == x[i];
      }
    }
  }

  lemma AlnumNotSpace(c: char)
    requires IsAlnum(c)
    ensures !IsSpace(c)
  {
  }

  lemma BlankSpace(c: char)
    requires IsAlnum(c) || c == ' '
    requires IsSpace(c)
    ensures c == ' '
  {
  }

  lemma SpaceIsTrimmable(c: char)
    ensures IsSpace(c) ==> IsTrimmable(c)
  {
  }

  /** One step of collapsing: the first char (a space for a run of `\s` chars) and what is collapsed next. */
  lemma CollapseStep(s: string) returns (h: char, next: string)
    requires s != []
    ensures |next| < |s| && next == s[|s| - |next|..]
    ensures CollapseSpaces(s) == [h] + CollapseSpaces(next)
    ensures IsSpace(s[0]) ==> h == ' ' && next == DropSpaces(s[1..])
    ensures !IsSpace(s[0]) ==> h == s[0] && next == s[1..]
  {
    if IsSpace(s[0]) {
      h, next := ' ', DropSpaces(s[1..]);
    } else {
      h, next := s[0], s[1..];
    }
  }

  /** Collapsing leaves only letters, digits and plain spaces of a string of letters, digits and `\s` chars. */
  lemma {:induction false} CollapseBlank(s: string)
    requires AlnumOrSpace(s)
    ensures AlnumOrBlank(CollapseSpaces(s))
    decreases |s|
  {
    if s != [] {
      var h, next := CollapseStep(s);
      assert IsAlnum(h) || h == ' ';
      SliceAlnumOrSpace(s, 0, |s| - |next|);
      CollapseBlank(next);
      ConsBlank(h, CollapseSpaces(next));
    }
  }

  lemma SliceAlnumOrSpace(s: string, j: nat, i: nat)
    requires AlnumOrSpace(s) && j <= |s| && i <= |s|
    ensures AlnumOrSpace(s[..j]) && AlnumOrSpace(s[i..])
  {
    var p, q := s[..j], s[i..];
    forall k | 0 <= k < |p| ensures IsAlnum(p[k]) || IsSpace(p[k]) {
      assert p[k] == s[k];
    }
    forall k | 0 <= k < |q| ensures IsAlnum(q[k]) || IsSpace(q[k]) {
      assert q[k] == s[i + k];
    }
  }

  lemma ConsBlank(h: char, x: string)
    requires (IsAlnum(h) || h == ' ') && AlnumOrBlank(x)
    ensures AlnumOrBlank([h] + x)
  {
    forall j | 1 <= j < |[h] + x| ensures ([h] + x)[j] == x[j - 1] {
    }
  }

  /** Collapsing keeps every letter and digit. */
  lemma {:induction false} CollapseAlnums(s: string)
    ensures Alnums(CollapseSpaces(s)) == Alnums(s)
    decreases |s|
  {
    if s != [] {
      if IsSpace(s[0]) {
        var rest := DropSpaces(s[1..]);
        assert s[1..] == s[1..|s| - |rest|] + rest;
        AlnumsNone(s[1..|s| - |rest|]);
        AlnumsConcat(s[1..|s| - |rest|], rest);
        CollapseAlnums(rest);
      } else {
        CollapseAlnums(s[1..]);
      }
    }
  }

  lemma {:induction false} AlnumsTrimStart(s: string)
    ensures Alnums(TrimStart(s)) == Alnums(s)
    decreases |s|
  {
    if s != [] && IsTrimmable(s[0]) {
      AlnumsTrimStart(s[1..]);
    }
  }

  lemma {:induction false} AlnumsTrimEnd(s: string)
    ensures Alnums(TrimEnd(s)) == Alnums(s)
    decreases |s|
  {
    if s != [] && IsTrimmable(s[|s| - 1]) {
      var init := s[..|s| - 1];
      AlnumsTrimEnd(init);
      assert s == init + [s[|s| - 1]];
      AlnumsConcat(init, [s[|s| - 1]]);
    }
  }

  /** Trimming keeps every letter and digit: only chars up to U+0020 go. */
  lemma AlnumsTrim(s: string)
    ensures Alnums(Trim(s)) == Alnums(s)
  {
    AlnumsTrimStart(s);
    AlnumsTrimEnd(TrimStart(s));
  }

  lemma LowerBlank(c: string)
    requires AlnumOrBlank(c)
    ensures LowerOrBlank(LowerCase(c))
  {
    var l := LowerCase(c);
    forall i | 0 <= i < |l| ensures IsLowerAlnum(l[i]) || l[i] == ' ' {
      assert l[i] == ToLower(c[i]);
    }
  }

  lemma LowerSingleSpaced(c: string)
    requires SingleSpaced(c)
    ensures SingleSpaced(LowerCase(c))
  {
    var l := LowerCase(c);
    forall i | 0 <= i && i + 1 < |l| ensures !DoubleSpaceAt(l, i) {
      assert !DoubleSpaceAt(c, i);
      assert l[i] == ToLower(c[i]) && l[i + 1] == ToLower(c[i + 1]);
    }
  }

  /** Lower-casing a single-spaced string of letters, digits and inner spaces normalises it. */
  lemma LowerNormalises(c: string)
    requires AlnumOrBlank(c) && SingleSpaced(c)
    requires c != [] ==> c[0] != ' ' && c[|c| - 1] != ' '
    ensures IsNormalised(LowerCase(c))
  {
    LowerBlank(c);
    LowerSingleSpaced(c);
    var l := LowerCase(c);
    if c != [] {
      assert l[0] == ToLower(c[0]) && l[|l| - 1] == ToLower(c[|c| - 1]);
    }
  }

  lemma TrimAlnumOrSpace(s: string)
    requires AlnumOrSpace(s)
    ensures AlnumOrSpace(Trim(s))
  {
    var t := TrimStart(s);
    SliceAlnumOrSpace(s, 0, |s| - |t|);
    SliceAlnumOrSpace(t, |TrimEnd(t)|, 0);
  }

  /** The stages of filterPunctuations, composed. */
  function Normalise(s: string): string {
    LowerCase(CollapseSpaces(Trim(StripPunctuation(s))))
  }

  lemma NormaliseShape(s: string)
    ensures IsNormalised(Normalise(s))
  {
    var stripped := StripPunctuation(s);
    var trimmed := Trim(stripped);
    var collapsed := CollapseSpaces(trimmed);
    assert Normalise(s) == LowerCase(collapsed);
    TrimAlnumOrSpace(stripped);
    CollapseBlank(trimmed);
    CollapseEnds(stripped);
    LowerNormalises(collapsed);
  }

  /** Collapsing a trimmed string leaves no space at either end. */
  lemma CollapseEnds(x: string)
    ensures var c := CollapseSpaces(Trim(x)); c != [] ==> c[0] != ' ' && c[|c| - 1] != ' '
  {
    var t := Trim(x);
    if t != [] {
      SpaceIsTrimmable(t[0]);
      SpaceIsTrimmable(t[|t| - 1]);
    }
  }

  lemma NormaliseAlnums(s: string)
    ensures Alnums(Normalise(s)) == LowerCase(Alnums(s))
  {
    var stripped := StripPunctuation(s);
    var trimmed := Trim(stripped);
    AlnumsTrim(stripped);
    CollapseAlnums(trimmed);
    AlnumsLower(CollapseSpaces(trimmed));
  }

  /** MapReduce.filterPunctuations; a Java `null` is `None`. */
  function FilterPunctuations(line: Option<string>): string {
    match line
    case None => []
    case Some(s) => Normalise(s)
  }

  /**
   * filterPunctuations gives "" for null, and otherwise a normalised line
   * that keeps every ASCII letter and digit of the input, in order and
   * lower-cased, and nothing else but single inner spaces.
   */
  lemma FilterPunctuationsSpec(line: Option<string>)
    ensures line.None? ==> FilterPunctuations(line) == []
    ensures IsNormalised(FilterPunctuations(line))
    ensures line.Some? ==> Alnums(FilterPunctuations(line)) == LowerCase(Alnums(line.value))
  {
    if line.Some? {
      NormaliseShape(line.value);
      NormaliseAlnums(line.value);
    }
  }

  // ---------------------------------------------------------------------
  // Idempotence of filterPunctuations
  // ---------------------------------------------------------------------

  lemma {:induction false} StripKeeps(s: string)
    requires AlnumOrSpace(s)
    ensures StripPunctuation(s) == s
    decreases |s|
  {
    if s != [] {
      StripKeeps(s[1..]);
      assert [s[0]] + s[1..] == s;
    }
  }

  lemma {:induction false} CollapseKeeps(s: string)
    requires AlnumOrBlank(s) && SingleSpaced(s)
    requires s == [] || s[|s| - 1] != ' '
    ensures CollapseSpaces(s) == s
    decreases |s|
  {
    if s != [] {
      CollapseKeepsHead(s);
      CollapseKeepsTail(s);
      CollapseKeeps(s[1..]);
      HeadTail(s, []);
      assert s[1..] + [] == s[1..] && s + [] == s;
    }
  }

  lemma CollapseKeepsTail(s: string)
    requires AlnumOrBlank(s) && SingleSpaced(s)
    requires s != [] && s[|s| - 1] != ' '
    ensures AlnumOrBlank(s[1..]) && SingleSpaced(s[1..])
    ensures var t := s[1..]; t == [] || t[|t| - 1] != ' '
  {
    SuffixKeepsShape(s, 1);
    var t := s[1..];
    assert t == [] || t[|t| - 1] == s[|s| - 1];
  }

  /** The first char of a normalised-shape string survives collapsing, and the rest is collapsed on its own. */
  lemma CollapseKeepsHead(s: string)
    requires AlnumOrBlank(s) && SingleSpaced(s)
    requires s != [] && s[|s| - 1] != ' '
    ensures CollapseSpaces(s) == [s[0]] + CollapseSpaces(s[1..])
  {
    if s[0] == ' ' {
      assert !DoubleSpaceAt(s, 0);
      assert s[1] != ' ';
      AlnumNotSpace(s[1]);
      assert DropSpaces(s[1..]) == s[1..];
    } else {
      AlnumNotSpace(s[0]);
    }
    var h, next := CollapseStep(s);
  }

  lemma TrimKeeps(s: string)
    requires s != [] ==> !IsTrimmable(s[0]) && !IsTrimmable(s[|s| - 1])
    ensures Trim(s) == s
  {
  }

  lemma LowerKeeps(s: string)
    requires forall i :: 0 <= i < |s| ==> IsLowerAlnum(s[i]) || s[i] == ' '
    ensures LowerCase(s) == s
  {
    var l := LowerCase(s);
    forall i | 0 <= i < |s| ensures l[i] == s[i] {
      assert l[i] == ToLower(s[i]);
    }
  }

  /** A normalised line is left as it is. */
  lemma NormalisedIsFixpoint(s: string)
    requires IsNormalised(s)
    ensures FilterPunctuations(Some(s)) == s
  {
    assert AlnumOrSpace(s) && AlnumOrBlank(s) by {
      forall i | 0 <= i < |s| ensures IsLowerAlnum(s[i]) || s[i] == ' ' {}
    }
    StripKeeps(s);
    TrimKeeps(s);
    CollapseKeeps(s);
    LowerKeeps(s);
  }

  /** filterPunctuations is idempotent. */
  lemma FilterIdempotent(line: Option<string>)
    ensures FilterPunctuations(Some(FilterPunctuations(line))) == FilterPunctuations(line)
  {
    FilterPunctuationsSpec(line);
    NormalisedIsFixpoint(FilterPunctuations(line));
  }

  // ---------------------------------------------------------------------
  // splitTextIntoWords
  // ---------------------------------------------------------------------

  /** The longest prefix without a `\s` char. */
  function TakeWord(s: string): (r: string)
    ensures |r| <= |s| && r == s[..|r|]
    ensures NoSpaceIn(r)
    ensures |r| < |s| ==> IsSpace(s[|r|])
  {
    if s == [] || IsSpace(s[0]) then [] else [s[0]] + TakeWord(s[1..])
  }

  /**
   * `t.split("\\s+")` for a `t` that does not end in a `\s` char (so no
   * trailing empty piece is ever produced).
   */
  function SplitOnSpaces(t: string): (r: seq<string>)
    requires t == [] || !IsSpace(t[|t| - 1])
    ensures |r| >= 1
    ensures forall i :: 0 <= i < |r| ==> NoSpaceIn(r[i])
    ensures t != [] && !IsSpace(t[0]) ==> forall i :: 0 <= i < |r| ==> r[i] != []
    decreases |t|
  {
    var w := TakeWord(t);
    if |w| == |t| then
      assert w == t;
      [t]
    else
      var u := t[|w|..];
      var rest := DropSpaces(u);
      assert u[|u| - 1] == t[|t| - 1];
      assert rest != [] && rest[|rest| - 1] == u[|u| - 1];
      var tail := SplitOnSpaces(rest);
      ConsWords(w, tail);
      [w] + tail
  }

  lemma ConsWords(w: string, tail: seq<string>)
    requires NoSpaceIn(w) && forall i :: 0 <= i < |tail| ==> NoSpaceIn(tail[i])
    ensures forall i :: 0 <= i < |[w] + tail| ==> NoSpaceIn(([w] + tail)[i])
    ensures w != [] && (forall i :: 0 <= i < |tail| ==> tail[i] != []) ==>
              forall i :: 0 <= i < |[w] + tail| ==> ([w] + tail)[i] != []
  {
    forall i | 1 <= i < |[w] + tail| ensures ([w] + tail)[i] == tail[i - 1] {
    }
  }

  /** MapReduce.splitTextIntoWords; a Java `null` is `None`. */
  function SplitTextIntoWords(line: Option<string>): seq<string> {
    match line
    case None => []
    case Some(s) =>
      TrimmedEnd(s);
      SplitOnSpaces(Trim(s))
  }

  /** A trimmed line does not end in a `\s` char. */
  lemma TrimmedEnd(s: string)
    ensures Trim(s) == [] || !IsSpace(Trim(s)[|Trim(s)| - 1])
  {
    var t := Trim(s);
    if t != [] {
      SpaceIsTrimmable(t[|t| - 1]);
    }
  }

  /**
   * splitTextIntoWords gives no words for null, the single empty word for a
   * line that is empty or only chars up to U+0020, and otherwise non-empty
   * words free of `\s` chars.
   */
  lemma SplitTextIntoWordsSpec(line: Option<string>)
    ensures line.None? ==> SplitTextIntoWords(line) == []
    ensures line.Some? && (forall i :: 0 <= i < |line.value| ==> IsTrimmable(line.value[i])) ==>
              SplitTextIntoWords(line) == [[]]
    ensures line.Some? && (exists i :: 0 <= i < |line.value| && !IsTrimmable(line.value[i])) ==>
              && |SplitTextIntoWords(line)| >= 1
              && (forall i :: 0 <= i < |SplitTextIntoWords(line)| ==>
                    SplitTextIntoWords(line)[i] != [] && NoSpaceIn(SplitTextIntoWords(line)[i]))
  {
  }

  /** Splitting a string of `[a-z0-9]` and spaces leaves words of `[a-z0-9]` and spaces. */
  lemma {:induction false} SplitOnSpacesLower(t: string)
    requires t == [] || !IsSpace(t[|t| - 1])
    requires LowerOrBlank(t)
    ensures AllLowerOrBlank(SplitOnSpaces(t))
    decreases |t|
  {
    var w := TakeWord(t);
    if |w| < |t| {
      var rest := SplitLowerStep(t);
      SplitOnSpacesLower(rest);
      ConsLower(w, SplitOnSpaces(rest));
    } else {
      assert w == t && SplitOnSpaces(t) == [t];
      ConsLower(t, []);
      assert [t] + [] == [t];
    }
  }

  /** One step of splitting a string of `[a-z0-9]` and spaces. */
  lemma SplitLowerStep(t: string) returns (rest: string)
    requires t == [] || !IsSpace(t[|t| - 1])
    requires LowerOrBlank(t) && |TakeWord(t)| < |t|
    ensures |rest| < |t| && (rest == [] || !IsSpace(rest[|rest| - 1]))
    ensures LowerOrBlank(TakeWord(t)) && LowerOrBlank(rest)
    ensures SplitOnSpaces(t) == [TakeWord(t)] + SplitOnSpaces(rest)
  {
    rest := SplitNext(t);
    SliceLower(t, |TakeWord(t)|, |t| - |rest|);
  }

  /** The words after the first: what follows the first word and the whitespace after it. */
  lemma SplitNext(t: string) returns (rest: string)
    requires t == [] || !IsSpace(t[|t| - 1])
    requires |TakeWord(t)| < |t|
    ensures |rest| < |t| && rest == t[|t| - |rest|..]
    ensures rest == [] || !IsSpace(rest[|rest| - 1])
    ensures rest == DropSpaces(t[|TakeWord(t)|..])
    ensures SplitOnSpaces(t) == [TakeWord(t)] + SplitOnSpaces(rest)
  {
    var u := t[|TakeWord(t)|..];
    rest := DropSpaces(u);
    assert u[|u| - 1] == t[|t| - 1];
    assert rest != [] && rest[|rest| - 1] == u[|u| - 1];
    assert rest == t[|t| - |rest|..];
    SplitStep(t);
  }

  lemma SliceLower(t: string, j: nat, i: nat)
    requires LowerOrBlank(t) && j <= |t| && i <= |t|
    ensures LowerOrBlank(t[..j]) && LowerOrBlank(t[i..])
  {
    var p, q := t[..j], t[i..];
    forall k | 0 <= k < |p| ensures IsLowerAlnum(p[k]) || p[k] == ' ' {
      assert p[k] == t[k];
    }
    forall k | 0 <= k < |q| ensures IsLowerAlnum(q[k]) || q[k] == ' ' {
      assert q[k] == t[i + k];
    }
  }

  /** Every word is made of `[a-z0-9]` and spaces. */
  ghost predicate AllLowerOrBlank(ws: seq<string>) {
    forall i :: 0 <= i < |ws| ==> LowerOrBlank(ws[i])
  }

  lemma ConsLower(w: string, tail: seq<string>)
    requires LowerOrBlank(w) && AllLowerOrBlank(tail)
    ensures AllLowerOrBlank([w] + tail)
  {
    forall i | 1 <= i < |[w] + tail| ensures ([w] + tail)[i] == tail[i - 1] {
    }
  }

  /** Words joined back with one space between neighbours. */
  function JoinWithSpaces(words: seq<string>): string {
    if words == [] then []
    else if |words| == 1 then words[0]
    else words[0] + " " + JoinWithSpaces(words[1..])
  }

  lemma JoinCons(w: string, ws: seq<string>)
    requires ws != []
    ensures JoinWithSpaces([w] + ws) == w + " " + JoinWithSpaces(ws)
  {
    assert ([w] + ws)[1..] == ws;
  }

  lemma SuffixKeepsShape(t: string, k: nat)
    requires AlnumOrBlank(t) && SingleSpaced(t) && k <= |t|
    ensures AlnumOrBlank(t[k..]) && SingleSpaced(t[k..])
  {
    var rest := t[k..];
    forall j | 0 <= j < |rest| ensures IsAlnum(rest[j]) || rest[j] == ' ' {
      assert rest[j] == t[k + j];
    }
    forall i | 0 <= i && i + 1 < |rest| ensures !DoubleSpaceAt(rest, i) {
      assert !DoubleSpaceAt(t, k + i);
      assert rest[i] == t[k + i] && rest[i + 1] == t[k + i + 1];
    }
  }

  lemma Rebuild(t: string, n: nat)
    requires n < |t| && t[n] == ' '
    ensures t == t[..n] + " " + t[n + 1..]
  {
    assert t == t[..n] + [t[n]] + t[n + 1..];
  }

  lemma DropOneSpace(t: string, n: nat)
    requires n + 1 < |t| && IsSpace(t[n]) && !IsSpace(t[n + 1])
    ensures DropSpaces(t[n..]) == t[n + 1..]
  {
    assert t[n..][1..] == t[n + 1..];
  }

  lemma SplitStep(t: string)
    requires t == [] || !IsSpace(t[|t| - 1])
    requires |TakeWord(t)| < |t|
    ensures SplitOnSpaces(t) == [TakeWord(t)] + SplitOnSpaces(DropSpaces(t[|TakeWord(t)|..]))
  {
  }

  /** One step of splitting a single-spaced string: the first word, one space, and the rest. */
  lemma SplitRest(t: string) returns (rest: string)
    requires AlnumOrBlank(t) && SingleSpaced(t)
    requires t != [] && t[|t| - 1] != ' ' && |TakeWord(t)| < |t|
    ensures |rest| < |t|
    ensures AlnumOrBlank(rest) && SingleSpaced(rest) && rest != [] && rest[|rest| - 1] != ' '
    ensures !IsSpace(t[|t| - 1]) && !IsSpace(rest[|rest| - 1])
    ensures SplitOnSpaces(t) == [TakeWord(t)] + SplitOnSpaces(rest)
    ensures t == TakeWord(t) + " " + rest
  {
    var n := |TakeWord(t)|;
    rest := t[n + 1..];
    assert n + 1 < |t| && t[n] == ' ' && DropSpaces(t[n..]) == rest by {
      BlankSpace(t[n]);
      assert !DoubleSpaceAt(t, n);
      assert t[n + 1] != ' ';
      AlnumNotSpace(t[n + 1]);
      DropOneSpace(t, n);
    }
    SuffixKeepsShape(t, n + 1);
    assert rest[|rest| - 1] == t[|t| - 1];
    AlnumNotSpace(t[|t| - 1]);
    SplitStep(t);
    Rebuild(t, n);
  }

  lemma {:induction false} SplitOnSpacesJoin(t: string)
    requires AlnumOrBlank(t) && SingleSpaced(t)
    requires t != [] && t[|t| - 1] != ' '
    ensures JoinWithSpaces(SplitOnSpaces(t)) == t
    decreases |t|
  {
    var w := TakeWord(t);
    if |w| == |t| {
      assert w == t;
    } else {
      var rest := SplitRest(t);
      SplitOnSpacesJoin(rest);
      JoinCons(w, SplitOnSpaces(rest));
    }
  }

  /** On a non-empty normalised line, the words joined with single spaces rebuild the line. */
  lemma SplitJoin(line: string)
    requires IsNormalised(line) && line != []
    ensures JoinWithSpaces(SplitTextIntoWords(Some(line))) == line
  {
    assert Trim(line) == line;
    SplitOnSpacesJoin(line);
  }

  // ---------------------------------------------------------------------
  // isValidWord
  // ---------------------------------------------------------------------

  /** The regex `^[a-zA-Z0-9]+$`, matched against the whole word. */
  function MatchesAlnumRun(w: string): (b: bool)
    ensures b <==> w != [] && forall i :: 0 <= i < |w| ==> IsAlnum(w[i])
  {
    w != [] && IsAlnum(w[0]) && (|w| == 1 || MatchesAlnumRun(w[1..]))
  }

  /** MapReduce.isValidWord: a non-null, non-empty word of ASCII letters and digits only. */
  function IsValidWord(word: Option<string>): (b: bool)
    ensures b <==> word.Some? && word.value != [] && forall i :: 0 <= i < |word.value| ==> IsAlnum(word.value[i])
  {
    match word
    case None => false
    case Some(w) => if w == [] then false else MatchesAlnumRun(w)
  }

  /**
   * Of the words of a normalised line, isValidWord rejects only the single
   * empty word of an empty line; every word it accepts is already lower-case.
   */
  lemma NormalisedWordsValid(line: string)
    requires IsNormalised(line)
    ensures line == [] ==> SplitTextIntoWords(Some(line)) == [[]]
    ensures line != [] ==> forall w :: w in SplitTextIntoWords(Some(line)) ==> IsValidWord(Some(w)) && LowerCase(w) == w
  {
    if line != [] {
      assert IsLowerAlnum(line[0]) && IsLowerAlnum(line[|line| - 1]);
      LowerAlnumChar(line[0]);
      LowerAlnumChar(line[|line| - 1]);
      TrimKeeps(line);
      SplitOnSpacesLower(line);
      var ws := SplitOnSpaces(line);
      assert SplitTextIntoWords(Some(line)) == ws;
      assert AllLowerOrBlank(ws);
      forall w | w in ws
        ensures IsValidWord(Some(w)) && LowerCase(w) == w
      {
        var k :| 0 <= k < |ws| && ws[k] == w;
        LowerWordValid(w);
      }
    }
  }

  lemma LowerAlnumChar(c: char)
    requires IsLowerAlnum(c)
    ensures IsAlnum(c) && !IsSpace(c) && !IsTrimmable(c)
  {
  }

  /** A non-empty word of `[a-z0-9]` and blanks without `\s` chars is valid and already lower-case. */
  lemma LowerWordValid(w: string)
    requires w != [] && NoSpaceIn(w) && LowerOrBlank(w)
    ensures IsValidWord(Some(w)) && LowerCase(w) == w
  {
    forall j | 0 <= j < |w| ensures IsLowerAlnum(w[j]) && IsAlnum(w[j]) {
      LowerNoSpace(w[j]);
    }
    LowerKeeps(w);
  }

  lemma LowerNoSpace(c: char)
    requires IsLowerAlnum(c) || c == ' '
    requires !IsSpace(c)
    ensures IsLowerAlnum(c) && IsAlnum(c)
  {
  }

  // ---------------------------------------------------------------------
  // Stage laws of filterPunctuations
  // ---------------------------------------------------------------------

  /** replaceAll("[^a-zA-Z0-9\\s]", "") keeps a single char iff it is a letter, a digit or a `\s` char. */
  lemma StripChar(c: char)
    ensures StripPunctuation([c]) == (if IsAlnum(c) || IsSpace(c) then [c] else [])
  {
    assert [c][1..] == [];
  }

  /**
   * replaceAll("[^a-zA-Z0-9\\s]", "") works char by char: with StripChar
   * this fixes the result on every string.
   */
  lemma {:induction false} StripConcat(a: string, b: string)
    ensures StripPunctuation(a + b) == StripPunctuation(a) + StripPunctuation(b)
    decreases |a|
  {
    if a == [] {
      assert a + b == b;
    } else {
      assert (a + b)[0] == a[0];
      assert (a + b)[1..] == a[1..] + b;
      StripConcat(a[1..], b);
    }
  }

  /** A word without `\s` chars is left with just its letters and digits. */
  lemma {:induction false} StripWord(w: string)
    requires NoSpaceIn(w)
    ensures StripPunctuation(w) == Alnums(w)
    decreases |w|
  {
    if w != [] {
      assert !IsSpace(w[0]);
      NoSpaceTail(w);
      StripWord(w[1..]);
    }
  }

  /** replaceAll("\\s+", " ") leaves a run of other chars as it is. */
  lemma {:induction false} CollapseWord(w: string, y: string)
    requires NoSpaceIn(w)
    ensures CollapseSpaces(w + y) == w + CollapseSpaces(y)
    decreases |w|
  {
    if w == [] {
      assert w + y == y;
    } else {
      CollapseCons(w, y);
      NoSpaceTail(w);
      CollapseWord(w[1..], y);
      HeadTail(w, CollapseSpaces(y));
    }
  }

  /** The first char of a word passes through collapsing unchanged. */
  lemma CollapseCons(w: string, y: string)
    requires w != [] && !IsSpace(w[0])
    ensures CollapseSpaces(w + y) == [w[0]] + CollapseSpaces(w[1..] + y)
  {
    var s := w + y;
    assert s[0] == w[0];
    assert s[1..] == w[1..] + y;
  }

  lemma NoSpaceTail(w: string)
    requires w != [] && NoSpaceIn(w)
    ensures NoSpaceIn(w[1..])
  {
    forall i | 0 <= i < |w| - 1 ensures !IsSpace(w[1..][i]) {
      assert w[1..][i] == w[i + 1];
    }
  }

  /** replaceAll("\\s+", " ") turns a maximal run of `\s` chars into one space. */
  lemma CollapseRun(sp: string, y: string)
    requires sp != [] && forall i :: 0 <= i < |sp| ==> IsSpace(sp[i])
    requires y == [] || !IsSpace(y[0])
    ensures CollapseSpaces(sp + y) == " " + CollapseSpaces(y)
  {
    ConsConcat(sp, y);
    var h, next := CollapseStep(sp + y);
    SpacesTail(sp);
    DropSpacesRun(sp[1..], y);
  }

  lemma SpacesTail(sp: string)
    requires sp != [] && forall i :: 0 <= i < |sp| ==> IsSpace(sp[i])
    ensures forall i :: 0 <= i < |sp| - 1 ==> IsSpace(sp[1..][i])
  {
    forall i | 0 <= i < |sp| - 1 ensures IsSpace(sp[1..][i]) {
      assert sp[1..][i] == sp[i + 1];
    }
  }

  lemma {:induction false} DropSpacesRun(sp: string, y: string)
    requires forall i :: 0 <= i < |sp| ==> IsSpace(sp[i])
    requires y == [] || !IsSpace(y[0])
    ensures DropSpaces(sp + y) == y
    decreases |sp|
  {
    if sp == [] {
      assert sp + y == y;
    } else {
      assert (sp + y)[0] == sp[0];
      assert (sp + y)[1..] == sp[1..] + y;
      DropSpacesRun(sp[1..], y);
    }
  }

  // ---------------------------------------------------------------------
  // Word boundaries
  // ---------------------------------------------------------------------

  /** The maximal runs of non-`\s` chars of `s`, in order: its `\s`-separated pieces, empty ones left out. */
  function Runs(s: string): seq<string>
    decreases |s|
  {
    if s == [] then []
    else if IsSpace(s[0]) then Runs(s[1..])
    else
      TakeWordNonEmpty(s);
      var w := TakeWord(s);
      [w] + Runs(s[|w|..])
  }

  /** A string that does not start with a `\s` char has a non-empty first word. */
  lemma TakeWordNonEmpty(s: string)
    requires s != [] && !IsSpace(s[0])
    ensures TakeWord(s) != []
  {
  }

  /** The letters and digits of each piece, for the pieces that have any. */
  function AlnumPieces(ps: seq<string>): seq<string> {
    if ps == [] then []
    else (if Alnums(ps[0]) == [] then [] else [Alnums(ps[0])]) + AlnumPieces(ps[1..])
  }

  /** Every string lower-cased. */
  function LowerAll(ws: seq<string>): (r: seq<string>)
    ensures |r| == |ws|
  {
    if ws == [] then [] else [LowerCase(ws[0])] + LowerAll(ws[1..])
  }

  /**
   * The words that filterPunctuations and splitTextIntoWords make of a line:
   * for each `\s`-separated piece of the line that has a letter or digit,
   * in order, its letters and digits lower-cased. A line with no such piece
   * filters to the empty string.
   */
  lemma FilteredWords(s: string)
    ensures FilterPunctuations(Some(s)) == [] <==> AlnumPieces(Runs(s)) == []
    ensures FilterPunctuations(Some(s)) != [] ==>
              SplitTextIntoWords(Some(FilterPunctuations(Some(s)))) == LowerAll(AlnumPieces(Runs(s)))
  {
    var stripped := StripPunctuation(s);
    var trimmed := Trim(stripped);
    var collapsed := CollapseSpaces(trimmed);
    var f := LowerCase(collapsed);
    assert f == FilterPunctuations(Some(s));
    RunsStrip(s);
    RunsTrim(stripped);
    RunsCollapse(trimmed);
    RunsLower(collapsed);
    assert Runs(f) == LowerAll(AlnumPieces(Runs(s)));
    NormaliseShape(s);
    NormalisedRuns(f);
  }

  /** A normalised line is empty iff it has no pieces, and splitTextIntoWords yields exactly its pieces. */
  lemma NormalisedRuns(f: string)
    requires IsNormalised(f)
    ensures f == [] <==> Runs(f) == []
    ensures f != [] ==> SplitTextIntoWords(Some(f)) == Runs(f)
  {
    if f != [] {
      assert IsLowerAlnum(f[0]) && IsLowerAlnum(f[|f| - 1]);
      LowerAlnumChar(f[0]);
      LowerAlnumChar(f[|f| - 1]);
      TrimKeeps(f);
      SplitRuns(f);
    }
  }

  lemma {:induction false} SplitRuns(t: string)
    requires t != [] && !IsSpace(t[0]) && !IsSpace(t[|t| - 1])
    ensures SplitOnSpaces(t) == Runs(t)
    decreases |t|
  {
    var w := TakeWord(t);
    RunsWord(t);
    if |w| == |t| {
      assert w == t;
      assert t[|w|..] == [];
    } else {
      var rest := SplitNext(t);
      DropSpacesRuns(t[|w|..]);
      SplitRuns(rest);
    }
  }

  /** A string that does not start with a `\s` char starts with its first piece. */
  lemma RunsWord(s: string)
    requires s != [] && !IsSpace(s[0])
    ensures Runs(s) == [TakeWord(s)] + Runs(s[|TakeWord(s)|..])
  {
  }

  /** Leading `\s` chars add no piece. */
  lemma {:induction false} DropSpacesRuns(u: string)
    ensures Runs(DropSpaces(u)) == Runs(u)
    decreases |u|
  {
    if u != [] && IsSpace(u[0]) {
      DropSpacesRuns(u[1..]);
    }
  }

  lemma {:induction false} TakeWordConcat(y: string, z: string)
    requires z == [] || IsSpace(z[0])
    ensures TakeWord(y + z) == TakeWord(y)
    decreases |y|
  {
    if y == [] {
      assert y + z == z;
    } else {
      assert (y + z)[0] == y[0];
      assert (y + z)[1..] == y[1..] + z;
      TakeWordConcat(y[1..], z);
    }
  }

  /** A non-empty word followed by nothing or by a `\s` char is the first piece. */
  lemma RunsWordThen(w: string, z: string)
    requires w != [] && NoSpaceIn(w)
    requires z == [] || IsSpace(z[0])
    ensures Runs(w + z) == [w] + Runs(z)
  {
    TakeWordConcat(w, z);
    assert TakeWord(w) == w;
    assert (w + z)[0] == w[0];
    assert (w + z)[|w|..] == z;
  }

  /** Leading `\s` chars add no piece. */
  lemma {:induction false} RunsSpacesThen(y: string, z: string)
    requires forall i :: 0 <= i < |y| ==> IsSpace(y[i])
    ensures Runs(y + z) == Runs(z)
    decreases |y|
  {
    if y == [] {
      assert y + z == z;
    } else {
      assert (y + z)[0] == y[0];
      assert (y + z)[1..] == y[1..] + z;
      RunsSpacesThen(y[1..], z);
    }
  }

  /** Trailing `\s` chars add no piece. */
  lemma {:induction false} RunsThenSpaces(y: string, z: string)
    requires forall i :: 0 <= i < |z| ==> IsSpace(z[i])
    ensures Runs(y + z) == Runs(y)
    decreases |y|
  {
    if y == [] {
      RunsSpacesThen(z, []);
      assert z + [] == z && y + z == z;
    } else if IsSpace(y[0]) {
      assert (y + z)[0] == y[0];
      assert (y + z)[1..] == y[1..] + z;
      RunsThenSpaces(y[1..], z);
    } else {
      var w := TakeWord(y);
      TakeWordConcat(y, z);
      assert (y + z)[0] == y[0];
      assert (y + z)[|w|..] == y[|w|..] + z;
      RunsThenSpaces(y[|w|..], z);
    }
  }

  /** Stripping punctuation keeps the pieces' letters and digits and drops the pieces without any. */
  lemma {:induction false} RunsStrip(s: string)
    ensures Runs(StripPunctuation(s)) == AlnumPieces(Runs(s))
    decreases |s|
  {
    if s != [] {
      if IsSpace(s[0]) {
        var r := StripPunctuation(s[1..]);
        assert StripPunctuation(s) == [s[0]] + r;
        assert ([s[0]] + r)[1..] == r;
        RunsStrip(s[1..]);
      } else {
        var w := TakeWord(s);
        var rest := s[|w|..];
        RunsStripWord(s);
        RunsStrip(rest);
        assert ([w] + Runs(rest))[1..] == Runs(rest);
      }
    }
  }

  /** The first piece of a string loses its other chars, and vanishes if it has no letter or digit. */
  lemma RunsStripWord(s: string)
    requires s != [] && !IsSpace(s[0])
    ensures Runs(StripPunctuation(s)) ==
              (if Alnums(TakeWord(s)) == [] then [] else [Alnums(TakeWord(s))]) + Runs(StripPunctuation(s[|TakeWord(s)|..]))
  {
    var w := TakeWord(s);
    var rest := s[|w|..];
    StripFirstWord(s);
    var r := StripPunctuation(rest);
    StripSpaceHead(rest);
    if Alnums(w) != [] {
      AlnumsNoSpace(w);
      RunsWordThen(Alnums(w), r);
    } else {
      assert Alnums(w) + r == r;
    }
  }

  /** Stripping a string strips its first word to its letters and digits. */
  lemma StripFirstWord(s: string)
    ensures StripPunctuation(s) == Alnums(TakeWord(s)) + StripPunctuation(s[|TakeWord(s)|..])
  {
    var w := TakeWord(s);
    SplitAt(s, |w|);
    StripConcat(w, s[|w|..]);
    StripWord(w);
  }

  /** A `\s` char at the front survives stripping. */
  lemma StripSpaceHead(s: string)
    requires s == [] || IsSpace(s[0])
    ensures StripPunctuation(s) == [] || IsSpace(StripPunctuation(s)[0])
  {
    if s != [] {
      assert StripPunctuation(s) == [s[0]] + StripPunctuation(s[1..]);
    }
  }

  lemma {:induction false} AlnumsNoSpace(s: string)
    ensures NoSpaceIn(Alnums(s))
    decreases |s|
  {
    if s != [] {
      AlnumsNoSpace(s[1..]);
      var h := if IsAlnum(s[0]) then [s[0]] else [];
      var r := Alnums(s[1..]);
      forall i | 0 <= i < |h + r| ensures !IsSpace((h + r)[i]) {
        if i < |h| {
          AlnumNotSpace(s[0]);
        } else {
          assert (h + r)[i] == r[i - |h|];
        }
      }
    }
  }

  /** On letters, digits and `\s` chars, trimming removes only `\s` chars at the ends. */
  lemma RunsTrim(s: string)
    requires AlnumOrSpace(s)
    ensures Runs(Trim(s)) == Runs(s)
  {
    RunsTrimStart(s);
    var k := |s| - |TrimStart(s)|;
    SliceAlnumOrSpace(s, 0, k);
    RunsTrimEnd(TrimStart(s));
  }

  lemma RunsTrimStart(s: string)
    requires AlnumOrSpace(s)
    ensures Runs(TrimStart(s)) == Runs(s)
  {
    var t := TrimStart(s);
    var k := |s| - |t|;
    SplitAt(s, k);
    LeadingSpaces(s, k);
    RunsSpacesThen(s[..k], s[k..]);
  }

  /** Chars that trimming drops from a string of letters, digits and `\s` chars are `\s` chars. */
  lemma LeadingSpaces(s: string, k: nat)
    requires AlnumOrSpace(s) && k <= |s|
    requires forall i :: 0 <= i < k ==> IsTrimmable(s[i])
    ensures forall i :: 0 <= i < k ==> IsSpace(s[..k][i])
  {
    forall i | 0 <= i < k ensures IsSpace(s[..k][i]) {
      TrimmableSpace(s[i]);
    }
  }

  lemma RunsTrimEnd(t: string)
    requires AlnumOrSpace(t)
    ensures Runs(TrimEnd(t)) == Runs(t)
  {
    var e := TrimEnd(t);
    SplitAt(t, |e|);
    TrailingSpaces(t, |e|);
    RunsThenSpaces(e, t[|e|..]);
  }

  lemma TrailingSpaces(t: string, k: nat)
    requires AlnumOrSpace(t) && k <= |t|
    requires forall i :: k <= i < |t| ==> IsTrimmable(t[i])
    ensures forall i :: 0 <= i < |t| - k ==> IsSpace(t[k..][i])
  {
    forall i | 0 <= i < |t| - k ensures IsSpace(t[k..][i]) {
      TrimmableSpace(t[k + i]);
    }
  }

  /** A trimmable letter, digit or `\s` char is a `\s` char. */
  lemma TrimmableSpace(c: char)
    requires IsAlnum(c) || IsSpace(c)
    ensures IsTrimmable(c) ==> IsSpace(c)
  {
  }

  /** Collapsing `\s` runs changes no piece. */
  lemma {:induction false} RunsCollapse(s: string)
    ensures Runs(CollapseSpaces(s)) == Runs(s)
    decreases |s|
  {
    if s != [] {
      if IsSpace(s[0]) {
        var h, next := CollapseStep(s);
        DropSpacesRuns(s[1..]);
        assert ([h] + CollapseSpaces(next))[1..] == CollapseSpaces(next);
        RunsCollapse(next);
      } else {
        var w := TakeWord(s);
        var rest := s[|w|..];
        assert s == w + rest;
        CollapseWord(w, rest);
        RunsWordThen(w, CollapseSpaces(rest));
        RunsCollapse(rest);
      }
    }
  }

  /** Lower-casing lower-cases each piece and moves no boundary. */
  lemma {:induction false} RunsLower(s: string)
    ensures Runs(LowerCase(s)) == LowerAll(Runs(s))
    decreases |s|
  {
    if s != [] {
      if IsSpace(s[0]) {
        var l := LowerCase(s);
        assert l[0] == s[0];
        assert l[1..] == LowerCase(s[1..]);
        RunsLower(s[1..]);
      } else {
        var w := TakeWord(s);
        RunsLowerWord(s);
        RunsLower(s[|w|..]);
        assert ([w] + Runs(s[|w|..]))[1..] == Runs(s[|w|..]);
      }
    }
  }

  /** The first piece of a lower-cased string is the lower-cased first piece. */
  lemma RunsLowerWord(s: string)
    requires s != [] && !IsSpace(s[0])
    ensures Runs(LowerCase(s)) == [LowerCase(TakeWord(s))] + Runs(LowerCase(s[|TakeWord(s)|..]))
  {
    var w := TakeWord(s);
    var rest := s[|w|..];
    TakeWordNonEmpty(s);
    SplitAt(s, |w|);
    LowerConcat(w, rest);
    LowerKeepsSpaces(w);
    LowerKeepsSpaces(rest);
    RunsWordThen(LowerCase(w), LowerCase(rest));
  }

  /** Lower-casing turns no char into a `\s` char and no `\s` char into another char. */
  lemma LowerKeepsSpaces(x: string)
    ensures NoSpaceIn(x) ==> NoSpaceIn(LowerCase(x))
    ensures x != [] && IsSpace(x[0]) ==> IsSpace(LowerCase(x)[0])
    ensures x != [] ==> LowerCase(x) != []
  {
    var l := LowerCase(x);
    if NoSpaceIn(x) {
      forall i | 0 <= i < |l| ensures !IsSpace(l[i]) {
        assert l[i] == ToLower(x[i]);
      }
    }
  }

  lemma LowerConcat(a: string, b: string)
    ensures LowerCase(a + b) == LowerCase(a) + LowerCase(b)
  {
    var ab := a + b;
    var la, lb := LowerCase(a), LowerCase(b);
    var l, r := LowerCase(ab), la + lb;
    assert |l| == |r|;
    forall i | 0 <= i < |l| ensures l[i] == r[i] {
      if i < |a| {
        assert ab[i] == a[i] && r[i] == la[i];
      } else {
        assert ab[i] == b[i - |a|] && r[i] == lb[i - |a|];
      }
    }
  }

}
