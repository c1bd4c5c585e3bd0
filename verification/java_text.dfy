/**
 * The parts of the Java platform that the word-count pipeline leans on,
 * stated for strings of Unicode scalar values: the ASCII character classes
 * of java.util.regex, String.trim, String.toLowerCase on ASCII letters,
 * String.split with a one-character pattern, String.replace with an empty
 * replacement, Integer.parseInt, Integer.toString and String.format("%03d").
 */
module JavaText {
  import opened Wrappers
  import opened Seqs

  // ---------------------------------------------------------------------
  // Character classes
  // ---------------------------------------------------------------------

  predicate IsAsciiLetter(c: char) { 'a' <= c <= 'z' || 'A' <= c <= 'Z' }

  predicate IsAsciiDigit(c: char) { '0' <= c <= '9' }

  /** The regex class `[a-zA-Z0-9]`. */
  predicate IsAlnum(c: char) { IsAsciiLetter(c) || IsAsciiDigit(c) }

  /** `[a-z0-9]`: what survives normalisation, besides the space. */
  predicate IsLowerAlnum(c: char) { 'a' <= c <= 'z' || IsAsciiDigit(c) }

  /** The regex class `\s` (no UNICODE_CHARACTER_CLASS flag): [ \t\n\x0B\f\r]. */
  predicate IsSpace(c: char) {
    c == ' ' || c == '\t' || c == '\n' || c == '\U{000B}' || c == '\U{000C}' || c == '\r'
  }

  /** What String.trim strips from either end: every char up to U+0020. */
  predicate IsTrimmable(c: char) { c <= ' ' }

  predicate StartsWith(s: string, prefix: string) { prefix <= s }

  predicate EndsWith(s: string, suffix: string) {
    |suffix| <= |s| && s[|s| - |suffix|..] == suffix
  }

  // ---------------------------------------------------------------------
  // Lower-casing (only ASCII letters are ever lower-cased in the pipeline)
  // ---------------------------------------------------------------------

  function ToLower(c: char): char {
    if 'A' <= c <= 'Z' then (c as int + 32) as char else c
  }

  function LowerCase(s: string): (r: string)
    ensures |r| == |s|
    ensures forall i :: 0 <= i < |s| ==> r[i] == ToLower(s[i])
  {
    if s == [] then [] else [ToLower(s[0])] + LowerCase(s[1..])
  }

  // ---------------------------------------------------------------------
  // String.trim
  // ---------------------------------------------------------------------

  function TrimStart(s: string): (r: string)
    ensures |r| <= |s| && r == s[|s| - |r|..]
    ensures forall i :: 0 <= i < |s| - |r| ==> IsTrimmable(s[i])
    ensures r == [] || !IsTrimmable(r[0])
  {
    if s != [] && IsTrimmable(s[0]) then
      var r := TrimStart(s[1..]);
      TrimStartStep(s, r);
      r
    else s
  }

  /** Dropping one trimmable char in front of what the rest drops. */
  lemma TrimStartStep(s: string, r: string)
    requires s != [] && IsTrimmable(s[0])
    requires |r| <= |s| - 1 && r == s[1..][|s| - 1 - |r|..]
    requires forall i :: 0 <= i < |s| - 1 - |r| ==> IsTrimmable(s[1..][i])
    ensures r == s[|s| - |r|..]
    ensures forall i :: 0 <= i < |s| - |r| ==> IsTrimmable(s[i])
  {
    forall i | 0 < i < |s| - |r| ensures IsTrimmable(s[i]) {
      assert s[i] == s[1..][i - 1];
    }
  }

  function TrimEnd(s: string): (r: string)
    ensures |r| <= |s| && r == s[..|r|]
    ensures forall i :: |r| <= i < |s| ==> IsTrimmable(s[i])
    ensures r == [] || !IsTrimmable(r[|r| - 1])
  {
    if s != [] && IsTrimmable(s[|s| - 1]) then TrimEnd(s[..|s| - 1]) else s
  }

  /** String.trim: the longest infix of `s` that neither starts nor ends with a char up to U+0020. */
  function Trim(s: string): (r: string)
    ensures r == [] || (!IsTrimmable(r[0]) && !IsTrimmable(r[|r| - 1]))
    ensures r == [] <==> forall i :: 0 <= i < |s| ==> IsTrimmable(s[i])
  {
    TrimBlank(s);
    TrimEnds(s);
    TrimEnd(TrimStart(s))
  }

  /** `r` is `s` with only chars up to U+0020 cut from its two ends. */
  predicate TrimmedInfix(s: string, r: string) {
    exists i: nat, j: nat :: i <= j <= |s| && r == s[i..j] && TrimmedAround(s, i, j)
  }

  /** Every char of `s` before index i and from index j on is a char up to U+0020. */
  predicate TrimmedAround(s: string, i: nat, j: nat)
    requires i <= j <= |s|
  {
    (forall k :: 0 <= k < i ==> IsTrimmable(s[k])) && (forall k :: j <= k < |s| ==> IsTrimmable(s[k]))
  }

  /** Trim only cuts chars up to U+0020 from the two ends: its result is an infix s[i..j] of `s` with nothing else around it. */
  lemma TrimInfix(s: string)
    ensures TrimmedInfix(s, Trim(s))
  {
    var t := TrimStart(s);
    InfixWitness(s, t, TrimEnd(t));
  }

  /** A prefix r of a suffix t of s, with only trimmable chars around them, is a trimmed infix of s. */
  lemma InfixWitness(s: string, t: string, r: string)
    requires |t| <= |s| && t == s[|s| - |t|..]
    requires forall k :: 0 <= k < |s| - |t| ==> IsTrimmable(s[k])
    requires |r| <= |t| && r == t[..|r|]
    requires forall k :: |r| <= k < |t| ==> IsTrimmable(t[k])
    ensures TrimmedInfix(s, r)
  {
    var i := |s| - |t|;
    var j := i + |r|;
    InfixOfSuffix(s, i, |r|);
    TrailingTrimmed(s, t, i, |r|);
    assert r == s[i..j] && TrimmedAround(s, i, j);
  }

  lemma InfixOfSuffix(s: string, i: nat, n: nat)
    requires i + n <= |s|
    ensures s[i..][..n] == s[i..i + n]
  {
  }

  lemma TrailingTrimmed(s: string, t: string, i: nat, n: nat)
    requires i + |t| == |s| && t == s[i..] && n <= |t|
    requires forall k :: n <= k < |t| ==> IsTrimmable(t[k])
    ensures forall k :: i + n <= k < |s| ==> IsTrimmable(s[k])
  {
    forall k | i + n <= k < |s| ensures IsTrimmable(s[k]) {
      assert s[k] == t[k - i];
    }
  }

  lemma TrimEnds(s: string)
    ensures var r := TrimEnd(TrimStart(s));
            r == [] || (!IsTrimmable(r[0]) && !IsTrimmable(r[|r| - 1]))
  {
    var t := TrimStart(s);
    var r := TrimEnd(t);
    if r != [] {
      assert r[0] == t[0];
    }
  }

  lemma TrimBlank(s: string)
    ensures TrimEnd(TrimStart(s)) == [] <==> forall i :: 0 <= i < |s| ==> IsTrimmable(s[i])
  {
    var t := TrimStart(s);
    if TrimEnd(t) == [] {
      assert t == [];
    } else {
      assert TrimEnd(t)[0] == t[0] == s[|s| - |t|];
    }
  }

  // ---------------------------------------------------------------------
  // String.split with a one-character, non-meta pattern (limit 0)
  // ---------------------------------------------------------------------

  /** Every piece between occurrences of `sep`, empty ones included. */
  function Pieces(s: string, sep: char): (r: seq<string>)
    ensures |r| >= 1
    ensures forall i :: 0 <= i < |r| ==> sep !in r[i]
    decreases |s|
  {
    if s == [] then [[]]
    else
      var rest := Pieces(s[1..], sep);
      if s[0] == sep then [[]] + rest
      else
        var r := [[s[0]] + rest[0]] + rest[1..];
        assert forall i :: 1 <= i < |r| ==> r[i] == rest[i];
        r
  }

  function DropTrailingEmpty(r: seq<string>): (q: seq<string>)
    ensures |q| <= |r| && q == r[..|q|]
    ensures q == [] || q[|q| - 1] != []
  {
    if r != [] && r[|r| - 1] == [] then DropTrailingEmpty(r[..|r| - 1]) else r
  }

  /**
   * `s.split(sep)`: without an occurrence of `sep` the whole string; otherwise
   * the pieces between occurrences, with trailing empty pieces removed.
   */
  function Split(s: string, sep: char): (r: seq<string>)
    ensures forall i :: 0 <= i < |r| ==> sep !in r[i]
    ensures sep !in s ==> r == [s]
    ensures sep in s ==> r == [] || r[|r| - 1] != []
  {
    if sep !in s then [s]
    else
      var p := Pieces(s, sep);
      var q := DropTrailingEmpty(p);
      assert forall i :: 0 <= i < |q| ==> q[i] == p[i];
      q
  }

  lemma {:induction false} PiecesWithout(s: string, sep: char)
    requires sep !in s
    ensures Pieces(s, sep) == [s]
    decreases |s|
  {
    if s != [] {
      PiecesWithout(s[1..], sep);
      assert [s[0]] + s[1..] == s;
    }
  }

  lemma {:induction false} PiecesAfter(w: string, v: string, sep: char)
    requires sep !in w
    ensures Pieces(w + [sep] + v, sep) == [w] + Pieces(v, sep)
    decreases |w|
  {
    var s := w + [sep] + v;
    if w == [] {
      assert s[1..] == v;
    } else {
      assert s[1..] == w[1..] + [sep] + v;
      PiecesAfter(w[1..], v, sep);
      assert [w[0]] + w[1..] == w;
    }
  }

  /** A field, the separator and a non-empty field split back into exactly those two fields. */
  lemma SplitPair(w: string, v: string, sep: char)
    requires sep !in w && sep !in v && v != []
    ensures Split(w + [sep] + v, sep) == [w, v]
  {
    var s := w + [sep] + v;
    assert s[|w|] == sep;
    PiecesAfter(w, v, sep);
    PiecesWithout(v, sep);
    assert Pieces(s, sep) == [w, v];
  }

  /** The fields joined back with one `sep` between neighbours. */
  function JoinSep(ps: seq<string>, sep: char): string {
    if ps == [] then []
    else if |ps| == 1 then ps[0]
    else ps[0] + [sep] + JoinSep(ps[1..], sep)
  }

  lemma {:induction false} JoinSnoc(ps: seq<string>, x: string, sep: char)
    requires ps != []
    ensures JoinSep(ps + [x], sep) == JoinSep(ps, sep) + [sep] + x
    decreases |ps|
  {
    var qs := ps + [x];
    if |ps| == 1 {
      assert qs[1..] == [x];
    } else {
      assert qs[1..] == ps[1..] + [x];
      JoinSnoc(ps[1..], x, sep);
    }
  }

  /** A char put in front of the first field is put in front of the joined text. */
  lemma JoinHead(c: char, ps: seq<string>, sep: char)
    requires ps != []
    ensures JoinSep([[c] + ps[0]] + ps[1..], sep) == [c] + JoinSep(ps, sep)
  {
    var qs := [[c] + ps[0]] + ps[1..];
    assert qs[1..] == ps[1..];
  }

  /** Joining the pieces gives back the text: no char is lost or invented. */
  lemma {:induction false} PiecesJoin(s: string, sep: char)
    ensures JoinSep(Pieces(s, sep), sep) == s
    decreases |s|
  {
    if s != [] {
      var rest := Pieces(s[1..], sep);
      PiecesJoin(s[1..], sep);
      if s[0] == sep {
        assert ([[]] + rest)[1..] == rest;
      } else {
        JoinHead(s[0], rest, sep);
      }
      assert s == [s[0]] + s[1..];
    }
  }

  /** Each dropped trailing empty piece stood for one trailing separator. */
  lemma {:induction false} DropJoin(p: seq<string>, sep: char)
    requires p != []
    ensures var q := DropTrailingEmpty(p);
            JoinSep(p, sep) == JoinSep(q, sep) + Repeat(sep, if q == [] then |p| - 1 else |p| - |q|)
    decreases |p|
  {
    var q := DropTrailingEmpty(p);
    if p[|p| - 1] != [] {
      assert Repeat(sep, 0) == [];
    } else if |p| > 1 {
      var init := p[..|p| - 1];
      DropJoin(init, sep);
      assert p == init + [[]];
      JoinSnoc(init, [], sep);
      RepeatSnoc(sep, if q == [] then |init| - 1 else |init| - |q|);
    }
  }

  /**
   * A text holding `sep` is its fields joined with `sep`, followed by the
   * separators whose empty trailing fields split dropped.
   */
  lemma SplitRejoins(s: string, sep: char)
    requires sep in s
    ensures exists k :: s == JoinSep(Split(s, sep), sep) + Repeat(sep, k)
  {
    PiecesJoin(s, sep);
    DropJoin(Pieces(s, sep), sep);
  }

  lemma {:induction false} PiecesTrailing(v: string, k: nat, sep: char)
    requires sep !in v
    ensures Pieces(v + Repeat(sep, k), sep) == [v] + Repeat<string>([], k)
    decreases |v| + k
  {
    var s := v + Repeat(sep, k);
    if v != [] {
      assert s[1..] == v[1..] + Repeat(sep, k);
      PiecesTrailing(v[1..], k, sep);
      assert [v[0]] + v[1..] == v;
    } else if k > 0 {
      assert s == [sep] + Repeat(sep, k - 1);
      assert s[1..] == [] + Repeat(sep, k - 1);
      PiecesTrailing([], k - 1, sep);
    }
  }

  lemma {:induction false} DropEmpties(q: seq<string>, k: nat)
    requires q != [] && q[|q| - 1] != []
    ensures DropTrailingEmpty(q + Repeat<string>([], k)) == q
    decreases k
  {
    var r := q + Repeat<string>([], k);
    if k == 0 {
      assert r == q;
    } else {
      RepeatSnoc<string>([], k - 1);
      assert r[..|r| - 1] == q + Repeat<string>([], k - 1);
      DropEmpties(q, k - 1);
    }
  }

  /** Two separator-free fields, the second non-empty, and any run of trailing separators split into those two fields. */
  lemma SplitTwoFields(w: string, v: string, k: nat, sep: char)
    requires sep !in w && sep !in v && v != []
    ensures Split(w + [sep] + v + Repeat(sep, k), sep) == [w, v]
  {
    var s := w + [sep] + v + Repeat(sep, k);
    assert s[|w|] == sep;
    assert s == w + [sep] + (v + Repeat(sep, k));
    PiecesAfter(w, v + Repeat(sep, k), sep);
    PiecesTrailing(v, k, sep);
    DropEmpties([w, v], k);
    assert [w] + ([v] + Repeat<string>([], k)) == [w, v] + Repeat<string>([], k);
  }

  lemma {:induction false} PiecesNonEmpty(u: string, sep: char, m: nat)
    requires m < |u| && u[m] != sep
    ensures exists j :: 0 <= j < |Pieces(u, sep)| && Pieces(u, sep)[j] != []
    decreases |u|
  {
    if u[0] == sep {
      PiecesNonEmpty(u[1..], sep, m - 1);
      var rest := Pieces(u[1..], sep);
      var j :| 0 <= j < |rest| && rest[j] != [];
      assert Pieces(u, sep)[j + 1] == rest[j];
    } else {
      assert Pieces(u, sep)[0] == [u[0]] + Pieces(u[1..], sep)[0];
    }
  }

  lemma {:induction false} DropKeeps(p: seq<string>, j: nat)
    requires j < |p| && p[j] != []
    ensures |DropTrailingEmpty(p)| > j
    decreases |p|
  {
    if p[|p| - 1] == [] {
      DropKeeps(p[..|p| - 1], j);
    }
  }

  /** Two separator-free fields followed by a third holding anything but separators split into at least three fields. */
  lemma SplitManyFields(w: string, v: string, u: string, sep: char)
    requires sep !in w && sep !in v
    requires exists m :: 0 <= m < |u| && u[m] != sep
    ensures |Split(w + [sep] + v + [sep] + u, sep)| >= 3
  {
    var s := w + [sep] + v + [sep] + u;
    assert s[|w|] == sep;
    PiecesOfThree(w, v, u, sep);
    var m :| 0 <= m < |u| && u[m] != sep;
    PiecesNonEmpty(u, sep, m);
    var rest := Pieces(u, sep);
    var j :| 0 <= j < |rest| && rest[j] != [];
    var p := [w, v] + rest;
    assert p[j + 2] == rest[j];
    DropKeeps(p, j + 2);
  }

  lemma PiecesOfThree(w: string, v: string, u: string, sep: char)
    requires sep !in w && sep !in v
    ensures Pieces(w + [sep] + v + [sep] + u, sep) == [w, v] + Pieces(u, sep)
  {
    assert w + [sep] + v + [sep] + u == w + [sep] + (v + [sep] + u);
    PiecesAfter(w, v + [sep] + u, sep);
    PiecesAfter(v, u, sep);
  }

  // ---------------------------------------------------------------------
  // Decimal numerals: Integer.toString, String.format("%03d"), Integer.parseInt
  // ---------------------------------------------------------------------

  predicate AllDigits(s: string) {
    forall i :: 0 <= i < |s| ==> IsAsciiDigit(s[i])
  }

  function DigitChar(d: nat): (c: char)
    requires d < 10
    ensures IsAsciiDigit(c)
  {
    ('0' as int + d) as char
  }

  /** The value of a string of ASCII digits, most significant first. */
  function DigitsValue(s: string): nat
    requires AllDigits(s)
  {
    if s == [] then 0 else 10 * DigitsValue(s[..|s| - 1]) + (s[|s| - 1] as int - '0' as int)
  }

  /** The shortest decimal numeral of `n`. */
  function Decimal(n: nat): (r: string)
    ensures r != [] && AllDigits(r)
    ensures DigitsValue(r) == n
    decreases n
  {
    if n < 10 then [DigitChar(n)]
    else
      var r := Decimal(n / 10) + [DigitChar(n % 10)];
      assert r[..|r| - 1] == Decimal(n / 10);
      r
  }

  /** Integer.toString and string concatenation of an int. */
  function IntToString(n: int): string {
    if n < 0 then "-" + Decimal(-n) else Decimal(n)
  }

  lemma {:induction false} LeadingZeros(k: nat, d: string)
    requires AllDigits(d)
    ensures AllDigits(seq(k, _ => '0') + d)
    ensures DigitsValue(seq(k, _ => '0') + d) == DigitsValue(d)
    decreases |d|
  {
    var z: string := seq(k, _ => '0');
    if d == [] {
      assert z + d == z;
      ZerosValue(k);
    } else {
      var d' := d[..|d| - 1];
      assert (z + d)[..|z + d| - 1] == z + d';
      LeadingZeros(k, d');
    }
  }

  lemma {:induction false} ZerosValue(k: nat)
    ensures AllDigits(seq(k, _ => '0'))
    ensures DigitsValue(seq(k, _ => '0')) == 0
  {
    if k > 0 {
      ZerosValue(k - 1);
      var z: string := seq(k, _ => '0');
      assert z[..k - 1] == seq(k - 1, _ => '0');
    }
  }

  /** String.format("%03d", n) for a non-negative n, under a locale whose zero digit is '0': zero-padded to at least three digits. */
  function Format03d(n: nat): (r: string)
    ensures |r| >= 3 && AllDigits(r)
    ensures DigitsValue(r) == n
    ensures |Decimal(n)| >= 3 ==> r == Decimal(n)
    ensures |Decimal(n)| < 3 ==> |r| == 3
  {
    var d := Decimal(n);
    if |d| < 3 then
      LeadingZeros(3 - |d|, d);
      seq(3 - |d|, _ => '0') + d
    else d
  }

  const INT_MIN: int := -0x8000_0000
  const INT_MAX: int := 0x7FFF_FFFF

  /** Values of Java's 32-bit `int`. */
  predicate InIntRange(n: int) { INT_MIN <= n <= INT_MAX }

  /**
   * Integer.parseInt: an optional '+' or '-' followed by at least one digit,
   * with a value that fits in an `int`; None where Java throws
   * NumberFormatException.
   */
  function ParseInt(s: string): (r: Option<int>)
    ensures r.Some? ==> InIntRange(r.value)
  {
    if s == [] then None
    else
      var digits := if s[0] == '-' || s[0] == '+' then s[1..] else s;
      if digits == [] || !AllDigits(digits) then None
      else
        var v: int := if s[0] == '-' then -(DigitsValue(digits) as int) else DigitsValue(digits);
        if InIntRange(v) then Some(v) else None
  }

  /**
   * Integer.parseInt throws NumberFormatException (here: None) for empty
   * text, a lone sign, any char other than a leading sign or an ASCII digit,
   * and a value outside the int range.
   */
  lemma ParseIntRejects(s: string)
    ensures s == [] || s == "-" || s == "+" ==> ParseInt(s).None?
    ensures s != [] && s[0] != '-' && s[0] != '+' && !IsAsciiDigit(s[0]) ==> ParseInt(s).None?
    ensures (exists i :: 0 < i < |s| && !IsAsciiDigit(s[i])) ==> ParseInt(s).None?
    ensures s != [] && AllDigits(s) && !InIntRange(DigitsValue(s)) ==> ParseInt(s).None?
    ensures (&& |s| > 1 && (s[0] == '-' || s[0] == '+') && AllDigits(s[1..])
             && !InIntRange(if s[0] == '-' then -(DigitsValue(s[1..]) as int) else DigitsValue(s[1..])))
            ==> ParseInt(s).None?
  {
    if exists i :: 0 < i < |s| && !IsAsciiDigit(s[i]) {
      var i :| 0 < i < |s| && !IsAsciiDigit(s[i]);
      if s[0] == '-' || s[0] == '+' {
        assert s[1..][i - 1] == s[i];
      }
    }
  }

  /**
   * Integer.parseInt accepts an optional '+' or '-' followed by ASCII digits,
   * leading zeros included, and yields their signed value when it fits in
   * an `int`; a value out of range is rejected.
   */
  lemma ParseIntAccepts(sign: string, d: string)
    requires sign == "" || sign == "+" || sign == "-"
    requires d != [] && AllDigits(d)
    ensures var v := if sign == "-" then -(DigitsValue(d) as int) else DigitsValue(d);
            ParseInt(sign + d) == if InIntRange(v) then Some(v) else None
  {
    var s := sign + d;
    if sign == [] {
      assert s == d;
      assert IsAsciiDigit(d[0]);
    } else {
      assert s[0] == sign[0];
      assert s[1..] == d;
    }
  }

  /** Integer.parseInt reads back what Integer.toString writes. */
  lemma ParseIntToString(n: int)
    requires InIntRange(n)
    ensures ParseInt(IntToString(n)) == Some(n)
  {
    var s := IntToString(n);
    if n < 0 {
      assert s[1..] == Decimal(-n);
    } else {
      assert IsAsciiDigit(s[0]);
    }
  }

  // ---------------------------------------------------------------------
  // String.replace(target, "")
  // ---------------------------------------------------------------------

  /** Every non-overlapping occurrence of `pat`, scanning left to right, removed. */
  function RemoveAll(s: string, pat: string): string
    requires pat != []
    decreases |s|
  {
    if |s| < |pat| then s
    else if s[..|pat|] == pat then RemoveAll(s[|pat|..], pat)
    else [s[0]] + RemoveAll(s[1..], pat)
  }

  /** No occurrence of `pat` can start inside a prefix that lacks `pat`'s first char. */
  lemma {:induction false} RemoveAllSkips(x: string, y: string, pat: string)
    requires pat != [] && pat[0] !in x
    ensures RemoveAll(x + y, pat) == x + RemoveAll(y, pat)
    decreases |x|
  {
    if x == [] {
      assert x + y == y;
    } else {
      var s := x + y;
      if |s| < |pat| {
        RemoveAllShort(s, pat);
        RemoveAllShort(y, pat);
      } else {
        assert s[0] == x[0];
        RemoveAllStep(s, pat);
        assert s[1..] == x[1..] + y;
        assert pat[0] !in x[1..];
        RemoveAllSkips(x[1..], y, pat);
        HeadTail(x, RemoveAll(y, pat));
      }
    }
  }

  /** A text that does not start with `pat`'s first char keeps that char. */
  lemma RemoveAllStep(s: string, pat: string)
    requires pat != [] && |s| >= |pat| && s[0] != pat[0]
    ensures RemoveAll(s, pat) == [s[0]] + RemoveAll(s[1..], pat)
  {
    assert s[..|pat|][0] == s[0];
  }

  lemma RemoveAllShort(s: string, pat: string)
    requires pat != [] && |s| < |pat|
    ensures RemoveAll(s, pat) == s
  {
  }
}
