/** String operations the scripts and the daemon rely on, each defined once with the
    semantics of the language that calls it (Python's `in`, `split`, `replace`,
    `str(int)`, `strip`, `splitlines`; C++'s `find`). Strings are `seq<char>`. */
module Strings {
  import opened Wrappers

  /** Index of the first occurrence of `p` in `s` (C++ `find`, Python `str.find`),
      or None when `p` does not occur. */
  function Find(s: string, p: string): (r: Option<nat>)
    ensures r.Some? ==> r.value + |p| <= |s| && p <= s[r.value..]
    ensures r.Some? ==> forall j :: 0 <= j < r.value ==> !(p <= s[j..])
    ensures r.None? ==> forall j :: 0 <= j <= |s| ==> !(p <= s[j..])
    decreases |s|
  {
    if p <= s then Some(0)
    else if |s| == 0 then None
    else
      SuffixesOfTail(s);
      match Find(s[1..], p)
      case None => None
      case Some(k) => Some(k + 1)
  }

  /** The suffixes of a text after its first character are the suffixes of its tail. */
  lemma SuffixesOfTail(s: string)
    requires |s| > 0
    ensures forall j :: 1 <= j <= |s| ==> s[j..] == s[1..][j - 1..]
  {
  }

  /** Python's `p in s`: `p` occurs somewhere in `s`. */
  predicate Contains(s: string, p: string) {
    Find(s, p).Some?
  }

  /** A one-character pattern occurs exactly when the character does. */
  lemma ContainsChar(s: string, c: char)
    ensures Contains(s, [c]) <==> c in s
  {
    if Contains(s, [c]) {
      var k := Find(s, [c]).value;
      assert s[k] == s[k..][0] == c;
    }
    if c in s {
      var i :| 0 <= i < |s| && s[i] == c;
      assert [c] <= s[i..];
    }
  }

  /** Where `find` reports a one-character pattern (the first suffix it starts): that
      character, with none before it. */
  lemma FindCharAt(s: string, c: char, k: nat)
    requires k < |s| && [c] <= s[k..]
    requires forall j :: 0 <= j < k ==> !([c] <= s[j..])
    ensures s[k] == c && c !in s[..k]
    ensures s == s[..k] + [c] + s[k + 1..]
  {
    assert s[k] == s[k..][0];
    NoStartBefore(s, c, k);
    Around(s, k, c);
  }

  /** A character that starts no suffix before `k` does not occur before `k`. */
  lemma NoStartBefore(s: string, c: char, k: nat)
    requires k <= |s|
    requires forall j :: 0 <= j < k ==> !([c] <= s[j..])
    ensures c !in s[..k]
  {
    forall j | 0 <= j < k ensures s[..k][j] != c {
      assert s[..k][j] == s[j..][0];
    }
  }

  /** A text is what lies before a position, the character there, and what follows. */
  lemma Around(s: string, k: nat, c: char)
    requires k < |s| && s[k] == c
    ensures s == s[..k] + [c] + s[k + 1..]
  {
    assert s[..k + 1] == s[..k] + [c];
  }

  /** A pattern whose first (or second) character never appears in `s` does not occur in `s`;
      used to show that fixed text is left alone by placeholder substitution. */
  lemma NotContainsByChar(s: string, p: string, k: nat)
    requires k < |p| && p[k] !in s
    ensures !Contains(s, p)
  {
  }

  /** Python's `s.replace(p, v)`: a left-to-right scan replacing every non-overlapping
      occurrence of the non-empty pattern `p` by `v`. */
  function ReplaceAll(s: string, p: string, v: string): (r: string)
    requires |p| > 0
    ensures !Contains(s, p) ==> r == s
    decreases |s|
  {
    if |s| == 0 then []
    else if p <= s then v + ReplaceAll(s[|p|..], p, v)
    else [s[0]] + ReplaceAll(s[1..], p, v)
  }

  /** A field that is exactly the placeholder becomes exactly the value. */
  lemma ReplaceWhole(p: string, v: string)
    requires |p| > 0
    ensures ReplaceAll(p, p, v) == v
  {
    assert p[|p|..] == [];
  }

  /** `replace` leaves alone text lacking one of the pattern's characters. */
  lemma ReplaceAbsent(s: string, p: string, v: string, k: nat)
    requires k < |p| && p[k] !in s
    ensures ReplaceAll(s, p, v) == s
  {
    NotContainsByChar(s, p, k);
  }

  /** `replace` leaves alone text shorter than the pattern. */
  lemma ReplaceShorter(s: string, p: string, v: string)
    requires |s| < |p|
    ensures ReplaceAll(s, p, v) == s
  {
  }

  /** Replacing a pattern by itself changes nothing. */
  lemma {:induction false} ReplaceBySelf(s: string, p: string)
    requires |p| > 0
    ensures ReplaceAll(s, p, p) == s
    decreases |s|
  {
    if |s| == 0 {
    } else if p <= s {
      ReplaceBySelf(s[|p|..], p);
      assert s == p + s[|p|..];
    } else {
      ReplaceBySelf(s[1..], p);
      assert s == [s[0]] + s[1..];
    }
  }

  /** Python's `s.split(sep)` for a non-empty separator: the pieces between the
      occurrences of `sep`, empty pieces included. */
  function Split(s: string, sep: string): (r: seq<string>)
    requires |sep| > 0
    ensures |r| > 0
    ensures Contains(s, sep) <==> |r| >= 2
    decreases |s|
  {
    match Find(s, sep)
    case None => [s]
    case Some(k) => [s[..k]] + Split(s[k + |sep|..], sep)
  }

  /** The second piece of a split is the first piece of what follows the first
      separator. */
  lemma SplitSecond(s: string, sep: string, k: nat)
    requires |sep| > 0 && Find(s, sep) == Some(k)
    ensures |Split(s, sep)| >= 2 && Split(s, sep)[1] == Split(s[k + |sep|..], sep)[0]
  {
    var pieces := [s[..k]] + Split(s[k + |sep|..], sep);
    assert Split(s, sep) == pieces;
    assert pieces[1] == Split(s[k + |sep|..], sep)[0];
  }

  /** Splitting at a one-character separator that the first part lacks: the first part
      is the first piece and the rest is split as before. */
  lemma SplitAfterFirst(a: string, b: string, c: char)
    requires c !in a
    ensures Split(a + [c] + b, [c]) == [a] + Split(b, [c])
  {
    var s := a + [c] + b;
    assert [c] <= s[|a|..];
    forall j | 0 <= j < |a|
      ensures !([c] <= s[j..])
    {
      assert s[j..][0] == a[j];
    }
    match Find(s, [c])
    case None =>
      assert false;
    case Some(k) =>
      assert k == |a|;
      assert s[..k] == a && s[k + 1..] == b;
  }

  /** The same for a longer separator whose first character the first part lacks. */
  lemma SplitAfterFirstSep(a: string, b: string, sep: string)
    requires |sep| > 0 && sep[0] !in a
    ensures Split(a + sep + b, sep) == [a] + Split(b, sep)
  {
    var s := a + sep + b;
    assert s[|a|..][..|sep|] == sep;
    forall j | 0 <= j < |a|
      ensures !(sep <= s[j..])
    {
      assert s[j..][0] == a[j];
    }
    match Find(s, sep)
    case None =>
      assert false;
    case Some(k) =>
      assert k == |a|;
      assert s[..k] == a && s[k + |sep|..] == b;
  }

  /** The first piece of a split ends before the first separator: `a` when `a` lacks
      the separator's first character, whatever follows it. */
  lemma SplitFirstPiece(a: string, b: string, sep: string)
    requires |sep| > 0 && sep[0] !in a
    ensures Split(a, sep)[0] == a
    ensures Split(a + sep + b, sep)[0] == a
  {
    NotContainsByChar(a, sep, 0);
    SplitAfterFirstSep(a, b, sep);
  }

  /** Two ways of cutting a string at a character that leave none of it before the cut
      are the same cut. */
  lemma CutAtFirst(a: string, b: string, c: string, d: string, ch: char)
    requires ch !in a && ch !in c
    requires a + [ch] + b == c + [ch] + d
    ensures a == c && b == d
  {
    var s := a + [ch] + b;
    assert s[|a|] == ch && forall j :: 0 <= j < |a| ==> s[j] == a[j];
    assert s[|c|] == ch && forall j :: 0 <= j < |c| ==> s[j] == c[j];
    assert |a| == |c|;
    assert a == s[..|a|] && c == s[..|c|];
    assert b == s[|a| + 1..] && d == s[|c| + 1..];
  }

  /** Pieces glued back together with the separator (Python's `sep.join(pieces)`). */
  function Join(pieces: seq<string>, sep: string): string
    decreases |pieces|
  {
    if |pieces| == 0 then []
    else if |pieces| == 1 then pieces[0]
    else pieces[0] + sep + Join(pieces[1..], sep)
  }

  /** Splitting and joining with the same separator gives back the input. */
  lemma {:induction false} SplitJoin(s: string, sep: string)
    requires |sep| > 0
    ensures Join(Split(s, sep), sep) == s
    decreases |s|
  {
    match Find(s, sep)
    case None =>
    case Some(k) =>
      var rest := s[k + |sep|..];
      SplitJoin(rest, sep);
      assert s[k..k + |sep|] == sep;
      assert s == s[..k] + sep + rest;
  }

  /** Splitting undoes joining at a character none of the pieces holds. */
  lemma {:induction false} SplitOfJoin(pieces: seq<string>, c: char)
    requires |pieces| > 0
    requires forall k :: 0 <= k < |pieces| ==> c !in pieces[k]
    ensures Split(Join(pieces, [c]), [c]) == pieces
    decreases |pieces|
  {
    if |pieces| == 1 {
      ContainsChar(pieces[0], c);
    } else {
      var tail := pieces[1..];
      SplitOfJoin(tail, c);
      SplitAfterFirst(pieces[0], Join(tail, [c]), c);
      assert pieces == [pieces[0]] + tail;
    }
  }

  /** The first piece of a split is the text before the first separator, and contains
      no separator; `Split(s, sep)[0]` is Python's `s.split(sep)[0]`. */
  lemma SplitHead(s: string, sep: string)
    requires |sep| > 0
    ensures !Contains(Split(s, sep)[0], sep)
    ensures Split(s, sep)[0] <= s
    ensures Find(s, sep).None? ==> Split(s, sep)[0] == s
    ensures Find(s, sep).Some? ==> Split(s, sep)[0] == s[..Find(s, sep).value]
  {
    match Find(s, sep)
    case None =>
    case Some(k) =>
      var h := s[..k];
      forall j | 0 <= j <= |h| ensures !(sep <= h[j..]) {
        if j + |sep| <= |h| {
          assert h[j..][..|sep|] == s[j..][..|sep|];
        }
      }
  }

  predicate IsDigit(c: char) {
    '0' <= c <= '9'
  }

  predicate AllDigits(s: string) {
    forall i :: 0 <= i < |s| ==> IsDigit(s[i])
  }

  function DigitChar(d: nat): (c: char)
    requires d < 10
    ensures IsDigit(c)
  {
    ('0' as int + d) as char
  }

  function DigitValue(c: char): nat
    requires IsDigit(c)
  {
    c as int - '0' as int
  }

  /** Python's `str(n)` for a natural number: its decimal digits, no leading zero. */
  function NatToString(n: nat): (r: string)
    ensures |r| > 0 && AllDigits(r)
    ensures n > 0 ==> r[0] != '0'
    decreases n
  {
    if n < 10 then [DigitChar(n)]
    else NatToString(n / 10) + [DigitChar(n % 10)]
  }

  /** The number a string of decimal digits denotes (the empty string denotes 0). */
  function DecimalValue(s: string): nat
    requires AllDigits(s)
    decreases |s|
  {
    if |s| == 0 then 0
    else DecimalValue(s[..|s| - 1]) * 10 + DigitValue(s[|s| - 1])
  }

  /** Reading back the digits `str(n)` writes gives `n`. */
  lemma {:induction false} NatToStringRoundTrip(n: nat)
    ensures DecimalValue(NatToString(n)) == n
    decreases n
  {
    var r := NatToString(n);
    if n >= 10 {
      NatToStringRoundTrip(n / 10);
      assert r[..|r| - 1] == NatToString(n / 10);
    }
  }

  /** Distinct numbers print differently. */
  lemma NatToStringInjective(i: nat, j: nat)
    requires NatToString(i) == NatToString(j)
    ensures i == j
  {
    NatToStringRoundTrip(i);
    NatToStringRoundTrip(j);
  }

  /** Names built as a common prefix followed by `str(i)` (Python `f"{prefix}{i}"`)
      are distinct for distinct `i`. */
  lemma PrefixedNatInjective(prefix: string, i: nat, j: nat)
    requires prefix + NatToString(i) == prefix + NatToString(j)
    ensures i == j
  {
    assert (prefix + NatToString(i))[|prefix|..] == NatToString(i);
    assert (prefix + NatToString(j))[|prefix|..] == NatToString(j);
    NatToStringInjective(i, j);
  }

  /** Characters Python's `str.isspace` accepts, which `strip()` removes. */
  predicate IsSpace(c: char) {
    || c == ' ' || c == '\t' || c == '\n' || c == '\r'
    || c == '\U{0B}' || c == '\U{0C}'
    || ('\U{1C}' <= c <= '\U{1F}')
    || c == '\U{85}' || c == '\U{A0}' || c == '\U{1680}'
    || ('\U{2000}' <= c <= '\U{200A}')
    || c == '\U{2028}' || c == '\U{2029}' || c == '\U{202F}' || c == '\U{205F}' || c == '\U{3000}'
  }

  /** Number of whitespace characters at the start of `s`. */
  function LeadingSpaces(s: string): (n: nat)
    ensures n <= |s|
    ensures forall k :: 0 <= k < n ==> IsSpace(s[k])
    ensures n < |s| ==> !IsSpace(s[n])
    decreases |s|
  {
    if |s| > 0 && IsSpace(s[0]) then 1 + LeadingSpaces(s[1..]) else 0
  }

  /** Number of whitespace characters at the end of `s`. */
  function TrailingSpaces(s: string): (n: nat)
    ensures n <= |s|
    ensures forall k :: |s| - n <= k < |s| ==> IsSpace(s[k])
    ensures n < |s| ==> !IsSpace(s[|s| - n - 1])
    decreases |s|
  {
    if |s| > 0 && IsSpace(s[|s| - 1]) then 1 + TrailingSpaces(s[..|s| - 1]) else 0
  }

  /** Python's `s.strip()`: the largest infix of `s` that neither starts nor ends with
      whitespace, everything cut away being whitespace. */
  function Strip(s: string): (r: string)
    ensures exists i, j :: 0 <= i <= j <= |s| && r == s[i..j]
                           && (forall k :: 0 <= k < i ==> IsSpace(s[k]))
                           && (forall k :: j <= k < |s| ==> IsSpace(s[k]))
    ensures |r| > 0 ==> !IsSpace(r[0]) && !IsSpace(r[|r| - 1])
  {
    var i := LeadingSpaces(s);
    var t := s[i..];
    var n := TrailingSpaces(t);
    assert forall k :: i + |t| - n <= k < |s| ==> s[k] == t[k - i];
    s[i..|s| - n]
  }

  /** `strip()` of a string whose first and last non-whitespace characters sit at `i0`
      and `j0 - 1` is the text between them. */
  lemma StripExact(s: string, i0: nat, j0: nat)
    requires i0 < j0 <= |s|
    requires forall k :: 0 <= k < i0 ==> IsSpace(s[k])
    requires forall k :: j0 <= k < |s| ==> IsSpace(s[k])
    requires !IsSpace(s[i0]) && !IsSpace(s[j0 - 1])
    ensures Strip(s) == s[i0..j0]
  {
    LeadingExact(s, i0);
    var t := s[i0..];
    assert t[|t| - (|s| - j0) - 1] == s[j0 - 1];
    assert forall k :: |t| - (|s| - j0) <= k < |t| ==> t[k] == s[k + i0];
    TrailingExact(t, |s| - j0);
  }

  lemma LeadingExact(s: string, i0: nat)
    requires i0 < |s| && !IsSpace(s[i0])
    requires forall k :: 0 <= k < i0 ==> IsSpace(s[k])
    ensures LeadingSpaces(s) == i0
  {
  }

  lemma TrailingExact(t: string, m: nat)
    requires m < |t| && !IsSpace(t[|t| - m - 1])
    requires forall k :: |t| - m <= k < |t| ==> IsSpace(t[k])
    ensures TrailingSpaces(t) == m
  {
  }

  /** Stripping twice is stripping once. */
  lemma StripIdempotent(s: string)
    ensures Strip(Strip(s)) == Strip(s)
  {
    var r := Strip(s);
    if |r| > 0 {
      assert LeadingSpaces(r) == 0;
      assert r[0..] == r;
      assert TrailingSpaces(r) == 0;
    }
  }

  /** Line boundaries of Python's `str.splitlines`. */
  predicate IsLineBreak(c: char) {
    || c == '\n' || c == '\r' || c == '\U{0B}' || c == '\U{0C}'
    || c == '\U{1C}' || c == '\U{1D}' || c == '\U{1E}'
    || c == '\U{85}' || c == '\U{2028}' || c == '\U{2029}'
  }

  predicate NoLineBreak(s: string) {
    forall k :: 0 <= k < |s| ==> !IsLineBreak(s[k])
  }

  /** Index of the first line boundary in `s`, or `|s|` when there is none. */
  function FirstLineBreak(s: string): (k: nat)
    ensures k <= |s| && NoLineBreak(s[..k])
    ensures k < |s| ==> IsLineBreak(s[k])
    decreases |s|
  {
    if |s| == 0 || IsLineBreak(s[0]) then 0 else 1 + FirstLineBreak(s[1..])
  }

  /** Where the boundary at `k` ends: `\r\n` is one boundary of two characters. */
  function BreakEnd(s: string, k: nat): (e: nat)
    requires k < |s|
    ensures k < e <= |s|
  {
    if s[k] == '\r' && k + 1 < |s| && s[k + 1] == '\n' then k + 2 else k + 1
  }

  /** Python's `s.splitlines()`: lines without their boundaries, `\r\n` counting as one
      boundary, and no empty line after a final boundary. */
  function SplitLines(s: string): (r: seq<string>)
    ensures forall k :: 0 <= k < |r| ==> NoLineBreak(r[k])
    decreases |s|
  {
    if |s| == 0 then []
    else
      var k := FirstLineBreak(s);
      if k == |s| then [s] else [s[..k]] + SplitLines(s[BreakEnd(s, k)..])
  }

  /** Concatenation of a sequence of strings. */
  function Concat(ss: seq<string>): string
    decreases |ss|
  {
    if |ss| == 0 then [] else ss[0] + Concat(ss[1..])
  }

  /** `s` with every line-boundary character removed. */
  function DropLineBreaks(s: string): string
    decreases |s|
  {
    if |s| == 0 then []
    else if IsLineBreak(s[0]) then DropLineBreaks(s[1..])
    else [s[0]] + DropLineBreaks(s[1..])
  }

  lemma {:induction false} DropLineBreaksAppend(a: string, b: string)
    ensures DropLineBreaks(a + b) == DropLineBreaks(a) + DropLineBreaks(b)
    decreases |a|
  {
    if |a| > 0 {
      assert (a + b)[1..] == a[1..] + b;
      DropLineBreaksAppend(a[1..], b);
    } else {
      assert a + b == b;
    }
  }

  lemma {:induction false} DropLineBreaksNone(s: string)
    requires NoLineBreak(s)
    ensures DropLineBreaks(s) == s
    decreases |s|
  {
    if |s| > 0 {
      DropLineBreaksNone(s[1..]);
    }
  }

  lemma {:induction false} DropLineBreaksAll(s: string)
    requires forall k :: 0 <= k < |s| ==> IsLineBreak(s[k])
    ensures DropLineBreaks(s) == []
    decreases |s|
  {
    if |s| > 0 {
      DropLineBreaksAll(s[1..]);
    }
  }

  /** Dropping boundaries from a line, its boundary and the rest keeps the line. */
  lemma DropLineBreaksSegment(line: string, b: string, rest: string)
    requires NoLineBreak(line)
    requires forall k :: 0 <= k < |b| ==> IsLineBreak(b[k])
    ensures DropLineBreaks(line + b + rest) == line + DropLineBreaks(rest)
  {
    assert line + b + rest == line + (b + rest);
    calc {
      DropLineBreaks(line + (b + rest));
      { DropLineBreaksAppend(line, b + rest); }
      DropLineBreaks(line) + DropLineBreaks(b + rest);
      { DropLineBreaksNone(line); DropLineBreaksAppend(b, rest); }
      line + (DropLineBreaks(b) + DropLineBreaks(rest));
      { DropLineBreaksAll(b); }
      line + DropLineBreaks(rest);
    }
  }

  /** The first line of a text with a boundary: the text before the boundary, then
      the lines of what follows the boundary. */
  lemma FirstLine(s: string, k: nat, e: nat)
    requires |s| > 0 && k == FirstLineBreak(s) < |s| && e == BreakEnd(s, k)
    ensures SplitLines(s) == [s[..k]] + SplitLines(s[e..])
  {
  }

  /** The characters of one boundary are all line boundaries. */
  lemma BreakChars(s: string, k: nat)
    requires k < |s| && IsLineBreak(s[k])
    ensures forall j :: 0 <= j < |s[k..BreakEnd(s, k)]| ==> IsLineBreak(s[k..BreakEnd(s, k)][j])
  {
  }

  /** A text is its three pieces around two cut points. */
  lemma ThreeParts(s: string, k: nat, e: nat)
    requires k <= e <= |s|
    ensures s == s[..k] + s[k..e] + s[e..]
  {
    assert s[..e] == s[..k] + s[k..e];
  }

  lemma ConcatCons(x: string, ss: seq<string>)
    ensures Concat([x] + ss) == x + Concat(ss)
  {
    assert ([x] + ss)[1..] == ss;
  }

  /** `splitlines` loses exactly the boundary characters: the lines, concatenated,
      are the input with its boundaries removed. */
  lemma {:induction false} SplitLinesKeepsText(s: string)
    ensures Concat(SplitLines(s)) == DropLineBreaks(s)
    decreases |s|
  {
    if |s| > 0 {
      var k := FirstLineBreak(s);
      if k == |s| {
        assert s[..k] == s;
        DropLineBreaksNone(s);
      } else {
        var e := BreakEnd(s, k);
        FirstLine(s, k, e);
        BreakChars(s, k);
        ThreeParts(s, k, e);
        SplitLinesKeepsText(s[e..]);
        ConcatCons(s[..k], SplitLines(s[e..]));
        DropLineBreaksSegment(s[..k], s[k..e], s[e..]);
      }
    }
  }
}
