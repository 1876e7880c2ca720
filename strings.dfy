/** The JavaScript string operations the source relies on, written out over
    `seq<char>`: `trim`, `startsWith`/`endsWith`/`includes`, global literal
    replacement, replacement of maximal character runs, ASCII case mapping,
    `join`, `split` on one character, decimal rendering of numbers, and the
    default `Array.prototype.sort` order on strings, taken character by
    character over code points. */
module Strings {

  // ---------------------------------------------------------------------
  // Character classes
  // ---------------------------------------------------------------------

  /** The characters JavaScript's `trim()` removes and `\s` matches:
      white space plus line terminators. */
  predicate IsSpace(c: char) {
    || c == ' ' || c == '\t' || c == '\n' || c == '\r'
    || c == '\U{000B}' || c == '\U{000C}' || c == '\U{00A0}' || c == '\U{1680}'
    || ('\U{2000}' <= c <= '\U{200A}')
    || c == '\U{2028}' || c == '\U{2029}' || c == '\U{202F}' || c == '\U{205F}'
    || c == '\U{3000}' || c == '\U{FEFF}'
  }

  /** The characters a regular expression `.` does not match and a
      multiline `$` stops before. */
  predicate IsLineTerminator(c: char) {
    c == '\n' || c == '\r' || c == '\U{2028}' || c == '\U{2029}'
  }

  /** `\d` */
  predicate IsDigit(c: char) {
    '0' <= c <= '9'
  }

  /** `\w` */
  predicate IsWordChar(c: char) {
    ('a' <= c <= 'z') || ('A' <= c <= 'Z') || IsDigit(c) || c == '_'
  }

  /** `[a-z0-9]` */
  predicate IsLowerAlnum(c: char) {
    ('a' <= c <= 'z') || IsDigit(c)
  }

  /** Every character of `s` satisfies `p`. */
  predicate AllIn(s: string, p: char -> bool) {
    forall i :: 0 <= i < |s| ==> p(s[i])
  }

  predicate AllSpace(s: string) {
    forall i :: 0 <= i < |s| ==> IsSpace(s[i])
  }

  // ---------------------------------------------------------------------
  // trim
  // ---------------------------------------------------------------------

  /** `s` without its leading white space. */
  function TrimStart(s: string): string {
    if |s| > 0 && IsSpace(s[0]) then TrimStart(s[1..]) else s
  }

  /** What `TrimStart` removes is a white-space prefix, and what it keeps
      does not start with white space. */
  lemma {:induction false} TrimStartSpec(s: string)
    ensures |TrimStart(s)| <= |s| && TrimStart(s) == s[|s| - |TrimStart(s)|..]
    ensures TrimStart(s) == [] || !IsSpace(TrimStart(s)[0])
    ensures forall i :: 0 <= i < |s| - |TrimStart(s)| ==> IsSpace(s[i])
  {
    if |s| > 0 && IsSpace(s[0]) {
      var t := s[1..];
      TrimStartSpec(t);
      var r := TrimStart(t);
      assert t[|t| - |r|..] == s[|s| - |r|..];
      forall i | 0 <= i < |s| - |r| ensures IsSpace(s[i]) {
        if i > 0 {
          assert s[i] == t[i - 1];
        }
      }
    }
  }

  /** `s` without its trailing white space. */
  function TrimEnd(s: string): string {
    if |s| > 0 && IsSpace(s[|s| - 1]) then TrimEnd(s[..|s| - 1]) else s
  }

  /** What `TrimEnd` removes is a white-space suffix, and what it keeps does
      not end with white space. */
  lemma {:induction false} TrimEndSpec(s: string)
    ensures |TrimEnd(s)| <= |s| && TrimEnd(s) == s[..|TrimEnd(s)|]
    ensures TrimEnd(s) == [] || !IsSpace(TrimEnd(s)[|TrimEnd(s)| - 1])
    ensures forall i :: |TrimEnd(s)| <= i < |s| ==> IsSpace(s[i])
  {
    if |s| > 0 && IsSpace(s[|s| - 1]) {
      var t := s[..|s| - 1];
      TrimEndSpec(t);
      var r := TrimEnd(t);
      assert t[..|r|] == s[..|r|];
      forall i | |r| <= i < |s| ensures IsSpace(s[i]) {
        if i < |s| - 1 {
          assert s[i] == t[i];
        }
      }
    }
  }

  predicate IsTrimmed(s: string) {
    s == [] || (!IsSpace(s[0]) && !IsSpace(s[|s| - 1]))
  }

  /** JavaScript's `s.trim()`. */
  function Trim(s: string): (r: string)
    ensures IsTrimmed(r) && |r| <= |s|
  {
    var t := TrimStart(s);
    TrimStartSpec(s);
    TrimEndSpec(t);
    var r := TrimEnd(t);
    assert r != [] ==> r[0] == t[0];
    r
  }

  /** The trimmed text is a slice of `s` with only white space around it,
      and it neither starts nor ends with white space. */
  lemma TrimSpec(s: string)
    ensures exists a :: 0 <= a <= |s| - |Trim(s)| && Trim(s) == s[a..a + |Trim(s)|]
                         && AllSpace(s[..a]) && AllSpace(s[a + |Trim(s)|..])
  {
    var t := TrimStart(s);
    TrimStartSpec(s);
    TrimEndSpec(t);
    var a := |s| - |t|;
    var r := TrimEnd(t);
    assert r == s[a..a + |r|] by { assert r == t[..|r|]; }
    AllSpaceSlice(s, 0, a);
    assert forall i :: a + |r| <= i < |s| ==> IsSpace(s[i]) by {
      forall i | a + |r| <= i < |s| ensures IsSpace(s[i]) { assert s[i] == t[i - a]; }
    }
    AllSpaceSlice(s, a + |r|, |s|);
  }

  lemma AllSpaceSlice(s: string, lo: nat, hi: nat)
    requires lo <= hi <= |s| && forall i :: lo <= i < hi ==> IsSpace(s[i])
    ensures AllSpace(s[lo..hi])
  {
    forall i | 0 <= i < hi - lo ensures IsSpace(s[lo..hi][i]) {
      assert s[lo..hi][i] == s[lo + i];
    }
  }

  /** Trimming what is already trimmed changes nothing. */
  lemma TrimOfTrimmed(s: string)
    requires IsTrimmed(s)
    ensures Trim(s) == s
  {
  }

  /** `trim` is idempotent. */
  lemma TrimIdempotent(s: string)
    ensures Trim(Trim(s)) == Trim(s)
  {
    TrimOfTrimmed(Trim(s));
  }

  /** A string trims to the empty string exactly when it is all white space. */
  lemma {:induction false} TrimEmptyIffAllSpace(s: string)
    ensures Trim(s) == [] <==> AllSpace(s)
  {
    var t := TrimStart(s);
    TrimStartSpec(s);
    TrimEndSpec(t);
    var r := TrimEnd(t);
    if r == [] {
      assert t == [];
    }
    assert forall k :: 0 <= k < |t| ==> t[k] == s[|s| - |t| + k];
  }

  // ---------------------------------------------------------------------
  // startsWith / endsWith / includes
  // ---------------------------------------------------------------------

  predicate StartsWith(s: string, prefix: string) {
    |prefix| <= |s| && s[..|prefix|] == prefix
  }

  predicate EndsWith(s: string, suffix: string) {
    |suffix| <= |s| && s[|s| - |suffix|..] == suffix
  }

  /** `pattern` occurs at position `i` of `s`. */
  predicate OccursAt(s: string, pattern: string, i: int) {
    0 <= i && i + |pattern| <= |s| && s[i..i + |pattern|] == pattern
  }

  /** JavaScript's `s.includes(pattern)`. */
  predicate Contains(s: string, pattern: string) {
    exists i :: 0 <= i <= |s| && OccursAt(s, pattern, i)
  }

  /** Whether `pattern` occurs at some position `i >= from`, decided by a
      left-to-right scan. */
  function ContainsFrom(s: string, pattern: string, from: nat): (b: bool)
    ensures b <==> exists i :: from <= i <= |s| && OccursAt(s, pattern, i)
    decreases |s| - from
  {
    if from + |pattern| > |s| then false
    else if s[from..from + |pattern|] == pattern then assert OccursAt(s, pattern, from); true
    else ContainsFrom(s, pattern, from + 1)
  }

  /** `s.split(c)` has one more piece than `s` has separators. */
  lemma {:induction false} SplitCount(s: string, c: char)
    ensures |Split(s, c)| == CountChar(s, c) + 1
    decreases |s|
  {
    if s != [] {
      SplitCount(s[1..], c);
    }
  }

  /** The number of occurrences of character `c` in `s`
      (`(s.match(/c/g) || []).length`). */
  function CountChar(s: string, c: char): (n: nat)
    ensures n <= |s|
    ensures n == 0 <==> c !in s
  {
    if s == [] then 0 else (if s[0] == c then 1 else 0) + CountChar(s[1..], c)
  }

  lemma {:induction false} CountCharAppend(a: string, b: string, c: char)
    ensures CountChar(a + b, c) == CountChar(a, c) + CountChar(b, c)
    decreases |a|
  {
    if a == [] {
      assert a + b == b;
    } else {
      assert (a + b)[1..] == a[1..] + b;
      CountCharAppend(a[1..], b, c);
    }
  }

  // ---------------------------------------------------------------------
  // Global replacement
  // ---------------------------------------------------------------------

  /** `s.replace(/pattern/g, replacement)` for a literal pattern: scanning
      left to right, each occurrence not overlapping an earlier replaced one
      is replaced. */
  function ReplaceAll(s: string, pattern: string, replacement: string): string
    requires |pattern| > 0
    decreases |s|
  {
    if |s| < |pattern| then s
    else if s[..|pattern|] == pattern then replacement + ReplaceAll(s[|pattern|..], pattern, replacement)
    else [s[0]] + ReplaceAll(s[1..], pattern, replacement)
  }

  /** Text without the pattern is left alone by the replacement. */
  lemma {:induction false} ReplaceAllAbsent(s: string, pattern: string, replacement: string)
    requires |pattern| > 0 && !Contains(s, pattern)
    ensures ReplaceAll(s, pattern, replacement) == s
    decreases |s|
  {
    if |s| >= |pattern| {
      assert !OccursAt(s, pattern, 0);
      forall i | OccursAt(s[1..], pattern, i) ensures false {
        assert s[1..][i..i + |pattern|] == s[i + 1..i + 1 + |pattern|];
        assert OccursAt(s, pattern, i + 1);
      }
      ReplaceAllAbsent(s[1..], pattern, replacement);
    }
  }

  /** Replacing a pattern by something no longer never lengthens the text. */
  lemma {:induction false} ReplaceAllShrinks(s: string, pattern: string, replacement: string)
    requires |pattern| > 0 && |replacement| <= |pattern|
    ensures |ReplaceAll(s, pattern, replacement)| <= |s|
    decreases |s|
  {
    if |s| >= |pattern| {
      if s[..|pattern|] == pattern {
        ReplaceAllShrinks(s[|pattern|..], pattern, replacement);
      } else {
        ReplaceAllShrinks(s[1..], pattern, replacement);
      }
    }
  }

  // ---------------------------------------------------------------------
  // Replacement of maximal runs
  // ---------------------------------------------------------------------

  /** `s` without its leading run of characters satisfying `inRun`. */
  function DropRun(s: string, inRun: char -> bool): (r: string)
    ensures |r| <= |s| && r == s[|s| - |r|..]
    ensures r == [] || !inRun(r[0])
    ensures AllIn(s[..|s| - |r|], inRun)
  {
    if |s| > 0 && inRun(s[0]) then
      var r := DropRun(s[1..], inRun);
      assert s[..|s| - |r|] == [s[0]] + s[1..][..|s| - 1 - |r|];
      r
    else s
  }

  /** `s.replace(/[class]+/g, replacement)`: each maximal run of characters
      satisfying `inRun` becomes one copy of `replacement`. */
  function ReplaceRuns(s: string, inRun: char -> bool, replacement: string): string
    decreases |s|
  {
    if s == [] then []
    else if inRun(s[0]) then replacement + ReplaceRuns(DropRun(s, inRun), inRun, replacement)
    else [s[0]] + ReplaceRuns(s[1..], inRun, replacement)
  }

  /** Every character of the result is either a character of the input
      outside the class or a character of the replacement. */
  lemma {:induction false} ReplaceRunsChars(s: string, inRun: char -> bool, replacement: string)
    ensures forall c :: c in ReplaceRuns(s, inRun, replacement) ==>
              (c in s && !inRun(c)) || c in replacement
    decreases |s|
  {
    if s != [] {
      if inRun(s[0]) {
        var rest := DropRun(s, inRun);
        ReplaceRunsChars(rest, inRun, replacement);
        forall c | c in rest ensures c in s {
          var k :| 0 <= k < |rest| && rest[k] == c;
          assert s[|s| - |rest| + k] == c;
        }
      } else {
        ReplaceRunsChars(s[1..], inRun, replacement);
      }
    }
  }

  /** With a one-character replacement that itself belongs to the class,
      the result never holds that character twice in a row, and it starts
      with the replacement exactly when the input starts inside the class. */
  lemma {:induction false} ReplaceRunsNoRepeat(s: string, inRun: char -> bool, dash: char)
    requires inRun(dash)
    ensures var r := ReplaceRuns(s, inRun, [dash]);
            (r != [] && r[0] == dash <==> s != [] && inRun(s[0]))
            && forall i :: 0 <= i < |r| - 1 ==> !(r[i] == dash && r[i + 1] == dash)
    decreases |s|
  {
    if s != [] {
      var r := ReplaceRuns(s, inRun, [dash]);
      if inRun(s[0]) {
        var rest := DropRun(s, inRun);
        ReplaceRunsNoRepeat(rest, inRun, dash);
        var tail := ReplaceRuns(rest, inRun, [dash]);
        assert r == [dash] + tail;
        forall i | 0 <= i < |r| - 1 ensures !(r[i] == dash && r[i + 1] == dash) {
          if i > 0 { assert r[i] == tail[i - 1] && r[i + 1] == tail[i]; }
        }
      } else {
        ReplaceRunsNoRepeat(s[1..], inRun, dash);
        var tail := ReplaceRuns(s[1..], inRun, [dash]);
        assert r == [s[0]] + tail;
        assert s[0] != dash;
        forall i | 0 <= i < |r| - 1 ensures !(r[i] == dash && r[i + 1] == dash) {
          if i > 0 { assert r[i] == tail[i - 1] && r[i + 1] == tail[i]; }
        }
      }
    }
  }

  // ---------------------------------------------------------------------
  // Case mapping
  // ---------------------------------------------------------------------

  function LowerChar(c: char): char {
    if 'A' <= c <= 'Z' then (c as int + 32) as char else c
  }

  function UpperChar(c: char): char {
    if 'a' <= c <= 'z' then (c as int - 32) as char else c
  }

  /** `s.toLowerCase()` on ASCII letters. */
  function Lower(s: string): (r: string)
    ensures |r| == |s|
    ensures forall i :: 0 <= i < |s| ==> r[i] == LowerChar(s[i])
  {
    if s == [] then [] else [LowerChar(s[0])] + Lower(s[1..])
  }

  /** `s.toUpperCase()` on ASCII letters. */
  function Upper(s: string): (r: string)
    ensures |r| == |s|
    ensures forall i :: 0 <= i < |s| ==> r[i] == UpperChar(s[i])
  {
    if s == [] then [] else [UpperChar(s[0])] + Upper(s[1..])
  }

  // ---------------------------------------------------------------------
  // join / split
  // ---------------------------------------------------------------------

  /** `parts.join(sep)` */
  function Join(parts: seq<string>, sep: string): string
    decreases |parts|
  {
    if |parts| == 0 then ""
    else if |parts| == 1 then parts[0]
    else parts[0] + sep + Join(parts[1..], sep)
  }

  /** Joining two non-empty lists puts one separator between their joins. */
  lemma {:induction false} JoinAppend(a: seq<string>, b: seq<string>, sep: string)
    requires |a| > 0 && |b| > 0
    ensures Join(a + b, sep) == Join(a, sep) + sep + Join(b, sep)
    decreases |a|
  {
    if |a| == 1 {
      assert (a + b)[1..] == b;
    } else {
      assert (a + b)[1..] == a[1..] + b;
      JoinAppend(a[1..], b, sep);
    }
  }

  /** `c` does not occur in `s`. */
  predicate Free(s: string, c: char) {
    forall k :: 0 <= k < |s| ==> s[k] != c
  }

  /** `s.split(c)` for a one-character separator: the maximal pieces of
      `s` between occurrences of `c`. */
  function Split(s: string, c: char): (parts: seq<string>)
    ensures |parts| >= 1
    ensures forall k :: 0 <= k < |parts| ==> Free(parts[k], c)
    ensures Free(s, c) ==> parts == [s]
    ensures StartsWith(s, parts[0]) && (|parts[0]| < |s| ==> s[|parts[0]|] == c)
    decreases |s|
  {
    if s == [] then [""]
    else
      var rest := Split(s[1..], c);
      SplitStep(s, c, rest);
      if s[0] == c then [""] + rest
      else [[s[0]] + rest[0]] + rest[1..]
  }

  /** The pieces of `s` from the pieces of its tail: a leading separator
      opens an empty piece, any other character joins the first piece. */
  lemma SplitStep(s: string, c: char, rest: seq<string>)
    requires |s| > 0 && |rest| >= 1
    requires forall k :: 0 <= k < |rest| ==> Free(rest[k], c)
    requires Free(s[1..], c) ==> rest == [s[1..]]
    requires StartsWith(s[1..], rest[0]) && (|rest[0]| < |s| - 1 ==> s[1..][|rest[0]|] == c)
    ensures var parts := if s[0] == c then [""] + rest else [[s[0]] + rest[0]] + rest[1..];
            && (forall k :: 0 <= k < |parts| ==> Free(parts[k], c))
            && (Free(s, c) ==> parts == [s])
            && StartsWith(s, parts[0]) && (|parts[0]| < |s| ==> s[|parts[0]|] == c)
  {
    var t := s[1..];
    assert s == [s[0]] + t;
    if s[0] == c {
      var parts := [""] + rest;
      forall k | 0 <= k < |parts| ensures Free(parts[k], c) {
        if k > 0 { assert parts[k] == rest[k - 1]; }
      }
    } else {
      var parts := [[s[0]] + rest[0]] + rest[1..];
      forall k | 0 <= k < |parts| ensures Free(parts[k], c) {
        if k > 0 {
          assert parts[k] == rest[k];
        } else {
          forall i | 0 <= i < |parts[0]| ensures parts[0][i] != c {
            if i > 0 { assert parts[0][i] == rest[0][i - 1]; }
          }
        }
      }
      if Free(s, c) {
        assert Free(t, c) by {
          forall i | 0 <= i < |t| ensures t[i] != c { assert t[i] == s[i + 1]; }
        }
      }
      assert s[..|parts[0]|] == [s[0]] + t[..|rest[0]|];
      if |parts[0]| < |s| {
        assert s[|parts[0]|] == t[|rest[0]|];
      }
    }
  }

  /** Joining the pieces with the separator gives back the string. */
  lemma {:induction false} JoinSplit(s: string, c: char)
    ensures Join(Split(s, c), [c]) == s
    decreases |s|
  {
    if s != [] {
      var rest := Split(s[1..], c);
      JoinSplit(s[1..], c);
      if s[0] == c {
        assert ([""] + rest)[1..] == rest;
      } else {
        var parts := [[s[0]] + rest[0]] + rest[1..];
        if |rest| > 1 {
          assert parts[1..] == rest[1..];
        }
      }
    }
  }

  /** The pieces after the first are the pieces of what follows the first
      separator; without a separator the first piece is the whole string. */
  lemma {:induction false} SplitTail(s: string, c: char)
    ensures var parts := Split(s, c);
            (|parts[0]| == |s| ==> parts == [s])
            && (|parts[0]| < |s| ==> parts == [parts[0]] + Split(s[|parts[0]| + 1..], c))
    decreases |s|
  {
    if s != [] && s[0] != c {
      var rest := Split(s[1..], c);
      SplitTail(s[1..], c);
      var parts := Split(s, c);
      assert parts[0] == [s[0]] + rest[0];
      if |rest[0]| == |s| - 1 {
        assert s == [s[0]] + s[1..];
      } else {
        assert s[|parts[0]| + 1..] == s[1..][|rest[0]| + 1..];
      }
    }
  }

  /** A string that splits into one piece holds no separator. */
  lemma SplitOne(s: string, c: char)
    requires |Split(s, c)| == 1
    ensures Free(s, c)
  {
    SplitTail(s, c);
  }

  /** With two pieces or more, the first two pieces and the separator
      between them start the string, followed by the end of the string or
      another separator. */
  lemma SplitTwo(s: string, c: char)
    requires |Split(s, c)| >= 2
    ensures var parts := Split(s, c);
            var two := parts[0] + [c] + parts[1];
            StartsWith(s, two) && (|two| < |s| ==> s[|two|] == c)
  {
    var parts := Split(s, c);
    var rest := Join(parts[1..], [c]);
    assert s == parts[0] + [c] + rest by { JoinSplit(s, c); }
    JoinStart(parts[1..], c);
    PrefixGlue(s, parts[0], c, rest, parts[1]);
  }

  /** A join starts with its first piece, followed by the end or the
      separator. */
  lemma JoinStart(ps: seq<string>, c: char)
    requires |ps| >= 1
    ensures StartsWith(Join(ps, [c]), ps[0])
    ensures |ps[0]| < |Join(ps, [c])| ==> Join(ps, [c])[|ps[0]|] == c
  {
    if |ps| > 1 {
      var j := Join(ps, [c]);
      assert j == ps[0] + [c] + Join(ps[1..], [c]);
      assert j[..|ps[0]|] == ps[0];
    }
  }

  lemma PrefixGlue(s: string, p0: string, c: char, rest: string, p1: string)
    requires s == p0 + [c] + rest && StartsWith(rest, p1) && (|p1| < |rest| ==> rest[|p1|] == c)
    ensures StartsWith(s, p0 + [c] + p1) && (|p0 + [c] + p1| < |s| ==> s[|p0 + [c] + p1|] == c)
  {
    var two := p0 + [c] + p1;
    assert s[..|two|] == p0 + [c] + rest[..|p1|];
    if |two| < |s| {
      assert s[|two|] == rest[|p1|];
    }
  }

  /** The first piece of `a + [c] + b` is `a` when `a` holds no `c`. */
  lemma {:induction false} SplitFirst(a: string, b: string, c: char)
    requires Free(a, c)
    ensures Split(a + [c] + b, c) == [a] + Split(b, c)
    decreases |a|
  {
    var s := a + [c] + b;
    if a == [] {
      assert s[0] == c && s[1..] == b;
    } else {
      assert s[0] == a[0] && a[0] != c;
      assert s[1..] == a[1..] + [c] + b;
      assert Free(a[1..], c) by {
        forall k | 0 <= k < |a| - 1 ensures a[1..][k] != c {
          assert a[1..][k] == a[k + 1];
        }
      }
      SplitFirst(a[1..], b, c);
      assert [s[0]] + a[1..] == a;
    }
  }

  /** Splitting a join of pieces that hold no separator gives the pieces
      back. */
  lemma {:induction false} SplitJoin(parts: seq<string>, c: char)
    requires |parts| > 0 && forall k :: 0 <= k < |parts| ==> Free(parts[k], c)
    ensures Split(Join(parts, [c]), c) == parts
    decreases |parts|
  {
    if |parts| > 1 {
      SplitFirst(parts[0], Join(parts[1..], [c]), c);
      SplitJoin(parts[1..], c);
      assert [parts[0]] + parts[1..] == parts;
    }
  }

  /** Splitting at a separator splits the two sides apart. */
  lemma SplitConcat(a: string, b: string, c: char)
    ensures Split(a + [c] + b, c) == Split(a, c) + Split(b, c)
  {
    var pa, pb := Split(a, c), Split(b, c);
    JoinSplit(a, c);
    JoinSplit(b, c);
    JoinAppend(pa, pb, [c]);
    assert forall k :: 0 <= k < |pa + pb| ==> Free((pa + pb)[k], c) by {
      forall k | 0 <= k < |pa + pb| ensures Free((pa + pb)[k], c) {
        if k >= |pa| { assert (pa + pb)[k] == pb[k - |pa|]; }
      }
    }
    SplitJoin(pa + pb, c);
  }

  /** The last piece of `s.split(c)`. */
  function LastPart(s: string, c: char): string {
    var parts := Split(s, c);
    parts[|parts| - 1]
  }

  /** The last piece holds no separator, ends the string, and is either the
      whole string or preceded by a separator. */
  lemma LastPartSpec(s: string, c: char)
    ensures var last := LastPart(s, c);
            Free(last, c) && EndsWith(s, last)
            && (|last| < |s| ==> s[|s| - |last| - 1] == c)
  {
    JoinSplit(s, c);
    JoinEnd(Split(s, c), c);
  }

  /** A join ends with its last piece, preceded by the separator when
      there is more than one piece. */
  lemma {:induction false} JoinEnd(ps: seq<string>, c: char)
    requires |ps| >= 1
    ensures EndsWith(Join(ps, [c]), ps[|ps| - 1])
    ensures var j, last := Join(ps, [c]), ps[|ps| - 1];
            |last| < |j| ==> j[|j| - |last| - 1] == c
    decreases |ps|
  {
    if |ps| > 1 {
      var j, last := Join(ps, [c]), ps[|ps| - 1];
      var tail := Join(ps[1..], [c]);
      JoinEnd(ps[1..], c);
      assert ps[1..][|ps| - 2] == last;
      assert j == ps[0] + [c] + tail;
      assert j[|j| - |last|..] == tail[|tail| - |last|..];
      if |last| < |tail| {
        assert j[|j| - |last| - 1] == tail[|tail| - |last| - 1];
      }
    }
  }

  /** The last piece of `a + [c] + b` is `b` when `b` holds no `c`. */
  lemma LastPartAfter(a: string, b: string, c: char)
    requires Free(b, c)
    ensures LastPart(a + [c] + b, c) == b
  {
    var s := a + [c] + b;
    var last := LastPart(s, c);
    LastPartSpec(s, c);
    assert s[|s| - |b| - 1] == c;
    assert |last| <= |b| by {
      forall j | |s| - |last| <= j < |s| ensures s[j] != c {
        assert s[j] == last[j - (|s| - |last|)];
      }
    }
    assert |b| <= |last| by {
      forall j | |s| - |b| <= j < |s| ensures s[j] != c {
        assert s[j] == b[j - (|s| - |b|)];
      }
    }
    assert last == s[|s| - |last|..] == b;
  }

  /** A string without the separator is its own last piece. */
  lemma LastPartOfFree(s: string, c: char)
    requires Free(s, c)
    ensures LastPart(s, c) == s
  {
  }

  // ---------------------------------------------------------------------
  // Numbers as text
  // ---------------------------------------------------------------------

  function DigitChar(d: nat): char
    requires d < 10
  {
    ['0', '1', '2', '3', '4', '5', '6', '7', '8', '9'][d]
  }

  /** The decimal rendering `${n}` of a non-negative integer. */
  function NatToString(n: nat): (s: string)
    ensures |s| >= 1
    ensures forall i :: 0 <= i < |s| ==> IsDigit(s[i])
  {
    if n < 10 then [DigitChar(n)] else NatToString(n / 10) + [DigitChar(n % 10)]
  }

  /** The decimal rendering `${n}` of any integer. */
  function IntToString(n: int): (s: string)
    ensures |s| >= 1
  {
    if n < 0 then "-" + NatToString(-n) else NatToString(n)
  }

  // ---------------------------------------------------------------------
  // The default sort order of Array.prototype.sort on strings
  // ---------------------------------------------------------------------

  /** `a` sorts strictly before `b`: compared character by character, and a
      proper prefix first.  Characters are code points, where JavaScript
      compares UTF-16 code units. */
  predicate Less(a: string, b: string)
    decreases |a|
  {
    if a == [] then b != []
    else if b == [] then false
    else if a[0] != b[0] then a[0] < b[0]
    else Less(a[1..], b[1..])
  }

  predicate LessEq(a: string, b: string) {
    a == b || Less(a, b)
  }

  lemma {:induction false} LessIrreflexive(a: string)
    ensures !Less(a, a)
    decreases |a|
  {
    if a != [] { LessIrreflexive(a[1..]); }
  }

  lemma {:induction false} LessTotal(a: string, b: string)
    ensures a == b || Less(a, b) || Less(b, a)
    decreases |a|
  {
    if a != [] && b != [] && a[0] == b[0] {
      LessTotal(a[1..], b[1..]);
      if a[1..] == b[1..] { assert a == [a[0]] + a[1..] && b == [b[0]] + b[1..]; }
    }
  }

  lemma {:induction false} LessTransitive(a: string, b: string, c: string)
    requires Less(a, b) && Less(b, c)
    ensures Less(a, c)
    decreases |a|
  {
    if a != [] && a[0] == b[0] && b[0] == c[0] {
      LessTransitive(a[1..], b[1..], c[1..]);
    }
  }

  lemma LessAsymmetric(a: string, b: string)
    requires Less(a, b)
    ensures !Less(b, a)
  {
    if Less(b, a) {
      LessTransitive(a, b, a);
      LessIrreflexive(a);
    }
  }

  predicate Sorted(s: seq<string>) {
    forall i, j :: 0 <= i < j < |s| ==> LessEq(s[i], s[j])
  }

  /** Inserts `x` into the sorted list `s` before the first element not below it. */
  function Insert(x: string, s: seq<string>): (r: seq<string>)
    requires Sorted(s)
    ensures Sorted(r)
    ensures multiset(r) == multiset(s) + multiset{x}
    decreases |s|
  {
    if s == [] then [x]
    else if LessEq(x, s[0]) then
      ConsSorted(x, s);
      [x] + s
    else
      var rest := Insert(x, s[1..]);
      assert Less(s[0], x) by { LessTotal(x, s[0]); }
      InsertedAbove(s, x, rest);
      ConsSorted(s[0], rest);
      assert multiset(s) == multiset{s[0]} + multiset(s[1..]) by { assert s == [s[0]] + s[1..]; }
      [s[0]] + rest
  }

  /** A sorted list stays sorted under a head not above its own first element. */
  lemma ConsSorted(x: string, s: seq<string>)
    requires Sorted(s) && (s == [] || LessEq(x, s[0]))
    ensures Sorted([x] + s)
  {
    var r := [x] + s;
    forall i, j | 0 <= i < j < |r| ensures LessEq(r[i], r[j]) {
      if i == 0 {
        assert r[j] == s[j - 1];
        if x != s[0] && s[0] != s[j - 1] { LessTransitive(x, s[0], s[j - 1]); }
      } else {
        assert r[i] == s[i - 1] && r[j] == s[j - 1];
      }
    }
  }

  /** When `x` and the tail of the sorted list `s` are all at or above its
      head, so is every element of a rearrangement of them. */
  lemma InsertedAbove(s: seq<string>, x: string, rest: seq<string>)
    requires Sorted(s) && |s| > 0 && Less(s[0], x)
    requires multiset(rest) == multiset(s[1..]) + multiset{x}
    ensures rest == [] || LessEq(s[0], rest[0])
  {
    if rest != [] {
      assert rest[0] in multiset(rest);
      if rest[0] != x {
        assert rest[0] in s[1..];
      }
    }
  }

  /** The list in ascending order (`[...xs].sort()`). */
  function Sort(xs: seq<string>): (r: seq<string>)
    ensures Sorted(r)
    ensures multiset(r) == multiset(xs)
    decreases |xs|
  {
    if xs == [] then []
    else
      assert xs == [xs[0]] + xs[1..];
      Insert(xs[0], Sort(xs[1..]))
  }

  /** Sorting keeps the length. */
  lemma SortLength(xs: seq<string>)
    ensures |Sort(xs)| == |xs|
  {
    assert |Sort(xs)| == |multiset(Sort(xs))| == |multiset(xs)|;
  }

  /** A list without repeated elements. */
  predicate NoDuplicates<T(==)>(s: seq<T>) {
    forall i, j :: 0 <= i < j < |s| ==> s[i] != s[j]
  }

  /** Dropping the head of a list without duplicates leaves one without
      duplicates that does not hold the head. */
  lemma NoDuplicatesTail<T>(s: seq<T>)
    requires NoDuplicates(s) && |s| > 0
    ensures NoDuplicates(s[1..]) && s[0] !in s[1..]
    ensures forall x :: x in s <==> x == s[0] || x in s[1..]
  {
    forall i, j | 0 <= i < j < |s| - 1 ensures s[1..][i] != s[1..][j] {
      assert s[1..][i] == s[i + 1] && s[1..][j] == s[j + 1];
    }
    forall k | 0 <= k < |s| - 1 ensures s[1..][k] != s[0] {
      assert s[1..][k] == s[k + 1];
    }
    assert s == [s[0]] + s[1..];
  }

  lemma {:induction false} NoDuplicatesCount<T>(s: seq<T>)
    requires NoDuplicates(s)
    ensures forall x :: multiset(s)[x] <= 1
    decreases |s|
  {
    if s != [] {
      assert s == [s[0]] + s[1..];
      NoDuplicatesCount(s[1..]);
      assert s[0] !in s[1..] by {
        forall k | 0 <= k < |s| - 1 ensures s[1..][k] != s[0] {
          assert s[1..][k] == s[k + 1];
        }
      }
    }
  }

  /** Two equal elements at distinct positions count twice. */
  lemma RepeatCountsTwice<T>(b: seq<T>, i: nat, j: nat)
    requires i < j < |b|
    ensures b[i] == b[j] ==> multiset(b)[b[i]] >= 2
  {
    assert b == b[..j] + [b[j]] + b[j + 1..];
    assert b[i] == b[..j][i];
  }

  /** Rearranging a list without repeated elements leaves none. */
  lemma NoDuplicatesPermutation<T>(a: seq<T>, b: seq<T>)
    requires NoDuplicates(a) && multiset(a) == multiset(b)
    ensures NoDuplicates(b)
  {
    NoDuplicatesCount(a);
    forall i, j | 0 <= i < j < |b| ensures b[i] != b[j] {
      RepeatCountsTwice(b, i, j);
    }
  }

  /** `set.add(x)` on a JavaScript `Set`, represented as its elements in
      insertion order. */
  function SetAdd<T(==,!new)>(s: seq<T>, x: T): (r: seq<T>)
    requires NoDuplicates(s)
    ensures NoDuplicates(r)
    ensures forall y :: y in r <==> y in s || y == x
    ensures x in s ==> r == s
    ensures x !in s ==> r == s + [x]
  {
    if x in s then s else s + [x]
  }
}
