/** Left-to-right scanners for the global regular expressions the seeding
    scripts run with `exec` in a `while` loop:

      from\s+["']([^"']+)["']                        (FromImport)
      require\(["']([^"']+)["']\)                    (RequireCall)
      from\s+["']@\/components\/ui\/([^"']+)["']      (UiImport)

    Each pattern, tried at one position, has at most one match: `\s+` must
    be followed by a quote and `[^"']+` by a quote, so backtracking never
    yields a shorter alternative.  `exec` finds the leftmost match at or
    after `lastIndex` and moves `lastIndex` to its end; `Matches` is the list
    of captures that loop produces.  The captures are then reduced and
    gathered into a JavaScript `Set`, represented by its elements in
    insertion order. */
module ImportScan {
  import opened Wrappers
  import opened Strings

  datatype Pattern = FromImport | RequireCall | UiImport

  predicate IsQuote(c: char) {
    c == '"' || c == '\''
  }

  predicate NotQuote(c: char) {
    !IsQuote(c)
  }

  /** The end of the maximal run of characters satisfying `p` that starts at `i`. */
  function SkipWhile(s: string, i: nat, p: char -> bool): (j: nat)
    requires i <= |s|
    ensures i <= j <= |s|
    ensures forall k :: i <= k < j ==> p(s[k])
    ensures j == |s| || !p(s[j])
    decreases |s| - i
  {
    if i < |s| && p(s[i]) then SkipWhile(s, i + 1, p) else i
  }

  /** The regular expression tail `["']([^"']+)["']` at position `i`: the
      capture and the position after the closing quote. */
  function QuotedAt(s: string, i: nat): (m: Option<(string, nat)>)
    ensures m.Some? ==> i + 2 < m.value.1 <= |s| && |m.value.0| > 0
                        && forall k :: 0 <= k < |m.value.0| ==> NotQuote(m.value.0[k])
  {
    if i < |s| && IsQuote(s[i]) then
      var j := SkipWhile(s, i + 1, NotQuote);
      if j > i + 1 && j < |s| then Some((s[i + 1..j], j + 1)) else None
    else None
  }

  const UiPrefix: string := "@/components/ui/"

  /** `from\s+["']([^"']+)["']` at position `i`. */
  function FromAt(s: string, i: nat): (m: Option<(string, nat)>)
    ensures m.Some? ==> OccursAt(s, "from", i) && i + 4 < m.value.1 <= |s|
  {
    if OccursAt(s, "from", i) then
      var j := SkipWhile(s, i + 4, IsSpace);
      if j > i + 4 then QuotedAt(s, j) else None
    else None
  }

  /** The match of `p` starting exactly at position `i`: its capture and
      its end. */
  function MatchAt(p: Pattern, s: string, i: nat): (m: Option<(string, nat)>)
    ensures m.Some? ==> i < m.value.1 <= |s| && |m.value.0| > 0
                        && forall k :: 0 <= k < |m.value.0| ==> NotQuote(m.value.0[k])
  {
    match p
    case FromImport => FromAt(s, i)
    case RequireCall =>
      if OccursAt(s, "require(", i) then
        match QuotedAt(s, i + 8)
        case Some((cap, e)) => if e < |s| && s[e] == ')' then Some((cap, e + 1)) else None
        case None => None
      else None
    case UiImport =>
      // The literal prefix holds no quote, so the maximal quote-free run
      // after the opening quote is the prefix followed by the capture.
      match FromAt(s, i)
      case Some((cap, e)) =>
        if StartsWith(cap, UiPrefix) && |cap| > |UiPrefix| then Some((cap[|UiPrefix|..], e)) else None
      case None => None
  }

  /** The captures of successive `exec` calls starting with `lastIndex == pos`. */
  function Matches(p: Pattern, s: string, pos: nat): seq<string>
    decreases |s| - pos
  {
    if pos >= |s| then []
    else match MatchAt(p, s, pos)
      case Some((cap, e)) => [cap] + Matches(p, s, e)
      case None => Matches(p, s, pos + 1)
  }

  /** Every capture of the scan is the capture of a match at some position
      at or after where the scan started. */
  lemma {:induction false} MatchesSound(p: Pattern, s: string, pos: nat, cap: string)
    requires cap in Matches(p, s, pos)
    ensures exists i, e :: pos <= i < e <= |s| && MatchAt(p, s, i) == Some((cap, e))
    decreases |s| - pos
  {
    match MatchAt(p, s, pos)
    case Some((c, e)) =>
      if cap != c { MatchesSound(p, s, e, cap); }
    case None =>
      MatchesSound(p, s, pos + 1, cap);
  }

  /** A string that does not contain the text every match starts with has
      no captures. */
  lemma {:induction false} MatchesNeedKeyword(p: Pattern, s: string, pos: nat)
    requires !Contains(s, if p == RequireCall then "require(" else "from")
    ensures Matches(p, s, pos) == []
    decreases |s| - pos
  {
    if pos < |s| {
      var kw := if p == RequireCall then "require(" else "from";
      assert !OccursAt(s, kw, pos);
      assert MatchAt(p, s, pos).None?;
      MatchesNeedKeyword(p, s, pos + 1);
    }
  }

  lemma MatchesHit(p: Pattern, s: string, i: nat)
    requires i < |s| && MatchAt(p, s, i).Some?
    ensures Matches(p, s, i) == [MatchAt(p, s, i).value.0] + Matches(p, s, MatchAt(p, s, i).value.1)
  {
  }

  lemma MatchesMiss(p: Pattern, s: string, i: nat)
    requires i < |s| && MatchAt(p, s, i).None?
    ensures Matches(p, s, i) == Matches(p, s, i + 1)
  {
  }

  /** One `exec` call: the leftmost match at or after `from`. */
  function Exec(p: Pattern, s: string, from: nat): (m: Option<(string, nat)>)
    ensures m.None? ==> Matches(p, s, from) == []
    ensures m.Some? ==> from < m.value.1 <= |s|
                        && Matches(p, s, from) == [m.value.0] + Matches(p, s, m.value.1)
    decreases |s| - from
  {
    if from >= |s| then None
    else if MatchAt(p, s, from).Some? then
      MatchesHit(p, s, from);
      MatchAt(p, s, from)
    else
      MatchesMiss(p, s, from);
      Exec(p, s, from + 1)
  }

  /** Adds the reduction of each capture, when there is one, to the set
      `acc`, in order. */
  function AddEach(acc: seq<string>, caps: seq<string>, reduce: string -> Option<string>): (r: seq<string>)
    ensures |acc| <= |r| && r[..|acc|] == acc
    decreases |caps|
  {
    if caps == [] then acc
    else
      var next := match reduce(caps[0]) case Some(x) => (if x in acc then acc else acc + [x]) case None => acc;
      AddEach(next, caps[1..], reduce)
  }

  /** The set holds no duplicates, keeps what it held, and gains exactly the
      reductions of the captures. */
  lemma {:induction false} AddEachSpec(acc: seq<string>, caps: seq<string>, reduce: string -> Option<string>)
    requires NoDuplicates(acc)
    ensures var r := AddEach(acc, caps, reduce);
            NoDuplicates(r)
            && forall x :: x in r <==> x in acc || exists c :: c in caps && reduce(c) == Some(x)
    decreases |caps|
  {
    if caps != [] {
      var next := match reduce(caps[0]) case Some(x) => SetAdd(acc, x) case None => acc;
      assert next == match reduce(caps[0]) case Some(x) => (if x in acc then acc else acc + [x]) case None => acc;
      AddEachSpec(next, caps[1..], reduce);
      var r := AddEach(acc, caps, reduce);
      assert r == AddEach(next, caps[1..], reduce);
      forall x ensures x in r <==> x in acc || exists c :: c in caps && reduce(c) == Some(x) {
        if x in r && x !in acc && x !in next {
          var c :| c in caps[1..] && reduce(c) == Some(x);
          assert c in caps;
        }
        if exists c :: c in caps && reduce(c) == Some(x) {
          var c :| c in caps && reduce(c) == Some(x);
          if c != caps[0] {
            assert c in caps[1..];
          }
        }
      }
    }
  }

  /** `AddEach` over a concatenation is two successive passes. */
  lemma {:induction false} AddEachAppend(acc: seq<string>, a: seq<string>, b: seq<string>, reduce: string -> Option<string>)
    ensures AddEach(acc, a + b, reduce) == AddEach(AddEach(acc, a, reduce), b, reduce)
    decreases |a|
  {
    if a == [] {
      assert a + b == b;
    } else {
      assert (a + b)[0] == a[0] && (a + b)[1..] == a[1..] + b;
      var next := match reduce(a[0]) case Some(x) => (if x in acc then acc else acc + [x]) case None => acc;
      AddEachAppend(next, a[1..], b, reduce);
    }
  }

  /** `Array.from(set).sort()` of the set gathered from `items`: ascending,
      without repeats, and holding exactly the reductions of the items. */
  lemma SortedCollection(items: seq<string>, reduce: string -> Option<string>)
    ensures var r := Sort(AddEach([], items, reduce));
            Sorted(r) && NoDuplicates(r)
            && forall x :: x in r <==> exists c :: c in items && reduce(c) == Some(x)
  {
    var gathered := AddEach([], items, reduce);
    AddEachSpec([], items, reduce);
    var r := Sort(gathered);
    NoDuplicatesPermutation(gathered, r);
    SameMembers(gathered, r);
  }

  lemma SameMembers<T>(a: seq<T>, b: seq<T>)
    requires multiset(a) == multiset(b)
    ensures forall x :: x in a <==> x in b
  {
    forall x ensures x in a <==> x in b {
      assert x in a <==> x in multiset(a);
      assert x in b <==> x in multiset(b);
    }
  }

  /** The `while ((match = regex.exec(code)) !== null)` loop: adds the
      reduction of every capture to the set `acc`. */
  method Collect(p: Pattern, code: string, reduce: string -> Option<string>, acc: seq<string>) returns (r: seq<string>)
    ensures r == AddEach(acc, Matches(p, code, 0), reduce)
  {
    r := acc;
    var pos := 0;
    while true
      invariant pos <= |code|
      invariant AddEach(r, Matches(p, code, pos), reduce) == AddEach(acc, Matches(p, code, 0), reduce)
      decreases |code| - pos
    {
      var m := Exec(p, code, pos);
      if m.None? {
        return;
      }
      var (cap, e) := m.value;
      match reduce(cap) {
        case Some(x) =>
          if x !in r {
            r := r + [x];
          }
        case None =>
      }
      pos := e;
    }
  }

  /** `items.forEach(x => { const y = reduce(x); if (y) set.add(y) })`:
      the same additions as `AddEach`, one item at a time. */
  method AddEachLoop(acc: seq<string>, items: seq<string>, reduce: string -> Option<string>) returns (r: seq<string>)
    ensures r == AddEach(acc, items, reduce)
  {
    r := acc;
    for i := 0 to |items|
      invariant AddEach(r, items[i..], reduce) == AddEach(acc, items, reduce)
    {
      assert items[i..][0] == items[i] && items[i..][1..] == items[i + 1..];
      match reduce(items[i]) {
        case Some(x) =>
          if x !in r {
            r := r + [x];
          }
        case None =>
      }
    }
    assert items[|items|..] == [];
  }

  /** The first `/`-separated segment (`s.split('/')[0]`). */
  function FirstSegment(s: string): (r: string)
    ensures Free(r, '/') && StartsWith(s, r)
  {
    Split(s, '/')[0]
  }
}
