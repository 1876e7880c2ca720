/** The analysis script scripts/analyze-and-update-dependencies.ts: it
    counts how many components import each registry component, ranks the
    twenty most imported, and derives each component's package record with
    versions from a fixed table. */
module AnalyzeDependencies {
  import opened Wrappers
  import opened Strings
  import opened ImportScan
  import opened OrderedMaps
  import DependencyScan
  import CsvFields
  import DeployToConvex

  // ---------------------------------------------------------------------
  // Versions
  // ---------------------------------------------------------------------

  /** `DEPENDENCY_VERSIONS` pins every listed package to "latest" except
      recharts, so only recharts differs from the `|| 'latest'` fallback. */
  const Recharts: string := "recharts"
  const RechartsVersion: string := "2.15.4"

  /** `DEPENDENCY_VERSIONS[dep] || 'latest'` */
  function VersionOf(dep: string): (v: string)
    ensures v == RechartsVersion <==> dep == Recharts
    ensures dep != Recharts ==> v == "latest"
  {
    if dep == Recharts then RechartsVersion else "latest"
  }

  // ---------------------------------------------------------------------
  // getDependenciesFromComponent
  // ---------------------------------------------------------------------

  /** Pairs each package with its version. */
  function Versioned(deps: seq<string>): (r: Entries<string, string>)
    ensures Keys(r) == deps
    ensures forall i :: 0 <= i < |r| ==> r[i].1 == VersionOf(r[i].0)
    decreases |deps|
  {
    if deps == [] then []
    else
      var r := Versioned(deps[..|deps| - 1]) + [(deps[|deps| - 1], VersionOf(deps[|deps| - 1]))];
      assert Keys(r) == Keys(Versioned(deps[..|deps| - 1])) + [deps[|deps| - 1]];
      r
  }

  /** The record `getDependenciesFromComponent` returns: each kept package,
      in order of first appearance, with its version. */
  function DependencyRecord(code: string, previewCode: string): Entries<string, string> {
    Versioned(DependencyScan.ComponentDependencies(code, previewCode))
  }

  /** The record has one entry per kept package, never a default package,
      with recharts pinned and everything else at "latest". */
  lemma DependencyRecordSpec(code: string, previewCode: string)
    ensures var r := DependencyRecord(code, previewCode);
            Valid(r)
            && (forall x :: x in Keys(r) <==>
                  (x in DependencyScan.Dependencies(code) || x in DependencyScan.Dependencies(previewCode))
                  && x !in DependencyScan.DefaultDependencies && Trim(x) != "")
            && forall i :: 0 <= i < |r| ==> r[i].1 == (if r[i].0 == Recharts then RechartsVersion else "latest")
  {
    DependencyScan.ComponentDependenciesSpec(code, previewCode);
  }

  /** `getDependenciesFromComponent(code, previewCode)` */
  method GetDependenciesFromComponent(code: string, previewCode: string) returns (deps: Entries<string, string>)
    ensures deps == DependencyRecord(code, previewCode)
  {
    var all := DependencyScan.CollectComponentDependencies(code, previewCode);
    deps := [];
    for i := 0 to |all|
      invariant deps == Versioned(all[..i])
    {
      assert all[..i + 1][..i] == all[..i];
      deps := deps + [(all[i], VersionOf(all[i]))];
    }
    assert all[..|all|] == all;
  }

  // ---------------------------------------------------------------------
  // extractShadcnComponentImports
  // ---------------------------------------------------------------------

  function Captured(cap: string): Option<string> {
    Some(cap)
  }

  /** `extractShadcnComponentImports(code)`: the full text after
      `@/components/ui/` of every registry import, in order of first
      appearance. */
  function ShadcnImports(code: string): seq<string> {
    AddEach([], Matches(UiImport, code, 0), Captured)
  }

  /** The set holds each imported path once, with nothing stripped. */
  lemma ShadcnImportsSpec(code: string)
    ensures NoDuplicates(ShadcnImports(code))
    ensures forall x :: x in ShadcnImports(code) <==> x in Matches(UiImport, code, 0)
  {
    AddEachSpec([], Matches(UiImport, code, 0), Captured);
  }

  /** The `exec` loop of `extractShadcnComponentImports`. */
  method ExtractShadcnComponentImports(code: string) returns (components: seq<string>)
    ensures components == ShadcnImports(code)
  {
    components := Collect(UiImport, code, Captured, []);
  }

  // ---------------------------------------------------------------------
  // Import frequency
  // ---------------------------------------------------------------------

  /** The registry components a record imports from code or preview, each
      once; `None` when reading the record throws (`cleanCode` of a missing
      column calls `trim` on `undefined`). */
  function RowImports(row: CsvFields.Row): Option<seq<string>> {
    if "code" in row && "previewCode" in row then
      var code := DependencyScan.CleanCode(row["code"]);
      var preview := DependencyScan.CleanCode(row["previewCode"]);
      Some(AddEach([], ShadcnImports(code) + ShadcnImports(preview), Captured))
    else None
  }

  /** The imports of a record never repeat. */
  lemma RowImportsUnique(row: CsvFields.Row)
    ensures RowImports(row).Some? ==> NoDuplicates(RowImports(row).value)
  {
    if RowImports(row).Some? {
      var code := DependencyScan.CleanCode(row["code"]);
      var preview := DependencyScan.CleanCode(row["previewCode"]);
      AddEachSpec([], ShadcnImports(code) + ShadcnImports(preview), Captured);
    }
  }

  /** `counts.set(c, (counts.get(c) || 0) + 1)` */
  function Bump(counts: Entries<string, nat>, c: string): Entries<string, nat> {
    Set(counts, c, Get(counts, c).GetOr(0) + 1)
  }

  /** Bumps every component of a record's import set. */
  function BumpAll(counts: Entries<string, nat>, comps: seq<string>): Entries<string, nat>
    decreases |comps|
  {
    if comps == [] then counts else BumpAll(Bump(counts, comps[0]), comps[1..])
  }

  /** The counts after the first `n` records. */
  function Counts(rows: seq<CsvFields.Row>): Entries<string, nat>
    decreases |rows|
  {
    if rows == [] then []
    else
      var before := Counts(rows[..|rows| - 1]);
      match RowImports(rows[|rows| - 1])
      case Some(comps) => BumpAll(before, comps)
      case None => before
  }

  /** The number of records whose imports include `c`. */
  function Importers(rows: seq<CsvFields.Row>, c: string): nat
    decreases |rows|
  {
    if rows == [] then 0
    else
      var last := RowImports(rows[|rows| - 1]);
      Importers(rows[..|rows| - 1], c) + (if last.Some? && c in last.value then 1 else 0)
  }

  /** The count of a component as a number, 0 when absent. */
  function CountOf(counts: Entries<string, nat>, c: string): nat {
    Get(counts, c).GetOr(0)
  }

  /** Every recorded count is positive. */
  predicate Positive(counts: Entries<string, nat>) {
    forall i :: 0 <= i < |counts| ==> counts[i].1 > 0
  }

  lemma {:induction false} BumpSpec(counts: Entries<string, nat>, c: string, x: string)
    requires Valid(counts) && Positive(counts)
    ensures Valid(Bump(counts, c)) && Positive(Bump(counts, c))
    ensures CountOf(Bump(counts, c), x) == CountOf(counts, x) + (if x == c then 1 else 0)
  {
    BumpCount(counts, c, x);
    BumpPositive(counts, c);
  }

  lemma BumpCount(counts: Entries<string, nat>, c: string, x: string)
    requires Valid(counts)
    ensures Valid(Bump(counts, c))
    ensures CountOf(Bump(counts, c), x) == CountOf(counts, x) + (if x == c then 1 else 0)
  {
    var v: nat := CountOf(counts, c) + 1;
    SetGet(counts, c, v, x);
  }

  lemma BumpPositive(counts: Entries<string, nat>, c: string)
    requires Valid(counts) && Positive(counts)
    ensures Positive(Bump(counts, c))
  {
    var r := Bump(counts, c);
    forall i | 0 <= i < |r| ensures r[i].1 > 0 {
      SetEntry(counts, c, CountOf(counts, c) + 1, i);
    }
  }

  /** Bumping a set of components adds one to each of them and nothing to
      any other. */
  lemma {:induction false} BumpAllSpec(counts: Entries<string, nat>, comps: seq<string>, x: string)
    requires Valid(counts) && Positive(counts) && NoDuplicates(comps)
    ensures Valid(BumpAll(counts, comps)) && Positive(BumpAll(counts, comps))
    ensures CountOf(BumpAll(counts, comps), x) == CountOf(counts, x) + (if x in comps then 1 else 0)
    decreases |comps|
  {
    if comps != [] {
      var next := Bump(counts, comps[0]);
      BumpSpec(counts, comps[0], x);
      NoDuplicatesTail(comps);
      BumpAllSpec(next, comps[1..], x);
    }
  }

  /** With positive counts, the counted components are those whose count
      is positive. */
  lemma PositiveKeys(counts: Entries<string, nat>, c: string)
    requires Valid(counts) && Positive(counts)
    ensures c in Keys(counts) <==> CountOf(counts, c) > 0
  {
    if c in Keys(counts) {
      var i :| 0 <= i < |counts| && Keys(counts)[i] == c;
      GetUnique(counts, c);
      assert counts[i].1 > 0;
    }
  }

  /** Each component's count is the number of records that import it, and
      the counted components are exactly those imported somewhere; a record
      importing a component several times counts once. */
  lemma {:induction false} CountsSpec(rows: seq<CsvFields.Row>, c: string)
    ensures Valid(Counts(rows)) && Positive(Counts(rows))
    ensures CountOf(Counts(rows), c) == Importers(rows, c)
    ensures c in Keys(Counts(rows)) <==> Importers(rows, c) > 0
    decreases |rows|
  {
    if rows != [] {
      var init := rows[..|rows| - 1];
      CountsSpec(init, c);
      var before := Counts(init);
      var last := RowImports(rows[|rows| - 1]);
      assert Counts(rows) == if last.Some? then BumpAll(before, last.value) else before;
      assert Importers(rows, c) == Importers(init, c) + (if last.Some? && c in last.value then 1 else 0);
      if last.Some? {
        RowImportsUnique(rows[|rows| - 1]);
        BumpAllSpec(before, last.value, c);
      }
    }
    PositiveKeys(Counts(rows), c);
  }

  /** The counting loop of the analysis: for each record, every component
      in the union of its code and preview imports gains one. */
  method CountImports(rows: seq<CsvFields.Row>) returns (counts: Entries<string, nat>)
    ensures counts == Counts(rows)
  {
    counts := [];
    for n := 0 to |rows|
      invariant counts == Counts(rows[..n])
    {
      assert rows[..n + 1][..n] == rows[..n];
      var row := rows[n];
      if "code" in row && "previewCode" in row {
        var cleanedCode := DependencyScan.CleanCode(row["code"]);
        var cleanedPreviewCode := DependencyScan.CleanCode(row["previewCode"]);
        var codeImports := ExtractShadcnComponentImports(cleanedCode);
        var previewImports := ExtractShadcnComponentImports(cleanedPreviewCode);
        var allImports := AddEachLoop([], codeImports + previewImports, Captured);
        for j := 0 to |allImports|
          invariant BumpAll(counts, allImports[j..]) == BumpAll(Counts(rows[..n]), allImports)
        {
          assert allImports[j..][1..] == allImports[j + 1..];
          counts := Bump(counts, allImports[j]);
        }
        assert allImports[|allImports|..] == [];
      }
    }
    assert rows[..|rows|] == rows;
  }

  // ---------------------------------------------------------------------
  // Top twenty
  // ---------------------------------------------------------------------

  predicate NonIncreasing(s: Entries<string, nat>) {
    forall i, j :: 0 <= i < j < |s| ==> s[i].1 >= s[j].1
  }

  /** Inserts `x` after every entry whose count is at least its own, so
      entries with equal counts keep their order. */
  function InsertByCount(x: (string, nat), s: Entries<string, nat>): (r: Entries<string, nat>)
    requires NonIncreasing(s)
    ensures NonIncreasing(r)
    ensures multiset(r) == multiset(s) + multiset{x}
    decreases |s|
  {
    if s == [] then [x]
    else if s[0].1 < x.1 then
      ConsNonIncreasing(x, s);
      [x] + s
    else
      var rest := InsertByCount(x, s[1..]);
      InsertedBelow(s, x, rest);
      ConsNonIncreasing(s[0], rest);
      assert multiset(s) == multiset{s[0]} + multiset(s[1..]) by { assert s == [s[0]] + s[1..]; }
      [s[0]] + rest
  }

  /** A head whose count is at least the first count keeps the order. */
  lemma ConsNonIncreasing(x: (string, nat), s: Entries<string, nat>)
    requires NonIncreasing(s) && (s == [] || s[0].1 <= x.1)
    ensures NonIncreasing([x] + s)
  {
    var r := [x] + s;
    forall i, j | 0 <= i < j < |r| ensures r[i].1 >= r[j].1 {
      assert r[j] == s[j - 1];
      if i > 0 { assert r[i] == s[i - 1]; }
    }
  }

  /** When `x` and the tail of `s` all count at most its head, so does
      every element of a rearrangement of them. */
  lemma InsertedBelow(s: Entries<string, nat>, x: (string, nat), rest: Entries<string, nat>)
    requires NonIncreasing(s) && |s| > 0 && x.1 <= s[0].1
    requires multiset(rest) == multiset(s[1..]) + multiset{x}
    ensures rest == [] || rest[0].1 <= s[0].1
  {
    if rest != [] {
      assert rest[0] in multiset(rest);
      if rest[0] != x {
        assert rest[0] in s[1..];
      }
    }
  }

  /** `entries.sort((a, b) => b[1] - a[1])`: the stable sort by count,
      largest first (entries are inserted in their original order, each
      after those with an equal count). */
  function SortByCount(s: Entries<string, nat>): (r: Entries<string, nat>)
    ensures NonIncreasing(r)
    ensures multiset(r) == multiset(s)
    decreases |s|
  {
    if s == [] then []
    else
      assert s == s[..|s| - 1] + [s[|s| - 1]];
      InsertByCount(s[|s| - 1], SortByCount(s[..|s| - 1]))
  }

  /** The entries of `s` with count `c`, in their order in `s`. */
  function WithCount(s: Entries<string, nat>, c: nat): Entries<string, nat>
    decreases |s|
  {
    if s == [] then [] else (if s[0].1 == c then [s[0]] else []) + WithCount(s[1..], c)
  }

  lemma {:induction false} WithCountAppend(a: Entries<string, nat>, b: Entries<string, nat>, c: nat)
    ensures WithCount(a + b, c) == WithCount(a, c) + WithCount(b, c)
    decreases |a|
  {
    if a == [] {
      assert a + b == b;
    } else {
      assert (a + b)[1..] == a[1..] + b;
      WithCountAppend(a[1..], b, c);
    }
  }

  /** A list sorted by count whose largest count is below `c` has no entry
      with count `c`. */
  lemma {:induction false} WithCountBelow(s: Entries<string, nat>, c: nat)
    requires NonIncreasing(s) && (s == [] || s[0].1 < c)
    ensures WithCount(s, c) == []
    decreases |s|
  {
    if s != [] {
      assert NonIncreasing(s[1..]);
      if |s| > 1 {
        assert s[1..][0] == s[1];
      }
      WithCountBelow(s[1..], c);
    }
  }

  /** Insertion puts `x` after every entry with the same count. */
  lemma {:induction false} InsertByCountStable(x: (string, nat), s: Entries<string, nat>, c: nat)
    requires NonIncreasing(s)
    ensures WithCount(InsertByCount(x, s), c) == WithCount(s, c) + (if x.1 == c then [x] else [])
    decreases |s|
  {
    if s == [] {
    } else if s[0].1 < x.1 {
      assert InsertByCount(x, s) == [x] + s;
      assert ([x] + s)[1..] == s;
      if x.1 == c {
        WithCountBelow(s, c);
      }
    } else {
      var rest := InsertByCount(x, s[1..]);
      assert InsertByCount(x, s) == [s[0]] + rest;
      assert ([s[0]] + rest)[1..] == rest;
      InsertByCountStable(x, s[1..], c);
    }
  }

  /** The sort is stable: for every count `c`, the entries with that count
      come in the same order as in the input. */
  lemma {:induction false} SortByCountStable(s: Entries<string, nat>, c: nat)
    ensures WithCount(SortByCount(s), c) == WithCount(s, c)
    decreases |s|
  {
    if s != [] {
      var init := s[..|s| - 1];
      var x := s[|s| - 1];
      SortByCountStable(init, c);
      assert SortByCount(s) == InsertByCount(x, SortByCount(init));
      InsertByCountStable(x, SortByCount(init), c);
      WithCountLast(s, c);
    }
  }

  /** The entries with count `c` of a non-empty list: those of all but its
      last entry, then the last entry when it has that count. */
  lemma WithCountLast(s: Entries<string, nat>, c: nat)
    requires s != []
    ensures WithCount(s, c) == WithCount(s[..|s| - 1], c) + (if s[|s| - 1].1 == c then [s[|s| - 1]] else [])
  {
    var x := s[|s| - 1];
    assert s == s[..|s| - 1] + [x];
    WithCountAppend(s[..|s| - 1], [x], c);
    assert WithCount([x], c) == (if x.1 == c then [x] else []) by { assert [x][1..] == []; }
  }

  const TopCount: nat := 20

  /** `.slice(0, 20)` of the sorted counts. */
  function TopImports(counts: Entries<string, nat>): (r: Entries<string, nat>)
    ensures |r| == if |counts| < TopCount then |counts| else TopCount
    ensures NonIncreasing(r)
    ensures multiset(r) <= multiset(counts)
  {
    var sorted := SortByCount(counts);
    assert |sorted| == |multiset(sorted)| == |multiset(counts)| == |counts|;
    var n := if |sorted| < TopCount then |sorted| else TopCount;
    assert sorted == sorted[..n] + sorted[n..];
    sorted[..n]
  }

  /** `e` was imported at most as often as every entry of `top`. */
  predicate AtMostAll(e: (string, nat), top: Entries<string, nat>) {
    forall k :: 0 <= k < |top| ==> e.1 <= top[k].1
  }

  /** In a list sorted by count, nothing past a prefix has a larger count
      than anything in it. */
  lemma {:induction false} PrefixIsTop(s: Entries<string, nat>, n: nat)
    requires NonIncreasing(s) && n <= |s|
    ensures forall e :: multiset(s)[e] > multiset(s[..n])[e] ==> AtMostAll(e, s[..n])
  {
    assert s == s[..n] + s[n..];
    forall e | multiset(s)[e] > multiset(s[..n])[e] ensures AtMostAll(e, s[..n]) {
      assert multiset(s) == multiset(s[..n]) + multiset(s[n..]);
      assert e in multiset(s[n..]);
      var j :| 0 <= j < |s[n..]| && s[n..][j] == e;
      assert s[n + j] == e;
    }
  }

  /** No entry left out of the top list was imported more often than any
      entry in it. */
  lemma TopImportsAreTop(counts: Entries<string, nat>)
    ensures forall e :: multiset(counts)[e] > multiset(TopImports(counts))[e] ==> AtMostAll(e, TopImports(counts))
  {
    var sorted := SortByCount(counts);
    var top := TopImports(counts);
    assert top == sorted[..|top|];
    PrefixIsTop(sorted, |top|);
  }

  // ---------------------------------------------------------------------
  // Updates sent
  // ---------------------------------------------------------------------

  /** The records whose dependency map is empty are not sent: the entries of
      `componentDependencies` that are. */
  function ToSend<K(==,!new), V(==,!new)>(deps: Entries<K, seq<V>>): (r: Entries<K, seq<V>>)
    ensures forall i :: 0 <= i < |r| ==> |r[i].1| > 0
    ensures forall e :: e in r <==> e in deps && |e.1| > 0
  {
    if deps == [] then []
    else
      var rest := ToSend(deps[1..]);
      assert forall e :: e in deps <==> e == deps[0] || e in deps[1..] by { assert deps == [deps[0]] + deps[1..]; }
      if |deps[0].1| > 0 then [deps[0]] + rest else rest
  }

  /** The filter works entry by entry, so order and repeats are kept: the
      entries sent for a concatenation are those of each part in turn. */
  lemma {:induction false} ToSendAppend<K(!new), V(!new)>(a: Entries<K, seq<V>>, b: Entries<K, seq<V>>)
    ensures ToSend(a + b) == ToSend(a) + ToSend(b)
    decreases |a|
  {
    if a == [] {
      assert a + b == b;
    } else {
      var head := if |a[0].1| > 0 then [a[0]] else [];
      assert (a + b)[0] == a[0];
      assert (a + b)[1..] == a[1..] + b;
      ToSendAppend(a[1..], b);
      assert head + (ToSend(a[1..]) + ToSend(b)) == (head + ToSend(a[1..])) + ToSend(b);
    }
  }

  /** The key of a record in `componentDependencies`: its component id,
      `None` standing for `undefined`. */
  function IdOf(row: CsvFields.Row): Option<string> {
    CsvFields.Field(row, "componentId")
  }

  /** The dependency record of a record that can be read. */
  function RecordOf(row: CsvFields.Row): Entries<string, string>
    requires "code" in row && "previewCode" in row
  {
    DependencyRecord(DependencyScan.CleanCode(row["code"]), DependencyScan.CleanCode(row["previewCode"]))
  }

  /** `componentDependencies` after the given records. */
  function DependencyMap(rows: seq<CsvFields.Row>): Entries<Option<string>, Entries<string, string>>
    decreases |rows|
  {
    if rows == [] then []
    else
      var m := DependencyMap(rows[..|rows| - 1]);
      var row := rows[|rows| - 1];
      if "code" in row && "previewCode" in row then Set(m, IdOf(row), RecordOf(row)) else m
  }

  /** The record of the last readable record with the given id. */
  function LastRecord(rows: seq<CsvFields.Row>, id: Option<string>): Option<Entries<string, string>>
    decreases |rows|
  {
    if rows == [] then None
    else
      var row := rows[|rows| - 1];
      if "code" in row && "previewCode" in row && IdOf(row) == id then Some(RecordOf(row))
      else LastRecord(rows[..|rows| - 1], id)
  }

  /** Each id appears once in the map and holds the record of the last
      readable record with that id: a later record replaces an earlier one. */
  lemma {:induction false} DependencyMapSpec(rows: seq<CsvFields.Row>, id: Option<string>)
    ensures Valid(DependencyMap(rows))
    ensures Get(DependencyMap(rows), id) == LastRecord(rows, id)
    decreases |rows|
  {
    if rows != [] {
      var init := rows[..|rows| - 1];
      var row := rows[|rows| - 1];
      DependencyMapSpec(init, id);
      if "code" in row && "previewCode" in row {
        SetGet(DependencyMap(init), IdOf(row), RecordOf(row), id);
      }
    }
  }

  /** The loop that fills `componentDependencies`; a record whose code or
      preview is missing throws and is skipped. */
  method ComponentDependencyMap(rows: seq<CsvFields.Row>) returns (deps: Entries<Option<string>, Entries<string, string>>)
    ensures deps == DependencyMap(rows)
  {
    deps := [];
    for n := 0 to |rows|
      invariant deps == DependencyMap(rows[..n])
    {
      assert rows[..n + 1][..n] == rows[..n];
      var row := rows[n];
      if "code" in row && "previewCode" in row {
        var cleanedCode := DependencyScan.CleanCode(row["code"]);
        var cleanedPreviewCode := DependencyScan.CleanCode(row["previewCode"]);
        var dependencies := GetDependenciesFromComponent(cleanedCode, cleanedPreviewCode);
        deps := Set(deps, IdOf(row), dependencies);
      }
    }
    assert rows[..|rows|] == rows;
  }
}
