/** The production seeding script scripts/deploy-to-convex.ts: each CSV
    record becomes a catalogue component whose code is cleaned and repaired,
    whose npm and registry dependencies are read off its import statements,
    and whose tags, extra files and visibility are decoded from their
    columns. */
module DeployToConvex {
  import opened Wrappers
  import opened Strings
  import opened ImportScan
  import ScriptCodeUtils
  import OrderedMaps
  import CsvFields

  // ---------------------------------------------------------------------
  // npm dependencies
  // ---------------------------------------------------------------------

  /** Packages every preview already has (`DEFAULT_DEPENDENCIES`). */
  const DefaultDependencies: seq<string> := ["react", "react-dom", "react/jsx-runtime"]

  /** Specifiers that name no package: relative paths and the `@/` and
      `~/` aliases, or exactly one of the default packages. */
  predicate Skipped(spec: string) {
    StartsWith(spec, ".") || StartsWith(spec, "@/") || StartsWith(spec, "~/") || spec in DefaultDependencies
  }

  /** The package an import specifier contributes: `@scope/name` for a
      scoped specifier (nothing for a lone `@scope`), the first segment
      otherwise. */
  function PackageName(spec: string): (r: Option<string>)
    ensures r.Some? ==> !Skipped(spec)
    ensures r.Some? ==> StartsWith(spec, r.value) && (|r.value| < |spec| ==> spec[|r.value|] == '/')
    ensures r.Some? && !StartsWith(r.value, "@") ==> Free(r.value, '/')
    ensures r.None? <==> Skipped(spec) || (StartsWith(spec, "@") && Free(spec, '/'))
  {
    if Skipped(spec) then None
    else
      var parts := Split(spec, '/');
      var base := parts[0];
      if StartsWith(base, "@") then
        if |parts| >= 2 then
          SplitTwo(spec, '/');
          Some(base + "/" + parts[1])
        else
          SplitOne(spec, '/');
          None
      else
        assert !StartsWith(spec, "@") by { assert base == [] || base[0] == spec[0]; }
        Some(base)
  }

  /** `extractDependencies(code)`: the packages of all `from "..."`
      specifiers, in order of first appearance. */
  function Dependencies(code: string): seq<string> {
    AddEach([], Matches(FromImport, code, 0), PackageName)
  }

  /** The set holds each package once, exactly those contributed by some
      `from` specifier. */
  lemma DependenciesSpec(code: string)
    ensures NoDuplicates(Dependencies(code))
    ensures forall x :: x in Dependencies(code) <==>
              exists spec :: spec in Matches(FromImport, code, 0) && PackageName(spec) == Some(x)
  {
    AddEachSpec([], Matches(FromImport, code, 0), PackageName);
  }

  /** An unscoped import of a module inside a package contributes the
      package, so "react-dom/client" contributes "react-dom". */
  lemma SubpathImport(pkg: string, rest: string)
    requires pkg != "" && Free(pkg, '/') && pkg[0] != '.' && pkg[0] != '@' && pkg[0] != '~'
    requires pkg + "/" + rest !in DefaultDependencies
    ensures PackageName(pkg + "/" + rest) == Some(pkg)
  {
    SplitFirst(pkg, rest, '/');
    var s := pkg + "/" + rest;
    assert s[0] == pkg[0];
  }

  /** A scoped import keeps its scope and package name. */
  lemma ScopedImport(scope: string, name: string)
    requires |scope| >= 2 && scope[0] == '@' && Free(scope, '/') && Free(name, '/')
    ensures PackageName(scope + "/" + name) == Some(scope + "/" + name)
  {
    var s := scope + "/" + name;
    SplitFirst(scope, name, '/');
    assert Split(name, '/') == [name];
    assert s[0] == '@' && s[1] == scope[1] && scope[1] != '/';
    assert !Skipped(s) by {
      assert s !in DefaultDependencies by { assert s[0] == '@'; }
    }
  }

  /** A module path after a scoped package is dropped. */
  lemma ScopedSubpathImport(scope: string, name: string, rest: string)
    requires |scope| >= 2 && scope[0] == '@' && Free(scope, '/') && Free(name, '/')
    ensures PackageName(scope + "/" + name + "/" + rest) == Some(scope + "/" + name)
  {
    var u := name + "/" + rest;
    var t := scope + "/" + u;
    assert t == scope + "/" + name + "/" + rest;
    var parts := Split(t, '/');
    assert parts[0] == scope && parts[1] == name && |parts| >= 2 by {
      SplitFirst(scope, u, '/');
      SplitFirst(name, rest, '/');
      assert parts == [scope] + ([name] + Split(rest, '/'));
    }
    assert !Skipped(t) by {
      assert t[0] == '@' && t[1] == scope[1] && scope[1] != '/';
      assert t !in DefaultDependencies by { assert t[0] == '@'; }
    }
    assert StartsWith(parts[0], "@");
  }

  /** A lone scope contributes nothing. */
  lemma LoneScopeImport(scope: string)
    requires |scope| >= 1 && scope[0] == '@' && Free(scope, '/')
    ensures PackageName(scope) == None
  {
    assert StartsWith(scope, "@");
  }

  /** The `while ((match = importRegex.exec(code)) !== null)` loop of
      `extractDependencies`. */
  method ExtractDependencies(code: string) returns (deps: seq<string>)
    ensures deps == Dependencies(code)
  {
    deps := Collect(FromImport, code, PackageName, []);
  }

  // ---------------------------------------------------------------------
  // Registry dependencies
  // ---------------------------------------------------------------------

  /** `componentPath.split('/').pop()?.replace(/\.tsx?$/, '') || componentPath` */
  function RegistryId(path: string): (r: string)
    ensures |path| > 0 ==> |r| > 0
    ensures var last := LastPart(path, '/');
            r == path
            || last == r + ".tsx"
            || (last == r + ".ts" && !EndsWith(last, ".tsx"))
            || (last == r && !EndsWith(last, ".ts") && !EndsWith(last, ".tsx"))
  {
    var last := LastPart(path, '/');
    var id := if EndsWith(last, ".tsx") then last[..|last| - 4]
              else if EndsWith(last, ".ts") then last[..|last| - 3]
              else last;
    if id == "" then path else id
  }

  /** A `.tsx` file anywhere under the registry is known by its base
      name. */
  lemma RegistryIdOfTsxFile(dir: string, name: string)
    requires name != "" && Free(name, '/')
    ensures RegistryId(dir + "/" + name + ".tsx") == name
    ensures RegistryId(name + ".tsx") == name
  {
    var file := name + ".tsx";
    assert Free(file, '/') by { assert forall k :: |name| <= k < |file| ==> file[k] == ".tsx"[k - |name|]; }
    assert dir + "/" + name + ".tsx" == dir + ['/'] + file;
    LastPartAfter(dir, file, '/');
    LastPartOfFree(file, '/');
    assert EndsWith(file, ".tsx") && file[..|file| - 4] == name;
  }

  /** A `.ts` file anywhere under the registry is known by its base name. */
  lemma RegistryIdOfTsFile(dir: string, name: string)
    requires name != "" && Free(name, '/')
    ensures RegistryId(dir + "/" + name + ".ts") == name
    ensures RegistryId(name + ".ts") == name
  {
    var file := name + ".ts";
    assert Free(file, '/') by { assert forall k :: |name| <= k < |file| ==> file[k] == ".ts"[k - |name|]; }
    assert dir + "/" + name + ".ts" == dir + ['/'] + file;
    LastPartAfter(dir, file, '/');
    LastPartOfFree(file, '/');
    assert !EndsWith(file, ".tsx") by { assert file[|file| - 1] == 's'; }
    assert EndsWith(file, ".ts") && file[..|file| - 3] == name;
  }

  /** A bare name without a TypeScript extension is its own id. */
  lemma RegistryIdOfName(name: string)
    requires name != "" && Free(name, '/') && !EndsWith(name, ".ts") && !EndsWith(name, ".tsx")
    ensures RegistryId(name) == name
  {
    LastPartOfFree(name, '/');
  }

  /** A file named only `.tsx` would give an empty id, so the whole path is
      kept. */
  lemma RegistryIdFallback(dir: string)
    ensures RegistryId(dir + "/.tsx") == dir + "/.tsx"
  {
    assert dir + "/.tsx" == dir + ['/'] + ".tsx";
    assert Free(".tsx", '/');
    LastPartAfter(dir, ".tsx", '/');
    assert EndsWith(".tsx", ".tsx");
  }

  /** The component a registry import contributes. */
  function RegistryReduce(cap: string): Option<string> {
    Some(RegistryId(cap))
  }

  /** `extractRegistryDependencies(code)`: the ids of all
      `from "@/components/ui/..."` imports, in order of first appearance. */
  function RegistryDependencies(code: string): seq<string> {
    AddEach([], Matches(UiImport, code, 0), RegistryReduce)
  }

  /** Each id appears once and comes from a registry import. */
  lemma RegistryDependenciesSpec(code: string)
    ensures NoDuplicates(RegistryDependencies(code))
    ensures forall x :: x in RegistryDependencies(code) <==>
              exists p :: p in Matches(UiImport, code, 0) && RegistryId(p) == x
  {
    AddEachSpec([], Matches(UiImport, code, 0), RegistryReduce);
  }

  /** The `exec` loop of `extractRegistryDependencies`. */
  method ExtractRegistryDependencies(code: string) returns (deps: seq<string>)
    ensures deps == RegistryDependencies(code)
  {
    deps := Collect(UiImport, code, RegistryReduce, []);
  }

  // ---------------------------------------------------------------------
  // Combining code and preview
  // ---------------------------------------------------------------------

  /** `dep && dep.trim() !== ''` */
  function NonBlank(dep: string): Option<string> {
    if dep != "" && Trim(dep) != "" then Some(dep) else None
  }

  /** A dependency record: package name to version, in key order. */
  type Record = seq<(string, string)>

  /** The sorted, deduplicated list of every non-blank package that code or
      preview imports. */
  function AllDependencies(code: string, previewCode: string): seq<string> {
    Sort(AddEach([], Dependencies(code) + Dependencies(previewCode), NonBlank))
  }

  /** `getDependenciesFromCode(code, previewCode)`: `undefined` when no
      package is found, otherwise each package with version "latest". */
  function DependencyRecord(code: string, previewCode: string): Option<Record> {
    var all := AllDependencies(code, previewCode);
    if |all| == 0 then None else Some(Latest(all))
  }

  /** Each package with version "latest". */
  function Latest(all: seq<string>): (r: Record)
    ensures |r| == |all| && forall i :: 0 <= i < |all| ==> r[i] == (all[i], "latest")
  {
    seq(|all|, i requires 0 <= i < |all| => (all[i], "latest"))
  }

  /** The combined list ascends strictly and holds exactly the non-blank
      packages of code and preview. */
  lemma AllDependenciesSpec(code: string, previewCode: string)
    ensures var all := AllDependencies(code, previewCode);
            Sorted(all) && NoDuplicates(all)
            && forall x :: x in all <==> (x in Dependencies(code) || x in Dependencies(previewCode)) && Trim(x) != ""
  {
    var both := Dependencies(code) + Dependencies(previewCode);
    SortedCollection(both, NonBlank);
    forall x ensures (exists c :: c in both && NonBlank(c) == Some(x)) <==> x in both && Trim(x) != "" {
      if x in both && Trim(x) != "" {
        assert NonBlank(x) == Some(x);
      }
    }
  }

  /** The record's keys ascend strictly, its values are all "latest", and a
      package is a key exactly when code or preview contributes it and it is
      not blank; there is no record when no such package exists. */
  lemma DependencyRecordSpec(code: string, previewCode: string)
    ensures var r := DependencyRecord(code, previewCode);
            (r.None? <==> forall x :: x in Dependencies(code) + Dependencies(previewCode) ==> Trim(x) == "")
            && (r.Some? ==>
                  Sorted(OrderedMaps.Keys(r.value)) && NoDuplicates(OrderedMaps.Keys(r.value))
                  && (forall i :: 0 <= i < |r.value| ==> r.value[i].1 == "latest")
                  && forall x :: x in OrderedMaps.Keys(r.value) <==>
                       (x in Dependencies(code) || x in Dependencies(previewCode)) && Trim(x) != "")
  {
    AllDependenciesSpec(code, previewCode);
    var all := AllDependencies(code, previewCode);
    if |all| > 0 {
      assert OrderedMaps.Keys(DependencyRecord(code, previewCode).value) == all;
      assert all[0] in Dependencies(code) + Dependencies(previewCode);
    } else {
      forall x | x in Dependencies(code) + Dependencies(previewCode) ensures Trim(x) == "" {
        assert x !in all;
      }
    }
  }

  /** `getRegistryDependenciesFromCode(...)`'s filter: not blank, not the
      component itself, and a known component. */
  function KeepRegistry(currentId: Option<string>, validIds: set<string>): string -> Option<string> {
    dep => if dep != "" && Some(dep) != currentId && dep in validIds then Some(dep) else None
  }

  /** The sorted list of known components, other than the component itself,
      that code or preview imports from the registry. */
  function RegistryList(code: string, previewCode: string, currentId: Option<string>, validIds: set<string>): seq<string> {
    Sort(AddEach([], RegistryDependencies(code) + RegistryDependencies(previewCode), KeepRegistry(currentId, validIds)))
  }

  /** The list ascends strictly and holds exactly the known, non-self
      components that code or preview imports. */
  lemma RegistryListSpec(code: string, previewCode: string, currentId: Option<string>, validIds: set<string>)
    ensures var r := RegistryList(code, previewCode, currentId, validIds);
            Sorted(r) && NoDuplicates(r)
            && forall x :: x in r <==>
                 (x in RegistryDependencies(code) || x in RegistryDependencies(previewCode))
                 && x != "" && Some(x) != currentId && x in validIds
  {
    var both := RegistryDependencies(code) + RegistryDependencies(previewCode);
    var keep := KeepRegistry(currentId, validIds);
    SortedCollection(both, keep);
    forall x ensures (exists c :: c in both && keep(c) == Some(x)) <==> x in both && x != "" && Some(x) != currentId && x in validIds {
      if x in both && x != "" && Some(x) != currentId && x in validIds {
        assert keep(x) == Some(x);
      }
    }
  }

  /** `getDependenciesFromCode(code, previewCode)` */
  method GetDependenciesFromCode(code: string, previewCode: string) returns (r: Option<Record>)
    ensures r == DependencyRecord(code, previewCode)
  {
    var codeDeps := ExtractDependencies(code);
    var previewDeps := ExtractDependencies(previewCode);
    var allDeps := AddEachLoop([], codeDeps + previewDeps, NonBlank);
    if |allDeps| == 0 {
      return None;
    }
    var sorted := Sort(allDeps);
    SortLength(allDeps);
    var deps := LatestLoop(sorted);
    return Some(deps);
  }

  /** The loop that gives every sorted package the version "latest". */
  method LatestLoop(sorted: seq<string>) returns (deps: Record)
    ensures deps == Latest(sorted)
  {
    deps := [];
    for i := 0 to |sorted|
      invariant |deps| == i && forall k :: 0 <= k < i ==> deps[k] == (sorted[k], "latest")
    {
      deps := deps + [(sorted[i], "latest")];
    }
  }

  /** `getRegistryDependenciesFromCode(code, previewCode, currentComponentId, validComponentIds)` */
  method GetRegistryDependenciesFromCode(code: string, previewCode: string, currentId: Option<string>, validIds: set<string>)
    returns (r: seq<string>)
    ensures r == RegistryList(code, previewCode, currentId, validIds)
  {
    var codeDeps := ExtractRegistryDependencies(code);
    var previewDeps := ExtractRegistryDependencies(previewCode);
    var all := AddEachLoop([], codeDeps + previewDeps, KeepRegistry(currentId, validIds));
    r := Sort(all);
  }

  // ---------------------------------------------------------------------
  // cleanCode: repairs of truncated `null`s
  // ---------------------------------------------------------------------

  /** The seven global replacements `cleanCode` applies after un-doubling
      quotes, in order:
        /:\s*n\s*$/gm            -> ": null"
        /:\s*n\s*\n/g            -> ": null\n"
        /:\s*n\s*\)/g, /:\s*n\s*}/g, /:\s*n\s*`/g
                                 -> ": null" and the closing character
        /return\s+color\s+\?\s*`[^`]*`\s*:\s*n\b/g
        /return\s+color\s+\?\s*`\s*--color-\$\{key\}:\s*\$\{color\};`\s*:\s*n\b/g
                                 -> the intact `return color ? ... : null` */
  datatype Repair =
    | NullAtLineEnd
    | NullBeforeNewline
    | NullBeforeClose(close: char)
    | ColorAnyTemplate
    | ColorVarTemplate

  const Repairs: seq<Repair> := [NullAtLineEnd, NullBeforeNewline, NullBeforeClose(')'), NullBeforeClose('}'),
                                 NullBeforeClose('`'), ColorAnyTemplate, ColorVarTemplate]

  /** `return color ? `  --color-${key}: ${color};` : null` (the `$` of the
      replacement text is not followed by a character `replace` treats
      specially, so it is kept). */
  const ColorLine: string := "return color ? `  --color-${key}: ${color};` : null"

  function RepairText(r: Repair): string {
    match r
    case NullAtLineEnd => ": null"
    case NullBeforeNewline => ": null\n"
    case NullBeforeClose(c) => ": null" + [c]
    case ColorAnyTemplate => ColorLine
    case ColorVarTemplate => ColorLine
  }

  /** The largest position in `[lo, hi)` whose character satisfies `p`. */
  function LastWhere(s: string, lo: nat, hi: nat, p: char -> bool): (r: Option<nat>)
    requires lo <= hi <= |s|
    ensures r.Some? ==> lo <= r.value < hi && p(s[r.value])
                        && forall m :: r.value < m < hi ==> !p(s[m])
    ensures r.None? ==> forall m :: lo <= m < hi ==> !p(s[m])
    decreases hi - lo
  {
    if hi == lo then None
    else if p(s[hi - 1]) then Some(hi - 1)
    else LastWhere(s, lo, hi - 1, p)
  }

  /** `:\s*n` at `i`: the position just after the `n`.  The greedy `\s*`
      can only stop before the `n`, since white space is not `n`. */
  function ColonN(s: string, i: nat): (r: Option<nat>)
    ensures r.Some? ==> i + 2 <= r.value <= |s| && s[i] == ':' && s[r.value - 1] == 'n'
                        && forall k :: i < k < r.value - 1 ==> IsSpace(s[k])
  {
    if i < |s| && s[i] == ':' then
      var j := SkipWhile(s, i + 1, IsSpace);
      if j < |s| && s[j] == 'n' then Some(j + 1) else None
    else None
  }

  predicate IsNewline(c: char) {
    c == '\n'
  }

  predicate NotBacktick(c: char) {
    c != '`'
  }

  /** `\b` just after a word character: the end of the text or a non-word
      character follows. */
  predicate WordEnd(s: string, i: nat) {
    i >= |s| || !IsWordChar(s[i])
  }

  /** `\s*:\s*n\b` at `i`: the end of the match. */
  function SpacedColonN(s: string, i: nat): (r: Option<nat>)
    requires i <= |s|
    ensures r.Some? ==> i < r.value <= |s| && exists k :: i <= k < r.value && s[k] == ':'
  {
    var j := SkipWhile(s, i, IsSpace);
    match ColonN(s, j)
    case Some(e) => if WordEnd(s, e) then Some(e) else None
    case None => None
  }

  /** `return\s+color\s+\?\s*`` at `i`: the position after the backtick. */
  function ReturnColorAt(s: string, i: nat): (r: Option<nat>)
    ensures r.Some? ==> i < r.value <= |s| && OccursAt(s, "return", i)
  {
    if OccursAt(s, "return", i) then
      var a := SkipWhile(s, i + 6, IsSpace);
      if a > i + 6 && OccursAt(s, "color", a) then
        var b := SkipWhile(s, a + 5, IsSpace);
        if b > a + 5 && b < |s| && s[b] == '?' then
          var c := SkipWhile(s, b + 1, IsSpace);
          if c < |s| && s[c] == '`' then Some(c + 1) else None
        else None
      else None
    else None
  }

  /** The end of the match of repair `r` that starts at `i`, if any.  Each
      pattern has at most one match at a position; where a greedy `\s*` is
      followed by `$` or `\n` the match ends at the last line end inside
      the white space run, as backtracking finds it. */
  function RepairAt(r: Repair, s: string, i: nat): (m: Option<nat>)
    ensures m.Some? ==> i < m.value <= |s| && exists k :: i <= k < m.value && s[k] == ':'
  {
    match r
    case NullAtLineEnd => NullAtLineEndAt(s, i)
    case NullBeforeNewline => NullBeforeNewlineAt(s, i)
    case NullBeforeClose(close) => NullBeforeCloseAt(s, i, close)
    case ColorAnyTemplate => ColorAnyTemplateAt(s, i)
    case ColorVarTemplate => ColorVarTemplateAt(s, i)
  }

  /** `:\s*n\s*$` (multiline): a truncated `null` ending a line. */
  function NullAtLineEndAt(s: string, i: nat): (m: Option<nat>)
    ensures m.Some? ==> i < m.value <= |s| && exists k :: i <= k < m.value && s[k] == ':'
  {
    match ColonN(s, i)
    case Some(j) =>
      var k := SkipWhile(s, j, IsSpace);
      if k == |s| then Some(k) else LastWhere(s, j, k, IsLineTerminator)
    case None => None
  }

  /** `:\s*n\s*\n`: a truncated `null` before a newline. */
  function NullBeforeNewlineAt(s: string, i: nat): (m: Option<nat>)
    ensures m.Some? ==> i < m.value <= |s| && exists k :: i <= k < m.value && s[k] == ':'
  {
    match ColonN(s, i)
    case Some(j) =>
      var k := SkipWhile(s, j, IsSpace);
      (match LastWhere(s, j, k, IsNewline) case Some(m) => Some(m + 1) case None => None)
    case None => None
  }

  /** `:\s*n\s*` followed by the closing character `close`. */
  function NullBeforeCloseAt(s: string, i: nat, close: char): (m: Option<nat>)
    ensures m.Some? ==> i < m.value <= |s| && exists k :: i <= k < m.value && s[k] == ':'
  {
    match ColonN(s, i)
    case Some(j) =>
      var k := SkipWhile(s, j, IsSpace);
      if k < |s| && s[k] == close then Some(k + 1) else None
    case None => None
  }

  /** `return\s+color\s+\?\s*`[^`]*`\s*:\s*n\b`: a colour template whose
      alternative was cut to `n`. */
  function ColorAnyTemplateAt(s: string, i: nat): (m: Option<nat>)
    ensures m.Some? ==> i < m.value <= |s| && exists k :: i <= k < m.value && s[k] == ':'
  {
    match ReturnColorAt(s, i)
    case Some(b) =>
      var e := SkipWhile(s, b, NotBacktick);
      if e < |s| then SpacedColonN(s, e + 1) else None
    case None => None
  }

  /** The same repair for the literal `--color-${key}: ${color};` template. */
  function ColorVarTemplateAt(s: string, i: nat): (m: Option<nat>)
    ensures m.Some? ==> i < m.value <= |s| && exists k :: i <= k < m.value && s[k] == ':'
  {
    match ReturnColorAt(s, i)
    case Some(b) =>
      var p := SkipWhile(s, b, IsSpace);
      if OccursAt(s, "--color-${key}:", p) then
        var q := SkipWhile(s, p + 15, IsSpace);
        if OccursAt(s, "${color};`", q) then SpacedColonN(s, q + 10) else None
      else None
    case None => None
  }

  /** `s.replace(pattern, text)` for a global pattern, scanning from `i`:
      the leftmost match is replaced and the scan resumes at its end. */
  function ReplaceMatches(r: Repair, s: string, i: nat): string
    requires i <= |s|
    decreases |s| - i
  {
    if i == |s| then ""
    else match RepairAt(r, s, i)
      case Some(e) => RepairText(r) + ReplaceMatches(r, s, e)
      case None => [s[i]] + ReplaceMatches(r, s, i + 1)
  }

  /** The repairs, applied one after the other. */
  function ApplyRepairs(s: string, repairs: seq<Repair>): string
    decreases |repairs|
  {
    if repairs == [] then s else ApplyRepairs(ReplaceMatches(repairs[0], s, 0), repairs[1..])
  }

  /** Every repair needs a `:`, so text without one is left alone. */
  lemma {:induction false} ReplaceMatchesNoColon(r: Repair, s: string, i: nat)
    requires i <= |s| && ':' !in s
    ensures ReplaceMatches(r, s, i) == s[i..]
    decreases |s| - i
  {
    if i < |s| {
      assert RepairAt(r, s, i).None? by {
        forall k | 0 <= k < |s| ensures s[k] != ':' {
          assert s[k] in s;
        }
      }
      ReplaceMiss(r, s, i);
      ReplaceMatchesNoColon(r, s, i + 1);
      assert s[i..] == [s[i]] + s[i + 1..];
    }
  }

  lemma {:induction false} ApplyRepairsNoColon(s: string, repairs: seq<Repair>)
    requires ':' !in s
    ensures ApplyRepairs(s, repairs) == s
    decreases |repairs|
  {
    if repairs != [] {
      ReplaceMatchesNoColon(repairs[0], s, 0);
      ApplyRepairsNoColon(s, repairs[1..]);
    }
  }

  /** A truncated `null` at the end of a line is restored. */
  lemma RepairLineEndExample()
    ensures ReplaceMatches(NullAtLineEnd, "x: n", 0) == "x: null"
  {
    var s := "x: n";
    assert ColonN(s, 1) == Some(4) by { assert SkipWhile(s, 3, IsSpace) == 3; assert SkipWhile(s, 2, IsSpace) == 3; }
    assert RepairAt(NullAtLineEnd, s, 1) == Some(4);
    assert RepairAt(NullAtLineEnd, s, 0).None?;
    assert ReplaceMatches(NullAtLineEnd, s, 1) == ": null";
  }

  /** A truncated `null` before a closing parenthesis is restored. */
  lemma RepairBeforeCloseExample()
    ensures ReplaceMatches(NullBeforeClose(')'), "f(a: n)", 0) == "f(a: null)"
  {
    var t := "f(a: n)";
    var r := NullBeforeClose(')');
    CloseExampleHit(t);
    ReplaceHit(r, t, 3, 7);
    CloseExampleMisses(t);
    ReplaceMiss(r, t, 2);
    ReplaceMiss(r, t, 1);
    ReplaceMiss(r, t, 0);
    assert ReplaceMatches(r, t, 7) == "";
  }

  lemma CloseExampleHit(t: string)
    requires t == "f(a: n)"
    ensures RepairAt(NullBeforeClose(')'), t, 3) == Some(7)
  {
    assert ColonN(t, 3) == Some(6) by { assert SkipWhile(t, 5, IsSpace) == 5; assert SkipWhile(t, 4, IsSpace) == 5; }
    assert SkipWhile(t, 6, IsSpace) == 6;
  }

  lemma CloseExampleMisses(t: string)
    requires t == "f(a: n)"
    ensures forall i :: 0 <= i < 3 ==> RepairAt(NullBeforeClose(')'), t, i).None?
  {
  }

  /** Where no match starts, the character is kept. */
  lemma ReplaceMiss(r: Repair, s: string, i: nat)
    requires i < |s| && RepairAt(r, s, i).None?
    ensures ReplaceMatches(r, s, i) == [s[i]] + ReplaceMatches(r, s, i + 1)
  {
  }

  /** Where a match starts, it is replaced and the scan goes on after it. */
  lemma ReplaceHit(r: Repair, s: string, i: nat, e: nat)
    requires i < |s| && RepairAt(r, s, i) == Some(e)
    ensures ReplaceMatches(r, s, i) == RepairText(r) + ReplaceMatches(r, s, e)
  {
  }

  /** `cleanCode(code)` of this script: the shared cleaning steps, then the
      repairs, then `trim()`. */
  function CleanCode(code: string, parse: ScriptCodeUtils.StringParser): (r: string)
    ensures code == "" ==> r == ""
    ensures IsTrimmed(r)
  {
    if code == "" then "" else Trim(ApplyRepairs(ScriptCodeUtils.CleanSteps(code, parse), Repairs))
  }

  /** Where the cleaned text holds no `:`, this script's cleaning agrees with
      the shared `cleanCode` of scripts/code-utils.ts. */
  lemma CleanCodeAgreesWithoutColon(code: string, parse: ScriptCodeUtils.StringParser)
    ensures ':' !in ScriptCodeUtils.CleanSteps(code, parse) ==>
              CleanCode(code, parse) == ScriptCodeUtils.CleanCode(code, parse)
  {
    if ':' !in ScriptCodeUtils.CleanSteps(code, parse) {
      ApplyRepairsNoColon(ScriptCodeUtils.CleanSteps(code, parse), Repairs);
    }
  }

  // ---------------------------------------------------------------------
  // transformRow
  // ---------------------------------------------------------------------

  /** `ParsedComponent` */
  datatype Component = Component(
    componentId: string,
    name: string,
    description: string,
    category: string,
    code: string,
    previewCode: string,
    tags: Option<seq<string>>,
    dependencies: Option<Record>,
    registryDependencies: Option<seq<string>>,
    isPublic: bool,
    extraFiles: Option<seq<CsvFields.ExtraFile>>)

  /** The `JSON.parse` instances the script relies on. */
  datatype Parsers = Parsers(
    text: ScriptCodeUtils.StringParser,
    tags: string -> Option<seq<string>>,
    files: string -> Option<seq<CsvFields.FileEntry>>)

  /** The error `.trim()` raises on a missing column. */
  const MissingColumnError: string := "Cannot read properties of undefined (reading 'trim')"

  /** The columns `transformRow` trims, which must therefore be present. */
  predicate HasTrimmedColumns(row: CsvFields.Row) {
    "componentId" in row && "name" in row && "description" in row && "category" in row
  }

  /** A missing cell reads as "" for `cleanCode`, which returns "" for it. */
  function CellOrEmpty(row: CsvFields.Row, name: string): string {
    CsvFields.Field(row, name).GetOr("")
  }

  /** The value `transformRow(row, validComponentIds)` computes: it fails
      exactly when a column it trims is absent; otherwise the four text
      columns are trimmed, the code cleaned, both dependency lists computed
      from the cleaned code, and the remaining columns decoded. */
  function Transformed(row: CsvFields.Row, validIds: set<string>, parsers: Parsers): (r: Result<Component>)
    ensures r.Err? <==> !HasTrimmedColumns(row)
    ensures r.Err? ==> r.message == MissingColumnError
    ensures r.Ok? ==> IsTrimmed(r.value.componentId) && IsTrimmed(r.value.name)
                      && IsTrimmed(r.value.description) && IsTrimmed(r.value.category)
                      && IsTrimmed(r.value.code) && IsTrimmed(r.value.previewCode)
    ensures r.Ok? && r.value.registryDependencies.Some? ==>
              |r.value.registryDependencies.value| > 0 && row["componentId"] !in r.value.registryDependencies.value
              && forall id :: id in r.value.registryDependencies.value ==> id in validIds
  {
    if !HasTrimmedColumns(row) then Err(MissingColumnError)
    else
      var code := CleanCode(CellOrEmpty(row, "code"), parsers.text);
      var previewCode := CleanCode(CellOrEmpty(row, "previewCode"), parsers.text);
      var registry := RegistryList(code, previewCode, Some(row["componentId"]), validIds);
      RegistryListSpec(code, previewCode, Some(row["componentId"]), validIds);
      Ok(Component(
        Trim(row["componentId"]), Trim(row["name"]), Trim(row["description"]), Trim(row["category"]),
        code, previewCode,
        CsvFields.ParseTags(CsvFields.Field(row, "tags"), parsers.tags),
        DependencyRecord(code, previewCode),
        if |registry| > 0 then Some(registry) else None,
        CsvFields.ParseBoolean(CsvFields.Field(row, "isPublic")),
        CsvFields.ParseFiles(CsvFields.Field(row, "files"), parsers.files)))
  }

  /** `transformRow(row, validComponentIds)`, calling the dependency loops. */
  method TransformRow(row: CsvFields.Row, validIds: set<string>, parsers: Parsers) returns (r: Result<Component>)
    ensures r == Transformed(row, validIds, parsers)
    ensures r.Err? <==> !HasTrimmedColumns(row)
    ensures r.Err? ==> r.message == MissingColumnError
    ensures r.Ok? ==>
              var c := r.value;
              c.componentId == Trim(row["componentId"]) && c.name == Trim(row["name"])
              && c.description == Trim(row["description"]) && c.category == Trim(row["category"])
              && c.code == CleanCode(CellOrEmpty(row, "code"), parsers.text)
              && c.previewCode == CleanCode(CellOrEmpty(row, "previewCode"), parsers.text)
              && c.dependencies == DependencyRecord(c.code, c.previewCode)
              && c.registryDependencies
                 == (var l := RegistryList(c.code, c.previewCode, Some(row["componentId"]), validIds);
                     if |l| > 0 then Some(l) else None)
              && c.tags == CsvFields.ParseTags(CsvFields.Field(row, "tags"), parsers.tags)
              && c.isPublic == CsvFields.ParseBoolean(CsvFields.Field(row, "isPublic"))
              && c.extraFiles == CsvFields.ParseFiles(CsvFields.Field(row, "files"), parsers.files)
  {
    var code := CleanCode(CellOrEmpty(row, "code"), parsers.text);
    var previewCode := CleanCode(CellOrEmpty(row, "previewCode"), parsers.text);
    var dependencies := GetDependenciesFromCode(code, previewCode);
    var currentId := CsvFields.Field(row, "componentId");
    var registryDependencies := GetRegistryDependenciesFromCode(code, previewCode, currentId, validIds);
    if !HasTrimmedColumns(row) {
      return Err(MissingColumnError);
    }
    r := Ok(Component(
      Trim(row["componentId"]), Trim(row["name"]), Trim(row["description"]), Trim(row["category"]),
      code, previewCode,
      CsvFields.ParseTags(CsvFields.Field(row, "tags"), parsers.tags),
      dependencies,
      if |registryDependencies| > 0 then Some(registryDependencies) else None,
      CsvFields.ParseBoolean(CsvFields.Field(row, "isPublic")),
      CsvFields.ParseFiles(CsvFields.Field(row, "files"), parsers.files)));
  }

  /** The required-field check of the deployment loop. */
  predicate HasRequiredFields(c: Component) {
    c.componentId != "" && c.name != "" && c.code != "" && c.previewCode != ""
  }

  /** The results of `transformRow` over the records. */
  function Results(rows: seq<CsvFields.Row>, validIds: set<string>, parsers: Parsers): (r: seq<Result<Component>>)
    ensures |r| == |rows|
    decreases |rows|
  {
    if rows == [] then []
    else Results(rows[..|rows| - 1], validIds, parsers) + [Transformed(rows[|rows| - 1], validIds, parsers)]
  }

  lemma ResultsStep(rows: seq<CsvFields.Row>, n: nat, validIds: set<string>, parsers: Parsers)
    requires n < |rows|
    ensures Results(rows[..n + 1], validIds, parsers) == Results(rows[..n], validIds, parsers) + [Transformed(rows[n], validIds, parsers)]
  {
    assert rows[..n + 1][..n] == rows[..n];
  }

  /** The deployment loop over the records: the components that transform
      and carry every required field are kept, in record order; every
      other record is counted as an error. */
  method ProcessRows(rows: seq<CsvFields.Row>, validIds: set<string>, parsers: Parsers)
    returns (components: seq<Component>, errors: nat)
    ensures components == CsvFields.Kept(Results(rows, validIds, parsers), HasRequiredFields)
    ensures errors == |rows| - |components|
    ensures forall k :: 0 <= k < |components| ==> HasRequiredFields(components[k])
  {
    components := [];
    errors := 0;
    for i := 0 to |rows|
      invariant components == CsvFields.Kept(Results(rows[..i], validIds, parsers), HasRequiredFields)
      invariant |components| + errors == i
    {
      var r := TransformRow(rows[i], validIds, parsers);
      ResultsStep(rows, i, validIds, parsers);
      CsvFields.KeptStep(Results(rows[..i], validIds, parsers), r, HasRequiredFields);
      if r.Err? || !HasRequiredFields(r.value) {
        errors := errors + 1;
      } else {
        components := components + [r.value];
      }
    }
    assert rows[..|rows|] == rows;
    CsvFields.KeptSpec(Results(rows, validIds, parsers), HasRequiredFields);
    assert forall k :: 0 <= k < |components| ==> components[k] in components;
  }

  /** Registry ids are checked against the deployed catalogue when it is
      not empty, and against the ids in the CSV otherwise. */
  function ValidComponentIds(convexIds: set<string>, csvIds: set<string>): (r: set<string>)
    ensures convexIds != {} ==> r == convexIds
    ensures convexIds == {} ==> r == csvIds
  {
    if |convexIds| > 0 then convexIds else csvIds
  }
}
