/** The import analysis shared, line for line, by the maintenance scripts
    scripts/analyze-and-update-dependencies.ts and
    scripts/update-dependencies.ts: their `cleanCode`, their
    `extractDependencies` over both `from "..."` imports and
    `require("...")` calls, and the filter that drops the packages every
    preview already has. */
module DependencyScan {
  import opened Wrappers
  import opened Strings
  import opened ImportScan

  /** `DEFAULT_DEPENDENCIES` of both scripts. */
  const DefaultDependencies: seq<string> := ["react", "react-dom", "@types/react", "@types/react-dom", "@types/node"]

  // ---------------------------------------------------------------------
  // cleanCode
  // ---------------------------------------------------------------------

  /** `.replace(/^`"/, '"')` then `.replace(/`"$/, '"')`: a backtick
      directly before a quote at either end of the text is dropped. */
  function FixBacktickQuotes(s: string): (r: string)
    ensures |r| <= |s|
    ensures !StartsWith(s, "`\"") && !EndsWith(s, "`\"") ==> r == s
  {
    var t := if StartsWith(s, "`\"") then "\"" + s[2..] else s;
    if EndsWith(t, "`\"") then t[..|t| - 2] + "\"" else t
  }

  /** `if (cleaned.startsWith('`') && cleaned.endsWith('`')) cleaned =
      cleaned.slice(1, -1)`: unlike scripts/code-utils.ts, the backticks
      inside are not counted, and a lone backtick becomes "". */
  function StripBackticks(s: string): (r: string)
    ensures StartsWith(s, "`") && EndsWith(s, "`") ==> |r| == if |s| >= 2 then |s| - 2 else 0
    ensures !(StartsWith(s, "`") && EndsWith(s, "`")) ==> r == s
    ensures |s| >= 2 && StartsWith(s, "`") && EndsWith(s, "`") ==> s == "`" + r + "`"
  {
    if StartsWith(s, "`") && EndsWith(s, "`") then
      if |s| >= 2 then s[1..|s| - 1] else ""
    else s
  }

  /** `cleanCode(code)` of both scripts. */
  function CleanCode(code: string): (r: string)
    ensures IsTrimmed(r)
    ensures |r| <= |code|
  {
    var cleaned := StripBackticks(FixBacktickQuotes(Trim(code)));
    ReplaceAllShrinks(cleaned, "\"\"", "\"");
    Trim(ReplaceAll(cleaned, "\"\"", "\""))
  }

  /** Cleaning trimmed code without backticks or doubled quotes changes
      nothing. */
  lemma CleanCodeKeepsPlainCode(code: string)
    requires IsTrimmed(code) && '`' !in code && !Contains(code, "\"\"")
    ensures CleanCode(code) == code
  {
    assert Trim(code) == code by { TrimOfTrimmed(code); }
    assert FixBacktickQuotes(code) == code && StripBackticks(code) == code by {
      forall k | 0 <= k < |code| ensures code[k] != '`' {
        assert code[k] in code;
      }
      assert |code| >= 2 ==> code[|code| - 2..][0] == code[|code| - 2];
      assert |code| >= 1 ==> code[..1][0] == code[0];
    }
    assert ReplaceAll(code, "\"\"", "\"") == code by { ReplaceAllAbsent(code, "\"\"", "\""); }
  }

  /** One backtick pair around the code goes, even when the code holds
      further backticks (scripts/code-utils.ts would keep them all). */
  lemma StripsOuterPairOnly(body: string)
    requires |body| > 0 && body[0] != '"' && body[|body| - 1] != '"'
    ensures StripBackticks(FixBacktickQuotes("`" + body + "`")) == body
  {
    var s := "`" + body + "`";
    assert s[1] == body[0] && s[|s| - 2] == body[|body| - 1];
    assert !StartsWith(s, "`\"") by { assert s[..2][1] == s[1]; }
    assert !EndsWith(s, "`\"") by { assert s[|s| - 2..][0] == s[|s| - 2]; }
    assert s[1..|s| - 1] == body;
  }

  // ---------------------------------------------------------------------
  // extractDependencies
  // ---------------------------------------------------------------------

  /** Specifiers that name no external package here. */
  predicate Excluded(spec: string) {
    StartsWith(spec, ".") || StartsWith(spec, "@/") || StartsWith(spec, "next/")
  }

  /** The package a specifier contributes: the first two segments of a
      scoped specifier, a lone `@scope` as it stands, and the first segment
      of any other specifier. */
  function PackageName(spec: string): (r: Option<string>)
    ensures r.None? <==> Excluded(spec)
    ensures r.Some? ==> StartsWith(spec, r.value) && (|r.value| < |spec| ==> spec[|r.value|] == '/')
    ensures r.Some? && !StartsWith(spec, "@") ==> Free(r.value, '/')
    ensures StartsWith(spec, "@") && Free(spec, '/') && !Excluded(spec) ==> r == Some(spec)
  {
    if Excluded(spec) then None
    else
      var parts := Split(spec, '/');
      if StartsWith(spec, "@") then
        if |parts| >= 2 then
          SplitTwo(spec, '/');
          Some(parts[0] + "/" + parts[1])
        else
          SplitOne(spec, '/');
          Some(parts[0])
      else Some(parts[0])
  }

  /** `extractDependencies(code)`: the packages of the `from` imports, then
      those of the `require` calls, in order of first appearance. */
  function Dependencies(code: string): seq<string> {
    AddEach(AddEach([], Matches(FromImport, code, 0), PackageName), Matches(RequireCall, code, 0), PackageName)
  }

  /** Each package appears once, and a package appears exactly when an
      import or a require contributes it. */
  lemma DependenciesSpec(code: string)
    ensures NoDuplicates(Dependencies(code))
    ensures forall x :: x in Dependencies(code) <==>
              exists spec :: (spec in Matches(FromImport, code, 0) || spec in Matches(RequireCall, code, 0))
                             && PackageName(spec) == Some(x)
  {
    var imports := AddEach([], Matches(FromImport, code, 0), PackageName);
    AddEachSpec([], Matches(FromImport, code, 0), PackageName);
    AddEachSpec(imports, Matches(RequireCall, code, 0), PackageName);
  }

  /** The two `exec` loops of `extractDependencies`. */
  method ExtractDependencies(code: string) returns (deps: seq<string>)
    ensures deps == Dependencies(code)
  {
    deps := Collect(FromImport, code, PackageName, []);
    deps := Collect(RequireCall, code, PackageName, deps);
  }

  // ---------------------------------------------------------------------
  // Combining code and preview
  // ---------------------------------------------------------------------

  /** The filter of `getDependenciesFromComponent`. */
  function Keep(dep: string): Option<string> {
    if dep !in DefaultDependencies && !StartsWith(dep, "@/") && !StartsWith(dep, ".") && Trim(dep) != ""
    then Some(dep) else None
  }

  /** The set `allDeps` of `getDependenciesFromComponent`: the kept packages
      of code then preview, in order of first appearance. */
  function ComponentDependencies(code: string, previewCode: string): seq<string> {
    AddEach([], Dependencies(code) + Dependencies(previewCode), Keep)
  }

  /** The set holds each package once: exactly the non-default, non-blank
      packages that code or preview imports or requires. */
  lemma ComponentDependenciesSpec(code: string, previewCode: string)
    ensures var all := ComponentDependencies(code, previewCode);
            NoDuplicates(all)
            && forall x :: x in all <==>
                 (x in Dependencies(code) || x in Dependencies(previewCode))
                 && x !in DefaultDependencies && Trim(x) != ""
  {
    var both := Dependencies(code) + Dependencies(previewCode);
    AddEachSpec([], both, Keep);
    forall x ensures (exists c :: c in both && Keep(c) == Some(x)) <==>
                     x in both && x !in DefaultDependencies && Trim(x) != "" {
      if x in both && x !in DefaultDependencies && Trim(x) != "" {
        DependencyIsNotAlias(code, previewCode, x);
        assert Keep(x) == Some(x);
      }
    }
  }

  /** What `extractDependencies` yields never starts with `.` or `@/`, so
      that part of the filter never removes anything. */
  lemma DependencyIsNotAlias(code: string, previewCode: string, x: string)
    requires x in Dependencies(code) || x in Dependencies(previewCode)
    ensures !StartsWith(x, "@/") && !StartsWith(x, ".")
  {
    var src := if x in Dependencies(code) then code else previewCode;
    DependenciesSpec(src);
    var spec :| (spec in Matches(FromImport, src, 0) || spec in Matches(RequireCall, src, 0))
                && PackageName(spec) == Some(x);
    assert StartsWith(spec, x);
    if |x| >= 1 { assert x[0] == spec[0]; }
    if |x| >= 2 { assert x[1] == spec[1]; }
  }

  /** `getDependenciesFromComponent`'s combination of the two sets. */
  method CollectComponentDependencies(code: string, previewCode: string) returns (all: seq<string>)
    ensures all == ComponentDependencies(code, previewCode)
  {
    var codeDeps := ExtractDependencies(code);
    var previewDeps := ExtractDependencies(previewCode);
    all := AddEachLoop([], codeDeps + previewDeps, Keep);
  }
}
