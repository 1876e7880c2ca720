/** components/editor/sandpack-app-template.ts: the generated entry file of
    the in-browser sandbox, the utility file and the TypeScript settings.
    The entry file depends on one flag, dark mode; its shell renders the
    preview module's component or an error message. */
module SandpackTemplate {
  import opened Wrappers
  import opened Strings

  // ---------------------------------------------------------------------
  // The entry file
  // ---------------------------------------------------------------------

  /** The text before the dark-mode literal: the imports, the Tailwind
      set-up (abbreviated here) and the opening of `App`. */
  const AppHead: string :=
    "import React, { useEffect, useLayoutEffect } from \"react\";\n"
    + "import * as Preview from \"./Preview\";\n"
    + "import { cn } from \"@/lib/utils\";\n"
    + "import \"./styles/globals.css\";\n\n"
    + "const configureTailwind = () => { ... };\n\n"
    + "export default function App() {\n"
    + "  const isDark = "

  /** The text after the literal: the dark-class effect, the Tailwind
      effect and the shell (abbreviated here). */
  const AppTail: string :=
    ";\n"
    + "  useLayoutEffect(() => { ... }, [isDark]);\n"
    + "  useEffect(() => { configureTailwind(); }, []);\n"
    + "  ...\n"
    + "}"

  /** `${isDark}`: a boolean interpolates as `true` or `false`. */
  function BoolText(b: bool): (r: string)
    ensures |r| >= 4 && (r[0] == 't' <==> b)
  {
    if b then "true" else "false"
  }

  /** `getAppCode(isDark)` */
  function AppCode(isDark: bool): (code: string)
    ensures StartsWith(code, AppHead) && EndsWith(code, AppTail)
  {
    AppHead + BoolText(isDark) + AppTail
  }

  /** The flag read back from an entry file: the character just after the
      head. */
  function IsDarkOf(code: string): Option<bool> {
    if StartsWith(code, AppHead) && |code| > |AppHead| then Some(code[|AppHead|] == 't') else None
  }

  /** The entry file records its flag, so the two variants differ exactly
      when the flags do. */
  lemma AppCodeRoundTrip(isDark: bool)
    ensures IsDarkOf(AppCode(isDark)) == Some(isDark)
  {
    var code := AppCode(isDark);
    assert code[|AppHead|] == BoolText(isDark)[0];
  }

  lemma AppCodeInjective(a: bool, b: bool)
    ensures AppCode(a) == AppCode(b) <==> a == b
  {
    AppCodeRoundTrip(a);
    AppCodeRoundTrip(b);
  }

  // ---------------------------------------------------------------------
  // The shell's choice of component
  // ---------------------------------------------------------------------

  /** A value exported by the preview module, as far as the shell looks at
      it: a function (a component), or anything else with its truthiness. */
  datatype ExportValue = FunctionValue(name: string) | OtherValue(truthy: bool)

  predicate Truthy(v: ExportValue) {
    v.FunctionValue? || v.truthy
  }

  /** What the shell renders. */
  datatype Shell = Renders(component: ExportValue) | NotFound

  /** The value of the export named `key`, if there is one. */
  function ExportNamed(exports: seq<(string, ExportValue)>, key: string): (r: Option<ExportValue>)
    ensures r.Some? ==> exists k :: 0 <= k < |exports| && exports[k] == (key, r.value)
    ensures r.None? <==> forall k :: 0 <= k < |exports| ==> exports[k].0 != key
  {
    if exports == [] then None
    else if exports[0].0 == key then Some(exports[0].1)
    else
      var r := ExportNamed(exports[1..], key);
      assert forall k :: 1 <= k < |exports| ==> exports[k] == exports[1..][k - 1];
      r
  }

  /** `Object.values(Preview).find((exp) => typeof exp === "function")` */
  function FirstFunction(exports: seq<(string, ExportValue)>): (r: Option<ExportValue>)
    ensures r.None? <==> forall k :: 0 <= k < |exports| ==> !exports[k].1.FunctionValue?
    ensures r.Some? ==> exists k :: 0 <= k < |exports| && exports[k].1 == r.value && r.value.FunctionValue?
                          && forall j :: 0 <= j < k ==> !exports[j].1.FunctionValue?
  {
    if exports == [] then None
    else if exports[0].1.FunctionValue? then Some(exports[0].1)
    else
      var r := FirstFunction(exports[1..]);
      assert forall k :: 1 <= k < |exports| ==> exports[k] == exports[1..][k - 1];
      if r.Some? then
        var k :| 0 <= k < |exports[1..]| && exports[1..][k].1 == r.value && r.value.FunctionValue?
                 && forall j :: 0 <= j < k ==> !exports[1..][j].1.FunctionValue?;
        assert exports[k + 1].1 == r.value;
        r
      else r
  }

  /** `Preview.default || …find(…)`, and the error message when both are
      falsy. */
  function ShellOf(exports: seq<(string, ExportValue)>): Shell {
    var d := ExportNamed(exports, "default");
    if d.Some? && Truthy(d.value) then Renders(d.value)
    else
      var f := FirstFunction(exports);
      if f.Some? then Renders(f.value) else NotFound
  }

  /** The shell shows the message exactly when there is no truthy default
      export and no exported function; otherwise it renders an exported
      value, the default one whenever that is truthy. */
  lemma ShellSpec(exports: seq<(string, ExportValue)>)
    ensures var d := ExportNamed(exports, "default");
            var none := forall k :: 0 <= k < |exports| ==> !exports[k].1.FunctionValue?;
            ShellOf(exports).NotFound? <==> (d.None? || !Truthy(d.value)) && none
    ensures ShellOf(exports).Renders? ==>
              exists k :: 0 <= k < |exports| && exports[k].1 == ShellOf(exports).component
    ensures var d := ExportNamed(exports, "default");
            d.Some? && Truthy(d.value) ==> ShellOf(exports) == Renders(d.value)
  {
  }

  /** A module whose only function is a named export renders it. */
  lemma NamedExportRendered(name: string, f: string)
    requires name != "default"
    ensures ShellOf([(name, FunctionValue(f))]) == Renders(FunctionValue(f))
  {
  }

  // ---------------------------------------------------------------------
  // The dark class on the document root
  // ---------------------------------------------------------------------

  /** The class list of the document's root element. */
  class Root {
    var classes: set<string>

    constructor(classes: set<string>)
      ensures this.classes == classes
    {
      this.classes := classes;
    }

    /** The layout effect: add `dark` when dark, remove it otherwise; every
        other class stays. */
    method ApplyDark(isDark: bool)
      modifies this
      ensures "dark" in classes <==> isDark
      ensures classes - {"dark"} == old(classes) - {"dark"}
    {
      if isDark {
        classes := classes + {"dark"};
      } else {
        classes := classes - {"dark"};
      }
    }
  }

  // ---------------------------------------------------------------------
  // Support files
  // ---------------------------------------------------------------------

  /** `UTILS_CODE`, the hidden `/lib/utils.ts`. */
  const UtilsCode: string :=
    "import { type ClassValue, clsx } from \"clsx\";\n"
    + "import { twMerge } from \"tailwind-merge\";\n\n"
    + "export function cn(...inputs: ClassValue[]) {\n"
    + "  return twMerge(clsx(inputs));\n"
    + "}"

  /** `TSCONFIG_CODE`, the hidden `/tsconfig.json`. */
  const TsConfigCode: string :=
    "{\n"
    + "  \"compilerOptions\": {\n"
    + "    \"target\": \"ESNext\",\n"
    + "    \"module\": \"ESNext\",\n"
    + "    \"moduleResolution\": \"bundler\",\n"
    + "    \"jsx\": \"react-jsx\",\n"
    + "    \"baseUrl\": \".\",\n"
    + "    \"paths\": {\n"
    + "      \"@/" + "*\": [\"./" + "*\"]\n"
    + "    },\n"
    + "    \"lib\": [\"dom\", \"dom.iterable\", \"esnext\"],\n"
    + "    \"allowJs\": true,\n"
    + "    \"skipLibCheck\": true,\n"
    + "    \"strict\": true,\n"
    + "    \"noEmit\": true,\n"
    + "    \"esModuleInterop\": true,\n"
    + "    \"resolveJsonModule\": true,\n"
    + "    \"isolatedModules\": true\n"
    + "  },\n"
    + "  \"include\": [\"**/" + "*.ts\", \"**/" + "*.tsx\"]\n"
    + "}"

  /** The module-resolution part of `TSCONFIG_CODE`: a base directory and
      path patterns, each with one `*`, mapped to target patterns. */
  datatype PathsConfig = PathsConfig(baseUrl: string, paths: seq<(string, string)>)

  /** A base URL of `.` and the one pattern `@/` followed by anything, mapped
      to `./` followed by the same. */
  const TsPaths: PathsConfig := PathsConfig(".", [("@/", "./")])

  /** TypeScript's `paths` mapping, with each pattern and target written as
      the text before its `*`: the first pattern that prefixes the
      specifier gives its target followed by the rest of the specifier. */
  function Resolve(config: PathsConfig, specifier: string): (r: Option<string>)
    ensures r.None? <==> forall k :: 0 <= k < |config.paths| ==> !StartsWith(specifier, config.paths[k].0)
    decreases |config.paths|
  {
    if config.paths == [] then None
    else
      var (pattern, target) := config.paths[0];
      if StartsWith(specifier, pattern) then Some(target + specifier[|pattern|..])
      else
        var rest := PathsConfig(config.baseUrl, config.paths[1..]);
        assert forall k :: 1 <= k < |config.paths| ==> config.paths[k] == rest.paths[k - 1];
        Resolve(rest, specifier)
  }

  /** Every `@/` import names the file at the same place under the project
      root, and nothing else is mapped. */
  lemma AtAlias(s: string)
    ensures Resolve(TsPaths, "@/" + s) == Some("./" + s)
    ensures !StartsWith(s, "@/") ==> Resolve(TsPaths, s).None?
  {
    assert ("@/" + s)[..2] == "@/";
    assert ("@/" + s)[2..] == s;
  }

  /** The entry file's `@/lib/utils` import is the hidden utility file. */
  lemma UtilsImportResolves()
    ensures Resolve(TsPaths, "@/lib/utils") == Some("./lib/utils")
  {
    AtAlias("lib/utils");
    assert "@/" + "lib/utils" == "@/lib/utils";
    assert "./" + "lib/utils" == "./lib/utils";
  }
}
