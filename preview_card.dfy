/** components/ComponentPreviewCard.tsx: the read-only preview of a
    component. It either shows the component's local build (catalog
    components the site ships) or boots a sandbox with a file map, a list of
    visible files and a dependency map, keyed so that the sandbox restarts
    when its inputs change. */
module ComponentPreviewCard {
  import opened Wrappers
  import opened Strings
  import opened OrderedMaps
  import SandpackTemplate

  /** A sandbox file: its text and whether the file list hides it. A plain
      string entry in the source is a file that is not hidden. */
  datatype File = File(code: string, hidden: bool)

  /** One entry of `registryDependenciesCode`: the code of a registry
      component the previewed one uses, and its npm dependencies. */
  datatype RegistryCode = RegistryCode(code: string, deps: Option<Entries<string, string>>)

  datatype Props = Props(code: string, previewCode: string, globalCss: Option<string>,
                         dependencies: Option<Entries<string, string>>, componentName: string,
                         registry: Option<Entries<string, RegistryCode>>, isUserComponent: Option<bool>)

  // ---------------------------------------------------------------------
  // Paths
  // ---------------------------------------------------------------------

  const ComponentDir: string := "/components/ui/"

  /** `/components/ui/${name}.tsx` */
  function ComponentPath(name: string): (path: string)
    ensures StartsWith(path, ComponentDir) && |path| == |name| + 19
  {
    ComponentDir + name + ".tsx"
  }

  /** Distinct names give distinct paths. */
  lemma ComponentPathInjective(a: string, b: string)
    ensures ComponentPath(a) == ComponentPath(b) ==> a == b
  {
    if ComponentPath(a) == ComponentPath(b) {
      assert a == ComponentPath(a)[15..15 + |a|];
      assert b == ComponentPath(b)[15..15 + |b|];
    }
  }

  /** The fixed files are not under the component directory. */
  lemma FixedPathsOutside()
    ensures !StartsWith("/App.tsx", ComponentDir) && !StartsWith("/Preview.tsx", ComponentDir)
    ensures !StartsWith("/lib/utils.ts", ComponentDir) && !StartsWith("/tsconfig.json", ComponentDir)
    ensures !StartsWith("/styles/globals.css", ComponentDir)
  {
    assert ComponentDir[1] == 'c';
    assert "/App.tsx"[1] != 'c' && "/Preview.tsx"[1] != 'c' && "/lib/utils.ts"[1] != 'c';
    assert "/tsconfig.json"[1] != 'c' && "/styles/globals.css"[1] != 'c';
  }

  // ---------------------------------------------------------------------
  // Theme and stylesheet
  // ---------------------------------------------------------------------

  /** `resolvedTheme === "dark" || (resolvedTheme === undefined && theme === "dark")` */
  function IsDark(resolvedTheme: Option<string>, theme: Option<string>): (dark: bool)
    ensures resolvedTheme.Some? ==> (dark <==> resolvedTheme.value == "dark")
    ensures resolvedTheme.None? ==> (dark <==> theme == Some("dark"))
  {
    resolvedTheme == Some("dark") || (resolvedTheme.None? && theme == Some("dark"))
  }

  /** `globalCss || DEFAULT_GLOBAL_CSS`: any non-empty stylesheet is used,
      even one of blanks. */
  function EffectiveCss(globalCss: Option<string>, defaultCss: string): (css: string)
    ensures globalCss.Some? && globalCss.value != "" ==> css == globalCss.value
    ensures globalCss.None? || globalCss.value == "" ==> css == defaultCss
  {
    OrElse(globalCss, defaultCss)
  }

  // ---------------------------------------------------------------------
  // Files
  // ---------------------------------------------------------------------

  function RegistryEntries(registry: Entries<string, RegistryCode>): (files: Entries<string, File>)
    ensures |files| == |registry|
    ensures forall k :: 0 <= k < |registry| ==> files[k] == (ComponentPath(registry[k].0), File(registry[k].1.code, false))
  {
    seq(|registry|, k requires 0 <= k < |registry| => (ComponentPath(registry[k].0), File(registry[k].1.code, false)))
  }

  /** `registryFiles`: each registry component as a visible file under the
      component directory. */
  function RegistryFiles(registry: Option<Entries<string, RegistryCode>>): Entries<string, File> {
    if registry.None? then [] else Spread([], RegistryEntries(registry.value))
  }

  /** Registry names are unique, so are their paths; every registry path
      lies under the component directory. */
  lemma RegistryEntriesSpec(registry: Entries<string, RegistryCode>)
    requires Valid(registry)
    ensures Valid(RegistryEntries(registry))
    ensures forall x :: x in Keys(RegistryEntries(registry)) ==> StartsWith(x, ComponentDir)
  {
    var files := RegistryEntries(registry);
    forall i, j | 0 <= i < j < |files| ensures Keys(files)[i] != Keys(files)[j] {
      ComponentPathInjective(registry[i].0, registry[j].0);
      assert Keys(registry)[i] != Keys(registry)[j];
    }
    forall x | x in Keys(files) ensures StartsWith(x, ComponentDir) {
      var k :| 0 <= k < |files| && Keys(files)[k] == x;
      assert x == ComponentPath(registry[k].0);
    }
  }

  /** The registry file of name `n` holds that registry entry's code, and
      there is none for a name the registry lacks; no file outside the
      component directory comes from the registry. */
  lemma RegistryFilesGet(registry: Option<Entries<string, RegistryCode>>, n: string, x: string)
    requires registry.Some? ==> Valid(registry.value)
    ensures Valid(RegistryFiles(registry))
    ensures var r := registry.GetOr([]);
            Get(RegistryFiles(registry), ComponentPath(n))
              == if Get(r, n).Some? then Some(File(Get(r, n).value.code, false)) else None
    ensures !StartsWith(x, ComponentDir) ==> Get(RegistryFiles(registry), x).None?
  {
    if registry.Some? {
      var r := registry.value;
      var files := RegistryEntries(r);
      RegistryEntriesSpec(r);
      SpreadGet([], files, ComponentPath(n));
      SpreadGet([], files, x);
      GetUnique(files, ComponentPath(n));
      if Get(r, n).Some? {
        var i :| 0 <= i < |r| && r[i] == (n, Get(r, n).value);
        assert files[i] == (ComponentPath(n), File(Get(r, n).value.code, false));
        assert Keys(files)[i] == ComponentPath(n);
      } else {
        forall k | 0 <= k < |files| ensures Keys(files)[k] != ComponentPath(n) {
          ComponentPathInjective(r[k].0, n);
          assert Keys(r)[k] == r[k].0;
        }
      }
    }
  }

  /** The texts of the fixed files that do not come from the props. */
  datatype FixedTexts = FixedTexts(app: string, css: string, utils: string, tsconfig: string)

  /** The texts the source uses: the entry file for the theme, the
      effective stylesheet, and the two support files. */
  function Texts(p: Props, isDark: bool, defaultCss: string): FixedTexts {
    FixedTexts(SandpackTemplate.AppCode(isDark), EffectiveCss(p.globalCss, defaultCss),
               SandpackTemplate.UtilsCode, SandpackTemplate.TsConfigCode)
  }

  /** The fixed part of `files`: the entry file, the preview, the
      component, the hidden utility and TypeScript files, the stylesheet. */
  function FixedFiles(p: Props, t: FixedTexts): Entries<string, File> {
    [("/App.tsx", File(t.app, false)),
     ("/Preview.tsx", File(p.previewCode, false)),
     (ComponentPath(p.componentName), File(p.code, false)),
     ("/lib/utils.ts", File(t.utils, true)),
     ("/styles/globals.css", File(t.css, false)),
     ("/tsconfig.json", File(t.tsconfig, true))]
  }

  /** `files`: the fixed files, then the registry files spread over them. */
  function Files(p: Props, t: FixedTexts): Entries<string, File> {
    Spread(FixedFiles(p, t), RegistryFiles(p.registry))
  }

  /** The six fixed keys are distinct, so the object literal has no
      overwritten entry. */
  lemma FixedFilesValid(p: Props, t: FixedTexts)
    ensures Valid(FixedFiles(p, t))
  {
    var fixed := FixedFiles(p, t);
    FixedPathsOutside();
    var ks := Keys(fixed);
    assert ks == ["/App.tsx", "/Preview.tsx", ComponentPath(p.componentName), "/lib/utils.ts",
                  "/styles/globals.css", "/tsconfig.json"];
    assert "/App.tsx" != "/Preview.tsx" && "/App.tsx" != "/lib/utils.ts" && "/App.tsx" != "/styles/globals.css"
           && "/App.tsx" != "/tsconfig.json" by { assert "/App.tsx"[1] == 'A'; }
    assert "/Preview.tsx" != "/lib/utils.ts" && "/Preview.tsx" != "/styles/globals.css"
           && "/Preview.tsx" != "/tsconfig.json" by { assert "/Preview.tsx"[1] == 'P'; }
    assert "/lib/utils.ts" != "/styles/globals.css" && "/lib/utils.ts" != "/tsconfig.json"
      by { assert "/lib/utils.ts"[1] == 'l'; }
    assert "/styles/globals.css" != "/tsconfig.json" by { assert "/styles/globals.css"[1] == 's'; }
  }

  /** The entry file, the preview, the utility and TypeScript files and
      the stylesheet keep their fixed contents, whatever the registry. */
  lemma FixedFilesKept(p: Props, t: FixedTexts)
    requires p.registry.Some? ==> Valid(p.registry.value)
    ensures var files := Files(p, t);
            Valid(files)
            && Get(files, "/App.tsx") == Some(File(t.app, false))
            && Get(files, "/Preview.tsx") == Some(File(p.previewCode, false))
            && Get(files, "/lib/utils.ts") == Some(File(t.utils, true))
            && Get(files, "/styles/globals.css") == Some(File(t.css, false))
            && Get(files, "/tsconfig.json") == Some(File(t.tsconfig, true))
  {
    FixedKept(p, t, 0);
    FixedKept(p, t, 1);
    FixedKept(p, t, 3);
    FixedKept(p, t, 4);
    FixedKept(p, t, 5);
  }

  /** One fixed entry outside the component directory, read back from the
      file map. */
  lemma FixedKept(p: Props, t: FixedTexts, i: nat)
    requires p.registry.Some? ==> Valid(p.registry.value)
    requires i < 6 && i != 2
    ensures Valid(Files(p, t))
    ensures var fixed := FixedFiles(p, t);
            Get(Files(p, t), fixed[i].0) == Some(fixed[i].1)
  {
    var fixed := FixedFiles(p, t);
    var reg := RegistryFiles(p.registry);
    FixedFilesValid(p, t);
    FixedPathsOutside();
    assert !StartsWith(fixed[i].0, ComponentDir);
    RegistryFilesGet(p.registry, "", fixed[i].0);
    KeptAt(fixed, reg, i);
  }

  /** An entry whose key `other` lacks survives the spread. */
  lemma KeptAt<V>(m: Entries<string, V>, other: Entries<string, V>, i: nat)
    requires Valid(m) && Valid(other) && i < |m| && Get(other, m[i].0).None?
    ensures Valid(Spread(m, other))
    ensures Get(Spread(m, other), m[i].0) == Some(m[i].1)
  {
    GetUnique(m, m[i].0);
    SpreadGet(m, other, m[i].0);
  }

  /** Registry files are spread last: a registry component named like the
      previewed one replaces its code, and otherwise the component file
      holds the given code. */
  lemma ComponentFile(p: Props, t: FixedTexts)
    requires p.registry.Some? ==> Valid(p.registry.value)
    ensures var own := Get(p.registry.GetOr([]), p.componentName);
            Get(Files(p, t), ComponentPath(p.componentName))
              == Some(File(if own.Some? then own.value.code else p.code, false))
  {
    var fixed := FixedFiles(p, t);
    var reg := RegistryFiles(p.registry);
    var x := ComponentPath(p.componentName);
    FixedFilesValid(p, t);
    RegistryFilesGet(p.registry, p.componentName, x);
    SpreadGet(fixed, reg, x);
    GetUnique(fixed, x);
    assert fixed[2].0 == x;
  }

  /** Each registry component's file holds that component's code. */
  lemma RegistryComponentFile(p: Props, t: FixedTexts, n: string)
    requires p.registry.Some? ==> Valid(p.registry.value)
    ensures var got := Get(p.registry.GetOr([]), n);
            got.Some? ==> Get(Files(p, t), ComponentPath(n)) == Some(File(got.value.code, false))
  {
    FixedFilesValid(p, t);
    RegistryFilesGet(p.registry, n, ComponentPath(n));
    SpreadGet(FixedFiles(p, t), RegistryFiles(p.registry), ComponentPath(n));
  }

  // ---------------------------------------------------------------------
  // Visible and active files
  // ---------------------------------------------------------------------

  /** `options.visibleFiles`: the preview, the component, the stylesheet,
      then the registry paths in key order. */
  function VisibleFiles(p: Props): (visible: seq<string>)
    ensures |visible| == 3 + |p.registry.GetOr([])|
  {
    var reg := p.registry.GetOr([]);
    ["/Preview.tsx", ComponentPath(p.componentName), "/styles/globals.css"]
      + seq(|reg|, k requires 0 <= k < |reg| => ComponentPath(reg[k].0))
  }

  const ActiveFile: string := "/Preview.tsx"

  /** Every visible file, the active one among them, is a file of the map
      that the list does not hide. */
  lemma VisibleFilesExist(p: Props, t: FixedTexts)
    requires p.registry.Some? ==> Valid(p.registry.value)
    ensures ActiveFile in VisibleFiles(p)
    ensures forall k :: 0 <= k < |VisibleFiles(p)| ==> Shown(Files(p, t), VisibleFiles(p)[k])
  {
    assert VisibleFiles(p)[0] == ActiveFile;
    forall k | 0 <= k < |VisibleFiles(p)| ensures Shown(Files(p, t), VisibleFiles(p)[k]) {
      VisibleFileExists(p, t, k);
    }
  }

  /** `path` is a file of the map that the file list does not hide. */
  predicate Shown(files: Entries<string, File>, path: string) {
    var f := Get(files, path);
    f.Some? && !f.value.hidden
  }

  lemma VisibleFileExists(p: Props, t: FixedTexts, k: nat)
    requires p.registry.Some? ==> Valid(p.registry.value)
    requires k < |VisibleFiles(p)|
    ensures Shown(Files(p, t), VisibleFiles(p)[k])
  {
    var visible := VisibleFiles(p);
    if k == 0 {
      FixedKept(p, t, 1);
    } else if k == 1 {
      ComponentFile(p, t);
    } else if k == 2 {
      FixedKept(p, t, 4);
    } else {
      var reg := p.registry.GetOr([]);
      var n := reg[k - 3].0;
      assert visible[k] == ComponentPath(n);
      GetUnique(reg, n);
      RegistryComponentFile(p, t, n);
    }
  }

  // ---------------------------------------------------------------------
  // Dependencies
  // ---------------------------------------------------------------------

  /** `DEFAULT_DEPENDENCIES` */
  const DefaultDependencies: Entries<string, string> :=
    [("lucide-react", "latest"), ("clsx", "latest"), ("tailwind-merge", "latest"),
     ("@types/react", "^18.2.0"), ("@types/react-dom", "^18.2.0"), ("@types/node", "^20.0.0")]

  lemma DefaultDependenciesValid()
    ensures Valid(DefaultDependencies)
  {
    var ks := Keys(DefaultDependencies);
    assert ks == ["lucide-react", "clsx", "tailwind-merge", "@types/react", "@types/react-dom", "@types/node"];
    assert "lucide-react"[0] == 'l' && "clsx"[0] == 'c' && "tailwind-merge"[0] == 't';
    assert "@types/react"[0] == '@' && "@types/react-dom"[0] == '@' && "@types/node"[0] == '@';
    assert "@types/react" != "@types/react-dom" && "@types/react" != "@types/node" && "@types/react-dom" != "@types/node"
      by { assert |"@types/react"| == 12 && |"@types/react-dom"| == 16 && |"@types/node"| == 11; }
  }

  /** The dependencies of a registry component, `{}` when absent. */
  function DepsOf(r: RegistryCode): Entries<string, string> {
    r.deps.GetOr([])
  }

  /** `registryNpmDeps`: the registry components' dependencies spread one
      after the other, in key order. */
  function RegistryNpm(registry: Entries<string, RegistryCode>): Entries<string, string>
    decreases |registry|
  {
    if registry == [] then []
    else Spread(RegistryNpm(registry[..|registry| - 1]), DepsOf(registry[|registry| - 1].1))
  }

  predicate DepsValid(registry: Entries<string, RegistryCode>) {
    forall k :: 0 <= k < |registry| ==> Valid(DepsOf(registry[k].1))
  }

  /** A later registry component's version of a package wins over an
      earlier one's. */
  lemma {:induction false} RegistryNpmLast(registry: Entries<string, RegistryCode>, x: string)
    requires DepsValid(registry)
    ensures Valid(RegistryNpm(registry))
    ensures registry != [] ==>
              var last := DepsOf(registry[|registry| - 1].1);
              Get(RegistryNpm(registry), x)
                == if x in Keys(last) then Get(last, x) else Get(RegistryNpm(registry[..|registry| - 1]), x)
    decreases |registry|
  {
    if registry != [] {
      var init := registry[..|registry| - 1];
      assert DepsValid(init) by {
        forall k | 0 <= k < |init| ensures Valid(DepsOf(init[k].1)) {
          assert init[k] == registry[k];
        }
      }
      RegistryNpmLast(init, x);
      SpreadGet(RegistryNpm(init), DepsOf(registry[|registry| - 1].1), x);
    }
  }

  /** `customSetup.dependencies` */
  function Dependencies(p: Props): Entries<string, string> {
    Spread(Spread(DefaultDependencies, RegistryNpm(p.registry.GetOr([]))), p.dependencies.GetOr([]))
  }

  /** The component's own versions win, then the registry components',
      then the defaults. */
  lemma DependenciesPrecedence(p: Props, x: string)
    requires p.dependencies.Some? ==> Valid(p.dependencies.value)
    requires DepsValid(p.registry.GetOr([]))
    ensures Valid(Dependencies(p))
    ensures var own := p.dependencies.GetOr([]);
            var npm := RegistryNpm(p.registry.GetOr([]));
            Get(Dependencies(p), x)
              == if x in Keys(own) then Get(own, x)
                 else if x in Keys(npm) then Get(npm, x)
                 else Get(DefaultDependencies, x)
  {
    var npm := RegistryNpm(p.registry.GetOr([]));
    DefaultDependenciesValid();
    RegistryNpmLast(p.registry.GetOr([]), x);
    SpreadGet(DefaultDependencies, npm, x);
    SpreadGet(Spread(DefaultDependencies, npm), p.dependencies.GetOr([]), x);
  }

  // ---------------------------------------------------------------------
  // The sandbox key
  // ---------------------------------------------------------------------

  function Min(a: nat, b: nat): nat {
    if a < b then a else b
  }

  /** The number of characters `replace(/\s/g, '')` keeps. */
  function NonSpaceCount(s: string): (n: nat)
    ensures n <= |s|
  {
    if s == [] then 0 else (if IsSpace(s[0]) then 0 else 1) + NonSpaceCount(s[1..])
  }

  /** `s.length + (s.slice(0, 20) + s.slice(-20)).replace(/\s/g, '').length`;
      `slice(-20)` of a shorter string is the whole string.  Lengths count
      code points, where JavaScript counts UTF-16 code units. */
  function Hash(s: string): (h: nat)
    ensures |s| <= h <= |s| + 40
  {
    var n := Min(20, |s|);
    |s| + NonSpaceCount(s[..n] + s[|s| - n..])
  }

  /** `registryHash`: the registry names joined by commas. */
  function RegistryHash(registry: Option<Entries<string, RegistryCode>>): string {
    if registry.None? then "" else Join(Keys(registry.value), ",")
  }

  /** The text of the key up to the registry names. */
  function KeyHead(p: Props): string {
    var css := if p.globalCss.Some? && p.globalCss.value != "" then |p.globalCss.value| else 0;
    "preview-" + p.componentName + "-" + NatToString(Hash(p.code)) + "-" + NatToString(Hash(p.previewCode))
      + "-" + NatToString(css) + "-"
  }

  function ModeText(isDark: bool): string {
    if isDark then "-dark" else "-light"
  }

  /** `providerKey` */
  function ProviderKey(p: Props, isDark: bool): string {
    KeyHead(p) + RegistryHash(p.registry) + ModeText(isDark)
  }

  /** The key tells dark from light, so switching the theme restarts the
      sandbox. */
  lemma KeyShowsMode(p: Props, isDark: bool)
    ensures EndsWith(ProviderKey(p, isDark), "-dark") <==> isDark
  {
    var key := ProviderKey(p, isDark);
    if !isDark {
      assert key[|key| - 5..] == "light";
      assert "light" != "-dark" by { assert "light"[0] != "-dark"[0]; }
    }
  }

  /** Names of registry components, as the key joins them: non-empty and
      free of commas. */
  predicate PlainNames(registry: Option<Entries<string, RegistryCode>>) {
    registry.Some? ==> forall k :: 0 <= k < |registry.value| ==> registry.value[k].0 != "" && Free(registry.value[k].0, ',')
  }

  /** Inputs that differ only in the list of registry names give different
      keys. */
  lemma KeyShowsRegistry(p: Props, q: Props, isDark: bool)
    requires q == p.(registry := q.registry)
    requires PlainNames(p.registry) && PlainNames(q.registry)
    requires Keys(p.registry.GetOr([])) != Keys(q.registry.GetOr([]))
    ensures ProviderKey(p, isDark) != ProviderKey(q, isDark)
  {
    var a, b := RegistryHash(p.registry), RegistryHash(q.registry);
    var head, mode := KeyHead(p), ModeText(isDark);
    assert KeyHead(q) == head;
    if ProviderKey(p, isDark) == ProviderKey(q, isDark) {
      assert |a| == |b|;
      assert a == ProviderKey(p, isDark)[|head|..|head| + |a|];
      assert b == ProviderKey(q, isDark)[|head|..|head| + |b|];
      HashNames(p.registry);
      HashNames(q.registry);
      assert false;
    }
  }

  /** The joined names determine the names. */
  lemma HashNames(registry: Option<Entries<string, RegistryCode>>)
    requires PlainNames(registry)
    ensures var ks := Keys(registry.GetOr([]));
            (ks == [] <==> RegistryHash(registry) == "")
            && (ks != [] ==> Split(RegistryHash(registry), ',') == ks)
  {
    var ks := Keys(registry.GetOr([]));
    if ks != [] {
      assert registry.Some?;
      assert forall k :: 0 <= k < |ks| ==> Free(ks[k], ',') by {
        forall k | 0 <= k < |ks| ensures Free(ks[k], ',') {
          assert ks[k] == registry.value[k].0;
        }
      }
      SplitJoin(ks, ',');
      assert ks[0] == registry.value[0].0;
      assert |Join(ks, ",")| >= |ks[0]|;
    }
  }

  // ---------------------------------------------------------------------
  // What the card shows
  // ---------------------------------------------------------------------

  /** The local build of a catalog component, or the sandbox. */
  datatype Card =
    | Local(name: string)
    | Sandbox(key: string, files: Entries<string, File>, visible: seq<string>, active: string,
              dependencies: Entries<string, string>)

  /** The card for the props. `localNames` are the names with a local
      build; `defaultCss` is the default stylesheet. */
  function Render(p: Props, resolvedTheme: Option<string>, theme: Option<string>, localNames: set<string>,
                  defaultCss: string): (card: Card)
    ensures card.Local? <==> p.isUserComponent != Some(true) && p.componentName in localNames
  {
    if p.isUserComponent != Some(true) && p.componentName in localNames then Local(p.componentName)
    else
      var isDark := IsDark(resolvedTheme, theme);
      Sandbox(ProviderKey(p, isDark), Files(p, Texts(p, isDark, defaultCss)), VisibleFiles(p), ActiveFile,
              Dependencies(p))
  }

  /** A user's component always runs in the sandbox, on its own code. */
  lemma UserComponentInSandbox(p: Props, resolvedTheme: Option<string>, theme: Option<string>,
                               localNames: set<string>, defaultCss: string)
    requires p.isUserComponent == Some(true)
    requires p.registry.Some? ==> Valid(p.registry.value) && p.componentName !in Keys(p.registry.value)
    ensures var card := Render(p, resolvedTheme, theme, localNames, defaultCss);
            card.Sandbox? && Get(card.files, ComponentPath(p.componentName)) == Some(File(p.code, false))
  {
    ComponentFile(p, Texts(p, IsDark(resolvedTheme, theme), defaultCss));
  }
}
