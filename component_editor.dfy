/** components/editor/ComponentEditor.tsx: the editable sandbox. It builds
    the sandbox's files, visible files and dependencies from the props, and
    an inner editor watches the sandbox's files to report changes of the
    three files a user edits, two seconds after they happen. */
module ComponentEditor {
  import opened Wrappers
  import opened Strings
  import opened OrderedMaps
  import ComponentPreviewCard

  type File = ComponentPreviewCard.File

  datatype Props = Props(code: string, previewCode: string, globalCss: Option<string>,
                         dependencies: Option<Entries<string, string>>, componentName: string)

  /** The texts written inline in the editor for its entry file, utility
      file, TypeScript settings and Tailwind settings. */
  datatype InlineTexts = InlineTexts(app: string, utils: string, tsconfig: string, tailwind: string)

  function ComponentPath(p: Props): string {
    ComponentPreviewCard.ComponentPath(p.componentName)
  }

  /** `globalCss && globalCss.trim().length > 0 ? globalCss : DEFAULT_GLOBAL_CSS` */
  function EffectiveCss(globalCss: Option<string>, defaultCss: string): (css: string)
    ensures globalCss.Some? && !AllSpace(globalCss.value) ==> css == globalCss.value
    ensures globalCss.None? || AllSpace(globalCss.value) ==> css == defaultCss
  {
    if globalCss.Some? then
      TrimEmptyIffAllSpace(globalCss.value);
      if |Trim(globalCss.value)| > 0 then globalCss.value else defaultCss
    else defaultCss
  }

  /** Unlike the preview card, the editor replaces a stylesheet of blanks
      by the default one. */
  lemma BlankCssDiffers(defaultCss: string)
    requires defaultCss != " "
    ensures EffectiveCss(Some(" "), defaultCss) == defaultCss
    ensures ComponentPreviewCard.EffectiveCss(Some(" "), defaultCss) == " "
  {
    assert AllSpace(" ") by { assert IsSpace(" "[0]); }
  }

  // ---------------------------------------------------------------------
  // Files, visible files, dependencies
  // ---------------------------------------------------------------------

  /** `files`: seven entries, of which the utility file, the TypeScript
      settings and the Tailwind settings are hidden. */
  function Files(p: Props, t: InlineTexts, defaultCss: string): Entries<string, File> {
    [("/App.tsx", ComponentPreviewCard.File(t.app, false)),
     ("/Preview.tsx", ComponentPreviewCard.File(p.previewCode, false)),
     (ComponentPath(p), ComponentPreviewCard.File(p.code, false)),
     ("/lib/utils.ts", ComponentPreviewCard.File(t.utils, true)),
     ("/styles/globals.css", ComponentPreviewCard.File(EffectiveCss(p.globalCss, defaultCss), false)),
     ("/tsconfig.json", ComponentPreviewCard.File(t.tsconfig, true)),
     ("/tailwind.config.js", ComponentPreviewCard.File(t.tailwind, true))]
  }

  /** The keys of the literal are distinct, so no entry is overwritten,
      and exactly three files are hidden. */
  lemma FilesSpec(p: Props, t: InlineTexts, defaultCss: string)
    ensures Valid(Files(p, t, defaultCss))
    ensures forall k :: 0 <= k < |Files(p, t, defaultCss)| ==> HiddenIffSupport(Files(p, t, defaultCss)[k])
  {
    var files := Files(p, t, defaultCss);
    ComponentPreviewCard.FixedPathsOutside();
    var path := ComponentPath(p);
    assert !StartsWith("/tailwind.config.js", ComponentPreviewCard.ComponentDir) by {
      assert "/tailwind.config.js"[1] != ComponentPreviewCard.ComponentDir[1];
    }
    assert Keys(files) == ["/App.tsx", "/Preview.tsx", path, "/lib/utils.ts", "/styles/globals.css",
                           "/tsconfig.json", "/tailwind.config.js"];
    assert "/App.tsx"[1] == 'A' && "/Preview.tsx"[1] == 'P' && "/lib/utils.ts"[1] == 'l';
    assert "/styles/globals.css"[1] == 's' && "/tsconfig.json"[1] == 't' && "/tailwind.config.js"[1] == 't';
    assert "/tsconfig.json" != "/tailwind.config.js" by { assert "/tsconfig.json"[2] != "/tailwind.config.js"[2]; }
    assert path != "/lib/utils.ts" && path != "/tsconfig.json" && path != "/tailwind.config.js";
    assert path != "/App.tsx" && path != "/Preview.tsx" && path != "/styles/globals.css";
  }

  /** An entry is hidden exactly when it is one of the three support files. */
  predicate HiddenIffSupport(entry: (string, File)) {
    entry.1.hidden <==> entry.0 in ["/lib/utils.ts", "/tsconfig.json", "/tailwind.config.js"]
  }

  /** `options.visibleFiles` */
  function VisibleFiles(p: Props): seq<string> {
    ["/Preview.tsx", ComponentPath(p), "/styles/globals.css"]
  }

  const ActiveFile: string := "/Preview.tsx"

  /** The visible files are the three editable files, shown and not
      hidden, the active one first. */
  lemma VisibleFilesShown(p: Props, t: InlineTexts, defaultCss: string)
    ensures VisibleFiles(p)[0] == ActiveFile
    ensures forall k :: 0 <= k < 3 ==> ComponentPreviewCard.Shown(Files(p, t, defaultCss), VisibleFiles(p)[k])
  {
    var files := Files(p, t, defaultCss);
    FilesSpec(p, t, defaultCss);
    GetUnique(files, "/Preview.tsx");
    GetUnique(files, ComponentPath(p));
    GetUnique(files, "/styles/globals.css");
    assert files[1].0 == "/Preview.tsx" && files[2].0 == ComponentPath(p) && files[4].0 == "/styles/globals.css";
  }

  const BaseDependencies: Entries<string, string> :=
    [("lucide-react", "latest"), ("clsx", "latest"), ("tailwind-merge", "latest")]

  /** `customSetup.dependencies`: the three base packages at `latest`, then
      the supplied ones spread over them. */
  function Dependencies(p: Props): Entries<string, string> {
    Spread(BaseDependencies, p.dependencies.GetOr([]))
  }

  /** A supplied version wins; the base packages are always present. */
  lemma DependenciesSpec(p: Props, x: string)
    requires p.dependencies.Some? ==> Valid(p.dependencies.value)
    ensures Valid(Dependencies(p))
    ensures var own := p.dependencies.GetOr([]);
            Get(Dependencies(p), x) == if x in Keys(own) then Get(own, x) else Get(BaseDependencies, x)
    ensures x in Keys(BaseDependencies) ==> Get(Dependencies(p), x).Some?
  {
    assert Keys(BaseDependencies) == ["lucide-react", "clsx", "tailwind-merge"];
    assert "lucide-react"[0] == 'l' && "clsx"[0] == 'c' && "tailwind-merge"[0] == 't';
    SpreadGet(BaseDependencies, p.dependencies.GetOr([]), x);
  }

  /** `updateCode(value || "")`: an editor that reports no value clears the
      file. */
  function EditedCode(value: Option<string>): (code: string)
    ensures value.Some? ==> code == value.value
    ensures value.None? ==> code == ""
  {
    value.GetOr("")
  }

  // ---------------------------------------------------------------------
  // The change detector
  // ---------------------------------------------------------------------

  /** The sandbox's files as the detector reads them: path to text. */
  type Snapshot = map<string, string>

  /** `files[path]?.code` */
  function CodeAt(files: Snapshot, path: string): Option<string> {
    if path in files then Some(files[path]) else None
  }

  /** The three watched texts agree in both snapshots. */
  predicate SameTracked(a: Snapshot, b: Snapshot, componentPath: string) {
    CodeAt(a, "/Preview.tsx") == CodeAt(b, "/Preview.tsx")
    && CodeAt(a, componentPath) == CodeAt(b, componentPath)
    && CodeAt(a, "/styles/globals.css") == CodeAt(b, "/styles/globals.css")
  }

  /** The detector's state: the recorded snapshot (`previousFilesRef`) and
      the report its two-second timer will deliver, if one is set. */
  datatype Detector = Detector(previous: Snapshot, pending: Option<Snapshot>)

  /** One run of the effect on the current files: the previous run's timer
      is cleared first; without `onChange` nothing else happens; with it, a
      change of a watched file records the files and sets a timer for
      them. */
  function Effect(d: Detector, files: Snapshot, hasOnChange: bool, componentPath: string): (e: Detector)
    ensures !hasOnChange || SameTracked(files, d.previous, componentPath) ==> e == Detector(d.previous, None)
    ensures hasOnChange && !SameTracked(files, d.previous, componentPath) ==> e == Detector(files, Some(files))
  {
    if !hasOnChange then Detector(d.previous, None)
    else if SameTracked(files, d.previous, componentPath) then Detector(d.previous, None)
    else Detector(files, Some(files))
  }

  /** Mounting records the files the sandbox starts with. */
  function Mount(files: Snapshot): Detector {
    Detector(files, None)
  }

  /** The effect's run on mount reports nothing. */
  lemma MountReportsNothing(files: Snapshot, hasOnChange: bool, componentPath: string)
    ensures Effect(Mount(files), files, hasOnChange, componentPath) == Mount(files)
  {
  }

  /** Edits to files other than the three watched ones are never
      reported. */
  lemma UntrackedEditIgnored(d: Detector, files: Snapshot, path: string, text: string, hasOnChange: bool,
                             componentPath: string)
    requires SameTracked(files, d.previous, componentPath)
    requires path != "/Preview.tsx" && path != componentPath && path != "/styles/globals.css"
    ensures Effect(d, files[path := text], hasOnChange, componentPath).pending.None?
  {
    var edited := files[path := text];
    assert SameTracked(edited, files, componentPath);
  }

  /** After a reported change, a second run on the same files does not
      report again, and the recorded snapshot is the reported one. */
  lemma ReportOnce(d: Detector, files: Snapshot, componentPath: string)
    ensures var e := Effect(d, files, true, componentPath);
            e.pending.Some? ==> e.pending.value == e.previous
                                && Effect(e, files, true, componentPath).pending.None?
  {
  }

  /** A run whose watched texts did not change, for instance one caused by
      a new `onChange` function, clears a timer set by the run before it,
      and that change is then never reported. */
  lemma RerunCancelsReport(d: Detector, files: Snapshot, componentPath: string)
    requires d.pending.Some? && SameTracked(files, d.previous, componentPath)
    ensures Effect(d, files, true, componentPath).pending.None?
    ensures Effect(d, files, true, componentPath).previous == d.previous
  {
  }

  /** The detector of one mounted editor. */
  class ChangeDetector {
    var state: Detector
    var hasOnChange: bool
    var componentPath: string

    constructor(files: Snapshot, hasOnChange: bool, componentPath: string)
      ensures state == Mount(files) && this.hasOnChange == hasOnChange && this.componentPath == componentPath
    {
      state := Mount(files);
      this.hasOnChange := hasOnChange;
      this.componentPath := componentPath;
    }

    /** A render with new files or props re-runs the effect. */
    method Run(files: Snapshot, hasOnChange: bool, componentPath: string)
      modifies this
      ensures this.hasOnChange == hasOnChange && this.componentPath == componentPath
      ensures state == Effect(old(state), files, hasOnChange, componentPath)
    {
      this.hasOnChange := hasOnChange;
      this.componentPath := componentPath;
      var d := state;
      if !hasOnChange {
        state := Detector(d.previous, None);
      } else if CodeAt(files, "/Preview.tsx") == CodeAt(d.previous, "/Preview.tsx")
             && CodeAt(files, componentPath) == CodeAt(d.previous, componentPath)
             && CodeAt(files, "/styles/globals.css") == CodeAt(d.previous, "/styles/globals.css") {
        state := Detector(d.previous, None);
      } else {
        state := Detector(files, Some(files));
      }
    }

    /** The timer fires: `onChange(files)` with the files it was set for. */
    method Fire() returns (report: Option<Snapshot>)
      modifies this
      ensures report == old(state.pending)
      ensures state == Detector(old(state.previous), None)
      ensures hasOnChange == old(hasOnChange) && componentPath == old(componentPath)
    {
      report := state.pending;
      state := Detector(state.previous, None);
    }
  }
}
