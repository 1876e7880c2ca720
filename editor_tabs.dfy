/** components/editor/EditorTabs.tsx: one tab per visible file of the
    sandbox, labelled by the file's name and an icon chosen by extension;
    the active file's tab is highlighted and clicking a tab activates its
    file. The sandbox owns the visible files and the active file. */
module EditorTabs {
  import opened Strings

  datatype FileIcon = BlueCode | TypeIcon | JsonIcon | GreyCode

  /** `getFileIcon`: the first matching extension rule. */
  function Icon(fileName: string): (r: FileIcon)
    ensures r == BlueCode <==> EndsWith(fileName, ".tsx") || EndsWith(fileName, ".ts")
    ensures r == TypeIcon <==> !EndsWith(fileName, ".ts") && EndsWith(fileName, ".css")
    ensures r == JsonIcon <==> !EndsWith(fileName, ".ts") && !EndsWith(fileName, ".css") && EndsWith(fileName, ".json")
  {
    if EndsWith(fileName, ".tsx") || EndsWith(fileName, ".ts") then BlueCode
    else if EndsWith(fileName, ".css") then TypeIcon
    else if EndsWith(fileName, ".json") then JsonIcon
    else GreyCode
  }

  /** `getFileName`: the last `/`-separated piece of the path. */
  function FileName(path: string): string {
    LastPart(path, '/')
  }

  /** The file name is the longest slash-free end of the path. */
  lemma FileNameSpec(path: string)
    ensures Free(FileName(path), '/') && EndsWith(path, FileName(path))
    ensures |FileName(path)| < |path| ==> path[|path| - |FileName(path)| - 1] == '/'
  {
    LastPartSpec(path, '/');
  }

  /** A slash-free suffix ends the path exactly when it ends the file name. */
  lemma EndsWithFileName(path: string, suffix: string)
    requires Free(suffix, '/')
    ensures EndsWith(path, suffix) <==> EndsWith(FileName(path), suffix)
  {
    var name := FileName(path);
    FileNameSpec(path);
    if EndsWith(path, suffix) {
      assert name[|name| - |suffix|..] == path[|path| - |suffix|..];
    }
    if EndsWith(name, suffix) {
      assert path[|path| - |suffix|..] == name[|name| - |suffix|..];
    }
  }

  /** The icon is computed from the whole path, but only the file name
      decides it. */
  lemma IconByFileName(path: string)
    ensures Icon(path) == Icon(FileName(path))
  {
    EndsWithFileName(path, ".tsx");
    EndsWithFileName(path, ".ts");
    EndsWithFileName(path, ".css");
    EndsWithFileName(path, ".json");
  }

  /** One rendered tab. */
  datatype Tab = Tab(path: string, name: string, icon: FileIcon, active: bool)

  /** The tab list: `visibleFiles.map(...)`. */
  function Tabs(visibleFiles: seq<string>, activeFile: string): (tabs: seq<Tab>)
    ensures |tabs| == |visibleFiles|
    ensures forall k :: 0 <= k < |tabs| ==>
              tabs[k].path == visibleFiles[k] && tabs[k].name == FileName(visibleFiles[k])
              && (tabs[k].active <==> visibleFiles[k] == activeFile)
  {
    seq(|visibleFiles|, k requires 0 <= k < |visibleFiles| =>
      Tab(visibleFiles[k], FileName(visibleFiles[k]), Icon(visibleFiles[k]), visibleFiles[k] == activeFile))
  }

  /** `onClick={() => setActiveFile(filePath)}` on tab `k`: the new active
      file. */
  function Click(visibleFiles: seq<string>, k: nat): (active: string)
    requires k < |visibleFiles|
    ensures active in visibleFiles
  {
    visibleFiles[k]
  }

  /** With distinct visible paths (they are the tabs' keys), after clicking
      tab `k` exactly that tab is highlighted. */
  lemma {:induction false} ClickHighlightsOne(visibleFiles: seq<string>, k: nat)
    requires k < |visibleFiles|
    requires NoDuplicates(visibleFiles)
    ensures forall j :: 0 <= j < |visibleFiles| ==> (Tabs(visibleFiles, Click(visibleFiles, k))[j].active <==> j == k)
  {
    var tabs := Tabs(visibleFiles, Click(visibleFiles, k));
    forall j | 0 <= j < |visibleFiles|
      ensures tabs[j].active <==> j == k
    {
      if j != k {
        assert visibleFiles[j] != visibleFiles[k];
      }
    }
  }

  /** An active file outside the visible files highlights no tab. */
  lemma HiddenActiveHighlightsNone(visibleFiles: seq<string>, activeFile: string)
    requires activeFile !in visibleFiles
    ensures forall j :: 0 <= j < |visibleFiles| ==> !Tabs(visibleFiles, activeFile)[j].active
  {
  }
}
