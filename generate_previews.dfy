/** The one-off script scripts/generate-previews.js: it reads the component
    CSV, writes a missing component file and a preview file per record, and
    builds the text of components/registry.tsx with one import and one map
    entry per record. The file system is a set of existing paths plus the
    writes the script makes; the two target directories are parameters. */
module GeneratePreviews {
  import opened Wrappers
  import opened Strings
  import CsvScan

  // ---------------------------------------------------------------------
  // parseCSV
  // ---------------------------------------------------------------------

  /** The end of this script's `parseCSV`: a record still being read is
      kept when it holds a field, but its unfinished current field is not. */
  function Flush(s: CsvScan.Scanner): seq<seq<string>> {
    if |s.row| > 0 then s.results + [s.row] else s.results
  }

  /** `parseCSV(text)` */
  function Records(text: string): seq<seq<string>> {
    Flush(CsvScan.Scan(text, CsvScan.Start))
  }

  /** `parseCSV(text)`, with its character loop. */
  method ParseCsv(text: string) returns (results: seq<seq<string>>)
    ensures results == Records(text)
  {
    var s := CsvScan.ScanText(text);
    results := s.results;
    if |s.row| > 0 {
      results := results + [s.row];
    }
  }

  /** Every record holds at least one field, so `row[0]` is always a
      string. */
  lemma RecordsHaveFields(text: string)
    ensures forall k :: 0 <= k < |Records(text)| ==> |Records(text)[k]| >= 1
  {
    CsvScan.ScanKeepsWide(text, CsvScan.Start);
  }

  /** Records written with a line break after each are read back as they
      were. */
  lemma RecordsReadBack(rows: seq<seq<string>>, term: string)
    requires CsvScan.Wide(rows) && CsvScan.LineBreak(term)
    ensures Records(CsvScan.Encode(rows, term)) == rows
  {
    CsvScan.EncodeReadsBack(rows, term);
  }

  /** A last record without a line break is kept without its last field;
      a last record of a single field is lost. */
  lemma UnterminatedLastRecord(rows: seq<seq<string>>, term: string, last: seq<string>)
    requires CsvScan.Wide(rows) && CsvScan.LineBreak(term) && |last| > 0
    ensures Records(CsvScan.Encode(rows, term) + CsvScan.Fields(last))
            == if |last| >= 2 then rows + [last[..|last| - 1]] else rows
  {
    CsvScan.UnterminatedScan(rows, term, last);
  }

  // ---------------------------------------------------------------------
  // Cleaning the code columns
  // ---------------------------------------------------------------------

  /** `s.replace(/^`|`$/g, '')`: a backtick at the very start and one at
      the very end go; a lone backtick counts as the start. */
  function StripTicks(s: string): (r: string)
    ensures |r| <= |s|
  {
    var a := if |s| > 0 && s[0] == '`' then 1 else 0;
    var b := if |s| > a && s[|s| - 1] == '`' then |s| - 1 else |s|;
    s[a..b]
  }

  /** Text wrapped in backticks loses exactly that pair, and text with no
      backtick at either end is kept. */
  lemma StripTicksSpec(s: string, body: string)
    ensures StripTicks("`" + body + "`") == body
    ensures (s == [] || (s[0] != '`' && s[|s| - 1] != '`')) ==> StripTicks(s) == s
  {
    var t := "`" + body + "`";
    assert t[1..|t| - 1] == body;
  }

  const ExportDefault: string := "export default"
  const ExportFunction: string := "export function "

  /** The `\w+` run at the start of `t`. */
  function Word(t: string): (r: string)
    ensures |r| <= |t| && r == t[..|r|] && AllIn(r, IsWordChar)
    ensures |r| < |t| ==> !IsWordChar(t[|r|])
    decreases |t|
  {
    if t != [] && IsWordChar(t[0]) then [t[0]] + Word(t[1..]) else []
  }

  /** `code.match(/export function (\w+)/)` searched from position `i`:
      the first `export function ` followed by a word character, and the
      name after it. */
  function ExportedName(code: string, i: nat): (r: Option<string>)
    ensures r.Some? ==> |r.value| > 0 && AllIn(r.value, IsWordChar)
    decreases |code| - i
  {
    if i + |ExportFunction| >= |code| then None
    else if OccursAt(code, ExportFunction, i) && IsWordChar(code[i + |ExportFunction|]) then
      Some(Word(code[i + |ExportFunction|..]))
    else ExportedName(code, i + 1)
  }

  /** The preview text a default export is added to when it has none. */
  function WithDefaultExport(code: string): string {
    if Contains(code, ExportDefault) then code
    else match ExportedName(code, 0)
      case Some(name) => code + "\n\n" + ExportDefault + " " + name + ";"
      case None => code
  }

  /** A default export is added exactly when the code lacks one and has an
      exported function, and afterwards the code has one. */
  lemma WithDefaultExportSpec(code: string)
    ensures Contains(code, ExportDefault) ==> WithDefaultExport(code) == code
    ensures ExportedName(code, 0).None? ==> WithDefaultExport(code) == code
    ensures !Contains(code, ExportDefault) && ExportedName(code, 0).Some? ==>
              WithDefaultExport(code) == code + "\n\n" + ExportDefault + " " + ExportedName(code, 0).value + ";"
    ensures Contains(WithDefaultExport(code), ExportDefault) <==>
              Contains(code, ExportDefault) || ExportedName(code, 0).Some?
  {
    var r := WithDefaultExport(code);
    if Contains(code, ExportDefault) {
      assert r == code;
    } else if ExportedName(code, 0).Some? {
      var name := ExportedName(code, 0).value;
      assert r == code + "\n\n" + ExportDefault + " " + name + ";";
      ExportAppended(code, name);
    } else {
      assert r == code;
    }
  }

  /** A second pass changes nothing. */
  lemma WithDefaultExportIdempotent(code: string)
    ensures WithDefaultExport(WithDefaultExport(code)) == WithDefaultExport(code)
  {
    var r := WithDefaultExport(code);
    if r != code {
      assert Contains(r, ExportDefault) by {
        ExportAppended(code, ExportedName(code, 0).value);
      }
    }
  }

  /** The appended export is found by `includes`. */
  lemma ExportAppended(code: string, name: string)
    ensures Contains(code + "\n\n" + ExportDefault + " " + name + ";", ExportDefault)
  {
    var r := code + "\n\n" + ExportDefault + " " + name + ";";
    assert r[|code| + 2..|code| + 2 + |ExportDefault|] == ExportDefault;
    assert OccursAt(r, ExportDefault, |code| + 2);
  }

  // ---------------------------------------------------------------------
  // Import names
  // ---------------------------------------------------------------------

  /** `componentId.replace(/-./g, x => x[1].toUpperCase())`: each hyphen
      and the character after it, taken left to right without overlap,
      become that character in upper case; `.` matches no line terminator. */
  function CamelCase(id: string): string
    decreases |id|
  {
    if id == [] then []
    else if |id| >= 2 && id[0] == '-' && !IsLineTerminator(id[1]) then [UpperChar(id[1])] + CamelCase(id[2..])
    else [id[0]] + CamelCase(id[1..])
  }

  /** The first character in upper case. */
  function Capitalize(s: string): (r: string)
    ensures |r| == |s|
  {
    if s == [] then [] else [UpperChar(s[0])] + s[1..]
  }

  /** `componentName.charAt(0).toUpperCase() + componentName.slice(1) + "Preview"` */
  function ImportName(id: string): string {
    Capitalize(CamelCase(id)) + "Preview"
  }

  /** The words, each capitalised, run together. */
  function Pascal(words: seq<string>): string
    decreases |words|
  {
    if words == [] then "" else Capitalize(words[0]) + Pascal(words[1..])
  }

  /** A word the hyphen rule leaves whole. */
  predicate PlainWord(w: string) {
    |w| > 0 && Free(w, '-') && !IsLineTerminator(w[0])
  }

  /** Text without hyphens passes through unchanged in front of the rest. */
  lemma {:induction false} CamelCasePlain(a: string, b: string)
    requires Free(a, '-')
    ensures CamelCase(a + b) == a + CamelCase(b)
    decreases |a|
  {
    if a != [] {
      assert (a + b)[1..] == a[1..] + b;
      CamelCasePlain(a[1..], b);
      assert a == [a[0]] + a[1..];
    } else {
      assert a + b == b;
    }
  }

  /** A hyphen followed by a word: the word comes out capitalised. */
  lemma HyphenWord(w: string, after: string)
    requires PlainWord(w)
    ensures CamelCase("-" + (w + after)) == Capitalize(w) + CamelCase(after)
  {
    var t := "-" + (w + after);
    assert CamelCase(t) == [UpperChar(w[0])] + CamelCase(t[2..]) by {
      assert t[0] == '-' && t[1] == w[0];
    }
    assert CamelCase(t[2..]) == w[1..] + CamelCase(after) by {
      assert t[2..] == w[1..] + after;
      CamelCasePlain(w[1..], after);
    }
  }

  /** Each hyphen-joined word after a hyphen comes out capitalised. */
  lemma {:induction false} CamelCaseHyphenated(words: seq<string>)
    requires |words| > 0 && forall k :: 0 <= k < |words| ==> PlainWord(words[k])
    ensures CamelCase("-" + Join(words, "-")) == Pascal(words)
    decreases |words|
  {
    var after := if |words| > 1 then "-" + Join(words[1..], "-") else "";
    assert CamelCase("-" + Join(words, "-")) == Capitalize(words[0]) + CamelCase(after) by {
      assert Join(words, "-") == words[0] + after;
      HyphenWord(words[0], after);
    }
    assert CamelCase(after) == Pascal(words[1..]) by {
      if |words| > 1 {
        CamelCaseHyphenated(words[1..]);
      }
    }
  }

  /** Hyphenated words become camel case: the first word stays, the others
      are capitalised. */
  lemma CamelCaseJoin(words: seq<string>)
    requires |words| > 0 && forall k :: 0 <= k < |words| ==> PlainWord(words[k])
    ensures CamelCase(Join(words, "-")) == words[0] + Pascal(words[1..])
  {
    if |words| == 1 {
      CamelCasePlain(words[0], []);
      assert words[0] + [] == words[0];
    } else {
      assert Join(words, "-") == words[0] + ("-" + Join(words[1..], "-"));
      CamelCasePlain(words[0], "-" + Join(words[1..], "-"));
      CamelCaseHyphenated(words[1..]);
    }
  }

  lemma CapitalizeAppend(a: string, b: string)
    requires |a| > 0
    ensures Capitalize(a + b) == Capitalize(a) + b
  {
    assert (a + b)[1..] == a[1..] + b;
  }

  /** The import name of a hyphenated id is its words, capitalised, followed
      by `Preview`. */
  lemma ImportNameOfWords(words: seq<string>)
    requires |words| > 0 && forall k :: 0 <= k < |words| ==> PlainWord(words[k])
    ensures ImportName(Join(words, "-")) == Pascal(words) + "Preview"
  {
    CamelCaseJoin(words);
    CapitalizeAppend(words[0], Pascal(words[1..]));
  }

  /** `alert-dialog` is imported as `AlertDialogPreview`. */
  lemma AlertDialogImportName(id: string)
    requires id == "alert-dialog"
    ensures ImportName(id) == "AlertDialogPreview"
  {
    var words := ["alert", "dialog"];
    assert Join(words, "-") == id by {
      assert words[1..] == ["dialog"];
    }
    assert Pascal(words) == "AlertDialog" by {
      assert words[1..] == ["dialog"];
      assert words[1..][1..] == [];
      assert Capitalize("alert") == "Alert";
      assert Capitalize("dialog") == "Dialog";
    }
    assert ImportName(Join(words, "-")) == Pascal(words) + "Preview" by {
      assert PlainWord(words[0]) && PlainWord(words[1]);
      ImportNameOfWords(words);
    }
  }

  // ---------------------------------------------------------------------
  // The records loop
  // ---------------------------------------------------------------------

  /** The directories the script writes component and preview files to. */
  datatype Dirs = Dirs(ui: string, previews: string)

  /** A file the script writes. */
  datatype Write = Write(path: string, content: string)

  /** What the records loop produces: the component files written, the
      preview files written, and the lines of `registryImports` and
      `registryMap`. */
  datatype Output = Output(components: seq<Write>, previews: seq<Write>, imports: seq<string>, entries: seq<string>)

  const NoOutput: Output := Output([], [], [], [])

  /** The error a record too short to have a preview column throws when
      `replace` is called on its missing preview. */
  const MissingPreviewError: string := "Cannot read properties of undefined (reading 'replace')"

  function ComponentPath(dirs: Dirs, id: string): string {
    dirs.ui + "/" + id + ".tsx"
  }

  function PreviewPath(dirs: Dirs, id: string): string {
    dirs.previews + "/" + id + "-preview.tsx"
  }

  function ImportLine(id: string): string {
    "import " + ImportName(id) + " from \"@/components/previews/" + id + "-preview\";"
  }

  function EntryLine(id: string): string {
    "  \"" + id + "\": " + ImportName(id) + ","
  }

  function Paths(writes: seq<Write>): (r: seq<string>)
    ensures |r| == |writes|
    ensures forall k :: 0 <= k < |writes| ==> r[k] == writes[k].path
    decreases |writes|
  {
    if writes == [] then [] else Paths(writes[..|writes| - 1]) + [writes[|writes| - 1].path]
  }

  /** A file exists when it existed before the script ran or the script has
      written it. */
  predicate Exists(path: string, existing: set<string>, prior: Output) {
    path in existing || path in Paths(prior.components) || path in Paths(prior.previews)
  }

  /** A record the loop skips: it has no component id. */
  predicate Skipped(row: seq<string>) {
    |row| == 0 || row[0] == ""
  }

  /** One pass of the `forEach` callback. */
  function Visit(prior: Output, row: seq<string>, dirs: Dirs, existing: set<string>): Result<Output> {
    if Skipped(row) then Ok(prior)
    else if |row| < 9 then Err(MissingPreviewError)
    else
      var id := row[0];
      var path := ComponentPath(dirs, id);
      var components :=
        if Exists(path, existing, prior) then prior.components
        else prior.components + [Write(path, StripTicks(row[7]))];
      Ok(Output(
        components,
        prior.previews + [Write(PreviewPath(dirs, id), WithDefaultExport(StripTicks(row[8])))],
        prior.imports + [ImportLine(id)],
        prior.entries + [EntryLine(id)]))
  }

  /** The whole `forEach`; the first record that throws stops the script. */
  function VisitAll(data: seq<seq<string>>, dirs: Dirs, existing: set<string>): Result<Output>
    decreases |data|
  {
    if data == [] then Ok(NoOutput)
    else
      var before := VisitAll(data[..|data| - 1], dirs, existing);
      if before.Ok? then Visit(before.value, data[|data| - 1], dirs, existing) else before
  }

  /** The component ids of the records the loop does not skip. */
  function Ids(data: seq<seq<string>>): seq<string>
    decreases |data|
  {
    if data == [] then []
    else
      var row := data[|data| - 1];
      Ids(data[..|data| - 1]) + if Skipped(row) then [] else [row[0]]
  }

  function ImportLines(ids: seq<string>): (r: seq<string>)
    ensures |r| == |ids|
    ensures forall k :: 0 <= k < |ids| ==> r[k] == ImportLine(ids[k])
    decreases |ids|
  {
    if ids == [] then [] else ImportLines(ids[..|ids| - 1]) + [ImportLine(ids[|ids| - 1])]
  }

  /** Every record with a component id has a preview column. */
  predicate Complete(data: seq<seq<string>>) {
    forall k :: 0 <= k < |data| && !Skipped(data[k]) ==> |data[k]| >= 9
  }

  /** The loop finishes exactly when every record with an id has a preview
      column. */
  lemma {:induction false} VisitAllOk(data: seq<seq<string>>, dirs: Dirs, existing: set<string>)
    ensures VisitAll(data, dirs, existing).Ok? <==> Complete(data)
    decreases |data|
  {
    if data != [] {
      var init := data[..|data| - 1];
      VisitAllOk(init, dirs, existing);
      assert forall k :: 0 <= k < |init| ==> init[k] == data[k];
    }
  }

  /** A record with an id and a preview column adds one preview, one import
      line and one registry entry. */
  lemma VisitAdds(prior: Output, row: seq<string>, dirs: Dirs, existing: set<string>)
    requires !Skipped(row) && |row| >= 9
    ensures Visit(prior, row, dirs, existing).Ok?
    ensures Visit(prior, row, dirs, existing).value.imports == prior.imports + [ImportLine(row[0])]
    ensures |Visit(prior, row, dirs, existing).value.previews| == |prior.previews| + 1
    ensures |Visit(prior, row, dirs, existing).value.entries| == |prior.entries| + 1
  {
  }

  lemma ImportLinesAppend(ids: seq<string>, id: string)
    ensures ImportLines(ids + [id]) == ImportLines(ids) + [ImportLine(id)]
  {
    assert (ids + [id])[..|ids|] == ids;
  }

  /** A finished loop has written one preview, one import line and one
      registry entry per record with an id, the import lines in record
      order. */
  lemma {:induction false} VisitAllLines(data: seq<seq<string>>, dirs: Dirs, existing: set<string>)
    requires VisitAll(data, dirs, existing).Ok?
    ensures VisitAll(data, dirs, existing).value.imports == ImportLines(Ids(data))
    ensures |VisitAll(data, dirs, existing).value.previews| == |Ids(data)|
    ensures |VisitAll(data, dirs, existing).value.entries| == |Ids(data)|
    decreases |data|
  {
    if data != [] {
      var init := data[..|data| - 1];
      var row := data[|data| - 1];
      var prior := VisitAll(init, dirs, existing).value;
      VisitAllLines(init, dirs, existing);
      if !Skipped(row) {
        VisitAdds(prior, row, dirs, existing);
        ImportLinesAppend(Ids(init), row[0]);
      }
    }
  }

  /** A finished loop has written each component file at most once and
      never over a file that existed before the script ran. */
  lemma {:induction false} VisitAllNoOverwrite(data: seq<seq<string>>, dirs: Dirs, existing: set<string>)
    requires VisitAll(data, dirs, existing).Ok?
    ensures NoDuplicates(Paths(VisitAll(data, dirs, existing).value.components))
    ensures forall p :: p in Paths(VisitAll(data, dirs, existing).value.components) ==> p !in existing
    decreases |data|
  {
    if data != [] {
      var init := data[..|data| - 1];
      var row := data[|data| - 1];
      VisitAllNoOverwrite(init, dirs, existing);
      var prior := VisitAll(init, dirs, existing).value;
      if !Skipped(row) {
        var path := ComponentPath(dirs, row[0]);
        if !Exists(path, existing, prior) {
          var r := Visit(prior, row, dirs, existing).value;
          assert Paths(r.components) == Paths(prior.components) + [path] by {
            assert r.components[..|r.components| - 1] == prior.components;
          }
        }
      }
    }
  }

  /** The text written to components/registry.tsx. */
  function Registry(prior: Output): string {
    "import React from \"react\";\n\n" + Join(prior.imports, "\n")
    + "\n\nexport const REGISTRY: Record<string, React.ComponentType> = {\n" + Join(prior.entries, "\n") + "\n};\n"
  }

  /** The files the script writes and the registry text, after the header
      record is skipped. */
  function Generate(text: string, dirs: Dirs, existing: set<string>): Result<(Output, string)> {
    var r := VisitAll(Body(Records(text)), dirs, existing);
    if r.Ok? then Ok((r.value, Registry(r.value))) else Err(r.message)
  }

  /** The records after the header record. */
  function Body(rows: seq<seq<string>>): seq<seq<string>> {
    if |rows| > 0 then rows[1..] else []
  }

  /** The script fails, with the error of a missing preview column, exactly
      when a record after the header has an id and fewer than nine fields;
      otherwise the registry imports one preview per such record, in
      order. */
  lemma GenerateSpec(text: string, dirs: Dirs, existing: set<string>)
    ensures Generate(text, dirs, existing).Ok? <==> Complete(Body(Records(text)))
    ensures Generate(text, dirs, existing).Err? ==> Generate(text, dirs, existing).message == MissingPreviewError
    ensures Generate(text, dirs, existing).Ok? ==>
              var (written, registry) := Generate(text, dirs, existing).value;
              registry == Registry(written) && written.imports == ImportLines(Ids(Body(Records(text))))
  {
    var data := Body(Records(text));
    VisitAllOk(data, dirs, existing);
    VisitAllError(data, dirs, existing);
    if VisitAll(data, dirs, existing).Ok? {
      VisitAllLines(data, dirs, existing);
    }
  }

  /** The only error the loop raises is the missing preview column. */
  lemma {:induction false} VisitAllError(data: seq<seq<string>>, dirs: Dirs, existing: set<string>)
    ensures VisitAll(data, dirs, existing).Err? ==> VisitAll(data, dirs, existing).message == MissingPreviewError
    decreases |data|
  {
    if data != [] {
      VisitAllError(data[..|data| - 1], dirs, existing);
    }
  }

  /** Once a record throws, the loop stays stopped with that error. */
  lemma {:induction false} VisitAllStopped(data: seq<seq<string>>, n: nat, dirs: Dirs, existing: set<string>)
    requires n <= |data| && VisitAll(data[..n], dirs, existing).Err?
    ensures VisitAll(data, dirs, existing) == VisitAll(data[..n], dirs, existing)
    decreases |data| - n
  {
    if n < |data| {
      VisitAllStep(data, n, dirs, existing);
      VisitAllStopped(data, n + 1, dirs, existing);
    } else {
      assert data[..n] == data;
    }
  }

  lemma VisitAllStep(data: seq<seq<string>>, n: nat, dirs: Dirs, existing: set<string>)
    requires n < |data|
    ensures VisitAll(data[..n + 1], dirs, existing) ==
            var before := VisitAll(data[..n], dirs, existing);
            if before.Ok? then Visit(before.value, data[n], dirs, existing) else before
  {
    assert data[..n + 1][..n] == data[..n];
  }

  /** The `forEach` over the records after the header: the arrays are
      pushed to record by record, and a record that throws ends the run. */
  method VisitRecords(data: seq<seq<string>>, dirs: Dirs, existing: set<string>) returns (r: Result<Output>)
    ensures r == VisitAll(data, dirs, existing)
  {
    var components: seq<Write> := [];
    var previews: seq<Write> := [];
    var registryImports: seq<string> := [];
    var registryMap: seq<string> := [];
    for n := 0 to |data|
      invariant VisitAll(data[..n], dirs, existing) == Ok(Output(components, previews, registryImports, registryMap))
    {
      VisitAllStep(data, n, dirs, existing);
      var row := data[n];
      if !Skipped(row) {
        if |row| < 9 {
          VisitAllStopped(data, n + 1, dirs, existing);
          return Err(MissingPreviewError);
        }
        var componentId := row[0];
        var componentFile := ComponentPath(dirs, componentId);
        if !(componentFile in existing || componentFile in Paths(components) || componentFile in Paths(previews)) {
          components := components + [Write(componentFile, StripTicks(row[7]))];
        }
        previews := previews + [Write(PreviewPath(dirs, componentId), WithDefaultExport(StripTicks(row[8])))];
        registryImports := registryImports + [ImportLine(componentId)];
        registryMap := registryMap + [EntryLine(componentId)];
      }
    }
    assert data[..|data|] == data;
    r := Ok(Output(components, previews, registryImports, registryMap));
  }
}
