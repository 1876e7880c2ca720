/** Field decoding shared, word for word, by the catalogue seeding scripts
    scripts/deploy-to-convex.ts and scripts/import-csv.ts: a CSV record
    read with named columns, JSON-valued columns decoded with a default,
    tag and extra-file lists, and booleans. */
module CsvFields {
  import opened Wrappers
  import opened Strings

  /** A CSV record read with `columns: true`: column name to cell text.  A
      column the record does not reach is absent (`undefined`). */
  type Row = map<string, string>

  /** `row[name]` */
  function Field(row: Row, name: string): Option<string> {
    if name in row then Some(row[name]) else None
  }

  /** `!field || field.trim() === '' || field === 'null' || field === 'undefined'` */
  predicate BlankJson(field: Option<string>) {
    match field
    case None => true
    case Some(f) => f == "" || Trim(f) == "" || f == "null" || f == "undefined"
  }

  /** `parseJSONField(field, defaultValue)`: the default for a blank field
      or one that does not parse; otherwise the value parsed after each
      doubled quote `""` becomes `"`.  `parse` is `JSON.parse` at the
      type the caller expects, `None` when it throws. */
  function ParseJsonField<T(==)>(field: Option<string>, default: T, parse: string -> Option<T>): (r: T)
    ensures BlankJson(field) ==> r == default
    ensures r != default ==> !BlankJson(field) && parse(ReplaceAll(field.value, "\"\"", "\"")) == Some(r)
    ensures !BlankJson(field) && parse(ReplaceAll(field.value, "\"\"", "\"")).None? ==> r == default
    ensures !BlankJson(field) && parse(ReplaceAll(field.value, "\"\"", "\"")).Some? ==>
              r == parse(ReplaceAll(field.value, "\"\"", "\"")).value
  {
    if BlankJson(field) then default
    else
      match parse(ReplaceAll(field.value, "\"\"", "\""))
      case Some(v) => v
      case None => default
  }

  /** `parseTags(tagsStr)`: the decoded list, or `None` when it is empty. */
  function ParseTags(tags: Option<string>, parse: string -> Option<seq<string>>): (r: Option<seq<string>>)
    ensures r.Some? ==> |r.value| > 0
    ensures r.Some? ==> !BlankJson(tags) && parse(ReplaceAll(tags.value, "\"\"", "\"")) == r
    ensures BlankJson(tags) ==> r.None?
    ensures !BlankJson(tags) && parse(ReplaceAll(tags.value, "\"\"", "\"")).Some?
            && |parse(ReplaceAll(tags.value, "\"\"", "\"")).value| > 0 ==>
              r == parse(ReplaceAll(tags.value, "\"\"", "\""))
  {
    var parsed := ParseJsonField(tags, [], parse);
    if |parsed| > 0 then Some(parsed) else None
  }

  /** An entry of the `files` column: `{ path, type?, content? }`. */
  datatype FileEntry = FileEntry(path: Option<string>, fileType: Option<string>, content: Option<string>)

  /** An extra file kept with a component. */
  datatype ExtraFile = ExtraFile(path: string, content: string)

  /** `file.path && file.type !== 'registry:ui'` */
  predicate KeepFile(f: FileEntry) {
    f.path.Some? && f.path.value != "" && f.fileType != Some("registry:ui")
  }

  /** The kept entries, in order, with missing content read as "". */
  function ExtraFiles(entries: seq<FileEntry>): (r: seq<ExtraFile>)
    ensures |r| <= |entries|
    ensures forall k :: 0 <= k < |r| ==> r[k].path != ""
  {
    if entries == [] then []
    else
      var rest := ExtraFiles(entries[1..]);
      var f := entries[0];
      if KeepFile(f) then [ExtraFile(f.path.value, f.content.GetOr(""))] + rest else rest
  }

  /** Exactly the kept entries become extra files, each with its path and
      its content or "". */
  lemma {:induction false} ExtraFilesSpec(entries: seq<FileEntry>)
    ensures forall f :: f in entries && KeepFile(f) ==> ExtraFile(f.path.value, f.content.GetOr("")) in ExtraFiles(entries)
    ensures forall x :: x in ExtraFiles(entries) ==>
              exists f :: f in entries && KeepFile(f) && x == ExtraFile(f.path.value, f.content.GetOr(""))
    decreases |entries|
  {
    if entries != [] {
      ExtraFilesSpec(entries[1..]);
      assert entries == [entries[0]] + entries[1..];
    }
  }

  /** The filter and map work entry by entry: the extra files of a
      concatenation are those of each part in turn, and a single entry
      gives its own file exactly when it is kept. */
  lemma {:induction false} ExtraFilesAppend(a: seq<FileEntry>, b: seq<FileEntry>)
    ensures ExtraFiles(a + b) == ExtraFiles(a) + ExtraFiles(b)
    ensures |a| == 1 ==> ExtraFiles(a) == if KeepFile(a[0]) then [ExtraFile(a[0].path.value, a[0].content.GetOr(""))] else []
    decreases |a|
  {
    if a == [] {
      assert a + b == b;
    } else {
      var f := a[0];
      var head := if KeepFile(f) then [ExtraFile(f.path.value, f.content.GetOr(""))] else [];
      assert (a + b)[0] == f;
      assert (a + b)[1..] == a[1..] + b;
      assert ExtraFiles(a + b) == head + ExtraFiles(a[1..] + b);
      assert ExtraFiles(a) == head + ExtraFiles(a[1..]);
      ExtraFilesAppend(a[1..], b);
      assert head + (ExtraFiles(a[1..]) + ExtraFiles(b)) == (head + ExtraFiles(a[1..])) + ExtraFiles(b);
    }
  }

  /** `parseFiles(filesStr)`: the extra files, or `None` when none is kept. */
  function ParseFiles(files: Option<string>, parse: string -> Option<seq<FileEntry>>): (r: Option<seq<ExtraFile>>)
    ensures r.Some? ==> |r.value| > 0 && forall k :: 0 <= k < |r.value| ==> r.value[k].path != ""
    ensures r.Some? ==> forall x :: x in r.value ==>
              exists f :: f in ParseJsonField(files, [], parse) && KeepFile(f) && x.path == f.path.value
    ensures BlankJson(files) ==> r.None?
    ensures r.Some? <==> |ExtraFiles(ParseJsonField(files, [], parse))| > 0
    ensures r.Some? ==> r.value == ExtraFiles(ParseJsonField(files, [], parse))
  {
    var parsed := ParseJsonField(files, [], parse);
    ExtraFilesSpec(parsed);
    if |parsed| == 0 then None
    else
      var kept := ExtraFiles(parsed);
      if |kept| > 0 then Some(kept) else None
  }

  /** The components a transformation loop keeps, in record order: the
      successful results that pass the required-field check `keep`. */
  function Kept<C>(results: seq<Result<C>>, keep: C -> bool): seq<C>
    decreases |results|
  {
    if results == [] then []
    else
      var init := Kept(results[..|results| - 1], keep);
      match results[|results| - 1]
      case Ok(c) => if keep(c) then init + [c] else init
      case Err(_) => init
  }

  /** A component is kept exactly when some record transforms to it and it
      passes the check; no more components than records are kept. */
  lemma {:induction false} KeptSpec<C>(results: seq<Result<C>>, keep: C -> bool)
    ensures |Kept(results, keep)| <= |results|
    ensures forall c :: c in Kept(results, keep) <==> keep(c) && Ok(c) in results
    decreases |results|
  {
    if results != [] {
      var init := results[..|results| - 1];
      KeptSpec(init, keep);
      var t := results[|results| - 1];
      assert results == init + [t];
    }
  }

  /** One more result adds its component at the end exactly when it is
      kept. */
  lemma KeptStep<C>(results: seq<Result<C>>, r: Result<C>, keep: C -> bool)
    ensures Kept(results + [r], keep) == if r.Ok? && keep(r.value) then Kept(results, keep) + [r.value] else Kept(results, keep)
  {
    assert (results + [r])[..|results|] == results;
  }

  /** `parseBoolean(value)`: `value?.toUpperCase() === 'TRUE' || value === 'true' || value === '1'` */
  function ParseBoolean(value: Option<string>): bool {
    match value
    case None => false
    case Some(v) => Upper(v) == "TRUE" || v == "true" || v == "1"
  }

  /** The `'true'` test is subsumed by the upper-casing test: the value is
      true exactly for a case-insensitive "true" or for "1". */
  lemma ParseBooleanSpec(value: Option<string>)
    ensures ParseBoolean(value) <==> value.Some? && (Upper(value.value) == "TRUE" || value.value == "1")
    ensures ParseBoolean(Some("True")) && ParseBoolean(Some("tRuE")) && !ParseBoolean(Some("yes"))
  {
    assert Upper("true") == "TRUE";
    assert Upper("True") == "TRUE";
    assert Upper("tRuE") == "TRUE";
    assert Upper("yes") != "TRUE" by { assert |Upper("yes")| == 3; }
  }
}
