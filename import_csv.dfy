/** The bulk import script scripts/import-csv.ts: it turns each CSV record
    into a catalogue component, drops records that throw or lack a required
    field, and sends the rest to the backend in batches of fifty. */
module ImportCsv {
  import opened Wrappers
  import opened Strings
  import opened OrderedMaps
  import CsvFields
  import DependencyScan

  // ---------------------------------------------------------------------
  // parseDependencies
  // ---------------------------------------------------------------------

  /** The position of the `@` that `/^(.+)@(.+)$/` splits at, searching
      down from `i`: the greedy first group makes it the last `@` that
      leaves at least one character on each side. */
  function SplitPoint(dep: string, i: int): (r: Option<nat>)
    requires i < |dep|
    ensures r.Some? ==> 1 <= r.value <= i && dep[r.value] == '@'
    ensures r.Some? ==> forall k :: r.value < k <= i ==> dep[k] != '@'
    ensures r.None? ==> forall k :: 1 <= k <= i ==> dep[k] != '@'
    decreases i
  {
    if i < 1 then None
    else if dep[i] == '@' then Some(i)
    else SplitPoint(dep, i - 1)
  }

  /** `dep.match(/^(.+)@(.+)$/)`: the name and version it captures; `.`
      matches no line terminator, so a text holding one never matches. */
  function SplitVersion(dep: string): (r: Option<(string, string)>)
    ensures r.Some? ==> dep == r.value.0 + "@" + r.value.1 && |r.value.0| > 0 && |r.value.1| > 0
    ensures r.Some? ==> Free(r.value.1[..|r.value.1| - 1], '@')
    ensures r.None? <==> !AllIn(dep, NotLineTerminator) || forall k :: 1 <= k < |dep| - 1 ==> dep[k] != '@'
  {
    if !AllIn(dep, NotLineTerminator) || |dep| < 3 then None
    else match SplitPoint(dep, |dep| - 2)
      case Some(i) =>
        var name := dep[..i];
        var version := dep[i + 1..];
        assert dep == name + "@" + version;
        assert forall k :: 0 <= k < |version| - 1 ==> version[k] == dep[i + 1 + k];
        Some((name, version))
      case None => None
  }

  predicate NotLineTerminator(c: char) {
    !IsLineTerminator(c)
  }

  /** The search finds an `@` with none between it and the start point. */
  lemma {:induction false} SplitPointFinds(dep: string, i: int, p: nat)
    requires i < |dep| && 1 <= p <= i && dep[p] == '@'
    requires forall k :: p < k <= i ==> dep[k] != '@'
    ensures SplitPoint(dep, i) == Some(p)
    decreases i
  {
    if i != p {
      SplitPointFinds(dep, i - 1, p);
    }
  }

  /** A name and a version without `@` split back apart. */
  lemma SplitVersionOf(name: string, version: string)
    requires |name| > 0 && |version| > 0 && Free(version, '@')
    requires AllIn(name + "@" + version, NotLineTerminator)
    ensures SplitVersion(name + "@" + version) == Some((name, version))
  {
    var dep := name + "@" + version;
    assert dep[|name|] == '@';
    assert forall k :: |name| < k < |dep| ==> dep[k] == version[k - |name| - 1];
    SplitPointFinds(dep, |dep| - 2, |name|);
    assert dep[..|name|] == name;
    assert dep[|name| + 1..] == version;
  }

  /** A scoped package without a version has no `@` past its first
      character, so it is not split. */
  lemma ScopedNameNotSplit(dep: string)
    requires |dep| > 0 && dep[0] == '@' && Free(dep[1..], '@')
    ensures SplitVersion(dep) == None
  {
    assert forall k :: 1 <= k < |dep| ==> dep[k] == dep[1..][k - 1];
  }

  /** The record entry an item of the list contributes. */
  function EntryOf(dep: string): (string, string) {
    match SplitVersion(dep)
    case Some((name, version)) => (name, version)
    case None => (dep, "latest")
  }

  /** The record after the given items, each string item setting its entry
      (`deps[name] = version`) and other items ignored. */
  function AddEntries(acc: Entries<string, string>, items: seq<Option<string>>): Entries<string, string>
    decreases |items|
  {
    if items == [] then acc
    else
      var m := AddEntries(acc, items[..|items| - 1]);
      match items[|items| - 1]
      case Some(dep) => Set(m, EntryOf(dep).0, EntryOf(dep).1)
      case None => m
  }

  /** The version of the last string item naming `name`. */
  function LastVersion(items: seq<Option<string>>, name: string): Option<string>
    decreases |items|
  {
    if items == [] then None
    else match items[|items| - 1]
      case Some(dep) =>
        if EntryOf(dep).0 == name then Some(EntryOf(dep).1) else LastVersion(items[..|items| - 1], name)
      case None => LastVersion(items[..|items| - 1], name)
  }

  /** Every name appears once, with the version of the last item naming it;
      a later item overrides an earlier one. */
  lemma {:induction false} AddEntriesSpec(items: seq<Option<string>>, name: string)
    ensures Valid(AddEntries([], items))
    ensures Get(AddEntries([], items), name) == LastVersion(items, name)
    decreases |items|
  {
    if items != [] {
      var init := items[..|items| - 1];
      AddEntriesSpec(init, name);
      match items[|items| - 1]
      case Some(dep) => SetGet(AddEntries([], init), EntryOf(dep).0, EntryOf(dep).1, name);
      case None =>
    }
  }

  /** `parseDependencies(depsStr)` as a value: `None` when the list is
      empty or holds no string. */
  function DependencyEntries(field: Option<string>, parse: string -> Option<seq<Option<string>>>): Option<Entries<string, string>> {
    var parsed := CsvFields.ParseJsonField(field, [], parse);
    if |parsed| == 0 then None
    else
      var deps := AddEntries([], parsed);
      if |deps| > 0 then Some(deps) else None
  }

  /** A record is produced exactly when some item is a string. */
  lemma DependencyEntriesSome(field: Option<string>, parse: string -> Option<seq<Option<string>>>)
    ensures DependencyEntries(field, parse).Some? <==>
            exists i :: 0 <= i < |CsvFields.ParseJsonField(field, [], parse)| && CsvFields.ParseJsonField(field, [], parse)[i].Some?
  {
    var parsed := CsvFields.ParseJsonField(field, [], parse);
    AddEntriesNonEmpty(parsed);
  }

  lemma {:induction false} AddEntriesNonEmpty(items: seq<Option<string>>)
    ensures |AddEntries([], items)| > 0 <==> exists i :: 0 <= i < |items| && items[i].Some?
    decreases |items|
  {
    if items != [] {
      var init := items[..|items| - 1];
      AddEntriesNonEmpty(init);
      var m := AddEntries([], init);
      match items[|items| - 1]
      case Some(dep) =>
        assert |Keys(Set(m, EntryOf(dep).0, EntryOf(dep).1))| > 0;
      case None =>
        assert forall i :: 0 <= i < |init| ==> init[i] == items[i];
    }
  }

  lemma AddEntriesStep(items: seq<Option<string>>, i: nat)
    requires i < |items|
    ensures AddEntries([], items[..i + 1]) ==
            match items[i]
            case Some(dep) => Set(AddEntries([], items[..i]), EntryOf(dep).0, EntryOf(dep).1)
            case None => AddEntries([], items[..i])
  {
    assert items[..i + 1][..i] == items[..i];
  }

  /** `parseDependencies(depsStr)`, with its `for ... of` loop. `parse` is
      `JSON.parse` of a list whose string items are `Some`. */
  method ParseDependencies(field: Option<string>, parse: string -> Option<seq<Option<string>>>)
    returns (r: Option<Entries<string, string>>)
    ensures r == DependencyEntries(field, parse)
  {
    var parsed := CsvFields.ParseJsonField(field, [], parse);
    if |parsed| == 0 {
      return None;
    }
    var deps: Entries<string, string> := [];
    for i := 0 to |parsed|
      invariant deps == AddEntries([], parsed[..i])
    {
      AddEntriesStep(parsed, i);
      match parsed[i] {
        case Some(dep) =>
          var entry := EntryOf(dep);
          deps := Set(deps, entry.0, entry.1);
        case None =>
      }
    }
    assert parsed[..|parsed|] == parsed;
    r := if |deps| > 0 then Some(deps) else None;
  }

  // ---------------------------------------------------------------------
  // cleanCode
  // ---------------------------------------------------------------------

  /** `cleanCode(code)` of this script: unlike the other scripts it strips
      no backtick pair. */
  function CleanCode(code: string): (r: string)
    ensures IsTrimmed(r)
  {
    Trim(ReplaceAll(DependencyScan.FixBacktickQuotes(Trim(code)), "\"\"", "\""))
  }

  /** Text wrapped in a backtick pair, holding no quote. */
  predicate PlainBody(body: string) {
    |body| > 0 && IsTrimmed(body) && Free(body, '`') && Free(body, '"')
  }

  /** Text without quotes holds no doubled quote. */
  lemma NoDoubledQuote(s: string)
    requires Free(s, '"')
    ensures !Contains(s, "\"\"")
  {
    forall i | 0 <= i <= |s| - 2 ensures !OccursAt(s, "\"\"", i) {
      assert s[i..i + 2][0] == s[i];
    }
  }

  /** The wrapped text is trimmed and free of quotes. */
  lemma WrappedShape(body: string)
    requires PlainBody(body)
    ensures var s := "`" + body + "`";
            IsTrimmed(s) && Free(s, '"') && s[1] == body[0] && s[|s| - 2] == body[|body| - 1]
  {
    var s := "`" + body + "`";
    forall k | 0 <= k < |s| ensures s[k] != '"' {
      if 0 < k < |s| - 1 { assert s[k] == body[k - 1]; }
    }
  }

  /** Text whose second and last characters are not quotes has no
      backtick-quote pair to fix. */
  lemma FixKeeps(s: string)
    requires |s| >= 2 && s[1] != '"' && s[|s| - 1] != '"'
    ensures DependencyScan.FixBacktickQuotes(s) == s
  {
    assert !StartsWith(s, "`\"") by { assert s[..2][1] == s[1]; }
    assert !EndsWith(s, "`\"") by { assert s[|s| - 2..][1] == s[|s| - 1]; }
  }

  /** Trimmed text without doubled quotes comes out of both cleaning steps
      unchanged. */
  lemma UndoubleTrimmed(s: string)
    requires IsTrimmed(s) && Free(s, '"')
    ensures Trim(ReplaceAll(s, "\"\"", "\"")) == s
  {
    NoDoubledQuote(s);
    ReplaceAllAbsent(s, "\"\"", "\"");
    TrimOfTrimmed(s);
  }

  /** Trimmed text of two or more characters without quotes is clean. */
  lemma CleanCodeKeeps(s: string)
    requires |s| >= 2 && IsTrimmed(s) && Free(s, '"')
    ensures CleanCode(s) == s
  {
    var t := Trim(s);
    assert t == s by { TrimOfTrimmed(s); }
    var f := DependencyScan.FixBacktickQuotes(t);
    assert f == s by { FixKeeps(s); }
    assert Trim(ReplaceAll(f, "\"\"", "\"")) == s by { UndoubleTrimmed(s); }
  }

  /** Code wrapped in backticks keeps them here. */
  lemma KeepsBacktickPair(body: string)
    requires PlainBody(body)
    ensures CleanCode("`" + body + "`") == "`" + body + "`"
  {
    WrappedShape(body);
    CleanCodeKeeps("`" + body + "`");
  }

  /** The dependency scripts strip the same pair. */
  lemma DependencyScriptsStripBacktickPair(body: string)
    requires PlainBody(body)
    ensures DependencyScan.CleanCode("`" + body + "`") == body
  {
    var s := "`" + body + "`";
    WrappedShape(body);
    TrimOfTrimmed(s);
    DependencyScan.StripsOuterPairOnly(body);
    UndoubleTrimmed(body);
  }

  // ---------------------------------------------------------------------
  // transformRow and the required-field filter
  // ---------------------------------------------------------------------

  /** `ParsedComponent` */
  datatype Component = Component(
    componentId: string,
    name: string,
    description: string,
    category: string,
    code: string,
    previewCode: string,
    tags: Option<seq<string>>,
    dependencies: Option<Entries<string, string>>,
    isPublic: bool,
    extraFiles: Option<seq<CsvFields.ExtraFile>>)

  /** The `JSON.parse` instances the script relies on. */
  datatype Parsers = Parsers(
    tags: string -> Option<seq<string>>,
    dependencies: string -> Option<seq<Option<string>>>,
    files: string -> Option<seq<CsvFields.FileEntry>>)

  /** The columns `transformRow` calls `trim` on, directly or through
      `cleanCode`: a record missing one of them throws. */
  predicate Readable(row: CsvFields.Row) {
    "componentId" in row && "name" in row && "description" in row && "category" in row
    && "code" in row && "previewCode" in row
  }

  const MissingColumnError: string := "Cannot read properties of undefined (reading 'trim')"

  /** `transformRow(row)` */
  function Transform(row: CsvFields.Row, parsers: Parsers): (r: Result<Component>)
    ensures r.Err? <==> !Readable(row)
    ensures r.Ok? ==> IsTrimmed(r.value.componentId) && IsTrimmed(r.value.name)
                      && IsTrimmed(r.value.description) && IsTrimmed(r.value.category)
                      && IsTrimmed(r.value.code) && IsTrimmed(r.value.previewCode)
    ensures r.Ok? && r.value.tags.Some? ==> |r.value.tags.value| > 0
    ensures r.Ok? && r.value.dependencies.Some? ==> |r.value.dependencies.value| > 0
    ensures r.Ok? ==>
              var c := r.value;
              c.componentId == Trim(row["componentId"]) && c.name == Trim(row["name"])
              && c.description == Trim(row["description"]) && c.category == Trim(row["category"])
              && c.code == CleanCode(row["code"]) && c.previewCode == CleanCode(row["previewCode"])
              && c.tags == CsvFields.ParseTags(CsvFields.Field(row, "tags"), parsers.tags)
              && c.dependencies == DependencyEntries(CsvFields.Field(row, "dependencies"), parsers.dependencies)
              && c.isPublic == CsvFields.ParseBoolean(CsvFields.Field(row, "isPublic"))
              && c.extraFiles == CsvFields.ParseFiles(CsvFields.Field(row, "files"), parsers.files)
  {
    if !Readable(row) then Err(MissingColumnError)
    else
      Ok(Component(
        Trim(row["componentId"]), Trim(row["name"]), Trim(row["description"]), Trim(row["category"]),
        CleanCode(row["code"]), CleanCode(row["previewCode"]),
        CsvFields.ParseTags(CsvFields.Field(row, "tags"), parsers.tags),
        DependencyEntries(CsvFields.Field(row, "dependencies"), parsers.dependencies),
        CsvFields.ParseBoolean(CsvFields.Field(row, "isPublic")),
        CsvFields.ParseFiles(CsvFields.Field(row, "files"), parsers.files)))
  }

  /** `transformRow(row)`, calling the `parseDependencies` loop. */
  method TransformRow(row: CsvFields.Row, parsers: Parsers) returns (r: Result<Component>)
    ensures r == Transform(row, parsers)
  {
    if !Readable(row) {
      return Err(MissingColumnError);
    }
    var dependencies := ParseDependencies(CsvFields.Field(row, "dependencies"), parsers.dependencies);
    r := Ok(Component(
      Trim(row["componentId"]), Trim(row["name"]), Trim(row["description"]), Trim(row["category"]),
      CleanCode(row["code"]), CleanCode(row["previewCode"]),
      CsvFields.ParseTags(CsvFields.Field(row, "tags"), parsers.tags),
      dependencies,
      CsvFields.ParseBoolean(CsvFields.Field(row, "isPublic")),
      CsvFields.ParseFiles(CsvFields.Field(row, "files"), parsers.files)));
  }

  /** `component.componentId && component.name && component.code && component.previewCode` */
  predicate HasRequiredFields(c: Component) {
    c.componentId != "" && c.name != "" && c.code != "" && c.previewCode != ""
  }

  /** The results of `transformRow` over the records. */
  function Results(rows: seq<CsvFields.Row>, parsers: Parsers): (r: seq<Result<Component>>)
    ensures |r| == |rows|
    decreases |rows|
  {
    if rows == [] then [] else Results(rows[..|rows| - 1], parsers) + [Transform(rows[|rows| - 1], parsers)]
  }

  lemma ResultsStep(rows: seq<CsvFields.Row>, n: nat, parsers: Parsers)
    requires n < |rows|
    ensures Results(rows[..n + 1], parsers) == Results(rows[..n], parsers) + [Transform(rows[n], parsers)]
  {
    assert rows[..n + 1][..n] == rows[..n];
  }

  /** The transformation loop of `main`. */
  method TransformRows(rows: seq<CsvFields.Row>, parsers: Parsers) returns (components: seq<Component>)
    ensures components == CsvFields.Kept(Results(rows, parsers), HasRequiredFields)
  {
    components := [];
    for n := 0 to |rows|
      invariant components == CsvFields.Kept(Results(rows[..n], parsers), HasRequiredFields)
    {
      var r := TransformRow(rows[n], parsers);
      ResultsStep(rows, n, parsers);
      CsvFields.KeptStep(Results(rows[..n], parsers), r, HasRequiredFields);
      if r.Ok? && HasRequiredFields(r.value) {
        components := components + [r.value];
      }
    }
    assert rows[..|rows|] == rows;
  }

  // ---------------------------------------------------------------------
  // Batches
  // ---------------------------------------------------------------------

  const BatchSize: nat := 50

  /** `components.slice(i, i + size)` for `i = 0, size, 2 * size, …`. */
  function Batches<T>(s: seq<T>, size: nat): (r: seq<seq<T>>)
    requires size > 0
    ensures forall k :: 0 <= k < |r| ==> 0 < |r[k]| <= size
    decreases |s|
  {
    if s == [] then []
    else if |s| <= size then [s]
    else [s[..size]] + Batches(s[size..], size)
  }

  function Flatten<T>(parts: seq<seq<T>>): seq<T>
    decreases |parts|
  {
    if parts == [] then [] else parts[0] + Flatten(parts[1..])
  }

  /** The batches cover the list in order, and there are
      `Math.ceil(n / size)` of them. */
  lemma {:induction false} BatchesSpec<T>(s: seq<T>, size: nat)
    requires size > 0
    ensures Flatten(Batches(s, size)) == s
    ensures |s| <= |Batches(s, size)| * size
    ensures |Batches(s, size)| > 0 ==> (|Batches(s, size)| - 1) * size < |s|
    ensures forall k :: 0 <= k < |Batches(s, size)| - 1 ==> |Batches(s, size)[k]| == size
    decreases |s|
  {
    if s != [] {
      if |s| <= size {
        assert Batches(s, size) == [s];
        assert Flatten([s]) == s + Flatten([s][1..]);
      } else {
        var rest := Batches(s[size..], size);
        BatchesSpec(s[size..], size);
        assert Batches(s, size) == [s[..size]] + rest;
        assert ([s[..size]] + rest)[1..] == rest;
        assert s[..size] + s[size..] == s;
        assert rest != [];
        MulStep(|rest|, size);
        forall k | 1 <= k < |Batches(s, size)| - 1
          ensures |Batches(s, size)[k]| == size
        {
          assert Batches(s, size)[k] == rest[k - 1];
        }
      }
    }
  }

  lemma MulStep(b: int, size: int)
    ensures (b + 1) * size == b * size + size
    ensures (b - 1) * size == b * size - size
  {
  }

  /** The outcome the backend reports for batch `k`: its inserted and
      skipped counts, or `None` when the mutation throws. */
  type Outcomes = nat -> Option<(nat, nat)>

  /** Inserted and skipped totals over the batches from number `k` on. */
  function Totals(batches: seq<seq<Component>>, outcome: Outcomes, k: nat): (nat, nat)
    decreases |batches|
  {
    if batches == [] then (0, 0)
    else
      var rest := Totals(batches[1..], outcome, k + 1);
      match outcome(k)
      case Some((ins, skp)) => (rest.0 + ins, rest.1 + skp)
      case None => rest
  }

  /** The number of components in batches whose mutation threw. */
  function Lost(batches: seq<seq<Component>>, outcome: Outcomes, k: nat): nat
    decreases |batches|
  {
    if batches == [] then 0
    else Lost(batches[1..], outcome, k + 1) + (if outcome(k).None? then |batches[0]| else 0)
  }

  /** Each successful outcome accounts for its whole batch. */
  predicate Accounted(batches: seq<seq<Component>>, outcome: Outcomes, k: nat) {
    forall j :: 0 <= j < |batches| && outcome(k + j).Some? ==>
      outcome(k + j).value.0 + outcome(k + j).value.1 == |batches[j]|
  }

  /** `components.length - totalInserted - totalSkipped` is then the number
      of components in batches that threw. */
  lemma {:induction false} FailedAreLost(batches: seq<seq<Component>>, outcome: Outcomes, k: nat)
    requires Accounted(batches, outcome, k)
    ensures |Flatten(batches)| - Totals(batches, outcome, k).0 - Totals(batches, outcome, k).1 == Lost(batches, outcome, k)
    decreases |batches|
  {
    if batches != [] {
      assert Accounted(batches[1..], outcome, k + 1) by {
        forall j | 0 <= j < |batches| - 1 && outcome(k + 1 + j).Some?
          ensures outcome(k + 1 + j).value.0 + outcome(k + 1 + j).value.1 == |batches[1..][j]|
        {
          assert batches[1..][j] == batches[j + 1];
          assert k + 1 + j == k + (j + 1);
        }
      }
      FailedAreLost(batches[1..], outcome, k + 1);
      assert outcome(k).Some? ==> outcome(k + 0).value.0 + outcome(k + 0).value.1 == |batches[0]|;
    }
  }

  /** The first batch of a list and the batches after it. */
  lemma BatchesStep<T>(s: seq<T>, size: nat)
    requires size > 0 && s != []
    ensures var end := if size < |s| then size else |s|;
            Batches(s, size) == [s[..end]] + Batches(s[end..], size)
  {
    if |s| <= size {
      assert s[..|s|] == s;
      assert s[|s|..] == [];
    }
  }

  /** The totals of the batches from position `i` of the list on, the
      first of them being batch number `k`. */
  function TotalsFrom(components: seq<Component>, i: nat, outcome: Outcomes, k: nat): (nat, nat)
    requires i <= |components|
  {
    Totals(Batches(components[i..], BatchSize), outcome, k)
  }

  /** The totals from a batch on are its outcome plus the totals after it. */
  lemma TotalsStep(components: seq<Component>, i: nat, outcome: Outcomes, k: nat)
    requires i < |components|
    ensures var end := if i + BatchSize < |components| then i + BatchSize else |components|;
            var rest := TotalsFrom(components, end, outcome, k + 1);
            TotalsFrom(components, i, outcome, k) ==
              match outcome(k) case Some((ins, skp)) => (rest.0 + ins, rest.1 + skp) case None => rest
  {
    var s := components[i..];
    var end := if BatchSize < |s| then BatchSize else |s|;
    BatchesStep(s, BatchSize);
    var tail := Batches(s[end..], BatchSize);
    assert ([s[..end]] + tail)[1..] == tail;
    assert s[end..] == components[i + end..];
  }

  /** The insertion loop of `main`: `totalInserted` and `totalSkipped`. */
  method InsertBatches(components: seq<Component>, outcome: Outcomes) returns (inserted: nat, skipped: nat)
    ensures (inserted, skipped) == Totals(Batches(components, BatchSize), outcome, 0)
  {
    inserted, skipped := 0, 0;
    var i := 0;
    var batchNumber := 0;
    assert components[0..] == components;
    while i < |components|
      invariant 0 <= i <= |components|
      invariant inserted + TotalsFrom(components, i, outcome, batchNumber).0 == TotalsFrom(components, 0, outcome, 0).0
      invariant skipped + TotalsFrom(components, i, outcome, batchNumber).1 == TotalsFrom(components, 0, outcome, 0).1
      decreases |components| - i
    {
      var end := if i + BatchSize < |components| then i + BatchSize else |components|;
      TotalsStep(components, i, outcome, batchNumber);
      match outcome(batchNumber) {
        case Some((ins, skp)) =>
          inserted, skipped := inserted + ins, skipped + skp;
        case None =>
      }
      i, batchNumber := end, batchNumber + 1;
    }
    assert components[i..] == [];
  }
}
