# shadcn component marketplace — a Dafny model of its core

The application is a marketplace of shadcn/ui components. Users browse a
catalog and copy a component into their own collection. They edit it in a
Sandpack/Monaco editor with a live preview, give it a theme and publish it
back to the catalog. A Convex backend stores the users, their components
and the catalog. Node scripts seed and maintain the catalog from CSV
exports.

This project models the logic of that core which can be stated:

- **Theme stylesheets and the theme picker.** `getThemeCss` turns a
  registry theme into a stylesheet. The theme selector derives its options,
  fonts, colour swatches and the effective theme. The combobox holds the
  selection rules and the `open` flag.
- **Preview projects.** The preview card and the editor each assemble a
  virtual project. That project has a file map, visible and active files, a
  merged dependency map, a remount key and a change detector. The App
  template's entry shell decides what it renders.
- **Editor status rules.** The save indicator, the toolbar controls, the
  file tabs and the trash drawer's countdown and restore state.
- **Seeding-script text processing.** Code cleaners and validators, and the
  import scanners with their package-name reduction. Also the CSV field
  parsers, the two hand-written CSV tokenisers in the style of section 2 of
  RFC 4180, import counting, the in-place dependency update and batch
  accounting.
- **Component store mutations.** Create, update, list and publish with its
  slug, and lookup by slug.

Each source file becomes one module. Pure code becomes datatypes,
functions and lemmas. Code that changes state becomes a class or a method
with loop invariants, proved against a specification function:

- `Combobox.Picker`, `TrashPopup.Drawer`, `SandpackTemplate.Root`,
  `ComponentEditor.ChangeDetector` and `ConvexComponents.Store` are classes;
- the regex `while` loops, the counting and dependency-map loops, the CSV
  character loops and the validation loop are methods;
- the row update of `update-dependencies` works in place on an `array`.

Shared building blocks are modules of their own:

- `Wrappers` (Option and Result) and `Strings` (trim, split/join, replace,
  case mapping, ordering, insertion sort);
- `OrderedMaps`, for JavaScript objects as insertion-ordered entry lists;
- `Json`, the `JSON.stringify` of a string array and a decoder that reads
  it back;
- `ImportScan`, the left-to-right regex scanners;
- `CsvScan`, the shared CSV state machine;
- `CsvFields`, the CSV field parsers;
- `DependencyScan`, the extractor shared by the two dependency scripts.

## Model

| member | source | states |
|---|---|---|
| Strings.TrimSpec | lib/code-utils.ts:85 | `Trim` drops exactly a whitespace prefix and a whitespace suffix and keeps the rest in order |
| Strings.TrimIdempotent | lib/code-utils.ts:85 | trimming twice equals trimming once |
| Strings.Sort | scripts/deploy-to-convex.ts:291 | the result is sorted and a permutation of the input |
| Strings.SetAdd | scripts/deploy-to-convex.ts:284 | adding to a duplicate-free list keeps it duplicate-free; a present element leaves it unchanged and a new one goes at the end, like `Set.add` in insertion order |
| OrderedMaps.SetGet | components/ComponentPreviewCard.tsx:54-66 | after setting a key, reading it gives the new value and every other key reads as before |
| OrderedMaps.SpreadGet | components/ComponentPreviewCard.tsx:109-127 | in `{...m, ...other}` a key reads from `other` when it has one, else from `m` |
| Json.StringifyDecodes | scripts/update-dependencies.ts:228 | the JSON text of a string array decodes back to that array (quoting as in section 25.5.2.3 of ECMA-262) |
| Json.StringifyInjective | scripts/update-dependencies.ts:231 | two arrays have equal JSON texts exactly when they are equal |
| Json.EscapeDecodes | scripts/parse-components.js:46 | each escaped string decodes back to itself and leaves the rest of the text alone |
| ImportScan.MatchesSound | scripts/deploy-to-convex.ts:107-109 | every captured specifier was matched at some position of the code |
| ImportScan.Exec | scripts/deploy-to-convex.ts:109 | one `exec` step returns the first remaining match and the scan continues after it |
| ImportScan.AddEachSpec | scripts/deploy-to-convex.ts:110-132 | adding reduced captures to a set keeps it duplicate-free and holds exactly the old items plus each capture that reduces to something |
| ImportScan.SortedCollection | scripts/deploy-to-convex.ts:291 | `Array.from(set).sort()` is sorted, duplicate-free and holds exactly the reduced captures |
| ImportScan.Collect | scripts/deploy-to-convex.ts:107-133 | the regex `while` loop adds exactly the reduced captures of all matches, in order |
| ImportScan.AddEachLoop | scripts/deploy-to-convex.ts:282-286 | the `forEach` that adds items to a set computes the same collection |
| CsvScan.Close | scripts/generate-previews.js:31-36 | a line break keeps the record only when it has at least two fields, and starts a new empty record |
| CsvScan.ScanText | scripts/generate-previews.js:15-40 | the character loop over `i`, `inQuote`, `currentField`, `row` and `results` computes the scanner's specification |
| CsvScan.EncodeReadsBack | scripts/generate-previews.js:11-43 | a quoted CSV text of records with at least two fields, each record ended by CR, LF or CRLF, reads back as those records |
| CsvScan.EncodeScan | scripts/parse-components.js:8-39 | the same read-back holds before anything is flushed at the end of input |
| CsvScan.BlankLineSkipped | scripts/generate-previews.js:34 | a blank line adds no record |
| CsvScan.OneFieldLineDropped | scripts/generate-previews.js:34 | a line with a single field adds no record |
| CsvScan.UnterminatedScan | scripts/generate-previews.js:41 | a last record with no line break is still pending at the end, with its last field unfinished |
| CsvFields.ParseJsonField | scripts/deploy-to-convex.ts:87-98 | blank, "null", "undefined" and unparsable fields give the default; a field that parses after `""` becomes `"` gives exactly the parsed value |
| CsvFields.ParseTags | scripts/import-csv.ts:77-80 | tags are present exactly when the field parses to a non-empty list, and are then that list |
| CsvFields.ExtraFiles | scripts/deploy-to-convex.ts:331-336 | no more files than entries, each with a non-empty path |
| CsvFields.ExtraFilesSpec | scripts/deploy-to-convex.ts:331-336 | exactly the entries with a non-empty path whose type is not "registry:ui" are kept, as files with content defaulting to "" |
| CsvFields.ExtraFilesAppend | scripts/deploy-to-convex.ts:331-336 | the filter and map work entry by entry, so order and repeats are kept: the files of a concatenation are those of each part in turn |
| CsvFields.ParseFiles | scripts/deploy-to-convex.ts:327-339 | the file list is present exactly when some decoded entry is kept, and is then the kept files |
| CsvFields.KeptSpec | scripts/import-csv.ts:192-196 | exactly the successfully transformed components that pass the required-field check are kept |
| CsvFields.ParseBooleanSpec | scripts/deploy-to-convex.ts:341-343 | true exactly when the value upper-cases to "TRUE" or equals "1" |
| DependencyScan.FixBacktickQuotes | scripts/analyze-and-update-dependencies.ts:104-108 | text with no backtick-quote boundary is unchanged |
| DependencyScan.StripBackticks | scripts/analyze-and-update-dependencies.ts:110-113 | one surrounding backtick pair is removed, and text without one is unchanged |
| DependencyScan.CleanCode | scripts/analyze-and-update-dependencies.ts:101-119 | the result is trimmed and no longer than the input |
| DependencyScan.CleanCodeKeepsPlainCode | scripts/update-dependencies.ts:167-185 | trimmed code with no backtick and no `""` is unchanged |
| DependencyScan.StripsOuterPairOnly | scripts/update-dependencies.ts:167-185 | a backtick-wrapped body that neither starts nor ends with `"` comes back as the body |
| DependencyScan.PackageName | scripts/analyze-and-update-dependencies.ts:136-155 | relative, `@/` and `next/` specifiers give nothing; a scoped one keeps two segments or a lone `@scope`; others keep their first segment |
| DependencyScan.DependenciesSpec | scripts/update-dependencies.ts:90-143 | the extracted list is duplicate-free and holds exactly the package names of the `from` and `require` specifiers |
| DependencyScan.ExtractDependencies | scripts/analyze-and-update-dependencies.ts:121-171 | the two regex loops compute that list |
| DependencyScan.ComponentDependenciesSpec | scripts/update-dependencies.ts:145-165 | the union of code and preview packages is duplicate-free and omits the five defaults |
| DependencyScan.DependencyIsNotAlias | scripts/analyze-and-update-dependencies.ts:129-137 | no extracted dependency is a `@/` alias or a relative path |
| DependencyScan.CollectComponentDependencies | scripts/update-dependencies.ts:145-165 | the `forEach` loops compute that union |
| LibCodeUtils.ValidateCodeString | lib/code-utils.ts:21-66 | empty code gives exactly the one error; otherwise the pattern loop adds at most one unclosed-quote error, the open `defaultValue` check one more, a bracket-count mismatch exactly one warning; `isValid` holds exactly when there are no errors |
| LibCodeUtils.OpenDefaultValueTwoErrors | lib/code-utils.ts:36-59 | an open `defaultValue=">` also matches an unclosed-quote pattern, so it gives two errors |
| LibCodeUtils.NoAngleOnlyDefaultValue | lib/code-utils.ts:36-47 | without `<` the only unclosed-quote match is the open `defaultValue` |
| LibCodeUtils.PrepareCodeForStorage | lib/code-utils.ts:77-86 | the result is "" for empty input and the trimmed code otherwise |
| LibCodeUtils.PrepareIdempotent | lib/code-utils.ts:77-86 | preparing twice equals preparing once |
| ScriptCodeUtils.FenceBody | scripts/code-utils.ts:42-46 | a fence is recognised exactly when the text starts and ends with three backticks, and the body is a slice between them |
| ScriptCodeUtils.FenceRoundTrip | scripts/code-utils.ts:42-46 | fencing a body with any accepted language tag and stripping the fence gives back the body |
| ScriptCodeUtils.FenceBodyTaken | scripts/code-utils.ts:42-46 | the body taken is the text between the tag line and the closing line |
| ScriptCodeUtils.TagChosen | scripts/code-utils.ts:42 | a tag followed by a newline is recognised as that tag |
| ScriptCodeUtils.StripBacktickPairSpec | scripts/code-utils.ts:50-53 | backticks are removed exactly when the text starts and ends with one and holds only those two, leaving no backtick |
| ScriptCodeUtils.CleanCode | scripts/code-utils.ts:19-61 | empty input gives "" and the result is always trimmed |
| ScriptCodeUtils.CleanCodeKeepsPlainCode | scripts/code-utils.ts:19-61 | trimmed code that no step applies to is unchanged |
| ScriptCodeUtils.UndoubleIsSinglePass | scripts/code-utils.ts:58 | `""` replacement is one non-overlapping pass, so `""""` gives `""` and `"""` gives `""` |
| ScriptCodeUtils.PrepareCodeForStorage | scripts/code-utils.ts:105-107 | storage preparation is `cleanCode` |
| ScriptCodeUtils.PrepareCodeFromCsv | scripts/code-utils.ts:113-115 | CSV preparation is `cleanCode` |
| ScriptCodeUtils.IssueReport | scripts/code-utils.ts:82-84 | the message names the component and code type and ends with the issue |
| ScriptCodeUtils.ValidateCode | scripts/code-utils.ts:67-87 | blank code gives no issue; otherwise there is an issue exactly when an unclosed quote is found, reported with the fixed message |
| ScriptCodeUtils.NoAngleNoWarning | scripts/code-utils.ts:75-79 | code without `<` is never flagged |
| ScriptCodeUtils.UnclosedAttributeFlagged | scripts/code-utils.ts:75-79 | `<input value=">` is flagged |
| DeployToConvex.PackageName | scripts/deploy-to-convex.ts:113-130 | skipped specifiers give nothing; the name is a prefix ending at a `/`, with two segments when scoped and one otherwise |
| DeployToConvex.DependenciesSpec | scripts/deploy-to-convex.ts:103-135 | the extracted list is duplicate-free and holds exactly the package names of the `from` specifiers |
| DeployToConvex.SubpathImport | scripts/deploy-to-convex.ts:121-129 | `pkg/rest` reduces to `pkg`, so "react-dom/client" gives react-dom |
| DeployToConvex.ScopedImport | scripts/deploy-to-convex.ts:121-127 | `@scope/name` is kept whole |
| DeployToConvex.ScopedSubpathImport | scripts/deploy-to-convex.ts:121-127 | `@scope/name/rest` reduces to `@scope/name` |
| DeployToConvex.LoneScopeImport | scripts/deploy-to-convex.ts:123-127 | a lone `@scope` contributes nothing |
| DeployToConvex.ExtractDependencies | scripts/deploy-to-convex.ts:103-135 | the regex loop computes that list |
| DeployToConvex.RegistryId | scripts/deploy-to-convex.ts:151 | the id is the last path segment minus one ".tsx" or ".ts", or the whole path when that is empty |
| DeployToConvex.RegistryIdOfTsxFile | scripts/deploy-to-convex.ts:151 | `dir/name.tsx` gives `name` |
| DeployToConvex.RegistryIdOfTsFile | scripts/deploy-to-convex.ts:151 | `dir/name.ts` gives `name` |
| DeployToConvex.RegistryIdOfName | scripts/deploy-to-convex.ts:151 | a plain name is its own id |
| DeployToConvex.RegistryIdFallback | scripts/deploy-to-convex.ts:151-152 | an empty stripped name falls back to the whole path |
| DeployToConvex.RegistryDependenciesSpec | scripts/deploy-to-convex.ts:141-157 | the registry ids are duplicate-free and exactly the ids of the `@/components/ui/` imports |
| DeployToConvex.ExtractRegistryDependencies | scripts/deploy-to-convex.ts:141-157 | the regex loop computes those ids |
| DeployToConvex.AllDependenciesSpec | scripts/deploy-to-convex.ts:277-296 | the union of code and preview packages is sorted, duplicate-free and skips blank names |
| DeployToConvex.DependencyRecordSpec | scripts/deploy-to-convex.ts:277-296 | the record is absent exactly when no package is found; otherwise its keys are that sorted union, each mapped to "latest" |
| DeployToConvex.GetDependenciesFromCode | scripts/deploy-to-convex.ts:277-296 | the `forEach` loops compute that record |
| DeployToConvex.LatestLoop | scripts/deploy-to-convex.ts:291-293 | the loop maps every name to "latest" |
| DeployToConvex.RegistryListSpec | scripts/deploy-to-convex.ts:301-320 | the registry list is sorted, duplicate-free, and holds exactly the ids from code or preview that are valid and not the component's own |
| DeployToConvex.GetRegistryDependenciesFromCode | scripts/deploy-to-convex.ts:301-320 | the loops compute that list |
| DeployToConvex.ApplyRepairsNoColon | scripts/deploy-to-convex.ts:213-225 | code without `:` is untouched by the truncation repairs |
| DeployToConvex.RepairLineEndExample | scripts/deploy-to-convex.ts:213 | `x: n` at a line end becomes `x: null` |
| DeployToConvex.RepairBeforeCloseExample | scripts/deploy-to-convex.ts:215 | `f(a: n)` becomes `f(a: null)` |
| DeployToConvex.CleanCode | scripts/deploy-to-convex.ts:167-231 | empty input gives "" and the result is trimmed |
| DeployToConvex.CleanCodeAgreesWithoutColon | scripts/deploy-to-convex.ts:167-231 | without a `:` the deploy cleaner agrees with the shared `cleanCode` |
| DeployToConvex.Transformed | scripts/deploy-to-convex.ts:349-391 | with JSON columns of the expected shape, a row fails exactly when componentId, name, description or category is absent (blank values pass); otherwise the text columns and code are trimmed, and the registry list is non-empty, known and excludes the row's own id |
| DeployToConvex.TransformRow | scripts/deploy-to-convex.ts:349-391 | the method computes that transform: each field equals the trimmed column, the cleaned code, the dependencies computed from the cleaned code or the decoded column |
| DeployToConvex.ProcessRows | scripts/deploy-to-convex.ts:449-465 | the kept components are exactly the successful transforms with the required fields, in row order, and every other row counts as one error |
| DeployToConvex.ValidComponentIds | scripts/deploy-to-convex.ts:440-442 | the valid ids are those already deployed, or the CSV ids when none are deployed |
| AnalyzeDependencies.VersionOf | scripts/analyze-and-update-dependencies.ts:83 | recharts gets its pinned version and every other package "latest" |
| AnalyzeDependencies.Versioned | scripts/analyze-and-update-dependencies.ts:211-217 | the record keeps the names in order, each with its version |
| AnalyzeDependencies.DependencyRecordSpec | scripts/analyze-and-update-dependencies.ts:194-219 | the record's keys are exactly the code and preview packages other than the five defaults, each versioned |
| AnalyzeDependencies.GetDependenciesFromComponent | scripts/analyze-and-update-dependencies.ts:194-219 | the loops compute that record |
| AnalyzeDependencies.ShadcnImportsSpec | scripts/analyze-and-update-dependencies.ts:176-191 | the shadcn imports are duplicate-free and exactly the full texts after `@/components/ui/` |
| AnalyzeDependencies.ExtractShadcnComponentImports | scripts/analyze-and-update-dependencies.ts:176-191 | the regex loop computes that list |
| AnalyzeDependencies.RowImportsUnique | scripts/analyze-and-update-dependencies.ts:257-259 | a row's imports, from code and preview together, hold no repeat |
| AnalyzeDependencies.BumpAllSpec | scripts/analyze-and-update-dependencies.ts:260-263 | a row adds exactly one to the count of each component it imports and leaves the others |
| AnalyzeDependencies.CountsSpec | scripts/analyze-and-update-dependencies.ts:252-264 | a component's count is the number of rows importing it, and it is listed exactly when that is positive |
| AnalyzeDependencies.CountImports | scripts/analyze-and-update-dependencies.ts:252-264 | the counting loop computes those counts |
| AnalyzeDependencies.SortByCount | scripts/analyze-and-update-dependencies.ts:272-273 | the counts are sorted by non-increasing count, as a permutation |
| AnalyzeDependencies.SortByCountStable | scripts/analyze-and-update-dependencies.ts:272-273 | the sort is stable: entries with equal counts keep their insertion order, which decides the top twenty among ties |
| AnalyzeDependencies.TopImports | scripts/analyze-and-update-dependencies.ts:272-274 | the top list has at most 20 entries, in non-increasing order, drawn from the counts |
| AnalyzeDependencies.TopImportsAreTop | scripts/analyze-and-update-dependencies.ts:272-274 | every entry left out counts at most as much as every entry kept |
| AnalyzeDependencies.ToSend | scripts/analyze-and-update-dependencies.ts:324-336 | exactly the components with a non-empty dependency map are sent |
| AnalyzeDependencies.ToSendAppend | scripts/analyze-and-update-dependencies.ts:324-336 | the filter works entry by entry, so the components sent keep their order and repeats |
| AnalyzeDependencies.DependencyMapSpec | scripts/analyze-and-update-dependencies.ts:286-296 | each component id maps to the record of its last row |
| AnalyzeDependencies.ComponentDependencyMap | scripts/analyze-and-update-dependencies.ts:286-296 | the loop computes that map |
| UpdateDependencies.SortedDependenciesSpec | scripts/update-dependencies.ts:145-165 | the list is sorted, duplicate-free and holds exactly the code and preview packages other than the defaults |
| UpdateDependencies.GetDependenciesFromComponent | scripts/update-dependencies.ts:145-165 | the loops compute that list |
| UpdateDependencies.WrittenSpec | scripts/update-dependencies.ts:237 | writing replaces the dependencies field and nothing else |
| UpdateDependencies.SameSources | scripts/update-dependencies.ts:224-228 | the computed JSON depends only on the code and preview fields |
| UpdateDependencies.RecomputedJsonDecodes | scripts/update-dependencies.ts:224-228 | the written JSON decodes to the sorted dependency list of the cleaned code |
| UpdateDependencies.UpdatedIdempotent | scripts/update-dependencies.ts:228-238 | an updated row is left alone by a second update |
| UpdateDependencies.RerunUpdatesNothing | scripts/update-dependencies.ts:219-243 | a second run over the rows changes and counts nothing |
| UpdateDependencies.ComputeJson | scripts/update-dependencies.ts:224-228 | the JSON is computed from the cleaned code and preview |
| UpdateDependencies.UpdatedReadable | scripts/update-dependencies.ts:228-238 | a row with both fields gets the recomputed JSON, and it is changed exactly when its stored text differs |
| UpdateDependencies.UpdateRow | scripts/update-dependencies.ts:228-238 | one row is updated and reported as changed exactly when its JSON differs |
| UpdateDependencies.UpdateRows | scripts/update-dependencies.ts:219-243 | the loop updates the rows in place and counts exactly the changed ones |
| ImportCsv.SplitVersion | scripts/import-csv.ts:94 | the split is at the last `@` with text on both sides, and there is none exactly when no such `@` exists |
| ImportCsv.SplitVersionOf | scripts/import-csv.ts:94-96 | `name@version` splits into that name and version |
| ImportCsv.ScopedNameNotSplit | scripts/import-csv.ts:94-99 | a bare `@scope/pkg` is not split, so it maps to "latest" |
| ImportCsv.AddEntriesSpec | scripts/import-csv.ts:89-101 | each name maps to the version of its last entry |
| ImportCsv.AddEntriesNonEmpty | scripts/import-csv.ts:102 | the record is non-empty exactly when some entry is a string |
| ImportCsv.DependencyEntriesSome | scripts/import-csv.ts:82-103 | the dependencies are absent exactly when the parsed list holds no string |
| ImportCsv.ParseDependencies | scripts/import-csv.ts:82-103 | the `for` loop computes that record |
| ImportCsv.CleanCode | scripts/import-csv.ts:121-136 | the cleaned code is trimmed |
| ImportCsv.CleanCodeKeeps | scripts/import-csv.ts:121-136 | trimmed code without `"` is unchanged |
| ImportCsv.KeepsBacktickPair | scripts/import-csv.ts:121-136 | unlike the dependency scripts, a surrounding backtick pair is kept |
| ImportCsv.DependencyScriptsStripBacktickPair | scripts/update-dependencies.ts:175-177 | the dependency scripts remove that same pair |
| ImportCsv.Transform | scripts/import-csv.ts:142-155 | a row fails exactly when a column it trims is absent; otherwise each field is the trimmed column, the cleaned code or the decoded column, and the text fields are trimmed |
| ImportCsv.TransformRow | scripts/import-csv.ts:142-155 | the method computes that transform |
| ImportCsv.TransformRows | scripts/import-csv.ts:188-203 | the loop keeps exactly the successful transforms that have the required fields, in record order |
| ImportCsv.BatchesSpec | scripts/import-csv.ts:213-216 | the batches concatenate back to the components, and all but the last are full |
| ImportCsv.FailedAreLost | scripts/import-csv.ts:242-247 | the reported failures, processed minus inserted minus skipped, are exactly the components of failed batches |
| ImportCsv.InsertBatches | scripts/import-csv.ts:213-240 | the batch loop sums the inserted and skipped counts |
| GeneratePreviews.ParseCsv | scripts/generate-previews.js:11-43 | the loop computes the tokeniser with the end-of-input flush |
| GeneratePreviews.RecordsHaveFields | scripts/generate-previews.js:41 | every record has at least one field |
| GeneratePreviews.RecordsReadBack | scripts/generate-previews.js:11-43 | a CSV text of terminated records reads back as those records |
| GeneratePreviews.UnterminatedLastRecord | scripts/generate-previews.js:41 | a last record without a line break is kept when it has two fields, but loses its last field |
| GeneratePreviews.StripTicksSpec | scripts/generate-previews.js:71-80 | one surrounding backtick pair is removed, and text without backticks at its ends is unchanged |
| GeneratePreviews.WithDefaultExportSpec | scripts/generate-previews.js:88-94 | code with `export default` or with no exported function is unchanged; otherwise a default export of the first function is appended |
| GeneratePreviews.WithDefaultExportIdempotent | scripts/generate-previews.js:88-94 | appending twice equals appending once |
| GeneratePreviews.CamelCaseJoin | scripts/generate-previews.js:99 | each `-x` of a hyphenated id becomes an upper-case `X` |
| GeneratePreviews.ImportNameOfWords | scripts/generate-previews.js:99-100 | the import name is the Pascal-case id followed by "Preview" |
| GeneratePreviews.AlertDialogImportName | scripts/generate-previews.js:99-100 | "alert-dialog" gives "AlertDialogPreview" |
| GeneratePreviews.VisitAllOk | scripts/generate-previews.js:55-104 | the run succeeds exactly when no row that is used lacks its preview code |
| GeneratePreviews.VisitAllLines | scripts/generate-previews.js:102-103 | the import lines are those of the used ids, in order |
| GeneratePreviews.VisitAllNoOverwrite | scripts/generate-previews.js:66-74 | no component file is written twice, and an existing component file is never overwritten |
| GeneratePreviews.GenerateSpec | scripts/generate-previews.js:45-115 | generation succeeds exactly when every used row has preview code, and fails with the fixed message otherwise |
| GeneratePreviews.VisitRecords | scripts/generate-previews.js:55-104 | the `forEach` loop computes that run |
| ParseComponents.ParseCsv | scripts/parse-components.js:8-39 | the loop computes the tokeniser without the end-of-input flush |
| ParseComponents.ComponentIds | scripts/parse-components.js:45 | there are no more ids than records |
| ParseComponents.ListedIff | scripts/parse-components.js:45 | a record is listed exactly when its first field is not blank |
| ParseComponents.ComponentIdsSpec | scripts/parse-components.js:43-45 | the ids are exactly the non-blank first fields of the records |
| ParseComponents.RecordsReadBack | scripts/parse-components.js:8-39 | a CSV text of terminated records reads back as those records |
| ParseComponents.UnterminatedLastRecordLost | scripts/parse-components.js:37-38 | a last record without a line break is lost |
| ParseComponents.OutputDecodes | scripts/parse-components.js:46 | the written JSON decodes to the ids of the records after the header |
| ThemeGenerator.HslTripletIff | components/editor/theme-generator.ts:59-60 | the pattern matches exactly the texts made of digits and then twice a space run, digits and `%` |
| ThemeGenerator.Format | components/editor/theme-generator.ts:45-63 | a value is returned as it is or wrapped in `hsl(...)` |
| ThemeGenerator.FormatWraps | components/editor/theme-generator.ts:45-63 | a value is wrapped exactly when its key is a colour key, it has no `(`, it does not start with `#`, and its trimmed text is an HSL triplet |
| ThemeGenerator.FormatIdempotent | components/editor/theme-generator.ts:45-63 | formatting a formatted value changes nothing |
| ThemeGenerator.FormatTriplet | components/editor/theme-generator.ts:59-62 | a colour key with a triplet value gets `hsl(` + the original value + `)` |
| ThemeGenerator.VarLines | components/editor/theme-generator.ts:65-71 | one line `  --key: value;` per variable, in entry order |
| ThemeGenerator.Find | components/editor/theme-generator.ts:36 | the found item is the first with that name, and none means no item has it |
| ThemeGenerator.UnknownThemeIsDefault | components/editor/theme-generator.ts:36-40 | an unknown name gives the "default" stylesheet |
| ThemeGenerator.KnownTheme | components/editor/theme-generator.ts:36-114 | a known name gives its own stylesheet |
| ThemeGenerator.JoinWithFallback | components/editor/theme-generator.ts:80-88 | the fallback destructive-foreground line is appended exactly when the group lacks that key |
| ThemeGenerator.GroupJoin | components/editor/theme-generator.ts:80-95 | a group's text is its formatted lines plus the fallback line |
| ThemeGenerator.RootLines | components/editor/theme-generator.ts:90-92 | `:root` holds the shared lines unformatted, then the light group's lines |
| ThemeGenerator.DarkLines | components/editor/theme-generator.ts:94-96 | `.dark` holds the dark group's lines |
| ThemeGenerator.ItemCssLines | components/editor/theme-generator.ts:90-111 | the stylesheet's lines are the `:root` block, a blank line, the `.dark` block, a blank line and the fixed base rules |
| Wrappers.OrElse | components/editor/ThemeSelector.tsx:248 | the fallback of a JavaScript `or` on an optional string: a non-empty value wins, else the fallback |
| ThemeSelector.NormalizeIdempotent | components/editor/ThemeSelector.tsx:16-19 | normalising twice equals normalising once |
| ThemeSelector.ExtractColor | components/editor/ThemeSelector.tsx:84-115 | the colour is never empty, is "#ffffff" for blank input, and a non-oklch value comes back trimmed |
| ThemeSelector.PlainColorsKept | components/editor/ThemeSelector.tsx:103-111 | hex, `hsl(` and `rgb(` values come back trimmed |
| ThemeSelector.LiteralColor | components/editor/ThemeSelector.tsx:103-105 | a trimmed hex literal is returned as it is |
| ThemeSelector.ExtractIdempotent | components/editor/ThemeSelector.tsx:84-115 | extracting twice equals extracting once |
| ThemeSelector.SwatchFallbacks | components/editor/ThemeSelector.tsx:132-146 | a missing primary shows black, missing secondary and muted show light grey, a missing accent shows the primary colour |
| ThemeSelector.PreviewSpec | components/editor/ThemeSelector.tsx:118-146 | there is a preview exactly for registry themes, with the four swatches |
| ThemeSelector.StripQuotes | components/editor/ThemeSelector.tsx:220 | exactly the quote characters are removed |
| ThemeSelector.ThemeFontSpec | components/editor/ThemeSelector.tsx:202-224 | the font is the shared `font-sans`, else the light one, with quotes stripped, and is absent when the theme or both keys are missing |
| ThemeSelector.PrimaryColorIsSwatch | components/editor/ThemeSelector.tsx:227-239 | a primary colour, when present, is the preview's primary swatch |
| ThemeSelector.Effective | components/editor/ThemeSelector.tsx:180-194 | the effective theme is the detected one when globalCss is non-empty, else the current one |
| ThemeSelector.HandleThemeSelect | components/editor/ThemeSelector.tsx:196-199 | selecting the effective theme does nothing; any other value is passed on once |
| ThemeSelector.Styles | components/editor/ThemeSelector.tsx:243-244 | exactly the "registry:style" items are kept |
| ThemeSelector.StylesAppend | components/editor/ThemeSelector.tsx:243-244 | the filter keeps registry order |
| ThemeSelector.StyleOptions | components/editor/ThemeSelector.tsx:245-257 | one option per style, in order, labelled by its label or else its name |
| ThemeSelector.OptionsSpec | components/editor/ThemeSelector.tsx:242-282 | the options are the style options, plus a last "Custom" option exactly when the theme is custom and no option is |
| ThemeSelector.CustomOptionSpec | components/editor/ThemeSelector.tsx:260-280 | a "custom" value is offered exactly when the theme is custom or a style is named so |
| ThemeSelector.StyleValues | components/editor/ThemeSelector.tsx:245-257 | a value is offered exactly when a style has that name |
| ThemeSelector.RepickReportsEmpty | components/ui/combobox.tsx:92 | re-picking the current theme passes "" on as a theme change |
| ThemeSelector.HandleThemeSelectIntended | components/editor/ThemeSelector.tsx:196-199 | the corrected handler ignores "" as well as the effective theme |
| ThemeSelector.PickSpec | components/editor/ThemeSelector.tsx:196-199 | with the corrected handler a pick changes the theme exactly when it names another theme |
| Combobox.Selected | components/ui/combobox.tsx:51 | the shown option is the first whose value equals the value, and none when no option does |
| Combobox.LabelFont | components/ui/combobox.tsx:70-115 | a label gets a font only when its option carries a non-empty one |
| Combobox.Reported | components/ui/combobox.tsx:92 | picking the checked option reports "", any other reports its value |
| Combobox.ShownIsChecked | components/ui/combobox.tsx:63-101 | the shown option is checked, and the placeholder shows when none is selected |
| Combobox.SecondPickClears | components/ui/combobox.tsx:92 | picking an option twice reports its value, then "" |
| Combobox.Picker.constructor | components/ui/combobox.tsx:49 | the popover starts closed |
| Combobox.Picker.Rerender | components/ui/combobox.tsx:40-49 | new props keep the open flag |
| Combobox.Picker.OpenChange | components/ui/combobox.tsx:54 | the open flag follows the popover |
| Combobox.Picker.Select | components/ui/combobox.tsx:91-94 | a pick closes the popover and reports the toggled value when there is a handler |
| SandpackTemplate.BoolText | components/editor/sandpack-app-template.ts:6 | the literal text of a boolean |
| SandpackTemplate.AppCode | components/editor/sandpack-app-template.ts:6-143 | the template is the fixed head and tail around the dark flag |
| SandpackTemplate.AppCodeRoundTrip | components/editor/sandpack-app-template.ts:6 | the dark flag can be read back from the template |
| SandpackTemplate.AppCodeInjective | components/editor/sandpack-app-template.ts:6-143 | the light and dark templates differ only by that flag |
| SandpackTemplate.ExportNamed | components/editor/sandpack-app-template.ts:159 | a named export is found exactly when the module exports that key |
| SandpackTemplate.FirstFunction | components/editor/sandpack-app-template.ts:160-161 | the fallback is the first exported function, and none when there is none |
| SandpackTemplate.ShellSpec | components/editor/sandpack-app-template.ts:159-169 | the shell renders the default export when it is truthy, else the first exported function, else the error message |
| SandpackTemplate.NamedExportRendered | components/editor/sandpack-app-template.ts:160-161 | a module with one named function renders it |
| SandpackTemplate.Root.ApplyDark | components/editor/sandpack-app-template.ts:146-153 | the root has the "dark" class exactly when dark, and its other classes are kept |
| SandpackTemplate.Resolve | components/editor/sandpack-app-template.ts:196-205 | a specifier resolves only through a matching path alias |
| SandpackTemplate.AtAlias | components/editor/sandpack-app-template.ts:196-205 | `@/x` resolves to `./x`, and other specifiers do not resolve |
| SandpackTemplate.UtilsImportResolves | components/editor/sandpack-app-template.ts:186-205 | "@/lib/utils" resolves to the hidden utils file |
| ComponentPreviewCard.ComponentPath | components/ComponentPreviewCard.tsx:48 | the component lives under "/components/ui/" with the ".tsx" suffix |
| ComponentPreviewCard.ComponentPathInjective | components/ComponentPreviewCard.tsx:48 | distinct names get distinct paths |
| ComponentPreviewCard.EffectiveCss | components/ComponentPreviewCard.tsx:70 | the stylesheet is globalCss when it is non-empty, else the default, so a blank one is kept |
| ComponentPreviewCard.RegistryEntriesSpec | components/ComponentPreviewCard.tsx:51-66 | each registry dependency becomes one visible file under "/components/ui/" |
| ComponentPreviewCard.RegistryFilesGet | components/ComponentPreviewCard.tsx:51-66 | a registry path reads back the code of that dependency |
| ComponentPreviewCard.FixedFilesKept | components/ComponentPreviewCard.tsx:69-87 | the App, Preview, utils, stylesheet and tsconfig files are always present with their texts |
| ComponentPreviewCard.FixedKept | components/ComponentPreviewCard.tsx:69-87 | registry files never replace a fixed file |
| ComponentPreviewCard.ComponentFile | components/ComponentPreviewCard.tsx:76-85 | the component path holds the own code, unless a registry dependency of the same name replaces it |
| ComponentPreviewCard.RegistryComponentFile | components/ComponentPreviewCard.tsx:85 | each registry dependency's path holds its code |
| ComponentPreviewCard.VisibleFilesExist | components/ComponentPreviewCard.tsx:90-100 | the active file is visible and every visible file exists and is not hidden |
| ComponentPreviewCard.VisibleFileExists | components/ComponentPreviewCard.tsx:90-100 | the same for one visible file |
| ComponentPreviewCard.RegistryNpmLast | components/ComponentPreviewCard.tsx:112-118 | among registry dependencies the later entry's package version wins |
| ComponentPreviewCard.DependenciesPrecedence | components/ComponentPreviewCard.tsx:109-127 | own dependencies win over registry ones, which win over the baseline |
| ComponentPreviewCard.Hash | components/ComponentPreviewCard.tsx:132-140 | the hash is at least the text's length and at most 40 more |
| ComponentPreviewCard.KeyShowsMode | components/ComponentPreviewCard.tsx:139 | the key ends in "-dark" exactly in dark mode |
| ComponentPreviewCard.KeyShowsRegistry | components/ComponentPreviewCard.tsx:132-140 | for non-empty, comma-free registry names, the key changes whenever the list of names changes (the comma join cannot tell `["a,b"]` from `["a","b"]`) |
| ComponentPreviewCard.Render | components/ComponentPreviewCard.tsx:144-154 | the local preview is used exactly for a non-user component with a local entry |
| ComponentPreviewCard.UserComponentInSandbox | components/ComponentPreviewCard.tsx:144-164 | a user component always runs in the sandbox, with its own code at the component path when no registry dependency has its name |
| ComponentEditor.EffectiveCss | components/editor/ComponentEditor.tsx:107 | the stylesheet is globalCss only when it has non-blank content, else the default |
| ComponentEditor.BlankCssDiffers | components/editor/ComponentEditor.tsx:107 | a blank globalCss gives the default here but is kept by the preview card |
| ComponentEditor.FilesSpec | components/editor/ComponentEditor.tsx:109-208 | utils, tsconfig and the Tailwind config are exactly the hidden files |
| ComponentEditor.VisibleFilesShown | components/editor/ComponentEditor.tsx:220-221 | the visible files are Preview, the component and the stylesheet, all present, with Preview active |
| ComponentEditor.DependenciesSpec | components/editor/ComponentEditor.tsx:223-230 | each supplied dependency overrides the three baseline packages |
| ComponentEditor.EditedCode | components/editor/ComponentEditor.tsx:77 | an edit passes its text on, or "" when it has none |
| ComponentEditor.Effect | components/editor/ComponentEditor.tsx:32-50 | without a handler, or when the tracked files are unchanged, nothing is scheduled; otherwise the snapshot is replaced and reported |
| ComponentEditor.MountReportsNothing | components/editor/ComponentEditor.tsx:32-50 | the first run after mount reports nothing |
| ComponentEditor.UntrackedEditIgnored | components/editor/ComponentEditor.tsx:35-50 | an edit to an untracked file is not reported |
| ComponentEditor.ReportOnce | components/editor/ComponentEditor.tsx:53-58 | a change reports the new snapshot once, and the same files do not report it again |
| ComponentEditor.RerunCancelsReport | components/editor/ComponentEditor.tsx:53-60 | re-running over unchanged files cancels a pending report |
| ComponentEditor.ChangeDetector.Run | components/editor/ComponentEditor.tsx:32-50 | one effect run updates the detector's state as specified |
| ComponentEditor.ChangeDetector.Fire | components/editor/ComponentEditor.tsx:55-58 | the scheduled callback reports the pending snapshot and clears it |
| SaveStatusIndicator.Indicate | components/editor/SaveStatusIndicator.tsx:10-54 | idle with changes shows only the dot; idle without changes and saved show "Saved"; saving and error show their text |
| SaveStatusIndicator.FlagMattersOnlyWhenIdle | components/editor/SaveStatusIndicator.tsx:10-54 | hasChanges changes the display exactly when idle |
| SaveStatusIndicator.MissingFlagIsFalse | components/editor/SaveStatusIndicator.tsx:3-10 | a missing hasChanges counts as false, so some text shows |
| SaveStatusIndicator.IdleCleanLooksSaved | components/editor/SaveStatusIndicator.tsx:20-45 | idle without changes looks like saved |
| EditorToolbar.Render | components/editor/EditorToolbar.tsx:36-77 | the status always shows; read-only hides the selector, reset and save; reset is disabled exactly without changes; save exists only with changes |
| EditorToolbar.DefaultIsClean | components/editor/EditorToolbar.tsx:29 | without hasChanges, reset is disabled and save is absent |
| EditorToolbar.DotMeansSave | components/editor/EditorToolbar.tsx:55-71 | when idle, the unsaved dot shows exactly when the save button does |
| EditorToolbar.SaveEnabledUnlessSaving | components/editor/EditorToolbar.tsx:77 | save is disabled exactly while saving |
| EditorTabs.Icon | components/editor/EditorTabs.tsx:10-15 | the first matching suffix rule picks the icon |
| EditorTabs.FileNameSpec | components/editor/EditorTabs.tsx:17-20 | the file name has no `/` and is the path's suffix after its last `/` |
| EditorTabs.EndsWithFileName | components/editor/EditorTabs.tsx:17-20 | a slash-free suffix of the path is a suffix of its file name |
| EditorTabs.IconByFileName | components/editor/EditorTabs.tsx:10-24 | the icon of a path is the icon of its file name |
| EditorTabs.Tabs | components/editor/EditorTabs.tsx:24-37 | one tab per visible file, in order, highlighted exactly when it is the active file |
| EditorTabs.Click | components/editor/EditorTabs.tsx:27 | a click makes that tab's path active |
| EditorTabs.ClickHighlightsOne | components/editor/EditorTabs.tsx:27-37 | with duplicate-free visible files, after a click exactly the clicked tab is highlighted |
| EditorTabs.HiddenActiveHighlightsNone | components/editor/EditorTabs.tsx:30-37 | an active file that is not visible highlights no tab |
| TrashPopup.CeilDiv | components/TrashPopup.tsx:99 | the quotient is the ceiling of the division |
| TrashPopup.DaysLeftSpec | components/TrashPopup.tsx:94-103 | days remain exactly while fewer than seven days have passed, at most seven, counting started days |
| TrashPopup.Countdown | components/TrashPopup.tsx:111-116 | the countdown shows exactly while days remain |
| TrashPopup.PluralUnlessOne | components/TrashPopup.tsx:64-116 | header and countdown use the plural exactly when the number is not one |
| TrashPopup.PreviewNameClean | components/TrashPopup.tsx:125-128 | a derived preview name has no blank and no upper-case letter |
| TrashPopup.RestoreButton | components/TrashPopup.tsx:136-141 | the button is disabled and shows "Restoring..." exactly for the component being restored |
| TrashPopup.Drawer.constructor | components/TrashPopup.tsx:22 | nothing is being restored at first |
| TrashPopup.Drawer.Begin | components/TrashPopup.tsx:24-26 | starting a restore marks that component, and only it |
| TrashPopup.Drawer.Settle | components/TrashPopup.tsx:27-34 | the restore ends with a success or failure toast and no component marked |
| ConvexComponents.FindUser | convex/components.ts:43-46 | the user found is the first with that token, and none when no user has it |
| ConvexComponents.GetBySlug | convex/components.ts:18-26 | the catalog entry found is the first with that slug, and none when there is none |
| ConvexComponents.OwnedFromSpec | convex/components.ts:108-113 | the listed components are exactly those of the user, in id order |
| ConvexComponents.OwnedFromSound | convex/components.ts:110-113 | every entry the by_user lookup returns belongs to the user and carries its own id |
| ConvexComponents.OwnedFromComplete | convex/components.ts:110-113 | every component of the user is returned by the by_user lookup |
| ConvexComponents.OwnedFromOrdered | convex/components.ts:110-113 | the by_user lookup returns its entries in increasing id (creation) order |
| ConvexComponents.ListSpec | convex/components.ts:97-115 | the list is empty without an identity or user record, else exactly that user's components |
| ConvexComponents.OwnedAppend | convex/components.ts:108-113 | a new component is listed last when it is the user's, and not otherwise |
| ConvexComponents.Created | convex/components.ts:53-61 | the record carries the user's id and exactly the supplied fields |
| ConvexComponents.CreatedIsListed | convex/components.ts:28-115 | a created component is listed last for its creator |
| ConvexComponents.PatchedSpec | convex/components.ts:89-93 | code is replaced, previewCode only by a non-empty string, dependencies whenever given, nothing else, and patching twice equals once |
| ConvexComponents.SlugSpec | convex/components.ts:132 | the slug has only a-z, 0-9 and `-`, never `--`, and starts with `-` exactly when the name does not start with a letter or digit |
| ConvexComponents.FinalSlug | convex/components.ts:135-140 | a free slug is kept, and a taken one gets `-` and the time appended |
| ConvexComponents.FinalSlugSpec | convex/components.ts:135-140 | the final slug keeps the alphabet, and a slug ending in `-` gives `--` |
| ConvexComponents.Published | convex/components.ts:142-152 | the entry copies name, description, category, code, preview and dependencies, is public and authored by the owner, and carries no CSS, registry dependencies, tags or files |
| ConvexComponents.PublishFindable | convex/components.ts:132-152 | after publishing, the slug finds an entry |
| ConvexComponents.SecondCollision | convex/components.ts:135-140 | the single retry can reuse a taken slug, and lookup then finds the older entry |
| ConvexComponents.Store.constructor | convex/schema.ts:5-68 | the store holds the given tables |
| ConvexComponents.Store.CreateUserComponent | convex/components.ts:28-63 | no identity gives "Unauthenticated" and no user "User not found", inserting nothing; otherwise exactly the created record is appended |
| ConvexComponents.Store.UpdateUserComponent | convex/components.ts:72-95 | no identity or no component fails and writes nothing; otherwise only that component is patched, with no ownership check |
| ConvexComponents.Store.PublishComponent | convex/components.ts:117-154 | the guards fail without writing; otherwise exactly the published entry is appended to the catalog |

## Findings

| source | as written | input that shows it | evidently intended | confidence | as-written member | corrected member |
|---|---|---|---|---|---|---|
| components/editor/ThemeSelector.tsx:196-199 | the combobox (components/ui/combobox.tsx:92) reports "" when the current option is picked again, and `handleThemeSelect` passes any value other than the effective theme to `onThemeChange` | re-picking the current theme "zinc" calls `onThemeChange("")` | re-picking the current theme changes nothing | medium, not executed | ThemeSelector.RepickReportsEmpty | ThemeSelector.PickSpec |

## Left out

- The oklch to RGB colour maths of the theme selector is a `convert` parameter. It is floating-point maths.
- `detectThemeFromCss` is a `detect` parameter. It is not part of this model.
- `registry.json` is an input sequence of items. The local preview table `REGISTRY` is a set of names.
- Timers are not modelled: the 2-second auto-save debounce and the sandbox's Tailwind polling. The change detector's scheduled callback is the separate `Fire` step.
- React, Sandpack, Monaco and next-themes rendering, the popover and toasts are not modelled. Only the derived values are.
- The App template text is abbreviated to its head, the dark flag and its tail. The editor's inline file texts and the Tailwind configuration text are a parameter.
- `JSON.parse` is a parameter, a partial function.
- ImportCsv.Transform: decoded JSON columns are assumed to have the shape the script expects. A `files` value that is not an array or holds `null`, and a `dependencies` value that is not iterable, make the source throw and count the row as failed. The model does not capture these failures.
- DeployToConvex.TransformRow: decoded JSON columns are assumed to have the shape the script expects. The typed `parse` parameter cannot return JSON `null` or a value of another shape. In the source, a mis-shaped `files` value makes the row throw. So does a `tags` cell that decodes to `null`, for example ` null` with a space, which passes the exact `=== 'null'` test; there `parsed.length` throws. The row is then counted as an error, and the model does not capture that failure.
- DeployToConvex.Transformed: the function behind TransformRow carries the same gap. It fails only when a trimmed column is absent. The source also fails on a mis-shaped `files` column and on a `tags` cell that decodes to JSON `null`.
- Strings.Sort: strings are sequences of Unicode code points, not UTF-16 code units. The sort compares code points, while `Array.prototype.sort` compares code units. So a character above U+FFFF sorts before U+E000-U+FFFF in the source and after them here. DeployToConvex.AllDependenciesSpec, DeployToConvex.RegistryListSpec and UpdateDependencies.SortedDependenciesSpec inherit this.
- ComponentPreviewCard.Hash: lengths and the two 20-character slices count code points, while the source's `.length` and `slice` count UTF-16 code units. For text with characters above U+FFFF the numbers differ, and a source slice can split a surrogate pair. The stylesheet length in the key carries the same gap.
- GeneratePreviews.Visit: a record that throws records no writes in the model. In the source, an eight-field record whose component file is missing writes that file before the preview step throws, and earlier records' files stay written.
- Every script's `main()` I/O is left out: file reads and writes, `csv-parse`/`csv-stringify`, the Convex client and console output. The row loops of `main` are modelled over given rows.
- The deploy script's `validateCode` only logs warnings, so it is not modelled. Neither is its dead quote counting.
- Case mapping is ASCII only. JavaScript key order for integer-like keys is not modelled.
- ThemeGenerator.UnknownThemeIsDefault: when the registry has no "default" item the source recurses without end. The model returns no stylesheet there instead.
- ConvexComponents.Store: tables are sequences and an id is a position. Deletion is not modelled, and neither are the Convex index semantics and `ctx.auth` internals. Identity is an optional token.
- `Date.now()` is a parameter. `toLocaleDateString` in the trash drawer is not modelled.
- The Convex `list` and `get` queries, `getUserComponent`, `listDeletedComponents`, `searchComponents`, `permanentlyDeleteUserComponent` and convex/cleanup.ts are not part of this model.
- The auto-save/reset controller that feeds the save status is not part of this model.
