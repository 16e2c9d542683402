# start-comp-lib core, modelled in Dafny

`start-comp-lib` is a component-library explorer. It scans folders of UI
component sources, groups them into libraries, and documents each component.
The documentation covers its props, which it extracts from the TypeScript
types of the component's parameters. It also covers the component's imports,
split into external packages, dev dependencies and internal modules, with the
installed version of each package. This project models the static-analysis
pipeline behind that, and the small deterministic rules inside the UI.

The pipeline parts:

- **props** (`props.dfy`) looks up a component function in a source file.
  It then folds its parameter types into a bounded tree of props, forcing a
  first-level `style` to `string`.
- **paths** (`paths.dfy`) and **package_version** (`package_version.dfy`) hold
  the two upward directory walks:
  - `findProjectRoot`;
  - `getPackageVersion`, with its chain of sentinel strings and its fallback
    to the project manifest.
- **import_sets** (`import_sets.dfy`) holds the rest of the shared dependency
  logic:
  - insertion-ordered `Set`s;
  - quote stripping;
  - the dev-dependency split on the base segment of a specifier;
  - the `name@version` annotation.
- **dependencies**, **item_dependencies** and **versions** model the three
  analysers. Each classifies import specifiers its own way:
  - `tsconfig.json` aliases;
  - fixed `~`, `@/` and `.` prefixes;
  - fixed prefixes, with `react` skipped.
- **registry_types** models the registry schemas:
  - the closed tag sets;
  - the `target` refinement on files;
  - the item union discriminated on `type`;
  - the registry object.
- **libs** (`libs.dfy`, with **string_order**) assembles the registry from a
  listing of library folders.
- **component_data** normalises docgen prop types and aggregates components
  per file and per directory.
- **svg** (`svg.dfy`, with **base64**) recolours an SVG and adds a fill. It
  then encodes the result as a base64 data URL. The alphabet and padding are
  those of section 4 of RFC 4648.

The UI rules:

- **sidebar** (`sidebar.dfy`): both library sidebars' search filters.
- **hotkey** (`hotkey.dfy`): the key-combination test of `useHotkey`.
- **calendar** (`calendar.dfy`):
  - the range picker's month arithmetic, modelled on `Date`'s behaviour;
  - its click and hover state machine, as a class;
  - its day-cell shading.
- **prop_field** (`prop_field.dfy`): the form control chosen for a prop, and
  the options of a literal-union select.

The model takes I/O as inputs:

- The filesystem is a map from a directory to what its `package.json` reads
  as.
- `require.resolve` is a map from a package name to its entry point.
- The TypeScript type checker is an abstract type tree.
- The docgen parser is a function from a file to its component docs.
- Directory listings are sequences.

The loops the source runs become methods with loop invariants. Each is proved
against a specification function, and the lemmas state what the source
promises about those functions.

Some behaviours of the code worth knowing, all modelled as the code has them:

- The fallback to the project manifest happens only when `require.resolve`
  throws. A walk that finds no manifest answers `package.json not found`
  (`PackageVersion.FallbackOnlyOnResolutionFailure`).
- The four sentinel strings are `version not found in package.json`,
  `not in project package.json`, `package.json not found` and
  `resolution error`.
- `extractParamTypes` never splices destructured parameters into its parent.
  Each parameter becomes one prop named after it.
- `extractParamTypes` treats arrays, tuples and rest parameters like any other
  type.
- A property without a declaration makes the extraction throw. There is no
  fallback to `any`.
- An object nested past the budget becomes its type text, not an empty list.
  `extractObjectProps` returns `[]` only when called with `depth <= 0`, and
  it is never called that way.
- `getLibs` keeps empty libraries. It sorts libraries and items by name alone
  and types every item `registry:lib`.
- The `tsconfig.json` aliases are read for each import rather than once per
  call.

## Model

| member | source | states |
|---|---|---|
| Props.FindFunction | src/logic/server/data/props.ts:44 | the index of the first function declaration with the name, or the end when none has it; no earlier declaration has it |
| Props.FindCallableVariable | src/logic/server/data/props.ts:47-54 | the index of the first variable whose initializer has a call signature and whose name matches; no earlier variable qualifies |
| Props.FunctionDeclarationWins | src/logic/server/data/props.ts:40-46 | a function declaration with the name wins over any variable: the first such declaration's parameters are returned |
| Props.VariableFallback | src/logic/server/data/props.ts:46-65 | with no such function declaration: no callable variable of that name gives undefined; otherwise the first one decides, an arrow-function initializer giving an `ArrowFunction` and a function expression a `FunctionExpression` with its parameters, and any other initializer undefined |
| Props.AbsentNameIsNone | src/logic/server/data/props.ts:33-67 | a name declared nowhere gives undefined, not an error |
| Props.ExtractMember | src/logic/server/data/props.ts:79-95 | keeps the property name; a first-level `style` is `string` before any lookup; a missing declaration throws; a non-object type, or budget 1 or less, gives the type text |
| Props.ExtractMembers | src/logic/server/data/props.ts:113-122 | `map` over the properties: one prop per property in order, each the single-property result; fails exactly when some property fails |
| Props.ParamsOnePerParameter | src/logic/server/data/props.ts:73-106 | fails exactly when the members of an object-typed parameter with budget left fail; otherwise exactly one entry per parameter, in order, named by the parameter: an object type with `depth > 0` is nested props of its members extracted as the first level, anything else its type text; no parameters give `[]` |
| Props.ParamsFailOnlyOnMissingDeclaration | src/logic/server/data/props.ts:88 | when every property at every level has a declaration, extraction succeeds |
| Props.MembersSucceed | src/logic/server/data/props.ts:114 | a property list whose members are all declared, at every level, extracts without throwing |
| Props.MembersHeight | src/logic/server/data/props.ts:110-122 | props extracted at budget `depth` nest at most `depth - 1` levels |
| Props.ParamsHeight | src/logic/server/data/props.ts:92-94 | no extracted parameter nests deeper than the budget `depth` |
| Props.ObjectPropsExhausted | src/logic/server/data/props.ts:111 | `extractObjectProps` at `depth <= 0` returns `[]` |
| Props.NestedStyleNotOverridden | src/logic/server/data/props.ts:113-121 | below the first level a `style` object property is extracted like any other, with no override |
| Paths.Dirname | src/logic/server/data/dependencies.ts:143 | `path.dirname`: the last segment dropped; `/` and `.` are their own parents |
| Paths.NearestAncestor | src/logic/server/data/dependencies.ts:136-146 | a directory the walk answers passes the test |
| Paths.NearestAncestorSpec | src/logic/server/data/dependencies.ts:136-146 | the walk answers the nearest visited ancestor passing the test, stopping before `/` and within the budget, and nothing exactly when none passes |
| Paths.FindProjectRoot | src/logic/server/data/dependencies.ts:133-149 | the loop computes the project-root function |
| Paths.ProjectRootNearest | src/logic/server/data/dependencies.ts:133-149 | the nearest visited ancestor of `dirname(start)` holding a `package.json`, and the working directory exactly when there is none |
| Paths.ProjectRootSkipsFilesystemRoot | src/logic/server/data/dependencies.ts:136 | a `package.json` at `/` is never found |
| PackageVersion.WalkToManifest | src/logic/server/data/dependencies.ts:165-201 | the loop, with its depth counter and `break`s, computes the manifest search function |
| PackageVersion.GetPackageVersion | src/logic/server/data/dependencies.ts:154-234 | the answer of `getPackageVersion`; with walk bound `None` and another fallback directory it is also the copy in getItemDependencies.ts and scripts/versions.ts |
| PackageVersion.VersionNonEmpty | src/logic/server/data/dependencies.ts:203-232 | a version answer is never empty: falsy values become sentinels |
| PackageVersion.FoundManifestIsNearestMatch | src/logic/server/data/dependencies.ts:165-201 | the manifest found is an accepted, readable one on a visited ancestor (never `/`, within the bound), and every directory visited before it was not accepted |
| PackageVersion.ManifestMissingWhenNoMatch | src/logic/server/data/dependencies.ts:165-214 | `package.json not found` when no visited directory is accepted; otherwise the version of the nearest accepted manifest on the walk, or `version not found in package.json` when that version is missing or empty |
| PackageVersion.BoundedWalkStaysClose | src/logic/server/data/dependencies.ts:156-170 | the walk bounded by 10 settles fewer than 10 levels above the entry point's directory |
| PackageVersion.FallbackOnlyOnResolutionFailure | src/logic/server/data/dependencies.ts:215-233 | a resolvable package never reads the project manifest |
| PackageVersion.DevDependencyOverrides | src/logic/server/data/dependencies.ts:225-229 | in the fallback, a non-empty `devDependencies` entry wins |
| PackageVersion.EmptyDevEntryHidesDependency | src/logic/server/data/dependencies.ts:225-229 | an empty `devDependencies` entry hides the `dependencies` one and gives `not in project package.json` |
| PackageVersion.DependencyUsedWithoutDevEntry | src/logic/server/data/dependencies.ts:225-229 | without a `devDependencies` entry the `dependencies` one is answered |
| ImportSets.Add | src/logic/server/data/dependencies.ts:72-74 | `Set.add`: the element is present, insertion order is kept, duplicate-freedom is preserved |
| ImportSets.FromSeq | scripts/versions.ts:144-162 | the set built from a sequence is duplicate-free and holds exactly its elements |
| ImportSets.FromSeqOfDistinct | scripts/versions.ts:162 | a duplicate-free sequence is its own set, in order |
| ImportSets.FromSeqIdempotent | scripts/versions.ts:162 | building the set twice changes nothing |
| ImportSets.StripQuotes | src/logic/server/data/dependencies.ts:31 | the result is the input with at most one leading and one trailing character removed |
| ImportSets.StripQuotesOfQuoted | src/logic/server/data/dependencies.ts:31 | a quoted specifier loses exactly its two quotes |
| ImportSets.StripQuotesOfUnquoted | src/logic/server/data/dependencies.ts:31 | a specifier without quote characters at its ends is unchanged |
| ImportSets.Specifiers | src/logic/server/data/dependencies.ts:28-31 | one stripped specifier per import declaration, in order |
| ImportSets.PartitionSpec | src/logic/server/data/getItemDependencies.ts:24-43 | every specifier is in exactly one of the two sets by the classifier, and both sets are duplicate-free |
| ImportSets.DevCandidates | src/logic/server/data/dependencies.ts:88-97 | the base segments of the externals with a truthy `devDependencies` entry |
| ImportSets.DevSplitSpec | src/logic/server/data/dependencies.ts:79-100 | the dev set is duplicate-free and holds exactly those base segments; an unreadable manifest gives none |
| ImportSets.ScopedBaseIsScope | src/logic/server/data/dependencies.ts:90 | the base segment of `@scope/pkg` is `@scope` |
| ImportSets.ScopedDevDependencyMissed | src/logic/server/data/dependencies.ts:88-97 | as written, `@scope/pkg` listed as a dev dependency under its full name is not put in the dev set, because the lookup asks for `@scope` |
| ImportSets.PackageName | src/logic/server/data/dependencies.ts:90 | corrected: the package name of a specifier not starting with `@` is its first segment |
| ImportSets.ScopedPackageNameKept | src/logic/server/data/dependencies.ts:90 | corrected: `@scope/pkg` and `@scope/pkg/sub` both name the package `@scope/pkg` |
| ImportSets.SplitDevDependencies | src/logic/server/data/dependencies.ts:79-100 | the loop computes the dev split function |
| ImportSets.Annotated | src/logic/server/data/dependencies.ts:111 | `pkg@version` starts with `pkg@` and ends with the version |
| ImportSets.AnnotatedInjective | src/logic/server/data/dependencies.ts:111 | for `@`-free versions, equal annotations mean equal packages and equal versions, scoped packages (which contain `@`) included |
| ImportSets.AnnotateExternal | src/logic/server/data/dependencies.ts:107-113 | each external `p` becomes `p@version(base(p))`, count and order kept |
| ImportSets.AnnotateDev | src/logic/server/data/dependencies.ts:115-120 | each dev dependency `d` becomes `d@version(d)`, count and order kept |
| Dependencies.AliasPrefix | src/logic/server/data/dependencies.ts:59 | a trailing `/*` is removed and nothing else |
| Dependencies.ClassifyImport | src/logic/server/data/dependencies.ts:55-69 | the loop over aliases answers internal exactly for a `.` prefix or a match under a non-empty alias prefix |
| Dependencies.AliasMatchAtSegmentBoundary | src/logic/server/data/dependencies.ts:60-63 | an alias match is the prefix alone or the prefix followed by `/` |
| Dependencies.NoAliasesOnlyRelative | src/logic/server/data/dependencies.ts:35-44 | with no aliases, as from an unreadable `tsconfig.json`, only `.`-prefixed specifiers are internal |
| Dependencies.ScopedPackageNotUnderAtAlias | src/logic/server/data/dependencies.ts:59-63 | the alias `@/*` covers `@/lib/x` but not `@radix-ui/react-slot` |
| Dependencies.PartitionImports | src/logic/server/data/dependencies.ts:28-76 | the loop computes the alias-aware classification into two sets |
| Dependencies.GetItemDependencies | src/logic/server/data/dependencies.ts:15-128 | internal set, dev split at the project root, and, with `includeVersion`, the annotation of each entry by the bounded lookup with count and order kept |
| ItemDependencies.ScopedPackageIsExternal | src/logic/server/data/getItemDependencies.ts:34-38 | `@scope/x` is external and `@/x` internal |
| ItemDependencies.PartitionImports | src/logic/server/data/getItemDependencies.ts:28-43 | the loop computes the prefix classification into two sets |
| ItemDependencies.GetItemDependencies | src/logic/server/data/getItemDependencies.ts:15-95 | as in dependencies.ts but with fixed prefixes and an unbounded version walk |
| Versions.OnlyExactReactSkipped | scripts/versions.ts:152-157 | `react` is not reported and `react-dom` is |
| Versions.FileImportsSpec | scripts/versions.ts:144-162 | the reported imports of a file are duplicate-free and are exactly its stripped specifiers that pass the filter |
| Versions.CollectImports | scripts/versions.ts:146-162 | the loop computes a file's reported imports |
| Versions.ReportFile | scripts/versions.ts:140-176 | a file's report names its basename and pairs each reported import, in order, with the version of the full specifier |
| Versions.FindExternalDependencies | scripts/versions.ts:128-181 | one report per source file, in order, each as above |
| RegistryTypes.FileTypeTags | src/logic/shared/types.ts:6-15 | eight distinct file tags; parsing accepts exactly them and inverts writing them |
| RegistryTypes.StyleIsNoFileType | src/logic/shared/types.ts:23-28 | a file's type is never `registry:style` |
| RegistryTypes.ItemTypeTags | src/logic/shared/types.ts:17 | the item tags are the file tags and `registry:style`; parsing inverts writing them |
| RegistryTypes.ParseString | src/logic/shared/types.ts:24-25 | `z.string()` accepts exactly strings |
| RegistryTypes.Required | src/logic/shared/types.ts:53-54 | a required field parses exactly when present and valid |
| RegistryTypes.Optional | src/logic/shared/types.ts:57-59 | an optional field parses when absent (as undefined) or valid |
| RegistryTypes.ParseElemsSpec | src/logic/shared/types.ts:61-63 | an array parses exactly when every element does, with the elements' values in order |
| RegistryTypes.ParseStringRecord | src/logic/shared/types.ts:69-71 | a string record parses exactly when it is an object of strings, and keeps them |
| RegistryTypes.ParseFileTypeValue | src/logic/shared/types.ts:26 | a file type parses exactly from a string that is a file tag |
| RegistryTypes.ParseFileBase | src/logic/shared/types.ts:23-28 | the four file fields are parsed from an object only |
| RegistryTypes.TargetRefinement | src/logic/shared/types.ts:35-44 | a page or file entry with a missing or empty `target` is rejected with one issue at `["target"]`; other types are accepted as parsed |
| RegistryTypes.FileFields | src/logic/shared/types.ts:23-44 | a parsed file keeps the path, content, type and target given |
| RegistryTypes.ParseItem | src/logic/shared/types.ts:108-118 | a parsed item carries the variant its `type` tag selects, and only a style item has `extends` |
| RegistryTypes.MinimalItem | src/logic/shared/types.ts:51-54 | `name` and `type` alone make a valid item of any tag |
| RegistryTypes.ItemNeedsNameAndTag | src/logic/shared/types.ts:53-54 | an item without `name`, or with a missing or unknown `type`, is rejected |
| RegistryTypes.ExtendsOnlyForStyle | src/logic/shared/types.ts:100-103 | outside the style variant `extends` is ignored whatever it holds; a non-string `extends` rejects a style item |
| RegistryTypes.DependencyListsAreStrings | src/logic/shared/types.ts:61 | a parsed dependency list is exactly the strings of the array given |
| RegistryTypes.RegistryValid | src/logic/shared/types.ts:122-140 | a registry is valid exactly when it has a string name, a URL homepage and an array of valid items |
| StringOrder.Reflexive | src/logic/server/data/libs.ts:7 | the order standing for `localeCompare` is reflexive |
| StringOrder.Total | src/logic/server/data/libs.ts:7 | it is total |
| StringOrder.Antisymmetric | src/logic/server/data/libs.ts:7 | it is antisymmetric |
| StringOrder.Transitive | src/logic/server/data/libs.ts:7 | it is transitive |
| StringOrder.Sort | src/logic/server/data/libs.ts:7 | the sort is sorted and a permutation of its input |
| StringOrder.SortedUnique | src/logic/server/data/libs.ts:7 | two sorted permutations of the same strings are equal, so the sort order is determined |
| StringOrder.SortIdempotent | src/logic/server/data/libs.ts:7 | sorting a sorted list changes nothing |
| Libs.LibName | src/logic/server/data/libs.ts:15 | the folder name without its last character |
| Libs.LibEntrySpec | src/logic/server/data/libs.ts:12-24 | name as above; homepage is the prefix plus the raw folder name; one `registry:lib` item per file named by its path, sorted, none lost or added |
| Libs.LibItemValid | src/logic/server/data/libs.ts:17-22 | every assembled item passes the item schema |
| Libs.GetLibs | src/logic/server/data/libs.ts:5-28 | one entry per folder, empty ones included, in sorted folder order |
| Libs.RegistriesInFolderOrder | src/logic/server/data/libs.ts:7-25 | the entries' raw folder names are sorted and are the folders given |
| ComponentData.ToPropType | src/logic/shared/component-data.ts:40-48 | a type name among the eight tags is kept, any other becomes `other` |
| ComponentData.ToPropTypeIdempotent | src/logic/shared/component-data.ts:5-14 | normalising a normalised type changes nothing |
| ComponentData.ToPropData | src/logic/shared/component-data.ts:50-58 | name, description, default and required are copied, and only the type is normalised |
| ComponentData.ComponentOf | src/logic/shared/component-data.ts:67-72 | a component record keeps the path, display name and description, with one normalised prop per docgen prop in order |
| ComponentData.GetComponentData | src/logic/shared/component-data.ts:60-76 | one record per parsed component, in parser order, each with the given path |
| ComponentData.ComponentsOfFilesSpec | src/logic/shared/component-data.ts:86-91 | every aggregated component comes from one of the bare listed names, and the count is the sum over the files |
| ComponentData.GetLibraryData | src/logic/shared/component-data.ts:78-94 | the directory as `filePath`, with the components of its entries concatenated in listing order; a failed listing fails |
| Base64.SymbolValueOfSymbol | src/logic/shared/svg.ts:50 | each of the 64 symbols of the RFC 4648 alphabet decodes back to its value |
| Base64.Encode | src/logic/shared/svg.ts:50 | four symbols per started group of three bytes |
| Base64.DecodeEncode | src/logic/shared/svg.ts:50 | decoding the encoding gives the bytes back |
| Base64.EncodeInjective | src/logic/shared/svg.ts:50 | different byte strings encode differently |
| Base64.EncodeAlphabet | src/logic/shared/svg.ts:50 | the encoding uses alphabet symbols, with `=` padding only at its end |
| Base64.Btoa | src/logic/shared/svg.ts:50 | `btoa` succeeds exactly when every character is below 256, with the base64 length |
| Base64.BtoaRoundTrip | src/logic/shared/svg.ts:50 | the output decodes to the character codes of the input |
| Svg.ReplaceAttrHolds | src/logic/shared/svg.ts:22-31 | after a `key="[^"]*"` pass with a quote-free value, every match holds that value |
| Svg.AllHoldFixed | src/logic/shared/svg.ts:22-31 | a pass over text whose every match holds the value changes nothing |
| Svg.ReplaceAttrIdempotent | src/logic/shared/svg.ts:22-31 | each replacement pass is idempotent for a quote-free value |
| Svg.NoMatchUnchanged | src/logic/shared/svg.ts:22-31 | text without `key="` is unchanged |
| Svg.RecolourHolds | src/logic/shared/svg.ts:20-31 | after the fill pass every fill match holds the fill colour; after both, every stroke match holds the stroke colour |
| Svg.RecolourNotIdempotent | src/logic/shared/svg.ts:22-31 | a counterexample: with stroke colour `fill=`, recolouring twice differs from recolouring once |
| Svg.MatchEnvelope | src/logic/shared/svg.ts:36 | the match starts at the first `<svg`, its open tag ends at the first `>` after it, and it closes at the last `</svg>` |
| Svg.MatchEnvelopeNone | src/logic/shared/svg.ts:36-37 | there is no match exactly when no `<svg`…`>`…`</svg>` exists |
| Svg.FirstShape | src/logic/shared/svg.ts:41 | the first position where a shape tag name starts |
| Svg.FindShapeTag | src/logic/shared/svg.ts:41 | the first shape tag and the `>` closing it |
| Svg.FindShapeTagNone | src/logic/shared/svg.ts:41 | there is no shape tag exactly when the search finds none |
| Svg.FirstShapeTagUnique | src/logic/shared/svg.ts:41 | the first shape tag is unique |
| Svg.InsertFill | src/logic/shared/svg.ts:40-43 | as written: the attribute goes right before the `>` of the first tag whose name starts with a shape name, or the text is unchanged |
| Svg.InsertFillIntended | src/logic/shared/svg.ts:40-43 | corrected: the first tag named exactly after a shape gets the attribute before its `/>` or `>` |
| Svg.SvgToDataUrl | src/logic/shared/svg.ts:7-51 | succeeds exactly when the processed markup (with the insertion as written) is Latin-1; the output is the data-URL prefix plus a payload that decodes to the processed markup |
| Svg.AttributesKeepMarkup | src/logic/shared/svg.ts:17-34 | with a `fill=` or `stroke=` left after recolouring, the recoloured trimmed markup is encoded, and every stroke match holds the stroke colour |
| Svg.EnvelopeOnly | src/logic/shared/svg.ts:34-46 | as written: without an envelope nothing is inserted; with one, only the envelope is kept, with at most one fill attribute added before a `>` |
| Svg.EnvelopeOnlyIntended | src/logic/shared/svg.ts:34-46 | with the corrected insertion, the same: only the envelope, with at most one fill attribute added where a tag closes |
| Svg.InsertFillAtMostOnce | src/logic/shared/svg.ts:40-43 | as written, at most one attribute is added, before a `>` |
| Svg.InsertFillIntendedAtMostOnce | src/logic/shared/svg.ts:40-43 | corrected, at most one attribute is added, before a `>` or `/>` |
| Svg.SelfClosingTagBroken | src/logic/shared/svg.ts:41-42 | as written, a self-closing first shape is left with `/ fill="…">` |
| Svg.SelfClosingTagKept | src/logic/shared/svg.ts:41-42 | corrected, a self-closing shape keeps `/>` right after the attribute |
| Svg.SelfClosingPathExample | src/logic/shared/svg.ts:41-42 | as written, `<path/>` becomes `<path/ fill="red">` |
| Svg.SelfClosingPathIntended | src/logic/shared/svg.ts:41-42 | corrected, `<path/>` becomes `<path fill="red"/>` |
| Svg.GradientTakesFill | src/logic/shared/svg.ts:41 | as written, `<linearGradient` counts as a `line` shape |
| Svg.GradientSkipped | src/logic/shared/svg.ts:41 | corrected, `<linearGradient` is not a shape and the following `<path/>` is found |
| Svg.GradientExampleAsWritten | src/logic/shared/svg.ts:41-42 | as written, the gradient gets the fill |
| Svg.GradientExampleIntended | src/logic/shared/svg.ts:41-42 | corrected, the path after the gradient gets the fill |
| LibSidebar.Narrow | src/libs/internal/ui/sidebar.tsx:35-40 | a narrowed library keeps its name and exactly its matching items, in order |
| LibSidebar.NarrowIdempotent | src/libs/internal/ui/sidebar.tsx:35-40 | narrowing twice is narrowing once |
| LibSidebar.EmptyFilterShowsAll | src/libs/internal/ui/sidebar.tsx:30-31 | an empty filter shows the libraries as given |
| LibSidebar.FilterLibsSpec | src/libs/internal/ui/sidebar.tsx:33-46 | a library is shown, narrowed, exactly when an item or its own name contains the lower-cased filter, and nothing else is shown |
| LibSidebar.NameOnlyMatchListsEmpty | src/libs/internal/ui/sidebar.tsx:34-45 | a library matched by name alone is listed with no items |
| LibSidebar.FilterLibsOrder | src/libs/internal/ui/sidebar.tsx:34-45 | the shown libraries keep their order |
| LibSidebar.FilterLibsIdempotent | src/libs/internal/ui/sidebar.tsx:33-46 | filtering the shown list again with the same text changes nothing |
| ComponentSidebar.Narrow | src/components/libs/internal/sidebar.tsx:27-32 | a narrowed library keeps its name and exactly its matching item names, in order |
| ComponentSidebar.EmptyFilterShowsAll | src/components/libs/internal/sidebar.tsx:22-23 | an empty filter shows the libraries as given |
| ComponentSidebar.FilterLibsSpec | src/components/libs/internal/sidebar.tsx:25-38 | a library is shown, narrowed, exactly when an item name or its own name matches; nothing else is shown; order is kept |
| Hotkey.HandleKeyDown | src/logic/client/use-hotkey.tsx:45-48 | the default is prevented exactly when the callback runs |
| Hotkey.PressedIffSomeMatches | src/logic/client/use-hotkey.tsx:20-43 | the event is the hotkey exactly when some combination matches |
| Hotkey.NoCombinationsNeverPressed | src/logic/client/use-hotkey.tsx:20 | with no combinations nothing matches and nothing happens |
| Hotkey.ModifiersMatchRedundant | src/logic/client/use-hotkey.tsx:22-42 | a combination matches exactly when the key agrees ignoring case and every requested modifier is held, so `modifiersMatch` adds nothing |
| Hotkey.KeyCaseInsensitive | src/logic/client/use-hotkey.tsx:21 | lower-casing either key changes no match |
| Hotkey.RequestedModifierRequired | src/logic/client/use-hotkey.tsx:22-25 | a match has every requested modifier held |
| Hotkey.ExtraModifiersIgnored | src/logic/client/use-hotkey.tsx:22-29 | holding more modifiers never spoils a match |
| Hotkey.PlainKeyMatchesAnyModifiers | src/logic/client/use-hotkey.tsx:21-33 | with no modifier requested, only the key decides |
| Hotkey.HandleKeyDownSpec | src/logic/client/use-hotkey.tsx:45-48 | the callback runs and the default is prevented exactly when some combination matches |
| Calendar.MonthLength | src/components/libs/internal/calendar.tsx:50-52 | months have 28 to 31 days, February 29 exactly in leap years |
| Calendar.DaysInMonth | src/components/libs/internal/calendar.tsx:50-52 | day 0 of the next month is between 28 and 31 |
| Calendar.DaysInMonthIsMonthLength | src/components/libs/internal/calendar.tsx:50-52 | it is the length of the month reached by carrying `month + 1`, with the constructor's two-digit-year rule |
| Calendar.DaysInMonthExact | src/components/libs/internal/calendar.tsx:50-52 | outside years 0-99 it is the month's length |
| Calendar.DaysInMonthTwoDigitYear | src/components/libs/internal/calendar.tsx:50-52 | in years 0-99 it is the length in 1900 + year, shorter only for February of year 0 |
| Calendar.ShiftMonths | src/components/libs/internal/calendar.tsx:61-75 | the month index moves by exactly `months`, with a month in 0-11 and the day clamped to the new month's length |
| Calendar.AddMonths | src/components/libs/internal/calendar.tsx:61-75 | the step-by-step `Date` updates compute the month shift |
| Calendar.SubMonths | src/components/libs/internal/calendar.tsx:77-91 | the step-by-step updates compute the backward month shift |
| Calendar.ShiftMonthsValid | src/components/libs/internal/calendar.tsx:61-75 | a valid date stays valid |
| Calendar.ShiftMonthsYearCarry | src/components/libs/internal/calendar.tsx:61-75 | shifting by twelve months a year changes the year and keeps the month; the day is kept, clamped to the new month's length, which changes only February 29 in a non-leap year |
| Calendar.ShiftMonthsRoundTrip | src/components/libs/internal/calendar.tsx:61-91 | for a day up to 28, shifting forward then back gives the date back |
| Calendar.ShiftMonthsLater | src/components/libs/internal/calendar.tsx:106-108 | a forward shift gives a later date |
| Calendar.TimeOrder | src/components/libs/internal/calendar.tsx:121-124 | the time key orders valid dates by year, month and day, and equal keys mean equal dates |
| Calendar.Click | src/components/libs/internal/calendar.tsx:110-134 | after any click an end is set only with a start, and then the start is earlier |
| Calendar.ClickStartsRange | src/components/libs/internal/calendar.tsx:117-119 | with no start or a full range, a click starts a new range |
| Calendar.ClickStartClears | src/components/libs/internal/calendar.tsx:121-123 | clicking the start day again clears both |
| Calendar.ClickCompletesRange | src/components/libs/internal/calendar.tsx:124-129 | another day completes the range with the two days, the earlier first |
| Calendar.ThirdClickRestarts | src/components/libs/internal/calendar.tsx:117-119 | a third click after a completed range starts over |
| Calendar.ReportedAfterClickOrdered | src/components/libs/internal/calendar.tsx:93-99 | after a click, a range is reported exactly when one was open, and a reported range is ordered |
| Calendar.RangePicker.constructor | src/components/libs/internal/calendar.tsx:18-48 | the selection is the initial one, with no hover, displaying the start's month or today's |
| Calendar.RangePicker.HandleDateClick | src/components/libs/internal/calendar.tsx:110-134 | the selection moves by the click rule, hover is cleared, the display is kept and the selection stays ordered |
| Calendar.RangePicker.HandleDateHover | src/components/libs/internal/calendar.tsx:136-141 | hover is recorded only while a range is open, and the rest is kept |
| Calendar.RangePicker.HandleMouseLeave | src/components/libs/internal/calendar.tsx:335-337 | leaving the month grid clears the hovered day exactly while a range is open, keeps it otherwise, and changes nothing else; a hover only while open stays so |
| Calendar.RangePicker.HandlePrevMonths | src/components/libs/internal/calendar.tsx:102-104 | the display moves two months back, and the selection is kept |
| Calendar.RangePicker.HandleNextMonths | src/components/libs/internal/calendar.tsx:106-108 | the display moves two months on, and the selection is kept |
| Calendar.RangePicker.DisplayedMonths | src/components/libs/internal/calendar.tsx:301-302 | the displayed month and the next one, in order |
| Calendar.RangePicker.Report | src/components/libs/internal/calendar.tsx:93-99 | the range is reported exactly when both ends are set or both are empty |
| Calendar.RangeHighlight | src/components/libs/internal/calendar.tsx:191-213 | with both ends, a day is shaded exactly between them in either order; the earliest is rounded left, the latest right, and a one-day range all round |
| Calendar.RangeHighlightSymmetric | src/components/libs/internal/calendar.tsx:195-196 | swapping the ends changes no cell |
| Calendar.HoverPreview | src/components/libs/internal/calendar.tsx:214-237 | with a start only, the start is full, the hovered day is rounded on its outer side, and the days strictly between are lightly shaded |
| Calendar.TodayMark | src/components/libs/internal/calendar.tsx:241-249 | only today gets a ring, and other days keep their text colour |
| Calendar.TodayRingOnlyWhenUnshaded | src/components/libs/internal/calendar.tsx:241-249 | today gets the strong ring exactly when it is unshaded, and a selected end keeps its look |
| PropField.OrElse | src/components/libs/internal/prop-field.tsx:49 | `??`: the default when given, else the fallback |
| PropField.CleanOption | src/components/libs/internal/prop-field.tsx:79 | an option has no `"` and is no longer than its member |
| PropField.Options | src/components/libs/internal/prop-field.tsx:79-80 | no option is `undefined` or holds a `"` |
| PropField.OptionsMembers | src/components/libs/internal/prop-field.tsx:77-80 | the options are exactly the cleaned members other than `undefined` |
| PropField.OptionsOrder | src/components/libs/internal/prop-field.tsx:77-80 | the options keep the members' order |
| PropField.EnumOptionsCount | src/components/libs/internal/prop-field.tsx:77-80 | there are at most one more options than `|` characters |
| PropField.Field | src/components/libs/internal/prop-field.tsx:42-120 | rendering throws exactly for a union without `raw` |
| PropField.FieldDispatch | src/components/libs/internal/prop-field.tsx:42-120 | `string` or `number` give an input (a number input only for `number`), `boolean` a checkbox, `enum` a select, anything else a JSON text area, always for the prop's name |
| PropField.FieldDefaults | src/components/libs/internal/prop-field.tsx:49-110 | the defaults are `def ?? ''`, `def ?? false` and `def ?? options[0]`; `required` applies to inputs and selects only |

## Left out

- Filesystem reads, `existsSync`, `JSON.parse`, `require.resolve` and `process.cwd` are inputs:
  - a map from directory to manifest;
  - a map from package to entry point;
  - the working directory.
  Console logging is not modelled.
- `getReactProps` (props.ts:17-31) is not modelled. It creates a TypeScript project and reads a file.
- The TypeScript type checker (`getType`, `isObject`, `getText`, `getCallSignatures`, `isKind`) is an abstract type tree.
- Whether ts-morph calls an array or tuple type an object is part of that input.
- Dependencies.GetItemDependencies: the `forEach(async …)` in dependencies.ts is not awaited. Each callback awaits the `tsconfig.json` read before adding its specifier to a set, while the main body awaits the `package.json` read and then copies both sets. So the returned external and internal lists, and the dev split built from them, can miss specifiers whose callbacks have not resumed. The model is the schedule in which every classification finishes first.
- `Promise.all` is a sequential map.
- zod's mechanics are modelled only as far as validity and values go. Issue messages and issue order are simplified.
- URL validity is a predicate parameter.
- The react-docgen parser is a function parameter.
- `glob` results are given sequences.
- `localeCompare` is a fixed total order on strings.
- Regular expressions are modelled by what they match, not by a regex engine.
- Svg.SvgToDataUrl: `$` substitution patterns inside a colour passed to `String.replace` are not modelled. Colours are inserted literally.
- Svg.ReplaceAttrIdempotent: idempotence is proved per replacement pass, not for the whole recolouring step. The whole step is not idempotent (Svg.RecolourNotIdempotent): a stroke colour containing `fill=` followed by a `"` creates a new fill match.
- Svg.RecolourHolds: after both passes, fill matches are guaranteed only as left by the fill pass, for the same reason.
- `ToLower` (sidebar filters, hotkey keys) lower-cases ASCII letters only. JavaScript's `toLowerCase` covers all of Unicode.
- Calendar dates are (year, month, day) integers. Time of day, time zones and daylight saving are not modelled.
- The time key orders dates, but it is not a millisecond count.
- `getFirstDayOfMonth` and the `renderMonth` cell construction are not modelled. This includes the two-digit-year rule of `new Date(year, month, day)` for rendered cells.
- The `(default)` label on a select option is not modelled.
- React rendering, hooks, the 200 ms debounce, `document` listeners, focus handling and the react-hook-form `Controller` are not modelled. The sidebar filter is modelled on its debounced text.
- The calendar constructor models the state after the mount effect has run. The intermediate render with an empty selection is not modelled.
- scripts/props.ts, the test fixtures and the remaining UI components are not part of this model.

## Findings

| source | as written | input that shows it | evidently intended | confidence | as-written member | corrected member |
|---|---|---|---|---|---|---|
| src/logic/shared/svg.ts:40-43 | the fill attribute goes right before the `>` closing the first shape tag, so a self-closing tag is split | `<svg><path/></svg>` with no fill or stroke gives `<path/ fill="currentColor">` | `<path fill="currentColor"/>` | not executed | Svg.SelfClosingPathExample | Svg.SelfClosingPathIntended |
| src/logic/shared/svg.ts:41 | the shape-name alternation has no word boundary, so `<linearGradient` is taken for `<line` | `<svg><linearGradient/><path/></svg>` puts the fill on the gradient | the fill goes on the first real shape, the `<path/>` | not executed | Svg.GradientExampleAsWritten | Svg.GradientExampleIntended |
| src/logic/server/data/dependencies.ts:90 | the dev-dependency lookup uses `pkg.split('/')[0]`, which is the scope alone for a scoped package | `@radix-ui/react-slot` listed in `devDependencies` is looked up as `@radix-ui` and not reported as a dev dependency | the lookup uses `@radix-ui/react-slot` | not executed | ImportSets.ScopedDevDependencyMissed | ImportSets.ScopedPackageNameKept |

`Svg.InsertFill` models the insertion as written, and `Svg.FillFirstShape`,
`Svg.Process` and `Svg.SvgToDataUrl` use it, so the data URL is the one the
code produces. `Svg.InsertFillIntended` is the corrected insertion. The
corrected envelope step `Svg.FillFirstShapeIntended` uses it, with
`Svg.EnvelopeOnlyIntended` proved about it.

The dependency analysers keep the base segment as written. `ImportSets.PackageName`
is the corrected package name.
