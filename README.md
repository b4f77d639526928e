# depviz-cil in Dafny

A model of the core of depviz-cil, a command-line tool that reads a Node.js
project's `package.json` and the packages installed under `node_modules`, and
builds the project's dependency tree. It then shows the tree two ways:

- as indented text in the terminal;
- as a browser page (a force graph, a tree layout and a table).

The model covers:

- the tree builder, `src/core/analyzer.ts` (module `Analyzer`);
- the text renderer, `src/core/renderer.ts` (modules `Renderer` and `Sizes`);
- the tree's data types, `src/core/types.ts` (module `Types`). JS objects used as
  dictionaries become the ordered records of module `Records`;
- the web server's data preparation and page templating, `src/server/WebUI.ts`
  (module `WebUI`);
- the browser view's tree helpers and labels, `src/ui/components/Graph.ts` (module
  `Graph`).

`Scenarios` works one small installed project all the way through analysis and
rendering.

How the model is built:

- **Files as a value.** The filesystem is an `Analyzer.Disk` value, with three parts:
  - the root manifest;
  - the manifest found under `node_modules/<name>` for each name;
  - the file sizes the directory walk reports for each package.
- **Methods proved against functions.** Each operation that works by looping or by
  updating state is a method, and it is proved equal to a specification function:
  - `BuildDependencyTree` and `BuildDependencies` to `Build` and `BuildChildren`;
  - `AnalyzeProject` to `Analyze`;
  - `RenderTreeNode` to `Rendered`, and through it to `Lines`;
  - `HierarchyToNodes` and `FlattenDependencies` to `Preorder`.

  The lemmas state their properties about those functions.
- **The visited set.** `buildDependencyTree` mutates one `Set` that every call in a
  root-level branch shares. In the model it is a `set<string>` passed in and
  returned.

  `Build` also returns the keys it expanded, in order. That lets the model state that
  a branch expands each `name@version` key at most once, and stubs every repeat.

Behaviours of the code worth noting:

- **A name in both maps.** Suppose the root lists the same name under both
  `dependencies` and `devDependencies`. Both subtrees are built. The devDependency's
  tree then overwrites the runtime entry in place, and it keeps the runtime entry's
  position. So the result holds one child for that name, the dev one, not two
  independent expansions. This is stated in `Analyzer.AnalyzeChildren`,
  `Analyzer.AnalyzeOrder` and `Analyzer.AnalyzeRoot`.
- **Scope of the visited set.** It is shared by all siblings of a root-level branch,
  not only by the nodes on one path. So a package met in an earlier sibling's subtree
  is a duplicate stub in a later sibling.
- **Visited keys use the declared range.** The key is built from the declared range
  with `^` or the first `~` stripped, not from the installed version. The node itself
  carries the installed manifest's `version`. In `Scenarios`, `a@^1.0.0` is visited
  as `a@1.0.0` and shown as `a@1.2.0`.
- **Range stripping.** `version.replace(/^\^|~/, '')` removes only the first match:
  - a leading `^`;
  - otherwise the first `~`, wherever it is.

  See `Analyzer.StripRange`.

## Model

| member | source | states |
|---|---|---|
| Analyzer.ReadPackageJson | src/core/analyzer.ts:6-13 | a readable manifest yields its parsed contents; any failure yields the error with the fixed prefix "Failed to read package.json: " |
| Analyzer.StripRange | src/core/analyzer.ts:73 | a leading `^` is removed; otherwise the first `~` anywhere is removed; otherwise the range is unchanged |
| Analyzer.GetDependencySize | src/core/analyzer.ts:15-39 | the size is the sum of the sizes of the files walked under the package, and 0 when the directory is absent |
| Analyzer.BuildDependencyTree | src/core/analyzer.ts:41-90 | the method returns exactly the tree (or error) and the final visited set given by the specification `Build` |
| Analyzer.BuildDependencies | src/core/analyzer.ts:67-77 | the loop over a manifest's dependencies threads the visited set through the siblings in order and stops at the first failure, as `BuildChildren` specifies |
| Analyzer.BuildRootEntries | src/core/analyzer.ts:97-104 | each root-level entry is built from a fresh, empty visited set and stored under its name, as `BuildRoot` specifies |
| Analyzer.AnalyzeProject | src/core/analyzer.ts:92-111 | the method returns exactly `Analyze(disk)`; the options argument plays no part |
| Analyzer.StubIgnoresDisk | src/core/analyzer.ts:47-58 | a key already visited gives a childless stub with `duplicateOf = name@version` and the inherited dev flag, leaves the visited set unchanged and reads nothing from disk |
| Analyzer.BuildTraced | src/core/analyzer.ts:47-77 | the visited set grows by exactly the keys expanded, each of them new and none expanded twice |
| Analyzer.BuildChildrenTraced | src/core/analyzer.ts:70-77 | across the sibling loop, the visited set grows by exactly the keys expanded, each new and none twice |
| Analyzer.BuildExpands | src/core/analyzer.ts:60-86 | an unvisited key with a readable manifest is added to the visited set and expanded from its runtime dependencies; a child's failure is wrapped with "Failed to analyze dependency <name>: " |
| Analyzer.ChildrenStep | src/core/analyzer.ts:70-77 | one loop turn: the first entry is built with the current visited set; a failure ends the loop, a success is stored under its name and the loop continues with the child's visited set |
| Analyzer.RootStep | src/core/analyzer.ts:97-99 | one turn of a root-level loop: a failure propagates, a success is stored under its name |
| Analyzer.BuildResolved | src/core/analyzer.ts:41-90 | every node of a built subtree carries the edge's dev flag; stubs have no children, size or license; expanded nodes have a size; every record has unique keys; nothing is marked outdated |
| Analyzer.BuildChildrenKeys | src/core/analyzer.ts:67-77 | the children of an expanded node are keyed exactly by its manifest's runtime dependency names, in declared order |
| Analyzer.ExpandedNode | src/core/analyzer.ts:79-86 | an expanded node has the installed manifest's version and license, the walked size, no duplicate marker, and children keyed by the manifest's dependencies |
| Analyzer.MissingManifest | src/core/analyzer.ts:62-64 | a package with no installed manifest fails with the read error wrapped by the builder's message |
| Analyzer.BuildFailurePrefix | src/core/analyzer.ts:87-89 | any failure below a node is reported as "Failed to analyze dependency <name>: …" for that node's name |
| Analyzer.BuildCounted | src/core/analyzer.ts:47-77 | the non-stub nodes of a built subtree are as many as the keys expanded, and every stub names a key visited by then |
| Analyzer.BranchExpandsEachKeyOnce | src/core/analyzer.ts:44-60 | in one root-level branch, the keys expanded are distinct and are exactly the visited set, the non-stub nodes number the visited keys, and every stub names a visited key |
| Analyzer.BuildRootKeys | src/core/analyzer.ts:97-104 | a root-level loop keeps existing names in place; its key set is the old keys plus the entries' names; when no entry name is present yet, the names are appended in declared order |
| Analyzer.BuildRootOrder | src/core/analyzer.ts:97-104 | a root-level loop leaves the existing names in place followed by the entries' names not already present, in declared order, and keeps keys unique |
| Analyzer.BuildRootValues | src/core/analyzer.ts:97-104 | each entry's name maps to the subtree built for it from an empty visited set with the loop's dev flag; other names keep their value |
| Analyzer.AnalyzeRoot | src/core/analyzer.ts:92-111 | the root has the root manifest's name, version and license and no other fields; its children are keyed by the union of both maps, runtime names first in declared order |
| Analyzer.AnalyzeOrder | src/core/analyzer.ts:92-111 | the root's children are the runtime dependencies in declared order, then the devDependencies that are not also runtime dependencies, in declared order; no name occurs twice |
| Analyzer.AnalyzeChildren | src/core/analyzer.ts:96-104 | a devDependency's name holds its dev subtree, even over a runtime entry of the same name; a runtime-only name holds its runtime subtree; each subtree is built from a fresh visited set |
| Analyzer.RootUnreadable | src/core/analyzer.ts:93 | an unreadable root manifest aborts the analysis with the read error, unwrapped |
| Records.Put | src/core/analyzer.ts:71 | assignment to a record key replaces an existing key's value in place or appends a new key; every other key keeps its value |
| Types.PreorderCount | src/core/types.ts:1-10 | the pre-order list of a tree has one entry per node |
| Sizes.UnitIndexIsLargest | src/core/renderer.ts:30-41 | the unit chosen is the largest one (up to GB) whose threshold the byte count reaches |
| Sizes.ScaleSize | src/core/renderer.ts:32-38 | the division loop stops at the chosen unit and leaves the size as bytes divided by 1024 to that power |
| Sizes.DecimalRoundTrip | src/core/renderer.ts:40 | the decimal digits printed for a whole number read back as that number |
| Sizes.FixedIsNearestTenth | src/core/renderer.ts:40 | `toFixed(1)` prints the tenth nearest to the value, ties upward |
| Sizes.BytesBelowKilobyte | src/core/renderer.ts:30-41 | fewer than 1024 bytes are printed as the byte count with ".0" and unit B |
| Sizes.WholeKilobytes | src/core/renderer.ts:30-41 | a whole number of kilobytes below 1024 is printed as that number with ".0" and unit KB |
| Sizes.WholeGigabytes | src/core/renderer.ts:30-41 | a whole number of gigabytes is printed in GB however large, since GB is the last unit |
| Sizes.SizeTextExamples | src/core/renderer.ts:30-41 | 2048 bytes print as "2.0KB", 1280 as "1.3KB", and 1536 with the graph view's space as "1.5 KB" |
| Renderer.FormatSize | src/core/renderer.ts:30-41 | the method prints the scaled size and the unit with no space between them |
| Renderer.FormatNode | src/core/renderer.ts:11-28 | name, "@version", then " (duplicate)", " (dev)", " [license]" and " (size)", in that order, each only when its field is truthy |
| Renderer.RenderTreeNode | src/core/renderer.ts:43-66 | the method's output is the node's line followed by each child's rendering, with the last child drawn with the last-branch connector; nothing beyond the depth limit |
| Renderer.RenderedIsLines | src/core/renderer.ts:43-66 | the rendered string is the newline-terminated text of the line list `Lines` |
| Renderer.RenderTree | src/core/renderer.ts:68-70 | rendering starts from the root with an empty prefix, as the last node, at depth 0 |
| Renderer.LinesArePreorder | src/core/renderer.ts:55-63 | without a depth limit there is one line per node, in pre-order |
| Renderer.LinesShaped | src/core/renderer.ts:52-53 | a line at depth d has a gutter of d four-character indent blocks, and a branch or last-branch connector |
| Renderer.LimitDropsDeepLines | src/core/renderer.ts:50 | a depth limit keeps exactly the unlimited lines at or above the limit, unchanged |
| Renderer.NegativeLimitRendersNothing | src/core/renderer.ts:50 | a negative depth limit renders the empty string |
| Renderer.RootOnlyAtDepthZero | src/core/renderer.ts:50-55 | a depth limit of 0 renders the root's line alone |
| Renderer.DirectDependenciesAtDepthOne | src/core/renderer.ts:57-63 | a depth limit of 1 renders the root, then one line per direct dependency; only the last uses the last-branch connector |
| Renderer.OneNewlinePerLine | src/core/renderer.ts:55 | joining lines with a trailing newline each gives exactly one newline per line |
| Renderer.LabelIsOneLine | src/core/renderer.ts:11-28 | a node label has no newline when the node's name, version and license have none |
| Renderer.OneLinePerNode | src/core/renderer.ts:43-70 | the unlimited rendering of a tree with newline-free fields has exactly as many newlines as nodes |
| WebUI.ToD3 | src/server/WebUI.ts:54-68 | name, version, license, dev flag and duplicate marker are kept; size and outdated are dropped; every dependency is converted under its own key, in order |
| WebUI.ToD3Count | src/server/WebUI.ts:54-68 | the conversion keeps the number of nodes |
| WebUI.ToD3Idempotent | src/server/WebUI.ts:54-68 | converting twice is converting once |
| WebUI.ToD3HasNoSizes | src/server/WebUI.ts:54-68 | no node of the converted tree carries a size or an outdated flag |
| WebUI.ReplaceAllNoMatch | src/server/WebUI.ts:45 | a page without the placeholder is left unchanged |
| WebUI.ReplaceAllFirst | src/server/WebUI.ts:45 | the first placeholder is replaced and the scan resumes right after it |
| WebUI.ReplaceAllTwice | src/server/WebUI.ts:45 | the global flag replaces every placeholder, not only the first |
| WebUI.PageEmbedsJson | src/server/WebUI.ts:45 | a template holding the placeholder once gets the JSON text verbatim in its place |
| WebUI.ExpandLiteral | src/server/WebUI.ts:45 | a replacement pattern without `$` stands for itself |
| WebUI.AsWrittenIsLiteralWithoutDollar | src/server/WebUI.ts:45 | the pattern-expanding replace equals the literal one when the JSON text has no `$` |
| WebUI.PagesAgreeWithoutDollar | src/server/WebUI.ts:45 | the page as built equals the intended page whenever the JSON text has no `$` |
| WebUI.DollarPatternCounterexample | src/server/WebUI.ts:45 | with the JSON text `"$&"`, the page as built holds the placeholder again, where the intended page holds the JSON |
| WebUI.BrowserSeesNoSizes | src/server/WebUI.ts:54-68 | in the data the page hands the browser view, no node has a size, so every size cell reads "Unknown", no node is drawn as "large" or "outdated", and no status reads "Outdated" |
| WebUI.LargePackageDrawnAsDirect | src/server/WebUI.ts:54-68 | a package measured at 600000 bytes has class "large" in the analysed tree but class "direct" in the data sent to the browser |
| WebUI.ToD3Sized | src/server/WebUI.ts:54-68 | the conversion with size and outdated kept carries both fields over and converts every dependency under its own key, in order |
| WebUI.ToD3SizedKeepsTree | src/server/WebUI.ts:54-68 | with size and outdated kept, the browser view receives the analysed tree unchanged |
| Graph.HierarchyToNodes | src/ui/components/Graph.ts:233-245 | the list gets one entry per tree node, in pre-order, each with id `name@version` |
| Graph.FlattenDependencies | src/ui/components/Graph.ts:482-488 | the table rows are the tree's nodes in pre-order |
| Graph.RowsMatchNodes | src/ui/components/Graph.ts:482-488 | the table rows and the graph nodes list the same nodes in the same order, one per node |
| Graph.HierarchyToLinks | src/ui/components/Graph.ts:247-258 | the method emits, node by node, one link per dependency, from the node's id to the dependency's `name@version` |
| Graph.LinkCountIsNodeCountMinusOne | src/ui/components/Graph.ts:247-258 | the graph of a tree has exactly one link fewer than nodes |
| Graph.LinksConnectListedNodes | src/ui/components/Graph.ts:247-258 | every link's source and target are ids of listed nodes |
| Graph.NodeClass | src/ui/components/Graph.ts:226-231 | the class is "duplicate", "large" (over 500000 bytes), "outdated" or "direct": the first whose condition holds, each iff its condition holds and the earlier ones fail |
| Graph.StatusLabel | src/ui/components/Graph.ts:294 | the status is "Duplicate" exactly for a node with a duplicate marker, "Outdated" exactly for a non-duplicate outdated node, and "Up to date" otherwise |
| Graph.StatusAgreesWithClass | src/ui/components/Graph.ts:294 | the status says Duplicate exactly when the class is duplicate; a direct node is Up to date |
| Graph.LicenseLabel | src/ui/components/Graph.ts:288 | the license cell shows the license, or "Not specified" when it is missing or empty |
| Graph.FormatSize | src/ui/components/Graph.ts:305-316 | the graph view prints the same scaled size as the renderer, with a space before the unit |
| Graph.SizeLabel | src/ui/components/Graph.ts:291 | the size cell is the formatted size, or "Unknown" for a missing or zero size |
| Graph.DependencyCountLabel | src/ui/components/Graph.ts:297 | the panel shows the number of keys of the dependency record, then " direct dependencies" |
| Graph.TableRow | src/ui/components/Graph.ts:466-473 | a row has five cells: name, version, license label, size label and status label |
| Graph.Lower | src/ui/components/Graph.ts:324 | lower-casing keeps the length and maps each ASCII letter to lower case |
| Graph.LowerIdempotent | src/ui/components/Graph.ts:324 | lower-casing twice is lower-casing once |
| Graph.Opacity | src/ui/components/Graph.ts:318-328 | the opacity is 1 or 0.1; 1 for an empty query, otherwise 1 exactly when the lower-cased name contains the lower-cased query |
| Graph.SearchIgnoresQueryCase | src/ui/components/Graph.ts:324-326 | a query and its lower-cased form give the same opacity |
| Graph.SearchForOwnName | src/ui/components/Graph.ts:324-326 | searching for a node's own name in any case keeps it opaque; a query longer than the name dims it |
| Graph.ToHierarchy | src/ui/components/Graph.ts:403-415 | name, version, license, size, duplicate marker and outdated flag are kept; the children are the converted dependencies, in order |
| Graph.TreeViewRoot | src/ui/components/Graph.ts:338-342 | the layout's root has only name, version and the converted children |
| Graph.HierarchyCount | src/ui/components/Graph.ts:403-415 | the converted hierarchy has as many nodes as the tree |
| Graph.TreeViewShowsEveryNode | src/ui/components/Graph.ts:338-342 | the tree view has one node per tree node, and its root always has class "direct" |
| Scenarios.StripCaret | src/core/analyzer.ts:73 | "^1.0.0" becomes "1.0.0", and only the leading caret of "^~1" is removed |
| Scenarios.StripTilde | src/core/analyzer.ts:73 | only the first tilde is removed, wherever it is |
| Scenarios.StripOther | src/core/analyzer.ts:73 | a range with neither `^` nor `~` is unchanged |
| Scenarios.AnalyzeInstalledTree | src/core/analyzer.ts:92-111 | the three-package project analyses to the expected tree, with installed versions, license and size |
| Scenarios.LeafLabel | src/core/renderer.ts:11-28 | a node of 2048 bytes is labelled "b@2.0.0 (2.0KB)" |
| Scenarios.MiddleLabel | src/core/renderer.ts:11-28 | a zero size is left out and the license is shown in brackets |
| Scenarios.RenderInstalledTree | src/core/renderer.ts:43-70 | the analysed tree renders as three lines drawn with last-branch connectors and growing indents |

## Left out

- File reading, JSON parsing and the `walk` library are not modelled as such. The
  filesystem is the `Disk` value: a manifest is either parsed or unreadable with a
  reason, and a package's files are a list of sizes. Malformed JSON is an unreadable
  manifest, and the runtime's error text is a parameter. The one exception is an
  absent manifest: `Analyzer.NotFound` fixes Node's POSIX message
  (`ENOENT: no such file or directory, open '<path>'`), whatever the platform.
- The walk's `node_modules` filter (nested packages are not counted) and its
  `followLinks: false` are assumed to be applied to the file list on disk.
- The code is `async`, but its awaits run one after another. The model is
  sequential, which is the order the code runs in.
- chalk colouring is treated as the identity: the model produces the plain text.
- d3, the DOM, the SVG force simulation, dragging, zooming, tooltips and the view
  switching of `Graph.ts` are not modelled. Only the data helpers and labels are.
- The express routes, `res.send`, `open`, the port choice and the template-path
  fallback of `WebUI.ts` are not modelled. `JSON.stringify` is not modelled either:
  the JSON text is a parameter of `WebUI.Page`.
- `src/index.ts` (command-line parsing) is not part of this model.
- `scripts/copy-ui.js` is not part of this model.
- `src/ui/components/ui/components/Graph.js` is not part of this model. It is the
  compiled copy of `Graph.ts`, so the same model covers it.
- JS objects are ordered records in insertion order. JS moves integer-like keys to
  the front, and treats `__proto__` specially; the model does neither.
- Sizes.ToFixed1: exact only for values below 1e21 whose byte count is exactly
  representable (below 2^53). Floating-point rounding beyond that is not modelled.
- Graph.Lower: maps ASCII letters only. Unicode case mapping is not modelled.
- Renderer.RenderTreeNode: the depth limit is a whole number or infinity. A
  fractional `maxDepth` is not modelled.
- The `outdated` field is never set by the analyzer. The views' "outdated" branches
  are modelled, but no analysed tree reaches them.
- The `AnalysisOptions` flags are not consulted by `analyzeProject`, so the model
  ignores them.

## Findings

| source | as written | input that shows it | evidently intended | confidence | as-written member | corrected member |
|---|---|---|---|---|---|---|
| src/server/WebUI.ts:45 | `html.replace(/GRAPH_DATA_PLACEHOLDER/g, JSON.stringify(d3Data))` passes the JSON text as a replacement pattern, so `$&`, `` $` ``, `$'` and `$$` in it are expanded | a tree whose JSON text contains `$&` (a license string `"$&"`, say) puts the placeholder back into the page instead of the JSON | the JSON text is inserted verbatim (a replacer function or escaped `$`) | not executed; low (package names and versions cannot hold `$`, licenses can) | WebUI.PageAsWritten, WebUI.DollarPatternCounterexample | WebUI.Page, WebUI.PageEmbedsJson |
| src/server/WebUI.ts:54-68 | `convertToD3Format` drops `size` and `outdated`, which the browser view reads for the "large" and "outdated" classes (src/ui/components/Graph.ts:226-231), the size cell (Graph.ts:291, 471) and the status label (Graph.ts:294) | an installed package of 600000 bytes: the analysed tree marks it large, but the browser view draws it as "direct" and shows its size as "Unknown" | the data sent to the browser keeps `size` and `outdated` | not executed; medium (the HTML template that passes the page data to the view is not part of this model) | WebUI.BrowserSeesNoSizes, WebUI.LargePackageDrawnAsDirect | WebUI.ToD3Sized, WebUI.ToD3SizedKeepsTree |
