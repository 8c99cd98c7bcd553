# oshsh source-list generation, modelled in Dafny

oshsh collects the HDL source files needed to compile a top-level module. Every module has a
`manifest.json` that names the module, lists its source files relative to the manifest's
directory, and maps library names to the modules it depends on. `run` works in stages:

1. It picks the top module's manifest.
2. It resolves the transitive dependencies into an ordered list of (library, module) pairs.
   The library key `"work"` stands for the library of the depending module.
3. It appends the top module in the work library.
4. It gathers each module's sources into a per-library table, split into Verilog and VHDL.
5. It removes repeated paths.
6. It refuses to go on when a source file does not exist.

Each failure ends the process with its own exit status.

The model covers this core, once, for both copies of the code: the package (`oshsh/utils.py`,
`oshsh/core.py`) and the standalone script (`scripts/oshsh.py`). The modules are:

- `Wrappers`: `Option` and `Result`.
- `Seqs`: repeat-freedom and `Dedup`, which is what `list(dict.fromkeys(xs))` computes.
- `ExitCodes`: the exit statuses and the `Failure` values a run can end with.
- `Manifests`: parsed manifests and the two lookups by module name. The first match is used
  for dependencies and sources; the last match picks the top module.
- `Resolver`: `extract_dependencies`. The methods `Extract`/`ExtractModules` keep the nested
  loops and thread the shared `collected_deps` list through. They are proved equal to the
  function `Visit`, and the resolution properties are proved about `Visit`.
- `Aggregation`: classification by suffix, the per-library table (a dict with insertion
  order, modelled as `Table(order, entries)`), per-list deduplication and the existence check.
  Each loop is a method proved equal to a function.
- `Pipeline`: `run` as the function `Outcome`, the method `Run` that calls the stage methods,
  and the end-to-end properties.

Three things are inputs to the model:

- The manifest directory and the joining of a source onto it are a function parameter `join`.
- Path existence is a set `existing`.
- Python's recursion limit is a nesting budget `fuel`. Running out of it is the uncaught
  `RecursionError`, exit status 1.

Two details of the code shape the final list:

- The pair (work, top) is appended unconditionally (`oshsh/core.py:75`). The final list holds
  that pair twice when the resolved list already contains it. `Pipeline.FinalDepsNoDup` states
  exactly when that happens.
- The top module is the last manifest that declares the name (`oshsh/core.py:55-58`). Every
  other lookup takes the first such manifest (`oshsh/utils.py:37-40`, `oshsh/core.py:87`). This
  includes the lookup of the top module's own sources during aggregation. So when two manifests
  declare the top module, its dependencies come from the last one and its sources from the first.
  `Pipeline.DuplicateTopOrder` shows a case where the first one declares a dependency that the
  final list does not place before the top pair.

Resolution has no cycle detection. The "already collected" test runs at `oshsh/utils.py:28`,
and `oshsh/utils.py:35` repeats it, so it always holds. A pair is appended only after its
expansion returns, so any cycle recurses until the recursion limit.
`Resolver.SelfDependencyNeverResolves` shows this for a module that depends on itself.
On acyclic manifest sets, stated as a rank on module names that decreases along every
dependency, resolution always finishes and never repeats a pair.

## Model

| member | source | states |
|---|---|---|
| ExitCodes.ExitCode | oshsh/utils.py:8-15 | Every failure maps to a non-zero status. Statuses 4, 5, 6 and 7 are reported exactly for an unknown top module, an invalid top directory, a dependency without a manifest and missing files. The recursion limit maps to 1, the status of an uncaught exception. scripts/oshsh.py writes the same statuses as literals. |
| ExitCodes.ExitCodesDistinct | oshsh/utils.py:8-15 | The eight exit statuses 0-7 are pairwise distinct. |
| Seqs.Dedup | oshsh/core.py:71 | `list(dict.fromkeys(xs))`: the result repeats nothing and holds exactly the elements of the input (also scripts/oshsh.py:121). |
| Seqs.DedupKeepsFirstOccurrences | oshsh/core.py:115-116 | The deduplicated list follows the order of the first occurrences in the input (also scripts/oshsh.py:165-166). |
| Seqs.DedupOfNoDup | oshsh/core.py:71 | A list without repeats is left unchanged. |
| Seqs.DedupKeepsPrecedence | oshsh/core.py:71 | An element that occurs before the first occurrence of another still precedes it after deduplication. |
| Manifests.FirstIndex | oshsh/utils.py:37-40 | `next(m for m in manifest_data if ...)`: it finds none exactly when no manifest declares the name. Otherwise it finds a manifest declaring the name, with none before it (also oshsh/core.py:87 and scripts/oshsh.py:244-247). |
| Manifests.LastIndex | oshsh/core.py:55-58 | It finds none exactly when no manifest declares the name. Otherwise it finds a manifest declaring the name, with none after it. |
| Manifests.FindTop | oshsh/core.py:53-58 | The top-module scan, where each match overwrites the candidate, yields the last manifest declaring the name, or none (also scripts/oshsh.py:103-108). |
| Manifests.UniqueNameFirstIsLast | oshsh/core.py:55-58 | When exactly one manifest declares a name, the first and the last lookup agree. |
| Resolver.DirectDepsMembers | oshsh/utils.py:21-27 | Each module of each dependency entry appears as a pair. Its library is the key, or the current library when the key is "work". Nothing else appears (also scripts/oshsh.py:228-234). |
| Resolver.Extract | oshsh/utils.py:18-44 | `_extract` over the shared list returns exactly what `Visit` computes for the manifest's direct pairs, or the recursion limit (also scripts/oshsh.py:225-251). |
| Resolver.ExtractModules | oshsh/utils.py:27-44 | The inner loop over one entry's modules (skip if collected, expand the first manifest, then append) continues `Visit` over the rest of the manifest's pairs (also scripts/oshsh.py:234-251). |
| Resolver.ExtractDependencies | oshsh/utils.py:17-48 | Starting from an empty list with the work library as the current library yields `Resolve` (also scripts/oshsh.py:224-255). |
| Resolver.VisitExtends | oshsh/utils.py:44 | The shared list only grows at its end. Pairs already collected stay in place. |
| Resolver.VisitCovers | oshsh/utils.py:23-44 | Every pair visited ends up in the result. |
| Resolver.VisitPostOrder | oshsh/utils.py:37-44 | Post-order: if the collected list has each pair's first-manifest dependencies before the pair, so does the result (also scripts/oshsh.py:242-251). |
| Resolver.VisitNoDup | oshsh/utils.py:28-44 | On acyclic manifests the list never holds a pair twice. Pairs added while expanding a module rank below that module. |
| Resolver.VisitTerminates | oshsh/utils.py:37-42 | On acyclic manifests, a budget above the rank of every visited module suffices: no recursion limit is reached. |
| Resolver.ResolveTerminates | oshsh/utils.py:17-48 | On acyclic manifests, resolution of a top manifest succeeds with a budget of its rank. |
| Resolver.ResolveNoDup | oshsh/utils.py:28-44 | On acyclic manifests the resolved list has no duplicate pair and never contains the top module in the work library (also scripts/oshsh.py:235-251). |
| Resolver.ResolvePostOrder | oshsh/utils.py:23-44 | Every resolved list keeps dependencies before dependents and contains every pair the top manifest declares directly, after "work" substitution. |
| Resolver.VisitOnlyReachable | oshsh/utils.py:23-44 | Nothing else is collected: each newly collected pair is one of the pairs visited or a dependency of a pair collected after it. |
| Resolver.ResolveOnlyReachable | oshsh/utils.py:17-48 | Each resolved pair is a direct pair of the top manifest or a first-manifest dependency of a later resolved pair. With `ResolvePostOrder` this makes the resolved list exactly the reachable pairs (also scripts/oshsh.py:224-255). |
| Resolver.NoDependenciesResolveEmpty | oshsh/utils.py:21-23 | A manifest with no dependency entries, or only empty ones, resolves to the empty list. |
| Resolver.SelfDependencyNeverResolves | oshsh/utils.py:28-42 | The collected-pair guard does not stop a cycle: a module depending on itself through "work" reaches the recursion limit on every budget. |
| Aggregation.Classify | oshsh/core.py:95-98 | A path is Verilog exactly when it ends with .v, .sv or .svp. Otherwise it is VHDL exactly when it ends with .vhd, .vhdl or .vo. Otherwise it is dropped (also scripts/oshsh.py:145-148). |
| Aggregation.VhdlIgnoresTestOrder | oshsh/core.py:95-98 | No path carries both a Verilog and a VHDL ending, so a path is VHDL exactly when it has a VHDL ending. |
| Aggregation.OfKindCounts | oshsh/core.py:93-98 | Filtering by kind keeps every path of that kind, as many times as it occurs, and no other path. |
| Aggregation.OfKindMembers | oshsh/core.py:93-98 | A path is in a kind list exactly when it is a source and has that kind. |
| Aggregation.SourcesOfKind | oshsh/core.py:89-98 | A path lands in a manifest's kind list exactly when it is the manifest directory joined with one of the declared sources and has that kind. No sources gives nothing. |
| Aggregation.SplitSources | oshsh/core.py:83-98 | The classification loop produces the Verilog and VHDL filters of the joined sources, in source order (also scripts/oshsh.py:133-148). |
| Aggregation.AggregatedFails | oshsh/core.py:86-111 | Aggregation fails exactly when some pair's module has no manifest. The failure names the first such module (also scripts/oshsh.py:137-161). |
| Aggregation.AggregatedOrder | oshsh/core.py:100-108 | The table is a well-formed dict. Its libraries are the pairs' libraries in order of first appearance, each once, even when both lists are empty. |
| Aggregation.AggregatedEntries | oshsh/core.py:100-108 | Each library's lists concatenate what its modules contribute, in dependency-list order (also scripts/oshsh.py:150-158). |
| Aggregation.Aggregate | oshsh/core.py:79-111 | The aggregation loop computes the table, or the failure of the first pair without a manifest (also scripts/oshsh.py:130-161). |
| Aggregation.DedupTableOfNoDup | oshsh/core.py:113-116 | A table whose lists hold no repeats is left unchanged by deduplication. |
| Aggregation.DedupSources | oshsh/core.py:113-116 | The deduplication loop replaces each library's two lists by their deduplicated copies. Libraries and their order are unchanged (also scripts/oshsh.py:163-166). |
| Aggregation.PathsInMembers | oshsh/core.py:123-124 | The paths checked are exactly those some library of the table lists. |
| Aggregation.AbsentCounts | oshsh/core.py:124-126 | A path is reported exactly when it does not exist, as often as it is checked. |
| Aggregation.AbsentAppend | oshsh/core.py:124-126 | Checking two runs of paths reports the missing paths of the first run, then those of the second. |
| Aggregation.CheckPaths | oshsh/core.py:124-126 | The inner loop over one library's Verilog then VHDL paths reports exactly the absent ones, in order. |
| Aggregation.CollectMissing | oshsh/core.py:121-126 | The missing list holds every non-existent path: library by library in table order, Verilog before VHDL (also scripts/oshsh.py:171-176). |
| Aggregation.ListedOfDedup | oshsh/core.py:113-116 | Deduplication keeps the set of listed paths. |
| Aggregation.MissingOfDedup | oshsh/core.py:113-126 | After deduplication, exactly the listed paths that do not exist are reported. |
| Pipeline.FinalDeps | oshsh/core.py:68-75 | The final list ends with (work, top). It holds exactly the resolved pairs and that pair (also scripts/oshsh.py:118-125). |
| Pipeline.FinalDepsNoDup | oshsh/core.py:71-75 | Because the append is unconditional, the final list is repeat-free exactly when the resolved list does not contain (work, top). |
| Pipeline.Run | oshsh/core.py:52-131 | The stages run in order and stop at the first failure. The result equals `Outcome`: the deduplicated table, or the failure that ends the run (also scripts/oshsh.py:102-181). |
| Pipeline.ModuleNotFoundIffUndeclared | oshsh/core.py:53-63 | The run ends with status 4 exactly when no manifest declares the requested module (also scripts/oshsh.py:103-113). |
| Pipeline.DedupKeepsDepsBefore | oshsh/core.py:71 | Removing repeated pairs keeps dependencies before dependents. |
| Pipeline.FinalDepsOrdered | oshsh/core.py:68-75 | In the final list every pair before the top pair has its dependencies before it. The top pair comes last, after every pair that its last manifest, the one resolution starts from, declares directly. |
| Pipeline.DuplicateTopOrder | oshsh/core.py:55-87 | With two manifests declaring the top module, resolution follows the last one. The first one, consulted for sources, may declare a dependency that is missing before the top pair. |
| Pipeline.AcyclicRunResolves | oshsh/core.py:68-75 | On acyclic manifests, with a budget of at least the top's rank, the run never hits the recursion limit. `dict.fromkeys` has nothing to remove, and the final list holds each pair once. |
| Pipeline.UndeclaredDependencyFatal | oshsh/core.py:86-111 | Resolution tolerates a dependency without a manifest, but the run then ends with status 6. This happens exactly when some resolved pair lacks a manifest, and the status names the first such module of the final list. |
| Pipeline.MissingFilesReported | oshsh/core.py:121-131 | Once every pair has a manifest, the run ends with status 7 exactly when some listed path does not exist, and reports exactly those paths. Otherwise it returns the deduplicated table (also scripts/oshsh.py:171-181). |
| Pipeline.SuccessfulRunTable | oshsh/core.py:79-116 | A successful run yields a well-formed table. It has one entry per library in order of first use, including the work library. Each entry is the library's deduplicated contribution in dependency-list order (also scripts/oshsh.py:130-166). |
| Pipeline.SuccessfulRunNoRepeats | oshsh/core.py:113-116 | In a successful run's table no list holds a path twice. |
| Pipeline.SuccessfulRunExisting | oshsh/core.py:121-131 | Every path in a successful run's table exists. |
| Pipeline.ExampleResolves | oshsh/core.py:53-68 | For "top" (a.v, depending on "dep" through "work") and "dep" (b.vhd), the top manifest is the one declaring "top" and resolution yields [("work", "dep")]. An unknown module gives status 4. |
| Pipeline.ExampleRun | oshsh/core.py:52-131 | In that example, with both files present, the run returns the work library with a.v as Verilog and b.vhd as VHDL. |
| Pipeline.ExampleRunMissing | oshsh/core.py:121-131 | In that example, when only b.vhd exists, exactly a.v is reported. |
| Pipeline.ExampleRunLiteral | oshsh/core.py:93-131 | With the joined paths "/t/a.v" and "/d/b.vhd", their endings give their kinds, and both outcomes above hold. |

## Left out

- Command-line parsing (`oshsh/cli.py`, scripts/oshsh.py:38-66) and logging configuration: no logic of the core.
- Manifest discovery and the top-directory check (status 5): filesystem queries. The parsed manifests are the input `store`, and `InvalidTopDir` exists only as a `Failure` value.
- Reading and parsing manifest JSON (statuses 1, 2 and 3): I/O. A manifest is modelled as already parsed. A manifest without a `"module"` key, or with values of the wrong JSON type, is not represented.
- `ensure_abs_path`: it only rebinds a local variable and has no effect.
- Path joining and resolution: the `join` parameter, about which nothing is assumed.
- Path existence: the `existing` set. The source queries the filesystem once per path during the check.
- Printing the lists and writing the `.src` files (oshsh/core.py:133-171): output I/O.
- `exit()`: modelled as returning a `Failure` value rather than ending the process.
- Resolver.Visit: the interpreter's recursion limit is a budget on nested manifest expansions (`fuel`), not the interpreter's actual frame count. Which budget corresponds to a given Python stack is not modelled.
- Resolver.Acyclic: stated over all manifests rather than only those reachable from the top module, a sufficient condition for termination and uniqueness.
