/** The `run` command after the manifests are parsed: find the top module, resolve its
    dependencies, append the top module in the work library, gather each library's sources,
    remove repeated paths and report paths that do not exist. */
module Pipeline {
  import opened Wrappers
  import opened Seqs
  import opened ExitCodes
  import opened Manifests
  import opened Resolver
  import opened Aggregation

  /** The final dependency list: the resolved pairs without repeats, then the top module in
      the work library, appended whether or not it already occurs. */
  function FinalDeps(resolved: seq<Ref>, work: string, name: string): (deps: seq<Ref>)
    ensures |deps| > 0 && deps[|deps| - 1] == Ref(work, name)
    ensures forall x :: x in deps <==> x in resolved || x == Ref(work, name)
  {
    Dedup(resolved) + [Ref(work, name)]
  }

  /** The final list repeats nothing exactly when the resolved list did not already hold the
      top pair. */
  lemma FinalDepsNoDup(resolved: seq<Ref>, work: string, name: string)
    ensures NoDup(FinalDeps(resolved, work, name)) <==> Ref(work, name) !in resolved
  {
    var deps := FinalDeps(resolved, work, name);
    if Ref(work, name) in resolved {
      var k := IndexOf(Dedup(resolved), Ref(work, name));
      assert deps[k] == deps[|deps| - 1];
    }
  }

  /** The outcome of `run` for the parsed manifests `store`: the deduplicated table on
      success, otherwise the failure that ends it. `join` combines a manifest's directory
      with a source path; `existing` is the set of paths that exist; `fuel` is the depth of
      nested dependency expansion allowed before the recursion limit. */
  function Outcome(store: seq<Manifest>, name: string, work: string, join: (string, string) -> string,
                   existing: set<string>, fuel: nat): Result<Table, Failure>
  {
    match LastManifest(store, name)
    case None => Failure(ModuleNotFound(name))
    case Some(top) =>
      match Resolve(store, top, work, fuel)
      case None => Failure(RecursionLimit)
      case Some(resolved) =>
        var deps := FinalDeps(resolved, work, name);
        match Aggregated(store, deps, join)
        case Failure(e) => Failure(e)
        case Success(t) =>
          AggregatedOrder(store, deps, join, t);
          var d := DedupTable(t);
          var missing := Absent(PathsIn(d.order, d.entries), existing);
          if missing != [] then Failure(MissingFiles(missing)) else Success(d)
  }

  /** The pipeline, stage by stage, stopping at the first failure. */
  method Run(store: seq<Manifest>, name: string, work: string, join: (string, string) -> string,
             existing: set<string>, fuel: nat) returns (r: Result<Table, Failure>)
    ensures r == Outcome(store, name, work, join, existing, fuel)
  {
    var top := FindTop(store, name);
    if top.None? {
      return Failure(ModuleNotFound(name));
    }
    var resolved := ExtractDependencies(store, top.value, work, fuel);
    if resolved.None? {
      return Failure(RecursionLimit);
    }
    var deps := Dedup(resolved.value);
    deps := deps + [Ref(work, name)];
    var aggregated := Aggregate(store, deps, join);
    if aggregated.Failure? {
      return Failure(aggregated.error);
    }
    AggregatedOrder(store, deps, join, aggregated.value);
    var table := DedupSources(aggregated.value);
    var missing := CollectMissing(table, existing);
    if missing != [] {
      return Failure(MissingFiles(missing));
    }
    return Success(table);
  }

  /** Exit status 4 is reported exactly when no manifest declares the requested module. */
  lemma ModuleNotFoundIffUndeclared(store: seq<Manifest>, name: string, work: string,
                                    join: (string, string) -> string, existing: set<string>, fuel: nat)
    ensures var r := Outcome(store, name, work, join, existing, fuel);
            r.Failure? && ExitCode(r.error) == EXIT_MODULE_NOT_FOUND <==> !HasManifest(store, name)
  {
    var r := Outcome(store, name, work, join, existing, fuel);
    if HasManifest(store, name) {
      var top := LastManifest(store, name).value;
      if Resolve(store, top, work, fuel).Some? {
        var deps := FinalDeps(Resolve(store, top, work, fuel).value, work, name);
        if Aggregated(store, deps, join).Failure? {
          AggregatedFails(store, deps, join);
        }
      }
    }
  }

  /** Removing repeats keeps dependencies before their dependents. */
  lemma DedupKeepsDepsBefore(store: seq<Manifest>, s: seq<Ref>)
    requires DepsBefore(store, s)
    ensures DepsBefore(store, Dedup(s))
  {
    var r := Dedup(s);
    forall i, d | 0 <= i < |r| && d in DepsOf(store, r[i])
      ensures d in r[..i]
    {
      var k := IndexOf(s, r[i]);
      assert d in s[..k];
      DedupKeepsPrecedence(s, d, r[i]);
      IndexOfNoDup(r, i);
    }
  }

  /** In the final list every pair before the top pair has its dependencies before it, and the
      top pair comes last, after every pair that `top` (the last manifest declaring the module)
      declares directly. The top pair itself is not covered: its first manifest may declare
      other dependencies, see `DuplicateTopOrder`. */
  lemma FinalDepsOrdered(store: seq<Manifest>, top: Manifest, work: string, name: string, fuel: nat, resolved: seq<Ref>)
    requires Resolve(store, top, work, fuel) == Some(resolved)
    ensures var deps := FinalDeps(resolved, work, name);
            DepsBefore(store, deps[..|deps| - 1]) &&
            forall x :: x in DirectDeps(top.dependencies, work) ==> x in deps[..|deps| - 1]
  {
    ResolvePostOrder(store, top, work, fuel, resolved);
    DedupKeepsDepsBefore(store, resolved);
    var deps := FinalDeps(resolved, work, name);
    assert deps[..|deps| - 1] == Dedup(resolved);
  }

  /** Two manifests declaring "top": resolution follows the last one, which has no dependencies,
      while the first one declares "x". The top pair is then not preceded by the dependencies
      that its first manifest, the one consulted for its sources, declares. */
  lemma DuplicateTopOrder()
    ensures var store := [Manifest("top", [], [DepGroup("work", ["x"])], "/a"), Manifest("top", [], [], "/b")];
            var deps := FinalDeps([], "work", "top");
            LastManifest(store, "top") == Some(store[1]) &&
            Resolve(store, store[1], "work", 0) == Some([]) &&
            deps == [Ref("work", "top")] &&
            Ref("work", "x") in DepsOf(store, deps[0]) && !DepsBefore(store, deps)
  {
    var store := [Manifest("top", [], [DepGroup("work", ["x"])], "/a"), Manifest("top", [], [], "/b")];
    var deps := FinalDeps([], "work", "top");
    assert LastIndex(store, "top") == Some(1);
    assert FirstIndex(store, "top") == Some(0);
    assert DirectDeps(store[1].dependencies, "work") == [];
    assert deps == [Ref("work", "top")];
    assert DirectDeps(store[0].dependencies, "work") == [Ref("work", "x")];
    assert Ref("work", "x") !in deps[..0];
  }

  /** On acyclic manifests, with a recursion budget no smaller than the top module's rank,
      the run never stops at the recursion limit, the resolved list has no repeats for
      `dict.fromkeys` to remove, and the final list holds each pair once. */
  lemma AcyclicRunResolves(store: seq<Manifest>, rank: string -> nat, name: string, work: string,
                           join: (string, string) -> string, existing: set<string>, fuel: nat)
    requires Acyclic(store, rank) && HasManifest(store, name) && rank(name) <= fuel
    ensures Outcome(store, name, work, join, existing, fuel) != Failure(RecursionLimit)
    ensures var top := LastManifest(store, name).value;
            var resolved := Resolve(store, top, work, fuel).value;
            Dedup(resolved) == resolved && NoDup(FinalDeps(resolved, work, name))
  {
    var top := LastManifest(store, name).value;
    assert top in store;
    ResolveTerminates(store, rank, top, work, fuel);
    var resolved := Resolve(store, top, work, fuel).value;
    ResolveNoDup(store, rank, top, work, fuel, resolved);
    DedupOfNoDup(resolved);
    FinalDepsNoDup(resolved, work, name);
    var deps := FinalDeps(resolved, work, name);
    if Aggregated(store, deps, join).Failure? {
      AggregatedFails(store, deps, join);
    }
  }

  /** A resolved dependency whose module has no manifest is fatal: the run stops with exit
      status 6, naming the first such module of the final list. */
  lemma UndeclaredDependencyFatal(store: seq<Manifest>, name: string, work: string,
                                  join: (string, string) -> string, existing: set<string>, fuel: nat,
                                  top: Manifest, resolved: seq<Ref>)
    requires LastManifest(store, name) == Some(top)
    requires Resolve(store, top, work, fuel) == Some(resolved)
    ensures var r := Outcome(store, name, work, join, existing, fuel);
            r.Failure? && ExitCode(r.error) == EXIT_MANIFEST_NOT_FOUND <==>
            exists x :: x in resolved && !HasManifest(store, x.name)
    ensures var r := Outcome(store, name, work, join, existing, fuel);
            var deps := FinalDeps(resolved, work, name);
            r.Failure? && r.error.ManifestNotFound? ==>
            exists i :: 0 <= i < |deps| && r.error.name == deps[i].name && !HasManifest(store, deps[i].name) &&
                        forall j :: 0 <= j < i ==> HasManifest(store, deps[j].name)
  {
    var deps := FinalDeps(resolved, work, name);
    AggregatedFails(store, deps, join);
    assert HasManifest(store, name);
    if exists x :: x in resolved && !HasManifest(store, x.name) {
      var x :| x in resolved && !HasManifest(store, x.name);
      assert x in deps;
    }
  }

  /** Once every pair has a manifest, the run reports exit status 7 exactly when some listed
      source path does not exist, and it reports exactly those paths. */
  lemma MissingFilesReported(store: seq<Manifest>, name: string, work: string,
                             join: (string, string) -> string, existing: set<string>, fuel: nat,
                             top: Manifest, resolved: seq<Ref>, t: Table)
    requires LastManifest(store, name) == Some(top)
    requires Resolve(store, top, work, fuel) == Some(resolved)
    requires Aggregated(store, FinalDeps(resolved, work, name), join) == Success(t)
    ensures var r := Outcome(store, name, work, join, existing, fuel);
            r.Failure? <==> exists p :: Listed(t, p) && p !in existing
    ensures var r := Outcome(store, name, work, join, existing, fuel);
            r.Failure? ==> (r.error.MissingFiles? && forall p :: p in r.error.paths <==> Listed(t, p) && p !in existing)
    ensures var r := Outcome(store, name, work, join, existing, fuel);
            r.Success? ==> r.value == DedupTable(t)
  {
    AggregatedOrder(store, FinalDeps(resolved, work, name), join, t);
    MissingOfDedup(t, existing);
    var missing := Absent(PathsIn(DedupTable(t).order, DedupTable(t).entries), existing);
    if missing != [] {
      assert missing[0] in missing;
    }
  }

  /** A successful run returns the deduplicated aggregation table. */
  lemma SuccessIsDedup(store: seq<Manifest>, name: string, work: string,
                       join: (string, string) -> string, existing: set<string>, fuel: nat,
                       top: Manifest, resolved: seq<Ref>, t: Table)
    requires LastManifest(store, name) == Some(top)
    requires Resolve(store, top, work, fuel) == Some(resolved)
    requires Outcome(store, name, work, join, existing, fuel) == Success(t)
    ensures var a := Aggregated(store, FinalDeps(resolved, work, name), join);
            a.Success? && ValidTable(a.value) && t == DedupTable(a.value)
  {
    var deps := FinalDeps(resolved, work, name);
    var t0 := Aggregated(store, deps, join).value;
    AggregatedOrder(store, deps, join, t0);
  }

  /** A successful run yields one entry per library in order of first use, each holding the
      library's Verilog and VHDL paths in dependency-list order without repeats. */
  lemma SuccessfulRunTable(store: seq<Manifest>, name: string, work: string,
                           join: (string, string) -> string, existing: set<string>, fuel: nat,
                           top: Manifest, resolved: seq<Ref>, t: Table)
    requires LastManifest(store, name) == Some(top)
    requires Resolve(store, top, work, fuel) == Some(resolved)
    requires Outcome(store, name, work, join, existing, fuel) == Success(t)
    ensures var deps := FinalDeps(resolved, work, name);
            ValidTable(t) && t.order == Dedup(LibsOf(deps)) && work in t.order &&
            forall lib :: lib in t.entries ==> t.entries[lib] == DedupLists(Contribution(store, deps, lib, join))
  {
    var deps := FinalDeps(resolved, work, name);
    SuccessIsDedup(store, name, work, join, existing, fuel, top, resolved, t);
    var t0 := Aggregated(store, deps, join).value;
    AggregatedOrder(store, deps, join, t0);
    AggregatedEntries(store, deps, join, t0);
    assert LibsOf(deps)[|deps| - 1] == work;
  }

  /** In a successful run's table no library lists a path twice under the same kind. */
  lemma SuccessfulRunNoRepeats(store: seq<Manifest>, name: string, work: string,
                               join: (string, string) -> string, existing: set<string>, fuel: nat,
                               top: Manifest, resolved: seq<Ref>, t: Table)
    requires LastManifest(store, name) == Some(top)
    requires Resolve(store, top, work, fuel) == Some(resolved)
    requires Outcome(store, name, work, join, existing, fuel) == Success(t)
    ensures forall lib :: lib in t.entries ==> NoDup(t.entries[lib].verilog) && NoDup(t.entries[lib].vhdl)
  {
    SuccessIsDedup(store, name, work, join, existing, fuel, top, resolved, t);
  }

  /** Every path in a successful run's table exists. */
  lemma SuccessfulRunExisting(store: seq<Manifest>, name: string, work: string,
                              join: (string, string) -> string, existing: set<string>, fuel: nat,
                              top: Manifest, resolved: seq<Ref>, t: Table)
    requires LastManifest(store, name) == Some(top)
    requires Resolve(store, top, work, fuel) == Some(resolved)
    requires Outcome(store, name, work, join, existing, fuel) == Success(t)
    ensures forall p :: Listed(t, p) ==> p in existing
  {
    SuccessIsDedup(store, name, work, join, existing, fuel, top, resolved, t);
    var t0 := Aggregated(store, FinalDeps(resolved, work, name), join).value;
    MissingFilesReported(store, name, work, join, existing, fuel, top, resolved, t0);
    forall p | Listed(t, p)
      ensures p in existing
    {
      ListedOfDedup(t0, p);
    }
  }

  /** Two manifests: "top" (source a.v, depending on "dep" in "work") and "dep" (source b.vhd). */
  function ExampleStore(): seq<Manifest>
  {
    [Manifest("top", ["a.v"], [DepGroup("work", ["dep"])], "/t"),
     Manifest("dep", ["b.vhd"], [], "/d")]
  }

  lemma ExampleResolves()
    ensures LastManifest(ExampleStore(), "top") == Some(ExampleStore()[0])
    ensures LastManifest(ExampleStore(), "nonexistent") == None
    ensures Resolve(ExampleStore(), ExampleStore()[0], "work", 1) == Some([Ref("work", "dep")])
    ensures forall join, existing :: Outcome(ExampleStore(), "nonexistent", "work", join, existing, 1)
                                     == Failure(ModuleNotFound("nonexistent"))
  {
    var store := ExampleStore();
    var dep := Ref("work", "dep");
    assert DirectDeps(store[0].dependencies, "work") == [dep];
    assert FirstManifest(store, "dep") == Some(store[1]);
    assert DirectDeps(store[1].dependencies, "work") == [];
    assert Visit(store, [], [], 0) == Some([]);
    assert [dep][1..] == [] && [] + [dep] == [dep];
    assert Visit(store, [], [dep], 1) == Some([dep]);
    assert Visit(store, [dep], [], 1) == Some([dep]);
  }

  /** The example's joined paths have the kinds their endings say. */
  lemma ExampleKinds()
    ensures Classify("/t/a.v") == Verilog && Classify("/d/b.vhd") == Vhdl
  {
    EndingsSpelledOut("/t/a.v");
    EndingsSpelledOut("/d/b.vhd");
  }

  lemma OfKindSingle(p: string, k: Kind)
    ensures OfKind([p], k) == if Classify(p) == k then [p] else []
  {
    assert [p][..0] == [];
  }

  /** A manifest with one source file contributes that file joined onto its directory. */
  lemma SingleSourcePaths(m: Manifest, join: (string, string) -> string)
    requires |m.sources| == 1
    ensures SourcePaths(m, join) == [join(m.dir, m.sources[0])]
  {
  }

  /** Adding sources to an empty table opens the library's entry. */
  lemma AddToEmpty(lib: string, verilog: seq<string>, vhdl: seq<string>)
    ensures AddSources(Table([], map[]), lib, verilog, vhdl) == Table([lib], map[lib := LibSources(verilog, vhdl)])
  {
  }

  /** Adding sources to a one-library table's own library appends to both of its lists. */
  lemma AddToSingle(lib: string, e: LibSources, verilog: seq<string>, vhdl: seq<string>)
    ensures AddSources(Table([lib], map[lib := e]), lib, verilog, vhdl)
         == Table([lib], map[lib := LibSources(e.verilog + verilog, e.vhdl + vhdl)])
  {
    assert map[lib := e][lib := LibSources(e.verilog + verilog, e.vhdl + vhdl)]
        == map[lib := LibSources(e.verilog + verilog, e.vhdl + vhdl)];
  }

  /** Aggregating the "dep" pair alone puts b under "work" as VHDL. */
  lemma ExampleAggregatedDep(join: (string, string) -> string, b: string)
    requires join("/d", "b.vhd") == b && Classify(b) == Vhdl
    ensures Aggregated(ExampleStore(), [Ref("work", "dep")], join)
         == Success(Table(["work"], map["work" := LibSources([], [b])]))
  {
    var store := ExampleStore();
    assert FirstManifest(store, "dep") == Some(store[1]);
    SingleSourcePaths(store[1], join);
    OfKindSingle(b, Verilog);
    OfKindSingle(b, Vhdl);
    AggregatedStep(store, [], Ref("work", "dep"), join, Table([], map[]));
    AddToEmpty("work", [], [b]);
    assert [] + [Ref("work", "dep")] == [Ref("work", "dep")];
  }

  lemma ExampleAggregated(join: (string, string) -> string, a: string, b: string)
    requires join("/t", "a.v") == a && join("/d", "b.vhd") == b
    requires Classify(a) == Verilog && Classify(b) == Vhdl
    ensures Aggregated(ExampleStore(), [Ref("work", "dep"), Ref("work", "top")], join)
         == Success(ExampleSources(a, b))
  {
    var store := ExampleStore();
    var t1 := Table(["work"], map["work" := LibSources([], [b])]);
    ExampleAggregatedDep(join, b);
    assert FirstManifest(store, "top") == Some(store[0]);
    SingleSourcePaths(store[0], join);
    OfKindSingle(a, Verilog);
    OfKindSingle(a, Vhdl);
    AggregatedStep(store, [Ref("work", "dep")], Ref("work", "top"), join, t1);
    AddToSingle("work", LibSources([], [b]), [a], []);
    assert [Ref("work", "dep")] + [Ref("work", "top")] == [Ref("work", "dep"), Ref("work", "top")];
    assert [] + [a] == [a] && [b] + [] == [b];
  }

  /** A one-library table lists that library's Verilog paths, then its VHDL paths. */
  lemma SingleLibraryPaths(lib: string, e: LibSources)
    ensures PathsIn([lib], map[lib := e]) == e.verilog + e.vhdl
  {
    assert [lib][..0] == [];
  }

  lemma ExampleTable(a: string, b: string)
    ensures var t := ExampleSources(a, b);
            DedupTable(t) == t && PathsIn(t.order, t.entries) == [a, b]
  {
    assert [a][..0] == [] && [b][..0] == [];
    DedupTableOfNoDup(ExampleSources(a, b));
    SingleLibraryPaths("work", LibSources([a], [b]));
  }

  lemma ExampleAbsent(a: string, b: string)
    requires a != b
    ensures Absent([a, b], {b}) == [a] && Absent([a, b], {a, b}) == []
  {
    assert [a, b][..1] == [a] && [a][..0] == [];
    assert Absent([a], {b}) == [a];
    assert Absent([a], {a, b}) == [];
  }

  /** The example's single library: a as its Verilog file, b as its VHDL file. */
  function ExampleSources(a: string, b: string): Table
  {
    Table(["work"], map["work" := LibSources([a], [b])])
  }

  /** The example through its first three stages: "dep" resolves before "top" and each joined
      file lands in the "work" library under its own kind. */
  lemma ExampleStages(join: (string, string) -> string, a: string, b: string)
    requires join("/t", "a.v") == a && join("/d", "b.vhd") == b
    requires Classify(a) == Verilog && Classify(b) == Vhdl
    ensures LastManifest(ExampleStore(), "top") == Some(ExampleStore()[0])
    ensures Resolve(ExampleStore(), ExampleStore()[0], "work", 1) == Some([Ref("work", "dep")])
    ensures Aggregated(ExampleStore(), FinalDeps([Ref("work", "dep")], "work", "top"), join)
         == Success(ExampleSources(a, b))
  {
    ExampleResolves();
    ExampleAggregated(join, a, b);
    var resolved := [Ref("work", "dep")];
    assert resolved[..0] == [];
    assert FinalDeps(resolved, "work", "top") == [Ref("work", "dep"), Ref("work", "top")];
  }

  /** The whole example run when both files exist: the single "work" library. */
  lemma ExampleRun(join: (string, string) -> string, a: string, b: string)
    requires join("/t", "a.v") == a && join("/d", "b.vhd") == b
    requires Classify(a) == Verilog && Classify(b) == Vhdl
    ensures Outcome(ExampleStore(), "top", "work", join, {a, b}, 1) == Success(ExampleSources(a, b))
  {
    ExampleStages(join, a, b);
    ExampleTable(a, b);
    ExampleAbsent(a, b);
    OutcomeAfterAggregation(ExampleStore(), "top", "work", join, {a, b}, 1, ExampleStore()[0],
                            [Ref("work", "dep")], ExampleSources(a, b));
  }

  /** The same example when only b exists: exactly a is reported. */
  lemma ExampleRunMissing(join: (string, string) -> string, a: string, b: string)
    requires join("/t", "a.v") == a && join("/d", "b.vhd") == b
    requires Classify(a) == Verilog && Classify(b) == Vhdl
    ensures Outcome(ExampleStore(), "top", "work", join, {b}, 1) == Failure(MissingFiles([a]))
  {
    ExampleStages(join, a, b);
    ExampleTable(a, b);
    ExampleAbsent(a, b);
    OutcomeAfterAggregation(ExampleStore(), "top", "work", join, {b}, 1, ExampleStore()[0],
                            [Ref("work", "dep")], ExampleSources(a, b));
  }

  /** The outcome once the first three stages have succeeded. */
  lemma OutcomeAfterAggregation(store: seq<Manifest>, name: string, work: string,
                                join: (string, string) -> string, existing: set<string>, fuel: nat,
                                top: Manifest, resolved: seq<Ref>, t: Table)
    requires LastManifest(store, name) == Some(top)
    requires Resolve(store, top, work, fuel) == Some(resolved)
    requires Aggregated(store, FinalDeps(resolved, work, name), join) == Success(t)
    ensures ValidTable(t)
    ensures var d := DedupTable(t);
            var missing := Absent(PathsIn(d.order, d.entries), existing);
            Outcome(store, name, work, join, existing, fuel) == if missing != [] then Failure(MissingFiles(missing)) else Success(d)
  {
    AggregatedOrder(store, FinalDeps(resolved, work, name), join, t);
  }

  /** The example with the literal joined paths "/t/a.v" and "/d/b.vhd", whose kinds follow
      from their endings. */
  lemma ExampleRunLiteral(join: (string, string) -> string)
    requires join("/t", "a.v") == "/t/a.v" && join("/d", "b.vhd") == "/d/b.vhd"
    ensures Outcome(ExampleStore(), "top", "work", join, {"/t/a.v", "/d/b.vhd"}, 1)
         == Success(Table(["work"], map["work" := LibSources(["/t/a.v"], ["/d/b.vhd"])]))
    ensures Outcome(ExampleStore(), "top", "work", join, {"/d/b.vhd"}, 1) == Failure(MissingFiles(["/t/a.v"]))
  {
    ExampleKinds();
    ExampleRun(join, "/t/a.v", "/d/b.vhd");
    ExampleRunMissing(join, "/t/a.v", "/d/b.vhd");
  }
}
