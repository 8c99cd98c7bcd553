/** Source aggregation: per-library Verilog and VHDL file lists built from the dependency list,
    then deduplicated and checked for existence. */
module Aggregation {
  import opened Wrappers
  import opened Seqs
  import opened Manifests
  import opened ExitCodes

  const VERILOG_ENDINGS: seq<string> := [".v", ".sv", ".svp"]
  const VHDL_ENDINGS: seq<string> := [".vhd", ".vhdl", ".vo"]

  datatype Kind = Verilog | Vhdl | Unrecognized

  /** `s.endswith(suffix)` */
  predicate EndsWith(s: string, suffix: string)
  {
    |suffix| <= |s| && s[|s| - |suffix|..] == suffix
  }

  /** `any(s.endswith(e) for e in endings)` */
  predicate EndsWithAny(s: string, endings: seq<string>)
  {
    if endings == [] then false
    else EndsWith(s, endings[0]) || EndsWithAny(s, endings[1..])
  }

  lemma EndsWithAnyOfThree(path: string, a: string, b: string, c: string)
    ensures EndsWithAny(path, [a, b, c]) <==> EndsWith(path, a) || EndsWith(path, b) || EndsWith(path, c)
  {
    assert [a, b, c][1..] == [b, c];
    assert [b, c][1..] == [c];
    assert [c][1..] == [];
    assert EndsWithAny(path, [c]) == EndsWith(path, c);
    assert EndsWithAny(path, [b, c]) == (EndsWith(path, b) || EndsWithAny(path, [c]));
  }

  lemma EndingsSpelledOut(path: string)
    ensures EndsWithAny(path, VERILOG_ENDINGS) <==> EndsWith(path, ".v") || EndsWith(path, ".sv") || EndsWith(path, ".svp")
    ensures EndsWithAny(path, VHDL_ENDINGS) <==> EndsWith(path, ".vhd") || EndsWith(path, ".vhdl") || EndsWith(path, ".vo")
  {
    EndsWithAnyOfThree(path, ".v", ".sv", ".svp");
    EndsWithAnyOfThree(path, ".vhd", ".vhdl", ".vo");
  }

  /** Verilog endings are tested first, VHDL endings second; anything else is dropped. */
  function Classify(path: string): (k: Kind)
    ensures k == Verilog <==> EndsWith(path, ".v") || EndsWith(path, ".sv") || EndsWith(path, ".svp")
    ensures k == Vhdl <==> k != Verilog && (EndsWith(path, ".vhd") || EndsWith(path, ".vhdl") || EndsWith(path, ".vo"))
  {
    EndingsSpelledOut(path);
    if EndsWithAny(path, VERILOG_ENDINGS) then Verilog
    else if EndsWithAny(path, VHDL_ENDINGS) then Vhdl
    else Unrecognized
  }

  lemma EndsWithLast(s: string, e: string)
    requires EndsWith(s, e) && |e| > 0
    ensures s[|s| - 1] == e[|e| - 1]
  {
    assert s[|s| - |e|..][|e| - 1] == s[|s| - 1];
  }

  /** No path ends with both a Verilog and a VHDL ending, so the order of the two tests never
      changes the outcome: a path is VHDL exactly when it has a VHDL ending. */
  lemma VhdlIgnoresTestOrder(path: string)
    ensures Classify(path) == Vhdl <==> EndsWith(path, ".vhd") || EndsWith(path, ".vhdl") || EndsWith(path, ".vo")
  {
    forall e | e in [".v", ".sv", ".svp", ".vhd", ".vhdl", ".vo"] && EndsWith(path, e)
      ensures path[|path| - 1] == e[|e| - 1]
    {
      EndsWithLast(path, e);
    }
  }

  /** The absolute paths of a manifest's sources: each declared path joined onto the manifest's directory. */
  function SourcePaths(m: Manifest, join: (string, string) -> string): seq<string>
  {
    seq(|m.sources|, i requires 0 <= i < |m.sources| => join(m.dir, m.sources[i]))
  }

  /** The paths of kind `k`, in their original order. */
  function OfKind(paths: seq<string>, k: Kind): seq<string>
  {
    if paths == [] then []
    else
      var last := paths[|paths| - 1];
      OfKind(paths[..|paths| - 1], k) + (if Classify(last) == k then [last] else [])
  }

  /** A path is kept, as often as it occurs, exactly when it has kind `k`. */
  lemma {:induction false} OfKindCounts(paths: seq<string>, k: Kind)
    ensures forall p :: multiset(OfKind(paths, k))[p] == if Classify(p) == k then multiset(paths)[p] else 0
  {
    if paths != [] {
      var init := paths[..|paths| - 1];
      assert paths == init + [paths[|paths| - 1]];
      OfKindCounts(init, k);
    }
  }

  /** A path is kept exactly when it occurs and has kind `k`. */
  lemma {:induction false} OfKindMembers(paths: seq<string>, k: Kind)
    ensures forall p :: p in OfKind(paths, k) <==> p in paths && Classify(p) == k
  {
    if paths != [] {
      var init := paths[..|paths| - 1];
      assert paths == init + [paths[|paths| - 1]];
      OfKindMembers(init, k);
    }
  }

  /** A manifest's path lands in a kind list exactly when it is one of its joined sources and has that kind. */
  lemma SourcesOfKind(m: Manifest, join: (string, string) -> string, k: Kind)
    ensures forall p :: p in OfKind(SourcePaths(m, join), k) <==>
              Classify(p) == k && exists i :: 0 <= i < |m.sources| && p == join(m.dir, m.sources[i])
  {
    var paths := SourcePaths(m, join);
    OfKindMembers(paths, k);
    forall p ensures p in paths <==> exists i :: 0 <= i < |m.sources| && p == join(m.dir, m.sources[i]) {
      if p in paths {
        var i :| 0 <= i < |paths| && paths[i] == p;
        assert p == join(m.dir, m.sources[i]);
      } else {
        forall i | 0 <= i < |m.sources| ensures p != join(m.dir, m.sources[i]) {
          assert paths[i] == join(m.dir, m.sources[i]);
        }
      }
    }
  }

  /** One manifest's sources split into Verilog and VHDL, unrecognised files dropped. */
  method SplitSources(m: Manifest, join: (string, string) -> string) returns (verilog: seq<string>, vhdl: seq<string>)
    ensures verilog == OfKind(SourcePaths(m, join), Verilog)
    ensures vhdl == OfKind(SourcePaths(m, join), Vhdl)
  {
    var sources := SourcePaths(m, join);
    verilog, vhdl := [], [];
    for i := 0 to |sources|
      invariant verilog == OfKind(sources[..i], Verilog)
      invariant vhdl == OfKind(sources[..i], Vhdl)
    {
      assert sources[..i + 1][..i] == sources[..i];
      var source := sources[i];
      if EndsWithAny(source, VERILOG_ENDINGS) {
        verilog := verilog + [source];
      } else if EndsWithAny(source, VHDL_ENDINGS) {
        vhdl := vhdl + [source];
      }
    }
    assert sources[..|sources|] == sources;
  }

  /** The Verilog and VHDL lists of one library. */
  datatype LibSources = LibSources(verilog: seq<string>, vhdl: seq<string>)

  /** `source_files_by_lib`: a dict keyed by library; `order` is its insertion order. */
  datatype Table = Table(order: seq<string>, entries: map<string, LibSources>)

  /** The shape of a Python dict: each key once, and the order lists exactly the keys. */
  ghost predicate ValidTable(t: Table)
  {
    NoDup(t.order) && forall lib :: lib in t.entries <==> lib in t.order
  }

  /** Extends the library's lists when it has an entry, otherwise adds a new entry at the end. */
  function AddSources(t: Table, lib: string, verilog: seq<string>, vhdl: seq<string>): Table
  {
    if lib in t.entries then
      Table(t.order, t.entries[lib := LibSources(t.entries[lib].verilog + verilog, t.entries[lib].vhdl + vhdl)])
    else
      Table(t.order + [lib], t.entries[lib := LibSources(verilog, vhdl)])
  }

  /** The aggregation loop over the dependency list as a value: the table after every pair,
      or the failure for the first pair whose module has no manifest. */
  function Aggregated(store: seq<Manifest>, deps: seq<Ref>, join: (string, string) -> string): Result<Table, Failure>
  {
    if deps == [] then Success(Table([], map[]))
    else
      match Aggregated(store, deps[..|deps| - 1], join)
      case Failure(e) => Failure(e)
      case Success(t) =>
        var dep := deps[|deps| - 1];
        match FirstManifest(store, dep.name)
        case None => Failure(ManifestNotFound(dep.name))
        case Some(m) =>
          var paths := SourcePaths(m, join);
          Success(AddSources(t, dep.lib, OfKind(paths, Verilog), OfKind(paths, Vhdl)))
  }

  /** The libraries of a dependency list, in order, repeats included. */
  function LibsOf(deps: seq<Ref>): seq<string>
  {
    seq(|deps|, i requires 0 <= i < |deps| => deps[i].lib)
  }

  /** What the pairs of library `lib` contribute, module after module in dependency-list order. */
  function Contribution(store: seq<Manifest>, deps: seq<Ref>, lib: string, join: (string, string) -> string): LibSources
  {
    if deps == [] then LibSources([], [])
    else
      var c := Contribution(store, deps[..|deps| - 1], lib, join);
      var dep := deps[|deps| - 1];
      if dep.lib != lib then c
      else match FirstManifest(store, dep.name)
        case None => c
        case Some(m) =>
          var paths := SourcePaths(m, join);
          LibSources(c.verilog + OfKind(paths, Verilog), c.vhdl + OfKind(paths, Vhdl))
  }

  lemma {:induction false} ContributionOfAbsentLib(store: seq<Manifest>, deps: seq<Ref>, lib: string, join: (string, string) -> string)
    requires lib !in LibsOf(deps)
    ensures Contribution(store, deps, lib, join) == LibSources([], [])
  {
    if deps != [] {
      var init := deps[..|deps| - 1];
      assert LibsOf(deps)[..|deps| - 1] == LibsOf(init);
      assert LibsOf(deps)[|deps| - 1] == deps[|deps| - 1].lib;
      ContributionOfAbsentLib(store, init, lib, join);
    }
  }

  /** The aggregation fails exactly when some pair's module has no manifest, and then it
      names the first such module. */
  lemma {:induction false} AggregatedFails(store: seq<Manifest>, deps: seq<Ref>, join: (string, string) -> string)
    ensures Aggregated(store, deps, join).Failure? <==> exists i :: 0 <= i < |deps| && !HasManifest(store, deps[i].name)
    ensures Aggregated(store, deps, join).Failure? ==>
              exists i :: 0 <= i < |deps| && !HasManifest(store, deps[i].name) &&
                          Aggregated(store, deps, join).error == ManifestNotFound(deps[i].name) &&
                          forall j :: 0 <= j < i ==> HasManifest(store, deps[j].name)
  {
    AggregatedSucceeds(store, deps, join);
    AggregatedFirstFailure(store, deps, join);
  }

  /** A successful aggregation found a manifest for every pair. */
  lemma {:induction false} AggregatedSucceeds(store: seq<Manifest>, deps: seq<Ref>, join: (string, string) -> string)
    ensures Aggregated(store, deps, join).Success? ==> forall i :: 0 <= i < |deps| ==> HasManifest(store, deps[i].name)
  {
    if deps != [] && Aggregated(store, deps, join).Success? {
      var init := deps[..|deps| - 1];
      AggregatedSucceeds(store, init, join);
      assert forall i :: 0 <= i < |init| ==> init[i] == deps[i];
    }
  }

  /** A failed aggregation names the first pair whose module has no manifest. */
  lemma {:induction false} AggregatedFirstFailure(store: seq<Manifest>, deps: seq<Ref>, join: (string, string) -> string)
    ensures Aggregated(store, deps, join).Failure? ==>
              exists i :: 0 <= i < |deps| && !HasManifest(store, deps[i].name) &&
                          Aggregated(store, deps, join).error == ManifestNotFound(deps[i].name) &&
                          forall j :: 0 <= j < i ==> HasManifest(store, deps[j].name)
  {
    if deps != [] && Aggregated(store, deps, join).Failure? {
      var init := deps[..|deps| - 1];
      var last := |deps| - 1;
      assert forall i :: 0 <= i < |init| ==> init[i] == deps[i];
      if Aggregated(store, init, join).Failure? {
        AggregatedFirstFailure(store, init, join);
        var i :| 0 <= i < |init| && !HasManifest(store, init[i].name) &&
                 Aggregated(store, init, join).error == ManifestNotFound(init[i].name) &&
                 forall j :: 0 <= j < i ==> HasManifest(store, init[j].name);
        assert deps[i] == init[i];
      } else {
        AggregatedSucceeds(store, init, join);
        assert Aggregated(store, deps, join) == Failure(ManifestNotFound(deps[last].name));
      }
    }
  }

  /** One step of the aggregation: the table before the last pair, extended by that pair's sources. */
  lemma AggregatedLast(store: seq<Manifest>, deps: seq<Ref>, join: (string, string) -> string, t: Table)
    returns (t0: Table, verilog: seq<string>, vhdl: seq<string>)
    requires deps != [] && Aggregated(store, deps, join) == Success(t)
    ensures Aggregated(store, deps[..|deps| - 1], join) == Success(t0)
    ensures HasManifest(store, deps[|deps| - 1].name)
    ensures var paths := SourcePaths(FirstManifest(store, deps[|deps| - 1].name).value, join);
            verilog == OfKind(paths, Verilog) && vhdl == OfKind(paths, Vhdl)
    ensures t == AddSources(t0, deps[|deps| - 1].lib, verilog, vhdl)
  {
    t0 := Aggregated(store, deps[..|deps| - 1], join).value;
    var paths := SourcePaths(FirstManifest(store, deps[|deps| - 1].name).value, join);
    verilog, vhdl := OfKind(paths, Verilog), OfKind(paths, Vhdl);
  }

  /** Libraries get one entry each, in the order of their first pair. */
  lemma {:induction false} AggregatedOrder(store: seq<Manifest>, deps: seq<Ref>, join: (string, string) -> string, t: Table)
    requires Aggregated(store, deps, join) == Success(t)
    ensures ValidTable(t)
    ensures t.order == Dedup(LibsOf(deps))
  {
    if deps != [] {
      var init := deps[..|deps| - 1];
      var t0, verilog, vhdl := AggregatedLast(store, deps, join, t);
      AggregatedOrder(store, init, join, t0);
      assert LibsOf(deps)[..|deps| - 1] == LibsOf(init);
    }
  }

  /** Each library's entry is the concatenation, in dependency-list order, of what its
      modules contribute. */
  lemma {:induction false} AggregatedEntries(store: seq<Manifest>, deps: seq<Ref>, join: (string, string) -> string, t: Table)
    requires Aggregated(store, deps, join) == Success(t)
    ensures forall lib :: lib in t.entries ==> t.entries[lib] == Contribution(store, deps, lib, join)
  {
    if deps != [] {
      var init := deps[..|deps| - 1];
      var dep := deps[|deps| - 1];
      var t0, verilog, vhdl := AggregatedLast(store, deps, join, t);
      AggregatedEntries(store, init, join, t0);
      if dep.lib !in t0.entries {
        AggregatedOrder(store, init, join, t0);
        ContributionOfAbsentLib(store, init, dep.lib, join);
      }
      forall lib | lib in t.entries
        ensures t.entries[lib] == Contribution(store, deps, lib, join)
      {
        var c := Contribution(store, init, lib, join);
        if lib == dep.lib {
          assert Contribution(store, deps, lib, join) == LibSources(c.verilog + verilog, c.vhdl + vhdl);
        } else {
          assert Contribution(store, deps, lib, join) == c;
        }
      }
    }
  }

  /** One step of the aggregation, for a pair whose module has a manifest. */
  lemma AggregatedStep(store: seq<Manifest>, deps: seq<Ref>, dep: Ref, join: (string, string) -> string, t: Table)
    requires Aggregated(store, deps, join) == Success(t) && HasManifest(store, dep.name)
    ensures var paths := SourcePaths(FirstManifest(store, dep.name).value, join);
            Aggregated(store, deps + [dep], join) == Success(AddSources(t, dep.lib, OfKind(paths, Verilog), OfKind(paths, Vhdl)))
  {
    assert (deps + [dep])[..|deps|] == deps;
  }

  /** Once a prefix of the pairs fails, the whole aggregation fails the same way. */
  lemma {:induction false} AggregatedKeepsFailure(store: seq<Manifest>, deps: seq<Ref>, j: nat, join: (string, string) -> string)
    requires j <= |deps| && Aggregated(store, deps[..j], join).Failure?
    ensures Aggregated(store, deps, join) == Aggregated(store, deps[..j], join)
    decreases |deps|
  {
    if j < |deps| {
      var init := deps[..|deps| - 1];
      assert init[..j] == deps[..j];
      AggregatedKeepsFailure(store, init, j, join);
    } else {
      assert deps[..j] == deps;
    }
  }

  /** The aggregation loop: for each pair, look up its first manifest (aborting when there is
      none), split its sources and extend or create the library's entry. */
  method Aggregate(store: seq<Manifest>, deps: seq<Ref>, join: (string, string) -> string) returns (r: Result<Table, Failure>)
    ensures r == Aggregated(store, deps, join)
  {
    var t := Table([], map[]);
    for i := 0 to |deps|
      invariant Aggregated(store, deps[..i], join) == Success(t)
    {
      assert deps[..i] + [deps[i]] == deps[..i + 1];
      var lib, name := deps[i].lib, deps[i].name;
      var manifest := FirstManifest(store, name);
      if manifest.None? {
        assert deps[..i + 1][..i] == deps[..i];
        assert Aggregated(store, deps[..i + 1], join) == Failure(ManifestNotFound(name));
        AggregatedKeepsFailure(store, deps, i + 1, join);
        return Failure(ManifestNotFound(name));
      }
      var verilog, vhdl := SplitSources(manifest.value, join);
      AggregatedStep(store, deps[..i], deps[i], join, t);
      if lib in t.entries {
        var existing := t.entries[lib];
        t := Table(t.order, t.entries[lib := LibSources(existing.verilog + verilog, existing.vhdl + vhdl)]);
      } else {
        t := Table(t.order + [lib], t.entries[lib := LibSources(verilog, vhdl)]);
      }
    }
    assert deps[..|deps|] == deps;
    return Success(t);
  }

  /** Both lists of one library with repeats removed, first occurrences kept. */
  function DedupLists(s: LibSources): LibSources
  {
    LibSources(Dedup(s.verilog), Dedup(s.vhdl))
  }

  function DedupTable(t: Table): Table
  {
    Table(t.order, map lib | lib in t.entries :: DedupLists(t.entries[lib]))
  }

  /** A table whose lists repeat nothing is its own deduplication. */
  lemma DedupTableOfNoDup(t: Table)
    requires forall lib :: lib in t.entries ==> NoDup(t.entries[lib].verilog) && NoDup(t.entries[lib].vhdl)
    ensures DedupTable(t) == t
  {
    var d := DedupTable(t);
    forall lib | lib in t.entries
      ensures d.entries[lib] == t.entries[lib]
    {
      DedupOfNoDup(t.entries[lib].verilog);
      DedupOfNoDup(t.entries[lib].vhdl);
    }
    assert d.entries == t.entries;
  }

  /** The deduplication loop: every library's two lists are replaced by their deduplicated
      copies; the libraries and their order stay as they are. */
  method DedupSources(t: Table) returns (d: Table)
    requires ValidTable(t)
    ensures d == DedupTable(t)
  {
    d := t;
    for i := 0 to |t.order|
      invariant d.order == t.order
      invariant forall lib :: lib in d.entries <==> lib in t.entries
      invariant forall lib :: lib in d.entries ==>
                  d.entries[lib] == if lib in t.order[..i] then DedupLists(t.entries[lib]) else t.entries[lib]
    {
      var lib := t.order[i];
      assert lib !in t.order[..i];
      assert forall l :: l in t.order[..i + 1] <==> l in t.order[..i] || l == lib;
      var sources := d.entries[lib];
      d := Table(d.order, d.entries[lib := LibSources(Dedup(sources.verilog), Dedup(sources.vhdl))]);
    }
    assert t.order[..|t.order|] == t.order;
    assert d.entries == DedupTable(t).entries;
  }

  /** Every path of the table: library by library in table order, Verilog before VHDL. */
  function PathsIn(order: seq<string>, entries: map<string, LibSources>): seq<string>
    requires forall lib :: lib in order ==> lib in entries
  {
    if order == [] then []
    else
      var last := entries[order[|order| - 1]];
      PathsIn(order[..|order| - 1], entries) + last.verilog + last.vhdl
  }

  /** A path is listed exactly when one of the table's libraries lists it. */
  lemma {:induction false} PathsInMembers(order: seq<string>, entries: map<string, LibSources>)
    requires forall lib :: lib in order ==> lib in entries
    ensures forall p :: p in PathsIn(order, entries) <==>
              exists lib :: lib in order && (p in entries[lib].verilog || p in entries[lib].vhdl)
  {
    if order != [] {
      var init := order[..|order| - 1];
      assert order == init + [order[|order| - 1]];
      PathsInMembers(init, entries);
    }
  }

  /** The paths that do not exist, in order, repeats included. */
  function Absent(paths: seq<string>, existing: set<string>): seq<string>
  {
    if paths == [] then []
    else
      var last := paths[|paths| - 1];
      Absent(paths[..|paths| - 1], existing) + (if last in existing then [] else [last])
  }

  /** A path is reported, as often as it is listed, exactly when it does not exist. */
  lemma {:induction false} AbsentCounts(paths: seq<string>, existing: set<string>)
    ensures forall p :: multiset(Absent(paths, existing))[p] == if p in existing then 0 else multiset(paths)[p]
    ensures forall p :: p in Absent(paths, existing) <==> p in paths && p !in existing
  {
    if paths != [] {
      var init := paths[..|paths| - 1];
      assert paths == init + [paths[|paths| - 1]];
      AbsentCounts(init, existing);
    }
  }

  /** Checking one more path reports it exactly when it does not exist. */
  lemma AbsentSnoc(paths: seq<string>, p: string, existing: set<string>)
    ensures Absent(paths + [p], existing) == Absent(paths, existing) + (if p in existing then [] else [p])
  {
    assert (paths + [p])[..|paths|] == paths;
  }

  /** One more library adds its Verilog and then its VHDL paths. */
  lemma PathsInSnoc(order: seq<string>, lib: string, entries: map<string, LibSources>)
    requires forall l :: l in order + [lib] ==> l in entries
    ensures PathsIn(order + [lib], entries) == PathsIn(order, entries) + entries[lib].verilog + entries[lib].vhdl
  {
    assert (order + [lib])[..|order|] == order;
  }

  /** Checking two runs of paths reports the first run's missing paths, then the second's. */
  lemma {:induction false} AbsentAppend(paths: seq<string>, more: seq<string>, existing: set<string>)
    ensures Absent(paths + more, existing) == Absent(paths, existing) + Absent(more, existing)
    decreases |more|
  {
    if more == [] {
      assert paths + more == paths;
    } else {
      var init := more[..|more| - 1];
      assert paths + more == (paths + init) + [more[|more| - 1]];
      AbsentSnoc(paths + init, more[|more| - 1], existing);
      AbsentSnoc(init, more[|more| - 1], existing);
      assert init + [more[|more| - 1]] == more;
      AbsentAppend(paths, init, existing);
    }
  }

  /** The existence check: library by library, Verilog then VHDL, every path that does not
      exist is appended to the missing list. */
  method CollectMissing(t: Table, existing: set<string>) returns (missing: seq<string>)
    requires forall lib :: lib in t.order ==> lib in t.entries
    ensures missing == Absent(PathsIn(t.order, t.entries), existing)
  {
    missing := [];
    for i := 0 to |t.order|
      invariant missing == Absent(PathsIn(t.order[..i], t.entries), existing)
    {
      var lib := t.order[i];
      var files := t.entries[lib].verilog + t.entries[lib].vhdl;
      var absent := CheckPaths(files, existing);
      ghost var done := PathsIn(t.order[..i], t.entries);
      assert t.order[..i] + [lib] == t.order[..i + 1];
      PathsInSnoc(t.order[..i], lib, t.entries);
      assert PathsIn(t.order[..i + 1], t.entries) == done + files;
      AbsentAppend(done, files, existing);
      missing := missing + absent;
    }
    assert t.order[..|t.order|] == t.order;
  }

  /** The inner loop of the existence check over one library's Verilog and VHDL paths. */
  method CheckPaths(files: seq<string>, existing: set<string>) returns (absent: seq<string>)
    ensures absent == Absent(files, existing)
  {
    absent := [];
    for k := 0 to |files|
      invariant absent == Absent(files[..k], existing)
    {
      assert files[..k] + [files[k]] == files[..k + 1];
      AbsentSnoc(files[..k], files[k], existing);
      if files[k] !in existing {
        absent := absent + [files[k]];
      }
    }
    assert files[..|files|] == files;
  }

  /** Some library of the table lists path `p`. */
  ghost predicate Listed(t: Table, p: string)
  {
    exists lib :: lib in t.entries && (p in t.entries[lib].verilog || p in t.entries[lib].vhdl)
  }

  /** Deduplication lists the same paths. */
  lemma ListedOfDedup(t: Table, p: string)
    ensures Listed(DedupTable(t), p) <==> Listed(t, p)
  {
    var d := DedupTable(t);
    if Listed(t, p) {
      var lib :| lib in t.entries && (p in t.entries[lib].verilog || p in t.entries[lib].vhdl);
      assert lib in d.entries && (p in d.entries[lib].verilog || p in d.entries[lib].vhdl);
    }
    if Listed(d, p) {
      var lib :| lib in d.entries && (p in d.entries[lib].verilog || p in d.entries[lib].vhdl);
      assert lib in t.entries && (p in t.entries[lib].verilog || p in t.entries[lib].vhdl);
    }
  }

  /** After deduplication the existence check reports exactly the listed paths that do not exist. */
  lemma MissingOfDedup(t: Table, existing: set<string>)
    requires ValidTable(t)
    ensures var d := DedupTable(t);
            forall p :: p in Absent(PathsIn(d.order, d.entries), existing) <==> Listed(t, p) && p !in existing
  {
    var d := DedupTable(t);
    var paths := PathsIn(d.order, d.entries);
    PathsInMembers(d.order, d.entries);
    AbsentCounts(paths, existing);
    forall p
      ensures p in paths <==> Listed(t, p)
    {
      ListedOfDedup(t, p);
      assert p in paths <==> Listed(d, p);
    }
  }
}
