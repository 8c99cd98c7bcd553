/** Dependency resolution: the recursive depth-first walk of `extract_dependencies`. */
module Resolver {
  import opened Wrappers
  import opened Seqs
  import opened Manifests

  /** The library key that stands for the library of the depending module. */
  const WORK: string := "work"

  /** The pairs one dependency entry declares, all in library `lib`. */
  function GroupRefs(lib: string, modules: seq<string>): seq<Ref>
  {
    seq(|modules|, i requires 0 <= i < |modules| => Ref(lib, modules[i]))
  }

  /** The (library, module) pairs a manifest's dependency map declares, in declaration order,
      with the key "work" replaced by the current library. */
  function DirectDeps(groups: seq<DepGroup>, current: string): seq<Ref>
  {
    if groups == [] then []
    else
      var lib := if groups[0].library == WORK then current else groups[0].library;
      GroupRefs(lib, groups[0].modules) + DirectDeps(groups[1..], current)
  }

  /** Every module a dependency entry lists appears as a pair, in the entry's library with
      "work" replaced by the current library; and nothing else appears. */
  lemma {:induction false} DirectDepsMembers(groups: seq<DepGroup>, current: string)
    ensures forall g, m :: g in groups && m in g.modules ==>
              Ref(if g.library == WORK then current else g.library, m) in DirectDeps(groups, current)
    ensures forall x :: x in DirectDeps(groups, current) ==>
              exists g :: g in groups && x.name in g.modules && x.lib == (if g.library == WORK then current else g.library)
  {
    if groups != [] {
      var g0 := groups[0];
      var lib := if g0.library == WORK then current else g0.library;
      var head := GroupRefs(lib, g0.modules);
      DirectDepsMembers(groups[1..], current);
      assert forall i :: 0 <= i < |g0.modules| ==> head[i] == Ref(lib, g0.modules[i]);
      forall x | x in head
        ensures x.name in g0.modules && x.lib == lib
      {
        var i :| 0 <= i < |head| && head[i] == x;
      }
      assert forall g :: g in groups[1..] ==> g in groups;
      assert forall g :: g in groups ==> g == g0 || g in groups[1..];
    }
  }

  /** Visits `refs` in order, threading the shared list `collected`: a pair already collected
      is skipped; otherwise the first manifest of its module, if any, is visited with the
      pair's library as the current library, and the pair is appended afterwards. `fuel`
      bounds the nesting of visits; running out is the interpreter's recursion limit. */
  function Visit(store: seq<Manifest>, refs: seq<Ref>, collected: seq<Ref>, fuel: nat): Option<seq<Ref>>
    decreases fuel, |refs|
  {
    if refs == [] then Some(collected)
    else
      var dep := refs[0];
      if dep in collected then Visit(store, refs[1..], collected, fuel)
      else match FirstManifest(store, dep.name)
        case None => Visit(store, refs[1..], collected + [dep], fuel)
        case Some(m) =>
          if fuel == 0 then None
          else match Visit(store, DirectDeps(m.dependencies, dep.lib), collected, fuel - 1)
            case None => None
            case Some(expanded) => Visit(store, refs[1..], expanded + [dep], fuel)
  }

  /** `extract_dependencies(manifest_data, top, work)` as a value: None when the recursion limit is hit. */
  function Resolve(store: seq<Manifest>, top: Manifest, work: string, fuel: nat): Option<seq<Ref>>
  {
    Visit(store, DirectDeps(top.dependencies, work), [], fuel)
  }

  /** `_extract(manifest, collected_deps, current_work)`: the shared list is threaded through
      `collected` and returned; None stands for the RecursionError. */
  method Extract(store: seq<Manifest>, manifest: Manifest, collected: seq<Ref>, current: string, fuel: nat)
    returns (r: Option<seq<Ref>>)
    ensures r == Visit(store, DirectDeps(manifest.dependencies, current), collected, fuel)
    decreases fuel, 1
  {
    var groups := manifest.dependencies;
    var acc := collected;
    var g := 0;
    while g < |groups|
      invariant 0 <= g <= |groups|
      invariant Visit(store, DirectDeps(groups, current), collected, fuel)
             == Visit(store, DirectDeps(groups[g..], current), acc, fuel)
    {
      var lib := groups[g].library;
      if lib == WORK {
        lib := current;
      }
      ghost var rest := DirectDeps(groups[g + 1..], current);
      assert groups[g..][1..] == groups[g + 1..];
      assert DirectDeps(groups[g..], current) == GroupRefs(lib, groups[g].modules) + rest;
      var sub := ExtractModules(store, lib, groups[g].modules, rest, acc, fuel);
      if sub.None? {
        return None;
      }
      acc := sub.value;
      g := g + 1;
    }
    assert DirectDeps(groups[g..], current) == [];
    return Some(acc);
  }

  /** The inner loop of `_extract` over the modules of one dependency entry, all in library
      `lib`; `rest` is what the caller visits afterwards. */
  method ExtractModules(store: seq<Manifest>, lib: string, modules: seq<string>, ghost rest: seq<Ref>,
                        collected: seq<Ref>, fuel: nat)
    returns (r: Option<seq<Ref>>)
    ensures Visit(store, GroupRefs(lib, modules) + rest, collected, fuel)
         == if r.None? then None else Visit(store, rest, r.value, fuel)
    decreases fuel, 0
  {
    var acc := collected;
    var k := 0;
    while k < |modules|
      invariant 0 <= k <= |modules|
      invariant Visit(store, GroupRefs(lib, modules) + rest, collected, fuel)
             == Visit(store, GroupRefs(lib, modules[k..]) + rest, acc, fuel)
    {
      var dep := Ref(lib, modules[k]);
      ghost var todo := GroupRefs(lib, modules[k..]) + rest;
      assert todo[0] == dep;
      assert todo[1..] == GroupRefs(lib, modules[k + 1..]) + rest;
      if dep !in acc {
        var found := FirstManifest(store, modules[k]);
        if found.Some? {
          if fuel == 0 {
            return None;
          }
          var sub := Extract(store, found.value, acc, lib, fuel - 1);
          if sub.None? {
            return None;
          }
          acc := sub.value;
        }
        acc := acc + [dep];
      }
      k := k + 1;
    }
    assert GroupRefs(lib, modules[k..]) + rest == rest;
    return Some(acc);
  }

  /** `extract_dependencies`: a fresh list, filled by visiting the top manifest with the work library. */
  method ExtractDependencies(store: seq<Manifest>, top: Manifest, work: string, fuel: nat)
    returns (resolved: Option<seq<Ref>>)
    ensures resolved == Resolve(store, top, work, fuel)
  {
    resolved := Extract(store, top, [], work, fuel);
  }

  /** The dependency pairs of an already-collected pair: those its module's first manifest
      declares, resolved in the pair's library; none when the module has no manifest. */
  function DepsOf(store: seq<Manifest>, x: Ref): seq<Ref>
  {
    match FirstManifest(store, x.name)
    case None => []
    case Some(m) => DirectDeps(m.dependencies, x.lib)
  }

  /** Dependencies precede dependents: each pair's own dependency pairs occur before it. */
  ghost predicate DepsBefore(store: seq<Manifest>, s: seq<Ref>)
  {
    forall i, d :: 0 <= i < |s| && d in DepsOf(store, s[i]) ==> d in s[..i]
  }

  /** The manifests form no cycle: some rank on module names strictly decreases from every
      manifest to each listed dependency that has a manifest. */
  ghost predicate Acyclic(store: seq<Manifest>, rank: string -> nat)
  {
    forall m, g, d :: m in store && g in m.dependencies && d in g.modules && HasManifest(store, d) ==>
      rank(d) < rank(m.name)
  }

  /** The shared list only grows at its end: what was collected before stays, in place. */
  lemma {:induction false} VisitExtends(store: seq<Manifest>, refs: seq<Ref>, collected: seq<Ref>, fuel: nat, r: seq<Ref>)
    requires Visit(store, refs, collected, fuel) == Some(r)
    ensures |collected| <= |r| && r[..|collected|] == collected
    decreases fuel, |refs|
  {
    if refs != [] {
      var dep := refs[0];
      if dep in collected {
        VisitExtends(store, refs[1..], collected, fuel, r);
      } else {
        match FirstManifest(store, dep.name)
        case None =>
          VisitExtends(store, refs[1..], collected + [dep], fuel, r);
          assert r[..|collected|] == r[..|collected| + 1][..|collected|];
        case Some(m) =>
          var expanded := Visit(store, DirectDeps(m.dependencies, dep.lib), collected, fuel - 1).value;
          VisitExtends(store, DirectDeps(m.dependencies, dep.lib), collected, fuel - 1, expanded);
          VisitExtends(store, refs[1..], expanded + [dep], fuel, r);
          assert r[..|collected|] == r[..|expanded| + 1][..|expanded|][..|collected|];
      }
    }
  }

  /** Every pair visited ends up collected. */
  lemma {:induction false} VisitCovers(store: seq<Manifest>, refs: seq<Ref>, collected: seq<Ref>, fuel: nat, r: seq<Ref>)
    requires Visit(store, refs, collected, fuel) == Some(r)
    ensures forall x :: x in refs ==> x in r
    decreases fuel, |refs|
  {
    if refs != [] {
      var dep := refs[0];
      assert forall x :: x in refs ==> x == dep || x in refs[1..];
      if dep in collected {
        VisitCovers(store, refs[1..], collected, fuel, r);
        VisitExtends(store, refs[1..], collected, fuel, r);
        assert dep in r[..|collected|];
      } else {
        var next := if FirstManifest(store, dep.name).None? then collected + [dep]
                    else Visit(store, DirectDeps(FirstManifest(store, dep.name).value.dependencies, dep.lib), collected, fuel - 1).value + [dep];
        assert Visit(store, refs[1..], next, fuel) == Some(r);
        VisitCovers(store, refs[1..], next, fuel, r);
        VisitExtends(store, refs[1..], next, fuel, r);
        assert dep == next[|next| - 1] == r[..|next|][|next| - 1];
      }
    }
  }

  lemma DepsBeforeAppend(store: seq<Manifest>, s: seq<Ref>, x: Ref)
    requires DepsBefore(store, s)
    requires forall d :: d in DepsOf(store, x) ==> d in s
    ensures DepsBefore(store, s + [x])
  {
    var t := s + [x];
    forall i, d | 0 <= i < |t| && d in DepsOf(store, t[i])
      ensures d in t[..i]
    {
      if i < |s| {
        assert t[..i] == s[..i];
      } else {
        assert t[..i] == s;
      }
    }
  }

  /** Post-order: a pair is appended only after the pairs of its manifest's dependencies,
      so the collected list keeps dependencies before dependents. */
  lemma {:induction false} VisitPostOrder(store: seq<Manifest>, refs: seq<Ref>, collected: seq<Ref>, fuel: nat, r: seq<Ref>)
    requires Visit(store, refs, collected, fuel) == Some(r)
    requires DepsBefore(store, collected)
    ensures DepsBefore(store, r)
    decreases fuel, |refs|
  {
    if refs != [] {
      var dep := refs[0];
      if dep in collected {
        VisitPostOrder(store, refs[1..], collected, fuel, r);
      } else {
        match FirstManifest(store, dep.name)
        case None =>
          DepsBeforeAppend(store, collected, dep);
          VisitPostOrder(store, refs[1..], collected + [dep], fuel, r);
        case Some(m) =>
          var deps := DirectDeps(m.dependencies, dep.lib);
          var expanded := Visit(store, deps, collected, fuel - 1).value;
          VisitPostOrder(store, deps, collected, fuel - 1, expanded);
          VisitCovers(store, deps, collected, fuel - 1, expanded);
          DepsBeforeAppend(store, expanded, dep);
          VisitPostOrder(store, refs[1..], expanded + [dep], fuel, r);
      }
    }
  }

  /** A dependency's own dependencies all rank below it. */
  lemma DepsRankBelow(store: seq<Manifest>, rank: string -> nat, m: Manifest, lib: string)
    requires Acyclic(store, rank) && m in store
    ensures forall x :: x in DirectDeps(m.dependencies, lib) && HasManifest(store, x.name) ==> rank(x.name) < rank(m.name)
  {
    DirectDepsMembers(m.dependencies, lib);
  }

  /** On acyclic manifests the collected list never repeats a pair, and every pair added
      whose module has a manifest ranks below `bound`. */
  lemma {:induction false} VisitNoDup(store: seq<Manifest>, rank: string -> nat, bound: nat,
                                      refs: seq<Ref>, collected: seq<Ref>, fuel: nat, r: seq<Ref>)
    requires Acyclic(store, rank)
    requires Visit(store, refs, collected, fuel) == Some(r)
    requires NoDup(collected)
    requires forall x :: x in refs && HasManifest(store, x.name) ==> rank(x.name) < bound
    ensures NoDup(r)
    ensures forall k :: |collected| <= k < |r| && HasManifest(store, r[k].name) ==> rank(r[k].name) < bound
    decreases fuel, |refs|, 1
  {
    if refs != [] {
      assert forall x :: x in refs[1..] ==> x in refs;
      if refs[0] in collected {
        VisitNoDup(store, rank, bound, refs[1..], collected, fuel, r);
      } else {
        var next := VisitFirst(store, refs, collected, fuel, r);
        NextNoDup(store, rank, bound, refs[0], collected, fuel, next);
        VisitNoDup(store, rank, bound, refs[1..], next, fuel, r);
        VisitExtends(store, refs[1..], next, fuel, r);
        RankBelowExtends(store, rank, bound, collected, next, r);
      }
    }
  }

  /** The step of `VisitNoDup` for a pair `dep` not yet collected: the list after it is
      appended is repeat-free, and what it adds ranks below `bound`. */
  lemma {:induction false} NextNoDup(store: seq<Manifest>, rank: string -> nat, bound: nat,
                                     dep: Ref, collected: seq<Ref>, fuel: nat, next: seq<Ref>)
    requires Acyclic(store, rank)
    requires dep !in collected && NoDup(collected)
    requires HasManifest(store, dep.name) ==> rank(dep.name) < bound
    requires |next| > 0 && next[|next| - 1] == dep
    requires !HasManifest(store, dep.name) ==> next == collected + [dep]
    requires HasManifest(store, dep.name) ==>
               fuel > 0 &&
               Visit(store, DirectDeps(FirstManifest(store, dep.name).value.dependencies, dep.lib), collected, fuel - 1)
                 == Some(next[..|next| - 1])
    ensures |collected| <= |next| && next[..|collected|] == collected
    ensures NoDup(next)
    ensures forall k :: |collected| <= k < |next| && HasManifest(store, next[k].name) ==> rank(next[k].name) < bound
    decreases fuel, 0, 0
  {
    if HasManifest(store, dep.name) {
      var m := FirstManifest(store, dep.name).value;
      assert m in store;
      var deps := DirectDeps(m.dependencies, dep.lib);
      var expanded := next[..|next| - 1];
      DepsRankBelow(store, rank, m, dep.lib);
      VisitNoDup(store, rank, rank(dep.name), deps, collected, fuel - 1, expanded);
      VisitExtends(store, deps, collected, fuel - 1, expanded);
      ExpansionNoDup(store, rank, bound, dep, collected, expanded);
      assert next == expanded + [dep];
      assert next[..|collected|] == expanded[..|collected|];
    } else {
      assert next[..|collected|] == collected;
    }
  }

  /** One step of a visit whose first pair is not yet collected: the list it continues with. */
  lemma VisitFirst(store: seq<Manifest>, refs: seq<Ref>, collected: seq<Ref>, fuel: nat, r: seq<Ref>)
    returns (next: seq<Ref>)
    requires refs != [] && refs[0] !in collected
    requires Visit(store, refs, collected, fuel) == Some(r)
    ensures Visit(store, refs[1..], next, fuel) == Some(r)
    ensures |next| > 0 && next[|next| - 1] == refs[0]
    ensures !HasManifest(store, refs[0].name) ==> next == collected + [refs[0]]
    ensures HasManifest(store, refs[0].name) ==>
              fuel > 0 &&
              Visit(store, DirectDeps(FirstManifest(store, refs[0].name).value.dependencies, refs[0].lib), collected, fuel - 1)
                == Some(next[..|next| - 1])
  {
    var dep := refs[0];
    if HasManifest(store, dep.name) {
      var m := FirstManifest(store, dep.name).value;
      next := Visit(store, DirectDeps(m.dependencies, dep.lib), collected, fuel - 1).value + [dep];
      assert next[..|next| - 1] + [dep] == next;
    } else {
      next := collected + [dep];
    }
  }

  /** After expanding `dep`, appending it keeps the list repeat-free and the pairs added since
      `collected` rank below `bound`. */
  lemma ExpansionNoDup(store: seq<Manifest>, rank: string -> nat, bound: nat, dep: Ref,
                       collected: seq<Ref>, expanded: seq<Ref>)
    requires HasManifest(store, dep.name) && rank(dep.name) < bound
    requires dep !in collected && NoDup(expanded)
    requires |collected| <= |expanded| && expanded[..|collected|] == collected
    requires forall k :: |collected| <= k < |expanded| && HasManifest(store, expanded[k].name) ==> rank(expanded[k].name) < rank(dep.name)
    ensures NoDup(expanded + [dep])
    ensures var next := expanded + [dep];
            forall k :: |collected| <= k < |next| && HasManifest(store, next[k].name) ==> rank(next[k].name) < bound
  {
    forall k | 0 <= k < |expanded|
      ensures expanded[k] != dep
    {
      if k < |collected| {
        assert expanded[k] == collected[k];
      }
    }
  }

  /** The rank bound on the pairs added since `collected` carries over from `next` to its extension `r`. */
  lemma RankBelowExtends(store: seq<Manifest>, rank: string -> nat, bound: nat,
                         collected: seq<Ref>, next: seq<Ref>, r: seq<Ref>)
    requires |collected| <= |next| <= |r| && r[..|next|] == next
    requires forall k :: |collected| <= k < |next| && HasManifest(store, next[k].name) ==> rank(next[k].name) < bound
    requires forall k :: |next| <= k < |r| && HasManifest(store, r[k].name) ==> rank(r[k].name) < bound
    ensures forall k :: |collected| <= k < |r| && HasManifest(store, r[k].name) ==> rank(r[k].name) < bound
  {
    forall k | |collected| <= k < |r| && HasManifest(store, r[k].name)
      ensures rank(r[k].name) < bound
    {
      if k < |next| {
        assert r[k] == next[k];
      }
    }
  }

  /** On acyclic manifests enough fuel always suffices: every pair ranking below `fuel` is
      visited without reaching the recursion limit. */
  lemma {:induction false} VisitTerminates(store: seq<Manifest>, rank: string -> nat, refs: seq<Ref>,
                                           collected: seq<Ref>, fuel: nat)
    requires Acyclic(store, rank)
    requires forall x :: x in refs && HasManifest(store, x.name) ==> rank(x.name) < fuel
    ensures Visit(store, refs, collected, fuel).Some?
    decreases fuel, |refs|
  {
    if refs != [] {
      var dep := refs[0];
      assert forall x :: x in refs[1..] ==> x in refs;
      if dep in collected {
        VisitTerminates(store, rank, refs[1..], collected, fuel);
      } else {
        match FirstManifest(store, dep.name) {
          case None =>
            VisitTerminates(store, rank, refs[1..], collected + [dep], fuel);
          case Some(m) =>
            var deps := DirectDeps(m.dependencies, dep.lib);
            DepsRankBelow(store, rank, m, dep.lib);
            VisitTerminates(store, rank, deps, collected, fuel - 1);
            var expanded := Visit(store, deps, collected, fuel - 1).value;
            VisitTerminates(store, rank, refs[1..], expanded + [dep], fuel);
        }
      }
    }
  }

  /** Resolution of an acyclic manifest set stops within rank(top) nested visits. */
  lemma ResolveTerminates(store: seq<Manifest>, rank: string -> nat, top: Manifest, work: string, fuel: nat)
    requires Acyclic(store, rank) && top in store && rank(top.name) <= fuel
    ensures Resolve(store, top, work, fuel).Some?
  {
    DepsRankBelow(store, rank, top, work);
    VisitTerminates(store, rank, DirectDeps(top.dependencies, work), [], fuel);
  }

  /** Resolution of an acyclic manifest set yields no duplicate pair and never yields the
      top module itself in the work library. */
  lemma ResolveNoDup(store: seq<Manifest>, rank: string -> nat, top: Manifest, work: string, fuel: nat, r: seq<Ref>)
    requires Acyclic(store, rank) && top in store
    requires Resolve(store, top, work, fuel) == Some(r)
    ensures NoDup(r)
    ensures Ref(work, top.name) !in r
  {
    DepsRankBelow(store, rank, top, work);
    VisitNoDup(store, rank, rank(top.name), DirectDeps(top.dependencies, work), [], fuel, r);
    assert HasManifest(store, top.name);
  }

  /** The resolved list keeps dependencies before dependents and holds every pair the top
      manifest declares directly. */
  lemma ResolvePostOrder(store: seq<Manifest>, top: Manifest, work: string, fuel: nat, r: seq<Ref>)
    requires Resolve(store, top, work, fuel) == Some(r)
    ensures DepsBefore(store, r)
    ensures forall x :: x in DirectDeps(top.dependencies, work) ==> x in r
  {
    VisitPostOrder(store, DirectDeps(top.dependencies, work), [], fuel, r);
    VisitCovers(store, DirectDeps(top.dependencies, work), [], fuel, r);
  }

  /** Every pair of `s` from index `from` on is one of `refs`, or a dependency pair of some
      pair after it. */
  ghost predicate Explained(store: seq<Manifest>, refs: seq<Ref>, s: seq<Ref>, from: nat)
  {
    forall k :: from <= k < |s| ==> s[k] in refs || exists j :: k < j < |s| && s[k] in DepsOf(store, s[j])
  }

  /** Nothing else is collected: each pair added is one of the pairs visited or a dependency
      pair of a pair added after it. */
  lemma {:induction false} VisitOnlyReachable(store: seq<Manifest>, refs: seq<Ref>, collected: seq<Ref>, fuel: nat, r: seq<Ref>)
    requires Visit(store, refs, collected, fuel) == Some(r)
    ensures Explained(store, refs, r, |collected|)
    decreases fuel, |refs|, 1
  {
    if refs != [] {
      if refs[0] in collected {
        VisitOnlyReachable(store, refs[1..], collected, fuel, r);
        ExplainedJoin(store, refs, refs[1..], [], r, r, |collected|);
      } else {
        var next := VisitFirst(store, refs, collected, fuel, r);
        NextOnlyReachable(store, refs[0], collected, fuel, next);
        VisitOnlyReachable(store, refs[1..], next, fuel, r);
        VisitExtends(store, refs[1..], next, fuel, r);
        ExplainedJoin(store, refs, [refs[0]], refs[1..], next, r, |collected|);
      }
    }
  }

  /** The step of `VisitOnlyReachable` for a pair `dep` not yet collected. */
  lemma {:induction false} NextOnlyReachable(store: seq<Manifest>, dep: Ref, collected: seq<Ref>, fuel: nat, next: seq<Ref>)
    requires |next| > 0 && next[|next| - 1] == dep
    requires !HasManifest(store, dep.name) ==> next == collected + [dep]
    requires HasManifest(store, dep.name) ==>
               fuel > 0 &&
               Visit(store, DirectDeps(FirstManifest(store, dep.name).value.dependencies, dep.lib), collected, fuel - 1)
                 == Some(next[..|next| - 1])
    ensures Explained(store, [dep], next, |collected|)
    decreases fuel, 0, 0
  {
    if HasManifest(store, dep.name) {
      var m := FirstManifest(store, dep.name).value;
      var expanded := next[..|next| - 1];
      VisitOnlyReachable(store, DirectDeps(m.dependencies, dep.lib), collected, fuel - 1, expanded);
      assert DepsOf(store, dep) == DirectDeps(m.dependencies, dep.lib);
      forall k | |collected| <= k < |next| && next[k] !in [dep]
        ensures exists j :: k < j < |next| && next[k] in DepsOf(store, next[j])
      {
        assert k < |expanded| && next[k] == expanded[k];
        if next[k] in DepsOf(store, dep) {
          assert next[k] in DepsOf(store, next[|expanded|]);
        } else {
          var j :| k < j < |expanded| && expanded[k] in DepsOf(store, expanded[j]);
          assert next[j] == expanded[j];
        }
      }
    }
  }

  /** `s` explained from `from` by `a`, and its extension `r` explained beyond `s` by `b`,
      make `r` explained from `from` by any `refs` holding both. */
  lemma ExplainedJoin(store: seq<Manifest>, refs: seq<Ref>, a: seq<Ref>, b: seq<Ref>, s: seq<Ref>, r: seq<Ref>, from: nat)
    requires |s| <= |r| && r[..|s|] == s
    requires forall x :: x in a ==> x in refs
    requires forall x :: x in b ==> x in refs
    requires Explained(store, a, s, from)
    requires Explained(store, b, r, |s|)
    ensures Explained(store, refs, r, from)
  {
    forall k | from <= k < |s| && r[k] !in refs
      ensures exists j :: k < j < |r| && r[k] in DepsOf(store, r[j])
    {
      assert r[k] == s[k];
      var j :| k < j < |s| && s[k] in DepsOf(store, s[j]);
      assert r[j] == s[j];
    }
  }

  /** Conversely, the resolved list holds only what the top manifest needs: each pair is one
      the top manifest declares directly, or a dependency pair of a pair resolved after it. */
  lemma ResolveOnlyReachable(store: seq<Manifest>, top: Manifest, work: string, fuel: nat, r: seq<Ref>)
    requires Resolve(store, top, work, fuel) == Some(r)
    ensures forall k :: 0 <= k < |r| ==>
              r[k] in DirectDeps(top.dependencies, work) || exists j :: k < j < |r| && r[k] in DepsOf(store, r[j])
  {
    VisitOnlyReachable(store, DirectDeps(top.dependencies, work), [], fuel, r);
  }

  /** A manifest whose dependency lists are all empty resolves to the empty list. */
  lemma NoDependenciesResolveEmpty(store: seq<Manifest>, top: Manifest, work: string, fuel: nat)
    requires forall g :: g in top.dependencies ==> g.modules == []
    ensures Resolve(store, top, work, fuel) == Some([])
  {
    DirectDepsMembers(top.dependencies, work);
  }

  lemma {:induction false} SelfVisitFails(store: seq<Manifest>, m: Manifest, lib: string, fuel: nat)
    requires FirstManifest(store, m.name) == Some(m)
    requires m.dependencies == [DepGroup(WORK, [m.name])]
    ensures Visit(store, [Ref(lib, m.name)], [], fuel) == None
  {
    assert DirectDeps(m.dependencies, lib) == [Ref(lib, m.name)];
    if fuel > 0 {
      SelfVisitFails(store, m, lib, fuel - 1);
    }
  }

  /** The guard "pair not yet collected" does not stop a cycle: a module that depends on
      itself through "work" exhausts any recursion budget. */
  lemma SelfDependencyNeverResolves(store: seq<Manifest>, m: Manifest, lib: string, fuel: nat)
    requires FirstManifest(store, m.name) == Some(m)
    requires m.dependencies == [DepGroup(WORK, [m.name])]
    ensures Resolve(store, m, lib, fuel) == None
  {
    assert DirectDeps(m.dependencies, lib) == [Ref(lib, m.name)];
    SelfVisitFails(store, m, lib, fuel);
  }
}
