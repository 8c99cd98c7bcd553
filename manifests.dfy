/** Parsed module manifests and the two ways oshsh looks one up by module name:
    the first match (dependency and source lookup) and the last match (top module). */
module Manifests {
  import opened Wrappers

  /** One entry of a manifest's "dependencies" object: a library key and its module names. */
  datatype DepGroup = DepGroup(library: string, modules: seq<string>)

  /** A parsed manifest. An absent "sources" or "dependencies" key is the empty sequence;
      `dependencies` lists the object's entries in declaration order; `dir` is the directory
      that holds the manifest file. */
  datatype Manifest = Manifest(name: string, sources: seq<string>, dependencies: seq<DepGroup>, dir: string)

  /** A library-qualified module reference, the (library, module) tuple of the source. */
  datatype Ref = Ref(lib: string, name: string)

  /** Index of the first manifest declaring module `name`. */
  function FirstIndex(store: seq<Manifest>, name: string): (r: Option<nat>)
    ensures r.None? <==> forall i :: 0 <= i < |store| ==> store[i].name != name
    ensures r.Some? ==> r.value < |store| && store[r.value].name == name
    ensures r.Some? ==> forall j :: 0 <= j < r.value ==> store[j].name != name
  {
    if store == [] then None
    else if store[0].name == name then Some(0)
    else match FirstIndex(store[1..], name)
      case None => None
      case Some(i) => Some(i + 1)
  }

  /** The manifest found by `next((m for m in manifest_data if m.get("module") == name), None)`. */
  function FirstManifest(store: seq<Manifest>, name: string): Option<Manifest>
  {
    match FirstIndex(store, name)
    case None => None
    case Some(i) => Some(store[i])
  }

  predicate HasManifest(store: seq<Manifest>, name: string)
  {
    FirstIndex(store, name).Some?
  }

  /** Index of the last manifest declaring module `name`. */
  function LastIndex(store: seq<Manifest>, name: string): (r: Option<nat>)
    ensures r.None? <==> forall i :: 0 <= i < |store| ==> store[i].name != name
    ensures r.Some? ==> r.value < |store| && store[r.value].name == name
    ensures r.Some? ==> forall j :: r.value < j < |store| ==> store[j].name != name
  {
    if store == [] then None
    else if store[|store| - 1].name == name then Some(|store| - 1)
    else LastIndex(store[..|store| - 1], name)
  }

  function LastManifest(store: seq<Manifest>, name: string): Option<Manifest>
  {
    match LastIndex(store, name)
    case None => None
    case Some(i) => Some(store[i])
  }

  /** The top-module scan: every manifest whose module matches overwrites the previous
      candidate, so the last match wins; no match leaves nothing found. */
  method FindTop(store: seq<Manifest>, name: string) returns (top: Option<Manifest>)
    ensures top == LastManifest(store, name)
  {
    top := None;
    for i := 0 to |store|
      invariant top == LastManifest(store[..i], name)
    {
      assert store[..i + 1][..i] == store[..i];
      if store[i].name == name {
        top := Some(store[i]);
      }
    }
    assert store[..|store|] == store;
  }

  /** When only one manifest declares `name`, the first and the last match coincide. */
  lemma UniqueNameFirstIsLast(store: seq<Manifest>, name: string, k: nat)
    requires k < |store| && store[k].name == name
    requires forall i :: 0 <= i < |store| && i != k ==> store[i].name != name
    ensures FirstManifest(store, name) == LastManifest(store, name) == Some(store[k])
  {
  }
}
