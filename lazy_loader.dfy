/**
 * The lazy import cache of lazy_loader_light.hpp: `lazyimport`, the per-module
 * symbol cache `basic_lazyimportcollection`, the module `basic_lazymodule` and the
 * module registry `basic_lazymodulecollection`.
 *
 * Both caches look entries up by a `std::hash` of the name, never by the name:
 * the hash is a parameter `hashFn` that the model never assumes to be injective.
 * The process-wide singleton is one explicitly constructed `ModuleCollection`.
 */
module LazyLoaderLight {
  import opened Options
  import opened Loader
  import opened ImportPath

  /**
   * A `lazyimport`: a symbol name, the hash of that name and the resolved address.
   * A default-constructed one has name "", address 0 and an unspecified hash.
   */
  datatype LazyImport = LazyImport(name: string, hash: nat, ptr: Addr) {
    /** `operator bool`: the import was resolved to a non-null address. */
    predicate IsValid()
      ensures IsValid() <==> ptr != 0
    {
      ptr != 0
    }
  }

  function ImportHash(i: LazyImport): nat {
    i.hash
  }

  /**
   * The value of a `basic_lazymodule` (name, hash, OS handle and its own import
   * collection), as the registry's `std::vector` holds it: by value, so that every
   * `elem = *it` makes a copy.
   */
  datatype ModuleValue = ModuleValue(name: string, hash: nat, handle: Addr, imports: seq<LazyImport>)

  function ModuleHash(m: ModuleValue): nat {
    m.hash
  }

  /** `basic_lazymodule(name, hmod)`: a module with an empty import collection. */
  function MakeModule(hashFn: string -> nat, name: string, hmod: Addr): ModuleValue {
    ModuleValue(name, hashFn(name), hmod, [])
  }

  // ---------------------------------------------------------------------------
  // Lookup by hash

  /** `std::find_if` comparing `key` of each element with `h`: the first match. */
  function FindFirst<T>(s: seq<T>, key: T -> nat, h: nat): (r: Option<nat>)
    ensures r.Some? ==> r.value < |s| && key(s[r.value]) == h
    ensures r.Some? ==> forall j :: 0 <= j < r.value ==> key(s[j]) != h
    ensures r.None? ==> forall j :: 0 <= j < |s| ==> key(s[j]) != h
  {
    if |s| == 0 then None
    else if key(s[0]) == h then Some(0)
    else match FindFirst(s[1..], key, h)
      case None => None
      case Some(k) => Some(k + 1)
  }

  /** No two elements share a key. */
  predicate KeysDistinct<T>(s: seq<T>, key: T -> nat) {
    forall i, j :: 0 <= i < j < |s| ==> key(s[i]) != key(s[j])
  }

  /** Appending an element whose key is absent keeps the keys distinct and the prefix intact. */
  lemma AppendKeepsDistinct<T>(s: seq<T>, key: T -> nat, x: T)
    requires KeysDistinct(s, key)
    requires FindFirst(s, key, key(x)).None?
    ensures KeysDistinct(s + [x], key)
    ensures (s + [x])[..|s|] == s
  {
    var t := s + [x];
    assert forall j :: 0 <= j < |s| ==> t[j] == s[j];
  }

  /** Appending an element only matters to a lookup that missed before. */
  lemma FindFirstAppend<T>(s: seq<T>, key: T -> nat, h: nat, x: T)
    ensures FindFirst(s + [x], key, h)
         == if FindFirst(s, key, h).Some? then FindFirst(s, key, h)
            else if key(x) == h then Some(|s|) else None
  {
    var t := s + [x];
    assert forall j :: 0 <= j < |s| ==> t[j] == s[j];
    assert t[|s|] == x;
    var r := FindFirst(t, key, h);
    match FindFirst(s, key, h)
    case Some(i) =>
      assert key(t[i]) == h;
    case None =>
      if key(x) == h {
        assert r.Some?;
      } else {
        assert r.None?;
      }
  }

  /** Removing the one element with a given key leaves no element with that key. */
  lemma FindFirstAfterErase<T>(s: seq<T>, key: T -> nat, i: nat)
    requires KeysDistinct(s, key) && i < |s|
    ensures KeysDistinct(s[..i] + s[i + 1..], key)
    ensures FindFirst(s[..i] + s[i + 1..], key, key(s[i])) == None
    ensures |s[..i] + s[i + 1..]| == |s| - 1
    ensures forall j :: 0 <= j < |s| - 1 ==> (s[..i] + s[i + 1..])[j] == if j < i then s[j] else s[j + 1]
  {
    var t := s[..i] + s[i + 1..];
    assert forall j :: 0 <= j < |t| ==> t[j] == if j < i then s[j] else s[j + 1];
  }

  // ---------------------------------------------------------------------------
  // basic_lazyimportcollection::find_or_load as a function of the loader's answer

  /** Every cached import is resolved, carries its name's hash, and no two share a hash. */
  predicate CacheInvariant(coll: seq<LazyImport>, hashFn: string -> nat) {
    && KeysDistinct(coll, ImportHash)
    && forall i :: 0 <= i < |coll| ==> coll[i].IsValid() && coll[i].hash == hashFn(coll[i].name)
  }

  /** The new collection, the new `elem` and the loader calls of one find-or-load. */
  datatype ImportStep = ImportStep(collection: seq<LazyImport>, elem: LazyImport, calls: seq<LoaderCall>)

  /**
   * `find_or_load(handle, name, elem)` when `get_symbol`, if it is called, answers
   * `answer`: a hash hit copies the first matching entry into `elem`; a miss asks
   * the loader, and keeps `elem` and the collection as they were when the answer is
   * 0, or appends the new import and copies it into `elem`.
   */
  function ImportFindOrLoad(coll: seq<LazyImport>, elem: LazyImport, hashFn: string -> nat,
                            handle: Addr, name: string, answer: Addr): (r: ImportStep)
    ensures var hit := FindFirst(coll, ImportHash, hashFn(name));
      && (hit.Some? <==> r.calls == [])
      && (hit.Some? ==> r.collection == coll && r.elem == coll[hit.value])
      && (hit.None? ==> r.calls == [Resolve(handle, name, answer)])
      && (hit.None? && answer == 0 ==> r.collection == coll && r.elem == elem)
      && (hit.None? && answer != 0 ==>
            r.elem == LazyImport(name, hashFn(name), answer) && r.collection == coll + [r.elem])
  {
    match FindFirst(coll, ImportHash, hashFn(name))
    case Some(i) => ImportStep(coll, coll[i], [])
    case None =>
      if answer == 0 then
        ImportStep(coll, elem, [Resolve(handle, name, 0)])
      else
        var e := LazyImport(name, hashFn(name), answer);
        ImportStep(coll + [e], e, [Resolve(handle, name, answer)])
  }

  /** The cache only grows at its end, and only by resolved entries with fresh hashes. */
  lemma ImportFindOrLoadPreserves(coll: seq<LazyImport>, elem: LazyImport, hashFn: string -> nat,
                                  handle: Addr, name: string, answer: Addr)
    requires CacheInvariant(coll, hashFn)
    ensures var s := ImportFindOrLoad(coll, elem, hashFn, handle, name, answer);
      && CacheInvariant(s.collection, hashFn)
      && |coll| <= |s.collection| <= |coll| + 1
      && s.collection[..|coll|] == coll
      && |s.calls| <= 1
  {
    if FindFirst(coll, ImportHash, hashFn(name)).None? && answer != 0 {
      var e := LazyImport(name, hashFn(name), answer);
      AppendKeepsDistinct(coll, ImportHash, e);
      var t := coll + [e];
      assert forall j :: 0 <= j < |t| ==> t[j] == if j < |coll| then coll[j] else e;
    }
  }

  /**
   * Resolution is memoised: once a name is found or resolved, asking again hits
   * the cache, observes the same import and makes no loader call. A failed
   * resolution is not recorded, so asking again calls `get_symbol` again.
   */
  lemma ImportFindOrLoadTwice(coll: seq<LazyImport>, hashFn: string -> nat, name: string,
                              e1: LazyImport, h1: Addr, a1: Addr,
                              e2: LazyImport, h2: Addr, a2: Addr)
    requires CacheInvariant(coll, hashFn)
    ensures var s1 := ImportFindOrLoad(coll, e1, hashFn, h1, name, a1);
      var s2 := ImportFindOrLoad(s1.collection, e2, hashFn, h2, name, a2);
      if FindFirst(coll, ImportHash, hashFn(name)).Some? || a1 != 0 then
        s2 == ImportStep(s1.collection, s1.elem, []) && s1.elem.IsValid()
      else
        s2.calls == [Resolve(h2, name, a2)]
  {
    var s1 := ImportFindOrLoad(coll, e1, hashFn, h1, name, a1);
    if FindFirst(coll, ImportHash, hashFn(name)).None? && a1 != 0 {
      FindFirstAppend(coll, ImportHash, hashFn(name), s1.elem);
    }
  }

  // ---------------------------------------------------------------------------
  // basic_lazymodulecollection operations as functions of the loader's answers

  /**
   * What the registry's stored modules always satisfy: pairwise distinct hashes,
   * each the hash of the module's name, a non-zero handle, and an EMPTY import
   * collection (symbols are only ever added to copies).
   */
  predicate RegistryInvariant(mods: seq<ModuleValue>, hashFn: string -> nat) {
    && KeysDistinct(mods, ModuleHash)
    && forall i :: 0 <= i < |mods| ==>
         mods[i].hash == hashFn(mods[i].name) && mods[i].handle != 0 && mods[i].imports == []
  }

  /** The new collection, the new `elem` and the loader calls of one module find-or-load. */
  datatype ModuleStep = ModuleStep(modules: seq<ModuleValue>, elem: ModuleValue, calls: seq<LoaderCall>)

  /**
   * `find_or_load(name, elem)` when `load_module`, if it is called, answers `answer`:
   * the same three outcomes as the symbol cache, keyed by the module name's hash.
   */
  function ModuleFindOrLoad(mods: seq<ModuleValue>, elem: ModuleValue, hashFn: string -> nat,
                            name: string, answer: Addr): (r: ModuleStep)
    ensures var hit := FindFirst(mods, ModuleHash, hashFn(name));
      && (hit.Some? <==> r.calls == [])
      && (hit.Some? ==> r.modules == mods && r.elem == mods[hit.value])
      && (hit.None? ==> r.calls == [Load(name, answer)])
      && (hit.None? && answer == 0 ==> r.modules == mods && r.elem == elem)
      && (hit.None? && answer != 0 ==>
            r.elem == ModuleValue(name, hashFn(name), answer, []) && r.modules == mods + [r.elem])
  {
    match FindFirst(mods, ModuleHash, hashFn(name))
    case Some(i) => ModuleStep(mods, mods[i], [])
    case None =>
      if answer == 0 then
        ModuleStep(mods, elem, [Load(name, 0)])
      else
        var m := MakeModule(hashFn, name, answer);
        ModuleStep(mods + [m], m, [Load(name, answer)])
  }

  /** An entry is appended only when no stored hash matches, so hashes stay distinct. */
  lemma ModuleFindOrLoadPreserves(mods: seq<ModuleValue>, elem: ModuleValue, hashFn: string -> nat,
                                  name: string, answer: Addr)
    requires RegistryInvariant(mods, hashFn)
    ensures var s := ModuleFindOrLoad(mods, elem, hashFn, name, answer);
      && RegistryInvariant(s.modules, hashFn)
      && |mods| <= |s.modules| <= |mods| + 1
      && s.modules[..|mods|] == mods
  {
    if FindFirst(mods, ModuleHash, hashFn(name)).None? && answer != 0 {
      var m := MakeModule(hashFn, name, answer);
      AppendKeepsDistinct(mods, ModuleHash, m);
      var t := mods + [m];
      assert forall j :: 0 <= j < |t| ==> t[j] == if j < |mods| then mods[j] else m;
    }
  }

  /**
   * A module is loaded at most once: after a find-or-load that found or loaded it,
   * a second one for the same name observes the same module and calls nothing. A
   * failed load is not recorded, so the next request calls `load_module` again.
   */
  lemma ModuleFindOrLoadTwice(mods: seq<ModuleValue>, hashFn: string -> nat, name: string,
                              e1: ModuleValue, a1: Addr, e2: ModuleValue, a2: Addr)
    requires RegistryInvariant(mods, hashFn)
    ensures var s1 := ModuleFindOrLoad(mods, e1, hashFn, name, a1);
      var s2 := ModuleFindOrLoad(s1.modules, e2, hashFn, name, a2);
      if FindFirst(mods, ModuleHash, hashFn(name)).Some? || a1 != 0 then
        s2 == ModuleStep(s1.modules, s1.elem, []) && s1.elem.handle != 0
      else
        s2.calls == [Load(name, a2)]
  {
    var s1 := ModuleFindOrLoad(mods, e1, hashFn, name, a1);
    if FindFirst(mods, ModuleHash, hashFn(name)).None? && a1 != 0 {
      FindFirstAppend(mods, ModuleHash, hashFn(name), s1.elem);
    }
  }

  /** The registry after `register_import`, the loader calls it made, and its result. */
  datatype RegisterStep = RegisterStep(modules: seq<ModuleValue>, calls: seq<LoaderCall>,
                                       result: Option<LazyImport>)

  /**
   * A default-constructed `basic_lazymodule`: handle 0 and no imports. Its hash is
   * unspecified in the source; nothing that reads this value looks at it.
   */
  const NoModule := ModuleValue("", 0, 0, [])

  /**
   * Only the handle and the imports of the `elem` passed in can show through a
   * find-or-load, so a default module behaves like `NoModule` whatever its hash.
   */
  lemma ModuleFindOrLoadOfDefault(mods: seq<ModuleValue>, e: ModuleValue, hashFn: string -> nat,
                                  name: string, answer: Addr)
    requires e.handle == 0 && e.imports == []
    ensures var a := ModuleFindOrLoad(mods, e, hashFn, name, answer);
      var b := ModuleFindOrLoad(mods, NoModule, hashFn, name, answer);
      && a.modules == b.modules && a.calls == b.calls
      && a.elem.handle == b.elem.handle && a.elem.imports == b.elem.imports
  {
  }

  /** A default-constructed `lazyimport` (its hash is likewise never read). */
  const NoImport := LazyImport("", 0, 0)

  /**
   * `register_import(module_name, function_name)` when `load_module` answers
   * `loaded` and `get_symbol` answers `resolved`. `result` None stands for the
   * default-constructed, invalid import. The module found or loaded is a COPY:
   * the symbol is looked up in the copy's imports and the copy is discarded, so the
   * registry's stored modules are not updated. After a failed load the copy is the
   * default module, whose handle 0 is still passed to `get_symbol`.
   */
  function Register(mods: seq<ModuleValue>, hashFn: string -> nat, moduleName: string,
                    functionName: string, loaded: Addr, resolved: Addr): (r: RegisterStep)
    ensures |r.calls| <= 2
    ensures moduleName == "" ==> r.modules == mods && r.calls == [] && r.result == None
    ensures functionName == "" ==> r.result == None
    ensures r.result.Some? ==> moduleName != "" && functionName != "" && r.result.value.IsValid()
    ensures |mods| <= |r.modules| <= |mods| + 1 && r.modules[..|mods|] == mods
  {
    if moduleName == "" then
      RegisterStep(mods, [], None)
    else
      var ms := ModuleFindOrLoad(mods, NoModule, hashFn, moduleName, loaded);
      if functionName == "" then
        RegisterStep(ms.modules, ms.calls, None)
      else
        var st := ImportFindOrLoad(ms.elem.imports, NoImport, hashFn, ms.elem.handle,
                                   functionName, resolved);
        RegisterStep(ms.modules, ms.calls + st.calls,
                     if st.elem.IsValid() then Some(st.elem) else None)
  }

  /** `r` is what `register_import` returns when its outcome is `result`. */
  predicate Yields(r: LazyImport, result: Option<LazyImport>) {
    match result
    case None => r.name == "" && r.ptr == 0
    case Some(i) => r == i
  }

  lemma RegisterPreserves(mods: seq<ModuleValue>, hashFn: string -> nat, moduleName: string,
                          functionName: string, loaded: Addr, resolved: Addr)
    requires RegistryInvariant(mods, hashFn)
    ensures RegistryInvariant(Register(mods, hashFn, moduleName, functionName, loaded, resolved).modules, hashFn)
  {
    if moduleName != "" {
      ModuleFindOrLoadPreserves(mods, NoModule, hashFn, moduleName, loaded);
    }
  }

  /**
   * With a module name and a function name, `register_import` always ends in exactly
   * one `get_symbol` call, on the stored handle after a hash hit and otherwise on
   * whatever `load_module` answered, 0 included. The result is valid exactly when
   * `get_symbol` answered non-zero.
   */
  lemma RegisterAlwaysResolves(mods: seq<ModuleValue>, hashFn: string -> nat, moduleName: string,
                               functionName: string, loaded: Addr, resolved: Addr)
    requires RegistryInvariant(mods, hashFn)
    requires moduleName != "" && functionName != ""
    ensures var s := Register(mods, hashFn, moduleName, functionName, loaded, resolved);
      var found := FindFirst(mods, ModuleHash, hashFn(moduleName));
      var handle := if found.Some? then mods[found.value].handle else loaded;
      && s.calls == (if found.Some? then [] else [Load(moduleName, loaded)])
                    + [Resolve(handle, functionName, resolved)]
      && s.result == if resolved != 0 then Some(LazyImport(functionName, hashFn(functionName), resolved))
                     else None
  {
  }

  /**
   * A failed module load does not stop `register_import`: the symbol is still
   * resolved against handle 0, and the registry is left unchanged.
   */
  lemma FailedLoadStillResolves(mods: seq<ModuleValue>, hashFn: string -> nat, moduleName: string,
                                functionName: string, resolved: Addr)
    requires RegistryInvariant(mods, hashFn)
    requires moduleName != "" && functionName != ""
    requires FindFirst(mods, ModuleHash, hashFn(moduleName)).None?
    ensures var s := Register(mods, hashFn, moduleName, functionName, 0, resolved);
      && s.modules == mods
      && s.calls == [Load(moduleName, 0), Resolve(0, functionName, resolved)]
      && (s.result.Some? <==> resolved != 0)
  {
    RegisterAlwaysResolves(mods, hashFn, moduleName, functionName, 0, resolved);
  }

  /** The sentinel outcomes: no module name, no function name, and what a valid result is. */
  lemma RegisterSentinels(mods: seq<ModuleValue>, hashFn: string -> nat, moduleName: string,
                          functionName: string, loaded: Addr, resolved: Addr)
    requires RegistryInvariant(mods, hashFn)
    ensures var s := Register(mods, hashFn, moduleName, functionName, loaded, resolved);
      && (moduleName == "" ==> s == RegisterStep(mods, [], None))
      && (functionName == "" ==>
            && s.result == None
            && forall k :: 0 <= k < |s.calls| ==> s.calls[k] == Load(moduleName, loaded))
      && (s.result.Some? ==>
            && s.result.value == LazyImport(functionName, hashFn(functionName), resolved)
            && s.result.value.IsValid())
  {
  }

  /**
   * Two `register_import` calls for the same module: the second loads nothing and
   * keeps the registry as the first left it, yet it calls `get_symbol` again,
   * because the first call's symbol went into a discarded copy.
   */
  lemma RegisterTwice(mods: seq<ModuleValue>, hashFn: string -> nat, moduleName: string,
                      f1: string, l1: Addr, r1: Addr, f2: string, l2: Addr, r2: Addr)
    requires RegistryInvariant(mods, hashFn)
    requires moduleName != ""
    requires FindFirst(mods, ModuleHash, hashFn(moduleName)).Some? || l1 != 0
    ensures var s1 := Register(mods, hashFn, moduleName, f1, l1, r1);
      var s2 := Register(s1.modules, hashFn, moduleName, f2, l2, r2);
      var i := FindFirst(s1.modules, ModuleHash, hashFn(moduleName));
      && i.Some?
      && s2.modules == s1.modules
      && s2.calls == if f2 == "" then [] else [Resolve(s1.modules[i.value].handle, f2, r2)]
  {
    var s1 := Register(mods, hashFn, moduleName, f1, l1, r1);
    ModuleFindOrLoadTwice(mods, hashFn, moduleName, NoModule, l1, NoModule, l2);
    RegisterPreserves(mods, hashFn, moduleName, f1, l1, r1);
    if FindFirst(mods, ModuleHash, hashFn(moduleName)).None? {
      FindFirstAppend(mods, ModuleHash, hashFn(moduleName), MakeModule(hashFn, moduleName, l1));
    }
  }

  /**
   * Identity by hash: once "a.dll" is registered, a request for any other name with
   * the same hash reuses it, and the symbol is looked up in "a.dll".
   */
  lemma HashCollisionSharesModule(resolved: Addr)
    ensures var hashFn := (s: string) => 0;
      var mods := [MakeModule(hashFn, "a.dll", 7)];
      var s := Register(mods, hashFn, "b.dll", "f", 9, resolved);
      s.modules == mods && s.calls == [Resolve(7, "f", resolved)]
  {
  }

  /** The registry after `unload(name)` and the loader calls it made. */
  datatype UnloadStep = UnloadStep(modules: seq<ModuleValue>, calls: seq<LoaderCall>)

  /**
   * `unload(name)` when `free_module` answers `status`: on a hash hit the first
   * matching module is freed and erased; otherwise nothing happens.
   */
  function UnloadByName(mods: seq<ModuleValue>, hashFn: string -> nat, name: string, status: nat): (r: UnloadStep)
    ensures var hit := FindFirst(mods, ModuleHash, hashFn(name));
      && (hit.None? ==> r.modules == mods && r.calls == [])
      && (hit.Some? ==> |r.modules| == |mods| - 1 && r.calls == [Free(mods[hit.value].handle, status)])
      && (hit.Some? ==> forall j :: 0 <= j < |r.modules| ==>
            r.modules[j] == (if j < hit.value then mods[j] else mods[j + 1]))
  {
    match FindFirst(mods, ModuleHash, hashFn(name))
    case Some(i) => UnloadStep(mods[..i] + mods[i + 1..], [Free(mods[i].handle, status)])
    case None => UnloadStep(mods, [])
  }

  /**
   * Unloading erases exactly the module found, keeps the others in their order,
   * frees that module's handle once, and leaves no module with that hash.
   */
  lemma UnloadErasesMatch(mods: seq<ModuleValue>, hashFn: string -> nat, name: string, status: nat)
    requires RegistryInvariant(mods, hashFn)
    ensures var s := UnloadByName(mods, hashFn, name, status);
      && RegistryInvariant(s.modules, hashFn)
      && FindFirst(s.modules, ModuleHash, hashFn(name)) == None
      && match FindFirst(mods, ModuleHash, hashFn(name))
         case None => s.modules == mods && s.calls == []
         case Some(i) =>
           && |s.modules| == |mods| - 1
           && (forall j :: 0 <= j < i ==> s.modules[j] == mods[j])
           && (forall j :: i < j < |mods| ==> s.modules[j - 1] == mods[j])
           && s.calls == [Free(mods[i].handle, status)]
  {
    match FindFirst(mods, ModuleHash, hashFn(name))
    case None =>
    case Some(i) =>
      EraseKeepsRegistry(mods, hashFn, i);
  }

  /** Erasing one module of a well-formed registry leaves a well-formed registry without its hash. */
  lemma EraseKeepsRegistry(mods: seq<ModuleValue>, hashFn: string -> nat, i: nat)
    requires RegistryInvariant(mods, hashFn) && i < |mods|
    ensures RegistryInvariant(mods[..i] + mods[i + 1..], hashFn)
    ensures FindFirst(mods[..i] + mods[i + 1..], ModuleHash, mods[i].hash) == None
    ensures |mods[..i] + mods[i + 1..]| == |mods| - 1
    ensures forall j :: 0 <= j < |mods| - 1 ==>
      (mods[..i] + mods[i + 1..])[j] == if j < i then mods[j] else mods[j + 1]
  {
    FindFirstAfterErase(mods, ModuleHash, i);
    var t := mods[..i] + mods[i + 1..];
    forall j | 0 <= j < |t|
      ensures t[j].hash == hashFn(t[j].name) && t[j].handle != 0 && t[j].imports == []
    {
      if j < i { assert t[j] == mods[j]; } else { assert t[j] == mods[j + 1]; }
    }
  }

  /** After `unload(name)`, the next request for that name loads the module afresh. */
  lemma UnloadThenRegisterReloads(mods: seq<ModuleValue>, hashFn: string -> nat, name: string,
                                  status: nat, functionName: string, loaded: Addr, resolved: Addr)
    requires RegistryInvariant(mods, hashFn)
    requires name != ""
    ensures var u := UnloadByName(mods, hashFn, name, status);
      var s := Register(u.modules, hashFn, name, functionName, loaded, resolved);
      |s.calls| >= 1 && s.calls[0] == Load(name, loaded)
  {
    UnloadErasesMatch(mods, hashFn, name, status);
  }

  /** `calls` frees the handles of `mods`, one call each, in collection order. */
  predicate FreesInOrder(calls: seq<LoaderCall>, mods: seq<ModuleValue>) {
    && |calls| == |mods|
    && forall k :: 0 <= k < |calls| ==> calls[k].Free? && calls[k].handle == mods[k].handle
  }

  // ---------------------------------------------------------------------------
  // The classes

  /** `basic_lazyimportcollection`: the symbol cache of one module. */
  class ImportCollection {
    var collection: seq<LazyImport>

    constructor ()
      ensures collection == []
    {
      collection := [];
    }

    /**
     * `find_or_load(handle, function_name, elem)`; `elem` is passed in and the
     * updated `elem` returned.
     */
    method FindOrLoad(loader: Loader, hashFn: string -> nat, handle: Addr, name: string,
                      elem: LazyImport) returns (elem': LazyImport)
      modifies this, loader
      ensures var s := ImportFindOrLoad(old(collection), elem, hashFn, handle, name,
                                        NextAnswer(loader.log, |old(loader.log)|));
        && collection == s.collection
        && elem' == s.elem
        && loader.log == old(loader.log) + s.calls
    {
      var found := FindFirst(collection, ImportHash, hashFn(name));
      if found.Some? {
        elem' := collection[found.value];
      } else {
        var ptr := loader.GetSymbol(handle, name);
        if ptr == 0 {
          // the error message is built and dropped
          elem' := elem;
          return;
        }
        elem' := LazyImport(name, hashFn(name), ptr);
        collection := collection + [elem'];
      }
    }
  }

  /** `lazyimport()`: the default-constructed import, invalid, with an unspecified hash. */
  method DefaultImport() returns (r: LazyImport)
    ensures r.name == "" && r.ptr == 0 && !r.IsValid()
  {
    var h: nat :| true;
    r := LazyImport("", h, 0);
  }

  /** `basic_lazymodule` as a local object, which `register_import` and `unload` use. */
  class LazyModule {
    var name: string
    var handle: Addr
    var hash: nat
    const imports: ImportCollection

    /** The module's value, as a copy of it would hold. */
    function Value(): ModuleValue
      reads this, imports
    {
      ModuleValue(name, hash, handle, imports.collection)
    }

    /** `basic_lazymodule()`: handle 0, no imports, hash unspecified. */
    constructor Default()
      ensures name == "" && handle == 0 && imports.collection == [] && fresh(imports)
    {
      var h: nat :| true;
      name, handle, hash := "", 0, h;
      imports := new ImportCollection();
    }

    /** The defaulted copy assignment `*this = v`. */
    method Assign(v: ModuleValue)
      modifies this, imports
      ensures Value() == v
    {
      name, handle, hash := v.name, v.handle, v.hash;
      imports.collection := v.imports;
    }

    /** `add(function_name, import)` (`imp` here): find or resolve in this module's own imports. */
    method Add(loader: Loader, hashFn: string -> nat, functionName: string,
               imp: LazyImport) returns (imp': LazyImport)
      modifies imports, loader
      ensures var s := ImportFindOrLoad(old(imports.collection), imp, hashFn, handle, functionName,
                                        NextAnswer(loader.log, |old(loader.log)|));
        && imports.collection == s.collection
        && imp' == s.elem
        && loader.log == old(loader.log) + s.calls
    {
      imp' := imports.FindOrLoad(loader, hashFn, handle, functionName, imp);
    }

    /** `unload()`: free this module's handle and return the OS status. */
    method Unload(loader: Loader) returns (status: nat)
      modifies loader
      ensures loader.log == old(loader.log) + [Free(handle, status)]
    {
      status := loader.FreeModule(handle);
    }
  }

  /** `basic_lazymodulecollection`: the module registry. */
  class ModuleCollection {
    const hashFn: string -> nat
    const loader: Loader
    var modules: seq<ModuleValue>

    ghost predicate Valid()
      reads this
    {
      RegistryInvariant(modules, hashFn)
    }

    /** The singleton, constructed explicitly: an empty registry over `loader`. */
    constructor (hashFn: string -> nat, loader: Loader)
      ensures Valid() && modules == []
      ensures this.hashFn == hashFn && this.loader == loader
    {
      this.hashFn := hashFn;
      this.loader := loader;
      modules := [];
    }

    /** `find_or_load(name, elem)`: `elem` receives a copy of the module found or loaded. */
    method FindOrLoad(name: string, elem: LazyModule)
      requires Valid()
      modifies this, loader, elem, elem.imports
      ensures Valid()
      ensures var s := ModuleFindOrLoad(old(modules), old(elem.Value()), hashFn, name,
                                        NextAnswer(loader.log, |old(loader.log)|));
        && modules == s.modules
        && elem.Value() == s.elem
        && loader.log == old(loader.log) + s.calls
    {
      ModuleFindOrLoadPreserves(modules, elem.Value(), hashFn, name, 0);
      var found := FindFirst(modules, ModuleHash, hashFn(name));
      if found.Some? {
        elem.Assign(modules[found.value]);
      } else {
        var hmod := loader.LoadModule(name);
        ModuleFindOrLoadPreserves(modules, elem.Value(), hashFn, name, hmod);
        if hmod == 0 {
          // the error message is built and dropped
          return;
        }
        var m := MakeModule(hashFn, name, hmod);
        modules := modules + [m];
        elem.Assign(m);
      }
    }

    /** `register_import(module_name, function_name)`. */
    method RegisterImport(moduleName: string, functionName: string) returns (r: LazyImport)
      requires Valid()
      modifies this, loader
      ensures Valid()
      ensures var s := Register(old(modules), hashFn, moduleName, functionName,
                                NextAnswer(loader.log, |old(loader.log)|), LastAnswer(loader.log));
        && modules == s.modules
        && loader.log == old(loader.log) + s.calls
        && Yields(r, s.result)
    {
      ghost var log0, mods0 := loader.log, modules;
      var imp := DefaultImport();
      var mod := new LazyModule.Default();
      if moduleName != "" {
        ghost var v0 := mod.Value();
        FindOrLoad(moduleName, mod);
        ghost var loaded := NextAnswer(loader.log, |log0|);
        ModuleFindOrLoadOfDefault(mods0, v0, hashFn, moduleName, loaded);
        ghost var ms := ModuleFindOrLoad(mods0, NoModule, hashFn, moduleName, loaded);
        assert modules == ms.modules && loader.log == log0 + ms.calls;
        assert mod.handle == ms.elem.handle && mod.imports.collection == ms.elem.imports;
        if functionName != "" {
          ghost var log1 := loader.log;
          imp := mod.Add(loader, hashFn, functionName, imp);
          ghost var resolved := NextAnswer(loader.log, |log1|);
          ghost var st := ImportFindOrLoad(ms.elem.imports, NoImport, hashFn, ms.elem.handle,
                                           functionName, resolved);
          assert loader.log == log1 + st.calls;
          assert |st.calls| == 1 ==> resolved == LastAnswer(loader.log);
          if FindFirst(mods0, ModuleHash, hashFn(moduleName)).None? {
            assert loader.log[|log0|] == log1[|log0|];
          }
          assert ModuleFindOrLoad(mods0, NoModule, hashFn, moduleName, NextAnswer(loader.log, |log0|)) == ms;
        }
      }
      r := imp;
    }

    /** `register_import(path)`: split the path, then register its two components. */
    method RegisterImportPath(path: string) returns (r: LazyImport)
      requires Valid()
      modifies this, loader
      ensures Valid()
      ensures var s := Register(old(modules), hashFn, Split(path).0, Split(path).1,
                                NextAnswer(loader.log, |old(loader.log)|), LastAnswer(loader.log));
        && modules == s.modules
        && loader.log == old(loader.log) + s.calls
        && Yields(r, s.result)
    {
      var importData := Split(path);
      r := RegisterImport(importData.0, importData.1);
    }

    /** `unload(name)`: free a copy of the first module with the name's hash, then erase it. */
    method Unload(name: string)
      requires Valid()
      modifies this, loader
      ensures Valid()
      ensures var s := UnloadByName(old(modules), hashFn, name, NextAnswer(loader.log, |old(loader.log)|));
        && modules == s.modules
        && loader.log == old(loader.log) + s.calls
    {
      UnloadErasesMatch(modules, hashFn, name, 0);
      var found := FindFirst(modules, ModuleHash, hashFn(name));
      if found.Some? {
        var mod := new LazyModule.Default();
        mod.Assign(modules[found.value]);
        var status := mod.Unload(loader);
        modules := modules[..found.value] + modules[found.value + 1..];
      }
    }

    /**
     * `~basic_lazymodulecollection`: unload every module in collection order and
     * ignore the statuses; the vector is destroyed with the registry.
     */
    method Teardown()
      requires Valid()
      modifies this, loader
      ensures modules == []
      ensures |loader.log| == |old(loader.log)| + |old(modules)|
      ensures loader.log[..|old(loader.log)|] == old(loader.log)
      ensures FreesInOrder(loader.log[|old(loader.log)|..], old(modules))
    {
      var i := 0;
      while i < |modules|
        invariant 0 <= i <= |modules|
        invariant modules == old(modules)
        invariant |loader.log| == |old(loader.log)| + i
        invariant loader.log[..|old(loader.log)|] == old(loader.log)
        invariant FreesInOrder(loader.log[|old(loader.log)|..], modules[..i])
      {
        var status := loader.FreeModule(modules[i].handle);
        i := i + 1;
      }
      modules := [];
    }
  }
}
