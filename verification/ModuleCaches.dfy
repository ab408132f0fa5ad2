/** The module cache of the transaction validator: `vm_validator.rs`, over the sequential
    cache of `module_cache.rs`. */
module ModuleCaches {
  import opened Prelude

  type ModuleId = nat
  type Bytes = seq<nat>
  type HashValue = nat
  type Environment = nat
  type CompiledModule = nat

  datatype VMError = StorageError | MissingButCached | CannotDeserialize | VersionTooSmall

  /** A state view: what can be read, and what fails to be read. */
  datatype Snapshot = Snapshot(modules: map<ModuleId, Bytes>, unreadable: set<ModuleId>) {
    function GetStateValue(key: ModuleId): Result<Option<Bytes>, VMError> {
      if key in unreadable then Failure(StorageError)
      else Success(if key in modules then Some(modules[key]) else None)
    }
  }

  /** What the virtual machine contributes: the environment set up from a snapshot, the
      deserializer under an environment, and the hash of module bytes. */
  datatype Machine = Machine(
    environment: Snapshot -> Environment,
    deserialize: (Environment, Bytes) -> Option<CompiledModule>,
    hash: Bytes -> HashValue)

  ghost predicate CollisionFree(m: Machine) {
    forall a: Bytes, b: Bytes :: m.hash(a) == m.hash(b) ==> a == b
  }

  /** Code with the state value it came from. */
  datatype ModuleCode = ModuleCode(code: CompiledModule, extension: Bytes)

  datatype VersionedModule = VersionedModule(moduleCode: ModuleCode, version: nat)

  type Cache = map<ModuleId, VersionedModule>

  // ---------- The cache alone ----------

  /** `insert_deserialized_module`. */
  function InsertDeserialized(cache: Cache, key: ModuleId, moduleCode: ModuleCode, version: nat)
    : (Result<ModuleCode, VMError>, Cache)
  {
    if key !in cache then (Success(moduleCode), cache[key := VersionedModule(moduleCode, version)])
    else if version < cache[key].version then (Failure(VersionTooSmall), cache)
    else if version == cache[key].version then (Success(cache[key].moduleCode), cache)
    else (Success(moduleCode), cache[key := VersionedModule(moduleCode, version)])
  }

  /** An insertion is refused exactly when the cache knows a newer version; it never replaces code
      by code of the same version, and answers with what the cache holds then. */
  lemma InsertExactly(cache: Cache, key: ModuleId, moduleCode: ModuleCode, version: nat)
    ensures var (inserted, after) := InsertDeserialized(cache, key, moduleCode, version);
            && (inserted == Failure(VersionTooSmall) <==> key in cache && cache[key].version > version)
            && (inserted.Success? ==>
                  && key in after && after[key] == VersionedModule(inserted.value, version)
                  && (key in cache && cache[key].version == version ==> after == cache)
                  && (key !in cache || cache[key].version < version ==>
                        after == cache[key := VersionedModule(moduleCode, version)]))
            && (inserted.Failure? ==> inserted.error == VersionTooSmall && after == cache)
  {
  }

  datatype View = View(snapshot: Snapshot, cache: Cache, environment: Environment)

  type LookupResult = Result<Option<VersionedModule>, VMError>

  /** `build`: the module as the snapshot has it. */
  function Build(m: Machine, v: View, key: ModuleId): Result<Option<ModuleCode>, VMError> {
    var value :- v.snapshot.GetStateValue(key);
    match value
    case None => Success(None)
    case Some(bytes) =>
      match m.deserialize(v.environment, bytes)
      case None => Failure(CannotDeserialize)
      case Some(code) => Success(Some(ModuleCode(code, bytes)))
  }

  /** What a builder answers when asked for a module. */
  type Built = Result<Option<ModuleCode>, VMError>

  /** `get_module_or_build_with` of the cache: what is there, or else what the builder gives, at
      version 0. */
  function GetOrBuild(cache: Cache, key: ModuleId, built: Built): (LookupResult, Cache) {
    if key in cache then (Success(Some(cache[key])), cache)
    else match built
      case Failure(error) => (Failure(error), cache)
      case Success(None) => (Success(None), cache)
      case Success(Some(moduleCode)) =>
        var entry := VersionedModule(moduleCode, 0);
        (Success(Some(entry)), cache[key := entry])
  }

  // ---------- The validation state ----------

  /** `get_module_or_build_with` of the validation state: the result, and the cache after it. */
  function LookupWith(m: Machine, v: View, key: ModuleId, built: Built): (LookupResult, Cache) {
    var (got, cache) := GetOrBuild(v.cache, key, built);
    match got
    case Failure(error) => (Failure(error), cache)
    case Success(None) => (Success(None), cache)
    case Success(Some(entry)) => Refresh(m, v.(cache := cache), key, entry)
  }

  /** The validation state is its own builder. */
  function Lookup(m: Machine, v: View, key: ModuleId): (LookupResult, Cache) {
    LookupWith(m, v, key, Build(m, v, key))
  }

  /** Compares the cached entry with the snapshot and replaces it if the code has changed. */
  function Refresh(m: Machine, v: View, key: ModuleId, entry: VersionedModule): (LookupResult, Cache) {
    match v.snapshot.GetStateValue(key)
    case Failure(error) => (Failure(error), v.cache)
    case Success(None) => (Failure(MissingButCached), v.cache)
    case Success(Some(bytes)) =>
      if m.hash(entry.moduleCode.extension) == m.hash(bytes) then (Success(Some(entry)), v.cache)
      else match m.deserialize(v.environment, bytes)
        case None => (Failure(CannotDeserialize), v.cache)
        case Some(code) =>
          var version := entry.version + 1;
          var (inserted, cache) := InsertDeserialized(v.cache, key, ModuleCode(code, bytes), version);
          match inserted
          case Failure(error) => (Failure(error), cache)
          case Success(moduleCode) => (Success(Some(VersionedModule(moduleCode, version))), cache)
  }

  class ValidationState {
    const machine: Machine
    var stateView: Snapshot
    var moduleCache: Cache
    var environment: Environment

    ghost function AsView(): View
      reads this
    {
      View(stateView, moduleCache, environment)
    }

    constructor (machine: Machine, stateView: Snapshot)
      ensures this.machine == machine && AsView() == New(machine, stateView)
    {
      this.machine := machine;
      this.stateView := stateView;
      moduleCache := map[];
      environment := machine.environment(stateView);
    }

    /** `reset_state_view`: neither the cache nor the environment is touched. */
    method ResetStateView(newView: Snapshot)
      modifies this`stateView
      ensures AsView() == old(AsView()).(snapshot := newView)
    {
      stateView := newView;
    }

    /** `reset_all`. */
    method ResetAll(newView: Snapshot)
      modifies this
      ensures AsView() == New(machine, newView)
    {
      stateView := newView;
      moduleCache := map[];
      environment := machine.environment(newView);
    }

    /** `build`. */
    method BuildModule(key: ModuleId) returns (built: Built)
      ensures built == Build(machine, AsView(), key)
    {
      var read :- stateView.GetStateValue(key);
      if read == None {
        return Success(None);
      }
      var code := machine.deserialize(environment, read.value);
      if code == None {
        return Failure(CannotDeserialize);
      }
      return Success(Some(ModuleCode(code.value, read.value)));
    }

    /** `get_module_or_build_with`, given the builder's answer for the module. */
    method GetModuleOrBuildWith(key: ModuleId, built: Built) returns (r: LookupResult)
      modifies this`moduleCache
      ensures (r, moduleCache) == LookupWith(machine, old(AsView()), key, built)
      ensures AsView() == old(AsView()).(cache := moduleCache)
    {
      var entry: VersionedModule;
      if key in moduleCache {
        entry := moduleCache[key];
      } else {
        var answer :- built;
        if answer == None {
          return Success(None);
        }
        entry := VersionedModule(answer.value, 0);
        moduleCache := moduleCache[key := entry];
      }
      var value :- stateView.GetStateValue(key);
      if value == None {
        return Failure(MissingButCached);
      }
      var bytes := value.value;
      if machine.hash(entry.moduleCode.extension) == machine.hash(bytes) {
        return Success(Some(entry));
      }
      var code := machine.deserialize(environment, bytes);
      if code == None {
        return Failure(CannotDeserialize);
      }
      var replacement := VersionedModule(ModuleCode(code.value, bytes), entry.version + 1);
      moduleCache := moduleCache[key := replacement];
      return Success(Some(replacement));
    }

    /** The lookup with the state itself as the builder. */
    method GetModule(key: ModuleId) returns (r: LookupResult)
      modifies this`moduleCache
      ensures (r, moduleCache) == Lookup(machine, old(AsView()), key)
      ensures AsView() == old(AsView()).(cache := moduleCache)
    {
      var built := BuildModule(key);
      r := GetModuleOrBuildWith(key, built);
    }
  }

  function New(m: Machine, snapshot: Snapshot): View {
    View(snapshot, map[], m.environment(snapshot))
  }

  // ---------- What a lookup returns ----------

  /** Every cached module is what its own bytes deserialize to in the present environment. */
  ghost predicate Coherent(m: Machine, v: View) {
    forall key :: key in v.cache ==>
      m.deserialize(v.environment, v.cache[key].moduleCode.extension) == Some(v.cache[key].moduleCode.code)
  }

  function VersionOf(v: View, key: ModuleId): nat {
    if key in v.cache then v.cache[key].version else 0
  }

  /** A cached module whose code in the snapshot has changed, to something that deserializes. */
  ghost predicate SeesChange(m: Machine, v: View, key: ModuleId) {
    && key in v.cache
    && key !in v.snapshot.unreadable && key in v.snapshot.modules
    && v.snapshot.modules[key] != v.cache[key].moduleCode.extension
    && m.deserialize(v.environment, v.snapshot.modules[key]).Some?
  }

  /** What a lookup must return, told from the snapshot; of the cache only the version and
      whether the module is known matter. */
  ghost function Expected(m: Machine, v: View, key: ModuleId): LookupResult {
    if key in v.snapshot.unreadable then Failure(StorageError)
    else if key !in v.snapshot.modules then
      if key in v.cache then Failure(MissingButCached) else Success(None)
    else
      var bytes := v.snapshot.modules[key];
      match m.deserialize(v.environment, bytes)
      case None => Failure(CannotDeserialize)
      case Some(code) =>
        Success(Some(VersionedModule(ModuleCode(code, bytes), VersionOf(v, key) + if SeesChange(m, v, key) then 1 else 0)))
  }

  /** A lookup returns the module as the current snapshot has it. It touches no other key,
      keeps the cache coherent, remembers what it returns, and raises the version by one
      exactly when it sees changed code. */
  lemma LookupIsCurrent(m: Machine, v: View, key: ModuleId)
    requires CollisionFree(m) && Coherent(m, v)
    ensures var (result, cache) := Lookup(m, v, key);
            var after := v.(cache := cache);
            && result == Expected(m, v, key)
            && Coherent(m, after)
            && (result.Success? && result.value.Some? ==> key in cache && cache[key] == result.value.value)
            && (forall other :: other != key ==> (other in cache <==> other in v.cache) && (other in cache ==> cache[other] == v.cache[other]))
            && (key in v.cache ==> key in cache)
            && VersionOf(after, key) == VersionOf(v, key) + if SeesChange(m, v, key) then 1 else 0
  {
  }

  /** Whether cached code is still good is decided by the hash of its bytes: if that is the hash of
      what the snapshot holds, the cached module is returned and nothing changes. */
  lemma HashDecides(m: Machine, v: View, key: ModuleId)
    requires key in v.cache && key !in v.snapshot.unreadable && key in v.snapshot.modules
    ensures m.hash(v.cache[key].moduleCode.extension) == m.hash(v.snapshot.modules[key]) ==>
              Lookup(m, v, key) == (Success(Some(v.cache[key])), v.cache)
    ensures m.hash(v.cache[key].moduleCode.extension) != m.hash(v.snapshot.modules[key]) ==>
              match m.deserialize(v.environment, v.snapshot.modules[key])
              case None => Lookup(m, v, key) == (Failure(CannotDeserialize), v.cache)
              case Some(code) =>
                var entry := VersionedModule(ModuleCode(code, v.snapshot.modules[key]), v.cache[key].version + 1);
                Lookup(m, v, key) == (Success(Some(entry)), v.cache[key := entry])
  {
  }

  /** Any other builder may answer with outdated code: as long as that code is what its own bytes
      deserialize to, the lookup still returns the module of the current snapshot, as if the
      builder's module had been cached all along. */
  lemma AnyBuilderIsCurrent(m: Machine, v: View, key: ModuleId, moduleCode: ModuleCode)
    requires CollisionFree(m) && Coherent(m, v) && key !in v.cache
    requires m.deserialize(v.environment, moduleCode.extension) == Some(moduleCode.code)
    ensures var known := v.(cache := v.cache[key := VersionedModule(moduleCode, 0)]);
            var (result, cache) := LookupWith(m, v, key, Success(Some(moduleCode)));
            && result == Expected(m, known, key)
            && Coherent(m, v.(cache := cache))
            && (result.Success? ==>
                  && result.value.Some? && key in v.snapshot.modules
                  && result.value.value.moduleCode.extension == v.snapshot.modules[key]
                  && cache[key] == result.value.value)
  {
    var known := v.(cache := v.cache[key := VersionedModule(moduleCode, 0)]);
    assert LookupWith(m, v, key, Success(Some(moduleCode))) == Lookup(m, known, key);
    LookupIsCurrent(m, known, key);
  }

  /** A module that is not cached and that the builder does not give is not looked for elsewhere. */
  lemma BuilderHasTheLastWord(m: Machine, v: View, key: ModuleId, built: Built)
    requires key !in v.cache && (built.Success? ==> built.value == None)
    ensures LookupWith(m, v, key, built).1 == v.cache
    ensures LookupWith(m, v, key, built).0 == if built.Failure? then Failure(built.error) else Success(None)
  {
  }

  // ---------- Every run ----------

  datatype Event = ReplaceSnapshot(snapshot: Snapshot) | FullReset(base: Snapshot) | LookUp(key: ModuleId)

  function Step(m: Machine, v: View, event: Event): View {
    match event
    case ReplaceSnapshot(snapshot) => v.(snapshot := snapshot)
    case FullReset(snapshot) => New(m, snapshot)
    case LookUp(key) => v.(cache := Lookup(m, v, key).1)
  }

  function Run(m: Machine, v: View, events: seq<Event>): View {
    if events == [] then v
    else Step(m, Run(m, v, events[..|events| - 1]), events[|events| - 1])
  }

  lemma {:induction false} RunStaysCoherent(m: Machine, v: View, events: seq<Event>)
    requires CollisionFree(m) && Coherent(m, v)
    ensures Coherent(m, Run(m, v, events))
  {
    if events != [] {
      var init, last := events[..|events| - 1], events[|events| - 1];
      RunStaysCoherent(m, v, init);
      if last.LookUp? {
        LookupIsCurrent(m, Run(m, v, init), last.key);
      }
    }
  }

  /** After any interleaving of snapshot replacements, full resets and lookups, a lookup returns
      what the snapshot of that moment holds. */
  lemma EveryLookupIsCurrent(m: Machine, initial: Snapshot, events: seq<Event>, key: ModuleId)
    requires CollisionFree(m)
    ensures var v := Run(m, New(m, initial), events);
            var result := Lookup(m, v, key).0;
            && result == Expected(m, v, key)
            && (result.Success? && result.value.Some? ==>
                  && key in v.snapshot.modules
                  && result.value.value.moduleCode.extension == v.snapshot.modules[key]
                  && m.deserialize(v.environment, v.snapshot.modules[key]) == Some(result.value.value.moduleCode.code))
  {
    RunStaysCoherent(m, New(m, initial), events);
    LookupIsCurrent(m, Run(m, New(m, initial), events), key);
  }

  /** How many lookups of `key` in a run see changed code. */
  ghost function Changes(m: Machine, v: View, events: seq<Event>, key: ModuleId): nat {
    if events == [] then 0
    else
      var init, last := events[..|events| - 1], events[|events| - 1];
      Changes(m, v, init, key) + if last == LookUp(key) && SeesChange(m, Run(m, v, init), key) then 1 else 0
  }

  /** Between full resets nothing leaves the cache, and a module's version counts exactly the
      lookups that saw changed code; in particular it never goes down. */
  lemma {:induction false} VersionsCountChanges(m: Machine, v: View, events: seq<Event>, key: ModuleId)
    requires CollisionFree(m) && Coherent(m, v)
    requires forall e :: e in events ==> !e.FullReset?
    ensures VersionOf(Run(m, v, events), key) == VersionOf(v, key) + Changes(m, v, events, key)
    ensures key in v.cache ==> key in Run(m, v, events).cache
  {
    if events != [] {
      var init, last := events[..|events| - 1], events[|events| - 1];
      assert last in events;
      VersionsCountChanges(m, v, init, key);
      RunStaysCoherent(m, v, init);
      if last.LookUp? {
        LookupIsCurrent(m, Run(m, v, init), last.key);
      }
    }
  }

  // ---------- What a run leaves in place ----------

  /** Nothing after position `i` of the events replaces the snapshot. */
  ghost predicate LastReplacement(events: seq<Event>, i: nat) {
    i < |events| && !events[i].LookUp? && forall j :: i < j < |events| ==> events[j].LookUp?
  }

  ghost predicate LastReset(events: seq<Event>, i: nat) {
    i < |events| && events[i].FullReset? && forall j :: i < j < |events| ==> !events[j].FullReset?
  }

  /** The snapshot is the one put in place last, and the environment is that of the snapshot of the
      last full reset: replacing the snapshot alone does not renew it. */
  lemma {:induction false} RunState(m: Machine, initial: Snapshot, events: seq<Event>, i: nat)
    ensures LastReset(events, i) ==> Run(m, New(m, initial), events).environment == m.environment(events[i].base)
    ensures (forall e :: e in events ==> !e.FullReset?) ==>
              Run(m, New(m, initial), events).environment == m.environment(initial)
    ensures LastReplacement(events, i) ==>
              Run(m, New(m, initial), events).snapshot
              == if events[i].FullReset? then events[i].base else events[i].snapshot
    ensures (forall e :: e in events ==> e.LookUp?) ==> Run(m, New(m, initial), events).snapshot == initial
    decreases |events|
  {
    if events != [] {
      var init, last := events[..|events| - 1], events[|events| - 1];
      RunState(m, initial, init, i);
      assert last in events && forall e :: e in init ==> e in events;
    }
  }
}
