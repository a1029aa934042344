/** Build-time aggregation of src/nls.build.ts: the process-wide maps
    `BUILD_MAP`, `BUILD_MAP_KEYS` and the entry-point map, made into one
    explicit state record that each operation returns updated. */
module Build {
  import opened Wrappers
  import Localizer
  import Language

  /** Messages and keys captured per module, and per entry point the modules
      written into it, in write order. */
  datatype BuildState = BuildState(
    buildMap: map<string, seq<string>>,
    buildMapKeys: map<string, seq<string>>,
    entryPoints: map<string, seq<string>>)

  /** The state a build starts from: every map empty. */
  const Initial: BuildState := BuildState(map[], map[], map[])

  /** Messages and keys are captured together, so both maps know the same
      modules. */
  predicate Consistent(st: BuildState) {
    st.buildMap.Keys == st.buildMapKeys.Keys
  }

  /** Build-mode `load`: once the loader delivers `name.nls` and
      `name.nls.keys`, record both under `name` (the raw messages are then
      delivered to the caller unchanged). */
  function Capture(st: BuildState, name: string, messages: seq<string>, keys: seq<string>): (r: BuildState)
    ensures r.buildMap.Keys == st.buildMap.Keys + {name}
    ensures r.buildMapKeys.Keys == st.buildMapKeys.Keys + {name}
    ensures r.buildMap[name] == messages && r.buildMapKeys[name] == keys
    ensures forall n :: n in st.buildMap && n != name ==> r.buildMap[n] == st.buildMap[n]
    ensures forall n :: n in st.buildMapKeys && n != name ==> r.buildMapKeys[n] == st.buildMapKeys[n]
    ensures r.entryPoints == st.entryPoints
    ensures Consistent(st) ==> Consistent(r)
  {
    st.(buildMap := st.buildMap[name := messages], buildMapKeys := st.buildMapKeys[name := keys])
  }

  /** Capturing what is already recorded changes nothing, and capturing the
      same data twice is the same as capturing it once. */
  lemma CaptureIdempotent(st: BuildState, name: string, messages: seq<string>, keys: seq<string>)
    ensures Capture(Capture(st, name, messages, keys), name, messages, keys) == Capture(st, name, messages, keys)
    ensures (&& name in st.buildMap && st.buildMap[name] == messages
             && name in st.buildMapKeys && st.buildMapKeys[name] == keys)
            ==> Capture(st, name, messages, keys) == st
  {
  }

  /** The module `write` asks the optimiser to emit for a non-entry-point
      module: named `<plugin>!<module>`, depending on the plugin and on the
      entry point's bundle, and evaluating to `create(createKey, bundle)`. */
  datatype SyntheticModule = SyntheticModule(id: string, dependencies: seq<string>, createKey: string)

  datatype WriteOutcome = WriteOutcome(state: BuildState, emitted: Option<SyntheticModule>)

  /** `write(pluginName, moduleName, write)` for a module being written into
      `entryPoint`: append the module to the entry point's list, creating the
      list when absent, and emit a synthetic module unless the module is the
      entry point itself. */
  function Write(st: BuildState, pluginName: string, moduleName: string, entryPoint: string): (r: WriteOutcome)
    ensures r.state.entryPoints.Keys == st.entryPoints.Keys + {entryPoint}
    ensures r.state.entryPoints[entryPoint] == Lookup(st.entryPoints, entryPoint).GetOr([]) + [moduleName]
    ensures forall ep :: ep in st.entryPoints && ep != entryPoint ==> r.state.entryPoints[ep] == st.entryPoints[ep]
    ensures r.state.buildMap == st.buildMap && r.state.buildMapKeys == st.buildMapKeys
    ensures r.emitted.Some? <==> moduleName != entryPoint
    ensures r.emitted.Some? ==>
      && r.emitted.value.id == pluginName + "!" + moduleName
      && r.emitted.value.dependencies == ["vs/nls", "vs/nls!" + entryPoint]
      && r.emitted.value.createKey == moduleName
  {
    var list := if entryPoint in st.entryPoints then st.entryPoints[entryPoint] else [];
    var state := st.(entryPoints := st.entryPoints[entryPoint := list + [moduleName]]);
    if moduleName != entryPoint then
      WriteOutcome(state, Some(SyntheticModule(pluginName + "!" + moduleName, ["vs/nls", "vs/nls!" + entryPoint], moduleName)))
    else
      WriteOutcome(state, None)
  }

  /** The data object `writeFile` builds for an entry point: each listed
      module mapped to its captured messages, `undefined` (`None`) for a
      module never captured. Later duplicates overwrite earlier ones with the
      same value, so the list acts as a set. */
  function BundleData(entries: seq<string>, buildMap: map<string, seq<string>>): (data: map<string, Option<seq<string>>>)
    ensures data.Keys == set n | n in entries
    ensures forall n :: n in data ==> data[n] == Lookup(buildMap, n)
    decreases |entries|
  {
    if |entries| == 0 then map[]
    else
      var last := entries[|entries| - 1];
      var prefix := entries[..|entries| - 1];
      assert entries == prefix + [last];
      BundleData(prefix, buildMap)[last := Lookup(buildMap, last)]
  }

  /** What `JSON.stringify` writes of the data: members whose value is
      `undefined` are dropped. */
  function Emitted(data: map<string, Option<seq<string>>>): (m: map<string, seq<string>>)
    ensures m.Keys == set n | n in data && data[n].Some?
    ensures forall n :: n in m ==> data[n] == Some(m[n])
  {
    map n | n in data && data[n].Some? :: data[n].value
  }

  /** A bundle artifact: the file name handed to `req.toUrl`, the module id
      its `define` call registers, and the data it defines. */
  datatype BundleFile = BundleFile(fileName: string, defineId: string, data: map<string, Option<seq<string>>>)

  /** `writeFile(pluginName, moduleName, ...)`: nothing for a module that is
      not an entry point; otherwise the bundle of every module written into
      it. */
  function WriteFile(st: BuildState, moduleName: string): (r: Option<BundleFile>)
    ensures r.None? <==> moduleName !in st.entryPoints
    ensures r.Some? ==>
      && r.value.fileName == moduleName + ".nls.js"
      && r.value.defineId == moduleName + ".nls"
      && r.value.data.Keys == (set n | n in st.entryPoints[moduleName])
      && forall n :: n in r.value.data ==> r.value.data[n] == Lookup(st.buildMap, n)
  {
    if moduleName in st.entryPoints then
      Some(BundleFile(moduleName + ".nls.js", moduleName + ".nls", BundleData(st.entryPoints[moduleName], st.buildMap)))
    else None
  }

  /** The three maps `finishBuild` serialises into `nls.metadata.json`. */
  datatype Metadata = Metadata(keys: map<string, seq<string>>, messages: map<string, seq<string>>, bundles: map<string, seq<string>>)

  function FinishBuild(st: BuildState): (r: Metadata)
    ensures r.keys == st.buildMapKeys && r.messages == st.buildMap && r.bundles == st.entryPoints
  {
    Metadata(st.buildMapKeys, st.buildMap, st.entryPoints)
  }

  /** For a module written into another entry point and captured during the
      build, the entry point's emitted `<entryPoint>.nls` bundle holds, under
      the key the synthetic module passes to `create`, that module's captured
      messages. */
  lemma SyntheticModuleFindsMessages(st: BuildState, pluginName: string, moduleName: string, entryPoint: string)
    requires moduleName != entryPoint
    requires moduleName in st.buildMap
    ensures var w := Write(st, pluginName, moduleName, entryPoint);
      && w.emitted.Some?
      && WriteFile(w.state, entryPoint).Some?
      && Localizer.Create(w.emitted.value.createKey, Emitted(WriteFile(w.state, entryPoint).value.data)).scope
           == Some(st.buildMap[moduleName])
  {
  }

  /** The synthetic module depends on `vs/nls!<entryPoint>`, which runtime
      loading resolves to one resource. That resource is the emitted bundle
      `<entryPoint>.nls` exactly when no language other than the default tag
      resolves for the entry point; otherwise a translated bundle
      `<entryPoint>.nls.<language>`, which this build does not write, is
      fetched instead. */
  lemma RuntimeLoadsEmittedBundle(st: BuildState, entryPoint: string, languages: Option<map<string, string>>)
    ensures entryPoint in st.entryPoints && entryPoint != "" ==>
      && WriteFile(st, entryPoint).Some?
      && (Language.RequestedResources(entryPoint, Language.Runtime, languages)
            == [WriteFile(st, entryPoint).value.defineId]
          <==> !Language.Localised(Language.ResolveLanguage(languages, entryPoint)))
  {
    if entryPoint in st.entryPoints && entryPoint != "" {
      var language := Language.ResolveLanguage(languages, entryPoint);
      var file := entryPoint + Language.ResourceSuffix(language);
      assert Language.RequestedResources(entryPoint, Language.Runtime, languages) == [file];
      if Language.Localised(language) {
        assert |file| > |entryPoint + ".nls"|;
      }
    }
  }

  // ---------------------------------------------------------------------
  // A build session as a sequence of events
  // ---------------------------------------------------------------------

  /** The calls that change the build state, in the order they complete. */
  datatype Event =
    | Captured(name: string, messages: seq<string>, keys: seq<string>)
    | Written(pluginName: string, moduleName: string, entryPoint: string)

  function Step(st: BuildState, e: Event): BuildState {
    match e
    case Captured(name, messages, keys) => Capture(st, name, messages, keys)
    case Written(pluginName, moduleName, entryPoint) => Write(st, pluginName, moduleName, entryPoint).state
  }

  /** The state after a whole session, from the initial state. */
  function Run(events: seq<Event>): BuildState
    decreases |events|
  {
    if |events| == 0 then Initial
    else Step(Run(events[..|events| - 1]), events[|events| - 1])
  }

  /** The modules written into `entryPoint`, in order, duplicates kept. */
  function WrittenInto(events: seq<Event>, entryPoint: string): seq<string>
    decreases |events|
  {
    if |events| == 0 then []
    else
      var e := events[|events| - 1];
      WrittenInto(events[..|events| - 1], entryPoint)
        + (if e.Written? && e.entryPoint == entryPoint then [e.moduleName] else [])
  }

  /** The messages and keys of the last capture of `name`, if any. */
  function LastCapture(events: seq<Event>, name: string): Option<(seq<string>, seq<string>)>
    decreases |events|
  {
    if |events| == 0 then None
    else
      var e := events[|events| - 1];
      if e.Captured? && e.name == name then Some((e.messages, e.keys))
      else LastCapture(events[..|events| - 1], name)
  }

  /** The state after a session is determined by its events: an entry point
      is listed exactly when something was written into it, its list is the
      write order, and each module holds its last capture. */
  lemma {:induction false} RunCharacterised(events: seq<Event>)
    ensures Consistent(Run(events))
    ensures forall ep :: ep in Run(events).entryPoints <==> WrittenInto(events, ep) != []
    ensures forall ep :: ep in Run(events).entryPoints ==> Run(events).entryPoints[ep] == WrittenInto(events, ep)
    ensures forall n :: n in Run(events).buildMap <==> LastCapture(events, n).Some?
    ensures forall n :: n in Run(events).buildMap ==>
      && Run(events).buildMap[n] == LastCapture(events, n).value.0
      && Run(events).buildMapKeys[n] == LastCapture(events, n).value.1
    decreases |events|
  {
    if |events| > 0 {
      var prefix := events[..|events| - 1];
      RunCharacterised(prefix);
    }
  }

  /** The manifest `finishBuild` writes after a session lists, for every
      entry point, the modules written into it in order, and for every
      captured module its last captured messages and keys. */
  lemma ManifestOfSession(events: seq<Event>, ep: string, n: string)
    ensures var md := FinishBuild(Run(events));
      && (ep in md.bundles <==> WrittenInto(events, ep) != [])
      && (ep in md.bundles ==> md.bundles[ep] == WrittenInto(events, ep))
      && (n in md.messages <==> n in md.keys)
      && (n in md.messages <==> LastCapture(events, n).Some?)
      && (n in md.messages ==>
            md.messages[n] == LastCapture(events, n).value.0 && md.keys[n] == LastCapture(events, n).value.1)
  {
    RunCharacterised(events);
  }
}
