/** The localize functions handed to modules by src/nls.build.ts: the scoped
    localizer over one bundle slice (`createScopedLocalize`, `create`, and the
    one attached in runtime mode), and the host-resource localizer that
    forwards to the host's string service. */
module Localizer {
  import opened Wrappers
  import opened Decimal
  import Formatter

  /** What a JavaScript call of a localize function ends in: a string, the
      value `undefined`, or a thrown `TypeError`. */
  datatype Rendered = Text(value: string) | Undefined | TypeError

  /** A localizer bound to one slice of a bundle. The slice is absent when
      `create` was given a key its bundle data does not hold. */
  datatype ScopedLocalizer = Scoped(scope: Option<seq<string>>)

  /** `createScopedLocalize(scope)(idx, defaultValue, ...args)`: formats
      `scope[idx]` with the extra arguments; `defaultValue` is ignored and so
      is not a parameter. Out of range, `scope[idx]` is `undefined`:
      `_format` returns it as is when there are no arguments and the pseudo
      pass is off, and otherwise calls `.replace` on it and throws. Reading
      an index of an absent scope throws at once. */
  function Localize(loc: ScopedLocalizer, idx: int, args: seq<string>, pseudo: bool): (r: Rendered)
    ensures r.Text? <==> loc.scope.Some? && 0 <= idx < |loc.scope.value|
    ensures r.Text? ==> r.value == Formatter.Format(loc.scope.value[idx], args, pseudo)
    ensures r.Undefined? <==> loc.scope.Some? && !(0 <= idx < |loc.scope.value|) && |args| == 0 && !pseudo
    ensures loc.scope.None? ==> r == TypeError
  {
    match loc.scope
    case None => TypeError
    case Some(scope) =>
      if 0 <= idx < |scope| then Text(Formatter.Format(scope[idx], args, pseudo))
      else if |args| == 0 && !pseudo then Undefined
      else TypeError
  }

  /** `create(key, data)`: a localizer over the slice `data[key]`. */
  function Create(key: string, data: map<string, seq<string>>): (r: ScopedLocalizer)
    ensures r.scope == Lookup(data, key)
  {
    Scoped(Lookup(data, key))
  }

  /** A localizer made by `create` renders entry `idx` of the module's own
      slice, and a module missing from the data throws on every call. */
  lemma CreateLocalizes(key: string, data: map<string, seq<string>>, idx: int, args: seq<string>, pseudo: bool)
    ensures key in data && 0 <= idx < |data[key]| ==>
      Localize(Create(key, data), idx, args, pseudo) == Text(Formatter.Format(data[key][idx], args, pseudo))
    ensures key !in data ==> Localize(Create(key, data), idx, args, pseudo) == TypeError
  {
  }

  /** A resource as the module loader delivers it in runtime mode: one
      module's messages, or a bundle of several modules' messages keyed by
      module name. The source tells the two apart with `Array.isArray`. */
  datatype Bundle = Flat(messages: seq<string>) | Nested(modules: map<string, seq<string>>)

  /** The `localize` attached to a resource delivered for module `name`. */
  function Attach(name: string, bundle: Bundle): (r: ScopedLocalizer)
    ensures bundle.Flat? ==> r.scope == Some(bundle.messages)
    ensures bundle.Nested? ==> r == Create(name, bundle.modules)
  {
    match bundle
    case Flat(messages) => Scoped(Some(messages))
    case Nested(modules) => Scoped(Lookup(modules, name))
  }

  /** A nested bundle localizes module `name` exactly as a flat resource
      holding that module's messages would. */
  lemma AttachNestedAsFlat(name: string, modules: map<string, seq<string>>, idx: int, args: seq<string>, pseudo: bool)
    requires name in modules
    ensures Localize(Attach(name, Nested(modules)), idx, args, pseudo)
         == Localize(Attach(name, Flat(modules[name])), idx, args, pseudo)
  {
  }

  // ---------------------------------------------------------------------
  // Host-resource mode
  // ---------------------------------------------------------------------

  /** What the host-mode localizer does: return a diagnostic string, or call
      the host's `getString` with an argument list. `getString` belongs to
      the host and is left uninterpreted: the model stops at its arguments. */
  datatype HostOutcome = Diagnostic(text: string) | GetString(args: seq<string>)

  /** The sub-key at `index`; a negative index reads `undefined`, which
      string concatenation renders as `undefined`. */
  function SubKey(keys: seq<string>, index: int): (k: string)
    requires index < |keys|
    ensures 0 <= index ==> k == keys[index]
    ensures index < 0 ==> k == "undefined"
  {
    if index >= 0 then keys[index] else "undefined"
  }

  /** The host-mode `localize(moduleKey, index, ...extra)` over the fetched
      key map (module key to its list of symbolic keys). */
  function HostLocalize(keyMap: map<string, seq<string>>, moduleKey: string, index: int, extra: seq<string>): (r: HostOutcome)
    ensures moduleKey !in keyMap ==> r == Diagnostic("NLS error: unknown key " + moduleKey)
    ensures moduleKey in keyMap && index >= |keyMap[moduleKey]| ==>
      r == Diagnostic("NLS error unknown index " + NatToString(index))
    ensures r.GetString? <==> moduleKey in keyMap && index < |keyMap[moduleKey]|
    ensures r.GetString? ==>
      && |r.args| == 1 + |extra|
      && r.args[0] == moduleKey + "_" + SubKey(keyMap[moduleKey], index)
      && r.args[1..] == extra
  {
    if moduleKey !in keyMap then Diagnostic("NLS error: unknown key " + moduleKey)
    else
      var keys := keyMap[moduleKey];
      if index >= |keys| then Diagnostic("NLS error unknown index " + NatToString(index))
      else GetString([moduleKey + "_" + SubKey(keys, index)] + extra)
  }

  /** Diagnostics for different out-of-range indices differ, so the text
      names the offending index unambiguously. */
  lemma HostIndexDiagnosticsDistinct(keyMap: map<string, seq<string>>, moduleKey: string, i: int, j: int, extra: seq<string>)
    requires moduleKey in keyMap
    requires i >= |keyMap[moduleKey]| && j >= |keyMap[moduleKey]|
    requires HostLocalize(keyMap, moduleKey, i, extra) == HostLocalize(keyMap, moduleKey, j, extra)
    ensures i == j
  {
    var p := "NLS error unknown index ";
    assert (p + NatToString(i))[|p|..] == NatToString(i);
    assert (p + NatToString(j))[|p|..] == NatToString(j);
    NatToStringInjective(i, j);
  }
}
