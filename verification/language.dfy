/** Language resolution and resource naming for a `load` request of
    src/nls.build.ts: which language a module uses, which suffix its resource
    gets, and which resources each of the plugin's three modes asks the
    module loader for. */
module Language {
  import opened Wrappers

  /** The reserved tag that means "the untranslated resource". */
  const DefaultTag: string := "i-default"

  /** The wildcard key of the available-languages map. */
  const Wildcard: string := "*"

  /** A map entry JavaScript treats as present: the key exists and its value
      is not the empty string (which is falsy). */
  predicate Truthy(config: map<string, string>, key: string) {
    key in config && config[key] != ""
  }

  /** `findLanguageForModule(config, name)`: the module's own entry, else
      the wildcard entry, else `null`. */
  function FindLanguageForModule(config: map<string, string>, name: string): (r: Option<string>)
    ensures Truthy(config, name) ==> r == Some(config[name])
    ensures !Truthy(config, name) && Truthy(config, Wildcard) ==> r == Some(config[Wildcard])
    ensures r.None? <==> !Truthy(config, name) && !Truthy(config, Wildcard)
    ensures r.Some? ==> r.value != "" && r.value in config.Values
  {
    if Truthy(config, name) then Some(config[name])
    else if Truthy(config, Wildcard) then Some(config[Wildcard])
    else None
  }

  /** The language a `load` request resolves: `null` when no
      `availableLanguages` map is configured. */
  function ResolveLanguage(availableLanguages: Option<map<string, string>>, name: string): (r: Option<string>)
    ensures availableLanguages.None? ==> r.None?
    ensures availableLanguages.Some? ==> r == FindLanguageForModule(availableLanguages.value, name)
    ensures r.Some? ==> availableLanguages.Some? && r.value in availableLanguages.value.Values
  {
    match availableLanguages
    case None => None
    case Some(config) => FindLanguageForModule(config, name)
  }

  /** The language that actually selects a file: none for `null` and for
      the default tag. */
  predicate Localised(language: Option<string>) {
    language.Some? && language.value != DefaultTag
  }

  /** The resource suffix: `.nls`, or `.nls.<language>`. */
  function ResourceSuffix(language: Option<string>): (r: string)
    ensures !Localised(language) ==> r == ".nls"
    ensures Localised(language) ==> r == ".nls." + language.value
  {
    if Localised(language) then ".nls." + language.value
    else ".nls"
  }

  /** Reads the language back off a suffix: the partner of `ResourceSuffix`. */
  function SuffixLanguage(suffix: string): Option<string> {
    if |suffix| > 5 && suffix[..5] == ".nls." then Some(suffix[5..]) else None
  }

  /** The suffix records the language exactly when it is a localised one, so
      two requests fetch the same file only for the same effective language. */
  lemma SuffixRoundTrip(language: Option<string>)
    requires language.None? || language.value != ""
    ensures SuffixLanguage(ResourceSuffix(language)) == (if Localised(language) then language else None)
  {
  }

  /** The environment facts that choose a strategy, probed once: a host
      string service (`Plugin.Resources.getString`), else the build flag,
      else normal runtime loading. */
  datatype Mode = HostResources | Build | Runtime

  function ModeOf(hasHostService: bool, isBuild: bool): (m: Mode)
    ensures m == HostResources <==> hasHostService
    ensures m == Build <==> !hasHostService && isBuild
    ensures m == Runtime <==> !hasHostService && !isBuild
  {
    if hasHostService then HostResources else if isBuild then Build else Runtime
  }

  /** The resource names `load(name, ...)` asks the module loader for. The
      empty name is the root request: it asks for nothing and is answered
      with the unscoped localizer at once. */
  function RequestedResources(name: string, mode: Mode, availableLanguages: Option<map<string, string>>): (r: seq<string>)
    ensures name == "" <==> r == []
    ensures name != "" && mode == HostResources ==> r == [name + ".nls.keys"]
    ensures name != "" && mode == Build ==> r == [name + ".nls", name + ".nls.keys"]
    ensures name != "" && mode == Runtime ==>
      |r| == 1 && |r[0]| >= |name| + 4 && r[0][..|name|] == name && r[0][|name|..|name| + 4] == ".nls"
  {
    if name == "" then []
    else match mode
      case HostResources => [name + ".nls.keys"]
      case Build => [name + ".nls", name + ".nls.keys"]
      case Runtime =>
        var file := name + ResourceSuffix(ResolveLanguage(availableLanguages, name));
        assert file[..|name|] == name && file[|name|..|name| + 4] == ".nls";
        [file]
  }

  /** In runtime mode the one resource is the module name followed by the
      suffix of its resolved language: the module's own entry first, then the
      wildcard entry, and `.nls` alone for no language or the default tag. */
  lemma RuntimeResourceName(name: string, config: map<string, string>)
    requires name != ""
    ensures RequestedResources(name, Runtime, Some(config))
         == [name + ResourceSuffix(FindLanguageForModule(config, name))]
    ensures var r := RequestedResources(name, Runtime, Some(config));
      && (Truthy(config, name) && config[name] != DefaultTag ==> r == [name + ".nls." + config[name]])
      && (!Truthy(config, name) && Truthy(config, Wildcard) && config[Wildcard] != DefaultTag ==>
            r == [name + ".nls." + config[Wildcard]])
      && (!Truthy(config, name) && !Truthy(config, Wildcard) ==> r == [name + ".nls"])
      && (Truthy(config, name) && config[name] == DefaultTag ==> r == [name + ".nls"])
  {
    var language := FindLanguageForModule(config, name);
    assert ResolveLanguage(Some(config), name) == language;
    if Truthy(config, name) {
      assert language == Some(config[name]);
      assert name + (".nls." + config[name]) == name + ".nls." + config[name];
    } else if Truthy(config, Wildcard) {
      assert language == Some(config[Wildcard]);
      assert name + (".nls." + config[Wildcard]) == name + ".nls." + config[Wildcard];
    } else {
      assert language == None;
    }
  }

  /** A worked resolution: with `{"a": "fr", "*": "de"}`, module
      `a` resolves to `fr`, module `b` to `de`; an empty map resolves nothing. */
  lemma ResolutionExample()
    ensures FindLanguageForModule(map["a" := "fr", "*" := "de"], "a") == Some("fr")
    ensures FindLanguageForModule(map["a" := "fr", "*" := "de"], "b") == Some("de")
    ensures FindLanguageForModule(map[], "a") == None
    ensures FindLanguageForModule(map["a" := "", "*" := "de"], "a") == Some("de")
  {
  }
}
