# NLS loader plugin: message formatting and build aggregation

A Dafny model of the localisation plugin `vs/nls` in `src/nls.build.ts`. The
plugin hands each module a `localize` function over that module's translated
messages. At build time it also collects every module's messages into
per-entry-point bundles and one metadata manifest.

The model covers the plugin's deterministic core, as pure functions over
immutable values:

- `Formatter` (format.dfy) models `_format`. It replaces `{digits}` placeholders
  from left to right and never rescans replaced text. The argument is chosen by
  the *first digit only* (`rest[0]`), so `{12}` selects argument 1 but the whole
  `{12}` is replaced. An index past the arguments leaves the placeholder as it
  is. An optional pseudo-localisation pass doubles `a o u e i` and wraps the
  result in U+FF3B / U+FF3D. The scan is also modelled as a segmentation of the
  message into literal characters and placeholders. A loop implementation
  (`SubstituteScan`) is proved equal to it.
- `Language` (language.dfy) models `findLanguageForModule` and its truthiness
  fallback (exact entry, then `*`, then `null`). It also models the `.nls` /
  `.nls.<lang>` suffix with the reserved tag `i-default`, and the resource
  names each of the three load modes requests.
- `Localizer` (localizer.dfy) models the scoped localizer (`createScopedLocalize`,
  `create`, and the one attached to a runtime resource, flat or nested) and the
  host-mode localizer. The host-mode localizer either returns a diagnostic or
  builds the argument list for the host's `getString`.
- `Build` (build.dfy) models the build state `{BUILD_MAP, BUILD_MAP_KEYS,
  entry points}` as one record. It covers capture, `write`, the `writeFile`
  bundle data and `finishBuild`. A build session is modelled as a sequence of
  capture/write events, and the manifest is characterised from the events.
- `Decimal` (decimal.dfy) renders an index in plain decimal for the host-mode
  diagnostic, as string concatenation does for indices up to 2^53. `Wrappers` (wrappers.dfy) holds `Option`,
  which stands for `null` / `undefined`.

Explicit parameters replace ambient state. The pseudo flag (set by
`setPseudoTranslation` or the `pseudo=true` URL hash) is a boolean argument. The
mode is chosen by `Language.ModeOf` from two booleans: whether a host string
service is present, and the build flag.

Four behaviours of the code are easy to misread. The model follows the code:

- The regular expression captures every digit of a placeholder in `(\d+)`
  (src/nls.build.ts:71), but the callback indexes the arguments with `rest[0]`,
  the first character of that capture (src/nls.build.ts:72). So `{12}` selects
  argument 1. `Formatter.PlaceholderIndexOfNumber` states that the placeholder
  for argument N selects N exactly when N is below 10.
- An out-of-range scoped index does not produce the text `"undefined"`. The scoped
  localizer passes `scope[idx]`, which is `undefined`, to `_format`
  (src/nls.build.ts:106). `_format` returns it unchanged when there are no
  arguments and the pseudo pass is off (src/nls.build.ts:68-69). Otherwise it
  calls `.replace` on it and throws a `TypeError` (src/nls.build.ts:71 or 79).
  `Localizer.Localize` returns `Undefined` or `TypeError` accordingly.
- `write` does not check that a module it lists under an entry point was
  captured (src/nls.build.ts:213-214). The model allows this too, and
  `writeFile` then maps such a module to `undefined`
  (src/nls.build.ts:234).
- Capture stores a module's messages and keys side by side without comparing
  their lengths (src/nls.build.ts:175-176). `Build.Consistent` therefore
  requires only that both maps hold the same modules, not equal lengths.

## Model

| member | source | states |
|---|---|---|
| Formatter.PlaceholderLengthSound | src/nls.build.ts:71 | whatever the scan matches at the front of a string is exactly one `{digits}` placeholder: an opening brace, one or more ASCII digits, a closing brace |
| Formatter.PlaceholderLengthUnique | src/nls.build.ts:71 | whatever placeholder a string starts with is the one match made there, since no placeholder is a proper prefix of another |
| Formatter.Replacement | src/nls.build.ts:72-73 | a placeholder becomes the argument its first digit selects when that index is within the arguments, and otherwise stays as its own text |
| Formatter.SubstituteScan | src/nls.build.ts:71-74 | the left-to-right replace loop produces every literal character copied and every placeholder filled independently, and leaves a message with no placeholder unchanged |
| Formatter.SegmentText | src/nls.build.ts:71 | splitting a message into literal characters and placeholders loses nothing: the pieces spell the message again |
| Formatter.SubstituteIsFill | src/nls.build.ts:71-74 | substitution equals segmenting the message and filling each placeholder on its own, so matches never overlap and replaced text is not rescanned |
| Formatter.SubstitutePlaceholderFirst | src/nls.build.ts:71-74 | a leading placeholder is replaced as a unit and the rest of the message is substituted independently |
| Formatter.SubstituteBraceFree | src/nls.build.ts:71-74 | text without `{` is copied verbatim and the scan continues after it |
| Formatter.SubstituteNoPlaceholder | src/nls.build.ts:71-74 | a message containing no placeholder is returned unchanged whatever the arguments |
| Formatter.Substitute | src/nls.build.ts:68-74 | with no arguments every placeholder stays, so the early return for an empty argument list agrees with the general path |
| Formatter.PlaceholderIndex | src/nls.build.ts:72 | the selected index is a single digit, so only the first ten arguments can ever be reached |
| Formatter.PlaceholderIndexOfNumber | src/nls.build.ts:71-72 | the placeholder written for argument n is a placeholder; it selects the leading digit of n, which equals n exactly when n < 10 |
| Formatter.DoubleVowels | src/nls.build.ts:79 | doubling the vowels lengthens a string by exactly its number of `a o u e i` characters |
| Formatter.Pseudo | src/nls.build.ts:79 | the pseudo form starts with U+FF3B, ends with U+FF3D and has length 2 + \|s\| + number of vowels of s |
| Formatter.PseudoRoundTrip | src/nls.build.ts:77-80 | stripping the brackets and un-doubling the vowels recovers the substituted string, and a string strips to `s` exactly when it is the pseudo form of `s` |
| Formatter.Format | src/nls.build.ts:65-83 | without pseudo, no arguments or no placeholder means the message is returned unchanged, and otherwise the result is the filled segmentation; with pseudo the result is bracketed and strips back to the filled segmentation, and with no arguments strips back to the message and is longer by 2 plus its vowel count |
| Formatter.RootLocalize | src/nls.build.ts:95-101 | the unscoped localizer ignores its data argument and formats the message with the remaining arguments |
| FormatExamples.FirstDigitSelects | src/nls.build.ts:71-74 | `{12}` with two arguments yields the second argument, and `{7}` with one argument stays literal |
| FormatExamples.HelloExample | src/nls.build.ts:65-83 | `Hello {0}, you have {1} items` with `Ana`, `3` gives `Hello Ana, you have 3 items` |
| FormatExamples.NoRescan | src/nls.build.ts:71-74 | an argument that itself looks like a placeholder is inserted verbatim |
| FormatExamples.PseudoExample | src/nls.build.ts:77-80 | `Open` in pseudo mode becomes `［Opeen］` |
| Decimal.NatToString | src/nls.build.ts:161 | an index renders as a non-empty digit string with no leading zero |
| Decimal.NatToStringFirst | src/nls.build.ts:161 | the rendering of an index starts with its most significant digit |
| Decimal.ParseNatToString | src/nls.build.ts:161 | reading the rendering of an index back gives the index |
| Decimal.NatToStringInjective | src/nls.build.ts:161 | distinct indices render to distinct strings |
| Language.FindLanguageForModule | src/nls.build.ts:85-93 | the module's own non-empty entry wins, else the non-empty `*` entry, else null; null exactly when neither is non-empty; never fails |
| Language.ResolveLanguage | src/nls.build.ts:180-181 | no configured language map means no language; a configured map gives `findLanguageForModule`'s answer for the module |
| Language.ResourceSuffix | src/nls.build.ts:182-185 | the suffix is `.nls` for null or `i-default`, and `.nls.<language>` otherwise |
| Language.SuffixRoundTrip | src/nls.build.ts:182-185 | the language can be read back off the suffix exactly when it is neither null nor the default tag |
| Language.ModeOf | src/nls.build.ts:152-173 | the host string service takes precedence over the build flag, which takes precedence over runtime loading |
| Language.RequestedResources | src/nls.build.ts:145-187 | the empty name requests nothing; host mode requests `name.nls.keys`; build mode requests `name.nls` and `name.nls.keys`; runtime mode requests one `name.nls…` resource |
| Language.RuntimeResourceName | src/nls.build.ts:180-187 | in runtime mode the resource is the name plus the suffix of the resolved language: the module's own entry gives `name.nls.<lang>`, failing that the `*` entry gives `name.nls.<lang>`, and the default tag or no language gives `name.nls` |
| Language.ResolutionExample | src/nls.build.ts:85-93 | with `{a: fr, *: de}` module `a` gets `fr` and `b` gets `de`; an empty map gives null; an empty entry falls through to `*` |
| Localizer.Localize | src/nls.build.ts:103-107 | an in-range index formats that message; out of range yields `undefined` with no arguments and no pseudo pass and a TypeError otherwise; a missing scope always throws |
| Localizer.Create | src/nls.build.ts:136-141 | the localizer is scoped to the data's entry for the key, absent when the key is missing |
| Localizer.CreateLocalizes | src/nls.build.ts:136-141 | a created localizer formats entry `idx` of the module's own slice, and throws for a module missing from the data |
| Localizer.Attach | src/nls.build.ts:187-192 | a flat resource is localized as a whole, and a nested one through the entry for the module's own name |
| Localizer.AttachNestedAsFlat | src/nls.build.ts:188-192 | a nested bundle localizes a module exactly as a flat resource holding its messages would |
| Localizer.SubKey | src/nls.build.ts:162-164 | a non-negative index reads that symbolic key; a negative index reads `undefined`, which concatenation renders as the text `undefined` |
| Localizer.HostLocalize | src/nls.build.ts:156-169 | an unknown module key and an out-of-range index give the exact diagnostic strings; otherwise the host receives 1 + extra arguments, headed by `moduleKey_subKey` and followed by the extras in order |
| Localizer.HostIndexDiagnosticsDistinct | src/nls.build.ts:160-161 | the index diagnostic determines the offending index |
| Build.Capture | src/nls.build.ts:174-177 | capture records messages and keys under the module name, leaves every other module and the entry points unchanged, and keeps both maps over the same modules |
| Build.CaptureIdempotent | src/nls.build.ts:175-176 | re-capturing already recorded data leaves the state equal, and capturing twice equals capturing once |
| Build.Write | src/nls.build.ts:206-219 | the module is appended at the end of its entry point's list, created if absent; other entry points and the captured maps are unchanged; a synthetic module is emitted exactly when the module is not the entry point |
| Build.BundleData | src/nls.build.ts:230-235 | the bundle data has exactly the listed modules as keys, each mapped to its captured messages or undefined |
| Build.Emitted | src/nls.build.ts:237 | serialisation keeps exactly the modules whose messages were captured, with those messages |
| Build.WriteFile | src/nls.build.ts:221-239 | nothing is written for a module that is not an entry point; otherwise the artifact `<module>.nls.js` defines `<module>.nls` with the data of every module written into it |
| Build.FinishBuild | src/nls.build.ts:242-248 | the manifest carries the key map, message map and entry-point map unchanged |
| Build.SyntheticModuleFindsMessages | src/nls.build.ts:206-239 | for a captured module written into another entry point, the entry point's emitted `<ep>.nls` bundle holds, under the key the synthetic module passes to `create`, that module's captured messages |
| Build.RuntimeLoadsEmittedBundle | src/nls.build.ts:180-187 | at run time the entry point's resource is the emitted `<ep>.nls` bundle exactly when no language other than `i-default` resolves for it; otherwise a translated `<ep>.nls.<lang>` is fetched |
| Build.RunCharacterised | src/nls.build.ts:122-219 | after any session the message and key maps cover the same modules, each entry point lists exactly the modules written into it in write order, and each module holds its last capture |
| Build.ManifestOfSession | src/nls.build.ts:242-248 | the manifest of a session lists per entry point its written modules in order and per module its last captured messages and keys |

## Left out

- Decimal.NatToString: renders every index exactly in plain decimal. That agrees with JavaScript only up to 2^53 (`Number.MAX_SAFE_INTEGER` + 1). Above 2^53, JavaScript prints the shortest digits that identify the nearest double: `'' + 2**64` is `18446744073709552000`, where the model gives `18446744073709551616`. So the host-mode index diagnostic is modelled exactly only for indices up to 2^53.
- Decimal.NatToString: a further difference is that from 10^21 on, JavaScript switches to exponent form (`1e+21`). The model never does.
- The module-loader plumbing is not modelled: the `req` / `load` callbacks, `req.toUrl`, the `define('vs/nls', …)` registration (src/nls.build.ts:251-253), and the write callbacks. These are asynchronous calls into the loader. The model keeps only the values passed to them. The bundle file name is the one handed to `req.toUrl`.
- Ambient-global sniffing (src/nls.build.ts:34-40) and `setPseudoTranslation` (src/nls.build.ts:132-134) are replaced by explicit parameters: the pseudo flag, and the mode from `Language.ModeOf`.
- `Resources.getString` (src/nls.build.ts:168) belongs to the host and is not modelled. The model stops at the argument list passed to it.
- The module function `getLanguageConfiguration` (src/nls.build.ts:110-118) is not modelled. It is never called, and the closure it returns reads `this._loadedConfig`.
- The instance field `this.getLanguageConfiguration` is not modelled. It is read at src/nls.build.ts:139 and 148, but no code ever assigns it, so the value attached there is always `undefined`.
- The read of `this.getLanguageConfiguration` at src/nls.build.ts:193 is not modelled. It is made inside the plain `function (messages)` callback passed to `req` (line 187), in a strict-mode file (line 18). So `this` there is whatever receiver the module loader calls the callback with, not the plugin. With no receiver, the read throws a `TypeError` before `load(messages)` (line 194). `Localizer.Attach` assumes this read does not throw, so that the runtime-mode callback reaches line 194.
- Strings are Dafny strings: sequences of Unicode scalar values. JavaScript strings are UTF-16 code units, so the model cannot represent lone surrogates. The lengths stated by `Formatter.Pseudo` and `Formatter.Format` count scalar values, not JavaScript `.length` units. Substitution results are unaffected, because every character the regular expressions match lies in the Basic Multilingual Plane.
- The text written by `JSON.stringify`, the copyright header and the `define(...)` wrapper text (src/nls.build.ts:225-238, 243-247) are not modelled. The model keeps the data: `Build.Emitted` models only the dropping of `undefined` members.
- The source text of the synthetic module (src/nls.build.ts:217) is not modelled. It is represented as its id, its dependencies and the key it passes to `create`. The source inserts module names into the text without escaping, and names containing quotes are not considered.
- `Array.isArray` (src/nls.build.ts:188) is replaced by the `Localizer.Bundle` variant `Flat | Nested`.
- Arguments of type `any` are modelled as strings. An argument that is explicitly `undefined` is left as a placeholder by the source; the model does not represent it.
- The `ILocalizeInfo` object form of the first `localize` argument, and non-integral indices, are not modelled. Indices are integers.
- JavaScript object lookups through the prototype chain are not modelled. For example, `config['constructor']` is truthy in the source, but maps here are plain finite maps.
- The host key-map entry `{ keys: [...] }` is modelled as its key list. An entry without `keys` makes the source throw; that case is not modelled.
- Language.RequestedResources: for runtime mode, its contract states only the `name.nls` prefix. The full name (suffix from the resolved language) is stated by `Language.RuntimeResourceName`.
- Build.SyntheticModuleFindsMessages: does not state that a synthetic module is localized from its captured messages at run time. That holds only when no language other than `i-default` resolves for the entry point (`Build.RuntimeLoadsEmittedBundle`). Otherwise the translated bundles are produced outside this build and are not modelled.
- Interleaving of asynchronous loads is not modelled as concurrency. A session is any sequence of completed captures and writes, and `Build.RunCharacterised` holds for every order.
