# i18n translation engine, modelled in Dafny

This project models the `i18n` object of `index.js`. It is a small
translation engine for Node.js. It holds three things: a configuration, a
cache of locale dictionaries, and a current locale. Through these it
resolves dotted phrase paths such as `greetings.text.hello`.

- `configure(opts)` validates the options against a fixed rule table:
  `defaultLocale` and `dir` are required, and `fallback` defaults to `true`.
  It then makes the default locale current and loads its dictionary.
- `_getContext`, `setLocale` and `getLocale` maintain the dictionary cache
  and the current locale. A cache entry is loaded only when missing, and it
  is never replaced or evicted.
- `_getPhrase(path, def)` walks the segments of `path` through the current
  (or default) dictionary. At each missing segment, when fallback applies,
  it resolves the whole path again in the default locale. `__` and `__n`
  format the result; `__n` first picks a `.zero`, `.one` or `.many` suffix.

Files:

- `values.dfy` (module `Values`): the JavaScript values the engine
  receives (`undefined`, `null`, booleans, integers, strings). It also
  holds the coercions the code relies on: `Key` is `String(v)` as used for
  object keys, and `Truthy` is truthiness. `Result` and `Status` carry the
  raised exception: a missing required key, or a `TypeError`.
- `phrases.dfy` (module `Phrases`): the dictionary tree and `Split`/`Join`
  with their round trips. `Walk` is the segment loop as a function.
  `Steps`/`Final` give an independent characterisation of the walk's
  result, and lemmas derive the path-resolution properties from it.
- `config.dfy` (module `Config`): the rule table, the acceptance test for
  one option value (`Supplied`), and `ApplyRules`, the validation loop as
  a function, with what it yields on the fixed table.
- `engine.dfy` (module `Engine`): `Resolve`, the specification of
  `_getPhrase`, with its lemmas. Also the class `I18n`, whose methods are
  the source's own: `Configure` and `GetPhrase` are loops proved against
  `ApplyRules` and `Resolve`.
- `scenarios.dfy` (module `Scenarios`): the cases `tests/test.js` checks,
  on dictionaries of the shape those tests expect, plus a client that
  drives the class's methods through the suite's calls: `configure`
  without `defaultLocale`, without `dir`, and complete; `getLocale`;
  `setLocale('it')`; `__` on `greetings.text.hello` and `greetings.bye`
  with fallback on; and `__` on `greetings.bye` again after `fallback` is
  set to `false`.

Behaviour of the code that the model keeps as written:

- A phrase string met during the walk sets the result but does not become
  the new lookup object. So `greetings.text.hello.extra` returns the
  phrase at `greetings.text.hello`, not the path: the extra segment misses
  in the dictionary holding `hello`, and without fallback a miss changes
  nothing (`OvershootKeepsPhrase`). In the same way, a later segment can
  still find a phrase string in that dictionary after an earlier miss.
- Fallback happens at every missing segment, and the last setting step
  wins (`WalkIsFinal`). Fallback resolution in the default locale never
  falls back again (`ResolveFallsBack`).
- `__n` with no argument after `path` takes `path` itself as the count,
  so it chooses `.many`. The count stays among the formatter's arguments.
- `configure` keeps the keys it wrote before it raised. `null` as an
  option value raises a `TypeError` (from `null.length`). A number is not
  accepted, because numbers have no `length`: `fallback: 0` leaves
  `fallback` at `true`. A boolean `dir` passes validation, but loading,
  when that locale is not yet cached, raises a `TypeError` from
  `path.join`.

## Model

| member | source | states |
|---|---|---|
| `Values.Key` | index.js:85-87 | `String(v)` as an object key, with no contract of its own; `EnsureLoaded` and `Resolve` use it to index the cache |
| `Values.KeyNumInjective` | index.js:85-87 | two numbers give the same key exactly when they are equal, so distinct numeric locales index distinct cache entries |
| `Values.Truthy` | index.js:149 | JavaScript truthiness, with no contract of its own; `FallbackApplies` uses it for the `fallback` flag |
| `Config.Supplied` | index.js:52-54 | an option value counts as supplied exactly when it is a boolean or a non-empty string; reading `length` of `null` raises |
| `Config.ApplyRules` | index.js:51-61 | the validation loop writes only keys of the rule table |
| `Config.ConfigureRules` | index.js:32-42 | on the fixed table, keys are checked in the order `defaultLocale`, `dir`, `fallback`; the first null or missing required key raises, with the keys before it already written; on success `defaultLocale` and `dir` hold the supplied values, `fallback` holds the supplied value or `true`, and other keys are untouched |
| `Config.ConfiguredValues` | index.js:58-60 | after a successful validation `defaultLocale` and `dir` are usable, and an absent `fallback` is `true` |
| `Phrases.Split` | index.js:136 | splitting on `.` always gives at least one piece, and no piece contains `.` |
| `Phrases.JoinSplit` | index.js:136 | joining the pieces of a split gives the path back |
| `Phrases.SplitJoin` | index.js:136 | splitting a join of dot-free segments gives the segments back |
| `Phrases.SplitAppend` | index.js:124-128 | appending `.zero`, `.one` or `.many` to a path adds exactly that last segment |
| `Phrases.Walk` | index.js:141-152 | the `forEach` over the segments, with no contract of its own; `WalkIsFinal` ties it to the last-setting-step reading, and the `Walk*` lemmas below state what it returns |
| `Phrases.WalkIsFinal` | index.js:139-152 | the walk raises exactly when fallback raised and a segment misses; otherwise it returns the text of the last step that sets one, or the path |
| `Phrases.WalkFindsLeaf` | index.js:141-147 | a path leading through dictionaries onto a phrase string returns that string, whatever the fallback |
| `Phrases.WalkStopsAtBranch` | index.js:139-147 | a path addressing a nested dictionary returns the initial text |
| `Phrases.WalkWithoutLeaf` | index.js:139-151 | without fallback, a walk that meets no phrase string returns the initial text |
| `Phrases.WalkFallsBack` | index.js:148-150 | with fallback, a miss followed by no phrase string yields the fallback outcome |
| `Phrases.WalkKeepsLastPhrase` | index.js:143-144 | without fallback, the last phrase string met is the result even when later segments miss |
| `Phrases.WalkResultOrigin` | index.js:139-154 | a successful walk returns the path, the fallback text, or a phrase string it met |
| `Phrases.LookupAppend` | index.js:146 | looking one segment further reads the entry of the dictionary the shorter path addresses |
| `Engine.EnsureLoaded` | index.js:84-89 | loading adds exactly the current locale's key when it is absent, through the loader on `dir` and `<locale>.js`; it keeps every cached entry unchanged; it raises only for an absent key with a non-string `dir` |
| `Engine.FallbackApplies` | index.js:148-149 | the fallback condition, with no contract of its own; `ResolveWithoutFallback` and `ResolveFallsBack` state the outcome when it fails and when it holds |
| `Engine.Resolve` | index.js:135-155 | `_getPhrase` on a given state, with no contract of its own; the `Resolve*` lemmas below state what it returns and when it raises, and `I18n.GetPhrase` is proved equal to it |
| `Engine.ResolveFindsLeaf` | index.js:141-147 | a path that leads to a phrase string in the starting dictionary resolves to it |
| `Engine.ResolveAtBranch` | index.js:139-147 | a path addressing an internal node resolves to the path itself, with or without fallback |
| `Engine.ResolveWithoutFallback` | index.js:148-151 | in the default locale, or with `fallback` off, a walk meeting no phrase string resolves to the path itself |
| `Engine.ResolveFallsBack` | index.js:148-150 | under fallback, a miss with no later phrase string resolves as the full path in the default locale, and that resolution never falls back again |
| `Engine.ResolveRaises` | index.js:137-150 | resolution raises exactly when the starting dictionary is unloaded, or when fallback is needed and the default dictionary is unloaded; it raises only `TypeError` |
| `Engine.ResolveLoadedSucceeds` | index.js:137-150 | with the current and default dictionaries loaded, resolution never raises |
| `Engine.ResolveOrigin` | index.js:139-154 | a resolved text is the path or a phrase string met in the current or (under fallback) the default dictionary |
| `Engine.Variant` | index.js:123-130 | the entry `zero`, `one` or `many` picked by strict equality of the count with 0 and 1, with no contract of its own; `CountedFindsVariant` states what it selects |
| `Engine.PluralSuffix` | index.js:123-130 | `.` followed by the `Variant` entry, with no contract of its own; `CountedFindsVariant` states which entry it selects |
| `Engine.CountArgument` | index.js:119-121 | `arguments[arguments.length - 1]`, with no contract of its own; `CountedFindsVariant` and `I18n.TranslateCounted` use it as the count |
| `Engine.CountedFindsVariant` | index.js:119-132 | `__n` on a phrase family resolves to the `zero`, `one` or `many` entry chosen by strict equality of the count with 0 and 1 |
| `Engine.I18n.constructor` | index.js:5-43 | a new instance has an empty configuration, an empty cache and an undefined locale |
| `Engine.I18n.GetContext` | index.js:84-89 | the cache becomes the `EnsureLoaded` result, or is unchanged when loading raises |
| `Engine.I18n.GetLocale` | index.js:95-97 | returns the current locale |
| `Engine.I18n.SetLocale` | index.js:103-106 | the current locale becomes exactly the argument, even when loading raises; on success its key is cached; every earlier entry is kept unchanged; a ready instance stays ready |
| `Engine.I18n.Configure` | index.js:50-66 | the configuration becomes the `ApplyRules` result; after a validation exception the locale and cache are unchanged; after a load exception the default locale is current and the cache unchanged; on success the default locale is current, and once it is loaded both dictionaries are present |
| `Engine.I18n.GetPhrase` | index.js:135-155 | the segment loop with its self-call returns exactly `Resolve` of the current state |
| `Engine.I18n.Translate` | index.js:114-117 | formats the resolved phrase with all arguments, or raises what resolution raised; an instance with the current and default dictionaries loaded never raises |
| `Engine.I18n.TranslateCounted` | index.js:119-133 | resolves the path with the suffix chosen by the last argument (the path when there is none) and formats with all arguments, the count included; an instance with the current and default dictionaries loaded never raises |
| `Scenarios.DefaultLocaleValidPath` | tests/test.js:102-105 | in the default locale a valid path gives its phrase |
| `Scenarios.DefaultLocaleInvalidPath` | tests/test.js:107-110 | in the default locale a path stopping short inside `greetings` gives the path back |
| `Scenarios.OtherLocalePhrase` | tests/test.js:114-118 | after switching to `it`, its own phrase is returned |
| `Scenarios.OtherLocaleFallback` | tests/test.js:122-131 | a phrase only `en` has is returned from `en` when fallback is on |
| `Scenarios.OtherLocaleNoFallback` | tests/test.js:133-142 | with fallback off, the same path comes back unchanged |
| `Scenarios.OvershootKeepsPhrase` | index.js:141-152 | a path running past a phrase string returns that phrase string |
| `Scenarios.RejectIncomplete` | tests/test.js:17-29 | `configure` without `defaultLocale` raises with nothing written; without `dir` it raises with `defaultLocale` written; neither changes the locale or the cache |
| `Scenarios.ConfigureScenario` | tests/test.js:17-36 | `configure` without `defaultLocale` and without `dir` each raise the missing key, and a complete option set is stored with `fallback` defaulted and `en` current |
| `Scenarios.TranslateScenario` | tests/test.js:78-141 | on the configured instance, `setLocale('it')` makes `it` current and caches its dictionary, `__` gives the formatted `ciao` and, by fallback, `bye`, and with `fallback` then off gives `greetings.bye` back |
| `Scenarios.TranslateWithoutFallback` | tests/test.js:133-141 | after `fallback` is written as `false`, `__('greetings.bye')` in `it` gives the path back, with locale and cache unchanged |

## Left out

- Formatting: `sprintf.vsprintf` is a foreign library. The instance takes it as an arbitrary total function of the phrase and the arguments (`Formatter`).
- Formatting exceptions are not modelled: `vsprintf` raises on a malformed placeholder such as a stray `%`, or on `%d` with a non-numeric argument, but `Formatter` cannot fail. So `I18n.Translate` and `I18n.TranslateCounted` raise only what resolution raised.
- Numbers are modelled as integers of any size, written in full decimal by `Key`. JavaScript numbers are doubles: integers beyond 2^53 do not exist exactly, and `String(n)` switches to exponent form from 1e21. The model is faithful for safe integers only.
- Dictionary loading: `require(path.join(dir, locale + '.js'))` reads a file and goes through Node's module cache. The instance takes it as an arbitrary total function of the directory and the file name (`Loader`). A missing or unparsable file, which would raise, is not modelled, and neither is `path.join`'s normalisation of the two parts.
- The `init` middleware (index.js:71-78) only attaches the instance to the response. It is not modelled.
- `example/server.js` is a demonstration server. Its `cache`, `extension` and `refresh` options are not in the rule table, so `configure` ignores them; the model ignores them the same way.
- The module-level singleton (index.js:157) is modelled as one explicitly constructed instance.
- Cache eviction, reloading, `resetLocale`, `clearCache`, and dictionaries given in memory or through a callback do not exist in `index.js`. They are not modelled.
- JavaScript values outside `undefined`, `null`, booleans, integers and strings are not modelled. This covers fractional numbers, arrays and objects as option values, a missing `opts` object, dictionary entries that are neither strings nor objects, and keys inherited from `Object.prototype` (such as `toString`) that a plain-object lookup would find.
- Concurrency: the engine is synchronous and single-threaded, and the model has no interleavings.
- `Config.ApplyRules`: its own contract states only which keys it writes. What it yields on the fixed table is stated by `Config.ConfigureRules`.
