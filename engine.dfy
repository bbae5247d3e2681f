/** The `i18n` object of index.js: its configuration, its cache of loaded
    dictionaries, its current locale, and the translation entry points. */
module Engine {
  import opened Values
  import opened Phrases
  import opened Config

  /** The loader `require(path.join(dir, file))`: a dictionary for a
      directory and a file name. */
  type Loader = (string, string) -> Dict

  /** `sprintf.vsprintf(phrase, args)`. */
  type Formatter = (string, seq<Value>) -> string

  /** The locale `_getContext` would load for, and whether it would load:
      the cache gains `Key(locale)` when it is absent, through the loader
      on `dir` and `Key(locale) + ".js"`; `path.join` raises on a
      directory that is not a string. */
  function EnsureLoaded(context: map<string, Dict>, dir: Value, locale: Value, load: Loader)
    : (r: Result<map<string, Dict>>)
    ensures r.Err? <==> Key(locale) !in context && !dir.Str?
    ensures r.Err? ==> r.error == TypeError
    ensures r.Ok? ==> r.value.Keys == context.Keys + {Key(locale)}
    ensures r.Ok? ==> forall k :: k in context ==> r.value[k] == context[k]
    ensures r.Ok? && Key(locale) !in context ==> r.value[Key(locale)] == load(dir.s, Key(locale) + ".js")
  {
    var k := Key(locale);
    if k in context then Ok(context)
    else if dir.Str? then Ok(context[k := load(dir.s, k + ".js")])
    else Err(TypeError)
  }

  /** The `defaultLocale` the configuration holds. */
  function DefaultLocale(config: map<string, Value>): Value {
    Get(config, "defaultLocale")
  }

  /** Whether a missing segment triggers the default-locale resolution:
      the current locale is not the default, this is not already the
      default-locale resolution, and `fallback` is truthy. */
  predicate FallbackApplies(config: map<string, Value>, current: Value, def: bool) {
    current != DefaultLocale(config) && !def && Truthy(Get(config, "fallback"))
  }

  /** The dictionary `_getPhrase(path, def)` starts from. */
  function StartLocale(config: map<string, Value>, current: Value, def: bool): Value {
    if def then DefaultLocale(config) else current
  }

  /** `_getPhrase(path, def)` on a given state: walk the segments of `path`
      in the dictionary of the default locale (when `def`) or of the
      current locale, starting from the text `path` itself, with the
      default-locale resolution of the full path as fallback outcome. An
      unloaded dictionary raises `TypeError` at the first segment. */
  function Resolve(context: map<string, Dict>, config: map<string, Value>, current: Value, path: string, def: bool)
    : Result<string>
    decreases if def then 0 else 1
  {
    var loc := StartLocale(config, current, def);
    if Key(loc) !in context then Err(TypeError)
    else
      var fb := if FallbackApplies(config, current, def)
                then Some(Resolve(context, config, current, path, true)) else None;
      Walk(context[Key(loc)], Split(path, '.'), path, fb)
  }

  // ---------------------------------------------------------------------
  // What `_getPhrase` returns
  // ---------------------------------------------------------------------

  /** A path that descends through dictionaries onto a phrase string in
      the starting dictionary resolves to that string. */
  lemma ResolveFindsLeaf(context: map<string, Dict>, config: map<string, Value>, current: Value,
                         path: string, def: bool, s: string)
    requires Key(StartLocale(config, current, def)) in context
    requires Lookup(context[Key(StartLocale(config, current, def))], Split(path, '.')) == Some(Leaf(s))
    ensures Resolve(context, config, current, path, def) == Ok(s)
  {
    var loc := StartLocale(config, current, def);
    var fb := if FallbackApplies(config, current, def)
              then Some(Resolve(context, config, current, path, true)) else None;
    WalkFindsLeaf(context[Key(loc)], Split(path, '.'), path, fb, s);
  }

  /** A path that addresses a nested dictionary resolves to the path
      itself, with or without fallback. */
  lemma ResolveAtBranch(context: map<string, Dict>, config: map<string, Value>, current: Value,
                        path: string, def: bool, m: Dict)
    requires Key(StartLocale(config, current, def)) in context
    requires Lookup(context[Key(StartLocale(config, current, def))], Split(path, '.')) == Some(Branch(m))
    ensures Resolve(context, config, current, path, def) == Ok(path)
  {
    var loc := StartLocale(config, current, def);
    var fb := if FallbackApplies(config, current, def)
              then Some(Resolve(context, config, current, path, true)) else None;
    WalkStopsAtBranch(context[Key(loc)], Split(path, '.'), path, fb, m);
  }

  /** When fallback does not apply (the default locale is being resolved,
      the current locale is the default, or `fallback` is falsy) a walk
      that meets no phrase string resolves to the path itself. */
  lemma ResolveWithoutFallback(context: map<string, Dict>, config: map<string, Value>, current: Value,
                               path: string, def: bool)
    requires !FallbackApplies(config, current, def)
    requires Key(StartLocale(config, current, def)) in context
    requires MeetsNoPhrase(Steps(context[Key(StartLocale(config, current, def))], Split(path, '.')))
    ensures Resolve(context, config, current, path, def) == Ok(path)
  {
    WalkWithoutLeaf(context[Key(StartLocale(config, current, def))], Split(path, '.'), path);
  }

  /** When fallback applies and a segment misses with no phrase string met
      after it, the result is the resolution of the whole path in the
      default locale; that resolution never falls back again (fallback
      recursion has depth one). */
  lemma ResolveFallsBack(context: map<string, Dict>, config: map<string, Value>, current: Value,
                         path: string, j: nat)
    requires FallbackApplies(config, current, false)
    requires Key(current) in context
    requires var st := Steps(context[Key(current)], Split(path, '.'));
             j < |st| && st[j] == Miss && forall k :: j < k < |st| ==> !st[k].Hit?
    ensures Resolve(context, config, current, path, false) == Resolve(context, config, current, path, true)
    ensures Resolve(context, config, current, path, true)
         == if Key(DefaultLocale(config)) in context
            then Walk(context[Key(DefaultLocale(config))], Split(path, '.'), path, None)
            else Err(TypeError)
  {
    WalkFallsBack(context[Key(current)], Split(path, '.'), path, Resolve(context, config, current, path, true), j);
  }

  /** `_getPhrase` raises exactly when the starting dictionary is not
      loaded, or when fallback applies, some segment misses and the default
      dictionary is not loaded; what it raises is a `TypeError`. */
  lemma ResolveRaises(context: map<string, Dict>, config: map<string, Value>, current: Value,
                      path: string, def: bool)
    ensures var r := Resolve(context, config, current, path, def);
            var loc := StartLocale(config, current, def);
            && (r.Err? <==>
                  || Key(loc) !in context
                  || (&& FallbackApplies(config, current, def)
                      && Key(DefaultLocale(config)) !in context
                      && Miss in Steps(context[Key(loc)], Split(path, '.'))))
            && (r.Err? ==> r.error == TypeError)
  {
    var loc := StartLocale(config, current, def);
    if Key(loc) in context {
      var fb := if FallbackApplies(config, current, def)
                then Some(Resolve(context, config, current, path, true)) else None;
      WalkIsFinal(context[Key(loc)], Split(path, '.'), path, fb);
      if FallbackApplies(config, current, def) {
        var dl := DefaultLocale(config);
        if Key(dl) in context {
          WalkIsFinal(context[Key(dl)], Split(path, '.'), path, None);
        }
      }
    }
  }

  /** Once the current and the default locale are loaded, translation
      never raises. */
  lemma ResolveLoadedSucceeds(context: map<string, Dict>, config: map<string, Value>, current: Value, path: string)
    requires Key(current) in context && Key(DefaultLocale(config)) in context
    ensures Resolve(context, config, current, path, false).Ok?
  {
    ResolveRaises(context, config, current, path, false);
  }

  /** A resolved text is the path itself or a phrase string met on the
      walk through the current dictionary or, under fallback, through the
      default dictionary. */
  lemma ResolveOrigin(context: map<string, Dict>, config: map<string, Value>, current: Value,
                      path: string, def: bool)
    ensures var r := Resolve(context, config, current, path, def);
            var loc := StartLocale(config, current, def);
            var dl := DefaultLocale(config);
            r.Ok? ==>
              || r.value == path
              || Hit(r.value) in Steps(context[Key(loc)], Split(path, '.'))
              || (FallbackApplies(config, current, def) && Key(dl) in context &&
                  Hit(r.value) in Steps(context[Key(dl)], Split(path, '.')))
  {
    var loc := StartLocale(config, current, def);
    if Key(loc) in context {
      var fb := if FallbackApplies(config, current, def)
                then Some(Resolve(context, config, current, path, true)) else None;
      WalkResultOrigin(context[Key(loc)], Split(path, '.'), path, fb);
      if FallbackApplies(config, current, def) {
        var dl := DefaultLocale(config);
        if Key(dl) in context {
          WalkResultOrigin(context[Key(dl)], Split(path, '.'), path, None);
        }
      }
    }
  }

  /** `__n` on a counted phrase family: when `path` addresses a dictionary
      whose `zero`, `one` or `many` entry (chosen by the count argument) is
      a phrase string, that string is what gets formatted. */
  lemma CountedFindsVariant(context: map<string, Dict>, config: map<string, Value>, current: Value,
                            path: string, args: seq<Value>, m: Dict, s: string)
    requires Key(current) in context
    requires Lookup(context[Key(current)], Split(path, '.')) == Some(Branch(m))
    requires Variant(CountArgument(path, args)) in m && m[Variant(CountArgument(path, args))] == Leaf(s)
    ensures Resolve(context, config, current, path + PluralSuffix(CountArgument(path, args)), false) == Ok(s)
  {
    var count := CountArgument(path, args);
    var variant := Variant(count);
    assert PluralSuffix(count) == ['.'] + variant;
    assert path + PluralSuffix(count) == path + ['.'] + variant;
    SplitAppend(path, '.', variant);
    LookupAppend(context[Key(current)], Split(path, '.'), variant);
    ResolveFindsLeaf(context, config, current, path + PluralSuffix(count), false, s);
  }

  /** The entry of a phrase family `__n` picks for its count argument,
      by strict equality with 0 and 1. */
  function Variant(count: Value): string {
    if count == Num(0) then "zero" else if count == Num(1) then "one" else "many"
  }

  /** The plural suffix `__n` appends for its count argument. */
  function PluralSuffix(count: Value): string {
    "." + Variant(count)
  }

  /** `arguments[arguments.length - 1]` in `__n(path, ...args)`: the last
      argument, which is `path` itself when no argument follows it. */
  function CountArgument(path: string, args: seq<Value>): Value {
    if |args| == 0 then Str(path) else args[|args| - 1]
  }

  /** The translation engine. */
  class I18n {
    const loader: Loader
    const format: Formatter
    var config: map<string, Value>
    var context: map<string, Dict>
    var currentLocale: Value

    /** Both the current and the default locale have a dictionary loaded:
        the state every successful `configure` leaves and every successful
        `setLocale` keeps. */
    ghost predicate Ready()
      reads this
    {
      Key(currentLocale) in context && Key(DefaultLocale(config)) in context
    }

    /** A fresh instance: no configuration, no dictionaries, no locale. */
    constructor (loader: Loader, format: Formatter)
      ensures this.loader == loader && this.format == format
      ensures config == map[] && context == map[] && currentLocale == Undefined
    {
      this.loader := loader;
      this.format := format;
      config := map[];
      context := map[];
      currentLocale := Undefined;
    }

    /** `_getContext`: load the current locale's dictionary when it is not
        cached; cached entries are never replaced or removed. */
    method GetContext() returns (st: Status)
      modifies this`context
      ensures var r := EnsureLoaded(old(context), Get(config, "dir"), currentLocale, loader);
              if r.Ok? then context == r.value && st == Returned
              else context == old(context) && st == Threw(r.error)
    {
      var k := Key(currentLocale);
      if k !in context {
        var dir := Get(config, "dir");
        if !dir.Str? {
          return Threw(TypeError);
        }
        context := context[k := loader(dir.s, k + ".js")];
      }
      return Returned;
    }

    /** `getLocale`: the current locale; nothing changes. */
    method GetLocale() returns (l: Value)
      ensures l == currentLocale
    {
      l := currentLocale;
    }

    /** `setLocale(locale)`: the current locale becomes `locale` even when
        loading it then raises; its dictionary is loaded when missing. */
    method SetLocale(locale: Value) returns (st: Status)
      modifies this`currentLocale, this`context
      ensures currentLocale == locale
      ensures var r := EnsureLoaded(old(context), Get(config, "dir"), locale, loader);
              if r.Ok? then context == r.value && st == Returned
              else context == old(context) && st == Threw(r.error)
      ensures st == Returned ==> Key(locale) in context
      ensures forall k :: k in old(context) ==> k in context && context[k] == old(context)[k]
      ensures st == Returned && old(Ready()) ==> Ready()
    {
      currentLocale := locale;
      st := GetContext();
    }

    /** `configure(opts)`: validate the options key by key against the
        rule table, writing each accepted or defaulted key as it goes; on
        success make the default locale current and load it. */
    method Configure(opts: map<string, Value>) returns (st: Status)
      modifies this`config, this`currentLocale, this`context
      ensures var (cfg, err) := ApplyRules(ConfigDetails, opts, old(config));
              config == cfg &&
              (err.Some? ==> st == Threw(err.value) && currentLocale == old(currentLocale) && context == old(context))
      ensures ApplyRules(ConfigDetails, opts, old(config)).1 == None ==>
                && currentLocale == DefaultLocale(config)
                && var r := EnsureLoaded(old(context), Get(config, "dir"), currentLocale, loader);
                   (if r.Ok? then context == r.value && st == Returned && Ready()
                    else context == old(context) && st == Threw(r.error))
    {
      var i := 0;
      while i < |ConfigDetails|
        invariant 0 <= i <= |ConfigDetails|
        invariant ApplyRules(ConfigDetails[i..], opts, config) == ApplyRules(ConfigDetails, opts, old(config))
        invariant currentLocale == old(currentLocale) && context == old(context)
      {
        var key := ConfigDetails[i].0;
        var rule := ConfigDetails[i].1;
        var v := Get(opts, key);
        var supplied := Supplied(v);
        assert ConfigDetails[i..][1..] == ConfigDetails[i + 1..];
        if supplied.Err? {
          return Threw(supplied.error);
        }
        if supplied.value {
          config := config[key := v];
        } else if rule.required {
          return Threw(MissingConfig(key));
        } else if rule.value != Undefined {
          config := config[key := rule.value];
        }
        i := i + 1;
      }
      ConfiguredValues(opts, old(config));
      currentLocale := DefaultLocale(config);
      st := GetContext();
    }

    /** `_getPhrase(path, def)`: the segment loop with its two locals `obj`
        and `str`, calling itself once with `def` set on a missing segment
        when fallback applies. */
    method GetPhrase(path: string, def: bool) returns (r: Result<string>)
      ensures r == Resolve(context, config, currentLocale, path, def)
      decreases if def then 0 else 1
    {
      var arr := Split(path, '.');
      var loc := StartLocale(config, currentLocale, def);
      if Key(loc) !in context {
        return Err(TypeError);
      }
      var obj := context[Key(loc)];
      var str := path;
      ghost var fb := if FallbackApplies(config, currentLocale, def)
                      then Some(Resolve(context, config, currentLocale, path, true)) else None;
      var i := 0;
      while i < |arr|
        invariant 0 <= i <= |arr|
        invariant Walk(obj, arr[i..], str, fb) == Walk(context[Key(loc)], arr, path, fb)
      {
        var data := arr[i];
        assert arr[i..][1..] == arr[i + 1..];
        if data in obj {
          match obj[data]
          case Leaf(s) =>
            str := s;
          case Branch(kids) =>
            obj := kids;
        } else if FallbackApplies(config, currentLocale, def) {
          var inner := GetPhrase(path, true);
          if inner.Err? {
            return inner;
          }
          str := inner.value;
        }
        i := i + 1;
      }
      return Ok(str);
    }

    /** `__(path, ...args)`: resolve in the current locale, then format. */
    method Translate(path: string, args: seq<Value>) returns (r: Result<string>)
      ensures var p := Resolve(context, config, currentLocale, path, false);
              if p.Ok? then r == Ok(format(p.value, args)) else r == Err(p.error)
      ensures Ready() ==> r.Ok?
    {
      if Ready() {
        ResolveLoadedSucceeds(context, config, currentLocale, path);
      }
      var phrase := GetPhrase(path, false);
      if phrase.Err? {
        return Err(phrase.error);
      }
      return Ok(format(phrase.value, args));
    }

    /** `__n(path, ...args)`: append the plural suffix chosen by the last
        argument, resolve in the current locale, and format with all of
        `args`, the count included. */
    method TranslateCounted(path: string, args: seq<Value>) returns (r: Result<string>)
      ensures var p := Resolve(context, config, currentLocale, path + PluralSuffix(CountArgument(path, args)), false);
              if p.Ok? then r == Ok(format(p.value, args)) else r == Err(p.error)
      ensures Ready() ==> r.Ok?
    {
      var count := if |args| == 0 then Str(path) else args[|args| - 1];
      var full := path;
      if count == Num(0) {
        full := full + ".zero";
      } else if count == Num(1) {
        full := full + ".one";
      } else {
        full := full + ".many";
      }
      assert full == path + PluralSuffix(count);
      if Ready() {
        ResolveLoadedSucceeds(context, config, currentLocale, full);
      }
      var phrase := GetPhrase(full, false);
      if phrase.Err? {
        return Err(phrase.error);
      }
      return Ok(format(phrase.value, args));
    }
  }
}
