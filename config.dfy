/** The option rules of `configure` (index.js:32-42, 50-61). */
module Config {
  import opened Values

  /** One entry of the rule table: whether the key is required, and the
      value it takes when it is optional and not supplied (`Undefined`
      when the table gives none). */
  datatype Rule = Rule(required: bool, value: Value)

  /** The rule table, in the order `configure` visits its keys. */
  const ConfigDetails: seq<(string, Rule)> :=
    [("defaultLocale", Rule(true, Undefined)),
     ("dir", Rule(true, Undefined)),
     ("fallback", Rule(false, Bool(true)))]

  /** The acceptance test `v !== undefined && (typeof v === 'boolean' ||
      v.length > 0)`: a boolean or a non-empty string is supplied; `undefined`
      and a number (which has no length) are not; reading `length` of `null`
      raises. */
  function Supplied(v: Value): (r: Result<bool>)
    ensures r.Err? <==> v == Null
    ensures r == Ok(true) <==> v.Bool? || (v.Str? && |v.s| > 0)
  {
    match v
    case Undefined => Ok(false)
    case Null => Err(TypeError)
    case Bool(_) => Ok(true)
    case Num(_) => Ok(false)
    case Str(s) => Ok(|s| > 0)
  }

  /** The validation loop from the given rule onwards: the configuration
      it leaves behind and the exception that stopped it, if any. Keys
      written before an exception stay written. */
  function ApplyRules(rules: seq<(string, Rule)>, opts: map<string, Value>, cfg: map<string, Value>)
    : (r: (map<string, Value>, Option<Error>))
    ensures r.0.Keys <= cfg.Keys + set j | 0 <= j < |rules| :: rules[j].0
    decreases |rules|
  {
    if rules == [] then (cfg, None)
    else
      var key := rules[0].0;
      var rule := rules[0].1;
      var v := Get(opts, key);
      match Supplied(v)
      case Err(e) => (cfg, Some(e))
      case Ok(present) =>
        if present then ApplyRules(rules[1..], opts, cfg[key := v])
        else if rule.required then (cfg, Some(MissingConfig(key)))
        else if rule.value != Undefined then ApplyRules(rules[1..], opts, cfg[key := rule.value])
        else ApplyRules(rules[1..], opts, cfg)
  }

  /** The value `configure` keeps for an optional key. */
  function OptionalValue(v: Value, dflt: Value): Value {
    if Supplied(v) == Ok(true) then v else dflt
  }

  /** `configure` on the fixed rule table: which exception it raises, in
      key order, and what the configuration is afterwards. Earlier keys
      stay written when a later one raises; on success `defaultLocale`
      and `dir` hold the supplied values, `fallback` the supplied value or
      `true`, and every other key is left as it was. */
  lemma ConfigureRules(opts: map<string, Value>, cfg: map<string, Value>)
    ensures var dl, dir, fb := Get(opts, "defaultLocale"), Get(opts, "dir"), Get(opts, "fallback");
            var r := ApplyRules(ConfigDetails, opts, cfg);
            && (dl == Null ==> r == (cfg, Some(TypeError)))
            && (dl != Null && Supplied(dl) == Ok(false) ==> r == (cfg, Some(MissingConfig("defaultLocale"))))
            && (Supplied(dl) == Ok(true) && dir == Null ==> r == (cfg[ "defaultLocale" := dl], Some(TypeError)))
            && (Supplied(dl) == Ok(true) && dir != Null && Supplied(dir) == Ok(false) ==>
                  r == (cfg["defaultLocale" := dl], Some(MissingConfig("dir"))))
            && (Supplied(dl) == Ok(true) && Supplied(dir) == Ok(true) && fb == Null ==>
                  r == (cfg["defaultLocale" := dl]["dir" := dir], Some(TypeError)))
            && (Supplied(dl) == Ok(true) && Supplied(dir) == Ok(true) && fb != Null ==>
                  r == (cfg["defaultLocale" := dl]["dir" := dir]["fallback" := OptionalValue(fb, Bool(true))], None))
  {
  }

  /** A configuration that passes validation has a usable default locale
      and directory, and a fallback flag that is never `undefined`. */
  lemma ConfiguredValues(opts: map<string, Value>, cfg: map<string, Value>)
    requires ApplyRules(ConfigDetails, opts, cfg).1 == None
    ensures var c := ApplyRules(ConfigDetails, opts, cfg).0;
            && Supplied(Get(c, "defaultLocale")) == Ok(true)
            && Supplied(Get(c, "dir")) == Ok(true)
            && Get(c, "fallback") != Undefined
            && (Get(opts, "fallback") == Undefined ==> Get(c, "fallback") == Bool(true))
  {
  }
}
