/** The behaviours tests/test.js checks, on dictionaries shaped like the
    ones it expects: `en` has `greetings.text.hello` and `greetings.bye`,
    `it` has only `greetings.text.hello`, translated. */
module Scenarios {
  import opened Values
  import opened Phrases
  import opened Config
  import opened Engine

  function En(): Dict {
    map["greetings" := Branch(map["text" := Branch(map["hello" := Leaf("hello")]), "bye" := Leaf("bye")])]
  }

  function It(): Dict {
    map["greetings" := Branch(map["text" := Branch(map["hello" := Leaf("ciao")])])]
  }

  function Loaded(): map<string, Dict> {
    map["en" := En(), "it" := It()]
  }

  function Configured(fallback: bool): map<string, Value> {
    map["defaultLocale" := Str("en"), "dir" := Str("locale"), "fallback" := Bool(fallback)]
  }

  // The scenario lemmas take their path as a parameter fixed by a
  // `requires` instead of writing the literal into the `ensures`: a string
  // literal under `Split` makes the solver unfold it character by
  // character, which exhausts its resources, while the `SplitPath*`
  // helpers split a path assembled from its segments.

  /** Paths of two to four segments split as written. */
  lemma SplitPath2(a: string, b: string)
    requires NoSep(a, '.') && NoSep(b, '.')
    ensures Split(a + "." + b, '.') == [a, b]
  {
    SplitPiece(a, '.', b);
    SplitNoSep(b, '.');
  }

  lemma SplitPath3(a: string, b: string, c: string)
    requires NoSep(a, '.') && NoSep(b, '.') && NoSep(c, '.')
    ensures Split(a + "." + b + "." + c, '.') == [a, b, c]
  {
    assert a + "." + b + "." + c == a + "." + (b + "." + c);
    SplitPiece(a, '.', b + "." + c);
    SplitPath2(b, c);
  }

  lemma SplitPath4(a: string, b: string, c: string, d: string)
    requires NoSep(a, '.') && NoSep(b, '.') && NoSep(c, '.') && NoSep(d, '.')
    ensures Split(a + "." + b + "." + c + "." + d, '.') == [a, b, c, d]
  {
    assert a + "." + b + "." + c + "." + d == a + "." + (b + "." + c + "." + d);
    SplitPiece(a, '.', b + "." + c + "." + d);
    SplitPath3(b, c, d);
  }

  lemma HelloSplit(p: string)
    requires p == "greetings.text.hello"
    ensures Split(p, '.') == ["greetings", "text", "hello"]
  {
    SplitPath3("greetings", "text", "hello");
    assert "greetings" + "." + "text" + "." + "hello" == p;
  }

  lemma TwoSegmentSplit(p: string, key: string)
    requires NoSep(key, '.')
    requires p == "greetings." + key
    ensures Split(p, '.') == ["greetings", key]
  {
    SplitPath2("greetings", key);
    assert "greetings" + "." + key == p;
  }

  /** In the default locale a valid path gives its phrase (test.js lines
      102-105). */
  lemma DefaultLocaleValidPath(fallback: bool, p: string)
    requires p == "greetings.text.hello"
    ensures Resolve(Loaded(), Configured(fallback), Str("en"), p, false) == Ok("hello")
  {
    HelloSplit(p);
    assert Lookup(En(), ["greetings", "text", "hello"]) == Some(Leaf("hello"));
    ResolveFindsLeaf(Loaded(), Configured(fallback), Str("en"), p, false, "hello");
  }

  /** In the default locale a path that stops short inside `greetings`
      gives the path back (lines 107-110). */
  lemma DefaultLocaleInvalidPath(fallback: bool, p: string)
    requires p == "greetings.hello"
    ensures Resolve(Loaded(), Configured(fallback), Str("en"), p, false) == Ok(p)
  {
    TwoSegmentSplit(p, "hello");
    assert Steps(En(), ["greetings", "hello"]) == [Descend, Miss];
    ResolveWithoutFallback(Loaded(), Configured(fallback), Str("en"), p, false);
  }

  /** After switching to `it`, its own phrase is used (lines 114-118). */
  lemma OtherLocalePhrase(p: string)
    requires p == "greetings.text.hello"
    ensures Resolve(Loaded(), Configured(true), Str("it"), p, false) == Ok("ciao")
  {
    HelloSplit(p);
    assert Lookup(It(), ["greetings", "text", "hello"]) == Some(Leaf("ciao"));
    ResolveFindsLeaf(Loaded(), Configured(true), Str("it"), p, false, "ciao");
  }

  /** A phrase only the default locale has comes from `en` under fallback
      (lines 122-130). */
  lemma OtherLocaleFallback(p: string)
    requires p == "greetings.bye"
    ensures Resolve(Loaded(), Configured(true), Str("it"), p, false) == Ok("bye")
  {
    TwoSegmentSplit(p, "bye");
    assert Steps(It(), ["greetings", "bye"]) == [Descend, Miss];
    ResolveFallsBack(Loaded(), Configured(true), Str("it"), p, 1);
    assert Lookup(En(), ["greetings", "bye"]) == Some(Leaf("bye"));
    WalkFindsLeaf(En(), ["greetings", "bye"], p, None, "bye");
  }

  /** Without fallback the same path comes back unchanged (lines 133-141). */
  lemma OtherLocaleNoFallback(p: string)
    requires p == "greetings.bye"
    ensures Resolve(Loaded(), Configured(false), Str("it"), p, false) == Ok(p)
  {
    TwoSegmentSplit(p, "bye");
    assert Steps(It(), ["greetings", "bye"]) == [Descend, Miss];
    ResolveWithoutFallback(Loaded(), Configured(false), Str("it"), p, false);
  }

  /** A path that runs past a phrase string keeps that string: the walk
      does not descend into a string, and the extra segment misses in the
      dictionary that holds it, which changes nothing without fallback. */
  lemma OvershootKeepsPhrase(p: string)
    requires p == "greetings.text.hello.extra"
    ensures Resolve(Loaded(), Configured(true), Str("en"), p, false) == Ok("hello")
  {
    OvershootSplit(p);
    OvershootWalk(p);
  }

  lemma OvershootSplit(p: string)
    requires p == "greetings.text.hello.extra"
    ensures Split(p, '.') == ["greetings", "text", "hello", "extra"]
  {
    SplitPath4("greetings", "text", "hello", "extra");
    assert "greetings" + "." + "text" + "." + "hello" + "." + "extra" == p;
  }

  lemma OvershootWalk(p: string)
    ensures Walk(En(), ["greetings", "text", "hello", "extra"], p, None) == Ok("hello")
  {
  }

  /** The two incomplete configurations of the test suite (test.js lines
      17-29) on a fresh instance: without `defaultLocale` nothing is
      written; without `dir` the `defaultLocale` checked before it stays
      written. Neither touches the locale or the cache. */
  method RejectIncomplete(i18n: I18n) returns (noLocale: Status, noDir: Status)
    requires i18n.config == map[] && i18n.currentLocale == Undefined && i18n.context == map[]
    modifies i18n
    ensures noLocale == Threw(MissingConfig("defaultLocale"))
    ensures noDir == Threw(MissingConfig("dir"))
    ensures i18n.config == map["defaultLocale" := Str("en")]
    ensures i18n.currentLocale == Undefined && i18n.context == map[]
  {
    var missing := map["dir" := Str("locale")];
    ConfigureRules(missing, i18n.config);
    noLocale := i18n.Configure(missing);

    var withoutDir := map["defaultLocale" := Str("en")];
    ConfigureRules(withoutDir, i18n.config);
    noDir := i18n.Configure(withoutDir);
  }

  /** The configuration calls the test suite makes (test.js lines 17-36,
      64-66): a missing `defaultLocale` or `dir` raises, a complete option
      set is stored with `fallback` defaulted, and the default locale is
      current. */
  method ConfigureScenario() returns (i18n: I18n, noLocale: Status, noDir: Status)
    ensures noLocale == Threw(MissingConfig("defaultLocale"))
    ensures noDir == Threw(MissingConfig("dir"))
    ensures fresh(i18n)
    ensures i18n.config == Configured(true) && i18n.currentLocale == Str("en")
    ensures i18n.context == map["en" := En()]
    ensures forall d :: i18n.loader(d, "it.js") == It()
  {
    var load: Loader := (d: string, f: string) => if f == "it.js" then It() else En();
    var fmt: Formatter := (p: string, args: seq<Value>) => p;
    i18n := new I18n(load, fmt);

    noLocale, noDir := RejectIncomplete(i18n);

    var opts := map["defaultLocale" := Str("en"), "dir" := Str("locale")];
    ConfigureRules(opts, i18n.config);
    var st := i18n.Configure(opts);
    assert st == Returned;
    assert i18n.config == Configured(true);
    assert Key(Str("en")) + ".js" == "en.js" && load("locale", "en.js") == En();
    var l := i18n.GetLocale();
    assert l == Str("en");
  }

  /** The locale switch and translations the test suite makes (test.js
      lines 78-86, 114-141) on the instance configured above: `__` in `it`
      with fallback on, then again after `fallback` is switched off the
      way the suite does it, by writing the configuration directly. */
  method TranslateScenario(i18n: I18n) returns (hi: Result<string>, bye: Result<string>, kept: Result<string>)
    requires i18n.config == Configured(true) && i18n.currentLocale == Str("en")
    requires i18n.context == map["en" := En()]
    requires forall d :: i18n.loader(d, "it.js") == It()
    modifies i18n
    ensures i18n.currentLocale == Str("it") && i18n.context == Loaded()
    ensures i18n.config == Configured(false)
    ensures hi == Ok(i18n.format("ciao", []))
    ensures bye == Ok(i18n.format("bye", []))
    ensures kept == Ok(i18n.format("greetings.bye", []))
  {
    var st := i18n.SetLocale(Str("it"));
    assert Key(Str("it")) + ".js" == "it.js";
    assert "it" in i18n.context;
    assert i18n.context == Loaded();
    var hello, goodbye := "greetings.text.hello", "greetings.bye";
    OtherLocalePhrase(hello);
    OtherLocaleFallback(goodbye);
    hi := i18n.Translate(hello, []);
    bye := i18n.Translate(goodbye, []);
    kept := TranslateWithoutFallback(i18n);
  }

  /** The fallback-off case of the test suite (test.js lines 133-141): the
      suite writes `fallback = false` into the configuration directly, and
      `__('greetings.bye')` in `it` then gives the path back. */
  method TranslateWithoutFallback(i18n: I18n) returns (kept: Result<string>)
    requires i18n.config == Configured(true) && i18n.currentLocale == Str("it")
    requires i18n.context == Loaded()
    modifies i18n
    ensures i18n.config == Configured(false)
    ensures i18n.currentLocale == Str("it") && i18n.context == Loaded()
    ensures kept == Ok(i18n.format("greetings.bye", []))
  {
    i18n.config := i18n.config["fallback" := Bool(false)];
    assert i18n.config == Configured(false);
    var goodbye := "greetings.bye";
    OtherLocaleNoFallback(goodbye);
    kept := i18n.Translate(goodbye, []);
  }
}
