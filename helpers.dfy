/** The global helper functions: the default locale, catalog listings and lookups,
    and locale-prefixed URLs. The application's current locale and the configuration
    and environment values they read are parameters. */
module Helpers {
  import opened PhpValues
  import opened PhpStrings
  import PhpArrays
  import Repository
  import LocaleHelper

  /** `default_locale()`: the configured `localization.default_locale` when the key is
      set (whatever its value), else the `LOCALE` environment variable, else `"fa"`. */
  function DefaultLocale(configured: Option<Value>, env: Option<string>): (r: Value)
    ensures configured.Some? ==> r == configured.value
    ensures configured.None? && env.Some? ==> r == Str(env.value)
    ensures configured.None? && env.None? ==> r == Str("fa")
  {
    configured.GetOr(Str(env.GetOr("fa")))
  }

  /** The test of `configured_locales($active)`: everything when `active` is false,
      otherwise entries whose `active` is truthy, a missing one counting as true. */
  function ConfiguredTest(active: bool): Record -> bool {
    x => !active || Truthy(ArrGet(x, "active", Bool(true)))
  }

  /** `configured_locales($active)`: the catalog's normalised entries that pass the test,
      in catalog order. */
  function ConfiguredLocales(config: Repository.Config, active: bool): (r: seq<Record>)
    ensures forall x :: x in r <==> x in Repository.All(config) && (!active || Truthy(ArrGet(x, "active", Bool(true))))
    ensures PhpArrays.IsSubsequence(r, Repository.All(config))
  {
    Repository.Filter(config, ConfiguredTest(active))
  }

  /** Without `active`, every catalog entry is listed. */
  lemma ConfiguredLocalesAll(config: Repository.Config)
    ensures ConfiguredLocales(config, false) == Repository.All(config)
  {
    PhpArrays.FilterAll(Repository.All(config), ConfiguredTest(false));
  }

  /** With `active`, the listing is exactly `LocaleHelper::activeLocales()`: normalised
      entries always carry `active`, so its default never applies. */
  lemma ConfiguredLocalesActive(config: Repository.Config)
    ensures ConfiguredLocales(config, true) == LocaleHelper.ActiveLocales(config)
  {
    var all := Repository.All(config);
    forall x | x in all
      ensures ConfiguredTest(true)(x) == LocaleHelper.IsActive(x)
    {
      var i :| 0 <= i < |all| && all[i] == x;
      assert "active" in Repository.Defaults(config[i].0);
    }
    PhpArrays.FilterCongruent(all, ConfiguredTest(true), LocaleHelper.IsActive);
  }

  /** The test of `the_language($name)`: `$language->name == $name`, loosely. */
  function LooselyNamed(name: string): Record -> bool {
    x => LooseEqualsString(Lookup(x, "name"), name)
  }

  /** The test of `active_language()`: `$language->name === app()->getLocale()`. */
  function StrictlyNamed(name: string): Record -> bool {
    x => Lookup(x, "name") == Str(name)
  }

  /** `the_language($name)`: the first catalog entry whose name loosely equals `name`,
      or null. */
  function TheLanguage(config: Repository.Config, name: string): (r: Option<Record>)
    ensures r.Some? ==> r.value in Repository.All(config) && LooseEqualsString(Lookup(r.value, "name"), name)
    ensures r == PhpArrays.First(Repository.All(config), LooselyNamed(name))
  {
    ConfiguredLocalesAll(config);
    PhpArrays.First(ConfiguredLocales(config, false), LooselyNamed(name))
  }

  /** `active_language()`, with the current locale as a parameter: the first catalog
      entry whose name is exactly `current`, or null. */
  function ActiveLanguage(config: Repository.Config, current: string): (r: Option<Record>)
    ensures r.Some? ==> r.value in Repository.All(config) && Lookup(r.value, "name") == Str(current)
    ensures r == PhpArrays.First(Repository.All(config), StrictlyNamed(current))
  {
    ConfiguredLocalesAll(config);
    PhpArrays.First(ConfiguredLocales(config, false), StrictlyNamed(current))
  }

  /** `active_language()` agrees with `Repository::get` on a known locale and is null on an
      unknown one, where `get` would synthesise a record instead. */
  lemma ActiveLanguageIsGet(config: Repository.Config, current: string)
    ensures (exists x :: x in Repository.All(config) && Lookup(x, "name") == Str(current)) ==>
      ActiveLanguage(config, current) == Some(Repository.Get(config, current))
    ensures (forall x :: x in Repository.All(config) ==> Lookup(x, "name") != Str(current)) ==>
      ActiveLanguage(config, current) == None
  {
    var all := Repository.All(config);
    PhpArrays.FilterHeadIsFirstMatch(all, StrictlyNamed(current));
    PhpArrays.FilterHeadIsFirstMatch(all, Repository.NamedAs(current));
    PhpArrays.FilterCongruent(all, StrictlyNamed(current), Repository.NamedAs(current));
    if x :| x in all && Lookup(x, "name") == Str(current) {
      var i :| 0 <= i < |all| && all[i] == x;
      assert StrictlyNamed(current)(all[i]);
    }
  }

  /** When every catalog name is a string, `the_language($n)` is the strict lookup. */
  lemma TheLanguageOnStringNames(config: Repository.Config, name: string)
    requires forall x :: x in Repository.All(config) ==> Lookup(x, "name").Str?
    ensures TheLanguage(config, name) == ActiveLanguage(config, name)
  {
    var all := Repository.All(config);
    PhpArrays.FilterHeadIsFirstMatch(all, LooselyNamed(name));
    PhpArrays.FilterHeadIsFirstMatch(all, StrictlyNamed(name));
    PhpArrays.FilterCongruent(all, LooselyNamed(name), StrictlyNamed(name));
  }

  /** Loose comparison lets a boolean name match any truthy request: an entry whose
      `name` is `true` answers `the_language("en")`. */
  lemma TheLanguageLooseBoolean()
    ensures TheLanguage([("x", map["name" := Bool(true)])], "en") ==
      Some(Repository.Normalize("x", map["name" := Bool(true)]))
  {
    var entry := Repository.Normalize("x", map["name" := Bool(true)]);
    assert Repository.All([("x", map["name" := Bool(true)])]) == [entry];
    assert LooselyNamed("en")(entry);
  }

  /** Under PHP 7's loose comparison an entry whose `name` is the integer 0 answers any
      request without a leading number: `the_language("en")` finds it. */
  lemma TheLanguageLooseZero()
    ensures TheLanguage([("x", map["name" := Int(0)])], "en") ==
      Some(Repository.Normalize("x", map["name" := Int(0)]))
  {
    var entry := Repository.Normalize("x", map["name" := Int(0)]);
    assert Repository.All([("x", map["name" := Int(0)])]) == [entry];
    LooseIntegerComparison(0);
    assert LooselyNamed("en")(entry);
  }

  /** The result of `language($language, $active)`: one entry (or null) for a name,
      the listing otherwise. */
  datatype LanguageResult = One(entry: Option<Record>) | Many(entries: seq<Record>)

  /** `language($language, $active)`: a given name is looked up with `the_language`,
      which ignores `active`; no name lists the configured locales. */
  function Language(config: Repository.Config, language: Option<string>, active: bool): (r: LanguageResult)
    ensures language.Some? ==> r == One(TheLanguage(config, language.value))
    ensures language.None? ==> r == Many(ConfiguredLocales(config, active))
  {
    if language.Some? then One(TheLanguage(config, language.value))
    else Many(ConfiguredLocales(config, active))
  }

  /** `localized_url($url)`, with the current locale as a parameter: the URL unchanged
      when one of its `/`-separated segments is the locale, otherwise the locale, a `/`,
      and the URL with leading and trailing slashes removed. */
  function LocalizedUrl(url: string, current: string): (r: string)
    ensures current in Explode(url, '/') ==> r == url
    ensures current !in Explode(url, '/') ==> r == current + "/" + Trim(url, '/')
  {
    if current in Explode(url, '/') then url else current + "/" + Trim(url, '/')
  }

  /** For a locale without `/`, the result always has the locale as a segment. */
  lemma LocalizedUrlHasLocale(url: string, current: string)
    requires '/' !in current
    ensures current in Explode(LocalizedUrl(url, current), '/')
  {
    if current !in Explode(url, '/') {
      ExplodeHead(current, Trim(url, '/'), '/');
    }
  }

  /** For a locale without `/`, `localized_url` is idempotent. */
  lemma LocalizedUrlIdempotent(url: string, current: string)
    requires '/' !in current
    ensures LocalizedUrl(LocalizedUrl(url, current), current) == LocalizedUrl(url, current)
  {
    LocalizedUrlHasLocale(url, current);
  }

  /** A locale containing `/` is never a segment, so every call prefixes it again. */
  lemma LocalizedUrlSlashLocale(url: string, current: string)
    requires '/' in current
    ensures LocalizedUrl(url, current) == current + "/" + Trim(url, '/')
  {
    assert current !in Explode(url, '/');
  }

  /** So with locale `a/b`, `x` becomes `a/b/x` and then `a/b/a/b/x`. */
  lemma LocalizedUrlSlashExample()
    ensures LocalizedUrl("x", "a/b") == "a/b/x"
    ensures LocalizedUrl("a/b/x", "a/b") == "a/b/a/b/x"
  {
    assert "a/b"[1] == '/';
    assert Trim("x", '/') == "x";
    assert Trim("a/b/x", '/') == "a/b/x";
  }
}
