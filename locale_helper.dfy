/** `LocaleHelper`: the `attribute::locale` key convention. A key such as `title::fa`
    names attribute `title` in locale `fa`; a key is "suffixed" when it ends with
    `::name` for the name of an active locale of the catalog. */
module LocaleHelper {
  import opened PhpValues
  import opened PhpStrings
  import PhpArrays
  import Repository

  /** The attribute/locale separator. */
  const Separator: string := "::"

  /** `attach($key, $locale)`. */
  function Attach(key: string, locale: string): (r: string)
    ensures |r| == |key| + |Separator| + |locale|
    ensures r[..|key|] == key && r[|key|..|key| + |Separator|] == Separator && r[|key| + |Separator|..] == locale
  {
    key + Separator + locale
  }

  /** `detach($key, $locale)`: the part before the first separator when `wantAttribute`,
      the part after it otherwise; a key without separator comes back whole either way. */
  function Detach(key: string, wantAttribute: bool): (r: string)
    ensures !Contains(key, Separator) ==> r == key
    ensures Contains(key, Separator) ==>
      var i := IndexOf(key, Separator).value;
      r == if wantAttribute then key[..i] else key[i + |Separator|..]
  {
    if wantAttribute then Before(key, Separator) else After(key, Separator)
  }

  /** The activity test of `activeLocales()`: `boolval($locale['active'])`. */
  predicate IsActive(locale: Record) {
    Truthy(Lookup(locale, "active"))
  }

  /** `activeLocales()`: the normalised catalog entries that are active, in order. */
  function ActiveLocales(config: Repository.Config): (r: seq<Record>)
    ensures forall x :: x in r <==> x in Repository.All(config) && Truthy(Lookup(x, "active"))
  {
    Repository.Filter(config, IsActive)
  }

  /** `activeLocales()` keeps catalog order: it is a subsequence of `all()` with one
      entry per active position. */
  lemma {:induction false} ActiveLocalesInOrder(config: Repository.Config)
    ensures PhpArrays.IsSubsequence(ActiveLocales(config), Repository.All(config))
    ensures |ActiveLocales(config)| == PhpArrays.CountWhere(Repository.All(config), IsActive)
  {
    PhpArrays.FilterIsSubsequence(Repository.All(config), IsActive);
  }

  /** The suffix a locale contributes: `attach('', $locale['name'])`. */
  function SuffixOf(locale: Record): (r: string)
    ensures |r| >= |Separator| && r[..|Separator|] == Separator
  {
    Attach("", ToStr(Lookup(locale, "name")))
  }

  /** `suffixes()`: one suffix per active locale, in catalog order. */
  function Suffixes(config: Repository.Config): (r: seq<string>)
    ensures |r| == |ActiveLocales(config)|
    ensures forall k :: 0 <= k < |r| ==> r[k] == Separator + ToStr(Lookup(ActiveLocales(config)[k], "name"))
  {
    SuffixList(ActiveLocales(config))
  }

  function SuffixList(locales: seq<Record>): (r: seq<string>)
    ensures |r| == |locales|
    ensures forall k :: 0 <= k < |r| ==> r[k] == SuffixOf(locales[k])
  {
    if locales == [] then [] else [SuffixOf(locales[0])] + SuffixList(locales[1..])
  }

  /** `hasSuffixes($key, $suffixes)`: an empty list of suffixes means the active locales' ones. */
  function HasSuffixes(key: string, given: seq<string>, config: Repository.Config): (r: bool)
    ensures given != [] ==> (r <==> exists k :: 0 <= k < |given| && EndsWithNeedle(key, given[k]))
  {
    EndsWithAny(key, if given == [] then Suffixes(config) else given)
  }

  /** A key ends with one of the suffixes of `locales` exactly when it ends with the
      suffix of one of them. */
  lemma EndsWithSomeSuffix(key: string, locales: seq<Record>)
    ensures EndsWithAny(key, SuffixList(locales)) <==>
      exists x :: x in locales && EndsWith(key, SuffixOf(x))
  {
    var suffixes := SuffixList(locales);
    if EndsWithAny(key, suffixes) {
      var k :| 0 <= k < |suffixes| && EndsWithNeedle(key, suffixes[k]);
      assert locales[k] in locales && EndsWith(key, SuffixOf(locales[k]));
    }
    if x :| x in locales && EndsWith(key, SuffixOf(x)) {
      var k :| 0 <= k < |locales| && locales[k] == x;
      assert EndsWithNeedle(key, suffixes[k]);
    }
  }

  /** Without explicit suffixes, a key is suffixed exactly when it ends with `::name`
      for some active locale; with no active locale nothing is suffixed. */
  lemma HasSuffixesIff(key: string, config: Repository.Config)
    ensures HasSuffixes(key, [], config) <==>
      exists x :: x in ActiveLocales(config) && EndsWith(key, SuffixOf(x))
    ensures ActiveLocales(config) == [] ==> !HasSuffixes(key, [], config)
  {
    EndsWithSomeSuffix(key, ActiveLocales(config));
  }

  /** The result of `parse($key)`: attribute, locale, and whether the key is suffixed. */
  datatype Parsed = Parsed(attribute: string, locale: string, suffixed: bool)

  /** `parse($key)`, with the application's current locale `current` as a parameter: the
      locale part falls back to `current` only when it is falsy (`""` or `"0"`). */
  function Parse(key: string, current: string, config: Repository.Config): (r: Parsed)
    ensures r.attribute == Detach(key, true) && r.suffixed == HasSuffixes(key, [], config)
    ensures StrTruthy(Detach(key, false)) ==> r.locale == Detach(key, false)
    ensures !StrTruthy(Detach(key, false)) ==> r.locale == current
  {
    var l := Detach(key, false);
    Parsed(Detach(key, true), if StrTruthy(l) then l else current, HasSuffixes(key, [], config))
  }

  /** An attribute name that survives `attach` then `detach`: no separator inside, and
      no trailing `:` that would merge with the separator. */
  predicate AttachSafe(a: string) {
    !Contains(a, Separator) && !EndsWith(a, ":")
  }

  /** In an attached key the first separator is the one `attach` inserted. */
  lemma {:induction false} AttachSeparatorAt(a: string, l: string)
    requires AttachSafe(a)
    ensures IndexOf(Attach(a, l), Separator) == Some(|a|)
  {
    var s := Attach(a, l);
    assert OccursAt(s, Separator, |a|) by {
      assert s[|a|..|a| + 2] == Separator;
    }
    forall j | 0 <= j < |a|
      ensures !OccursAt(s, Separator, j)
    {
      if j + 2 <= |a| {
        assert !OccursAt(a, Separator, j);
        assert s[j..j + 2] == a[j..j + 2];
      } else {
        assert j == |a| - 1;
        assert a[|a| - 1..] == [a[|a| - 1]];
        assert a[|a| - 1] != ':';
        assert s[j] == a[j];
        assert s[j..j + 2][0] == s[j];
      }
    }
    IndexOfAt(s, Separator, |a|);
  }

  /** `detach` inverts `attach` for a safe attribute name and any locale. */
  lemma DetachAttach(a: string, l: string)
    requires AttachSafe(a)
    ensures Detach(Attach(a, l), true) == a
    ensures Detach(Attach(a, l), false) == l
  {
    var s := Attach(a, l);
    AttachSeparatorAt(a, l);
    assert s[..|a|] == a;
    assert s[|a| + 2..] == l;
  }

  /** An attribute ending in `:` does not survive: `x:` attached to `y` detaches as `x`
      and `:y`, because the first `::` starts inside the attribute. */
  lemma TrailingColonBreaksDetach()
    ensures Attach("x:", "y") == "x:::y"
    ensures Detach(Attach("x:", "y"), true) == "x"
    ensures Detach(Attach("x:", "y"), false) == ":y"
  {
    var s := Attach("x:", "y");
    assert s == "x:::y";
    assert s[0] == 'x';
    assert !OccursAt(s, Separator, 0);
    assert OccursAt(s, Separator, 1);
    IndexOfAt(s, Separator, 1);
  }

  /** A key without separator cannot end with a suffix that starts with the separator. */
  lemma NoSeparatorNoSuffix(key: string, suffix: string)
    requires !Contains(key, Separator)
    requires |suffix| >= |Separator| && suffix[..|Separator|] == Separator
    ensures !EndsWith(key, suffix)
  {
    if |suffix| <= |key| {
      var j := |key| - |suffix|;
      assert !OccursAt(key, Separator, j);
      assert key[j..j + |Separator|] == key[j..][..|Separator|];
    }
  }

  /** A key without separator parses as attribute and locale both equal to the key (the
      key itself when truthy, otherwise the current locale), and is not suffixed. */
  lemma ParseBareKey(key: string, current: string, config: Repository.Config)
    requires !Contains(key, Separator)
    ensures Parse(key, current, config) ==
      Parsed(key, if StrTruthy(key) then key else current, false)
  {
    HasSuffixesIff(key, config);
    forall x | x in ActiveLocales(config)
      ensures !EndsWith(key, SuffixOf(x))
    {
      NoSeparatorNoSuffix(key, SuffixOf(x));
    }
    assert !HasSuffixes(key, [], config);
  }

  /** An attached key whose locale is the name of an active locale is suffixed. */
  lemma AttachedKeySuffixed(a: string, l: string, config: Repository.Config)
    requires exists x :: x in ActiveLocales(config) && ToStr(Lookup(x, "name")) == l
    ensures HasSuffixes(Attach(a, l), [], config)
  {
    var key := Attach(a, l);
    var x :| x in ActiveLocales(config) && ToStr(Lookup(x, "name")) == l;
    assert SuffixOf(x) == Separator + l;
    assert key[|key| - |Separator + l|..] == Separator + l;
    assert EndsWith(key, SuffixOf(x));
    HasSuffixesIff(key, config);
  }

  /** `parse(attach($a, $l))` recovers `a` and `l` and reports the key as suffixed,
      when `a` is safe, `l` is truthy and `l` is the name of an active locale. */
  lemma ParseAttach(a: string, l: string, current: string, config: Repository.Config)
    requires AttachSafe(a) && StrTruthy(l)
    requires exists x :: x in ActiveLocales(config) && ToStr(Lookup(x, "name")) == l
    ensures Parse(Attach(a, l), current, config) == Parsed(a, l, true)
  {
    DetachAttach(a, l);
    AttachedKeySuffixed(a, l, config);
  }

  /** The catalog of the scenario below: `en` (active by default) and an inactive `fa`. */
  function EnAndInactiveFa(): Repository.Config {
    [("en", map[]), ("fa", map["active" := Bool(false)])]
  }

  lemma EnAndInactiveFaActive()
    ensures ActiveLocales(EnAndInactiveFa()) == [Repository.Normalize("en", map[])]
  {
    var en := Repository.Normalize("en", map[]);
    var fa := Repository.Normalize("fa", map["active" := Bool(false)]);
    var all := Repository.All(EnAndInactiveFa());
    assert all == [en, fa];
    assert IsActive(en) && !IsActive(fa);
    assert all[1..] == [fa];
    assert PhpArrays.Filter([fa], IsActive) == [];
  }

  lemma EnAndInactiveFaSuffixes()
    ensures Suffixes(EnAndInactiveFa()) == ["::en"]
  {
    EnAndInactiveFaActive();
    var en := Repository.Normalize("en", map[]);
    assert SuffixOf(en) == "::en";
  }

  lemma TitleIsSafe()
    ensures AttachSafe("title")
  {
    assert !EndsWith("title", ":");
    forall j | 0 <= j <= |"title"| ensures !OccursAt("title", Separator, j) {
      if j + 2 <= 5 {
        assert "title"[j] != ':';
      }
    }
  }

  /** `title::fa` does not end with `::en`, the only suffix of the scenario's catalog. */
  lemma TitleFaNotSuffixed()
    ensures !HasSuffixes("title::fa", [], EnAndInactiveFa())
  {
    EnAndInactiveFaSuffixes();
    var key := "title::fa";
    assert key[|key| - 4..] == "::fa";
    assert "::fa"[2] != "::en"[2];
    assert !EndsWithNeedle(key, "::en");
  }

  /** A key naming an inactive locale is not suffixed: with `en` active and `fa`
      inactive, `title::fa` parses to attribute `title` and locale `fa`, unsuffixed. */
  lemma InactiveLocaleNotSuffixed(current: string)
    ensures Parse("title::fa", current, EnAndInactiveFa()) == Parsed("title", "fa", false)
  {
    TitleIsSafe();
    assert Attach("title", "fa") == "title::fa";
    DetachAttach("title", "fa");
    TitleFaNotSuffixed();
    assert StrTruthy("fa");
  }
}
