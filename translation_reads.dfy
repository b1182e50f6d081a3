/** The read path of the `HasTranslation` trait: looking up a translation row by locale,
    reading a translated attribute with its fallbacks, and the model's attribute and
    array accessors. The loaded `translations` relation is a parameter (`None` when it is
    not loaded); the application's current locale and the catalog are parameters too. */
module TranslationReads {
  import opened PhpValues
  import opened PhpArrays
  import opened PhpStrings
  import LocaleHelper
  import Repository

  /** `Translatable::LANGUAGE`, which `getLanguageColumn()` returns. */
  const LanguageColumn: string := "language"

  /** A translation row: its primary key and its columns. */
  datatype Row = Row(id: nat, columns: Record)

  /** The row's language column (null when absent). */
  function LanguageOf(row: Row): Value {
    Lookup(row.columns, LanguageColumn)
  }

  /** The test of `translation($locale)`: `$translation->language === $locale`. */
  function InLocale(locale: string): Row -> bool {
    row => LanguageOf(row) == Str(locale)
  }

  /** `translation($locale, $shouldTranslate)`: null when the relation is not loaded;
      otherwise the first row in `locale` (the current locale when null) and, failing
      that, the first row when `force` is set, or null. */
  function Translation(loaded: Option<seq<Row>>, locale: Option<string>, force: bool, current: string): (r: Option<Row>)
    ensures loaded.None? ==> r.None?
    ensures loaded.Some? && FirstMatch(loaded.value, InLocale(locale.GetOr(current))).Some? ==>
      r == Some(loaded.value[FirstMatch(loaded.value, InLocale(locale.GetOr(current))).value])
    ensures loaded.Some? && FirstMatch(loaded.value, InLocale(locale.GetOr(current))).None? ==>
      r == if force && loaded.value != [] then Some(loaded.value[0]) else None
    ensures r.Some? ==> r.value in loaded.value
  {
    if loaded.None? then None
    else
      var rows := loaded.value;
      var fallback := if force && rows != [] then Some(rows[0]) else None;
      match First(rows, InLocale(locale.GetOr(current)))
      case Some(row) => Some(row)
      case None => fallback
  }

  /** Without `force`, a found translation is in the requested locale. */
  lemma TranslationIsExact(loaded: Option<seq<Row>>, locale: string, current: string)
    ensures Translation(loaded, Some(locale), false, current).Some? ==>
      LanguageOf(Translation(loaded, Some(locale), false, current).value) == Str(locale)
  {
  }

  /** `hasTranslation($locale)`: the relation is loaded and holds a row in `locale`. */
  function HasTranslation(loaded: Option<seq<Row>>, locale: string, current: string): (r: bool)
    ensures r <==> loaded.Some? && exists i :: 0 <= i < |loaded.value| && LanguageOf(loaded.value[i]) == Str(locale)
  {
    var t := Translation(loaded, Some(locale), false, current);
    assert loaded.Some? && t.None? ==>
      forall i :: 0 <= i < |loaded.value| ==> !InLocale(locale)(loaded.value[i]);
    t.Some?
  }

  /** `data_get($row, $attribute, $default)` for a plain attribute name: the default when
      there is no row, or the column is missing or null. */
  function DataGet(row: Option<Row>, attribute: string, default: Value): (r: Value)
    ensures row.Some? && Lookup(row.value.columns, attribute) != Null ==> r == row.value.columns[attribute]
    ensures row.None? || Lookup(row.value.columns, attribute) == Null ==> r == default
  {
    if row.Some? && attribute in row.value.columns && row.value.columns[attribute] != Null
    then row.value.columns[attribute]
    else default
  }

  /** `getTranslate($attribute, $locale, $default)`: the attribute of the exact-locale row. */
  function GetTranslate(loaded: Option<seq<Row>>, attribute: string, locale: string, default: Value, current: string): (r: Value)
    ensures loaded.None? ==> r == default
    ensures loaded.Some? ==> r == ExactValue(loaded.value, attribute, locale).GetOr(default)
  {
    DataGet(Translation(loaded, Some(locale), false, current), attribute, default)
  }

  /** `hasTranslate($attribute, $locale)`: the exact-locale row (the current locale's when
      null) holds a non-null `attribute`. */
  function HasTranslate(loaded: Option<seq<Row>>, attribute: string, locale: Option<string>, current: string): (r: bool)
    ensures r <==> (Translation(loaded, Some(locale.GetOr(current)), false, current).Some? &&
      Lookup(Translation(loaded, Some(locale.GetOr(current)), false, current).value.columns, attribute) != Null)
  {
    GetTranslate(loaded, attribute, locale.GetOr(current), Null, current) != Null
  }

  /** `shouldTranslate($attribute, $default)`: the attribute of the forced translation for
      the current locale. */
  function ShouldTranslate(loaded: Option<seq<Row>>, attribute: string, default: Value, current: string): (r: Value)
    ensures loaded.None? ==> r == default
    ensures loaded.Some? && FirstMatch(loaded.value, InLocale(current)).Some? ==>
      r == ExactValue(loaded.value, attribute, current).GetOr(default)
    ensures loaded.Some? && FirstMatch(loaded.value, InLocale(current)).None? ==>
      r == if loaded.value != [] && Lookup(loaded.value[0].columns, attribute) != Null
           then loaded.value[0].columns[attribute] else default
  {
    DataGet(Translation(loaded, None, true, current), attribute, default)
  }

  /** `translate($attribute, $locale, $default, $force)`: never fails, and yields either
      the default or a non-null value held by one of the loaded rows. */
  function Translate(loaded: Option<seq<Row>>, attribute: string, locale: string, default: Value, force: bool, current: string): (r: Value)
    ensures r == default || (loaded.Some? && exists row :: row in loaded.value && Lookup(row.columns, attribute) == r && r != Null)
  {
    if !HasTranslate(loaded, attribute, Some(locale), current) && force
    then ShouldTranslate(loaded, attribute, default, current)
    else GetTranslate(loaded, attribute, locale, default, current)
  }

  /** The attribute's value in the first row of `locale`, when that row holds it non-null. */
  function ExactValue(rows: seq<Row>, attribute: string, locale: string): Option<Value> {
    match FirstMatch(rows, InLocale(locale))
    case None => None
    case Some(i) => if Lookup(rows[i].columns, attribute) != Null then Some(rows[i].columns[attribute]) else None
  }

  /** The fallback chain of `translate`, stated case by case over the loaded rows:
      the exact locale wins; without `force` the default follows; with `force`, the
      current locale's row is used if there is one (even when it lacks the attribute),
      else the first row, else the default. */
  lemma TranslateFallback(rows: seq<Row>, attribute: string, locale: string, default: Value, force: bool, current: string)
    ensures ExactValue(rows, attribute, locale).Some? ==>
      Translate(Some(rows), attribute, locale, default, force, current) == ExactValue(rows, attribute, locale).value
    ensures ExactValue(rows, attribute, locale).None? && !force ==>
      Translate(Some(rows), attribute, locale, default, force, current) == default
    ensures ExactValue(rows, attribute, locale).None? && force ==>
      Translate(Some(rows), attribute, locale, default, force, current) ==
        match FirstMatch(rows, InLocale(current))
        case Some(i) => DataGet(Some(rows[i]), attribute, default)
        case None => if rows == [] then default else DataGet(Some(rows[0]), attribute, default)
  {
  }

  /** Nothing is translated while the relation is not loaded. */
  lemma TranslateUnloaded(attribute: string, locale: string, default: Value, force: bool, current: string)
    ensures Translate(None, attribute, locale, default, force, current) == default
  {
  }

  /** `getAttribute($key)`: the model's own value when it is non-null; otherwise the
      translation of `parse($key)`, forced (with fallbacks) only for a key that is not
      suffixed by an active locale. `native` is `parent::getAttribute($key)`. */
  function GetAttribute(native: Value, loaded: Option<seq<Row>>, key: string, current: string, config: Repository.Config): (r: Value)
    ensures native != Null ==> r == native
    ensures native == Null ==>
      var p := LocaleHelper.Parse(key, current, config);
      r == Translate(loaded, p.attribute, p.locale, Null, !p.suffixed, current)
  {
    if native != Null then native
    else
      var p := LocaleHelper.Parse(key, current, config);
      Translate(loaded, p.attribute, p.locale, Null, !p.suffixed, current)
  }

  /** A key `attribute::locale` naming an active locale reads that locale strictly:
      no fallback to another row. */
  lemma GetAttributeSuffixed(loaded: Option<seq<Row>>, a: string, l: string, current: string, config: Repository.Config)
    requires LocaleHelper.AttachSafe(a) && StrTruthy(l)
    requires exists x :: x in LocaleHelper.ActiveLocales(config) && ToStr(Lookup(x, "name")) == l
    ensures GetAttribute(Null, loaded, LocaleHelper.Attach(a, l), current, config) ==
      GetTranslate(loaded, a, l, Null, current)
  {
    LocaleHelper.ParseAttach(a, l, current, config);
  }

  /** A bare key (no `::`) has itself as locale, so unless a row's language is the key
      itself, it reads the forced translation for the current locale. */
  lemma GetAttributeBare(rows: seq<Row>, key: string, current: string, config: Repository.Config)
    requires !Contains(key, LocaleHelper.Separator) && StrTruthy(key)
    requires forall i :: 0 <= i < |rows| ==> LanguageOf(rows[i]) != Str(key)
    ensures GetAttribute(Null, Some(rows), key, current, config) == ShouldTranslate(Some(rows), key, Null, current)
  {
    LocaleHelper.ParseBareKey(key, current, config);
    assert FirstMatch(rows, InLocale(key)).None?;
  }

  /** `attributesToArray()`, as written: the forced translation's columns overridden by
      the model's own attributes. The `_`-prefixed copies the method builds are lost,
      because the closure receives `$difference` by value. */
  function AttributesToArray(attributes: Record, loaded: Option<seq<Row>>, current: string): (r: Record)
    ensures r.Keys == attributes.Keys + TranslatedColumns(loaded, current).Keys
    ensures forall k :: k in attributes ==> r[k] == attributes[k]
    ensures forall k :: k in TranslatedColumns(loaded, current) && k !in attributes ==>
      r[k] == TranslatedColumns(loaded, current)[k]
  {
    TranslatedColumns(loaded, current) + attributes
  }

  /** `(array) optional($this->translation(null, true))->toArray()`. */
  function TranslatedColumns(loaded: Option<seq<Row>>, current: string): Record {
    match Translation(loaded, None, true, current)
    case None => map[]
    case Some(row) => row.columns
  }

  /** The as-written array adds no key: every key comes from the model or the row, so an
      alias `_k` appears only if the row or the model already has a column `_k`. */
  lemma AttributesToArrayAddsNoAliases(attributes: Record, loaded: Option<seq<Row>>, current: string, k: string)
    requires "_" + k !in attributes && "_" + k !in TranslatedColumns(loaded, current)
    ensures "_" + k !in AttributesToArray(attributes, loaded, current)
  {
  }

  /** The aliases the method evidently meant to add: `_k` for each translated column `k`. */
  function Aliases(columns: Record): (r: Record)
    ensures forall k :: k in columns ==> "_" + k in r && r["_" + k] == columns[k]
    ensures forall a :: a in r ==> |a| >= 1 && a[0] == '_' && a[1..] in columns
  {
    map a | a in AliasKeys(columns) :: columns[a[1..]]
  }

  function AliasKeys(columns: Record): (r: set<string>)
    ensures forall k :: k in columns ==> "_" + k in r
    ensures forall a :: a in r ==> |a| >= 1 && a[0] == '_' && a[1..] in columns
  {
    var r := set k | k in columns :: "_" + k;
    assert forall k :: k in columns ==> ("_" + k)[1..] == k;
    r
  }

  /** `attributesToArray()` with `$difference` captured by reference: the aliases, then
      the translated columns, then the model's attributes, each overriding the previous. */
  function AttributesToArrayWithAliases(attributes: Record, loaded: Option<seq<Row>>, current: string): (r: Record)
    ensures forall k :: k in attributes ==> k in r && r[k] == attributes[k]
    ensures forall k :: k in TranslatedColumns(loaded, current) && k !in attributes ==>
      k in r && r[k] == TranslatedColumns(loaded, current)[k]
    ensures forall k :: k in TranslatedColumns(loaded, current) ==> "_" + k in r
  {
    Aliases(TranslatedColumns(loaded, current)) + TranslatedColumns(loaded, current) + attributes
  }

  /** With `_k` free in both the row and the model, the corrected array carries `_k`
      with the translated value of `k`; the as-written one does not carry it at all. */
  lemma AliasDifference(attributes: Record, loaded: Option<seq<Row>>, current: string, k: string)
    requires k in TranslatedColumns(loaded, current)
    requires "_" + k !in attributes && "_" + k !in TranslatedColumns(loaded, current)
    ensures AttributesToArrayWithAliases(attributes, loaded, current)["_" + k] == TranslatedColumns(loaded, current)[k]
    ensures "_" + k !in AttributesToArray(attributes, loaded, current)
  {
  }

  /** The fallback chain in a concrete case: rows in `en` and `fa`, current locale `de`.
      `title` (a bare key) falls back to the first row; `title::fa` reads `fa`; a
      suffixed key of an inactive locale is forced and falls back too. */
  lemma ReadScenario()
    ensures
      var rows := [Row(1, map[LanguageColumn := Str("en"), "title" := Str("Hello")]),
                   Row(2, map[LanguageColumn := Str("fa"), "title" := Str("Salam")])];
      Translate(Some(rows), "title", "title", Null, true, "de") == Str("Hello") &&
      Translate(Some(rows), "title", "fa", Null, false, "de") == Str("Salam") &&
      Translate(Some(rows), "title", "de", Null, false, "de") == Null &&
      Translate(Some(rows), "title", "de", Null, true, "fa") == Str("Salam")
  {
    var en := Row(1, map[LanguageColumn := Str("en"), "title" := Str("Hello")]);
    var fa := Row(2, map[LanguageColumn := Str("fa"), "title" := Str("Salam")]);
    var rows := [en, fa];
    assert LanguageOf(en) == Str("en") && LanguageOf(fa) == Str("fa");
    assert Str("en") != Str("title") && Str("fa") != Str("title");
    assert Str("en") != Str("de") && Str("fa") != Str("de");
    assert FirstMatch(rows, InLocale("title")).None?;
    assert FirstMatch(rows, InLocale("de")).None?;
    assert FirstMatch(rows, InLocale("fa")) == Some(1);
  }
}
