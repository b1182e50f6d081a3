# Localization: translation resolution and staged writes

This project models the core of the `armincms/localization` Laravel package in Dafny and
proves properties of that model. The core has four parts:

- **Locale keys** (`LocaleHelper`). A key such as `title::fa` names the attribute `title` in
  the locale `fa`. `attach` and `detach` build and split keys. `parse` turns a key into an
  attribute, a locale and a flag saying whether the key ends with `::name` for an active
  locale.
- **Locale catalog** (`Repository`). This is the ordered configuration map
  `localization.locales`, from locale key to data record. Reads normalise each record with
  defaults. `get` never fails. `set` writes a normalised record back.
- **Translation store** (the `HasTranslation` trait), split into two parts:
  - The read path looks up a locale's translation row in the loaded relation and falls back
    to other rows when asked.
  - The write path stages values in a buffer `locale -> (attribute -> value)`. On `saved` it
    flushes each staged locale, which creates, updates or deletes that locale's row or does
    nothing. On `deleting` it removes all the owner's rows unless the delete is a soft one.
- **Helpers** (`helpers.php`): the default locale, catalog listings and lookups, and
  locale-prefixed URLs.

## Modules

- `php_values.dfy`: PHP scalars, truthiness (`""` and `"0"` are falsy), string conversion,
  and loose comparison with a string.
- `php_arrays.dfy`: `array_filter` as an order-preserving filter, first match, and
  string-keyed ordered arrays (`$a[$k] = $v`, `unset`), whose keys keep insertion order.
- `php_strings.dfy`: Laravel's `Str::before`, `Str::after` and `Str::endsWith` (as in
  Laravel 5.x), and PHP's `strtoupper`, `explode` and `trim` with one delimiter character.
- `repository.dfy`, `locale_helper.dfy`, `helpers.dfy`: the catalog, the key codec and the
  helpers, as pure functions. `Repository.Repository` is the mutable configuration store
  that `set` writes.
- `translation_reads.dfy`: the read path, as pure functions over the loaded relation.
- `translation_writes.dfy`: the write path. Each step is first specified as a function on a
  `StoreState`. The class `TranslationStore` then performs the steps in place. Its fields are:
  - the loaded `translations` relation;
  - the owner's `table` rows;
  - the next primary key;
  - the staging buffer.

Parameters stand for ambient inputs:

- The application's current locale (`app()->getLocale()`) is the `current` parameter.
- The catalog (`localization.locales`) is a `Config` value.
- The settings `localization.default_locale` and `localization.clean_translations` and the
  `LOCALE` environment variable are `Option` values (`None` when unset).
- Whether the model class uses `SoftDeletes` is a constant of the store.

Two behaviours of the code are easy to misread:

- **`detach` without a separator.** `detach($key, false)` on a key without `::` returns the
  whole key, because `Str::after` does so, not the empty string. So `parse("title")` has the
  locale `title`. It falls back to the current locale only when the text after `::` is `""`
  or `"0"` (`LocaleHelper.ParseBareKey`).
- **No `_` aliases.** `attributesToArray` produces no `_`-prefixed aliases, because the
  closure captures `$difference` by value (see Findings).

## Model

| member | source | states |
|---|---|---|
| LocaleHelper.Attach | src/LocaleHelper.php:38-41 | The key is the attribute, then the separator `::`, then the locale, and nothing else. |
| LocaleHelper.Detach | src/LocaleHelper.php:50-55 | A key without `::` comes back whole in both modes. Otherwise the attribute is the text before the first `::` and the locale is the text after it. |
| LocaleHelper.DetachAttach | src/LocaleHelper.php:38-55 | `detach(attach(a, l), true) == a` and `detach(attach(a, l), false) == l`, for any `a` with no `::` inside and no trailing `:`, and any `l`. |
| LocaleHelper.TrailingColonBreaksDetach | src/LocaleHelper.php:38-55 | The trailing-`:` condition is needed: `attach("x:", "y")` is `x:::y`, which detaches as `x` and `:y`. |
| LocaleHelper.ActiveLocales | src/LocaleHelper.php:88-93 | An entry is active exactly when it is a normalised catalog entry whose `active` is truthy. |
| LocaleHelper.ActiveLocalesInOrder | src/LocaleHelper.php:88-93 | The active locales are an order-preserving subsequence of `all()`, with one element per active entry. |
| LocaleHelper.SuffixOf | src/LocaleHelper.php:78-80 | A locale's suffix starts with the separator `::`. |
| LocaleHelper.Suffixes | src/LocaleHelper.php:76-81 | There is one suffix per active locale, in catalog order. Each is `::` followed by that locale's name. |
| LocaleHelper.HasSuffixes | src/LocaleHelper.php:64-69 | With explicit suffixes, a key is suffixed exactly when it ends with one of them. An empty needle matches only an empty key. |
| LocaleHelper.HasSuffixesIff | src/LocaleHelper.php:64-81 | With no explicit suffixes, a key is suffixed exactly when it ends with `::name` for some active locale. With no active locale, no key is suffixed. |
| LocaleHelper.Parse | src/LocaleHelper.php:22-29 | The attribute is `detach(k, true)` and `suffixed` is `hasSuffixes(k)`. The locale is `detach(k, false)` when that is truthy, and the current locale otherwise. |
| LocaleHelper.ParseBareKey | src/LocaleHelper.php:22-29 | A key without `::` parses to the key as attribute, the key (or the current locale when the key is falsy) as locale, and not suffixed. |
| LocaleHelper.ParseAttach | src/LocaleHelper.php:22-29 | `parse(attach(a, l)) == (a, l, true)` for a safe `a` and a truthy `l` that names an active locale. |
| LocaleHelper.InactiveLocaleNotSuffixed | src/LocaleHelper.php:22-29 | Take a catalog with `en` active and `fa` inactive. Then `title::fa` parses to `title`, `fa` and not suffixed. |
| Repository.Normalize | src/Repository.php:93-103 | The keys are the six defaults plus the data's keys. Every data value overrides its default. Each default left unset has its value: `locale`, `name` and `icon` are the name, `label` is the upper-cased name, `flag` is null, `active` is true. |
| Repository.NormalizeIdempotent | src/Repository.php:95-102 | `normalize(n, normalize(n, d)) == normalize(n, d)`. |
| Repository.All | src/Repository.php:59-64 | `all()` has the same length and order as the configuration. Each element is normalised under its own key. |
| Repository.Filter | src/Repository.php:71-74 | The result holds exactly the elements of `all()` that satisfy the callback. It is an order-preserving subsequence of `all()`. |
| Repository.Get | src/Repository.php:29-36 | `get(n)` never fails and always has the name `n`. It is the first normalised entry named `n` in configuration order, or `normalize(n, [])` when no entry is named `n`. |
| Repository.SetThenGet | src/Repository.php:29-52 | After `set(n, d)`, `get(n)` returns `normalize(n, d)`. This holds when `d` keeps the name and no entry before the written position is named `n`. |
| Repository.Repository.Set | src/Repository.php:45-52 | The store holds `normalize(n, d)` under key `n`, at its old position or appended. Every other key reads as before, and `get(n)` then returns the stored record (same conditions as `SetThenGet`). |
| Repository.Repository.constructor | src/Repository.php:18-21 | The store starts with the given configuration. |
| Helpers.DefaultLocale | src/helpers.php:9-12 | The result is the configured default when that key is set (whatever its value). Otherwise it is `LOCALE` when that is set, and `"fa"` otherwise. |
| Helpers.ConfiguredLocales | src/helpers.php:22-27 | An entry is listed exactly when it is a catalog entry and either `active` is off or the entry's `active` is truthy (a missing `active` counts as true). The listing keeps catalog order. |
| Helpers.ConfiguredLocalesAll | src/helpers.php:22-27 | Without `active`, the listing is all of `all()`. |
| Helpers.ConfiguredLocalesActive | src/helpers.php:22-27 | With `active`, the listing equals `LocaleHelper::activeLocales()`. |
| Helpers.TheLanguage | src/helpers.php:37-42 | The result is the first catalog entry whose name loosely equals `n`, or null. |
| Helpers.TheLanguageOnStringNames | src/helpers.php:37-42 | When every name is a string, `the_language(n)` gives the same result as the strict lookup of `active_language`. |
| Helpers.TheLanguageLooseBoolean | src/helpers.php:37-42 | An entry named `true` answers `the_language("en")`, because the comparison is loose. |
| Helpers.TheLanguageLooseZero | src/helpers.php:37-42 | Under PHP 7's rule, an entry named by the integer 0 answers `the_language("en")`. |
| PhpValues.LeadingIntOfDecimal | src/helpers.php:40 | An integer compared loosely with its own decimal string reads back as itself. |
| PhpValues.LooseIntegerComparison | src/helpers.php:40 | An integer equals its decimal string. A string without a leading number equals 0, and a leading number decides alone (`5 == "5abc"`). |
| Helpers.ActiveLanguage | src/helpers.php:70-75 | The result is the first catalog entry whose name is exactly the current locale, or null. |
| Helpers.ActiveLanguageIsGet | src/helpers.php:70-75 | For a known locale, `active_language()` is `Repository::get(current)`. For an unknown locale it is null. |
| Helpers.Language | src/helpers.php:52-61 | Given a name, the result is `the_language(name)` and `active` is ignored. Without a name, it is the `configured_locales(active)` listing. |
| Helpers.LocalizedUrl | src/helpers.php:127-132 | The URL comes back unchanged when one of its `/` segments is the locale. Otherwise the result is the locale, `/`, and the URL with its leading and trailing `/` trimmed. |
| Helpers.LocalizedUrlHasLocale | src/helpers.php:129-131 | For a locale without `/`, the locale is always a segment of the result. |
| Helpers.LocalizedUrlIdempotent | src/helpers.php:129-131 | For a locale without `/`, applying `localized_url` twice gives the same result as applying it once. |
| Helpers.LocalizedUrlSlashLocale | src/helpers.php:129-131 | A locale with `/` is never a segment, so every call prefixes it again: the result is the locale, `/` and the trimmed URL. |
| Helpers.LocalizedUrlSlashExample | src/helpers.php:129-131 | Example: with locale `a/b`, `x` becomes `a/b/x` and then `a/b/a/b/x`. |
| PhpStrings.Trim | src/helpers.php:131 | `trim($url, '/')` drops exactly the leading and trailing `/`. The result neither starts nor ends with `/`. |
| TranslationReads.Translation | src/Concerns/HasTranslation.php:142-155 | The result is null when the relation is not loaded. Otherwise it is the first row whose language is `locale` (the current locale when null). With no such row it is the first row when forced, and null otherwise. It is always a loaded row. |
| TranslationReads.TranslationIsExact | src/Concerns/HasTranslation.php:148-154 | An unforced result is in the requested locale. |
| TranslationReads.HasTranslation | src/Concerns/HasTranslation.php:163-166 | True exactly when the relation is loaded and holds a row in the locale. |
| TranslationReads.DataGet | src/Concerns/HasTranslation.php:210-213 | The result is the column's value when the column is present and non-null, and the default otherwise. |
| TranslationReads.GetTranslate | src/Concerns/HasTranslation.php:210-213 | The attribute's non-null value in the first row of the locale, with no fallback. The default when no such value exists or the relation is not loaded. |
| TranslationReads.ShouldTranslate | src/Concerns/HasTranslation.php:223-226 | The current locale's non-null value when that locale has a row. Otherwise the first row's non-null value, else the default. |
| TranslationReads.HasTranslate | src/Concerns/HasTranslation.php:195-200 | True exactly when the exact-locale row (the current locale's when null) holds the attribute non-null. |
| TranslationReads.Translate | src/Concerns/HasTranslation.php:177-186 | `translate` never fails. It returns the default or a non-null value that some loaded row holds for the attribute. |
| TranslationReads.TranslateFallback | src/Concerns/HasTranslation.php:177-226 | The exact locale's non-null value wins. Without force, the default follows. With force, the current locale's row is used if there is one (even if it lacks the attribute), then the first row, then the default. |
| TranslationReads.TranslateUnloaded | src/Concerns/HasTranslation.php:142-186 | Nothing is translated while the relation is not loaded. |
| TranslationReads.ReadScenario | src/Concerns/HasTranslation.php:177-226 | Take rows `en` then `fa`. With current locale `de`, a forced bare key reads `en`, an exact `fa` reads `fa` and an unforced `de` reads null. With current locale `fa`, a forced `de` reads `fa`. |
| TranslationReads.GetAttribute | src/Concerns/HasTranslation.php:234-243 | A non-null native value wins. Otherwise the result is `translate(attribute, locale, null, !suffixed)` on `parse(key)`. |
| TranslationReads.GetAttributeSuffixed | src/Concerns/HasTranslation.php:234-243 | A key `a::l` with `l` active reads locale `l` strictly, with no fallback. |
| TranslationReads.GetAttributeBare | src/Concerns/HasTranslation.php:234-243 | A bare key, when no row's language is the key itself, reads the forced current-locale translation. |
| TranslationReads.AttributesToArray | src/Concerns/HasTranslation.php:250-263 | The keys are the native keys plus the forced translation's columns. Native values win, and translated values fill the rest. |
| TranslationReads.AttributesToArrayAddsNoAliases | src/Concerns/HasTranslation.php:256-262 | No `_k` key appears unless the model or the row already has one. |
| TranslationReads.Aliases | src/Concerns/HasTranslation.php:258-260 | Each translated column `k` gets the alias `_k` with the same value, and every alias comes from one. |
| TranslationReads.AttributesToArrayWithAliases | src/Concerns/HasTranslation.php:256-262 | With `$difference` captured by reference, native values win, translated values come next, and every translated column also appears under `_k`. |
| TranslationReads.AliasDifference | src/Concerns/HasTranslation.php:256-262 | Take `_k` free in both the model and the row. The corrected array carries `_k` with the translated value of `k`, and the as-written array has no `_k`. |
| TranslationWrites.EnsureLoaded | src/Concerns/HasTranslation.php:355-360 | Afterwards the relation is loaded. A relation that was already loaded is kept, and otherwise the relation becomes the table. |
| TranslationWrites.NewColumns | src/Concerns/HasTranslation.php:381 | The row gets the staged columns plus the language column. Staged values win, so the language is the locale unless staged. |
| TranslationWrites.Create | src/Concerns/HasTranslation.php:379-382 | One row with the next key and these columns is appended to the table. The loaded relation is unchanged. |
| TranslationWrites.Delete | src/Concerns/HasTranslation.php:404-407 | The intended delete removes exactly the rows in the locale and returns how many there were. |
| TranslationWrites.CountWithoutLocale | src/Concerns/HasTranslation.php:404-407 | After the delete, the locale has no rows and every other locale keeps its count. |
| TranslationWrites.DeleteAsWritten | src/Concerns/HasTranslation.php:404-407 | As written, `deleteTranslation` raises on the undefined `$model`. |
| TranslationWrites.PerformAsWritten | src/Concerns/HasTranslation.php:331-348 | As written, `performTranslation` raises exactly in the delete case (a translated locale, all values null, cleaning on). In every other case it agrees with `Perform`. |
| TranslationWrites.ClearingALocale | src/Concerns/HasTranslation.php:343-345 | Clearing every staged value of a translated locale under the default policy raises as written. The intended delete leaves no row in that locale. |
| TranslationWrites.UpdateById | src/Concerns/HasTranslation.php:391-394 | The row with that key takes the staged columns, nulls as nulls. All other columns and rows are unchanged. |
| TranslationWrites.Update | src/Concerns/HasTranslation.php:391-394 | The first loaded row in the locale and its database row are both updated the same way. |
| TranslationWrites.Perform | src/Concerns/HasTranslation.php:331-348 | After loading: with no row in the locale, the result is skipped when every value is null and one created row otherwise. With a row, it is a delete when every value is null and cleaning is on, and an update otherwise. |
| TranslationWrites.PerformStep | src/Concerns/HasTranslation.php:331-348 | Performing a locale not yet flushed keeps the store coherent: at most one row per locale, and loaded and stored rows agree for the locales still pending. |
| TranslationWrites.FreshlyLoadedCoherent | src/Concerns/HasTranslation.php:355-360 | A store whose relation is freshly loaded (or will be) and whose table has one row per locale starts coherent. |
| TranslationWrites.FlushKeepsOneRowPerLocale | src/Concerns/HasTranslation.php:313-348 | A flush of distinct staged locales, starting with one row per locale, ends with one row per locale. A locale that already has a row never gets a second one. |
| TranslationWrites.SecondSaveDuplicatesRow | src/Concerns/HasTranslation.php:339-341 | The relation is not refreshed after a create, so a second save of the same locale on the same model creates a second row. |
| TranslationWrites.PerformRefreshing | src/Concerns/HasTranslation.php:339-345 | The intended perform makes the same decision and table change as `Perform`. The loaded relation follows the table: a created row is appended to it, and a deleted locale's rows are dropped from it. |
| TranslationWrites.PerformRefreshingKeepsSynced | src/Concerns/HasTranslation.php:331-348 | Suppose the loaded relation equals the table, with one row per locale and distinct keys. Then every intended perform keeps that so, on any locale and after any create or delete. No number of saves duplicates a locale. |
| TranslationWrites.PerformRefreshingLandsWrite | src/Concerns/HasTranslation.php:331-348 | From such a state, a staged write with some non-null value always leaves a row of the locale holding every staged column. |
| TranslationWrites.DeleteThenSaveRecreates | src/Concerns/HasTranslation.php:339-345 | Clearing `fa` deletes its row. A later save of a value for `fa` creates a new row holding it. |
| TranslationWrites.SecondSaveRefreshedUpdates | src/Concerns/HasTranslation.php:339-341 | With that refresh, the second save of `fa` is an update and `fa` keeps one row. |
| TranslationWrites.StageValueEffect | src/Concerns/HasTranslation.php:287-294 | `setTranslate(l, a, v)` sets `buffer[l][a] = v`. The other attributes of `l` and every other locale are unchanged, and the keys stay distinct. |
| TranslationWrites.PrepareEffect | src/Concerns/HasTranslation.php:272-277 | `prepareTranslation(l, m)` replaces `buffer[l]` with `m` and leaves every other locale unchanged. |
| TranslationWrites.PerformAll | src/Concerns/HasTranslation.php:313-322 | A flush gives one result per staged locale. |
| TranslationWrites.PerformAllSnoc | src/Concerns/HasTranslation.php:317-321 | Each staged locale is performed on the state the earlier ones left, in staging order. |
| TranslationWrites.StageTwiceThenFlush | src/Concerns/HasTranslation.php:287-348 | Two `setTranslate` calls for `fa` and a flush create one row holding both columns. |
| TranslationWrites.ShouldCleanTranslations | src/Concerns/HasTranslation.php:367-370 | The policy is true when the setting is unset, and the setting's truthiness otherwise. |
| TranslationWrites.DeleteAll | src/Concerns/HasTranslation.php:301-306 | The relation is loaded, then every owner row is deleted and counted. |
| TranslationWrites.Deleting | src/Concerns/HasTranslation.php:30-34 | A hard or forced delete loads the relation and empties the owner's table. A soft delete leaves the store unchanged. |
| TranslationWrites.DeletingCascade | src/Concerns/HasTranslation.php:30-34 | When the owner has rows, they are all removed exactly when the model does not use soft deletes or the delete is forced. |
| TranslationWrites.TranslationStore.constructor | src/Concerns/HasTranslation.php:17 | The model starts with an unloaded relation, its table, and an empty buffer. |
| TranslationWrites.TranslationStore.EnsureTranslationsIsLoaded | src/Concerns/HasTranslation.php:355-360 | The new state is `EnsureLoaded` of the old one, and the buffer is kept. |
| TranslationWrites.TranslationStore.PrepareTranslation | src/Concerns/HasTranslation.php:272-277 | The buffer becomes `buffer[l] = m`. The rows are unchanged and the buffer keys stay distinct. |
| TranslationWrites.TranslationStore.SetTranslate | src/Concerns/HasTranslation.php:287-294 | The buffer becomes `StageValue` of the old buffer, and the rows are unchanged. |
| TranslationWrites.TranslationStore.CreateTranslation | src/Concerns/HasTranslation.php:379-382 | The new state and the returned row are `Create` of the old state, and the new key is fresh. |
| TranslationWrites.TranslationStore.UpdateTranslation | src/Concerns/HasTranslation.php:391-394 | The new state is `Update` of the old one. |
| TranslationWrites.TranslationStore.DeleteTranslation | src/Concerns/HasTranslation.php:404-407 | The new state and the returned count are the intended `Delete`. |
| TranslationWrites.TranslationStore.DeleteTranslations | src/Concerns/HasTranslation.php:301-306 | The new state and the returned count are `DeleteAll`. |
| TranslationWrites.TranslationStore.PerformTranslation | src/Concerns/HasTranslation.php:331-348 | The new state and the outcome are `Perform` under the configured clean policy. The buffer is untouched. |
| TranslationWrites.TranslationStore.PerformTranslations | src/Concerns/HasTranslation.php:313-322 | Each staged locale is removed from the buffer and then performed, in staging order. The result is `PerformAll` of the old state and buffer, and the buffer ends empty. |
| TranslationWrites.TranslationStore.Saved | src/Concerns/HasTranslation.php:26-28 | The `saved` hook flushes the buffer as `performTranslations` does. |
| TranslationWrites.TranslationStore.OnDeleting | src/Concerns/HasTranslation.php:30-34 | The new state is `Deleting` of the old one, for the model's soft-delete setting. |

## Left out

- `src/Concerns/PerformsTranslationsQueries.php`, `orderByTranslation` and `joinTranslations`: these are query-builder calls with no state to model. `joinTranslations` also reads an undefined `$query`.
- `src/Fields/` and `src/LocalizationServiceProvider.php`: admin-panel fields, container wiring and asset publishing.
- `armin_trans`, `is_multilingual` and `assoc_key`:
  - `armin_trans` depends on the translator (`Lang`, `trans`).
  - `is_multilingual` depends on an external `option()` store.
  - `assoc_key` is random.
- `initializeHasTranslation`, `replicate` and `replicateTranslations`: these set eager loading and clone through the framework.
- `translations()`, `makeTranslationInstance`, `getTranslationModel` and `getTranslationTable`: relation plumbing. The relation is the `table` of rows, and the table name is not modelled.
- `usesSoftDeletes` (`class_uses`) and `isForceDeleting`: both are parameters.
- `getQualifiedLanguageColumn`: the table prefix of the column name is not modelled.
- `getLanguageColumn`: it is the constant `TranslationReads.LanguageColumn`.
- `Repository::locales()`: the configuration value is the `Config` sequence itself.
  - The `(array)` cast of non-array values is not modelled.
  - Integer array keys are not modelled; all keys are strings.
- `Repository.Repository.Set`: requires a name without `.`. The source writes through a dotted configuration path, and a name with a dot would address a nested key.
- `PhpValues.LooseEqualsString` follows PHP 7 for null, booleans and integers: an integer is compared with the string's leading integer. It reads a float prefix (`"1.5"`, `"1e3"`) by its integer part and does not model float names. Two numeric strings, which PHP 7 compares as numbers (`"1" == "01"`), are compared as text. `in_array` in `localized_url` is likewise read as exact string equality.
- `TranslationReads.DataGet` takes a plain attribute name. Dotted paths and wildcards of `data_get` are not modelled, and nor are Eloquent accessors, casts and relations on a row.
- `TranslationWrites.UpdateById` and `TranslationWrites.Create` write every staged column. Mass-assignment guards (`fill` on create and on update), timestamps and the framework's dirty-only updates are not modelled. A created row gets no `created_at`/`updated_at` and no owner foreign key column.
- `TranslationWrites.TranslationStore.UpdateTranslation` requires a loaded row in the locale. The source calls `update` on the result of `translation($locale)`, which fails on null, and the only caller checks for the row first.
- `TranslationWrites.FlushKeepsOneRowPerLocale`: requires that staged attributes do not set the language column. A staged `language` value would move a row to another locale.
- The staging buffer is a static of the model class in the source, shared by every instance and request. Here it is one field of one store; concurrency is not modelled.
- Persistence failures and partially applied flushes are not modelled: create, update and delete always succeed.
- Environment-variable conversions done by `env()` (`"true"`, `"null"`, `"empty"`) are not modelled; `LOCALE` is read as a plain string.
- `LocaleHelper.SuffixOf`: reads a null locale name as `""`, giving the suffix `::`. In the source, `attach` declares its locale as `string`, so on PHP 7 a null `name` on an active catalog entry raises a `TypeError`. Then `suffixes()`, `hasSuffixes()`, `parse()` and `getAttribute()` all raise. Integer and boolean names are coerced as `ToStr` does.
- `TranslationReads.AttributesToArray`: a `Record` is an unordered map, so the key order that `array_merge` produces is not modelled. `toArray()` on the row would also give its `id`, the owner foreign key and the timestamps. The row's key is kept apart from its columns, and the other three are not modelled, so none of them appears in the merged array.
- `TranslationWrites.TranslationStore.PerformTranslation`: keeps the create as written, without refreshing the relation. Within one flush of distinct locales this makes no difference (`FlushKeepsOneRowPerLocale`). `PerformRefreshing` is the corrected step, and its invariant is proved across saves.
- Integer-like staging keys, which `array_merge` and `array_map` would renumber, are not modelled.

## Findings

| source | as written | input that shows it | evidently intended | confidence | as-written member | corrected member |
|---|---|---|---|---|---|---|
| src/Concerns/HasTranslation.php:406 | `deleteTranslation` reads the undefined variable `$model`, so it raises before deleting | save a model whose loaded translation in `fa` exists, after staging only null values for `fa`, with the default clean policy (`TranslationWrites.ClearingALocale`) | delete the owner's rows whose language column is `fa` | not executed; high | TranslationWrites.DeleteAsWritten | TranslationWrites.Delete |
| src/Concerns/HasTranslation.php:339-341 | `createTranslation` goes through the relation query, and the loaded `translations` collection is not refreshed | stage `title` for `fa` on a model with no `fa` row, save, then stage and save again: two `fa` rows (`TranslationWrites.SecondSaveDuplicatesRow`) | a locale that already has a row is updated, so there is one row per locale | not executed; medium | TranslationWrites.SecondSaveDuplicatesRow | TranslationWrites.PerformRefreshingKeepsSynced |
| src/Concerns/HasTranslation.php:258-260 | the closure takes `$difference` by value, so the `_`-prefixed copies are built in a local copy and discarded | a forced translation with column `title`, and no `_title` on the model: the array has no `_title` (`TranslationReads.AliasDifference`) | every translated column `k` also appears as `_k` | not executed; medium | TranslationReads.AttributesToArray | TranslationReads.AttributesToArrayWithAliases |
