/** The write path of the `HasTranslation` trait: the staging buffer
    `locale -> (attribute -> value)`, the per-locale decision between doing nothing,
    creating, deleting and updating a translation row, the flush on `saved`, and the
    cascade on `deleting`.

    The store keeps apart the loaded `translations` relation (a snapshot read once,
    `None` until loaded) and the `table` of the owner's rows in the database: creating
    and deleting go through the relation query and leave the snapshot as it is, while
    updating goes through the loaded row and so changes both. The functions below
    specify each step on a `StoreState`; the class `TranslationStore` performs them in
    place. */
module TranslationWrites {
  import opened PhpValues
  import opened PhpArrays
  import opened TranslationReads

  /** The translation state of one owner model. */
  datatype StoreState = StoreState(translations: Option<seq<Row>>, table: seq<Row>, nextId: nat)

  /** What `performTranslation` returns: `false`, the created row, the number of deleted
      rows, or the result of `update` (always true here). */
  datatype Outcome = Skipped | Created(row: Row) | Deleted(count: nat) | Updated

  /** `ensureTranslationsIsLoaded()`: load the relation from the table unless loaded. */
  function EnsureLoaded(s: StoreState): (r: StoreState)
    ensures r.translations.Some? && r.table == s.table && r.nextId == s.nextId
    ensures s.translations.Some? ==> r == s
    ensures s.translations.None? ==> r.translations == Some(s.table)
  {
    if s.translations.Some? then s else s.(translations := Some(s.table))
  }

  /** `empty(array_filter($attributes, isset))`: no staged value is non-null. */
  predicate AllNull(attributes: Record) {
    forall k :: k in attributes ==> attributes[k] == Null
  }

  /** The number of rows in `locale`. */
  function CountLocale(rows: seq<Row>, locale: string): nat {
    CountWhere(rows, InLocale(locale))
  }

  /** At most one row per locale. */
  ghost predicate OneRowPerLocale(rows: seq<Row>) {
    forall l :: CountLocale(rows, l) <= 1
  }

  /** The loaded relation has a row in `locale` (`hasTranslation`). */
  predicate HasRow(s: StoreState, locale: string)
    requires s.translations.Some?
  {
    FirstMatch(s.translations.value, InLocale(locale)).Some?
  }

  /** The columns `createTranslation` inserts: the language column, then the staged
      attributes, which override it on collision (`array_merge`). */
  function NewColumns(locale: string, attributes: Record): (r: Record)
    ensures r.Keys == attributes.Keys + {LanguageColumn}
    ensures forall k :: k in attributes ==> r[k] == attributes[k]
    ensures LanguageColumn !in attributes ==> r[LanguageColumn] == Str(locale)
  {
    map[LanguageColumn := Str(locale)] + attributes
  }

  /** `createTranslation($locale, $attributes)`: insert one row with a fresh key; the
      loaded relation is not refreshed. */
  function Create(s: StoreState, locale: string, attributes: Record): (r: (StoreState, Row))
    ensures r.1 == Row(s.nextId, NewColumns(locale, attributes))
    ensures r.0 == StoreState(s.translations, s.table + [r.1], s.nextId + 1)
  {
    var row := Row(s.nextId, NewColumns(locale, attributes));
    (StoreState(s.translations, s.table + [row], s.nextId + 1), row)
  }

  /** The rows not in `locale`. */
  function NotInLocale(locale: string): Row -> bool {
    row => LanguageOf(row) != Str(locale)
  }

  function WithoutLocale(rows: seq<Row>, locale: string): seq<Row> {
    Filter(rows, NotInLocale(locale))
  }

  /** Removing a locale's rows leaves none of that locale and keeps the others' counts. */
  lemma {:induction false} CountWithoutLocale(rows: seq<Row>, locale: string, l: string)
    ensures CountLocale(WithoutLocale(rows, locale), l) == if l == locale then 0 else CountLocale(rows, l)
  {
    if rows != [] {
      CountWithoutLocale(rows[1..], locale, l);
    }
  }

  /** The delete that `deleteTranslation($locale)` evidently intends: remove the owner's
      rows in `locale` and return how many there were. */
  function Delete(s: StoreState, locale: string): (r: (StoreState, nat))
    ensures r.0 == s.(table := WithoutLocale(s.table, locale))
    ensures r.1 == CountLocale(s.table, locale)
  {
    (s.(table := WithoutLocale(s.table, locale)), CountLocale(s.table, locale))
  }

  /** `deleteTranslation($locale)` as written: it reads the undefined variable `$model`
      before any query runs, so it raises and deletes nothing. */
  function DeleteAsWritten(s: StoreState, locale: string): (r: Attempt<(StoreState, nat)>)
    ensures r == Raised(UndefinedVariable("model"))
  {
    Raised(UndefinedVariable("model"))
  }

  /** `$row->update($attributes)` on every row with key `id`: the staged columns are
      written (nulls as nulls), other columns are kept. */
  function UpdateById(rows: seq<Row>, id: nat, attributes: Record): (r: seq<Row>)
    ensures |r| == |rows|
    ensures forall i :: 0 <= i < |rows| ==> r[i].id == rows[i].id
    ensures forall i :: 0 <= i < |rows| ==>
      r[i].columns == if rows[i].id == id then rows[i].columns + attributes else rows[i].columns
  {
    if rows == [] then []
    else
      var head := if rows[0].id == id then Row(id, rows[0].columns + attributes) else rows[0];
      [head] + UpdateById(rows[1..], id, attributes)
  }

  /** `updateTranslation($locale, $attributes)`: update the loaded row of `locale` (the
      first one) and its database row. */
  function Update(s: StoreState, locale: string, attributes: Record): (r: StoreState)
    requires s.translations.Some? && HasRow(s, locale)
    ensures r.nextId == s.nextId && r.translations.Some?
    ensures
      var i := FirstMatch(s.translations.value, InLocale(locale)).value;
      var row := s.translations.value[i];
      r.translations.value == s.translations.value[i := Row(row.id, row.columns + attributes)] &&
      r.table == UpdateById(s.table, row.id, attributes)
  {
    var rows := s.translations.value;
    var i := FirstMatch(rows, InLocale(locale)).value;
    var row := rows[i];
    StoreState(Some(rows[i := Row(row.id, row.columns + attributes)]), UpdateById(s.table, row.id, attributes), s.nextId)
  }

  /** `performTranslation($locale, $attributes)` with the clean policy `clean`: after
      loading the relation, a locale without a loaded row gets a new row unless every
      staged value is null; a locale with one is deleted when every value is null and
      `clean` holds, and updated otherwise. */
  function Perform(s: StoreState, locale: string, attributes: Record, clean: bool): (r: (StoreState, Outcome))
    ensures r.0.translations.Some?
    ensures var t := EnsureLoaded(s);
      if !HasRow(t, locale) then
        if AllNull(attributes) then r == (t, Skipped)
        else r.1 == Created(Row(t.nextId, NewColumns(locale, attributes))) &&
             r.0 == StoreState(t.translations, t.table + [r.1.row], t.nextId + 1)
      else if AllNull(attributes) && clean then
        r == (t.(table := WithoutLocale(t.table, locale)), Deleted(CountLocale(t.table, locale)))
      else r == (Update(t, locale, attributes), Updated)
  {
    var t := EnsureLoaded(s);
    if !HasRow(t, locale) then
      if AllNull(attributes) then (t, Skipped)
      else
        var (next, row) := Create(t, locale, attributes);
        (next, Created(row))
    else if AllNull(attributes) && clean then
      var (next, count) := Delete(t, locale);
      (next, Deleted(count))
    else (Update(t, locale, attributes), Updated)
  }

  /** `performTranslation` as written, whose delete branch raises. */
  function PerformAsWritten(s: StoreState, locale: string, attributes: Record, clean: bool): (r: Attempt<(StoreState, Outcome)>)
    ensures r.Raised? <==> HasRow(EnsureLoaded(s), locale) && AllNull(attributes) && clean
    ensures r.Raised? ==> r.fault == UndefinedVariable("model")
    ensures r.Done? ==> r.value == Perform(s, locale, attributes, clean) && !r.value.1.Deleted?
  {
    var t := EnsureLoaded(s);
    if HasRow(t, locale) && AllNull(attributes) && clean then
      match DeleteAsWritten(t, locale)
      case Raised(f) => Raised(f)
      case Done((next, count)) => Done((next, Deleted(count)))
    else Done(Perform(s, locale, attributes, clean))
  }

  /** Clearing every staged value of a translated locale under the default clean policy
      raises in the code as written; the intended delete removes that locale's rows. */
  lemma ClearingALocale(s: StoreState, locale: string, attributes: Record)
    requires HasRow(EnsureLoaded(s), locale) && AllNull(attributes)
    ensures PerformAsWritten(s, locale, attributes, true) == Raised(UndefinedVariable("model"))
    ensures CountLocale(Perform(s, locale, attributes, true).0.table, locale) == 0
  {
    CountWithoutLocale(EnsureLoaded(s).table, locale, locale);
  }

  /** The staging buffer: locale to staged attributes, in staging order. */
  type Buffer = OrderedArray<Record>

  /** `$preparedTranslations[$locale] ?? []`. */
  function Slot(b: Buffer, locale: string): Record {
    Get(b, locale).GetOr(map[])
  }

  /** `setTranslate($locale, $attribute, $value)`: merge one value into the locale's slot. */
  function StageValue(b: Buffer, locale: string, attribute: string, value: Value): Buffer {
    Put(b, locale, Slot(b, locale)[attribute := value])
  }

  /** Staging sets exactly that attribute of that locale: the locale's other attributes
      and every other locale keep their staged values, and keys stay distinct. */
  lemma StageValueEffect(b: Buffer, locale: string, attribute: string, value: Value)
    ensures attribute in Slot(StageValue(b, locale, attribute, value), locale) &&
      Slot(StageValue(b, locale, attribute, value), locale)[attribute] == value
    ensures Slot(StageValue(b, locale, attribute, value), locale).Keys == Slot(b, locale).Keys + {attribute}
    ensures forall a :: a in Slot(b, locale) && a != attribute ==>
      Slot(StageValue(b, locale, attribute, value), locale)[a] == Slot(b, locale)[a]
    ensures forall l :: l != locale ==> Get(StageValue(b, locale, attribute, value), l) == Get(b, l)
    ensures DistinctKeys(b) ==> DistinctKeys(StageValue(b, locale, attribute, value))
  {
    PutGet(b, locale, Slot(b, locale)[attribute := value]);
    PutDistinct(b, locale, Slot(b, locale)[attribute := value]);
  }

  /** `prepareTranslation($locale, $attributes)` replaces the locale's slot outright
      and leaves every other locale as it was. */
  lemma PrepareEffect(b: Buffer, locale: string, attributes: Record)
    ensures Slot(Put(b, locale, attributes), locale) == attributes
    ensures forall l :: l != locale ==> Get(Put(b, locale, attributes), l) == Get(b, l)
    ensures DistinctKeys(b) ==> DistinctKeys(Put(b, locale, attributes))
  {
    PutGet(b, locale, attributes);
    PutDistinct(b, locale, attributes);
  }

  /** `performTranslations()` on a snapshot of the buffer: one `performTranslation` per
      staged locale, in staging order, each result appended. */
  function PerformAll(s: StoreState, snapshot: Buffer, clean: bool): (r: (StoreState, seq<Outcome>))
    ensures |r.1| == |snapshot|
    ensures snapshot != [] ==> r.0.translations.Some?
    decreases |snapshot|
  {
    if snapshot == [] then (s, [])
    else
      var (before, results) := PerformAll(s, snapshot[..|snapshot| - 1], clean);
      var (l, attributes) := snapshot[|snapshot| - 1];
      var (after, outcome) := Perform(before, l, attributes, clean);
      (after, results + [outcome])
  }

  /** Flushing one more staged locale performs it on the state the earlier ones left. */
  lemma PerformAllSnoc(s: StoreState, snapshot: Buffer, locale: string, attributes: Record, clean: bool)
    ensures
      var (before, results) := PerformAll(s, snapshot, clean);
      var (after, outcome) := Perform(before, locale, attributes, clean);
      PerformAll(s, snapshot + [(locale, attributes)], clean) == (after, results + [outcome])
  {
    assert (snapshot + [(locale, attributes)])[..|snapshot|] == snapshot;
  }

  /** The locales `done` have been flushed; for every other locale the table holds a row
      exactly when the loaded relation does, and no locale has two rows. */
  ghost predicate Coherent(s: StoreState, done: set<string>) {
    s.translations.Some? &&
    forall l :: CountLocale(s.table, l) <= 1 &&
      (l !in done ==> (CountLocale(s.table, l) == 1 <==> CountLocale(s.translations.value, l) > 0))
  }

  /** Rows with the same languages, position by position, have the same counts. */
  lemma {:induction false} SameLanguagesSameCounts(a: seq<Row>, b: seq<Row>, l: string)
    requires |a| == |b| && forall i :: 0 <= i < |a| ==> LanguageOf(a[i]) == LanguageOf(b[i])
    ensures CountLocale(a, l) == CountLocale(b, l)
  {
    if a != [] {
      SameLanguagesSameCounts(a[1..], b[1..], l);
    }
  }

  /** One `performTranslation` of a locale not yet flushed keeps the store coherent, when
      the staged attributes do not overwrite the language column. */
  lemma PerformStep(s: StoreState, done: set<string>, locale: string, attributes: Record, clean: bool)
    requires Coherent(EnsureLoaded(s), done) && locale !in done
    requires LanguageColumn !in attributes
    ensures Coherent(Perform(s, locale, attributes, clean).0, done + {locale})
  {
    var t := EnsureLoaded(s);
    var loaded := t.translations.value;
    var r := Perform(s, locale, attributes, clean).0;
    CountWhereZero(loaded, InLocale(locale));
    if !HasRow(t, locale) {
      if !AllNull(attributes) {
        var row := Row(t.nextId, NewColumns(locale, attributes));
        forall l
          ensures CountLocale(r.table, l) == CountLocale(t.table, l) + (if l == locale then 1 else 0)
        {
          CountWhereConcat(t.table, [row], InLocale(l));
        }
      }
    } else if AllNull(attributes) && clean {
      forall l
        ensures CountLocale(r.table, l) == if l == locale then 0 else CountLocale(t.table, l)
      {
        CountWithoutLocale(t.table, locale, l);
      }
    } else {
      var i := FirstMatch(loaded, InLocale(locale)).value;
      var row := loaded[i];
      assert LanguageOf(Row(row.id, row.columns + attributes)) == LanguageOf(row);
      forall l
        ensures CountLocale(r.table, l) == CountLocale(t.table, l)
        ensures CountLocale(r.translations.value, l) == CountLocale(loaded, l)
      {
        SameLanguagesSameCounts(r.table, t.table, l);
        SameLanguagesSameCounts(r.translations.value, loaded, l);
      }
    }
  }

  /** A freshly loaded store whose table has one row per locale is coherent. */
  lemma FreshlyLoadedCoherent(s: StoreState)
    requires s.translations.None? || s.translations == Some(s.table)
    requires OneRowPerLocale(s.table)
    ensures Coherent(EnsureLoaded(s), {})
  {
    forall l ensures CountLocale(s.table, l) == 1 <==> CountLocale(s.table, l) > 0 {
    }
  }

  /** The locales of a buffer. */
  function LocalesOf(b: Buffer): set<string> {
    set i | 0 <= i < |b| :: b[i].0
  }

  /** One flush of a buffer with distinct locales, starting from a store whose loaded
      relation is the table (or not loaded) with one row per locale, leaves one row per
      locale: `performTranslation` never creates a second row for a locale. */
  lemma {:induction false} FlushKeepsOneRowPerLocale(s: StoreState, snapshot: Buffer, clean: bool)
    requires s.translations.None? || s.translations == Some(s.table)
    requires OneRowPerLocale(s.table)
    requires DistinctKeys(snapshot)
    requires forall i :: 0 <= i < |snapshot| ==> LanguageColumn !in snapshot[i].1
    ensures snapshot != [] ==> Coherent(PerformAll(s, snapshot, clean).0, LocalesOf(snapshot))
    ensures OneRowPerLocale(PerformAll(s, snapshot, clean).0.table)
    decreases |snapshot|
  {
    if snapshot != [] {
      var n := |snapshot|;
      var prefix := snapshot[..n - 1];
      var (l, attributes) := snapshot[n - 1];
      assert forall i :: 0 <= i < n - 1 ==> prefix[i] == snapshot[i];
      FlushKeepsOneRowPerLocale(s, prefix, clean);
      var before := PerformAll(s, prefix, clean).0;
      assert l !in LocalesOf(prefix);
      if prefix == [] {
        FreshlyLoadedCoherent(s);
      }
      PerformStep(before, LocalesOf(prefix), l, attributes, clean);
      assert LocalesOf(prefix) + {l} == LocalesOf(snapshot) by {
        assert snapshot == prefix + [(l, attributes)];
      }
    }
  }

  /** The relation is not refreshed after a create, so saving twice with the same staged
      locale creates a second row: from an empty table, two flushes of `fa` leave two
      `fa` rows. */
  lemma SecondSaveDuplicatesRow()
    ensures
      var staged := map["title" := Str("T")];
      var first := Perform(StoreState(None, [], 1), "fa", staged, true);
      var second := Perform(first.0, "fa", staged, true);
      first.1.Created? && second.1.Created? && CountLocale(second.0.table, "fa") == 2
  {
    var staged := map["title" := Str("T")];
    assert !AllNull(staged) by {
      assert staged["title"] != Null;
    }
    var first := Perform(StoreState(None, [], 1), "fa", staged, true);
    assert first.0.translations == Some([]);
    assert first.0.table == [Row(1, NewColumns("fa", staged))];
    var second := Perform(first.0, "fa", staged, true);
    var row1 := Row(1, NewColumns("fa", staged));
    var row2 := Row(2, NewColumns("fa", staged));
    assert second.0.table == [row1, row2];
    assert InLocale("fa")(row1) && InLocale("fa")(row2);
    assert [row1, row2][1..] == [row2];
  }

  /** `performTranslation` as evidently intended: the same decision and the same table
      change as `Perform`, but the loaded relation follows the table: a created row is
      added to it (as `$this->translations->push()` after the create would do) and a
      deleted locale's rows are dropped from it, so later saves on the same model see
      the table as it is. */
  function PerformRefreshing(s: StoreState, locale: string, attributes: Record, clean: bool): (r: (StoreState, Outcome))
    ensures r.1 == Perform(s, locale, attributes, clean).1
    ensures r.0.table == Perform(s, locale, attributes, clean).0.table
    ensures r.0.nextId == Perform(s, locale, attributes, clean).0.nextId
    ensures r.1.Created? ==> r.0.translations == Some(EnsureLoaded(s).translations.value + [r.1.row])
    ensures r.1.Deleted? ==> r.0.translations == Some(WithoutLocale(EnsureLoaded(s).translations.value, locale))
    ensures r.1.Skipped? || r.1.Updated? ==> r == Perform(s, locale, attributes, clean)
  {
    var (next, outcome) := Perform(s, locale, attributes, clean);
    match outcome
    case Created(row) => (next.(translations := Some(next.translations.value + [row])), outcome)
    case Deleted(_) => (next.(translations := Some(WithoutLocale(next.translations.value, locale))), outcome)
    case _ => (next, outcome)
  }

  /** The row keys are pairwise distinct. */
  ghost predicate DistinctIds(rows: seq<Row>) {
    forall i, j :: 0 <= i < j < |rows| ==> rows[i].id != rows[j].id
  }

  /** Filtering rows keeps their keys distinct. */
  lemma {:induction false} FilterKeepsDistinctIds(rows: seq<Row>, p: Row -> bool)
    requires DistinctIds(rows)
    ensures DistinctIds(Filter(rows, p))
  {
    if rows != [] {
      var tail := rows[1..];
      assert DistinctIds(tail) by {
        forall i, j | 0 <= i < j < |tail| ensures tail[i].id != tail[j].id {
          assert tail[i] == rows[i + 1] && tail[j] == rows[j + 1];
        }
      }
      FilterKeepsDistinctIds(tail, p);
      if p(rows[0]) {
        var f := Filter(tail, p);
        FilterMembers(tail, p);
        var r := Filter(rows, p);
        assert r == [rows[0]] + f;
        forall i, j | 0 <= i < j < |r| ensures r[i].id != r[j].id {
          assert r[j] == f[j - 1];
          if i == 0 {
            assert f[j - 1] in tail;
            var m :| 0 <= m < |tail| && tail[m] == f[j - 1];
            assert rows[m + 1] == tail[m];
          } else {
            assert r[i] == f[i - 1];
          }
        }
      }
    }
  }

  /** With distinct keys, updating by the key of position `i` updates that position only. */
  lemma UpdateByIdAt(rows: seq<Row>, i: nat, attributes: Record)
    requires DistinctIds(rows) && i < |rows|
    ensures UpdateById(rows, rows[i].id, attributes) == rows[i := Row(rows[i].id, rows[i].columns + attributes)]
  {
    var r := UpdateById(rows, rows[i].id, attributes);
    var e := rows[i := Row(rows[i].id, rows[i].columns + attributes)];
    assert forall j :: 0 <= j < |rows| ==> r[j] == e[j];
  }

  /** The loaded relation is the table, with one row per locale and distinct keys below
      the next key: what a fresh load of a well-formed table gives. */
  ghost predicate Synced(s: StoreState) {
    s.translations == Some(s.table) && OneRowPerLocale(s.table) &&
    KeysBelow(s.table, s.nextId) && DistinctIds(s.table)
  }

  /** With the relation kept in step, every `performTranslation`, on any locale and after
      any earlier create or delete, keeps the relation equal to the table and one row per
      locale; so any number of saves on one model never duplicates a locale. */
  lemma PerformRefreshingKeepsSynced(s: StoreState, locale: string, attributes: Record, clean: bool)
    requires Synced(EnsureLoaded(s))
    requires LanguageColumn !in attributes
    ensures Synced(PerformRefreshing(s, locale, attributes, clean).0)
  {
    var t := EnsureLoaded(s);
    var table := t.table;
    var r := PerformRefreshing(s, locale, attributes, clean).0;
    CountWhereZero(table, InLocale(locale));
    if !HasRow(t, locale) {
      if !AllNull(attributes) {
        var row := Row(t.nextId, NewColumns(locale, attributes));
        assert r.table == table + [row] && r.translations == Some(table + [row]);
        forall l
          ensures CountLocale(r.table, l) == CountLocale(table, l) + (if l == locale then 1 else 0)
        {
          CountWhereConcat(table, [row], InLocale(l));
        }
      }
    } else if AllNull(attributes) && clean {
      assert r.table == WithoutLocale(table, locale);
      forall l
        ensures CountLocale(r.table, l) == if l == locale then 0 else CountLocale(table, l)
      {
        CountWithoutLocale(table, locale, l);
      }
      FilterMembers(table, NotInLocale(locale));
      FilterKeepsDistinctIds(table, NotInLocale(locale));
      assert forall i :: 0 <= i < |r.table| ==> r.table[i] in table;
    } else {
      var i := FirstMatch(table, InLocale(locale)).value;
      UpdateByIdAt(table, i, attributes);
      assert r.table == r.translations.value;
      assert LanguageOf(Row(table[i].id, table[i].columns + attributes)) == LanguageOf(table[i]);
      forall l ensures CountLocale(r.table, l) == CountLocale(table, l) {
        SameLanguagesSameCounts(r.table, table, l);
      }
    }
  }

  /** With the relation kept in step, a staged write with a non-null value always lands:
      afterwards some row of the locale holds every staged column, nulls included. */
  lemma PerformRefreshingLandsWrite(s: StoreState, locale: string, attributes: Record, clean: bool)
    requires Synced(EnsureLoaded(s))
    requires LanguageColumn !in attributes && !AllNull(attributes)
    ensures var table := PerformRefreshing(s, locale, attributes, clean).0.table;
      exists j :: 0 <= j < |table| && LanguageOf(table[j]) == Str(locale) &&
        forall a :: a in attributes ==> a in table[j].columns && table[j].columns[a] == attributes[a]
  {
    var t := EnsureLoaded(s);
    var table := t.table;
    var r := PerformRefreshing(s, locale, attributes, clean).0;
    if !HasRow(t, locale) {
      var row := Row(t.nextId, NewColumns(locale, attributes));
      assert r.table[|table|] == row;
    } else {
      var i := FirstMatch(table, InLocale(locale)).value;
      UpdateByIdAt(table, i, attributes);
      assert r.table[i] == Row(table[i].id, table[i].columns + attributes);
      assert LanguageOf(r.table[i]) == LanguageOf(table[i]);
    }
  }

  /** Clearing `fa` and then saving a new value for it: with the relation kept in step,
      the first save deletes the row and the second creates a new one that holds the
      value. */
  lemma DeleteThenSaveRecreates()
    ensures
      var row := Row(1, map[LanguageColumn := Str("fa"), "title" := Str("A")]);
      var first := PerformRefreshing(StoreState(Some([row]), [row], 2), "fa", map["title" := Null], true);
      var second := PerformRefreshing(first.0, "fa", map["title" := Str("B")], true);
      first.1 == Deleted(1) && second.1 == Created(Row(2, NewColumns("fa", map["title" := Str("B")]))) &&
      second.0.table == [second.1.row]
  {
    var row := Row(1, map[LanguageColumn := Str("fa"), "title" := Str("A")]);
    var s := StoreState(Some([row]), [row], 2);
    assert InLocale("fa")(row) && !NotInLocale("fa")(row);
    assert HasRow(s, "fa");
    assert AllNull(map["title" := Null]);
    assert WithoutLocale([row], "fa") == [];
    assert [row][1..] == [];
    assert CountWhere([row], InLocale("fa")) == 1 + CountWhere([row][1..], InLocale("fa"));
    assert CountLocale([row], "fa") == 1;
    var first := PerformRefreshing(s, "fa", map["title" := Null], true);
    assert first.0 == StoreState(Some([]), [], 2);
    var staged := map["title" := Str("B")];
    assert !AllNull(staged) by {
      assert staged["title"] != Null;
    }
    assert !HasRow(first.0, "fa");
    assert [] + [Row(2, NewColumns("fa", staged))] == [Row(2, NewColumns("fa", staged))];
  }

  /** The scenario of `SecondSaveDuplicatesRow` with the relation refreshed: the second
      save of `fa` updates the row created by the first, and `fa` keeps one row. */
  lemma SecondSaveRefreshedUpdates()
    ensures
      var staged := map["title" := Str("T")];
      var first := PerformRefreshing(StoreState(None, [], 1), "fa", staged, true);
      var second := PerformRefreshing(first.0, "fa", staged, true);
      first.1.Created? && second.1 == Updated && CountLocale(second.0.table, "fa") == 1
  {
    var staged := map["title" := Str("T")];
    assert !AllNull(staged) by {
      assert staged["title"] != Null;
    }
    var row1 := Row(1, NewColumns("fa", staged));
    var plain := Perform(StoreState(None, [], 1), "fa", staged, true);
    assert plain == (StoreState(Some([]), [] + [row1], 2), Created(row1));
    var first := PerformRefreshing(StoreState(None, [], 1), "fa", staged, true);
    assert [] + [row1] == [row1];
    assert first.0 == StoreState(Some([row1]), [row1], 2);
    assert InLocale("fa")(row1);
    assert HasRow(first.0, "fa");
    var second := PerformRefreshing(first.0, "fa", staged, true);
    assert second.0.table == UpdateById([row1], 1, staged);
    assert second.0.table == [Row(1, row1.columns + staged)];
    assert InLocale("fa")(Row(1, row1.columns + staged));
  }

  /** Two `setTranslate` calls for one locale and a flush create a single row that
      carries both columns. */
  lemma StageTwiceThenFlush()
    ensures
      var b := StageValue(StageValue([], "fa", "title", Str("T")), "fa", "body", Str("B"));
      var row := Row(7, map[LanguageColumn := Str("fa"), "title" := Str("T"), "body" := Str("B")]);
      PerformAll(StoreState(None, [], 7), b, true) == (StoreState(Some([]), [row], 8), [Created(row)])
  {
    var b1 := StageValue([], "fa", "title", Str("T"));
    assert b1 == [("fa", map["title" := Str("T")])];
    var b := StageValue(b1, "fa", "body", Str("B"));
    assert b == [("fa", map["title" := Str("T"), "body" := Str("B")])];
    var staged := map["title" := Str("T"), "body" := Str("B")];
    assert !AllNull(staged) by {
      assert staged["title"] != Null;
    }
    var row := Row(7, map[LanguageColumn := Str("fa"), "title" := Str("T"), "body" := Str("B")]);
    assert NewColumns("fa", staged) == row.columns;
    var s := StoreState(None, [], 7);
    var t := EnsureLoaded(s);
    assert t == StoreState(Some([]), [], 7);
    assert !HasRow(t, "fa");
    var r := Perform(s, "fa", staged, true);
    assert r.1 == Created(row);
    assert r.0 == StoreState(Some([]), [] + [row], 8);
    assert [] + [row] == [row];
    PerformAllSnoc(s, [], "fa", staged, true);
    assert b == [] + [("fa", staged)];
    var pa := PerformAll(s, b, true);
    assert pa == (r.0, [] + [r.1]);
    assert pa.0 == StoreState(Some([]), [row], 8);
    assert pa.1 == [Created(row)];
  }

  /** `shouldCleanTranslations()`: `(bool) config('localization.clean_translations', true)`;
      an unset key means true. */
  function ShouldCleanTranslations(configured: Option<Value>): (r: bool)
    ensures configured.None? ==> r
    ensures configured.Some? ==> (r <==> Truthy(configured.value))
  {
    Truthy(configured.GetOr(Bool(true)))
  }

  /** `deleteTranslations()`: load the relation, then delete every row of the owner. */
  function DeleteAll(s: StoreState): (r: (StoreState, nat))
    ensures r.0 == EnsureLoaded(s).(table := []) && r.1 == |s.table|
  {
    (EnsureLoaded(s).(table := []), |s.table|)
  }

  /** The `deleting` hook: cascade unless the model uses soft deletes and the delete is
      not forced. */
  function Deleting(s: StoreState, usesSoftDeletes: bool, forceDeleting: bool): (r: StoreState)
    ensures r.nextId == s.nextId
    ensures (!usesSoftDeletes || forceDeleting) ==> r.table == [] && r.translations == EnsureLoaded(s).translations
    ensures (usesSoftDeletes && !forceDeleting) ==> r == s
  {
    if !usesSoftDeletes || forceDeleting then DeleteAll(s).0 else s
  }

  /** The cascade removes every translation row exactly when the model is not soft
      deleted; a soft delete leaves the store untouched. */
  lemma DeletingCascade(s: StoreState, usesSoftDeletes: bool, forceDeleting: bool)
    ensures s.table != [] ==>
      (Deleting(s, usesSoftDeletes, forceDeleting).table == [] <==> !usesSoftDeletes || forceDeleting)
  {
  }

  /** Keys of every row are below the next key to hand out. */
  ghost predicate KeysBelow(rows: seq<Row>, next: nat) {
    forall i :: 0 <= i < |rows| ==> rows[i].id < next
  }

  /** One owner model with the `HasTranslation` trait: its translation state and the
      staging buffer (a static of the model class in the source, one field here). */
  class TranslationStore {
    var translations: Option<seq<Row>>
    var table: seq<Row>
    var nextId: nat
    var prepared: Buffer
    /** Whether the model class uses `SoftDeletes`. */
    const usesSoftDeletes: bool
    /** The value of `localization.clean_translations`, if set. */
    const cleanSetting: Option<Value>

    ghost predicate Valid()
      reads this
    {
      DistinctKeys(prepared) && KeysBelow(table, nextId)
    }

    function State(): StoreState
      reads this`translations, this`table, this`nextId
    {
      StoreState(translations, table, nextId)
    }

    constructor(table: seq<Row>, nextId: nat, usesSoftDeletes: bool, cleanSetting: Option<Value>)
      requires KeysBelow(table, nextId)
      ensures Valid()
      ensures State() == StoreState(None, table, nextId) && prepared == []
      ensures this.usesSoftDeletes == usesSoftDeletes && this.cleanSetting == cleanSetting
    {
      this.translations := None;
      this.table := table;
      this.nextId := nextId;
      this.prepared := [];
      this.usesSoftDeletes := usesSoftDeletes;
      this.cleanSetting := cleanSetting;
    }

    /** `ensureTranslationsIsLoaded()`. */
    method EnsureTranslationsIsLoaded()
      requires Valid()
      modifies this
      ensures Valid() && prepared == old(prepared)
      ensures State() == EnsureLoaded(old(State()))
    {
      if translations.None? {
        translations := Some(table);
      }
    }

    /** `prepareTranslation($locale, $attributes)`. */
    method PrepareTranslation(locale: string, attributes: Record)
      requires Valid()
      modifies this
      ensures Valid() && State() == old(State())
      ensures prepared == Put(old(prepared), locale, attributes)
    {
      PrepareEffect(prepared, locale, attributes);
      prepared := Put(prepared, locale, attributes);
    }

    /** `setTranslate($locale, $attribute, $value)`. */
    method SetTranslate(locale: string, attribute: string, value: Value)
      requires Valid()
      modifies this
      ensures Valid() && State() == old(State())
      ensures prepared == StageValue(old(prepared), locale, attribute, value)
    {
      StageValueEffect(prepared, locale, attribute, value);
      prepared := StageValue(prepared, locale, attribute, value);
    }

    /** `createTranslation($locale, $attributes)`. */
    method CreateTranslation(locale: string, attributes: Record) returns (row: Row)
      requires Valid()
      modifies this
      ensures Valid() && prepared == old(prepared)
      ensures (State(), row) == Create(old(State()), locale, attributes)
      ensures forall i :: 0 <= i < |old(table)| ==> old(table)[i].id != row.id
    {
      row := Row(nextId, NewColumns(locale, attributes));
      table := table + [row];
      nextId := nextId + 1;
    }

    /** `updateTranslation($locale, $attributes)`; the source calls `update` on the result
        of `translation($locale)`, so a loaded row in `locale` must exist. */
    method UpdateTranslation(locale: string, attributes: Record)
      requires Valid() && translations.Some? && HasRow(State(), locale)
      modifies this
      ensures Valid() && prepared == old(prepared)
      ensures State() == Update(old(State()), locale, attributes)
    {
      var rows := translations.value;
      var i := FirstMatch(rows, InLocale(locale)).value;
      var row := rows[i];
      translations := Some(rows[i := Row(row.id, row.columns + attributes)]);
      table := UpdateById(table, row.id, attributes);
    }

    /** `deleteTranslation($locale)` with the query it evidently intends. */
    method DeleteTranslation(locale: string) returns (count: nat)
      requires Valid()
      modifies this
      ensures Valid() && prepared == old(prepared)
      ensures (State(), count) == Delete(old(State()), locale)
    {
      count := CountLocale(table, locale);
      FilterMembers(table, NotInLocale(locale));
      var kept := WithoutLocale(table, locale);
      assert forall i :: 0 <= i < |kept| ==> kept[i] in table;
      table := kept;
    }

    /** `deleteTranslations()`. */
    method DeleteTranslations() returns (count: nat)
      requires Valid()
      modifies this
      ensures Valid() && prepared == old(prepared)
      ensures (State(), count) == DeleteAll(old(State()))
    {
      EnsureTranslationsIsLoaded();
      count := |table|;
      table := [];
    }

    /** `performTranslation($locale, $attributes)`, under the configured clean policy. */
    method PerformTranslation(locale: string, attributes: Record) returns (outcome: Outcome)
      requires Valid()
      modifies this
      ensures Valid() && prepared == old(prepared)
      ensures (State(), outcome) == Perform(old(State()), locale, attributes, ShouldCleanTranslations(cleanSetting))
    {
      EnsureTranslationsIsLoaded();
      if !HasRow(State(), locale) {
        if AllNull(attributes) {
          outcome := Skipped;
        } else {
          var row := CreateTranslation(locale, attributes);
          outcome := Created(row);
        }
      } else if AllNull(attributes) && ShouldCleanTranslations(cleanSetting) {
        var count := DeleteTranslation(locale);
        outcome := Deleted(count);
      } else {
        UpdateTranslation(locale, attributes);
        outcome := Updated;
      }
    }

    /** `unset(static::$preparedTranslations[$locale])` on the locale staged first:
        its slot is removed and the rest of the buffer keeps its order. */
    method Unstage(locale: string)
      requires Valid() && prepared != [] && prepared[0].0 == locale
      modifies this
      ensures Valid() && State() == old(State())
      ensures prepared == Unset(old(prepared), locale) && prepared == old(prepared)[1..]
    {
      UnsetFirst(prepared);
      prepared := Unset(prepared, locale);
    }

    /** The body of the flush loop: unstage the locale staged `i`-th, which is now the
        first, then perform it, extending the flush of the first `i` staged locales. */
    method FlushNext(ghost s0: StoreState, ghost snapshot: Buffer, i: nat, ghost results: seq<Outcome>)
      returns (outcome: Outcome)
      requires Valid() && i < |snapshot| && prepared == snapshot[i..]
      requires (State(), results) == PerformAll(s0, snapshot[..i], ShouldCleanTranslations(cleanSetting))
      modifies this
      ensures Valid() && prepared == snapshot[i + 1..]
      ensures (State(), results + [outcome]) ==
        PerformAll(s0, snapshot[..i + 1], ShouldCleanTranslations(cleanSetting))
    {
      var locale, attributes := prepared[0].0, prepared[0].1;
      Unstage(locale);
      outcome := PerformTranslation(locale, attributes);
      PerformAllSnoc(s0, snapshot[..i], locale, attributes, ShouldCleanTranslations(cleanSetting));
      assert snapshot[..i + 1] == snapshot[..i] + [(locale, attributes)];
    }

    /** `performTranslations()`: for each staged locale in staging order, remove its slot
        and perform it; the buffer ends empty. */
    method PerformTranslations() returns (results: seq<Outcome>)
      requires Valid()
      modifies this
      ensures Valid() && prepared == []
      ensures (State(), results) == PerformAll(old(State()), old(prepared), ShouldCleanTranslations(cleanSetting))
    {
      var snapshot := prepared;
      var clean := ShouldCleanTranslations(cleanSetting);
      results := [];
      var i := 0;
      while i < |snapshot|
        invariant 0 <= i <= |snapshot|
        invariant Valid()
        invariant prepared == snapshot[i..]
        invariant (State(), results) == PerformAll(old(State()), snapshot[..i], clean)
      {
        var outcome := FlushNext(old(State()), snapshot, i, results);
        results := results + [outcome];
        i := i + 1;
      }
      assert snapshot[..i] == snapshot;
    }

    /** The `saved` hook. */
    method Saved() returns (results: seq<Outcome>)
      requires Valid()
      modifies this
      ensures Valid() && prepared == []
      ensures (State(), results) == PerformAll(old(State()), old(prepared), ShouldCleanTranslations(cleanSetting))
    {
      results := PerformTranslations();
    }

    /** The `deleting` hook. */
    method OnDeleting(forceDeleting: bool)
      requires Valid()
      modifies this
      ensures Valid() && prepared == old(prepared)
      ensures State() == Deleting(old(State()), usesSoftDeletes, forceDeleting)
    {
      if !usesSoftDeletes || forceDeleting {
        var _ := DeleteTranslations();
      }
    }
  }
}
