/** The locale catalog (`Repository`): the configured locales, read through
    `localization.locales`, an ordered map from a locale key to its data record.
    Reads normalise each entry with defaults; `set` writes a normalised record back. */
module Repository {
  import opened PhpValues
  import PhpArrays
  import opened PhpStrings

  /** The value of `localization.locales`: locale key to data record, in declaration order. */
  type Config = PhpArrays.OrderedArray<Record>

  /** The defaults that `normalize` puts under a record. */
  function Defaults(name: string): Record {
    map["locale" := Str(name), "name" := Str(name), "label" := Str(Upper(name)),
        "flag" := Null, "icon" := Str(name), "active" := Bool(true)]
  }

  /** `normalize($name, $data)`: `array_merge` of the defaults and `data`, so every key of
      `data` overrides its default and every other default is kept. */
  function Normalize(name: string, data: Record): (r: Record)
    ensures r.Keys == Defaults(name).Keys + data.Keys
    ensures forall k :: k in data ==> r[k] == data[k]
    ensures "locale" !in data ==> r["locale"] == Str(name)
    ensures "name" !in data ==> r["name"] == Str(name)
    ensures "label" !in data ==> r["label"] == Str(Upper(name))
    ensures "flag" !in data ==> r["flag"] == Null
    ensures "icon" !in data ==> r["icon"] == Str(name)
    ensures "active" !in data ==> r["active"] == Bool(true)
  {
    Defaults(name) + data
  }

  /** Normalising twice under the same name changes nothing. */
  lemma NormalizeIdempotent(name: string, data: Record)
    ensures Normalize(name, Normalize(name, data)) == Normalize(name, data)
  {
    var once := Normalize(name, data);
    var twice := Normalize(name, once);
    assert twice.Keys == once.Keys;
    assert forall k :: k in once ==> twice[k] == once[k];
  }

  /** `all()`: every configured entry, normalised under its own key, in order. */
  function All(config: Config): (r: seq<Record>)
    ensures |r| == |config|
    ensures forall i :: 0 <= i < |config| ==> r[i] == Normalize(config[i].0, config[i].1)
  {
    if config == [] then []
    else [Normalize(config[0].0, config[0].1)] + All(config[1..])
  }

  /** `filter($callback)`: the entries of `all()` that satisfy `p`, in order (order
      preservation is `PhpArrays.FilterIsSubsequence`). */
  function Filter(config: Config, p: Record -> bool): (r: seq<Record>)
    ensures forall x :: x in r <==> x in All(config) && p(x)
    ensures forall k :: 0 <= k < |r| ==> p(r[k])
    ensures PhpArrays.IsSubsequence(r, All(config))
  {
    PhpArrays.FilterMembers(All(config), p);
    PhpArrays.FilterIsSubsequence(All(config), p);
    PhpArrays.Filter(All(config), p)
  }

  /** The test `get($name)` applies: a normalised name that is exactly `name`. */
  function NamedAs(name: string): Record -> bool {
    r => Lookup(r, "name") == Str(name)
  }

  /** `get($name)`: the first entry in declaration order whose normalised name is `name`;
      when there is none, a record synthesised from the defaults. It never fails. */
  function Get(config: Config, name: string): (r: Record)
    ensures PhpArrays.FirstMatch(All(config), NamedAs(name)).None? ==> r == Normalize(name, map[])
    ensures PhpArrays.FirstMatch(All(config), NamedAs(name)).Some? ==>
      r == Normalize(config[PhpArrays.FirstMatch(All(config), NamedAs(name)).value].0,
                     config[PhpArrays.FirstMatch(All(config), NamedAs(name)).value].1)
    ensures Lookup(r, "name") == Str(name)
  {
    var matches := Filter(config, NamedAs(name));
    PhpArrays.FilterHeadIsFirstMatch(All(config), NamedAs(name));
    if |matches| == 0 then Normalize(name, map[]) else matches[0]
  }

  /** The position that `set($name, ...)` writes: the key's position, or the end. */
  function SlotOf(config: Config, name: string): nat {
    match PhpArrays.IndexOfKey(config, name)
    case Some(i) => i
    case None => |config|
  }

  /** `set($name, $data)` followed by `get($name)` gives back the stored record, when
      `data` keeps the name and no entry before the written slot is also named `name`. */
  lemma SetThenGet(config: Config, name: string, data: Record)
    requires "name" !in data || data["name"] == Str(name)
    requires forall i :: 0 <= i < SlotOf(config, name) ==>
      Lookup(Normalize(config[i].0, config[i].1), "name") != Str(name)
    ensures Get(PhpArrays.Put(config, name, Normalize(name, data)), name) == Normalize(name, data)
  {
    var stored := Normalize(name, data);
    var after := PhpArrays.Put(config, name, stored);
    var pos := SlotOf(config, name);
    assert pos < |after| && after[pos] == (name, stored);
    assert forall j :: 0 <= j < pos ==> after[j] == config[j];
    NormalizeIdempotent(name, data);
    var all := All(after);
    assert all[pos] == stored;
    assert Lookup(stored, "name") == Str(name);
    PhpArrays.FirstMatchAt(all, NamedAs(name), pos);
  }

  /** The live configuration store the catalog reads and writes. */
  class Repository {
    var locales: Config

    constructor(locales: Config)
      ensures this.locales == locales
    {
      this.locales := locales;
    }

    /** `set($name, $data)`: stores `normalize($name, $data)` under key `name` through
        the dotted config path `localization.locales.{name}`; an existing key keeps its
        position, a new key is appended, every other entry is unchanged. */
    method Set(name: string, data: Record)
      requires '.' !in name
      modifies this
      ensures locales == PhpArrays.Put(old(locales), name, Normalize(name, data))
      ensures Get(locales, name) == Normalize(name, data)
        <== ("name" !in data || data["name"] == Str(name)) &&
            forall i :: 0 <= i < SlotOf(old(locales), name) ==>
              Lookup(Normalize(old(locales)[i].0, old(locales)[i].1), "name") != Str(name)
      ensures forall k :: k != name ==> PhpArrays.Get(locales, k) == PhpArrays.Get(old(locales), k)
    {
      PhpArrays.PutGet(locales, name, Normalize(name, data));
      if ("name" !in data || data["name"] == Str(name)) &&
         forall i :: 0 <= i < SlotOf(locales, name) ==>
           Lookup(Normalize(locales[i].0, locales[i].1), "name") != Str(name) {
        SetThenGet(locales, name, data);
      }
      locales := PhpArrays.Put(locales, name, Normalize(name, data));
    }
  }
}
