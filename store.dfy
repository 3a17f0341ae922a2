/** The parser's in-memory state and the operations on it that do not touch
    text: the `data` struct, the `parsed_data` map of sections, the
    `find_if` lookup shared by every read, the string and integer reads, and
    the update-or-append write. */
module IniStore {
  import opened IniText
  import opened StoI

  /** One `field = value` pair. Both are kept as text; nothing is typed
      until it is read. */
  datatype Entry = Entry(field: string, value: string)

  /** `parsed_data`: each section name, unique, maps to the ordered
      entries of that section. */
  type Store = map<string, seq<Entry>>

  /** The entries of `section`, or none when it is absent: what
      `parsed_data[section]` finds before it would insert an empty vector. */
  function EntriesOf(store: Store, section: string): seq<Entry>
  {
    if section in store then store[section] else []
  }

  /** `parsed_data[section].push_back(e)`: creates the section if needed and
      appends `e` after its existing entries. */
  function PushBack(store: Store, section: string, e: Entry): (r: Store)
    ensures r.Keys == store.Keys + {section}
    ensures forall s :: s in store && s != section ==> r[s] == store[s]
    ensures |r[section]| == |EntriesOf(store, section)| + 1
    ensures r[section][..|EntriesOf(store, section)|] == EntriesOf(store, section)
    ensures r[section][|EntriesOf(store, section)|] == e
  {
    var es := EntriesOf(store, section) + [e];
    assert es[..|es| - 1] == EntriesOf(store, section);
    store[section := es]
  }

  /** Index `i` holds the first entry of `es` named `field`. */
  ghost predicate FirstMatch(es: seq<Entry>, field: string, i: int)
  {
    0 <= i < |es| && es[i].field == field && forall j :: 0 <= j < i ==> es[j].field != field
  }

  /** No entry of `es` is named `field`. */
  ghost predicate NoMatch(es: seq<Entry>, field: string)
  {
    forall e :: e in es ==> e.field != field
  }

  /** `std::find_if` testing exact field equality: the position of the
      first entry whose field equals `field` exactly, or None for `end()`. */
  function FindField(es: seq<Entry>, field: string): (r: Option<nat>)
    ensures r.None? <==> NoMatch(es, field)
    ensures r.Some? ==> FirstMatch(es, field, r.value)
  {
    if es == [] then None
    else if es[0].field == field then Some(0)
    else
      match FindField(es[1..], field)
      case None =>
        assert forall e :: e in es ==> e == es[0] || e in es[1..];
        None
      case Some(i) => Some(i + 1)
  }

  /** `ReadValueAsString`: the value of the first entry named `field` in
      `section`, or `defaultValue` ("None" when the caller gives none) when
      the section is absent or has no such entry. */
  function ReadString(store: Store, section: string, field: string, defaultValue: string := "None"): (r: string)
    ensures section !in store ==> r == defaultValue
    ensures section in store && NoMatch(store[section], field) ==> r == defaultValue
    ensures section in store ==>
      forall i :: FirstMatch(store[section], field, i) ==> r == store[section][i].value
  {
    if section !in store then defaultValue
    else
      match FindField(store[section], field)
      case None => defaultValue
      case Some(i) => store[section][i].value
  }

  /** `ReadValueAsInteger`: the `std::stoi` reading of the first entry named
      `field` in `section`; `defaultValue` (0 when the caller gives none)
      when the section or the field is absent, or when stoi would throw. */
  function ReadInt(store: Store, section: string, field: string, defaultValue: int := 0): (r: int)
    ensures r == defaultValue || IntMin <= r <= IntMax
    ensures section !in store ==> r == defaultValue
    ensures section in store && NoMatch(store[section], field) ==> r == defaultValue
    ensures section in store ==>
      forall i :: FirstMatch(store[section], field, i) ==>
        r == ValueOr(ParseInt(store[section][i].value), defaultValue)
  {
    if section !in store then defaultValue
    else
      match FindField(store[section], field)
      case None => defaultValue
      case Some(i) => ValueOr(ParseInt(store[section][i].value), defaultValue)
  }

  /** `WriteValue`: in `section`, created if absent, the first entry named
      `field` gets `value` in place; if there is none, a new entry is
      appended. No other entry and no other section changes. */
  function Upsert(store: Store, section: string, field: string, value: string): (r: Store)
    ensures r.Keys == store.Keys + {section}
    ensures forall s :: s in store && s != section ==> r[s] == store[s]
    ensures NoMatch(EntriesOf(store, section), field) ==>
      r[section] == EntriesOf(store, section) + [Entry(field, value)]
    ensures forall i :: FirstMatch(EntriesOf(store, section), field, i) ==>
      r[section] == EntriesOf(store, section)[i := Entry(field, value)]
  {
    var es := EntriesOf(store, section);
    match FindField(es, field)
    case None => store[section := es + [Entry(field, value)]]
    case Some(i) => store[section := es[i := es[i].(value := value)]]
  }

  /** How many entries of `es` are named `field`. */
  function CountField(es: seq<Entry>, field: string): nat
  {
    if es == [] then 0 else (if es[0].field == field then 1 else 0) + CountField(es[1..], field)
  }

  lemma {:induction false} CountFieldNone(es: seq<Entry>, field: string)
    requires NoMatch(es, field)
    ensures CountField(es, field) == 0
  {
    if es != [] {
      assert forall e :: e in es[1..] ==> e in es;
      CountFieldNone(es[1..], field);
    }
  }

  lemma {:induction false} CountFieldAppend(es: seq<Entry>, e: Entry, field: string)
    ensures CountField(es + [e], field) == CountField(es, field) + (if e.field == field then 1 else 0)
  {
    if es != [] {
      assert (es + [e])[1..] == es[1..] + [e];
      CountFieldAppend(es[1..], e, field);
    } else {
      assert es + [e] == [e];
    }
  }

  lemma {:induction false} CountFieldReplace(es: seq<Entry>, i: nat, e: Entry, field: string)
    requires i < |es| && es[i].field == e.field
    ensures CountField(es[i := e], field) == CountField(es, field)
  {
    if i > 0 {
      assert es[i := e][1..] == es[1..][i - 1 := e];
      CountFieldReplace(es[1..], i - 1, e, field);
    } else {
      assert es[i := e][1..] == es[1..];
    }
  }

  /** A read right after a write returns the value written. */
  lemma ReadAfterWrite(store: Store, section: string, field: string, value: string, defaultValue: string)
    ensures ReadString(Upsert(store, section, field, value), section, field, defaultValue) == value
  {
    var es := EntriesOf(store, section);
    var r := Upsert(store, section, field, value);
    match FindField(es, field)
    case None =>
      assert FirstMatch(r[section], field, |es|);
    case Some(i) =>
      assert FirstMatch(r[section], field, i);
  }

  /** A write changes no read of another section or another field. */
  lemma WriteLeavesOtherReads(store: Store, section: string, field: string, value: string,
                              section': string, field': string, defaultValue: string)
    requires section' != section || field' != field
    ensures ReadString(Upsert(store, section, field, value), section', field', defaultValue)
         == ReadString(store, section', field', defaultValue)
  {
    var r := Upsert(store, section, field, value);
    if section' == section {
      var es := EntriesOf(store, section);
      var found, found' := FindField(es, field), FindField(es, field');
      if found'.Some? {
        assert FirstMatch(r[section], field', found'.value);
      } else if found.None? {
        assert NoMatch(r[section], field');
      } else {
        assert NoMatch(r[section], field') by {
          forall e: Entry | e in r[section] ensures e.field != field' {
            var k :| 0 <= k < |r[section]| && r[section][k] == e;
            if k != found.value { assert e == es[k]; }
          }
        }
      }
    }
  }

  /** Writing a field leaves exactly one entry of that name when there was
      none, and as many as before otherwise: repeated writes never add
      duplicates. */
  lemma WriteFieldCount(store: Store, section: string, field: string, value: string)
    ensures var before := CountField(EntriesOf(store, section), field);
      CountField(Upsert(store, section, field, value)[section], field) == if before == 0 then 1 else before
  {
    var es := EntriesOf(store, section);
    match FindField(es, field)
    case None =>
      CountFieldNone(es, field);
      CountFieldAppend(es, Entry(field, value), field);
    case Some(i) =>
      CountFieldReplace(es, i, Entry(field, value), field);
      assert CountField(es, field) > 0 by {
        CountFieldPositive(es, i, field);
      }
  }

  lemma {:induction false} CountFieldPositive(es: seq<Entry>, i: nat, field: string)
    requires i < |es| && es[i].field == field
    ensures CountField(es, field) > 0
  {
    if i > 0 {
      CountFieldPositive(es[1..], i - 1, field);
    }
  }
}
