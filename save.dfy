/** `SaveFile` (ini-parser.cpp:175-205) as the text it writes. A
    `std::map` visits its keys in ascending `compare` order; the section
    named "" is never written, because the loop only writes a section whose
    name differs from the last one written, and that starts as "". */
module IniSave {
  import opened IniText
  import opened IniStore

  /** `k` is the smallest string of `keys`. */
  predicate IsLeast(k: string, keys: set<string>)
  {
    k in keys && forall y :: y in keys && y != k ==> LexLess(k, y)
  }

  lemma {:induction false} LeastExists(keys: set<string>)
    requires keys != {}
    ensures exists k :: IsLeast(k, keys)
    decreases |keys|
  {
    var x :| x in keys;
    if keys != {x} {
      var others := keys - {x};
      LeastExists(others);
      var m :| IsLeast(m, others);
      LexLessTotal(x, m);
      if LexLess(x, m) {
        forall y | y in keys && y != x ensures LexLess(x, y) {
          if y != m { LexLessTransitive(x, m, y); }
        }
        assert IsLeast(x, keys);
      } else {
        assert IsLeast(m, keys);
      }
    } else {
      assert IsLeast(x, keys);
    }
  }

  lemma LeastUnique(a: string, b: string, keys: set<string>)
    requires IsLeast(a, keys) && IsLeast(b, keys)
    ensures a == b
  {
    if a != b {
      assert LexLess(a, b) && LexLess(b, a);
      LexLessTransitive(a, b, a);
      LexLessIrreflexive(a);
    }
  }

  /** The first key a `std::map` with these keys visits. */
  ghost function Least(keys: set<string>): (k: string)
    requires keys != {}
    ensures IsLeast(k, keys)
  {
    LeastExists(keys);
    var k :| IsLeast(k, keys);
    k
  }

  /** The keys in the order a `std::map` visits them: strictly ascending,
      each exactly once. */
  ghost function SortedKeys(keys: set<string>): (r: seq<string>)
    ensures forall i, j :: 0 <= i < j < |r| ==> LexLess(r[i], r[j])
    ensures forall k :: k in keys <==> k in r
    ensures |r| == |keys|
    decreases |keys|
  {
    if keys == {} then []
    else
      var k := Least(keys);
      var rest := SortedKeys(keys - {k});
      assert forall j :: 0 <= j < |rest| ==> rest[j] in keys - {k};
      [k] + rest
  }

  lemma SortedKeysOfLeast(keys: set<string>, k: string)
    requires IsLeast(k, keys)
    ensures SortedKeys(keys) == [k] + SortedKeys(keys - {k})
  {
    LeastUnique(k, Least(keys), keys);
  }

  function HeaderLine(name: string): string
  {
    "[" + name + "]"
  }

  function EntryLine(e: Entry): string
  {
    e.field + " = " + e.value
  }

  function EntryLines(es: seq<Entry>): (lines: seq<string>)
    ensures |lines| == |es|
    ensures forall i :: 0 <= i < |es| ==> lines[i] == EntryLine(es[i])
  {
    if es == [] then [] else [EntryLine(es[0])] + EntryLines(es[1..])
  }

  /** The lines of one section: a blank line unless it is the first one
      written, its header, then one line per entry in order. */
  function SectionLines(name: string, es: seq<Entry>, first: bool): seq<string>
  {
    (if first then [] else [""]) + [HeaderLine(name)] + EntryLines(es)
  }

  /** The lines of the sections `names`, in that order. */
  function SectionsLines(names: seq<string>, store: Store, first: bool): seq<string>
    requires forall k :: k in names ==> k in store
  {
    if names == [] then []
    else SectionLines(names[0], store[names[0]], first) + SectionsLines(names[1..], store, false)
  }

  /** The lines `SaveFile` writes: every section but "", in key order. */
  ghost function SaveLines(store: Store): seq<string>
  {
    SectionsLines(SortedKeys(store.Keys - {""}), store, true)
  }

  /** The text `SaveFile` writes, each line ended by '\n'. */
  ghost function Serialize(store: Store): string
  {
    Join(SaveLines(store))
  }

  lemma {:induction false} SectionsLinesOnlyRead(names: seq<string>, store: Store, other: Store, first: bool)
    requires forall k :: k in names ==> k in store && k in other && store[k] == other[k]
    ensures SectionsLines(names, store, first) == SectionsLines(names, other, first)
  {
    if names != [] {
      SectionsLinesOnlyRead(names[1..], store, other, false);
    }
  }

  /** Whatever the section "" holds, it never reaches the file. */
  lemma SerializeSkipsUnnamedSection(store: Store)
    ensures Serialize(store) == Serialize(store - {""})
  {
    assert store.Keys - {""} == (store - {""}).Keys - {""};
    SectionsLinesOnlyRead(SortedKeys(store.Keys - {""}), store, store - {""}, true);
  }
}
