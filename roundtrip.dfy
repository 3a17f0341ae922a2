/** Saving and loading again: the lines of the text `SaveFile` writes, read
    back by the constructor, give the same store, provided nothing in it is
    lost or changed by the text format (see `Savable`). */
module RoundTrip {
  import opened IniText
  import opened IniStore
  import opened IniLoad
  import opened IniSave

  /** A section name that comes back from its header line: not "" (that
      section is never written), and without a tab (erased on reading) or a
      line break. */
  predicate SavableName(name: string)
  {
    name != [] && '\t' !in name && '\n' !in name
  }

  /** An entry that comes back from its `field = value` line. The field has
      no space or '=' (either would end it early), the value does not start
      with a space (it would be dropped), neither has a tab or a line break,
      and the line does not look like a header. */
  predicate SavableEntry(e: Entry)
  {
    && ' ' !in e.field && '=' !in e.field && '\t' !in e.field && '\n' !in e.field
    && '\t' !in e.value && '\n' !in e.value && (e.value == [] || e.value[0] != ' ')
    && !IsHeader(EntryLine(e))
  }

  /** Every entry of `es` is savable. */
  predicate SavableEntries(es: seq<Entry>)
  {
    es == [] || (SavableEntry(es[0]) && SavableEntries(es[1..]))
  }

  /** A store whose text form loads back to itself. Every section must also
      hold an entry: a header alone creates no section on loading. */
  predicate Savable(store: Store)
  {
    forall k :: k in store ==>
      SavableName(k) && store[k] != [] && SavableEntries(store[k])
  }

  /** No name is listed twice. */
  predicate Distinct(names: seq<string>)
  {
    forall i, j :: 0 <= i < j < |names| ==> names[i] != names[j]
  }

  /** A line without tabs or line breaks. */
  predicate Clean(line: string)
  {
    '\t' !in line && '\n' !in line
  }

  lemma CleanLoadable(line: string)
    requires Clean(line)
    ensures Loadable(line)
  {
    if line != [] {
      assert line[0] != '\t';
    }
  }

  lemma {:induction false} EntryLinesClean(es: seq<Entry>)
    requires SavableEntries(es)
    ensures forall l :: l in EntryLines(es) ==> Clean(l) && l != []
  {
    if es != [] {
      EntryLinesClean(es[1..]);
      var line := EntryLine(es[0]);
      assert line == es[0].field + " = " + es[0].value;
      assert line[|es[0].field|] == ' ';
      assert EntryLines(es) == [line] + EntryLines(es[1..]);
    }
  }

  lemma {:induction false} SectionsLinesClean(names: seq<string>, store: Store, first: bool)
    requires forall k :: k in names ==> k in store
    requires Savable(store)
    ensures forall l :: l in SectionsLines(names, store, first) ==> Clean(l)
    decreases |names|
  {
    if names != [] {
      var k := names[0];
      assert k in names;
      EntryLinesClean(store[k]);
      assert Clean(HeaderLine(k));
      assert forall k' :: k' in names[1..] ==> k' in names;
      SectionsLinesClean(names[1..], store, false);
    }
  }

  /** The state after an entry line that reads back as `e`. */
  function AfterEntry(c: Cursor, e: Entry): Cursor
  {
    c.(field := e.field, data := PushBack(c.data, c.section, e))
  }

  /** An entry line appends exactly that entry to the current section. */
  lemma FeedEntryLine(c: Cursor, e: Entry)
    requires SavableEntry(e)
    ensures Loadable(EntryLine(e))
    ensures Feed(c, EntryLine(e)) == AfterEntry(c, e)
  {
    var line := EntryLine(e);
    assert line == e.field + " " + "=" + " " + e.value;
    assert line[|e.field|] == ' ';
    ParseFieldLine(e.field, " ", " ", e.value, c.field);
    assert RemoveTabs(line) == line;
  }

  /** Lines without tabs can all be loaded. */
  lemma CleanLinesLoadable(lines: seq<string>)
    requires forall l :: l in lines ==> Clean(l)
    ensures AllLoadable(lines)
  {
    forall l | l in lines ensures Loadable(l) { CleanLoadable(l); }
  }

  /** An entry line, run on its own, appends its entry. */
  lemma RunEntryLine(c: Cursor, e: Entry)
    requires SavableEntry(e)
    ensures AllLoadable([EntryLine(e)])
    ensures Run(c, [EntryLine(e)]) == AfterEntry(c, e)
  {
    FeedEntryLine(c, e);
    RunOne(c, EntryLine(e));
  }

  /** The first entry line of a section appends its entry, then the loop
      goes on with the others. */
  lemma RunEntryLinesCons(c: Cursor, es: seq<Entry>)
    requires es != [] && SavableEntries(es)
    ensures AllLoadable(EntryLines(es)) && AllLoadable(EntryLines(es[1..]))
    ensures Run(c, EntryLines(es)) == Run(AfterEntry(c, es[0]), EntryLines(es[1..]))
  {
    EntryLinesClean(es);
    EntryLinesClean(es[1..]);
    CleanLinesLoadable(EntryLines(es));
    CleanLinesLoadable(EntryLines(es[1..]));
    var line := EntryLine(es[0]);
    RunEntryLine(c, es[0]);
    assert EntryLines(es) == [line] + EntryLines(es[1..]);
    RunAppend(c, [line], EntryLines(es[1..]));
  }

  lemma AfterEntryThenRest(c: Cursor, es: seq<Entry>)
    requires es != []
    ensures var c' := AfterEntry(c, es[0]);
      c'.section == c.section &&
      (if es[1..] == [] then c'.data else c'.data[c.section := EntriesOf(c'.data, c.section) + es[1..]])
        == c.data[c.section := EntriesOf(c.data, c.section) + es]
  {
    var before := EntriesOf(c.data, c.section);
    var c' := AfterEntry(c, es[0]);
    assert EntriesOf(c'.data, c.section) == before + [es[0]];
    if es[1..] == [] {
      assert es == [es[0]];
    } else {
      assert before + [es[0]] + es[1..] == before + es;
    }
  }

  /** The entry lines of a section append its entries, in order. */
  lemma {:induction false} RunEntryLines(c: Cursor, es: seq<Entry>)
    requires SavableEntries(es)
    ensures AllLoadable(EntryLines(es))
    ensures Run(c, EntryLines(es)).section == c.section
    ensures Run(c, EntryLines(es)).data ==
      if es == [] then c.data else c.data[c.section := EntriesOf(c.data, c.section) + es]
    decreases |es|
  {
    EntryLinesClean(es);
    if es != [] {
      RunEntryLinesCons(c, es);
      RunEntryLines(AfterEntry(c, es[0]), es[1..]);
      AfterEntryThenRest(c, es);
    }
  }

  /** A header line only switches to its section. */
  lemma FeedHeaderLine(c: Cursor, name: string)
    requires SavableName(name)
    ensures Loadable(HeaderLine(name))
    ensures Feed(c, HeaderLine(name)) == c.(section := name)
  {
    var header := HeaderLine(name);
    assert RemoveTabs(header) == header;
    assert header[1..|header| - 1] == name;
  }

  /** The lines of one section, read after other sections, add exactly
      that section. */
  lemma RunSectionLines(c: Cursor, name: string, es: seq<Entry>, first: bool)
    requires SavableName(name) && name !in c.data
    requires es != [] && SavableEntries(es)
    ensures AllLoadable(SectionLines(name, es, first))
    ensures Run(c, SectionLines(name, es, first)).data == c.data[name := es]
  {
    var blank: seq<string> := if first then [] else [""];
    var header := HeaderLine(name);
    assert AllLoadable(blank) && Run(c, blank) == c by {
      if !first { RunOne(c, ""); }
    }
    FeedHeaderLine(c, name);
    RunOne(c, header);
    RunEntryLines(c.(section := name), es);
    RunAppend(c, blank, [header]);
    RunAppend(c, blank + [header], EntryLines(es));
    assert SectionLines(name, es, first) == blank + [header] + EntryLines(es);
  }

  lemma SectionsLinesLoadable(names: seq<string>, store: Store, first: bool)
    requires forall k :: k in names ==> k in store
    requires Savable(store)
    ensures AllLoadable(SectionsLines(names, store, first))
  {
    SectionsLinesClean(names, store, first);
    CleanLinesLoadable(SectionsLines(names, store, first));
  }

  /** Adding the first section, then the others, adds them all. */
  lemma AddSections(data: Store, names: seq<string>, store: Store)
    requires names != [] && forall k :: k in names ==> k in store
    ensures data[names[0] := store[names[0]]] + (map k | k in names[1..] :: store[k])
         == data + map k | k in names :: store[k]
  {
    assert forall k :: k in names <==> k == names[0] || k in names[1..];
  }

  /** The lines of several sections, each named once and none read yet,
      add exactly those sections. */
  lemma {:induction false} RunSectionsLines(c: Cursor, names: seq<string>, store: Store, first: bool)
    requires forall k :: k in names ==> k in store && k !in c.data
    requires Distinct(names)
    requires Savable(store)
    ensures AllLoadable(SectionsLines(names, store, first))
    ensures Run(c, SectionsLines(names, store, first)).data == c.data + map k | k in names :: store[k]
    decreases |names|
  {
    SectionsLinesLoadable(names, store, first);
    if names != [] {
      var k, rest := names[0], names[1..];
      assert k in names;
      var head := SectionLines(k, store[k], first);
      RunSectionLines(c, k, store[k], first);
      var c' := Run(c, head);
      assert forall k' :: k' in rest ==> k' in names && k' != k;
      SectionsLinesLoadable(rest, store, false);
      RunSectionsLines(c', rest, store, false);
      RunAppend(c, head, SectionsLines(rest, store, false));
      AddSections(c.data, names, store);
    }
  }

  /** The keys of a store in map order are each listed once. */
  lemma SortedKeysDistinct(keys: set<string>)
    ensures Distinct(SortedKeys(keys))
  {
    var names := SortedKeys(keys);
    forall i, j | 0 <= i < j < |names| ensures names[i] != names[j] {
      if names[i] == names[j] { LexLessIrreflexive(names[i]); }
    }
  }

  /** Adding every section of `store` to nothing gives `store`. */
  lemma AddAllSections(names: seq<string>, store: Store)
    requires forall k :: k in names <==> k in store
    ensures Start.data + (map k | k in names :: store[k]) == store
  {
    var added := map k | k in names :: store[k];
    assert added.Keys == store.Keys;
    assert Start.data + added == added;
  }

  /** Loading the lines `SaveFile` writes gives back the store. */
  lemma LoadSaveLines(store: Store)
    requires Savable(store)
    ensures AllLoadable(SaveLines(store))
    ensures Load(SaveLines(store)) == store
  {
    assert store.Keys - {""} == store.Keys;
    var names := SortedKeys(store.Keys);
    SortedKeysDistinct(store.Keys);
    RunSectionsLines(Start, names, store, true);
    AddAllSections(names, store);
  }

  /** No line `SaveFile` writes holds a line break. */
  lemma SaveLinesUnbroken(store: Store)
    requires Savable(store)
    ensures forall i :: 0 <= i < |SaveLines(store)| ==> '\n' !in SaveLines(store)[i]
  {
    assert store.Keys - {""} == store.Keys;
    var lines := SectionsLines(SortedKeys(store.Keys), store, true);
    SectionsLinesClean(SortedKeys(store.Keys), store, true);
    forall i | 0 <= i < |lines| ensures '\n' !in lines[i] {
      assert lines[i] in lines;
    }
  }

  /** Loading what `SaveFile` writes gives back the store: the text splits
      back into the lines written, and those load to the store. */
  lemma SaveThenLoad(store: Store)
    requires Savable(store)
    ensures AllLoadable(GetLines(Serialize(store)))
    ensures Load(GetLines(Serialize(store))) == store
  {
    SaveLinesUnbroken(store);
    GetLinesJoin(SaveLines(store));
    LoadSaveLines(store);
  }
}
