/** The `IniParser` class (ini-parser.h:11-32): the sections read from a
    file, the name of that file, and the operations on them. Reading the
    file line by line and writing it out are the caller's side here: the
    constructor takes the lines `std::getline` would extract, and `SaveFile`
    returns the text it would write. */
module Ini {
  import opened IniText
  import opened StoI
  import opened IniStore
  import opened IniLoad
  import opened IniSave
  import opened RoundTrip

  /** The value scan of a field line (ini-parser.cpp:47-60): from `start`,
      skip spaces until the first other character, then keep every
      character, spaces included. */
  method ScanValue(line: string, start: nat) returns (value: string)
    requires start <= |line|
    ensures value == DropLeadingSpaces(line[start..])
  {
    var spaceBeforeValue := true;
    value := "";
    var pos := start;
    while pos < |line|
      invariant start <= pos <= |line|
      invariant value == DropLeadingSpaces(line[start..pos])
      invariant spaceBeforeValue == AllSpaces(line[start..pos])
    {
      ScanStep(line, start, pos, spaceBeforeValue, value);
      if line[pos] != ' ' && spaceBeforeValue {
        spaceBeforeValue := false;
      }
      if !spaceBeforeValue {
        value := value + [line[pos]];
      }
      pos := pos + 1;
    }
    assert line[start..pos] == line[start..];
  }

  /** One more character scanned: it keeps the leading run of spaces going,
      or it is appended to the value. */
  lemma ScanStep(line: string, start: nat, pos: nat, spaces: bool, value: string)
    requires start <= pos < |line|
    requires spaces == AllSpaces(line[start..pos]) && value == DropLeadingSpaces(line[start..pos])
    ensures AllSpaces(line[start..pos + 1]) == (spaces && line[pos] == ' ')
    ensures DropLeadingSpaces(line[start..pos + 1]) ==
      if spaces && line[pos] == ' ' then value else value + [line[pos]]
  {
    var scanned := line[start..pos];
    assert line[start..pos + 1] == scanned + [line[pos]];
    DropLeadingSpacesSnoc(scanned, line[pos]);
    if spaces {
      assert DropLeadingSpaces(scanned) == [];
    }
    assert AllSpaces(scanned + [line[pos]]) == (spaces && line[pos] == ' ') by {
      assert forall i :: 0 <= i < |scanned| ==> (scanned + [line[pos]])[i] == scanned[i];
    }
  }

  class IniParser {
    /** `parsed_data`: section name to its entries, in key order on output. */
    var data: Store
    /** `ini_filename`: where `SaveFile` writes. */
    var fileName: string

    /** Reads the file's `lines`: headers switch the current section, any
        other non-empty line appends one entry to it. */
    constructor (fileName: string, lines: seq<string>)
      requires AllLoadable(lines)
      ensures this.fileName == fileName
      ensures data == Load(lines)
    {
      this.fileName := fileName;
      data := map[];
      new;
      var currentSection, currentField := "", "";
      var i := 0;
      while i < |lines|
        invariant i <= |lines|
        invariant AllLoadable(lines[..i])
        invariant Cursor(currentSection, currentField, data) == Run(Start, lines[..i])
        invariant this.fileName == fileName
      {
        ghost var before := Cursor(currentSection, currentField, data);
        RunSnoc(lines, i);
        var raw := lines[i];
        if raw != [] {
          var line := RemoveTabs(raw);
          if line[0] == '[' && line[|line| - 1] == ']' {
            var inner := line[1..|line| - 1];
            if inner != [] {
              currentSection := inner;
            } else {
              currentSection := "Default";
            }
            assert currentSection == SectionName(line);
          } else {
            var equal, space := FindFirst(line, '='), FindFirst(line, ' ');
            if equal.Some? && equal.value != 0 {
              if space.Some? && space.value < equal.value {
                currentField := line[..space.value];
              } else {
                currentField := line[..equal.value];
              }
            }
            // Without '=', npos + 1 wraps around to 0.
            var start := if equal.Some? then equal.value + 1 else 0;
            var value := ScanValue(line, start);
            data := PushBack(data, currentSection, Entry(currentField, value));
            assert currentField == FieldOf(line, before.field) && start == ValueStart(line);
          }
        }
        assert Cursor(currentSection, currentField, data) == Feed(before, raw);
        i := i + 1;
      }
      assert lines[..i] == lines;
    }

    /** `ReadValueAsString`: the value of the first entry named `field`
        in `section`, or `defaultValue` when there is none. */
    function ReadValueAsString(section: string, field: string, defaultValue: string := "None"): (r: string)
      reads this
      ensures section !in data ==> r == defaultValue
      ensures section in data && NoMatch(data[section], field) ==> r == defaultValue
      ensures section in data ==>
        forall i :: FirstMatch(data[section], field, i) ==> r == data[section][i].value
    {
      ReadString(data, section, field, defaultValue)
    }

    /** `ReadValueAsInteger`: stoi of the first entry named `field` in
        `section`, or `defaultValue` when there is none or stoi throws. */
    function ReadValueAsInteger(section: string, field: string, defaultValue: int := 0): (r: int)
      reads this
      ensures r == defaultValue || IntMin <= r <= IntMax
      ensures section !in data ==> r == defaultValue
      ensures section in data && NoMatch(data[section], field) ==> r == defaultValue
      ensures section in data ==>
        forall i :: FirstMatch(data[section], field, i) ==>
          r == ValueOr(ParseInt(data[section][i].value), defaultValue)
    {
      ReadInt(data, section, field, defaultValue)
    }

    /** `WriteValue`: sets the first entry named `field` in `section`, or
        appends one; afterwards reading it gives `value`. */
    method WriteValue(section: string, field: string, value: string)
      modifies this`data
      ensures data == Upsert(old(data), section, field, value)
      ensures ReadValueAsString(section, field) == value
    {
      var entries := EntriesOf(data, section);
      var found := FindField(entries, field);
      if found.Some? {
        data := data[section := entries[found.value := entries[found.value].(value := value)]];
      } else {
        data := data[section := entries + [Entry(field, value)]];
      }
      ReadAfterWrite(old(data), section, field, value, "None");
    }

    /** `SaveFile`: the text written to `fileName`. Sections come in key
        order, each but the first after a blank line, every entry as
        `field = value`; the section "" is skipped. */
    method SaveFile() returns (text: string)
      ensures text == Serialize(data)
    {
      var currentSection := "";
      text := "";
      var remaining := data.Keys;
      UnwrittenAll(data);
      while remaining != {}
        invariant remaining <= data.Keys
        invariant currentSection != "" ==> currentSection !in remaining
        invariant "" in remaining ==> currentSection == ""
        invariant text + Unwritten(data, remaining, currentSection == "") == Serialize(data)
        decreases |remaining|
      {
        LeastExists(remaining);
        var key :| key in remaining && IsLeast(key, remaining);
        var rest := remaining - {key};
        if currentSection != key {
          ghost var before, first := text, currentSection == "";
          ghost var header := if first then "[" + key + "]\n" else "\n[" + key + "]\n";
          if currentSection == "" {
            text := text + ("[" + key + "]\n");
          } else {
            text := text + ("\n[" + key + "]\n");
          }
          assert text == before + header;
          currentSection := key;
          var entries := EntriesText(data[key]);
          text := text + entries;
          SaveStepAfter(data, remaining, key, first, before);
        } else {
          UnwrittenSkip(data, remaining, currentSection == "");
        }
        remaining := rest;
      }
      UnwrittenNone(data, currentSection == "");
    }
  }

  /** The lines of a section's entries, each `field = value`. */
  method EntriesText(entries: seq<Entry>) returns (text: string)
    ensures text == Join(EntryLines(entries))
  {
    text := "";
    var j := 0;
    while j < |entries|
      invariant j <= |entries|
      invariant text == Join(EntryLines(entries[..j]))
    {
      JoinEntryLinesSnoc(entries, j);
      text := text + (entries[j].field + " = " + entries[j].value + "\n");
      j := j + 1;
    }
    assert entries[..j] == entries;
  }

  /** One more line, on the function side. */
  lemma RunSnoc(lines: seq<string>, i: nat)
    requires i < |lines| && AllLoadable(lines)
    ensures Loadable(lines[i]) && AllLoadable(lines[..i]) && AllLoadable(lines[..i + 1])
    ensures Run(Start, lines[..i + 1]) == Feed(Run(Start, lines[..i]), lines[i])
  {
    assert lines[i] in lines;
    assert forall l :: l in lines[..i + 1] ==> l in lines;
    assert lines[..i + 1] == lines[..i] + [lines[i]];
    RunAppend(Start, lines[..i], [lines[i]]);
    RunOne(Run(Start, lines[..i]), lines[i]);
  }

  /** One more entry adds its line to the text. */
  lemma JoinEntryLinesSnoc(es: seq<Entry>, j: nat)
    requires j < |es|
    ensures Join(EntryLines(es[..j + 1])) == Join(EntryLines(es[..j])) + (es[j].field + " = " + es[j].value + "\n")
  {
    assert EntryLines(es[..j + 1]) == EntryLines(es[..j]) + [EntryLine(es[j])];
    JoinAppend(EntryLines(es[..j]), [EntryLine(es[j])]);
  }

  /** What `SaveFile` still has to write once only the keys `remaining`
      are left to visit. */
  ghost function Unwritten(data: Store, remaining: set<string>, first: bool): string
    requires remaining <= data.Keys
  {
    Join(SectionsLines(SortedKeys(remaining - {""}), data, first))
  }

  /** Before the loop, everything is left to write. */
  lemma UnwrittenAll(data: Store)
    ensures Unwritten(data, data.Keys, true) == Serialize(data)
  {
  }

  /** After the loop, nothing is. */
  lemma UnwrittenNone(data: Store, first: bool)
    ensures Unwritten(data, {}, first) == ""
  {
    assert {} - {""} == {};
  }

  /** Visiting the key "" writes nothing. */
  lemma UnwrittenSkip(data: Store, remaining: set<string>, first: bool)
    requires remaining <= data.Keys
    ensures Unwritten(data, remaining - {""}, first) == Unwritten(data, remaining, first)
  {
    assert remaining - {""} - {""} == remaining - {""};
  }

  /** Visiting the least remaining key writes its section. */
  lemma SaveStep(data: Store, remaining: set<string>, key: string, first: bool)
    requires remaining <= data.Keys && IsLeast(key, remaining) && key != ""
    ensures Unwritten(data, remaining, first)
        == (if first then "[" + key + "]\n" else "\n[" + key + "]\n")
           + Join(EntryLines(data[key])) + Unwritten(data, remaining - {key}, false)
  {
    var keys := remaining - {""};
    assert IsLeast(key, keys);
    SortedKeysOfLeast(keys, key);
    assert keys - {key} == remaining - {key} - {""};
    var names := SortedKeys(keys);
    var names' := SortedKeys(keys - {key});
    var section := SectionLines(key, data[key], first);
    var others := SectionsLines(names', data, false);
    assert SectionsLines(names, data, first) == section + others;
    JoinAppend(section, others);
    SectionText(key, data[key], first);
  }

  /** The same, after the text already `written`. */
  lemma SaveStepAfter(data: Store, remaining: set<string>, key: string, first: bool, written: string)
    requires remaining <= data.Keys && IsLeast(key, remaining) && key != ""
    ensures written + Unwritten(data, remaining, first)
        == written + (if first then "[" + key + "]\n" else "\n[" + key + "]\n")
           + Join(EntryLines(data[key])) + Unwritten(data, remaining - {key}, false)
  {
    SaveStep(data, remaining, key, first);
    var header := if first then "[" + key + "]\n" else "\n[" + key + "]\n";
    Regroup(written, header, Join(EntryLines(data[key])), Unwritten(data, remaining - {key}, false));
  }

  /** The text of one section: its header line, then its entry lines. */
  lemma SectionText(name: string, es: seq<Entry>, first: bool)
    ensures Join(SectionLines(name, es, first))
      == (if first then "[" + name + "]\n" else "\n[" + name + "]\n") + Join(EntryLines(es))
  {
    var blank: seq<string> := if first then [] else [""];
    var head := blank + [HeaderLine(name)];
    JoinAppend(head, EntryLines(es));
    JoinAppend(blank, [HeaderLine(name)]);
    assert Join([HeaderLine(name)]) == "[" + name + "]\n";
  }
}
