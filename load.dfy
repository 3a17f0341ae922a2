/** What the `IniParser` constructor does with the lines of the file
    (ini-parser.cpp:10-64), as functions. The loop carries the current
    section, the current field name (never reset between lines) and the
    store built so far; `Feed` is the effect of one line, `Run` of many, and
    `Load` of a whole file read from an empty state. */
module IniLoad {
  import opened IniText
  import opened IniStore

  /** The state the constructor's loop carries from line to line. */
  datatype Cursor = Cursor(section: string, field: string, data: Store)

  /** Before the first line: no section yet (the name ""), no field yet,
      nothing stored. */
  const Start: Cursor := Cursor("", "", map[])

  /** A line the constructor can process: an empty one, or one that keeps a
      character once its tabs are erased. On a line of tabs only the
      constructor calls `front()` on an empty string, which is undefined. */
  predicate Loadable(raw: string)
  {
    raw == [] || exists i :: 0 <= i < |raw| && raw[i] != '\t'
  }

  predicate AllLoadable(lines: seq<string>)
  {
    forall l :: l in lines ==> Loadable(l)
  }

  /** A section header: first character '[' and last character ']'. */
  predicate IsHeader(line: string)
  {
    line != [] && line[0] == '[' && line[|line| - 1] == ']'
  }

  /** The section a header switches to: the text between the brackets, or
      "Default" when there is none. */
  function SectionName(line: string): (name: string)
    requires IsHeader(line)
    ensures name != []
    ensures |line| > 2 ==> name == line[1..|line| - 1]
    ensures |line| <= 2 ==> name == "Default"
  {
    var inner := line[1..|line| - 1];
    if inner != [] then inner else "Default"
  }

  /** `current_field` after a field line (ini-parser.cpp:33-45). */
  function FieldOf(line: string, previous: string): (field: string)
    ensures '=' in line && line[0] != '=' ==>
      && |field| < |line|
      && field == line[..|field|]
      && ' ' !in field && '=' !in field
      && (line[|field|] == ' ' || line[|field|] == '=')
    ensures !('=' in line && line[0] != '=') ==> field == previous
  {
    var equal, space := FindFirst(line, '='), FindFirst(line, ' ');
    if equal.Some? && equal.value != 0 then
      if space.Some? && space.value < equal.value then line[..space.value] else line[..equal.value]
    else previous
  }

  /** Where the value scan starts: just after the first '='. Without one,
      `find_first_of` returns `npos`, and `npos + 1` wraps around to 0. */
  function ValueStart(line: string): (k: nat)
    ensures k <= |line|
    ensures '=' !in line ==> k == 0
    ensures '=' in line ==> 0 < k && line[k - 1] == '=' && '=' !in line[..k - 1]
  {
    match FindFirst(line, '=')
    case None => 0
    case Some(i) => i + 1
  }

  predicate AllSpaces(s: string)
  {
    forall i :: 0 <= i < |s| ==> s[i] == ' '
  }

  /** `s` without its leading spaces; spaces further on are kept. */
  function DropLeadingSpaces(s: string): (r: string)
    ensures |r| <= |s|
    ensures r == [] <==> AllSpaces(s)
    ensures r != [] ==> r[0] != ' '
  {
    if s != [] && s[0] == ' ' then DropLeadingSpaces(s[1..]) else s
  }

  /** What is dropped is a run of spaces, and what is kept is the rest of
      `s`, unchanged. */
  lemma {:induction false} DropLeadingSpacesSuffix(s: string)
    ensures var r := DropLeadingSpaces(s);
      r == s[|s| - |r|..] && AllSpaces(s[..|s| - |DropLeadingSpaces(s)|])
  {
    if s != [] && s[0] == ' ' {
      DropLeadingSpacesSuffix(s[1..]);
      var k := |s| - |DropLeadingSpaces(s)|;
      assert s[1..][k - 1..] == s[k..];
      assert s[..k] == [s[0]] + s[1..][..k - 1];
    }
  }

  /** `current_value` after a field line (ini-parser.cpp:47-60). */
  function ValueOf(line: string): (value: string)
    ensures '=' !in line ==> value == DropLeadingSpaces(line)
  {
    DropLeadingSpaces(line[ValueStart(line)..])
  }

  /** One pass of the constructor's loop over the line `raw`. */
  function Feed(c: Cursor, raw: string): Cursor
    requires Loadable(raw)
  {
    if raw == [] then c
    else
      var line := RemoveTabs(raw);
      if IsHeader(line) then c.(section := SectionName(line))
      else
        var field := FieldOf(line, c.field);
        c.(field := field, data := PushBack(c.data, c.section, Entry(field, ValueOf(line))))
  }

  /** The loop over `lines`, from the state `c`. */
  function Run(c: Cursor, lines: seq<string>): Cursor
    requires AllLoadable(lines)
    decreases |lines|
  {
    if lines == [] then c else Run(Feed(c, lines[0]), lines[1..])
  }

  /** The store the constructor builds from the lines of a file. */
  function Load(lines: seq<string>): Store
    requires AllLoadable(lines)
  {
    Run(Start, lines).data
  }

  /** What one line does. An empty line does nothing. A header only switches
      the section, to the bracketed text or "Default", and creates nothing.
      Any other line appends exactly one entry to the current section,
      creating it if needed, and changes no other entry or section. */
  lemma FeedEffect(c: Cursor, raw: string)
    requires Loadable(raw)
    ensures raw == [] ==> Feed(c, raw) == c
    ensures raw != [] && IsHeader(RemoveTabs(raw)) ==>
      var line := RemoveTabs(raw);
      && Feed(c, raw).data == c.data
      && Feed(c, raw).field == c.field
      && (|line| > 2 ==> Feed(c, raw).section == line[1..|line| - 1])
      && (|line| <= 2 ==> Feed(c, raw).section == "Default")
    ensures raw != [] && !IsHeader(RemoveTabs(raw)) ==>
      var before, after := EntriesOf(c.data, c.section), Feed(c, raw).data;
      && Feed(c, raw).section == c.section
      && Feed(c, raw).field == FieldOf(RemoveTabs(raw), c.field)
      && after.Keys == c.data.Keys + {c.section}
      && (forall s :: s in c.data && s != c.section ==> after[s] == c.data[s])
      && |after[c.section]| == |before| + 1
      && after[c.section][..|before|] == before
      && after[c.section][|before|] == Entry(FieldOf(RemoveTabs(raw), c.field), ValueOf(RemoveTabs(raw)))
  {
  }

  /** The current field carries over: a line without '=' is stored under
      the field of the line before it. */
  lemma FieldCarriesOver()
    ensures AllLoadable(["k=v", "y"])
    ensures Load(["k=v", "y"]) == map["" := [Entry("k", "v"), Entry("k", "y")]]
  {
    var lines: seq<string> := ["k=v", "y"];
    var first := Cursor("", "k", map["" := [Entry("k", "v")]]);
    FeedKeyValue();
    FeedBareWord(first);
    assert lines[1..] == ["y"];
    RunOne(first, "y");
  }

  lemma FeedKeyValue()
    ensures Loadable("k=v")
    ensures Feed(Start, "k=v") == Cursor("", "k", map["" := [Entry("k", "v")]])
  {
    assert "k=v"[0] != '\t';
    assert RemoveTabs("k=v") == "k=v";
    assert "k=v"[1] == '=' && "k=v"[0] != '=';
    assert FindFirst("k=v", '=') == Some(1);
    assert ' ' !in "k=v";
    assert "k=v"[2..] == "v" && "v"[0] != ' ';
    assert ValueOf("k=v") == "v";
  }

  lemma FeedBareWord(c: Cursor)
    requires c == Cursor("", "k", map["" := [Entry("k", "v")]])
    ensures Loadable("y")
    ensures Feed(c, "y") == Cursor("", "k", map["" := [Entry("k", "v"), Entry("k", "y")]])
  {
    assert "y"[0] != '\t';
    assert RemoveTabs("y") == "y" && !IsHeader("y");
    assert '=' !in "y";
    assert FieldOf("y", "k") == "k";
    assert ValueOf("y") == "y" by {
      assert "y"[0] != ' ';
    }
    assert [Entry("k", "v")] + [Entry("k", "y")] == [Entry("k", "v"), Entry("k", "y")];
  }

  /** One line, run on its own, is one pass of the loop. */
  lemma RunOne(c: Cursor, line: string)
    requires Loadable(line)
    ensures AllLoadable([line]) && Run(c, [line]) == Feed(c, line)
  {
    assert Run(c, [line]) == Run(Feed(c, line), []);
  }

  /** Running the loop over two pieces in turn is running it over both. */
  lemma {:induction false} RunAppend(c: Cursor, a: seq<string>, b: seq<string>)
    requires AllLoadable(a) && AllLoadable(b)
    ensures AllLoadable(a + b)
    ensures Run(c, a + b) == Run(Run(c, a), b)
    decreases |a|
  {
    assert forall l :: l in a + b ==> l in a || l in b;
    if a != [] {
      assert (a + b)[1..] == a[1..] + b;
      assert forall l :: l in a[1..] ==> l in a;
      RunAppend(Feed(c, a[0]), a[1..], b);
    } else {
      assert a + b == b;
    }
  }

  /** Every section the loop builds holds at least one entry: only an
      entry line creates a section, a header alone never does. */
  lemma {:induction false} RunKeepsSectionsFilled(c: Cursor, lines: seq<string>)
    requires AllLoadable(lines)
    requires forall s :: s in c.data ==> c.data[s] != []
    ensures forall s :: s in Run(c, lines).data ==> Run(c, lines).data[s] != []
    decreases |lines|
  {
    if lines != [] {
      assert lines[0] in lines;
      assert forall l :: l in lines[1..] ==> l in lines;
      RunKeepsSectionsFilled(Feed(c, lines[0]), lines[1..]);
    }
  }

  /** A loaded file has no empty section. */
  lemma LoadHasNoEmptySection(lines: seq<string>)
    requires AllLoadable(lines)
    ensures forall s :: s in Load(lines) ==> Load(lines)[s] != []
  {
    RunKeepsSectionsFilled(Start, lines);
  }

  /** Adding a character to the scanned text: while only spaces have been
      seen and the new one is a space too, the value stays empty; otherwise
      the character is appended to it. */
  lemma {:induction false} DropLeadingSpacesSnoc(s: string, ch: char)
    ensures DropLeadingSpaces(s + [ch]) ==
      if AllSpaces(s) && ch == ' ' then [] else DropLeadingSpaces(s) + [ch]
  {
    var t := s + [ch];
    if s == [] {
      assert t == [ch] && t[1..] == [];
    } else {
      assert t[0] == s[0] && t[1..] == s[1..] + [ch];
      if s[0] == ' ' {
        DropLeadingSpacesSnoc(s[1..], ch);
        assert AllSpaces(s) <==> AllSpaces(s[1..]) by {
          assert forall i :: 1 <= i < |s| ==> s[i] == s[1..][i - 1];
        }
      } else {
        assert !AllSpaces(s);
      }
    }
  }

  lemma FindFirstAt(s: string, c: char, k: nat)
    requires k < |s| && s[k] == c
    requires forall i :: 0 <= i < k ==> s[i] != c
    ensures FindFirst(s, c) == Some(k)
  {
    var r := FindFirst(s, c);
    assert s[k] in s;
  }

  lemma {:induction false} DropSpacesBefore(gap: string, value: string)
    requires AllSpaces(gap)
    requires value == [] || value[0] != ' '
    ensures DropLeadingSpaces(gap + value) == value
  {
    if gap != [] {
      assert (gap + value)[1..] == gap[1..] + value;
      DropSpacesBefore(gap[1..], value);
    } else {
      assert gap + value == value;
    }
  }

  /** A field line `field gap1 = gap2 value`, with gaps of spaces, reads
      as `field` and `value` when the field has no space or '=', '=' is not
      the first character, and the value does not start with a space. */
  lemma ParseFieldLine(field: string, gap1: string, gap2: string, value: string, previous: string)
    requires ' ' !in field && '=' !in field
    requires AllSpaces(gap1) && AllSpaces(gap2)
    requires field != [] || gap1 != []
    requires value == [] || value[0] != ' '
    ensures FieldOf(field + gap1 + "=" + gap2 + value, previous) == field
    ensures ValueOf(field + gap1 + "=" + gap2 + value) == value
  {
    var head, rest := field + gap1, gap2 + value;
    var line := field + gap1 + "=" + gap2 + value;
    assert line == head + "=" + rest;
    assert '=' !in head by {
      assert forall i :: 0 <= i < |head| ==> head[i] == if i < |field| then field[i] else gap1[i - |field|];
    }
    EqualSignAfter(head, rest);
    DropSpacesBefore(gap2, value);
    assert line[..|field|] == field;
    assert line[|field|] == if gap1 == [] then '=' else ' ';
    FieldOfPrefix(line, field, previous);
  }

  /** The first '=' of `head = rest` when `head` has none. */
  lemma EqualSignAfter(head: string, rest: string)
    requires '=' !in head
    ensures FindFirst(head + "=" + rest, '=') == Some(|head|)
    ensures (head + "=" + rest)[|head| + 1..] == rest
  {
    var line := head + "=" + rest;
    assert forall i :: 0 <= i < |head| ==> line[i] == head[i];
    FindFirstAt(line, '=', |head|);
  }

  /** The field name is the longest prefix without a space or '='. */
  lemma FieldOfPrefix(line: string, field: string, previous: string)
    requires '=' in line && line[0] != '='
    requires |field| < |line| && line[..|field|] == field
    requires ' ' !in field && '=' !in field
    requires line[|field|] == ' ' || line[|field|] == '='
    ensures FieldOf(line, previous) == field
  {
    var f := FieldOf(line, previous);
    assert forall i :: 0 <= i < |f| ==> line[i] == f[i] && f[i] != ' ' && f[i] != '=';
    assert forall i :: 0 <= i < |field| ==> line[i] == field[i] && field[i] != ' ' && field[i] != '=';
    assert |f| == |field|;
    assert f == line[..|f|];
  }

  /** `name=value` and `name = value` read alike: same field, same value. */
  lemma SpacingAroundEqualSign(name: string, value: string, previous: string)
    requires name != [] && ' ' !in name && '=' !in name
    requires value == [] || value[0] != ' '
    ensures FieldOf(name + "=" + value, previous) == FieldOf(name + " = " + value, previous) == name
    ensures ValueOf(name + "=" + value) == ValueOf(name + " = " + value) == value
  {
    var tight, spaced := name + "=" + value, name + " = " + value;
    assert tight == name + "" + "=" + "" + value;
    assert spaced == name + " " + "=" + " " + value;
    ParseFieldLine(name, "", "", value, previous);
    ParseFieldLine(name, " ", " ", value, previous);
  }
}
