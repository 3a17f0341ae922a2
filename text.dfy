/** The C++ standard-library string primitives the parser is built on:
    `find_first_of`, erasing tabs with `std::remove`, splitting a stream into
    lines with `std::getline`, and the ordering `std::string::compare` gives
    the keys of a `std::map`. Strings are sequences of characters. */
module IniText {

  datatype Option<T> = None | Some(value: T)

  /** The value held, or `d` for None. */
  function ValueOr<T>(o: Option<T>, d: T): T
  {
    if o.Some? then o.value else d
  }

  /** `s.find_first_of(c)`: the index of the first `c`, or None where the
      C++ call returns `npos`. */
  function FindFirst(s: string, c: char): (r: Option<nat>)
    ensures r.None? <==> c !in s
    ensures r.Some? ==> r.value < |s| && s[r.value] == c && c !in s[..r.value]
  {
    if s == [] then None
    else if s[0] == c then Some(0)
    else
      match FindFirst(s[1..], c)
      case None => None
      case Some(i) =>
        assert s[..i + 1] == [s[0]] + s[1..][..i];
        Some(i + 1)
  }

  /** The erase-remove idiom applied to every tab: each tab removed, every
      other character kept in order. */
  function RemoveTabs(s: string): (r: string)
    ensures '\t' !in r
    ensures |r| <= |s|
    ensures '\t' !in s ==> r == s
    ensures r == [] <==> forall i :: 0 <= i < |s| ==> s[i] == '\t'
  {
    if s == [] then []
    else
      var rest := RemoveTabs(s[1..]);
      assert forall i :: 1 <= i < |s| ==> s[i] == s[1..][i - 1];
      if s[0] == '\t' then rest else [s[0]] + rest
  }

  /** Erasing tabs from two pieces of text in turn is erasing them from
      both together. */
  lemma {:induction false} RemoveTabsAppend(a: string, b: string)
    ensures RemoveTabs(a + b) == RemoveTabs(a) + RemoveTabs(b)
  {
    if a == [] {
      assert a + b == b;
    } else {
      assert (a + b)[0] == a[0] && (a + b)[1..] == a[1..] + b;
      RemoveTabsAppend(a[1..], b);
    }
  }

  /** A tab is erased; any other character is kept. */
  lemma RemoveTabsChar(c: char)
    ensures RemoveTabs([c]) == if c == '\t' then [] else [c]
  {
    assert [c][1..] == [];
  }

  /** Regrouping four pieces of text. */
  lemma Regroup(a: string, b: string, c: string, d: string)
    ensures a + b + c + d == a + (b + c + d) == a + (b + (c + d))
  {
  }

  /** The lines successive `std::getline` calls extract from `text`: each
      line ends at a '\n', which is consumed and not stored; a last line
      without '\n' is still extracted, an empty remainder is not. */
  function GetLines(text: string): (r: seq<string>)
    ensures forall i :: 0 <= i < |r| ==> '\n' !in r[i]
    ensures text == [] <==> r == []
    decreases |text|
  {
    match FindFirst(text, '\n')
    case None => if text == [] then [] else [text]
    case Some(i) => [text[..i]] + GetLines(text[i + 1..])
  }

  /** The text made of `lines`, each followed by '\n'. */
  function Join(lines: seq<string>): (r: string)
    ensures r == [] <==> lines == []
    ensures r != [] ==> r[|r| - 1] == '\n'
  {
    if lines == [] then [] else lines[0] + "\n" + Join(lines[1..])
  }

  lemma {:induction false} JoinAppend(a: seq<string>, b: seq<string>)
    ensures Join(a + b) == Join(a) + Join(b)
  {
    if a != [] {
      assert (a + b)[1..] == a[1..] + b;
      JoinAppend(a[1..], b);
    } else {
      assert a + b == b;
    }
  }

  /** getline undoes Join: reading back text written one line per '\n'
      gives back exactly the lines, the empty ones included. */
  lemma {:induction false} GetLinesJoin(lines: seq<string>)
    requires forall i :: 0 <= i < |lines| ==> '\n' !in lines[i]
    ensures GetLines(Join(lines)) == lines
  {
    if lines != [] {
      assert Join(lines) == lines[0] + "\n" + Join(lines[1..]);
      assert '\n' !in lines[0];
      GetLinesCons(lines[0], Join(lines[1..]));
      GetLinesJoin(lines[1..]);
    }
  }

  /** A last line without '\n' is still extracted. */
  lemma {:induction false} GetLinesJoinLast(lines: seq<string>, last: string)
    requires forall i :: 0 <= i < |lines| ==> '\n' !in lines[i]
    requires last != [] && '\n' !in last
    ensures GetLines(Join(lines) + last) == lines + [last]
  {
    if lines == [] {
      assert Join(lines) + last == last;
      GetLinesOne(last);
    } else {
      GetLinesJoinCons(lines, last);
      GetLinesJoinLast(lines[1..], last);
      assert [lines[0]] + (lines[1..] + [last]) == lines + [last];
    }
  }

  /** Text without '\n' is one line. */
  lemma GetLinesOne(line: string)
    requires line != [] && '\n' !in line
    ensures GetLines(line) == [line]
  {
  }

  /** getline takes the first of the joined lines, whatever follows. */
  lemma GetLinesJoinCons(lines: seq<string>, last: string)
    requires lines != [] && '\n' !in lines[0]
    ensures GetLines(Join(lines) + last) == [lines[0]] + GetLines(Join(lines[1..]) + last)
  {
    var more := Join(lines[1..]) + last;
    assert Join(lines) + last == lines[0] + "\n" + more;
    GetLinesCons(lines[0], more);
  }

  /** getline stops at the first '\n'. */
  lemma GetLinesCons(first: string, more: string)
    requires '\n' !in first
    ensures GetLines(first + "\n" + more) == [first] + GetLines(more)
  {
    var text := first + "\n" + more;
    assert text[..|first|] == first;
    assert text[|first| + 1..] == more;
    assert FindFirst(text, '\n') == Some(|first|) by {
      assert text[|first|] == '\n';
      assert text[..|first|] == first;
    }
  }

  /** `a.compare(b) < 0`: lexicographic order on character codes, with a
      proper prefix before any longer string. This is the order in which a
      `std::map<std::string, ...>` visits its keys. */
  predicate LexLess(a: string, b: string)
  {
    if a == [] then b != []
    else b != [] && (a[0] < b[0] || (a[0] == b[0] && LexLess(a[1..], b[1..])))
  }

  lemma {:induction false} LexLessIrreflexive(a: string)
    ensures !LexLess(a, a)
  {
    if a != [] {
      LexLessIrreflexive(a[1..]);
    }
  }

  lemma {:induction false} LexLessTransitive(a: string, b: string, c: string)
    requires LexLess(a, b) && LexLess(b, c)
    ensures LexLess(a, c)
  {
    if a != [] && a[0] == b[0] && b[0] == c[0] {
      LexLessTransitive(a[1..], b[1..], c[1..]);
    }
  }

  lemma {:induction false} LexLessTotal(a: string, b: string)
    ensures a == b || LexLess(a, b) || LexLess(b, a)
  {
    if a != [] && b != [] && a[0] == b[0] {
      LexLessTotal(a[1..], b[1..]);
      if a[1..] == b[1..] {
        assert a == [a[0]] + a[1..] && b == [b[0]] + b[1..];
      }
    }
  }
}
