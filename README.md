# ini-parser in Dafny

A verified model of `IniParser`, a small C++ class that reads an INI file
into memory, answers string and integer reads, updates or adds values, and
writes the file back.

- **Loading.** The constructor reads the file line by line.
  - Tabs are erased.
  - A `[name]` line switches the current section; an empty `[]` switches to "Default".
  - Any other non-empty line appends one `field = value` entry to the current section.
- **Storage.** The entries live in `parsed_data`, a `std::map` from section
  name to an ordered vector of entries.
- **Reads.**
  - Reads find the first entry whose field matches exactly.
  - A missing section or field gives the caller's default: "None" for strings, 0 for integers.
  - The integer read converts with `std::stoi` and falls back to the default when it throws.
- **Writes.** A write updates the first matching entry, or appends a new one.
- **Saving.** `SaveFile` writes the sections in the map's key order. Each
  header is preceded by a blank line except the first. Each entry is written
  as `field = value`.

The model keeps the loader's quirks as the code has them:
- the current field name is never reset, so a line whose '=' comes first, or that has no '=' at all, reuses the previous line's field;
- with no '=', the value scan starts at `npos + 1`, which wraps around to 0, so the whole line (less its leading spaces) becomes the value;
- a header on its own creates no section; only an entry does;
- a carriage return is an ordinary character and stays in the value;
- the section named "" collects the entries that come before any header, and `SaveFile` never writes it.

Modules:

- `IniText`: the standard-library string operations the parser relies on.
  These are `find_first_of`, tab erasure, splitting a stream into lines the
  way `std::getline` does, joining lines, and the key order of
  `std::string::compare`.
- `StoI`: `std::stoi` in base 10, as specified for `strtol` in section
  7.22.1.4 of ISO C11. It skips leading white space, takes one optional sign
  and the longest digit run, and fails when there is no digit or the value
  does not fit a 32-bit `int`.
- `IniStore`: entries, the store, the `find_if` lookup, the two reads and the
  update-or-append write, as functions, with their laws.
- `IniLoad`: the constructor's loop as functions.
  - `Feed` is one line;
  - `Run` is many lines;
  - `Load` is a whole file from the initial state.
- `IniSave`: the lines and text `SaveFile` produces (`SaveLines`, `Serialize`).
- `RoundTrip`: saving and then loading gives back the same store, for every
  store the text format can represent.
- `Ini`: the class `IniParser`.
  - The constructor is a loop over the lines, proved equal to `Load`.
  - The two reads are functions.
  - `WriteValue` updates the `data` field in place.
  - `SaveFile` is a loop that visits keys in map order and builds the output text.
    It is proved equal to `Serialize`.

## Model

| member | source | states |
|---|---|---|
| `IniText.FindFirst` | ini-parser.cpp:33 | `find_first_of`: None (npos) exactly when the character is absent; otherwise the index of its first occurrence |
| `IniText.RemoveTabs` | ini-parser.cpp:15 | erasing tabs leaves no tab, leaves a tab-free line unchanged, and empties the line exactly when it held only tabs |
| `IniText.RemoveTabsAppend` | ini-parser.cpp:15 | erasing tabs works piece by piece: on two pieces of text it is the erasure of each, in order |
| `IniText.RemoveTabsChar` | ini-parser.cpp:15 | a single tab is erased and any other character is kept, so with `RemoveTabsAppend` every non-tab character survives in its order |
| `IniText.GetLines` | ini-parser.cpp:10 | the lines `getline` extracts contain no '\n'; there are none exactly when the text is empty |
| `IniText.GetLinesJoin` | ini-parser.cpp:10 | splitting text written one line per '\n' gives back exactly those lines, empty ones included |
| `IniText.GetLinesJoinLast` | ini-parser.cpp:10 | a last line without '\n' after the joined lines is still extracted, as one more line |
| `IniText.JoinAppend` | ini-parser.cpp:181-201 | the text of two runs of lines written in turn is the concatenation of their texts |
| `IniText.LexLessIrreflexive` | ini-parser.h:20 | no key sorts before itself in the map's order |
| `IniText.LexLessTransitive` | ini-parser.h:20 | the map's key order is transitive |
| `IniText.LexLessTotal` | ini-parser.h:20 | any two distinct keys are ordered one way or the other |
| `StoI.ParseInt` | ini-parser.cpp:107 | every value `stoi` returns lies within the 32-bit `int` range |
| `StoI.WithSign` | ini-parser.cpp:107-120 | no digits means a failure (invalid_argument); any value returned fits an `int` (otherwise out_of_range) |
| `StoI.ParseMagnitude` | ini-parser.cpp:107 | the digit-run read fails exactly when the text does not start with a digit |
| `StoI.ParseIntText` | ini-parser.cpp:107 | `stoi` reads back the decimal text of any integer followed by non-digit text, and fails exactly when the integer does not fit an `int` |
| `StoI.ParseIntSkipsSpace` | ini-parser.cpp:107 | leading white space never changes what `stoi` reads |
| `StoI.ParseIntSignedDigits` | ini-parser.cpp:107 | white space, an optional '+' or '-', a digit run and any text not starting with a digit read as the digits' value, negated after '-', or fail (out_of_range) exactly when that does not fit an `int` |
| `StoI.ParseIntNoLeadingDigit` | ini-parser.cpp:107-114 | when no digit follows the white space and the optional sign (`a1`, `-x5`, `+ 5`), the read fails (invalid_argument), whatever comes later |
| `StoI.ParseIntNoDigits` | ini-parser.cpp:110-114 | text without a digit always fails (invalid_argument), so the read falls back to its default |
| `IniStore.PushBack` | ini-parser.cpp:61 | `push_back` creates the section if needed, keeps its entries and appends exactly one, and changes no other section |
| `IniStore.FindField` | ini-parser.cpp:76 | `find_if`: `end()` exactly when no entry has that field; otherwise the first entry with an exactly equal field |
| `IniStore.ReadString` | ini-parser.cpp:68-87 | the default for a missing section or field; otherwise the value of the first matching entry |
| `IniStore.ReadInt` | ini-parser.cpp:89-123 | the default for a missing section or field; otherwise `stoi` of the first matching value, or the default where `stoi` throws; never outside the `int` range unless it is the default |
| `IniStore.Upsert` | ini-parser.cpp:161-173 | the section exists afterwards; the first matching entry is replaced in place, or a new entry is appended when none matches; no other section changes |
| `IniStore.ReadAfterWrite` | ini-parser.cpp:161-173 | reading a field right after writing it gives the written value |
| `IniStore.WriteLeavesOtherReads` | ini-parser.cpp:161-173 | a write changes no read of any other section or field |
| `IniStore.WriteFieldCount` | ini-parser.cpp:163-171 | a write leaves one entry of that field when there was none, and otherwise as many as before (no duplicates are added) |
| `IniLoad.SectionName` | ini-parser.cpp:17-29 | a header names the text between its brackets, or "Default" for `[]`; never an empty name |
| `IniLoad.FieldOf` | ini-parser.cpp:33-45 | with an '=' that is not the first character, the field is the longest prefix before the first space or '='; otherwise the previous line's field is kept |
| `IniLoad.ValueStart` | ini-parser.cpp:49 | the scan starts just after the first '=' (no '=' before it), or at 0 when there is none (npos + 1 wraps); always within the line |
| `IniLoad.DropLeadingSpaces` | ini-parser.cpp:47-60 | the kept value is empty exactly when only spaces follow; otherwise it never starts with a space |
| `IniLoad.DropLeadingSpacesSuffix` | ini-parser.cpp:47-60 | only a leading run of spaces is dropped; the rest of the text is kept unchanged |
| `IniLoad.ValueOf` | ini-parser.cpp:47-60 | on a line without '=', the whole line less its leading spaces is the value |
| `IniLoad.Feed` | ini-parser.cpp:12-62 | one pass of the loop body over a line; its effect is stated by `FeedEffect` |
| `IniLoad.Run` | ini-parser.cpp:10-64 | the loop over many lines, carrying section, field and store; it composes as `RunAppend` states |
| `IniLoad.Load` | ini-parser.cpp:3-66 | the store built from a whole file; `LoadHasNoEmptySection` and `RoundTrip.SaveThenLoad` state its properties |
| `IniLoad.RunKeepsSectionsFilled` | ini-parser.cpp:12-62 | starting from sections that all hold entries, the loop never produces an empty section |
| `IniLoad.LoadHasNoEmptySection` | ini-parser.cpp:12-62 | every section of a loaded file holds at least one entry: a header alone creates none |
| `IniLoad.FeedEffect` | ini-parser.cpp:12-62 | an empty line does nothing; a header only switches the section, keeping the current field and the store; any other line keeps the section, sets the current field to the line's field or carries the previous one over, and appends exactly one entry to the current section, changing no other section |
| `IniLoad.FieldCarriesOver` | ini-parser.cpp:8-61 | the lines `k=v` then `y` load as two entries of section "", both under the field `k`: the field name carries over to a line without '=' |
| `IniLoad.RunAppend` | ini-parser.cpp:10-64 | loading two runs of lines one after the other is loading them together |
| `IniLoad.DropLeadingSpacesSnoc` | ini-parser.cpp:49-60 | one more scanned character either extends the leading spaces or is appended to the value |
| `IniLoad.ParseFieldLine` | ini-parser.cpp:33-60 | `field  =  value`, with any runs of spaces around '=', reads as that field and value |
| `IniLoad.SpacingAroundEqualSign` | ini-parser.cpp:33-60 | `name=value` and `name = value` give the same field and the same value |
| `IniSave.SortedKeys` | ini-parser.cpp:181 | the map visits each key exactly once, in strictly ascending order |
| `IniSave.SortedKeysOfLeast` | ini-parser.cpp:181 | the map visits the least key first, then the others in order |
| `IniSave.EntryLines` | ini-parser.cpp:196-199 | one `field = value` line per entry, in the entries' order |
| `IniSave.SaveLines` | ini-parser.cpp:181-201 | the lines `SaveFile` writes, in key order; `RoundTrip.LoadSaveLines` states that they load back to the store |
| `IniSave.Serialize` | ini-parser.cpp:175-205 | the text `SaveFile` writes; `SerializeSkipsUnnamedSection` and `RoundTrip.SaveThenLoad` state its properties |
| `IniSave.SerializeSkipsUnnamedSection` | ini-parser.cpp:183-185 | the section "" never reaches the file, whatever it holds |
| `RoundTrip.RunSectionsLines` | ini-parser.cpp:10-64 | loading the lines of distinct sections that are new adds exactly those sections with their entries |
| `RoundTrip.LoadSaveLines` | ini-parser.cpp:175-205 | loading the lines `SaveFile` writes gives back the store, for any store the format can represent |
| `RoundTrip.SaveThenLoad` | ini-parser.cpp:175-205 | saving, splitting the file into lines and loading them gives back exactly the store that was saved |
| `Ini.ScanValue` | ini-parser.cpp:47-60 | the value loop keeps everything from the first non-space character on |
| `Ini.IniParser.constructor` | ini-parser.cpp:3-66 | the loop over the file's lines builds exactly the store `Load` describes, and remembers the file name |
| `Ini.IniParser.ReadValueAsString` | ini-parser.cpp:68-87 | the default ("None" unless given) for a missing section or field; otherwise the first matching entry's value |
| `Ini.IniParser.ReadValueAsInteger` | ini-parser.cpp:89-123 | the default (0 unless given) for a missing section or field or when `stoi` throws; otherwise `stoi` of the first matching value |
| `Ini.IniParser.WriteValue` | ini-parser.cpp:161-173 | the new state is the update-or-append of the old one, and reading the field afterwards gives the value written |
| `Ini.IniParser.SaveFile` | ini-parser.cpp:175-205 | the loop over the map writes exactly `Serialize(data)`: sections in key order, "" skipped, a blank line before every header but the first, one `field = value` line per entry |
| `Ini.EntriesText` | ini-parser.cpp:196-199 | the inner loop writes one `field = value` line per entry, in order |

## Left out

- File I/O:
  - Opening, creating and closing the file are not modelled.
  - The constructor takes the lines `std::getline` would extract, and `GetLines` states how a text splits into them.
  - `SaveFile` returns the text it would write rather than writing it.
- `ReadValueAsFloat` (ini-parser.cpp:125-159) is not modelled: it converts with `std::stof`, and floating point is outside this model.
- The messages written to `std::cerr` when `stoi` throws are not modelled; only the returned default is.
- Exceptions: `std::invalid_argument` and `std::out_of_range` from `stoi` become `None` in `StoI.ParseInt`, which the reads turn into the default.
- Ini.IniParser.constructor requires every line to be empty or to keep a character once its tabs are erased (`AllLoadable`). On a line made only of tabs the C++ code calls `front()` on an empty string, which is undefined behaviour, so such lines are outside the model.
- Character width: strings are sequences of characters. The map's key order compares them by code, as `std::char_traits<char>` compares bytes as unsigned values. Multi-byte encodings are not modelled.
- RoundTrip.SaveThenLoad holds only for stores the text format can represent (`Savable`). Other stores do not survive a save and load:
  - a section named "" is never written;
  - a section without entries gives a header that creates nothing on loading;
  - a name or value with a tab or a line break is changed on reading;
  - a field with a space or '=' is cut short;
  - a value that starts with a space loses that space;
  - an entry line that looks like a header is read as one.
- Ini.ScanValue requires its start position to lie within the line. Its one caller always passes the position after the first '=', or 0.
