# GxConfig configuration parser, modelled in Dafny

GxConfig reads and writes INI-style configuration files. A `ConfigParser` is
bound to one file. `init` reads the file line by line into an in-memory store
(section name to key to value); `get` and `have` look entries up; `set`
stores an entry and rewrites the file so that it holds the entry too, by one
of three strategies (append a new section, insert a new key into an existing
section, rewrite the lines of an existing key). `ConfigValue` wraps a looked-up
string and converts it to a string or an integer, with a default for "not
found".

The model keeps the program's structure:

- `text.dfy` (module `Text`): the whitespace helpers `ltrim`/`rtrim`/`trim`
  as methods with loops, proved equal to the functions `LTrimCopy`,
  `RTrimCopy` and `TrimCopy` (the `*_copy` helpers); `IndexOf` stands for
  `std::string::find`.
- `values.dfy` (module `Values`): `ConfigValue` as a datatype with its three
  accessors and their default arguments; `atoi`/`atol` as a base-10 parse
  with the C library's saturation to 64 bits and truncation to 32 bits.
- `lines.dfy` (module `Lines`): what one line is (blank, comment, header, key
  line), `read_section`, the split on the first `=` that `find_value` and
  `read_value` make, and the section a line belongs to.
- `stores.dfy` (module `Stores`): the store `map<string, map<string, string>>`
  with lookup and `store[section][key] = value`.
- `loading.dfy` (module `Loading`): a reference definition of what `init`
  computes (store, line counter, error flag) and its properties.
- `rewrites.dfy` (module `Rewrites`): the file contents `insert_key` and
  `update_key` write, as functions of the old lines, with their properties.
- `consistency.dfy` (module `Consistency`): each of `set`'s three rewrites
  keeps the file and the store in agreement, meaning that reading the new
  file from scratch gives the new store.
- `parser.dfy` (module `Parser`): the class `ConfigParser` with the fields
  `sections` (the store) and `file` (the lines of the file), and the methods
  `Init`, `ReadValue`, `Get`, `Have`, `Set`, `InsertSection`, `UpdateKey` and
  `InsertKey`. Each has the source's loops and branches and is proved against
  the functions above.

A file is its sequence of lines. Reading it gives those lines; writing it
replaces them. Lines are taken to hold no newline; a value, key or section
with an inner newline is where this stops matching the source (see "Left
out"). Whether the file can be opened is a boolean parameter:
`readable` for `Init`, `writable` for `Set` and the three rewrites.

`insert_key` (ConfigParser.cpp:258-263) does not put the new line directly
after the section header. It writes it immediately above the first line of
the section that is not blank, not a comment and not a header. Blank or
comment lines between the header and that line therefore stay above the new
line, and the new line comes before the section's first key
(`Rewrites.KeyInserted`, `Rewrites.FirstBodyLine`).

## Model

| member | source | states |
|---|---|---|
| Text.LTrim | ConfigParser.cpp:325-330 | the loop erases exactly the leading whitespace: the result is `LTrimCopy(s)`, which starts with a non-blank character or is empty |
| Text.RTrim | ConfigParser.cpp:332-337 | the loop erases exactly the trailing whitespace: the result is `RTrimCopy(s)`, which ends with a non-blank character or is empty |
| Text.Trim | ConfigParser.cpp:339-343 | trim is ltrim followed by rtrim, and equals `TrimCopy(s)` |
| Text.TrimCopy | ConfigParser.cpp:357-361 | trim_copy's result has no whitespace at either end and is no longer than its argument |
| Text.LTrimCopy | ConfigParser.cpp:345-349 | ltrim_copy: no longer than its argument, and starts with a non-blank character or is empty; the rest is Text.LTrimCopyShape |
| Text.RTrimCopy | ConfigParser.cpp:351-355 | rtrim_copy: no longer than its argument, and ends with a non-blank character or is empty; the rest is Text.RTrimCopyShape |
| Text.LTrimCopyShape | ConfigParser.cpp:345-349 | ltrim_copy returns a suffix of its argument, and everything it dropped is whitespace |
| Text.RTrimCopyShape | ConfigParser.cpp:351-355 | rtrim_copy returns a prefix of its argument, and everything it dropped is whitespace |
| Text.TrimCopyShape | ConfigParser.cpp:339-343 | the trimmed string is a contiguous substring of the input, and every character outside it is whitespace |
| Text.TrimIdempotent | ConfigParser.cpp:339-343 | trimming a trimmed string changes nothing |
| Text.TrimCopyWithout | ConfigParser.cpp:339-343 | trimming adds no character that was not in the input |
| Text.TrimPadded | ConfigParser.cpp:339-343 | one blank added before or after a trimmed non-empty string is removed again by trimming |
| Text.IndexOf | ConfigParser.cpp:291 | `find('=')`: the position found is within the string and holds the character |
| Text.IndexOfFirst | ConfigParser.cpp:291 | the position is the first occurrence, and equals the length exactly when the character is absent (`npos`) |
| Values.ConfigValue.AsString | ConfigParser.cpp:13-21 | definition; properties in Values.DefaultExactlyWhenEmpty and Values.DefaultArguments |
| Values.ConfigValue.AsInt32 | ConfigParser.cpp:23-31 | definition (`atoi` as base-10 `strtol` truncated to 32 bits); properties in Values.Int32RoundTrip, Values.NonNumericIsZero, Values.DefaultExactlyWhenEmpty |
| Values.ConfigValue.AsInt64 | ConfigParser.cpp:33-41 | definition (`atol` as base-10 `strtol` on a 64-bit long); properties in Values.Int64RoundTrip, Values.NonNumericIsZero, Values.DefaultExactlyWhenEmpty |
| Values.DefaultExactlyWhenEmpty | ConfigParser.cpp:13-41 | asString, asInt32 and asInt64 return the supplied default when the value is empty; otherwise asString returns the value and no accessor depends on the default |
| Values.DefaultArguments | ConfigParser.h:14-16 | called without an argument on an empty value, asString gives "" and the integer accessors give 0 |
| Values.ParseRender | ConfigParser.cpp:33-41 | the decimal parse reads back any integer written in decimal |
| Values.Int64RoundTrip | ConfigParser.cpp:33-41 | asInt64 of an in-range integer written in decimal is that integer, whatever the default |
| Values.Int32RoundTrip | ConfigParser.cpp:23-31 | asInt32 of an in-range integer written in decimal is that integer, whatever the default |
| Values.Truncate32InRange | ConfigParser.cpp:30 | the conversion of long to int keeps every value in the 32-bit range |
| Values.NonNumericIsZero | ConfigParser.cpp:23-41 | a non-empty value that does not start, after blanks, with a sign or a digit converts to 0 |
| Lines.ReadSection | ConfigParser.cpp:281-287 | read_section gives a trimmed name, and a non-empty name only when the line ends in `]` |
| Lines.EmptyHeaders | ConfigParser.cpp:281-287 | `[]` and `[   ]` give the empty name |
| Lines.SplitKV | ConfigParser.cpp:307-319 | a line has a split exactly when it holds `=`; the split's key and value are trimmed |
| Lines.SplitAtFirstEquals | ConfigParser.cpp:307-319 | the split is made at the first `=`: key = trimmed text before it (so it never holds `=`), value = trimmed text after it |
| Lines.FindValue | ConfigParser.cpp:289-300 | find_value holds exactly when the line has `=` and the trimmed text before the first `=` is the key |
| Lines.ParseValue | ConfigParser.cpp:302-323 | read_value fails exactly when the header is empty, the line has no `=` or the trimmed key is empty; otherwise the entry is the line's split |
| Lines.Classify | ConfigParser.cpp:64-85 | definition of the switch on the trimmed line's first character; its meaning on the raw line is Lines.ClassifyByFirstNonBlank |
| Lines.ClassifyByFirstNonBlank | ConfigParser.cpp:64-85 | a raw line is blank exactly when it is all whitespace; otherwise its first non-blank character decides: `#` or `;` a comment, `[` a header named by read_section of the trimmed line, anything else a key line whose text is the trimmed line |
| Lines.HeaderLine | ConfigParser.cpp:164 | definition of the line `[section]`; property in Lines.HeaderLineRoundTrip |
| Lines.EntryLine | ConfigParser.cpp:165 | definition of the line `key = value` the three rewrites write (also lines 210 and 261); properties in Lines.SplitEntryLine and Lines.EntryLineRoundTrip |
| Lines.SectionBefore | ConfigParser.cpp:196-199 | definition of the `section`/`section1` variable of init, update_key and insert_key: the name read from the last header above the line, "" when there is none (also lines 58, 76, 178, 237, 256) |
| Lines.KindsAt | ConfigParser.cpp:60-64 | each line of the file is classified on its own |
| Lines.KindByFirstChar | ConfigParser.cpp:64-85 | the kind of a line is decided by the trimmed line being empty and by its first character (`#`/`;`, `[`, other) |
| Lines.KindsAppend | ConfigParser.cpp:159-168 | classifying two pieces of a file put together gives the two classifications put together |
| Lines.HeaderLineRoundTrip | ConfigParser.cpp:164 | the header line written for a trimmed, non-empty name without a newline reads back as that name |
| Lines.SplitEntryLine | ConfigParser.cpp:165 | the line `key = value` splits back into key and value when the key holds no `=` |
| Lines.EntryLineRoundTrip | ConfigParser.cpp:165 | the line `key = value` is read back as a key line holding exactly that entry, under any section |
| Lines.KeyLineKey | ConfigParser.cpp:64-85 | the key of a key line is trimmed, holds no `=`, and is empty or starts with the line's first non-blank character, so never with `#`, `;` or `[` |
| Lines.EntryLineKeepsKey | ConfigParser.cpp:165 | the line `key = value` is a key line with key `key` for every value, when the key holds no `=` and is empty or trimmed and not starting with `#`, `;` or `[` (every key a key line can have) |
| Lines.SplitAfterPrefix | ConfigParser.cpp:307-319 | a line whose first `=` directly follows a prefix splits with the trimmed prefix as its key |
| Stores.Put | ConfigParser.cpp:146 | after `store[section][key] = value` the lookup gives the value, and the sets of sections and keys grow by exactly that section and key |
| Stores.PutKeepsOthers | ConfigParser.cpp:146 | the write changes no other (section, key) entry |
| Stores.PutCommute | ConfigParser.h:50 | writes to different entries can be done in either order |
| Stores.PutOverwrite | ConfigParser.cpp:321 | a second write to the same entry replaces the first |
| Loading.Step | ConfigParser.cpp:64-90 | definition of one pass of init's loop body; property in Loading.StepRejectsBad |
| Loading.Load | ConfigParser.cpp:47-102 | definition of init on the whole file; properties in Loading.LoadOkIff, Loading.LoadFailsAtFirstBad, Loading.LoadLastWins |
| Loading.LoadPrefix | ConfigParser.cpp:60-91 | the line counter never passes the lines read, and equals them while no line has failed |
| Loading.StepRejectsBad | ConfigParser.cpp:64-90 | one line fails exactly when it is a header with an empty name, or a key line with no section, no `=` or an empty key |
| Loading.LoadOkIff | ConfigParser.cpp:47-102 | init succeeds exactly when no line of the file is bad |
| Loading.LoadFailsAtFirstBad | ConfigParser.cpp:47-102 | on failure the reported line number is the 1-based index of the first bad line |
| Loading.FailedStays | ConfigParser.cpp:87-90 | after a failure no further line is read |
| Loading.LastValue | ConfigParser.cpp:321 | a reference definition of "the last line that sets (section, key)": it exists exactly when some line sets the entry |
| Loading.LoadLastWins | ConfigParser.cpp:60-91 | after a successful load each entry holds the value of the last line setting it, or its earlier value; blank lines, comments and headers change nothing |
| Loading.LoadMonotone | ConfigParser.cpp:60-91 | reading more lines never removes an entry |
| Loading.LoadedSectionHasBody | ConfigParser.cpp:60-91 | a section the load added has a key line in the file |
| Rewrites.KeyInserted | ConfigParser.cpp:229-279 | definition of the file insert_key writes; properties in Rewrites.KeyInsertedShape, Rewrites.KeyInsertedFirstInSection, Consistency.InsertKeyConsistent |
| Rewrites.KeyUpdated | ConfigParser.cpp:170-227 | definition of the file update_key writes; properties in Rewrites.KeyUpdatedShape, Rewrites.KeyUpdatedTargets, Rewrites.KeyUpdatedIdempotent, Consistency.UpdateKeyConsistent |
| Rewrites.FirstBodyLine | ConfigParser.cpp:258-263 | the line insert_key writes above: the first key line of the section, with no such line before it |
| Rewrites.KindsInserted | ConfigParser.cpp:229-279 | the file after insert_key classifies as the old lines with one entry line placed at the insertion point |
| Rewrites.KeyInsertedShape | ConfigParser.cpp:229-279 | for any key and value, insert_key adds at most one line: none when the section has no key line, otherwise `key = value` directly above the section's first key line, with the other lines in order and removing it giving back the old file |
| Rewrites.KeyInsertedFirstInSection | ConfigParser.cpp:229-279 | for a key and value that read back as themselves, the new line is the new first key line of the section, directly above the old first one |
| Rewrites.KindsUpdated | ConfigParser.cpp:170-227 | after update_key every rewritten line has the kind of the line `key = value` and every other line keeps its kind; when `key = value` is a key line, every line keeps its section |
| Rewrites.KeyUpdatedShape | ConfigParser.cpp:170-227 | for any key and value, update_key keeps the line count, changes only the key lines of the section with that key, and writes `key = value` on each |
| Rewrites.KeyUpdatedTargets | ConfigParser.cpp:170-227 | for a key and value that read back as themselves, the rewritten lines are afterwards exactly the lines of the section with that key, and each reads back as the new value |
| Rewrites.KeyUpdatedIdempotent | ConfigParser.cpp:170-227 | for every section, key and value, running update_key twice with the same arguments writes the same file as once |
| Consistency.AppendSectionConsistent | ConfigParser.cpp:159-168 | a file that reads into the store still reads into the store, with the new entry, after insert_section appends the section |
| Consistency.InsertKeyConsistent | ConfigParser.cpp:229-279 | the same for insert_key, for a section that is in the store and a key that is not |
| Consistency.UpdateKeyConsistent | ConfigParser.cpp:170-227 | the same for update_key, for a key the store holds |
| Consistency.KeyWithEqualsDoesNotReadBack | ConfigParser.cpp:289-323 | why consistency needs a key without `=`: for every key holding `=`, the line written for it splits at that `=`, so neither read_value nor find_value gives the key back |
| Consistency.KeyWithMarkerIsNotKeyLine | ConfigParser.cpp:64-81 | why consistency needs a key not starting with `#`, `;` or `[`: the line written for such a key reads back as a comment or a header |
| Parser.ConfigParser.constructor | ConfigParser.cpp:43-45 | a new parser is bound to its file and holds no entries |
| Parser.ConfigParser.Init | ConfigParser.cpp:47-102 | the loop computes the reference load: store, line count and result equal `Load` of the file; an unreadable file gives success, 0 lines and an unchanged store |
| Parser.ConfigParser.ReadValue | ConfigParser.cpp:302-323 | read_value returns true exactly when the line parses under the header, and then writes exactly that entry; otherwise the store is unchanged |
| Parser.ConfigParser.Get | ConfigParser.cpp:104-116 | get wraps the value stored under the trimmed section and key, or "" when there is none |
| Parser.ConfigParser.Have | ConfigParser.cpp:150-157 | have is true exactly when an entry is stored under the trimmed section and key |
| Parser.ConfigParser.Set | ConfigParser.cpp:118-148 | set fails exactly when a trimmed argument is empty, and then changes nothing; otherwise it writes the entry, rewrites the file by the strategy the store selects (append, insert, update), and keeps a consistent file consistent |
| Parser.ConfigParser.InsertSection | ConfigParser.cpp:159-168 | appends the header line and the entry line, or leaves the file alone when it cannot be opened |
| Parser.ConfigParser.UpdateKey | ConfigParser.cpp:170-227 | the loop writes `KeyUpdated` of the old lines |
| Parser.ConfigParser.InsertKey | ConfigParser.cpp:229-279 | the loop writes `KeyInserted` of the old lines |

`Set` with `Get`, `Have` and `Stores.Put`/`Stores.PutKeepsOthers` together give
the promise about a successful `set(s, k, v)`: `get(s, k)` then wraps `trim(v)`,
`have(s, k)` holds, and every other entry is unchanged.

## Left out

- File I/O: the file is the field `file`, a sequence of lines without their line terminators. Reading and writing are replaced by using and assigning it; `std::getline` details (a last line without a newline, `\r\n`) are not modelled. In particular, when the file's last line has no final newline, the source's `insert_section` (ConfigParser.cpp:161-165) appends `[s]` to that line itself, so `x = 1` becomes `x = 1[s]`; the model appends `[s]` as a new line, and for such a file the source's `set` does not keep file and store consistent.
- Parser.ConfigParser.UpdateKey: a file that cannot be read but can be truncated becomes empty in the source; the model has one `writable` flag and leaves the file unchanged when it is false.
- Parser.ConfigParser.InsertKey: likewise, a file that cannot be read but can be truncated becomes empty in the source; the model has one `writable` flag and leaves the file unchanged when it is false.
- Parser.ConfigParser.Init: the line counter is an unbounded `nat`, where the source's `int` would overflow past 2^31 - 1 lines; the `linenum` pointer, which may be NULL, is an out-parameter that is always written.
- Parser.ConfigParser.Set: consistency between file and store is proved only for a trimmed, non-empty section, key and value without a newline, whose key holds no `=` and does not start with `#`, `;` or `[`. Other names are written as the source writes them, but do not read back as themselves (`Consistency.KeyWithEqualsDoesNotReadBack`, `Consistency.KeyWithMarkerIsNotKeyLine`).
- Parser.ConfigParser.Set: a section, key or value with an inner newline (trim keeps it) is written by the model as one element of `file`, where the source writes text that its `std::getline` later reads as several lines. For example, `set("s", "k", "a\nb")` stores `k = a\nb`. The model then reads it back as one key line with value `a\nb`, and `update_key` replaces it whole. The source reads `k = a` and a separate line `b`: `init` fails at `b`, and `update_key` keeps `b`. The model does not split written lines at newlines.
- The mutex and the locking: the model is sequential.
- Values.ConfigValue.AsInt32: `atoi`/`atol` are modelled as `strtol` in base 10 on a 64-bit `long`, saturating at the 64-bit limits, then truncated to 32 bits for `atoi`. Out-of-range `atoi` is undefined in C, and locale-specific parsing is not modelled.
- `std::isspace` is the "C" locale's set: space, tab, newline, vertical tab, form feed, carriage return.
- `load_config` and `write_value` are declared in ConfigParser.h but defined nowhere, so they have no model.
