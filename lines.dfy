/**
 * How the parser reads one line of the file: blank, comment, section header
 * or key/value line, the header's name (read_section) and the split of a
 * key/value line on its first '=' (find_value, read_value).
 */
module Lines {
  import opened Wrappers
  import opened Text

  /** A key and its value, both trimmed, as read from a "key = value" line. */
  datatype Entry = Entry(key: string, value: string)

  /**
   * The four kinds of line. Every line that is neither blank, nor a comment,
   * nor a header is a key line, which must have the form "key = value"; it
   * carries its trimmed text and that text's split on the first '=' (None
   * when the text has no '=').
   */
  datatype LineKind = Blank | Comment | Header(name: string) | KeyLine(text: string, split: Option<Entry>)

  /**
   * read_section on a line that starts with '[': the trimmed text strictly
   * between the first and the last character when the last one is ']', and
   * "" otherwise. For a one-character line the source's substr yields "", as
   * here.
   */
  function ReadSection(line: string): (name: string)
    ensures Trimmed(name)
    ensures name != "" ==> 2 <= |line| && line[|line| - 1] == ']'
  {
    if |line| < 2 || line[|line| - 1] != ']' then "" else TrimCopy(line[1..|line| - 1])
  }

  /**
   * The split of a line on its first '=' (std::getline up to '=' and then to
   * the end): the trimmed text before it is the key, the trimmed text after
   * it the value. A line without '=' has no split.
   */
  function SplitKV(line: string): (r: Option<Entry>)
    ensures r.None? <==> '=' !in line
    ensures r.Some? ==> Trimmed(r.value.key) && Trimmed(r.value.value)
  {
    var i := IndexOf(line, '=');
    IndexOfFirst(line, '=');
    if i == |line| then None
    else Some(Entry(TrimCopy(line[..i]), TrimCopy(line[i + 1..])))
  }

  /**
   * The split is made at the first '=': the key is the trimmed text before
   * it, so it never holds '=', and the value is the trimmed text after it,
   * which may.
   */
  lemma SplitAtFirstEquals(line: string)
    requires '=' in line
    ensures IndexOf(line, '=') < |line|
    ensures var i := IndexOf(line, '=');
      && line[i] == '='
      && '=' !in line[..i]
      && SplitKV(line) == Some(Entry(TrimCopy(line[..i]), TrimCopy(line[i + 1..])))
      && '=' !in SplitKV(line).value.key
  {
    var i := IndexOf(line, '=');
    IndexOfFirst(line, '=');
    TrimCopyWithout(line[..i], '=');
  }

  /**
   * find_value: whether the line has an '=' and the trimmed text before the
   * first one is key.
   */
  function FindValue(line: string, key: string): (found: bool)
    ensures found <==> '=' in line && TrimCopy(line[..IndexOf(line, '=')]) == key
  {
    match SplitKV(line)
    case None => false
    case Some(e) => e.key == key
  }

  /**
   * The validation of read_value: the entry a key line stores under header.
   * It fails exactly when the header is empty, the line has no '=' or the
   * trimmed text before the first '=' is empty; otherwise the entry is the
   * line's split.
   */
  function ParseValue(line: string, header: string): (r: Option<Entry>)
    ensures r.None? <==> header == "" || '=' !in line || TrimCopy(line[..IndexOf(line, '=')]) == ""
    ensures r.Some? ==> r == SplitKV(line)
  {
    CheckEntry(SplitKV(line), header)
  }

  /** The checks of read_value on a split line: a section is open, the line has '=' and the key is not empty. */
  function CheckEntry(split: Option<Entry>, header: string): (r: Option<Entry>)
    ensures r.Some? ==> r == split && r.value.key != ""
  {
    if header == "" then None
    else match split
      case None => None
      case Some(e) => if e.key == "" then None else Some(e)
  }

  /** The classification the parser's switch on the trimmed line's first character makes. */
  function Classify(line: string): (kind: LineKind)
    ensures kind.KeyLine? ==> kind.text != "" && kind.split == SplitKV(kind.text)
  {
    var t := TrimCopy(line);
    if t == [] then Blank
    else if t[0] == '#' || t[0] == ';' then Comment
    else if t[0] == '[' then Header(ReadSection(t))
    else KeyLine(t, SplitKV(t))
  }

  /**
   * The kind of a raw line of the file, by its first non-blank character:
   * a line of whitespace only is blank; otherwise '#' or ';' makes a
   * comment and '[' a header named by read_section, and any other line is
   * a key line whose text is the trimmed line.
   */
  lemma ClassifyByFirstNonBlank(line: string)
    ensures var kind, j := Classify(line), TrimStart(line);
      && (kind == Blank <==> forall i | 0 <= i < |line| :: IsSpace(line[i]))
      && (kind == Blank <==> j == |line|)
      && (j < |line| ==> (kind == Comment <==> line[j] == '#' || line[j] == ';'))
      && (j < |line| ==> (kind.Header? <==> line[j] == '['))
      && (kind.Header? ==> kind.name == ReadSection(TrimCopy(line)))
      && (kind.KeyLine? ==> kind.text == TrimCopy(line))
  {
    var t := TrimCopy(line);
    var j := TrimStart(line);
    TrimCopyShape(line);
    var l := LTrimCopy(line);
    RTrimCopyShape(l);
    if j < |line| {
      assert l != [] && l[0] == line[j];
      assert !IsSpace(line[j]);
      assert t != [];
      assert t[0] == line[j];
    } else {
      assert t == [];
    }
    if t == [] {
      forall i | 0 <= i < |line|
        ensures IsSpace(line[i])
      {
      }
    } else {
      assert !IsSpace(line[j]);
    }
  }

  /** The header line insert_section writes for a new section. */
  function HeaderLine(section: string): string {
    "[" + section + "]"
  }

  /** The line the three rewrite strategies write for key and value. */
  function EntryLine(key: string, value: string): string {
    key + " = " + value
  }

  /** The classification of every line of a file, in order. */
  function Kinds(lines: seq<string>): (kinds: seq<LineKind>)
    ensures |kinds| == |lines|
  {
    if lines == [] then [] else Kinds(lines[..|lines| - 1]) + [Classify(lines[|lines| - 1])]
  }

  /** Each line is classified on its own. */
  lemma {:induction false} KindsAt(lines: seq<string>, i: nat)
    requires i < |lines|
    ensures Kinds(lines)[i] == Classify(lines[i])
  {
    if i < |lines| - 1 {
      KindsAt(lines[..|lines| - 1], i);
    }
  }

  /**
   * The kind of line i, by the first character of the trimmed line: the
   * switch init, insert_key and update_key make on each line they read.
   */
  lemma KindByFirstChar(lines: seq<string>, i: nat)
    requires i < |lines|
    ensures var line := TrimCopy(lines[i]);
      var kind := Kinds(lines)[i];
      && (line == "" ==> kind == Blank)
      && (line != "" && (line[0] == '#' || line[0] == ';') ==> kind == Comment)
      && (line != "" && line[0] == '[' ==> kind == Header(ReadSection(line)))
      && (line != "" && line[0] != '#' && line[0] != ';' && line[0] != '[' ==> kind == KeyLine(line, SplitKV(line)))
  {
    KindsAt(lines, i);
  }

  /** The classification of two pieces of a file put together. */
  lemma {:induction false} KindsAppend(a: seq<string>, b: seq<string>)
    ensures Kinds(a + b) == Kinds(a) + Kinds(b)
  {
    if b != [] {
      assert (a + b)[..|a + b| - 1] == a + b[..|b| - 1];
      KindsAppend(a, b[..|b| - 1]);
    } else {
      assert a + b == a;
    }
  }

  /**
   * The section line i belongs to: the name read from the last header above
   * it, or "" when there is none. This is the variable the load and both
   * rewriting loops keep as they go down the file.
   */
  function SectionBefore(kinds: seq<LineKind>, i: nat): string
    requires i <= |kinds|
  {
    if i == 0 then ""
    else match kinds[i - 1]
      case Header(name) => name
      case _ => SectionBefore(kinds, i - 1)
  }

  /**
   * Whether line i is a key line inside section s: neither blank, nor a
   * comment, nor a header, with s as the last header above it.
   */
  predicate InSectionBody(kinds: seq<LineKind>, i: nat, s: string)
    requires i < |kinds|
  {
    kinds[i].KeyLine? && SectionBefore(kinds, i) == s
  }

  /**
   * Whether line i is a key line of section s whose key is k: the lines
   * read_value stores under (s, k) and update_key rewrites (find_value).
   */
  predicate SetsKey(kinds: seq<LineKind>, i: nat, s: string, k: string)
    requires i < |kinds|
  {
    InSectionBody(kinds, i, s) && kinds[i].split.Some? && kinds[i].split.value.key == k
  }

  /**
   * A section name set can write: trimmed, non-empty, and without a newline
   * (which would split the header line in the file).
   */
  predicate WritableSection(s: string) {
    Trimmed(s) && s != "" && '\n' !in s
  }

  /**
   * A key set can write so that it reads back as itself: trimmed, non-empty,
   * without '=' (the line would split at it) or a newline, and not starting
   * with a character that makes the line a comment or a header.
   */
  predicate WritableKey(k: string) {
    Trimmed(k) && k != "" && '=' !in k && '\n' !in k && k[0] !in "#;["
  }

  /** A value set can write: trimmed, non-empty and without a newline. */
  predicate WritableValue(v: string) {
    Trimmed(v) && v != "" && '\n' !in v
  }

  /** The section of a line depends only on the lines before it. */
  lemma {:induction false} SectionBeforePrefix(a: seq<LineKind>, b: seq<LineKind>, i: nat)
    requires i <= |a| && i <= |b| && a[..i] == b[..i]
    ensures SectionBefore(a, i) == SectionBefore(b, i)
  {
    if i > 0 {
      assert a[i - 1] == a[..i][i - 1] == b[..i][i - 1] == b[i - 1];
      assert a[..i - 1] == a[..i][..i - 1];
      assert b[..i - 1] == b[..i][..i - 1];
      SectionBeforePrefix(a, b, i - 1);
    }
  }

  /** The header line of a trimmed, non-empty section name reads back as that name. */
  lemma HeaderLineRoundTrip(section: string)
    requires WritableSection(section)
    ensures Classify(HeaderLine(section)) == Header(section)
  {
    var h := HeaderLine(section);
    assert Trimmed(h);
    TrimmedFixed(h);
    TrimmedFixed(section);
    assert h[1..|h| - 1] == section;
  }

  /** A line written as "key = value" splits back into that key and value when the key holds no '='. */
  lemma {:induction false} SplitEntryLine(key: string, value: string)
    requires Trimmed(key) && key != "" && '=' !in key
    requires Trimmed(value) && value != ""
    ensures SplitKV(EntryLine(key, value)) == Some(Entry(key, value))
  {
    var e := EntryLine(key, value);
    assert e == key + (" = " + value);
    IndexOfAppend(key, " = " + value, '=');
    assert IndexOf(e, '=') == |key| + 1;
    assert e[..|key| + 1] == key + " ";
    assert e[|key| + 2..] == " " + value;
    TrimPadded(key);
    TrimPadded(value);
  }

  /**
   * A line written as "key = value" is read back, under any non-empty
   * section, as that key and value, provided the key is non-empty, holds no
   * '=' and does not start with one of the characters that make a line a
   * comment or a header.
   */
  lemma EntryLineRoundTrip(key: string, value: string, header: string)
    requires WritableKey(key) && WritableValue(value) && header != ""
    ensures Classify(EntryLine(key, value)) == KeyLine(EntryLine(key, value), Some(Entry(key, value)))
    ensures ParseValue(EntryLine(key, value), header) == Some(Entry(key, value))
  {
    var e := EntryLine(key, value);
    assert Trimmed(e);
    TrimmedFixed(e);
    SplitEntryLine(key, value);
  }

  /**
   * The key of a key line is empty or starts with the line's first non-blank
   * character, so it never starts with '#', ';' or '['; it is trimmed and
   * holds no '='.
   */
  lemma KeyLineKey(line: string)
    requires Classify(line).KeyLine? && Classify(line).split.Some?
    ensures var key := Classify(line).split.value.key;
      && Trimmed(key) && '=' !in key
      && (key == [] || (key[0] == Classify(line).text[0] && key[0] !in "#;["))
  {
    var t := TrimCopy(line);
    SplitAtFirstEquals(t);
    var i := IndexOf(t, '=');
    if i > 0 {
      var x := t[..i];
      assert x[0] == t[0] && !IsSpace(x[0]);
      assert LTrimCopy(x) == x;
      RTrimCopyShape(x);
    }
  }

  /**
   * A line "key = value" whose key is empty, or is trimmed and does not
   * start with '#', ';' or '[', and holds no '=', is a key line with that
   * key, whatever the value.
   */
  lemma EntryLineKeepsKey(key: string, value: string)
    requires '=' !in key && (key == [] || (Trimmed(key) && key[0] !in "#;["))
    ensures var kind := Classify(EntryLine(key, value));
      kind.KeyLine? && kind.split.Some? && kind.split.value.key == key
  {
    var e := EntryLine(key, value);
    var pre := if key == [] then "" else key + " ";
    var l := pre + ("= " + value);
    if key == [] {
      assert e == " " + l && e[1..] == l;
    } else {
      assert e == l && e[0] == key[0];
    }
    assert LTrimCopy(e) == l;
    var t := RTrimCopy(l);
    RTrimCopyShape(l);
    assert l[|pre|] == '=';
    var rest := ("= " + value)[..|t| - |pre|];
    assert t == pre + rest;
    SplitAfterPrefix(pre, rest);
    assert TrimCopy(e) == t;
    assert Classify(e) == KeyLine(t, SplitKV(t));
    if key != [] {
      TrimPadded(key);
    }
  }

  /** A line whose first '=' directly follows pre splits into the trimmed pre as its key. */
  lemma SplitAfterPrefix(pre: string, rest: string)
    requires '=' !in pre && rest != [] && rest[0] == '='
    ensures SplitKV(pre + rest).Some? && SplitKV(pre + rest).value.key == TrimCopy(pre)
  {
    IndexOfAppend(pre, rest, '=');
    assert (pre + rest)[..|pre|] == pre;
  }

  /** The empty headers "[]" and "[   ]" are rejected. */
  lemma EmptyHeaders()
    ensures ReadSection("[]") == "" && ReadSection("[   ]") == ""
  {
    var blanks := "[   ]"[1..4];
    assert blanks == "   ";
    assert blanks[1..][1..][1..] == "";
    assert LTrimCopy(blanks) == "";
    assert TrimCopy(blanks) == "";
  }
}
