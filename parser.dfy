/**
 * The ConfigParser object: the in-memory store of sections, the contents of
 * the file it is bound to, and the operations init, get, have and set with
 * the private helpers that read and rewrite the file line by line.
 *
 * The file is a field holding its lines; reading it gives those lines and
 * writing it replaces them. Whether the file can be opened is a parameter
 * of the operations that open it.
 */
module Parser {
  import opened Text
  import opened Lines
  import opened Stores
  import opened Loading
  import opened Rewrites
  import opened Consistency
  import opened Values

  class ConfigParser {
    /** The sections read or set so far: section name to key to value. */
    var sections: Store
    /** The lines of the file named filename. */
    var file: seq<string>
    /** The name of the file the parser reads and rewrites. */
    const filename: string

    /** A parser bound to a file, with nothing read yet. */
    constructor (filename: string, file: seq<string>)
      ensures this.filename == filename && this.file == file && sections == map[]
    {
      this.filename := filename;
      this.file := file;
      sections := map[];
    }

    /**
     * init: reads the file line by line into the store and reports whether
     * every line was accepted and how many lines were read, the rejected
     * one included. The store is not cleared first, and the entries read
     * before a rejected line are kept. A file that cannot be opened reads
     * as no lines.
     */
    method Init(readable: bool := true) returns (ok: bool, linenum: nat)
      modifies this`sections
      ensures !readable ==> ok && linenum == 0 && sections == old(sections)
      ensures readable ==> LoadState(sections, linenum, ok) == Load(old(sections), file)
    {
      linenum := 0;
      var bErr := false;
      if readable {
        ghost var kinds := Kinds(file);
        var section := "";
        while linenum < |file|
          invariant linenum <= |file|
          invariant LoadPrefix(old(sections), kinds, linenum) == LoadState(sections, linenum, true)
          invariant section == SectionBefore(kinds, linenum)
          invariant !bErr
        {
          var line := Trim(file[linenum]);
          KindsAt(file, linenum);
          var st := LoadPrefix(old(sections), kinds, linenum + 1);
          assert st == Step(sections, section, Classify(file[linenum]), linenum + 1);
          linenum := linenum + 1;
          if |line| == 0 {
            continue;
          }
          if line[0] == '#' || line[0] == ';' {
          } else if line[0] == '[' {
            section := ReadSection(line);
            if section == "" {
              bErr := true;
            }
          } else {
            var stored := ReadValue(line, section);
            bErr := !stored;
          }
          if bErr {
            assert !st.ok && st.nline == linenum;
            FailedStays(old(sections), kinds, linenum, |file|);
            break;
          }
        }
      }
      ok := !bErr;
    }

    /**
     * read_value: stores the entry of a trimmed key line under header, and
     * reports false, leaving the store alone, when the header is empty, the
     * line has no '=' or the key is empty.
     */
    method ReadValue(line: string, header: string) returns (stored: bool)
      modifies this`sections
      ensures stored <==> ParseValue(line, header).Some?
      ensures stored ==> sections == Put(old(sections), header, ParseValue(line, header).value.key, ParseValue(line, header).value.value)
      ensures !stored ==> sections == old(sections)
    {
      if header == "" || '=' !in line {
        return false;
      }
      var i := IndexOf(line, '=');
      SplitAtFirstEquals(line);
      var key := Trim(line[..i]);
      if |key| == 0 {
        return false;
      }
      var val := Trim(line[i + 1..]);
      sections := sections[header := SectionOf(sections, header)[key := val]];
      return true;
    }

    /**
     * get: the value stored under the trimmed section and key, or the empty
     * value when there is none.
     */
    method Get(section: string, key: string) returns (v: ConfigValue)
      ensures var found := Find(sections, TrimCopy(section), TrimCopy(key));
        v.value == if found.Some? then found.value else ""
    {
      var s := Trim(section);
      var k := Trim(key);
      if s !in sections || k !in sections[s] {
        return ConfigValue("");
      }
      return ConfigValue(sections[s][k]);
    }

    /** have: whether a value is stored under the trimmed section and key. */
    method Have(section: string, key: string) returns (present: bool)
      ensures present <==> Find(sections, TrimCopy(section), TrimCopy(key)).Some?
    {
      var s := Trim(section);
      var k := Trim(key);
      present := s in sections && k in sections[s];
    }

    /**
     * set: trims its arguments and refuses an empty one; otherwise it writes
     * the file by the strategy that fits what the store holds (a new
     * section is appended, a new key is inserted into its section, an
     * existing key is rewritten) and stores the value. When the file could
     * not be opened it is left as it was and the value is stored all the
     * same. A file read from scratch into the store stays in agreement with
     * it, for names that read back as themselves.
     */
    method Set(section: string, key: string, value: string, writable: bool := true) returns (ok: bool)
      modifies this`sections, this`file
      ensures var s, k, v := TrimCopy(section), TrimCopy(key), TrimCopy(value);
        && (ok <==> s != "" && k != "" && v != "")
        && (ok ==> sections == Put(old(sections), s, k, v))
        && (!ok ==> sections == old(sections))
        && (!ok || !writable ==> file == old(file))
        && (ok && writable && s !in old(sections) ==> file == old(file) + [HeaderLine(s), EntryLine(k, v)])
        && (ok && writable && s in old(sections) && Find(old(sections), s, k).None? ==> file == KeyInserted(old(file), s, k, v))
        && (ok && writable && Find(old(sections), s, k).Some? ==> file == KeyUpdated(old(file), s, k, v))
      ensures var s, k, v := TrimCopy(section), TrimCopy(key), TrimCopy(value);
        (old(Consistent(sections, file)) && WritableSection(s) && WritableKey(k) && WritableValue(v) && writable)
          ==> Consistent(sections, file)
    {
      var s := Trim(section);
      var k := Trim(key);
      var v := Trim(value);
      if s == "" || k == "" || v == "" {
        return false;
      }
      ghost var store := sections;
      if s in sections {
        if k in sections[s] {
          UpdateKey(s, k, v, writable);
        } else {
          InsertKey(s, k, v, writable);
        }
      } else {
        InsertSection(s, k, v, writable);
      }
      sections := sections[s := SectionOf(sections, s)[k := v]];
      ok := true;
      if old(Consistent(sections, file)) && WritableSection(s) && WritableKey(k) && WritableValue(v) && writable {
        if s !in store {
          AppendSectionConsistent(store, old(file), s, k, v);
        } else if Find(store, s, k).None? {
          InsertKeyConsistent(store, old(file), s, k, v);
        } else {
          UpdateKeyConsistent(store, old(file), s, k, v);
        }
      }
    }

    /** insert_section: appends "[section]" and "key = value" to the file, if it can be opened. */
    method InsertSection(s: string, k: string, v: string, writable: bool)
      modifies this`file
      ensures file == if writable then old(file) + [HeaderLine(s), EntryLine(k, v)] else old(file)
    {
      if writable {
        file := file + [HeaderLine(s), EntryLine(k, v)];
      }
    }

    /**
     * update_key: copies the file line by line, writing "key = value" in
     * place of every key line of section s whose key is k.
     */
    method UpdateKey(s: string, k: string, v: string, writable: bool)
      modifies this`file
      ensures file == if writable then KeyUpdated(old(file), s, k, v) else old(file)
    {
      if !writable {
        return;
      }
      var lines := file;
      ghost var kinds := Kinds(lines);
      ghost var r := KeyUpdated(lines, s, k, v);
      var out: seq<string> := [];
      var section1 := "";
      var i := 0;
      while i < |lines|
        invariant i <= |lines|
        invariant section1 == SectionBefore(kinds, i)
        invariant out == r[..i]
      {
        var line1 := lines[i];
        var line := Trim(line1);
        KindByFirstChar(lines, i);
        ghost var target := SetsKey(kinds, i, s, k);
        assert r[i] == if target then EntryLine(k, v) else line1;
        assert r[..i + 1] == r[..i] + [r[i]];
        if |line| == 0 {
          assert !target;
          out := out + [line1];
          i := i + 1;
          continue;
        }
        var update := false;
        if line[0] == '#' || line[0] == ';' {
        } else if line[0] == '[' {
          section1 := ReadSection(line);
        } else if section1 == s && FindValue(line, k) {
          update := true;
        }
        assert update <==> target;
        if update {
          out := out + [EntryLine(k, v)];
        } else {
          out := out + [line1];
        }
        i := i + 1;
      }
      assert r[..i] == r;
      file := out;
    }

    /**
     * insert_key: copies the file line by line, writing "key = value" once,
     * above the first key line of section s.
     */
    method InsertKey(s: string, k: string, v: string, writable: bool)
      modifies this`file
      ensures file == if writable then KeyInserted(old(file), s, k, v) else old(file)
    {
      if !writable {
        return;
      }
      var lines := file;
      ghost var kinds := Kinds(lines);
      ghost var p := FirstBodyLine(kinds, s, 0);
      var out: seq<string> := [];
      var section1 := "";
      var inserted := false;
      var i := 0;
      while i < |lines|
        invariant i <= |lines|
        invariant section1 == SectionBefore(kinds, i)
        invariant inserted <==> p < i
        invariant !inserted ==> out == lines[..i]
        invariant inserted ==> out == lines[..p] + [EntryLine(k, v)] + lines[p..i]
      {
        var line1 := lines[i];
        var line := Trim(line1);
        KindByFirstChar(lines, i);
        ghost var body := InSectionBody(kinds, i, s);
        assert !inserted ==> (body <==> p == i);
        assert lines[..i + 1] == lines[..i] + [line1];
        assert inserted ==> lines[p..i + 1] == lines[p..i] + [line1];
        if |line| == 0 {
          assert !body;
          out := out + [line1];
          i := i + 1;
          continue;
        }
        var insertHere := false;
        if line[0] == '#' || line[0] == ';' {
        } else if line[0] == '[' {
          section1 := ReadSection(line);
        } else if section1 == s && !inserted {
          insertHere := true;
        }
        assert insertHere <==> body && !inserted;
        if insertHere {
          out := out + [EntryLine(k, v)];
          inserted := true;
        }
        out := out + [line1];
        i := i + 1;
      }
      assert lines[..i] == lines;
      file := out;
    }
  }
}
