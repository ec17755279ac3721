/**
 * The agreement set keeps between the in-memory store and the file: reading
 * the rewritten file from scratch gives exactly the updated store, for each
 * of the three ways set rewrites the file.
 */
module Consistency {
  import opened Wrappers
  import opened Text
  import opened Lines
  import opened Stores
  import opened Loading
  import opened Rewrites

  /** The store is what init reads from the file into an empty store, with no line rejected. */
  predicate Consistent(store: Store, file: seq<string>) {
    var st := Load(map[], file);
    st.ok && st.store == store
  }

  /** A load whose first n lines were accepted also accepted every shorter prefix. */
  lemma PrefixOk(store: Store, kinds: seq<LineKind>, j: nat, n: nat)
    requires j <= n <= |kinds| && LoadPrefix(store, kinds, n).ok
    ensures LoadPrefix(store, kinds, j).ok
  {
    if !LoadPrefix(store, kinds, j).ok {
      FailedStays(store, kinds, j, n);
    }
  }

  /** One more line read by a load that has not failed. */
  lemma LoadPrefixNext(store: Store, kinds: seq<LineKind>, n: nat)
    requires n < |kinds| && LoadPrefix(store, kinds, n).ok
    ensures LoadPrefix(store, kinds, n + 1) == Step(LoadPrefix(store, kinds, n).store, SectionBefore(kinds, n), kinds[n], n + 1)
  {
  }

  /**
   * insert_section: a file that is consistent with the store stays
   * consistent when "[section]" and "key = value" are appended to it and the
   * store gets the entry.
   */
  lemma AppendSectionConsistent(store: Store, file: seq<string>, s: string, k: string, v: string)
    requires Consistent(store, file)
    requires WritableSection(s) && WritableKey(k) && WritableValue(v)
    ensures Consistent(Put(store, s, k, v), file + [HeaderLine(s), EntryLine(k, v)])
  {
    KindsAppendedSection(s, k, v);
    AppendedConsistent(store, file, [HeaderLine(s), EntryLine(k, v)], s, k, v);
  }

  /** AppendSectionConsistent for any two lines that read back as the header and the entry. */
  lemma AppendedConsistent(store: Store, file: seq<string>, tail: seq<string>, s: string, k: string, v: string)
    requires Consistent(store, file) && s != "" && k != ""
    requires Kinds(tail) == [Header(s), EntryKind(k, v)]
    ensures Consistent(Put(store, s, k, v), file + tail)
  {
    KindsAppend(file, tail);
    LoadAppended(Kinds(file), s, k, v);
  }

  /** The two lines insert_section appends read back as the header and the entry. */
  lemma KindsAppendedSection(s: string, k: string, v: string)
    requires WritableSection(s) && WritableKey(k) && WritableValue(v)
    ensures Kinds([HeaderLine(s), EntryLine(k, v)]) == [Header(s), EntryKind(k, v)]
  {
    var tail := [HeaderLine(s), EntryLine(k, v)];
    HeaderLineRoundTrip(s);
    EntryLineRoundTrip(k, v, s);
    KindsAt(tail, 0);
    KindsAt(tail, 1);
  }

  /** The kinds-level half of AppendSectionConsistent. */
  lemma LoadAppended(a: seq<LineKind>, s: string, k: string, v: string)
    requires LoadPrefix(map[], a, |a|).ok && s != "" && k != ""
    ensures LoadPrefix(map[], a + [Header(s), EntryKind(k, v)], |a| + 2)
         == LoadState(Put(LoadPrefix(map[], a, |a|).store, s, k, v), |a| + 2, true)
  {
    var b := a + [Header(s), EntryKind(k, v)];
    LoadAppendedHeader(a, s, k, v);
    LoadAppendedEntry(b, |a|, LoadPrefix(map[], a, |a|).store, s, k, v);
  }

  /** The appended header line is accepted and changes nothing in the store. */
  lemma LoadAppendedHeader(a: seq<LineKind>, s: string, k: string, v: string)
    requires LoadPrefix(map[], a, |a|).ok && s != ""
    ensures LoadPrefix(map[], a + [Header(s), EntryKind(k, v)], |a| + 1)
         == LoadState(LoadPrefix(map[], a, |a|).store, |a| + 1, true)
  {
    var b := a + [Header(s), EntryKind(k, v)];
    var n := |a|;
    assert b[..n] == a[..n];
    LoadPrefixAgree(map[], b, a, n);
    assert b[n] == Header(s);
    LoadPrefixNext(map[], b, n);
  }

  /** The appended entry line, under the appended header, puts its entry into the store. */
  lemma LoadAppendedEntry(b: seq<LineKind>, n: nat, x: Store, s: string, k: string, v: string)
    requires n + 2 == |b| && b[n] == Header(s) && b[n + 1] == EntryKind(k, v) && s != "" && k != ""
    requires LoadPrefix(map[], b, n + 1) == LoadState(x, n + 1, true)
    ensures LoadPrefix(map[], b, n + 2) == LoadState(Put(x, s, k, v), n + 2, true)
  {
    LoadPrefixNext(map[], b, n + 1);
    assert SectionBefore(b, n + 1) == s;
  }

  /**
   * A step that does not set (s, k) gives the same result whether or not
   * (s, k) was put into the store before it.
   */
  lemma StepAfterPut(x: Store, sec: string, kind: LineKind, n: nat, m: nat, s: string, k: string, v: string)
    requires Step(x, sec, kind, n).ok && Find(Step(x, sec, kind, n).store, s, k).None?
    ensures Step(Put(x, s, k, v), sec, kind, m) == LoadState(Put(Step(x, sec, kind, n).store, s, k, v), m, true)
  {
    if kind.KeyLine? && CheckEntry(kind.split, sec).Some? {
      var e := kind.split.value;
      PutCommute(x, s, k, v, sec, e.key, e.value);
    }
  }

  /**
   * The store update_key's rewrite leads to: the entry (s, k) takes the new
   * value when it is present, and nothing else changes.
   */
  function Patch(store: Store, s: string, k: string, v: string): (r: Store)
    ensures Find(store, s, k).Some? ==> Find(r, s, k) == Some(v)
    ensures forall s1, k1 :: (s1, k1) != (s, k) || Find(store, s, k).None? ==> Find(r, s1, k1) == Find(store, s1, k1)
  {
    if Find(store, s, k).Some? then Put(store, s, k, v) else store
  }

  /**
   * Reading the rewritten lines of update_key line by line gives, after every
   * prefix that the old file passes, the old store patched.
   */
  lemma {:induction false} LoadPatched(a: seq<LineKind>, b: seq<LineKind>, s: string, k: string, v: string, n: nat)
    requires |a| == |b| && n <= |a| && k != ""
    requires forall i :: 0 <= i < |a| ==> b[i] == if SetsKey(a, i, s, k) then EntryKind(k, v) else a[i]
    requires forall j :: 0 <= j <= |a| ==> SectionBefore(b, j) == SectionBefore(a, j)
    requires LoadPrefix(map[], a, n).ok
    ensures LoadPrefix(map[], b, n) == LoadState(Patch(LoadPrefix(map[], a, n).store, s, k, v), n, true)
  {
    if n > 0 {
      var i := n - 1;
      PrefixOk(map[], a, i, n);
      LoadPatched(a, b, s, k, v, i);
      var x := LoadPrefix(map[], a, i).store;
      var sec := SectionBefore(a, i);
      assert SectionBefore(b, i) == sec;
      if SetsKey(a, i, s, k) {
        var w := a[i].split.value.value;
        assert b[i] == EntryKind(k, v);
        assert CheckEntry(a[i].split, sec).Some?;
        PutOverwrite(x, s, k, w, v);
        PutOverwrite(x, s, k, v, v);
      } else if a[i].KeyLine? && CheckEntry(a[i].split, sec).Some? {
        var e := a[i].split.value;
        assert (sec, e.key) != (s, k);
        if Find(x, s, k).Some? {
          PutCommute(x, s, k, v, sec, e.key, e.value);
        }
      }
    }
  }

  /**
   * update_key: a file that is consistent with a store holding (s, k) stays
   * consistent when every line of section s with key k is rewritten and the
   * store gets the new value.
   */
  lemma UpdateKeyConsistent(store: Store, file: seq<string>, s: string, k: string, v: string)
    requires Consistent(store, file) && Find(store, s, k).Some?
    requires WritableKey(k) && WritableValue(v)
    ensures Consistent(Put(store, s, k, v), KeyUpdated(file, s, k, v))
  {
    var r := KeyUpdated(file, s, k, v);
    EntryLineRoundTrip(k, v, "-");
    KindsUpdated(file, s, k, v);
    LoadPatched(Kinds(file), Kinds(r), s, k, v, |file|);
  }

  /**
   * Reading insert_key's rewritten lines: up to the insertion point p they
   * are the old lines; from the new line on, every prefix gives the old
   * store with the entry added, because the old file never sets (s, k).
   */
  lemma {:induction false} LoadInserted(a: seq<LineKind>, b: seq<LineKind>, p: nat, s: string, k: string, v: string, j: nat)
    requires p <= j <= |a| && p < |a| && s != "" && k != "" && b == a[..p] + [EntryKind(k, v)] + a[p..]
    requires InSectionBody(a, p, s)
    requires LoadPrefix(map[], a, j).ok && Find(LoadPrefix(map[], a, j).store, s, k).None?
    ensures LoadPrefix(map[], b, j + 1) == LoadState(Put(LoadPrefix(map[], a, j).store, s, k, v), j + 1, true)
  {
    if j == p {
      LoadInsertedAt(a, p, s, k, v);
    } else {
      PrefixOk(map[], a, j - 1, j);
      if Find(LoadPrefix(map[], a, j - 1).store, s, k).Some? {
        LoadMonotone(map[], a, j - 1, j, s, k);
      }
      LoadInserted(a, b, p, s, k, v, j - 1);
      LoadInsertedNext(a, b, p, j, s, k, v);
    }
  }

  /** The inductive step of LoadInserted: one more old line, read after the new one. */
  lemma LoadInsertedNext(a: seq<LineKind>, b: seq<LineKind>, p: nat, j: nat, s: string, k: string, v: string)
    requires p < j <= |a| && b == a[..p] + [EntryKind(k, v)] + a[p..]
    requires LoadPrefix(map[], b, j) == LoadState(Put(LoadPrefix(map[], a, j - 1).store, s, k, v), j, true)
    requires LoadPrefix(map[], a, j).ok && Find(LoadPrefix(map[], a, j).store, s, k).None?
    ensures LoadPrefix(map[], b, j + 1) == LoadState(Put(LoadPrefix(map[], a, j).store, s, k, v), j + 1, true)
  {
    var x := LoadPrefix(map[], a, j - 1).store;
    var sec := SectionBefore(a, j - 1);
    var kind := a[j - 1];
    assert LoadPrefix(map[], a, j - 1).ok by {
      PrefixOk(map[], a, j - 1, j);
    }
    assert LoadPrefix(map[], a, j) == Step(x, sec, kind, j) by {
      LoadPrefixNext(map[], a, j - 1);
    }
    assert LoadPrefix(map[], b, j + 1) == Step(Put(x, s, k, v), sec, kind, j + 1) by {
      SectionBeforeInsert(a, p, EntryKind(k, v), j - 1);
      assert b[j] == kind;
      LoadNextFrom(b, j, Put(x, s, k, v), sec, kind);
    }
    StepAfterPut(x, sec, kind, j, j + 1, s, k, v);
  }

  /** One more line read by a load that has not failed, with the state, section and line named. */
  lemma LoadNextFrom(kinds: seq<LineKind>, n: nat, x: Store, sec: string, kind: LineKind)
    requires n < |kinds| && LoadPrefix(map[], kinds, n) == LoadState(x, n, true)
    requires SectionBefore(kinds, n) == sec && kinds[n] == kind
    ensures LoadPrefix(map[], kinds, n + 1) == Step(x, sec, kind, n + 1)
  {
    LoadPrefixNext(map[], kinds, n);
  }

  /** The base case of LoadInserted: reading up to and including the new line. */
  lemma LoadInsertedAt(a: seq<LineKind>, p: nat, s: string, k: string, v: string)
    requires p < |a| && s != "" && k != ""
    requires InSectionBody(a, p, s) && LoadPrefix(map[], a, p).ok
    ensures var b := a[..p] + [EntryKind(k, v)] + a[p..];
      LoadPrefix(map[], b, p + 1) == LoadState(Put(LoadPrefix(map[], a, p).store, s, k, v), p + 1, true)
  {
    var b := a[..p] + [EntryKind(k, v)] + a[p..];
    assert b[..p] == a[..p];
    LoadPrefixAgree(map[], b, a, p);
    SectionBeforeInsert(a, p, EntryKind(k, v), p);
    assert b[p] == EntryKind(k, v);
  }

  /**
   * insert_key: a file that is consistent with a store holding section s but
   * not key k in it stays consistent when "key = value" is placed above the
   * first key line of the section and the store gets the entry. (The
   * section has such a line, because the load added it to the store.)
   */
  lemma InsertKeyConsistent(store: Store, file: seq<string>, s: string, k: string, v: string)
    requires Consistent(store, file) && s in store && Find(store, s, k).None?
    requires WritableKey(k) && WritableValue(v)
    ensures Consistent(Put(store, s, k, v), KeyInserted(file, s, k, v))
  {
    EntryLineRoundTrip(k, v, "-");
    InsertedConsistent(store, file, FirstBodyLine(Kinds(file), s, 0), EntryLine(k, v), s, k, v);
  }

  /** InsertKeyConsistent for any line that reads back as the entry, placed at the insertion point. */
  lemma InsertedConsistent(store: Store, file: seq<string>, p: nat, e: string, s: string, k: string, v: string)
    requires Consistent(store, file) && s in store && Find(store, s, k).None? && k != ""
    requires p == FirstBodyLine(Kinds(file), s, 0) && Classify(e) == EntryKind(k, v)
    ensures p < |file| && Consistent(Put(store, s, k, v), file[..p] + [e] + file[p..])
  {
    var a := Kinds(file);
    var b := a[..p] + [EntryKind(k, v)] + a[p..];
    assert LoadPrefix(map[], a, |a|) == LoadState(store, |a|, true);
    assert p < |file| && LoadPrefix(map[], b, |b|) == LoadState(Put(store, s, k, v), |b|, true) by {
      LoadInsertedWhole(a, store, s, k, v);
    }
    assert Kinds(file[..p] + [e] + file[p..]) == b by {
      KindsInsertAt(file, p, e);
    }
    ReadsBackAs(Put(store, s, k, v), file[..p] + [e] + file[p..], b);
  }

  /** A file is consistent with the store its classified lines load into. */
  lemma ReadsBackAs(store: Store, file: seq<string>, kinds: seq<LineKind>)
    requires Kinds(file) == kinds && LoadPrefix(map[], kinds, |kinds|) == LoadState(store, |kinds|, true)
    ensures Consistent(store, file)
  {
  }

  /** The kinds-level half of InsertKeyConsistent. */
  lemma LoadInsertedWhole(a: seq<LineKind>, store: Store, s: string, k: string, v: string)
    requires LoadPrefix(map[], a, |a|) == LoadState(store, |a|, true) && k != ""
    requires s in store && Find(store, s, k).None?
    ensures var p := FirstBodyLine(a, s, 0);
      var b := a[..p] + [EntryKind(k, v)] + a[p..];
      && p < |a|
      && LoadPrefix(map[], b, |b|) == LoadState(Put(store, s, k, v), |b|, true)
  {
    var p := FirstBodyLine(a, s, 0);
    assert p < |a| by {
      LoadedSectionHasBody(map[], a, |a|, s);
    }
    var b := a[..p] + [EntryKind(k, v)] + a[p..];
    assert s != "" by {
      PrefixOk(map[], a, p + 1, |a|);
      LoadPrefixNext(map[], a, p);
    }
    LoadInserted(a, b, p, s, k, v, |a|);
    assert |b| == |a| + 1;
  }

  /**
   * Why set's consistency needs a key without '=': the line written for any
   * key holding '=' splits at that '=', so neither read_value nor
   * find_value gives the key back; with key "a=b" and value "c" the line
   * "a=b = c" reads as key "a".
   */
  lemma KeyWithEqualsDoesNotReadBack(k: string, v: string)
    requires '=' in k
    ensures var e := EntryLine(k, v);
      && SplitKV(e).Some?
      && SplitKV(e).value.key != k
      && !FindValue(e, k)
  {
    var e := EntryLine(k, v);
    var i :| 0 <= i < |k| && k[i] == '=';
    assert e[i] == '=';
    SplitAtFirstEquals(e);
  }

  /**
   * Why set's consistency needs a key that does not start with '#', ';' or
   * '[': the line written for such a key reads back as a comment or a
   * header, not as an entry.
   */
  lemma KeyWithMarkerIsNotKeyLine(k: string, v: string)
    requires k != "" && !IsSpace(k[0]) && k[0] in "#;["
    ensures !Classify(EntryLine(k, v)).KeyLine?
  {
    var e := EntryLine(k, v);
    assert e[0] == k[0];
    assert LTrimCopy(e) == e;
    ClassifyByFirstNonBlank(e);
  }
}
