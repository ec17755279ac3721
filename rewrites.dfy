/**
 * The new file contents insert_key and update_key write: functions from the
 * lines of the file to its rewritten lines, stated on the classification of
 * the lines the rewriting loops compute as they go (blank, comment, header,
 * key line, with the current section).
 */
module Rewrites {
  import opened Wrappers
  import opened Lines

  /**
   * The first key line of section s at or after line from, or |kinds| when
   * there is none: the line insert_key writes the new entry above.
   */
  function FirstBodyLine(kinds: seq<LineKind>, s: string, from: nat): (p: nat)
    requires from <= |kinds|
    ensures from <= p <= |kinds|
    ensures p < |kinds| ==> InSectionBody(kinds, p, s)
    ensures forall j :: from <= j < p ==> !InSectionBody(kinds, j, s)
    decreases |kinds| - from
  {
    if from == |kinds| then |kinds|
    else if InSectionBody(kinds, from, s) then from
    else FirstBodyLine(kinds, s, from + 1)
  }

  /**
   * The file after insert_key: "key = value" placed once, above the first
   * key line of the section; when the section has no key line the file is
   * written back unchanged.
   */
  function KeyInserted(lines: seq<string>, s: string, k: string, v: string): seq<string> {
    var p := FirstBodyLine(Kinds(lines), s, 0);
    if p < |lines| then lines[..p] + [EntryLine(k, v)] + lines[p..] else lines
  }

  /** The file after update_key: every key line of section s with key k becomes "key = value". */
  function KeyUpdated(lines: seq<string>, s: string, k: string, v: string): seq<string> {
    var kinds := Kinds(lines);
    seq(|lines|, i requires 0 <= i < |lines| => if SetsKey(kinds, i, s, k) then EntryLine(k, v) else lines[i])
  }

  /** The classification of a line written as "key = value" for a writable key and value. */
  function EntryKind(k: string, v: string): LineKind {
    KeyLine(EntryLine(k, v), Some(Entry(k, v)))
  }

  /**
   * Placing a line that is not a header into the file leaves the section of
   * every line above it unchanged and moves the section of every line below
   * it down by one.
   */
  lemma {:induction false} SectionBeforeInsert(a: seq<LineKind>, p: nat, x: LineKind, j: nat)
    requires p <= |a| && !x.Header? && j <= |a|
    ensures j <= p ==> SectionBefore(a[..p] + [x] + a[p..], j) == SectionBefore(a, j)
    ensures p <= j ==> SectionBefore(a[..p] + [x] + a[p..], j + 1) == SectionBefore(a, j)
  {
    var b := a[..p] + [x] + a[p..];
    if j <= p {
      assert b[..j] == a[..j];
      SectionBeforePrefix(a, b, j);
    } else {
      SectionBeforeInsert(a, p, x, j - 1);
      assert b[j] == a[j - 1];
    }
    if j == p {
      assert b[p] == x;
    }
  }

  /**
   * Replacing lines by lines of the same kind that are not headers, and
   * leaving the headers alone, keeps the section of every line.
   */
  lemma {:induction false} SectionBeforeReplace(a: seq<LineKind>, b: seq<LineKind>, j: nat)
    requires |a| == |b| && j <= |a|
    requires forall i :: 0 <= i < |a| && (a[i].Header? || b[i].Header?) ==> a[i] == b[i]
    ensures SectionBefore(a, j) == SectionBefore(b, j)
  {
    if j > 0 {
      SectionBeforeReplace(a, b, j - 1);
    }
  }

  /**
   * The lines of the file after insert_key, classified: the old lines with
   * the new entry's line in place at the insertion point.
   */
  lemma KindsInserted(lines: seq<string>, s: string, k: string, v: string)
    requires WritableKey(k) && WritableValue(v)
    requires FirstBodyLine(Kinds(lines), s, 0) < |lines|
    ensures var p := FirstBodyLine(Kinds(lines), s, 0);
      Kinds(KeyInserted(lines, s, k, v)) == Kinds(lines)[..p] + [EntryKind(k, v)] + Kinds(lines)[p..]
  {
    var p := FirstBodyLine(Kinds(lines), s, 0);
    var e := EntryLine(k, v);
    EntryLineRoundTrip(k, v, "-");
    assert KeyInserted(lines, s, k, v) == lines[..p] + [e] + lines[p..];
    KindsInsertAt(lines, p, e);
  }

  /** Classifying a file with one line placed into it at p. */
  lemma KindsInsertAt(lines: seq<string>, p: nat, e: string)
    requires p <= |lines|
    ensures Kinds(lines[..p] + [e] + lines[p..]) == Kinds(lines)[..p] + [Classify(e)] + Kinds(lines)[p..]
  {
    KindsAppend(lines[..p] + [e], lines[p..]);
    KindsAppend(lines[..p], [e]);
    KindsAppend(lines[..p], lines[p..]);
    assert lines[..p] + lines[p..] == lines;
    assert Kinds([e]) == [Classify(e)] by {
      assert [e][..0] == [];
    }
  }

  /**
   * insert_key adds at most one line: with no key line in section s the
   * file is unchanged; otherwise "key = value" is placed directly above the
   * section's first key line, the lines around it keep their order, and
   * taking it out gives back the old file. This holds for any key and value.
   */
  lemma KeyInsertedShape(lines: seq<string>, s: string, k: string, v: string)
    ensures var p := FirstBodyLine(Kinds(lines), s, 0);
      var r := KeyInserted(lines, s, k, v);
      && (p == |lines| ==> r == lines)
      && (p < |lines| ==>
            && |r| == |lines| + 1
            && r[p] == EntryLine(k, v)
            && r[..p] == lines[..p]
            && r[p + 1..] == lines[p..]
            && r[..p] + r[p + 1..] == lines)
  {
    var p := FirstBodyLine(Kinds(lines), s, 0);
    var r := KeyInserted(lines, s, k, v);
    if p < |lines| {
      assert r[..p] == lines[..p];
      assert r[p + 1..] == lines[p..];
    }
  }

  /**
   * For a key and value that read back as themselves, insert_key's new line
   * becomes the first key line of section s, directly above the line that
   * was the first one.
   */
  lemma KeyInsertedFirstInSection(lines: seq<string>, s: string, k: string, v: string)
    requires WritableKey(k) && WritableValue(v)
    ensures var p := FirstBodyLine(Kinds(lines), s, 0);
      var r := KeyInserted(lines, s, k, v);
      p < |lines| ==>
        && InSectionBody(Kinds(r), p, s)
        && InSectionBody(Kinds(r), p + 1, s)
        && forall j :: 0 <= j < p ==> !InSectionBody(Kinds(r), j, s)
  {
    var kinds := Kinds(lines);
    var p := FirstBodyLine(kinds, s, 0);
    if p < |lines| {
      KindsInserted(lines, s, k, v);
      InsertedFirstInSection(kinds, p, EntryKind(k, v), s);
    }
  }

  /** The kinds-level half of KeyInsertedFirstInSection. */
  lemma InsertedFirstInSection(a: seq<LineKind>, p: nat, x: LineKind, s: string)
    requires p < |a| && x.KeyLine?
    requires InSectionBody(a, p, s) && forall j :: 0 <= j < p ==> !InSectionBody(a, j, s)
    ensures var b := a[..p] + [x] + a[p..];
      && InSectionBody(b, p, s)
      && InSectionBody(b, p + 1, s)
      && forall j :: 0 <= j < p ==> !InSectionBody(b, j, s)
  {
    var b := a[..p] + [x] + a[p..];
    SectionBeforeInsert(a, p, x, p);
    assert b[p] == x && b[p + 1] == a[p];
    forall j | 0 <= j < p
      ensures !InSectionBody(b, j, s)
    {
      assert !InSectionBody(a, j, s);
      SectionBeforeInsert(a, p, x, j);
      assert b[j] == a[j];
    }
  }

  /**
   * The lines of the file after update_key, classified: each rewritten line
   * gets the kind of "key = value", every other line keeps its kind, and so,
   * when "key = value" is a key line, every line keeps its section.
   */
  lemma KindsUpdated(lines: seq<string>, s: string, k: string, v: string)
    requires Classify(EntryLine(k, v)).KeyLine?
    ensures var kinds := Kinds(lines);
      var kr := Kinds(KeyUpdated(lines, s, k, v));
      && |kr| == |kinds|
      && (forall i :: 0 <= i < |kinds| ==> kr[i] == if SetsKey(kinds, i, s, k) then Classify(EntryLine(k, v)) else kinds[i])
      && forall j :: 0 <= j <= |kinds| ==> SectionBefore(kr, j) == SectionBefore(kinds, j)
  {
    var kinds := Kinds(lines);
    var r := KeyUpdated(lines, s, k, v);
    var kr := Kinds(r);
    forall i | 0 <= i < |kinds|
      ensures kr[i] == if SetsKey(kinds, i, s, k) then Classify(EntryLine(k, v)) else kinds[i]
    {
      KindsAt(lines, i);
      KindsAt(r, i);
    }
    forall j | 0 <= j <= |kinds|
      ensures SectionBefore(kr, j) == SectionBefore(kinds, j)
    {
      SectionBeforeReplace(kinds, kr, j);
    }
  }

  /**
   * update_key keeps the number of lines and changes only the key lines of
   * section s with key k, each into "key = value". This holds for any key
   * and value.
   */
  lemma KeyUpdatedShape(lines: seq<string>, s: string, k: string, v: string)
    ensures var r := KeyUpdated(lines, s, k, v);
      && |r| == |lines|
      && forall i :: 0 <= i < |lines| ==>
           && (r[i] != lines[i] ==> SetsKey(Kinds(lines), i, s, k))
           && (SetsKey(Kinds(lines), i, s, k) ==> r[i] == EntryLine(k, v))
  {
  }

  /**
   * For a key and value that read back as themselves, the lines update_key
   * rewrote are afterwards exactly the lines with key k in section s, and
   * each reads back as the new value.
   */
  lemma KeyUpdatedTargets(lines: seq<string>, s: string, k: string, v: string)
    requires WritableKey(k) && WritableValue(v)
    ensures var r := KeyUpdated(lines, s, k, v);
      && |r| == |lines|
      && forall i :: 0 <= i < |lines| ==>
           && (SetsKey(Kinds(r), i, s, k) <==> SetsKey(Kinds(lines), i, s, k))
           && (SetsKey(Kinds(lines), i, s, k) ==> Kinds(r)[i].split == Some(Entry(k, v)))
  {
    EntryLineRoundTrip(k, v, "-");
    KindsUpdated(lines, s, k, v);
  }

  /**
   * Running update_key twice with the same arguments writes the same file as
   * running it once, for every key and value: either no line has key k in
   * section s and nothing changes, or k is the key of such a line, so
   * "key = value" is again a key line with key k and the second run rewrites
   * exactly the lines the first one did.
   */
  lemma KeyUpdatedIdempotent(lines: seq<string>, s: string, k: string, v: string)
    ensures KeyUpdated(KeyUpdated(lines, s, k, v), s, k, v) == KeyUpdated(lines, s, k, v)
  {
    var kinds := Kinds(lines);
    var r := KeyUpdated(lines, s, k, v);
    if i0 :| 0 <= i0 < |lines| && SetsKey(kinds, i0, s, k) {
      KindsAt(lines, i0);
      KeyLineKey(lines[i0]);
      EntryLineKeepsKey(k, v);
      KindsUpdated(lines, s, k, v);
      var r2 := KeyUpdated(r, s, k, v);
      forall i | 0 <= i < |r|
        ensures r2[i] == r[i]
      {
      }
    } else {
      assert r == lines;
    }
  }
}
