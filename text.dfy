/**
 * Whitespace trimming and character search on strings: the static helpers
 * ltrim/rtrim/trim (which erase in place) and ltrim_copy/rtrim_copy/trim_copy
 * (which return a trimmed copy) of the configuration parser.
 */
module Text {

  /** The characters std::isspace accepts in the "C" locale. */
  predicate IsSpace(c: char) {
    c == ' ' || c == '\t' || c == '\n' || c == '\U{000B}' || c == '\U{000C}' || c == '\r'
  }

  /** A string with no whitespace at either end. */
  predicate Trimmed(s: string) {
    s == [] || (!IsSpace(s[0]) && !IsSpace(s[|s| - 1]))
  }

  /** ltrim_copy: s without its leading whitespace. */
  function LTrimCopy(s: string): (r: string)
    ensures |r| <= |s|
    ensures r == [] || !IsSpace(r[0])
    decreases |s|
  {
    if s != [] && IsSpace(s[0]) then LTrimCopy(s[1..]) else s
  }

  /** rtrim_copy: s without its trailing whitespace. */
  function RTrimCopy(s: string): (r: string)
    ensures |r| <= |s|
    ensures r == [] || !IsSpace(r[|r| - 1])
    decreases |s|
  {
    if s != [] && IsSpace(s[|s| - 1]) then RTrimCopy(s[..|s| - 1]) else s
  }

  /** ltrim_copy removes exactly the whitespace before the first non-blank character. */
  lemma {:induction false} LTrimCopyShape(s: string)
    ensures LTrimCopy(s) == s[|s| - |LTrimCopy(s)|..]
    ensures forall i :: 0 <= i < |s| - |LTrimCopy(s)| ==> IsSpace(s[i])
  {
    if s != [] && IsSpace(s[0]) {
      LTrimCopyShape(s[1..]);
    }
  }

  /** rtrim_copy removes exactly the whitespace after the last non-blank character. */
  lemma {:induction false} RTrimCopyShape(s: string)
    ensures RTrimCopy(s) == s[..|RTrimCopy(s)|]
    ensures forall i :: |RTrimCopy(s)| <= i < |s| ==> IsSpace(s[i])
  {
    if s != [] && IsSpace(s[|s| - 1]) {
      RTrimCopyShape(s[..|s| - 1]);
    }
  }

  /** Where the trimmed copy of s starts: the number of leading whitespace characters. */
  function TrimStart(s: string): (n: nat)
    ensures n <= |s|
  {
    |s| - |LTrimCopy(s)|
  }

  /** trim_copy: s without leading and trailing whitespace. */
  function TrimCopy(s: string): (r: string)
    ensures Trimmed(r) && |r| <= |s|
  {
    var l := LTrimCopy(s);
    RTrimCopyShape(l);
    RTrimCopy(l)
  }

  /**
   * The trimmed copy of s is the contiguous part of s that starts at
   * TrimStart(s), and everything around it is whitespace.
   */
  lemma TrimCopyShape(s: string)
    ensures TrimStart(s) + |TrimCopy(s)| <= |s|
    ensures TrimCopy(s) == s[TrimStart(s)..TrimStart(s) + |TrimCopy(s)|]
    ensures forall i :: 0 <= i < TrimStart(s) || TrimStart(s) + |TrimCopy(s)| <= i < |s| ==> IsSpace(s[i])
  {
    var l := LTrimCopy(s);
    var r := RTrimCopy(l);
    LTrimCopyShape(s);
    RTrimCopyShape(l);
    forall i | TrimStart(s) + |r| <= i < |s| ensures IsSpace(s[i]) {
      assert s[i] == l[i - TrimStart(s)];
    }
  }

  /** A trimmed copy holds no character its original lacks. */
  lemma TrimCopyWithout(s: string, c: char)
    requires c !in s
    ensures c !in TrimCopy(s)
  {
    TrimCopyShape(s);
  }

  /** A string without whitespace at its ends is its own trimmed copy. */
  lemma TrimmedFixed(s: string)
    requires Trimmed(s)
    ensures TrimCopy(s) == s
  {
  }

  /** Trimming is idempotent. */
  lemma TrimIdempotent(s: string)
    ensures TrimCopy(TrimCopy(s)) == TrimCopy(s)
  {
    TrimmedFixed(TrimCopy(s));
  }

  /** Padding a trimmed non-empty string with one blank on either side is undone by trimming. */
  lemma TrimPadded(s: string)
    requires Trimmed(s) && s != []
    ensures TrimCopy(s + " ") == s
    ensures TrimCopy(" " + s) == s
  {
    assert LTrimCopy(s + " ") == s + " ";
    assert (s + " ")[..|s|] == s;
    assert RTrimCopy(s) == s;
    assert (" " + s)[1..] == s;
    assert LTrimCopy(s) == s;
  }

  /** ltrim: erases the leading whitespace of s, scanning for the first non-blank. */
  method LTrim(s: string) returns (r: string)
    ensures r == LTrimCopy(s)
  {
    var i := 0;
    while i < |s| && IsSpace(s[i])
      invariant 0 <= i <= |s|
      invariant LTrimCopy(s[i..]) == LTrimCopy(s)
    {
      assert s[i..][1..] == s[i + 1..];
      i := i + 1;
    }
    r := s[i..];
  }

  /** rtrim: erases the trailing whitespace of s, scanning back for the last non-blank. */
  method RTrim(s: string) returns (r: string)
    ensures r == RTrimCopy(s)
  {
    var j := |s|;
    assert s[..j] == s;
    while j > 0 && IsSpace(s[j - 1])
      invariant 0 <= j <= |s|
      invariant RTrimCopy(s[..j]) == RTrimCopy(s)
    {
      assert s[..j][..j - 1] == s[..j - 1];
      j := j - 1;
    }
    r := s[..j];
  }

  /** trim: ltrim followed by rtrim. */
  method Trim(s: string) returns (r: string)
    ensures r == TrimCopy(s)
  {
    r := LTrim(s);
    r := RTrim(r);
  }

  /** The index of the first occurrence of c in s, or |s| when c does not occur (std::string::find). */
  function IndexOf(s: string, c: char): (i: nat)
    ensures i <= |s|
    ensures i < |s| ==> s[i] == c
  {
    if s == [] then 0
    else if s[0] == c then 0
    else IndexOf(s[1..], c) + 1
  }

  /** IndexOf finds the first occurrence: c does not occur before it, and |s| means c is absent. */
  lemma {:induction false} IndexOfFirst(s: string, c: char)
    ensures c !in s[..IndexOf(s, c)]
    ensures IndexOf(s, c) < |s| <==> c in s
  {
    if s != [] && s[0] != c {
      IndexOfFirst(s[1..], c);
      assert s[..IndexOf(s, c)] == [s[0]] + s[1..][..IndexOf(s[1..], c)];
      assert s == [s[0]] + s[1..];
    }
  }

  /** Searching a concatenation whose first part lacks c skips that part. */
  lemma {:induction false} IndexOfAppend(a: string, b: string, c: char)
    requires c !in a
    ensures IndexOf(a + b, c) == |a| + IndexOf(b, c)
  {
    if a != [] {
      assert (a + b)[1..] == a[1..] + b;
      IndexOfAppend(a[1..], b, c);
    } else {
      assert a + b == b;
    }
  }
}
