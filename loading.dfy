/**
 * What init computes: the store after reading the file line by line, whether
 * every line was accepted, and how many lines were read. The load works on
 * the classification of the lines (Lines.Kinds).
 */
module Loading {
  import opened Wrappers
  import opened Lines
  import opened Stores

  /** The load's variables after some lines: the store, the line counter and "no error yet". */
  datatype LoadState = LoadState(store: Store, nline: nat, ok: bool)

  /** The effect of the n-th line (1-based), of the given kind, on a load that has not failed. */
  function Step(store: Store, section: string, kind: LineKind, n: nat): LoadState {
    match kind
    case Blank => LoadState(store, n, true)
    case Comment => LoadState(store, n, true)
    case Header(name) => LoadState(store, n, name != "")
    case KeyLine(_, split) =>
      match CheckEntry(split, section)
      case None => LoadState(store, n, false)
      case Some(e) => LoadState(Put(store, section, e.key, e.value), n, true)
  }

  /**
   * The state after the first n lines, starting from store: once a line has
   * failed, later lines are not read.
   */
  function LoadPrefix(store: Store, kinds: seq<LineKind>, n: nat): (st: LoadState)
    requires n <= |kinds|
    ensures st.nline <= n
    ensures st.ok ==> st.nline == n
  {
    if n == 0 then LoadState(store, 0, true)
    else
      var st := LoadPrefix(store, kinds, n - 1);
      if st.ok then Step(st.store, SectionBefore(kinds, n - 1), kinds[n - 1], n) else st
  }

  /** The state after reading the whole file. */
  function Load(store: Store, lines: seq<string>): LoadState {
    LoadPrefix(store, Kinds(lines), |lines|)
  }

  /**
   * A line init rejects: a header that names no section, or a key line that
   * has no section above it, has no '=', or has nothing but blanks before
   * its first '=' (Lines.SplitAtFirstEquals: the key is the trimmed text
   * before the first '=').
   */
  predicate Bad(kinds: seq<LineKind>, i: nat)
    requires i < |kinds|
  {
    match kinds[i]
    case Header(name) => name == ""
    case KeyLine(_, split) => SectionBefore(kinds, i) == "" || split.None? || split.value.key == ""
    case _ => false
  }

  /** One step fails exactly on a bad line. */
  lemma StepRejectsBad(store: Store, kinds: seq<LineKind>, i: nat)
    requires i < |kinds|
    ensures Step(store, SectionBefore(kinds, i), kinds[i], i + 1).ok <==> !Bad(kinds, i)
  {
  }

  /** The load of the first n lines succeeds exactly when none of them is bad. */
  lemma {:induction false} LoadOkIff(store: Store, kinds: seq<LineKind>, n: nat)
    requires n <= |kinds|
    ensures LoadPrefix(store, kinds, n).ok <==> forall j :: 0 <= j < n ==> !Bad(kinds, j)
  {
    if n > 0 {
      LoadOkIff(store, kinds, n - 1);
      var prev := LoadPrefix(store, kinds, n - 1);
      if prev.ok {
        StepRejectsBad(prev.store, kinds, n - 1);
      }
    }
  }

  /**
   * When the load of the first n lines fails, the reported line number is
   * the 1-based index of the first bad line.
   */
  lemma {:induction false} LoadFailsAtFirstBad(store: Store, kinds: seq<LineKind>, n: nat)
    requires n <= |kinds|
    requires !LoadPrefix(store, kinds, n).ok
    ensures var k := LoadPrefix(store, kinds, n).nline;
      1 <= k <= n && Bad(kinds, k - 1) && forall j :: 0 <= j < k - 1 ==> !Bad(kinds, j)
  {
    var prev := LoadPrefix(store, kinds, n - 1);
    if prev.ok {
      StepRejectsBad(prev.store, kinds, n - 1);
      LoadOkIff(store, kinds, n - 1);
    } else {
      LoadFailsAtFirstBad(store, kinds, n - 1);
    }
  }

  /** After a failure the load stops: reading more lines changes nothing. */
  lemma {:induction false} FailedStays(store: Store, kinds: seq<LineKind>, n: nat, m: nat)
    requires n <= m <= |kinds|
    requires !LoadPrefix(store, kinds, n).ok
    ensures LoadPrefix(store, kinds, m) == LoadPrefix(store, kinds, n)
  {
    if n < m {
      FailedStays(store, kinds, n, m - 1);
    }
  }

  /** The load of the first n lines depends only on those lines. */
  lemma {:induction false} LoadPrefixAgree(store: Store, a: seq<LineKind>, b: seq<LineKind>, n: nat)
    requires n <= |a| && n <= |b| && a[..n] == b[..n]
    ensures LoadPrefix(store, a, n) == LoadPrefix(store, b, n)
  {
    if n > 0 {
      assert a[..n - 1] == a[..n][..n - 1] && b[..n - 1] == b[..n][..n - 1];
      assert a[n - 1] == a[..n][n - 1] && b[n - 1] == b[..n][n - 1];
      LoadPrefixAgree(store, a, b, n - 1);
      SectionBeforePrefix(a, b, n - 1);
    }
  }

  /**
   * The value of the last of the first n lines that sets key k in section s,
   * if any: a reference definition of "the last duplicate wins".
   */
  function LastValue(kinds: seq<LineKind>, n: nat, s: string, k: string): (r: Option<string>)
    requires n <= |kinds|
    ensures r.Some? <==> exists j :: 0 <= j < n && SetsKey(kinds, j, s, k)
  {
    if n == 0 then None
    else if SetsKey(kinds, n - 1, s, k) then Some(kinds[n - 1].split.value.value)
    else LastValue(kinds, n - 1, s, k)
  }

  /**
   * After a successful load of n lines, every (section, key) holds the value
   * of the last line that sets it, and keeps its earlier value when no line
   * sets it. Blank lines, comments and headers therefore never change the
   * store.
   */
  lemma {:induction false} LoadLastWins(store: Store, kinds: seq<LineKind>, n: nat, s: string, k: string)
    requires n <= |kinds| && LoadPrefix(store, kinds, n).ok
    ensures Find(LoadPrefix(store, kinds, n).store, s, k)
      == if LastValue(kinds, n, s, k).Some? then LastValue(kinds, n, s, k) else Find(store, s, k)
  {
    if n > 0 {
      LoadLastWins(store, kinds, n - 1, s, k);
    }
  }

  /** Entries are never removed by reading more lines. */
  lemma {:induction false} LoadMonotone(store: Store, kinds: seq<LineKind>, j: nat, n: nat, s: string, k: string)
    requires j <= n <= |kinds|
    requires Find(LoadPrefix(store, kinds, j).store, s, k).Some?
    ensures Find(LoadPrefix(store, kinds, n).store, s, k).Some?
  {
    if j < n {
      LoadMonotone(store, kinds, j, n - 1, s, k);
    }
  }

  /** A section the load added to the store has at least one key line in the file. */
  lemma {:induction false} LoadedSectionHasBody(store: Store, kinds: seq<LineKind>, n: nat, s: string)
    requires n <= |kinds|
    requires s !in store && s in LoadPrefix(store, kinds, n).store
    ensures exists j :: 0 <= j < n && InSectionBody(kinds, j, s)
  {
    if n > 0 {
      var prev := LoadPrefix(store, kinds, n - 1);
      if s in prev.store {
        LoadedSectionHasBody(store, kinds, n - 1, s);
      } else {
        assert InSectionBody(kinds, n - 1, s);
      }
    }
  }
}
