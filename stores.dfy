/**
 * The parser's in-memory store: section name to (key to value). Being a map
 * of maps, it holds each key at most once per section, and looks sections
 * and keys up by exact string equality.
 */
module Stores {
  import opened Wrappers

  type Store = map<string, map<string, string>>

  /** The value stored under section and key, if both are present. */
  function Find(store: Store, section: string, key: string): (r: Option<string>)
    ensures r.Some? <==> section in store && key in store[section]
    ensures r.Some? ==> r.value == store[section][key]
  {
    if section in store && key in store[section] then Some(store[section][key]) else None
  }

  /**
   * `store[section][key] = value`: creates the section when it is missing,
   * then sets the key; no other (section, key) entry changes.
   */
  function Put(store: Store, section: string, key: string, value: string): (r: Store)
    ensures Find(r, section, key) == Some(value)
    ensures r.Keys == store.Keys + {section}
    ensures r[section].Keys == (if section in store then store[section].Keys else {}) + {key}
  {
    store[section := SectionOf(store, section)[key := value]]
  }

  /** A write changes no entry but its own. */
  lemma PutKeepsOthers(store: Store, section: string, key: string, value: string, s: string, k: string)
    requires (s, k) != (section, key)
    ensures Find(Put(store, section, key, value), s, k) == Find(store, s, k)
  {
  }

  /** The entries of a section, empty when the section is missing. */
  function SectionOf(store: Store, section: string): map<string, string> {
    if section in store then store[section] else map[]
  }

  /** Two writes to different entries can be done in either order. */
  lemma PutCommute(store: Store, s1: string, k1: string, v1: string, s2: string, k2: string, v2: string)
    requires (s1, k1) != (s2, k2)
    ensures Put(Put(store, s1, k1, v1), s2, k2, v2) == Put(Put(store, s2, k2, v2), s1, k1, v1)
  {
    var m1, m2 := SectionOf(store, s1), SectionOf(store, s2);
    if s1 == s2 {
      assert m1[k1 := v1][k2 := v2] == m1[k2 := v2][k1 := v1];
    } else {
      assert SectionOf(Put(store, s1, k1, v1), s2) == m2;
      assert SectionOf(Put(store, s2, k2, v2), s1) == m1;
      assert store[s1 := m1[k1 := v1]][s2 := m2[k2 := v2]] == store[s2 := m2[k2 := v2]][s1 := m1[k1 := v1]];
    }
  }

  /** A second write to the same entry replaces the first. */
  lemma PutOverwrite(store: Store, s: string, k: string, v1: string, v2: string)
    ensures Put(Put(store, s, k, v1), s, k, v2) == Put(store, s, k, v2)
  {
    var m := SectionOf(store, s);
    assert m[k := v1][k := v2] == m[k := v2];
  }
}
