/** The pair of insertion-ordered dicts a repository holds, and what the rest of
    the builder relies on them to satisfy. */
module Arenas {
  import opened Entries
  import opened Dicts

  /** The directories and files of a repository, keyed by path. */
  datatype Arena = Arena(directories: Dict<Directory>, files: Dict<File>)

  /** Both dicts are well formed, every file key has a '/' (`rindex` raises
      otherwise) and every child reference can be followed. */
  ghost predicate ArenaValid(a: Arena)
  {
    && a.directories.Valid()
    && a.files.Valid()
    && (forall f :: f in a.files.entries ==> '/' in f)
    && ChildrenWellFormed(a.directories.entries, a.files.entries)
  }

  /** An arena with the same keys and orders as a well-formed one, whose
      children can be followed, is well formed. */
  lemma ValidFromShape(a: Arena, b: Arena)
    requires ArenaValid(a)
    requires b.directories.order == a.directories.order && b.files.order == a.files.order
    requires b.directories.entries.Keys == a.directories.entries.Keys
    requires b.files.entries.Keys == a.files.entries.Keys
    requires ChildrenWellFormed(b.directories.entries, b.files.entries)
    ensures ArenaValid(b)
  {
    assert forall k :: k in b.directories.entries <==> k in a.directories.entries;
    assert forall k :: k in b.files.entries <==> k in a.files.entries;
  }

  /** Two maps with the same keys that agree at every key are equal. */
  lemma MapsAgree<V>(m1: map<string, V>, m2: map<string, V>)
    requires forall k :: k in m1 <==> k in m2
    requires forall k :: k in m1 ==> m1[k] == m2[k]
    ensures m1 == m2
  {
  }

  lemma AppendAssoc<T>(s: seq<T>, t: seq<T>, u: seq<T>)
    ensures (s + t) + u == s + (t + u)
  {
  }

  /** The key at position `n` of a dict's order is a key, and not among the
      first `n`. */
  lemma FreshInPrefix<V>(m: Dict<V>, n: nat)
    requires m.Valid() && n < |m.order|
    ensures m.order[n] in m.entries && m.order[n] !in m.order[..n]
    ensures m.order[..n + 1] == m.order[..n] + [m.order[n]]
  {
    assert m.order[n] in m.order;
    forall i | 0 <= i < n ensures m.order[..n][i] != m.order[n] {
      assert m.order[..n][i] == m.order[i];
    }
  }
}
