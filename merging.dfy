/** `assign_revisions`: revisions are appended to the entry named after them,
    unless that entry already has a version with the same number. */
module Merging {
  import opened Revisions
  import opened Entries
  import opened Dicts
  import opened Arenas

  /** `n in [version.revision for version in vs]` */
  predicate HasNumber(vs: seq<Revision>, n: string)
  {
    exists i :: 0 <= i < |vs| && vs[i].revision == n
  }

  /** No two versions carry the same revision number. */
  ghost predicate UniqueNumbers(vs: seq<Revision>)
  {
    forall i, j :: 0 <= i < j < |vs| ==> vs[i].revision != vs[j].revision
  }

  /** The revisions of `revs` named `name`, in order. */
  function Named(revs: seq<Revision>, name: string): seq<Revision>
    decreases |revs|
  {
    if revs == [] then []
    else
      var init := revs[..|revs| - 1];
      var x := revs[|revs| - 1];
      Named(init, name) + (if x.name == name then [x] else [])
  }

  /** The revisions kept are exactly those of `revs` with that name. */
  lemma {:induction false} NamedMembers(revs: seq<Revision>, name: string)
    ensures forall x :: x in Named(revs, name) <==> x in revs && x.name == name
    decreases |revs|
  {
    if revs != [] {
      var init := revs[..|revs| - 1];
      assert revs == init + [revs[|revs| - 1]];
      NamedMembers(init, name);
    }
  }

  /** One step of `assign_revisions` for one entry: append unless the number is
      already present. */
  function MergeStep(vs: seq<Revision>, r: Revision): seq<Revision>
  {
    if HasNumber(vs, r.revision) then vs else vs + [r]
  }

  /** The versions of one entry after `assign_revisions` has met `rs` in order. */
  function Merged(vs: seq<Revision>, rs: seq<Revision>): seq<Revision>
    decreases |rs|
  {
    if rs == [] then vs else MergeStep(Merged(vs, rs[..|rs| - 1]), rs[|rs| - 1])
  }

  /** The merge only appends, and only revisions from `rs`. */
  lemma {:induction false} MergedExtends(vs: seq<Revision>, rs: seq<Revision>)
    ensures var m := Merged(vs, rs);
      && |vs| <= |m| && m[..|vs|] == vs
      && forall i :: |vs| <= i < |m| ==> m[i] in rs
    decreases |rs|
  {
    if rs != [] {
      var init := rs[..|rs| - 1];
      MergedExtends(vs, init);
      var m0 := Merged(vs, init);
      var m := Merged(vs, rs);
      assert forall x :: x in init ==> x in rs;
      if m != m0 {
        assert m == m0 + [rs[|rs| - 1]];
        assert forall i :: |vs| <= i < |m0| ==> m[i] == m0[i];
      }
    }
  }

  /** After the merge every revision met has its number recorded. */
  lemma {:induction false} MergedCovers(vs: seq<Revision>, rs: seq<Revision>)
    ensures forall r :: r in rs ==> HasNumber(Merged(vs, rs), r.revision)
    decreases |rs|
  {
    if rs != [] {
      var init := rs[..|rs| - 1];
      var last := rs[|rs| - 1];
      assert rs == init + [last];
      MergedCovers(vs, init);
      var m0 := Merged(vs, init);
      var m := Merged(vs, rs);
      assert m[..|m0|] == m0;
      forall r | r in rs
        ensures HasNumber(m, r.revision)
      {
        if r in init {
          var i :| 0 <= i < |m0| && m0[i].revision == r.revision;
          assert m[i] == m0[i];
        } else {
          assert r == last;
          if !HasNumber(m0, r.revision) {
            assert m[|m0|] == r;
          }
        }
      }
    }
  }

  /** A merge of revisions whose numbers are all present changes nothing. */
  lemma {:induction false} MergedCovered(vs: seq<Revision>, rs: seq<Revision>)
    requires forall r :: r in rs ==> HasNumber(vs, r.revision)
    ensures Merged(vs, rs) == vs
    decreases |rs|
  {
    if rs != [] {
      var init := rs[..|rs| - 1];
      assert forall r :: r in init ==> r in rs;
      MergedCovered(vs, init);
      assert rs[|rs| - 1] in rs;
    }
  }

  /** Merging the same revisions twice is merging them once. */
  lemma MergedIdempotent(vs: seq<Revision>, rs: seq<Revision>)
    ensures Merged(Merged(vs, rs), rs) == Merged(vs, rs)
  {
    MergedCovers(vs, rs);
    MergedCovered(Merged(vs, rs), rs);
  }

  /** A history without repeated numbers keeps that property under the merge. */
  lemma {:induction false} MergedUnique(vs: seq<Revision>, rs: seq<Revision>)
    requires UniqueNumbers(vs)
    ensures UniqueNumbers(Merged(vs, rs))
    decreases |rs|
  {
    if rs != [] {
      MergedUnique(vs, rs[..|rs| - 1]);
    }
  }

  /** The state `assign_revisions(revs)` leaves: each directory and each file with
      a key merges the revisions named after that key; nothing else changes. */
  function Assigned(a: Arena, revs: seq<Revision>): Arena
  {
    Arena(
      Dict(a.directories.order, map d | d in a.directories.entries :: AssignDir(a, revs, d)),
      Dict(a.files.order, map f | f in a.files.entries :: AssignFile(a, revs, f)))
  }

  function AssignDir(a: Arena, revs: seq<Revision>, d: string): Directory
    requires d in a.directories.entries
  {
    var e := a.directories.entries[d];
    e.(versions := Merged(e.versions, Named(revs, d)))
  }

  function AssignFile(a: Arena, revs: seq<Revision>, f: string): File
    requires f in a.files.entries
  {
    var e := a.files.entries[f];
    e.(versions := Merged(e.versions, Named(revs, f)))
  }

  /** Assigning the same revisions a second time leaves every history unchanged. */
  lemma AssignedIdempotent(a: Arena, revs: seq<Revision>)
    ensures Assigned(Assigned(a, revs), revs) == Assigned(a, revs)
  {
    var b := Assigned(a, revs);
    var c := Assigned(b, revs);
    forall d | d in c.directories.entries
      ensures c.directories.entries[d] == b.directories.entries[d]
    {
      MergedIdempotent(a.directories.entries[d].versions, Named(revs, d));
    }
    MapsAgree(c.directories.entries, b.directories.entries);
    forall f | f in c.files.entries
      ensures c.files.entries[f] == b.files.entries[f]
    {
      MergedIdempotent(a.files.entries[f].versions, Named(revs, f));
    }
    MapsAgree(c.files.entries, b.files.entries);
  }

  lemma NamedSnoc(revs: seq<Revision>, r: Revision, k: string)
    ensures r.name == k ==> Named(revs + [r], k) == Named(revs, k) + [r]
    ensures r.name != k ==> Named(revs + [r], k) == Named(revs, k)
  {
    assert (revs + [r])[..|revs|] == revs;
    assert Named(revs, k) + [] == Named(revs, k);
  }

  lemma MergedSnoc(vs: seq<Revision>, rs: seq<Revision>, r: Revision)
    ensures Merged(vs, rs + [r]) == MergeStep(Merged(vs, rs), r)
  {
    assert (rs + [r])[..|rs|] == rs;
  }

  /** A revision whose name is neither a directory key nor a file key is dropped. */
  lemma AssignedDropsUnmatched(a: Arena, revs: seq<Revision>, r: Revision)
    requires r.name !in a.directories.entries && r.name !in a.files.entries
    ensures Assigned(a, revs + [r]) == Assigned(a, revs)
  {
    var b, c := Assigned(a, revs + [r]), Assigned(a, revs);
    forall d | d in b.directories.entries
      ensures b.directories.entries[d] == c.directories.entries[d]
    {
      NamedSnoc(revs, r, d);
    }
    MapsAgree(b.directories.entries, c.directories.entries);
    forall f | f in b.files.entries
      ensures b.files.entries[f] == c.files.entries[f]
    {
      NamedSnoc(revs, r, f);
    }
    MapsAgree(b.files.entries, c.files.entries);
  }

  /** Every file history merged into keeps its old versions first, gains only
      revisions named after its key, ends with no repeated numbers if it had
      none, and records the number of every revision named after its key. */
  lemma AssignedHistories(a: Arena, revs: seq<Revision>, f: string)
    requires f in a.files.entries
    ensures var vs, vs' := a.files.entries[f].versions, Assigned(a, revs).files.entries[f].versions;
      && |vs| <= |vs'| && vs'[..|vs|] == vs
      && (forall i :: |vs| <= i < |vs'| ==> vs'[i] in revs && vs'[i].name == f)
      && (forall r :: r in revs && r.name == f ==> HasNumber(vs', r.revision))
      && (UniqueNumbers(vs) ==> UniqueNumbers(vs'))
  {
    var vs := a.files.entries[f].versions;
    NamedMembers(revs, f);
    MergedExtends(vs, Named(revs, f));
    MergedCovers(vs, Named(revs, f));
    if UniqueNumbers(vs) {
      MergedUnique(vs, Named(revs, f));
    }
  }

  /** The same for a directory: its history keeps what it had, gains only
      revisions named after it, covers all of them and stays duplicate-free. */
  lemma AssignedDirectoryHistories(a: Arena, revs: seq<Revision>, d: string)
    requires d in a.directories.entries
    ensures var vs, vs' := a.directories.entries[d].versions, Assigned(a, revs).directories.entries[d].versions;
      && |vs| <= |vs'| && vs'[..|vs|] == vs
      && (forall i :: |vs| <= i < |vs'| ==> vs'[i] in revs && vs'[i].name == d)
      && (forall r :: r in revs && r.name == d ==> HasNumber(vs', r.revision))
      && (UniqueNumbers(vs) ==> UniqueNumbers(vs'))
  {
    var vs := a.directories.entries[d].versions;
    NamedMembers(revs, d);
    MergedExtends(vs, Named(revs, d));
    MergedCovers(vs, Named(revs, d));
    if UniqueNumbers(vs) {
      MergedUnique(vs, Named(revs, d));
    }
  }

  /** One turn of the loop of `assign_revisions`, for the revision `r`. */
  function AssignTurn(b: Arena, r: Revision): Arena
  {
    var dirs := b.directories.entries;
    var files := b.files.entries;
    Arena(
      Dict(b.directories.order,
           if r.name in dirs then dirs[r.name := dirs[r.name].(versions := MergeStep(dirs[r.name].versions, r))] else dirs),
      Dict(b.files.order,
           if r.name in files then files[r.name := files[r.name].(versions := MergeStep(files[r.name].versions, r))] else files))
  }

  lemma AssignedStart(a: Arena)
    ensures Assigned(a, []) == a
  {
    MapsAgree(Assigned(a, []).directories.entries, a.directories.entries);
    MapsAgree(Assigned(a, []).files.entries, a.files.entries);
  }

  lemma AssignDirTurn(a: Arena, revs: seq<Revision>, r: Revision, d: string)
    requires d in a.directories.entries
    ensures var e := AssignDir(a, revs, d);
      AssignDir(a, revs + [r], d) == if r.name == d then e.(versions := MergeStep(e.versions, r)) else e
  {
    NamedSnoc(revs, r, d);
    MergedSnoc(a.directories.entries[d].versions, Named(revs, d), r);
  }

  lemma AssignFileTurn(a: Arena, revs: seq<Revision>, r: Revision, f: string)
    requires f in a.files.entries
    ensures var e := AssignFile(a, revs, f);
      AssignFile(a, revs + [r], f) == if r.name == f then e.(versions := MergeStep(e.versions, r)) else e
  {
    NamedSnoc(revs, r, f);
    MergedSnoc(a.files.entries[f].versions, Named(revs, f), r);
  }

  lemma AssignedTurnDirs(a: Arena, revs: seq<Revision>, r: Revision)
    ensures Assigned(a, revs + [r]).directories.entries == AssignTurn(Assigned(a, revs), r).directories.entries
  {
    var b, c := Assigned(a, revs + [r]), AssignTurn(Assigned(a, revs), r);
    forall d | d in b.directories.entries
      ensures b.directories.entries[d] == c.directories.entries[d]
    {
      AssignDirTurn(a, revs, r, d);
    }
    MapsAgree(b.directories.entries, c.directories.entries);
  }

  lemma AssignedTurnFiles(a: Arena, revs: seq<Revision>, r: Revision)
    ensures Assigned(a, revs + [r]).files.entries == AssignTurn(Assigned(a, revs), r).files.entries
  {
    var b, c := Assigned(a, revs + [r]), AssignTurn(Assigned(a, revs), r);
    forall f | f in b.files.entries
      ensures b.files.entries[f] == c.files.entries[f]
    {
      AssignFileTurn(a, revs, r, f);
    }
    MapsAgree(b.files.entries, c.files.entries);
  }

  /** One more revision met by the loop is one more `AssignTurn`. */
  lemma AssignedTurn(a: Arena, revs: seq<Revision>, r: Revision)
    ensures Assigned(a, revs + [r]) == AssignTurn(Assigned(a, revs), r)
  {
    AssignedTurnDirs(a, revs, r);
    AssignedTurnFiles(a, revs, r);
  }

  /** Merging revisions keeps the arena well formed. */
  lemma AssignedValid(a: Arena, revs: seq<Revision>)
    requires ArenaValid(a)
    ensures ArenaValid(Assigned(a, revs))
  {
    var b := Assigned(a, revs);
    assert b.directories.entries.Keys == a.directories.entries.Keys;
    assert b.files.entries.Keys == a.files.entries.Keys;
    forall d, i | d in b.directories.entries && 0 <= i < |b.directories.entries[d].children|
      ensures RefOk(b.directories.entries, b.files.entries, d, b.directories.entries[d].children[i])
    {
      assert b.directories.entries[d].children == a.directories.entries[d].children;
      assert RefOk(a.directories.entries, a.files.entries, d, a.directories.entries[d].children[i]);
    }
    ValidFromShape(a, b);
  }
}
