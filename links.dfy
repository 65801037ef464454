/** `set_parents_and_children`: parent and child links computed from the path
    strings. `Linked` states the result in closed form; `FilesLinked` and
    `DirsLinked` state what the two loops have done after some turns. */
module Links {
  import opened Wrappers
  import opened Strings
  import opened Entries
  import opened Dicts
  import opened Arenas

  // ---------------------------------------------------------------------------
  // Paths

  /** `name[:name.rindex('/')]`: everything before the last '/'. */
  function ParentPath(name: string): (p: string)
    requires '/' in name
    ensures |p| < |name|
  {
    name[..LastSlash(name)]
  }

  /** The parent path is the prefix before a '/' after which no '/' follows. */
  lemma ParentPathIsPrefix(name: string)
    requires '/' in name
    ensures var p := ParentPath(name);
      && name[|p|] == '/' && p == name[..|p|]
      && forall j :: |p| < j < |name| ==> name[j] != '/'
  {
    var i := LastSlash(name);
    assert |name[..i]| == i;
  }

  /** `k` is a path directly below `p`. */
  predicate ChildOf(k: string, p: string)
  {
    '/' in k && ParentPath(k) == p
  }

  function MakeRef(k: string, isDir: bool): Ref
  {
    if isDir then DirRef(k) else FileRef(k)
  }

  /** The references appended to directory `p`'s children by one of the loops
      over `keys`: each key whose parent path is `p`, in order. */
  function Kids(p: string, keys: seq<string>, isDir: bool): seq<Ref>
    decreases |keys|
  {
    if keys == [] then []
    else
      var init := keys[..|keys| - 1];
      var k := keys[|keys| - 1];
      Kids(p, init, isDir) + (if ChildOf(k, p) then [MakeRef(k, isDir)] else [])
  }

  /** The references collected are exactly the keys below `p`, of the kind asked for. */
  lemma {:induction false} KidsMembers(p: string, keys: seq<string>, isDir: bool)
    ensures var r := Kids(p, keys, isDir);
      && (forall x :: x in r ==> x.name in keys && ChildOf(x.name, p) && x.DirRef? == isDir)
      && (forall k :: k in keys && ChildOf(k, p) ==> MakeRef(k, isDir) in r)
    decreases |keys|
  {
    if keys != [] {
      var init := keys[..|keys| - 1];
      assert keys == init + [keys[|keys| - 1]];
      KidsMembers(p, init, isDir);
    }
  }

  lemma KidsSnoc(p: string, ks: seq<string>, k: string, isDir: bool)
    ensures ChildOf(k, p) ==> Kids(p, ks + [k], isDir) == Kids(p, ks, isDir) + [MakeRef(k, isDir)]
    ensures !ChildOf(k, p) ==> Kids(p, ks + [k], isDir) == Kids(p, ks, isDir)
  {
    assert (ks + [k])[..|ks|] == ks;
    assert Kids(p, ks, isDir) + [] == Kids(p, ks, isDir);
  }

  // ---------------------------------------------------------------------------
  // The links, in closed form

  /** The parent fields an entry at path `k` receives when its parent path is a
      directory key. */
  function DirWithParent(dirs: map<string, Directory>, d: string, e: Directory): Directory
  {
    if '/' in d && ParentPath(d) in dirs then
      e.(parent := Some(ParentPath(d)), parentName := Some(dirs[ParentPath(d)].name))
    else e
  }

  function FileWithParent(dirs: map<string, Directory>, f: string, e: File): File
  {
    if '/' in f && ParentPath(f) in dirs then
      e.(parent := Some(ParentPath(f)), parentName := Some(dirs[ParentPath(f)].name))
    else e
  }

  /** The state `set_parents_and_children` leaves: every entry whose parent path
      is a directory key points to it, and each directory's children grow by its
      files (in file order) and then its subdirectories (in directory order). */
  function Linked(a: Arena): Arena
  {
    Arena(
      Dict(a.directories.order, map d | d in a.directories.entries :: LinkDir(a, d)),
      Dict(a.files.order, map f | f in a.files.entries :: LinkFile(a, f)))
  }

  /** The children appended to directory `d`: its files, then its subdirectories. */
  function NewKids(a: Arena, d: string): seq<Ref>
  {
    Kids(d, a.files.order, false) + Kids(d, a.directories.order, true)
  }

  function LinkDir(a: Arena, d: string): Directory
    requires d in a.directories.entries
  {
    var e := a.directories.entries[d];
    DirWithParent(a.directories.entries, d, e).(children := e.children + NewKids(a, d))
  }

  function LinkFile(a: Arena, f: string): File
    requires f in a.files.entries
  {
    FileWithParent(a.directories.entries, f, a.files.entries[f])
  }

  /** Every reference the linking appends can be followed. */
  lemma NewKidsOk(a: Arena, d: string, r: Ref)
    requires ArenaValid(a) && r in NewKids(a, d)
    ensures RefOk(a.directories.entries, a.files.entries, d, r)
  {
    KidsMembers(d, a.files.order, false);
    KidsMembers(d, a.directories.order, true);
    if r in Kids(d, a.files.order, false) {
    } else {
      assert r in Kids(d, a.directories.order, true);
    }
  }

  /** The links just built keep the arena well formed. */
  lemma LinkedValid(a: Arena)
    requires ArenaValid(a)
    ensures ArenaValid(Linked(a))
  {
    var b := Linked(a);
    var dirs := b.directories.entries;
    var files := b.files.entries;
    assert dirs.Keys == a.directories.entries.Keys;
    assert files.Keys == a.files.entries.Keys;
    forall d, i | d in dirs && 0 <= i < |dirs[d].children|
      ensures RefOk(dirs, files, d, dirs[d].children[i])
    {
      var old_ := a.directories.entries[d].children;
      var extra := NewKids(a, d);
      assert dirs[d] == LinkDir(a, d);
      assert dirs[d].children == old_ + extra;
      if i < |old_| {
        assert dirs[d].children[i] == old_[i];
        assert RefOk(a.directories.entries, a.files.entries, d, old_[i]);
      } else {
        assert dirs[d].children[i] == extra[i - |old_|];
        NewKidsOk(a, d, extra[i - |old_|]);
      }
    }
    ValidFromShape(a, b);
  }

  /** A file's parent is the directory whose key is the file path up to its last
      '/', exactly when that key exists; otherwise the file is unchanged. */
  lemma LinkedFileParent(a: Arena, f: string)
    requires ArenaValid(a) && f in a.files.entries
    ensures var e := Linked(a).files.entries[f];
      && (ParentPath(f) in a.directories.entries ==>
            e.parent == Some(ParentPath(f)) && e.parentName == Some(a.directories.entries[ParentPath(f)].name))
      && (ParentPath(f) !in a.directories.entries ==> e == a.files.entries[f])
  {
  }

  /** Starting from directories without children (as both callers do), a
      directory's children are exactly the files and subdirectories whose path
      truncated at the last '/' is its key. */
  lemma LinkedChildrenExact(a: Arena, d: string)
    requires ArenaValid(a) && d in a.directories.entries
    requires a.directories.entries[d].children == []
    ensures var cs := Linked(a).directories.entries[d].children;
      && (forall f :: FileRef(f) in cs <==> f in a.files.entries && ParentPath(f) == d)
      && (forall c :: DirRef(c) in cs <==> c in a.directories.entries && '/' in c && ParentPath(c) == d)
  {
    var fk := Kids(d, a.files.order, false);
    var dk := Kids(d, a.directories.order, true);
    assert Linked(a).directories.entries[d].children == fk + dk;
    LinkedFileChildren(a, d);
    LinkedDirChildren(a, d);
  }

  lemma LinkedFileChildren(a: Arena, d: string)
    requires ArenaValid(a) && d in a.directories.entries
    ensures var cs := Kids(d, a.files.order, false) + Kids(d, a.directories.order, true);
      forall f :: FileRef(f) in cs <==> f in a.files.entries && ParentPath(f) == d
  {
    var fk := Kids(d, a.files.order, false);
    var dk := Kids(d, a.directories.order, true);
    KidsMembers(d, a.files.order, false);
    KidsMembers(d, a.directories.order, true);
    forall f
      ensures FileRef(f) in fk + dk <==> f in a.files.entries && ParentPath(f) == d
    {
      if f in a.files.entries && ParentPath(f) == d {
        assert MakeRef(f, false) in fk;
      }
      assert FileRef(f) !in dk;
    }
  }

  lemma LinkedDirChildren(a: Arena, d: string)
    requires ArenaValid(a) && d in a.directories.entries
    ensures var cs := Kids(d, a.files.order, false) + Kids(d, a.directories.order, true);
      forall c :: DirRef(c) in cs <==> c in a.directories.entries && '/' in c && ParentPath(c) == d
  {
    var fk := Kids(d, a.files.order, false);
    var dk := Kids(d, a.directories.order, true);
    KidsMembers(d, a.files.order, false);
    KidsMembers(d, a.directories.order, true);
    forall c
      ensures DirRef(c) in fk + dk <==> c in a.directories.entries && '/' in c && ParentPath(c) == d
    {
      if c in a.directories.entries && '/' in c && ParentPath(c) == d {
        assert MakeRef(c, true) in dk;
      }
      assert DirRef(c) !in fk;
    }
  }

  /** A top-level directory (no '/') is never given a parent, nor is one whose
      parent path is not a directory key; any other directory is. */
  lemma LinkedDirParent(a: Arena, d: string)
    requires ArenaValid(a) && d in a.directories.entries
    ensures var e, e0 := Linked(a).directories.entries[d], a.directories.entries[d];
      && ('/' !in d ==> e.parent == e0.parent && e.parentName == e0.parentName)
      && ('/' in d && ParentPath(d) !in a.directories.entries ==>
            e.parent == e0.parent && e.parentName == e0.parentName)
      && ('/' in d && ParentPath(d) in a.directories.entries ==>
            e.parent == Some(ParentPath(d)) && e.parentName == Some(a.directories.entries[ParentPath(d)].name))
  {
  }

  /** Linking changes nothing but `parent`, `parent_name` and `children`, keeps
      all keys and their order, and only ever appends to `children`. */
  lemma LinkedChangesOnlyLinks(a: Arena)
    ensures var b := Linked(a);
      && b.directories.order == a.directories.order && b.files.order == a.files.order
      && b.directories.entries.Keys == a.directories.entries.Keys
      && b.files.entries.Keys == a.files.entries.Keys
      && (forall d :: d in a.directories.entries ==>
            var e, e' := a.directories.entries[d], b.directories.entries[d];
            e' == e.(parent := e'.parent, parentName := e'.parentName, children := e'.children)
            && |e.children| <= |e'.children| && e'.children[..|e.children|] == e.children)
      && (forall f :: f in a.files.entries ==>
            var e, e' := a.files.entries[f], b.files.entries[f];
            e' == e.(parent := e'.parent, parentName := e'.parentName))
  {
    forall d | d in a.directories.entries
      ensures var e, e' := a.directories.entries[d], Linked(a).directories.entries[d];
        |e.children| <= |e'.children| && e'.children[..|e.children|] == e.children
    {
      var e, e' := a.directories.entries[d], Linked(a).directories.entries[d];
      assert e'.children == e.children + NewKids(a, d);
    }
  }

  /** Linking again appends every new child a second time: the builder is not
      idempotent. */
  lemma LinkedTwiceRepeatsChildren(a: Arena, d: string)
    requires d in a.directories.entries
    ensures var once := Linked(a).directories.entries[d].children;
      var twice := Linked(Linked(a)).directories.entries[d].children;
      && |a.directories.entries[d].children| <= |once|
      && twice == once + once[|a.directories.entries[d].children|..]
  {
    var b := Linked(a);
    var old_ := a.directories.entries[d].children;
    var extra := NewKids(a, d);
    assert b.directories.entries[d].children == old_ + extra;
    assert (old_ + extra)[|old_|..] == extra;
    assert NewKids(b, d) == extra;
  }

  // ---------------------------------------------------------------------------
  // The loop over the files, one turn at a time

  /** The arena after the first `n` turns of the loop over the files. */
  function FilesLinked(a: Arena, n: nat): Arena
    requires n <= |a.files.order|
  {
    var ks := a.files.order[..n];
    Arena(
      Dict(a.directories.order, map d | d in a.directories.entries :: FilesLinkedDir(a, ks, d)),
      Dict(a.files.order, map f | f in a.files.entries :: FilesLinkedFile(a, ks, f)))
  }

  function FilesLinkedDir(a: Arena, ks: seq<string>, d: string): Directory
    requires d in a.directories.entries
  {
    var e := a.directories.entries[d];
    e.(children := e.children + Kids(d, ks, false))
  }

  function FilesLinkedFile(a: Arena, ks: seq<string>, f: string): File
    requires f in a.files.entries
  {
    if f in ks then LinkFile(a, f) else a.files.entries[f]
  }

  /** One turn of the loop over the files, for the file key `f`. */
  function FileTurn(b: Arena, f: string): Arena
    requires '/' in f && f in b.files.entries
  {
    var p := ParentPath(f);
    if p in b.directories.entries then
      var e := b.files.entries[f];
      var pd := b.directories.entries[p];
      Arena(Dict(b.directories.order, b.directories.entries[p := pd.(children := pd.children + [FileRef(f)])]),
            Dict(b.files.order, b.files.entries[f := e.(parent := Some(p), parentName := Some(pd.name))]))
    else b
  }

  lemma FilesLinkedStart(a: Arena)
    ensures FilesLinked(a, 0) == a
  {
    var b := FilesLinked(a, 0);
    forall d | d in a.directories.entries
      ensures b.directories.entries[d] == a.directories.entries[d]
    {
      assert a.directories.entries[d].children + [] == a.directories.entries[d].children;
    }
    MapsAgree(b.directories.entries, a.directories.entries);
    MapsAgree(b.files.entries, a.files.entries);
  }

  /** The loop over the files keeps every key and both orders. */
  lemma FilesLinkedShape(a: Arena, n: nat)
    requires n <= |a.files.order|
    ensures var b := FilesLinked(a, n);
      && b.directories.order == a.directories.order && b.files.order == a.files.order
      && (forall k :: k in b.directories.entries <==> k in a.directories.entries)
      && (forall k :: k in b.files.entries <==> k in a.files.entries)
      && (forall k :: k in a.directories.entries ==> b.directories.entries[k].name == a.directories.entries[k].name)
      && (a.directories.Valid() ==> b.directories.Valid())
  {
  }

  lemma FilesLinkedTurnDir(a: Arena, n: nat, d: string)
    requires a.files.Valid() && n < |a.files.order| && '/' in a.files.order[n]
    requires d in a.directories.entries
    ensures a.files.order[n] in FilesLinked(a, n).files.entries
    ensures FilesLinked(a, n + 1).directories.entries[d]
         == FileTurn(FilesLinked(a, n), a.files.order[n]).directories.entries[d]
  {
    FreshInPrefix(a.files, n);
    var f := a.files.order[n];
    KidsSnoc(d, a.files.order[..n], f, false);
    var e := FilesLinkedDir(a, a.files.order[..n], d);
    if ChildOf(f, d) {
      AppendAssoc(a.directories.entries[d].children, Kids(d, a.files.order[..n], false), [FileRef(f)]);
    }
  }

  lemma FilesLinkedTurnFile(a: Arena, n: nat, g: string)
    requires a.files.Valid() && n < |a.files.order| && '/' in a.files.order[n]
    requires g in a.files.entries
    ensures a.files.order[n] in FilesLinked(a, n).files.entries
    ensures FilesLinked(a, n + 1).files.entries[g]
         == FileTurn(FilesLinked(a, n), a.files.order[n]).files.entries[g]
  {
    FreshInPrefix(a.files, n);
  }

  lemma FilesLinkedTurnDirs(a: Arena, n: nat)
    requires a.files.Valid() && n < |a.files.order| && '/' in a.files.order[n]
    ensures a.files.order[n] in FilesLinked(a, n).files.entries
    ensures FilesLinked(a, n + 1).directories.entries
         == FileTurn(FilesLinked(a, n), a.files.order[n]).directories.entries
  {
    FreshInPrefix(a.files, n);
    var c := FilesLinked(a, n + 1);
    var t := FileTurn(FilesLinked(a, n), a.files.order[n]);
    forall d | d in c.directories.entries
      ensures c.directories.entries[d] == t.directories.entries[d]
    {
      FilesLinkedTurnDir(a, n, d);
    }
    MapsAgree(c.directories.entries, t.directories.entries);
  }

  lemma FilesLinkedTurnFiles(a: Arena, n: nat)
    requires a.files.Valid() && n < |a.files.order| && '/' in a.files.order[n]
    ensures a.files.order[n] in FilesLinked(a, n).files.entries
    ensures FilesLinked(a, n + 1).files.entries
         == FileTurn(FilesLinked(a, n), a.files.order[n]).files.entries
  {
    FreshInPrefix(a.files, n);
    var c := FilesLinked(a, n + 1);
    var t := FileTurn(FilesLinked(a, n), a.files.order[n]);
    forall g | g in c.files.entries
      ensures c.files.entries[g] == t.files.entries[g]
    {
      FilesLinkedTurnFile(a, n, g);
    }
    MapsAgree(c.files.entries, t.files.entries);
  }

  /** One more turn of the loop over the files is one more `FileTurn`. */
  lemma FilesLinkedTurn(a: Arena, n: nat)
    requires a.files.Valid() && n < |a.files.order| && '/' in a.files.order[n]
    ensures a.files.order[n] in FilesLinked(a, n).files.entries
    ensures FilesLinked(a, n + 1) == FileTurn(FilesLinked(a, n), a.files.order[n])
  {
    FilesLinkedTurnDirs(a, n);
    FilesLinkedTurnFiles(a, n);
  }

  // ---------------------------------------------------------------------------
  // The loop over the directories, one turn at a time

  /** The arena `b` after the first `m` turns of the loop over the directories. */
  function DirsLinked(b: Arena, m: nat): Arena
    requires m <= |b.directories.order|
  {
    var ks := b.directories.order[..m];
    Arena(Dict(b.directories.order, map d | d in b.directories.entries :: DirsLinkedDir(b, ks, d)), b.files)
  }

  function DirsLinkedDir(b: Arena, ks: seq<string>, d: string): Directory
    requires d in b.directories.entries
  {
    var dirs := b.directories.entries;
    (if d in ks then DirWithParent(dirs, d, dirs[d]) else dirs[d]).(children := dirs[d].children + Kids(d, ks, true))
  }

  /** One turn of the loop over the directories, for the directory key `d`. */
  function DirTurn(b: Arena, d: string): Arena
    requires d in b.directories.entries
  {
    if '/' in d && ParentPath(d) in b.directories.entries then
      var p := ParentPath(d);
      var e := b.directories.entries[d];
      var m := b.directories.entries[d := e.(parent := Some(p), parentName := Some(b.directories.entries[p].name))];
      Arena(Dict(b.directories.order, m[p := m[p].(children := m[p].children + [DirRef(d)])]), b.files)
    else b
  }

  lemma DirsLinkedStart(b: Arena)
    ensures DirsLinked(b, 0) == b
  {
    var c := DirsLinked(b, 0);
    forall d | d in b.directories.entries
      ensures c.directories.entries[d] == b.directories.entries[d]
    {
      assert b.directories.entries[d].children + [] == b.directories.entries[d].children;
    }
    MapsAgree(c.directories.entries, b.directories.entries);
  }

  /** How one more directory key in the prefix changes the directory at `x`. */
  lemma DirsLinkedDirSnoc(b: Arena, ks: seq<string>, d: string, x: string)
    requires x in b.directories.entries && d in b.directories.entries && d !in ks
    ensures var e := DirsLinkedDir(b, ks, x);
      var dirs := b.directories.entries;
      && (x == d && '/' in d && ParentPath(d) in dirs ==>
            DirsLinkedDir(b, ks + [d], x)
              == e.(parent := Some(ParentPath(d)), parentName := Some(dirs[ParentPath(d)].name)))
      && (x == d && !('/' in d && ParentPath(d) in dirs) ==> DirsLinkedDir(b, ks + [d], x) == e)
      && (x != d && ChildOf(d, x) ==> DirsLinkedDir(b, ks + [d], x) == e.(children := e.children + [DirRef(d)]))
      && (x != d && !ChildOf(d, x) ==> DirsLinkedDir(b, ks + [d], x) == e)
  {
    KidsSnoc(x, ks, d, true);
    assert x in ks + [d] <==> x in ks || x == d;
    if x == d {
      assert !ChildOf(d, x);
    } else if ChildOf(d, x) {
      AppendAssoc(b.directories.entries[x].children, Kids(x, ks, true), [DirRef(d)]);
    }
  }

  /** What one turn of the loop over the directories leaves at key `x`. */
  lemma DirTurnAt(b: Arena, d: string, x: string)
    requires d in b.directories.entries && x in b.directories.entries
    ensures var m := b.directories.entries;
      if '/' in d && ParentPath(d) in m then
        var p := ParentPath(d);
        && (x == d ==> DirTurn(b, d).directories.entries[x] == m[d].(parent := Some(p), parentName := Some(m[p].name)))
        && (x == p ==> DirTurn(b, d).directories.entries[x] == m[p].(children := m[p].children + [DirRef(d)]))
        && (x != d && x != p ==> DirTurn(b, d).directories.entries[x] == m[x])
      else DirTurn(b, d).directories.entries[x] == m[x]
  {
  }

  lemma DirTurnKeys(b: Arena, d: string)
    requires d in b.directories.entries
    ensures forall k :: k in DirTurn(b, d).directories.entries <==> k in b.directories.entries
    ensures DirTurn(b, d).directories.order == b.directories.order && DirTurn(b, d).files == b.files
  {
  }

  lemma DirsLinkedTurnDir(b: Arena, m: nat, x: string)
    requires b.directories.Valid() && m < |b.directories.order|
    requires x in b.directories.entries
    ensures b.directories.order[m] in DirsLinked(b, m).directories.entries
    ensures DirsLinked(b, m + 1).directories.entries[x]
         == DirTurn(DirsLinked(b, m), b.directories.order[m]).directories.entries[x]
  {
    FreshInPrefix(b.directories, m);
    var d := b.directories.order[m];
    var ks := b.directories.order[..m];
    var dirs := b.directories.entries;
    var c := DirsLinked(b, m);
    assert c.directories.entries[x] == DirsLinkedDir(b, ks, x);
    assert DirsLinked(b, m + 1).directories.entries[x] == DirsLinkedDir(b, ks + [d], x);
    DirsLinkedDirSnoc(b, ks, d, x);
    DirTurnAt(c, d, x);
    if '/' in d && ParentPath(d) in dirs {
      var p := ParentPath(d);
      assert c.directories.entries[p].name == dirs[p].name by {
        assert c.directories.entries[p] == DirsLinkedDir(b, ks, p);
      }
      assert ChildOf(d, x) <==> x == p;
    } else {
      assert !ChildOf(d, x);
    }
  }

  /** One more turn of the loop over the directories is one more `DirTurn`. */
  lemma DirsLinkedTurn(b: Arena, m: nat)
    requires b.directories.Valid() && m < |b.directories.order|
    ensures b.directories.order[m] in DirsLinked(b, m).directories.entries
    ensures DirsLinked(b, m + 1) == DirTurn(DirsLinked(b, m), b.directories.order[m])
  {
    var d := b.directories.order[m];
    assert d in b.directories.entries;
    var c := DirsLinked(b, m + 1);
    var t := DirTurn(DirsLinked(b, m), d);
    DirTurnKeys(DirsLinked(b, m), d);
    forall x | x in c.directories.entries
      ensures c.directories.entries[x] == t.directories.entries[x]
    {
      DirsLinkedTurnDir(b, m, x);
    }
    MapsAgree(c.directories.entries, t.directories.entries);
  }

  // ---------------------------------------------------------------------------
  // The two loops together

  lemma TwoPassesDir(a: Arena, d: string)
    requires a.files.Valid() && a.directories.Valid() && d in a.directories.entries
    ensures var b := FilesLinked(a, |a.files.order|);
      d in b.directories.entries && DirsLinked(b, |b.directories.order|).directories.entries[d] == LinkDir(a, d)
  {
    var b := FilesLinked(a, |a.files.order|);
    FilesLinkedShape(a, |a.files.order|);
    assert a.files.order[..|a.files.order|] == a.files.order;
    assert b.directories.order[..|b.directories.order|] == a.directories.order;
    assert d in a.directories.order;
    var e := a.directories.entries[d];
    assert b.directories.entries[d] == e.(children := e.children + Kids(d, a.files.order, false));
    AppendAssoc(e.children, Kids(d, a.files.order, false), Kids(d, a.directories.order, true));
  }

  /** The loop over the files followed by the loop over the directories leaves
      exactly `Linked`. */
  lemma TwoPasses(a: Arena)
    requires a.files.Valid() && a.directories.Valid()
    ensures var b := FilesLinked(a, |a.files.order|);
      DirsLinked(b, |b.directories.order|) == Linked(a)
  {
    var b := FilesLinked(a, |a.files.order|);
    FilesLinkedShape(a, |a.files.order|);
    var c := DirsLinked(b, |b.directories.order|);
    forall d | d in c.directories.entries
      ensures c.directories.entries[d] == Linked(a).directories.entries[d]
    {
      TwoPassesDir(a, d);
    }
    MapsAgree(c.directories.entries, Linked(a).directories.entries);
    assert a.files.order[..|a.files.order|] == a.files.order;
    forall f | f in c.files.entries
      ensures c.files.entries[f] == Linked(a).files.entries[f]
    {
      assert f in a.files.order;
    }
    MapsAgree(c.files.entries, Linked(a).files.entries);
  }
}
