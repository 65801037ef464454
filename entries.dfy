/** The nodes of the reconstructed tree. Entries live in two maps keyed by path
    (the "arena"); a node refers to its parent and to its children by key. */
module Entries {
  import opened Wrappers
  import opened Strings
  import opened Revisions

  /** A child of a directory: the key of a file or of a directory. */
  datatype Ref = FileRef(name: string) | DirRef(name: string)

  datatype Directory = Directory(
    name: string,
    revision: string,
    date: string,
    author: string,
    summary: string,
    versions: seq<Revision>,
    parent: Option<string>,
    parentName: Option<string>,
    children: seq<Ref>)

  datatype File = File(
    name: string,
    revision: string,
    date: string,
    author: string,
    size: string,
    summary: string,
    versions: seq<Revision>,
    parent: Option<string>,
    parentName: Option<string>,
    children: seq<Ref>)

  /** Failures of the entry queries: `Directory.get_last_commit` indexes `[-1]`
      of an empty list, `File.get_summary` reads `.msg` of `None`,
      `Directory.get_directory_name` calls `rindex('/')` on a name without '/'. */
  datatype HistoryError = EmptyVersions(directory: string) | NoLastCommit(file: string)
                        | NoSlashInName(directory: string)

  /** The `Directory` constructor: metadata as given, no history and no links yet. */
  function NewDirectory(name: string, revision: string, date: string, author: string): (d: Directory)
    ensures d.name == name && d.revision == revision && d.date == date && d.author == author
    ensures d.summary == "" && d.versions == [] && d.children == []
    ensures d.parent == None && d.parentName == None
  {
    Directory(name, revision, date, author, "", [], None, None, [])
  }

  /** The `File` constructor: metadata as given, no history and no links yet. */
  function NewFile(name: string, revision: string, date: string, author: string, size: string): (f: File)
    ensures f.name == name && f.revision == revision && f.date == date && f.author == author && f.size == size
    ensures f.summary == "" && f.versions == [] && f.children == []
    ensures f.parent == None && f.parentName == None
  {
    File(name, revision, date, author, size, "", [], None, None, [])
  }

  // ---------------------------------------------------------------------------
  // Latest commit of a file

  /** `vs[k]` is the last element of `sorted(vs, key=date)`: it has a greatest
      date, and every version appended after it has a strictly smaller date
      (the sort is stable, so among equal dates the last appended comes last). */
  ghost predicate IsLatestAt(vs: seq<Revision>, k: int)
  {
    && 0 <= k < |vs|
    && (forall j :: 0 <= j < |vs| ==> LessEq(vs[j].date, vs[k].date))
    && (forall j :: k < j < |vs| ==> Less(vs[j].date, vs[k].date))
  }

  /** Only one position has that property. */
  lemma LatestIsUnique(vs: seq<Revision>, k: int, k': int)
    requires IsLatestAt(vs, k) && IsLatestAt(vs, k')
    ensures k == k'
  {
    assert LessEq(vs[k].date, vs[k'].date) && LessEq(vs[k'].date, vs[k].date);
  }

  /** The index of `sorted(vs, key=lambda r: r.date)[-1]` in `vs`. */
  function LatestIndex(vs: seq<Revision>): (k: nat)
    requires |vs| > 0
    ensures IsLatestAt(vs, k)
    decreases |vs|
  {
    if |vs| == 1 then
      LessIrreflexive(vs[0].date);
      0
    else
      var k := LatestIndex(vs[..|vs| - 1]);
      LatestStep(vs, k);
      if LessEq(vs[k].date, vs[|vs| - 1].date) then |vs| - 1 else k
  }

  lemma LatestStep(vs: seq<Revision>, k: int)
    requires |vs| > 1 && IsLatestAt(vs[..|vs| - 1], k)
    ensures LessEq(vs[k].date, vs[|vs| - 1].date) ==> IsLatestAt(vs, |vs| - 1)
    ensures !LessEq(vs[k].date, vs[|vs| - 1].date) ==> IsLatestAt(vs, k)
  {
    var n := |vs|;
    assert forall j :: 0 <= j < n - 1 ==> vs[..n - 1][j] == vs[j];
    LessEqTotal(vs[n - 1].date, vs[n - 1].date);
    if LessEq(vs[k].date, vs[n - 1].date) {
      forall j | 0 <= j < n
        ensures LessEq(vs[j].date, vs[n - 1].date)
      {
        if j < n - 1 {
          LessEqTransitive(vs[j].date, vs[k].date, vs[n - 1].date);
        }
      }
    } else {
      LessEqOfLess(vs[n - 1].date, vs[k].date);
    }
  }

  /** `File.get_last_commit`: `None` without history, otherwise the last of the
      versions sorted by date. */
  function FileLastCommit(f: File): (r: Option<Revision>)
    ensures r.None? <==> f.versions == []
    ensures r.Some? ==> exists k :: IsLatestAt(f.versions, k) && r.value == f.versions[k]
  {
    if |f.versions| == 0 then None else Some(f.versions[LatestIndex(f.versions)])
  }

  /** `File.get_summary`: the message of the last commit; reading `.msg` of `None`
      fails when the file has no history. */
  function FileSummary(f: File): (r: Result<string, HistoryError>)
    ensures r.Success? <==> f.versions != []
    ensures r.Success? ==> exists k :: IsLatestAt(f.versions, k) && r.value == f.versions[k].msg
    ensures r.Failure? ==> r.error == NoLastCommit(f.name)
  {
    match FileLastCommit(f)
    case None => Failure(NoLastCommit(f.name))
    case Some(c) => Success(c.msg)
  }

  // ---------------------------------------------------------------------------
  // Names and classification

  /** `File.get_file_name`: the whole name when it has no '/', otherwise the text
      after the last '/'. */
  function FileName(f: File): (r: string)
    ensures '/' !in r
    ensures '/' !in f.name ==> r == f.name
    ensures '/' in f.name ==> |r| < |f.name| && f.name[|f.name| - |r| - 1] == '/' && r == f.name[|f.name| - |r|..]
  {
    if '/' !in f.name then
      f.name
    else
      var i := LastSlash(f.name);
      var r := f.name[i + 1..];
      assert forall j :: 0 <= j < |r| ==> r[j] == f.name[i + 1 + j];
      r
  }

  /** `Directory.get_directory_name`: the text after the last '/' followed by '/';
      `rindex` raises `ValueError` when the name has no '/'. */
  function DirectoryName(d: Directory): (r: Result<string, HistoryError>)
    ensures r.Failure? <==> '/' !in d.name
    ensures r.Failure? ==> r.error == NoSlashInName(d.name)
    ensures r.Success? ==> var n := r.value;
      && |n| > 0 && n[|n| - 1] == '/'
      && var base := n[..|n| - 1];
      && '/' !in base
      && |base| < |d.name|
      && d.name[|d.name| - |base| - 1] == '/'
      && base == d.name[|d.name| - |base|..]
  {
    if '/' !in d.name then
      Failure(NoSlashInName(d.name))
    else
      var i := LastSlash(d.name);
      var base := d.name[i..][1..];
      assert base == d.name[i + 1..];
      assert forall j :: 0 <= j < |base| ==> base[j] == d.name[i + 1 + j];
      assert (base + "/")[..|base|] == base;
      Success(base + "/")
  }

  predicate MarksTest(name: string)
  {
    Contains(name, "test") || Contains(name, "Tests")
  }

  predicate MarksCode(name: string)
  {
    Contains(name, ".py") || Contains(name, ".java") || Contains(name, ".css") || Contains(name, ".js") || Contains(name, ".htm")
  }

  predicate MarksImage(name: string)
  {
    Contains(name, ".png") || Contains(name, ".jpg") || Contains(name, ".jpeg")
  }

  /** `File.get_file_type`: substring tests on the base name, in priority order
      test, code, image, and 'resource' for everything else. */
  function FileType(f: File): (r: string)
    ensures r in {"test", "code", "image", "resource"}
    ensures r == "test" <==> MarksTest(FileName(f))
    ensures r == "code" <==> !MarksTest(FileName(f)) && MarksCode(FileName(f))
    ensures r == "image" <==> !MarksTest(FileName(f)) && !MarksCode(FileName(f)) && MarksImage(FileName(f))
    ensures r == "resource" <==> !MarksTest(FileName(f)) && !MarksCode(FileName(f)) && !MarksImage(FileName(f))
  {
    var name := FileName(f);
    if MarksTest(name) then "test"
    else if MarksCode(name) then "code"
    else if MarksImage(name) then "image"
    else "resource"
  }

  // ---------------------------------------------------------------------------
  // Latest commit of a directory, through its children

  /** A child reference that can be followed: a file key that exists, or a
      directory key that exists and is longer than its parent's key. */
  ghost predicate RefOk(dirs: map<string, Directory>, files: map<string, File>, d: string, r: Ref)
  {
    match r
    case FileRef(f) => f in files
    case DirRef(c) => c in dirs && |d| < |c|
  }

  /** Every child of every directory can be followed. */
  ghost predicate ChildrenWellFormed(dirs: map<string, Directory>, files: map<string, File>)
  {
    forall d, i :: d in dirs && 0 <= i < |dirs[d].children| ==> RefOk(dirs, files, d, dirs[d].children[i])
  }

  /** The directory keys longer than `d`: shrinks along every child link. */
  ghost function Longer(dirs: map<string, Directory>, d: string): set<string>
  {
    set k | k in dirs.Keys && |k| > |d|
  }

  lemma LongerShrinks(dirs: map<string, Directory>, d: string, c: string)
    requires c in dirs && |d| < |c|
    ensures Longer(dirs, c) < Longer(dirs, d)
  {
    assert c in Longer(dirs, d) && c !in Longer(dirs, c);
  }

  /** What `child.get_last_commit()` yields for one child during the loop. */
  function ChildLatest(dirs: map<string, Directory>, files: map<string, File>, d: string, r: Ref): Result<Option<Revision>, HistoryError>
    requires ChildrenWellFormed(dirs, files) && RefOk(dirs, files, d, r)
    decreases Longer(dirs, d), 0, 0
  {
    match r
    case FileRef(f) => Success(FileLastCommit(files[f]))
    case DirRef(c) =>
      LongerShrinks(dirs, d, c);
      match DirLatest(dirs, files, c)
      case Success(x) => Success(Some(x))
      case Failure(e) => Failure(e)
  }

  /** `last_commit` after the loop has visited the first `n` children. */
  function KidsLatest(dirs: map<string, Directory>, files: map<string, File>, d: string, n: nat): Result<Revision, HistoryError>
    requires ChildrenWellFormed(dirs, files) && d in dirs
    requires dirs[d].versions != [] && n <= |dirs[d].children|
    decreases Longer(dirs, d), 1, n
  {
    var vs := dirs[d].versions;
    if n == 0 then
      Success(vs[LatestIndex(vs)])
    else
      match KidsLatest(dirs, files, d, n - 1)
      case Failure(e) => Failure(e)
      case Success(last) =>
        assert RefOk(dirs, files, d, dirs[d].children[n - 1]);
        match ChildLatest(dirs, files, d, dirs[d].children[n - 1])
        case Failure(e) => Failure(e)
        case Success(child) =>
          if child.Some? && Less(last.date, child.value.date) then Success(child.value) else Success(last)
  }

  /** `Directory.get_last_commit`, as a function of the arena. */
  function DirLatest(dirs: map<string, Directory>, files: map<string, File>, d: string): Result<Revision, HistoryError>
    requires ChildrenWellFormed(dirs, files) && d in dirs
    decreases Longer(dirs, d), 2, 0
  {
    if dirs[d].versions == [] then Failure(EmptyVersions(d))
    else KidsLatest(dirs, files, d, |dirs[d].children|)
  }

  /** Once a child fails, the rest of the loop is not run. */
  lemma {:induction false} KidsFailureStays(dirs: map<string, Directory>, files: map<string, File>, d: string, m: nat, n: nat)
    requires ChildrenWellFormed(dirs, files) && d in dirs
    requires dirs[d].versions != [] && m <= n <= |dirs[d].children|
    requires KidsLatest(dirs, files, d, m).Failure?
    ensures KidsLatest(dirs, files, d, n) == KidsLatest(dirs, files, d, m)
    decreases n
  {
    if n > m {
      KidsFailureStays(dirs, files, d, m, n - 1);
    }
  }

  /** One turn of the loop over the children, given what the child yielded:
      a failing child ends the whole walk with its error, otherwise its commit
      replaces the current one only when its date is strictly later. */
  lemma KidsLatestStep(dirs: map<string, Directory>, files: map<string, File>, d: string, n: nat, last: Revision,
                       c: Result<Option<Revision>, HistoryError>)
    requires ChildrenWellFormed(dirs, files) && d in dirs
    requires dirs[d].versions != [] && n < |dirs[d].children|
    requires KidsLatest(dirs, files, d, n) == Success(last)
    requires RefOk(dirs, files, d, dirs[d].children[n]) && c == ChildLatest(dirs, files, d, dirs[d].children[n])
    ensures c.Failure? ==> DirLatest(dirs, files, d) == Failure(c.error)
    ensures c.Success? ==>
      KidsLatest(dirs, files, d, n + 1) ==
        Success(if c.value.Some? && Less(last.date, c.value.value.date) then c.value.value else last)
  {
    if c.Failure? {
      KidsFailureStays(dirs, files, d, n + 1, |dirs[d].children|);
    }
  }

  /** `Directory.get_last_commit` as the source runs it: sort the own versions,
      then walk the children, letting a child's commit replace the current one
      only when its date is strictly later. */
  method DirectoryLastCommit(dirs: map<string, Directory>, files: map<string, File>, d: string)
    returns (r: Result<Revision, HistoryError>)
    requires ChildrenWellFormed(dirs, files) && d in dirs
    ensures r == DirLatest(dirs, files, d)
    decreases Longer(dirs, d), 1
  {
    var dir := dirs[d];
    if |dir.versions| == 0 {
      return Failure(EmptyVersions(d));
    }
    var lastCommit := dir.versions[LatestIndex(dir.versions)];
    var i := 0;
    while i < |dir.children|
      invariant 0 <= i <= |dir.children|
      invariant KidsLatest(dirs, files, d, i) == Success(lastCommit)
    {
      var childCommit := ChildLastCommit(dirs, files, d, dir.children[i]);
      KidsLatestStep(dirs, files, d, i, lastCommit, childCommit);
      if childCommit.Failure? {
        return Failure(childCommit.error);
      }
      if childCommit.value.Some? && Less(lastCommit.date, childCommit.value.value.date) {
        lastCommit := childCommit.value.value;
      }
      i := i + 1;
    }
    return Success(lastCommit);
  }

  /** `child.get_last_commit()` for one child: a file's latest version or
      none, a directory's last commit or the error it raised. */
  method ChildLastCommit(dirs: map<string, Directory>, files: map<string, File>, d: string, child: Ref)
    returns (r: Result<Option<Revision>, HistoryError>)
    requires ChildrenWellFormed(dirs, files) && RefOk(dirs, files, d, child)
    ensures r == ChildLatest(dirs, files, d, child)
    decreases Longer(dirs, d), 0
  {
    match child
    case FileRef(f) =>
      r := Success(FileLastCommit(files[f]));
    case DirRef(c) =>
      LongerShrinks(dirs, d, c);
      var res := DirectoryLastCommit(dirs, files, c);
      r := if res.Success? then Success(Some(res.value)) else Failure(res.error);
  }

  /** What the loop keeps after `n` children: a commit at least as late as the own
      latest version and as every visited child's, which is either the own latest
      version or, strictly later than it, the commit of a visited child. */
  lemma {:induction false} KidsLatestFacts(dirs: map<string, Directory>, files: map<string, File>, d: string, n: nat)
    requires ChildrenWellFormed(dirs, files) && d in dirs
    requires dirs[d].versions != [] && n <= |dirs[d].children|
    requires KidsLatest(dirs, files, d, n).Success?
    ensures var own := dirs[d].versions[LatestIndex(dirs[d].versions)];
      var x := KidsLatest(dirs, files, d, n).value;
      && LessEq(own.date, x.date)
      && (x == own || (Less(own.date, x.date) &&
            exists i :: 0 <= i < n && ChildLatest(dirs, files, d, dirs[d].children[i]) == Success(Some(x))))
      && (forall i :: 0 <= i < n ==>
            var c := ChildLatest(dirs, files, d, dirs[d].children[i]);
            c.Success? && (c.value.Some? ==> LessEq(c.value.value.date, x.date)))
    decreases n
  {
    var vs := dirs[d].versions;
    var own := vs[LatestIndex(vs)];
    if n == 0 {
      LessIrreflexive(own.date);
    } else {
      KidsLatestFacts(dirs, files, d, n - 1);
      var last := KidsLatest(dirs, files, d, n - 1).value;
      var child := ChildLatest(dirs, files, d, dirs[d].children[n - 1]).value;
      var x := KidsLatest(dirs, files, d, n).value;
      if child.Some? && Less(last.date, child.value.date) {
        assert x == child.value;
        LessEqOfLess(last.date, x.date);
        LessEqTransitive(own.date, last.date, x.date);
        if own == last {
          assert Less(own.date, x.date);
        } else {
          LessTransitive(own.date, last.date, x.date);
        }
        forall i | 0 <= i < n
          ensures var c := ChildLatest(dirs, files, d, dirs[d].children[i]);
            c.Success? && (c.value.Some? ==> LessEq(c.value.value.date, x.date))
        {
          var c := ChildLatest(dirs, files, d, dirs[d].children[i]);
          if i < n - 1 && c.value.Some? {
            LessEqTransitive(c.value.value.date, last.date, x.date);
          } else if i == n - 1 {
            LessIrreflexive(x.date);
          }
        }
      } else {
        assert x == last;
        if x != own {
          var i :| 0 <= i < n - 1 && ChildLatest(dirs, files, d, dirs[d].children[i]) == Success(Some(x));
        }
      }
    }
  }

  /** A directory's last commit is at least as late as each of its own versions
      and as each child's last commit; when it exists no child failed. */
  lemma DirLatestIsLatest(dirs: map<string, Directory>, files: map<string, File>, d: string)
    requires ChildrenWellFormed(dirs, files) && d in dirs
    requires DirLatest(dirs, files, d).Success?
    ensures var x := DirLatest(dirs, files, d).value;
      && (forall j :: 0 <= j < |dirs[d].versions| ==> LessEq(dirs[d].versions[j].date, x.date))
      && (forall i :: 0 <= i < |dirs[d].children| ==>
            var c := ChildLatest(dirs, files, d, dirs[d].children[i]);
            c.Success? && (c.value.Some? ==> LessEq(c.value.value.date, x.date)))
  {
    var vs := dirs[d].versions;
    var n := |dirs[d].children|;
    KidsLatestFacts(dirs, files, d, n);
    var own := vs[LatestIndex(vs)];
    var x := DirLatest(dirs, files, d).value;
    forall j | 0 <= j < |vs|
      ensures LessEq(vs[j].date, x.date)
    {
      LessEqTransitive(vs[j].date, own.date, x.date);
    }
  }

  /** The directory keeps its own latest version exactly when no child's last
      commit is strictly later; ties keep the current choice. */
  lemma DirLatestKeepsOwn(dirs: map<string, Directory>, files: map<string, File>, d: string)
    requires ChildrenWellFormed(dirs, files) && d in dirs
    requires DirLatest(dirs, files, d).Success?
    ensures var own := dirs[d].versions[LatestIndex(dirs[d].versions)];
      DirLatest(dirs, files, d).value == own <==>
        forall i :: 0 <= i < |dirs[d].children| ==>
          var c := ChildLatest(dirs, files, d, dirs[d].children[i]);
          c.Success? && (c.value.Some? ==> LessEq(c.value.value.date, own.date))
  {
    var vs := dirs[d].versions;
    var n := |dirs[d].children|;
    KidsLatestFacts(dirs, files, d, n);
    var own := vs[LatestIndex(vs)];
  }

  /** `Directory.get_summary`: the message of the directory's last commit. */
  function DirectorySummary(dirs: map<string, Directory>, files: map<string, File>, d: string): (r: Result<string, HistoryError>)
    requires ChildrenWellFormed(dirs, files) && d in dirs
    ensures r.Success? <==> DirLatest(dirs, files, d).Success?
    ensures r.Success? ==> r.value == DirLatest(dirs, files, d).value.msg
    ensures r.Failure? ==> r.error == DirLatest(dirs, files, d).error
  {
    match DirLatest(dirs, files, d)
    case Success(c) => Success(c.msg)
    case Failure(e) => Failure(e)
  }
}
