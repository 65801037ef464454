/** What `parse_log_entry` and `parse_xml_log` do to a repository's entries,
    as functions of the log document and the arena. */
module LogParsing {
  import opened Wrappers
  import opened Xml
  import opened Revisions
  import opened Entries
  import opened Dicts
  import opened Arenas
  import opened EntryParsing

  /** The number of leading characters removed from every `<path>` text. */
  const PrefixLength := 10

  /** `text[10:]`: Python's slice, empty when the text is shorter. */
  function StripPrefix(text: string): (r: string)
    ensures |r| == if |text| <= PrefixLength then 0 else |text| - PrefixLength
    ensures r == text[|text| - |r|..]
  {
    if |text| <= PrefixLength then [] else text[PrefixLength..]
  }

  /** The fields of one log entry that every revision it creates shares. */
  datatype Commit = Commit(date: string, author: string, msg: string, number: string)

  /** `Revision(name, date, author, msg, revision_num)` for one `<path>`. */
  function RevisionFor(path: Element, c: Commit): Revision
  {
    Revision(StripPrefix(path.text), c.date, c.author, c.msg, c.number)
  }

  /** Look `rev.name` up among the directories when `kind` is 'dir' and among
      the files otherwise, and append `rev` to that entry's versions if there
      is one. */
  function AttachRevision(a: Arena, kind: string, rev: Revision): Arena
  {
    if kind == "dir" then
      if rev.name in a.directories.entries then
        var d := a.directories.entries[rev.name];
        Arena(Dict(a.directories.order, a.directories.entries[rev.name := d.(versions := d.versions + [rev])]), a.files)
      else
        a
    else if rev.name in a.files.entries then
      var f := a.files.entries[rev.name];
      Arena(a.directories, Dict(a.files.order, a.files.entries[rev.name := f.(versions := f.versions + [rev])]))
    else
      a
  }

  /** The arena a step leaves behind, and the exception that stopped it. */
  datatype Outcome = Outcome(arena: Arena, error: Option<ParseError>)

  /** The loop `for path in log_entry.iter('path')` over `ps`: a path without a
      `kind` attribute raises after the earlier paths were attached. */
  function PathsEffect(a: Arena, ps: seq<Element>, c: Commit): Outcome
    decreases |ps|
  {
    if ps == [] then
      Outcome(a, None)
    else
      var o := PathsEffect(a, ps[..|ps| - 1], c);
      var p := ps[|ps| - 1];
      if o.error.Some? then o
      else if "kind" !in p.attrib then Outcome(o.arena, Some(MissingAttribute("path", "kind")))
      else Outcome(AttachRevision(o.arena, p.attrib["kind"], RevisionFor(p, c)), None)
  }

  /** The date, author and message the first `Revision(...)` call reads from
      the variables the loop over `log_entry.iter()` bound; the first one never
      bound raises. */
  function CommitOf(logEntry: Element, number: string): (r: Result<Commit, ParseError>)
    ensures var es := Iter(logEntry);
      r.Success? <==> Has(es, "date") && Has(es, "author") && Has(es, "msg")
    ensures var es := Iter(logEntry);
      r.Success? ==> && LastTextIs(es, "date", r.value.date) && LastTextIs(es, "author", r.value.author)
                     && LastTextIs(es, "msg", r.value.msg) && r.value.number == number
  {
    var es := Iter(logEntry);
    LastTextSpec(es, "date");
    LastTextSpec(es, "author");
    LastTextSpec(es, "msg");
    CommitFrom(LastText(es, "date"), LastText(es, "author"), LastText(es, "msg"), number)
  }

  /** `Revision(name, date, author, msg, revision_num)` evaluates its arguments
      left to right, so the first of `date`, `author`, `msg` left unbound
      raises. */
  function CommitFrom(date: Option<string>, author: Option<string>, msg: Option<string>, number: string): (r: Result<Commit, ParseError>)
    ensures r.Success? <==> date.Some? && author.Some? && msg.Some?
    ensures r.Success? ==> r.value == Commit(date.value, author.value, msg.value, number)
    ensures date.None? ==> r == Failure(UnboundField("date"))
    ensures date.Some? && author.None? ==> r == Failure(UnboundField("author"))
    ensures date.Some? && author.Some? && msg.None? ==> r == Failure(UnboundField("msg"))
  {
    if date.None? then Failure(UnboundField("date"))
    else if author.None? then Failure(UnboundField("author"))
    else if msg.None? then Failure(UnboundField("msg"))
    else Success(Commit(date.value, author.value, msg.value, number))
  }

  /** `parse_log_entry(log_entry)`: no `revision` attribute raises at once; a
      log entry without paths changes nothing. */
  function LogEntryEffect(a: Arena, logEntry: Element): Outcome
  {
    if "revision" !in logEntry.attrib then
      Outcome(a, Some(MissingAttribute("logentry", "revision")))
    else
      var paths := IterTag(logEntry, "path");
      if paths == [] then
        Outcome(a, None)
      else
        match CommitOf(logEntry, logEntry.attrib["revision"])
        case Failure(err) => Outcome(a, Some(err))
        case Success(c) => PathsEffect(a, paths, c)
  }

  /** `parse_xml_log()` over the log entries `les`, in document order; an
      exception stops it. */
  function LogEffect(a: Arena, les: seq<Element>): Outcome
    decreases |les|
  {
    if les == [] then
      Outcome(a, None)
    else
      var o := LogEffect(a, les[..|les| - 1]);
      if o.error.Some? then o else LogEntryEffect(o.arena, les[|les| - 1])
  }

  // ---------------------------------------------------------------------------
  // Only `versions` grows

  /** `s` begins with `p`. */
  predicate IsPrefix<T(==)>(p: seq<T>, s: seq<T>)
  {
    |p| <= |s| && s[..|p|] == p
  }

  lemma PrefixTransitive<T>(p: seq<T>, q: seq<T>, s: seq<T>)
    requires IsPrefix(p, q) && IsPrefix(q, s)
    ensures IsPrefix(p, s)
  {
    assert s[..|p|] == s[..|q|][..|p|];
  }

  /** `b` differs from `a` only by revisions appended to existing entries. */
  ghost predicate VersionsOnly(a: Arena, b: Arena)
  {
    && b.directories.order == a.directories.order && b.files.order == a.files.order
    && (forall k :: k in b.directories.entries <==> k in a.directories.entries)
    && (forall k :: k in b.files.entries <==> k in a.files.entries)
    && (forall k :: k in a.directories.entries ==>
          var d := a.directories.entries[k];
          var e := b.directories.entries[k];
          e == d.(versions := e.versions) && IsPrefix(d.versions, e.versions))
    && (forall k :: k in a.files.entries ==>
          var f := a.files.entries[k];
          var g := b.files.entries[k];
          g == f.(versions := g.versions) && IsPrefix(f.versions, g.versions))
  }

  lemma VersionsOnlyTransitive(a: Arena, b: Arena, c: Arena)
    requires VersionsOnly(a, b) && VersionsOnly(b, c)
    ensures VersionsOnly(a, c)
  {
    forall k | k in a.directories.entries
      ensures IsPrefix(a.directories.entries[k].versions, c.directories.entries[k].versions)
    {
      PrefixTransitive(a.directories.entries[k].versions, b.directories.entries[k].versions, c.directories.entries[k].versions);
    }
    forall k | k in a.files.entries
      ensures IsPrefix(a.files.entries[k].versions, c.files.entries[k].versions)
    {
      PrefixTransitive(a.files.entries[k].versions, b.files.entries[k].versions, c.files.entries[k].versions);
    }
  }

  lemma AttachRevisionExtends(a: Arena, kind: string, rev: Revision)
    ensures VersionsOnly(a, AttachRevision(a, kind, rev))
  {
    var b := AttachRevision(a, kind, rev);
    if kind == "dir" && rev.name in a.directories.entries {
      var d := a.directories.entries[rev.name];
      assert IsPrefix(d.versions, d.versions + [rev]);
      assert b.files == a.files;
    } else if kind != "dir" && rev.name in a.files.entries {
      var f := a.files.entries[rev.name];
      assert IsPrefix(f.versions, f.versions + [rev]);
      assert b.directories == a.directories;
    } else {
      VersionsOnlyRefl(a);
    }
  }

  /** Appending versions keeps every link, so a well-formed arena stays so. */
  lemma VersionsOnlyValid(a: Arena, b: Arena)
    requires ArenaValid(a) && VersionsOnly(a, b)
    ensures ArenaValid(b)
  {
    assert b.directories.entries.Keys == a.directories.entries.Keys;
    assert b.files.entries.Keys == a.files.entries.Keys;
    ValidFromShape(a, b);
  }

  lemma VersionsOnlyRefl(a: Arena)
    ensures VersionsOnly(a, a)
  {
  }

  lemma {:induction false} PathsEffectExtends(a: Arena, ps: seq<Element>, c: Commit)
    ensures VersionsOnly(a, PathsEffect(a, ps, c).arena)
    decreases |ps|
  {
    if ps == [] {
      VersionsOnlyRefl(a);
    } else {
      var o := PathsEffect(a, ps[..|ps| - 1], c);
      PathsEffectExtends(a, ps[..|ps| - 1], c);
      var p := ps[|ps| - 1];
      if o.error.None? && "kind" in p.attrib {
        AttachRevisionExtends(o.arena, p.attrib["kind"], RevisionFor(p, c));
        VersionsOnlyTransitive(a, o.arena, AttachRevision(o.arena, p.attrib["kind"], RevisionFor(p, c)));
      }
    }
  }

  /** A log entry, even one that raises part-way, only appends versions to
      entries already present. */
  lemma LogEntryExtends(a: Arena, logEntry: Element)
    ensures VersionsOnly(a, LogEntryEffect(a, logEntry).arena)
  {
    VersionsOnlyRefl(a);
    if "revision" in logEntry.attrib && IterTag(logEntry, "path") != [] {
      var c := CommitOf(logEntry, logEntry.attrib["revision"]);
      if c.Success? {
        PathsEffectExtends(a, IterTag(logEntry, "path"), c.value);
      }
    }
  }

  /** The whole log, even one that raises part-way, only appends versions to
      entries already present. */
  lemma {:induction false} LogEffectExtends(a: Arena, les: seq<Element>)
    ensures VersionsOnly(a, LogEffect(a, les).arena)
    decreases |les|
  {
    if les == [] {
      VersionsOnlyRefl(a);
    } else {
      var o := LogEffect(a, les[..|les| - 1]);
      LogEffectExtends(a, les[..|les| - 1]);
      if o.error.None? {
        LogEntryExtends(o.arena, les[|les| - 1]);
        VersionsOnlyTransitive(a, o.arena, LogEntryEffect(o.arena, les[|les| - 1]).arena);
      }
    }
  }

  // ---------------------------------------------------------------------------
  // Exactly which revisions each entry receives

  /** `path` designates the entry `key` among the directories (`isDir`) or
      among the files. */
  predicate Targets(path: Element, isDir: bool, key: string)
  {
    "kind" in path.attrib && (path.attrib["kind"] == "dir") == isDir && StripPrefix(path.text) == key
  }

  /** The revisions the paths `ps` send to the entry `key`, in path order. */
  function PathsFor(ps: seq<Element>, isDir: bool, key: string, c: Commit): (r: seq<Revision>)
    ensures forall rev :: rev in r <==> exists i :: 0 <= i < |ps| && Targets(ps[i], isDir, key) && rev == RevisionFor(ps[i], c)
    decreases |ps|
  {
    if ps == [] then
      []
    else
      var init := ps[..|ps| - 1];
      var p := ps[|ps| - 1];
      assert forall i :: 0 <= i < |init| ==> init[i] == ps[i];
      PathsFor(init, isDir, key, c) + (if Targets(p, isDir, key) then [RevisionFor(p, c)] else [])
  }

  /** The versions of the directory `d` after `AttachRevision`. */
  lemma AttachRevisionDirectory(a: Arena, kind: string, rev: Revision, d: string)
    requires d in a.directories.entries
    ensures d in AttachRevision(a, kind, rev).directories.entries
    ensures AttachRevision(a, kind, rev).directories.entries[d].versions
         == a.directories.entries[d].versions + (if kind == "dir" && rev.name == d then [rev] else [])
  {
  }

  /** The versions of the file `f` after `AttachRevision`. */
  lemma AttachRevisionFile(a: Arena, kind: string, rev: Revision, f: string)
    requires f in a.files.entries
    ensures f in AttachRevision(a, kind, rev).files.entries
    ensures AttachRevision(a, kind, rev).files.entries[f].versions
         == a.files.entries[f].versions + (if kind != "dir" && rev.name == f then [rev] else [])
  {
  }

  /** When no path raises, each directory receives exactly the revisions of
      the 'dir' paths naming it, in path order. */
  lemma {:induction false} PathsEffectDirectory(a: Arena, ps: seq<Element>, c: Commit, d: string)
    requires d in a.directories.entries && PathsEffect(a, ps, c).error.None?
    ensures d in PathsEffect(a, ps, c).arena.directories.entries
    ensures PathsEffect(a, ps, c).arena.directories.entries[d].versions
         == a.directories.entries[d].versions + PathsFor(ps, true, d, c)
    decreases |ps|
  {
    if ps != [] {
      var init := ps[..|ps| - 1];
      var p := ps[|ps| - 1];
      var o := PathsEffect(a, init, c);
      PathsEffectDirectory(a, init, c, d);
      AttachRevisionDirectory(o.arena, p.attrib["kind"], RevisionFor(p, c), d);
      AppendAssoc(a.directories.entries[d].versions, PathsFor(init, true, d, c),
                  if Targets(p, true, d) then [RevisionFor(p, c)] else []);
    }
  }

  /** When no path raises, each file receives exactly the revisions of the
      paths of any other kind naming it, in path order. */
  lemma {:induction false} PathsEffectFile(a: Arena, ps: seq<Element>, c: Commit, f: string)
    requires f in a.files.entries && PathsEffect(a, ps, c).error.None?
    ensures f in PathsEffect(a, ps, c).arena.files.entries
    ensures PathsEffect(a, ps, c).arena.files.entries[f].versions
         == a.files.entries[f].versions + PathsFor(ps, false, f, c)
    decreases |ps|
  {
    if ps != [] {
      var init := ps[..|ps| - 1];
      var p := ps[|ps| - 1];
      var o := PathsEffect(a, init, c);
      PathsEffectFile(a, init, c, f);
      AttachRevisionFile(o.arena, p.attrib["kind"], RevisionFor(p, c), f);
      AppendAssoc(a.files.entries[f].versions, PathsFor(init, false, f, c),
                  if Targets(p, false, f) then [RevisionFor(p, c)] else []);
    }
  }

  /** Whether a log entry raises depends on the document alone. */
  lemma {:induction false} PathsEffectErrorFixed(a: Arena, b: Arena, ps: seq<Element>, c: Commit)
    ensures PathsEffect(a, ps, c).error == PathsEffect(b, ps, c).error
    decreases |ps|
  {
    if ps != [] {
      PathsEffectErrorFixed(a, b, ps[..|ps| - 1], c);
    }
  }

  /** The revisions one log entry sends to the entry `key`. */
  function EntryRevisions(logEntry: Element, isDir: bool, key: string): seq<Revision>
  {
    if "revision" !in logEntry.attrib then []
    else
      match CommitOf(logEntry, logEntry.attrib["revision"])
      case Failure(_) => []
      case Success(c) => PathsFor(IterTag(logEntry, "path"), isDir, key, c)
  }

  /** Every revision a log entry sends to `key` comes from one of its paths
      designating `key`, and carries the entry's number, date, author and
      message. */
  lemma EntryRevisionsFields(logEntry: Element, isDir: bool, key: string, rev: Revision)
    requires rev in EntryRevisions(logEntry, isDir, key)
    ensures "revision" in logEntry.attrib && rev.revision == logEntry.attrib["revision"]
    ensures rev.name == key
    ensures var es := Iter(logEntry);
      LastTextIs(es, "date", rev.date) && LastTextIs(es, "author", rev.author) && LastTextIs(es, "msg", rev.msg)
  {
    var c := CommitOf(logEntry, logEntry.attrib["revision"]).value;
    var i :| 0 <= i < |IterTag(logEntry, "path")| && Targets(IterTag(logEntry, "path")[i], isDir, key)
             && rev == RevisionFor(IterTag(logEntry, "path")[i], c);
  }

  /** A log entry that does not raise appends to each directory exactly the
      revisions of its 'dir' paths naming that directory. */
  lemma LogEntryDirectory(a: Arena, logEntry: Element, d: string)
    requires d in a.directories.entries && LogEntryEffect(a, logEntry).error.None?
    ensures d in LogEntryEffect(a, logEntry).arena.directories.entries
    ensures LogEntryEffect(a, logEntry).arena.directories.entries[d].versions
         == a.directories.entries[d].versions + EntryRevisions(logEntry, true, d)
  {
    var paths := IterTag(logEntry, "path");
    if paths == [] {
      var c := CommitOf(logEntry, logEntry.attrib["revision"]);
      assert c.Success? ==> PathsFor(paths, true, d, c.value) == [];
    } else {
      PathsEffectDirectory(a, paths, CommitOf(logEntry, logEntry.attrib["revision"]).value, d);
    }
  }

  /** A log entry that does not raise appends to each file exactly the
      revisions of its other paths naming that file. */
  lemma LogEntryFile(a: Arena, logEntry: Element, f: string)
    requires f in a.files.entries && LogEntryEffect(a, logEntry).error.None?
    ensures f in LogEntryEffect(a, logEntry).arena.files.entries
    ensures LogEntryEffect(a, logEntry).arena.files.entries[f].versions
         == a.files.entries[f].versions + EntryRevisions(logEntry, false, f)
  {
    var paths := IterTag(logEntry, "path");
    if paths == [] {
      var c := CommitOf(logEntry, logEntry.attrib["revision"]);
      assert c.Success? ==> PathsFor(paths, false, f, c.value) == [];
    } else {
      PathsEffectFile(a, paths, CommitOf(logEntry, logEntry.attrib["revision"]).value, f);
    }
  }

  /** Whether a log entry raises depends on the document alone. */
  lemma LogEntryErrorFixed(a: Arena, b: Arena, logEntry: Element)
    ensures LogEntryEffect(a, logEntry).error == LogEntryEffect(b, logEntry).error
  {
    if "revision" in logEntry.attrib && IterTag(logEntry, "path") != [] {
      var c := CommitOf(logEntry, logEntry.attrib["revision"]);
      if c.Success? {
        PathsEffectErrorFixed(a, b, IterTag(logEntry, "path"), c.value);
      }
    }
  }

  /** Log ingestion does not de-duplicate: the same log entry applied twice
      appends its revisions twice, where `assign_revisions` would not. */
  lemma LogEntryTwice(a: Arena, logEntry: Element, d: string)
    requires d in a.directories.entries && LogEntryEffect(a, logEntry).error.None?
    ensures var b := LogEntryEffect(a, logEntry).arena;
      var r := EntryRevisions(logEntry, true, d);
      && LogEntryEffect(b, logEntry).error.None?
      && d in LogEntryEffect(b, logEntry).arena.directories.entries
      && LogEntryEffect(b, logEntry).arena.directories.entries[d].versions == a.directories.entries[d].versions + r + r
  {
    var b := LogEntryEffect(a, logEntry).arena;
    LogEntryDirectory(a, logEntry, d);
    LogEntryErrorFixed(a, b, logEntry);
    LogEntryDirectory(b, logEntry, d);
  }

  /** The revisions the log entries `les` send to the entry `key`, in log
      order. */
  function LogRevisions(les: seq<Element>, isDir: bool, key: string): seq<Revision>
    decreases |les|
  {
    if les == [] then []
    else LogRevisions(les[..|les| - 1], isDir, key) + EntryRevisions(les[|les| - 1], isDir, key)
  }

  /** A log that does not raise appends to each directory the revisions of its
      entries in document order. */
  lemma {:induction false} LogEffectDirectory(a: Arena, les: seq<Element>, d: string)
    requires d in a.directories.entries && LogEffect(a, les).error.None?
    ensures d in LogEffect(a, les).arena.directories.entries
    ensures LogEffect(a, les).arena.directories.entries[d].versions
         == a.directories.entries[d].versions + LogRevisions(les, true, d)
    decreases |les|
  {
    if les != [] {
      var init := les[..|les| - 1];
      var o := LogEffect(a, init);
      LogEffectDirectory(a, init, d);
      LogEntryDirectory(o.arena, les[|les| - 1], d);
      AppendAssoc(a.directories.entries[d].versions, LogRevisions(init, true, d), EntryRevisions(les[|les| - 1], true, d));
    }
  }

  /** A log that does not raise appends to each file the revisions of its
      entries in document order. */
  lemma {:induction false} LogEffectFile(a: Arena, les: seq<Element>, f: string)
    requires f in a.files.entries && LogEffect(a, les).error.None?
    ensures f in LogEffect(a, les).arena.files.entries
    ensures LogEffect(a, les).arena.files.entries[f].versions
         == a.files.entries[f].versions + LogRevisions(les, false, f)
    decreases |les|
  {
    if les != [] {
      var init := les[..|les| - 1];
      var o := LogEffect(a, init);
      LogEffectFile(a, init, f);
      LogEntryFile(o.arena, les[|les| - 1], f);
      AppendAssoc(a.files.entries[f].versions, LogRevisions(init, false, f), EntryRevisions(les[|les| - 1], false, f));
    }
  }
}
