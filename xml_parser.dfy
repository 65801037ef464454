/** The `XMLParser` object: it holds the two parsed documents and, once the
    listing has been read, the repository the log is merged into. */
module XmlParsers {
  import opened Wrappers
  import opened Xml
  import opened Revisions
  import opened Entries
  import opened Dicts
  import opened Arenas
  import opened AssignmentLists
  import opened Links
  import opened EntryParsing
  import opened LogParsing
  import opened Repositories

  /** A failure of the listing loop on a prefix is the failure of the whole
      loop. */
  lemma {:induction false} CollectFailureStays(ps: seq<EntryResult>, n: nat)
    requires n <= |ps| && Collect(ps[..n]).Failure?
    ensures Collect(ps) == Collect(ps[..n])
    decreases |ps|
  {
    if n < |ps| {
      var init := ps[..|ps| - 1];
      assert init[..n] == ps[..n];
      CollectFailureStays(init, n);
    } else {
      assert ps[..n] == ps;
    }
  }

  /** One turn of the listing loop: an error ends the whole loop with it,
      anything else is added to the dicts. */
  lemma CollectTurn(ps: seq<EntryResult>, i: nat, a: Arena)
    requires i < |ps| && Collect(ps[..i]) == Success(a)
    ensures ps[i].Failure? ==> Collect(ps) == Failure(ps[i].error)
    ensures ps[i] == Success(None) ==> Collect(ps) == Failure(NotAnEntry)
    ensures Collect(ps[..i + 1]) == AddParsed(Success(a), ps[i])
  {
    CollectStep(ps, i);
    if Collect(ps[..i + 1]).Failure? {
      CollectFailureStays(ps, i + 1);
    }
  }

  /** A log entry that raises stops the whole log there. */
  lemma {:induction false} LogEffectFailureStays(a: Arena, les: seq<Element>, n: nat)
    requires n <= |les| && LogEffect(a, les[..n]).error.Some?
    ensures LogEffect(a, les) == LogEffect(a, les[..n])
    decreases |les|
  {
    if n < |les| {
      var init := les[..|les| - 1];
      assert init[..n] == les[..n];
      LogEffectFailureStays(a, init, n);
    } else {
      assert les[..n] == les;
    }
  }

  /** A path that raises stops the rest of its log entry. */
  lemma {:induction false} PathsFailureStays(a: Arena, ps: seq<Element>, n: nat, c: Commit)
    requires n <= |ps| && PathsEffect(a, ps[..n], c).error.Some?
    ensures PathsEffect(a, ps, c) == PathsEffect(a, ps[..n], c)
    decreases |ps|
  {
    if n < |ps| {
      var init := ps[..|ps| - 1];
      assert init[..n] == ps[..n];
      PathsFailureStays(a, init, n, c);
    } else {
      assert ps[..n] == ps;
    }
  }

  /** One more turn of the loop over the paths of a log entry. */
  lemma PathsStep(a: Arena, ps: seq<Element>, j: nat, c: Commit)
    requires j < |ps|
    ensures PathsEffect(a, ps[..j + 1], c) == (
      var o := PathsEffect(a, ps[..j], c);
      if o.error.Some? then o
      else if "kind" !in ps[j].attrib then Outcome(o.arena, Some(MissingAttribute("path", "kind")))
      else Outcome(AttachRevision(o.arena, ps[j].attrib["kind"], RevisionFor(ps[j], c)), None))
  {
    assert ps[..j + 1][..j] == ps[..j];
  }

  /** One more turn of the loop over the log entries. */
  lemma LogStep(a: Arena, les: seq<Element>, i: nat)
    requires i < |les|
    ensures LogEffect(a, les[..i + 1]) == (
      var o := LogEffect(a, les[..i]);
      if o.error.Some? then o else LogEntryEffect(o.arena, les[i]))
  {
    assert les[..i + 1][..i] == les[..i];
  }

  class XMLParser {
    /** The `svn list --xml` document. */
    const listFile: Element
    /** The `svn log --xml` document. */
    const logFile: Element
    /** `None` until `parse_subversion_xml` has read the listing. */
    var svnRepo: Repository?

    /** `XMLParser(list_file, log_file)`. */
    constructor (listFile: Element, logFile: Element)
      ensures this.listFile == listFile && this.logFile == logFile
      ensures svnRepo == null
    {
      this.listFile := listFile;
      this.logFile := logFile;
      svnRepo := null;
    }

    /** `parse_subversion_xml()`: the repository is built from the listing,
        links and assignments included, and only then is the log merged into
        it. A failing listing leaves `svn_repo` as it was; a failing log
        leaves it holding the partly merged repository. */
    method ParseSubversionXml() returns (r: Result<Repository, ParseError>)
      modifies this
      ensures Listing(listFile).Failure? ==> r == Failure(Listing(listFile).error) && svnRepo == old(svnRepo)
      ensures Listing(listFile).Success? ==>
        var o := LogEffect(Linked(Listing(listFile).value), IterTag(logFile, "logentry"));
        && svnRepo != null && fresh(svnRepo) && svnRepo.Valid()
        && Arena(svnRepo.directories, svnRepo.files) == o.arena
        && svnRepo.assignments == Assignments(Listing(listFile).value.directories)
        && r == (if o.error.None? then Success(svnRepo) else Failure(o.error.value))
    {
      var listed := ParseXmlList();
      if listed.Failure? {
        return Failure(listed.error);
      }
      svnRepo := listed.value;
      var err := ParseXmlLog();
      if err.Some? {
        return Failure(err.value);
      }
      return Success(svnRepo);
    }

    /** `parse_xml_list()`: every `entry` element of the listing, in document
        order, is parsed and stored under its name, then `Repository(...)` is
        built from the two dicts. */
    method ParseXmlList() returns (r: Result<Repository, ParseError>)
      ensures r.Failure? <==> Listing(listFile).Failure?
      ensures r.Failure? ==> r.error == Listing(listFile).error
      ensures r.Success? ==>
        && fresh(r.value) && r.value.Valid()
        && Arena(r.value.directories, r.value.files) == Linked(Listing(listFile).value)
        && r.value.assignments == Assignments(Listing(listFile).value.directories)
    {
      var collected := CollectEntries(IterTag(listFile, "entry"));
      if collected.Failure? {
        return Failure(collected.error);
      }
      var directories, files := collected.value.directories, collected.value.files;
      ListingOfCollect(listFile, Arena(directories, files));
      var missing := FirstWithoutSlash(files.order);
      if missing.Some? {
        return Failure(NoSlashInFileName(missing.value));
      }
      var repo := new Repository(directories, files);
      return Success(repo);
    }

    /** The loop of `parse_xml_list`: the two dicts after every entry has been
        parsed and stored under its name, or the exception that stopped it. */
    method CollectEntries(entries: seq<Element>) returns (r: Result<Arena, ParseError>)
      ensures r == Collect(ParseAll(entries))
    {
      ghost var ps := ParseAll(entries);
      var directories: Dict<Directory> := Empty();
      var files: Dict<File> := Empty();
      var i := 0;
      while i < |entries|
        invariant 0 <= i <= |entries|
        invariant Collect(ps[..i]) == Success(Arena(directories, files))
      {
        CollectTurn(ps, i, Arena(directories, files));
        var parsed := ParseEntry(entries[i]);
        if parsed.Failure? {
          return Failure(parsed.error);
        }
        var stored := StoreParsed(directories, files, parsed.value);
        if stored.Failure? {
          return stored;
        }
        directories, files := stored.value.directories, stored.value.files;
        i := i + 1;
      }
      assert ps[..i] == ps;
      return Success(Arena(directories, files));
    }

    /** The body of the loop of `parse_xml_list` after `parse_entry`: a
        Directory goes into `directories`, anything else into `files` under
        its name, and `None` fails reading `.name`. */
    method StoreParsed(directories: Dict<Directory>, files: Dict<File>, parsed: Option<Parsed>)
      returns (r: Result<Arena, ParseError>)
      ensures r == AddParsed(Success(Arena(directories, files)), Success(parsed))
    {
      match parsed {
        case None =>
          return Failure(NotAnEntry);
        case Some(ParsedDirectory(d)) =>
          return Success(Arena(directories.Put(d.name, d), files));
        case Some(ParsedFile(f)) =>
          return Success(Arena(directories, files.Put(f.name, f)));
      }
    }

    /** `parse_xml_log()`: every `logentry` element of the log, in document
        order, is merged into `svn_repo`. */
    method ParseXmlLog() returns (err: Option<ParseError>)
      requires svnRepo != null && svnRepo.Valid()
      modifies svnRepo
      ensures svnRepo.Valid() && svnRepo.assignments == old(svnRepo.assignments)
      ensures Outcome(Arena(svnRepo.directories, svnRepo.files), err)
           == LogEffect(old(Arena(svnRepo.directories, svnRepo.files)), IterTag(logFile, "logentry"))
    {
      var logEntries := IterTag(logFile, "logentry");
      ghost var a0 := Arena(svnRepo.directories, svnRepo.files);
      var i := 0;
      while i < |logEntries|
        invariant 0 <= i <= |logEntries|
        invariant LogEffect(a0, logEntries[..i]) == Outcome(Arena(svnRepo.directories, svnRepo.files), None)
        invariant svnRepo.Valid() && svnRepo.assignments == old(svnRepo.assignments)
      {
        LogStep(a0, logEntries, i);
        err := ParseLogEntry(logEntries[i]);
        if err.Some? {
          LogEffectFailureStays(a0, logEntries, i + 1);
          return;
        }
        i := i + 1;
      }
      assert logEntries[..i] == logEntries;
      return None;
    }

    /** `parse_log_entry(log_entry)`: one revision per `path`, carrying the
        entry's number, date, author and message, appended to the directory
        (kind 'dir') or file (any other kind) of that name, if there is one. */
    method ParseLogEntry(logEntry: Element) returns (err: Option<ParseError>)
      requires svnRepo != null && svnRepo.Valid()
      modifies svnRepo
      ensures svnRepo.Valid() && svnRepo.assignments == old(svnRepo.assignments)
      ensures Outcome(Arena(svnRepo.directories, svnRepo.files), err)
           == LogEntryEffect(old(Arena(svnRepo.directories, svnRepo.files)), logEntry)
    {
      ghost var a0 := Arena(svnRepo.directories, svnRepo.files);
      LogEntryExtends(a0, logEntry);
      VersionsOnlyValid(a0, LogEntryEffect(a0, logEntry).arena);
      if "revision" !in logEntry.attrib {
        return Some(MissingAttribute("logentry", "revision"));
      }
      var revisionNum := logEntry.attrib["revision"];
      var author, date, msg := ReadCommitFields(logEntry);
      err := AttachPaths(IterTag(logEntry, "path"), date, author, msg, revisionNum);
    }

    /** The loop over `log_entry.iter()` of `parse_log_entry`: the last author,
        date and message text seen, or none when the tag never occurs. */
    method ReadCommitFields(logEntry: Element) returns (author: Option<string>, date: Option<string>, msg: Option<string>)
      ensures author == LastText(Iter(logEntry), "author")
      ensures date == LastText(Iter(logEntry), "date")
      ensures msg == LastText(Iter(logEntry), "msg")
    {
      var children := Iter(logEntry);
      author, date, msg := None, None, None;
      var i := 0;
      while i < |children|
        invariant 0 <= i <= |children|
        invariant author == LastText(children[..i], "author") && date == LastText(children[..i], "date")
        invariant msg == LastText(children[..i], "msg")
      {
        var child := children[i];
        LastTextStep(children, i, "author");
        LastTextStep(children, i, "date");
        LastTextStep(children, i, "msg");
        if child.tag == "author" {
          author := Some(child.text);
        } else if child.tag == "date" {
          date := Some(child.text);
        } else if child.tag == "msg" {
          msg := Some(child.text);
        }
        i := i + 1;
      }
      assert children[..i] == children;
    }

    /** The loop over `log_entry.iter('path')` of `parse_log_entry`: every
        turn builds the revision (raising on an unbound field), then looks
        up the path's kind (raising when it is missing) and appends. */
    method AttachPaths(paths: seq<Element>, date: Option<string>, author: Option<string>, msg: Option<string>, number: string)
      returns (err: Option<ParseError>)
      requires svnRepo != null
      modifies svnRepo
      ensures svnRepo.assignments == old(svnRepo.assignments)
      ensures paths == [] ==> err == None && Arena(svnRepo.directories, svnRepo.files) == old(Arena(svnRepo.directories, svnRepo.files))
      ensures paths != [] ==>
        Outcome(Arena(svnRepo.directories, svnRepo.files), err) ==
          match CommitFrom(date, author, msg, number)
          case Failure(e) => Outcome(old(Arena(svnRepo.directories, svnRepo.files)), Some(e))
          case Success(c) => PathsEffect(old(Arena(svnRepo.directories, svnRepo.files)), paths, c)
    {
      ghost var a0 := Arena(svnRepo.directories, svnRepo.files);
      ghost var commit := CommitFrom(date, author, msg, number);
      var j := 0;
      while j < |paths|
        invariant 0 <= j <= |paths|
        invariant commit.Failure? ==> j == 0
        invariant svnRepo.assignments == old(svnRepo.assignments)
        invariant j == 0 ==> Arena(svnRepo.directories, svnRepo.files) == a0
        invariant commit.Success? ==> PathsEffect(a0, paths[..j], commit.value) == Outcome(Arena(svnRepo.directories, svnRepo.files), None)
      {
        var path := paths[j];
        var name := StripPrefix(path.text);
        if date.None? {
          return Some(UnboundField("date"));
        }
        if author.None? {
          return Some(UnboundField("author"));
        }
        if msg.None? {
          return Some(UnboundField("msg"));
        }
        var revision := Revision(name, date.value, author.value, msg.value, number);
        PathsStep(a0, paths, j, commit.value);
        if "kind" !in path.attrib {
          PathsFailureStays(a0, paths, j + 1, commit.value);
          return Some(MissingAttribute("path", "kind"));
        }
        svnRepo.AppendRevision(path.attrib["kind"], revision);
        j := j + 1;
      }
      assert paths[..j] == paths;
      return None;
    }

    /** `parse_entry(entry)`. */
    method ParseEntry(entry: Element) returns (r: Result<Option<Parsed>, ParseError>)
      ensures r == EntryFromElement(entry)
    {
      if "kind" !in entry.attrib {
        return Failure(MissingAttribute("entry", "kind"));
      }
      if entry.attrib["kind"] == "dir" {
        var d := ParseDirEntry(entry);
        if d.Failure? {
          return Failure(d.error);
        }
        return Success(Some(ParsedDirectory(d.value)));
      } else if entry.attrib["kind"] == "file" {
        var f := ParseFileEntry(entry);
        if f.Failure? {
          return Failure(f.error);
        }
        return Success(Some(ParsedFile(f.value)));
      }
      return Success(None);
    }

    /** `parse_file_entry(entry)`: one pass over `entry.iter()`, the last
        element with each tag supplying that field. */
    method ParseFileEntry(entry: Element) returns (r: Result<File, ParseError>)
      ensures r == FileFromEntry(entry)
    {
      var children := Iter(entry);
      var name: Option<string> := None;
      var revision: Option<string> := None;
      var author: Option<string> := None;
      var date: Option<string> := None;
      var size: Option<string> := None;
      var i := 0;
      while i < |children|
        invariant 0 <= i <= |children|
        invariant name == LastText(children[..i], "name") && author == LastText(children[..i], "author")
        invariant date == LastText(children[..i], "date") && size == LastText(children[..i], "size")
        invariant LastRevision(children[..i]) == Success(revision)
      {
        var child := children[i];
        LastTextStep(children, i, "name");
        LastTextStep(children, i, "author");
        LastTextStep(children, i, "date");
        LastTextStep(children, i, "size");
        LastRevisionStep(children, i);
        if child.tag == "name" {
          name := Some(child.text);
        } else if child.tag == "commit" {
          if "revision" !in child.attrib {
            assert BadCommit(children[i]);
            return Failure(MissingAttribute("commit", "revision"));
          }
          revision := Some(child.attrib["revision"]);
        } else if child.tag == "author" {
          author := Some(child.text);
        } else if child.tag == "date" {
          date := Some(child.text);
        } else if child.tag == "size" {
          size := Some(child.text);
        }
        i := i + 1;
      }
      assert children[..i] == children;
      if name.None? {
        return Failure(UnboundField("name"));
      }
      if revision.None? {
        return Failure(UnboundField("revision"));
      }
      if date.None? {
        return Failure(UnboundField("date"));
      }
      if author.None? {
        return Failure(UnboundField("author"));
      }
      if size.None? {
        return Failure(UnboundField("size"));
      }
      return Success(NewFile(name.value, revision.value, date.value, author.value, size.value));
    }

    /** `parse_dir_entry(entry)`: as for a file, without a size. */
    method ParseDirEntry(entry: Element) returns (r: Result<Directory, ParseError>)
      ensures r == DirectoryFromEntry(entry)
    {
      var children := Iter(entry);
      var name: Option<string> := None;
      var revision: Option<string> := None;
      var author: Option<string> := None;
      var date: Option<string> := None;
      var i := 0;
      while i < |children|
        invariant 0 <= i <= |children|
        invariant name == LastText(children[..i], "name") && author == LastText(children[..i], "author")
        invariant date == LastText(children[..i], "date")
        invariant LastRevision(children[..i]) == Success(revision)
      {
        var child := children[i];
        LastTextStep(children, i, "name");
        LastTextStep(children, i, "author");
        LastTextStep(children, i, "date");
        LastRevisionStep(children, i);
        if child.tag == "name" {
          name := Some(child.text);
        } else if child.tag == "commit" {
          if "revision" !in child.attrib {
            assert BadCommit(children[i]);
            return Failure(MissingAttribute("commit", "revision"));
          }
          revision := Some(child.attrib["revision"]);
        } else if child.tag == "author" {
          author := Some(child.text);
        } else if child.tag == "date" {
          date := Some(child.text);
        }
        i := i + 1;
      }
      assert children[..i] == children;
      if name.None? {
        return Failure(UnboundField("name"));
      }
      if revision.None? {
        return Failure(UnboundField("revision"));
      }
      if date.None? {
        return Failure(UnboundField("date"));
      }
      if author.None? {
        return Failure(UnboundField("author"));
      }
      return Success(NewDirectory(name.value, revision.value, date.value, author.value));
    }
  }
}
