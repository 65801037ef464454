/** What `parse_entry`, `parse_file_entry`, `parse_dir_entry` and
    `parse_xml_list` compute from the listing document, as functions of the
    element tree. */
module EntryParsing {
  import opened Wrappers
  import opened Xml
  import opened Entries
  import opened Dicts
  import opened Arenas

  /** The exceptions the parser raises, as values. */
  datatype ParseError =
    | MissingAttribute(tag: string, attribute: string)  // `KeyError` from `attrib[...]`
    | UnboundField(field: string)                        // `UnboundLocalError`: no element supplied it
    | NotAnEntry                                         // `AttributeError` on `None.name`
    | NoSlashInFileName(name: string)                    // `ValueError` from `rindex('/')`

  // ---------------------------------------------------------------------------
  // Reading fields: the last element with a tag wins

  /** `es[i]` is the last element of `es` tagged `tag`. */
  ghost predicate LastWith(es: seq<Element>, tag: string, i: int)
  {
    0 <= i < |es| && es[i].tag == tag && forall j :: i < j < |es| ==> es[j].tag != tag
  }

  /** Some element of `es` is tagged `tag`. */
  ghost predicate Has(es: seq<Element>, tag: string)
  {
    exists i :: 0 <= i < |es| && es[i].tag == tag
  }

  /** `v` is the text of the last element of `es` tagged `tag`. */
  ghost predicate LastTextIs(es: seq<Element>, tag: string, v: string)
  {
    exists i :: LastWith(es, tag, i) && es[i].text == v
  }

  /** The value a local variable holds after `for child in es: if child.tag ==
      tag: x = child.text`, or `None` when it was never bound. */
  function LastText(es: seq<Element>, tag: string): Option<string>
    decreases |es|
  {
    if es == [] then None
    else if es[|es| - 1].tag == tag then Some(es[|es| - 1].text)
    else LastText(es[..|es| - 1], tag)
  }

  /** `LastText` is the text of the last element with the tag. */
  lemma {:induction false} LastTextSpec(es: seq<Element>, tag: string)
    ensures LastText(es, tag).None? <==> !Has(es, tag)
    ensures LastText(es, tag).Some? ==> LastTextIs(es, tag, LastText(es, tag).value)
    decreases |es|
  {
    if es != [] {
      var init := es[..|es| - 1];
      assert forall i :: 0 <= i < |init| ==> init[i] == es[i];
      if es[|es| - 1].tag == tag {
        assert LastWith(es, tag, |es| - 1);
      } else {
        LastTextSpec(init, tag);
        var r := LastText(init, tag);
        if r.Some? {
          var i :| LastWith(init, tag, i) && init[i].text == r.value;
          assert LastWith(es, tag, i);
        }
      }
    }
  }

  /** One more turn of the reading loop. */
  lemma LastTextStep(es: seq<Element>, i: nat, tag: string)
    requires i < |es|
    ensures LastText(es[..i + 1], tag) == if es[i].tag == tag then Some(es[i].text) else LastText(es[..i], tag)
  {
    assert es[..i + 1][..i] == es[..i];
  }

  /** A `commit` element without a `revision` attribute. */
  predicate BadCommit(e: Element)
  {
    e.tag == "commit" && "revision" !in e.attrib
  }

  ghost predicate NoBadCommit(es: seq<Element>)
  {
    forall i :: 0 <= i < |es| ==> !BadCommit(es[i])
  }

  /** `v` is the `revision` attribute of the last `commit` element of `es`. */
  ghost predicate LastRevisionIs(es: seq<Element>, v: string)
  {
    exists i :: LastWith(es, "commit", i) && "revision" in es[i].attrib && es[i].attrib["revision"] == v
  }

  /** The variable `revision` after `elif child.tag == 'commit': revision =
      child.attrib['revision']` has run over `es`: the attribute of the last
      `commit`, or the `KeyError` of a `commit` without one. */
  function LastRevision(es: seq<Element>): (r: Result<Option<string>, ParseError>)
    ensures r.Failure? ==> r.error == MissingAttribute("commit", "revision")
    decreases |es|
  {
    if es == [] then Success(None)
    else
      var prev := LastRevision(es[..|es| - 1]);
      var last := es[|es| - 1];
      if prev.Failure? then prev
      else if last.tag != "commit" then prev
      else if "revision" in last.attrib then Success(Some(last.attrib["revision"]))
      else Failure(MissingAttribute("commit", "revision"))
  }

  /** `LastRevision` fails exactly on a `commit` without a `revision`, and
      otherwise reads the last `commit`. */
  lemma {:induction false} LastRevisionSpec(es: seq<Element>)
    ensures LastRevision(es).Failure? <==> !NoBadCommit(es)
    ensures LastRevision(es).Success? ==> (LastRevision(es).value.None? <==> !Has(es, "commit"))
    ensures LastRevision(es).Success? && LastRevision(es).value.Some? ==> LastRevisionIs(es, LastRevision(es).value.value)
    decreases |es|
  {
    if es != [] {
      var init := es[..|es| - 1];
      var last := es[|es| - 1];
      assert forall i :: 0 <= i < |init| ==> init[i] == es[i];
      LastRevisionSpec(init);
      var prev := LastRevision(init);
      if prev.Success? && last.tag == "commit" && "revision" in last.attrib {
        assert LastWith(es, "commit", |es| - 1);
      } else if prev.Success? && last.tag != "commit" && prev.value.Some? {
        var i :| LastWith(init, "commit", i) && "revision" in init[i].attrib && init[i].attrib["revision"] == prev.value.value;
        assert LastWith(es, "commit", i);
      }
      if prev.Success? && BadCommit(last) {
        assert BadCommit(es[|es| - 1]);
      }
    }
  }

  /** One more turn of the reading loop. */
  lemma LastRevisionStep(es: seq<Element>, i: nat)
    requires i < |es|
    ensures LastRevision(es[..i + 1]) == (
      var prev := LastRevision(es[..i]);
      if prev.Failure? || es[i].tag != "commit" then prev
      else if "revision" in es[i].attrib then Success(Some(es[i].attrib["revision"]))
      else Failure(MissingAttribute("commit", "revision")))
  {
    assert es[..i + 1][..i] == es[..i];
  }

  // ---------------------------------------------------------------------------
  // One listing entry

  /** `parse_file_entry(entry)`: read every field over `entry.iter()`, then
      call `File(name, revision, date, author, size)`, whose arguments are
      read in that order. */
  function FileFromEntry(entry: Element): (r: Result<File, ParseError>)
    ensures var es := Iter(entry);
      r.Success? <==> NoBadCommit(es) && Has(es, "name") && Has(es, "commit") && Has(es, "date")
                      && Has(es, "author") && Has(es, "size")
    ensures var es := Iter(entry);
      r.Success? ==> && LastTextIs(es, "name", r.value.name) && LastRevisionIs(es, r.value.revision)
                     && LastTextIs(es, "date", r.value.date) && LastTextIs(es, "author", r.value.author)
                     && LastTextIs(es, "size", r.value.size)
                     && r.value == NewFile(r.value.name, r.value.revision, r.value.date, r.value.author, r.value.size)
    ensures !NoBadCommit(Iter(entry)) ==> r == Failure(MissingAttribute("commit", "revision"))
    ensures NoBadCommit(Iter(entry)) && !Has(Iter(entry), "name") ==> r == Failure(UnboundField("name"))
    ensures var es := Iter(entry);
      NoBadCommit(es) && Has(es, "name") && !Has(es, "commit") ==> r == Failure(UnboundField("revision"))
    ensures var es := Iter(entry);
      NoBadCommit(es) && Has(es, "name") && Has(es, "commit") && !Has(es, "date")
      ==> r == Failure(UnboundField("date"))
    ensures var es := Iter(entry);
      NoBadCommit(es) && Has(es, "name") && Has(es, "commit") && Has(es, "date") && !Has(es, "author")
      ==> r == Failure(UnboundField("author"))
    ensures var es := Iter(entry);
      NoBadCommit(es) && Has(es, "name") && Has(es, "commit") && Has(es, "date") && Has(es, "author")
      && !Has(es, "size")
      ==> r == Failure(UnboundField("size"))
  {
    var es := Iter(entry);
    LastRevisionSpec(es);
    LastTextSpec(es, "name");
    LastTextSpec(es, "date");
    LastTextSpec(es, "author");
    LastTextSpec(es, "size");
    match LastRevision(es)
    case Failure(err) => Failure(err)
    case Success(revision) =>
      var name := LastText(es, "name");
      var date := LastText(es, "date");
      var author := LastText(es, "author");
      var size := LastText(es, "size");
      if name.None? then Failure(UnboundField("name"))
      else if revision.None? then Failure(UnboundField("revision"))
      else if date.None? then Failure(UnboundField("date"))
      else if author.None? then Failure(UnboundField("author"))
      else if size.None? then Failure(UnboundField("size"))
      else Success(NewFile(name.value, revision.value, date.value, author.value, size.value))
  }

  /** `parse_dir_entry(entry)`: as for a file, without a size, then
      `Directory(name, revision, date, author)`. */
  function DirectoryFromEntry(entry: Element): (r: Result<Directory, ParseError>)
    ensures var es := Iter(entry);
      r.Success? <==> NoBadCommit(es) && Has(es, "name") && Has(es, "commit") && Has(es, "date")
                      && Has(es, "author")
    ensures var es := Iter(entry);
      r.Success? ==> && LastTextIs(es, "name", r.value.name) && LastRevisionIs(es, r.value.revision)
                     && LastTextIs(es, "date", r.value.date) && LastTextIs(es, "author", r.value.author)
                     && r.value == NewDirectory(r.value.name, r.value.revision, r.value.date, r.value.author)
    ensures !NoBadCommit(Iter(entry)) ==> r == Failure(MissingAttribute("commit", "revision"))
    ensures NoBadCommit(Iter(entry)) && !Has(Iter(entry), "name") ==> r == Failure(UnboundField("name"))
    ensures var es := Iter(entry);
      NoBadCommit(es) && Has(es, "name") && !Has(es, "commit") ==> r == Failure(UnboundField("revision"))
    ensures var es := Iter(entry);
      NoBadCommit(es) && Has(es, "name") && Has(es, "commit") && !Has(es, "date")
      ==> r == Failure(UnboundField("date"))
    ensures var es := Iter(entry);
      NoBadCommit(es) && Has(es, "name") && Has(es, "commit") && Has(es, "date") && !Has(es, "author")
      ==> r == Failure(UnboundField("author"))
  {
    var es := Iter(entry);
    LastRevisionSpec(es);
    LastTextSpec(es, "name");
    LastTextSpec(es, "date");
    LastTextSpec(es, "author");
    match LastRevision(es)
    case Failure(err) => Failure(err)
    case Success(revision) =>
      var name := LastText(es, "name");
      var date := LastText(es, "date");
      var author := LastText(es, "author");
      if name.None? then Failure(UnboundField("name"))
      else if revision.None? then Failure(UnboundField("revision"))
      else if date.None? then Failure(UnboundField("date"))
      else if author.None? then Failure(UnboundField("author"))
      else Success(NewDirectory(name.value, revision.value, date.value, author.value))
  }

  /** What `parse_entry` returns: a `Directory`, a `File`, or `None`. */
  datatype Parsed = ParsedDirectory(directory: Directory) | ParsedFile(file: File)

  /** `parse_entry(entry)`: kind 'dir' gives a directory, kind 'file' a file,
      any other kind `None`; no `kind` attribute raises `KeyError`. */
  function EntryFromElement(entry: Element): (r: Result<Option<Parsed>, ParseError>)
    ensures "kind" !in entry.attrib ==> r == Failure(MissingAttribute("entry", "kind"))
    ensures (r.Success? && r.value.Some? && r.value.value.ParsedDirectory?)
            <==> "kind" in entry.attrib && entry.attrib["kind"] == "dir" && DirectoryFromEntry(entry).Success?
    ensures (r.Success? && r.value.Some? && r.value.value.ParsedFile?)
            <==> "kind" in entry.attrib && entry.attrib["kind"] == "file" && FileFromEntry(entry).Success?
    ensures r == Success(None) <==> "kind" in entry.attrib && entry.attrib["kind"] != "dir" && entry.attrib["kind"] != "file"
    ensures r.Success? && r.value.Some? && r.value.value.ParsedDirectory?
            ==> r.value.value.directory == DirectoryFromEntry(entry).value
    ensures r.Success? && r.value.Some? && r.value.value.ParsedFile?
            ==> r.value.value.file == FileFromEntry(entry).value
    ensures "kind" in entry.attrib && entry.attrib["kind"] == "dir" && DirectoryFromEntry(entry).Failure?
            ==> r == Failure(DirectoryFromEntry(entry).error)
    ensures "kind" in entry.attrib && entry.attrib["kind"] == "file" && FileFromEntry(entry).Failure?
            ==> r == Failure(FileFromEntry(entry).error)
  {
    if "kind" !in entry.attrib then
      Failure(MissingAttribute("entry", "kind"))
    else if entry.attrib["kind"] == "dir" then
      match DirectoryFromEntry(entry)
      case Failure(err) => Failure(err)
      case Success(d) => Success(Some(ParsedDirectory(d)))
    else if entry.attrib["kind"] == "file" then
      match FileFromEntry(entry)
      case Failure(err) => Failure(err)
      case Success(f) => Success(Some(ParsedFile(f)))
    else
      Success(None)
  }

  /** A parse result as the constructors leave it: no history, no parent and
      no children. */
  predicate FreshParsed(p: Parsed)
  {
    match p
    case ParsedDirectory(d) => d.versions == [] && d.parent == None && d.children == []
    case ParsedFile(f) => f.versions == [] && f.parent == None && f.children == []
  }

  lemma EntryFresh(entry: Element)
    ensures var r := EntryFromElement(entry); r.Success? && r.value.Some? ==> FreshParsed(r.value.value)
  {
    if "kind" in entry.attrib && entry.attrib["kind"] == "dir" {
      var d := DirectoryFromEntry(entry);
    } else if "kind" in entry.attrib && entry.attrib["kind"] == "file" {
      var f := FileFromEntry(entry);
    }
  }

  // ---------------------------------------------------------------------------
  // The whole listing

  type EntryResult = Result<Option<Parsed>, ParseError>

  /** `parse_entry` applied to every element of `es`. */
  function ParseAll(es: seq<Element>): (r: seq<EntryResult>)
    ensures |r| == |es| && forall i :: 0 <= i < |es| ==> r[i] == EntryFromElement(es[i])
  {
    seq(|es|, i requires 0 <= i < |es| => EntryFromElement(es[i]))
  }

  /** As the constructors leave them, and each stored under its own name. */
  ghost predicate Untouched(a: Arena)
  {
    && (forall k :: k in a.directories.entries ==>
          a.directories.entries[k].name == k && FreshParsed(ParsedDirectory(a.directories.entries[k])))
    && (forall k :: k in a.files.entries ==>
          a.files.entries[k].name == k && FreshParsed(ParsedFile(a.files.entries[k])))
  }

  /** One turn of the loop of `parse_xml_list`: the result is stored under its
      name, a later one replacing an earlier one; `None` fails on `.name`. */
  function AddParsed(acc: Result<Arena, ParseError>, p: EntryResult): Result<Arena, ParseError>
  {
    match acc
    case Failure(err) => Failure(err)
    case Success(a) =>
      match p
      case Failure(err) => Failure(err)
      case Success(None) => Failure(NotAnEntry)
      case Success(Some(ParsedDirectory(d))) => Success(Arena(a.directories.Put(d.name, d), a.files))
      case Success(Some(ParsedFile(f))) => Success(Arena(a.directories, a.files.Put(f.name, f)))
  }

  /** The two dicts after the loop of `parse_xml_list` has run over entries
      parsed to `ps`; the first error stops the loop. */
  function Collect(ps: seq<EntryResult>): (r: Result<Arena, ParseError>)
    ensures r.Success? <==> forall i :: 0 <= i < |ps| ==> ps[i].Success? && ps[i].value.Some?
    decreases |ps|
  {
    if ps == [] then
      Success(Arena(Empty(), Empty()))
    else
      assert forall i :: 0 <= i < |ps| - 1 ==> ps[..|ps| - 1][i] == ps[i];
      AddParsed(Collect(ps[..|ps| - 1]), ps[|ps| - 1])
  }

  lemma CollectStep(ps: seq<EntryResult>, i: nat)
    requires i < |ps|
    ensures Collect(ps[..i + 1]) == AddParsed(Collect(ps[..i]), ps[i])
  {
    assert ps[..i + 1][..i] == ps[..i];
  }

  /** Every parse result in `ps` is fresh. */
  ghost predicate AllFresh(ps: seq<EntryResult>)
  {
    forall i :: 0 <= i < |ps| && ps[i].Success? && ps[i].value.Some? ==> FreshParsed(ps[i].value.value)
  }

  /** A successful listing has well-formed dicts of untouched entries. */
  lemma {:induction false} CollectShape(ps: seq<EntryResult>)
    requires Collect(ps).Success? && AllFresh(ps)
    ensures Collect(ps).value.directories.Valid() && Collect(ps).value.files.Valid()
    ensures Untouched(Collect(ps).value)
    decreases |ps|
  {
    if ps != [] {
      var init := ps[..|ps| - 1];
      assert forall i :: 0 <= i < |init| ==> init[i] == ps[i];
      CollectShape(init);
      var a := Collect(init).value;
      var p := ps[|ps| - 1].value.value;
      assert FreshParsed(p);
    }
  }

  /** `p` is a directory named `k`. */
  predicate NamesDirectory(p: EntryResult, k: string)
  {
    p.Success? && p.value.Some? && p.value.value.ParsedDirectory? && p.value.value.directory.name == k
  }

  /** `p` is a file named `k`. */
  predicate NamesFile(p: EntryResult, k: string)
  {
    p.Success? && p.value.Some? && p.value.value.ParsedFile? && p.value.value.file.name == k
  }

  /** `ps[i]` is the last directory named `k` in `ps`. */
  ghost predicate LastDirectoryAt(ps: seq<EntryResult>, k: string, i: int)
  {
    0 <= i < |ps| && NamesDirectory(ps[i], k) && forall j :: i < j < |ps| ==> !NamesDirectory(ps[j], k)
  }

  /** `ps[i]` is the last file named `k` in `ps`. */
  ghost predicate LastFileAt(ps: seq<EntryResult>, k: string, i: int)
  {
    0 <= i < |ps| && NamesFile(ps[i], k) && forall j :: i < j < |ps| ==> !NamesFile(ps[j], k)
  }

  /** A last parse result naming `k` is what the directories hold at `k`. */
  lemma CollectDirectoriesNamed(ps: seq<EntryResult>, k: string)
    requires ps != [] && Collect(ps).Success? && NamesDirectory(ps[|ps| - 1], k)
    ensures LastDirectoryAt(ps, k, |ps| - 1)
    ensures k in Collect(ps).value.directories.entries
    ensures Collect(ps).value.directories.entries[k] == ps[|ps| - 1].value.value.directory
  {
  }

  /** Past a parse result not naming `k`, the last one naming `k` is where it was. */
  lemma LastDirectoryAtShift(ps: seq<EntryResult>, k: string)
    requires ps != [] && !NamesDirectory(ps[|ps| - 1], k)
    ensures forall i :: LastDirectoryAt(ps, k, i) <==> LastDirectoryAt(ps[..|ps| - 1], k, i)
    ensures forall i :: 0 <= i < |ps| - 1 ==> ps[..|ps| - 1][i] == ps[i]
  {
  }

  /** One more parse result changes the directories only at its own name. */
  lemma CollectDirectoriesStep(ps: seq<EntryResult>, k: string)
    requires ps != [] && Collect(ps).Success? && !NamesDirectory(ps[|ps| - 1], k)
    ensures Collect(ps[..|ps| - 1]).Success?
    ensures var a := Collect(ps[..|ps| - 1]).value.directories.entries;
      var b := Collect(ps).value.directories.entries;
      (k in b <==> k in a) && (k in a ==> b[k] == a[k])
  {
  }

  /** The directories of a successful listing are exactly the names of the
      entries parsed to directories, each holding the last such entry. */
  lemma {:induction false} CollectDirectoriesLastWins(ps: seq<EntryResult>, k: string)
    requires Collect(ps).Success?
    ensures k in Collect(ps).value.directories.entries <==> exists i :: LastDirectoryAt(ps, k, i)
    ensures k in Collect(ps).value.directories.entries ==>
      exists i :: LastDirectoryAt(ps, k, i) && ps[i].value.value.directory == Collect(ps).value.directories.entries[k]
    decreases |ps|
  {
    if ps != [] {
      var init := ps[..|ps| - 1];
      CollectDirectoriesLastWins(init, k);
      var b := Collect(ps).value.directories.entries;
      if NamesDirectory(ps[|ps| - 1], k) {
        CollectDirectoriesNamed(ps, k);
        assert LastDirectoryAt(ps, k, |ps| - 1) && ps[|ps| - 1].value.value.directory == b[k];
      } else {
        CollectDirectoriesStep(ps, k);
        LastDirectoryAtShift(ps, k);
        if k in b {
          var i :| LastDirectoryAt(init, k, i) && init[i].value.value.directory == Collect(init).value.directories.entries[k];
          assert LastDirectoryAt(ps, k, i) && ps[i].value.value.directory == b[k];
        }
      }
    }
  }

  /** A last parse result naming `k` is what the files hold at `k`. */
  lemma CollectFilesNamed(ps: seq<EntryResult>, k: string)
    requires ps != [] && Collect(ps).Success? && NamesFile(ps[|ps| - 1], k)
    ensures LastFileAt(ps, k, |ps| - 1)
    ensures k in Collect(ps).value.files.entries
    ensures Collect(ps).value.files.entries[k] == ps[|ps| - 1].value.value.file
  {
  }

  /** Past a parse result not naming `k`, the last one naming `k` is where it was. */
  lemma LastFileAtShift(ps: seq<EntryResult>, k: string)
    requires ps != [] && !NamesFile(ps[|ps| - 1], k)
    ensures forall i :: LastFileAt(ps, k, i) <==> LastFileAt(ps[..|ps| - 1], k, i)
    ensures forall i :: 0 <= i < |ps| - 1 ==> ps[..|ps| - 1][i] == ps[i]
  {
  }

  /** One more parse result changes the files only at its own name. */
  lemma CollectFilesStep(ps: seq<EntryResult>, k: string)
    requires ps != [] && Collect(ps).Success? && !NamesFile(ps[|ps| - 1], k)
    ensures Collect(ps[..|ps| - 1]).Success?
    ensures var a := Collect(ps[..|ps| - 1]).value.files.entries;
      var b := Collect(ps).value.files.entries;
      (k in b <==> k in a) && (k in a ==> b[k] == a[k])
  {
  }

  /** The files of a successful listing are exactly the names of the entries
      parsed to files, each holding the last such entry. */
  lemma {:induction false} CollectFilesLastWins(ps: seq<EntryResult>, k: string)
    requires Collect(ps).Success?
    ensures k in Collect(ps).value.files.entries <==> exists i :: LastFileAt(ps, k, i)
    ensures k in Collect(ps).value.files.entries ==>
      exists i :: LastFileAt(ps, k, i) && ps[i].value.value.file == Collect(ps).value.files.entries[k]
    decreases |ps|
  {
    if ps != [] {
      var init := ps[..|ps| - 1];
      CollectFilesLastWins(init, k);
      var b := Collect(ps).value.files.entries;
      if NamesFile(ps[|ps| - 1], k) {
        CollectFilesNamed(ps, k);
        assert LastFileAt(ps, k, |ps| - 1) && ps[|ps| - 1].value.value.file == b[k];
      } else {
        CollectFilesStep(ps, k);
        LastFileAtShift(ps, k);
        if k in b {
          var i :| LastFileAt(init, k, i) && init[i].value.value.file == Collect(init).value.files.entries[k];
          assert LastFileAt(ps, k, i) && ps[i].value.value.file == b[k];
        }
      }
    }
  }

  /** The first key of `keys` without a '/', if there is one. */
  function FirstWithoutSlash(keys: seq<string>): (r: Option<string>)
    ensures r.None? <==> forall i :: 0 <= i < |keys| ==> '/' in keys[i]
    ensures r.Some? ==> exists i :: 0 <= i < |keys| && keys[i] == r.value && '/' !in r.value
                                    && forall j :: 0 <= j < i ==> '/' in keys[j]
    decreases |keys|
  {
    if keys == [] then None
    else if '/' !in keys[0] then
      Some(keys[0])
    else
      var r := FirstWithoutSlash(keys[1..]);
      assert forall i :: 0 < i < |keys| ==> keys[1..][i - 1] == keys[i];
      assert r.Some? ==> exists i :: 0 <= i < |keys| && keys[i] == r.value && '/' !in r.value
                                    && forall j :: 0 <= j < i ==> '/' in keys[j] by {
        if r.Some? {
          var i :| 0 <= i < |keys[1..]| && keys[1..][i] == r.value && '/' !in r.value
                   && forall j :: 0 <= j < i ==> '/' in keys[1..][j];
          assert keys[i + 1] == r.value;
          forall j | 0 <= j < i + 1 ensures '/' in keys[j] {
            if j > 0 {
              assert keys[j] == keys[1..][j - 1];
            }
          }
        }
      }
      r
  }

  /** The dicts `parse_xml_list` hands to `Repository(directories, files)`,
      together with the `ValueError` that constructor raises on a file key
      without '/'. */
  function Listing(root: Element): (r: Result<Arena, ParseError>)
    ensures r.Success? ==> ArenaValid(r.value) && Untouched(r.value)
    ensures r.Success? ==> r == Collect(ParseAll(IterTag(root, "entry")))
    ensures Collect(ParseAll(IterTag(root, "entry"))).Failure? ==> r == Collect(ParseAll(IterTag(root, "entry")))
  {
    var ps := ParseAll(IterTag(root, "entry"));
    match Collect(ps)
    case Failure(err) => Failure(err)
    case Success(a) =>
      forall i | 0 <= i < |ps| ensures ps[i].Success? && ps[i].value.Some? ==> FreshParsed(ps[i].value.value) {
        EntryFresh(IterTag(root, "entry")[i]);
      }
      CollectShape(ps);
      match FirstWithoutSlash(a.files.order)
      case Some(k) => Failure(NoSlashInFileName(k))
      case None =>
        assert forall f :: f in a.files.entries ==> '/' in f by {
          forall f | f in a.files.entries ensures '/' in f {
            var i :| 0 <= i < |a.files.order| && a.files.order[i] == f;
          }
        }
        Success(a)
  }

  /** `Listing` once the loop has succeeded. */
  lemma ListingOfCollect(root: Element, a: Arena)
    requires Collect(ParseAll(IterTag(root, "entry"))) == Success(a)
    ensures Listing(root) == match FirstWithoutSlash(a.files.order)
                             case Some(k) => Failure(NoSlashInFileName(k))
                             case None => Success(a)
  {
  }
}
