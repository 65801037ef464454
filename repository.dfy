/** The `Repository` object: the two entry dicts, the sorted top-level
    assignment directories, and the methods that link and fill them. */
module Repositories {
  import opened Wrappers
  import opened Strings
  import opened Revisions
  import opened Entries
  import opened Dicts
  import opened Arenas
  import opened AssignmentLists
  import opened Links
  import opened Merging
  import opened LogParsing

  class Repository {
    var directories: Dict<Directory>
    var files: Dict<File>
    /** The keys of the top-level assignment directories, sorted by name. */
    var assignments: seq<string>

    ghost predicate Valid()
      reads this
    {
      ArenaValid(Arena(directories, files))
    }

    /** `Repository(directories, files)`: store both dicts, compute the
        assignments, then link the tree. */
    constructor (directories: Dict<Directory>, files: Dict<File>)
      requires ArenaValid(Arena(directories, files))
      ensures Valid()
      ensures assignments == Assignments(directories)
      ensures Arena(this.directories, this.files) == Linked(Arena(directories, files))
    {
      this.directories := directories;
      this.files := files;
      this.assignments := [];
      new;
      assignments := GetAssignments();
      SetParentsAndChildren();
    }

    /** `get_assignments()`: exactly the directory keys containing 'Assignment'
        and no '/', each once, sorted ascending by name. */
    method GetAssignments() returns (r: seq<string>)
      requires Valid()
      ensures r == Assignments(directories)
      ensures forall k :: k in r <==> k in directories.entries && IsAssignment(k)
      ensures Distinct(r)
      ensures SortedByName(r, directories.entries)
    {
      var keys := directories.order;
      var found := [];
      var i := 0;
      while i < |keys|
        invariant 0 <= i <= |keys|
        invariant found == AssignmentKeys(keys[..i])
      {
        var k := keys[i];
        assert keys[..i + 1] == keys[..i] + [k];
        if Contains(k, "Assignment") && '/' !in k {
          found := found + [k];
        }
        i := i + 1;
      }
      assert keys[..i] == keys;
      r := SortByName(found, directories.entries);
      assert Distinct(found);
      DistinctByMultiset(found);
      DistinctByMultiset(r);
      assert forall k :: k in r <==> k in multiset(r);
      assert forall k :: k in found <==> k in multiset(found);
    }

    /** `set_parents_and_children()`: first every file, then every directory
        with a '/', is linked to the directory its path truncated at the last
        '/' names, when that directory exists. */
    method SetParentsAndChildren()
      requires Valid()
      modifies this
      ensures Valid()
      ensures Arena(directories, files) == Linked(old(Arena(directories, files)))
      ensures assignments == old(assignments)
    {
      ghost var a0 := Arena(directories, files);
      LinkFiles();
      FilesLinkedShape(a0, |a0.files.order|);
      LinkDirectories();
      TwoPasses(a0);
      LinkedValid(a0);
    }

    /** The first loop of `set_parents_and_children`, over the files. */
    method LinkFiles()
      requires files.Valid() && forall f :: f in files.entries ==> '/' in f
      modifies this
      ensures Arena(directories, files) == FilesLinked(old(Arena(directories, files)), |old(files.order)|)
      ensures assignments == old(assignments)
    {
      ghost var a0 := Arena(directories, files);
      var fileKeys := files.order;
      FilesLinkedStart(a0);
      var i := 0;
      while i < |fileKeys|
        invariant i <= |fileKeys| && Arena(directories, files) == FilesLinked(a0, i)
        invariant assignments == old(assignments)
      {
        assert fileKeys[i] in a0.files.entries;
        FilesLinkedTurn(a0, i);
        LinkFileToParent(fileKeys[i]);
        i := i + 1;
      }
    }

    /** The second loop of `set_parents_and_children`, over the directories. */
    method LinkDirectories()
      requires directories.Valid()
      modifies this
      ensures Arena(directories, files) == DirsLinked(old(Arena(directories, files)), |old(directories.order)|)
      ensures assignments == old(assignments)
    {
      ghost var b0 := Arena(directories, files);
      var dirKeys := directories.order;
      DirsLinkedStart(b0);
      var j := 0;
      while j < |dirKeys|
        invariant j <= |dirKeys| && Arena(directories, files) == DirsLinked(b0, j)
        invariant assignments == old(assignments)
      {
        DirsLinkedTurn(b0, j);
        LinkDirectoryToParent(dirKeys[j]);
        j := j + 1;
      }
    }

    /** The body of the loop over the files: link file `f` to its directory. */
    method LinkFileToParent(f: string)
      requires '/' in f && f in files.entries
      modifies this
      ensures Arena(directories, files) == FileTurn(old(Arena(directories, files)), f)
      ensures assignments == old(assignments)
    {
      var parentDirName := ParentPath(f);
      if parentDirName in directories.entries {
        var e := files.entries[f];
        files := Dict(files.order, files.entries[f := e.(parent := Some(parentDirName),
                                                         parentName := Some(directories.entries[parentDirName].name))]);
        var pd := directories.entries[parentDirName];
        directories := Dict(directories.order, directories.entries[parentDirName := pd.(children := pd.children + [FileRef(f)])]);
      }
    }

    /** The body of the loop over the directories: link directory `d` to its
        parent directory, if its key has a '/'. */
    method LinkDirectoryToParent(d: string)
      requires d in directories.entries
      modifies this
      ensures Arena(directories, files) == DirTurn(old(Arena(directories, files)), d)
      ensures assignments == old(assignments)
    {
      if '/' in d {
        var parentDirName := ParentPath(d);
        if parentDirName in directories.entries {
          var e := directories.entries[d];
          directories := Dict(directories.order, directories.entries[d := e.(parent := Some(parentDirName),
                                                                              parentName := Some(directories.entries[parentDirName].name))]);
          var pd := directories.entries[parentDirName];
          directories := Dict(directories.order, directories.entries[parentDirName := pd.(children := pd.children + [DirRef(d)])]);
        }
      }
    }

    /** `entry_obj.versions.append(revision)` in `parse_log_entry`: the path's
        kind selects the dict, and a missing name drops the revision. */
    method AppendRevision(kind: string, revision: Revision)
      modifies this
      ensures Arena(directories, files) == AttachRevision(old(Arena(directories, files)), kind, revision)
      ensures assignments == old(assignments)
    {
      var name := revision.name;
      if kind == "dir" {
        if name in directories.entries {
          var e := directories.entries[name];
          directories := Dict(directories.order, directories.entries[name := e.(versions := e.versions + [revision])]);
        }
      } else {
        if name in files.entries {
          var e := files.entries[name];
          files := Dict(files.order, files.entries[name := e.(versions := e.versions + [revision])]);
        }
      }
    }

    /** `assign_revisions(revisions)`: each revision is appended to the
        directory and to the file with its name, unless that entry already has a
        version with its number; revisions with no matching key are dropped. */
    method AssignRevisions(revisions: seq<Revision>)
      requires Valid()
      modifies this
      ensures Valid()
      ensures Arena(directories, files) == Assigned(old(Arena(directories, files)), revisions)
      ensures assignments == old(assignments)
    {
      ghost var a0 := Arena(directories, files);
      AssignedStart(a0);
      var i := 0;
      while i < |revisions|
        invariant i <= |revisions| && Arena(directories, files) == Assigned(a0, revisions[..i])
        invariant assignments == old(assignments)
      {
        assert revisions[..i + 1] == revisions[..i] + [revisions[i]];
        AssignedTurn(a0, revisions[..i], revisions[i]);
        AssignRevision(revisions[i]);
        i := i + 1;
      }
      assert revisions[..i] == revisions;
      AssignedValid(a0, revisions);
    }

    /** The body of the loop of `assign_revisions`, for one revision. */
    method AssignRevision(revision: Revision)
      modifies this
      ensures Arena(directories, files) == AssignTurn(old(Arena(directories, files)), revision)
      ensures assignments == old(assignments)
    {
      if revision.name in directories.entries {
        var e := directories.entries[revision.name];
        if !HasNumber(e.versions, revision.revision) {
          directories := Dict(directories.order, directories.entries[revision.name := e.(versions := e.versions + [revision])]);
        } else {
          assert directories.entries == directories.entries[revision.name := e.(versions := MergeStep(e.versions, revision))];
        }
      }
      if revision.name in files.entries {
        var e := files.entries[revision.name];
        if revision !in e.versions && !HasNumber(e.versions, revision.revision) {
          files := Dict(files.order, files.entries[revision.name := e.(versions := e.versions + [revision])]);
        } else {
          if revision in e.versions {
            var k :| 0 <= k < |e.versions| && e.versions[k] == revision;
            assert HasNumber(e.versions, revision.revision);
          }
          assert files.entries == files.entries[revision.name := e.(versions := MergeStep(e.versions, revision))];
        }
      }
    }
  }
}
