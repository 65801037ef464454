# SVN portfolio ingestion — a Dafny model

This project models the core of a portfolio site that rebuilds a Subversion
repository's tree and history from two XML exports:

- the output of `svn list --xml` becomes a `Directory` or `File` entry per `<entry>`;
- the output of `svn log --xml` becomes `Revision` records attached to those entries.

In between, a `Repository` object does three things:

- picks out the top-level "Assignment" directories, sorted by name;
- links every entry to the directory its path names up to the last `/`;
- can merge further revisions without duplicating revision numbers.

How things are represented:

- **Element tree.** The XML is given as an element tree (`Xml.Element`: tag, attributes, text, children). `Xml.Iter` is ElementTree's pre-order `iter()`. `Xml.IterTag` is `iter(tag)`.
- **Arena.** Entries live in an arena (`Arenas.Arena`) of two insertion-ordered dictionaries (`Dicts.Dict`: the map plus its key order, which is Python's `keys()` order).
  - A parent is stored as the parent directory's key.
  - Children are stored as a sequence of `FileRef`/`DirRef` keys, in the order they were appended.
- **Repository class.** `Repositories.Repository` is a class whose fields `directories`, `files` and `assignments` are reassigned by its methods.
- **Parser class.** `XmlParsers.XMLParser` is a class holding the two documents and the `svnRepo` field it fills in.
- **Reference functions.** Every `for` loop of the source is a `while` loop in a method. Each method is proved equal to a closed-form function of its input: `Links.Linked`, `Merging.Assigned`, `EntryParsing.Listing`, `LogParsing.LogEffect`, `Entries.DirLatest`. The properties the source promises are lemmas about those functions.
- **Exceptions.** An exception the source raises is a `ParseError` or `HistoryError` value in a `Result`/`Outcome`:
  - `KeyError` on a missing attribute;
  - `UnboundLocalError` for a field that was never seen;
  - `IndexError` on an empty history.
- **Dates and revision numbers.** Both are strings, compared as Python compares strings: lexicographically by code point (`Strings.Less`).

## Model

| member | source | states |
|---|---|---|
| Entries.NewDirectory | lstrait2/Assignment3.1/Assignment3.1/app/model/portfolio/entries.py:58-73 | a new directory stores name, revision, date and author unchanged, with summary "", no versions, no children and no parent |
| Entries.NewFile | lstrait2/Assignment3.1/Assignment3.1/app/model/portfolio/entries.py:120-137 | a new file stores name, revision, date, author and size unchanged, with summary "", no versions, no children and no parent |
| Entries.LatestIndex | lstrait2/Assignment3.1/Assignment3.1/app/model/portfolio/entries.py:81 | the position of `sorted(versions, key=date)[-1]`: a version with a greatest date, after which only strictly earlier dates were appended (stable sort, last of ties) |
| Entries.LatestIsUnique | lstrait2/Assignment3.1/Assignment3.1/app/model/portfolio/entries.py:81 | only one position has that property, so the choice among equal dates is determined |
| Entries.LatestStep | lstrait2/Assignment3.1/Assignment3.1/app/model/portfolio/entries.py:147 | appending a version makes it the latest exactly when its date is not smaller than the previous latest's |
| Entries.FileLastCommit | lstrait2/Assignment3.1/Assignment3.1/app/model/portfolio/entries.py:139-147 | None exactly when the file has no versions; otherwise the version at the latest position |
| Entries.FileSummary | lstrait2/Assignment3.1/Assignment3.1/app/model/portfolio/entries.py:172-177 | the message of the file's latest version; a file without versions fails (the source's attribute access on None) |
| Entries.FileName | lstrait2/Assignment3.1/Assignment3.1/app/model/portfolio/entries.py:149-156 | the whole name when it has no '/', otherwise exactly the text after the last '/'; never contains '/' |
| Entries.DirectoryName | lstrait2/Assignment3.1/Assignment3.1/app/model/portfolio/entries.py:91-96 | fails (`ValueError` of `rindex`) exactly when the name has no '/'; otherwise the text after the last '/' followed by '/' |
| Entries.FileType | lstrait2/Assignment3.1/Assignment3.1/app/model/portfolio/entries.py:158-170 | one of the four labels, and each label exactly when its substring test holds and no earlier test does |
| Entries.DirectoryLastCommit | lstrait2/Assignment3.1/Assignment3.1/app/model/portfolio/entries.py:75-89 | the looping, recursive method equals `DirLatest`; an empty own history fails, here or in any child directory |
| Entries.ChildLastCommit | lstrait2/Assignment3.1/Assignment3.1/app/model/portfolio/entries.py:85 | `child.get_last_commit()`: a file child's latest version or none, a directory child's last commit or its error |
| Entries.KidsFailureStays | lstrait2/Assignment3.1/Assignment3.1/app/model/portfolio/entries.py:84-85 | once a child directory's last commit fails, the whole walk fails with that error |
| Entries.KidsLatestStep | lstrait2/Assignment3.1/Assignment3.1/app/model/portfolio/entries.py:84-88 | one turn of the loop over the children: a failing child ends the walk with its error; otherwise a child's commit replaces the current one only when its date is strictly later |
| Entries.KidsLatestFacts | lstrait2/Assignment3.1/Assignment3.1/app/model/portfolio/entries.py:83-88 | after n children the current commit is at least as late as the own latest version and as every visited child's commit, and is either the own version or a strictly later child commit |
| Entries.DirLatestIsLatest | lstrait2/Assignment3.1/Assignment3.1/app/model/portfolio/entries.py:75-89 | a directory's last commit is at least as late as each of its versions and as each child's last commit |
| Entries.DirLatestKeepsOwn | lstrait2/Assignment3.1/Assignment3.1/app/model/portfolio/entries.py:83-89 | the own latest version is kept exactly when no child's last commit is strictly later (ties keep it) |
| Entries.DirectorySummary | lstrait2/Assignment3.1/Assignment3.1/app/model/portfolio/entries.py:98-103 | the message of the directory's last commit, failing exactly when finding that commit fails |
| Strings.Contains | model/portfolio/repository.py:29 | Python's `sub in s`: true exactly when `sub` occurs at some position |
| Strings.LastSlash | model/portfolio/repository.py:44 | `rindex('/')`: a position holding '/', after which no '/' occurs |
| Strings.LessTotal | lstrait2/Assignment3.1/Assignment3.1/app/model/portfolio/entries.py:81 | the string order used for dates and names is total |
| Strings.LessTransitive | lstrait2/Assignment3.1/Assignment3.1/app/model/portfolio/entries.py:87 | the string order is transitive |
| Dicts.Dict.Put | model/parser/xml_parser.py:44-46 | `d[k] = v`: the map gets the new value, a new key goes to the end of the order, an existing key keeps its place; validity is kept |
| AssignmentLists.AssignmentKeys | model/portfolio/repository.py:26-33 | the loop's result: exactly the keys containing 'Assignment' and no '/', with no repeats |
| AssignmentLists.InsertByName | model/portfolio/repository.py:35 | one insertion step of the sort: one longer, same elements plus the new key |
| AssignmentLists.InsertByNameSorted | model/portfolio/repository.py:35 | inserting into a list sorted by directory name keeps it sorted |
| AssignmentLists.SortByName | model/portfolio/repository.py:35 | `sorted(..., key=name)`: sorted by name and a permutation of its input |
| AssignmentLists.DistinctByMultiset | model/portfolio/repository.py:26-35 | a list has no repeats exactly when every multiplicity is at most one, so sorting keeps no-repeats |
| Links.ParentPath | model/portfolio/repository.py:44 | `name[:name.rindex('/')]` is strictly shorter than the name |
| Links.ParentPathIsPrefix | model/portfolio/repository.py:44 | the parent path is the name up to, and without, its last '/' |
| Links.LinkedValid | model/portfolio/repository.py:37-63 | linking keeps the arena well formed: every child reference names an existing entry with a longer key |
| Links.LinkedFileParent | model/portfolio/repository.py:42-50 | a file gets the directory named by its truncated path as `parent` and that directory's name as `parent_name` exactly when that key exists, and is unchanged otherwise |
| Links.LinkedChildrenExact | model/portfolio/repository.py:42-63 | starting from empty children, a directory's children are exactly the files, and the subdirectories with a '/', whose truncated path is its key |
| Links.LinkedDirParent | model/portfolio/repository.py:52-63 | a directory without '/' or whose parent key is missing keeps its parent; any other directory gets the truncated-path directory |
| Links.LinkedChangesOnlyLinks | model/portfolio/repository.py:48-50 | linking changes only `parent`, `parent_name` and `children`, keeps all keys and their order, and only appends to `children` |
| Links.LinkedTwiceRepeatsChildren | model/portfolio/repository.py:48-50 | linking a second time appends every new child again: the operation is not idempotent |
| Links.FilesLinkedTurn | model/portfolio/repository.py:42-50 | one turn of the loop over the files equals linking that one file |
| Links.DirsLinkedTurn | model/portfolio/repository.py:52-63 | one turn of the loop over the directories equals linking that one directory |
| Links.TwoPasses | model/portfolio/repository.py:37-63 | the two loops one after the other equal `Linked` |
| Merging.NamedMembers | model/portfolio/repository.py:68-69 | the revisions a key receives are exactly those named after it |
| Merging.MergedExtends | model/portfolio/repository.py:72 | merging only appends, and only revisions from the input |
| Merging.MergedCovers | model/portfolio/repository.py:71-72 | after merging, every input revision's number is present |
| Merging.MergedCovered | model/portfolio/repository.py:71 | a revision whose number is already present is skipped |
| Merging.MergedIdempotent | model/portfolio/repository.py:65-76 | merging the same revisions twice equals merging them once |
| Merging.MergedUnique | model/portfolio/repository.py:71-76 | a history with no repeated revision numbers keeps that property |
| Merging.AssignedIdempotent | model/portfolio/repository.py:65-76 | `assign_revisions` repeated with the same list changes nothing |
| Merging.AssignedDropsUnmatched | model/portfolio/repository.py:69-76 | a revision whose name matches no key is dropped |
| Merging.AssignedHistories | model/portfolio/repository.py:73-76 | each file's history keeps its old versions first, gains only revisions named after it, records every such revision's number, and stays free of repeated numbers |
| Merging.AssignedDirectoryHistories | model/portfolio/repository.py:69-72 | the same for each directory's history |
| Merging.AssignedTurn | model/portfolio/repository.py:68-76 | one turn of the loop equals merging the revision into the same-named directory and file |
| Merging.AssignedValid | model/portfolio/repository.py:65-76 | merging keeps the arena well formed |
| Repositories.Repository.constructor | model/portfolio/repository.py:10-19 | stores both dicts, sets `assignments` to the sorted assignment keys of the directories as given, then leaves the arena linked |
| Repositories.Repository.GetAssignments | model/portfolio/repository.py:21-35 | exactly the directory keys containing 'Assignment' and no '/', each once, sorted by name |
| Repositories.Repository.SetParentsAndChildren | model/portfolio/repository.py:37-63 | the arena becomes `Linked` of the old one and stays well formed; assignments are unchanged |
| Repositories.Repository.LinkFiles | model/portfolio/repository.py:42-50 | the first loop leaves the arena after all its turns over the files |
| Repositories.Repository.LinkDirectories | model/portfolio/repository.py:52-63 | the second loop leaves the arena after all its turns over the directories |
| Repositories.Repository.LinkFileToParent | model/portfolio/repository.py:44-50 | the body of the first loop for one file |
| Repositories.Repository.LinkDirectoryToParent | model/portfolio/repository.py:54-63 | the body of the second loop for one directory |
| Repositories.Repository.AssignRevisions | model/portfolio/repository.py:65-76 | the arena becomes `Assigned` of the old one and stays well formed |
| Repositories.Repository.AssignRevision | model/portfolio/repository.py:69-76 | one revision: appended to a same-named directory when its number is new, and to a same-named file when it is not already there and its number is new |
| Repositories.Repository.AppendRevision | model/parser/xml_parser.py:83-91 | 'dir' paths look up directories, any other kind looks up files; a missing name changes nothing |
| EntryParsing.LastTextSpec | model/parser/xml_parser.py:115-126 | the variable a loop over `iter()` binds is unset exactly when no descendant has the tag, and otherwise holds the text of the last one |
| EntryParsing.LastTextStep | model/parser/xml_parser.py:115-117 | one turn of that loop: a matching element overwrites the variable |
| EntryParsing.LastRevision | model/parser/xml_parser.py:119-120 | a commit element without a revision attribute fails with the `KeyError` |
| EntryParsing.LastRevisionSpec | model/parser/xml_parser.py:119-120 | fails exactly when some commit element has no revision; unset exactly when there is no commit element; otherwise the revision of the last one |
| EntryParsing.FileFromEntry | model/parser/xml_parser.py:108-128 | succeeds exactly when no commit lacks a revision and name, commit, author, date and size all occur; then the File built from the last of each. Otherwise the first error the source raises: `KeyError` for a commit without a revision, then an unbound local for the first missing argument of `File(name, revision, date, author, size)`, in that order |
| EntryParsing.DirectoryFromEntry | model/parser/xml_parser.py:130-148 | the same for a Directory, with the argument order of `Directory(name, revision, date, author)` |
| EntryParsing.EntryFromElement | model/parser/xml_parser.py:93-106 | a missing kind fails; 'dir' gives exactly the Directory `DirectoryFromEntry` builds and passes on its error; 'file' does the same with `FileFromEntry`; any other kind gives None |
| EntryParsing.EntryFresh | model/parser/xml_parser.py:101-104 | a parsed entry has no versions, children or parent |
| EntryParsing.ParseAll | model/parser/xml_parser.py:39-42 | parses every `<entry>` in document order |
| EntryParsing.Collect | model/parser/xml_parser.py:40-46 | filling the dicts succeeds exactly when every entry parses to a Directory or File |
| EntryParsing.CollectStep | model/parser/xml_parser.py:42-46 | one turn of the loop adds the parsed entry under its name |
| EntryParsing.CollectShape | model/parser/xml_parser.py:36-46 | the dicts are well formed and hold only fresh entries, each under its own name |
| EntryParsing.CollectDirectoriesLastWins | model/parser/xml_parser.py:43-44 | a key is a directory exactly when some entry parses to a directory of that name, and it holds the last such entry |
| EntryParsing.CollectFilesLastWins | model/parser/xml_parser.py:45-46 | the same for files: later duplicates overwrite earlier ones |
| EntryParsing.FirstWithoutSlash | model/portfolio/repository.py:44 | None exactly when every file key has a '/', otherwise a key without one |
| EntryParsing.Listing | model/parser/xml_parser.py:30-48 | on success a well-formed arena of fresh entries equal to the collected dicts; a collect failure is passed on |
| EntryParsing.ListingOfCollect | model/parser/xml_parser.py:48 | given collected dicts, listing fails exactly when some file key has no '/' (the `rindex` in the constructor) |
| LogParsing.StripPrefix | model/parser/xml_parser.py:78 | `text[10:]`: empty for short text, otherwise the text without its first 10 characters |
| LogParsing.CommitOf | model/parser/xml_parser.py:68-74 | succeeds exactly when date, author and msg all occur, carrying the last text of each and the entry's revision number |
| LogParsing.CommitFrom | model/parser/xml_parser.py:80 | building the revision succeeds exactly when date, author and msg are all bound; otherwise the first unbound of them, in argument order, raises |
| LogParsing.AttachRevisionExtends | model/parser/xml_parser.py:83-91 | attaching one revision only appends to one entry's versions |
| LogParsing.AttachRevisionDirectory | model/parser/xml_parser.py:83-85 | a directory gets the revision exactly when the kind is 'dir' and the name is its key |
| LogParsing.AttachRevisionFile | model/parser/xml_parser.py:86-88 | a file gets the revision exactly when the kind is not 'dir' and the name is its key |
| LogParsing.VersionsOnlyValid | model/parser/xml_parser.py:90-91 | changing only versions keeps the arena well formed |
| LogParsing.PathsFor | model/parser/xml_parser.py:76-80 | the revisions an entry receives are exactly those of the paths designating it |
| LogParsing.PathsEffectExtends | model/parser/xml_parser.py:76-91 | the loop over the paths only appends to versions |
| LogParsing.PathsEffectDirectory | model/parser/xml_parser.py:76-91 | without an error, each directory receives exactly the revisions of the 'dir' paths naming it, in path order |
| LogParsing.PathsEffectFile | model/parser/xml_parser.py:76-91 | without an error, each file receives exactly the revisions of the other paths naming it, in path order |
| LogParsing.PathsEffectErrorFixed | model/parser/xml_parser.py:83 | whether the paths raise depends on the document only |
| LogParsing.LogEntryExtends | model/parser/xml_parser.py:61-91 | a log entry only appends to versions |
| LogParsing.EntryRevisionsFields | model/portfolio/revision.py:16-29 | every revision created carries the key as name, the entry's revision attribute as number, and the entry's date, author and msg, each in its own field |
| LogParsing.LogEntryDirectory | model/parser/xml_parser.py:66-91 | a log entry that does not raise appends to each directory exactly its revisions for that directory; no other directory gets one |
| LogParsing.LogEntryFile | model/parser/xml_parser.py:66-91 | the same for files |
| LogParsing.LogEntryErrorFixed | model/parser/xml_parser.py:66-91 | whether a log entry raises depends on the document only |
| LogParsing.LogEntryTwice | model/parser/xml_parser.py:90-91 | applying the same log entry twice appends its revisions twice: no de-duplication |
| LogParsing.LogEffectExtends | model/parser/xml_parser.py:56-59 | the whole log only appends to versions |
| LogParsing.LogEffectDirectory | model/parser/xml_parser.py:56-59 | without an error, each directory's versions are the old ones followed by its revisions from every log entry in document order |
| LogParsing.LogEffectFile | model/parser/xml_parser.py:56-59 | the same for files |
| XmlParsers.CollectFailureStays | model/parser/xml_parser.py:40-46 | an exception while filling the dicts ends parsing with that error |
| XmlParsers.LogEffectFailureStays | model/parser/xml_parser.py:58-59 | an exception in one log entry ends the whole log pass with that error |
| XmlParsers.PathsFailureStays | model/parser/xml_parser.py:76-88 | an exception in one path ends the log entry with that error |
| XmlParsers.CollectTurn | model/parser/xml_parser.py:40-46 | one turn of the listing loop: a parse error or `None` ends the loop with that error, anything else is added |
| XmlParsers.LogStep | model/parser/xml_parser.py:58-59 | one turn of the log loop applies the next log entry unless an earlier one raised |
| XmlParsers.XMLParser.constructor | model/parser/xml_parser.py:11-19 | stores both documents; `svnRepo` is null |
| XmlParsers.XMLParser.ParseSubversionXml | model/parser/xml_parser.py:21-28 | on a listing error nothing is stored; otherwise a new, linked Repository whose assignments are computed before the log is applied, then the log's effect, returned unless the log raised |
| XmlParsers.XMLParser.ParseXmlList | model/parser/xml_parser.py:30-48 | fails exactly when `Listing` fails, with its error; otherwise a new Repository over the listed arena, linked, with its assignments |
| XmlParsers.XMLParser.CollectEntries | model/parser/xml_parser.py:39-46 | the loop over the entries equals `Collect` of their parses |
| XmlParsers.XMLParser.StoreParsed | model/parser/xml_parser.py:43-46 | a Directory is stored in `directories`, a File in `files`, under its name; `None` fails |
| XmlParsers.XMLParser.ParseXmlLog | model/parser/xml_parser.py:50-59 | the repository's arena and the error equal `LogEffect` over the `<logentry>` elements; assignments are unchanged |
| XmlParsers.XMLParser.ParseLogEntry | model/parser/xml_parser.py:61-91 | the repository's arena and the error equal `LogEntryEffect` |
| XmlParsers.XMLParser.ReadCommitFields | model/parser/xml_parser.py:68-74 | the loop over `iter()` leaves the last author, date and msg text, or none |
| XmlParsers.XMLParser.AttachPaths | model/parser/xml_parser.py:76-91 | no paths change nothing; otherwise an unbound field raises before any change, and a bound commit gives `PathsEffect` |
| XmlParsers.XMLParser.ParseEntry | model/parser/xml_parser.py:93-106 | equals `EntryFromElement` |
| XmlParsers.XMLParser.ParseFileEntry | model/parser/xml_parser.py:108-128 | the loop equals `FileFromEntry` |
| XmlParsers.XMLParser.ParseDirEntry | model/parser/xml_parser.py:130-148 | the loop equals `DirectoryFromEntry` |

## Left out

- `ET.parse` (file reading) is not modelled. The parser starts from an element tree already in memory.
- Element text is a string. ElementTree's `None` for an empty element is modelled as `""`, so the `TypeError` from slicing a `None` path text is not modelled.
- SQLAlchemy persistence is not part of this model:
  - the `db.Model` columns;
  - `Repository.generate_portfolio_from_db`;
  - `Comment`, `model/filter.py` and `main_parser.py`.
- The Flask views and application setup are not part of this model.
- Object identity is not modelled. A parent and a child are stored as keys into the two dicts, not as shared object references. A revision is a value, so the source's `revision not in versions` test is equality of the five fields.
- `Repositories.Repository.constructor`: requires every file key to contain '/'. Where the source's `rindex` raises `ValueError`, `XmlParsers.XMLParser.ParseXmlList` instead checks the keys and returns that error (`NoSlashInFileName`) before constructing.
- `XmlParsers.XMLParser.ParseXmlLog`: requires `svnRepo` to be set. When it is not, the source raises `AttributeError` at the first `<path>` of the log once its `kind` has been read: `self.svn_repo.directories` or `.files` is evaluated before the `in` test, whatever the path's name. A log without paths would go through in the source; the model does not cover either case.
- `Repositories.Repository.GetAssignments`: returns directory keys instead of directory objects. A parsed listing stores each directory under its own name (`EntryParsing.Untouched`), so the keys and the names agree and sorting by name sorts the same directories.
- Directory history limits:
  - `Entries.DirectoryLastCommit` and `Entries.DirLatest` walk a well-formed arena, in which a child directory's key is longer than its parent's.
  - A cyclic object graph, which would make the source recurse forever, cannot arise from `set_parents_and_children`, so it is not modelled.
- Some loops, and some loop bodies, are separate helper methods. They change the same fields in the same order:
  - the loop bodies of `set_parents_and_children` and `assign_revisions`;
  - the two loops of `parse_log_entry`;
  - the loop of `parse_xml_list`;
  - the recursive call of `Directory.get_last_commit`.

Behaviour of the code that a reader might not expect, which the model follows:

- **Unknown entry kind.** Such an entry is not skipped: `parse_entry` returns `None`, and `parse_xml_list` then fails reading `.name` from it (`NotAnEntry`).
- **Log ingestion is not de-duplicated.** This is shown by `LogParsing.LogEntryTwice`. Only `assign_revisions` skips known revision numbers.
- **Path kinds.** A path of any kind other than 'dir' is looked up among the files.
- **File duplicates in `assign_revisions`.** A file is skipped when it already holds an equal revision or one with the same number. A directory is skipped only on the number.
