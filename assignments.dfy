/** `get_assignments`: the top-level assignment directories, sorted by name. */
module AssignmentLists {
  import opened Strings
  import opened Entries
  import opened Dicts

  /** Kept by `get_assignments`: 'Assignment' in the key and no '/' in it. */
  predicate IsAssignment(k: string)
  {
    Contains(k, "Assignment") && '/' !in k
  }

  ghost predicate Distinct(s: seq<string>)
  {
    forall i, j :: 0 <= i < j < |s| ==> s[i] != s[j]
  }

  /** The keys the loop of `get_assignments` collects, in dict order. */
  function AssignmentKeys(keys: seq<string>): (r: seq<string>)
    ensures forall k :: k in r <==> k in keys && IsAssignment(k)
    ensures Distinct(keys) ==> Distinct(r)
    decreases |keys|
  {
    if keys == [] then []
    else
      var init := keys[..|keys| - 1];
      var k := keys[|keys| - 1];
      assert keys == init + [k];
      AssignmentKeys(init) + (if IsAssignment(k) then [k] else [])
  }

  /** The sort key `assignment.name` of a collected key. */
  function NameOf(dirs: map<string, Directory>, k: string): string
  {
    if k in dirs then dirs[k].name else k
  }

  /** Ascending by `name`, as Python compares strings. */
  ghost predicate SortedByName(s: seq<string>, dirs: map<string, Directory>)
  {
    forall i :: 0 < i < |s| ==> LessEq(NameOf(dirs, s[i - 1]), NameOf(dirs, s[i]))
  }

  /** Insert `k` after every element whose name is not greater than its own. */
  function InsertByName(k: string, s: seq<string>, dirs: map<string, Directory>): (r: seq<string>)
    ensures |r| == |s| + 1
    ensures r[0] == k || (|s| > 0 && r[0] == s[0])
    ensures multiset(r) == multiset(s) + multiset{k}
    decreases |s|
  {
    if s == [] then
      [k]
    else if Less(NameOf(dirs, k), NameOf(dirs, s[0])) then
      [k] + s
    else
      assert s == [s[0]] + s[1..];
      [s[0]] + InsertByName(k, s[1..], dirs)
  }

  /** Inserting into a sorted sequence keeps it sorted. */
  lemma {:induction false} InsertByNameSorted(k: string, s: seq<string>, dirs: map<string, Directory>)
    requires SortedByName(s, dirs)
    ensures SortedByName(InsertByName(k, s, dirs), dirs)
    decreases |s|
  {
    if s == [] {
    } else if Less(NameOf(dirs, k), NameOf(dirs, s[0])) {
      LessEqOfLess(NameOf(dirs, k), NameOf(dirs, s[0]));
      var r := [k] + s;
      forall i | 0 < i < |r|
        ensures LessEq(NameOf(dirs, r[i - 1]), NameOf(dirs, r[i]))
      {
        if i > 1 {
          assert r[i - 1] == s[i - 2] && r[i] == s[i - 1];
        }
      }
    } else {
      var t := s[1..];
      assert SortedByName(t, dirs) by {
        forall i | 0 < i < |t|
          ensures LessEq(NameOf(dirs, t[i - 1]), NameOf(dirs, t[i]))
        {
          assert t[i - 1] == s[i] && t[i] == s[i + 1];
        }
      }
      InsertByNameSorted(k, t, dirs);
      var rest := InsertByName(k, t, dirs);
      var r := [s[0]] + rest;
      assert InsertByName(k, s, dirs) == r;
      forall i | 0 < i < |r|
        ensures LessEq(NameOf(dirs, r[i - 1]), NameOf(dirs, r[i]))
      {
        if i == 1 {
          if rest[0] != k {
            assert rest[0] == t[0] == s[1];
          }
        } else {
          assert r[i - 1] == rest[i - 2] && r[i] == rest[i - 1];
        }
      }
    }
  }

  /** `sorted(keys, key=lambda a: a.name)`: a stable insertion sort. */
  function SortByName(ks: seq<string>, dirs: map<string, Directory>): (r: seq<string>)
    ensures SortedByName(r, dirs)
    ensures multiset(r) == multiset(ks)
    decreases |ks|
  {
    if ks == [] then []
    else
      assert ks == ks[..|ks| - 1] + [ks[|ks| - 1]];
      var sorted := SortByName(ks[..|ks| - 1], dirs);
      InsertByNameSorted(ks[|ks| - 1], sorted, dirs);
      InsertByName(ks[|ks| - 1], sorted, dirs)
  }

  /** A sequence without repetitions is one whose multiset counts are at most 1. */
  lemma {:induction false} DistinctByMultiset(s: seq<string>)
    ensures Distinct(s) <==> forall x :: multiset(s)[x] <= 1
    decreases |s|
  {
    if s != [] {
      var init := s[..|s| - 1];
      var k := s[|s| - 1];
      assert s == init + [k];
      DistinctByMultiset(init);
      if Distinct(s) {
        assert Distinct(init) by {
          forall i, j | 0 <= i < j < |init| ensures init[i] != init[j] {
            assert init[i] == s[i] && init[j] == s[j];
          }
        }
        forall i | 0 <= i < |init| ensures init[i] != k {
          assert init[i] == s[i];
        }
      }
      if forall x :: multiset(s)[x] <= 1 {
        assert forall x :: multiset(init)[x] <= multiset(s)[x];
        assert multiset(init)[k] == 0;
        forall i, j | 0 <= i < j < |s| ensures s[i] != s[j] {
          if j < |s| - 1 {
            assert init[i] == s[i] && init[j] == s[j];
          } else {
            assert s[i] == init[i];
          }
        }
      }
    }
  }

  /** `get_assignments()`: the top-level assignment keys sorted by name. */
  function Assignments(dirs: Dict<Directory>): seq<string>
  {
    SortByName(AssignmentKeys(dirs.order), dirs.entries)
  }
}
