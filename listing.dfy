/**
 * The `slides/` directory as both scripts read it: its entries in the order
 * the platform lists them, and the names of the sub-directories among them.
 */
module Listing {
  import opened Wrappers
  import opened FileTree

  /**
   * One entry of `slides/`: its name, whether it is a directory and, for a
   * sub-project, the contents of its `dist/` when `slides/<name>/dist`
   * exists (a file there is possible too).
   */
  datatype Entry = Entry(name: string, isDirectory: bool, dist: Option<Tree>)

  /** The names of the directory entries, in listing order. */
  function DirectoryNames(entries: seq<Entry>): seq<string> {
    if entries == [] then []
    else
      var last := entries[|entries| - 1];
      DirectoryNames(entries[..|entries| - 1]) + (if last.isDirectory then [last.name] else [])
  }

  /** Listing `a` then `b` collects `a`'s directories then `b`'s: order is kept. */
  lemma {:induction false} DirectoryNamesAppend(a: seq<Entry>, b: seq<Entry>)
    ensures DirectoryNames(a + b) == DirectoryNames(a) + DirectoryNames(b)
    decreases |b|
  {
    if b == [] {
      assert a + b == a;
    } else {
      var b' := b[..|b| - 1];
      assert (a + b)[..|a + b| - 1] == a + b';
      DirectoryNamesAppend(a, b');
    }
  }

  /** A name is collected exactly when some directory entry carries it. */
  lemma {:induction false} DirectoryNamesMembers(entries: seq<Entry>, n: string)
    ensures n in DirectoryNames(entries)
        <==> exists i :: 0 <= i < |entries| && entries[i].isDirectory && entries[i].name == n
    decreases |entries|
  {
    if entries != [] {
      var pre := entries[..|entries| - 1];
      DirectoryNamesMembers(pre, n);
      if exists i :: 0 <= i < |entries| && entries[i].isDirectory && entries[i].name == n {
        var i :| 0 <= i < |entries| && entries[i].isDirectory && entries[i].name == n;
        if i < |pre| { assert pre[i] == entries[i]; }
      }
      if exists i :: 0 <= i < |pre| && pre[i].isDirectory && pre[i].name == n {
        var i :| 0 <= i < |pre| && pre[i].isDirectory && pre[i].name == n;
        assert entries[i] == pre[i];
      }
    }
  }

  /** The positions of the directory entries. */
  function DirectoryIndices(entries: seq<Entry>): set<int> {
    set i | 0 <= i < |entries| && entries[i].isDirectory
  }

  lemma DirectoryIndicesSnoc(entries: seq<Entry>)
    requires entries != []
    ensures DirectoryIndices(entries)
         == DirectoryIndices(entries[..|entries| - 1])
          + (if entries[|entries| - 1].isDirectory then {|entries| - 1} else {})
  {
    var pre := entries[..|entries| - 1];
    forall i | i in DirectoryIndices(pre) ensures i in DirectoryIndices(entries) {
      assert pre[i] == entries[i];
    }
    forall i | i in DirectoryIndices(entries) && i < |pre| ensures i in DirectoryIndices(pre) {
      assert pre[i] == entries[i];
    }
  }

  /** One name per directory entry: entries that are not directories add nothing. */
  lemma {:induction false} DirectoryNamesCount(entries: seq<Entry>)
    ensures |DirectoryNames(entries)| == |DirectoryIndices(entries)|
    decreases |entries|
  {
    if entries != [] {
      var n := |entries| - 1;
      DirectoryNamesCount(entries[..n]);
      DirectoryIndicesSnoc(entries);
      assert n !in DirectoryIndices(entries[..n]);
    }
  }

  /** No two entries of a directory share a name. */
  predicate DistinctNames(entries: seq<Entry>) {
    forall i, j :: 0 <= i < j < |entries| ==> entries[i].name != entries[j].name
  }

  /** A listing with distinct names yields distinct directory names. */
  lemma {:induction false} DirectoryNamesDistinct(entries: seq<Entry>)
    requires DistinctNames(entries)
    ensures forall i, j :: 0 <= i < j < |DirectoryNames(entries)| ==> DirectoryNames(entries)[i] != DirectoryNames(entries)[j]
    decreases |entries|
  {
    if entries != [] {
      var n := |entries| - 1;
      var pre := entries[..n];
      DirectoryNamesDistinct(pre);
      if entries[n].isDirectory {
        DirectoryNamesMembers(pre, entries[n].name);
        var names := DirectoryNames(pre);
        assert entries[n].name !in names;
        assert DirectoryNames(entries) == names + [entries[n].name];
      }
    }
  }
}
