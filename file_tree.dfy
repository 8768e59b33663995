/**
 * Directory trees as `Deno.readDir` walks them, the output directory the
 * aggregator writes into, and the recursive copy `copyDir`.
 */
module FileTree {
  import opened Wrappers

  /**
   * A snapshot of a source tree: a file with its bytes, or a directory with
   * its entries in the order `Deno.readDir` yields them.
   */
  datatype Tree = File(data: seq<bv8>) | Dir(entries: seq<DirEntry>)
  datatype DirEntry = DirEntry(name: string, node: Tree)

  /** A path as its sequence of names, relative to some directory. */
  type Path = seq<string>

  /** What a file in the output holds: copied bytes, or the generated index page around its body. */
  datatype Content = Bytes(data: seq<bv8>) | GeneratedIndex(body: string)

  /** One entry of the output directory. */
  datatype Node = FileNode(content: Content) | DirNode

  /** What copying `t` creates at its own path. */
  function Kind(t: Tree): Node {
    match t
    case File(d) => FileNode(Bytes(d))
    case Dir(_) => DirNode
  }

  /** No two entries of any directory share a name, as in a real file system. */
  predicate WellFormed(t: Tree)
    decreases t
  {
    match t
    case File(_) => true
    case Dir(es) => WellFormedEntries(es)
  }

  predicate WellFormedEntries(es: seq<DirEntry>)
    decreases es
  {
    (forall i, j :: 0 <= i < j < |es| ==> es[i].name != es[j].name)
    && (forall i :: 0 <= i < |es| ==> WellFormed(es[i].node))
  }

  function Names(es: seq<DirEntry>): set<string> {
    set i | 0 <= i < |es| :: es[i].name
  }

  /** `p` lies strictly inside directory `base`. */
  predicate Below(base: Path, p: Path) {
    |base| < |p| && p[..|base|] == base
  }

  /** `p` is `base` itself or lies inside it. */
  predicate AtOrBelow(base: Path, p: Path) {
    |base| <= |p| && p[..|base|] == base
  }

  /** Nothing in `m` is at or below `p`. */
  predicate Vacant(m: map<Path, Node>, p: Path) {
    forall k :: k in m ==> !AtOrBelow(p, k)
  }

  /**
   * The entries a copy of the listing `es` into `base` writes, in copy order
   * (a later write to the same path wins, as it does on disk).
   */
  function FlattenEntries(es: seq<DirEntry>, base: Path): map<Path, Node>
    decreases es
  {
    if es == [] then map[]
    else FlattenEntries(es[..|es| - 1], base) + FlattenNode(es[|es| - 1].node, base + [es[|es| - 1].name])
  }

  /** The entries a copy of `t` to `p` writes: `p` itself, then the contents. */
  function FlattenNode(t: Tree, p: Path): map<Path, Node>
    decreases t
  {
    match t
    case File(d) => map[p := FileNode(Bytes(d))]
    case Dir(es) => map[p := DirNode] + FlattenEntries(es, p)
  }

  /** The node at the relative path `rel` inside the listing `es`. */
  function Lookup(es: seq<DirEntry>, rel: Path): Option<Tree>
    decreases es
  {
    if es == [] || rel == [] then None
    else if es[|es| - 1].name == rel[0] then LookupIn(es[|es| - 1].node, rel[1..])
    else Lookup(es[..|es| - 1], rel)
  }

  /** The node at the relative path `rel` inside `t` (`t` itself for the empty path). */
  function LookupIn(t: Tree, rel: Path): Option<Tree>
    decreases t
  {
    if rel == [] then Some(t)
    else match t
      case File(_) => None
      case Dir(es) => Lookup(es, rel)
  }

  /** Everything a copy of `es` into `base` writes lies inside `base`, under one of the copied names. */
  lemma {:induction false} FlattenEntriesKeys(es: seq<DirEntry>, base: Path)
    ensures forall k :: k in FlattenEntries(es, base) ==> Below(base, k) && k[|base|] in Names(es)
    decreases es
  {
    if es != [] {
      var pre, last := es[..|es| - 1], es[|es| - 1];
      FlattenEntriesKeys(pre, base);
      FlattenNodeKeys(last.node, base + [last.name]);
      assert Names(pre) <= Names(es) by {
        forall n | n in Names(pre) ensures n in Names(es) {
          var i :| 0 <= i < |pre| && pre[i].name == n;
          assert es[i].name == n;
        }
      }
      assert last.name in Names(es);
      forall k | k in FlattenNode(last.node, base + [last.name])
        ensures Below(base, k) && k[|base|] == last.name
      {
        assert k[..|base| + 1] == base + [last.name];
        assert k[..|base|] == k[..|base| + 1][..|base|];
      }
    }
  }

  /** Everything a copy of `t` to `p` writes is `p` or lies inside it. */
  lemma {:induction false} FlattenNodeKeys(t: Tree, p: Path)
    ensures forall k :: k in FlattenNode(t, p) ==> AtOrBelow(p, k)
    decreases t
  {
    match t
    case File(_) =>
    case Dir(es) =>
      FlattenEntriesKeys(es, p);
  }

  /**
   * The copy mirrors the source: a path exists below `base` exactly when the
   * same relative path exists in the listing, and holds what the source holds
   * there (a directory, or a file with the same bytes).
   */
  lemma {:induction false} FlattenEntriesMirror(es: seq<DirEntry>, base: Path, rel: Path)
    requires WellFormedEntries(es)
    ensures base + rel in FlattenEntries(es, base) <==> Lookup(es, rel).Some?
    ensures Lookup(es, rel).Some? ==> FlattenEntries(es, base)[base + rel] == Kind(Lookup(es, rel).value)
    decreases es
  {
    if es == [] {
    } else if rel == [] {
      FlattenEntriesKeys(es, base);
      assert base + rel == base;
    } else {
      var pre, last := es[..|es| - 1], es[|es| - 1];
      var p := base + [last.name];
      assert WellFormedEntries(pre) by {
        forall i | 0 <= i < |pre| ensures WellFormed(pre[i].node) { assert pre[i] == es[i]; }
      }
      FlattenEntriesKeys(pre, base);
      FlattenNodeKeys(last.node, p);
      if rel[0] == last.name {
        assert base + rel == p + rel[1..];
        assert WellFormed(last.node);
        FlattenNodeMirror(last.node, p, rel[1..]);
        assert last.name !in Names(pre);
        assert (base + rel)[|base|] == last.name;
      } else {
        assert (base + rel)[|base|] == rel[0];
        assert !AtOrBelow(p, base + rel);
        FlattenEntriesMirror(pre, base, rel);
      }
    }
  }

  lemma {:induction false} FlattenNodeMirror(t: Tree, p: Path, rel: Path)
    requires WellFormed(t)
    ensures p + rel in FlattenNode(t, p) <==> LookupIn(t, rel).Some?
    ensures LookupIn(t, rel).Some? ==> FlattenNode(t, p)[p + rel] == Kind(LookupIn(t, rel).value)
    decreases t
  {
    if rel == [] {
      assert p + rel == p;
      match t
      case File(_) =>
      case Dir(es) =>
        FlattenEntriesKeys(es, p);
    } else {
      assert p + rel != p by { assert |p + rel| > |p|; }
      match t
      case File(_) =>
      case Dir(es) =>
        FlattenEntriesMirror(es, p, rel);
    }
  }

  /**
   * The output directory `dist/` of the aggregator: every path inside it
   * (relative to it; `[]` is the directory itself) and what is there.
   */
  class OutputDir {
    var nodes: map<Path, Node>

    constructor ()
      ensures nodes == map[[] := DirNode]
    {
      nodes := map[[] := DirNode];
    }

    /** Remove the directory if it exists, then create it empty again. */
    method Reset()
      modifies this
      ensures nodes == map[[] := DirNode]
    {
      nodes := map[[] := DirNode];
    }

    /** `Deno.mkdir(p, { recursive: true })`: fails only where a file is in the way. */
    method MakeDir(p: Path) returns (ok: bool)
      modifies this
      ensures ok <==> !(p in old(nodes) && old(nodes)[p].FileNode?)
      ensures nodes == if ok then old(nodes)[p := DirNode] else old(nodes)
    {
      ok := !(p in nodes && nodes[p].FileNode?);
      if ok {
        nodes := nodes[p := DirNode];
      }
    }

    /** `Deno.copyFile(src, p)` with the bytes of the source file: fails onto a directory. */
    method CopyFile(p: Path, data: seq<bv8>) returns (ok: bool)
      modifies this
      ensures ok <==> !(p in old(nodes) && old(nodes)[p].DirNode?)
      ensures nodes == if ok then old(nodes)[p := FileNode(Bytes(data))] else old(nodes)
    {
      ok := !(p in nodes && nodes[p].DirNode?);
      if ok {
        nodes := nodes[p := FileNode(Bytes(data))];
      }
    }

    /** `Deno.writeTextFile(p, page)` for the generated index: fails onto a directory. */
    method WriteIndex(p: Path, body: string) returns (ok: bool)
      modifies this
      ensures ok <==> !(p in old(nodes) && old(nodes)[p].DirNode?)
      ensures nodes == if ok then old(nodes)[p := FileNode(GeneratedIndex(body))] else old(nodes)
    {
      ok := !(p in nodes && nodes[p].DirNode?);
      if ok {
        nodes := nodes[p := FileNode(GeneratedIndex(body))];
      }
    }

    /**
     * `copyDir(src, dest)` for a source directory whose listing is `es`: each
     * sub-directory is created and copied recursively, each file is copied.
     * On a destination with nothing below it yet, no step can fail and the
     * result is exactly the flattened source.
     */
    method CopyDir(es: seq<DirEntry>, dest: Path)
      requires WellFormedEntries(es)
      requires forall k :: k in nodes ==> !Below(dest, k)
      modifies this
      ensures nodes == old(nodes) + FlattenEntries(es, dest)
      decreases es
    {
      var i := 0;
      while i < |es|
        invariant 0 <= i <= |es|
        invariant nodes == old(nodes) + FlattenEntries(es[..i], dest)
      {
        var e := es[i];
        var p := dest + [e.name];
        FreshTarget(old(nodes), es, i, dest);
        ghost var before := nodes;
        match e.node {
          case File(d) =>
            var ok := CopyFile(p, d);
            assert ok;
          case Dir(children) =>
            var ok := MakeDir(p);
            assert ok;
            VacantAfterMakeDir(before, p);
            CopyDir(children, p);
            UpdateThenUnion(before, p, DirNode, FlattenEntries(children, p));
        }
        FlattenStep(es, i, dest);
        UnionAssociative(old(nodes), FlattenEntries(es[..i], dest), FlattenNode(e.node, p));
        i := i + 1;
      }
      assert es[..i] == es;
    }
  }

  /**
   * Before copying entry `i` of `es` into `dest`, its target path is vacant:
   * nothing was below `dest` to start with, and the earlier entries wrote
   * only under their own, different, names.
   */
  lemma FreshTarget(start: map<Path, Node>, es: seq<DirEntry>, i: nat, dest: Path)
    requires WellFormedEntries(es) && i < |es|
    requires forall k :: k in start ==> !Below(dest, k)
    ensures Vacant(start + FlattenEntries(es[..i], dest), dest + [es[i].name])
  {
    var p := dest + [es[i].name];
    FlattenEntriesKeys(es[..i], dest);
    forall k | k in start + FlattenEntries(es[..i], dest) ensures !AtOrBelow(p, k) {
    }
  }

  lemma FlattenStep(es: seq<DirEntry>, i: nat, dest: Path)
    requires i < |es|
    ensures FlattenEntries(es[..i + 1], dest)
         == FlattenEntries(es[..i], dest) + FlattenNode(es[i].node, dest + [es[i].name])
  {
    assert es[..i + 1][..i] == es[..i];
  }

  lemma UnionAssociative<K, V>(a: map<K, V>, b: map<K, V>, c: map<K, V>)
    ensures (a + b) + c == a + (b + c)
  {
  }

  lemma UpdateThenUnion<K, V>(a: map<K, V>, k: K, v: V, b: map<K, V>)
    ensures a[k := v] + b == a + (map[k := v] + b)
  {
  }

  /** A fresh directory `p` has nothing below it. */
  lemma VacantAfterMakeDir(m: map<Path, Node>, p: Path)
    requires Vacant(m, p)
    ensures forall k :: k in m[p := DirNode] ==> !Below(p, k)
  {
  }
}
