/**
 * The aggregation script: clear `dist/`, discover the presentations under
 * `slides/`, copy each one's built `dist/` to `dist/<name>/` (or warn when
 * there is none), then write `dist/index.html` listing all of them.
 */
module Aggregator {
  import opened Wrappers
  import opened FileTree
  import opened Listing
  import opened IndexPage

  /** One line of the copy phase's console log. */
  datatype Report = Copied(name: string) | NoDist(name: string)

  /**
   * How a run ends: it completes, reporting every presentation it discovered,
   * or a file-system call throws and the script stops where it is.
   */
  datatype Outcome = Completed(log: seq<Report>, count: nat) | Aborted(log: seq<Report>)

  /** The copy phase so far: the log, the output directory, whether a call threw. */
  datatype State = State(log: seq<Report>, nodes: map<Path, Node>, aborted: bool)

  /** Where the generated page goes, relative to `dist/`. */
  const IndexPath: Path := ["index.html"]

  /** What `existsSync("slides/<name>/dist")` finds: the tree there, if anything. */
  function DistOf(listing: seq<Entry>, name: string): Option<Tree> {
    if listing == [] then None
    else if listing[0].isDirectory && listing[0].name == name then listing[0].dist
    else DistOf(listing[1..], name)
  }

  predicate IsFile(dist: Option<Tree>) {
    dist.Some? && dist.value.File?
  }

  /** No two names are the same. */
  predicate NoRepeats(names: seq<string>) {
    forall i, j :: 0 <= i < j < |names| ==> names[i] != names[j]
  }

  /** Every `dist/` in the listing is a well-formed tree. */
  predicate DistsWellFormed(listing: seq<Entry>) {
    forall i :: 0 <= i < |listing| && listing[i].dist.Some? ==> WellFormed(listing[i].dist.value)
  }

  /**
   * One presentation of the copy loop. Without a `dist/` it only warns. With
   * one, it creates `dist/<name>` and copies the tree there; when that
   * `dist` is a file, listing it as a directory throws right after the
   * target was created.
   */
  function CopyOne(st: State, name: string, dist: Option<Tree>): State {
    match dist
    case None => State(st.log + [NoDist(name)], st.nodes, false)
    case Some(File(_)) => State(st.log, st.nodes[[name] := DirNode], true)
    case Some(Dir(es)) => State(st.log + [Copied(name)], st.nodes + FlattenNode(Dir(es), [name]), false)
  }

  /** The state after the copy loop over `names`, starting from a fresh, empty `dist/`. */
  function CopyPhase(names: seq<string>, listing: seq<Entry>): State
    decreases |names|
  {
    if names == [] then State([], map[[] := DirNode], false)
    else
      var st := CopyPhase(names[..|names| - 1], listing);
      if st.aborted then st else CopyOne(st, names[|names| - 1], DistOf(listing, names[|names| - 1]))
  }

  /** The whole run: its outcome and what `dist/` holds afterwards. */
  function Run(listing: seq<Entry>): (Outcome, map<Path, Node>) {
    var names := DirectoryNames(listing);
    var st := CopyPhase(names, listing);
    if st.aborted then (Aborted(st.log), st.nodes)
    else if IndexPath in st.nodes && st.nodes[IndexPath].DirNode? then (Aborted(st.log), st.nodes)
    else (Completed(st.log, |names|), st.nodes[IndexPath := FileNode(GeneratedIndex(IndexBody(names)))])
  }

  /** What a copy of `dist` to `dist/<name>` writes. */
  function Written(name: string, dist: Option<Tree>): map<Path, Node> {
    match dist
    case None => map[]
    case Some(t) => FlattenNode(t, [name])
  }

  // ---------------------------------------------------------------------
  // The script
  // ---------------------------------------------------------------------

  /** The discovery loop: push the name of every directory entry, in listing order. */
  method Discover(listing: seq<Entry>) returns (presentations: seq<string>)
    ensures presentations == DirectoryNames(listing)
  {
    presentations := [];
    var i := 0;
    while i < |listing|
      invariant 0 <= i <= |listing|
      invariant presentations == DirectoryNames(listing[..i])
    {
      assert listing[..i + 1][..i] == listing[..i];
      if listing[i].isDirectory {
        presentations := presentations + [listing[i].name];
      }
      i := i + 1;
    }
    assert listing[..i] == listing;
  }

  /**
   * The aggregation script run against `out` (the `dist/` directory) with
   * `slides/` listed as `listing`. Whatever `out` held before, the run ends
   * exactly as `Run` says.
   */
  method Aggregate(out: OutputDir, listing: seq<Entry>) returns (outcome: Outcome)
    requires DistinctNames(listing) && DistsWellFormed(listing)
    modifies out
    ensures (outcome, out.nodes) == Run(listing)
  {
    out.Reset();
    var presentations := Discover(listing);
    DirectoryNamesDistinct(listing);
    var log: seq<Report> := [];
    var i := 0;
    while i < |presentations|
      invariant 0 <= i <= |presentations|
      invariant CopyPhase(presentations[..i], listing) == State(log, out.nodes, false)
    {
      var name := presentations[i];
      assert presentations[..i + 1][..i] == presentations[..i];
      PathIsVacant(presentations, listing, i);
      var dist := DistOf(listing, name);
      DistOfWellFormed(listing, name);
      match dist {
        case None =>
          log := log + [NoDist(name)];
        case Some(File(_)) =>
          var ok := out.MakeDir([name]);
          assert ok;
          CopyPhaseSticky(presentations, listing, i + 1);
          return Aborted(log);
        case Some(Dir(es)) =>
          ghost var before := out.nodes;
          var ok := out.MakeDir([name]);
          assert ok;
          VacantAfterMakeDir(before, [name]);
          out.CopyDir(es, [name]);
          UpdateThenUnion(before, [name], DirNode, FlattenEntries(es, [name]));
          log := log + [Copied(name)];
      }
      i := i + 1;
    }
    assert presentations[..i] == presentations;
    var ok := out.WriteIndex(IndexPath, IndexBody(presentations));
    if !ok {
      return Aborted(log);
    }
    return Completed(log, |presentations|);
  }

  // ---------------------------------------------------------------------
  // Properties of the copy phase
  // ---------------------------------------------------------------------

  lemma {:induction false} DistOfWellFormed(listing: seq<Entry>, name: string)
    requires DistsWellFormed(listing)
    ensures DistOf(listing, name).Some? ==> WellFormed(DistOf(listing, name).value)
    decreases |listing|
  {
    if listing != [] && !(listing[0].isDirectory && listing[0].name == name) {
      assert DistsWellFormed(listing[1..]) by {
        forall i | 0 <= i < |listing[1..]| && listing[1..][i].dist.Some?
          ensures WellFormed(listing[1..][i].dist.value)
        {
          assert listing[1..][i] == listing[i + 1];
        }
      }
      DistOfWellFormed(listing[1..], name);
    }
  }

  /**
   * Everything in `dist/` after the copy loop is `dist/` itself or lies under
   * a discovered name that has a `dist/` of its own.
   */
  lemma {:induction false} CopyPhaseOwner(names: seq<string>, listing: seq<Entry>, k: Path)
    requires k in CopyPhase(names, listing).nodes
    ensures k == [] || (k[0] in names && DistOf(listing, k[0]).Some?)
    decreases |names|
  {
    if names != [] {
      var pre, n := names[..|names| - 1], names[|names| - 1];
      assert names == pre + [n];
      var st := CopyPhase(pre, listing);
      if st.aborted {
        CopyPhaseOwner(pre, listing, k);
      } else {
        match DistOf(listing, n)
        case None =>
          CopyPhaseOwner(pre, listing, k);
        case Some(File(_)) =>
          if k != [n] {
            CopyPhaseOwner(pre, listing, k);
          }
        case Some(Dir(es)) =>
          if k in FlattenNode(Dir(es), [n]) {
            FlattenNodeKeys(Dir(es), [n]);
            assert k[..1] == [n];
          } else {
            CopyPhaseOwner(pre, listing, k);
          }
      }
    }
  }

  /** Before presentation `i` is copied, nothing is at or below `dist/<name>`. */
  lemma PathIsVacant(names: seq<string>, listing: seq<Entry>, i: nat)
    requires NoRepeats(names) && i < |names|
    ensures Vacant(CopyPhase(names[..i], listing).nodes, [names[i]])
  {
    forall k | k in CopyPhase(names[..i], listing).nodes
      ensures !AtOrBelow([names[i]], k)
    {
      CopyPhaseOwner(names[..i], listing, k);
    }
  }

  /** Once a call has thrown, the rest of the loop never runs. */
  lemma {:induction false} CopyPhaseSticky(names: seq<string>, listing: seq<Entry>, i: nat)
    requires i <= |names| && CopyPhase(names[..i], listing).aborted
    ensures CopyPhase(names, listing) == CopyPhase(names[..i], listing)
    decreases |names|
  {
    if i < |names| {
      var pre := names[..|names| - 1];
      assert pre[..i] == names[..i];
      CopyPhaseSticky(pre, listing, i);
    } else {
      assert names[..i] == names;
    }
  }

  /**
   * Under `dist/<name>` the completed copy loop holds exactly what copying
   * that presentation's `dist/` wrote: later presentations write only under
   * their own, different, names.
   */
  lemma {:induction false} CopyPhaseKeep(names: seq<string>, listing: seq<Entry>, j: nat, k: Path)
    requires NoRepeats(names) && j < |names|
    requires !CopyPhase(names, listing).aborted
    requires |k| > 0 && k[0] == names[j]
    ensures k in CopyPhase(names, listing).nodes <==> k in Written(names[j], DistOf(listing, names[j]))
    ensures k in Written(names[j], DistOf(listing, names[j]))
        ==> CopyPhase(names, listing).nodes[k] == Written(names[j], DistOf(listing, names[j]))[k]
    decreases |names|
  {
    var pre, n := names[..|names| - 1], names[|names| - 1];
    var st := CopyPhase(pre, listing);
    assert !st.aborted;
    if j == |names| - 1 {
      if k in st.nodes {
        CopyPhaseOwner(pre, listing, k);
      }
    } else {
      assert NoRepeats(pre);
      CopyPhaseKeep(pre, listing, j, k);
      match DistOf(listing, n)
      case None =>
      case Some(File(_)) =>
      case Some(Dir(es)) =>
        FlattenNodeKeys(Dir(es), [n]);
        assert k[..1] == [k[0]];
    }
  }

  /** The copy loop aborts exactly when some discovered `dist` is a file. */
  lemma {:induction false} CopyPhaseAborts(names: seq<string>, listing: seq<Entry>)
    ensures CopyPhase(names, listing).aborted <==> exists i :: 0 <= i < |names| && IsFile(DistOf(listing, names[i]))
    decreases |names|
  {
    if names != [] {
      var pre, n := names[..|names| - 1], names[|names| - 1];
      CopyPhaseAborts(pre, listing);
      if exists i :: 0 <= i < |pre| && IsFile(DistOf(listing, pre[i])) {
        var i :| 0 <= i < |pre| && IsFile(DistOf(listing, pre[i]));
        assert names[i] == pre[i];
      }
      if exists i :: 0 <= i < |names| && IsFile(DistOf(listing, names[i])) {
        var i :| 0 <= i < |names| && IsFile(DistOf(listing, names[i]));
        if i < |pre| {
          assert names[i] == pre[i];
        }
      }
    }
  }

  /**
   * A completed copy loop logs one line per discovered name, in order: a copy
   * for each name with a `dist/`, a warning for each without.
   */
  lemma {:induction false} CopyPhaseLog(names: seq<string>, listing: seq<Entry>)
    requires !CopyPhase(names, listing).aborted
    ensures |CopyPhase(names, listing).log| == |names|
    ensures forall i :: 0 <= i < |names| ==>
      CopyPhase(names, listing).log[i].name == names[i]
      && (CopyPhase(names, listing).log[i].Copied? <==> DistOf(listing, names[i]).Some?)
    decreases |names|
  {
    if names != [] {
      CopyPhaseLog(names[..|names| - 1], listing);
    }
  }

  // ---------------------------------------------------------------------
  // Properties of a whole run
  // ---------------------------------------------------------------------

  /**
   * After a completed copy loop, a directory sits at the page's path exactly
   * when a presentation called `index.html` has a `dist/`.
   */
  lemma IndexPathOccupied(listing: seq<Entry>)
    requires DistinctNames(listing)
    requires !CopyPhase(DirectoryNames(listing), listing).aborted
    ensures (IndexPath in CopyPhase(DirectoryNames(listing), listing).nodes
             && CopyPhase(DirectoryNames(listing), listing).nodes[IndexPath].DirNode?)
        <==> "index.html" in DirectoryNames(listing) && DistOf(listing, "index.html").Some?
  {
    var names := DirectoryNames(listing);
    DirectoryNamesDistinct(listing);
    CopyPhaseAborts(names, listing);
    if IndexPath in CopyPhase(names, listing).nodes {
      CopyPhaseOwner(names, listing, IndexPath);
    }
    if "index.html" in names {
      var j :| 0 <= j < |names| && names[j] == "index.html";
      CopyPhaseKeep(names, listing, j, IndexPath);
      assert !IsFile(DistOf(listing, names[j]));
      match DistOf(listing, names[j])
      case None =>
      case Some(File(_)) =>
      case Some(Dir(es)) =>
        FlattenEntriesKeys(es, IndexPath);
        assert IndexPath !in FlattenEntries(es, IndexPath);
        assert Written(names[j], DistOf(listing, names[j]))[IndexPath] == DirNode;
    }
  }

  /**
   * A run completes unless some presentation's `dist` is a file, or a
   * presentation called `index.html` has a `dist/` and so occupies the path
   * of the generated page with a directory.
   */
  lemma RunCompletes(listing: seq<Entry>)
    requires DistinctNames(listing)
    ensures Run(listing).0.Completed?
        <==> (forall n :: n in DirectoryNames(listing) ==> !IsFile(DistOf(listing, n)))
             && !("index.html" in DirectoryNames(listing) && DistOf(listing, "index.html").Some?)
  {
    var names := DirectoryNames(listing);
    CopyPhaseAborts(names, listing);
    assert (exists i :: 0 <= i < |names| && IsFile(DistOf(listing, names[i])))
       <==> !(forall n :: n in names ==> !IsFile(DistOf(listing, n)));
    if !CopyPhase(names, listing).aborted {
      IndexPathOccupied(listing);
    }
  }

  /**
   * After a completed run, `dist/<name>` mirrors the presentation's built
   * tree: a relative path exists there exactly when it exists in the source,
   * and holds the same kind of node (a directory, or a file with the same bytes).
   */
  lemma RunMirrors(listing: seq<Entry>, name: string, es: seq<DirEntry>, rel: Path)
    requires DistinctNames(listing) && DistsWellFormed(listing)
    requires name in DirectoryNames(listing) && DistOf(listing, name) == Some(Dir(es))
    requires Run(listing).0.Completed?
    ensures [name] + rel in Run(listing).1 <==> LookupIn(Dir(es), rel).Some?
    ensures LookupIn(Dir(es), rel).Some? ==> Run(listing).1[[name] + rel] == Kind(LookupIn(Dir(es), rel).value)
  {
    var names := DirectoryNames(listing);
    DirectoryNamesDistinct(listing);
    var j :| 0 <= j < |names| && names[j] == name;
    var k := [name] + rel;
    CopyPhaseKeep(names, listing, j, k);
    DistOfWellFormed(listing, name);
    FlattenNodeMirror(Dir(es), [name], rel);
    if k == IndexPath {
      assert rel == [] && name == "index.html";
      RunCompletes(listing);
    }
  }

  /**
   * A name without a `dist/`, or one that is not a directory at all, gets
   * nothing in `dist/` (apart from the page itself when it is called
   * `index.html`): the script only warns about it.
   */
  lemma RunSkips(listing: seq<Entry>, name: string, k: Path)
    requires name !in DirectoryNames(listing) || DistOf(listing, name).None?
    requires k in Run(listing).1 && |k| > 0 && k[0] == name
    ensures k == IndexPath
  {
    var names := DirectoryNames(listing);
    if k != IndexPath {
      CopyPhaseOwner(names, listing, k);
    }
  }

  /**
   * A completed run logs one line per discovered presentation, in discovery
   * order, and reports the number discovered, not the number copied.
   */
  lemma RunReports(listing: seq<Entry>)
    requires Run(listing).0.Completed?
    ensures Run(listing).0.count == |DirectoryNames(listing)|
    ensures |Run(listing).0.log| == |DirectoryNames(listing)|
    ensures forall i :: 0 <= i < |DirectoryNames(listing)| ==>
      Run(listing).0.log[i].name == DirectoryNames(listing)[i]
      && (Run(listing).0.log[i].Copied? <==> DistOf(listing, DirectoryNames(listing)[i]).Some?)
  {
    CopyPhaseLog(DirectoryNames(listing), listing);
  }

  /**
   * A completed run writes the page with one block per discovered name, in
   * discovery order, whether or not it had a `dist/`; with none, only the
   * placeholder.
   */
  lemma RunWritesIndex(listing: seq<Entry>)
    requires Run(listing).0.Completed?
    requires forall n :: n in DirectoryNames(listing) ==> '/' !in n
    ensures IndexPath in Run(listing).1
    ensures Run(listing).1[IndexPath].FileNode?
    ensures Run(listing).1[IndexPath].content.GeneratedIndex?
    ensures ParseIndexBody(Run(listing).1[IndexPath].content.body) == Some(Listings(DirectoryNames(listing)))
    ensures Run(listing).1[IndexPath].content.body == Placeholder <==> DirectoryNames(listing) == []
  {
    IndexBodyRoundTrip(DirectoryNames(listing));
    IndexBodyPlaceholder(DirectoryNames(listing));
  }
}
