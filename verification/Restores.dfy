/** A whole restore: the sessions of a run integrated and written to an empty place on disk. */
module Restores {
  import opened Indices
  import opened Paths
  import opened DiffDir
  import opened Sessions
  import opened TreeReducer
  import opened TreeShape
  import opened TreeEffects
  import Archives
  import Selection

  function IndicesOf(s: seq<ROPath>): (r: seq<Index>)
    ensures |r| == |s| && forall n :: 0 <= n < |s| ==> r[n] == s[n].index
  {
    seq(|s|, n requires 0 <= n < |s| => s[n].index)
  }

  function Absent(i: Index): ROPath {
    ROPath(i, Missing, 0, 0, 0, 0, Plain, "")
  }

  function PathAt(s: seq<ROPath>, i: Index): ROPath {
    match Lookup(s, i)
    case None => Absent(i)
    case Some(p) => p
  }

  function PathsOf(s: seq<ROPath>): Index -> ROPath {
    i => PathAt(s, i)
  }

  predicate DirectoryAt(p: Option<ROPath>) {
    p.Some? && p.value.IsDir()
  }

  /** If a path is present here, its directory is, and so is the root. */
  predicate Grounded(at: Index -> Option<ROPath>, i: Index) {
    at(i).Some? ==> at([]).Some? && (i != [] ==> DirectoryAt(at(ParentOf(i))))
  }

  ghost predicate IsTree(at: Index -> Option<ROPath>) {
    forall i :: Grounded(at, i)
  }

  function SourceOf(tree: seq<ROPath>): Index -> Option<ROPath> {
    i => SourceAt(tree, i)
  }

  ghost predicate SourceIsTree(tree: seq<ROPath>) {
    IsTree(SourceOf(tree))
  }

  lemma {:induction false} LookupIndex(s: seq<ROPath>, i: Index)
    ensures i in IndicesOf(s) <==> Lookup(s, i).Some?
  {
    if i in IndicesOf(s) {
      var n :| 0 <= n < |s| && IndicesOf(s)[n] == i;
      assert s[n] in s;
    }
    if Lookup(s, i).Some? {
      var n :| 0 <= n < |s| && s[n] == Lookup(s, i).value;
      assert IndicesOf(s)[n] == i;
    }
  }

  /** The tree is what Select lists below a root. */
  ghost predicate Lists(tree: seq<ROPath>, root: Selection.Node) {
    && IndicesOf(tree) == Selection.Iterated(root) && (PathAt(tree, []).IsDir() <==> root.isDir)
    && Selection.AllListed(root.children) && Selection.Describes(PathsOf(tree), root.children, [])
  }

  lemma IncreasingIsSorted(s: seq<ROPath>)
    requires Increasing(IndicesOf(s))
    ensures Sorted(s)
  {
    forall i, j | 0 <= i < j < |s| ensures Less(s[i].index, s[j].index) {
      assert Less(IndicesOf(s)[i], IndicesOf(s)[j]);
    }
  }

  lemma IteratedParent(paths: Index -> ROPath, root: Selection.Node, i: Index)
    requires Selection.AllListed(root.children) && Selection.Describes(paths, root.children, [])
    requires i in Selection.Iterated(root) && i != []
    ensures root.isDir && (ParentOf(i) == [] || paths(ParentOf(i)).IsDir())
  {
    var s := Selection.Iterated(root);
    assert s == [[]] + s[1..] && i in s[1..];
    Selection.IteratedTree(paths, root);
    hide Increasing, Rooted, Selection.EmitAll, Selection.AllListed, Selection.Describes, Selection.Emit;
    RootedAt(paths, [], s[1..], i);
  }

  lemma IteratedIsGrounded(tree: seq<ROPath>, root: Selection.Node, i: Index)
    requires Lists(tree, root)
    ensures Grounded(SourceOf(tree), i)
  {
    hide Lookup, Selection.Iterated, Selection.AllListed, Selection.Describes;
    LookupIndex(tree, i);
    if SourceAt(tree, i).Some? && i != [] { IteratedParent(PathsOf(tree), root, i); }
  }

  /** The paths iterated for a backup form a tree. */
  lemma IteratedIsTree(tree: seq<ROPath>, root: Selection.Node)
    requires Lists(tree, root)
    ensures Sorted(tree) && SourceIsTree(tree)
  {
    Selection.IteratedTree(PathsOf(tree), root);
    IncreasingIsSorted(tree);
    forall i ensures Grounded(SourceOf(tree), i) { IteratedIsGrounded(tree, root, i); }
  }

  /** The recorded tree has the shape of the last tree, whatever its data and metadata. */
  lemma RecordedIsTree(trees: seq<seq<ROPath>>)
    requires trees != [] && SourceIsTree(trees[|trees| - 1])
    ensures IsTree(i => RecordedAt(trees, i))
  {
    var tree := trees[|trees| - 1];
    var recorded := i => RecordedAt(trees, i);
    forall i ensures Grounded(recorded, i) { assert Grounded(SourceOf(tree), i); }
  }

  lemma ParentInTree(s: seq<ROPath>, at: Index -> Option<ROPath>, y: Index)
    requires IsTree(at) && (forall i :: at(i) == Lookup(s, i)) && y in IndicesOf(s)
    ensures Lookup(s, []).Some?
    ensures y != [] ==> ParentOf(y) in IndicesOf(s) && PathAt(s, ParentOf(y)).IsDir()
  {
    LookupIndex(s, y);
    assert Grounded(at, y);
    if y != [] { LookupIndex(s, ParentOf(y)); }
  }

  /** A sorted stream that forms a tree is what the writer expects. */
  lemma TreeIsRooted(s: seq<ROPath>, at: Index -> Option<ROPath>)
    requires Sorted(s) && s != [] && IsTree(at) && forall i :: at(i) == Lookup(s, i)
    ensures var x := IndicesOf(s);
      x[0] == [] && Increasing(x) && UnderFirst(x) && Rooted(PathsOf(s), [], x[1..])
  {
    var x, paths := IndicesOf(s), PathsOf(s);
    assert x[0] in x;
    ParentInTree(s, at, x[0]);
    hide IsTree, Lookup, Increasing, PathAt;
    assert x == [x[0]] + x[1..];
    forall y | y in x[1..]
      ensures y != [] && (ParentOf(y) == [] || (ParentOf(y) in x[1..] && paths(ParentOf(y)).IsDir()))
    {
      FirstIsLeast([], x[1..], y);
      ParentInTree(s, at, y);
    }
  }

  // ----- what a restore leaves on disk

  function Writer(paths: Index -> ROPath): Policy {
    Policy(x => !paths(x).IsDir(), x => true)
  }

  /** Write_ROPaths of a restored stream to an empty place. */
  function OnDisk(restored: seq<ROPath>): Disk {
    WriteAll(PathsOf(restored), map[], TreeTrace(Writer(PathsOf(restored)), IndicesOf(restored)))
  }

  /** Exactly these paths are on disk, all with their archived attributes. */
  ghost predicate Holds(disk: Disk, at: Index -> Option<ROPath>) {
    forall i :: if at(i).Some? then i in disk && disk[i] == Slot.Written(at(i).value) else i !in disk
  }

  lemma WritingKeepsAll(restored: seq<ROPath>, at: Index -> Option<ROPath>)
    requires Sorted(restored) && IsTree(at) && forall i :: at(i) == Lookup(restored, i)
    ensures Holds(OnDisk(restored), at)
  {
    var s, paths := IndicesOf(restored), PathsOf(restored);
    if restored == [] {
      WriteOne(paths, map[], EndUnstarted);
    } else {
      TreeIsRooted(restored, at);
      RestoredAttributesSurvive(Writer(paths), paths, s, map[]);
    }
    forall i ensures i in s <==> at(i).Some? { LookupIndex(restored, i); }
  }

  /** Whatever happened between the sessions, restoring leaves on disk exactly what the run records. */
  lemma DiskHoldsRecorded(rs: Librsync, trees: seq<seq<ROPath>>)
    requires rs.Lawful() && Trees(trees) && trees != [] && SourceIsTree(trees[|trees| - 1])
    ensures Holds(OnDisk(Restored(rs, Run(rs, trees))), i => RecordedAt(trees, i))
  {
    var restored := Restored(rs, Run(rs, trees));
    var recorded := i => RecordedAt(trees, i);
    hide RecordedAt, OnDisk, Holds, Lookup, IsTree;
    forall i ensures Sorted(restored) && recorded(i) == Lookup(restored, i) {
      RestoreGivesRecorded(rs, trees, i);
    }
    assert recorded([]) == Lookup(restored, []);
    RecordedIsTree(trees);
    WritingKeepsAll(restored, recorded);
  }

  /** The disk holds exactly the paths of the tree, each the same file. */
  ghost predicate GivesBack(disk: Disk, tree: seq<ROPath>) {
    forall i ::
      match SourceAt(tree, i)
      case None => i !in disk
      case Some(source) => i in disk && disk[i].Written? && disk[i].p.SameFile(source)
  }

  /** Restoring after session k to an empty place gives back the tree that session backed up. */
  ghost predicate GivesBackAfter(rs: Librsync, trees: seq<seq<ROPath>>, k: nat)
    requires 0 < k <= |trees| == |Run(rs, trees)|
  {
    GivesBack(OnDisk(Restored(rs, Run(rs, trees)[..k])), trees[k - 1])
  }

  lemma HeldGivesBack(disk: Disk, at: Index -> Option<ROPath>, tree: seq<ROPath>)
    requires Holds(disk, at)
    ensures GivesBack(disk, tree) <==> forall i :: Matches(at(i), SourceAt(tree, i))
  {
    if GivesBack(disk, tree) {
      forall i ensures Matches(at(i), SourceAt(tree, i)) {
        assert at(i).Some? <==> i in disk;
      }
    }
    if forall i :: Matches(at(i), SourceAt(tree, i)) {
      assert GivesBack(disk, tree) by {
        forall i ensures match SourceAt(tree, i)
          case None => i !in disk
          case Some(source) => i in disk && disk[i].Written? && disk[i].p.SameFile(source)
        {
          assert Matches(at(i), SourceAt(tree, i));
        }
      }
    }
  }

  lemma GivesBackIffFaithful(rs: Librsync, trees: seq<seq<ROPath>>, k: nat)
    requires rs.Lawful() && Trees(trees) && 0 < k <= |trees| == |Run(rs, trees)| && SourceIsTree(trees[k - 1])
    ensures GivesBackAfter(rs, trees, k) <==> FaithfulAfter(rs, trees, k)
  {
    hide Restored, Run, RecordedAt, Matches, OnDisk, Holds, GivesBack, FaithfulAfter, SourceAt;
    var before := trees[..k];
    assert before[|before| - 1] == trees[k - 1];
    assert Run(rs, trees)[..k] == Run(rs, before) by { PrefixOfRun(rs, trees, k); }
    DiskHoldsRecorded(rs, before);
    var recorded := i => RecordedAt(before, i);
    HeldGivesBack(OnDisk(Restored(rs, Run(rs, before))), recorded, trees[k - 1]);
    FaithfulIffMatches(rs, trees, k);
    forall i ensures MatchesAfter(trees, k, i) <==> Matches(recorded(i), SourceAt(trees[k - 1], i)) {}
  }

  /**
   * Restoring to an empty place after each session of a run over iterated trees puts the tree of that
   * session there if and only if the run is trackable.
   */
  lemma RestoreOntoDiskIff(rs: Librsync, trees: seq<seq<ROPath>>)
    requires rs.Lawful() && Trees(trees) && forall n :: 0 <= n < |trees| ==> SourceIsTree(trees[n])
    ensures |Run(rs, trees)| == |trees|
    ensures (forall k :: 0 < k <= |trees| ==> GivesBackAfter(rs, trees, k)) <==> Trackable(trees)
  {
    hide GivesBackAfter, FaithfulAfter, Trackable, Run, SourceIsTree;
    RestoreIsFaithfulIff(rs, trees);
    forall k | 0 < k <= |trees| ensures GivesBackAfter(rs, trees, k) <==> FaithfulAfter(rs, trees, k) {
      GivesBackIffFaithful(rs, trees, k);
    }
  }

  /**
   * From the listings of Select through the tar files onto the disk: reading back what every session wrote,
   * integrating the first k deltas and writing them to an empty place puts the tree of session k there, for
   * every k, if and only if the run is trackable.
   */
  lemma ListedThroughArchivesOntoDiskIff(rs: Librsync, trees: seq<seq<ROPath>>, roots: seq<Selection.Node>)
    requires rs.Lawful() && |roots| == |trees|
    requires forall n :: 0 <= n < |trees| ==> Lists(trees[n], roots[n]) && Archives.ValidNames(trees[n])
    ensures |Archives.ArchiveRun(rs, trees)| == |trees|
    ensures (forall k :: 0 < k <= |trees| ==>
               GivesBack(OnDisk(Restored(rs, Archives.ReadAll(Archives.ArchiveRun(rs, trees)[..k]))), trees[k - 1]))
       <==> Trackable(trees)
  {
    hide Lists, GivesBack, OnDisk, Restored, Run, Trackable, SourceIsTree, Archives.ArchiveRun, Archives.ReadSession;
    forall n | 0 <= n < |trees| ensures Sorted(trees[n]) && SourceIsTree(trees[n]) {
      IteratedIsTree(trees[n], roots[n]);
    }
    Archives.ArchivesReadBack(rs, trees);
    RestoreOntoDiskIff(rs, trees);
    var archives := Archives.ArchiveRun(rs, trees);
    assert |Archives.ReadAll(archives)| == |archives|;
    forall k | 0 < k <= |trees|
      ensures GivesBack(OnDisk(Restored(rs, Archives.ReadAll(archives[..k]))), trees[k - 1]) <==>
              GivesBackAfter(rs, trees, k)
    {
      assert Archives.ReadAll(archives[..k]) == Archives.ReadAll(archives)[..k];
    }
  }
}
