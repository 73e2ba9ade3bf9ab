/** Path.deltree: a listing of a tree, run backwards out of it by the tree reducer, deletes the tree. */
module Deltree {
  import opened Indices
  import opened Paths
  import opened TreeReducer
  import opened TreeShape
  import Selection

  /** Path.delete: a missing path is ignored, and a directory that holds something stays; the error is logged. */
  function Delete(disk: set<Index>, x: Index): set<Index> {
    if exists z :: z in disk && x < z then disk else disk - {x}
  }

  /** fast_process and end_process delete a path. */
  function DeleteEvent(disk: set<Index>, e: Event): set<Index> {
    match e
    case Fast(x) => Delete(disk, x)
    case End(x) => Delete(disk, x)
    case _ => disk
  }

  function DeleteAll(disk: set<Index>, t: seq<Event>): set<Index>
    decreases |t|
  {
    if t == [] then disk else DeleteAll(DeleteEvent(disk, t[0]), t[1..])
  }

  lemma {:induction false} DeleteAppend(disk: set<Index>, t: seq<Event>, u: seq<Event>)
    ensures DeleteAll(disk, t + u) == DeleteAll(DeleteAll(disk, t), u)
    decreases |t|
  {
    if t == [] {
      assert t + u == u;
    } else {
      assert (t + u)[1..] == t[1..] + u;
      DeleteAppend(DeleteEvent(disk, t[0]), t[1..], u);
    }
  }

  lemma DeleteOne(disk: set<Index>, e: Event)
    ensures DeleteAll(disk, [e]) == DeleteEvent(disk, e)
  {
    assert [e][1..] == [];
  }

  /** Everything on disk under x is listed. */
  predicate ListedUnder(s: seq<Index>, disk: set<Index>, x: Index) {
    forall z :: z in disk && x < z ==> z in s
  }

  /** The listed paths with nothing unlisted under them. */
  function Doomed(s: seq<Index>, disk: set<Index>): set<Index> {
    set x | x in s && ListedUnder(s, disk, x)
  }

  /** What is deleted without a branch is no directory. */
  predicate FilesHoldNothing(p: Policy, s: seq<Index>, disk: set<Index>) {
    forall x, z {:trigger x in s, z in disk} :: x in s && z in disk && x < z ==> !p.canFast(x)
  }

  ghost predicate AllStart(p: Policy) {
    forall x :: p.startOk(x)
  }

  lemma {:induction false} BodyDeletes(p: Policy, parent: Index, s: seq<Index>, disk: set<Index>)
    requires AllStart(p) && Increasing(s) && FilesHoldNothing(p, s, disk)
    ensures DeleteAll(disk, Body(p, parent, true, s)) == disk - Doomed(s, disk)
    decreases |s|, 0
  {
    if s != [] {
      var x, rest := s[0], s[1..];
      assert s == [x] + rest && x in s;
      if p.canFast(x) {
        var tail := Body(p, parent, true, rest);
        assert Body(p, parent, true, s) == [Fast(x)] + tail;
        assert forall y :: y in rest ==> y in s;
        assert Delete(disk, x) == disk - {x};
        assert Doomed([x] + rest, disk) == {x} + Doomed(rest, disk - {x});
        BodyDeletes(p, parent, rest, disk - {x});
        DeleteOne(disk, Fast(x));
        DeleteAppend(disk, [Fast(x)], tail);
      } else {
        BranchDeletes(p, parent, x, rest, disk);
      }
    }
  }

  /** What a branch leaves: the run under x goes first, then x itself if nothing is left under it. */
  function AfterBranch(x: Index, run: seq<Index>, disk: set<Index>): set<Index> {
    Delete(disk - Doomed(run, disk), x)
  }

  lemma {:induction false} BranchDeletes(p: Policy, parent: Index, x: Index, rest: seq<Index>, disk: set<Index>)
    requires AllStart(p) && Increasing([x] + rest) && FilesHoldNothing(p, [x] + rest, disk) && !p.canFast(x)
    ensures DeleteAll(disk, Body(p, parent, true, [x] + rest)) == disk - Doomed([x] + rest, disk)
    decreases |rest|, 2
  {
    hide Body, Doomed, Delete;
    var n := LeadingUnder(rest, x);
    var sub, tail := Subtree(p, parent, x, rest[..n]), Body(p, parent, true, rest[n..]);
    var left := AfterBranch(x, rest[..n], disk);
    BodyPush(p, parent, x, rest);
    AfterRunNotUnder(x, rest);
    assert forall y :: y in rest[..n] || y in rest[n..] ==> y in [x] + rest;
    SubtreeDeletes(p, parent, x, rest[..n], disk);
    assert left <= disk by { AfterBranchExact(x, rest[..n], disk); }
    BodyDeletes(p, parent, rest[n..], left);
    DeleteAppend(disk, sub, tail);
    DoomedSplit(x, rest, n, disk);
  }

  lemma {:induction false} SubtreeDeletes(p: Policy, parent: Index, x: Index, s: seq<Index>, disk: set<Index>)
    requires AllStart(p) && Increasing(s) && FilesHoldNothing(p, s, disk)
    ensures DeleteAll(disk, Subtree(p, parent, x, s)) == AfterBranch(x, s, disk)
    decreases |s|, 1
  {
    hide Body, Doomed, Delete;
    var body := Body(p, x, true, s);
    var emptied := disk - Doomed(s, disk);
    BodyDeletes(p, x, s, disk);
    DeleteOne(disk, Start(x));
    DeleteAppend(disk, [Start(x)], body);
    assert [End(x), Process(parent, x)] == [End(x)] + [Process(parent, x)];
    DeleteOne(emptied, End(x));
    DeleteOne(Delete(emptied, x), Process(parent, x));
    DeleteAppend(emptied, [End(x)], [Process(parent, x)]);
    DeleteAppend(disk, [Start(x)] + body, [End(x), Process(parent, x)]);
  }

  lemma AfterBranchExact(x: Index, run: seq<Index>, disk: set<Index>)
    ensures AfterBranch(x, run, disk) ==
            disk - Doomed(run, disk) - if ListedUnder(run, disk, x) then {x} else {}
  {
    var emptied := disk - Doomed(run, disk);
    if z :| z in disk && x < z && z !in run {
      assert z in emptied;
    } else {
      assert ListedUnder(run, disk, x);
      forall z | z in disk && x < z ensures z !in emptied {
        assert ListedUnder(run, disk, z);
      }
    }
  }

  lemma DoomedSplit(x: Index, rest: seq<Index>, n: nat, disk: set<Index>)
    requires Increasing([x] + rest) && n == LeadingUnder(rest, x)
    ensures var left := AfterBranch(x, rest[..n], disk);
      left - Doomed(rest[n..], left) == disk - Doomed([x] + rest, disk)
  {
    var s, run, later := [x] + rest, rest[..n], rest[n..];
    var left := AfterBranch(x, run, disk);
    AfterBranchExact(x, run, disk);
    AfterRunNotUnder(x, rest);
    hide LeadingUnder, AfterBranch;
    assert s == [x] + run + later;
    hide ListedUnder;
    RunApart(x, run, later, disk, x);
    forall y | y in run ensures ListedUnder(s, disk, y) <==> ListedUnder(run, disk, y) {
      RunApart(x, run, later, disk, y);
    }
    forall y | y in later ensures ListedUnder(s, disk, y) <==> ListedUnder(later, left, y) {
      FirstIsLeast(x, rest, y);
      LaterApart(x, run, later, disk, left, y);
    }
    forall z ensures z in left - Doomed(later, left) <==> z in disk - Doomed(s, disk) {}
  }

  lemma RunApart(x: Index, run: seq<Index>, later: seq<Index>, disk: set<Index>, y: Index)
    requires x <= y && forall z :: z in later ==> !(x <= z)
    ensures ListedUnder([x] + run + later, disk, y) <==> ListedUnder(run, disk, y)
  {
    forall z | y < z ensures z in [x] + run + later <==> z in run {}
  }

  /** Nothing of the branch at x lies under what comes after it. */
  lemma LaterApart(x: Index, run: seq<Index>, later: seq<Index>, disk: set<Index>, left: set<Index>, y: Index)
    requires !(x <= y) && !(y <= x) && forall z :: z in run ==> x <= z
    requires left <= disk && forall z :: z in disk ==> z in left || z == x || z in run
    ensures ListedUnder([x] + run + later, disk, y) <==> ListedUnder(later, left, y)
  {
    var s := [x] + run + later;
    forall z | z in run ensures !(y < z) {
      if y < z { Comparable(x, y, z); }
    }
    forall z | z in disk && y < z ensures z in left && (z in s <==> z in later) {}
  }

  lemma Comparable(x: Index, y: Index, z: Index)
    requires x <= z && y <= z
    ensures x <= y || y <= x
  {
    assert x == z[..|x|] && y == z[..|y|];
  }

  /** deltree over a listing deletes what is listed and has nothing unlisted under it, and nothing else. */
  lemma DeltreeDeletes(p: Policy, s: seq<Index>, disk: set<Index>)
    requires AllStart(p) && s != [] && Increasing(s) && UnderFirst(s) && FilesHoldNothing(p, s[1..], disk)
    ensures DeleteAll(disk, TreeTrace(p, s)) == disk - Doomed(s, disk)
  {
    var x, rest := s[0], s[1..];
    var body := Body(p, x, true, rest);
    var emptied := disk - Doomed(rest, disk);
    hide Body, Doomed, Delete;
    RootFirst(s);
    BodyDeletes(p, x, rest, disk);
    DeleteOne(disk, Start(x));
    DeleteAppend(disk, [Start(x)], body);
    DeleteAppend(disk, [Start(x)] + body, [End(x)]);
    DeleteOne(emptied, End(x));
    AllUnder(x, rest);
    DoomedSplit(x, rest, |rest|, disk);
    assert rest[..|rest|] == rest && rest[|rest|..] == [];
    NoneDoomed(AfterBranch(x, rest, disk));
  }

  lemma {:induction false} AllUnder(x: Index, rest: seq<Index>)
    requires StrictlyUnder(rest, x)
    ensures LeadingUnder(rest, x) == |rest|
  {
    forall k | 0 <= k < |rest| ensures x <= rest[k] {
      assert rest[k] in rest;
    }
  }

  lemma NoneDoomed(disk: set<Index>)
    ensures Doomed([], disk) == {}
  {
  }

  // ----- the listing of Select without selection functions

  /** Every index in a directory and below, listed or not. */
  function Entries(nodes: seq<Selection.Node>, at: Index): set<Index>
    decreases nodes, 0
  {
    if nodes == [] then {} else EntriesOf(nodes[0], at + [nodes[0].name]) + Entries(nodes[1..], at)
  }

  function EntriesOf(node: Selection.Node, at: Index): set<Index>
    decreases node, 1
  {
    {at} + Entries(node.children, at)
  }

  /** Only directories hold anything, and no selection function has a say. */
  ghost predicate Unselected(nodes: seq<Selection.Node>) {
    forall n :: n in nodes ==>
      (!n.isDir ==> n.children == []) && Selection.IsVerdict([], n.verdict) && Unselected(n.children)
  }

  /** No socket and nothing unreadable. */
  ghost predicate NoneBlocked(nodes: seq<Selection.Node>) {
    forall n :: n in nodes ==> !n.blocked && NoneBlocked(n.children)
  }

  lemma {:induction false} EmitAllParts(nodes: seq<Selection.Node>, at: Index, y: Index)
    requires y in Selection.EmitAll(nodes, at)
    ensures exists i :: 0 <= i < |nodes| && y in Selection.Emit(nodes[i], at + [nodes[i].name])
  {
    if y in Selection.Emit(nodes[0], at + [nodes[0].name]) {
    } else {
      EmitAllParts(nodes[1..], at, y);
      var i :| 0 <= i < |nodes[1..]| && y in Selection.Emit(nodes[1..][i], at + [nodes[1..][i].name]);
      assert nodes[1..][i] == nodes[i + 1];
    }
  }

  lemma {:induction false} EmitFound(node: Selection.Node, at: Index)
    ensures forall y :: y in Selection.Emit(node, at) ==> y in EntriesOf(node, at)
    decreases node, 1
  {
    EmitAllFound(node.children, at);
  }

  lemma {:induction false} EmitAllFound(nodes: seq<Selection.Node>, at: Index)
    ensures forall y :: y in Selection.EmitAll(nodes, at) ==> y in Entries(nodes, at)
    decreases nodes, 0
  {
    if nodes != [] {
      EmitFound(nodes[0], at + [nodes[0].name]);
      EmitAllFound(nodes[1..], at);
    }
  }

  lemma {:induction false} EntriesBelow(nodes: seq<Selection.Node>, at: Index, y: Index)
    requires y in Entries(nodes, at)
    ensures at < y
    decreases nodes, 0
  {
    var sub := at + [nodes[0].name];
    if y in EntriesOf(nodes[0], sub) {
      EntriesOfBelow(nodes[0], sub, y);
      assert at < y && y[|at|] == (nodes[0].name);
    } else {
      EntriesBelow(nodes[1..], at, y);
    }
  }

  lemma {:induction false} EntriesOfBelow(node: Selection.Node, at: Index, y: Index)
    requires y in EntriesOf(node, at)
    ensures at <= y && (y == at || y in Entries(node.children, at))
    decreases node, 1
  {
    if y != at { EntriesBelow(node.children, at, y); }
  }

  /** Without a blocked node the listing is complete. */
  lemma {:induction false} ListsAll(nodes: seq<Selection.Node>, at: Index, y: Index)
    requires Unselected(nodes) && NoneBlocked(nodes) && y in Entries(nodes, at)
    ensures y in Selection.EmitAll(nodes, at)
    decreases nodes
  {
    var first, sub := nodes[0], at + [nodes[0].name];
    assert first in nodes;
    if y in EntriesOf(first, sub) {
      assert first.verdict.Include? && Selection.Yielded(first) == Some(0);
      if y != sub { ListsAll(first.children, sub, y); }
      assert y in Selection.Emit(first, sub);
    } else {
      ListsAll(nodes[1..], at, y);
    }
  }

  /** Under a blocked node, or at it, is an entry that is not listed. */
  lemma {:induction false} MissesOne(nodes: seq<Selection.Node>, at: Index) returns (z: Index)
    requires Selection.AllListed(nodes) && !NoneBlocked(nodes)
    ensures z in Entries(nodes, at) && z !in Selection.EmitAll(nodes, at)
    decreases nodes
  {
    var k :| 0 <= k < |nodes| && (nodes[k].blocked || !NoneBlocked(nodes[k].children));
    var node, sub := nodes[k], at + [nodes[k].name];
    z := sub;
    if !node.blocked {
      z := MissesOne(node.children, sub);
      EntriesBelow(node.children, sub, z);
    }
    assert sub <= z && z !in Selection.Emit(node, sub);
    EntryOf(nodes, at, k, z);
    NotListed(nodes, at, k, z);
  }

  lemma NotListed(nodes: seq<Selection.Node>, at: Index, k: nat, z: Index)
    requires k < |nodes| && Selection.NamesSorted(nodes) && at + [nodes[k].name] <= z
    requires z !in Selection.Emit(nodes[k], at + [nodes[k].name])
    ensures z !in Selection.EmitAll(nodes, at)
  {
    hide Selection.Emit, Selection.EmitAll;
    if z in Selection.EmitAll(nodes, at) {
      EmitAllParts(nodes, at, z);
      var i :| 0 <= i < |nodes| && z in Selection.Emit(nodes[i], at + [nodes[i].name]);
      EmitFound(nodes[i], at + [nodes[i].name]);
      EntriesOfBelow(nodes[i], at + [nodes[i].name], z);
      SameChild(nodes, at, i, k, z);
    }
  }

  lemma {:induction false} EntryOf(nodes: seq<Selection.Node>, at: Index, k: nat, z: Index)
    requires k < |nodes| && z in EntriesOf(nodes[k], at + [nodes[k].name])
    ensures z in Entries(nodes, at)
  {
    if k > 0 { EntryOf(nodes[1..], at, k - 1, z); }
  }

  /** The name under a directory tells its child. */
  lemma SameChild(nodes: seq<Selection.Node>, at: Index, i: nat, k: nat, z: Index)
    requires i < |nodes| && k < |nodes| && Selection.NamesSorted(nodes)
    requires at + [nodes[i].name] <= z && at + [nodes[k].name] <= z
    ensures i == k
  {
    assert at < z && z[|at|] == (nodes[i].name);
    assert at < z && z[|at|] == (nodes[k].name);
    BytesTotal(nodes[i].name, nodes[k].name);
  }

  /** What lies between a directory and one of its entries is a directory. */
  lemma {:induction false} EntriesInDirectories(
      paths: Index -> ROPath, nodes: seq<Selection.Node>, at: Index, x: Index, z: Index)
    requires Unselected(nodes) && Selection.Describes(paths, nodes, at)
    requires z in Entries(nodes, at) && at < x < z
    ensures paths(x).IsDir()
    decreases nodes
  {
    var first, sub := nodes[0], at + [nodes[0].name];
    assert first in nodes;
    if z in EntriesOf(first, sub) {
      EntriesOfBelow(first, sub, z);
      Comparable(sub, x, z);
      assert sub <= x && z in Entries(first.children, sub);
      if x == sub {
        assert first.children != [];
      } else {
        EntriesInDirectories(paths, first.children, sub, x, z);
      }
    } else {
      EntriesInDirectories(paths, nodes[1..], at, x, z);
    }
  }

  function Deleter(paths: Index -> ROPath): Policy {
    Policy(x => !paths(x).IsDir(), x => true)
  }

  predicate Unlisted(s: seq<Index>, disk: set<Index>, u: Index) {
    u in disk && u !in s
  }

  /** The tree below a root, as deltree finds it: only directories hold anything. */
  ghost predicate TreeOnDisk(paths: Index -> ROPath, root: Selection.Node) {
    && Selection.AllListed(root.children) && Selection.Describes(paths, root.children, [])
    && (paths([]).IsDir() <==> root.isDir) && (!root.isDir ==> root.children == []) && Unselected(root.children)
  }

  /** deltree of a tree leaves exactly the entries its listing passes over and the directories above them. */
  lemma DeltreeOfTree(paths: Index -> ROPath, root: Selection.Node)
    requires TreeOnDisk(paths, root)
    ensures var disk, s := EntriesOf(root, []), Selection.Iterated(root);
      DeleteAll(disk, TreeTrace(Deleter(paths), s)) == set z | z in disk && exists u :: Unlisted(s, disk, u) && z <= u
  {
    var disk, s, p := EntriesOf(root, []), Selection.Iterated(root), Deleter(paths);
    hide Selection.EmitAll, Entries, TreeTrace, DeleteAll;
    Selection.IteratedTree(paths, root);
    RootFirst(s);
    forall x, z | x in s[1..] && z in disk && x < z ensures !p.canFast(x) {
      EntriesInDirectories(paths, root.children, [], x, z);
    }
    DeltreeDeletes(p, s, disk);
    forall z | z in disk ensures z in Doomed(s, disk) <==> !exists u :: Unlisted(s, disk, u) && z <= u {
      DoomedIff(s, disk, z);
    }
  }

  lemma DoomedIff(s: seq<Index>, disk: set<Index>, z: Index)
    requires z in disk
    ensures z in Doomed(s, disk) <==> !exists u :: Unlisted(s, disk, u) && z <= u
  {
    if u :| Unlisted(s, disk, u) && z <= u {
      assert z < u || z == u;
    } else {
      assert z <= z && !Unlisted(s, disk, z);
      forall u | u in disk && z < u ensures u in s {
        assert z <= u && !Unlisted(s, disk, u);
      }
    }
  }

  /** Everything below the root is listed if and only if nothing there is a socket or unreadable. */
  lemma ListsAllIff(root: Selection.Node)
    requires Selection.AllListed(root.children) && Unselected(root.children) && (!root.isDir ==> root.children == [])
    ensures (forall u :: u in EntriesOf(root, []) ==> u in Selection.Iterated(root)) <==>
            NoneBlocked(root.children) && (root.blocked ==> root.children == [])
  {
    var s := Selection.Iterated(root);
    assert s[0] == [];
    if root.children == [] {
    } else if root.blocked {
      var sub := [] + [root.children[0].name];
      assert sub in EntriesOf(root.children[0], sub);
      EntryOf(root.children, [], 0, sub);
      assert sub !in s;
    } else if NoneBlocked(root.children) {
      forall u | u in Entries(root.children, []) ensures u in s { ListsAll(root.children, [], u); }
    } else {
      var z := MissesOne(root.children, []);
      EntriesBelow(root.children, [], z);
      assert z !in s;
    }
  }

  /** deltree leaves nothing if and only if nothing in the tree is a socket or unreadable. */
  lemma DeltreeDeletesAllIff(paths: Index -> ROPath, root: Selection.Node)
    requires TreeOnDisk(paths, root)
    ensures DeleteAll(EntriesOf(root, []), TreeTrace(Deleter(paths), Selection.Iterated(root))) == {} <==>
            NoneBlocked(root.children) && (root.blocked ==> root.children == [])
  {
    var disk, s := EntriesOf(root, []), Selection.Iterated(root);
    hide TreeTrace, DeleteAll, EntriesOf, Selection.Iterated;
    DeltreeOfTree(paths, root);
    ListsAllIff(root);
    if u :| Unlisted(s, disk, u) {
      assert u <= u;
      assert u in DeleteAll(disk, TreeTrace(Deleter(paths), s));
    } else {
      forall u | u in disk ensures u in s { assert !Unlisted(s, disk, u); }
    }
  }
}
