/**
 * Writing a restored tree to a disk with the tree reducer: making something takes the attributes of its directory
 * away, and the end of a branch gives them back.
 */
module TreeEffects {
  import opened Indices
  import opened Paths
  import opened TreeReducer
  import opened TreeShape

  /** A place on disk: with the archived attributes, or without them yet or any more. */
  datatype Slot = Disturbed | Written(p: ROPath)

  type Disk = map<Index, Slot>

  function ParentOf(x: Index): Index
    requires x != []
  {
    x[..|x| - 1]
  }

  /** Creating x changes the mtime of the directory it is in. */
  function Disturb(disk: Disk, x: Index): Disk {
    if x != [] && ParentOf(x) in disk then disk[ParentOf(x) := Disturbed] else disk
  }

  /** start_process makes a directory, fast_process copies a path, end_process copies attributes. */
  function WriteEvent(paths: Index -> ROPath, disk: Disk, e: Event): Disk {
    match e
    case Start(x) => Disturb(disk, x)[x := Disturbed]
    case Fast(x) => Disturb(disk, x)[x := Written(paths(x))]
    case End(x) => disk[x := Written(paths(x))]
    case _ => disk
  }

  /** Making something takes the attributes of its directory away; only the end of a branch gives any back. */
  lemma MakingDisturbs(paths: Index -> ROPath, disk: Disk, x: Index, y: Index)
    requires x != [] && ParentOf(x) in disk
    ensures WriteEvent(paths, disk, Start(x))[ParentOf(x)] == Disturbed
    ensures WriteEvent(paths, disk, Fast(x))[ParentOf(x)] == Disturbed
    ensures WriteEvent(paths, disk, Start(x))[x] == Disturbed
    ensures WriteEvent(paths, disk, End(y)) == disk[y := Written(paths(y))]
  {
    assert |ParentOf(x)| != |x|;
  }

  function WriteAll(paths: Index -> ROPath, disk: Disk, t: seq<Event>): Disk
    decreases |t|
  {
    if t == [] then disk else WriteAll(paths, WriteEvent(paths, disk, t[0]), t[1..])
  }

  lemma {:induction false} WriteAppend(paths: Index -> ROPath, disk: Disk, t: seq<Event>, u: seq<Event>)
    ensures WriteAll(paths, disk, t + u) == WriteAll(paths, WriteAll(paths, disk, t), u)
    decreases |t|
  {
    if t == [] {
      assert t + u == u;
    } else {
      assert (t + u)[1..] == t[1..] + u;
      WriteAppend(paths, WriteEvent(paths, disk, t[0]), t[1..], u);
    }
  }

  lemma WriteOne(paths: Index -> ROPath, disk: Disk, e: Event)
    ensures WriteAll(paths, disk, [e]) == WriteEvent(paths, disk, e)
  {
    assert [e][1..] == [];
  }

  /** Only directories need a branch, and every directory can be made. */
  ghost predicate WriterPolicy(p: Policy, paths: Index -> ROPath) {
    forall x :: p.startOk(x) && (p.canFast(x) <==> !paths(x).IsDir())
  }

  /** The directory of every path is in the stream. */
  ghost predicate Rooted(paths: Index -> ROPath, parent: Index, s: seq<Index>) {
    forall y :: y in s ==> y != [] && (ParentOf(y) == parent || (ParentOf(y) in s && paths(ParentOf(y)).IsDir()))
  }

  lemma RootedAt(paths: Index -> ROPath, parent: Index, s: seq<Index>, y: Index)
    requires Rooted(paths, parent, s) && y in s
    ensures y != [] && (ParentOf(y) == parent || (ParentOf(y) in s && paths(ParentOf(y)).IsDir()))
  {
  }

  /** after differs from before only at s, where everything is written, and perhaps at parent. */
  ghost predicate Writes(paths: Index -> ROPath, parent: Index, s: seq<Index>, before: Disk, after: Disk) {
    && (forall x :: x in s ==> x in after && after[x] == Written(paths(x)))
    && (forall z :: z !in s && z != parent ==> (z in after <==> z in before) && (z in after ==> after[z] == before[z]))
  }

  lemma ParentIsEarlier(y: Index)
    requires y != []
    ensures Less(ParentOf(y), y)
  {
    PrefixAtMost(ParentOf(y), y);
  }

  lemma ParentUnder(parent: Index, x: Index, y: Index)
    requires parent < x < y
    ensures x <= ParentOf(y) && ParentOf(y) != parent
  {
  }

  lemma InRun(x: Index, rest: seq<Index>, z: Index)
    requires Increasing([x] + rest) && z in rest && x <= z
    ensures z in rest[..LeadingUnder(rest, x)]
  {
    AfterRunNotUnder(x, rest);
    hide LeadingUnder, Increasing;
    assert rest == rest[..LeadingUnder(rest, x)] + rest[LeadingUnder(rest, x)..];
  }

  lemma RunRooted(paths: Index -> ROPath, parent: Index, x: Index, rest: seq<Index>)
    requires Increasing([x] + rest) && StrictlyUnder([x] + rest, parent) && Rooted(paths, parent, [x] + rest)
    ensures Rooted(paths, x, rest[..LeadingUnder(rest, x)])
  {
    var s, run := [x] + rest, rest[..LeadingUnder(rest, x)];
    AfterRunNotUnder(x, rest);
    assert parent < x by { UnderParts(parent, x, rest, 0); }
    forall y | y in run
      ensures y != [] && (ParentOf(y) == x || (ParentOf(y) in run && paths(ParentOf(y)).IsDir()))
    {
      assert y in s && x < y;
      hide LeadingUnder, StrictlyUnder, Increasing, Rooted;
      RootedAt(paths, parent, s, y);
      ParentUnder(parent, x, y);
      if ParentOf(y) != x {
        assert ParentOf(y) in rest;
        InRun(x, rest, ParentOf(y));
      }
    }
  }

  lemma RootedParts(paths: Index -> ROPath, parent: Index, x: Index, rest: seq<Index>)
    requires Increasing([x] + rest) && StrictlyUnder([x] + rest, parent) && Rooted(paths, parent, [x] + rest)
    ensures x != [] && ParentOf(x) == parent
    ensures !paths(x).IsDir() ==> Rooted(paths, parent, rest)
    ensures Rooted(paths, parent, rest[LeadingUnder(rest, x)..])
  {
    var s, n := [x] + rest, LeadingUnder(rest, x);
    AfterRunNotUnder(x, rest);
    OrderFacts();
    hide LeadingUnder, StrictlyUnder;
    assert x in s;
    ParentIsEarlier(x);
    assert ParentOf(x) == parent by {
      if ParentOf(x) in rest { FirstIsLeast(x, rest, ParentOf(x)); }
    }
    assert forall y :: y in rest ==> y in s;
    forall y | y in rest[n..]
      ensures y != [] && (ParentOf(y) == parent || (ParentOf(y) in rest[n..] && paths(ParentOf(y)).IsDir()))
    {
      assert y in s && !(x <= y);
      if ParentOf(y) != parent {
        assert !(x <= ParentOf(y));
        assert ParentOf(y) in s;
      }
    }
  }

  lemma {:induction false} BodyWrites(p: Policy, paths: Index -> ROPath, parent: Index, s: seq<Index>, disk: Disk)
    requires WriterPolicy(p, paths) && Increasing(s) && StrictlyUnder(s, parent) && Rooted(paths, parent, s)
    ensures Writes(paths, parent, s, disk, WriteAll(paths, disk, Body(p, parent, true, s)))
    decreases |s|, 0
  {
    if s != [] {
      var x, rest := s[0], s[1..];
      assert s == [x] + rest;
      var n := LeadingUnder(rest, x);
      UnderParts(parent, x, rest, n);
      RootedParts(paths, parent, x, rest);
      RunRooted(paths, parent, x, rest);
      AfterRunNotUnder(x, rest);
      if p.canFast(x) {
        var first := WriteEvent(paths, disk, Fast(x));
        WriteOne(paths, disk, Fast(x));
        WriteAppend(paths, disk, [Fast(x)], Body(p, parent, true, rest));
        BodyWrites(p, paths, parent, rest, first);
        WritesFirst(paths, parent, x, rest, disk, first, WriteAll(paths, first, Body(p, parent, true, rest)));
      } else {
        var sub, tail := Subtree(p, parent, x, rest[..n]), Body(p, parent, true, rest[n..]);
        BodyPush(p, parent, x, rest);
        SubtreeWrites(p, paths, parent, x, rest[..n], disk);
        var middle := WriteAll(paths, disk, sub);
        BodyWrites(p, paths, parent, rest[n..], middle);
        WriteAppend(paths, disk, sub, tail);
        WritesJoin(paths, parent, x, rest, n, disk, middle, WriteAll(paths, middle, tail));
      }
    }
  }

  lemma WritesFirst(
      paths: Index -> ROPath, parent: Index, x: Index, rest: seq<Index>, disk: Disk, first: Disk, after: Disk)
    requires Increasing([x] + rest) && x != [] && ParentOf(x) == parent
    requires first == WriteEvent(paths, disk, Fast(x)) && Writes(paths, parent, rest, first, after)
    ensures Writes(paths, parent, [x] + rest, disk, after)
  {
    OrderFacts();
    assert x !in rest by {
      if x in rest { FirstIsLeast(x, rest, x); }
    }
    forall z | z !in [x] + rest ensures z !in rest && z != x {
      assert x in [x] + rest;
    }
  }

  lemma WritesJoin(
      paths: Index -> ROPath, parent: Index, x: Index, rest: seq<Index>, n: nat, disk: Disk, middle: Disk, after: Disk)
    requires Increasing([x] + rest) && StrictlyUnder([x] + rest, parent) && n == LeadingUnder(rest, x)
    requires Writes(paths, parent, [x] + rest[..n], disk, middle)
    requires Writes(paths, parent, rest[n..], middle, after)
    ensures Writes(paths, parent, [x] + rest, disk, after)
  {
    AfterRunNotUnder(x, rest);
    var s := [x] + rest;
    assert s == ([x] + rest[..n]) + rest[n..];
    forall y | y in [x] + rest[..n] ensures y !in rest[n..] && y != parent {
      assert x <= y && y in s;
    }
  }

  lemma {:induction false} SubtreeWrites(
      p: Policy, paths: Index -> ROPath, parent: Index, x: Index, s: seq<Index>, disk: Disk)
    requires WriterPolicy(p, paths) && Increasing(s) && StrictlyUnder(s, x) && Rooted(paths, x, s)
    requires x != [] && ParentOf(x) == parent
    ensures Writes(paths, parent, [x] + s, disk, WriteAll(paths, disk, Subtree(p, parent, x, s)))
    decreases |s|, 1
  {
    hide Body;
    var body := Body(p, x, true, s);
    var d1 := WriteEvent(paths, disk, Start(x));
    var d2 := WriteAll(paths, d1, body);
    BodyWrites(p, paths, x, s, d1);
    WriteOne(paths, disk, Start(x));
    WriteAppend(paths, disk, [Start(x)], body);
    var close := [End(x), Process(parent, x)];
    assert close == [End(x)] + [Process(parent, x)];
    WriteAppend(paths, d2, [End(x)], [Process(parent, x)]);
    WriteOne(paths, d2, End(x));
    WriteOne(paths, WriteEvent(paths, d2, End(x)), Process(parent, x));
    WriteAppend(paths, disk, [Start(x)] + body, close);
    assert WriteAll(paths, disk, Subtree(p, parent, x, s)) == d2[x := Written(paths(x))];
    forall z | z !in [x] + s ensures z !in s && z != x {
      assert x in [x] + s;
    }
    forall y | y in s ensures y != x { assert x < y; }
  }

  /**
   * Writing a restored tree leaves every path, directories included, with its archived
   * attributes, although writing a path disturbs the directory it is in.
   */
  lemma RestoredAttributesSurvive(p: Policy, paths: Index -> ROPath, s: seq<Index>, disk: Disk)
    requires s != [] && Increasing(s) && UnderFirst(s)
    requires WriterPolicy(p, paths) && Rooted(paths, s[0], s[1..])
    ensures var d := WriteAll(paths, disk, TreeTrace(p, s));
      (forall x :: x in s ==> x in d && d[x] == Written(paths(x))) && (forall z :: z in d <==> z in s || z in disk)
  {
    hide Body;
    var x, rest := s[0], s[1..];
    RootFirst(s);
    var body := Body(p, x, true, rest);
    var d1 := WriteEvent(paths, disk, Start(x));
    BodyWrites(p, paths, x, rest, d1);
    WriteOne(paths, disk, Start(x));
    WriteAppend(paths, disk, [Start(x)], body);
    WriteAppend(paths, disk, [Start(x)] + body, [End(x)]);
    WriteOne(paths, WriteAll(paths, d1, body), End(x));
  }
}
