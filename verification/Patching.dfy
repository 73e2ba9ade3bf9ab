/** patch_diff_tarfile: the deltas of each session patched into the tree on disk. */
module Patching {
  import opened Indices
  import opened Paths
  import opened Collate
  import opened DiffDir
  import opened PatchDir
  import opened Sessions
  import opened TreeReducer
  import opened TreeShape
  import opened TreeEffects
  import opened Restores

  /** A path on disk, and whether it still has the attributes of its last delta. */
  datatype Held = Held(p: ROPath, intact: bool)

  type Files = map<Index, Held>

  function At(files: Files, i: Index): Option<ROPath> {
    if i in files then Some(files[i].p) else None
  }

  /** Making, renaming or removing something changes the mtime of the directory it is in. */
  function Touch(files: Files, x: Index): Files {
    if x != [] && ParentOf(x) in files then files[ParentOf(x) := files[ParentOf(x)].(intact := false)] else files
  }

  /** deltree of a directory, delete of anything else. */
  function Remove(files: Files, x: Index): Files {
    if DirectoryAt(At(files, x)) then Touch(map y | y in files && !(x <= y) :: files[y], x)
    else Touch(files - {x}, x)
  }

  /** copy and patch_with_attribs: the new path gets its attributes, where its directory is there. */
  function Put(files: Files, x: Index, p: ROPath): Result<Files> {
    if x == [] || DirectoryAt(At(files, ParentOf(x))) then Ok(Touch(files, x)[x := Held(p, true)]) else Err
  }

  /** fast_process, with a failed assertion as Err. */
  function FastProcess(rs: Librsync, files: Files, x: Index, diff: Option<ROPath>): Result<Files> {
    if diff.None? then Ok(files)
    else
      var diffPath := diff.value;
      if x !in files then
        if diffPath.difftype.Deleted? then Ok(files) else Put(files, x, CopyOf(diffPath))
      else if diffPath.difftype.Deleted? then Ok(Remove(files, x))
      else if !files[x].p.IsReg() || diffPath.difftype.Snapshot? then
        Put(Remove(files, x), x, CopyOf(diffPath))
      else if diffPath.difftype.Diff? && diffPath.IsReg() then
        Put(files, x, CopyOf(diffPath.(data := rs.patched(files[x].p.data, diffPath.data))))
      else Err
  }

  /** It fails where patching the path does, and where it would make something without a directory to hold it. */
  lemma FastFailsIff(rs: Librsync, files: Files, x: Index, diff: Option<ROPath>)
    requires x != [] ==> x !in files || DirectoryAt(At(files, ParentOf(x)))
    ensures FastProcess(rs, files, x, diff) == Err <==>
            ApplyPatch(rs, At(files, x), diff) == Err ||
            (x != [] && x !in files && diff.Some? && diff.value.difftype != Deleted &&
             !DirectoryAt(At(files, ParentOf(x))))
  {
    if x in files && x != [] { assert !(x <= ParentOf(x)); }
  }

  /** A directory fresh from mkdir. */
  function BareDir(x: Index): ROPath {
    ROPath(x, Dir, 0, 0, 0, 0, Plain, "")
  }

  /** start_process: a directory is made for a directory delta; only the root starts without one. */
  function StartProcess(rs: Librsync, files: Files, x: Index, diff: Option<ROPath>): Result<Files> {
    if !DirectoryAt(diff) then
      if x == [] then FastProcess(rs, files, x, diff) else Err
    else if DirectoryAt(At(files, x)) then Ok(files)
    else Ok(Remove(files, x)[x := Held(BareDir(x), false)])
  }

  /** end_process: the directory gets the attributes of its delta. */
  function EndProcess(files: Files, x: Index, diff: Option<ROPath>): Files {
    if DirectoryAt(diff) then files[x := Held(CopyOf(diff.value), true)] else files
  }

  function PatchEvent(rs: Librsync, ps: Index -> Option<ROPath>, files: Files, e: Event): Result<Files> {
    match e
    case Start(x) => StartProcess(rs, files, x, ps(x))
    case Fast(x) => FastProcess(rs, files, x, ps(x))
    case End(x) => Ok(EndProcess(files, x, ps(x)))
    case _ => Ok(files)
  }

  function PatchAll(rs: Librsync, ps: Index -> Option<ROPath>, files: Files, t: seq<Event>): Result<Files>
    decreases |t|
  {
    if t == [] then Ok(files)
    else
      match PatchEvent(rs, ps, files, t[0])
      case Err => Err
      case Ok(next) => PatchAll(rs, ps, next, t[1..])
  }

  /** can_fast_process: only the delta of a directory needs a branch. */
  function Patcher(ps: Index -> Option<ROPath>): Policy {
    Policy(x => !DirectoryAt(ps(x)), x => true)
  }

  lemma {:induction false} PatchAppend(
      rs: Librsync, ps: Index -> Option<ROPath>, files: Files, t: seq<Event>, u: seq<Event>, next: Files)
    requires PatchAll(rs, ps, files, t) == Ok(next)
    ensures PatchAll(rs, ps, files, t + u) == PatchAll(rs, ps, next, u)
    decreases |t|
  {
    if t == [] {
      assert t + u == u;
    } else {
      assert (t + u)[1..] == t[1..] + u;
      PatchAppend(rs, ps, PatchEvent(rs, ps, files, t[0]).value, t[1..], u, next);
    }
  }

  lemma PatchOne(rs: Librsync, ps: Index -> Option<ROPath>, files: Files, e: Event)
    ensures PatchAll(rs, ps, files, [e]) == PatchEvent(rs, ps, files, e)
  {
    assert [e][1..] == [];
  }

  // ----- one step of the patcher

  function AtAll(files: Files): Index -> Option<ROPath> {
    i => At(files, i)
  }

  ghost predicate TreeHeld(files: Files) {
    IsTree(AtAll(files))
  }

  lemma {:induction false} TreeAbove(at: Index -> Option<ROPath>, x: Index, z: Index)
    requires IsTree(at) && x < z && at(z).Some?
    ensures DirectoryAt(at(x))
    decreases |z|
  {
    assert Grounded(at, z);
    if x != ParentOf(z) { TreeAbove(at, x, ParentOf(z)); }
  }

  /** What patching s still needs: each delta fits what is there, and the target is a tree. */
  ghost predicate Ready(
      rs: Librsync, ps: Index -> Option<ROPath>, target: Index -> Option<ROPath>, s: seq<Index>, files: Files)
  {
    && IsTree(target) && TreeHeld(files)
    && (forall y :: y in s ==> Fits(rs, ps, target, files, y))
    && (forall y :: y in s ==> ParentReady(target, s, files, y))
    && (forall x, z :: x in s && z in files && x <= z && z !in s ==> target(z) == At(files, z))
  }

  ghost predicate Fits(
      rs: Librsync, ps: Index -> Option<ROPath>, target: Index -> Option<ROPath>, files: Files, y: Index)
  {
    ApplyPatch(rs, At(files, y), ps(y)) == Ok(target(y)) && (ps(y).Some? ==> IsPatch(ps(y).value))
  }

  ghost predicate ParentReady(target: Index -> Option<ROPath>, s: seq<Index>, files: Files, y: Index) {
    y != [] && target(y).Some? ==> ParentOf(y) in s || DirectoryAt(At(files, ParentOf(y)))
  }

  /** Patching changes what the directory holds, not only the attributes of something in it. */
  predicate Acts(before: Option<ROPath>, diff: Option<ROPath>) {
    && diff.Some? && !(diff.value.difftype.Deleted? && before.None?)
    && !(DirectoryAt(diff) && DirectoryAt(before))
  }

  predicate TouchedBy(ps: Index -> Option<ROPath>, files: Files, j: Index, z: Index) {
    j != [] && ParentOf(j) == z && Acts(At(files, j), ps(j))
  }

  ghost predicate Touched(ps: Index -> Option<ROPath>, files: Files, s: seq<Index>, z: Index) {
    exists j :: j in s && TouchedBy(ps, files, j, z)
  }

  /** s is patched: its paths are those of the target, and every other path is as before. */
  ghost predicate Patches(
      ps: Index -> Option<ROPath>, target: Index -> Option<ROPath>, s: seq<Index>, before: Files, after: Files)
  {
    && TreeHeld(after)
    && (forall z :: At(after, z) == if z in s then target(z) else At(before, z))
    && (forall z :: z in after ==> (after[z].intact <==> Intact(ps, s, before, z)))
  }

  /** A delta of its own makes a path intact; without one it stays so unless its directory's contents change. */
  ghost predicate Intact(ps: Index -> Option<ROPath>, s: seq<Index>, before: Files, z: Index) {
    (z in s && ps(z).Some?) || (z in before && before[z].intact && !Touched(ps, before, s, z))
  }

  /** Where something is held, so is everything above it, as a directory. */
  lemma HeldAbove(files: Files, x: Index, z: Index)
    requires TreeHeld(files) && x < z && z in files
    ensures DirectoryAt(At(files, x))
  {
    TreeAbove(AtAll(files), x, z);
  }

  lemma HeldTree(files: Files)
    ensures TreeHeld(files) <==>
            forall i :: i in files ==> [] in files && (i != [] ==> DirectoryAt(At(files, ParentOf(i))))
  {
    forall i ensures Grounded(AtAll(files), i) <==>
                     (i in files ==> [] in files && (i != [] ==> DirectoryAt(At(files, ParentOf(i))))) {}
  }

  lemma RemoveStep(files: Files, x: Index)
    requires TreeHeld(files)
    ensures TreeHeld(Remove(files, x))
    ensures forall z :: At(Remove(files, x), z) == if x <= z then None else At(files, z)
    ensures forall z :: z in Remove(files, x) ==>
                          (Remove(files, x)[z].intact <==>
                           z in files && files[z].intact && !(x != [] && z == ParentOf(x)))
  {
    var next := Remove(files, x);
    HeldTree(files);
    HeldTree(next);
    hide TreeHeld;
    forall z ensures At(next, z) == if x <= z then None else At(files, z) {
      if x <= z && z in files {
        if x < z { HeldAbove(files, x, z); } else { assert x == z; }
      }
    }
    forall i | i in next ensures [] in next && (i != [] ==> DirectoryAt(At(next, ParentOf(i)))) {
      assert i in files && At(next, i) == At(files, i);
      assert At(next, []) == At(files, []) || x == [];
      assert i != [] ==> At(next, ParentOf(i)) == At(files, ParentOf(i));
    }
  }

  lemma PutStep(files: Files, x: Index, p: ROPath)
    requires TreeHeld(files) && (x == [] || DirectoryAt(At(files, ParentOf(x))))
    requires !DirectoryAt(At(files, x))
    ensures Put(files, x, p).Ok? && TreeHeld(Put(files, x, p).value)
    ensures forall z :: At(Put(files, x, p).value, z) == if z == x then Some(p) else At(files, z)
    ensures forall z :: z in Put(files, x, p).value ==>
                          (Put(files, x, p).value[z].intact <==>
                           z == x || (z in files && files[z].intact && !(x != [] && z == ParentOf(x))))
  {
    var next := Put(files, x, p).value;
    HeldTree(files);
    HeldTree(next);
    hide TreeHeld;
    assert forall z :: At(next, z) == if z == x then Some(p) else At(files, z);
    forall i | i in next ensures [] in next && (i != [] ==> DirectoryAt(At(next, ParentOf(i)))) {
      if i != [] {
        if i != x { assert i in files; }
        assert ParentOf(i) != x;
      }
    }
  }

  /** fast_process at x: the target is there, and nothing is left below a path that was replaced. */
  ghost predicate Stepped(
      ps: Index -> Option<ROPath>, target: Index -> Option<ROPath>, x: Index, files: Files, next: Files)
  {
    && TreeHeld(next)
    && (forall z :: At(next, z) ==
                    if z == x then target(x) else if x < z && ps(x).Some? then None else At(files, z))
    && (forall z :: z in next ==>
                      (next[z].intact <==> (z == x && ps(x).Some?) ||
                                           (z in files && files[z].intact && !TouchedBy(ps, files, x, z))))
  }

  /** start_process at x: a directory is there. */
  ghost predicate Started(ps: Index -> Option<ROPath>, x: Index, files: Files, next: Files) {
    && TreeHeld(next) && DirectoryAt(At(next, x)) && (forall z :: z != x ==> At(next, z) == At(files, z))
    && (forall z :: z in next && z != x ==>
                      (next[z].intact <==> z in files && files[z].intact && !TouchedBy(ps, files, x, z)))
  }

  lemma FastStep(
      rs: Librsync, ps: Index -> Option<ROPath>, target: Index -> Option<ROPath>, files: Files, x: Index)
    returns (next: Files)
    requires IsTree(target) && TreeHeld(files) && Fits(rs, ps, target, files, x) && !DirectoryAt(ps(x))
    requires ParentReady(target, [], files, x)
    ensures FastProcess(rs, files, x, ps(x)) == Ok(next) && Stepped(ps, target, x, files, next)
  {
    hide TreeHeld, Remove, Put, IsTree;
    if ps(x).None? {
      next := files;
    } else {
      var removed := Remove(files, x);
      RemoveStep(files, x);
      forall z | x < z && z in files ensures DirectoryAt(At(files, x)) { HeldAbove(files, x, z); }
      if target(x).None? {
        next := if x in files then removed else files;
      } else {
        var replaced := x in files && (!files[x].p.IsReg() || ps(x).value.difftype.Snapshot?);
        var basis := if replaced then removed else files;
        assert At(basis, x).None? || At(basis, x).value.IsReg();
        PutStep(basis, x, target(x).value);
        next := Put(basis, x, target(x).value).value;
        assert Acts(At(files, x), ps(x));
        assert forall z :: z in next && z != x ==> At(next, z) == At(basis, z) && z in basis;
      }
    }
  }

  lemma MakeStep(files: Files, x: Index)
    requires TreeHeld(files) && (x == [] || DirectoryAt(At(files, ParentOf(x)))) && !DirectoryAt(At(files, x))
    ensures var next := Remove(files, x)[x := Held(BareDir(x), false)];
      TreeHeld(next) && forall z :: z != x ==>
        At(next, z) == At(files, z) &&
        (z in next ==> (next[z].intact <==> files[z].intact && !(x != [] && z == ParentOf(x))))
  {
    var removed := Remove(files, x);
    hide TreeHeld, Remove;
    RemoveStep(files, x);
    forall z | z in files ensures !(x < z) {
      if x < z { HeldAbove(files, x, z); }
    }
    PutStep(removed, x, BareDir(x));
    var next := removed[x := Held(BareDir(x), false)];
    SameShape(Put(removed, x, BareDir(x)).value, next);
    hide Put;
    forall z | z != x ensures At(next, z) == At(files, z) && (z in next ==> next[z] == removed[z]) {
      assert At(next, z) == At(removed, z);
    }
  }

  lemma StartStep(
      rs: Librsync, ps: Index -> Option<ROPath>, target: Index -> Option<ROPath>, files: Files, x: Index)
    returns (next: Files)
    requires TreeHeld(files) && Fits(rs, ps, target, files, x) && DirectoryAt(ps(x))
    requires ParentReady(target, [], files, x)
    ensures StartProcess(rs, files, x, ps(x)) == Ok(next) && Started(ps, x, files, next)
  {
    FastFits(rs, ps, target, files, x);
    assert Acts(At(files, x), ps(x)) <==> !DirectoryAt(At(files, x));
    hide TreeHeld, Remove, ApplyPatch, Fits, IsPatch, Acts;
    next := StartProcess(rs, files, x, ps(x)).value;
    if !DirectoryAt(At(files, x)) {
      MakeStep(files, x);
      assert forall z :: z != x ==> At(next, z) == At(files, z);
    }
  }

  lemma SameShape(files: Files, next: Files)
    requires TreeHeld(files) && next.Keys == files.Keys
    requires forall z :: DirectoryAt(At(files, z)) ==> DirectoryAt(At(next, z))
    ensures TreeHeld(next)
  {
    HeldTree(files);
    HeldTree(next);
  }

  lemma EndStep(ps: Index -> Option<ROPath>, files: Files, x: Index)
    requires TreeHeld(files) && DirectoryAt(At(files, x)) && DirectoryAt(ps(x))
    ensures TreeHeld(EndProcess(files, x, ps(x)))
  {
    SameShape(files, EndProcess(files, x, ps(x)));
  }

  // ----- the steps of one branch put together

  lemma FastFits(
      rs: Librsync, ps: Index -> Option<ROPath>, target: Index -> Option<ROPath>, files: Files, x: Index)
    requires Fits(rs, ps, target, files, x)
    ensures !DirectoryAt(ps(x)) && ps(x).Some? ==> !DirectoryAt(target(x))
    ensures DirectoryAt(ps(x)) ==> target(x) == Some(CopyOf(ps(x).value))
    ensures target(x).None? ==> ApplyPatch(rs, None, ps(x)) == Ok(None)
    ensures target(x).None? && ps(x).None? ==> x !in files
  {
  }

  lemma ReadyFirst(
      rs: Librsync, ps: Index -> Option<ROPath>, target: Index -> Option<ROPath>, x: Index, rest: seq<Index>,
      files: Files)
    requires Ready(rs, ps, target, [x] + rest, files) && Increasing([x] + rest)
    ensures Fits(rs, ps, target, files, x) && ParentReady(target, [], files, x)
  {
    hide IsTree, TreeHeld, Fits;
    assert x in [x] + rest;
    if x != [] && ParentOf(x) in [x] + rest {
      ParentIsEarlier(x);
      if ParentOf(x) in rest { FirstIsLeast(x, rest, ParentOf(x)); }
    }
  }

  lemma ReadyAfterFast(
      rs: Librsync, ps: Index -> Option<ROPath>, target: Index -> Option<ROPath>, x: Index, rest: seq<Index>,
      files: Files, next: Files)
    requires Ready(rs, ps, target, [x] + rest, files) && Increasing([x] + rest) && !DirectoryAt(ps(x))
    requires Stepped(ps, target, x, files, next)
    ensures Ready(rs, ps, target, rest, next)
  {
    hide IsTree, TreeHeld;
    var s := [x] + rest;
    assert x in s;
    FastFits(rs, ps, target, files, x);
    forall y | y in rest ensures y in s && y != x && !(y <= x) { FirstIsLeast(x, rest, y); }
    forall z | x < z && target(z).Some? ensures DirectoryAt(target(x)) { TreeAbove(target, x, z); }
    forall y | y in rest ensures Fits(rs, ps, target, next, y) && ParentReady(target, rest, next, y) {
      FastFits(rs, ps, target, files, y);
    }
  }

  /** Once x is there, what touches a directory is what touched it before, except below a replaced path. */
  lemma TouchedAfterFast(
      rs: Librsync, ps: Index -> Option<ROPath>, target: Index -> Option<ROPath>, x: Index, rest: seq<Index>,
      files: Files, next: Files, z: Index)
    requires Ready(rs, ps, target, [x] + rest, files) && Increasing([x] + rest) && !DirectoryAt(ps(x))
    requires Stepped(ps, target, x, files, next)
    ensures z == x && ps(x).Some? ==> !Touched(ps, next, rest, x)
    ensures !(x <= z && ps(x).Some?) ==>
              (Touched(ps, files, [x] + rest, z) <==> TouchedBy(ps, files, x, z) || Touched(ps, next, rest, z))
  {
    var s := [x] + rest;
    assert x in s;
    forall y | y in rest ensures y in s && y != x { FirstIsLeast(x, rest, y); }
    FastFits(rs, ps, target, files, x);
    hide TreeHeld, Increasing;
    if z == x && ps(x).Some? {
      forall j | j in rest ensures !TouchedBy(ps, next, j, x) {
        if x < j {
          FastFits(rs, ps, target, files, j);
          if target(j).Some? { TreeAbove(target, x, j); }
        }
      }
    } else if !(x <= z && ps(x).Some?) {
      hide IsTree, Fits, Acts;
      forall j | j in rest ensures TouchedBy(ps, files, j, z) <==> TouchedBy(ps, next, j, z) {
        if j != [] && ParentOf(j) == z && x < j { assert x <= z; }
      }
    }
  }

  lemma IntactFirst(
      rs: Librsync, ps: Index -> Option<ROPath>, target: Index -> Option<ROPath>, x: Index, rest: seq<Index>,
      files: Files, next: Files, after: Files, z: Index)
    requires Ready(rs, ps, target, [x] + rest, files) && Increasing([x] + rest) && !DirectoryAt(ps(x))
    requires Stepped(ps, target, x, files, next) && Patches(ps, target, rest, next, after) && z in after
    requires x < z && ps(x).Some? ==> target(z).None?
    ensures after[z].intact <==> Intact(ps, [x] + rest, files, z)
  {
    TouchedAfterFast(rs, ps, target, x, rest, files, next, z);
    if x in rest { FirstIsLeast(x, rest, x); }
    hide IsTree, TreeHeld, Fits, Touched, TouchedBy, Increasing, Ready, DirectoryAt;
    assert At(after, z) == if z in rest then target(z) else At(next, z);
    assert !(x < z && ps(x).Some?);
    assert At(next, z) == if z == x then target(x) else At(files, z);
    assert z in [x] + rest <==> z == x || z in rest;
  }

  lemma HeldFirst(
      rs: Librsync, ps: Index -> Option<ROPath>, target: Index -> Option<ROPath>, x: Index, rest: seq<Index>,
      files: Files, next: Files, after: Files, z: Index)
    requires Ready(rs, ps, target, [x] + rest, files) && Increasing([x] + rest) && !DirectoryAt(ps(x))
    requires Stepped(ps, target, x, files, next) && Patches(ps, target, rest, next, after)
    ensures At(after, z) == if z in [x] + rest then target(z) else At(files, z)
    ensures x < z && ps(x).Some? ==> target(z).None?
  {
    var s := [x] + rest;
    assert x in s;
    FastFits(rs, ps, target, files, x);
    if x < z && ps(x).Some? {
      if target(z).Some? { TreeAbove(target, x, z); }
      assert z in files && z !in s ==> target(z) == At(files, z);
    }
    if x in rest { FirstIsLeast(x, rest, x); }
    hide IsTree, TreeHeld, Fits, Intact, Increasing, Ready, DirectoryAt;
    assert z in s <==> z == x || z in rest;
  }

  lemma PatchesFirst(
      rs: Librsync, ps: Index -> Option<ROPath>, target: Index -> Option<ROPath>, x: Index, rest: seq<Index>,
      files: Files, next: Files, after: Files)
    requires Ready(rs, ps, target, [x] + rest, files) && Increasing([x] + rest) && !DirectoryAt(ps(x))
    requires Stepped(ps, target, x, files, next) && Patches(ps, target, rest, next, after)
    ensures Patches(ps, target, [x] + rest, files, after)
  {
    hide Ready, Increasing, Stepped, Intact, DirectoryAt, TreeHeld;
    forall z
      ensures At(after, z) == if z in [x] + rest then target(z) else At(files, z)
      ensures z in after ==> (after[z].intact <==> Intact(ps, [x] + rest, files, z))
    {
      HeldFirst(rs, ps, target, x, rest, files, next, after, z);
      if z in after { IntactFirst(rs, ps, target, x, rest, files, next, after, z); }
    }
  }

  lemma ReadyInside(
      rs: Librsync, ps: Index -> Option<ROPath>, target: Index -> Option<ROPath>, x: Index, rest: seq<Index>,
      files: Files, next: Files)
    requires Ready(rs, ps, target, [x] + rest, files) && Increasing([x] + rest)
    requires Started(ps, x, files, next)
    ensures Ready(rs, ps, target, rest[..LeadingUnder(rest, x)], next)
  {
    AfterRunNotUnder(x, rest);
    hide IsTree, TreeHeld, LeadingUnder;
    var s, run := [x] + rest, rest[..LeadingUnder(rest, x)];
    assert rest == run + rest[|run|..];
    forall y | y in run ensures y in s && y != x && x < y { FirstIsLeast(x, rest, y); }
    forall y | y in run ensures Fits(rs, ps, target, next, y) && ParentReady(target, run, next, y) {
      ParentInside(x, y);
      if target(y).Some? && ParentOf(y) in s && ParentOf(y) != x { assert ParentOf(y) in rest; }
    }
    forall w, z | w in run && z in next && w <= z && z !in run ensures target(z) == At(next, z) {
      assert x <= z && z != x;
    }
  }

  lemma ParentInside(x: Index, y: Index)
    requires x < y
    ensures y != [] && x <= ParentOf(y)
  {
  }

  /** Nothing in tail is in part, or directly in a directory of part. */
  ghost predicate Apart(part: seq<Index>, tail: seq<Index>) {
    forall y :: y in tail ==> y !in part && (y != [] ==> ParentOf(y) !in part)
  }

  /** A subtree and what follows it: nothing that follows is in a directory of the subtree. */
  lemma RunThenTail(x: Index, rest: seq<Index>)
    requires Increasing([x] + rest)
    ensures var n := LeadingUnder(rest, x); [x] + rest == ([x] + rest[..n]) + rest[n..]
    ensures var n := LeadingUnder(rest, x); Apart([x] + rest[..n], rest[n..])
  {
    AfterRunNotUnder(x, rest);
    hide Increasing, LeadingUnder, Less;
    var n := LeadingUnder(rest, x);
    forall z | z in [x] + rest[..n] ensures x <= z {}
    forall y | y in rest[n..] && y != [] ensures !(x <= ParentOf(y)) {
      assert ParentOf(y) <= y;
    }
  }

  lemma ReadyAfterRun(
      rs: Librsync, ps: Index -> Option<ROPath>, target: Index -> Option<ROPath>, x: Index, rest: seq<Index>,
      files: Files, middle: Files)
    requires Ready(rs, ps, target, [x] + rest, files) && Increasing([x] + rest)
    requires Patches(ps, target, [x] + rest[..LeadingUnder(rest, x)], files, middle)
    ensures Ready(rs, ps, target, rest[LeadingUnder(rest, x)..], middle)
  {
    RunThenTail(x, rest);
    hide IsTree, TreeHeld, LeadingUnder, Increasing;
    var n := LeadingUnder(rest, x);
    var s, part, tail := [x] + rest, [x] + rest[..n], rest[n..];
    forall y | y in tail ensures y in s && y !in part {}
    forall y | y in tail ensures Fits(rs, ps, target, middle, y) && ParentReady(target, tail, middle, y) {
      hide ApplyPatch;
      assert Fits(rs, ps, target, files, y) && ParentReady(target, s, files, y);
    }
    forall w, z | w in tail && z in middle && w <= z && z !in tail ensures target(z) == At(middle, z) {
      if z in part {
        EarlierInRun(x, rest, n, z, w);
        EarlierNotUnder(z, w);
      }
    }
  }

  lemma TouchedJoin(
      ps: Index -> Option<ROPath>, part: seq<Index>, tail: seq<Index>, files: Files, middle: Files, z: Index)
    requires forall j :: j in tail ==> At(middle, j) == At(files, j)
    ensures Touched(ps, files, part + tail, z) <==> Touched(ps, files, part, z) || Touched(ps, middle, tail, z)
  {
    hide Acts;
    forall j ensures j in part + tail <==> j in part || j in tail {}
    forall j | j in tail ensures TouchedBy(ps, files, j, z) <==> TouchedBy(ps, middle, j, z) {}
  }

  lemma IntactJoin(
      ps: Index -> Option<ROPath>, target: Index -> Option<ROPath>, part: seq<Index>, tail: seq<Index>,
      files: Files, middle: Files, after: Files, z: Index)
    requires Apart(part, tail) && z in after
    requires Patches(ps, target, part, files, middle) && Patches(ps, target, tail, middle, after)
    ensures after[z].intact <==> Intact(ps, part + tail, files, z)
  {
    hide TreeHeld;
    TouchedJoin(ps, part, tail, files, middle, z);
    assert z in part ==> !Touched(ps, middle, tail, z);
    hide Touched;
    assert z !in tail ==> At(after, z) == At(middle, z);
  }

  lemma PatchesJoin(
      ps: Index -> Option<ROPath>, target: Index -> Option<ROPath>, part: seq<Index>, tail: seq<Index>,
      files: Files, middle: Files, after: Files)
    requires Apart(part, tail)
    requires Patches(ps, target, part, files, middle) && Patches(ps, target, tail, middle, after)
    ensures Patches(ps, target, part + tail, files, after)
  {
    hide TreeHeld, Intact, Apart;
    forall z ensures z in part + tail <==> z in part || z in tail {}
    forall z | z in after ensures after[z].intact <==> Intact(ps, part + tail, files, z) {
      IntactJoin(ps, target, part, tail, files, middle, after, z);
    }
  }

  /** A directory's branch, from start_process to end_process. */
  lemma PatchesInside(
      rs: Librsync, ps: Index -> Option<ROPath>, target: Index -> Option<ROPath>, x: Index, run: seq<Index>,
      files: Files, next: Files, inside: Files)
    requires Fits(rs, ps, target, files, x) && DirectoryAt(ps(x)) && StrictlyUnder(run, x)
    requires Started(ps, x, files, next) && Patches(ps, target, run, next, inside)
    ensures Patches(ps, target, [x] + run, files, EndProcess(inside, x, ps(x)))
  {
    hide IsTree, TreeHeld;
    var after := EndProcess(inside, x, ps(x));
    FastFits(rs, ps, target, files, x);
    forall y | y in run ensures y != x { assert x < y; }
    assert At(inside, x) == At(next, x);
    EndStep(ps, inside, x);
    var s := [x] + run;
    forall z ensures z in s <==> z == x || z in run {}
    forall j | j in run ensures At(next, j) == At(files, j) {}
    forall z | z in after ensures after[z].intact <==> Intact(ps, s, files, z) {
      if z != x {
        assert z in inside && At(next, z) == At(files, z);
        assert Touched(ps, files, s, z) <==> TouchedBy(ps, files, x, z) || Touched(ps, next, run, z);
      }
    }
  }

  lemma {:induction false} BodyPatches(
      rs: Librsync, ps: Index -> Option<ROPath>, target: Index -> Option<ROPath>, parent: Index, s: seq<Index>,
      files: Files)
    returns (after: Files)
    requires Ready(rs, ps, target, s, files) && Increasing(s) && [] !in s
    ensures PatchAll(rs, ps, files, Body(Patcher(ps), parent, true, s)) == Ok(after)
    ensures Patches(ps, target, s, files, after)
    decreases |s|, 0
  {
    if s == [] {
      after := files;
    } else {
      var p, x, rest := Patcher(ps), s[0], s[1..];
      assert s == [x] + rest;
      var n := LeadingUnder(rest, x);
      AfterRunNotUnder(x, rest);
      hide Ready, Patches, Stepped, Increasing, LeadingUnder, Body, Apart;
      if p.canFast(x) {
        ReadyFirst(rs, ps, target, x, rest, files);
        var next := FastStep(rs, ps, target, files, x);
        ReadyAfterFast(rs, ps, target, x, rest, files, next);
        after := BodyPatches(rs, ps, target, parent, rest, next);
        PatchesFirst(rs, ps, target, x, rest, files, next, after);
        PatchOne(rs, ps, files, Fast(x));
        PatchAppend(rs, ps, files, [Fast(x)], Body(p, parent, true, rest), next);
      } else {
        var middle := SubtreePatches(rs, ps, target, parent, x, rest, files);
        ReadyAfterRun(rs, ps, target, x, rest, files, middle);
        after := BodyPatches(rs, ps, target, parent, rest[n..], middle);
        RunThenTail(x, rest);
        PatchesJoin(ps, target, [x] + rest[..n], rest[n..], files, middle, after);
        BodyPush(p, parent, x, rest);
        PatchAppend(rs, ps, files, Subtree(p, parent, x, rest[..n]), Body(p, parent, true, rest[n..]), middle);
      }
    }
  }

  lemma {:induction false} SubtreePatches(
      rs: Librsync, ps: Index -> Option<ROPath>, target: Index -> Option<ROPath>, parent: Index, x: Index,
      rest: seq<Index>, files: Files)
    returns (after: Files)
    requires Ready(rs, ps, target, [x] + rest, files) && Increasing([x] + rest) && DirectoryAt(ps(x))
    ensures var run := rest[..LeadingUnder(rest, x)];
      PatchAll(rs, ps, files, Subtree(Patcher(ps), parent, x, run)) == Ok(after) &&
      Patches(ps, target, [x] + run, files, after)
    decreases |rest|, 1
  {
    var p, run := Patcher(ps), rest[..LeadingUnder(rest, x)];
    AfterRunNotUnder(x, rest);
    ReadyFirst(rs, ps, target, x, rest, files);
    hide Ready, Patches, Started, Fits, Increasing, LeadingUnder, Body;
    var next := StartStep(rs, ps, target, files, x);
    ReadyInside(rs, ps, target, x, rest, files, next);
    var inside := BodyPatches(rs, ps, target, x, run, next);
    after := EndProcess(inside, x, ps(x));
    PatchesInside(rs, ps, target, x, run, files, next, inside);
    var body := Body(p, x, true, run);
    PatchOne(rs, ps, files, Start(x));
    PatchAppend(rs, ps, files, [Start(x)], body, next);
    PatchAppend(rs, ps, files, [Start(x)] + body, [End(x), Process(parent, x)], inside);
    PatchOne(rs, ps, inside, End(x));
    PatchAppend(rs, ps, inside, [End(x)], [Process(parent, x)], after);
    PatchOne(rs, ps, after, Process(parent, x));
    assert [End(x)] + [Process(parent, x)] == [End(x), Process(parent, x)];
  }

  /** The whole stream, whose root gets a branch whatever its delta. */
  lemma RootPatches(
      rs: Librsync, ps: Index -> Option<ROPath>, target: Index -> Option<ROPath>, rest: seq<Index>, files: Files)
    returns (next: Files, inside: Files)
    requires Ready(rs, ps, target, [[]] + rest, files) && Increasing([[]] + rest)
    ensures StartProcess(rs, files, [], ps([])) == Ok(next)
    ensures PatchAll(rs, ps, next, Body(Patcher(ps), [], true, rest)) == Ok(inside)
    ensures Patches(ps, target, [[]] + rest, files, EndProcess(inside, [], ps([])))
  {
    AfterRunNotUnder([], rest);
    assert LeadingUnder(rest, []) == |rest| && rest[..|rest|] == rest;
    assert [] !in rest;
    hide Ready, Patches, Stepped, Started, Increasing, LeadingUnder, Body, Fits, PatchAll;
    ReadyFirst(rs, ps, target, [], rest, files);
    if DirectoryAt(ps([])) {
      next := StartStep(rs, ps, target, files, []);
      ReadyInside(rs, ps, target, [], rest, files, next);
      inside := BodyPatches(rs, ps, target, [], rest, next);
      PatchesInside(rs, ps, target, [], rest, files, next, inside);
    } else {
      next := FastStep(rs, ps, target, files, []);
      ReadyAfterFast(rs, ps, target, [], rest, files, next);
      inside := BodyPatches(rs, ps, target, [], rest, next);
      PatchesFirst(rs, ps, target, [], rest, files, next, inside);
    }
  }

  lemma TracePatches(
      rs: Librsync, ps: Index -> Option<ROPath>, target: Index -> Option<ROPath>, s: seq<Index>, files: Files)
    returns (after: Files)
    requires Ready(rs, ps, target, s, files) && Increasing(s) && (s != [] ==> s[0] == [])
    ensures PatchAll(rs, ps, files, TreeTrace(Patcher(ps), s)) == Ok(after) && Patches(ps, target, s, files, after)
  {
    if s == [] {
      PatchOne(rs, ps, files, EndUnstarted);
      after := files;
    } else {
      hide Ready, Patches, Increasing, Body, StartProcess, EndProcess;
      var rest := s[1..];
      assert s == [[]] + rest;
      var body := Body(Patcher(ps), [], true, rest);
      var next, inside := RootPatches(rs, ps, target, rest, files);
      after := EndProcess(inside, [], ps([]));
      PatchOne(rs, ps, files, Start([]));
      PatchOne(rs, ps, inside, End([]));
      hide PatchAll;
      PatchAppend(rs, ps, files, [Start([])], body, next);
      PatchAppend(rs, ps, files, [Start([])] + body, [End([])], inside);
    }
  }

  // ----- a run of sessions

  function DeltasOf(deltas: seq<ROPath>): Index -> Option<ROPath> {
    i => Lookup(deltas, i)
  }

  /** patch_diff_tarfile, called for the indices of the collated rows. */
  function PatchSession(rs: Librsync, files: Files, deltas: seq<ROPath>, rows: seq<Index>): Result<Files> {
    PatchAll(rs, DeltasOf(deltas), files, TreeTrace(Patcher(DeltasOf(deltas)), rows))
  }

  /** The rows: every delta, and whatever the listing still finds on disk, the root at least. */
  ghost predicate Collated(rows: seq<Index>, files: Files, deltas: seq<ROPath>) {
    && Increasing(rows) && (forall i :: Lookup(deltas, i).Some? ==> i in rows)
    && (forall i :: i in rows ==> i in files || Lookup(deltas, i).Some?) && ([] in files ==> [] in rows)
  }

  /** Every session patched into what the ones before it left, starting from an empty place. */
  function PatchRun(rs: Librsync, sessions: seq<Session>, rows: nat -> seq<Index>): Result<Files> {
    if sessions == [] then Ok(map[])
    else
      var k := |sessions| - 1;
      match PatchRun(rs, sessions[..k], rows)
      case Err => Err
      case Ok(files) => PatchSession(rs, files, sessions[k].deltas, rows(k))
  }

  ghost predicate AllCollated(rs: Librsync, sessions: seq<Session>, rows: nat -> seq<Index>) {
    forall k :: 0 <= k < |sessions| ==> CollatedAt(rs, sessions, rows, k)
  }

  /** The rows of session k are those that collating its deltas with the disk gives. */
  ghost predicate CollatedAt(rs: Librsync, sessions: seq<Session>, rows: nat -> seq<Index>, k: nat)
    requires k < |sessions|
  {
    var before := PatchRun(rs, sessions[..k], rows);
    before.Ok? ==> Collated(rows(k), before.value, sessions[k].deltas)
  }

  /** The next session writes the path again. */
  predicate IsRewritten(recorded: Option<ROPath>, source: Option<ROPath>) {
    source.Some? && !(recorded.Some? && source.value.Equal(recorded.value))
  }

  predicate IsDropped(i: Index, recorded: Option<ROPath>, source: Option<ROPath>) {
    i != [] && recorded.Some? && source.None?
  }

  predicate Rewritten(before: seq<seq<ROPath>>, tree: seq<ROPath>, i: Index) {
    IsRewritten(RecordedAt(before, i), SourceAt(tree, i))
  }

  predicate Dropped(before: seq<seq<ROPath>>, tree: seq<ROPath>, i: Index) {
    IsDropped(i, RecordedAt(before, i), SourceAt(tree, i))
  }

  /** What happens at i changes the directory that i is in. */
  predicate Alters(before: seq<seq<ROPath>>, tree: seq<ROPath>, i: Index) {
    Dropped(before, tree, i) ||
    (Rewritten(before, tree, i) && !(DirectoryAt(SourceAt(tree, i)) && DirectoryAt(RecordedAt(before, i))))
  }

  ghost predicate Disturbs(before: seq<seq<ROPath>>, tree: seq<ROPath>, j: Index, i: Index) {
    j != [] && ParentOf(j) == i && Alters(before, tree, j)
  }

  /** Since it was last written, no session has changed what is directly in the directory i. */
  ghost predicate Undisturbed(trees: seq<seq<ROPath>>, i: Index) {
    trees != [] &&
    var before, tree := trees[..|trees| - 1], trees[|trees| - 1];
    Rewritten(before, tree, i) || (Undisturbed(before, i) && forall j :: !Disturbs(before, tree, j, i))
  }

  /** The delta made against the signature of a recorded path fits that path. */
  lemma DeltaFits(rs: Librsync, i: Index, newPath: Option<ROPath>, sig: Option<ROPath>, recorded: Option<ROPath>)
    requires rs.Lawful() && Describes(rs, sig, recorded) && (recorded.Some? ==> recorded.value.Exists())
    ensures var source := if PresentAt(newPath) then newPath else None;
      var patch := ReadBackAt(DeltaAt(rs, i, newPath, sig));
      ApplyPatch(rs, recorded, patch) == Ok(RecordedStep(i, recorded, source)) &&
      (patch.Some? ==> IsPatch(patch.value)) &&
      (patch.Some? <==> IsRewritten(recorded, source) || IsDropped(i, recorded, source)) &&
      (Acts(recorded, patch) <==>
       IsDropped(i, recorded, source) ||
       (IsRewritten(recorded, source) && !(DirectoryAt(source) && DirectoryAt(recorded)))) &&
      (recorded.None? && patch.Some? ==> RecordedStep(i, recorded, source).Some?)
  {
    if PresentAt(newPath) {
      if recorded.Some? {
        EqualIffSameIdentity(newPath.value, recorded.value);
        EqualIffSameIdentity(newPath.value, sig.value);
      }
      StepOfPresent(rs, i, newPath.value, sig, recorded);
    }
  }

  /** The last delta of a run at one index fits what is recorded there and makes it what is recorded next. */
  lemma DeltaFacts(rs: Librsync, trees: seq<seq<ROPath>>, i: Index)
    requires rs.Lawful() && Trees(trees) && trees != []
    ensures |Run(rs, trees)| == |trees|
    ensures var before, tree := trees[..|trees| - 1], trees[|trees| - 1];
      var patch := Lookup(Run(rs, trees)[|trees| - 1].deltas, i);
      ApplyPatch(rs, RecordedAt(before, i), patch) == Ok(RecordedAt(trees, i)) &&
      (patch.Some? ==> IsPatch(patch.value)) &&
      (patch.Some? <==> Rewritten(before, tree, i) || Dropped(before, tree, i)) &&
      (Acts(RecordedAt(before, i), patch) <==> Alters(before, tree, i)) &&
      (RecordedAt(before, i).None? && patch.Some? ==> RecordedAt(trees, i).Some?)
  {
    var before, tree := trees[..|trees| - 1], trees[|trees| - 1];
    assert RecordedAt(trees, i) == RecordedStep(i, RecordedAt(before, i), SourceAt(tree, i));
    hide Run, EarlierSig, RecordedStep, RecordedAt, ApplyPatch, DeltaAt, IsPatch, Describes, Sorted, Lookup, Acts,
      IsRewritten, IsDropped, Trees, ReadBackAt;
    DeltaOrigin(rs, trees, i);
    DeltaFits(rs, i, Lookup(tree, i), EarlierSig(rs, before, i), RecordedAt(before, i));
  }

  function RecordedIn(trees: seq<seq<ROPath>>): Index -> Option<ROPath> {
    i => RecordedAt(trees, i)
  }

  /** The files on disk are the recorded paths. */
  ghost predicate HoldsRecorded(files: Files, trees: seq<seq<ROPath>>) {
    forall i :: At(files, i) == RecordedAt(trees, i)
  }

  ghost predicate AllTrees(trees: seq<seq<ROPath>>) {
    Trees(trees) && forall n :: 0 <= n < |trees| ==> SourceIsTree(trees[n])
  }

  lemma RecordedTree(trees: seq<seq<ROPath>>)
    requires AllTrees(trees)
    ensures IsTree(RecordedIn(trees))
  {
    if trees != [] {
      RecordedIsTree(trees);
      assert forall i :: RecordedIn(trees)(i) == ((j: Index) => RecordedAt(trees, j))(i);
    }
  }

  lemma SameTree(at: Index -> Option<ROPath>, other: Index -> Option<ROPath>)
    requires IsTree(at) && forall i :: at(i) == other(i)
    ensures IsTree(other)
  {
    forall i ensures Grounded(other, i) { assert Grounded(at, i); }
  }

  /** What the last session of a run has in its difftar. */
  function LastDeltas(rs: Librsync, trees: seq<seq<ROPath>>): seq<ROPath>
    requires |Run(rs, trees)| == |trees| != 0
  {
    Run(rs, trees)[|trees| - 1].deltas
  }

  lemma SessionReady(rs: Librsync, trees: seq<seq<ROPath>>, files: Files, rows: seq<Index>)
    requires rs.Lawful() && AllTrees(trees) && trees != [] && |Run(rs, trees)| == |trees|
    requires HoldsRecorded(files, trees[..|trees| - 1]) && Collated(rows, files, LastDeltas(rs, trees))
    ensures Ready(rs, DeltasOf(LastDeltas(rs, trees)), RecordedIn(trees), rows, files)
    ensures rows != [] ==> rows[0] == []
  {
    var before, deltas := trees[..|trees| - 1], LastDeltas(rs, trees);
    var ps, target := DeltasOf(deltas), RecordedIn(trees);
    RecordedTree(trees);
    RecordedTree(before);
    SameTree(RecordedIn(before), AtAll(files));
    hide Run, RecordedAt, IsPatch, Lookup, Acts, Alters, Rewritten, Dropped, SourceIsTree, Sorted, Increasing;
    forall i ensures Fits(rs, ps, target, files, i) && (ps(i).Some? && i !in files ==> target(i).Some?) {
      DeltaFacts(rs, trees, i);
    }
    hide IsTree, ApplyPatch;
    forall i | i !in rows ensures target(i) == At(files, i) { UnchangedFits(rs, ps, target, files, i); }
    forall y | y in rows ensures ParentReady(target, rows, files, y) {
      assert Grounded(target, y);
    }
    RowsFromRoot(target, files, deltas, rows);
  }

  /** The rows start at the root. */
  lemma RowsFromRoot(target: Index -> Option<ROPath>, files: Files, deltas: seq<ROPath>, rows: seq<Index>)
    requires IsTree(target) && TreeHeld(files) && Collated(rows, files, deltas)
    requires forall i :: i !in rows ==> target(i) == At(files, i)
    requires forall i :: Lookup(deltas, i).Some? && i !in files ==> target(i).Some?
    ensures rows != [] ==> rows[0] == []
  {
    hide TreeHeld, Lookup;
    if rows != [] {
      assert rows[0] in rows;
      HeldTree(files);
      assert Grounded(target, rows[0]);
      assert [] in rows;
      var k :| 0 <= k < |rows| && rows[k] == [];
      PrefixAtMost([], rows[0]);
      OrderFacts();
    }
  }

  lemma UnchangedFits(
      rs: Librsync, ps: Index -> Option<ROPath>, target: Index -> Option<ROPath>, files: Files, i: Index)
    requires Fits(rs, ps, target, files, i) && ps(i).None?
    ensures target(i) == At(files, i)
  {
  }

  /** A session's own deltas decide which directories it changes. */
  lemma SessionIntact(rs: Librsync, trees: seq<seq<ROPath>>, files: Files, rows: seq<Index>, i: Index)
    requires rs.Lawful() && AllTrees(trees) && trees != [] && |Run(rs, trees)| == |trees|
    requires HoldsRecorded(files, trees[..|trees| - 1]) && Collated(rows, files, LastDeltas(rs, trees))
    requires RecordedAt(trees, i).Some?
    ensures var before, tree := trees[..|trees| - 1], trees[|trees| - 1];
      Intact(DeltasOf(LastDeltas(rs, trees)), rows, files, i) <==>
      Rewritten(before, tree, i) || (i in files && files[i].intact && forall j :: !Disturbs(before, tree, j, i))
  {
    var before, tree, ps := trees[..|trees| - 1], trees[|trees| - 1], DeltasOf(LastDeltas(rs, trees));
    DeltaFacts(rs, trees, i);
    assert !Dropped(before, tree, i);
    hide Run, Lookup, RecordedAt, SourceAt, Alters, Rewritten, Dropped, ApplyPatch, IsPatch, Increasing, AllTrees;
    forall j ensures TouchedBy(ps, files, j, i) <==> Disturbs(before, tree, j, i) {
      DeltaFacts(rs, trees, j);
    }
    forall j | TouchedBy(ps, files, j, i) ensures j in rows {}
  }

  /** One session patched into a disk that holds what the earlier ones record. */
  lemma SessionPatches(rs: Librsync, trees: seq<seq<ROPath>>, files: Files, rows: seq<Index>)
    requires rs.Lawful() && AllTrees(trees) && trees != [] && |Run(rs, trees)| == |trees|
    requires HoldsRecorded(files, trees[..|trees| - 1]) && Collated(rows, files, LastDeltas(rs, trees))
    ensures PatchSession(rs, files, LastDeltas(rs, trees), rows).Ok?
    ensures var after := PatchSession(rs, files, LastDeltas(rs, trees), rows).value;
      var before, tree := trees[..|trees| - 1], trees[|trees| - 1];
      HoldsRecorded(after, trees) && forall i :: i in after ==>
        (after[i].intact <==>
         Rewritten(before, tree, i) || (i in files && files[i].intact && forall j :: !Disturbs(before, tree, j, i)))
  {
    var before, tree, deltas := trees[..|trees| - 1], trees[|trees| - 1], LastDeltas(rs, trees);
    var ps, target := DeltasOf(deltas), RecordedIn(trees);
    SessionReady(rs, trees, files, rows);
    var after := TracePatches(rs, ps, target, rows, files);
    hide Run, Lookup, TreeHeld, Ready, RecordedAt, SourceAt, Intact, PatchAll, Collated, AllTrees, Trees;
    forall i
      ensures At(after, i) == RecordedAt(trees, i)
      ensures i in after ==> (after[i].intact <==> Intact(ps, rows, files, i))
    {
      DeltaFacts(rs, trees, i);
    }
    hide Patches;
    forall i | i in after
      ensures Intact(ps, rows, files, i) <==>
              Rewritten(before, tree, i) || (i in files && files[i].intact && forall j :: !Disturbs(before, tree, j, i))
    {
      SessionIntact(rs, trees, files, rows, i);
    }
  }

  /**
   * Patching the deltas of every session into the tree that the ones before it left never fails and leaves
   * the recorded tree. A path has its archived attributes exactly where it is undisturbed.
   */
  lemma {:induction false} PatchingGivesRecorded(rs: Librsync, trees: seq<seq<ROPath>>, rows: nat -> seq<Index>)
    requires rs.Lawful() && AllTrees(trees) && AllCollated(rs, Run(rs, trees), rows)
    ensures PatchRun(rs, Run(rs, trees), rows).Ok?
    ensures var files := PatchRun(rs, Run(rs, trees), rows).value;
      HoldsRecorded(files, trees) && forall i :: i in files ==> (files[i].intact <==> Undisturbed(trees, i))
  {
    RunSorted(rs, trees);
    if trees != [] {
      var k, sessions := |trees| - 1, Run(rs, trees);
      var before := trees[..k];
      PrefixOfRun(rs, trees, k);
      hide Run, PatchSession, Disturbs, Rewritten, Collated, HoldsRecorded, SourceIsTree, RecordedAt, Sorted;
      assert AllTrees(before);
      CollatedBefore(rs, sessions, rows, k);
      PatchingGivesRecorded(rs, before, rows);
      assert CollatedAt(rs, sessions, rows, k);
      hide AllTrees, AllCollated;
      var files := PatchRun(rs, sessions[..k], rows).value;
      assert sessions[k].deltas == LastDeltas(rs, trees);
      SessionPatches(rs, trees, files, rows(k));
      var after := PatchSession(rs, files, LastDeltas(rs, trees), rows(k)).value;
      assert PatchRun(rs, sessions, rows) == Ok(after);
      hide PatchRun;
      forall i | i in after ensures after[i].intact <==> Undisturbed(trees, i) {
        if !Rewritten(before, trees[k], i) { UnwrittenIsHeld(files, after, trees, i); }
      }
    }
  }

  /** What a session does not write was held before it. */
  lemma UnwrittenIsHeld(files: Files, after: Files, trees: seq<seq<ROPath>>, i: Index)
    requires trees != [] && HoldsRecorded(files, trees[..|trees| - 1]) && HoldsRecorded(after, trees) && i in after
    requires !Rewritten(trees[..|trees| - 1], trees[|trees| - 1], i)
    ensures i in files
  {
    assert At(after, i) == RecordedAt(trees, i) && At(files, i) == RecordedAt(trees[..|trees| - 1], i);
  }

  lemma CollatedBefore(rs: Librsync, sessions: seq<Session>, rows: nat -> seq<Index>, k: nat)
    requires AllCollated(rs, sessions, rows) && k <= |sessions|
    ensures AllCollated(rs, sessions[..k], rows)
  {
    hide PatchRun, Collated;
    forall n | 0 <= n < k ensures CollatedAt(rs, sessions[..k], rows, n) {
      assert CollatedAt(rs, sessions, rows, n) && sessions[..k][..n] == sessions[..n];
    }
  }

  /** Patching the sessions in one by one and integrating all their deltas first give the same paths. */
  lemma PatchingIsIntegrating(rs: Librsync, trees: seq<seq<ROPath>>, rows: nat -> seq<Index>)
    requires rs.Lawful() && AllTrees(trees) && AllCollated(rs, Run(rs, trees), rows)
    ensures PatchRun(rs, Run(rs, trees), rows).Ok?
    ensures forall i ::
              At(PatchRun(rs, Run(rs, trees), rows).value, i) == Lookup(Restored(rs, Run(rs, trees)), i)
  {
    PatchingGivesRecorded(rs, trees, rows);
    hide PatchRun, Run, Restored, RecordedAt, Lookup, Undisturbed;
    forall i
      ensures At(PatchRun(rs, Run(rs, trees), rows).value, i) == Lookup(Restored(rs, Run(rs, trees)), i)
    {
      RestoreGivesRecorded(rs, trees, i);
    }
  }

  /** After k sessions the disk has the tree of session k, and no directory has lost its archived attributes. */
  ghost predicate PatchedBackAfter(rs: Librsync, trees: seq<seq<ROPath>>, rows: nat -> seq<Index>, k: nat)
    requires 0 < k <= |trees| == |Run(rs, trees)|
  {
    match PatchRun(rs, Run(rs, trees)[..k], rows)
    case Err => false
    case Ok(files) =>
      (forall i :: Matches(At(files, i), SourceAt(trees[k - 1], i))) && (forall i :: i in files ==> files[i].intact)
  }

  ghost predicate AllUndisturbed(trees: seq<seq<ROPath>>) {
    forall i :: RecordedAt(trees, i).Some? ==> Undisturbed(trees, i)
  }

  lemma PatchedBackIff(rs: Librsync, trees: seq<seq<ROPath>>, rows: nat -> seq<Index>, k: nat)
    requires rs.Lawful() && AllTrees(trees) && 0 < k <= |trees| == |Run(rs, trees)|
    requires AllCollated(rs, Run(rs, trees), rows)
    ensures PatchedBackAfter(rs, trees, rows, k) <==> FaithfulAfter(rs, trees, k) && AllUndisturbed(trees[..k])
  {
    hide Run, RecordedAt, Matches, FaithfulAfter, SourceAt, Undisturbed, PatchRun, SourceIsTree;
    var before := trees[..k];
    PrefixOfRun(rs, trees, k);
    CollatedBefore(rs, Run(rs, trees), rows, k);
    PatchingGivesRecorded(rs, before, rows);
    FaithfulIffMatches(rs, trees, k);
    var files := PatchRun(rs, Run(rs, before), rows).value;
    forall i ensures Matches(At(files, i), SourceAt(trees[k - 1], i)) <==> MatchesAfter(trees, k, i) {}
    forall i ensures i in files <==> RecordedAt(before, i).Some? { assert At(files, i) == RecordedAt(before, i); }
  }

  /**
   * Patching the sessions in one after the other gives back each tree with all its archived attributes if
   * and only if the run is trackable and after every session no unchanged directory had its contents changed.
   */
  lemma PatchingGivesBackIff(rs: Librsync, trees: seq<seq<ROPath>>, rows: nat -> seq<Index>)
    requires rs.Lawful() && AllTrees(trees) && AllCollated(rs, Run(rs, trees), rows)
    ensures |Run(rs, trees)| == |trees|
    ensures (forall k :: 0 < k <= |trees| ==> PatchedBackAfter(rs, trees, rows, k)) <==>
            Trackable(trees) && forall k :: 0 < k <= |trees| ==> AllUndisturbed(trees[..k])
  {
    RestoreIsFaithfulIff(rs, trees);
    hide PatchedBackAfter, FaithfulAfter, AllUndisturbed, Trackable, Run, AllTrees, AllCollated;
    forall k | 0 < k <= |trees|
      ensures PatchedBackAfter(rs, trees, rows, k) <==> FaithfulAfter(rs, trees, k) && AllUndisturbed(trees[..k])
    {
      PatchedBackIff(rs, trees, rows, k);
    }
  }

  /** A file is patched in a directory that stays the same. */
  const PATCHED_FILE: seq<seq<ROPath>> := [[ROOT, SmallFile("a")], [ROOT, SmallFile("b").(mtime := 2)]]

  lemma PatchedFileAt(i: Index)
    ensures SourceAt(PATCHED_FILE[0], i) ==
            if i == [] then Some(ROOT) else if i == ["f"] then Some(SmallFile("a")) else None
    ensures SourceAt(PATCHED_FILE[1], i) ==
            if i == [] then Some(ROOT) else if i == ["f"] then Some(SmallFile("b").(mtime := 2)) else None
  {
    assert PATCHED_FILE[0][1..] == [SmallFile("a")] && PATCHED_FILE[1][1..] == [SmallFile("b").(mtime := 2)];
  }

  lemma PatchedFileDisturbs()
    ensures AllTrees(PATCHED_FILE) && Trackable(PATCHED_FILE)
    ensures RecordedAt(PATCHED_FILE, []).Some? && !Undisturbed(PATCHED_FILE, [])
  {
    var trees := PATCHED_FILE;
    forall i, n | 0 <= n < 2 ensures Grounded(SourceOf(trees[n]), i) {
      PatchedFileAt(i);
      PatchedFileAt([]);
      if i != [] { PatchedFileAt(ParentOf(i)); }
    }
    forall k, i | 0 < k < 2 ensures TrackableAfter(trees, k, i) { PatchedFileAt(i); }
    PatchedFileAt([]);
    PatchedFileAt(["f"]);
    assert trees[..1] == [trees[0]] && [trees[0]][..0] == [];
    assert Disturbs([trees[0]], trees[1], ["f"], []);
  }

  /** Integrating gives the second tree back, but patching takes the time of its directory away. */
  lemma PatchedFileLosesTime(rs: Librsync, rows: nat -> seq<Index>)
    requires rs.Lawful() && AllCollated(rs, Run(rs, PATCHED_FILE), rows)
    ensures |Run(rs, PATCHED_FILE)| == 2
    ensures FaithfulAfter(rs, PATCHED_FILE, 2) && !PatchedBackAfter(rs, PATCHED_FILE, rows, 2)
  {
    PatchedFileDisturbs();
    RestoreIsFaithfulIff(rs, PATCHED_FILE);
    hide Run, FaithfulAfter, PatchedBackAfter, Trackable, AllTrees, AllCollated, Undisturbed, RecordedAt;
    PatchedBackIff(rs, PATCHED_FILE, rows, 2);
    assert PATCHED_FILE[..2] == PATCHED_FILE;
  }

  // ----- the rows of collate2iters

  function RowIndices(rows: seq<Row>): seq<Index> {
    seq(|rows|, n requires 0 <= n < |rows| => rows[n].index)
  }

  /** Collating the deltas with any listing of the disk that has its root gives such rows. */
  lemma CollateGivesRows(files: Files, listing: seq<ROPath>, deltas: seq<ROPath>)
    requires Sorted(listing) && Sorted(deltas) && ([] in files ==> Lookup(listing, []).Some?)
    requires forall i :: Lookup(listing, i).Some? ==> i in files
    ensures Collated(RowIndices(OuterJoin([listing, deltas])), files, deltas)
  {
    var rows := OuterJoin([listing, deltas]);
    OuterJoinSorted([listing, deltas]);
    assert Increasing(RowIndices(rows));
    hide OuterJoin, Lookup, Sorted, Increasing, RowIndices, RowsSorted;
    forall i ensures i in RowIndices(rows) <==> Lookup(listing, i).Some? || Lookup(deltas, i).Some? {
      RowIndicesOfJoin(listing, deltas, i);
    }
  }

  lemma RowIndicesOfJoin(listing: seq<ROPath>, deltas: seq<ROPath>, i: Index)
    requires Sorted(listing) && Sorted(deltas)
    ensures i in RowIndices(OuterJoin([listing, deltas])) <==> Lookup(listing, i).Some? || Lookup(deltas, i).Some?
  {
    var rows, elems := OuterJoin([listing, deltas]), LookupAll([listing, deltas], i);
    OuterJoinIsOuterJoin([listing, deltas], i);
    hide OuterJoin, Lookup, Sorted;
    assert elems == [Lookup(listing, i), Lookup(deltas, i)];
    assert Any(elems) <==> elems[0].Some? || elems[1].Some?;
    if Any(elems) {
      var n :| 0 <= n < |rows| && rows[n] == RowAt(rows, i).value;
      assert RowIndices(rows)[n] == i;
    }
  }
}
