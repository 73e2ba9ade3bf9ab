/** The sessions as tar files: what is written is what is read back. */
module Archives {
  import opened Indices
  import opened Paths
  import opened Collate
  import opened CombineIters
  import opened DiffDir
  import opened Sessions
  import opened TarNames
  import opened Strings
  import opened DeltaTar
  import opened DifftarReader

  // ----- difftars

  /** Reading the volumes of one split file gives its data and leaves what follows. */
  lemma {:induction false} RunOfVolumes(p: ROPath, n: nat, rest: Bytes, after: seq<TarEntry>)
    requires ValidDelta(p) && p.IsReg()
    requires after != [] ==> !InRun(after[0], p.index)
    ensures var entries := Entries(VolumeBlocks(p, n, rest)) + after;
      RunData(entries, p.index) == rest && SkipRun(entries, p.index) == after
    decreases |rest|
  {
    hide GetIndex, VolumeName;
    var blocks := VolumeBlocks(p, n, rest);
    var entries := Entries(blocks) + after;
    VolumeNameLabel(p, n, blocks[0].entry);
    assert entries[1..] == Entries(blocks[1..]) + after;
    if |rest| < READ_SIZE {
      assert entries[1..] == after;
      assert RunData(after, p.index) == "";
      assert rest + "" == rest;
    } else {
      RunOfVolumes(p, n + 1, rest[READ_SIZE..], after);
      assert rest == rest[..READ_SIZE] + rest[READ_SIZE..];
    }
  }

  lemma FirstLabel(p: ROPath)
    requires ValidDelta(p)
    ensures BlocksOf(p) != [] && GetIndex(BlocksOf(p)[0].entry).Ok?
    ensures var tag := GetIndex(BlocksOf(p)[0].entry).value;
      tag == Label(p.index, p.difftype, p.IsReg() && |p.data| >= READ_SIZE)
  {
    hide GetIndex, VolumeName, SingleName;
    var e := BlocksOf(p)[0].entry;
    if p.IsReg() && |p.data| >= READ_SIZE {
      VolumeNameLabel(p, 1, e);
    } else {
      SingleNameLabel(p, e);
    }
  }

  ghost predicate ValidDeltas(deltas: seq<ROPath>) {
    Sorted(deltas) && forall p :: p in deltas ==> ValidDelta(p)
  }

  /** The members of one delta path read back, whatever follows them. */
  lemma FirstPath(p: ROPath, after: seq<TarEntry>)
    requires ValidDelta(p) && (after != [] ==> !InRun(after[0], p.index))
    ensures PathsIn(Entries(BlocksOf(p)) + after) == [Archived(p)] + PathsIn(after)
  {
    hide GetIndex, VolumeName, SingleName, SkipRun, RunData, InRun;
    FirstLabel(p);
    var entries := Entries(BlocksOf(p)) + after;
    if p.IsReg() && |p.data| >= READ_SIZE {
      RunOfVolumes(p, 1, p.data, after);
    } else {
      assert entries[1..] == after;
    }
  }

  lemma EntriesAppend(a: seq<TarBlock>, b: seq<TarBlock>)
    ensures Entries(a + b) == Entries(a) + Entries(b)
  {
  }

  lemma NextIsOther(deltas: seq<ROPath>)
    requires ValidDeltas(deltas) && |deltas| > 1
    ensures var after := Entries(AllBlocks(deltas[1..])); after != [] && !InRun(after[0], deltas[0].index)
  {
    hide GetIndex, BlocksOf;
    FirstLabel(deltas[1]);
    assert Entries(AllBlocks(deltas[1..]))[0] == BlocksOf(deltas[1])[0].entry;
    Total(deltas[0].index, deltas[1].index);
  }

  /**
   * difftar2path_iter over the blocks of DeltaTarBlockIter gives back the delta paths in order
   * with their data, however large and also when a length is a multiple of the block size.
   */
  lemma {:induction false} DifftarRoundTrip(deltas: seq<ROPath>)
    requires ValidDeltas(deltas)
    ensures PathsIn(Entries(AllBlocks(deltas))) == ReadBack(deltas)
  {
    hide BlocksOf, InRun, Archived;
    if deltas != [] {
      var p, rest := deltas[0], deltas[1..];
      DifftarRoundTrip(rest);
      EntriesAppend(BlocksOf(p), AllBlocks(rest));
      if rest != [] { NextIsOther(deltas); }
      FirstPath(p, Entries(AllBlocks(rest)));
      assert ReadBack(deltas) == [Archived(p)] + ReadBack(rest);
    }
  }

  lemma {:induction false} VolumesNamed(p: ROPath, n: nat, rest: Bytes)
    requires ValidDelta(p) && p.IsReg()
    ensures !HasBadName(Entries(VolumeBlocks(p, n, rest)))
    decreases |rest|
  {
    hide GetIndex, VolumeName;
    var blocks := VolumeBlocks(p, n, rest);
    VolumeNameLabel(p, n, blocks[0].entry);
    if |rest| >= READ_SIZE { VolumesNamed(p, n + 1, rest[READ_SIZE..]); }
    forall e | e in Entries(blocks) ensures GetIndex(e).Ok? {
      var k :| 0 <= k < |blocks| && Entries(blocks)[k] == e;
      assert k > 0 ==> Entries(blocks[1..])[k - 1] == e;
    }
  }

  /** No entry of a written difftar is refused by the reader, so a consumer never fails on it. */
  lemma {:induction false} WrittenNamesAreGood(deltas: seq<ROPath>)
    requires ValidDeltas(deltas)
    ensures !HasBadName(Entries(AllBlocks(deltas)))
  {
    hide GetIndex, VolumeName, SingleName;
    if deltas != [] {
      var p := deltas[0];
      WrittenNamesAreGood(deltas[1..]);
      AllBlocksFirst(deltas);
      hide AllBlocks, BlocksOf;
      EntriesJoin(BlocksOf(p), AllBlocks(deltas[1..]));
      hide Entries;
      PathNamesAreGood(p);
    }
  }

  lemma PathNamesAreGood(p: ROPath)
    requires ValidDelta(p)
    ensures !HasBadName(Entries(BlocksOf(p)))
  {
    hide GetIndex, VolumeName, SingleName;
    FirstLabel(p);
    if p.IsReg() && |p.data| >= READ_SIZE { VolumesNamed(p, 1, p.data); }
  }

  /**
   * Written and read back: a consumer never fails, gets every delta in order, and of each the bytes it reads,
   * which a read of negative length makes all of them.
   */
  method ConsumeWritten(deltas: seq<ROPath>, wanted: seq<seq<int>>) returns (paths: seq<ROPath>, datas: seq<Bytes>)
    requires ValidDeltas(deltas) && |wanted| == |deltas|
    ensures |paths| == |datas| == |deltas|
    ensures forall k :: 0 <= k < |deltas| ==> paths[k] == Archived(deltas[k]).(data := "")
    ensures forall k :: 0 <= k < |deltas| ==> datas[k] == Part(deltas[k].data, wanted[k])
    ensures forall k :: 0 <= k < |deltas| && wanted[k] != [] && wanted[k][0] < 0 ==> datas[k] == deltas[k].data
  {
    forall p | p in deltas ensures PassesAsserts(p) { assert ValidDelta(p); }
    hide PathsIn, ValidDeltas, AllBlocks, HasBadName;
    DifftarRoundTrip(deltas);
    WrittenNamesAreGood(deltas);
    var entries := WriteBlocks(deltas);
    var r;
    r, paths, datas := Consume(entries, wanted);
  }

  // ----- sigtars

  predicate ValidSig(p: ROPath) {
    && ValidIndex(p.index)
    && (p.IsReg() ==> p.difftype.Signature?)
    && (!p.IsReg() ==> p.data == "")
    && (p.Exists() && !p.IsReg() ==> p.difftype.Snapshot?)
    && (!p.Exists() ==> p == DeletedPath(p.index))
  }

  /** The member get_delta_iter adds for one signature set entry. */
  function SigEntry(p: ROPath): TarEntry {
    GetTarinfo(p).(name := DiffTypeName(p.difftype) + "/" + Join(p.index), data := p.data)
  }

  function SigEntries(sigs: seq<ROPath>): seq<TarEntry> {
    seq(|sigs|, n requires 0 <= n < |sigs| => SigEntry(sigs[n]))
  }

  /** The member of a regular file is named as a signature, of anything else as a snapshot or a deletion. */
  lemma SigEntryNamed(p: ROPath)
    requires ValidSig(p)
    ensures HeaderOf(p, SigEntry(p)) && SigEntry(p).data == p.data
    ensures SigEntry(p).name ==
            (if p.kind.Reg? then "signature/" else if p.kind.Missing? then "deleted/" else "snapshot/") + Join(p.index)
  {
    assert "signature" + "/" == "signature/" && "deleted" + "/" == "deleted/" && "snapshot" + "/" == "snapshot/";
  }

  /** tuple(name.split("/")) without the empty component of a trailing slash. */
  function SigIndex(name: Bytes): Index {
    var parts := Split(name);
    if parts != [] && parts[|parts| - 1] == "" then parts[..|parts| - 1] else parts
  }

  function SigDiffType(name: Bytes): Option<DiffType> {
    if "signature/" <= name then Some(Signature)
    else if "snapshot/" <= name then Some(Snapshot)
    else if "deleted/" <= name then Some(Deleted)
    else None
  }

  /** One step of sigtar2path_iter; None where it raises for a bad name. */
  function SigPathOf(e: TarEntry): Option<ROPath> {
    var name := ReadName(e);
    match SigDiffType(name)
    case None => None
    case Some(difftype) =>
      var index := SigIndex(name[|DiffTypeName(difftype)| + 1..]);
      if difftype.Deleted? then Some(DeletedPath(index))
      else Some(ROPath(index, e.kind, e.mode, e.uid, e.gid, NonNegative(e.mtime), difftype,
                       if e.kind.Reg? then e.data else ""))
  }

  /** sigtar2path_iter, up to a bad name. */
  function SigPaths(entries: seq<TarEntry>): seq<ROPath> {
    if entries == [] || SigPathOf(entries[0]).None? then []
    else [SigPathOf(entries[0]).value] + SigPaths(entries[1..])
  }

  lemma SigDiffTypeOf(d: DiffType, rest: Bytes)
    requires d.Signature? || d.Snapshot? || d.Deleted?
    ensures var name := DiffTypeName(d) + "/" + rest;
      SigDiffType(name) == Some(d) && name[|DiffTypeName(d)| + 1..] == rest
  {
    var name := DiffTypeName(d) + "/" + rest;
    PrefixCut(DiffTypeName(d) + "/", rest);
    match d
    case Signature => assert DiffTypeName(d) + "/" == "signature/";
    case Snapshot =>
      assert DiffTypeName(d) + "/" == "snapshot/";
      assert !("signature/" <= name) by { assert name[1] == 'n'; }
    case Deleted =>
      assert DiffTypeName(d) + "/" == "deleted/";
      assert !("signature/" <= name) && !("snapshot/" <= name) by { assert name[0] == 'd'; }
  }

  lemma {:induction false} SplitTrailingSlash(i: Index)
    requires i != [] && ValidIndex(i)
    ensures Split(Join(i) + "/") == i + [""]
  {
    hide FirstOf;
    assert ValidComponent(i[0]) && "/" == ['/'];
    if |i| == 1 {
      FirstOfAfter("", '/', "");
      FirstOfAfter(i[0], '/', "");
      assert i[0] + ['/'] + "" == i[0] + "/";
      assert Split("") == [""];
      assert [i[0]] + [""] == i + [""];
    } else {
      SplitTrailingSlash(i[1..]);
      var rest := Join(i[1..]) + "/";
      FirstOfAfter(i[0], '/', rest);
      Assoc(i[0] + "/", Join(i[1..]), "/");
      assert Join(i) + "/" == i[0] + ['/'] + rest;
      assert Split(Join(i) + "/") == [i[0]] + Split(rest);
      Assoc([i[0]], i[1..], [""]);
      assert [i[0]] + i[1..] == i;
    }
  }

  lemma SigIndexOfJoin(i: Index)
    requires ValidIndex(i)
    ensures SigIndex(Join(i)) == i
    ensures i != [] ==> SigIndex(Join(i) + "/") == i
  {
    if i == [] {
      assert Split("") == [""];
    } else {
      SplitJoin(i);
      SplitTrailingSlash(i);
      assert ValidComponent(i[|i| - 1]);
    }
  }

  lemma SigEntryReadsBack(p: ROPath)
    requires ValidSig(p)
    ensures SigPathOf(SigEntry(p)) == Some(Archived(p))
  {
    hide SigDiffType, SigIndex, DiffTypeName;
    var e := SigEntry(p);
    SigIndexOfJoin(p.index);
    SigDiffTypeOf(p.difftype, Join(p.index));
    if p.IsDir() && p.index != [] {
      JoinShape(p.index);
      SigDiffTypeOf(p.difftype, Join(p.index) + "/");
      var stem := DiffTypeName(p.difftype) + "/";
      assert e.name[|e.name| - 1] == Join(p.index)[|Join(p.index)| - 1];
      assert e.name + "/" == stem + (Join(p.index) + "/");
    }
  }

  /** sigtar2path_iter gives back the signature set that was written. */
  lemma {:induction false} SigtarRoundTrip(sigs: seq<ROPath>)
    requires forall p :: p in sigs ==> ValidSig(p)
    ensures SigPaths(SigEntries(sigs)) == ReadBack(sigs)
  {
    hide SigPathOf, SigEntry;
    if sigs != [] {
      SigEntryReadsBack(sigs[0]);
      SigtarRoundTrip(sigs[1..]);
      assert SigEntries(sigs)[1..] == SigEntries(sigs[1..]);
      assert ReadBack(sigs) == [Archived(sigs[0])] + ReadBack(sigs[1..]);
    }
  }

  // ----- a run of sessions through its tar files

  datatype Archive = Archive(difftar: seq<TarEntry>, sigtar: seq<TarEntry>)

  function ReadSession(a: Archive): Session {
    Session(PathsIn(a.difftar), SigPaths(a.sigtar))
  }

  function ReadAll(archives: seq<Archive>): seq<Session> {
    seq(|archives|, n requires 0 <= n < |archives| => ReadSession(archives[n]))
  }

  function WriteSession(rs: Librsync, tree: seq<ROPath>, earlier: seq<Archive>): Archive {
    var sigIter := Combined(SigIters(ReadAll(earlier)));
    Archive(Entries(AllBlocks(Deltas(rs, tree, sigIter))), SigEntries(NewSigs(rs, tree, sigIter)))
  }

  function ArchiveRun(rs: Librsync, trees: seq<seq<ROPath>>): seq<Archive> {
    if trees == [] then []
    else
      var earlier := ArchiveRun(rs, trees[..|trees| - 1]);
      earlier + [WriteSession(rs, trees[|trees| - 1], earlier)]
  }

  ghost predicate ValidNames(s: seq<ROPath>) {
    forall p :: p in s ==> ValidIndex(p.index)
  }

  ghost predicate NamedSigs(sessions: seq<Session>) {
    forall n :: 0 <= n < |sessions| ==> ValidNames(sessions[n].sigs)
  }

  ghost predicate NamedTrees(trees: seq<seq<ROPath>>) {
    forall n :: 0 <= n < |trees| ==> Sorted(trees[n]) && ValidNames(trees[n])
  }

  lemma {:induction false} SortedMember(s: seq<ROPath>, p: ROPath)
    requires Sorted(s) && p in s
    ensures Lookup(s, p.index) == Some(p)
  {
    if s[0] != p {
      assert p in s[1..];
      var n :| 0 <= n < |s| && s[n] == p;
      Total(s[0].index, p.index);
      SortedMember(s[1..], p);
    }
  }

  lemma CombinedNames(iters: Iters)
    requires AllSorted(iters) && forall n :: 0 <= n < |iters| ==> ValidNames(iters[n])
    ensures Sorted(Combined(iters)) && ValidNames(Combined(iters))
  {
    CombinedLookup(iters, []);
    forall p | p in Combined(iters) ensures ValidIndex(p.index) {
      CombinedLookup(iters, p.index);
      SortedMember(Combined(iters), p);
      var elems := LookupAll(iters, p.index);
      assert Any(elems);
      var n :| 0 <= n < |elems| && elems[n].Some?;
      assert elems[n].value in iters[n];
    }
  }

  lemma ChangeIsValid(rs: Librsync, i: Index, newPath: Option<ROPath>, sig: Option<ROPath>)
    requires newPath.Some? ==> newPath.value.index == i && ValidIndex(i)
    requires sig.Some? ==> sig.value.index == i && ValidIndex(i)
    ensures var delta := DeltaAt(rs, i, newPath, sig); delta.Some? ==> ValidDelta(delta.value)
    ensures var newSig := NewSigAt(rs, i, newPath, sig); newSig.Some? ==> ValidSig(newSig.value)
  {
  }

  lemma DeltasAreValid(rs: Librsync, tree: seq<ROPath>, sigIter: seq<ROPath>)
    requires Sorted(tree) && Sorted(sigIter) && ValidNames(tree) && ValidNames(sigIter)
    ensures ValidDeltas(Deltas(rs, tree, sigIter))
    ensures forall p :: p in NewSigs(rs, tree, sigIter) ==> ValidSig(p)
  {
    hide Deltas, NewSigs, DeltaAt, NewSigAt, ValidDelta, ValidSig, ValidIndex;
    var deltas, sigs := Deltas(rs, tree, sigIter), NewSigs(rs, tree, sigIter);
    DeltasLookup(rs, tree, sigIter, []);
    forall p | p in deltas + sigs
      ensures p in deltas ==> ValidDelta(p)
      ensures p in sigs ==> ValidSig(p)
    {
      DeltasLookup(rs, tree, sigIter, p.index);
      if p in deltas { SortedMember(deltas, p); }
      if p in sigs { SortedMember(sigs, p); }
      ChangeIsValid(rs, p.index, Lookup(tree, p.index), Lookup(sigIter, p.index));
    }
  }

  lemma SessionReadsBack(rs: Librsync, tree: seq<ROPath>, earlier: seq<Archive>)
    requires Sorted(tree) && ValidNames(tree)
    requires AllSorted(SigIters(ReadAll(earlier)))
    requires NamedSigs(ReadAll(earlier))
    ensures ReadSession(WriteSession(rs, tree, earlier)) == BackUp(rs, tree, ReadAll(earlier))
    ensures ValidNames(BackUp(rs, tree, ReadAll(earlier)).sigs)
  {
    hide Deltas, NewSigs, PathsIn, SigPaths, AllBlocks, SigEntries, ValidDelta, ValidIndex, ReadAll, Combined;
    var sigIter := Combined(SigIters(ReadAll(earlier)));
    CombinedNames(SigIters(ReadAll(earlier)));
    DeltasAreValid(rs, tree, sigIter);
    DifftarRoundTrip(Deltas(rs, tree, sigIter));
    SigtarRoundTrip(NewSigs(rs, tree, sigIter));
    ReadBackNames(NewSigs(rs, tree, sigIter));
  }

  lemma ReadBackNames(sigs: seq<ROPath>)
    requires forall p :: p in sigs ==> ValidSig(p)
    ensures ValidNames(ReadBack(sigs))
  {
    forall p | p in ReadBack(sigs) ensures ValidIndex(p.index) {
      var n :| 0 <= n < |sigs| && ReadBack(sigs)[n] == p;
      assert ValidSig(sigs[n]);
    }
  }

  /** Reading the tar files of a run back gives the sessions of the run. */
  lemma {:induction false} ArchivesReadBack(rs: Librsync, trees: seq<seq<ROPath>>)
    requires NamedTrees(trees)
    ensures ReadAll(ArchiveRun(rs, trees)) == Run(rs, trees)
    ensures NamedSigs(Run(rs, trees))
  {
    hide ValidIndex, WriteSession, ReadSession, BackUp;
    RunSorted(rs, trees);
    if trees != [] {
      var before, tree := trees[..|trees| - 1], trees[|trees| - 1];
      var earlier := ArchiveRun(rs, before);
      ArchivesReadBack(rs, before);
      RunSorted(rs, before);
      SessionReadsBack(rs, tree, earlier);
      assert ReadAll(ArchiveRun(rs, trees)) == ReadAll(earlier) + [ReadSession(WriteSession(rs, tree, earlier))];
    }
  }

  /**
   * The whole pipeline: writing every session to its tar files, reading them back and
   * integrating the first k deltas gives the tree of session k, for every k, if and only if
   * the trees are trackable.
   */
  lemma ArchivesRestoreFaithfullyIff(rs: Librsync, trees: seq<seq<ROPath>>)
    requires rs.Lawful() && NamedTrees(trees)
    ensures |ArchiveRun(rs, trees)| == |trees|
    ensures (forall k :: 0 < k <= |trees| ==>
               Faithful(Restored(rs, ReadAll(ArchiveRun(rs, trees)[..k])), trees[k - 1]))
       <==> Trackable(trees)
  {
    hide Restored, Run, ArchiveRun, ReadSession, Trackable, Faithful;
    ArchivesReadBack(rs, trees);
    RestoreIsFaithfulIff(rs, trees);
    var archives := ArchiveRun(rs, trees);
    assert |ReadAll(archives)| == |archives|;
    forall k | 0 < k <= |trees|
      ensures Faithful(Restored(rs, ReadAll(archives[..k])), trees[k - 1]) <==> FaithfulAfter(rs, trees, k)
    {
      assert ReadAll(archives[..k]) == ReadAll(archives)[..k];
    }
  }
}
