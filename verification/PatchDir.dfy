/** patchdir: putting the deltas of several sessions back together. */
module PatchDir {
  import opened Indices
  import opened Paths
  import opened Collate
  import opened MergeLoops
  import opened DiffDir

  /** An assertion of the source that fails is an Err. */
  datatype Result<+T> = Ok(value: T) | Err

  type PatchSeq = seq<Option<ROPath>>

  // ----- normalize_ps

  /** Everything after the last patch that is not a diff, with that patch in front. */
  function Normalized(ps: PatchSeq): seq<ROPath> {
    if ps == [] then []
    else
      var last := ps[|ps| - 1];
      if last.None? then Normalized(ps[..|ps| - 1])
      else if !last.value.difftype.Diff? then [last.value]
      else Normalized(ps[..|ps| - 1]) + [last.value]
  }

  method NormalizePs(patchSequence: PatchSeq) returns (resultList: seq<ROPath>)
    ensures resultList == Normalized(patchSequence)
  {
    resultList := [];
    var i := |patchSequence| - 1;
    assert patchSequence[..i + 1] == patchSequence;
    while i >= 0
      invariant -1 <= i < |patchSequence|
      invariant Normalized(patchSequence) == Normalized(patchSequence[..i + 1]) + resultList
    {
      var delta := patchSequence[i];
      assert patchSequence[..i + 1][..i] == patchSequence[..i];
      if delta.Some? {
        resultList := [delta.value] + resultList;
        if !delta.value.difftype.Diff? {
          break;
        }
        assert Normalized(patchSequence) == Normalized(patchSequence[..i]) + resultList;
      }
      i := i - 1;
    }
  }

  // ----- patch_seq2ropath

  /** get_ropath: the attributes without difftype and file object. */
  function GetROPath(p: ROPath): ROPath {
    p.(difftype := Plain, data := "")
  }

  /** The data after applying the diffs of a patch sequence, or Err where one is not a diff. */
  function PatchedData(rs: Librsync, basis: Bytes, diffs: seq<ROPath>): Result<Bytes>
    decreases |diffs|
  {
    if diffs == [] then Ok(basis)
    else if !diffs[0].difftype.Diff? then Err
    else PatchedData(rs, rs.patched(basis, diffs[0].data), diffs[1..])
  }

  function SeqToROPath(rs: Librsync, patches: seq<ROPath>): Result<ROPath> {
    if patches == [] || patches[0].difftype.Diff? then Err
    else if !patches[0].IsReg() then
      if |patches| == 1 then Ok(GetROPath(patches[0])) else Err
    else
      match PatchedData(rs, patches[0].data, patches[1..])
      case Err => Err
      case Ok(data) => Ok(GetROPath(patches[|patches| - 1]).(data := data))
  }

  method PatchSeqToROPath(rs: Librsync, patchSeq: seq<ROPath>) returns (r: Result<ROPath>)
    ensures r == SeqToROPath(rs, patchSeq)
  {
    if patchSeq == [] { return Err; }
    var first := patchSeq[0];
    if first.difftype.Diff? { return Err; }
    if !first.IsReg() {
      if |patchSeq| != 1 { return Err; }
      return Ok(GetROPath(first));
    }
    var currentFile := first.data;
    for n := 1 to |patchSeq|
      invariant PatchedData(rs, first.data, patchSeq[1..]) == PatchedData(rs, currentFile, patchSeq[n..])
    {
      var deltaRopath := patchSeq[n];
      if !deltaRopath.difftype.Diff? { return Err; }
      currentFile := rs.patched(currentFile, deltaRopath.data);
    }
    r := Ok(GetROPath(patchSeq[|patchSeq| - 1]).(data := currentFile));
  }

  // ----- integrate_patch_iters

  /** The final ROPath of one row; a failed or deleted one is not yielded. */
  function FinalPath(rs: Librsync, ps: PatchSeq): Option<ROPath> {
    match SeqToROPath(rs, Normalized(ps))
    case Err => None
    case Ok(final) => if final.Exists() then Some(final) else None
  }

  function FinalRow(rs: Librsync): Row -> Option<ROPath> {
    (row: Row) => FinalPath(rs, row.elems)
  }

  function Integrated(rs: Librsync, iterList: Iters): seq<ROPath> {
    FilterMap(OuterJoin(iterList), FinalRow(rs))
  }

  method IntegratePatchIters(rs: Librsync, iterList: Iters) returns (yielded: seq<ROPath>)
    ensures yielded == Integrated(rs, iterList)
  {
    hide OuterJoin, Normalized, SeqToROPath;
    var collated := CollateIters(iterList);
    yielded := [];
    for n := 0 to |collated|
      invariant yielded == FilterMap(collated[..n], FinalRow(rs))
    {
      FilterMapAppend(collated[..n], collated[n], FinalRow(rs));
      assert collated[..n + 1] == collated[..n] + [collated[n]];
      var normalized := NormalizePs(collated[n].elems);
      var final := PatchSeqToROPath(rs, normalized);
      if final.Ok? && final.value.Exists() {
        yielded := yielded + [final.value];
      }
    }
    assert collated[..|collated|] == collated;
  }

  lemma {:induction false} NormalizedFrom(ps: PatchSeq)
    ensures forall p :: p in Normalized(ps) ==> Some(p) in ps
  {
    if ps != [] {
      NormalizedFrom(ps[..|ps| - 1]);
      assert forall e :: e in ps[..|ps| - 1] ==> e in ps;
    }
  }

  lemma FinalRowKeepsIndex(rs: Librsync)
    ensures KeepsIndex(FinalRow(rs))
  {
    forall row | RowOk(row) && FinalRow(rs)(row).Some? ensures FinalRow(rs)(row).value.index == row.index {
      NormalizedFrom(row.elems);
      var patches := Normalized(row.elems);
      var last := patches[|patches| - 1];
      assert Some(last) in row.elems;
    }
  }

  /** The integrated stream, index by index. */
  lemma IntegratedLookup(rs: Librsync, iterList: Iters, i: Index)
    requires AllSorted(iterList)
    ensures Sorted(Integrated(rs, iterList))
    ensures Lookup(Integrated(rs, iterList), i) == FinalPath(rs, LookupAll(iterList, i))
  {
    var rows := OuterJoin(iterList);
    OuterJoinSorted(iterList);
    OuterJoinIsOuterJoin(iterList, i);
    FinalRowKeepsIndex(rs);
    FilterMapLookup(rows, FinalRow(rs), i);
    FilterMapSorted(rows, FinalRow(rs));
    var elems := LookupAll(iterList, i);
    NormalizedEmpty(elems);
  }

  // ----- applying the patches one at a time

  /** copy: the destination gets the type, the attributes and the file object's bytes. */
  function CopyOf(p: ROPath): ROPath {
    p.(difftype := Plain, data := if p.IsReg() then p.data else "")
  }

  /** PathPatcher on one path: the patched path, or Err where an assertion fails. */
  function ApplyPatch(rs: Librsync, basis: Option<ROPath>, patch: Option<ROPath>): Result<Option<ROPath>> {
    if patch.None? then Ok(basis)
    else
      var diff := patch.value;
      if basis.None? then
        if diff.difftype.Deleted? then Ok(None) else Ok(Some(CopyOf(diff)))
      else if diff.difftype.Deleted? then Ok(None)
      else if !basis.value.IsReg() || diff.difftype.Snapshot? then Ok(Some(CopyOf(diff)))
      else if diff.difftype.Diff? && diff.IsReg() then
        Ok(Some(CopyOf(diff.(data := rs.patched(basis.value.data, diff.data)))))
      else Err
  }

  /** An assertion fails exactly on a regular file whose delta is no snapshot, deletion or diff of a regular file. */
  lemma PatchFailsIff(rs: Librsync, basis: Option<ROPath>, patch: Option<ROPath>)
    ensures ApplyPatch(rs, basis, patch) == Err <==>
            basis.Some? && basis.value.kind.Reg? && patch.Some? &&
            patch.value.difftype !in {Deleted, Snapshot} && (patch.value.difftype != Diff || !patch.value.kind.Reg?)
  {
  }

  /** Restoring the first session and patching the others in, one after the other. */
  function Replay(rs: Librsync, ps: PatchSeq): Result<Option<ROPath>> {
    if ps == [] then Ok(None)
    else
      match Replay(rs, ps[..|ps| - 1])
      case Err => Err
      case Ok(basis) => ApplyPatch(rs, basis, ps[|ps| - 1])
  }

  /** An entry of a delta file at one index: a full copy, a diff of a regular file or a deletion. */
  predicate IsPatch(p: ROPath) {
    match p.difftype
    case Snapshot => p.Exists() && (!p.IsReg() ==> p.data == "")
    case Diff => p.IsReg()
    case Deleted => !p.Exists()
    case _ => false
  }

  /** Every diff finds a regular file to apply to. */
  ghost predicate WellFormed(rs: Librsync, ps: PatchSeq) {
    if ps == [] then true
    else
      var last := ps[|ps| - 1];
      WellFormed(rs, ps[..|ps| - 1]) &&
      (last.Some? ==> IsPatch(last.value)) &&
      (last.Some? && last.value.difftype.Diff? ==>
         var before := Replay(rs, ps[..|ps| - 1]);
         before.Ok? && before.value.Some? && before.value.value.IsReg())
  }

  lemma {:induction false} PatchedDataAppend(rs: Librsync, basis: Bytes, diffs: seq<ROPath>, d: ROPath)
    ensures PatchedData(rs, basis, diffs + [d]) ==
            match PatchedData(rs, basis, diffs)
            case Err => Err
            case Ok(data) => if d.difftype.Diff? then Ok(rs.patched(data, d.data)) else Err
    decreases |diffs|
  {
    if diffs == [] {
      assert diffs + [d] == [d];
    } else {
      assert (diffs + [d])[1..] == diffs[1..] + [d];
      PatchedDataAppend(rs, rs.patched(basis, diffs[0].data), diffs[1..], d);
    }
  }

  lemma {:induction false} WellFormedNormalized(rs: Librsync, ps: PatchSeq)
    requires WellFormed(rs, ps)
    ensures Replay(rs, ps).Ok?
    ensures Normalized(ps) == [] ==> Replay(rs, ps) == Ok(None)
    ensures Normalized(ps) != [] ==>
              SeqToROPath(rs, Normalized(ps)).Ok? && Replay(rs, ps) == Ok(FinalPath(rs, ps))
  {
    if ps != [] {
      var before, last := ps[..|ps| - 1], ps[|ps| - 1];
      WellFormedNormalized(rs, before);
      if last.Some? && last.value.difftype.Diff? {
        var patches := Normalized(before);
        assert patches[0].IsReg();
        assert (patches + [last.value])[1..] == patches[1..] + [last.value];
        PatchedDataAppend(rs, patches[0].data, patches[1..], last.value);
      }
    }
  }

  /**
   * Dropping everything before the last patch that is not a diff preserves meaning: on a
   * well-formed sequence no assertion of patch_seq2ropath fails, and the result is the path
   * that applying the patches one at a time leaves.
   */
  lemma NormalizingPreservesMeaning(rs: Librsync, ps: PatchSeq)
    requires WellFormed(rs, ps)
    ensures Any(ps) ==> SeqToROPath(rs, Normalized(ps)).Ok?
    ensures Replay(rs, ps) == Ok(FinalPath(rs, ps))
  {
    WellFormedNormalized(rs, ps);
    NormalizedEmpty(ps);
  }

  lemma {:induction false} NormalizedEmpty(ps: PatchSeq)
    ensures Any(ps) <==> Normalized(ps) != []
  {
    if ps != [] {
      NormalizedEmpty(ps[..|ps| - 1]);
      if k :| 0 <= k < |ps| && ps[k].Some? && k < |ps| - 1 {
        assert ps[..|ps| - 1][k].Some?;
      }
      var before := ps[..|ps| - 1];
      if l :| 0 <= l < |before| && before[l].Some? {
        assert ps[l].Some?;
      }
    }
  }
}
