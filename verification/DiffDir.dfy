/** diffdir.get_delta_iter: the delta and the new signatures of one session. */
module DiffDir {
  import opened Indices
  import opened Paths
  import opened Collate
  import opened MergeLoops

  /** The librsync operations, on whole byte strings. */
  datatype Librsync = Librsync(
    signature: Bytes -> Bytes, delta: (Bytes, Bytes) -> Bytes, patched: (Bytes, Bytes) -> Bytes)
  {
    /** Patching the basis with a delta made against its signature gives the new file. */
    ghost predicate Lawful() {
      forall basis, target :: patched(basis, delta(signature(basis), target)) == target
    }
  }

  /** A full copy for a delta and a basis-free signature show that the law can be met. */
  lemma LawfulExists()
    ensures exists rs: Librsync :: rs.Lawful()
  {
    var rs := Librsync(b => b, (s, n) => n, (b, d) => d);
    assert rs.Lawful();
  }

  predicate PresentAt(p: Option<ROPath>) {
    p.Some? && p.value.Exists()
  }

  /** get_delta_path: the delta entry. */
  function DeltaPath(rs: Librsync, newPath: ROPath, sig: Option<ROPath>): ROPath {
    if newPath.IsReg() && sig.Some? && sig.value.IsReg() && sig.value.difftype.Signature? then
      newPath.(difftype := Diff, data := rs.delta(sig.value.data, newPath.data))
    else
      newPath.(difftype := Snapshot, data := if newPath.IsReg() then newPath.data else "")
  }

  /** get_delta_path: the entry written to the new signature file. */
  function SigPath(rs: Librsync, newPath: ROPath): ROPath {
    if newPath.IsReg() then newPath.(difftype := Signature, data := rs.signature(newPath.data))
    else newPath.(difftype := Snapshot, data := "")
  }

  /** ROPath(index) with the deleted mark. */
  function DeletedPath(index: Index): ROPath {
    ROPath(index, Missing, 0, 0, 0, 0, Deleted, "")
  }

  datatype Change = Unchanged | Removed | Written

  /** The decision get_delta_iter takes at one index; () is never deleted. */
  function ChangeAt(i: Index, newPath: Option<ROPath>, sig: Option<ROPath>): Change {
    if !PresentAt(newPath) then
      if PresentAt(sig) && i != [] then Removed else Unchanged
    else if sig.None? || !newPath.value.Equal(sig.value) then Written
    else Unchanged
  }

  function DeltaAt(rs: Librsync, i: Index, newPath: Option<ROPath>, sig: Option<ROPath>): Option<ROPath> {
    match ChangeAt(i, newPath, sig)
    case Unchanged => None
    case Removed => Some(DeletedPath(i))
    case Written => Some(DeltaPath(rs, newPath.value, sig))
  }

  function NewSigAt(rs: Librsync, i: Index, newPath: Option<ROPath>, sig: Option<ROPath>): Option<ROPath> {
    match ChangeAt(i, newPath, sig)
    case Unchanged => None
    case Removed => Some(DeletedPath(i))
    case Written => Some(SigPath(rs, newPath.value))
  }

  function DeltaRow(rs: Librsync): Row -> Option<ROPath> {
    (row: Row) => if |row.elems| == 2 then DeltaAt(rs, row.index, row.elems[0], row.elems[1]) else None
  }

  function NewSigRow(rs: Librsync): Row -> Option<ROPath> {
    (row: Row) => if |row.elems| == 2 then NewSigAt(rs, row.index, row.elems[0], row.elems[1]) else None
  }

  function Deltas(rs: Librsync, newIter: seq<ROPath>, sigIter: seq<ROPath>): seq<ROPath> {
    FilterMap(OuterJoin([newIter, sigIter]), DeltaRow(rs))
  }

  function NewSigs(rs: Librsync, newIter: seq<ROPath>, sigIter: seq<ROPath>): seq<ROPath> {
    FilterMap(OuterJoin([newIter, sigIter]), NewSigRow(rs))
  }

  lemma RowStep(rs: Librsync, rows: seq<Row>, n: nat)
    requires n < |rows| && |rows[n].elems| == 2
    ensures var change := ChangeAt(rows[n].index, rows[n].elems[0], rows[n].elems[1]);
      var deltas, sigs := FilterMap(rows[..n], DeltaRow(rs)), FilterMap(rows[..n], NewSigRow(rs));
      var deltas', sigs' := FilterMap(rows[..n + 1], DeltaRow(rs)), FilterMap(rows[..n + 1], NewSigRow(rs));
      match change
      case Unchanged => deltas' == deltas && sigs' == sigs
      case Removed =>
        deltas' == deltas + [DeletedPath(rows[n].index)] && sigs' == sigs + [DeletedPath(rows[n].index)]
      case Written =>
        deltas' == deltas + [DeltaPath(rs, rows[n].elems[0].value, rows[n].elems[1])] &&
        sigs' == sigs + [SigPath(rs, rows[n].elems[0].value)]
  {
    FilterMapAppend(rows[..n], rows[n], DeltaRow(rs));
    FilterMapAppend(rows[..n], rows[n], NewSigRow(rs));
    assert rows[..n + 1] == rows[..n] + [rows[n]];
  }

  /** get_delta_iter, with the yielded deltas and the entries added to the signature file. */
  method GetDeltaIter(rs: Librsync, newIter: seq<ROPath>, sigIter: seq<ROPath>)
    returns (deltas: seq<ROPath>, sigs: seq<ROPath>)
    ensures deltas == Deltas(rs, newIter, sigIter) && sigs == NewSigs(rs, newIter, sigIter)
    ensures Sorted(newIter) && Sorted(sigIter) ==> Sorted(deltas) && Sorted(sigs) && forall i ::
              IsDelta(rs, i, Lookup(newIter, i), Lookup(sigIter, i), Lookup(deltas, i)) &&
              IsNewSig(rs, i, Lookup(newIter, i), Lookup(sigIter, i), Lookup(sigs, i))
  {
    hide IsDelta, IsNewSig, Sorted;
    var collated := Collate2Iters(newIter, sigIter);
    assert forall row :: row in collated ==> |row.elems| == 2 by {
      JoinWidth([newIter, sigIter]);
    }
    deltas, sigs := [], [];
    for n := 0 to |collated|
      invariant deltas == FilterMap(collated[..n], DeltaRow(rs))
      invariant sigs == FilterMap(collated[..n], NewSigRow(rs))
    {
      RowStep(rs, collated, n);
      var index, newPath, sigPath := collated[n].index, collated[n].elems[0], collated[n].elems[1];
      if newPath.None? || !newPath.value.Exists() {
        if sigPath.Some? && sigPath.value.Exists() && index != [] {
          sigs := sigs + [DeletedPath(index)];
          deltas := deltas + [DeletedPath(index)];
        }
      } else if sigPath.None? || !newPath.value.Equal(sigPath.value) {
        sigs := sigs + [SigPath(rs, newPath.value)];
        deltas := deltas + [DeltaPath(rs, newPath.value, sigPath)];
      }
    }
    assert collated[..|collated|] == collated;
    if Sorted(newIter) && Sorted(sigIter) {
      DeltasAreDecided(rs, newIter, sigIter);
    }
  }

  lemma {:induction false} JoinWidth(iters: Iters)
    ensures forall row :: row in OuterJoin(iters) ==> |row.elems| == |iters|
    decreases Size(iters)
  {
    if Size(iters) > 0 {
      AdvanceSize(iters, LeastHead(iters));
      JoinWidth(Advance(iters, LeastHead(iters)));
    }
  }

  /** What the delta has at an index where the tree and the signatures have these. */
  predicate IsDelta(rs: Librsync, i: Index, newPath: Option<ROPath>, sig: Option<ROPath>, delta: Option<ROPath>) {
    if newPath.None? || newPath.value.kind.Missing? then
      if sig.Some? && !sig.value.kind.Missing? && i != [] then
        delta == Some(ROPath(i, Missing, 0, 0, 0, 0, Deleted, ""))
      else delta.None?
    else if sig.Some? && newPath.value.Equal(sig.value) then delta.None?
    else
      && delta.Some?
      && delta.value.(difftype := newPath.value.difftype, data := newPath.value.data) == newPath.value
      && (if newPath.value.kind.Reg? && sig.Some? && sig.value.kind.Reg? && sig.value.difftype.Signature? then
            delta.value.difftype.Diff? && delta.value.data == rs.delta(sig.value.data, newPath.value.data)
          else
            delta.value.difftype.Snapshot? &&
            delta.value.data == if newPath.value.kind.Reg? then newPath.value.data else "")
  }

  /** What is added to the signatures there. */
  predicate IsNewSig(rs: Librsync, i: Index, newPath: Option<ROPath>, sig: Option<ROPath>, newSig: Option<ROPath>) {
    if newPath.None? || newPath.value.kind.Missing? then
      if sig.Some? && !sig.value.kind.Missing? && i != [] then
        newSig == Some(ROPath(i, Missing, 0, 0, 0, 0, Deleted, ""))
      else newSig.None?
    else if sig.Some? && newPath.value.Equal(sig.value) then newSig.None?
    else
      && newSig.Some?
      && newSig.value.(difftype := newPath.value.difftype, data := newPath.value.data) == newPath.value
      && (if newPath.value.kind.Reg? then
            newSig.value.difftype.Signature? && newSig.value.data == rs.signature(newPath.value.data)
          else newSig.value.difftype.Snapshot? && newSig.value.data == "")
  }

  /** The delta and the signatures, index by index. */
  lemma DeltasLookup(rs: Librsync, newIter: seq<ROPath>, sigIter: seq<ROPath>, i: Index)
    requires Sorted(newIter) && Sorted(sigIter)
    ensures Sorted(Deltas(rs, newIter, sigIter)) && Sorted(NewSigs(rs, newIter, sigIter))
    ensures Lookup(Deltas(rs, newIter, sigIter), i) == DeltaAt(rs, i, Lookup(newIter, i), Lookup(sigIter, i))
    ensures Lookup(NewSigs(rs, newIter, sigIter), i) == NewSigAt(rs, i, Lookup(newIter, i), Lookup(sigIter, i))
  {
    var iters := [newIter, sigIter];
    var rows := OuterJoin(iters);
    OuterJoinSorted(iters);
    OuterJoinIsOuterJoin(iters, i);
    RowFunctionsKeepIndex(rs);
    FilterMapLookup(rows, DeltaRow(rs), i);
    FilterMapLookup(rows, NewSigRow(rs), i);
    FilterMapSorted(rows, DeltaRow(rs));
    FilterMapSorted(rows, NewSigRow(rs));
    var elems := LookupAll(iters, i);
    assert elems == [Lookup(newIter, i), Lookup(sigIter, i)];
    if !Any(elems) { assert elems[0].None? && elems[1].None?; }
  }

  lemma DecidedAt(rs: Librsync, i: Index, newPath: Option<ROPath>, sig: Option<ROPath>)
    ensures IsDelta(rs, i, newPath, sig, DeltaAt(rs, i, newPath, sig))
    ensures IsNewSig(rs, i, newPath, sig, NewSigAt(rs, i, newPath, sig))
  {
  }

  /**
   * A changed regular file with an old signature is a diff against that signature; anything else that is new
   * or changed is a snapshot, and what is gone is deleted. Both outputs are in index order.
   */
  lemma DeltasAreDecided(rs: Librsync, newIter: seq<ROPath>, sigIter: seq<ROPath>)
    requires Sorted(newIter) && Sorted(sigIter)
    ensures Sorted(Deltas(rs, newIter, sigIter)) && Sorted(NewSigs(rs, newIter, sigIter))
    ensures forall i :: IsDelta(rs, i, Lookup(newIter, i), Lookup(sigIter, i), Lookup(Deltas(rs, newIter, sigIter), i))
    ensures forall i ::
              IsNewSig(rs, i, Lookup(newIter, i), Lookup(sigIter, i), Lookup(NewSigs(rs, newIter, sigIter), i))
  {
    hide Deltas, NewSigs, Sorted, DeltaAt, NewSigAt, IsDelta, IsNewSig;
    DeltasLookup(rs, newIter, sigIter, []);
    forall i
      ensures IsDelta(rs, i, Lookup(newIter, i), Lookup(sigIter, i), Lookup(Deltas(rs, newIter, sigIter), i))
      ensures IsNewSig(rs, i, Lookup(newIter, i), Lookup(sigIter, i), Lookup(NewSigs(rs, newIter, sigIter), i))
    {
      DeltasLookup(rs, newIter, sigIter, i);
      DecidedAt(rs, i, Lookup(newIter, i), Lookup(sigIter, i));
    }
  }

  lemma RowFunctionsKeepIndex(rs: Librsync)
    ensures KeepsIndex(DeltaRow(rs)) && KeepsIndex(NewSigRow(rs))
  {
  }
}
