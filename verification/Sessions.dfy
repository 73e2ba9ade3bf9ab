/** Runs of backup sessions. */
module Sessions {
  import opened Indices
  import opened Paths
  import opened Collate
  import opened CombineIters
  import opened DiffDir
  import opened PatchDir

  // A run is one full session and any number of incremental ones; each leaves behind what a restore needs.

  /** What one session leaves behind, as read back from its difftar and its sigtar. */
  datatype Session = Session(deltas: seq<ROPath>, sigs: seq<ROPath>)

  function ReadBack(s: seq<ROPath>): (r: seq<ROPath>)
    ensures |r| == |s| && forall n :: 0 <= n < |s| ==> r[n] == Archived(s[n])
  {
    seq(|s|, n requires 0 <= n < |s| => Archived(s[n]))
  }

  function SigIters(sessions: seq<Session>): Iters {
    seq(|sessions|, n requires 0 <= n < |sessions| => sessions[n].sigs)
  }

  function DeltaIters(sessions: seq<Session>): Iters {
    seq(|sessions|, n requires 0 <= n < |sessions| => sessions[n].deltas)
  }

  /** One session: the tree against the combination of all earlier signature sets. */
  function BackUp(rs: Librsync, tree: seq<ROPath>, earlier: seq<Session>): Session {
    var sigIter := Combined(SigIters(earlier));
    Session(ReadBack(Deltas(rs, tree, sigIter)), ReadBack(NewSigs(rs, tree, sigIter)))
  }

  function Run(rs: Librsync, trees: seq<seq<ROPath>>): seq<Session> {
    if trees == [] then []
    else
      var earlier := Run(rs, trees[..|trees| - 1]);
      earlier + [BackUp(rs, trees[|trees| - 1], earlier)]
  }

  function Restored(rs: Librsync, sessions: seq<Session>): seq<ROPath> {
    Integrated(rs, DeltaIters(sessions))
  }

  ghost predicate Trees(trees: seq<seq<ROPath>>) {
    forall n :: 0 <= n < |trees| ==> Sorted(trees[n])
  }

  // ----- the tree the sessions record

  /** The path of a source tree at an index; one whose file has vanished counts as absent. */
  function SourceAt(tree: seq<ROPath>, i: Index): Option<ROPath> {
    var p := Lookup(tree, i);
    if PresentAt(p) then p else None
  }

  /**
   * A path whose metadata is equal to the recorded one is taken to be unchanged and keeps the
   * recorded data; the root stays recorded even when it is gone.
   */
  function RecordedStep(i: Index, recorded: Option<ROPath>, source: Option<ROPath>): Option<ROPath> {
    if source.None? then
      if i == [] then recorded else None
    else if recorded.Some? && source.value.Equal(recorded.value) then recorded
    else Some(CopyOf(Archived(source.value)))
  }

  function RecordedAt(trees: seq<seq<ROPath>>, i: Index): Option<ROPath> {
    if trees == [] then None
    else RecordedStep(i, RecordedAt(trees[..|trees| - 1], i), SourceAt(trees[|trees| - 1], i))
  }

  /** The signature set entry that stands for a recorded path. */
  ghost predicate Describes(rs: Librsync, sig: Option<ROPath>, recorded: Option<ROPath>) {
    match recorded
    case None => !PresentAt(sig)
    case Some(p) => sig == Some(SigPath(rs, p))
  }

  lemma {:induction false} ReadBackLookup(s: seq<ROPath>, i: Index)
    ensures Sorted(s) ==> Sorted(ReadBack(s))
    ensures Lookup(ReadBack(s), i) == if Lookup(s, i).Some? then Some(Archived(Lookup(s, i).value)) else None
  {
    hide Archived;
    if s != [] {
      assert ReadBack(s)[1..] == ReadBack(s[1..]) && ReadBack(s)[0] == Archived(s[0]);
      hide ReadBack;
      ReadBackLookup(s[1..], i);
    }
  }

  lemma LookupAllAppend(iters: Iters, s: seq<ROPath>, i: Index)
    ensures LookupAll(iters + [s], i) == LookupAll(iters, i) + [Lookup(s, i)]
  {
  }

  lemma LastSomeAppend(elems: seq<Option<ROPath>>, e: Option<ROPath>)
    ensures LastSome(elems + [e]) == if e.Some? then e else LastSome(elems)
  {
    assert (elems + [e])[..|elems|] == elems;
  }

  /** What a session adds at one index, given what the earlier signatures hold there. */
  lemma BackUpLookup(rs: Librsync, tree: seq<ROPath>, earlier: seq<Session>, i: Index)
    requires Sorted(tree) && AllSorted(SigIters(earlier))
    ensures var s := BackUp(rs, tree, earlier);
      var sig := LastSome(LookupAll(SigIters(earlier), i));
      var delta := DeltaAt(rs, i, Lookup(tree, i), sig);
      var newSig := NewSigAt(rs, i, Lookup(tree, i), sig);
      Sorted(s.deltas) && Sorted(s.sigs) &&
      Lookup(s.deltas, i) == (if delta.Some? then Some(Archived(delta.value)) else None) &&
      Lookup(s.sigs, i) == (if newSig.Some? then Some(Archived(newSig.value)) else None)
  {
    var sigIter := Combined(SigIters(earlier));
    CombinedLookup(SigIters(earlier), i);
    DeltasLookup(rs, tree, sigIter, i);
    ReadBackLookup(Deltas(rs, tree, sigIter), i);
    ReadBackLookup(NewSigs(rs, tree, sigIter), i);
  }

  lemma ItersOf(earlier: seq<Session>, s: Session)
    ensures SigIters(earlier + [s]) == SigIters(earlier) + [s.sigs]
    ensures DeltaIters(earlier + [s]) == DeltaIters(earlier) + [s.deltas]
  {
  }

  lemma {:induction false} RunSorted(rs: Librsync, trees: seq<seq<ROPath>>)
    requires Trees(trees)
    ensures |Run(rs, trees)| == |trees|
    ensures AllSorted(SigIters(Run(rs, trees))) && AllSorted(DeltaIters(Run(rs, trees)))
  {
    if trees != [] {
      var earlier := Run(rs, trees[..|trees| - 1]);
      RunSorted(rs, trees[..|trees| - 1]);
      SessionSorted(rs, trees[|trees| - 1], earlier);
      ItersOf(earlier, BackUp(rs, trees[|trees| - 1], earlier));
    }
  }

  lemma SessionSorted(rs: Librsync, tree: seq<ROPath>, earlier: seq<Session>)
    requires Sorted(tree) && AllSorted(SigIters(earlier))
    ensures Sorted(BackUp(rs, tree, earlier).deltas) && Sorted(BackUp(rs, tree, earlier).sigs)
  {
    BackUpLookup(rs, tree, earlier, []);
  }

  /** One step of the invariant at one index. */
  lemma StepInvariant(
      rs: Librsync, i: Index, newPath: Option<ROPath>, sig: Option<ROPath>, recorded: Option<ROPath>, ps: PatchSeq)
    requires rs.Lawful() && Describes(rs, sig, recorded)
    requires WellFormed(rs, ps) && Replay(rs, ps) == Ok(recorded)
    requires recorded.Some? ==> recorded.value.Exists()
    ensures var delta := DeltaAt(rs, i, newPath, sig);
      var newSig := NewSigAt(rs, i, newPath, sig);
      var recorded' := RecordedStep(i, recorded, if PresentAt(newPath) then newPath else None);
      var ps' := ps + [if delta.Some? then Some(Archived(delta.value)) else None];
      Describes(rs, if newSig.Some? then Some(Archived(newSig.value)) else sig, recorded') &&
      WellFormed(rs, ps') && Replay(rs, ps') == Ok(recorded')
  {
    var delta := DeltaAt(rs, i, newPath, sig);
    var patch := if delta.Some? then Some(Archived(delta.value)) else None;
    hide Replay, WellFormed;
    if PresentAt(newPath) {
      if recorded.Some? {
        EqualIffSameIdentity(newPath.value, recorded.value);
        EqualIffSameIdentity(newPath.value, sig.value);
      }
      StepOfPresent(rs, i, newPath.value, sig, recorded);
    }
  }

  /** A new or changed path: its entries in the difftar and in the sigtar. */
  lemma StepOfPresent(rs: Librsync, i: Index, newPath: ROPath, sig: Option<ROPath>, recorded: Option<ROPath>)
    requires rs.Lawful() && newPath.Exists() && Describes(rs, sig, recorded)
    requires recorded.Some? ==> recorded.value.Exists() && (newPath.Equal(recorded.value) <==> newPath.Equal(sig.value))
    ensures var patch := DeltaAt(rs, i, Some(newPath), sig);
      patch.Some? ==>
        IsPatch(Archived(patch.value)) && (patch.value.difftype.Diff? ==> recorded.Some? && recorded.value.IsReg()) &&
        ApplyPatch(rs, recorded, Some(Archived(patch.value))) == Ok(Some(CopyOf(Archived(newPath)))) &&
        Archived(SigPath(rs, newPath)) == SigPath(rs, CopyOf(Archived(newPath)))
  {
  }

  /**
   * After every session the combined signature sets are, index by index, the signatures of the
   * tree the deltas restore so far, and every diff finds a regular file to apply to.
   */
  lemma {:induction false} SignaturesDescribeRecorded(rs: Librsync, trees: seq<seq<ROPath>>, i: Index)
    requires rs.Lawful() && Trees(trees)
    ensures RecordedAt(trees, i).Some? ==> RecordedAt(trees, i).value.Exists()
    ensures Describes(rs, LastSome(LookupAll(SigIters(Run(rs, trees)), i)), RecordedAt(trees, i))
    ensures WellFormed(rs, LookupAll(DeltaIters(Run(rs, trees)), i))
    ensures Replay(rs, LookupAll(DeltaIters(Run(rs, trees)), i)) == Ok(RecordedAt(trees, i))
  {
    if trees != [] {
      var before, tree := trees[..|trees| - 1], trees[|trees| - 1];
      var earlier := Run(rs, before);
      var s := BackUp(rs, tree, earlier);
      SignaturesDescribeRecorded(rs, before, i);
      RunSorted(rs, before);
      SessionStep(rs, tree, earlier, i, RecordedAt(before, i));
      ItersOf(earlier, s);
    }
  }

  lemma SessionStep(rs: Librsync, tree: seq<ROPath>, earlier: seq<Session>, i: Index, recorded: Option<ROPath>)
    requires rs.Lawful() && Sorted(tree) && AllSorted(SigIters(earlier))
    requires recorded.Some? ==> recorded.value.Exists()
    requires Describes(rs, LastSome(LookupAll(SigIters(earlier), i)), recorded)
    requires WellFormed(rs, LookupAll(DeltaIters(earlier), i))
    requires Replay(rs, LookupAll(DeltaIters(earlier), i)) == Ok(recorded)
    ensures var s := BackUp(rs, tree, earlier);
      var recorded' := RecordedStep(i, recorded, SourceAt(tree, i));
      var ps := LookupAll(DeltaIters(earlier) + [s.deltas], i);
      (recorded'.Some? ==> recorded'.value.Exists()) &&
      Describes(rs, LastSome(LookupAll(SigIters(earlier) + [s.sigs], i)), recorded') &&
      WellFormed(rs, ps) && Replay(rs, ps) == Ok(recorded')
  {
    var s := BackUp(rs, tree, earlier);
    var sigs, ps := LookupAll(SigIters(earlier), i), LookupAll(DeltaIters(earlier), i);
    BackUpLookup(rs, tree, earlier, i);
    LookupAllAppend(SigIters(earlier), s.sigs, i);
    LookupAllAppend(DeltaIters(earlier), s.deltas, i);
    LastSomeAppend(sigs, Lookup(s.sigs, i));
    StepInvariant(rs, i, Lookup(tree, i), LastSome(sigs), recorded, ps);
  }

  /** DirDelta_WriteSig: combine the earlier signatures, then write the delta and the new signatures. */
  method RunSession(rs: Librsync, tree: seq<ROPath>, earlier: seq<Session>) returns (s: Session)
    ensures s == BackUp(rs, tree, earlier)
  {
    var sigIter := CombinePathIters(SigIters(earlier));
    var deltas, sigs := GetDeltaIter(rs, tree, sigIter);
    s := Session(ReadBack(deltas), ReadBack(sigs));
  }

  lemma {:induction false} PrefixOfRun(rs: Librsync, trees: seq<seq<ROPath>>, k: nat)
    requires k <= |trees| && Trees(trees)
    ensures |Run(rs, trees)| == |trees| && Run(rs, trees)[..k] == Run(rs, trees[..k])
  {
    RunSorted(rs, trees);
    if k == |trees| {
      assert trees[..k] == trees;
    } else {
      var before := trees[..|trees| - 1];
      PrefixOfRun(rs, before, k);
      assert before[..k] == trees[..k];
    }
  }

  /** Restoring after the last session gives the recorded tree, in index order, with no path failing. */
  lemma RestoreGivesRecorded(rs: Librsync, trees: seq<seq<ROPath>>, i: Index)
    requires rs.Lawful() && Trees(trees)
    ensures Sorted(Restored(rs, Run(rs, trees)))
    ensures Lookup(Restored(rs, Run(rs, trees)), i) == RecordedAt(trees, i)
  {
    var iters := DeltaIters(Run(rs, trees));
    RunSorted(rs, trees);
    IntegratedLookup(rs, iters, i);
    SignaturesDescribeRecorded(rs, trees, i);
    NormalizingPreservesMeaning(rs, LookupAll(iters, i));
  }

  /** The assertions of patch_seq2ropath hold for every row of a restore. */
  lemma RestoreNeverFails(rs: Librsync, trees: seq<seq<ROPath>>)
    requires rs.Lawful() && Trees(trees)
    ensures forall row :: row in OuterJoin(DeltaIters(Run(rs, trees))) ==> SeqToROPath(rs, Normalized(row.elems)).Ok?
  {
    var iters := DeltaIters(Run(rs, trees));
    hide OuterJoin, Run, DeltaIters;
    RunSorted(rs, trees);
    OuterJoinSorted(iters);
    forall row | row in OuterJoin(iters) ensures SeqToROPath(rs, Normalized(row.elems)).Ok? {
      OuterJoinIsOuterJoin(iters, row.index);
      RowAtUnique(OuterJoin(iters), row);
      SignaturesDescribeRecorded(rs, trees, row.index);
      NormalizingPreservesMeaning(rs, row.elems);
    }
  }

  lemma {:induction false} RowAtUnique(rows: seq<Row>, row: Row)
    requires RowsSorted(rows) && row in rows
    ensures RowAt(rows, row.index) == Some(row)
  {
    OrderFacts();
    if rows[0] != row {
      assert row in rows[1..];
      RowAtUnique(rows[1..], row);
    }
  }

  // ----- what each session writes

  /** A delta as it is read back from its tar file. */
  function ReadBackAt(delta: Option<ROPath>): Option<ROPath> {
    match delta
    case None => None
    case Some(p) => Some(Archived(p))
  }

  /** The combined signatures of a run at one index. */
  function EarlierSig(rs: Librsync, trees: seq<seq<ROPath>>, i: Index): Option<ROPath> {
    LastSome(LookupAll(SigIters(Run(rs, trees)), i))
  }

  lemma DeltaOrigin(rs: Librsync, trees: seq<seq<ROPath>>, i: Index)
    requires rs.Lawful() && Trees(trees) && trees != []
    ensures |Run(rs, trees)| == |trees|
    ensures var before, k := trees[..|trees| - 1], |trees| - 1;
      Describes(rs, EarlierSig(rs, before, i), RecordedAt(before, i)) &&
      (RecordedAt(before, i).Some? ==> RecordedAt(before, i).value.Exists()) &&
      Lookup(Run(rs, trees)[k].deltas, i) == ReadBackAt(DeltaAt(rs, i, Lookup(trees[k], i), EarlierSig(rs, before, i)))
  {
    var before, tree := trees[..|trees| - 1], trees[|trees| - 1];
    RunSorted(rs, trees);
    RunSorted(rs, before);
    hide DeltaAt, NewSigAt, Describes, Sorted, Lookup, LastSome, LookupAll, RecordedAt, Archived, Replay;
    SignaturesDescribeRecorded(rs, before, i);
    BackUpLookup(rs, tree, Run(rs, before), i);
    assert Run(rs, trees)[|trees| - 1] == BackUp(rs, tree, Run(rs, before));
  }

  /** The kinds of delta entry, from the recorded path and the path of the source tree alone. */
  lemma DeltaKind(
      rs: Librsync, i: Index, newPath: Option<ROPath>, sig: Option<ROPath>, recorded: Option<ROPath>,
      patch: Option<ROPath>)
    requires Describes(rs, sig, recorded) && (recorded.Some? ==> recorded.value.Exists())
    requires patch == ReadBackAt(DeltaAt(rs, i, newPath, sig))
    ensures var source := if PresentAt(newPath) then newPath else None;
      var changed := source.Some? && !(recorded.Some? && source.value.Equal(recorded.value));
      var bothFiles := source.Some? && source.value.IsReg() && recorded.Some? && recorded.value.IsReg();
      match patch
      case None => !changed && (source.None? && recorded.Some? ==> i == [])
      case Some(p) =>
        if source.None? then recorded.Some? && i != [] && p.difftype.Deleted?
        else
          changed && p.(difftype := Plain, data := "") == Archived(source.value).(difftype := Plain, data := "") &&
          (if bothFiles then
             p.difftype.Diff? && p.data == rs.delta(rs.signature(recorded.value.data), source.value.data)
           else p.difftype.Snapshot? && p.data == if source.value.IsReg() then source.value.data else "")
  {
    if PresentAt(newPath) && recorded.Some? {
      EqualIffSameIdentity(newPath.value, recorded.value);
      EqualIffSameIdentity(newPath.value, sig.value);
    }
    DecidedAt(rs, i, newPath, sig);
  }

  /**
   * What session k writes at an index: a diff if and only if the path recorded before and the path of its tree
   * are both regular files and not equal; a snapshot of anything else that is new or changed; a deletion of
   * what is gone, but never of the root.
   */
  lemma WrittenAsDiffIff(rs: Librsync, trees: seq<seq<ROPath>>, k: nat, i: Index)
    requires rs.Lawful() && Trees(trees) && 0 < k <= |trees|
    ensures |Run(rs, trees)| == |trees|
    ensures var recorded, source := RecordedAt(trees[..k - 1], i), SourceAt(trees[k - 1], i);
      var changed := source.Some? && !(recorded.Some? && source.value.Equal(recorded.value));
      var bothFiles := source.Some? && source.value.IsReg() && recorded.Some? && recorded.value.IsReg();
      var patch := Lookup(Run(rs, trees)[k - 1].deltas, i);
      (patch.Some? && patch.value.difftype.Diff? <==> changed && bothFiles) &&
      (patch.Some? && patch.value.difftype.Snapshot? <==> changed && !bothFiles) &&
      (patch.Some? && patch.value.difftype.Deleted? <==> source.None? && recorded.Some? && i != []) &&
      (patch.Some? <==> changed || (source.None? && recorded.Some? && i != [])) &&
      (changed ==>
         patch.value.(difftype := Plain, data := "") == Archived(source.value).(difftype := Plain, data := "") &&
         patch.value.data ==
         if bothFiles then rs.delta(rs.signature(recorded.value.data), source.value.data)
         else if source.value.IsReg() then source.value.data else "")
  {
    var trees' := trees[..k];
    assert trees'[..k - 1] == trees[..k - 1];
    PrefixOfRun(rs, trees, k);
    assert Run(rs, trees)[k - 1] == Run(rs, trees')[k - 1];
    hide Run, Lookup, RecordedAt, Sorted, Describes, DeltaAt, EarlierSig, ReadBackAt;
    DeltaOrigin(rs, trees', i);
    DeltaKind(rs, i, Lookup(trees[k - 1], i), EarlierSig(rs, trees[..k - 1], i), RecordedAt(trees[..k - 1], i),
              Lookup(Run(rs, trees)[k - 1].deltas, i));
  }

  // ----- when restoring gives back the tree that was backed up

  predicate Matches(restored: Option<ROPath>, source: Option<ROPath>) {
    match (restored, source)
    case (None, None) => true
    case (Some(p), Some(q)) => p.SameFile(q)
    case _ => false
  }

  /** The restored stream has exactly the paths of the tree, each the same file. */
  ghost predicate Faithful(restored: seq<ROPath>, tree: seq<ROPath>) {
    Sorted(restored) && forall i :: Matches(Lookup(restored, i), SourceAt(tree, i))
  }

  /** Between two consecutive trees: no data changes under equal metadata, and the root stays. */
  predicate TrackableAt(i: Index, before: Option<ROPath>, after: Option<ROPath>) {
    && (before.Some? && after.Some? && before.value.IsReg() && before.value.Equal(after.value) ==>
         before.value.data == after.value.data)
    && (i == [] && before.Some? ==> after.Some?)
  }

  /** TrackableAt between session k and the one after it. */
  predicate TrackableAfter(trees: seq<seq<ROPath>>, k: nat, i: Index)
    requires 0 < k < |trees|
  {
    TrackableAt(i, SourceAt(trees[k - 1], i), SourceAt(trees[k], i))
  }

  ghost predicate Trackable(trees: seq<seq<ROPath>>) {
    forall k, i :: 0 < k < |trees| ==> TrackableAfter(trees, k, i)
  }

  /** Restoring after session k gives back the tree that session backed up. */
  ghost predicate FaithfulAfter(rs: Librsync, trees: seq<seq<ROPath>>, k: nat)
    requires 0 < k <= |trees| == |Run(rs, trees)|
  {
    Faithful(Restored(rs, Run(rs, trees)[..k]), trees[k - 1])
  }

  predicate MatchesAfter(trees: seq<seq<ROPath>>, k: nat, i: Index)
    requires 0 < k <= |trees|
  {
    Matches(RecordedAt(trees[..k], i), SourceAt(trees[k - 1], i))
  }

  lemma StepMatches(i: Index, recorded: Option<ROPath>, before: Option<ROPath>, after: Option<ROPath>)
    requires Matches(recorded, before) && (after.Some? ==> after.value.index == i)
    requires recorded.Some? ==> recorded.value.index == i
    ensures Matches(RecordedStep(i, recorded, after), after) <==> TrackableAt(i, before, after)
  {
    if before.Some? && after.Some? {
      EqualIffSameIdentity(recorded.value, before.value);
      EqualIffSameIdentity(before.value, after.value);
      EqualIffSameIdentity(after.value, recorded.value);
      EqualIffSameIdentity(recorded.value, after.value);
    }
  }

  lemma {:induction false} RecordedIndex(trees: seq<seq<ROPath>>, i: Index)
    ensures RecordedAt(trees, i).Some? ==> RecordedAt(trees, i).value.index == i
  {
    if trees != [] { RecordedIndex(trees[..|trees| - 1], i); }
  }

  lemma MatchesStep(trees: seq<seq<ROPath>>, k: nat, i: Index)
    requires 0 < k < |trees| && MatchesAfter(trees, k, i)
    ensures MatchesAfter(trees, k + 1, i) <==> TrackableAfter(trees, k, i)
  {
    RecordedIndex(trees[..k], i);
    assert trees[..k + 1][..k] == trees[..k];
    StepMatches(i, RecordedAt(trees[..k], i), SourceAt(trees[k - 1], i), SourceAt(trees[k], i));
  }

  lemma FirstMatches(trees: seq<seq<ROPath>>, i: Index)
    requires trees != []
    ensures MatchesAfter(trees, 1, i)
  {
    var first := trees[..1];
    assert first[..0] == [] && first[0] == trees[0];
    assert RecordedAt(first, i) == RecordedStep(i, None, SourceAt(trees[0], i));
  }

  lemma {:induction false} MatchesIffTrackable(trees: seq<seq<ROPath>>, n: nat, i: Index)
    requires n <= |trees|
    ensures (forall k :: 0 < k <= n ==> MatchesAfter(trees, k, i))
       <==> (forall k :: 0 < k < n ==> TrackableAfter(trees, k, i))
  {
    hide MatchesAfter, TrackableAfter;
    if n == 1 {
      FirstMatches(trees, i);
    } else if n > 1 {
      MatchesIffTrackable(trees, n - 1, i);
      if MatchesAfter(trees, n - 1, i) { MatchesStep(trees, n - 1, i); }
    }
  }

  lemma FaithfulByLookup(restored: seq<ROPath>, trees: seq<seq<ROPath>>, k: nat)
    requires Sorted(restored) && 0 < k <= |trees|
    requires forall i :: Lookup(restored, i) == RecordedAt(trees[..k], i)
    ensures Faithful(restored, trees[k - 1]) <==> forall i :: MatchesAfter(trees, k, i)
  {
    forall i ensures Matches(Lookup(restored, i), SourceAt(trees[k - 1], i)) <==> MatchesAfter(trees, k, i) {
      assert Lookup(restored, i) == RecordedAt(trees[..k], i);
    }
  }

  lemma FaithfulIffMatches(rs: Librsync, trees: seq<seq<ROPath>>, k: nat)
    requires rs.Lawful() && Trees(trees) && 0 < k <= |trees| == |Run(rs, trees)|
    ensures FaithfulAfter(rs, trees, k) <==> forall i :: MatchesAfter(trees, k, i)
  {
    hide Restored, Run, RecordedAt, Matches;
    var restored := Restored(rs, Run(rs, trees)[..k]);
    assert restored == Restored(rs, Run(rs, trees[..k])) by { PrefixOfRun(rs, trees, k); }
    forall i ensures Sorted(restored) && Lookup(restored, i) == RecordedAt(trees[..k], i) {
      RestoreGivesRecorded(rs, trees[..k], i);
    }
    assert Lookup(restored, []) == RecordedAt(trees[..k], []);
    FaithfulByLookup(restored, trees, k);
  }

  /**
   * Restoring after each session gives back the tree that session backed up if and only if
   * between consecutive trees no regular file's data changes under equal metadata and the
   * root directory does not disappear.
   */
  lemma RestoreIsFaithfulIff(rs: Librsync, trees: seq<seq<ROPath>>)
    requires rs.Lawful() && Trees(trees)
    ensures |Run(rs, trees)| == |trees|
    ensures (forall k :: 0 < k <= |trees| ==> FaithfulAfter(rs, trees, k)) <==> Trackable(trees)
  {
    RunSorted(rs, trees);
    if Trackable(trees) {
      forall k | 0 < k <= |trees| ensures FaithfulAfter(rs, trees, k) {
        FaithfulIffMatches(rs, trees, k);
        forall i ensures MatchesAfter(trees, k, i) { MatchesIffTrackable(trees, |trees|, i); }
      }
    }
    if forall k :: 0 < k <= |trees| ==> FaithfulAfter(rs, trees, k) {
      forall n, i | 0 < n < |trees| ensures TrackableAfter(trees, n, i) {
        forall k | 0 < k <= |trees| ensures MatchesAfter(trees, k, i) { FaithfulIffMatches(rs, trees, k); }
        MatchesIffTrackable(trees, |trees|, i);
      }
    }
  }

  const ROOT := ROPath([], Dir, 493, 0, 0, 1, Plain, "")

  function SmallFile(data: Bytes): ROPath {
    ROPath(["f"], Reg, 420, 0, 0, 1, Plain, data)
  }

  /** Two runs that are not restored: data replaced within one second, and a root that is gone. */
  lemma UntrackableRuns(rs: Librsync)
    requires rs.Lawful()
    ensures var trees := [[ROOT, SmallFile("a")], [ROOT, SmallFile("b")]];
      Trees(trees) && |Run(rs, trees)| == 2 && FaithfulAfter(rs, trees, 1) && !FaithfulAfter(rs, trees, 2)
    ensures var trees := [[ROOT], []];
      Trees(trees) && |Run(rs, trees)| == 2 && FaithfulAfter(rs, trees, 1) && !FaithfulAfter(rs, trees, 2)
  {
    hide FaithfulAfter, Run, TrackableAfter;
    var t1, t2 := [[ROOT, SmallFile("a")], [ROOT, SmallFile("b")]], [[ROOT], []];
    UntrackableTrees();
    UntrackedStep(rs, t1, ["f"]);
    UntrackedStep(rs, t2, []);
  }

  lemma UntrackableTrees()
    ensures !TrackableAfter([[ROOT, SmallFile("a")], [ROOT, SmallFile("b")]], 1, ["f"])
    ensures !TrackableAfter([[ROOT], []], 1, [])
  {
    var p, q := [ROOT, SmallFile("a")], [ROOT, SmallFile("b")];
    assert ROOT.index != ["f"] && p[1..] == [SmallFile("a")] && q[1..] == [SmallFile("b")];
    assert Lookup(p, ["f"]) == Some(SmallFile("a")) && Lookup(q, ["f"]) == Some(SmallFile("b"));
    assert "a" != "b";
  }

  lemma UntrackedStep(rs: Librsync, trees: seq<seq<ROPath>>, i: Index)
    requires rs.Lawful() && Trees(trees) && |trees| == 2 && !TrackableAfter(trees, 1, i)
    ensures |Run(rs, trees)| == 2 && FaithfulAfter(rs, trees, 1) && !FaithfulAfter(rs, trees, 2)
  {
    RunSorted(rs, trees);
    FaithfulIffMatches(rs, trees, 1);
    FaithfulIffMatches(rs, trees, 2);
    forall j ensures MatchesAfter(trees, 1, j) {
      FirstMatches(trees, j);
    }
    MatchesStep(trees, 1, i);
  }
}
