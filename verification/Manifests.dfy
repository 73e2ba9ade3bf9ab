/** manifest.Manifest: the volumes of one backup set. */
module Manifests {
  import opened Indices
  import opened Volumes

  // ----- what an append-only manifest means

  /** Numbering starts at 1 and goes on, or restarts at an earlier volume. */
  ghost predicate Restarts(records: seq<VolumeInfo>) {
    forall k :: 0 <= k < |records| ==> 1 <= records[k].number <= Latest(records[..k]) + 1
  }

  function Latest(records: seq<VolumeInfo>): nat {
    if records == [] then 0 else records[|records| - 1].number
  }

  function Highest(records: seq<VolumeInfo>): nat {
    if records == [] then 0
    else
      var before, last := Highest(records[..|records| - 1]), Latest(records);
      if last > before then last else before
  }

  /** The dictionary after every record has been added. */
  function Recorded(records: seq<VolumeInfo>): map<nat, VolumeInfo> {
    if records == [] then map[]
    else Recorded(records[..|records| - 1])[Latest(records) := records[|records| - 1]]
  }

  /** A stack of volumes that every restart cuts back before it goes on. */
  function Stack(records: seq<VolumeInfo>): seq<VolumeInfo> {
    if records == [] then []
    else
      var before, vi := Stack(records[..|records| - 1]), records[|records| - 1];
      (if 1 <= vi.number <= |before| then before[..vi.number - 1] else before) + [vi]
  }

  function UpTo(dict: map<nat, VolumeInfo>, n: nat): map<nat, VolumeInfo> {
    map i | i in dict && i <= n :: dict[i]
  }

  function Outside(dict: map<nat, VolumeInfo>, lo: nat, hi: nat): map<nat, VolumeInfo> {
    map i | i in dict && !(lo < i <= hi) :: dict[i]
  }

  /** A volume above the latest that would have to be deleted was never recorded. */
  ghost predicate HasGap(records: seq<VolumeInfo>) {
    exists i: nat :: Latest(records) < i <= Highest(records) && i !in Recorded(records)
  }

  /** The volumes of a stack, numbered from 1. */
  ghost predicate Holds(dict: map<nat, VolumeInfo>, stack: seq<VolumeInfo>) {
    && (forall i :: i in dict <==> 1 <= i <= |stack|)
    && (forall i :: i in dict ==> dict[i] == stack[i - 1])
  }

  /** The volumes of the stack are recorded, and no number up to the highest is missing. */
  ghost predicate StackRecorded(records: seq<VolumeInfo>) {
    && |Stack(records)| == Latest(records) <= Highest(records)
    && (forall i :: i in Recorded(records) <==> 1 <= i <= Highest(records))
    && (forall i :: 1 <= i <= Latest(records) ==> Recorded(records)[i] == Stack(records)[i - 1])
  }

  lemma RecordStep(before: seq<VolumeInfo>, vi: VolumeInfo)
    requires StackRecorded(before) && 1 <= vi.number <= Latest(before) + 1
    ensures StackRecorded(before + [vi])
  {
    var records := before + [vi];
    assert records[..|records| - 1] == before;
    var stack := Stack(before);
    var kept := if vi.number <= |stack| then stack[..vi.number - 1] else stack;
    assert Stack(records) == kept + [vi] && Recorded(records) == Recorded(before)[vi.number := vi];
    assert forall k :: 0 <= k < vi.number - 1 ==> kept[k] == stack[k];
  }

  lemma {:induction false} RestartsRecord(records: seq<VolumeInfo>)
    requires Restarts(records)
    ensures StackRecorded(records)
  {
    if records != [] {
      var before := records[..|records| - 1];
      assert forall k :: 0 <= k < |before| ==> before[k] == records[k] && before[..k] == records[..k];
      RestartsRecord(before);
      assert records == before + [records[|records| - 1]];
      RecordStep(before, records[|records| - 1]);
    }
  }

  /** manifest.from_string over its volume records. */
  class Manifest {
    var volumeInfoDict: map<nat, VolumeInfo>

    constructor ()
      ensures volumeInfoDict == map[]
    {
      volumeInfoDict := map[];
    }

    method AddVolumeInfo(vi: VolumeInfo)
      modifies this
      ensures volumeInfoDict == old(volumeInfoDict)[vi.number := vi]
    {
      volumeInfoDict := volumeInfoDict[vi.number := vi];
    }

    /** false stands for the ManifestError. */
    method DelVolumeInfo(volNum: nat) returns (ok: bool)
      modifies this
      ensures ok <==> volNum in old(volumeInfoDict)
      ensures volumeInfoDict == old(volumeInfoDict) - {volNum}
    {
      ok := volNum in volumeInfoDict;
      volumeInfoDict := volumeInfoDict - {volNum};
    }

    method FromRecords(records: seq<VolumeInfo>) returns (ok: bool)
      requires volumeInfoDict == map[]
      modifies this
      ensures ok <==> !HasGap(records)
      ensures ok ==> volumeInfoDict == UpTo(Recorded(records), Latest(records))
      ensures Restarts(records) ==> ok && Holds(volumeInfoDict, Stack(records))
    {
      var highestVol, latestVol := 0, 0;
      for n := 0 to |records|
        invariant volumeInfoDict == Recorded(records[..n])
        invariant latestVol == Latest(records[..n]) && highestVol == Highest(records[..n])
      {
        assert records[..n + 1][..n] == records[..n];
        AddVolumeInfo(records[n]);
        latestVol := records[n].number;
        highestVol := if highestVol > latestVol then highestVol else latestVol;
      }
      assert records[..|records|] == records;
      ok := Discard(latestVol, highestVol);
      RecordedAtMostHighest(records);
      if Restarts(records) { RestartsRecord(records); }
    }

    /** A restart may have left the highest volume above the latest. */
    method Discard(latestVol: nat, highestVol: nat) returns (ok: bool)
      modifies this
      ensures ok <==> forall i :: latestVol < i <= highestVol ==> i in old(volumeInfoDict)
      ensures ok ==> volumeInfoDict == Outside(old(volumeInfoDict), latestVol, highestVol)
    {
      ghost var all := volumeInfoDict;
      ok := true;
      var i := latestVol + 1;
      while i < highestVol + 1
        invariant latestVol < i && (i <= highestVol + 1 || i == latestVol + 1)
        invariant forall k :: latestVol < k < i ==> k in all
        invariant volumeInfoDict == Outside(all, latestVol, i - 1)
      {
        ok := DelVolumeInfo(i);
        if !ok {
          return;
        }
        i := i + 1;
      }
    }

    /** No volume that holds something under the prefix is missed, and no other is returned. */
    method GetContainingVolumes(indexPrefix: Index) returns (volumes: set<nat>)
      ensures forall v :: v in volumes ==> v in volumeInfoDict
      ensures forall v :: v in volumeInfoDict && AtMost(volumeInfoDict[v].startIndex, volumeInfoDict[v].endIndex) ==>
                (v in volumes <==> exists i :: indexPrefix <= i && volumeInfoDict[v].Covers(i))
    {
      volumes := set v | v in volumeInfoDict && volumeInfoDict[v].Contains(indexPrefix, true);
      forall v | v in volumeInfoDict && AtMost(volumeInfoDict[v].startIndex, volumeInfoDict[v].endIndex)
        ensures v in volumes <==> exists i :: indexPrefix <= i && volumeInfoDict[v].Covers(i)
      {
        ContainsExact(volumeInfoDict[v], indexPrefix);
      }
    }
  }

  lemma {:induction false} RecordedAtMostHighest(records: seq<VolumeInfo>)
    ensures Latest(records) <= Highest(records)
    ensures forall i :: i in Recorded(records) ==> i <= Highest(records)
  {
    if records != [] {
      RecordedAtMostHighest(records[..|records| - 1]);
    }
  }
}
