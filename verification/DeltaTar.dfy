/** DeltaTarBlockIter: writing a delta as numbered tar blocks of bounded size. */
module DeltaTar {
  import opened Indices
  import opened Paths
  import opened Strings
  import opened TarNames

  const READ_SIZE := 65536  // get_read_size

  datatype TarBlock = TarBlock(index: Index, entry: TarEntry)

  /** get_tarinfo; a path that does not exist gets the blank header of a regular file. */
  function GetTarinfo(p: ROPath): TarEntry {
    if p.Exists() then
      TarEntry(TarinfoName(p), p.kind, p.mode, p.uid, p.gid, NonNegative(p.mtime), "")
    else
      TarEntry(TarinfoName(p), Reg, 0, 0, 0, 0, "")
  }

  function Block(p: ROPath, name: Bytes, data: Bytes): TarBlock {
    TarBlock(p.index, GetTarinfo(p).(name := name, data := data))
  }

  /** The blocks from volume n on, given the data not yet written. */
  function VolumeBlocks(p: ROPath, n: nat, rest: Bytes): seq<TarBlock>
    decreases |rest|
  {
    if |rest| < READ_SIZE then [Block(p, VolumeName(p, n), rest)]
    else [Block(p, VolumeName(p, n), rest[..READ_SIZE])] + VolumeBlocks(p, n + 1, rest[READ_SIZE..])
  }

  /** All blocks of one delta path. */
  function BlocksOf(p: ROPath): seq<TarBlock> {
    if p.IsReg() && |p.data| >= READ_SIZE then VolumeBlocks(p, 1, p.data)
    else [Block(p, SingleName(p), if p.IsReg() then p.data else "")]
  }

  function AllBlocks(deltas: seq<ROPath>): seq<TarBlock> {
    if deltas == [] then [] else BlocksOf(deltas[0]) + AllBlocks(deltas[1..])
  }

  lemma VolumeStep(p: ROPath, n: nat, fp: Bytes, after: seq<TarBlock>)
    requires p.IsReg()
    ensures VolumeBlocks(p, n, fp) + after ==
            if |fp| < READ_SIZE then [Block(p, VolumeName(p, n), fp)] + ([] + after)
            else [Block(p, VolumeName(p, n), fp[..READ_SIZE])] + (VolumeBlocks(p, n + 1, fp[READ_SIZE..]) + after)
  {
  }

  lemma BlocksStep(p: ROPath, after: seq<TarBlock>)
    ensures BlocksOf(p) + after ==
            if p.IsReg() && |p.data| >= READ_SIZE
            then [Block(p, VolumeName(p, 1), p.data[..READ_SIZE])] + (VolumeBlocks(p, 2, p.data[READ_SIZE..]) + after)
            else [Block(p, SingleName(p), if p.IsReg() then p.data else "")] + ([] + after)
  {
    if p.IsReg() && |p.data| >= READ_SIZE {
      VolumeStep(p, 1, p.data, after);
    }
  }

  lemma AllBlocksFirst(deltas: seq<ROPath>)
    ensures AllBlocks(deltas) == if deltas == [] then [] else BlocksOf(deltas[0]) + AllBlocks(deltas[1..])
    ensures deltas != [] ==> AllBlocks(deltas) != []
  {
  }

  lemma WaitingBlocks(p: Option<ROPath>, n: Option<nat>, fp: Bytes)
    ensures p.Some? && p.value.IsReg() && n.Some? ==> VolumeBlocks(p.value, n.value, fp) != []
  {
  }

  /** The assertions on difftype in process; one on a file of several volumes is never reached. */
  predicate PassesAsserts(p: ROPath) {
    && (p.Exists() && !p.IsReg() ==> p.difftype.Snapshot?)
    && (p.IsReg() && |p.data| < READ_SIZE ==> p.difftype.Snapshot? || p.difftype.Diff?)
  }

  class DeltaTarBlockIter {
    var inputIter: seq<ROPath>  // what the delta iterator still yields
    var processWaiting: bool
    var processNextVolNumber: Option<nat>
    var processRopath: Option<ROPath>
    var processFp: Bytes  // the part of the file object not read yet
    var previousIndex: Option<Index>
    var previousBlock: Option<nat>
    var rememberNext: bool
    var rememberValue: Option<Index>
    var rememberBlock: Option<nat>
    var queuedData: Option<TarBlock>

    ghost predicate Valid()
      reads this
    {
      && (forall p :: p in inputIter ==> PassesAsserts(p))
      && (processWaiting ==>
            processNextVolNumber.Some? && processRopath.Some? && processRopath.value.IsReg())
    }

    /** The blocks still to be processed. */
    ghost function Unprocessed(): seq<TarBlock>
      reads this
      requires Valid()
    {
      (if processWaiting
       then VolumeBlocks(processRopath.value, processNextVolNumber.value, processFp)
       else []) + AllBlocks(inputIter)
    }

    /** The blocks still to be returned: a queued one comes first. */
    ghost function Remaining(): seq<TarBlock>
      reads this
      requires Valid()
    {
      (if queuedData.Some? then [queuedData.value] else []) + Unprocessed()
    }

    constructor (deltas: seq<ROPath>)
      requires forall p :: p in deltas ==> PassesAsserts(p)
      ensures Valid() && Remaining() == AllBlocks(deltas)
    {
      hide AllBlocks, VolumeBlocks;
      inputIter := deltas;
      processWaiting, processNextVolNumber, processRopath, processFp := false, None, None, "";
      previousIndex, previousBlock, queuedData := None, None, None;
      rememberNext, rememberValue, rememberBlock := false, None, None;
    }

    /** queue_index_data: block is returned once more before anything else. */
    method QueueIndexData(block: TarBlock)
      requires Valid()
      modifies this`queuedData
      ensures Valid() && Remaining() == [block] + Unprocessed()
    {
      queuedData := Some(block);
    }

    method RememberNextIndex()
      modifies this`rememberNext, this`rememberValue, this`rememberBlock
      ensures rememberNext && rememberValue.None? && rememberBlock.None?
    {
      rememberNext, rememberValue, rememberBlock := true, None, None;
    }

    /** get_data_block: the next block and whether it is the last. */
    method GetDataBlock() returns (buf: Bytes, last: bool)
      modifies this`processFp
      ensures last <==> |old(processFp)| < READ_SIZE
      ensures if last then buf == old(processFp)
              else buf == old(processFp)[..READ_SIZE] && processFp == old(processFp)[READ_SIZE..]
    {
      var read := if |processFp| < READ_SIZE then |processFp| else READ_SIZE;
      buf := processFp[..read];
      processFp := processFp[read..];
      last := |buf| < READ_SIZE;
    }

    method Process(deltaRopath: ROPath) returns (block: TarBlock)
      requires Valid() && !processWaiting && PassesAsserts(deltaRopath)
      modifies this`processFp, this`processRopath, this`processWaiting, this`processNextVolNumber
      ensures Valid()
      ensures [block] + Unprocessed() == BlocksOf(deltaRopath) + AllBlocks(inputIter)
      ensures block.index == deltaRopath.index
    {
      hide BlocksOf, VolumeBlocks, AllBlocks, VolumeName, SingleName, GetTarinfo;
      BlocksStep(deltaRopath, AllBlocks(inputIter));
      if !deltaRopath.IsReg() {
        assert deltaRopath.Exists() ==> deltaRopath.difftype.Snapshot?;
        block := Block(deltaRopath, SingleName(deltaRopath), "");
        return;
      }
      processFp := deltaRopath.data;
      var data, lastBlock := GetDataBlock();
      if lastBlock {
        assert deltaRopath.difftype.Snapshot? || deltaRopath.difftype.Diff?;
        block := Block(deltaRopath, SingleName(deltaRopath), data);
        return;
      }
      block := Block(deltaRopath, VolumeName(deltaRopath, 1), data);
      processRopath, processWaiting, processNextVolNumber := Some(deltaRopath), true, Some(2);
    }

    method ProcessContinued() returns (block: TarBlock)
      requires Valid() && processWaiting
      modifies this`processFp, this`processRopath, this`processWaiting, this`processNextVolNumber
      ensures Valid()
      ensures [block] + Unprocessed() == old(Unprocessed())
      ensures block.index == old(processRopath).value.index
    {
      hide VolumeBlocks, AllBlocks, BlocksOf, VolumeName, GetTarinfo, PassesAsserts;
      var ropath, n := processRopath.value, processNextVolNumber.value;
      var data, lastBlock := GetDataBlock();
      if lastBlock {
        processWaiting, processNextVolNumber, processRopath := false, None, None;
      } else {
        processNextVolNumber := Some(n + 1);
      }
      block := Block(ropath, VolumeName(ropath, n), data);
      VolumeStep(ropath, n, old(processFp), AllBlocks(inputIter));
    }

    /**
     * next: one more block, or None at the end of the iterator. A queued block leaves the position as it is;
     * any other becomes the previous one, and the remembered one if one is to be remembered.
     */
    method Next() returns (block: Option<TarBlock>)
      requires Valid()
      modifies this
      ensures Valid()
      ensures if old(Remaining()) == [] then block.None? && Remaining() == []
              else block.Some? && [block.value] + Remaining() == old(Remaining())
      ensures var moved := block.Some? && old(queuedData).None?;
        (previousIndex == if moved then Some(block.value.index) else old(previousIndex)) &&
        (previousBlock == if moved then processNextVolNumber else old(previousBlock)) &&
        (rememberNext <==> old(rememberNext) && !moved) &&
        (rememberValue == if old(rememberNext) && moved then previousIndex else old(rememberValue)) &&
        (rememberBlock == if old(rememberNext) && moved then previousBlock else old(rememberBlock))
    {
      hide VolumeBlocks, AllBlocks, BlocksOf;
      if queuedData.Some? {
        block, queuedData := queuedData, None;
        return;
      }
      AllBlocksFirst(inputIter);
      WaitingBlocks(processRopath, processNextVolNumber, processFp);
      var result: TarBlock;
      if processWaiting {
        result := ProcessContinued();
      } else if inputIter == [] {
        return None;
      } else {
        var deltaRopath := inputIter[0];
        inputIter := inputIter[1..];
        result := Process(deltaRopath);
      }
      var blockNumber := processNextVolNumber;
      previousIndex, previousBlock := Some(result.index), blockNumber;
      if rememberNext {
        rememberValue, rememberBlock, rememberNext := Some(result.index), blockNumber, false;
      }
      block := Some(result);
    }
  }

  // ----- what is written for one path

  /** The header of every member written for p, but for its name and size. */
  predicate HeaderOf(p: ROPath, e: TarEntry) {
    if p.kind.Missing? then e.kind == Reg && e.mode == e.uid == e.gid == e.mtime == 0
    else
      e.kind == p.kind && e.mode == p.mode && e.uid == p.uid && e.gid == p.gid &&
      e.mtime == if p.mtime < 0 then 0 else p.mtime
  }

  /** Blocks of 64 KiB numbered from 1, the last one shorter and perhaps empty. */
  ghost predicate NumberedBlocks(p: ROPath, word: Bytes, entries: seq<TarEntry>) {
    && |entries| == |p.data| / 65536 + 1
    && forall k :: 0 <= k < |entries| ==>
         HeaderOf(p, entries[k]) && entries[k].name == word + TarinfoName(p) + "/" + Decimal(k + 1) &&
         entries[k].data == p.data[65536 * k..if k + 1 < |entries| then 65536 * (k + 1) else |p.data|]
  }

  ghost predicate OneBlock(p: ROPath, word: Bytes, entries: seq<TarEntry>) {
    && |entries| == 1 && HeaderOf(p, entries[0])
    && entries[0].name == (if TarinfoName(p) == "." then word else word + TarinfoName(p))
    && entries[0].data == if p.kind.Reg? then p.data else ""
  }

  /** The members of one path. */
  ghost predicate WrittenFor(p: ROPath, entries: seq<TarEntry>) {
    if p.kind.Missing? then OneBlock(p, "deleted/", entries)
    else if p.kind.Reg? && |p.data| >= 65536 then
      && (p.difftype.Snapshot? ==> NumberedBlocks(p, "multivol_snapshot/", entries))
      && (p.difftype.Diff? ==> NumberedBlocks(p, "multivol_diff/", entries))
    else
      && (p.difftype.Snapshot? ==> OneBlock(p, "snapshot/", entries))
      && (p.difftype.Diff? ==> OneBlock(p, "diff/", entries))
  }

  /** The members of every path, one path after the other. */
  ghost predicate WrittenInOrder(deltas: seq<ROPath>, entries: seq<TarEntry>) {
    if deltas == [] then entries == []
    else exists n :: 0 <= n <= |entries| &&
           WrittenFor(deltas[0], entries[..n]) && WrittenInOrder(deltas[1..], entries[n..])
  }

  lemma HeaderKept(p: ROPath, name: Bytes, data: Bytes)
    ensures var e := Block(p, name, data).entry; HeaderOf(p, e) && e.name == name && e.data == data
  {
  }

  lemma {:induction false} VolumesCounted(p: ROPath, n: nat, rest: Bytes)
    ensures |VolumeBlocks(p, n, rest)| == |rest| / 65536 + 1
    decreases |rest|
  {
    if |rest| >= READ_SIZE { VolumesCounted(p, n + 1, rest[READ_SIZE..]); }
  }

  lemma {:induction false} VolumeAt(p: ROPath, n: nat, rest: Bytes, k: nat)
    requires k < |VolumeBlocks(p, n, rest)| && 65536 * k <= |rest|
    ensures var hi := if k + 1 < |VolumeBlocks(p, n, rest)| then 65536 * (k + 1) else |rest|;
      hi <= |rest| && 65536 * k <= hi &&
      VolumeBlocks(p, n, rest)[k] == Block(p, VolumeName(p, n + k), rest[65536 * k..hi])
    decreases k
  {
    hide VolumeName, Block;
    VolumesCounted(p, n, rest);
    if |rest| < READ_SIZE {
      assert rest[0..|rest|] == rest;
    } else if k > 0 {
      var later := rest[READ_SIZE..];
      VolumesCounted(p, n + 1, later);
      VolumeAt(p, n + 1, later, k - 1);
      var hi := if k < |VolumeBlocks(p, n + 1, later)| then 65536 * k else |later|;
      SliceLater(rest, 65536 * (k - 1), hi);
    }
  }

  lemma VolumesNumbered(p: ROPath, rest: Bytes)
    ensures var blocks := Entries(VolumeBlocks(p, 1, rest));
      |blocks| == |rest| / 65536 + 1 &&
      forall k :: 0 <= k < |blocks| ==>
        HeaderOf(p, blocks[k]) && blocks[k].name == VolumeName(p, 1 + k) &&
        blocks[k].data == rest[65536 * k..if k + 1 < |blocks| then 65536 * (k + 1) else |rest|]
  {
    hide VolumeBlocks, VolumeName, HeaderOf, Block;
    VolumesCounted(p, 1, rest);
    var blocks := VolumeBlocks(p, 1, rest);
    forall k | 0 <= k < |blocks|
      ensures HeaderOf(p, blocks[k].entry) && blocks[k].entry.name == VolumeName(p, 1 + k)
      ensures blocks[k].entry.data == rest[65536 * k..if k + 1 < |blocks| then 65536 * (k + 1) else |rest|]
    {
      VolumeAt(p, 1, rest, k);
      HeaderKept(p, VolumeName(p, 1 + k), rest[65536 * k..if k + 1 < |blocks| then 65536 * (k + 1) else |rest|]);
    }
  }

  lemma SliceLater(s: Bytes, lo: nat, hi: nat)
    requires READ_SIZE <= |s| && lo <= hi <= |s| - READ_SIZE
    ensures s[READ_SIZE..][lo..hi] == s[READ_SIZE + lo..READ_SIZE + hi]
  {
  }

  /** The volumes of a large file are named after its difftype and numbered from 1. */
  lemma VolumesWritten(p: ROPath)
    ensures p.difftype.Snapshot? ==> NumberedBlocks(p, "multivol_snapshot/", Entries(VolumeBlocks(p, 1, p.data)))
    ensures p.difftype.Diff? ==> NumberedBlocks(p, "multivol_diff/", Entries(VolumeBlocks(p, 1, p.data)))
  {
    VolumesNumbered(p, p.data);
    hide VolumeBlocks, HeaderOf, VolumeName, TarinfoName, Decimal, Entries;
    var blocks := Entries(VolumeBlocks(p, 1, p.data));
    forall k | 0 <= k < |blocks|
      ensures p.difftype.Snapshot? ==> blocks[k].name == "multivol_snapshot/" + TarinfoName(p) + "/" + Decimal(k + 1)
      ensures p.difftype.Diff? ==> blocks[k].name == "multivol_diff/" + TarinfoName(p) + "/" + Decimal(k + 1)
    {
      VolumeNameOf(p, 1 + k);
    }
  }

  lemma WrittenForPath(p: ROPath)
    requires PassesAsserts(p)
    ensures WrittenFor(p, Entries(BlocksOf(p)))
  {
    if p.IsReg() && |p.data| >= READ_SIZE {
      hide NumberedBlocks, VolumeBlocks;
      VolumesWritten(p);
    } else {
      HeaderKept(p, SingleName(p), if p.IsReg() then p.data else "");
      SingleNameOf(p);
    }
  }

  lemma EntriesJoin(a: seq<TarBlock>, b: seq<TarBlock>)
    ensures Entries(a + b) == Entries(a) + Entries(b)
  {
  }

  lemma {:induction false} AllWritten(deltas: seq<ROPath>)
    requires forall p :: p in deltas ==> PassesAsserts(p)
    ensures WrittenInOrder(deltas, Entries(AllBlocks(deltas)))
  {
    hide BlocksOf, PassesAsserts, WrittenFor;
    if deltas != [] {
      var first, entries := Entries(BlocksOf(deltas[0])), Entries(AllBlocks(deltas));
      WrittenForPath(deltas[0]);
      AllWritten(deltas[1..]);
      EntriesJoin(BlocksOf(deltas[0]), AllBlocks(deltas[1..]));
      assert entries[..|first|] == first && entries[|first|..] == Entries(AllBlocks(deltas[1..]));
    }
  }

  /** write_block_iter: drain the iterator into the tar file. */
  method WriteBlocks(deltas: seq<ROPath>) returns (entries: seq<TarEntry>)
    requires forall p :: p in deltas ==> PassesAsserts(p)
    ensures entries == Entries(AllBlocks(deltas)) && WrittenInOrder(deltas, entries)
  {
    hide AllBlocks, VolumeBlocks, PassesAsserts, WrittenInOrder;
    AllWritten(deltas);
    var blockIter := new DeltaTarBlockIter(deltas);
    ghost var all := AllBlocks(deltas);
    var blocks: seq<TarBlock> := [];
    while true
      invariant blockIter.Valid() && fresh(blockIter)
      invariant blocks + blockIter.Remaining() == all
      decreases |blockIter.Remaining()|
    {
      var block := blockIter.Next();
      if block.None? {
        assert blocks == all;
        return Entries(blocks);
      }
      blocks := blocks + [block.value];
    }
  }

  function Entries(blocks: seq<TarBlock>): seq<TarEntry> {
    seq(|blocks|, n requires 0 <= n < |blocks| => blocks[n].entry)
  }
}
