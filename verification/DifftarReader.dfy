/** difftar2path_iter and Multivol_Filelike: two readers sharing one position in a tar file. */
module DifftarReader {
  import opened Indices
  import opened Paths
  import opened DiffDir
  import opened PatchDir
  import opened TarNames

  // ----- the paths a tar file holds

  /** e continues the split file with this index. */
  predicate InRun(e: TarEntry, index: Index) {
    var tag := GetIndex(e);
    tag.Ok? && tag.value.multivol && tag.value.index == index
  }

  function SkipRun(entries: seq<TarEntry>, index: Index): (r: seq<TarEntry>)
    ensures |r| <= |entries|
    ensures entries != [] && InRun(entries[0], index) ==> |r| < |entries|
  {
    if entries != [] && InRun(entries[0], index) then SkipRun(entries[1..], index) else entries
  }

  function RunData(entries: seq<TarEntry>, index: Index): Bytes {
    if entries != [] && InRun(entries[0], index) then entries[0].data + RunData(entries[1..], index) else ""
  }

  /** init_from_tarinfo with the difftype of the name. */
  function PathOf(e: TarEntry, tag: Label): ROPath {
    ROPath(tag.index, if tag.difftype.Deleted? then Missing else e.kind, e.mode, e.uid, e.gid,
           NonNegative(e.mtime), tag.difftype, if tag.difftype.Deleted? || !e.kind.Reg? then "" else e.data)
  }

  predicate Splits(e: TarEntry, tag: Label) {
    tag.multivol && !tag.difftype.Deleted? && e.kind.Reg?
  }

  /** The paths of the tar file with their whole data, up to a member whose name is refused. */
  function PathsIn(entries: seq<TarEntry>): seq<ROPath>
    decreases |entries|
  {
    if entries == [] then []
    else
      match GetIndex(entries[0])
      case Err => []
      case Ok(tag) =>
        var path := PathOf(entries[0], tag);
        if Splits(entries[0], tag) then
          [path.(data := RunData(entries, tag.index))] + PathsIn(SkipRun(entries, tag.index))
        else [path] + PathsIn(entries[1..])
  }

  lemma CutFront(s: Bytes, n: nat, t: Bytes)
    requires n <= |s|
    ensures s + t == s[..n] + (s[n..] + t)
  {
  }

  ghost predicate HasBadName(entries: seq<TarEntry>) {
    exists e :: e in entries && GetIndex(e).Err?
  }

  // ----- the shared position

  /** The tar iterator together with tarinfo_list, the member read ahead. */
  class TarCursor {
    const entries: seq<TarEntry>
    var pos: nat
    var tarinfo: Option<TarEntry>

    ghost predicate Valid()
      reads this
    {
      pos <= |entries| && (tarinfo.Some? ==> pos > 0 && tarinfo.value == entries[pos - 1])
    }

    /** The members not yet done with, the one read ahead included. */
    ghost function Remaining(): seq<TarEntry>
      reads this
      requires Valid()
    {
      if tarinfo.Some? then entries[pos - 1..] else entries[pos..]
    }

    constructor (entries: seq<TarEntry>)
      ensures Valid() && tarinfo.None? && Remaining() == entries && this.entries == entries
    {
      this.entries := entries;
      pos, tarinfo := 0, None;
    }

    /** tarinfo_list[0] = next(tar_iter), or None at the end. */
    method Advance() returns (more: bool)
      requires Valid()
      modifies this
      ensures Valid()
      ensures Remaining() == if old(tarinfo).Some? then old(Remaining())[1..] else old(Remaining())
      ensures more <==> Remaining() != []
      ensures tarinfo == if more then Some(Remaining()[0]) else None
    {
      more := pos < |entries|;
      if more {
        tarinfo := Some(entries[pos]);
        pos := pos + 1;
      } else {
        tarinfo := None;
      }
    }
  }

  class MultivolFilelike {
    const cursor: TarCursor
    const index: Index
    var buffer: Bytes
    var atEnd: bool

    ghost predicate Valid()
      reads this, cursor
    {
      cursor.Valid() && (cursor.tarinfo.None? ==> atEnd && cursor.Remaining() == [])
    }

    /** The members left for others once this file has been read or closed. */
    ghost function After(): seq<TarEntry>
      reads this, cursor
      requires Valid()
    {
      if atEnd then cursor.Remaining() else SkipRun(cursor.Remaining(), index)
    }

    /** The data still to be read. */
    ghost function Rest(): Bytes
      reads this, cursor
      requires Valid()
    {
      buffer + if atEnd then "" else RunData(cursor.Remaining(), index)
    }

    constructor (cursor: TarCursor, index: Index)
      requires cursor.Valid() && cursor.tarinfo.Some?
      ensures this.cursor == cursor && this.index == index && Valid() && !atEnd
      ensures Rest() == RunData(cursor.Remaining(), index)
      ensures After() == SkipRun(cursor.Remaining(), index)
    {
      this.cursor, this.index := cursor, index;
      buffer, atEnd := "", false;
      new;
      assert "" + RunData(cursor.Remaining(), index) == RunData(cursor.Remaining(), index);
    }

    /** addtobuffer: one more volume into the buffer; false once the file is complete. */
    method AddToBuffer() returns (r: Result<bool>)
      requires Valid()
      modifies this, cursor
      ensures Valid() && After() == old(After()) && Rest() == old(Rest())
      ensures |cursor.Remaining()| <= |old(cursor.Remaining())|
      ensures r == Ok(false) ==> atEnd
      ensures r == Ok(true) ==> |cursor.Remaining()| < |old(cursor.Remaining())|
      ensures r.Err? ==> HasBadName(cursor.entries)
    {
      if atEnd { return Ok(false); }
      var tag := GetIndex(cursor.tarinfo.value);
      if tag.Err? { return Err; }
      if !tag.value.multivol || tag.value.index != index {
        atEnd := true;
        assert buffer + "" == buffer;
        return Ok(false);
      }
      ghost var before := cursor.Remaining();
      assert RunData(before, index) == before[0].data + RunData(before[1..], index);
      assert SkipRun(before, index) == SkipRun(before[1..], index);
      assert RunData([], index) == "" && SkipRun([], index) == [];
      hide GetIndex, RunData, SkipRun, HasBadName;
      var data := cursor.tarinfo.value.data;
      ghost var unread := RunData(before[1..], index);
      assert buffer + (data + unread) == (buffer + data) + unread;
      buffer := buffer + data;
      var more := cursor.Advance();
      if !more {
        atEnd := true;
        assert unread == "" && buffer + "" == buffer;
        return Ok(false);
      }
      r := Ok(true);
    }

    /** The loops of read: volumes are added until length bytes are there or the file is complete. */
    method Fill(length: int) returns (r: Result<()>)
      requires Valid()
      modifies this, cursor
      ensures Valid() && After() == old(After()) && Rest() == old(Rest())
      ensures r.Ok? ==> atEnd || 0 <= length <= |buffer|
      ensures r.Err? ==> HasBadName(cursor.entries)
    {
      while length < 0 || |buffer| < length
        invariant Valid() && After() == old(After()) && Rest() == old(Rest())
        decreases |cursor.Remaining()|
      {
        var more := AddToBuffer();
        if more.Err? { return Err; }
        if !more.value { return Ok(()); }
      }
      r := Ok(());
    }

    /** read(length): the next bytes, all of them for a negative length. */
    method Read(length: int) returns (r: Result<Bytes>)
      requires Valid()
      modifies this, cursor
      ensures Valid() && After() == old(After())
      ensures r.Ok? ==> |r.value| == if 0 <= length < |old(Rest())| then length else |old(Rest())|
      ensures r.Ok? ==> old(Rest()) == r.value + Rest()
      ensures r.Err? ==> Rest() == old(Rest()) && HasBadName(cursor.entries)
    {
      var filled := Fill(length);
      if filled.Err? { return Err; }
      ghost var unread := if atEnd then "" else RunData(cursor.Remaining(), index);
      var realLen := if 0 <= length < |buffer| then length else |buffer|;
      var result := buffer[..realLen];
      CutFront(buffer, realLen, unread);
      buffer := buffer[realLen..];
      r := Ok(result);
    }

    /** close: skip what has not been read. */
    method Close() returns (r: Result<()>)
      requires Valid()
      modifies this, cursor
      ensures Valid() && After() == old(After())
      ensures r.Ok? ==> atEnd
      ensures r.Err? ==> HasBadName(cursor.entries)
    {
      while !atEnd
        invariant Valid() && After() == old(After())
        decreases |cursor.Remaining()|, !atEnd
      {
        buffer := "";
        var more := AddToBuffer();
        if more.Err? { return Err; }
        if !more.value { break; }
      }
      r := Ok(());
    }
  }

  /** difftar2path_iter. */
  class DifftarPathIter {
    const cursor: TarCursor
    var multivol: MultivolFilelike?
    var advance: bool  // suspended after a yield that next moves to the following member
    var finished: bool

    ghost predicate Valid()
      reads this, cursor, multivol
    {
      && cursor.Valid()
      && (multivol != null ==> multivol.cursor == cursor && multivol.Valid())
      && (multivol != null && !multivol.atEnd ==> !advance)
      && (!advance && !finished && cursor.tarinfo.None? ==> cursor.Remaining() == [])
    }

    /** The members of the paths not yielded yet. */
    ghost function Unyielded(): seq<TarEntry>
      reads this, cursor, multivol
      requires Valid()
    {
      if finished then []
      else if multivol != null && !multivol.atEnd then multivol.After()
      else if advance && cursor.tarinfo.Some? then cursor.Remaining()[1..]
      else cursor.Remaining()
    }

    /** The paths not yielded yet. */
    ghost function Upcoming(): seq<ROPath>
      reads this, cursor, multivol
      requires Valid()
    {
      PathsIn(Unyielded())
    }

    constructor (entries: seq<TarEntry>)
      ensures Valid() && fresh(cursor) && multivol == null && cursor.entries == entries
      ensures Upcoming() == PathsIn(entries)
    {
      hide GetIndex;
      cursor := new TarCursor(entries);
      multivol, advance, finished := null, true, false;
      new;
      assert Unyielded() == entries;
    }

    /** Resumes after the last yield: past its member, or past what is unread of a split file. */
    method Resume() returns (r: Result<()>)
      requires Valid() && !finished
      modifies this, cursor, multivol
      ensures Valid() && multivol == old(multivol)
      ensures r.Err? ==> finished && HasBadName(cursor.entries)
      ensures r.Ok? ==> !finished && !advance && (multivol != null ==> multivol.atEnd)
      ensures r.Ok? ==> Unyielded() == old(Unyielded())
    {
      hide GetIndex, PathsIn, SkipRun, RunData;
      if advance {
        var more := cursor.Advance();
        advance := false;
      } else if multivol != null && !multivol.atEnd {
        var closed := multivol.Close();  // aborting in the middle of a split file
        if closed.Err? {
          finished := true;
          return Err;
        }
      }
      r := Ok(());
    }

    /** Up to the next member to be looked at; false at the end of the tar file. */
    method Settle() returns (r: Result<bool>)
      requires Valid()
      modifies this, cursor, multivol
      ensures Valid() && multivol == old(multivol)
      ensures r.Err? ==> HasBadName(cursor.entries)
      ensures r.Ok? ==> Unyielded() == old(Unyielded()) && r.value == (old(Unyielded()) != [])
      ensures r == Ok(true) ==> !finished && !advance && (multivol != null ==> multivol.atEnd)
      ensures r == Ok(true) ==> cursor.tarinfo == Some(Unyielded()[0]) && Unyielded() == cursor.Remaining()
    {
      hide GetIndex, PathsIn, SkipRun, RunData;
      if finished { return Ok(false); }
      var resumed := Resume();
      if resumed.Err? { return Err; }
      finished := cursor.tarinfo.None?;
      r := Ok(!finished);
    }

    /**
     * next: the next path. The data of a split file is left to be read through file.
     */
    method Next() returns (r: Result<Option<ROPath>>, file: MultivolFilelike?)
      requires Valid()
      modifies this, cursor, multivol
      ensures Valid() && (multivol == old(multivol) || fresh(multivol))
      ensures r.Err? ==> HasBadName(cursor.entries)
      ensures r.Ok? && r.value.None? ==> old(Upcoming()) == [] && Upcoming() == []
      ensures r.Ok? && r.value.Some? ==> old(Upcoming()) != [] && Upcoming() == old(Upcoming())[1..]
      ensures r.Ok? && r.value.Some? && file == null ==> r.value.value == old(Upcoming())[0]
      ensures r.Ok? && r.value.Some? && file != null ==>
                !advance && !finished && file == multivol && fresh(file) && file.Rest() == old(Upcoming())[0].data &&
                r.value.value == old(Upcoming())[0].(data := "")
    {
      hide GetIndex;
      file := null;
      var more := Settle();
      if more.Err? { return Err, null; }
      if !more.value { return Ok(None), null; }
      var tag := GetIndex(cursor.tarinfo.value);
      if tag.Err? {
        finished := true;
        return Err, null;
      }
      var ropath;
      ropath, file := Yield(tag.value);
      r := Ok(Some(ropath));
    }

    /** The member read ahead becomes a path; a split file gets a reader for its volumes. */
    method Yield(tag: Label) returns (ropath: ROPath, file: MultivolFilelike?)
      requires Valid() && !finished && !advance && (multivol != null ==> multivol.atEnd)
      requires cursor.Remaining() != [] && cursor.tarinfo == Some(cursor.Remaining()[0])
      requires GetIndex(cursor.tarinfo.value) == Ok(tag)
      modifies this
      ensures multivol == old(multivol) || fresh(multivol)
      ensures Valid() && [ropath.(data := PathsIn(old(Unyielded()))[0].data)] + Upcoming() == PathsIn(old(Unyielded()))
      ensures file == null ==> ropath.data == PathsIn(old(Unyielded()))[0].data
      ensures file != null ==> !advance && !finished && file == multivol && fresh(file) && ropath.data == ""
      ensures file != null ==> file.Rest() == PathsIn(old(Unyielded()))[0].data
    {
      hide GetIndex;
      file := null;
      var tarinfo := cursor.tarinfo.value;
      ropath := PathOf(tarinfo, tag);
      if Splits(tarinfo, tag) {
        file := new MultivolFilelike(cursor, tag.index);
        multivol := file;
        ropath := ropath.(data := "");
      } else {
        advance := true;
      }
    }
  }

  // ----- a consumer that reads as much of each file as it likes

  /** How much of total bytes reads of the given lengths return. */
  function Amount(lengths: seq<int>, total: nat): (n: nat)
    ensures n <= total
    ensures lengths != [] && lengths[0] < 0 ==> n == total
  {
    if lengths == [] then 0
    else
      var first := if 0 <= lengths[0] < total then lengths[0] else total;
      first + Amount(lengths[1..], total - first)
  }

  /** The bytes that reads of the given lengths return from s. */
  function Part(s: Bytes, lengths: seq<int>): Bytes {
    s[..Amount(lengths, |s|)]
  }

  lemma PartStep(all: Bytes, lengths: seq<int>, piece: Bytes, unread: Bytes)
    requires lengths != [] && all == piece + unread
    requires |piece| == if 0 <= lengths[0] < |all| then lengths[0] else |all|
    ensures piece + Part(unread, lengths[1..]) == Part(all, lengths)
  {
  }

  /** Performs the reads one after the other and joins what they return. */
  method ReadLengths(file: MultivolFilelike, lengths: seq<int>) returns (r: Result<Bytes>)
    requires file.Valid()
    modifies file, file.cursor
    ensures file.Valid() && file.After() == old(file.After())
    ensures r.Ok? ==> r.value == Part(old(file.Rest()), lengths)
    ensures r.Err? ==> HasBadName(file.cursor.entries)
  {
    hide GetIndex, SkipRun, RunData, Part;
    if lengths == [] {
      assert Part(file.Rest(), []) == "" by { PartNone(file.Rest()); }
      r := Ok("");
    } else {
      var piece := file.Read(lengths[0]);
      if piece.Err? { return Err; }
      ghost var unread := file.Rest();
      var more := ReadLengths(file, lengths[1..]);
      if more.Err? { return Err; }
      PartStep(piece.value + unread, lengths, piece.value, unread);
      r := Ok(piece.value + more.value);
    }
  }

  lemma PartNone(s: Bytes)
    ensures Part(s, []) == ""
  {
  }

  /** Reads of the file just yielded do not disturb what the iterator yields next. */
  method ReadFrom(reader: DifftarPathIter, lengths: seq<int>) returns (r: Result<Bytes>)
    requires reader.Valid() && reader.multivol != null && !reader.advance && !reader.finished
    modifies reader.multivol, reader.cursor
    ensures reader.Valid() && reader.Upcoming() == old(reader.Upcoming())
    ensures r.Ok? ==> r.value == Part(old(reader.multivol.Rest()), lengths)
    ensures r.Err? ==> HasBadName(reader.cursor.entries)
  {
    hide GetIndex, PathsIn;
    r := ReadLengths(reader.multivol, lengths);
  }

  /** A consumer got a path of the tar file, with exactly the bytes that its reads ask for. */
  predicate Got(path: ROPath, data: Bytes, wanted: seq<int>, all: ROPath) {
    path == all.(data := "") && data == Part(all.data, wanted)
  }

  /** What a consumer has so far. */
  ghost predicate GotAll(paths: seq<ROPath>, datas: seq<Bytes>, wanted: seq<seq<int>>, all: seq<ROPath>) {
    |paths| == |datas| <= |wanted| == |all| &&
    forall k :: 0 <= k < |paths| ==> Got(paths[k], datas[k], wanted[k], all[k])
  }

  lemma GotNone(wanted: seq<seq<int>>, all: seq<ROPath>)
    requires |wanted| == |all|
    ensures GotAll([], [], wanted, all)
  {
  }

  lemma GotOneMore(
      paths: seq<ROPath>, datas: seq<Bytes>, wanted: seq<seq<int>>, all: seq<ROPath>, path: ROPath, data: Bytes)
    requires GotAll(paths, datas, wanted, all) && |paths| < |all|
    requires Got(path, data, wanted[|paths|], all[|paths|..][0])
    ensures GotAll(paths + [path], datas + [data], wanted, all)
  {
  }

  /**
   * Takes the paths one by one, reading as much of each file as wanted asks for. Every
   * path is delivered in order with the bytes asked for: the iterator finds the next path
   * whether the one before was read wholly, partly or not at all.
   */
  method Consume(entries: seq<TarEntry>, wanted: seq<seq<int>>)
    returns (r: Result<()>, paths: seq<ROPath>, datas: seq<Bytes>)
    requires |wanted| == |PathsIn(entries)|
    ensures r.Err? ==> HasBadName(entries)
    ensures r.Ok? ==> |paths| == |PathsIn(entries)| && GotAll(paths, datas, wanted, PathsIn(entries))
  {
    hide GetIndex, PathsIn, GotAll;
    ghost var all := PathsIn(entries);
    var reader := new DifftarPathIter(entries);
    paths, datas := [], [];
    assert GotAll(paths, datas, wanted, all) by { GotNone(wanted, all); }
    while true
      invariant reader.Valid() && fresh(reader) && fresh(reader.cursor)
      invariant reader.multivol != null ==> fresh(reader.multivol)
      invariant reader.cursor.entries == entries
      invariant |paths| <= |all| && reader.Upcoming() == all[|paths|..]
      invariant GotAll(paths, datas, wanted, all)
      decreases |all| - |paths|
    {
      var more, path, data := Take(reader, if |paths| < |wanted| then wanted[|paths|] else []);
      if more.Err? { return Err, paths, datas; }
      if !more.value { return Ok(()), paths, datas; }
      GotOneMore(paths, datas, wanted, all, path, data);
      paths, datas := paths + [path], datas + [data];
    }
  }

  /** One path and the bytes wanted of it; false at the end. */
  method Take(reader: DifftarPathIter, lengths: seq<int>)
    returns (r: Result<bool>, path: ROPath, data: Bytes)
    requires reader.Valid()
    modifies reader, reader.cursor, reader.multivol
    ensures reader.Valid() && (reader.multivol == old(reader.multivol) || fresh(reader.multivol))
    ensures r.Err? ==> HasBadName(reader.cursor.entries)
    ensures r == Ok(false) ==> old(reader.Upcoming()) == []
    ensures r == Ok(true) ==> old(reader.Upcoming()) != [] && reader.Upcoming() == old(reader.Upcoming())[1..]
    ensures r == Ok(true) ==> Got(path, data, lengths, old(reader.Upcoming())[0])
  {
    hide GetIndex, PathsIn, Part, SkipRun, RunData;
    path, data := DeletedPath([]), "";
    var next, file := reader.Next();
    if next.Err? { return Err, path, data; }
    if next.value.None? { return Ok(false), path, data; }
    path, data := next.value.value.(data := ""), Part(next.value.value.data, lengths);
    if file != null {
      var content := ReadFrom(reader, lengths);
      if content.Err? { return Err, path, data; }
      data := content.value;
    }
    r := Ok(true);
  }
}
