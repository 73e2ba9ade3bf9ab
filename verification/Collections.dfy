/**
 * collections: backup sets out of file names, and backup chains out of backup sets, each starting where the one
 * before it ends; what fits no chain is set aside.
 */
module Collections {
  import opened Indices
  import opened Paths

  /** The type and the times of a backup set. */
  datatype Stamp = FullAt(time: int) | IncFrom(start: int, end: int) {
    /** get_time */
    function Time(): int {
      if FullAt? then time else end
    }
  }

  /** file_naming.parse on the name of a volume or of a manifest. */
  datatype FileInfo = FileInfo(stamp: Stamp, manifest: bool, volume: nat, partial: bool, encrypted: bool)

  type Parser = Bytes -> Option<FileInfo>

  // ----- BackupSet

  predicate SamePlace(a: FileInfo, b: FileInfo) {
    if a.manifest then b.manifest else !b.manifest && a.volume == b.volume
  }

  /** Two files that would take one place in one set: both manifests, or the same volume. */
  predicate Clash(parse: Parser, f: Bytes, g: Bytes) {
    && parse(f).Some? && parse(g).Some?
    && parse(f).value.stamp == parse(g).value.stamp && SamePlace(parse(f).value, parse(g).value)
  }

  predicate ClashesWith(parse: Parser, f: Bytes, names: set<Bytes>) {
    exists g :: g in names && Clash(parse, f, g)
  }

  /** Two files listed clash. */
  predicate Clashing(parse: Parser, filenames: seq<Bytes>) {
    exists i, j :: 0 <= i < j < |filenames| && Clash(parse, filenames[i], filenames[j])
  }

  class BackupSet {
    const parse: Parser
    /** The names of the files in the set. */
    ghost var names: set<Bytes>

    var infoSet: bool
    var stamp: Stamp
    var partial: bool
    var encrypted: bool
    var volumeNameDict: map<nat, Bytes>
    var remoteManifestName: Option<Bytes>

    /** The file is where its name says. */
    predicate Placed(filename: Bytes)
      reads this
    {
      && parse(filename).Some?
      && (if parse(filename).value.manifest then remoteManifestName == Some(filename)
          else parse(filename).value.volume in volumeNameDict &&
               volumeNameDict[parse(filename).value.volume] == filename)
    }

    /** Every file of the set has the type and the times of the set. */
    ghost predicate Valid()
      reads this
    {
      && (forall f :: f in names ==> infoSet && Placed(f) && parse(f).value.stamp == stamp)
      && (forall v :: v in volumeNameDict ==>
            var f := volumeNameDict[v]; f in names && !parse(f).value.manifest && parse(f).value.volume == v)
      && (remoteManifestName.Some? ==>
            remoteManifestName.value in names && parse(remoteManifestName.value).value.manifest)
    }

    constructor (parse: Parser)
      ensures Valid() && !infoSet && this.parse == parse && names == {}
    {
      this.parse := parse;
      infoSet, stamp, partial, encrypted := false, FullAt(0), false, false;
      volumeNameDict, remoteManifestName, names := map[], None, {};
    }

    /** The place that the file would take. */
    predicate Taken(pr: FileInfo)
      reads this
    {
      if pr.manifest then remoteManifestName.Some? else pr.volume in volumeNameDict
    }

    predicate Fits(filename: Bytes)
      reads this
    {
      parse(filename).Some? && (infoSet ==> parse(filename).value.stamp == stamp)
    }

    /** Whether the file belongs to the set; None stands for the failed assertion that its place is free. */
    method AddFilename(filename: Bytes) returns (r: Option<bool>)
      requires Valid()
      modifies this
      ensures r == Some(false) <==> !old(Fits(filename))
      ensures r == None <==> old(Fits(filename)) && old(Taken(parse(filename).value))
      ensures r == Some(false) ==> unchanged(this)
      ensures Valid() && names == if r == Some(true) then old(names) + {filename} else old(names)
      ensures r == Some(true) ==> infoSet && stamp == parse(filename).value.stamp
      ensures old(infoSet) ==> infoSet && stamp == old(stamp)
    {
      if parse(filename).None? {
        return Some(false);
      }
      var pr := parse(filename).value;
      if !infoSet {
        stamp, partial, encrypted, infoSet := pr.stamp, pr.partial, pr.encrypted, true;
      } else {
        if pr.stamp != stamp {
          return Some(false);
        }
        if pr.encrypted != encrypted && partial && pr.encrypted {
          encrypted := pr.encrypted;
        }
      }
      if pr.manifest {
        if remoteManifestName.Some? {
          return None;
        }
        remoteManifestName := Some(filename);
      } else {
        if pr.volume in volumeNameDict {
          return None;
        }
        volumeNameDict := volumeNameDict[pr.volume := filename];
      }
      names := names + {filename};
      r := Some(true);
    }

    /**
     * The remote files, volumes first and in order: a local partial manifest stands in for a remote one, but is
     * none.
     */
    method GetFilenames() returns (filenames: seq<Bytes>, ghost volumes: seq<nat>)
      requires Valid()
      ensures Ascending(volumes) && forall v :: v in volumes <==> v in volumeNameDict
      ensures |volumes| <= |filenames| && forall i :: 0 <= i < |volumes| ==> filenames[i] == volumeNameDict[volumes[i]]
      ensures filenames[|volumes|..] ==
              if remoteManifestName.Some? && !parse(remoteManifestName.value).value.partial
              then [remoteManifestName.value] else []
      ensures forall f :: f in filenames <==> f in names && !(parse(f).value.manifest && parse(f).value.partial)
    {
      var volumeNumList := SortedNumbers(volumeNameDict.Keys);
      volumes := volumeNumList;
      filenames := [];
      for n := 0 to |volumeNumList|
        invariant |filenames| == n && forall i :: 0 <= i < n ==> filenames[i] == volumeNameDict[volumes[i]]
      {
        assert volumes[n] in volumeNameDict;
        filenames := filenames + [volumeNameDict[volumeNumList[n]]];
      }
      if remoteManifestName.Some? && !parse(remoteManifestName.value).value.partial {
        filenames := filenames + [remoteManifestName.value];
      }
      AllFilenames(filenames, volumes);
    }

    lemma AllFilenames(filenames: seq<Bytes>, volumes: seq<nat>)
      requires Valid() && forall v :: v in volumes <==> v in volumeNameDict
      requires |volumes| <= |filenames| && forall i :: 0 <= i < |volumes| ==> filenames[i] == volumeNameDict[volumes[i]]
      requires filenames[|volumes|..] ==
               if remoteManifestName.Some? && !parse(remoteManifestName.value).value.partial
               then [remoteManifestName.value] else []
      ensures forall f :: f in filenames <==> f in names && !(parse(f).value.manifest && parse(f).value.partial)
    {
      assert filenames == filenames[..|volumes|] + filenames[|volumes|..];
      forall f | f in names && !parse(f).value.manifest ensures f in filenames {
        assert Placed(f);
        var i :| 0 <= i < |volumes| && volumes[i] == parse(f).value.volume;
        assert filenames[i] == f;
      }
      forall f | f in filenames[..|volumes|] ensures f in names && !parse(f).value.manifest {
        var i :| 0 <= i < |volumes| && filenames[i] == f;
        assert volumes[i] in volumeNameDict;
      }
      forall f | f in names && parse(f).value.manifest ensures remoteManifestName == Some(f) { assert Placed(f); }
    }
  }

  predicate Ascending(s: seq<nat>) {
    forall i, j :: 0 <= i < j < |s| ==> s[i] < s[j]
  }

  predicate Least(v: nat, s: set<nat>) {
    v in s && forall w :: w in s ==> v <= w
  }

  /** keys() and sort() */
  method SortedNumbers(keys: set<nat>) returns (r: seq<nat>)
    ensures Ascending(r) && forall v :: v in r <==> v in keys
  {
    r := [];
    var left := keys;
    while left != {}
      invariant left <= keys && Ascending(r)
      invariant forall v :: v in r <==> v in keys && v !in left
      invariant forall v, w :: v in r && w in left ==> v < w
    {
      LeastExists(left);
      var v :| Least(v, left);
      forall w | w in left - {v} ensures v < w {}
      forall i | 0 <= i < |r| ensures r[i] < v { assert r[i] in r && v in left; }
      r, left := r + [v], left - {v};
    }
  }

  lemma {:induction false} LeastExists(s: set<nat>)
    requires s != {}
    ensures exists v :: Least(v, s)
  {
    var x :| x in s;
    var rest := s - {x};
    if rest == {} {
      assert s == {x} && Least(x, s);
    } else {
      LeastExists(rest);
      var v :| Least(v, rest);
      forall w | w in s ensures (if x < v then x else v) <= w { assert w == x || w in rest; }
      assert Least(if x < v then x else v, s);
    }
  }

  /** Sets that no file could belong to two of. */
  ghost predicate Different(parse: Parser, sets: seq<BackupSet>)
    reads sets
  {
    && (forall s :: s in sets ==> s.Valid() && s.infoSet && s.parse == parse)
    && (forall i, j :: 0 <= i < j < |sets| ==> sets[i] != sets[j] && sets[i].stamp != sets[j].stamp)
  }

  ghost function Stamps(sets: seq<BackupSet>): (r: seq<Stamp>)
    reads sets
    ensures |r| == |sets| && forall i :: 0 <= i < |sets| ==> r[i] == sets[i].stamp
  {
    seq(|sets|, i requires 0 <= i < |sets| reads sets => sets[i].stamp)
  }

  ghost predicate AllDifferent(sets: seq<BackupSet>, stamps: seq<Stamp>) {
    |stamps| == |sets| && forall i, j :: 0 <= i < j < |sets| ==> sets[i] != sets[j] && stamps[i] != stamps[j]
  }

  ghost predicate Proper(parse: Parser, s: BackupSet)
    reads s
  {
    s.Valid() && s.infoSet && s.parse == parse
  }

  lemma DifferentByStamps(parse: Parser, sets: seq<BackupSet>, stamps: seq<Stamp>)
    requires |stamps| == |sets| && forall k :: 0 <= k < |sets| ==> sets[k].stamp == stamps[k]
    ensures Different(parse, sets) <==> AllDifferent(sets, stamps) && forall s :: s in sets ==> Proper(parse, s)
  {
  }

  lemma DifferentSetsShareNoFile(parse: Parser, sets: seq<BackupSet>, s: BackupSet, t: BackupSet)
    requires Different(parse, sets) && s in sets && t in sets && s != t
    ensures s.names !! t.names
  {
  }

  // ----- CollectionsStatus.get_backup_chains: names into sets

  ghost function NamesOf(sets: seq<BackupSet>): set<Bytes>
    reads sets
  {
    set s, f | s in sets && f in s.names :: f
  }

  ghost function AllOf(names: map<BackupSet, set<Bytes>>): set<Bytes> {
    set s, f | s in names && f in names[s] :: f
  }

  lemma NamesBefore(before: map<BackupSet, set<Bytes>>, sets: seq<BackupSet>)
    requires forall s :: s in before <==> s in sets
    requires forall s :: s in sets ==> s.names == before[s]
    ensures NamesOf(sets) == AllOf(before)
  {
    forall g ensures g in NamesOf(sets) <==> g in AllOf(before) {
      assert forall s :: s in sets && g in s.names <==> s in before && g in before[s];
    }
  }

  lemma NamesAdded(before: map<BackupSet, set<Bytes>>, sets: seq<BackupSet>, changed: BackupSet, f: Bytes)
    requires forall s :: s in before <==> s in sets
    requires changed in sets && changed.names == before[changed] + {f}
    requires forall s :: s in sets && s != changed ==> s.names == before[s]
    ensures NamesOf(sets) == AllOf(before) + {f}
  {
    forall g | g in NamesOf(sets) ensures g in AllOf(before) + {f} {
      var s :| s in sets && g in s.names;
      assert g == f || g in before[s];
    }
    forall g | g in AllOf(before) + {f} ensures g in NamesOf(sets) {
      if g == f {
        assert f in changed.names;
      } else {
        var s :| s in before && g in before[s];
        assert g in s.names;
      }
    }
  }

  /** A set that starts with this file, if it is a backup file at all. */
  method NewSet(parse: Parser, filename: Bytes) returns (r: Option<BackupSet>)
    ensures r.Some? <==> parse(filename).Some?
    ensures r.Some? ==> fresh(r.value) && r.value.Valid() && r.value.infoSet && r.value.parse == parse
    ensures r.Some? ==> r.value.names == {filename} && r.value.stamp == parse(filename).value.stamp
  {
    var newSet := new BackupSet(parse);
    assert parse(filename).Some? ==> !newSet.Taken(parse(filename).value);
    var fits := newSet.AddFilename(filename);
    r := if fits.value then Some(newSet) else None;
  }

  lemma AddDifferent(parse: Parser, sets: seq<BackupSet>, s: BackupSet)
    requires Different(parse, sets) && s.Valid() && s.infoSet && s.parse == parse
    requires forall t :: t in sets ==> t != s && t.stamp != s.stamp
    ensures Different(parse, sets + [s]) && NamesOf(sets + [s]) == NamesOf(sets) + s.names
  {
  }

  /** The place of the file in the set that it fits is taken. */
  ghost predicate Occupied(sets: seq<BackupSet>, filename: Bytes)
    reads sets
  {
    exists s :: s in sets && s.Fits(filename) && s.Taken(s.parse(filename).value)
  }

  lemma OccupiedByClash(parse: Parser, sets: seq<BackupSet>, filename: Bytes)
    requires Different(parse, sets)
    ensures Occupied(sets, filename) <==> ClashesWith(parse, filename, NamesOf(sets))
  {
    if s :| s in sets && s.Fits(filename) && s.Taken(s.parse(filename).value) {
      var pr := parse(filename).value;
      var g := if pr.manifest then s.remoteManifestName.value else s.volumeNameDict[pr.volume];
      assert g in s.names && g in NamesOf(sets) && Clash(parse, filename, g);
    }
    if g :| g in NamesOf(sets) && Clash(parse, filename, g) {
      var s :| s in sets && g in s.names;
      assert s.Placed(g) && s.Fits(filename) && s.Taken(s.parse(filename).value);
    }
  }

  /** The set that the file fits, if there is one: it is the only one, and the place there is what matters. */
  lemma OnlyFit(parse: Parser, sets: seq<BackupSet>, filename: Bytes) returns (m: nat)
    requires Different(parse, sets)
    ensures m <= |sets| && forall k :: 0 <= k < |sets| ==> (sets[k].Fits(filename) <==> k == m)
    ensures m < |sets| ==> parse(filename).Some? && sets[m].parse == parse
    ensures ClashesWith(parse, filename, NamesOf(sets)) <==> m < |sets| && sets[m].Taken(parse(filename).value)
  {
    OccupiedByClash(parse, sets, filename);
    hide NamesOf, ClashesWith;
    if k :| 0 <= k < |sets| && sets[k].Fits(filename) {
      m := k;
    } else {
      m := |sets|;
    }
  }

  /** The first set that the file fits takes it; None stands for the failed assertion. */
  method AddToExisting(parse: Parser, sets: seq<BackupSet>, filename: Bytes) returns (r: Option<bool>)
    requires Different(parse, sets)
    modifies sets
    ensures r == None <==> ClashesWith(parse, filename, old(NamesOf(sets)))
    ensures Different(parse, sets)
    ensures r == Some(true) ==> parse(filename).Some? && NamesOf(sets) == old(NamesOf(sets)) + {filename}
    ensures r == Some(false) ==> NamesOf(sets) == old(NamesOf(sets)) && forall s :: s in sets ==> !s.Fits(filename)
  {
    ghost var m := OnlyFit(parse, sets, filename);
    hide NamesOf, AllOf, Different, AllDifferent, ClashesWith;
    ghost var before: map<BackupSet, set<Bytes>> := map s: BackupSet | s in sets :: s.names;
    ghost var stamps := Stamps(sets);
    NamesBefore(before, sets);
    DifferentByStamps(parse, sets, stamps);
    for n := 0 to |sets|
      invariant n <= m && forall k :: 0 <= k < |sets| ==> unchanged(sets[k])
      invariant forall k :: 0 <= k < n ==> !sets[k].Fits(filename)
      invariant forall k :: 0 <= k < |sets| ==> sets[k].stamp == stamps[k]
      invariant forall s :: s in sets ==> Proper(parse, s) && s.names == before[s]
    {
      ghost var known := sets[n];
      assert before[known] == known.names && Proper(parse, known);
      r := sets[n].AddFilename(filename);
      if r != Some(false) {
        assert forall s :: s in sets && s != known ==> Proper(parse, s) && s.names == before[s];
        DifferentByStamps(parse, sets, stamps);
        if r == Some(true) {
          NamesAdded(before, sets, known, filename);
        }
        return;
      }
    }
    NamesBefore(before, sets);
    DifferentByStamps(parse, sets, stamps);
    r := Some(false);
  }

  /** add_to_sets: to the set it fits, or to a new one. */
  method AddToSets(parse: Parser, sets: seq<BackupSet>, filename: Bytes) returns (r: Option<seq<BackupSet>>)
    requires Different(parse, sets)
    modifies sets
    ensures r == None <==> ClashesWith(parse, filename, old(NamesOf(sets)))
    ensures r.Some? ==> sets <= r.value && Different(parse, r.value)
    ensures r.Some? ==> forall i :: |sets| <= i < |r.value| ==> fresh(r.value[i])
    ensures r.Some? ==> NamesOf(r.value) == old(NamesOf(sets)) + if parse(filename).Some? then {filename} else {}
  {
    hide Different, NamesOf, ClashesWith;
    var found := AddToExisting(parse, sets, filename);
    if found.None? {
      return None;
    }
    if found.value {
      return Some(sets);
    }
    var newSet := NewSet(parse, filename);
    if newSet.None? {
      return Some(sets);
    }
    assert forall t :: t in sets ==> t.stamp != newSet.value.stamp by { NoneFits(parse, sets, filename); }
    AddDifferent(parse, sets, newSet.value);
    r := Some(sets + [newSet.value]);
  }

  lemma NoneFits(parse: Parser, sets: seq<BackupSet>, filename: Bytes)
    requires Different(parse, sets) && parse(filename).Some? && forall s :: s in sets ==> !s.Fits(filename)
    ensures forall s :: s in sets ==> s.stamp != parse(filename).value.stamp
  {
  }

  // ----- get_sorted_sets

  ghost predicate InTimeOrder(sets: seq<BackupSet>)
    reads sets
  {
    forall i, j :: 0 <= i < j < |sets| ==> sets[i].stamp.Time() <= sets[j].stamp.Time()
  }

  /** A step of list.sort; how it orders sets of equal time does not matter below. */
  method Place(sorted: seq<BackupSet>, s: BackupSet) returns (r: seq<BackupSet>)
    requires InTimeOrder(sorted)
    ensures InTimeOrder(r) && multiset(r) == multiset(sorted) + multiset{s}
  {
    var k := |sorted|;
    while k > 0 && sorted[k - 1].stamp.Time() > s.stamp.Time()
      invariant 0 <= k <= |sorted| && forall i :: k <= i < |sorted| ==> sorted[i].stamp.Time() > s.stamp.Time()
    {
      k := k - 1;
    }
    r := sorted[..k] + [s] + sorted[k..];
    PlacedElements(sorted, k, s);
  }

  lemma PlacedElements<T>(sorted: seq<T>, k: nat, s: T)
    requires k <= |sorted|
    ensures multiset(sorted[..k] + [s] + sorted[k..]) == multiset(sorted) + multiset{s}
  {
    assert sorted == sorted[..k] + sorted[k..];
  }

  /** The complete sets by time, and the sets without a manifest. */
  method GetSortedSets(setList: seq<BackupSet>) returns (sorted: seq<BackupSet>, incomplete: seq<BackupSet>)
    ensures InTimeOrder(sorted) && multiset(sorted) + multiset(incomplete) == multiset(setList)
    ensures forall s :: s in multiset(sorted) ==> s.remoteManifestName.Some?
    ensures forall s :: s in multiset(incomplete) ==> s.remoteManifestName.None?
  {
    sorted, incomplete := [], [];
    for n := 0 to |setList|
      invariant InTimeOrder(sorted) && multiset(sorted) + multiset(incomplete) == multiset(setList[..n])
      invariant forall s :: s in multiset(sorted) ==> s.remoteManifestName.Some?
      invariant forall s :: s in multiset(incomplete) ==> s.remoteManifestName.None?
    {
      assert setList[..n + 1] == setList[..n] + [setList[n]];
      if setList[n].remoteManifestName.None? {
        incomplete := incomplete + [setList[n]];
      } else {
        sorted := Place(sorted, setList[n]);
      }
    }
    assert setList[..|setList|] == setList;
  }

  // ----- BackupChain

  /** Every incremental starts where its predecessor ends. */
  predicate Joined(full: Stamp, incs: seq<Stamp>) {
    full.FullAt? && forall i :: 0 <= i < |incs| ==> incs[i].IncFrom? && incs[i].start == EndOf(full, incs[..i])
  }

  /** And ends no earlier. */
  predicate Linked(full: Stamp, incs: seq<Stamp>) {
    Joined(full, incs) && forall i :: 0 <= i < |incs| ==> EndOf(full, incs[..i]) <= incs[i].Time()
  }

  function EndOf(full: Stamp, incs: seq<Stamp>): int {
    if incs == [] then full.Time() else incs[|incs| - 1].Time()
  }

  lemma {:induction false} LinkedIsSorted(full: Stamp, incs: seq<Stamp>, i: nat, j: nat)
    requires Linked(full, incs) && i <= j < |incs|
    ensures full.Time() <= incs[i].Time() <= incs[j].Time()
    decreases j
  {
    if j > i {
      LinkedIsSorted(full, incs, i, j - 1);
      assert EndOf(full, incs[..j]) == incs[j - 1].Time();
    } else if i > 0 {
      LinkedIsSorted(full, incs, i - 1, i - 1);
      assert EndOf(full, incs[..i]) == incs[i - 1].Time();
    }
  }

  /** Filtering by end time keeps a gap-free prefix of the chain. */
  lemma {:induction false} OlderIsPrefix(full: Stamp, incs: seq<Stamp>, time: int) returns (k: nat)
    requires Linked(full, incs)
    ensures k <= |incs|
    ensures forall i :: 0 <= i < |incs| ==> (i < k <==> incs[i].Time() <= time)
  {
    k := 0;
    while k < |incs| && incs[k].Time() <= time
      invariant k <= |incs| && forall i :: 0 <= i < k ==> incs[i].Time() <= time
    {
      k := k + 1;
    }
    forall i | k <= i < |incs| ensures incs[i].Time() > time {
      LinkedIsSorted(full, incs, k, i);
    }
  }

  predicate SameStart(oldInc: Stamp, inc: Stamp) {
    oldInc.IncFrom? && inc.IncFrom? && oldInc.start == inc.start
  }

  /** Another incremental with the same start and no earlier end. */
  predicate Superseded(oldInc: Stamp, inc: Stamp) {
    SameStart(oldInc, inc) && oldInc.end <= inc.end
  }

  class BackupChain {
    const fullset: BackupSet
    var incsetList: seq<BackupSet>
    const startTime: int
    var endTime: int

    ghost predicate Valid()
      reads this, fullset, incsetList
    {
      && Joined(fullset.stamp, Stamps(incsetList))
      && startTime == fullset.stamp.Time() && endTime == EndOf(fullset.stamp, Stamps(incsetList))
    }

    ghost predicate IsLinked()
      reads this, fullset, incsetList
    {
      Linked(fullset.stamp, Stamps(incsetList))
    }

    /** set_full on a new chain */
    constructor (fullset: BackupSet)
      requires fullset.stamp.FullAt?
      ensures Valid() && IsLinked() && this.fullset == fullset && incsetList == []
    {
      this.fullset, incsetList := fullset, [];
      startTime, endTime := fullset.stamp.Time(), fullset.stamp.Time();
    }

    /**
     * The set goes on where the chain ends, or replaces a last set with the same start. The source compares
     * a time with a set object before it replaces, so either outcome of that comparison is allowed for.
     */
    method AddInc(incset: BackupSet) returns (ok: bool)
      requires Valid() && incset.stamp.IncFrom?
      modifies this
      ensures Valid() && (!ok ==> unchanged(this) && endTime != incset.stamp.start)
      ensures ok ==> endTime == incset.stamp.end && incsetList != [] && incsetList[|incsetList| - 1] == incset
      ensures ok ==> |incsetList| <= |old(incsetList)| + 1 <= |incsetList| + 1
      ensures ok ==> incsetList[..|incsetList| - 1] <= old(incsetList)
      ensures ok && |incsetList| == |old(incsetList)| ==>
                SameStart(old(incsetList)[|incsetList| - 1].stamp, incset.stamp)
      ensures old(IsLinked()) && old(endTime) <= incset.stamp.end ==> IsLinked()
      ensures old(endTime) == incset.stamp.start ==> incsetList == old(incsetList) + [incset]
    {
      ghost var stamps, n := Stamps(incsetList), |incsetList|;
      if endTime == incset.stamp.start {
        incsetList := incsetList + [incset];
      } else {
        var later: bool := *;
        if incsetList != [] && incset.stamp.start == incsetList[|incsetList| - 1].stamp.start && later {
          n := n - 1;
          incsetList := incsetList[|incsetList| - 1 := incset];
        } else {
          return false;
        }
      }
      endTime := incset.stamp.end;
      ok := true;
      JoinedReplace(fullset.stamp, stamps, n, incset.stamp);
      assert Stamps(incsetList) == stamps[..n] + [incset.stamp];
    }

    /** get_sets_at_time: the full set and the incrementals up to the first later one. */
    method GetSetsAtTime(time: int) returns (sets: seq<BackupSet>)
      requires IsLinked()
      ensures sets != [] && sets <= [fullset] + incsetList
      ensures forall i :: 0 <= i < |incsetList| ==> (i + 1 < |sets| <==> incsetList[i].stamp.Time() <= time)
    {
      var older: seq<BackupSet> := [];
      ghost var k := OlderIsPrefix(fullset.stamp, Stamps(incsetList), time);
      for n := 0 to |incsetList|
        invariant older == if n <= k then incsetList[..n] else incsetList[..k]
      {
        assert n < k ==> incsetList[..n + 1] == incsetList[..n] + [incsetList[n]];
        if incsetList[n].stamp.Time() <= time {
          older := older + [incsetList[n]];
        }
      }
      sets := [fullset] + older;
    }
  }

  lemma JoinedReplace(full: Stamp, incs: seq<Stamp>, n: nat, inc: Stamp)
    requires Joined(full, incs) && n <= |incs| <= n + 1 && inc.IncFrom?
    requires inc.start == if n < |incs| then incs[n].start else EndOf(full, incs)
    ensures Joined(full, incs[..n] + [inc]) && EndOf(full, incs[..n] + [inc]) == inc.end
    ensures Linked(full, incs) && EndOf(full, incs) <= inc.end ==> Linked(full, incs[..n] + [inc])
  {
    var all := incs[..n] + [inc];
    assert all[..n] == incs[..n];
    assert n == |incs| ==> incs[..n] == incs;
    assert forall i :: 0 <= i < n ==> all[i] == incs[i] && all[..i] == incs[..i];
  }

  lemma LinkedPrefix(full: Stamp, incs: seq<Stamp>, n: nat)
    requires Linked(full, incs) && n <= |incs|
    ensures Linked(full, incs[..n])
  {
    assert forall i :: 0 <= i < n ==> incs[..n][i] == incs[i] && incs[..n][..i] == incs[..i];
  }

  // ----- get_backup_chains: sets into chains

  ghost function SetsOf(c: BackupChain): set<BackupSet>
    reads c
  {
    {c.fullset} + set s | s in c.incsetList
  }

  /** Linked, with every set once. */
  ghost predicate Sound(c: BackupChain, from: set<BackupSet>)
    reads c, from
  {
    && SetsOf(c) <= from && c.fullset !in c.incsetList
    && (forall i, j :: 0 <= i < j < |c.incsetList| ==> c.incsetList[i] != c.incsetList[j])
    && c.Valid() && c.IsLinked()
  }

  /** Chains whose sets are all different, drawn from the given ones. */
  ghost predicate Chained(chains: seq<BackupChain>, from: set<BackupSet>)
    reads chains, from
  {
    && (forall c :: c in chains ==> Sound(c, from))
    && (forall i, j :: 0 <= i < j < |chains| ==> chains[i] != chains[j] && SetsOf(chains[i]) !! SetsOf(chains[j]))
  }

  ghost function AllSets(chains: seq<BackupChain>): set<BackupSet>
    reads chains
  {
    set c, s | c in chains && s in SetsOf(c) :: s
  }

  lemma SoundStep(c: BackupChain, was: seq<BackupSet>, from: set<BackupSet>, s: BackupSet)
    requires c.Valid() && c.IsLinked() && c.fullset in from && c.fullset !in was && s !in from
    requires (forall t :: t in was ==> t in from) && forall i, j :: 0 <= i < j < |was| ==> was[i] != was[j]
    requires c.incsetList != [] && c.incsetList[|c.incsetList| - 1] == s
    requires c.incsetList[..|c.incsetList| - 1] <= was && |was| <= |c.incsetList|
    ensures Sound(c, from + {s}) && SetsOf(c) <= {c.fullset} + (set t | t in was) + {s} && s in SetsOf(c)
    ensures forall t :: t in was && t !in SetsOf(c) ==> |was| == |c.incsetList| && t == was[|was| - 1]
  {
    hide BackupChain.Valid, BackupChain.IsLinked;
  }

  lemma SoundGives(c: BackupChain, from: set<BackupSet>)
    requires Sound(c, from)
    ensures c.Valid() && c.IsLinked() && c.fullset in from && c.fullset !in c.incsetList
    ensures c.incsetList != [] ==> c.incsetList[|c.incsetList| - 1].stamp.Time() == c.endTime
    ensures forall t :: t in c.incsetList ==> t in from
    ensures forall i, j :: 0 <= i < j < |c.incsetList| ==> c.incsetList[i] != c.incsetList[j]
    ensures SetsOf(c) == {c.fullset} + set t | t in c.incsetList
  {
    assert forall t :: t in c.incsetList ==> t in SetsOf(c);
    assert c.fullset in SetsOf(c);
  }

  /** The chains are different, and so are their sets, all drawn from the given ones. */
  ghost predicate Apart(chains: seq<BackupChain>, sets: map<BackupChain, set<BackupSet>>, from: set<BackupSet>) {
    && sets.Keys == (set c | c in chains)
    && (forall c :: c in chains ==> sets[c] <= from)
    && (forall i, j :: 0 <= i < j < |chains| ==> chains[i] != chains[j] && sets[chains[i]] !! sets[chains[j]])
  }

  ghost function Union(sets: map<BackupChain, set<BackupSet>>): set<BackupSet> {
    set c, s | c in sets && s in sets[c] :: s
  }

  lemma ChainedIsApart(chains: seq<BackupChain>, sets: map<BackupChain, set<BackupSet>>, from: set<BackupSet>)
    requires sets.Keys == (set c | c in chains) && forall c :: c in chains ==> sets[c] == SetsOf(c)
    ensures Chained(chains, from) <==> Apart(chains, sets, from) && forall c :: c in chains ==> Sound(c, from)
    ensures AllSets(chains) == Union(sets)
  {
  }

  lemma ApartStep(
    chains: seq<BackupChain>, before: map<BackupChain, set<BackupSet>>, from: set<BackupSet>, n: nat, s: BackupSet,
    now: set<BackupSet>)
    requires n < |chains| && s !in from && Apart(chains, before, from) && now <= before[chains[n]] + {s}
    ensures Apart(chains, before[chains[n] := now], from + {s})
    ensures Union(before[chains[n] := now]) <= Union(before) + {s}
  {
    var after := before[chains[n] := now];
    forall i, j | 0 <= i < j < |chains| ensures after[chains[i]] !! after[chains[j]] {
      assert before[chains[i]] !! before[chains[j]];
      assert s !in before[chains[i]] && s !in before[chains[j]];
    }
  }

  lemma ChainedWeaken(chains: seq<BackupChain>, from: set<BackupSet>, s: BackupSet)
    requires Chained(chains, from)
    ensures Chained(chains, from + {s})
  {
    forall c | c in chains ensures Sound(c, from + {s}) {
    }
  }

  /** One chain has changed, and only by the set at its end. */
  lemma ChainExtended(
    chains: seq<BackupChain>, before: map<BackupChain, set<BackupSet>>, from: set<BackupSet>, n: nat, s: BackupSet,
    was: seq<BackupSet>)
    requires n < |chains| && s !in from && Apart(chains, before, from)
    requires forall d :: d in chains && d != chains[n] ==> Sound(d, from) && SetsOf(d) == before[d]
    requires chains[n].Valid() && chains[n].IsLinked() && chains[n].fullset in from && chains[n].fullset !in was
    requires (forall t :: t in was ==> t in from) && forall i, j :: 0 <= i < j < |was| ==> was[i] != was[j]
    requires before[chains[n]] == {chains[n].fullset} + set t | t in was
    requires var l := chains[n].incsetList; l != [] && l[|l| - 1] == s && l[..|l| - 1] <= was && |was| <= |l|
    requires |was| == |chains[n].incsetList| ==> Superseded(was[|was| - 1].stamp, s.stamp)
    ensures Chained(chains, from + {s}) && AllSets(chains) <= Union(before) + {s} && s in AllSets(chains)
    ensures forall t :: t in Union(before) && t !in AllSets(chains) ==> Superseded(t.stamp, s.stamp)
  {
    var c := chains[n];
    SoundStep(c, was, from, s);
    hide Sound, SetsOf, Chained, Apart, AllSets, Union, BackupChain.Valid, BackupChain.IsLinked;
    ApartStep(chains, before, from, n, s, SetsOf(c));
    forall d | d in chains && d != c ensures Sound(d, from + {s}) {
    }
    var after := before[c := SetsOf(c)];
    assert after.Keys == (set d | d in chains) by { KeysOfApart(chains, before, from); }
    ChainedIsApart(chains, after, from + {s});
    UnionMember(chains, after, s, c);
    forall t | t in Union(before) && t !in AllSets(chains) ensures Superseded(t.stamp, s.stamp) {
      UnionLoses(chains, before, c, SetsOf(c), t);
    }
  }

  lemma UnionMember(chains: seq<BackupChain>, sets: map<BackupChain, set<BackupSet>>, s: BackupSet, c: BackupChain)
    requires c in sets && s in sets[c]
    ensures s in Union(sets)
  {
  }

  lemma UnionLoses(
    chains: seq<BackupChain>, before: map<BackupChain, set<BackupSet>>, c: BackupChain, now: set<BackupSet>,
    t: BackupSet)
    requires c in before && t in Union(before) && t !in Union(before[c := now])
    ensures t in before[c] && t !in now
  {
    var after := before[c := now];
    assert forall d :: d in before && d != c ==> d in after && after[d] == before[d];
    assert after[c] == now && c in after;
  }

  lemma KeysOfApart(chains: seq<BackupChain>, sets: map<BackupChain, set<BackupSet>>, from: set<BackupSet>)
    requires Apart(chains, sets, from)
    ensures sets.Keys == set c | c in chains
  {
  }

  ghost function EndTimes(chains: seq<BackupChain>): (r: seq<int>)
    reads chains
    ensures |r| == |chains| && forall i :: 0 <= i < |chains| ==> r[i] == chains[i].endTime
  {
    seq(|chains|, i requires 0 <= i < |chains| reads chains => chains[i].endTime)
  }

  /** The first chain that the set continues takes it. */
  method AddToExistingChain(chains: seq<BackupChain>, s: BackupSet, ghost from: set<BackupSet>)
    returns (found: bool, ghost at: nat)
    requires Chained(chains, from) && s !in from && s.stamp.IncFrom?
    requires forall c :: c in chains ==> c.endTime <= s.stamp.end
    modifies chains
    ensures Chained(chains, from + {s}) && forall c :: c in chains ==> c.endTime <= s.stamp.end
    ensures AllSets(chains) <= old(AllSets(chains)) + {s}
    ensures if found then s in AllSets(chains) else AllSets(chains) == old(AllSets(chains))
    ensures forall t :: t in old(AllSets(chains)) && t !in AllSets(chains) ==> Superseded(t.stamp, s.stamp)
    ensures at <= |chains| && (found <==> at < |chains|)
    ensures !found ==> forall c :: c in chains ==> c.endTime != s.stamp.start
    ensures forall k :: 0 <= k < at ==> old(EndTimes(chains))[k] != s.stamp.start
    ensures !found ==> forall c :: c in chains ==> unchanged(c)
    ensures found ==> forall c :: c in chains && c != chains[at] ==> unchanged(c)
    ensures found ==> var l := chains[at].incsetList; l != [] && l[|l| - 1] == s
    ensures forall c :: c in chains ==> c.endTime == old(c.endTime) || c.endTime == s.stamp.end
  {
    hide Sound, SetsOf, Chained, Apart, AllSets, Union, BackupChain.Valid, BackupChain.IsLinked, BackupSet.Valid;
    hide Joined, Linked, EndOf, Stamps, EndTimes;
    ghost var ends := EndTimes(chains);
    ghost var before: map<BackupChain, set<BackupSet>> := map c: BackupChain | c in chains :: SetsOf(c);
    ChainedIsApart(chains, before, from);
    for n := 0 to |chains|
      invariant forall c :: c in chains ==> unchanged(c)
      invariant forall k :: 0 <= k < n ==> ends[k] != s.stamp.start
      invariant forall k :: 0 <= k < |chains| ==> chains[k].endTime == ends[k] <= s.stamp.end
      invariant forall c :: c in chains ==> Sound(c, from) && SetsOf(c) == before[c]
    {
      ghost var c, was := chains[n], chains[n].incsetList;
      SoundGives(c, from);
      assert c.endTime <= s.stamp.end;
      found := chains[n].AddInc(s);
      at := n;
      if found {
        ChainExtended(chains, before, from, n, s, was);
        return;
      }
    }
    ChainedIsApart(chains, before, from);
    ChainedWeaken(chains, from, s);
    found, at := false, |chains|;
  }

  lemma NewChain(chains: seq<BackupChain>, from: set<BackupSet>, c: BackupChain)
    requires Chained(chains, from) && c !in chains && c.fullset !in from && c.incsetList == []
    requires c.Valid() && c.IsLinked()
    ensures Chained(chains + [c], from + {c.fullset}) && AllSets(chains + [c]) == AllSets(chains) + {c.fullset}
  {
    ChainedWeaken(chains, from, c.fullset);
    hide BackupChain.Valid, BackupChain.IsLinked;
    assert SetsOf(c) == {c.fullset};
    forall d | d in chains ensures c.fullset !in SetsOf(d) {
      assert Sound(d, from);
    }
  }

  /** A later set of the same start took its place in a chain. */
  ghost predicate Replaced(s: BackupSet, sets: seq<BackupSet>)
    reads s, sets
  {
    exists r :: r in sets && r != s && Superseded(s.stamp, r.stamp)
  }

  lemma ReplacedBy(t: BackupSet, s: BackupSet, sets: seq<BackupSet>)
    requires s in sets && t != s && Superseded(t.stamp, s.stamp)
    ensures Replaced(t, sets)
  {
  }

  lemma ReplacedAmong(s: BackupSet, some: seq<BackupSet>, all: seq<BackupSet>)
    requires Replaced(s, some) && forall r :: r in some ==> r in all
    ensures Replaced(s, all)
  {
  }

  /** No incremental that advances in time is an orphan while a chain ends where it starts. */
  ghost predicate NoMissedChain(orphaned: seq<BackupSet>, chains: seq<BackupChain>)
    reads orphaned, chains
  {
    && (forall s :: s in orphaned ==> s.stamp.IncFrom?)
    && (forall s, c :: s in orphaned && c in chains ==> Missed(s, c.endTime))
  }

  /** An incremental that does not go on from this time, unless it does not advance. */
  predicate Missed(s: BackupSet, endTime: int)
    reads s
  {
    s.stamp.IncFrom? && (s.stamp.start < s.stamp.end ==> endTime != s.stamp.start)
  }

  lemma NoMissedStep(
    orphaned: seq<BackupSet>, chains: seq<BackupChain>, ends: map<BackupChain, int>, s: BackupSet, found: bool)
    requires ends.Keys == (set c | c in chains)
    requires forall t, c :: t in orphaned && c in chains ==> Missed(t, ends[c])
    requires forall t :: t in orphaned ==> t.stamp.IncFrom? && t.stamp.Time() <= s.stamp.Time()
    requires forall c :: c in chains ==> c.endTime == ends[c] || c.endTime == s.stamp.Time()
    requires s.stamp.IncFrom? && (!found ==> forall c :: c in chains ==> c.endTime != s.stamp.start)
    ensures NoMissedChain(if found then orphaned else orphaned + [s], chains)
  {
  }

  /** The orphans so far: incrementals of earlier sets, in no chain. */
  ghost predicate Orphaned(
    orphaned: seq<BackupSet>, chains: seq<BackupChain>, from: set<BackupSet>, until: int)
    reads orphaned, chains
  {
    && NoMissedChain(orphaned, chains)
    && (forall t :: t in orphaned ==> t in from && t !in AllSets(chains) && t.stamp.Time() <= until)
  }

  /** add_to_chains: a full set starts a chain, an incremental continues the first that it fits or is an orphan. */
  method AddToChains(chains: seq<BackupChain>, orphaned: seq<BackupSet>, s: BackupSet, ghost from: set<BackupSet>)
    returns (chains': seq<BackupChain>, orphaned': seq<BackupSet>)
    requires Chained(chains, from) && AllSets(chains) <= from && s !in from
    requires Orphaned(orphaned, chains, from, s.stamp.Time())
    requires forall c :: c in chains ==> c.endTime <= s.stamp.Time()
    modifies chains
    ensures Chained(chains', from + {s}) && AllSets(chains') <= from + {s}
    ensures chains <= chains' && forall i :: |chains| <= i < |chains'| ==> fresh(chains'[i])
    ensures Orphaned(orphaned', chains', from + {s}, s.stamp.Time()) && orphaned <= orphaned'
    ensures forall c :: c in chains' ==> c.endTime <= s.stamp.Time()
    ensures s in AllSets(chains') || s in orphaned'
    ensures forall t :: t in old(AllSets(chains)) && t !in AllSets(chains') ==> Superseded(t.stamp, s.stamp)
  {
    hide Chained, AllSets, Superseded;
    chains', orphaned' := chains, orphaned;
    if s.stamp.FullAt? {
      var c := new BackupChain(s);
      NewChain(chains, from, c);
      chains' := chains + [c];
    } else {
      ghost var ends := map c: BackupChain | c in chains :: c.endTime;
      assert forall t, c :: t in orphaned && c in chains ==> Missed(t, ends[c]);
      var found, _ := AddToExistingChain(chains, s, from);
      NoMissedStep(orphaned, chains, ends, s, found);
      if !found {
        orphaned' := orphaned + [s];
      }
    }
  }

  /** add_to_chains for every complete set, in order of time. */
  method BuildChains(sets: seq<BackupSet>) returns (chains: seq<BackupChain>, orphaned: seq<BackupSet>)
    requires InTimeOrder(sets) && forall i, j :: 0 <= i < j < |sets| ==> sets[i] != sets[j]
    ensures (forall i :: 0 <= i < |chains| ==> fresh(chains[i])) && Chained(chains, set s | s in sets)
    ensures forall s :: s in orphaned ==> s in sets && s !in AllSets(chains)
    ensures forall s :: s in sets ==> s in AllSets(chains) || s in orphaned || Replaced(s, sets)
    ensures NoMissedChain(orphaned, chains)
  {
    hide Chained, AllSets, Superseded, Replaced, NoMissedChain;
    chains, orphaned := [], [];
    assert Chained([], {}) && AllSets([]) == {} && NoMissedChain([], []) by { NoChains(); }
    ghost var from: set<BackupSet> := {};
    for n := 0 to |sets|
      invariant (forall i :: 0 <= i < |chains| ==> fresh(chains[i])) && from == (set s | s in sets[..n])
      invariant Chained(chains, from) && AllSets(chains) <= from
      invariant n == 0 ==> chains == [] && orphaned == []
      invariant n > 0 ==> Orphaned(orphaned, chains, from, sets[n - 1].stamp.Time())
      invariant n > 0 ==> forall c :: c in chains ==> c.endTime <= sets[n - 1].stamp.Time()
      invariant forall s :: s in from ==> s in AllSets(chains) || s in orphaned || Replaced(s, sets)
    {
      var s := sets[n];
      assert s !in from && sets[..n + 1] == sets[..n] + [s];
      ghost var chained := AllSets(chains);
      chains, orphaned := AddToChains(chains, orphaned, s, from);
      forall t | t in chained && t !in AllSets(chains) ensures Replaced(t, sets) {
        ReplacedBy(t, s, sets);
      }
      from := from + {s};
    }
    assert sets[..|sets|] == sets;
  }

  lemma NoChains()
    ensures Chained([], {}) && AllSets([]) == {} && NoMissedChain([], [])
  {
  }

  /** Sets in no chain. */
  ghost predicate Outside(outsiders: seq<BackupSet>, chains: seq<BackupChain>, sets: seq<BackupSet>)
    reads chains
  {
    forall s :: s in outsiders ==> s in sets && s !in AllSets(chains)
  }

  /** Every set is in a chain, set aside or replaced; without a manifest it is set aside. */
  ghost predicate Kept(
    sets: seq<BackupSet>, chained: set<BackupSet>, orphaned: seq<BackupSet>, incomplete: seq<BackupSet>)
    reads sets
  {
    && (forall s :: s in sets ==> s in chained || s in orphaned || s in incomplete || Replaced(s, sets))
    && (forall s :: s in sets && s.remoteManifestName.None? ==> s in incomplete)
  }

  /** No set is lost, and no orphan goes on where a chain ends. */
  ghost predicate Accounted(
    sets: seq<BackupSet>, chains: seq<BackupChain>, orphaned: seq<BackupSet>, incomplete: seq<BackupSet>)
    reads sets, chains, orphaned
  {
    Kept(sets, AllSets(chains), orphaned, incomplete) && NoMissedChain(orphaned, chains)
  }

  /** The sets of the files listed, and the three places where they are. */
  ghost predicate Built(
    parse: Parser, filenames: seq<Bytes>, sets: seq<BackupSet>, chains: seq<BackupChain>, orphaned: seq<BackupSet>,
    incomplete: seq<BackupSet>)
    reads sets, chains, orphaned, incomplete
  {
    && Different(parse, sets) && NamesOf(sets) == BackupFiles(parse, filenames)
    && Chained(chains, set s | s in sets) && Outside(orphaned, chains, sets) && Outside(incomplete, chains, sets)
    && Accounted(sets, chains, orphaned, incomplete)
    && (forall s :: s in incomplete ==> s.remoteManifestName.None?)
  }

  /** Fails exactly when two of the files listed clash. */
  method GetBackupChains(parse: Parser, filenameList: seq<Bytes>)
    returns (ok: bool, chains: seq<BackupChain>, orphaned: seq<BackupSet>, incomplete: seq<BackupSet>,
             ghost sets: seq<BackupSet>)
    ensures ok <==> !Clashing(parse, filenameList)
    ensures ok ==> Built(parse, filenameList, sets, chains, orphaned, incomplete)
    ensures ok ==> forall i :: 0 <= i < |chains| ==> fresh(chains[i])
    ensures ok ==> forall i :: 0 <= i < |sets| ==> fresh(sets[i])
  {
    hide Different, NamesOf, Chained, AllSets, Replaced, NoMissedChain, Clashing, ClashesWith;
    var known: seq<BackupSet> := [];
    chains, orphaned, incomplete, sets := [], [], [], [];
    assert Different(parse, []) && NamesOf([]) == {} && !Clashing(parse, []) by { NoSets(parse); }
    for n := 0 to |filenameList|
      invariant Different(parse, known) && forall i :: 0 <= i < |known| ==> fresh(known[i])
      invariant NamesOf(known) == BackupFiles(parse, filenameList[..n]) && !Clashing(parse, filenameList[..n])
    {
      assert filenameList[..n + 1] == filenameList[..n] + [filenameList[n]];
      ClashStep(parse, filenameList[..n], filenameList[n]);
      var added := AddToSets(parse, known, filenameList[n]);
      if added.None? {
        ClashIn(parse, filenameList, n + 1);
        return false, [], [], [], [];
      }
      known := added.value;
      BackupFilesOf(parse, filenameList[..n], filenameList[n]);
    }
    assert filenameList[..|filenameList|] == filenameList;
    sets := known;
    var sorted;
    sorted, incomplete := GetSortedSets(known);
    SortedApart(parse, known, sorted, incomplete);
    chains, orphaned := BuildChains(sorted);
    forall s | s in sorted && Replaced(s, sorted) ensures Replaced(s, sets) {
      ReplacedAmong(s, sorted, sets);
    }
    ChainsAmong(chains, set s | s in sorted, set s | s in sets);
    ok := true;
  }

  lemma ClashStep(parse: Parser, l: seq<Bytes>, f: Bytes)
    ensures Clashing(parse, l + [f]) <==> Clashing(parse, l) || ClashesWith(parse, f, BackupFiles(parse, l))
  {
    var all := l + [f];
    if i, j :| 0 <= i < j < |all| && Clash(parse, all[i], all[j]) {
      if j == |l| { assert all[i] in BackupFiles(parse, l) && Clash(parse, f, all[i]); }
    }
    if i, j :| 0 <= i < j < |l| && Clash(parse, l[i], l[j]) {
      assert Clash(parse, all[i], all[j]);
    }
    if g :| g in BackupFiles(parse, l) && Clash(parse, f, g) {
      var i :| 0 <= i < |l| && l[i] == g;
      assert Clash(parse, all[i], all[|l|]);
    }
  }

  lemma ClashIn(parse: Parser, l: seq<Bytes>, n: nat)
    requires n <= |l| && Clashing(parse, l[..n])
    ensures Clashing(parse, l)
  {
    var i, j :| 0 <= i < j < n && Clash(parse, l[..n][i], l[..n][j]);
    assert Clash(parse, l[i], l[j]);
  }

  function BackupFiles(parse: Parser, filenames: seq<Bytes>): set<Bytes> {
    set f | f in filenames && parse(f).Some?
  }

  lemma BackupFilesOf(parse: Parser, l: seq<Bytes>, f: Bytes)
    ensures BackupFiles(parse, l + [f]) == BackupFiles(parse, l) + if parse(f).Some? then {f} else {}
  {
  }

  lemma NoSets(parse: Parser)
    ensures Different(parse, []) && NamesOf([]) == {} && !Clashing(parse, [])
  {
  }

  /** Sorting and setting aside the incomplete sets neither repeats nor shares a set. */
  lemma SortedApart(parse: Parser, sets: seq<BackupSet>, sorted: seq<BackupSet>, incomplete: seq<BackupSet>)
    requires Different(parse, sets) && multiset(sorted) + multiset(incomplete) == multiset(sets)
    ensures forall i, j :: 0 <= i < j < |sorted| ==> sorted[i] != sorted[j]
    ensures forall s :: s in sorted || s in incomplete ==> s in sets
    ensures forall s :: s in sets ==> s in sorted || s in incomplete
    ensures forall s :: s in incomplete ==> s !in sorted
  {
    var all := multiset(sorted) + multiset(incomplete);
    forall s ensures all[s] <= 1 {
      CountOne(sets, s);
    }
    forall i, j | 0 <= i < j < |sorted| ensures sorted[i] != sorted[j] {
      assert multiset(sorted)[sorted[i]] <= all[sorted[i]];
      OnceOnly(sorted, i, j);
    }
    forall s | s in sorted || s in incomplete ensures s in sets && !(s in sorted && s in incomplete) {
      assert s in sorted ==> multiset(sorted)[s] > 0;
      assert s in incomplete ==> multiset(incomplete)[s] > 0;
      assert all[s] > 0 && s in multiset(sets);
    }
    assert forall s :: s in sets ==> s in all;
  }

  lemma {:induction false} CountOne<T>(s: seq<T>, x: T)
    requires forall i, j :: 0 <= i < j < |s| ==> s[i] != s[j]
    ensures multiset(s)[x] <= 1
  {
    if s != [] {
      CountOne(s[1..], x);
      assert s == [s[0]] + s[1..];
      assert s[0] !in s[1..];
    }
  }

  lemma OnceOnly<T>(s: seq<T>, i: nat, j: nat)
    requires i < j < |s| && multiset(s)[s[i]] <= 1
    ensures s[i] != s[j]
  {
    assert s == s[..j] + s[j..];
    assert s[i] in s[..j] && s[j] in s[j..];
  }

  lemma ChainsAmong(chains: seq<BackupChain>, from: set<BackupSet>, more: set<BackupSet>)
    requires Chained(chains, from) && from <= more
    ensures Chained(chains, more) && AllSets(chains) <= from
  {
  }
}
