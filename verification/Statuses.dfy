/** collections.CollectionsStatus. */
module Statuses {
  import opened Indices
  import opened Paths
  import opened Collections
  import opened SortedChains

  datatype SignatureChain = SignatureChain(local: bool, start: int, end: int, filenames: set<Bytes>)

  /** No signature file is taken for a backup file. */
  ghost predicate Signatures(parse: Parser, sigChains: seq<SignatureChain>) {
    forall c, f :: c in sigChains && f in c.filenames ==> parse(f).None?
  }

  /** A chain of the given sets, each starting where the one before it ends. */
  ghost predicate Intact(c: BackupChain, from: set<BackupSet>)
    reads c, from
  {
    SetsOf(c) <= from && c.IsLinked()
  }

  /** The chains are linked, no set is both in a chain and in none, and none is lost. */
  ghost predicate Partitioned(
    parse: Parser, sets: seq<BackupSet>, chains: seq<BackupChain>, orphaned: seq<BackupSet>, incomplete: seq<BackupSet>)
    reads sets, chains, orphaned
  {
    && Different(parse, sets)
    && (forall c :: c in chains ==> Intact(c, set s | s in sets))
    && Outside(orphaned, chains, sets) && Outside(incomplete, chains, sets)
    && Accounted(sets, chains, orphaned, incomplete)
  }

  /** The end of the chain, or of its last set but one if that is an incremental. */
  predicate EndsWith(sig: SignatureChain, c: BackupChain)
    reads c, c.incsetList
  {
    var incs := c.incsetList;
    sig.end == c.endTime || (|incs| >= 2 && sig.end == incs[|incs| - 2].stamp.Time())
  }

  ghost predicate NoneEndsWith(sigChains: seq<SignatureChain>, c: BackupChain)
    reads c, c.incsetList
  {
    forall sig :: sig in sigChains ==> !EndsWith(sig, c)
  }

  /** The last signature chain that fits, or -1. */
  method FindMatching(sigChains: seq<SignatureChain>, c: BackupChain) returns (i: int)
    ensures -1 <= i < |sigChains| && (i >= 0 ==> EndsWith(sigChains[i], c))
    ensures NoneEndsWith(sigChains[i + 1..], c)
  {
    i := |sigChains| - 1;
    var n := |c.incsetList|;
    while i >= 0
      invariant -1 <= i < |sigChains|
      invariant forall k :: i < k < |sigChains| ==> !EndsWith(sigChains[k], c)
    {
      if sigChains[i].end == c.endTime {
        break;
      } else if n >= 2 && sigChains[i].end == c.incsetList[n - 2].stamp.Time() {
        break;
      }
      i := i - 1;
    }
  }

  lemma InAllSets(chains: seq<BackupChain>, c: BackupChain)
    requires c in chains
    ensures SetsOf(c) <= AllSets(chains)
  {
  }

  lemma ChainsAreIntact(chains: seq<BackupChain>, from: set<BackupSet>)
    requires Chained(chains, from)
    ensures forall c :: c in chains ==> Intact(c, from)
  {
    forall c | c in chains ensures Intact(c, from) {
      assert Sound(c, from);
    }
  }

  /** A file of a local, or remote, signature chain that differs from the matched one in its start or end. */
  ghost predicate OldSignature(
    sigChains: seq<SignatureChain>, matched: Option<(SignatureChain, BackupChain)>, local: bool, f: Bytes)
  {
    exists c :: c in sigChains && c.local == local && f in c.filenames &&
      match matched
      case None => true
      case Some((sig, _)) => c.start != sig.start || c.end != sig.end
  }

  /** A file of the matched chain is an old one only if it is also a file of another chain. */
  lemma MatchedIsKept(sigChains: seq<SignatureChain>, sig: SignatureChain, c: BackupChain, local: bool, f: Bytes)
    requires OldSignature(sigChains, Some((sig, c)), local, f)
    ensures exists other :: other in sigChains && other != sig && f in other.filenames
  {
  }

  class CollectionsStatus {
    const parse: Parser
    /** All sets that get_backup_chains found. */
    ghost const sets: seq<BackupSet>

    var allBackupChains: seq<BackupChain>
    var otherBackupChains: seq<BackupChain>
    var allSigChains: seq<SignatureChain>
    var matchedChainPair: Option<(SignatureChain, BackupChain)>
    var orphanedBackupSets: seq<BackupSet>
    var incompleteBackupSets: seq<BackupSet>
    var localOrphanedSigNames: set<Bytes>
    var remoteOrphanedSigNames: set<Bytes>

    ghost predicate Valid()
      reads this, sets, allBackupChains, orphanedBackupSets
    {
      && Partitioned(parse, sets, allBackupChains, orphanedBackupSets, incompleteBackupSets)
      && Signatures(parse, allSigChains)
      && (forall f :: f in localOrphanedSigNames + remoteOrphanedSigNames ==> parse(f).None?)
    }

    /** The matched signatures end with the latest chain; without a match no signatures fit it. */
    ghost predicate LatestMatched()
      reads this, allBackupChains, AllSets(allBackupChains)
    {
      match matchedChainPair
      case Some((sig, c)) =>
        && sig in allSigChains && allBackupChains == otherBackupChains + [c]
        && c in allBackupChains && SetsOf(c) <= AllSets(allBackupChains) && sig.end == LastTime(c)
      case None =>
        allBackupChains != [] ==>
          var c := allBackupChains[|allBackupChains| - 1]; 
          SetsOf(c) <= AllSets(allBackupChains) && NoneEndsWith(allSigChains, c)
    }

    constructor (parse: Parser, chains: seq<BackupChain>, orphaned: seq<BackupSet>, incomplete: seq<BackupSet>,
                 localSigs: set<Bytes>, remoteSigs: set<Bytes>, ghost filenames: seq<Bytes>,
                 ghost sets: seq<BackupSet>)
      requires Built(parse, filenames, sets, chains, orphaned, incomplete)
      requires forall f :: f in localSigs + remoteSigs ==> parse(f).None?
      ensures Valid() && allBackupChains == chains && this.sets == sets && this.parse == parse
      ensures orphanedBackupSets == orphaned && incompleteBackupSets == incomplete
    {
      this.parse, this.sets := parse, sets;
      allBackupChains, otherBackupChains, allSigChains, matchedChainPair := chains, chains, [], None;
      orphanedBackupSets, incompleteBackupSets := orphaned, incomplete;
      localOrphanedSigNames, remoteOrphanedSigNames := localSigs, remoteSigs;
      new;
      ChainsAreIntact(chains, set s | s in sets);
    }

    /** The last set of a chain is given up for incomplete; endTime is left as it was. */
    method DropLast(c: BackupChain)
      requires Valid() && Chained(allBackupChains, set s | s in sets)
      requires c in allBackupChains && c.incsetList != []
      modifies this`incompleteBackupSets, c`incsetList
      ensures Valid() && c.incsetList == old(c.incsetList[..|c.incsetList| - 1])
      ensures old(|c.incsetList| >= 2) ==> LastTime(c) == old(c.incsetList[|c.incsetList| - 2].stamp.Time())
      ensures incompleteBackupSets == old(incompleteBackupSets + [c.incsetList[|c.incsetList| - 1]])
      ensures GivenUp(c, old(c.incsetList)[|old(c.incsetList)| - 1])
    {
      hide AllSets, Chained, Partitioned, SetsOf, Intact, Different, Kept, Union, Linked, Stamps, Signatures;
      ghost var incs := c.incsetList;
      ghost var before: map<BackupChain, set<BackupSet>> := map d: BackupChain | d in allBackupChains :: SetsOf(d);
      BeforeDropping(this, c, before);
      incompleteBackupSets := incompleteBackupSets + [c.incsetList[|c.incsetList| - 1]];
      c.incsetList := c.incsetList[..|c.incsetList| - 1];
      AfterDropping(this, c, incs, before);
      LastGivenUp(c, incs);
    }

    /**
     * The latest backup chain is matched with a signature chain that ends with it, or else with one that ends
     * with its last set but one, and then gives up its last set. false stands for the failed assertion of
     * get_sorted_chains.
     */
    method SetMatchedChainPair(sigChains: seq<SignatureChain>)
      returns (ok: bool, ghost matched: int, ghost given: seq<BackupSet>)
      requires Valid() && Chained(allBackupChains, set s | s in sets)
      requires Signatures(parse, sigChains)
      modifies this, allBackupChains
      ensures Valid() && allBackupChains == old(allBackupChains)
      ensures EndTimes(allBackupChains) == old(EndTimes(allBackupChains))
      ensures ok <==> !SignaturesTied(sigChains)
      ensures ok ==> multiset(allSigChains) == multiset(sigChains) && InOrder(KeyedSignatures(allSigChains))
      ensures ok ==> -1 <= matched < |allSigChains| && (matched == -1 <==> matchedChainPair.None?)
      ensures ok && allBackupChains != [] ==>
                var later := allSigChains[matched + 1..];
                old(NoneEndsWith(later, allBackupChains[|allBackupChains| - 1]))
      ensures ok && matchedChainPair.Some? ==> matchedChainPair.value.0 == allSigChains[matched]
      ensures ok ==> LatestMatched()
      ensures unchanged(`orphanedBackupSets) && unchanged(`localOrphanedSigNames) && unchanged(`remoteOrphanedSigNames)
      ensures old(SetLists(allBackupChains)) == WithLast(SetLists(allBackupChains), given)
      ensures |given| == if ok && matchedChainPair.Some? && MatchEndsBefore(matchedChainPair.value) then 1 else 0
      ensures given != [] ==> GivenUp(matchedChainPair.value.1, given[0])
      ensures incompleteBackupSets == old(incompleteBackupSets) + given
    {
      hide AllSets, Partitioned, Chained, GivenUp, Signatures, LastTime, KeyedSignatures, InOrder, ThreeEndTogether;
      hide Chains, NoneEndsWith, MatchEndsBefore, LatestMatched, SetLists, EndTimes, WithLast;
      var sorted := GetSortedChains(KeyedSignatures(sigChains));
      if sorted.None? {
        NoneGiven(SetLists(allBackupChains));
        return false, -1, [];
      }
      SortedSignatures(parse, sigChains, sorted.value);
      ok := true;
      allSigChains, otherBackupChains, matchedChainPair := Chains(sorted.value), allBackupChains, None;
      matched, given := MatchLatest();
    }

    /** The loop of set_matched_chain_pair over the sorted signature chains. */
    method MatchLatest() returns (ghost matched: int, ghost given: seq<BackupSet>)
      requires Valid() && Chained(allBackupChains, set s | s in sets)
      requires otherBackupChains == allBackupChains && matchedChainPair.None?
      modifies this`incompleteBackupSets, this`matchedChainPair, this`otherBackupChains, allBackupChains
      ensures Valid() && EndTimes(allBackupChains) == old(EndTimes(allBackupChains))
      ensures -1 <= matched < |allSigChains| && (matched == -1 <==> matchedChainPair.None?)
      ensures allBackupChains != [] ==>
                old(NoneEndsWith(allSigChains[matched + 1..], allBackupChains[|allBackupChains| - 1]))
      ensures LatestMatched() && (matchedChainPair.Some? ==> matchedChainPair.value.0 == allSigChains[matched])
      ensures old(SetLists(allBackupChains)) == WithLast(SetLists(allBackupChains), given)
      ensures |given| == if matchedChainPair.Some? && MatchEndsBefore(matchedChainPair.value) then 1 else 0
      ensures given != [] ==> GivenUp(matchedChainPair.value.1, given[0])
      ensures incompleteBackupSets == old(incompleteBackupSets) + given
    {
      hide AllSets, Partitioned, Chained, GivenUp, Signatures, LastTime, EndsWith, WithLast, SetLists, EndTimes;
      matched, given := -1, [];
      NoneGiven(SetLists(allBackupChains));
      if allSigChains == [] || allBackupChains == [] {
        if allBackupChains != [] { InAllSets(allBackupChains, allBackupChains[|allBackupChains| - 1]); }
        return;
      }
      var latestBackupChain := allBackupChains[|allBackupChains| - 1];
      var i := FindMatching(allSigChains, latestBackupChain);
      matched := i;
      if i >= 0 {
        given := MatchWith(allSigChains[i], latestBackupChain);
      }
      InAllSets(allBackupChains, latestBackupChain);
    }

    /** The latest backup chain is matched, without its last set if the signatures end before it. */
    method MatchWith(sig: SignatureChain, c: BackupChain) returns (ghost given: seq<BackupSet>)
      requires Valid() && Chained(allBackupChains, set s | s in sets) && EndsWith(sig, c)
      requires allBackupChains != [] && c == allBackupChains[|allBackupChains| - 1]
      requires otherBackupChains == allBackupChains
      modifies this`incompleteBackupSets, this`matchedChainPair, this`otherBackupChains, c`incsetList
      ensures Valid() && matchedChainPair == Some((sig, c)) && sig.end == LastTime(c)
      ensures allBackupChains == otherBackupChains + [c]
      ensures |given| == (if sig.end == c.endTime then 0 else 1) && (given != [] ==> GivenUp(c, given[0]))
      ensures old(SetLists(allBackupChains)) == WithLast(SetLists(allBackupChains), given)
      ensures EndTimes(allBackupChains) == old(EndTimes(allBackupChains))
      ensures incompleteBackupSets == old(incompleteBackupSets) + given
    {
      hide AllSets, Partitioned, Sound, Signatures, BackupChain.Valid, BackupChain.IsLinked, WithLast;
      hide SetLists, EndTimes, Chained, GivenUp, NoneEndsWith;
      ghost var lists, ends := SetLists(allBackupChains), EndTimes(allBackupChains);
      LatestOf(allBackupChains, set s | s in sets);
      given := [];
      if sig.end != c.endTime {
        given := [c.incsetList[|c.incsetList| - 1]];
        DropLast(c);
        assert GivenUp(c, given[0]);
      }
      ListsShortened(allBackupChains, lists, given);
      assert EndTimes(allBackupChains) == ends;
      matchedChainPair := Some((sig, c));
      otherBackupChains := otherBackupChains[..|otherBackupChains| - 1];
    }

    /**
     * get_backup_chain_at_time: the chain that covers the time, or else the latest that ends before it, or
     * else the first; None where the source raises, because there is no chain or more than one covers the time.
     */
    method GetBackupChainAtTime(time: int) returns (r: Option<BackupChain>)
      ensures r.None? <==> allBackupChains == [] || exists i, j ::
                0 <= i < j < |allBackupChains| && Covers(allBackupChains[i], time) && Covers(allBackupChains[j], time)
      ensures r.Some? ==> r.value in allBackupChains
      ensures r.Some? && (exists c :: c in allBackupChains && Covers(c, time)) ==> Covers(r.value, time)
      ensures r.Some? && !Covers(r.value, time) ==> r.value == LastBefore(allBackupChains, time)
    {
      if allBackupChains == [] {
        return None;
      }
      var covering: seq<BackupChain> := [];
      ghost var at := -1;
      for n := 0 to |allBackupChains|
        invariant |covering| <= 1 && (covering == [] <==> at == -1) && -1 <= at < n
        invariant at >= 0 ==> covering == [allBackupChains[at]] && Covers(allBackupChains[at], time)
        invariant forall k :: 0 <= k < n && k != at ==> !Covers(allBackupChains[k], time)
      {
        if allBackupChains[n].startTime <= time && time <= allBackupChains[n].endTime {
          covering := covering + [allBackupChains[n]];
          if |covering| > 1 {
            return None;
          }
          at := n;
        }
      }
      if |covering| == 1 {
        return Some(covering[0]);
      }
      r := Some(LastBefore(allBackupChains, time));
    }

    /** What a restore of a time uses: the sets of the chain at that time, up to it, without a gap. */
    method GetSetsToRestore(time: int) returns (r: Option<seq<BackupSet>>, ghost c: BackupChain?)
      requires Valid()
      ensures r.None? <==> allBackupChains == [] || exists i, j ::
                0 <= i < j < |allBackupChains| && Covers(allBackupChains[i], time) && Covers(allBackupChains[j], time)
      ensures r.Some? ==> c != null && c in allBackupChains && r.value != []
      ensures r.Some? && (exists d :: d in allBackupChains && Covers(d, time)) ==> Covers(c, time)
      ensures r.Some? && !Covers(c, time) ==> c == LastBefore(allBackupChains, time)
      ensures r.Some? ==> r.value <= [c.fullset] + c.incsetList && Linked(c.fullset.stamp, Stamps(c.incsetList))
      ensures r.Some? ==> forall i :: 0 <= i < |c.incsetList| ==>
                (i + 1 < |r.value| <==> c.incsetList[i].stamp.Time() <= time)
    {
      var backupChain := GetBackupChainAtTime(time);
      if backupChain.None? {
        return None, null;
      }
      assert Intact(backupChain.value, set s | s in sets);
      var backupSetlist := backupChain.value.GetSetsAtTime(time);
      r, c := Some(backupSetlist), backupChain.value;
    }

    /** The remote files of some sets. */
    method FilenamesOf(containers: seq<BackupSet>) returns (names: set<Bytes>)
      requires Different(parse, sets) && forall s :: s in containers ==> s in sets
      ensures names == RemoteNames(parse, containers)
    {
      hide NamesOf, RemoteNames;
      names := {};
      assert RemoteNames(parse, []) == {} by { NoRemoteNames(parse); }
      for n := 0 to |containers|
        invariant names == RemoteNames(parse, containers[..n])
      {
        assert containers[n] in sets;
        var filenames, _ := containers[n].GetFilenames();
        var more := set f | f in filenames;
        RemoteNamesStep(parse, containers[..n], containers[n]);
        assert containers[..n + 1] == containers[..n] + [containers[n]];
        assert more == set f | f in containers[n].names && !PartialManifest(parse, f);
        names := names + more;
      }
      assert containers[..|containers|] == containers;
    }

    /**
     * The names of no set in a chain, and every remote file of the sets in none that no later set replaced. Of
     * signature files the orphaned ones, and with extraClean those of the chains that are not the matched one.
     */
    method GetExtraneous(extraClean: bool) returns (localFilenames: set<Bytes>, remoteFilenames: set<Bytes>)
      requires Valid()
      ensures forall s :: s in AllSets(allBackupChains) ==> s.names !! localFilenames + remoteFilenames
      ensures forall s :: s in sets && s !in AllSets(allBackupChains) && !Replaced(s, sets) ==>
                RemoteNames(parse, [s]) <= remoteFilenames
      ensures forall f :: f in localFilenames + remoteFilenames && parse(f).Some? ==>
                f in RemoteNames(parse, orphanedBackupSets + incompleteBackupSets) && f in remoteFilenames
      ensures forall f :: f in localFilenames <==>
                f in localOrphanedSigNames || (extraClean && OldSignature(allSigChains, matchedChainPair, true, f))
      ensures forall f :: f in remoteFilenames <==>
                f in RemoteNames(parse, orphanedBackupSets + incompleteBackupSets) || f in remoteOrphanedSigNames ||
                (extraClean && OldSignature(allSigChains, matchedChainPair, false, f))
    {
      hide Different, NamesOf, Outside, AllSets, PartialManifest, Accounted;
      OutsideAmong(orphanedBackupSets, incompleteBackupSets, allBackupChains, sets);
      OutsidersNamed(parse, sets, allBackupChains, orphanedBackupSets, incompleteBackupSets);
      var outsiders := orphanedBackupSets + incompleteBackupSets;
      localFilenames := {};
      remoteFilenames := FilenamesOf(outsiders);
      ghost var ofSets := remoteFilenames;
      if extraClean {
        for n := 0 to |allSigChains|
          invariant ofSets <= remoteFilenames
          invariant forall f :: f in localFilenames + remoteFilenames ==> f in ofSets || parse(f).None?
          invariant forall f :: f in localFilenames <==> OldSignature(allSigChains[..n], matchedChainPair, true, f)
          invariant forall f :: f in remoteFilenames <==>
                      f in ofSets || OldSignature(allSigChains[..n], matchedChainPair, false, f)
        {
          assert allSigChains[..n + 1] == allSigChains[..n] + [allSigChains[n]];
          var sigChain := allSigChains[n];
          if matchedChainPair.None? || sigChain.start != matchedChainPair.value.0.start ||
             sigChain.end != matchedChainPair.value.0.end
          {
            if sigChain.local {
              localFilenames := localFilenames + sigChain.filenames;
            } else {
              remoteFilenames := remoteFilenames + sigChain.filenames;
            }
          }
        }
      }
      assert allSigChains[..|allSigChains|] == allSigChains;
      localFilenames := localFilenames + localOrphanedSigNames;
      remoteFilenames := remoteFilenames + remoteOrphanedSigNames;
      ChainsKeepTheirFiles(parse, sets, allBackupChains, outsiders, localFilenames + remoteFilenames);
    }
  }

  ghost function SetLists(chains: seq<BackupChain>): (r: seq<seq<BackupSet>>)
    reads chains
    ensures |r| == |chains| && forall i :: 0 <= i < |chains| ==> r[i] == chains[i].incsetList
  {
    seq(|chains|, i requires 0 <= i < |chains| reads chains => chains[i].incsetList)
  }

  /** The last list with these at its end. */
  function WithLast<T>(lists: seq<seq<T>>, given: seq<T>): seq<seq<T>> {
    if lists == [] then [] else lists[|lists| - 1 := lists[|lists| - 1] + given]
  }

  lemma ListsShortened(chains: seq<BackupChain>, lists: seq<seq<BackupSet>>, given: seq<BackupSet>)
    requires chains != [] && |lists| == |chains|
    requires forall i :: 0 <= i < |chains| - 1 ==> lists[i] == chains[i].incsetList
    requires lists[|chains| - 1] == chains[|chains| - 1].incsetList + given
    ensures lists == WithLast(SetLists(chains), given)
  {
  }

  lemma NoneGiven<T>(lists: seq<seq<T>>)
    ensures WithLast(lists, []) == lists
  {
    assert lists != [] ==> lists[|lists| - 1] + [] == lists[|lists| - 1];
  }

  /** The signatures end before the chain does, or did. */
  predicate MatchEndsBefore(pair: (SignatureChain, BackupChain))
    reads pair.1
  {
    pair.0.end != pair.1.endTime
  }

  predicate Covers(c: BackupChain, time: int)
    reads c
  {
    c.startTime <= time <= c.endTime
  }

  /** After position i every chain ends at the time or later. */
  predicate NoneBefore(chains: seq<BackupChain>, i: int, time: int)
    reads chains
  {
    forall k :: 0 <= k < |chains| && i < k ==> chains[k].endTime >= time
  }

  /** The last chain that ends before the time, or the first chain. */
  function LastBefore(chains: seq<BackupChain>, time: int): (r: BackupChain)
    requires chains != []
    reads chains
    ensures r in chains
    ensures r.endTime >= time ==> r == chains[0] && NoneBefore(chains, -1, time)
    ensures r.endTime < time ==> exists i :: 0 <= i < |chains| && chains[i] == r && NoneBefore(chains, i, time)
  {
    if chains[|chains| - 1].endTime < time || |chains| == 1 then
      assert NoneBefore(chains, |chains| - 1, time);
      chains[|chains| - 1]
    else
      var before := chains[..|chains| - 1];
      assert forall i :: NoneBefore(before, i, time) ==> NoneBefore(chains, i, time);
      LastBefore(before, time)
  }

  function KeyedSignatures(sigChains: seq<SignatureChain>): (r: seq<Keyed<SignatureChain>>)
    ensures |r| == |sigChains| && Chains(r) == sigChains
    ensures forall k :: k in r ==> k == Keyed(k.chain.end, !k.chain.local, k.chain)
  {
    seq(|sigChains|, i requires 0 <= i < |sigChains| =>
      Keyed(sigChains[i].end, !sigChains[i].local, sigChains[i]))
  }

  lemma SortedSignatures(parse: Parser, sigChains: seq<SignatureChain>, sorted: seq<Keyed<SignatureChain>>)
    requires Signatures(parse, sigChains) && multiset(sorted) == multiset(KeyedSignatures(sigChains))
    ensures multiset(Chains(sorted)) == multiset(sigChains) && KeyedSignatures(Chains(sorted)) == sorted
    ensures Signatures(parse, Chains(sorted))
  {
    SameChains(sorted, KeyedSignatures(sigChains));
    forall i | 0 <= i < |sorted| ensures KeyedSignatures(Chains(sorted))[i] == sorted[i] {
      assert sorted[i] in multiset(sorted);
    }
    forall c | c in Chains(sorted) ensures c in sigChains {
      assert c in multiset(Chains(sorted));
    }
  }

  /** Giving up the last set keeps a chain linked. */
  lemma ShorterIsIntact(c: BackupChain, incs: seq<BackupSet>, from: set<BackupSet>, stamps: seq<Stamp>)
    requires incs != [] && c.incsetList == incs[..|incs| - 1] && c.fullset in from && stamps == Stamps(incs)
    requires (forall s :: s in incs ==> s in from) && Linked(c.fullset.stamp, stamps)
    ensures Intact(c, from)
  {
    LinkedPrefix(c.fullset.stamp, stamps, |incs| - 1);
    assert Stamps(c.incsetList) == stamps[..|incs| - 1];
  }

  lemma OutsideAmong(
    orphaned: seq<BackupSet>, incomplete: seq<BackupSet>, chains: seq<BackupChain>, sets: seq<BackupSet>)
    requires Outside(orphaned, chains, sets) && Outside(incomplete, chains, sets)
    ensures Outside(orphaned + incomplete, chains, sets)
    ensures forall s :: s in orphaned + incomplete ==> s in sets
  {
  }

  lemma OutsidersNamed(
    parse: Parser, sets: seq<BackupSet>, chains: seq<BackupChain>, orphaned: seq<BackupSet>, incomplete: seq<BackupSet>)
    requires Accounted(sets, chains, orphaned, incomplete)
    ensures forall s :: s in sets && s !in AllSets(chains) && !Replaced(s, sets) ==>
              RemoteNames(parse, [s]) <= RemoteNames(parse, orphaned + incomplete)
  {
    hide AllSets, Replaced, NoMissedChain, PartialManifest;
    forall s | s in sets && s !in AllSets(chains) && !Replaced(s, sets) ensures s in orphaned + incomplete {}
  }

  lemma ChainsKeepTheirFiles(
    parse: Parser, sets: seq<BackupSet>, chains: seq<BackupChain>, outsiders: seq<BackupSet>, names: set<Bytes>)
    requires Different(parse, sets) && Outside(outsiders, chains, sets)
    requires forall c :: c in chains ==> Intact(c, set s | s in sets)
    requires forall f :: f in names ==> f in NamesOf(outsiders) || parse(f).None?
    ensures forall s :: s in AllSets(chains) ==> s.names !! names
  {
    forall s, f | s in AllSets(chains) && f in s.names ensures f !in names {
      assert parse(f).Some? by { assert s.Valid() && s.Placed(f); }
      forall t | t in outsiders ensures f !in t.names {
        assert t in sets && t != s;
        DifferentSetsShareNoFile(parse, sets, s, t);
      }
    }
  }

  predicate PartialManifest(parse: Parser, f: Bytes) {
    parse(f).Some? && parse(f).value.manifest && parse(f).value.partial
  }

  ghost function RemoteNames(parse: Parser, sets: seq<BackupSet>): set<Bytes>
    reads sets
  {
    set f | f in NamesOf(sets) && !PartialManifest(parse, f)
  }

  lemma NoRemoteNames(parse: Parser)
    ensures RemoteNames(parse, []) == {}
  {
  }

  lemma RemoteNamesStep(parse: Parser, sets: seq<BackupSet>, s: BackupSet)
    ensures RemoteNames(parse, sets + [s]) ==
            RemoteNames(parse, sets) + set f | f in s.names && !PartialManifest(parse, f)
  {
    assert NamesOf(sets + [s]) == NamesOf(sets) + s.names;
  }

  /** The time of the last set of the chain. */
  function LastTime(c: BackupChain): int
    reads c, c.fullset, c.incsetList
  {
    if c.incsetList == [] then c.fullset.stamp.Time() else c.incsetList[|c.incsetList| - 1].stamp.Time()
  }

  /** What holds of a status whose chain c had these sets, when each chain had the given ones. */
  ghost predicate Dropping(
    status: CollectionsStatus, c: BackupChain, incs: seq<BackupSet>, before: map<BackupChain, set<BackupSet>>,
    incomplete: seq<BackupSet>)
    reads status, status.sets, incs
    requires incs != []
  {
    var last := incs[|incs| - 1];
    && Different(status.parse, status.sets)
    && c in before && before.Keys == (set d | d in status.allBackupChains)
    && (forall s :: s in incs ==> s in status.sets) && before[c] == {c.fullset} + (set s | s in incs)
    && c.fullset in status.sets && last !in incs[..|incs| - 1] && last != c.fullset
    && Linked(c.fullset.stamp, Stamps(incs))
    && (forall d :: d in status.allBackupChains && d != c ==> last !in before[d])
    && (forall s :: s in status.orphanedBackupSets + incomplete ==> s in status.sets && s !in Union(before))
    && Kept(status.sets, Union(before), status.orphanedBackupSets, incomplete)
  }

  lemma BeforeDropping(status: CollectionsStatus, c: BackupChain, before: map<BackupChain, set<BackupSet>>)
    requires status.Valid() && Chained(status.allBackupChains, set s | s in status.sets)
    requires c in status.allBackupChains && c.incsetList != []
    requires before.Keys == set d | d in status.allBackupChains
    requires forall d :: d in status.allBackupChains ==> before[d] == SetsOf(d)
    ensures Dropping(status, c, c.incsetList, before, status.incompleteBackupSets)
    ensures forall d :: d in status.allBackupChains ==> Intact(d, set s | s in status.sets)
    ensures NoMissedChain(status.orphanedBackupSets, status.allBackupChains)
    ensures Joined(c.fullset.stamp, Stamps(c.incsetList)) && c.endTime == EndOf(c.fullset.stamp, Stamps(c.incsetList))
  {
    hide AllSets, Union, SetsOf, Kept, NoMissedChain, Different, Signatures;
    var from := set s | s in status.sets;
    assert Sound(c, from);
    hide Chained, Sound;
    SoundGives(c, from);
    hide BackupChain.Valid, Stamps, Linked;
    OnlyInItsChain(status.allBackupChains, c, before, from);
  }

  lemma AfterDropping(
    status: CollectionsStatus, c: BackupChain, incs: seq<BackupSet>, before: map<BackupChain, set<BackupSet>>)
    requires incs != [] && c.incsetList == incs[..|incs| - 1] && status.incompleteBackupSets != []
    requires var all := status.incompleteBackupSets;
      all[|all| - 1] == incs[|incs| - 1] && Dropping(status, c, incs, before, all[..|all| - 1])
    requires forall d :: d in status.allBackupChains && d != c ==>
      SetsOf(d) == before[d] && Intact(d, set s | s in status.sets)
    requires NoMissedChain(status.orphanedBackupSets, status.allBackupChains)
    ensures Partitioned(status.parse, status.sets, status.allBackupChains, status.orphanedBackupSets,
                        status.incompleteBackupSets)
  {
    hide AllSets, Union, Different, Kept, NoMissedChain, Linked, Stamps, Outside;
    var all, last := status.incompleteBackupSets, incs[|incs| - 1];
    ShorterIsIntact(c, incs, (set s | s in status.sets), Stamps(incs));
    WithoutDropped(status.allBackupChains, c, before, last);
    hide SetsOf, Intact;
    assert all == all[..|all| - 1] + [last];
    StillOutside(status.orphanedBackupSets, status.allBackupChains, status.sets, Union(before), last);
    StillOutside(all, status.allBackupChains, status.sets, Union(before), last);
    StillKept(status.sets, AllSets(status.allBackupChains), status.orphanedBackupSets, all, last, Union(before));
  }

  lemma StillOutside(
    outsiders: seq<BackupSet>, chains: seq<BackupChain>, sets: seq<BackupSet>, before: set<BackupSet>, last: BackupSet)
    requires forall s :: s in outsiders ==> s in sets && (s == last || s !in before)
    requires AllSets(chains) <= before && last !in AllSets(chains)
    ensures Outside(outsiders, chains, sets)
  {
  }

  lemma StillKept(
    sets: seq<BackupSet>, chained: set<BackupSet>, orphaned: seq<BackupSet>, incomplete: seq<BackupSet>,
    last: BackupSet, before: set<BackupSet>)
    requires incomplete != [] && last == incomplete[|incomplete| - 1]
    requires Kept(sets, before, orphaned, incomplete[..|incomplete| - 1]) && before <= chained + {last}
    ensures Kept(sets, chained, orphaned, incomplete)
  {
  }

  lemma OnlyInItsChain(
    chains: seq<BackupChain>, c: BackupChain, sets: map<BackupChain, set<BackupSet>>, from: set<BackupSet>)
    requires Chained(chains, from) && c in chains && c.incsetList != []
    requires sets.Keys == (set d | d in chains) && forall d :: d in chains ==> sets[d] == SetsOf(d)
    ensures var l := c.incsetList; l[|l| - 1] !in l[..|l| - 1] && l[|l| - 1] != c.fullset
    ensures forall d :: d in chains && d != c ==> c.incsetList[|c.incsetList| - 1] !in sets[d]
    ensures AllSets(chains) == Union(sets)
  {
    SoundGives(c, from);
    hide BackupChain.Valid, BackupChain.IsLinked;
    var l := c.incsetList;
    var s := l[|l| - 1];
    assert forall k :: 0 <= k < |l| - 1 ==> l[..|l| - 1][k] == l[k] != s;
    assert s in SetsOf(c);
    forall d | d in chains && d != c ensures s !in SetsOf(d) {
      assert SetsOf(c) !! SetsOf(d);
    }
  }

  lemma WithoutDropped(
    chains: seq<BackupChain>, c: BackupChain, before: map<BackupChain, set<BackupSet>>, dropped: BackupSet)
    requires c in chains && before.Keys == (set d | d in chains)
    requires forall d :: d in chains && d != c ==> SetsOf(d) == before[d] && dropped !in before[d]
    requires SetsOf(c) <= before[c] && dropped !in SetsOf(c) && before[c] <= SetsOf(c) + {dropped}
    ensures AllSets(chains) <= Union(before) && dropped !in AllSets(chains)
    ensures Union(before) <= AllSets(chains) + {dropped}
  {
  }

  lemma LatestOf(chains: seq<BackupChain>, from: set<BackupSet>)
    requires chains != [] && Chained(chains, from)
    ensures var c := chains[|chains| - 1];
      c.endTime == LastTime(c) && forall i :: 0 <= i < |chains| - 1 ==> chains[i] != c
  {
    hide AllSets, SetsOf;
    assert Sound(chains[|chains| - 1], from);
  }

  /** The chains with their end times; all of them are remote. */
  ghost function KeyedOf(chains: seq<BackupChain>): (r: seq<Keyed<BackupChain>>)
    reads chains
    ensures |r| == |chains| && Chains(r) == chains
    ensures forall k :: k in r ==> k == Keyed(k.chain.endTime, true, k.chain)
  {
    seq(|chains|, i requires 0 <= i < |chains| reads chains => Keyed(chains[i].endTime, true, chains[i]))
  }

  method KeyedChains(chains: seq<BackupChain>) returns (r: seq<Keyed<BackupChain>>)
    ensures r == KeyedOf(chains)
  {
    r := [];
    for n := 0 to |chains|
      invariant |r| == n && forall i :: 0 <= i < n ==> r[i] == KeyedOf(chains)[i]
    {
      r := r + [Keyed(chains[n].endTime, true, chains[n])];
    }
  }

  /** In the order in which get_sorted_chains leaves backup chains. */
  ghost predicate ByEndTime(chains: seq<BackupChain>)
    reads chains
  {
    var ends := EndTimes(chains); forall i, j :: 0 <= i < j < |ends| ==> ends[i] <= ends[j]
  }

  lemma ChainedPermuted(a: seq<BackupChain>, b: seq<BackupChain>, from: set<BackupSet>)
    requires Chained(a, from) && multiset(a) == multiset(b)
    ensures Chained(b, from) && AllSets(a) == AllSets(b)
  {
    forall c | c in b || c in a ensures c in a && c in b {
      assert c in multiset(a) <==> c in multiset(b);
    }
    hide Sound, SetsOf;
    forall i, j | 0 <= i < j < |b| ensures b[i] != b[j] && SetsOf(b[i]) !! SetsOf(b[j]) {
      CountOne(a, b[i]);
      OnceOnly(b, i, j);
      assert b[i] in a && b[j] in a;
    }
  }

  lemma EndTimesInOrder(keyed: seq<Keyed<BackupChain>>, sorted: seq<Keyed<BackupChain>>)
    requires multiset(sorted) == multiset(keyed) && InOrder(sorted)
    requires forall k :: k in keyed ==> k == Keyed(k.chain.endTime, true, k.chain)
    ensures ByEndTime(Chains(sorted))
  {
    forall i | 0 <= i < |sorted| ensures sorted[i].end == sorted[i].chain.endTime {
      assert sorted[i] in multiset(sorted);
      assert sorted[i] in keyed;
    }
  }

  /** The order of the chains does not matter. */
  lemma BuiltPermuted(
    parse: Parser, filenames: seq<Bytes>, sets: seq<BackupSet>, a: seq<BackupChain>, b: seq<BackupChain>,
    orphaned: seq<BackupSet>, incomplete: seq<BackupSet>)
    requires Built(parse, filenames, sets, a, orphaned, incomplete) && multiset(a) == multiset(b)
    ensures Built(parse, filenames, sets, b, orphaned, incomplete)
  {
    hide Different, NamesOf, Kept, AllSets, Chained;
    ChainedPermuted(a, b, set s | s in sets);
    forall c | c in b ensures c in a {
      assert c in multiset(b);
    }
  }

  /** Three chains end at the same time. */
  ghost predicate Tied(chains: seq<BackupChain>)
    reads chains
  {
    ThreeEndTogether(KeyedOf(chains))
  }

  ghost predicate SignaturesTied(sigChains: seq<SignatureChain>) {
    ThreeEndTogether(KeyedSignatures(sigChains))
  }

  /** get_backup_chains, and then get_sorted_chains on what it found. */
  method GetSortedBackupChains(parse: Parser, filenameList: seq<Bytes>)
    returns (ok: bool, chains: seq<BackupChain>, orphaned: seq<BackupSet>, incomplete: seq<BackupSet>,
             ghost sets: seq<BackupSet>, ghost found: seq<BackupChain>)
    ensures !Clashing(parse, filenameList) ==> Built(parse, filenameList, sets, found, orphaned, incomplete)
    ensures ok <==> !Clashing(parse, filenameList) && !Tied(found)
    ensures ok ==> Built(parse, filenameList, sets, chains, orphaned, incomplete) && ByEndTime(chains)
    ensures ok ==> multiset(chains) == multiset(found) && forall i :: 0 <= i < |chains| ==> fresh(chains[i])
  {
    hide Built, InOrder, ByEndTime, Clashing, ThreeEndTogether;
    ok, chains, orphaned, incomplete, sets := GetBackupChains(parse, filenameList);
    found := chains;
    if !ok {
      return;
    }
    var keyed := KeyedChains(chains);
    var sorted := GetSortedChains(keyed);
    assert keyed == KeyedOf(found);
    if sorted.None? {
      ok := false;
      return;
    }
    chains := Chains(sorted.value);
    EndTimesInOrder(keyed, sorted.value);
    SameChains(keyed, sorted.value);
    BuiltPermuted(parse, filenameList, sets, found, chains, orphaned, incomplete);
    forall i | 0 <= i < |chains| ensures fresh(chains[i]) {
      assert chains[i] in multiset(chains);
      assert chains[i] in found;
    }
  }

  /**
   * set_values: null stands for a failed assertion, because two files clash or three chains end together. The
   * chains are in the order of their recorded end times, and the only complete set that may be set aside is the
   * one that the matched chain gave up.
   */
  method SetValues(parse: Parser, filenameList: seq<Bytes>, sigChains: seq<SignatureChain>,
                   localSigs: set<Bytes>, remoteSigs: set<Bytes>)
    returns (status: CollectionsStatus?, ghost sets: seq<BackupSet>, ghost found: seq<BackupChain>)
    requires forall f :: f in localSigs + remoteSigs ==> parse(f).None?
    requires Signatures(parse, sigChains)
    ensures status == null <==> Clashing(parse, filenameList) || Tied(found) || SignaturesTied(sigChains)
    ensures Tied(found) && !Clashing(parse, filenameList) ==> exists orphaned, incomplete ::
              Built(parse, filenameList, sets, found, orphaned, incomplete)
    ensures status != null ==> status.parse == parse && status.sets == sets
    ensures status != null ==> multiset(status.allBackupChains) == multiset(found)
    ensures status != null ==> multiset(status.allSigChains) == multiset(sigChains)
    ensures status != null ==> status.LatestMatched()
    ensures status != null ==> status.Valid() && NamesOf(sets) == BackupFiles(parse, filenameList)
    ensures status != null ==> ByEndTime(status.allBackupChains)
    ensures status != null ==> forall c :: c in status.allBackupChains ==>
              Linked(c.fullset.stamp, Stamps(c.incsetList))
    ensures status != null ==> forall s :: s in status.incompleteBackupSets && s.remoteManifestName.Some? ==>
              status.matchedChainPair.Some? && GivenUp(status.matchedChainPair.value.1, s)
  {
    hide Partitioned, Chained, Clashing, InOrder, ThreeEndTogether, KeyedSignatures, EndsWith, NamesOf, BackupFiles;
    hide Linked, LastTime, GivenUp, MatchEndsBefore, Built, CollectionsStatus.LatestMatched;
    ghost var matched, given;
    status, sets, found := NewStatus(parse, filenameList, localSigs, remoteSigs);
    if status == null {
      return;
    }
    ghost var chains, incomplete, keyed := status.allBackupChains, status.incompleteBackupSets, KeyedOf(found);
    ghost var ends := EndTimes(chains);
    SameMembers(found, chains);
    var ok;
    ok, matched, given := status.SetMatchedChainPair(sigChains);
    SameKeys(found, chains, ends, keyed);
    if !ok {
      return null, sets, found;
    }
    ValidGives(status);
    forall s | s in status.incompleteBackupSets && s.remoteManifestName.Some? ensures given != [] && s == given[0] {
      InLast(incomplete, given, s);
    }
  }

  lemma SameMembers<T>(a: seq<T>, b: seq<T>)
    requires multiset(a) == multiset(b)
    ensures forall x :: x in a ==> x in b
  {
    forall x | x in a ensures x in b {
      assert x in multiset(a);
    }
  }

  lemma SameKeys(found: seq<BackupChain>, chains: seq<BackupChain>, ends: seq<int>, keyed: seq<Keyed<BackupChain>>)
    requires EndTimes(chains) == ends && (forall c :: c in found ==> c in chains) && |keyed| == |found|
    requires forall i, j :: 0 <= i < |found| && 0 <= j < |chains| && found[i] == chains[j] ==>
      keyed[i] == Keyed(ends[j], true, found[i])
    ensures KeyedOf(found) == keyed
  {
    forall i | 0 <= i < |found| ensures keyed[i] == Keyed(found[i].endTime, true, found[i]) {
      assert found[i] in chains;
    }
  }

  /** The first half of set_values: the chains that the files listed make up. */
  method NewStatus(parse: Parser, filenameList: seq<Bytes>, localSigs: set<Bytes>, remoteSigs: set<Bytes>)
    returns (status: CollectionsStatus?, ghost sets: seq<BackupSet>, ghost found: seq<BackupChain>)
    requires forall f :: f in localSigs + remoteSigs ==> parse(f).None?
    ensures status == null <==> Clashing(parse, filenameList) || Tied(found)
    ensures Tied(found) && !Clashing(parse, filenameList) ==> exists orphaned, incomplete ::
              Built(parse, filenameList, sets, found, orphaned, incomplete)
    ensures status != null ==> fresh(status) && status.Valid() && status.sets == sets && status.parse == parse
    ensures status != null ==> Chained(status.allBackupChains, set s | s in sets) && ByEndTime(status.allBackupChains)
    ensures status != null ==> forall i :: 0 <= i < |status.allBackupChains| ==> fresh(status.allBackupChains[i])
    ensures status != null ==> multiset(status.allBackupChains) == multiset(found)
    ensures status != null ==> NamesOf(sets) == BackupFiles(parse, filenameList)
    ensures status != null ==> forall s :: s in status.incompleteBackupSets ==> s.remoteManifestName.None?
  {
    hide Built, Partitioned, Chained, Clashing, NamesOf, BackupFiles, ByEndTime;
    var ok, chains, orphaned, incomplete;
    ok, chains, orphaned, incomplete, sets, found := GetSortedBackupChains(parse, filenameList);
    if !ok {
      return null, sets, found;
    }
    BuiltGives(parse, filenameList, sets, chains, orphaned, incomplete);
    status := new CollectionsStatus(parse, chains, orphaned, incomplete, localSigs, remoteSigs, filenameList, sets);
  }

  lemma InLast<T>(a: seq<T>, b: seq<T>, x: T)
    requires |b| <= 1 && x in a + b && x !in a
    ensures b != [] && x == b[0]
  {
  }

  /** What a chain of complete sets is, and which sets are not complete. */
  lemma BuiltGives(
    parse: Parser, filenames: seq<Bytes>, sets: seq<BackupSet>, chains: seq<BackupChain>, orphaned: seq<BackupSet>,
    incomplete: seq<BackupSet>)
    requires Built(parse, filenames, sets, chains, orphaned, incomplete)
    ensures Chained(chains, set s | s in sets) && NamesOf(sets) == BackupFiles(parse, filenames)
    ensures forall s :: s in incomplete ==> s.remoteManifestName.None?
  {
  }

  lemma ValidGives(status: CollectionsStatus)
    requires status.Valid()
    ensures forall c :: c in status.allBackupChains ==> Linked(c.fullset.stamp, Stamps(c.incsetList))
  {
    hide Different, Outside, Accounted;
  }

  lemma LastGivenUp(c: BackupChain, incs: seq<BackupSet>)
    requires incs != [] && c.incsetList == incs[..|incs| - 1]
    requires Joined(c.fullset.stamp, Stamps(incs)) && c.endTime == EndOf(c.fullset.stamp, Stamps(incs))
    ensures GivenUp(c, incs[|incs| - 1])
  {
    assert Stamps(c.incsetList) == Stamps(incs)[..|incs| - 1];
  }

  /** The set goes on where the chain ends now, up to where it ended before. */
  predicate GivenUp(c: BackupChain, s: BackupSet)
    reads c, c.fullset, c.incsetList, s
  {
    s.stamp == IncFrom(LastTime(c), c.endTime)
  }
}
