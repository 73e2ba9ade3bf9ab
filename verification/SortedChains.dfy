/**
 * CollectionsStatus.get_sorted_chains: chains grouped by their end times, with a local and a remote one
 * at most at each.
 */
module SortedChains {
  import opened Paths

  /** A chain with what the sort looks at: its end time, and whether it has a backend. */
  datatype Keyed<T> = Keyed(end: int, remote: bool, chain: T)

  /** The chains with one end time. */
  datatype Group<T> = Group(end: int, chains: seq<Keyed<T>>)

  /** The dictionary from end times to chains, in the order of the end times. */
  type Groups<T> = seq<Group<T>>

  ghost predicate Grouped<T>(groups: Groups<T>) {
    && (forall i, n :: 0 <= i < |groups| && 0 <= n < |groups[i].chains| ==> groups[i].chains[n].end == groups[i].end)
    && (forall i :: 0 <= i < |groups| ==> groups[i].chains != [])
    && (forall i, j :: 0 <= i < j < |groups| ==> groups[i].end < groups[j].end)
  }

  /** How many of the chains have this end time. */
  function Ties<T>(chains: seq<Keyed<T>>, end: int): nat {
    if chains == [] then 0 else (if chains[0].end == end then 1 else 0) + Ties(chains[1..], end)
  }

  lemma {:induction false} TiesAppend<T>(s: seq<Keyed<T>>, t: seq<Keyed<T>>, end: int)
    ensures Ties(s + t, end) == Ties(s, end) + Ties(t, end)
  {
    if s == [] {
      assert s + t == t;
    } else {
      assert (s + t)[1..] == s[1..] + t;
      TiesAppend(s[1..], t, end);
    }
  }

  function Flat<T>(groups: Groups<T>): seq<Keyed<T>> {
    if groups == [] then [] else groups[0].chains + Flat(groups[1..])
  }

  /** endtime_chain_dict gets one chain more. */
  function AddChain<T>(groups: Groups<T>, k: Keyed<T>): Groups<T> {
    if groups == [] || k.end < groups[0].end then [Group(k.end, [k])] + groups
    else if k.end == groups[0].end then [Group(k.end, groups[0].chains + [k])] + groups[1..]
    else [groups[0]] + AddChain(groups[1..], k)
  }

  lemma GroupedCons<T>(g: Group<T>, later: Groups<T>)
    requires g.chains != [] && (forall n :: 0 <= n < |g.chains| ==> g.chains[n].end == g.end)
    requires Grouped(later) && forall h :: h in later ==> g.end < h.end
    ensures Grouped([g] + later)
  {
  }

  lemma GroupedTail<T>(groups: Groups<T>)
    requires Grouped(groups) && groups != []
    ensures var first := groups[0];
      first.chains != [] && forall n :: 0 <= n < |first.chains| ==> first.chains[n].end == first.end
    ensures Grouped(groups[1..]) && forall h :: h in groups[1..] ==> groups[0].end < h.end
    ensures groups == [groups[0]] + groups[1..]
  {
  }

  lemma {:induction false} AddChainEnds<T>(groups: Groups<T>, k: Keyed<T>)
    requires Grouped(groups)
    ensures Grouped(AddChain(groups, k))
    ensures forall g :: g in AddChain(groups, k) ==> g.end == k.end || exists h :: h in groups && h.end == g.end
  {
    if groups == [] {
      GroupedCons(Group(k.end, [k]), []);
    } else {
      GroupedTail(groups);
      var first, later := groups[0], groups[1..];
      hide Grouped, Flat, AddChain;
      if k.end < first.end {
        GroupedCons(Group(k.end, [k]), groups);
      } else if k.end == first.end {
        GroupedCons(Group(k.end, first.chains + [k]), later);
      } else {
        AddChainEnds(later, k);
        assert forall h :: h in AddChain(later, k) ==> first.end < h.end;
        GroupedCons(first, AddChain(later, k));
      }
    }
  }

  lemma FlatCons<T>(g: Group<T>, later: Groups<T>)
    ensures Flat([g] + later) == g.chains + Flat(later)
  {
    assert ([g] + later)[1..] == later;
  }

  lemma {:induction false} AddChainElements<T>(groups: Groups<T>, k: Keyed<T>)
    ensures multiset(Flat(AddChain(groups, k))) == multiset(Flat(groups)) + multiset{k}
  {
    if groups == [] {
      FlatCons(Group(k.end, [k]), groups);
    } else {
      var first, later := groups[0], groups[1..];
      assert groups == [first] + later;
      hide Flat, AddChain;
      FlatCons(first, later);
      if k.end < first.end {
        FlatCons(Group(k.end, [k]), groups);
      } else if k.end == first.end {
        FlatCons(Group(k.end, first.chains + [k]), later);
      } else {
        AddChainElements(later, k);
        FlatCons(first, AddChain(later, k));
      }
    }
  }

  lemma {:induction false} AddChainTies<T>(groups: Groups<T>, k: Keyed<T>, end: int)
    ensures Ties(Flat(AddChain(groups, k)), end) == Ties(Flat(groups), end) + if k.end == end then 1 else 0
  {
    var r := AddChain(groups, k);
    if groups == [] || k.end < groups[0].end {
      assert r[1..] == groups;
      TiesAppend([k], Flat(groups), end);
    } else if k.end == groups[0].end {
      assert r[1..] == groups[1..];
      TiesAppend(groups[0].chains, [k], end);
      TiesAppend(groups[0].chains + [k], Flat(groups[1..]), end);
      TiesAppend(groups[0].chains, Flat(groups[1..]), end);
    } else {
      assert r[1..] == AddChain(groups[1..], k);
      AddChainTies(groups[1..], k, end);
      TiesAppend(groups[0].chains, Flat(r[1..]), end);
      TiesAppend(groups[0].chains, Flat(groups[1..]), end);
    }
  }

  /** All chains of a group have its end time. */
  lemma {:induction false} TiesWithin<T>(chains: seq<Keyed<T>>, own: int, end: int)
    requires forall n :: 0 <= n < |chains| ==> chains[n].end == own
    ensures Ties(chains, end) == if end == own then |chains| else 0
  {
    if chains != [] {
      TiesWithin(chains[1..], own, end);
    }
  }

  lemma {:induction false} TiesOfGroups<T>(groups: Groups<T>, end: int)
    requires Grouped(groups)
    ensures forall i :: 0 <= i < |groups| && groups[i].end == end ==> Ties(Flat(groups), end) == |groups[i].chains|
    ensures (forall i :: 0 <= i < |groups| ==> groups[i].end != end) ==> Ties(Flat(groups), end) == 0
  {
    if groups != [] {
      TiesAppend(groups[0].chains, Flat(groups[1..]), end);
      TiesWithin(groups[0].chains, groups[0].end, end);
      TiesOfGroups(groups[1..], end);
    }
  }

  /** By end time, and of two chains with the same end time a remote one before a local one. */
  ghost predicate InOrder<T>(chains: seq<Keyed<T>>) {
    forall i, j :: 0 <= i < j < |chains| ==>
      chains[i].end < chains[j].end || (chains[i].end == chains[j].end && (chains[i].remote || !chains[j].remote))
  }

  method GroupByEnd<T>(chainList: seq<Keyed<T>>) returns (groups: Groups<T>)
    ensures Grouped(groups) && multiset(Flat(groups)) == multiset(chainList)
    ensures forall end :: Ties(Flat(groups), end) == Ties(chainList, end)
  {
    hide Grouped, Flat, Ties, AddChain;
    groups := [];
    assert Grouped<T>([]) && Flat<T>([]) == [] by { NoGroups<T>(); }
    for n := 0 to |chainList|
      invariant Grouped(groups) && multiset(Flat(groups)) == multiset(chainList[..n])
      invariant forall end :: Ties(Flat(groups), end) == Ties(chainList[..n], end)
    {
      var k := chainList[n];
      AddChainEnds(groups, k);
      AddChainElements(groups, k);
      assert chainList[..n + 1] == chainList[..n] + [k];
      forall end ensures Ties(Flat(AddChain(groups, k)), end) == Ties(chainList[..n + 1], end) {
        AddChainTies(groups, k, end);
        TiesAppend(chainList[..n], [k], end);
        OneTie(k, end);
      }
      groups := AddChain(groups, k);
    }
    assert chainList[..|chainList|] == chainList;
  }

  lemma NoGroups<T>()
    ensures Grouped<T>([]) && Flat<T>([]) == []
  {
  }

  lemma OneTie<T>(k: Keyed<T>, end: int)
    ensures Ties([k], end) == if k.end == end then 1 else 0
  {
    assert [k][1..] == [];
  }

  /** Of two chains with the same end time a remote one goes first. */
  function Arranged<T>(g: seq<Keyed<T>>): (r: seq<Keyed<T>>)
    requires 0 < |g| <= 2
    ensures multiset(r) == multiset(g) && |r| == |g|
  {
    if |g| == 1 || g[0].remote then g
    else
      assert g == [g[0], g[1]];
      [g[1], g[0]]
  }

  lemma InOrderAppend<T>(sorted: seq<Keyed<T>>, g: seq<Keyed<T>>, end: int)
    requires InOrder(sorted) && 0 < |g| <= 2 && forall n :: 0 <= n < |g| ==> g[n].end == end
    requires forall i :: 0 <= i < |sorted| ==> sorted[i].end < end
    ensures InOrder(sorted + Arranged(g))
  {
    assert forall n :: 0 <= n < |g| ==> Arranged(g)[n].end == end;
  }

  ghost predicate ThreeEndTogether<T>(chains: seq<Keyed<T>>) {
    exists end :: Ties(chains, end) > 2
  }

  /** None stands for the failed assertion that no three chains end at the same time. */
  method GetSortedChains<T>(chainList: seq<Keyed<T>>) returns (r: Option<seq<Keyed<T>>>)
    ensures r.None? <==> ThreeEndTogether(chainList)
    ensures r.Some? ==> multiset(r.value) == multiset(chainList) && InOrder(r.value)
  {
    hide Flat, Ties, InOrder, Arranged;
    var groups := GroupByEnd(chainList);
    var sorted: seq<Keyed<T>> := [];
    assert InOrder(sorted) by { NothingInOrder<T>(); }
    assert Flat(groups[..0]) == [] by { NoGroups<T>(); assert groups[..0] == []; }
    for n := 0 to |groups|
      invariant forall i :: 0 <= i < n ==> |groups[i].chains| <= 2
      invariant InOrder(sorted) && multiset(sorted) == multiset(Flat(groups[..n]))
      invariant forall i :: 0 <= i < |sorted| && n < |groups| ==> sorted[i].end < groups[n].end
    {
      var g := groups[n].chains;
      TiesOfGroups(groups, groups[n].end);
      if |g| > 2 {
        assert Ties(chainList, groups[n].end) == |g|;
        return None;
      }
      FlatLast(groups, n);
      InOrderAppend(sorted, g, groups[n].end);
      ArrangedEnds(g, groups[n].end);
      sorted := sorted + Arranged(g);
    }
    assert groups[..|groups|] == groups;
    forall end ensures Ties(chainList, end) <= 2 {
      TiesOfGroups(groups, end);
    }
    r := Some(sorted);
  }

  lemma NothingInOrder<T>()
    ensures InOrder<T>([])
  {
  }

  lemma ArrangedEnds<T>(g: seq<Keyed<T>>, end: int)
    requires 0 < |g| <= 2 && forall n :: 0 <= n < |g| ==> g[n].end == end
    ensures forall n :: 0 <= n < |Arranged(g)| ==> Arranged(g)[n].end == end
  {
  }

  lemma {:induction false} FlatLast<T>(groups: Groups<T>, n: nat)
    requires n < |groups|
    ensures Flat(groups[..n + 1]) == Flat(groups[..n]) + groups[n].chains
  {
    if n > 0 {
      FlatLast(groups[1..], n - 1);
      assert groups[..n + 1][1..] == groups[1..][..n] && groups[..n][1..] == groups[1..][..n - 1];
    } else {
      assert groups[..1] == [groups[0]] && groups[..1][1..] == [];
      assert groups[0].chains + [] == groups[0].chains;
    }
  }

  function Chains<T>(keyed: seq<Keyed<T>>): (r: seq<T>)
    ensures |r| == |keyed| && forall i :: 0 <= i < |keyed| ==> r[i] == keyed[i].chain
  {
    seq(|keyed|, i requires 0 <= i < |keyed| => keyed[i].chain)
  }

  function Without<T>(s: seq<T>, j: nat): (r: seq<T>)
    requires j < |s|
    ensures |r| < |s|
  {
    s[..j] + s[j + 1..]
  }

  lemma WithoutKeyed<T>(s: seq<T>, j: nat)
    requires j < |s|
    ensures multiset(s) == multiset(Without(s, j)) + multiset{s[j]}
    ensures multiset(Without(s, j)) == multiset(s) - multiset{s[j]}
  {
    assert s == s[..j] + [s[j]] + s[j + 1..];
  }

  lemma WithoutChains<T>(s: seq<Keyed<T>>, j: nat)
    requires j < |s|
    ensures multiset(Chains(s)) == multiset(Chains(Without(s, j))) + multiset{s[j].chain}
  {
    assert Without(Chains(s), j) == Chains(Without(s, j));
    WithoutKeyed(Chains(s), j);
  }

  lemma PositionOf<T>(s: seq<T>, x: T) returns (j: nat)
    requires x in multiset(s)
    ensures j < |s| && s[j] == x
  {
    j :| 0 <= j < |s| && s[j] == x;
  }

  lemma {:induction false} SameChains<T>(a: seq<Keyed<T>>, b: seq<Keyed<T>>)
    requires multiset(a) == multiset(b)
    ensures multiset(Chains(a)) == multiset(Chains(b))
    decreases |a|
  {
    assert |multiset(a)| == |a| && |multiset(b)| == |b|;
    if a != [] {
      hide Chains, Without;
      assert a[0] in multiset(b);
      var j := PositionOf(b, a[0]);
      var a', b' := Without(a, 0), Without(b, j);
      assert multiset(a') == multiset(b') by {
        WithoutKeyed(a, 0);
        WithoutKeyed(b, j);
      }
      SameChains(a', b');
      WithoutChains(a, 0);
      WithoutChains(b, j);
    }
  }
}
