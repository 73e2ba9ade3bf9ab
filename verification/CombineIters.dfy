/**
 * diffdir.combine_path_iters: the signature sets of several sessions as one, in which the last set with an entry
 * at an index decides.
 */
module CombineIters {
  import opened Indices
  import opened Paths
  import opened Collate

  function LastSome(elems: seq<Option<ROPath>>): (r: Option<ROPath>)
    ensures r.Some? <==> Any(elems)
  {
    if elems == [] then None
    else if elems[|elems| - 1].Some? then elems[|elems| - 1]
    else
      assert forall k :: 0 <= k < |elems| - 1 ==> elems[k] == elems[..|elems| - 1][k];
      LastSome(elems[..|elems| - 1])
  }

  function FirstSome(elems: seq<Option<ROPath>>): (r: Option<ROPath>)
    ensures r.Some? ==> r in elems
    ensures r.Some? <==> Any(elems)
  {
    if elems == [] then None else if elems[0].Some? then elems[0]
    else
      assert forall k :: 1 <= k < |elems| ==> elems[k] == elems[1..][k - 1];
      FirstSome(elems[1..])
  }

  function Reversed<T>(s: seq<T>): (r: seq<T>)
    ensures |r| == |s| && forall k :: 0 <= k < |s| ==> r[k] == s[|s| - 1 - k]
  {
    seq(|s|, k requires 0 <= k < |s| => s[|s| - 1 - k])
  }

  lemma {:induction false} FirstOfReversed(elems: seq<Option<ROPath>>)
    ensures FirstSome(Reversed(elems)) == LastSome(elems)
  {
    if elems != [] {
      var n := |elems| - 1;
      FirstOfReversed(elems[..n]);
      assert Reversed(elems)[1..] == Reversed(elems[..n]);
    }
  }

  /** Of the elements sharing an index, the first of the reversed iterators wins. */
  function FirstElement(): Row -> Option<ROPath> {
    (row: Row) => FirstSome(row.elems)
  }

  function Combined(iters: Iters): seq<ROPath> {
    FilterMap(OuterJoin(Reversed(iters)), FirstElement())
  }

  lemma FirstElementKeepsIndex()
    ensures KeepsIndex(FirstElement())
  {
    forall row | RowOk(row) && FirstElement()(row).Some? ensures FirstElement()(row).value.index == row.index {
      var k :| 0 <= k < |row.elems| && row.elems[k] == FirstSome(row.elems);
    }
  }

  /** The combination holds, at each index, the element of the last stream that has one. */
  lemma CombinedLookup(iters: Iters, i: Index)
    requires AllSorted(iters)
    ensures Sorted(Combined(iters))
    ensures Lookup(Combined(iters), i) == LastSome(LookupAll(iters, i))
  {
    hide OuterJoin, FilterMap, LastSome;
    var rev := Reversed(iters);
    FirstElementKeepsIndex();
    OuterJoinSorted(rev);
    OuterJoinIsOuterJoin(rev, i);
    FilterMapLookup(OuterJoin(rev), FirstElement(), i);
    FilterMapSorted(OuterJoin(rev), FirstElement());
    assert LookupAll(rev, i) == Reversed(LookupAll(iters, i));
    FirstOfReversed(LookupAll(iters, i));
  }

  // ----- the loop over sorted triples

  datatype Triple = Triple(index: Index, iter: nat, path: ROPath)

  predicate TripleLess(a: Triple, b: Triple) {
    Less(a.index, b.index) || (a.index == b.index && a.iter < b.iter)
  }

  ghost predicate TriplesSorted(s: seq<Triple>) {
    forall i, j :: 0 <= i < j < |s| ==> TripleLess(s[i], s[j])
  }

  ghost predicate DistinctIters(s: seq<Triple>) {
    forall i, j :: 0 <= i < j < |s| ==> s[i].iter != s[j].iter
  }

  function Insert(t: Triple, s: seq<Triple>): (r: seq<Triple>)
    requires TriplesSorted(s) && forall u :: u in s ==> u.iter != t.iter
    ensures TriplesSorted(r) && forall u :: u in r <==> u == t || u in s
  {
    OrderFacts();
    if s == [] || TripleLess(t, s[0]) then [t] + s
    else
      var r' := Insert(t, s[1..]);
      assert TripleLess(s[0], t);
      assert forall u :: u in r' ==> TripleLess(s[0], u);
      [s[0]] + r'
  }

  /** triple_list.sort() */
  function SortTriples(s: seq<Triple>): (r: seq<Triple>)
    requires DistinctIters(s)
    ensures TriplesSorted(r) && forall u :: u in r <==> u in s
  {
    if s == [] then []
    else Insert(s[0], SortTriples(s[1..]))
  }

  lemma {:induction false} InsertDistinct(t: Triple, s: seq<Triple>)
    requires TriplesSorted(s) && DistinctIters(s) && forall u :: u in s ==> u.iter != t.iter
    ensures DistinctIters(Insert(t, s))
  {
    if s != [] && !TripleLess(t, s[0]) {
      InsertDistinct(t, s[1..]);
      assert forall u :: u in s[1..] ==> u.iter != s[0].iter;
    }
  }

  lemma {:induction false} SortDistinct(s: seq<Triple>)
    requires DistinctIters(s)
    ensures DistinctIters(SortTriples(s))
  {
    if s != [] {
      SortDistinct(s[1..]);
      InsertDistinct(s[0], SortTriples(s[1..]));
    }
  }

  /** The list holds exactly one triple for each iterator that is not exhausted: its next element. */
  ghost predicate Covers(triples: seq<Triple>, rest: Iters, iters: Iters, next: seq<nat>) {
    && |rest| == |iters| == |next|
    && DistinctIters(triples)
    && (forall k :: 0 <= k < |next| ==> next[k] <= |iters[k]|)
    && (forall t :: t in triples ==> t.iter < |iters| && TripleFor(t, rest[t.iter], iters[t.iter][next[t.iter]..]))
    && (forall k :: 0 <= k < |rest| && rest[k] != [] ==> exists t :: t in triples && t.iter == k)
  }

  ghost predicate TripleFor(t: Triple, rest: seq<ROPath>, unread: seq<ROPath>) {
    t.index == t.path.index && rest == [t.path] + unread
  }

  /** get_triple: the next element of an iterator as a triple. */
  method GetTriple(iters: Iters, next0: seq<nat>, iterIndex: nat) returns (t: Option<Triple>, next: seq<nat>)
    requires |next0| == |iters| && iterIndex < |iters| && next0[iterIndex] <= |iters[iterIndex]|
    ensures var n := next0[iterIndex];
      if n == |iters[iterIndex]| then t == None && next == next0
      else t == Some(Triple(iters[iterIndex][n].index, iterIndex, iters[iterIndex][n])) &&
           next == next0[iterIndex := n + 1]
  {
    var n := next0[iterIndex];
    if n == |iters[iterIndex]| {
      t, next := None, next0;
    } else {
      var path := iters[iterIndex][n];
      t, next := Some(Triple(path.index, iterIndex, path)), next0[iterIndex := n + 1];
    }
  }

  lemma CoversReplace(triples: seq<Triple>, p: nat, rest: Iters, iters: Iters, next: seq<nat>)
    requires Covers(triples, rest, iters, next) && p < |triples|
    requires next[triples[p].iter] < |iters[triples[p].iter]|
    ensures var k := triples[p].iter; var path := iters[k][next[k]];
      Covers(triples[p := Triple(path.index, k, path)], rest[k := rest[k][1..]], iters, next[k := next[k] + 1])
  {
    var k := triples[p].iter;
    var path := iters[k][next[k]];
    var after := triples[p := Triple(path.index, k, path)];
    assert TripleFor(triples[p], rest[k], iters[k][next[k]..]);
    assert after[p].iter == k;
    forall j | 0 <= j < |rest| && j != k && rest[j] != [] ensures exists t :: t in after && t.iter == j {
      var t :| t in triples && t.iter == j;
      var q :| 0 <= q < |triples| && triples[q] == t;
      assert after[q] == t;
    }
  }

  /** Replaces the triple at p by its iterator's next element, or deletes it at the end. */
  method MoveOn(triples0: seq<Triple>, p: nat, iters: Iters, next0: seq<nat>, ghost rest: Iters)
    returns (triples: seq<Triple>, next: seq<nat>, p': nat)
    requires Covers(triples0, rest, iters, next0) && p < |triples0|
    ensures var k := triples0[p].iter; Covers(triples, rest[k := rest[k][1..]], iters, next)
    ensures p' <= |triples| && triples[p'..] == triples0[p + 1..]
  {
    var k := triples0[p].iter;
    assert TripleFor(triples0[p], rest[k], iters[k][next0[k]..]);
    var newTriple;
    newTriple, next := GetTriple(iters, next0, k);
    if newTriple.Some? {
      CoversReplace(triples0, p, rest, iters, next0);
      triples, p' := triples0[p := newTriple.value], p + 1;
    } else {
      triples, p' := triples0[..p] + triples0[p + 1..], p;
    }
  }

  /** The streams after the iterators of the first done triples have moved on. */
  ghost predicate Moved(rest': Iters, rest: Iters, triples: seq<Triple>, done: nat)
    requires done <= |triples|
  {
    |rest'| == |rest| &&
    (forall t :: t in triples[..done] && t.iter < |rest| && rest[t.iter] != [] ==>
       rest'[t.iter] == rest[t.iter][1..]) &&
    (forall k :: 0 <= k < |rest| && (forall t :: t in triples[..done] ==> t.iter != k) ==> rest'[k] == rest[k])
  }

  lemma MovedStep(rest': Iters, rest: Iters, triples: seq<Triple>, done: nat)
    requires done < |triples| && DistinctIters(triples) && Moved(rest', rest, triples, done)
    requires triples[done].iter < |rest| && rest[triples[done].iter] != []
    ensures var k := triples[done].iter;
      rest'[k] == rest[k] && Moved(rest'[k := rest[k][1..]], rest, triples, done + 1)
  {
    assert triples[..done + 1] == triples[..done] + [triples[done]];
  }

  /** refresh_triple_list: move every iterator standing at the first triple's index to its next element. */
  method RefreshTripleList(triples0: seq<Triple>, iters: Iters, next0: seq<nat>, ghost rest: Iters)
    returns (triples: seq<Triple>, next: seq<nat>)
    requires Covers(triples0, rest, iters, next0) && TriplesSorted(triples0) && triples0 != []
    ensures Covers(triples, Advance(rest, triples0[0].index), iters, next)
  {
    triples, next := triples0, next0;
    var pathIndex := triples[0].index;
    var iterIndex := 0;
    ghost var done := 0;  // triples0[done..] are those not looked at yet
    ghost var rest' := rest;
    while iterIndex < |triples|
      invariant 0 <= iterIndex <= |triples| && done <= |triples0|
      invariant triples[iterIndex..] == triples0[done..]
      invariant Covers(triples, rest', iters, next)
      invariant forall q :: 0 <= q < done ==> triples0[q].index == pathIndex
      invariant Moved(rest', rest, triples0, done)
      decreases |triples0| - done
    {
      var oldTriple := triples[iterIndex];
      assert oldTriple == triples[iterIndex..][0] == triples0[done];
      if oldTriple.index != pathIndex {
        break;
      }
      assert triples[iterIndex + 1..] == triples[iterIndex..][1..] == triples0[done + 1..];
      assert TripleFor(oldTriple, rest[oldTriple.iter], iters[oldTriple.iter][next0[oldTriple.iter]..]);
      MovedStep(rest', rest, triples0, done);
      triples, next, iterIndex := MoveOn(triples, iterIndex, iters, next, rest');
      rest' := rest'[oldTriple.iter := rest'[oldTriple.iter][1..]];
      done := done + 1;
    }
    AllAdvanced(triples0, done, rest, iters, next0, rest');
  }

  /** Once the scan stops, exactly the iterators standing at the least index have moved. */
  lemma AllAdvanced(triples: seq<Triple>, done: nat, rest: Iters, iters: Iters, next: seq<nat>, rest': Iters)
    requires Covers(triples, rest, iters, next) && TriplesSorted(triples) && triples != [] && done <= |triples|
    requires forall q :: 0 <= q < done ==> triples[q].index == triples[0].index
    requires done < |triples| ==> triples[done].index != triples[0].index
    requires Moved(rest', rest, triples, done)
    ensures rest' == Advance(rest, triples[0].index)
  {
    OrderFacts();
    var m := triples[0].index;
    forall k | 0 <= k < |rest| ensures rest'[k] == Advance(rest, m)[k] {
      if rest[k] != [] {
        var t :| t in triples && t.iter == k;
        var q :| 0 <= q < |triples| && triples[q] == t;
        assert TripleFor(t, rest[k], iters[k][next[k]..]);
        assert q < done <==> rest[k][0].index == m by {
          if done < |triples| && q >= done {
            assert TripleLess(triples[0], triples[done]);
            assert q == done || TripleLess(triples[done], triples[q]);
          }
        }
      }
    }
  }

  lemma FirstTriple(triples: seq<Triple>, rest: Iters, iters: Iters, next: seq<nat>)
    requires Covers(triples, rest, iters, next) && TriplesSorted(triples) && triples != []
    ensures Size(rest) > 0 && triples[0].index == LeastHead(rest)
    ensures FirstSome(Heads(rest, LeastHead(rest))) == Some(triples[0].path)
  {
    OrderFacts();
    var t := triples[0];
    assert TripleFor(t, rest[t.iter], iters[t.iter][next[t.iter]..]);
    forall k | 0 <= k < |rest| && rest[k] != []
      ensures AtMost(t.index, rest[k][0].index)
      ensures k < t.iter ==> rest[k][0].index != t.index
    {
      var u :| u in triples && u.iter == k;
      var q :| 0 <= q < |triples| && triples[q] == u;
      assert TripleFor(u, rest[k], iters[k][next[k]..]);
      assert q == 0 || TripleLess(t, u);
    }
    FirstSomeAt(Heads(rest, t.index), t.iter);
  }

  lemma {:induction false} FirstSomeAt(elems: seq<Option<ROPath>>, k: nat)
    requires k < |elems| && elems[k].Some? && forall l :: 0 <= l < k ==> elems[l].None?
    ensures FirstSome(elems) == elems[k]
  {
    if k > 0 { FirstSomeAt(elems[1..], k - 1); }
  }

  lemma CombinedStep(rest: Iters, yielded: seq<ROPath>, path: ROPath)
    requires Size(rest) > 0 && FirstSome(Heads(rest, LeastHead(rest))) == Some(path)
    ensures Size(Advance(rest, LeastHead(rest))) < Size(rest)
    ensures yielded + [path] + FilterMap(OuterJoin(Advance(rest, LeastHead(rest))), FirstElement())
         == yielded + FilterMap(OuterJoin(rest), FirstElement())
  {
    var m := LeastHead(rest);
    AdvanceSize(rest, m);
    var row := Row(m, Heads(rest, m));
    assert OuterJoin(rest) == [row] + OuterJoin(Advance(rest, m));
    assert FirstElement()(row) == Some(path);
  }

  /** The first triple of every iterator that has one. */
  method FirstTriples(iters: Iters) returns (triples: seq<Triple>, next: seq<nat>)
    ensures Covers(triples, iters, iters, next)
  {
    triples, next := [], seq(|iters|, _ => 0);
    for k := 0 to |iters|
      invariant |next| == |iters| && DistinctIters(triples)
      invariant forall j :: 0 <= j < |iters| ==> next[j] <= |iters[j]|
      invariant forall j :: k <= j < |iters| ==> next[j] == 0
      invariant forall t :: t in triples ==> t.iter < k && TripleFor(t, iters[t.iter], iters[t.iter][next[t.iter]..])
      invariant forall j :: 0 <= j < k && iters[j] != [] ==> exists t :: t in triples && t.iter == j
    {
      var t;
      t, next := GetTriple(iters, next, k);
      if t.Some? {
        assert TripleFor(t.value, iters[k], iters[k][1..]);
        assert t.value in triples + [t.value];
        triples := triples + [t.value];
      }
    }
  }

  /** diffdir.combine_path_iters. */
  method CombinePathIters(pathIterList: Iters) returns (yielded: seq<ROPath>)
    ensures yielded == Combined(pathIterList)
  {
    var iters := Reversed(pathIterList);
    var triples, next := FirstTriples(iters);
    ghost var rest := iters;
    ghost var all := Combined(pathIterList);
    yielded := [];
    while triples != []
      invariant Covers(triples, rest, iters, next)
      invariant yielded + FilterMap(OuterJoin(rest), FirstElement()) == all
      decreases Size(rest)
    {
      SortCovers(triples, rest, iters, next);
      triples := SortTriples(triples);
      FirstTriple(triples, rest, iters, next);
      CombinedStep(rest, yielded, triples[0].path);
      ghost var m := LeastHead(rest);
      yielded := yielded + [triples[0].path];
      triples, next := RefreshTripleList(triples, iters, next, rest);
      rest := Advance(rest, m);
    }
    assert Size(rest) == 0;
  }

  lemma SortCovers(triples: seq<Triple>, rest: Iters, iters: Iters, next: seq<nat>)
    requires Covers(triples, rest, iters, next) && triples != []
    ensures SortTriples(triples) != []
    ensures Covers(SortTriples(triples), rest, iters, next)
  {
    SortDistinct(triples);
    assert triples[0] in SortTriples(triples);
  }
}
