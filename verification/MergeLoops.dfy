/** The merging generators as loops, each proved to yield the rows of the join. */
module MergeLoops {
  import opened Indices
  import opened Paths
  import opened Collate

  /** The join of a[i..] and b[j..], by comparing their first elements. */
  function Merge(a: seq<ROPath>, i: nat, b: seq<ROPath>, j: nat): seq<Row>
    requires i <= |a| && j <= |b|
    decreases |a| - i + |b| - j
  {
    if i == |a| && j == |b| then []
    else if j == |b| || (i < |a| && Less(a[i].index, b[j].index)) then
      [Row(a[i].index, [Some(a[i]), None])] + Merge(a, i + 1, b, j)
    else if i == |a| || a[i].index != b[j].index then
      [Row(b[j].index, [None, Some(b[j])])] + Merge(a, i, b, j + 1)
    else
      [Row(a[i].index, [Some(a[i]), Some(b[j])])] + Merge(a, i + 1, b, j + 1)
  }

  lemma {:induction false} MergeIsOuterJoin(a: seq<ROPath>, i: nat, b: seq<ROPath>, j: nat)
    requires i <= |a| && j <= |b|
    ensures Merge(a, i, b, j) == OuterJoin([a[i..], b[j..]])
    decreases |a| - i + |b| - j
  {
    var iters := [a[i..], b[j..]];
    assert iters[0] == a[i..] && iters[1] == b[j..];
    if Size(iters) > 0 {
      var m := LeastHead(iters);
      var heads, rest := Heads(iters, m), Advance(iters, m);
      assert heads == [heads[0], heads[1]];
      assert rest == [rest[0], rest[1]];
      if i < |a| && j < |b| { Total(a[i].index, b[j].index); }
      MergeIsOuterJoin(a, if rest[0] == a[i..] then i else i + 1, b, if rest[1] == b[j..] then j else j + 1);
    }
  }

  /** What the next comparison adds to the rows already yielded. */
  lemma MergeStep(a: seq<ROPath>, i: nat, b: seq<ROPath>, j: nat, rows: seq<Row>)
    requires i <= |a| && j <= |b|
    ensures i < |a| && (j == |b| || Less(a[i].index, b[j].index)) ==>
      rows + [Row(a[i].index, [Some(a[i]), None])] + Merge(a, i + 1, b, j) == rows + Merge(a, i, b, j)
    ensures j < |b| && (i == |a| || (a[i].index != b[j].index && !Less(a[i].index, b[j].index))) ==>
      rows + [Row(b[j].index, [None, Some(b[j])])] + Merge(a, i, b, j + 1) == rows + Merge(a, i, b, j)
    ensures i < |a| && j < |b| && a[i].index == b[j].index ==>
      rows + [Row(a[i].index, [Some(a[i]), Some(b[j])])] + Merge(a, i + 1, b, j + 1) == rows + Merge(a, i, b, j)
  {
    if i < |a| && j < |b| { Total(a[i].index, b[j].index); }
  }

  /** for relem in riter: yield (relem, None), or the mirror image. */
  method Drain(riter: seq<ROPath>, next: nat, other: seq<ROPath>, first: bool, yielded: seq<Row>)
    returns (rows: seq<Row>)
    requires next <= |riter|
    ensures first ==> rows == yielded + Merge(riter, next, other, |other|)
    ensures !first ==> rows == yielded + Merge(other, |other|, riter, next)
  {
    rows := yielded;
    var n := next;
    while n < |riter|
      invariant next <= n <= |riter|
      invariant first ==>
        rows + Merge(riter, n, other, |other|) == yielded + Merge(riter, next, other, |other|)
      invariant !first ==>
        rows + Merge(other, |other|, riter, n) == yielded + Merge(other, |other|, riter, next)
    {
      var relem := riter[n];
      rows := rows + [Row(relem.index, if first then [Some(relem), None] else [None, Some(relem)])];
      n := n + 1;
    }
  }

  /** diffdir.collate2iters: the yielded pairs are the rows. */
  method Collate2Iters(riter1: seq<ROPath>, riter2: seq<ROPath>) returns (rows: seq<Row>)
    ensures rows == OuterJoin([riter1, riter2])
  {
    ghost var all := OuterJoin([riter1, riter2]);
    assert Merge(riter1, 0, riter2, 0) == all by {
      MergeIsOuterJoin(riter1, 0, riter2, 0);
      assert riter1[0..] == riter1 && riter2[0..] == riter2;
    }
    rows := [];
    var relem1: Option<ROPath>, relem2: Option<ROPath> := None, None;
    var next1, next2 := 0, 0;
    ghost var i, j := 0, 0;  // the elements used up by the rows so far
    while true
      invariant i <= next1 <= |riter1| && j <= next2 <= |riter2|
      invariant if relem1.Some? then next1 == i + 1 && relem1 == Some(riter1[i]) else next1 == i
      invariant if relem2.Some? then next2 == j + 1 && relem2 == Some(riter2[j]) else next2 == j
      invariant rows + Merge(riter1, i, riter2, j) == all
      decreases |riter1| - i + |riter2| - j
    {
      MergeStep(riter1, i, riter2, j, rows);
      if relem1.None? {
        if next1 == |riter1| {
          if relem2.Some? {
            rows := rows + [Row(relem2.value.index, [None, relem2])];
          }
          rows := Drain(riter2, next2, riter1, false, rows);
          return;
        }
        relem1 := Some(riter1[next1]);
        next1 := next1 + 1;
      }
      if relem2.None? {
        if next2 == |riter2| {
          rows := rows + [Row(relem1.value.index, [relem1, None])];
          rows := Drain(riter1, next1, riter2, true, rows);
          return;
        }
        relem2 := Some(riter2[next2]);
        next2 := next2 + 1;
      }
      var index1, index2 := relem1.value.index, relem2.value.index;
      if Less(index1, index2) {
        rows := rows + [Row(index1, [relem1, None])];
        relem1 := None;
        i := i + 1;
      } else if index1 == index2 {
        rows := rows + [Row(index1, [relem1, relem2])];
        relem1, relem2 := None, None;
        i, j := i + 1, j + 1;
      } else {
        rows := rows + [Row(index2, [None, relem2])];
        relem2 := None;
        j := j + 1;
      }
    }
  }

  // ----- collate_iters

  /** What iterator k still has to contribute: its held-back element and its unread part. */
  ghost predicate Holds(rest: seq<ROPath>, elem: Option<ROPath>, unread: seq<ROPath>) {
    rest == if elem.Some? then [elem.value] + unread else unread
  }

  ghost predicate Tracks(
    rest: Iters, iterList: Iters, next: seq<nat>, elems: seq<Option<ROPath>>, overflow: seq<bool>)
  {
    |iterList| == |next| == |elems| == |overflow| == |rest| &&
    forall k :: 0 <= k < |rest| ==>
      next[k] <= |iterList[k]| &&
      Holds(rest[k], elems[k], iterList[k][next[k]..]) &&
      (overflow[k] ==> rest[k] == [])
  }

  /** setrorps: refill the empty places. */
  method SetRorps(
      ghost rest: Iters, iterList: Iters,
      next0: seq<nat>, elems0: seq<Option<ROPath>>, overflow0: seq<bool>)
    returns (next: seq<nat>, elems: seq<Option<ROPath>>, overflow: seq<bool>)
    requires Tracks(rest, iterList, next0, elems0, overflow0)
    ensures Tracks(rest, iterList, next, elems, overflow)
    ensures forall k :: 0 <= k < |rest| ==> (overflow[k] <==> rest[k] == []) && (overflow[k] <==> elems[k].None?)
  {
    next, elems, overflow := next0, elems0, overflow0;
    for i := 0 to |iterList|
      invariant Tracks(rest, iterList, next, elems, overflow)
      invariant forall k :: 0 <= k < i ==> (overflow[k] <==> rest[k] == []) && (overflow[k] <==> elems[k].None?)
    {
      if !overflow[i] && elems[i].None? {
        if next[i] < |iterList[i]| {
          assert iterList[i][next[i]..] == [iterList[i][next[i]]] + iterList[i][next[i] + 1..];
          elems := elems[i := Some(iterList[i][next[i]])];
          next := next[i := next[i] + 1];
        } else {
          overflow := overflow[i := true];
        }
      }
    }
  }

  /** getleastindex: the least index among the held elements. */
  method GetLeastIndex(ghost rest: Iters, elems: seq<Option<ROPath>>) returns (index: Index)
    requires |elems| == |rest| && Size(rest) > 0
    requires forall k :: 0 <= k < |rest| ==> if elems[k].Some? then rest[k] != [] && rest[k][0] == elems[k].value
                                                               else rest[k] == []
    ensures index == LeastHead(rest)
  {
    OrderFacts();
    var least: Option<Index> := None;
    for i := 0 to |elems|
      invariant least.None? ==> forall k :: 0 <= k < i ==> elems[k].None?
      invariant least.Some? ==> exists k :: 0 <= k < i && elems[k].Some? && elems[k].value.index == least.value
      invariant least.Some? ==> forall k :: 0 <= k < i && elems[k].Some? ==> AtMost(least.value, elems[k].value.index)
    {
      if elems[i].Some? && (least.None? || Less(elems[i].value.index, least.value)) {
        least := Some(elems[i].value.index);
      }
    }
    index := least.value;
  }

  /** Builds the tuple of the elements at index and empties their places. */
  method YieldAt(
      ghost rest: Iters, ghost iterList: Iters, ghost next: seq<nat>,
      held: seq<Option<ROPath>>, ghost overflow: seq<bool>, index: Index)
    returns (yieldval: seq<Option<ROPath>>, elems: seq<Option<ROPath>>)
    requires Tracks(rest, iterList, next, held, overflow)
    requires forall k :: 0 <= k < |rest| ==> (held[k].None? <==> rest[k] == [])
    ensures yieldval == Heads(rest, index)
    ensures Tracks(Advance(rest, index), iterList, next, elems, overflow)
  {
    yieldval, elems := [], held;
    for i := 0 to |held|
      invariant |elems| == |held| && |yieldval| == i
      invariant forall k :: i <= k < |held| ==> elems[k] == held[k]
      invariant forall k :: 0 <= k < i ==>
        yieldval[k] == (if HasHead(rest[k], index) then held[k] else None) &&
        elems[k] == (if HasHead(rest[k], index) then None else held[k])
    {
      assert Holds(rest[i], held[i], iterList[i][next[i]..]);
      if elems[i].Some? && elems[i].value.index == index {
        yieldval := yieldval + [elems[i]];
        elems := elems[i := None];
      } else {
        yieldval := yieldval + [None];
      }
    }
  }

  lemma JoinStep(iters: Iters, rows: seq<Row>)
    requires Size(iters) > 0
    ensures var m := LeastHead(iters);
      Size(Advance(iters, m)) < Size(iters) &&
      rows + [Row(m, Heads(iters, m))] + OuterJoin(Advance(iters, m)) == rows + OuterJoin(iters)
  {
    AdvanceSize(iters, LeastHead(iters));
  }

  /** patchdir.collate_iters. */
  method CollateIters(iterList: Iters) returns (rows: seq<Row>)
    ensures rows == OuterJoin(iterList)
  {
    if |iterList| == 2 {
      rows := Collate2Iters(iterList[0], iterList[1]);
      assert iterList == [iterList[0], iterList[1]];
    } else {
      rows := YieldTuples(iterList);
    }
  }

  /** One round of yield_tuples: the next tuple, or None once every iterator has overflowed. */
  method NextTuple(
      ghost rest: Iters, iterList: Iters,
      next0: seq<nat>, elems0: seq<Option<ROPath>>, overflow0: seq<bool>)
    returns (row: Option<Row>, next: seq<nat>, elems: seq<Option<ROPath>>, overflow: seq<bool>)
    requires Tracks(rest, iterList, next0, elems0, overflow0)
    ensures row.None? ==> Size(rest) == 0
    ensures row.Some? ==> Size(rest) > 0 && row.value == Row(LeastHead(rest), Heads(rest, LeastHead(rest)))
    ensures row.Some? ==> Tracks(Advance(rest, LeastHead(rest)), iterList, next, elems, overflow)
  {
    next, elems, overflow := SetRorps(rest, iterList, next0, elems0, overflow0);
    if forall k :: 0 <= k < |iterList| ==> overflow[k] {
      return None, next, elems, overflow;
    }
    var index := GetLeastIndex(rest, elems);
    var yieldval;
    yieldval, elems := YieldAt(rest, iterList, next, elems, overflow, index);
    row := Some(Row(index, yieldval));
  }

  /** yield_tuples: the general loop, for any number of iterators. */
  method YieldTuples(iterList: Iters) returns (rows: seq<Row>)
    ensures rows == OuterJoin(iterList)
  {
    ghost var all := OuterJoin(iterList);
    var overflow := seq(|iterList|, _ => false);
    var elems: seq<Option<ROPath>> := seq(|iterList|, _ => None);
    var next: seq<nat> := seq(|iterList|, _ => 0);
    ghost var rest := iterList;
    rows := [];
    while true
      invariant Tracks(rest, iterList, next, elems, overflow)
      invariant rows + OuterJoin(rest) == all
      decreases Size(rest)
    {
      var row;
      row, next, elems, overflow := NextTuple(rest, iterList, next, elems, overflow);
      if row.None? {
        return;
      }
      JoinStep(rest, rows);
      rows := rows + [row.value];
      rest := Advance(rest, row.value.index);
    }
  }
}
