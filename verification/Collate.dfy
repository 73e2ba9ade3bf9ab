/**
 * The outer join of sorted streams, which the collating loops of diffdir and patchdir compute: a row for each
 * index, with the element of every stream there.
 */
module Collate {
  import opened Indices
  import opened Paths

  /** One yielded tuple: the elements that share an index, None where an iterator has none. */
  datatype Row = Row(index: Index, elems: seq<Option<ROPath>>)

  type Iters = seq<seq<ROPath>>

  // ----- the full outer join

  function Size(iters: Iters): (n: nat)
    ensures n == 0 <==> forall k :: 0 <= k < |iters| ==> iters[k] == []
  {
    if iters == [] then 0 else |iters[0]| + Size(iters[1..])
  }

  /** min over the indices of the next elements. */
  function LeastHead(iters: Iters): (m: Index)
    requires Size(iters) > 0
    ensures exists k :: 0 <= k < |iters| && iters[k] != [] && iters[k][0].index == m
    ensures forall k :: 0 <= k < |iters| && iters[k] != [] ==> AtMost(m, iters[k][0].index)
  {
    OrderFacts();
    if iters[0] == [] then
      LeastHead(iters[1..])
    else if Size(iters[1..]) == 0 then
      iters[0][0].index
    else
      var m := LeastHead(iters[1..]);
      if Less(m, iters[0][0].index) then m else iters[0][0].index
  }

  predicate HasHead(s: seq<ROPath>, m: Index) {
    s != [] && s[0].index == m
  }

  function Heads(iters: Iters, m: Index): seq<Option<ROPath>> {
    seq(|iters|, k requires 0 <= k < |iters| => if HasHead(iters[k], m) then Some(iters[k][0]) else None)
  }

  function Advance(iters: Iters, m: Index): Iters {
    seq(|iters|, k requires 0 <= k < |iters| => if HasHead(iters[k], m) then iters[k][1..] else iters[k])
  }

  lemma {:induction false} AdvanceSize(iters: Iters, m: Index)
    ensures Size(Advance(iters, m)) <= Size(iters)
    ensures (exists k :: 0 <= k < |iters| && HasHead(iters[k], m)) ==> Size(Advance(iters, m)) < Size(iters)
  {
    if iters != [] {
      AdvanceSize(iters[1..], m);
      assert Advance(iters, m)[1..] == Advance(iters[1..], m);
      if k :| 0 <= k < |iters| && HasHead(iters[k], m) && k > 0 {
        assert HasHead(iters[1..][k - 1], m);
      }
    }
  }

  /** The rows of the join, taken by repeatedly removing the least index. */
  function OuterJoin(iters: Iters): seq<Row>
    decreases Size(iters)
  {
    if Size(iters) == 0 then []
    else
      var m := LeastHead(iters);
      AdvanceSize(iters, m);
      [Row(m, Heads(iters, m))] + OuterJoin(Advance(iters, m))
  }

  // ----- what the join contains

  ghost predicate AllSorted(iters: Iters) {
    forall k :: 0 <= k < |iters| ==> Sorted(iters[k])
  }

  /** The elements of a row share its index. */
  ghost predicate RowOk(row: Row) {
    forall k :: 0 <= k < |row.elems| && row.elems[k].Some? ==> row.elems[k].value.index == row.index
  }

  ghost predicate RowsSorted(rows: seq<Row>) {
    && (forall i, j :: 0 <= i < j < |rows| ==> Less(rows[i].index, rows[j].index))
    && (forall row :: row in rows ==> RowOk(row))
  }

  function LookupAll(iters: Iters, i: Index): seq<Option<ROPath>> {
    seq(|iters|, k requires 0 <= k < |iters| => Lookup(iters[k], i))
  }

  predicate Any(elems: seq<Option<ROPath>>) {
    exists k :: 0 <= k < |elems| && elems[k].Some?
  }

  function RowAt(rows: seq<Row>, i: Index): (r: Option<Row>)
    ensures r.Some? ==> r.value in rows && r.value.index == i
    ensures r.None? ==> forall row :: row in rows ==> row.index != i
  {
    if rows == [] then None
    else if rows[0].index == i then Some(rows[0])
    else RowAt(rows[1..], i)
  }

  lemma LookupBelow(s: seq<ROPath>, i: Index)
    requires Sorted(s) && s != [] && Less(i, s[0].index)
    ensures Lookup(s, i).None?
  {
    OrderFacts();
  }

  lemma HeadsAreLookups(iters: Iters)
    requires AllSorted(iters) && Size(iters) > 0
    ensures var m := LeastHead(iters); Heads(iters, m) == LookupAll(iters, m)
  {
    var m := LeastHead(iters);
    forall k | 0 <= k < |iters| ensures Heads(iters, m)[k] == LookupAll(iters, m)[k] {
      if iters[k] != [] && Less(m, iters[k][0].index) {
        LookupBelow(iters[k], m);
      }
    }
  }

  lemma AdvanceLookups(iters: Iters, m: Index, i: Index)
    requires AllSorted(iters)
    ensures AllSorted(Advance(iters, m))
    ensures i != m ==> LookupAll(Advance(iters, m), i) == LookupAll(iters, i)
    ensures i == m && Size(iters) > 0 && m == LeastHead(iters) ==> !Any(LookupAll(Advance(iters, m), i))
  {
    OrderFacts();
    forall k | 0 <= k < |iters| && iters[k] != []
      ensures HasHead(iters[k], m) ==> Lookup(iters[k][1..], m).None?
      ensures Less(m, iters[k][0].index) ==> Lookup(iters[k], m).None?
    {
      if Less(m, iters[k][0].index) { LookupBelow(iters[k], m); }
    }
  }

  /**
   * Over sorted streams the join is strictly increasing and has exactly one row for each index
   * of the union, holding what every stream has there.
   */
  lemma {:induction false} OuterJoinIsOuterJoin(iters: Iters, i: Index)
    requires AllSorted(iters)
    ensures RowAt(OuterJoin(iters), i) ==
            if Any(LookupAll(iters, i)) then Some(Row(i, LookupAll(iters, i))) else None
    decreases Size(iters)
  {
    if Size(iters) == 0 {
      assert forall k :: 0 <= k < |iters| ==> LookupAll(iters, i)[k].None?;
    } else {
      var m := LeastHead(iters);
      AdvanceSize(iters, m);
      AdvanceLookups(iters, m, i);
      OuterJoinIsOuterJoin(Advance(iters, m), i);
      HeadsAreLookups(iters);
      if i == m {
        var k :| 0 <= k < |iters| && iters[k] != [] && iters[k][0].index == m;
        assert Heads(iters, m)[k].Some?;
      }
    }
  }

  lemma {:induction false} OuterJoinSorted(iters: Iters)
    requires AllSorted(iters)
    ensures RowsSorted(OuterJoin(iters))
    decreases Size(iters)
  {
    if Size(iters) > 0 {
      var m := LeastHead(iters);
      AdvanceSize(iters, m);
      AdvanceLookups(iters, m, m);
      OuterJoinSorted(Advance(iters, m));
      assert RowOk(Row(m, Heads(iters, m)));
      forall row | row in OuterJoin(Advance(iters, m)) ensures Less(m, row.index) {
        LaterRow(iters, row);
      }
      RowsSortedCons(Row(m, Heads(iters, m)), OuterJoin(Advance(iters, m)));
    }
  }

  lemma RowsSortedCons(row: Row, rows: seq<Row>)
    requires RowOk(row) && RowsSorted(rows) && forall r :: r in rows ==> Less(row.index, r.index)
    ensures RowsSorted([row] + rows)
  {
  }

  lemma LaterRow(iters: Iters, row: Row)
    requires AllSorted(iters) && Size(iters) > 0 && row in OuterJoin(Advance(iters, LeastHead(iters)))
    ensures Less(LeastHead(iters), row.index)
  {
    hide OuterJoin;
    var m := LeastHead(iters);
    var rest := Advance(iters, m);
    AdvanceLookups(iters, m, row.index);
    OuterJoinIsOuterJoin(rest, row.index);
    var k :| 0 <= k < |rest| && LookupAll(rest, row.index)[k].Some?;
    OrderFacts();
    assert LookupAll(iters, row.index)[k].Some?;
    if Less(row.index, iters[k][0].index) { LookupBelow(iters[k], row.index); }
  }

  // ----- transforming the rows of a join

  /** Runs f over the rows and keeps what it yields. */
  function FilterMap(rows: seq<Row>, f: Row -> Option<ROPath>): seq<ROPath> {
    if rows == [] then []
    else (if f(rows[0]).Some? then [f(rows[0]).value] else []) + FilterMap(rows[1..], f)
  }

  ghost predicate KeepsIndex(f: Row -> Option<ROPath>) {
    forall row :: RowOk(row) && f(row).Some? ==> f(row).value.index == row.index
  }

  lemma LookupCons(p: ROPath, s: seq<ROPath>, i: Index)
    ensures Lookup([p] + s, i) == if p.index == i then Some(p) else Lookup(s, i)
  {
    assert ([p] + s)[1..] == s;
  }

  lemma RowsDistinct(rows: seq<Row>, i: Index)
    requires RowsSorted(rows) && rows != []
    ensures rows[0].index == i ==> RowAt(rows[1..], i).None?
  {
    Total(i, i);
  }

  lemma {:induction false} FilterMapLookup(rows: seq<Row>, f: Row -> Option<ROPath>, i: Index)
    requires RowsSorted(rows) && KeepsIndex(f)
    ensures Lookup(FilterMap(rows, f), i) == if RowAt(rows, i).Some? then f(RowAt(rows, i).value) else None
  {
    if rows != [] {
      var first, rest := f(rows[0]), FilterMap(rows[1..], f);
      assert RowOk(rows[0]) && RowsSorted(rows[1..]);
      FilterMapLookup(rows[1..], f, i);
      RowsDistinct(rows, i);
      if first.Some? {
        LookupCons(first.value, rest, i);
        assert FilterMap(rows, f) == [first.value] + rest;
      } else {
        assert FilterMap(rows, f) == rest;
      }
    }
  }

  lemma {:induction false} FilterMapSorted(rows: seq<Row>, f: Row -> Option<ROPath>)
    requires RowsSorted(rows) && KeepsIndex(f)
    ensures Sorted(FilterMap(rows, f))
    ensures forall p :: p in FilterMap(rows, f) ==> exists row :: row in rows && f(row) == Some(p)
  {
    if rows != [] {
      FilterMapSorted(rows[1..], f);
      forall p | p in FilterMap(rows[1..], f) ensures Less(rows[0].index, p.index) {
        var row :| row in rows[1..] && f(row) == Some(p);
      }
      forall p | p in FilterMap(rows[1..], f) ensures exists row :: row in rows && f(row) == Some(p) {
        var row :| row in rows[1..] && f(row) == Some(p);
        assert row in rows;
      }
    }
  }

  lemma {:induction false} FilterMapAppend(rows: seq<Row>, row: Row, f: Row -> Option<ROPath>)
    ensures FilterMap(rows + [row], f) == FilterMap(rows, f) + if f(row).Some? then [f(row).value] else []
  {
    if rows == [] {
      assert rows + [row] == [row];
    } else {
      assert (rows + [row])[1..] == rows[1..] + [row];
      FilterMapAppend(rows[1..], row, f);
      Assoc(if f(rows[0]).Some? then [f(rows[0]).value] else [], FilterMap(rows[1..], f),
            if f(row).Some? then [f(row).value] else []);
    }
  }
}
