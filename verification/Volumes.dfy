/**
 * manifest.VolumeInfo: the span of indices in one volume, and when it holds something under a prefix of an index,
 * which is what a restore of a subtree asks for.
 */
module Volumes {
  import opened Indices
  import opened Paths

  datatype VolumeInfo = VolumeInfo(
    number: nat, startIndex: Index, startBlock: Option<int>, endIndex: Index, endBlock: Option<int>,
    hashes: map<Bytes, Bytes>)
  {
    predicate Covers(i: Index) {
      AtMost(startIndex, i) && AtMost(i, endIndex)
    }

    predicate Contains(prefix: Index, recursive: bool) {
      if recursive then AtMost(Take(startIndex, |prefix|), prefix) && AtMost(prefix, endIndex)
      else Covers(prefix)
    }
  }

  lemma ContainsCovered(v: VolumeInfo, prefix: Index, i: Index)
    requires prefix <= i && v.Covers(i)
    ensures v.Contains(prefix, true)
  {
    OrderFacts();
    TakeMonotone(v.startIndex, i, |prefix|);
    PrefixAtMost(prefix, i);
  }

  /** Where two indices already differ inside a cut, the whole indices are in the same order. */
  lemma {:induction false} TakeDecides(a: Index, p: Index)
    requires AtMost(Take(a, |p|), p)
    ensures p <= a || AtMost(a, p)
  {
    if a != [] && p != [] && a[0] == p[0] {
      BytesTotal(a[0], p[0]);
      assert Take(a, |p|) == [a[0]] + Take(a[1..], |p| - 1);
      assert Take(a, |p|)[1..] == Take(a[1..], |p| - 1);
      TakeDecides(a[1..], p[1..]);
      assert p[1..] <= a[1..] ==> p <= a;
      assert a == [a[0]] + a[1..] && p == [p[0]] + p[1..];
    }
  }

  /** contains is exact: it holds for the prefixes of the indices between start and end, and for no other. */
  lemma ContainsExact(v: VolumeInfo, prefix: Index)
    requires AtMost(v.startIndex, v.endIndex)
    ensures v.Contains(prefix, true) <==> exists i :: prefix <= i && v.Covers(i)
  {
    OrderFacts();
    if v.Contains(prefix, true) {
      TakeDecides(v.startIndex, prefix);
      if prefix <= v.startIndex {
        assert v.Covers(v.startIndex);
      } else {
        assert v.Covers(prefix);
      }
    }
    forall i | prefix <= i && v.Covers(i) ensures v.Contains(prefix, true) {
      ContainsCovered(v, prefix, i);
    }
  }
}
