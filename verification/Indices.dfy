/**
 * Path indices: tuples of byte-string components under Python's tuple order, in which a directory comes before
 * everything under it.
 */
module Indices {

  type Bytes = string
  type Component = Bytes
  type Index = seq<Component>

  predicate BytesLess(a: Bytes, b: Bytes) {
    b != [] && (a == [] || a[0] < b[0] || (a[0] == b[0] && BytesLess(a[1..], b[1..])))
  }

  /** Strict lexicographic order on indices. */
  predicate Less(a: Index, b: Index) {
    b != [] && (a == [] || BytesLess(a[0], b[0]) || (a[0] == b[0] && Less(a[1..], b[1..])))
  }

  predicate AtMost(a: Index, b: Index) {
    a == b || Less(a, b)
  }

  lemma {:induction false} BytesTotal(a: Bytes, b: Bytes)
    ensures (BytesLess(a, b) && a != b && !BytesLess(b, a))
         || (BytesLess(b, a) && a != b && !BytesLess(a, b))
         || (a == b && !BytesLess(a, b))
  {
    if a != [] && b != [] {
      BytesTotal(a[1..], b[1..]);
      assert a[0] == b[0] && a[1..] == b[1..] ==> a == [a[0]] + a[1..] == b;
    }
  }

  lemma {:induction false} BytesTransitive(a: Bytes, b: Bytes, c: Bytes)
    requires BytesLess(a, b) && BytesLess(b, c)
    ensures BytesLess(a, c)
  {
    if a != [] && a[0] == b[0] == c[0] {
      BytesTransitive(a[1..], b[1..], c[1..]);
    }
  }

  /** Exactly one of a < b, a == b and b < a holds. */
  lemma {:induction false} Total(a: Index, b: Index)
    ensures (Less(a, b) && a != b && !Less(b, a))
         || (Less(b, a) && a != b && !Less(a, b))
         || (a == b && !Less(a, b))
  {
    if a != [] && b != [] {
      BytesTotal(a[0], b[0]);
      Total(a[1..], b[1..]);
      assert a[0] == b[0] && a[1..] == b[1..] ==> a == [a[0]] + a[1..] == b;
    }
  }

  lemma {:induction false} Transitive(a: Index, b: Index, c: Index)
    requires Less(a, b) && Less(b, c)
    ensures Less(a, c)
  {
    if a != [] {
      BytesTotal(a[0], b[0]);
      BytesTotal(b[0], c[0]);
      if a[0] == b[0] == c[0] {
        Transitive(a[1..], b[1..], c[1..]);
      } else if BytesLess(a[0], b[0]) && BytesLess(b[0], c[0]) {
        BytesTransitive(a[0], b[0], c[0]);
      }
    }
  }

  /** The order facts in quantified form, for use inside a proof. */
  lemma OrderFacts()
    ensures forall a: Index, b: Index :: Less(a, b) ==> a != b && !Less(b, a)
    ensures forall a: Index, b: Index :: Less(a, b) || a == b || Less(b, a)
    ensures forall a: Index, b: Index, c: Index {:trigger Less(a, b), Less(b, c)} ::
              Less(a, b) && Less(b, c) ==> Less(a, c)
  {
    forall a: Index, b: Index {
      Total(a, b);
    }
    forall a: Index, b: Index, c: Index | Less(a, b) && Less(b, c) {
      Transitive(a, b, c);
    }
  }

  /** A directory precedes everything under it. */
  lemma {:induction false} PrefixAtMost(p: Index, x: Index)
    requires p <= x
    ensures AtMost(p, x)
  {
    if p != [] {
      PrefixAtMost(p[1..], x[1..]);
      assert p == [p[0]] + p[1..] && x == [x[0]] + x[1..];
    }
  }

  /** The indices under a directory form an interval of the order. */
  lemma {:induction false} PrefixInterval(p: Index, x: Index, y: Index, z: Index)
    requires p <= x && p <= z && AtMost(x, y) && AtMost(y, z)
    ensures p <= y
  {
    if p != [] {
      OrderFacts();
      if y == x || y == z { return; }
      BytesTotal(x[0], y[0]);
      assert y[0] == p[0];
      assert AtMost(x[1..], y[1..]) && AtMost(y[1..], z[1..]);
      PrefixInterval(p[1..], x[1..], y[1..], z[1..]);
      assert p == [p[0]] + p[1..] && y == [y[0]] + y[1..];
    }
  }

  /** Byte strings compare by the first byte in which they differ; a proper prefix is less. */
  lemma {:induction false} FirstByteDecides(p: Bytes, c: char, d: char, a: Bytes, b: Bytes)
    requires c != d
    ensures BytesLess(p + [c] + a, p + [d] + b) <==> c < d
    ensures BytesLess(p, p + [c] + a)
  {
    if p != [] {
      var x, y := p + [c] + a, p + [d] + b;
      assert x[1..] == p[1..] + [c] + a && y[1..] == p[1..] + [d] + b;
      FirstByteDecides(p[1..], c, d, a, b);
    }
  }

  /** Indices compare by the first component in which they differ. */
  lemma {:induction false} FirstComponentDecides(p: Index, c: Component, d: Component, a: Index, b: Index)
    requires c != d
    ensures Less(p + [c] + a, p + [d] + b) <==> BytesLess(c, d)
  {
    if p != [] {
      var x, y := p + [c] + a, p + [d] + b;
      assert x[1..] == p[1..] + [c] + a && y[1..] == p[1..] + [d] + b;
      FirstComponentDecides(p[1..], c, d, a, b);
      BytesTotal(p[0], p[0]);
    }
  }

  /** Cutting both sides to the same length keeps the order. */
  lemma {:induction false} TakeMonotone(a: Index, b: Index, n: nat)
    requires AtMost(a, b)
    ensures AtMost(Take(a, n), Take(b, n))
  {
    if n > 0 && a != b && a != [] && a[0] == b[0] {
      BytesTotal(a[0], b[0]);
      TakeMonotone(a[1..], b[1..], n - 1);
      assert Take(a, n) == [a[0]] + Take(a[1..], n - 1);
      assert Take(b, n) == [b[0]] + Take(b[1..], n - 1);
      assert Take(a, n)[1..] == Take(a[1..], n - 1) && Take(b, n)[1..] == Take(b[1..], n - 1);
    }
  }

  /** Python's index[:n]. */
  function Take(a: Index, n: nat): (r: Index)
    ensures r <= a && |r| <= n
  {
    if n <= |a| then a[..n] else a
  }

  lemma Assoc<T>(a: seq<T>, b: seq<T>, c: seq<T>)
    ensures (a + b) + c == a + (b + c)
  {
  }
}
