/** lazy.Iter.multiplex and its two-fork special case: one source read by several forks. */
module Multiplex {
  import opened Indices
  import opened Paths

  // ----- what a fork is for

  /** The answer to a fork that has had this many elements; None is StopIteration. */
  function Served<T>(source: seq<T>, had: nat): Option<T> {
    if had < |source| then Some(source[had]) else None
  }

  function After(had: seq<nat>, fork: nat, limit: nat): (r: seq<nat>)
    requires fork < |had|
    ensures |r| == |had|
  {
    if had[fork] < limit then had[fork := had[fork] + 1] else had
  }

  /** The answers to a schedule of calls. */
  function Answers<T>(source: seq<T>, had: seq<nat>, schedule: seq<nat>): (r: seq<Option<T>>)
    requires forall f :: f in schedule ==> f < |had|
    ensures |r| == |schedule|
    decreases |schedule|
  {
    if schedule == [] then []
    else
      var fork := schedule[0];
      assert fork in schedule && forall f :: f in schedule[1..] ==> f in schedule;
      [Served(source, had[fork])] + Answers(source, After(had, fork, |source|), schedule[1..])
  }

  /** What one fork got out of all the answers. */
  function Got<T>(schedule: seq<nat>, answers: seq<Option<T>>, fork: nat): seq<T>
    requires |schedule| == |answers|
    decreases |schedule|
  {
    if schedule == [] then []
    else
      (if schedule[0] == fork && answers[0].Some? then [answers[0].value] else []) +
      Got(schedule[1..], answers[1..], fork)
  }

  function Calls(schedule: seq<nat>, fork: nat): nat {
    if schedule == [] then 0 else (if schedule[0] == fork then 1 else 0) + Calls(schedule[1..], fork)
  }

  function Min(a: nat, b: nat): nat {
    if a < b then a else b
  }

  lemma GotStep<T>(source: seq<T>, had: seq<nat>, schedule: seq<nat>, fork: nat)
    requires schedule != [] && (forall f :: f in schedule ==> f < |had|) && fork < |had|
    ensures schedule[0] < |had| && (forall f :: f in schedule[1..] ==> f < |had|)
    ensures var had', first := After(had, schedule[0], |source|), Served(source, had[schedule[0]]);
      Got(schedule, Answers(source, had, schedule), fork) ==
      (if schedule[0] == fork && first.Some? then [first.value] else []) +
      Got(schedule[1..], Answers(source, had', schedule[1..]), fork)
  {
    assert schedule[0] in schedule && forall f :: f in schedule[1..] ==> f in schedule;
    var had' := After(had, schedule[0], |source|);
    assert Answers(source, had, schedule)[1..] == Answers(source, had', schedule[1..]);
  }

  /** Under every interleaving each fork yields the source in order, as far as it asks. */
  lemma {:induction false} EachForkYieldsTheSource<T>(source: seq<T>, had: seq<nat>, schedule: seq<nat>, fork: nat)
    requires forall f :: f in schedule ==> f < |had|
    requires fork < |had| && had[fork] <= |source|
    ensures Got(schedule, Answers(source, had, schedule), fork) ==
            source[had[fork]..Min(had[fork] + Calls(schedule, fork), |source|)]
    decreases |schedule|
  {
    if schedule != [] {
      GotStep(source, had, schedule, fork);
      var had', mine, later := After(had, schedule[0], |source|), schedule[0] == fork, Calls(schedule[1..], fork);
      var first, rest := Served(source, had[fork]), Got(schedule[1..], Answers(source, had', schedule[1..]), fork);
      assert had'[fork] == if mine && had[fork] < |source| then had[fork] + 1 else had[fork];
      assert Calls(schedule, fork) == (if mine then 1 else 0) + later;
      assert Got(schedule, Answers(source, had, schedule), fork) ==
             (if mine && first.Some? then [first.value] else []) + rest;
      hide *;
      EachForkYieldsTheSource(source, had', schedule[1..], fork);
    }
  }

  // ----- Iter.multiplex

  class Forks<T(==)> {
    ghost const source: seq<T>
    /** How many elements each fork has had. */
    ghost var had: seq<nat>

    /** What the source iterator has not given yet. */
    var iter: seq<T>
    var buffer: seq<T>
    var forkposition: seq<int>
    /** The arguments of final_func so far. */
    var finals: seq<T>

    ghost function Taken(): int
      reads this
    {
      |source| - |iter|
    }

    /** The buffer lies between the finished elements and the source iterator, newest first. */
    ghost predicate Aligned()
      reads this
    {
      && 0 <= Taken() && iter == source[Taken()..]
      && |finals| <= Taken() && finals == source[..|finals|]
      && |buffer| == Taken() - |finals|
      && (forall p :: 0 <= p < |buffer| ==> buffer[p] == source[Taken() - 1 - p])
    }

    ghost predicate Valid()
      reads this
    {
      && Aligned()
      && Placed(forkposition, had, |finals|, Taken())
      && (had != [] ==> |finals| in had)
    }

    constructor (source: seq<T>, numOfForks: nat)
      ensures Valid() && this.source == source && finals == [] && had == seq(numOfForks, _ => 0)
    {
      this.source := source;
      iter, buffer, finals := source, [], [];
      forkposition := seq(numOfForks, _ => -1);
      had := seq(numOfForks, _ => 0);
      new;
      assert numOfForks > 0 ==> had[0] == 0;
    }

    /** The element the slowest fork waits for. */
    ghost predicate Behind(limit: nat)
      reads this
    {
      (forall h :: h in had ==> limit <= h) && (had != [] ==> limit in had)
    }

    /** The insertion at the front of the buffer, which moves every position. */
    method Insert()
      requires Valid() && iter != []
      modifies this`iter, this`buffer, this`forkposition
      ensures Valid() && Taken() == old(Taken()) + 1
    {
      buffer := [iter[0]] + buffer;
      iter := iter[1..];
      var i := 0;
      while i < |forkposition|
        invariant i <= |forkposition| == |had|
        invariant forall k :: 0 <= k < |had| ==>
          forkposition[k] == Taken() - 1 - had[k] - (if k < i then 0 else 1)
        modifies this`forkposition
      {
        forkposition := forkposition[i := forkposition[i] + 1];
        i := i + 1;
      }
    }

    /** After a fork has moved on: the last buffer element goes when no fork is left at it. */
    method Trim(forkNum: nat)
      requires Aligned() && Placed(forkposition, had, |finals|, Taken()) && forkNum < |had|
      requires |finals| in had || MovedOn(had, forkNum, |finals|)
      modifies this`buffer, this`finals
      ensures Valid() && old(finals) <= finals && Behind(|finals|) && finals == source[..|finals|]
    {
      var blen := |buffer|;
      ghost var done := |finals|;
      if blen - 1 !in forkposition {
        assert forkposition[forkNum] == blen - 2;
        finals := finals + [buffer[blen - 1]];
        buffer := buffer[..blen - 1];
        assert had[forkNum] == done + 1;
      }
    }

    /** The element at the fork's position, and the fork moves on. */
    method FromBuffer(forkNum: nat) returns (value: T)
      requires Valid() && forkNum < |had| && had[forkNum] < Taken()
      modifies this`had, this`buffer, this`forkposition, this`finals
      ensures Valid() && value == source[old(had[forkNum])]
      ensures had == old(had[forkNum := had[forkNum] + 1])
      ensures old(finals) <= finals && Behind(|finals|) && finals == source[..|finals|]
    {
      value := buffer[forkposition[forkNum]];
      forkposition := forkposition[forkNum := forkposition[forkNum] - 1];
      OneMoves(had, forkNum, |finals|);
      had := had[forkNum := had[forkNum] + 1];
      Trim(forkNum);
    }

    method GetNext(forkNum: nat) returns (r: Option<T>)
      requires Valid() && forkNum < |had|
      modifies this
      ensures Valid() && r == Served(source, old(had[forkNum]))
      ensures had == After(old(had), forkNum, |source|)
      ensures old(finals) <= finals && Behind(|finals|) && finals == source[..|finals|]
    {
      if forkposition[forkNum] == -1 {
        if iter == [] {
          return None;
        }
        Insert();
      }
      var value := FromBuffer(forkNum);
      r := Some(value);
    }
  }

  /** Every fork is at its place, with the finished elements behind it. */
  ghost predicate Placed(forkposition: seq<int>, had: seq<nat>, done: nat, taken: int) {
    |forkposition| == |had| &&
    forall i :: 0 <= i < |had| ==> done <= had[i] <= taken && forkposition[i] == taken - 1 - had[i]
  }

  ghost predicate MovedOn(had: seq<nat>, fork: nat, done: nat) {
    fork < |had| && had[fork] == done + 1 && forall i :: 0 <= i < |had| && i != fork ==> done < had[i]
  }

  lemma OneMoves(had: seq<nat>, fork: nat, done: nat)
    requires fork < |had| && done in had && forall i :: 0 <= i < |had| ==> done <= had[i]
    ensures var after := had[fork := had[fork] + 1]; done in after || MovedOn(after, fork, done)
  {
    var after := had[fork := had[fork] + 1];
    if done !in after {
      forall i | 0 <= i < |had| && i != fork ensures done < had[i] {
        assert after[i] in after;
      }
    }
  }

  // ----- IterMultiplex2

  class IterMultiplex2<T> {
    ghost const source: seq<T>
    ghost var hadA: nat
    ghost var hadB: nat

    var iter: seq<T>
    var aLeadingBy: int
    var buffer: seq<T>

    ghost predicate Valid()
      reads this
    {
      var ahead := if hadA > hadB then hadA else hadB;
      && hadA <= |source| && hadB <= |source|
      && aLeadingBy == hadA - hadB
      && iter == source[ahead..]
      && buffer == source[Min(hadA, hadB)..ahead]
    }

    constructor (source: seq<T>)
      ensures Valid() && this.source == source && hadA == hadB == 0
    {
      this.source := source;
      iter, aLeadingBy, buffer := source, 0, [];
      hadA, hadB := 0, 0;
    }

    method YieldA() returns (r: Option<T>)
      requires Valid()
      modifies this
      ensures Valid() && r == Served(source, old(hadA))
      ensures [hadA, hadB] == After(old([hadA, hadB]), 0, |source|)
    {
      var elem;
      if aLeadingBy >= 0 {
        if iter == [] {
          return None;
        }
        elem := iter[0];
        iter := iter[1..];
        buffer := buffer + [elem];
      } else {
        elem := buffer[0];
        buffer := buffer[1..];
      }
      aLeadingBy := aLeadingBy + 1;
      hadA := hadA + 1;
      r := Some(elem);
    }

    method YieldB() returns (r: Option<T>)
      requires Valid()
      modifies this
      ensures Valid() && r == Served(source, old(hadB))
      ensures [hadA, hadB] == After(old([hadA, hadB]), 1, |source|)
    {
      var elem;
      if aLeadingBy <= 0 {
        if iter == [] {
          return None;
        }
        elem := iter[0];
        iter := iter[1..];
        buffer := buffer + [elem];
      } else {
        elem := buffer[0];
        buffer := buffer[1..];
      }
      aLeadingBy := aLeadingBy - 1;
      hadB := hadB + 1;
      r := Some(elem);
    }
  }

  // ----- any schedule

  lemma AnswersStep<T>(source: seq<T>, had: seq<nat>, done: seq<Option<T>>, rest: seq<nat>)
    requires rest != [] && forall f :: f in rest ==> f < |had|
    ensures rest[0] in rest && forall f :: f in rest[1..] ==> f < |had|
    ensures done + Answers(source, had, rest) ==
            done + [Served(source, had[rest[0]])] + Answers(source, After(had, rest[0], |source|), rest[1..])
  {
    assert rest[0] in rest;
    assert forall f :: f in rest[1..] ==> f in rest;
    Assoc(done, [Served(source, had[rest[0]])], Answers(source, After(had, rest[0], |source|), rest[1..]));
  }

  method RunForks<T(==)>(source: seq<T>, numOfForks: nat, schedule: seq<nat>) returns (answers: seq<Option<T>>)
    requires forall f :: f in schedule ==> f < numOfForks
    ensures answers == Answers(source, seq(numOfForks, _ => 0), schedule)
  {
    var forks := new Forks(source, numOfForks);
    answers := [];
    ghost var rest := schedule;
    var n := 0;
    while n < |schedule|
      invariant n <= |schedule| && rest == schedule[n..] && fresh(forks)
      invariant forks.Valid() && forks.source == source && |forks.had| == numOfForks
      invariant forall f :: f in rest ==> f < numOfForks
      invariant answers + Answers(source, forks.had, rest) == Answers(source, seq(numOfForks, _ => 0), schedule)
    {
      AnswersStep(source, forks.had, answers, rest);
      assert rest[0] == schedule[n];
      var r := forks.GetNext(schedule[n]);
      answers := answers + [r];
      n, rest := n + 1, rest[1..];
    }
  }

  /** The special case answers every schedule as the general one does. */
  method RunTwo<T>(source: seq<T>, schedule: seq<nat>) returns (answers: seq<Option<T>>)
    requires forall f :: f in schedule ==> f < 2
    ensures answers == Answers(source, seq(2, _ => 0), schedule)
  {
    var im2 := new IterMultiplex2(source);
    answers := [];
    ghost var rest := schedule;
    assert [0, 0] == seq(2, _ => 0);
    var n := 0;
    while n < |schedule|
      invariant n <= |schedule| && rest == schedule[n..] && fresh(im2)
      invariant im2.Valid() && im2.source == source
      invariant forall f :: f in rest ==> f < 2
      invariant answers + Answers(source, [im2.hadA, im2.hadB], rest) == Answers(source, seq(2, _ => 0), schedule)
    {
      AnswersStep(source, [im2.hadA, im2.hadB], answers, rest);
      assert rest[0] == schedule[n];
      var r;
      if schedule[n] == 0 {
        r := im2.YieldA();
      } else {
        r := im2.YieldB();
      }
      answers := answers + [r];
      n, rest := n + 1, rest[1..];
    }
  }
}
