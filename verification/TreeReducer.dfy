/** lazy.IterTreeReducer: a flat sorted stream of indices reduced as the tree it describes. */
module TreeReducer {
  import opened Indices
  import opened Paths

  /** The calls made on branches. EndUnstarted is the end of a root that no index ever started. */
  datatype Event =
    | Start(index: Index)
    | Fast(index: Index)
    | Skip(index: Index)
    | End(index: Index)
    | Process(parent: Index, child: Index)
    | EndUnstarted

  /** What the branch class decides: whether an index needs no branch, and whether starting one works. */
  datatype Policy = Policy(canFast: Index -> bool, startOk: Index -> bool)

  // ----- the reduction as a recursive definition

  /** How many leading indices lie under x. */
  function LeadingUnder(s: seq<Index>, x: Index): (n: nat)
    ensures n <= |s| && (forall k :: 0 <= k < n ==> x <= s[k]) && (n < |s| ==> !(x <= s[n]))
  {
    if s == [] || !(x <= s[0]) then 0 else 1 + LeadingUnder(s[1..], x)
  }

  /** The calls for the indices under one started branch, before it ends. */
  function Body(p: Policy, parent: Index, ok: bool, s: seq<Index>): seq<Event>
    decreases |s|, 0
  {
    if s == [] then []
    else if !ok then [Skip(s[0])] + Body(p, parent, ok, s[1..])
    else if p.canFast(s[0]) then [Fast(s[0])] + Body(p, parent, ok, s[1..])
    else
      var x, n := s[0], LeadingUnder(s[1..], s[0]);
      Subtree(p, parent, x, s[1..][..n]) + Body(p, parent, ok, s[1..][n..])
  }

  /** A branch from its start to its processing by the parent. */
  function Subtree(p: Policy, parent: Index, x: Index, s: seq<Index>): seq<Event>
    decreases |s|, 1
  {
    [Start(x)] + Body(p, x, p.startOk(x), s) + [End(x), Process(parent, x)]
  }

  function TreeTrace(p: Policy, s: seq<Index>): seq<Event> {
    if s == [] then [EndUnstarted]
    else [Start(s[0])] + Body(p, s[0], p.startOk(s[0]), s[1..]) + [End(s[0])]
  }

  // ----- the stack machine

  datatype Branch = Branch(base: Index, ok: bool)

  /** The calls still to come when the stack is open and s is what the stream still holds. */
  function Completion(p: Policy, branches: seq<Branch>, s: seq<Index>): seq<Event>
    requires branches != []
    decreases |branches|
  {
    var m := |branches| - 1;
    var top := branches[m];
    if m == 0 then Body(p, top.base, top.ok, s) + [End(top.base)]
    else
      var n := LeadingUnder(s, top.base);
      Body(p, top.base, top.ok, s[..n]) + [End(top.base), Process(branches[m - 1].base, top.base)] +
      Completion(p, branches[..m], s[n..])
  }

  /** The part of Completion that belongs to the top branch, and the rest of the stream. */
  function TopEnds(branches: seq<Branch>, s: seq<Index>): (n: nat)
    requires branches != []
    ensures n <= |s|
  {
    if |branches| == 1 then |s| else LeadingUnder(s, branches[|branches| - 1].base)
  }

  function AfterTop(p: Policy, branches: seq<Branch>, s: seq<Index>): seq<Event>
    requires branches != []
  {
    var m := |branches| - 1;
    if m == 0 then [End(branches[0].base)]
    else [End(branches[m].base), Process(branches[m - 1].base, branches[m].base)] +
         Completion(p, branches[..m], s)
  }

  lemma {:induction false} CompletionUnfolds(p: Policy, branches: seq<Branch>, s: seq<Index>)
    requires branches != []
    ensures var top, n := branches[|branches| - 1], TopEnds(branches, s);
      Completion(p, branches, s) == Body(p, top.base, top.ok, s[..n]) + AfterTop(p, branches, s[n..])
  {
    var top, n := branches[|branches| - 1], TopEnds(branches, s);
    assert |branches| == 1 ==> s[..n] == s;
    if |branches| > 1 {
      Assoc(Body(p, top.base, top.ok, s[..n]),
            [End(top.base), Process(branches[|branches| - 2].base, top.base)],
            Completion(p, branches[..|branches| - 1], s[n..]));
    }
  }

  lemma {:induction false} PopStep(p: Policy, branches: seq<Branch>, s: seq<Index>)
    requires |branches| > 1 && (s == [] || !(branches[|branches| - 1].base <= s[0]))
    ensures var m := |branches| - 1;
      Completion(p, branches, s) ==
      [End(branches[m].base), Process(branches[m - 1].base, branches[m].base)] + Completion(p, branches[..m], s)
  {
    assert s[0..] == s;
  }

  lemma {:induction false} TopStep(p: Policy, branches: seq<Branch>, x: Index, rest: seq<Index>)
    requires branches != []
    requires branches[|branches| - 1].base <= x
    ensures TopEnds(branches, [x] + rest) == 1 + TopEnds(branches, rest)
    ensures var n := TopEnds(branches, rest);
      ([x] + rest)[..1 + n] == [x] + rest[..n] && ([x] + rest)[1 + n..] == rest[n..]
  {
    assert ([x] + rest)[1..] == rest;
  }

  /** An index handled without a branch of its own. */
  lemma {:induction false} InPlaceStep(p: Policy, branches: seq<Branch>, x: Index, rest: seq<Index>)
    requires branches != []
    requires branches[|branches| - 1].base <= x
    requires !branches[|branches| - 1].ok || p.canFast(x)
    ensures Completion(p, branches, [x] + rest) ==
            [if branches[|branches| - 1].ok then Fast(x) else Skip(x)] + Completion(p, branches, rest)
  {
    var top, n := branches[|branches| - 1], TopEnds(branches, rest);
    var event := if top.ok then Fast(x) else Skip(x);
    CompletionUnfolds(p, branches, [x] + rest);
    CompletionUnfolds(p, branches, rest);
    TopStep(p, branches, x, rest);
    assert ([x] + rest[..n])[1..] == rest[..n];
    Assoc([event], Body(p, top.base, top.ok, rest[..n]), AfterTop(p, branches, rest[n..]));
  }

  lemma {:induction false} LeadingWithin(s: seq<Index>, outer: Index, inner: Index)
    requires outer <= inner
    ensures LeadingUnder(s, inner) <= LeadingUnder(s, outer)
    ensures LeadingUnder(s[..LeadingUnder(s, outer)], inner) == LeadingUnder(s, inner)
    ensures LeadingUnder(s[LeadingUnder(s, inner)..], outer) == LeadingUnder(s, outer) - LeadingUnder(s, inner)
  {
    if s != [] && outer <= s[0] {
      LeadingWithin(s[1..], outer, inner);
      var k := LeadingUnder(s, outer);
      assert s[..k][1..] == s[1..][..k - 1];
      if inner <= s[0] {
        assert s[LeadingUnder(s, inner)..] == s[1..][LeadingUnder(s[1..], inner)..];
      } else {
        assert s[0..] == s;
      }
    } else {
      assert s[..0] == [] && s[0..] == s;
    }
  }

  lemma {:induction false} BodyPush(p: Policy, parent: Index, x: Index, s: seq<Index>)
    requires !p.canFast(x)
    ensures var j := LeadingUnder(s, x);
      Body(p, parent, true, [x] + s) == Subtree(p, parent, x, s[..j]) + Body(p, parent, true, s[j..])
  {
    assert ([x] + s)[1..] == s;
  }

  lemma {:induction false} CompletionPushed(p: Policy, branches: seq<Branch>, x: Index, ok: bool, rest: seq<Index>)
    requires branches != []
    ensures var j := LeadingUnder(rest, x);
      Completion(p, branches + [Branch(x, ok)], rest) ==
      Body(p, x, ok, rest[..j]) + [End(x), Process(branches[|branches| - 1].base, x)] +
      Completion(p, branches, rest[j..])
  {
    assert (branches + [Branch(x, ok)])[..|branches|] == branches;
  }

  /** The stream after x's subtree, as the branch below x sees it. */
  lemma {:induction false} AfterSubtree(p: Policy, branches: seq<Branch>, x: Index, rest: seq<Index>)
    requires branches != [] && branches[|branches| - 1].base <= x
    ensures var top, n, j := branches[|branches| - 1], TopEnds(branches, rest), LeadingUnder(rest, x);
      j <= n && LeadingUnder(rest[..n], x) == j && rest[..n][..j] == rest[..j] &&
      Completion(p, branches, rest[j..]) ==
      Body(p, top.base, top.ok, rest[..n][j..]) + AfterTop(p, branches, rest[n..])
  {
    hide Completion, Body, AfterTop;
    var top, n, j := branches[|branches| - 1], TopEnds(branches, rest), LeadingUnder(rest, x);
    LeadingWithin(rest, top.base, x);
    assert |branches| == 1 ==> rest[..n] == rest;
    CompletionUnfolds(p, branches, rest[j..]);
    assert TopEnds(branches, rest[j..]) == n - j;
    CutTwice(rest, j, n);
  }

  lemma CutTwice<T>(s: seq<T>, j: nat, n: nat)
    requires j <= n <= |s|
    ensures s[j..][..n - j] == s[..n][j..] && s[j..][n - j..] == s[n..] && s[..n][..j] == s[..j]
  {
  }

  /** An index that gets a branch of its own. */
  lemma {:induction false} PushStep(p: Policy, branches: seq<Branch>, x: Index, rest: seq<Index>)
    requires branches != []
    requires branches[|branches| - 1].base <= x && branches[|branches| - 1].ok && !p.canFast(x)
    ensures Completion(p, branches, [x] + rest) ==
            [Start(x)] + Completion(p, branches + [Branch(x, p.startOk(x))], rest)
  {
    hide Completion, Body, AfterTop, TopEnds, LeadingUnder;
    var top, n, j := branches[|branches| - 1], TopEnds(branches, rest), LeadingUnder(rest, x);
    CompletionUnfolds(p, branches, [x] + rest);
    TopStep(p, branches, x, rest);
    BodyPush(p, top.base, x, rest[..n]);
    CompletionPushed(p, branches, x, p.startOk(x), rest);
    AfterSubtree(p, branches, x, rest);
    var sub := Body(p, x, p.startOk(x), rest[..j]);
    var close := [End(x), Process(top.base, x)];
    var tail := Body(p, top.base, true, rest[..n][j..]);
    var after := AfterTop(p, branches, rest[n..]);
    Assoc([Start(x)], sub, close);
    Assoc([Start(x)], sub + close, tail);
    Assoc([Start(x)], sub + close + tail, after);
    Assoc(sub + close, tail, after);
  }

  class IterTreeReducer {
    const policy: Policy
    var index: Option<Index>
    var branches: seq<Branch>
    var trace: seq<Event>  // the calls made so far

    /** The bases on the stack are strictly nested prefixes of the last index. */
    ghost predicate Valid()
      reads this
    {
      branches != [] && (index.None? ==> |branches| == 1 && trace == []) &&
      (forall i, j :: 0 <= i < j < |branches| ==> branches[i].base < branches[j].base) &&
      (index.Some? ==> forall i :: 0 <= i < |branches| ==> branches[i].base <= index.value)
    }

    /** Everything called once the stream has gone on with s and Finish has run. */
    ghost function Final(s: seq<Index>): seq<Event>
      reads this
      requires Valid()
    {
      if index.None? then TreeTrace(policy, s) else trace + Completion(policy, branches, s)
    }

    constructor (policy: Policy)
      ensures Valid() && this.policy == policy && index.None? && trace == []
    {
      this.policy := policy;
      index, branches, trace := None, [Branch([], false)], [];
    }

    /** One round of finish_branches: the innermost branch ends and its parent processes it. */
    method FinishTop(ghost s: seq<Index>)
      requires |branches| > 1 && (s == [] || !(branches[|branches| - 1].base <= s[0]))
      modifies this`branches, this`trace
      ensures branches == old(branches)[..|old(branches)| - 1]
      ensures trace + Completion(policy, branches, s) == old(trace) + Completion(policy, old(branches), s)
      ensures trace + Completion(policy, branches, []) == old(trace) + Completion(policy, old(branches), [])
    {
      hide Body, Completion;
      var m := |branches| - 1;
      ghost var ends := [End(branches[m].base), Process(branches[m - 1].base, branches[m].base)];
      PopStep(policy, branches, s);
      PopStep(policy, branches, []);
      Assoc(trace, ends, Completion(policy, branches[..m], s));
      Assoc(trace, ends, Completion(policy, branches[..m], []));
      trace := trace + [End(branches[m].base), Process(branches[m - 1].base, branches[m].base)];
      branches := branches[..m];
    }

    /** finish_branches: end every branch that x has left; false if that is all of them. */
    method FinishBranches(x: Index, ghost rest: seq<Index>) returns (inside: bool)
      requires Valid() && index.Some?
      modifies this`branches, this`trace
      ensures inside <==> old(branches)[0].base <= x
      ensures inside ==> branches != [] && branches <= old(branches) && branches[|branches| - 1].base <= x
      ensures inside ==>
        trace + Completion(policy, branches, [x] + rest) == old(trace) + Completion(policy, old(branches), [x] + rest)
      ensures !inside ==> branches == [] && trace == old(trace) + Completion(policy, old(branches), [])
    {
      hide Body, Completion;
      while true
        invariant branches != [] && branches <= old(branches)
        invariant trace + Completion(policy, branches, [x] + rest)
               == old(trace) + Completion(policy, old(branches), [x] + rest)
        invariant trace + Completion(policy, branches, []) == old(trace) + Completion(policy, old(branches), [])
        decreases |branches|
      {
        var toBeFinished := branches[|branches| - 1];
        if toBeFinished.base <= x {
          return true;
        }
        if |branches| == 1 {
          EmptyCompletion(policy, branches);
          trace, branches := trace + [End(toBeFinished.base)], [];
          return false;
        }
        FinishTop([x] + rest);
      }
    }

    /**
     * __call__: the reducer takes the next index. The calls made now and later are those of the
     * recursive definition, whatever the stream goes on with. An index that does not come after
     * the last one is ignored.
     */
    method Call(x: Index, ghost rest: seq<Index>) returns (r: bool)
      requires Valid()
      modifies this
      ensures old(index).Some? && !Less(old(index).value, x) ==>
        r && Valid() && index == old(index) && branches == old(branches) && trace == old(trace)
      ensures old(index).None? || Less(old(index).value, x) ==>
        (r <==> old(index).None? || old(branches)[0].base <= x)
      ensures r && (old(index).None? || Less(old(index).value, x)) ==>
        Valid() && index == Some(x) && Final(rest) == old(Final([x] + rest)) &&
        branches[0].base == (if old(index).None? then x else old(branches)[0].base)
      ensures !r ==> branches == [] && trace == old(Final([]))
    {
      hide Body, Completion, TreeTrace;
      if index.None? {
        RootStep(policy, x, rest);
        branches, trace, index := [Branch(x, policy.startOk(x))], [Start(x)], Some(x);
        return true;
      }
      if !Less(index.value, x) {
        return true;
      }
      var inside := FinishBranches(x, rest);
      if !inside {
        return false;
      }
      ProcessInside(x, rest);
      index := Some(x);
      r := true;
    }

    /** The rest of __call__ once the top branch contains x. */
    method ProcessInside(x: Index, ghost rest: seq<Index>)
      requires Valid() && index.Some? && Less(index.value, x) && branches[|branches| - 1].base <= x
      modifies this`branches, this`trace
      ensures branches != [] && (forall i :: 0 <= i < |branches| ==> branches[i].base <= x)
      ensures forall i, j :: 0 <= i < j < |branches| ==> branches[i].base < branches[j].base
      ensures branches[0].base == old(branches)[0].base
      ensures trace + Completion(policy, branches, rest) == old(trace) + Completion(policy, old(branches), [x] + rest)
    {
      hide Body, Completion;
      var lastBranch := branches[|branches| - 1];
      assert lastBranch.base <= index.value;
      assert forall i :: 0 <= i < |branches| ==> branches[i].base <= lastBranch.base;
      if lastBranch.ok && !policy.canFast(x) {
        PushStep(policy, branches, x, rest);
        StrictlyInside(lastBranch.base, index.value, x);
        Assoc(trace, [Start(x)], Completion(policy, branches + [Branch(x, policy.startOk(x))], rest));
        branches, trace := branches + [Branch(x, policy.startOk(x))], trace + [Start(x)];
      } else {
        InPlaceStep(policy, branches, x, rest);
        Assoc(trace, [if lastBranch.ok then Fast(x) else Skip(x)], Completion(policy, branches, rest));
        trace := trace + [if lastBranch.ok then Fast(x) else Skip(x)];
      }
    }

    /** Finish: end what is still open, innermost first. */
    method Finish()
      requires Valid()
      modifies this
      ensures branches == [] && trace == old(Final([]))
    {
      hide Body, Completion;
      if index.None? {
        branches, trace := [], [EndUnstarted];
        return;
      }
      while |branches| > 1
        invariant branches != []
        invariant trace + Completion(policy, branches, []) == old(trace) + Completion(policy, old(branches), [])
        invariant index == old(index)
        decreases |branches|
      {
        FinishTop([]);
      }
      EmptyCompletion(policy, branches);
      trace, branches := trace + [End(branches[0].base)], [];
    }
  }

  lemma StrictlyInside(base: Index, last: Index, x: Index)
    requires base <= last && Less(last, x) && base <= x
    ensures base < x
  {
    PrefixAtMost(base, last);
    OrderFacts();
  }

  lemma {:induction false} EmptyCompletion(p: Policy, branches: seq<Branch>)
    requires |branches| == 1
    ensures Completion(p, branches, []) == [End(branches[0].base)]
  {
  }

  lemma {:induction false} RootStep(p: Policy, x: Index, rest: seq<Index>)
    ensures TreeTrace(p, [x] + rest) == [Start(x)] + Completion(p, [Branch(x, p.startOk(x))], rest)
  {
    assert ([x] + rest)[1..] == rest;
    Assoc([Start(x)], Body(p, x, p.startOk(x), rest), [End(x)]);
  }

  // ----- a whole run

  ghost predicate Increasing(s: seq<Index>) {
    forall i, j :: 0 <= i < j < |s| ==> Less(s[i], s[j])
  }

  ghost predicate UnderFirst(s: seq<Index>) {
    forall i :: 0 <= i < |s| ==> s[0] <= s[i]
  }

  /** Over a strictly increasing stream under its first index the reducer does what the tree says. */
  method Reduce(policy: Policy, s: seq<Index>) returns (trace: seq<Event>)
    requires Increasing(s) && UnderFirst(s)
    ensures trace == TreeTrace(policy, s)
  {
    hide Body, Completion, TreeTrace;
    ghost var all := TreeTrace(policy, s);
    var itr := new IterTreeReducer(policy);
    assert s[0..] == s;
    for n := 0 to |s|
      invariant itr.Valid() && fresh(itr) && itr.policy == policy
      invariant itr.index == if n == 0 then None else Some(s[n - 1])
      invariant n > 0 ==> itr.branches[0].base == s[0]
      invariant itr.Final(s[n..]) == all
    {
      assert s[n..] == [s[n]] + s[n + 1..];
      var ok := itr.Call(s[n], s[n + 1..]);
    }
    assert s[|s|..] == [];
    itr.Finish();
    trace := itr.trace;
  }
}
