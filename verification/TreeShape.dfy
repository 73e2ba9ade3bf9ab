/** What the reduction of a sorted stream looks like, index by index. */
module TreeShape {
  import opened Indices
  import opened TreeReducer

  /** The index of the branch or path a call acts on. */
  function Where(e: Event): Index {
    match e
    case Start(x) => x
    case Fast(x) => x
    case Skip(x) => x
    case End(x) => x
    case Process(parent, _) => parent
    case EndUnstarted => []
  }

  /** The calls at or under x are exactly those from its start to its end. */
  ghost predicate Bracketed(t: seq<Event>, x: Index) {
    exists i, j :: 0 <= i < j < |t| && BracketedAt(t, x, i, j)
  }

  ghost predicate BracketedAt(t: seq<Event>, x: Index, i: nat, j: nat)
    requires i < j < |t|
  {
    t[i] == Start(x) && t[j] == End(x) &&
    forall k :: 0 <= k < |t| ==> (x <= Where(t[k]) <==> i <= k <= j)
  }

  ghost predicate NoneUnder(t: seq<Event>, x: Index) {
    forall e :: e in t ==> !(x <= Where(e))
  }

  lemma BracketExtend(pre: seq<Event>, t: seq<Event>, post: seq<Event>, x: Index)
    requires Bracketed(t, x) && NoneUnder(pre, x) && NoneUnder(post, x)
    ensures Bracketed(pre + t + post, x)
  {
    var i, j :| 0 <= i < j < |t| && BracketedAt(t, x, i, j);
    var all := pre + t + post;
    forall k | 0 <= k < |all| ensures x <= Where(all[k]) <==> |pre| + i <= k <= |pre| + j {
      if k < |pre| {
        assert all[k] in pre;
      } else if k < |pre| + |t| {
        assert all[k] == t[k - |pre|];
      } else {
        assert all[k] in post;
      }
    }
    assert BracketedAt(all, x, |pre| + i, |pre| + j);
  }

  ghost predicate StrictlyUnder(s: seq<Index>, parent: Index) {
    forall y :: y in s ==> parent < y
  }

  lemma UnderParts(parent: Index, x: Index, rest: seq<Index>, n: nat)
    requires StrictlyUnder([x] + rest, parent) && n <= |rest|
    ensures parent < x && StrictlyUnder(rest, parent)
    ensures StrictlyUnder(rest[..n], parent) && StrictlyUnder(rest[n..], parent)
  {
    assert x in [x] + rest;
    forall y | y in rest ensures parent < y { assert y in [x] + rest; }
    forall y | y in rest[..n] || y in rest[n..] ensures y in rest {}
  }

  lemma EarlierNotUnder(y: Index, x: Index)
    requires Less(y, x)
    ensures !(x <= y)
  {
    if x <= y { PrefixAtMost(x, y); OrderFacts(); }
  }

  lemma FirstIsLeast(x: Index, rest: seq<Index>, y: Index)
    requires Increasing([x] + rest) && y in rest
    ensures Less(x, y) && !(y <= x)
  {
    var k :| 0 <= k < |rest| && rest[k] == y;
    assert ([x] + rest)[0] == x && ([x] + rest)[k + 1] == y;
    EarlierNotUnder(x, y);
  }

  /** In a sorted stream nothing after the leading run lies under x. */
  lemma AfterRunNotUnder(x: Index, rest: seq<Index>)
    requires Increasing([x] + rest)
    ensures var n := LeadingUnder(rest, x);
      Increasing(rest[..n]) && Increasing(rest[n..]) && StrictlyUnder(rest[..n], x) &&
      forall y :: y in rest[n..] ==> !(x <= y) && Less(x, y)
  {
    var n := LeadingUnder(rest, x);
    var all := [x] + rest;
    OrderFacts();
    forall k | 0 <= k < |rest| ensures Less(x, rest[k]) && (k >= n ==> !(x <= rest[k])) {
      assert Less(all[0], all[k + 1]) && all[k + 1] == rest[k];
      if k > n && x <= rest[k] {
        assert Less(all[n + 1], all[k + 1]) && all[n + 1] == rest[n] && Less(all[0], all[n + 1]);
        PrefixInterval(x, x, rest[n], rest[k]);
      }
    }
    forall i, j | 0 <= i < j < |rest| ensures Less(rest[i], rest[j]) {
      assert Less(all[i + 1], all[j + 1]);
    }
  }

  ghost predicate EventsAmong(t: seq<Event>, parent: Index, s: seq<Index>) {
    forall e :: e in t ==> Where(e) == parent || Where(e) in s
  }

  lemma {:induction false} BodyWhere(p: Policy, parent: Index, ok: bool, s: seq<Index>)
    ensures EventsAmong(Body(p, parent, ok, s), parent, s)
    decreases |s|
  {
    if s != [] {
      if !ok || p.canFast(s[0]) {
        BodyWhere(p, parent, ok, s[1..]);
      } else {
        var x, n := s[0], LeadingUnder(s[1..], s[0]);
        BodyWhere(p, x, p.startOk(x), s[1..][..n]);
        BodyWhere(p, parent, ok, s[1..][n..]);
      }
    }
  }

  /** Every start is in the stream and is bracketed. */
  ghost predicate AllBracketed(t: seq<Event>, s: seq<Index>) {
    forall x :: Start(x) in t ==> x in s && Bracketed(t, x)
  }

  lemma SubtreeBracketed(p: Policy, parent: Index, x: Index, s: seq<Index>)
    requires parent < x && StrictlyUnder(s, x) && Increasing(s)
    requires AllBracketed(Body(p, x, p.startOk(x), s), s)
    ensures AllBracketed(Subtree(p, parent, x, s), [x] + s)
    ensures EventsAmong(Subtree(p, parent, x, s), parent, [x] + s)
  {
    hide Body;
    var body := Body(p, x, p.startOk(x), s);
    var t := Subtree(p, parent, x, s);
    var post := [End(x), Process(parent, x)];
    BodyWhere(p, x, p.startOk(x), s);
    assert t == [Start(x)] + body + post;
    forall k | 0 <= k < |t| ensures x <= Where(t[k]) <==> 0 <= k <= |body| + 1 {
      if 0 < k <= |body| { assert t[k] == body[k - 1] && body[k - 1] in body; }
    }
    assert BracketedAt(t, x, 0, |body| + 1);
    forall y | Start(y) in t && y != x ensures y in s && Bracketed(t, y) {
      assert Start(y) in body;
      assert NoneUnder([Start(x)], y) && NoneUnder(post, y);
      BracketExtend([Start(x)], body, post, y);
    }
  }

  lemma {:induction false} BodyBracketed(p: Policy, parent: Index, ok: bool, s: seq<Index>)
    requires Increasing(s) && StrictlyUnder(s, parent)
    ensures AllBracketed(Body(p, parent, ok, s), s)
    decreases |s|
  {
    hide Bracketed, Body, Subtree, LeadingUnder;
    BodyParts(p, parent, ok, s);
    if s != [] {
      var x, rest := s[0], s[1..];
      assert s == [x] + rest;
      var t := Body(p, parent, ok, s);
      UnderParts(parent, x, rest, LeadingUnder(rest, x));
      if !ok || p.canFast(x) {
        var event := if ok then Fast(x) else Skip(x);
        var tail := Body(p, parent, ok, rest);
        BodyBracketed(p, parent, ok, rest);
        assert t == [event] + tail + [];
        forall y | Start(y) in t ensures y in s && Bracketed(t, y) {
          EarlierNotUnder(x, y);
          BracketExtend([event], tail, [], y);
        }
      } else {
        var n := LeadingUnder(rest, x);
        var sub, tail := Subtree(p, parent, x, rest[..n]), Body(p, parent, ok, rest[n..]);
        AfterRunNotUnder(x, rest);
        BodyBracketed(p, x, p.startOk(x), rest[..n]);
        SubtreeBracketed(p, parent, x, rest[..n]);
        BodyBracketed(p, parent, ok, rest[n..]);
        BodyWhere(p, parent, ok, rest[n..]);
        JoinBracketed(parent, x, rest, n, sub, tail);
        assert t == sub + tail;
      }
    }
  }

  /** A branch of a subtree is not touched by what follows. */
  lemma BracketedInRun(parent: Index, x: Index, rest: seq<Index>, n: nat, sub: seq<Event>, tail: seq<Event>, y: Index)
    requires Increasing([x] + rest) && n == LeadingUnder(rest, x)
    requires parent < x && x <= y && Bracketed(sub, y) && EventsAmong(tail, parent, rest[n..])
    ensures Bracketed(sub + tail, y)
  {
    hide Bracketed, LeadingUnder;
    AfterRunNotUnder(x, rest);
    forall e | e in tail ensures !(y <= Where(e)) {
      if Where(e) != parent { assert !(x <= Where(e)); }
    }
    BracketExtend([], sub, tail, y);
    assert [] + sub + tail == sub + tail;
  }

  lemma BracketedLater(parent: Index, x: Index, rest: seq<Index>, n: nat, sub: seq<Event>, tail: seq<Event>, y: Index)
    requires Increasing([x] + rest) && n <= |rest|
    requires parent < y && y in rest[n..] && Bracketed(tail, y) && EventsAmong(sub, parent, [x] + rest[..n])
    ensures Bracketed(sub + tail, y)
  {
    hide Bracketed;
    forall e | e in sub ensures !(y <= Where(e)) {
      if Where(e) != parent { EarlierInRun(x, rest, n, Where(e), y); EarlierNotUnder(Where(e), y); }
    }
    BracketExtend(sub, tail, [], y);
    assert sub + tail + [] == sub + tail;
  }

  /** A subtree followed by the rest of its parent's body. */
  lemma JoinBracketed(parent: Index, x: Index, rest: seq<Index>, n: nat, sub: seq<Event>, tail: seq<Event>)
    requires Increasing([x] + rest) && StrictlyUnder([x] + rest, parent) && n == LeadingUnder(rest, x)
    requires AllBracketed(sub, [x] + rest[..n]) && EventsAmong(sub, parent, [x] + rest[..n])
    requires AllBracketed(tail, rest[n..]) && EventsAmong(tail, parent, rest[n..])
    ensures AllBracketed(sub + tail, [x] + rest)
  {
    AfterRunNotUnder(x, rest);
    UnderParts(parent, x, rest, n);
    hide Bracketed, LeadingUnder, EventsAmong, Increasing;
    var s := [x] + rest;
    assert s == [x] + rest[..n] + rest[n..];
    forall y | Start(y) in sub + tail ensures y in s && Bracketed(sub + tail, y) {
      if Start(y) in sub {
        assert y in [x] + rest[..n];
        BracketedInRun(parent, x, rest, n, sub, tail, y);
      } else {
        assert Start(y) in tail && y in rest[n..];
        BracketedLater(parent, x, rest, n, sub, tail, y);
      }
    }
  }

  lemma EarlierInRun(x: Index, rest: seq<Index>, n: nat, a: Index, b: Index)
    requires Increasing([x] + rest) && n <= |rest| && a in [x] + rest[..n] && b in rest[n..]
    ensures Less(a, b)
  {
    var all := [x] + rest;
    var k :| 0 <= k < |rest[n..]| && rest[n..][k] == b;
    var l :| 0 <= l < 1 + n && ([x] + rest[..n])[l] == a;
    assert all[l] == a && all[n + k + 1] == b;
  }

  lemma RootFirst(s: seq<Index>)
    requires s != [] && Increasing(s) && UnderFirst(s)
    ensures s == [s[0]] + s[1..] && Increasing(s[1..]) && StrictlyUnder(s[1..], s[0])
  {
    var x, rest := s[0], s[1..];
    OrderFacts();
    forall y | y in rest ensures x < y {
      var k :| 0 <= k < |rest| && rest[k] == y;
      assert s[k + 1] == y && Less(s[0], s[k + 1]);
    }
  }

  /**
   * Every started branch ends exactly once: the calls at or under its index are exactly those
   * from its start to its end, so it ends after everything under it and before anything else.
   */
  lemma BranchesAreBracketed(p: Policy, s: seq<Index>)
    requires s != [] && Increasing(s) && UnderFirst(s)
    ensures AllBracketed(TreeTrace(p, s), s)
    ensures Start(s[0]) in TreeTrace(p, s)
    ensures forall y :: EndsOnce(TreeTrace(p, s), y)
  {
    hide Bracketed, EndsOnce, Body, LeadingUnder;
    forall y ensures EndsOnce(TreeTrace(p, s), y) {
      BranchesEndOnce(p, s, y);
    }
    var x, rest := s[0], s[1..];
    RootFirst(s);
    hide Increasing, UnderFirst;
    var body := Body(p, x, p.startOk(x), rest);
    BodyBracketed(p, x, p.startOk(x), rest);
    BodyWhere(p, x, p.startOk(x), rest);
    var t := TreeTrace(p, s);
    forall k | 0 <= k < |t| ensures x <= Where(t[k]) {
      if 0 < k <= |body| { assert t[k] == body[k - 1] && body[k - 1] in body; }
    }
    RootBracketed(t, x);
    forall y | Start(y) in t && y != x ensures y in s && Bracketed(t, y) {
      assert Start(y) in body;
      assert NoneUnder([Start(x)], y) && NoneUnder([End(x)], y);
      BracketExtend([Start(x)], body, [End(x)], y);
    }
  }

  lemma RootBracketed(t: seq<Event>, x: Index)
    requires |t| > 1 && t[0] == Start(x) && t[|t| - 1] == End(x)
    requires forall k :: 0 <= k < |t| ==> x <= Where(t[k])
    ensures Bracketed(t, x)
  {
    assert BracketedAt(t, x, 0, |t| - 1);
  }

  // ----- ends are not repeated

  /** y ends exactly once if it is started, and never otherwise. */
  ghost predicate EndsOnce(t: seq<Event>, y: Index) {
    multiset(t)[End(y)] == if Start(y) in t then 1 else 0
  }

  lemma EndsOnceFirst(e: Event, t: seq<Event>, y: Index)
    requires EndsOnce(t, y) && !e.End? && !e.Start?
    ensures EndsOnce([e] + t, y)
  {
  }

  /** Two parts, of which only one starts y. */
  lemma EndsOnceJoin(t: seq<Event>, u: seq<Event>, y: Index)
    requires EndsOnce(t, y) && EndsOnce(u, y) && !(Start(y) in t && Start(y) in u)
    ensures EndsOnce(t + u, y)
  {
  }

  lemma EndsOnceSubtree(p: Policy, parent: Index, x: Index, s: seq<Index>, y: Index)
    requires var body := Body(p, x, p.startOk(x), s); EndsOnce(body, y) && (y == x ==> Start(y) !in body)
    ensures EndsOnce(Subtree(p, parent, x, s), y)
    ensures Start(y) in Subtree(p, parent, x, s) ==> y == x || Start(y) in Body(p, x, p.startOk(x), s)
  {
    hide Body;
    var body := Body(p, x, p.startOk(x), s);
    assert multiset([Start(x)] + body + [End(x), Process(parent, x)])
        == multiset{Start(x)} + multiset(body) + multiset{End(x), Process(parent, x)};
  }

  lemma {:induction false} BodyEndsOnce(p: Policy, parent: Index, ok: bool, s: seq<Index>, y: Index)
    requires Increasing(s) && StrictlyUnder(s, parent)
    ensures EndsOnce(Body(p, parent, ok, s), y) && (Start(y) in Body(p, parent, ok, s) ==> y in s)
    decreases |s|
  {
    hide Body, Subtree, LeadingUnder, EndsOnce;
    BodyParts(p, parent, ok, s);
    if s == [] {
      NoEnds(y);
    } else {
      var x, rest := s[0], s[1..];
      assert s == [x] + rest;
      var n := LeadingUnder(rest, x);
      UnderParts(parent, x, rest, n);
      AfterRunNotUnder(x, rest);
      if !ok || p.canFast(x) {
        BodyEndsOnce(p, parent, ok, rest, y);
        EndsOnceFirst(if ok then Fast(x) else Skip(x), Body(p, parent, ok, rest), y);
      } else {
        BodyEndsOnce(p, x, p.startOk(x), rest[..n], y);
        BodyEndsOnce(p, parent, ok, rest[n..], y);
        NotAgain(x, rest, n, y);
        EndsOnceSubtree(p, parent, x, rest[..n], y);
        EndsOnceJoin(Subtree(p, parent, x, rest[..n]), Body(p, parent, ok, rest[n..]), y);
      }
    }
  }

  lemma NoEnds(y: Index)
    ensures EndsOnce([], y)
  {
  }

  /** An index occurs once in a stream. */
  lemma NotAgain(x: Index, rest: seq<Index>, n: nat, y: Index)
    requires Increasing([x] + rest) && n <= |rest|
    ensures x !in rest && !(y in rest[..n] && y in rest[n..])
  {
    var s := [x] + rest;
    OrderFacts();
    forall k | 0 <= k < |rest| ensures rest[k] != x {
      assert s[0] == x && s[k + 1] == rest[k];
    }
    forall i, j | 0 <= i < n <= j < |rest| ensures rest[i] != rest[j] {
      assert s[i + 1] == rest[i] && s[j + 1] == rest[j];
    }
  }

  /** A branch that was started is ended exactly once, and no other branch is ended. */
  lemma BranchesEndOnce(p: Policy, s: seq<Index>, y: Index)
    requires s != [] && Increasing(s) && UnderFirst(s)
    ensures EndsOnce(TreeTrace(p, s), y)
  {
    var x, rest := s[0], s[1..];
    RootFirst(s);
    BodyEndsOnce(p, x, p.startOk(x), rest, y);
    NotAgain(x, rest, 0, y);
    hide Body;
    var body := Body(p, x, p.startOk(x), rest);
    assert multiset([Start(x)] + body + [End(x)]) == multiset{Start(x)} + multiset(body) + multiset{End(x)};
  }

  // ----- what happens to each index of the stream

  /** The indices started, handled in place or skipped, in order. */
  function Visits(t: seq<Event>): seq<Index> {
    if t == [] then []
    else (if t[0].Start? || t[0].Fast? || t[0].Skip? then [Where(t[0])] else []) + Visits(t[1..])
  }

  lemma {:induction false} VisitsAppend(t: seq<Event>, u: seq<Event>)
    ensures Visits(t + u) == Visits(t) + Visits(u)
  {
    if t == [] {
      assert t + u == u;
    } else {
      assert (t + u)[1..] == t[1..] + u;
      VisitsAppend(t[1..], u);
      Assoc(if t[0].Start? || t[0].Fast? || t[0].Skip? then [Where(t[0])] else [], Visits(t[1..]), Visits(u));
    }
  }

  lemma {:induction false} BodyVisits(p: Policy, parent: Index, ok: bool, s: seq<Index>)
    ensures Visits(Body(p, parent, ok, s)) == s
    decreases |s|
  {
    hide Where, Visits, Subtree, Body, LeadingUnder;
    BodyParts(p, parent, ok, s);
    if s == [] {
      NoVisits();
    } else {
      var x, rest := s[0], s[1..];
      if !ok || p.canFast(x) {
        var event := if ok then Fast(x) else Skip(x);
        BodyVisits(p, parent, ok, rest);
        VisitsAppend([event], Body(p, parent, ok, rest));
        OneVisit(event);
      } else {
        var n := LeadingUnder(rest, x);
        BodyVisits(p, x, p.startOk(x), rest[..n]);
        BodyVisits(p, parent, ok, rest[n..]);
        SubtreeVisits(p, parent, x, rest[..n]);
        VisitsAppend(Subtree(p, parent, x, rest[..n]), Body(p, parent, ok, rest[n..]));
        assert s == [x] + rest[..n] + rest[n..];
      }
    }
  }

  lemma {:induction false} BodyParts(p: Policy, parent: Index, ok: bool, s: seq<Index>)
    ensures s == [] ==> Body(p, parent, ok, s) == []
    ensures s != [] && (!ok || p.canFast(s[0])) ==>
              Body(p, parent, ok, s) == [if ok then Fast(s[0]) else Skip(s[0])] + Body(p, parent, ok, s[1..])
    ensures s != [] && ok && !p.canFast(s[0]) ==> var n := LeadingUnder(s[1..], s[0]);
              Body(p, parent, ok, s) == Subtree(p, parent, s[0], s[1..][..n]) + Body(p, parent, ok, s[1..][n..])
  {
  }

  lemma NoVisits()
    ensures Visits([]) == []
  {
  }

  lemma OneVisit(e: Event)
    ensures Visits([e]) == if e.Start? || e.Fast? || e.Skip? then [Where(e)] else []
    ensures e.Start? || e.Fast? || e.Skip? ==> Where(e) == e.index
  {
    assert [e][1..] == [];
  }

  lemma SubtreeVisits(p: Policy, parent: Index, x: Index, s: seq<Index>)
    requires Visits(Body(p, x, p.startOk(x), s)) == s
    ensures Visits(Subtree(p, parent, x, s)) == [x] + s
  {
    hide Body;
    var body := Body(p, x, p.startOk(x), s);
    OneVisit(Start(x));
    OneVisit(End(x));
    OneVisit(Process(parent, x));
    VisitsAppend([Start(x)], body);
    VisitsAppend([End(x)], [Process(parent, x)]);
    VisitsAppend([Start(x)] + body, [End(x), Process(parent, x)]);
    assert [End(x)] + [Process(parent, x)] == [End(x), Process(parent, x)];
  }

  /** Each index of the stream is started, handled in place or skipped, once and in stream order. */
  lemma EveryIndexVisitedOnce(p: Policy, s: seq<Index>)
    ensures Visits(TreeTrace(p, s)) == s
  {
    hide Body;
    if s == [] {
      OneVisit(EndUnstarted);
    } else {
      var body := Body(p, s[0], p.startOk(s[0]), s[1..]);
      BodyVisits(p, s[0], p.startOk(s[0]), s[1..]);
      OneVisit(Start(s[0]));
      OneVisit(End(s[0]));
      VisitsAppend([Start(s[0])], body);
      VisitsAppend([Start(s[0])] + body, [End(s[0])]);
    }
  }

  /** y lies under a branch whose start failed. */
  ghost predicate UnderFailed(p: Policy, t: seq<Event>, y: Index) {
    exists x :: Start(x) in t && !p.startOk(x) && x < y
  }

  lemma {:induction false} BodySkips(p: Policy, parent: Index, ok: bool, s: seq<Index>, y: Index)
    requires Increasing(s) && StrictlyUnder(s, parent) && y in s
    ensures Skip(y) in Body(p, parent, ok, s) <==> !ok || UnderFailed(p, Body(p, parent, ok, s), y)
    decreases |s|
  {
    var x, rest := s[0], s[1..];
    var t := Body(p, parent, ok, s);
    assert s == [x] + rest;
    UnderParts(parent, x, rest, 0);
    if !ok {
      var tail := Body(p, parent, ok, rest);
      assert t == [Skip(x)] + tail;
      if y != x {
        BodySkips(p, parent, ok, rest, y);
      }
    } else if p.canFast(x) {
      var tail := Body(p, parent, ok, rest);
      assert t == [Fast(x)] + tail;
      BodyBracketed(p, parent, ok, rest);
      BodyWhere(p, parent, ok, rest);
      if y == x {
        NothingAbove(x, rest, tail);
      } else {
        BodySkips(p, parent, ok, rest, y);
      }
    } else {
      BodySkipsSubtree(p, parent, x, rest, y);
    }
  }

  /** No later start lies above an earlier index, and no later call skips it. */
  lemma NothingAbove(x: Index, rest: seq<Index>, tail: seq<Event>)
    requires Increasing([x] + rest) && AllBracketed(tail, rest)
    ensures forall z :: Start(z) in tail ==> !(z < x)
    ensures x !in rest
  {
    hide Bracketed;
    forall z | z in rest ensures !(z <= x) { FirstIsLeast(x, rest, z); }
  }

  lemma BodySkipsSubtree(p: Policy, parent: Index, x: Index, rest: seq<Index>, y: Index)
    requires Increasing([x] + rest) && StrictlyUnder([x] + rest, parent) && y in [x] + rest && !p.canFast(x)
    ensures var t := Body(p, parent, true, [x] + rest); Skip(y) in t <==> UnderFailed(p, t, y)
    decreases |rest| + 1, 0
  {
    hide Bracketed, Body, UnderFailed, LeadingUnder;
    var n := LeadingUnder(rest, x);
    var inner, later := rest[..n], rest[n..];
    var sub, tail := Subtree(p, parent, x, inner), Body(p, parent, true, later);
    var body := Body(p, x, p.startOk(x), inner);
    BodyPush(p, parent, x, rest);
    UnderParts(parent, x, rest, n);
    AfterRunNotUnder(x, rest);
    BodyBracketed(p, x, p.startOk(x), inner);
    BodyBracketed(p, parent, true, later);
    BodyWhere(p, x, p.startOk(x), inner);
    BodyWhere(p, parent, true, later);
    if y in later {
      BodySkips(p, parent, true, later, y);
      forall e | e in sub && Where(e) != parent ensures x <= Where(e) {}
      assert Where(Skip(y)) == y && !(x <= y) && y != parent;
      LaterSkips(p, x, sub, tail, y);
    } else {
      assert y == x || y in inner;
      if y in inner { BodySkips(p, x, p.startOk(x), inner, y); }
      LaterDoesNotSkip(parent, x, rest, n, tail, y);
      OnlyOwnSkips(p, x, inner, y);
      RunSkips(p, parent, x, inner, tail, y);
    }
  }

  lemma LaterSkips(p: Policy, x: Index, sub: seq<Event>, tail: seq<Event>, y: Index)
    requires !(x <= y) && Skip(y) !in sub && forall z :: Start(z) in sub ==> x <= z
    ensures Skip(y) in sub + tail <==> Skip(y) in tail
    ensures UnderFailed(p, sub + tail, y) <==> UnderFailed(p, tail, y)
  {
  }

  lemma RunSkips(p: Policy, parent: Index, x: Index, inner: seq<Index>, tail: seq<Event>, y: Index)
    requires x <= y && Skip(y) !in tail && forall z :: Start(z) in tail ==> !(z < y)
    requires y != x ==>
      (Skip(y) in Body(p, x, p.startOk(x), inner) <==>
       !p.startOk(x) || UnderFailed(p, Body(p, x, p.startOk(x), inner), y))
    requires y == x ==>
      Skip(y) !in Body(p, x, p.startOk(x), inner) &&
      forall z :: Start(z) in Body(p, x, p.startOk(x), inner) ==> !(z < y)
    ensures var t := Subtree(p, parent, x, inner) + tail; Skip(y) in t <==> UnderFailed(p, t, y)
  {
    hide Body;
    var body, t := Body(p, x, p.startOk(x), inner), Subtree(p, parent, x, inner) + tail;
    assert Skip(y) in t <==> Skip(y) in body;
    assert Start(x) in t;
    forall z ensures Start(z) in t <==> z == x || Start(z) in body || Start(z) in tail {}
  }

  /** The calls after a run neither skip an index of the run nor start above it. */
  lemma LaterDoesNotSkip(parent: Index, x: Index, rest: seq<Index>, n: nat, tail: seq<Event>, y: Index)
    requires Increasing([x] + rest) && StrictlyUnder([x] + rest, parent) && n == LeadingUnder(rest, x)
    requires AllBracketed(tail, rest[n..]) && EventsAmong(tail, parent, rest[n..])
    requires y in [x] + rest[..n]
    ensures Skip(y) !in tail && forall z :: Start(z) in tail ==> !(z < y)
  {
    hide Bracketed;
    forall z | z in rest[n..] ensures z != y && !(z <= y) {
      EarlierInRun(x, rest, n, y, z);
      EarlierNotUnder(y, z);
      Total(y, z);
    }
    assert y in [x] + rest;
    assert y != parent;
    assert Where(Skip(y)) == y;
  }

  /** Within a body every start and every skip is of an index of its stream, so strictly under it. */
  lemma OnlyOwnSkips(p: Policy, x: Index, inner: seq<Index>, y: Index)
    requires Increasing(inner) && StrictlyUnder(inner, x) && (y == x || y in inner)
    ensures var body := Body(p, x, p.startOk(x), inner);
      (y == x ==> Skip(y) !in body && forall z :: Start(z) in body ==> !(z < y))
  {
    hide Bracketed;
    var body := Body(p, x, p.startOk(x), inner);
    BodyBracketed(p, x, p.startOk(x), inner);
    if Skip(x) in body { BodySkipsIn(p, x, p.startOk(x), inner, x); }
  }

  lemma {:induction false} BodySkipsIn(p: Policy, parent: Index, ok: bool, s: seq<Index>, y: Index)
    requires Skip(y) in Body(p, parent, ok, s)
    ensures y in s
    decreases |s|
  {
    var x, rest := s[0], s[1..];
    if !ok || p.canFast(x) {
      if y != x { BodySkipsIn(p, parent, ok, rest, y); }
    } else {
      var n := LeadingUnder(rest, x);
      if Skip(y) in Body(p, x, p.startOk(x), rest[..n]) {
        BodySkipsIn(p, x, p.startOk(x), rest[..n], y);
      } else {
        BodySkipsIn(p, parent, ok, rest[n..], y);
      }
    }
  }

  /** Exactly the indices under a branch whose start failed are skipped. */
  lemma SkippedIffUnderFailed(p: Policy, s: seq<Index>, y: Index)
    requires Increasing(s) && UnderFirst(s) && y in s
    ensures Skip(y) in TreeTrace(p, s) <==> UnderFailed(p, TreeTrace(p, s), y)
  {
    var x, rest := s[0], s[1..];
    var body := Body(p, x, p.startOk(x), rest);
    var t := TreeTrace(p, s);
    RootFirst(s);
    BodyBracketed(p, x, p.startOk(x), rest);
    if y == x {
      if Skip(x) in body { BodySkipsIn(p, x, p.startOk(x), rest, x); }
      forall z | Start(z) in t ensures !(z < x) {
        if z != x { assert Start(z) in body; assert z in rest; }
      }
    } else {
      BodySkips(p, x, p.startOk(x), rest, y);
      assert Start(x) in t;
    }
  }

  // ----- which branch processes which

  /** Of the branches started here and the one all this is in, q is the innermost around x. */
  ghost predicate Innermost(t: seq<Event>, parent: Index, q: Index, x: Index) {
    (q == parent || Start(q) in t) && q < x && forall y :: Start(y) in t ==> !(q < y && y < x)
  }

  /** An end is followed by the processing of that branch by the innermost one around it. */
  ghost predicate ProcessedNext(t: seq<Event>, parent: Index, k: nat)
    requires k < |t|
  {
    t[k].End? ==>
      k + 1 < |t| && t[k + 1].Process? && t[k + 1].child == t[k].index &&
      Innermost(t, parent, t[k + 1].parent, t[k].index)
  }

  /** A branch is processed only when it has just ended. */
  ghost predicate JustEnded(t: seq<Event>, k: nat)
    requires k < |t|
  {
    t[k].Process? ==> k > 0 && t[k - 1] == End(t[k].child)
  }

  ghost predicate AllProcessed(t: seq<Event>, parent: Index) {
    forall k :: 0 <= k < |t| ==> ProcessedNext(t, parent, k) && JustEnded(t, k)
  }

  ghost predicate OwnBranches(t: seq<Event>, s: seq<Index>) {
    forall e :: e in t && (e.Start? || e.End?) ==> e.index in s
  }

  lemma {:induction false} BodyOwnBranches(p: Policy, parent: Index, ok: bool, s: seq<Index>)
    ensures OwnBranches(Body(p, parent, ok, s), s)
    decreases |s|
  {
    if s != [] {
      if !ok || p.canFast(s[0]) {
        BodyOwnBranches(p, parent, ok, s[1..]);
      } else {
        var x, n := s[0], LeadingUnder(s[1..], s[0]);
        BodyOwnBranches(p, x, p.startOk(x), s[1..][..n]);
        BodyOwnBranches(p, parent, ok, s[1..][n..]);
      }
    }
  }

  lemma InnermostLater(pre: seq<Event>, t: seq<Event>, post: seq<Event>, parent: Index, q: Index, x: Index)
    requires Innermost(t, parent, q, x)
    requires forall y :: Start(y) in pre || Start(y) in post ==> !(q < y && y < x)
    ensures Innermost(pre + t + post, parent, q, x)
  {
    forall y | Start(y) in pre + t + post ensures !(q < y && y < x) {
      assert Start(y) in pre || Start(y) in t || Start(y) in post;
    }
  }

  /** What is around some calls only has to start nothing between a branch and the one that processes it. */
  lemma ProcessedAmong(pre: seq<Event>, t: seq<Event>, post: seq<Event>, parent: Index)
    requires AllProcessed(t, parent)
    requires forall k, y :: 0 <= k < |t| && t[k].End? && (Start(y) in pre || Start(y) in post) ==> !(y < t[k].index)
    ensures var all := pre + t + post;
      forall k :: |pre| <= k < |pre| + |t| ==> ProcessedNext(all, parent, k) && JustEnded(all, k)
  {
    hide Innermost;
    var all := pre + t + post;
    forall k | |pre| <= k < |pre| + |t| ensures ProcessedNext(all, parent, k) && JustEnded(all, k) {
      var j := k - |pre|;
      assert all[k] == t[j] && ProcessedNext(t, parent, j) && JustEnded(t, j);
      if t[j].End? {
        assert all[k + 1] == t[j + 1];
        InnermostLater(pre, t, post, parent, t[j + 1].parent, t[j].index);
      }
      if t[j].Process? { assert all[k - 1] == t[j - 1]; }
    }
  }

  lemma InnermostThrough(t: seq<Event>, parent: Index, x: Index, pre: seq<Event>, post: seq<Event>)
    requires AllProcessed(t, x) && parent < x && Start(x) in pre
    requires forall y :: Start(y) in pre || Start(y) in post ==> y == x
    requires forall y :: Start(y) in t || End(y) in t ==> x < y
    ensures var all := pre + t + post;
      forall k :: |pre| <= k < |pre| + |t| ==> ProcessedNext(all, parent, k) && JustEnded(all, k)
  {
    var all := pre + t + post;
    forall k | |pre| <= k < |pre| + |t| ensures ProcessedNext(all, parent, k) && JustEnded(all, k) {
      var j := k - |pre|;
      assert all[k] == t[j] && ProcessedNext(t, x, j) && JustEnded(t, j);
      if t[j].End? {
        var q := t[j + 1].parent;
        assert all[k + 1] == t[j + 1];
        assert q == x || Start(q) in t;
        assert Start(q) in all;
        forall y | Start(y) in all ensures !(q < y && y < t[j].index) {
          assert Start(y) in t || y == x;
        }
      }
      if t[j].Process? { assert all[k - 1] == t[j - 1]; }
    }
  }

  lemma SubtreeProcessed(p: Policy, parent: Index, x: Index, s: seq<Index>)
    requires parent < x && StrictlyUnder(s, x) && AllProcessed(Body(p, x, p.startOk(x), s), x)
    ensures AllProcessed(Subtree(p, parent, x, s), parent)
    ensures OwnBranches(Subtree(p, parent, x, s), [x] + s)
  {
    hide Body;
    var body, t := Body(p, x, p.startOk(x), s), Subtree(p, parent, x, s);
    var post := [End(x), Process(parent, x)];
    BodyOwnBranches(p, x, p.startOk(x), s);
    assert t == [Start(x)] + body + post;
    InnermostThrough(body, parent, x, [Start(x)], post);
    forall y | Start(y) in t ensures !(y < x) {
      assert Start(y) in body ==> y in s;
    }
    forall k | 0 <= k < |t| ensures ProcessedNext(t, parent, k) && JustEnded(t, k) {
      if k > |body| {
        assert t[|body| + 1] == End(x) && t[|body| + 2] == Process(parent, x);
      }
    }
  }

  lemma JoinProcessed(parent: Index, x: Index, rest: seq<Index>, n: nat, sub: seq<Event>, tail: seq<Event>)
    requires Increasing([x] + rest) && n == LeadingUnder(rest, x)
    requires AllProcessed(sub, parent) && OwnBranches(sub, [x] + rest[..n])
    requires AllProcessed(tail, parent) && OwnBranches(tail, rest[n..])
    ensures AllProcessed(sub + tail, parent)
  {
    AfterRunNotUnder(x, rest);
    hide LeadingUnder, Increasing, ProcessedNext, JustEnded;
    forall y | y in rest[n..] ensures !(y <= x) && !(x <= y) { EarlierNotUnder(x, y); }
    forall z | z in [x] + rest[..n] ensures x <= z {}
    forall z, y | z in [x] + rest[..n] && y in rest[n..] ensures !(y < z) && !(z < y) {}
    forall k, y | 0 <= k < |sub| && sub[k].End? && Start(y) in tail ensures !(y < sub[k].index) {
      assert sub[k] in sub;
    }
    forall k, y | 0 <= k < |tail| && tail[k].End? && Start(y) in sub ensures !(y < tail[k].index) {
      assert tail[k] in tail;
    }
    ProcessedAmong([], sub, tail, parent);
    ProcessedAmong(sub, tail, [], parent);
    assert [] + sub + tail == sub + tail && sub + tail + [] == sub + tail;
  }

  lemma {:induction false} BodyProcessed(p: Policy, parent: Index, ok: bool, s: seq<Index>)
    requires Increasing(s) && StrictlyUnder(s, parent)
    ensures AllProcessed(Body(p, parent, ok, s), parent)
    decreases |s|
  {
    BodyParts(p, parent, ok, s);
    if s != [] {
      var x, rest := s[0], s[1..];
      assert s == [x] + rest;
      var n := LeadingUnder(rest, x);
      UnderParts(parent, x, rest, n);
      AfterRunNotUnder(x, rest);
      hide Body, Subtree, LeadingUnder, AllProcessed;
      if !ok || p.canFast(x) {
        var event, tail := if ok then Fast(x) else Skip(x), Body(p, parent, ok, rest);
        BodyProcessed(p, parent, ok, rest);
        NothingToProcess(event, tail, parent);
      } else {
        BodyProcessed(p, x, p.startOk(x), rest[..n]);
        SubtreeProcessed(p, parent, x, rest[..n]);
        BodyProcessed(p, parent, ok, rest[n..]);
        BodyOwnBranches(p, parent, ok, rest[n..]);
        JoinProcessed(parent, x, rest, n, Subtree(p, parent, x, rest[..n]), Body(p, parent, ok, rest[n..]));
      }
    }
  }

  lemma NothingToProcess(e: Event, t: seq<Event>, parent: Index)
    requires (e.Fast? || e.Skip?) && AllProcessed(t, parent)
    ensures AllProcessed([e] + t, parent)
  {
    var all := [e] + t;
    assert all[0] == e;
    assert ProcessedNext(all, parent, 0) && JustEnded(all, 0);
    hide Innermost, ProcessedNext, JustEnded;
    ProcessedAmong([e], t, [], parent);
    assert [e] + t + [] == all;
  }

  /**
   * Every branch but the root's is processed right after its end, once, by the innermost branch around it; and
   * nothing else is processed.
   */
  lemma BranchesAreProcessed(p: Policy, s: seq<Index>)
    requires s != [] && Increasing(s) && UnderFirst(s)
    ensures var t := TreeTrace(p, s);
      forall k :: 0 <= k < |t| && t[k] != End(s[0]) ==> ProcessedNext(t, s[0], k) && JustEnded(t, k)
  {
    var x, rest := s[0], s[1..];
    RootFirst(s);
    hide Body, Increasing, UnderFirst;
    var body, t := Body(p, x, p.startOk(x), rest), TreeTrace(p, s);
    BodyProcessed(p, x, p.startOk(x), rest);
    BodyOwnBranches(p, x, p.startOk(x), rest);
    assert t == [Start(x)] + body + [End(x)];
    hide ProcessedNext, JustEnded;
    RootAround(body, x);
  }

  lemma RootAround(body: seq<Event>, x: Index)
    requires AllProcessed(body, x) && forall y :: Start(y) in body ==> x < y
    ensures var t := [Start(x)] + body + [End(x)];
      forall k :: 0 <= k < |t| && t[k] != End(x) ==> ProcessedNext(t, x, k) && JustEnded(t, k)
  {
    var t := [Start(x)] + body + [End(x)];
    forall k | 0 <= k < |t| && t[k] != End(x) ensures ProcessedNext(t, x, k) && JustEnded(t, k) {
      if k > 0 {
        var j := k - 1;
        assert t[k] == body[j] && ProcessedNext(body, x, j) && JustEnded(body, j);
        if body[j].End? {
          assert t[k + 1] == body[j + 1];
          var q := body[j + 1].parent;
          forall y | Start(y) in t ensures !(q < y && y < body[j].index) {
            assert Start(y) in body || y == x;
          }
        }
        if body[j].Process? { assert t[k - 1] == body[j - 1]; }
      }
    }
  }
}
