/** selection.Select: which paths of a directory tree are iterated, and in which order. */
module Selection {
  import opened Indices
  import opened Paths
  import opened TreeReducer
  import opened TreeShape
  import opened TreeEffects

  // ----- Select.Select

  /** What one selection function returns for a path: None, 0, 1 or 2. */
  datatype Opinion = Silent | Exclude | Include | Scan

  predicate Decides(o: Opinion) { o.Exclude? || o.Include? }

  /** The first 0 or 1 decides; a 2 before an exclusion, or with no decision, asks for a scan. */
  predicate IsVerdict(opinions: seq<Opinion>, verdict: Opinion) {
    if Include in opinions || Exclude in opinions then
      exists k :: 0 <= k < |opinions| && Include !in opinions[..k] && Exclude !in opinions[..k] &&
        match opinions[k]
        case Include => verdict == Include
        case Exclude => verdict == if Scan in opinions[..k] then Scan else Exclude
        case _ => false
    else verdict == if Scan in opinions then Scan else Include
  }

  method SelectPath(opinions: seq<Opinion>) returns (result: Opinion)
    ensures IsVerdict(opinions, result)
  {
    if opinions == [] {
      return Include;
    }
    var scanPending := false;
    result := Silent;
    var n := 0;
    while n < |opinions|
      invariant n <= |opinions|
      invariant forall j :: 0 <= j < n ==> !Decides(opinions[j])
      invariant !Decides(result) && (result.Scan? ==> scanPending)
      invariant scanPending <==> Scan in opinions[..n]
    {
      result := opinions[n];
      assert opinions[..n + 1] == opinions[..n] + [opinions[n]];
      if result.Scan? {
        scanPending := true;
      } else if Decides(result) {
        break;
      }
      n := n + 1;
    }
    assert n == |opinions| ==> opinions[..n] == opinions;
    if scanPending && !result.Include? {
      result := Scan;
    }
    if result.Silent? {
      result := Include;
    }
  }

  // ----- Select.Iterate

  /**
   * A path as diryield finds it: the verdict of Select.Select, and whether it has to be left out
   * because it cannot be initialised or read.
   */
  datatype Node = Node(name: Component, isDir: bool, blocked: bool, verdict: Opinion, children: seq<Node>)

  /** diryield: 0 for a path to iterate, 1 for a directory to scan, None for neither. */
  function Yielded(node: Node): Option<int> {
    if node.blocked then None
    else if node.verdict.Include? then Some(0)
    else if node.verdict.Scan? && node.isDir then Some(1)
    else None
  }

  /** The recursive definition: a scanned directory only counts, before its contents, if they yield something. */
  function Emit(node: Node, at: Index): seq<Index>
    decreases node, 1
  {
    match Yielded(node)
    case None => []
    case Some(val) =>
      var inner := if node.isDir then EmitAll(node.children, at) else [];
      if val == 1 && inner == [] then [] else [at] + inner
  }

  function EmitAll(nodes: seq<Node>, at: Index): seq<Index>
    decreases nodes, 0
  {
    if nodes == [] then [] else Emit(nodes[0], at + [nodes[0].name]) + EmitAll(nodes[1..], at)
  }

  /** A suspended diryield generator. */
  datatype Gen = Gen(at: Index, rest: seq<Node>)

  function Size(node: Node): nat
    decreases node, 1
  {
    2 + SizeAll(node.children)
  }

  function SizeAll(nodes: seq<Node>): nat
    decreases nodes, 0
  {
    if nodes == [] then 0 else Size(nodes[0]) + SizeAll(nodes[1..])
  }

  function StackSize(stack: seq<Gen>): nat {
    if stack == [] then 0 else StackSize(stack[..|stack| - 1]) + 1 + SizeAll(stack[|stack| - 1].rest)
  }

  /** What is still yielded when these generators are suspended and these directories delayed. */
  function Rest(stack: seq<Gen>, delayed: seq<Index>): seq<Index>
    decreases |stack|
  {
    if stack == [] then []
    else
      var below, top := stack[..|stack| - 1], stack[|stack| - 1];
      var inner := EmitAll(top.rest, top.at);
      if inner == [] then Rest(below, if delayed == [] then [] else delayed[..|delayed| - 1])
      else delayed + inner + Rest(below, [])
  }

  /** The delayed directories are those of the topmost generators. */
  ghost predicate Matched(stack: seq<Gen>, delayed: seq<Index>) {
    |delayed| <= |stack| &&
    forall j :: 0 <= j < |delayed| ==> delayed[j] == stack[|stack| - |delayed| + j].at
  }

  function Resumed(stack: seq<Gen>, rest: seq<Node>): seq<Gen>
    requires stack != []
  {
    stack[..|stack| - 1] + [stack[|stack| - 1].(rest := rest)]
  }

  lemma {:induction false} PlainRest(stack: seq<Gen>)
    requires stack != []
    ensures var top := stack[|stack| - 1];
      Rest(stack, []) == EmitAll(top.rest, top.at) + Rest(stack[..|stack| - 1], [])
  {
  }

  lemma {:induction false} PassOver(stack: seq<Gen>, delayed: seq<Index>)
    requires stack != [] && stack[|stack| - 1].rest != [] && Yielded(stack[|stack| - 1].rest[0]).None?
    ensures Rest(Resumed(stack, stack[|stack| - 1].rest[1..]), delayed) == Rest(stack, delayed)
  {
    var top := stack[|stack| - 1];
    assert EmitAll(top.rest, top.at) == EmitAll(top.rest[1..], top.at);
    assert Resumed(stack, top.rest[1..])[..|stack| - 1] == stack[..|stack| - 1];
  }

  /** An included path flushes the delayed directories. */
  lemma {:induction false} IncludeStep(stack: seq<Gen>, delayed: seq<Index>)
    requires stack != [] && stack[|stack| - 1].rest != []
    requires Yielded(stack[|stack| - 1].rest[0]) == Some(0)
    ensures var top := stack[|stack| - 1];
      var node, sub := top.rest[0], top.at + [top.rest[0].name];
      var resumed := Resumed(stack, top.rest[1..]);
      Rest(stack, delayed) ==
      delayed + [sub] + Rest(if node.isDir then resumed + [Gen(sub, node.children)] else resumed, [])
  {
    hide EmitAll;
    var below, top := stack[..|stack| - 1], stack[|stack| - 1];
    var node, sub := top.rest[0], top.at + [top.rest[0].name];
    var resumed := Resumed(stack, top.rest[1..]);
    var later := EmitAll(top.rest[1..], top.at);
    var own := if node.isDir then EmitAll(node.children, sub) else [];
    EmitFirst(top.rest, top.at);
    assert resumed[..|stack| - 1] == below;
    PlainRest(resumed);
    if node.isDir {
      var pushed := resumed + [Gen(sub, node.children)];
      assert pushed[..|resumed|] == resumed;
      PlainRest(pushed);
    }
    assert EmitAll(top.rest, top.at) == [sub] + own + later;
    assert Rest(stack, delayed) == delayed + ([sub] + own + later) + Rest(below, []);
    Assoc([sub] + own, later, Rest(below, []));
    Assoc([sub], own, later + Rest(below, []));
    Assoc(delayed, [sub] + own + later, Rest(below, []));
    Assoc(delayed, [sub], own + (later + Rest(below, [])));
  }

  lemma {:induction false} EmitFirst(nodes: seq<Node>, at: Index)
    requires nodes != []
    ensures EmitAll(nodes, at) == Emit(nodes[0], at + [nodes[0].name]) + EmitAll(nodes[1..], at)
  {
  }

  /** A directory to scan is delayed together with its generator. */
  lemma {:induction false} ScanStep(stack: seq<Gen>, delayed: seq<Index>)
    requires stack != [] && stack[|stack| - 1].rest != []
    requires Yielded(stack[|stack| - 1].rest[0]) == Some(1)
    ensures var top := stack[|stack| - 1];
      var node, sub := top.rest[0], top.at + [top.rest[0].name];
      Rest(stack, delayed) ==
      Rest(Resumed(stack, top.rest[1..]) + [Gen(sub, node.children)], delayed + [sub])
  {
    hide EmitAll;
    var below, top := stack[..|stack| - 1], stack[|stack| - 1];
    var node, sub := top.rest[0], top.at + [top.rest[0].name];
    var resumed := Resumed(stack, top.rest[1..]);
    var pushed := resumed + [Gen(sub, node.children)];
    var inner, later := EmitAll(node.children, sub), EmitAll(top.rest[1..], top.at);
    EmitFirst(top.rest, top.at);
    assert pushed[..|resumed|] == resumed && resumed[..|stack| - 1] == below;
    assert (delayed + [sub])[..|delayed|] == delayed;
    if inner == [] {
      assert EmitAll(top.rest, top.at) == later;
      assert Rest(pushed, delayed + [sub]) == Rest(resumed, delayed);
    } else {
      PlainRest(resumed);
      assert Rest(pushed, delayed + [sub]) == delayed + [sub] + inner + (later + Rest(below, []));
      assert Rest(stack, delayed) == delayed + ([sub] + inner + later) + Rest(below, []);
      Assoc(delayed, [sub], inner);
      Assoc(delayed, [sub] + inner, later + Rest(below, []));
      Assoc([sub] + inner, later, Rest(below, []));
      Assoc(delayed, [sub] + inner + later, Rest(below, []));
    }
  }

  /** next(diryield): pass over what is not yielded; None at the end of the directory. */
  method NextYield(stack0: seq<Gen>, ghost delayed: seq<Index>) returns (stack: seq<Gen>, node: Option<Node>)
    requires stack0 != []
    ensures |stack| == |stack0| && stack[..|stack| - 1] == stack0[..|stack| - 1]
    ensures stack[|stack| - 1].at == stack0[|stack| - 1].at && StackSize(stack) <= StackSize(stack0)
    ensures Rest(stack, delayed) == Rest(stack0, delayed)
    ensures if stack[|stack| - 1].rest == [] then node == None
            else node == Some(stack[|stack| - 1].rest[0]) && Yielded(node.value).Some?
  {
    hide Rest;
    stack := stack0;
    while stack[|stack| - 1].rest != [] && Yielded(stack[|stack| - 1].rest[0]).None?
      invariant |stack| == |stack0| && stack[..|stack| - 1] == stack0[..|stack| - 1]
      invariant stack[|stack| - 1].at == stack0[|stack| - 1].at && StackSize(stack) <= StackSize(stack0)
      invariant Rest(stack, delayed) == Rest(stack0, delayed)
      decreases |stack[|stack| - 1].rest|
    {
      PassOver(stack, delayed);
      stack := Resumed(stack, stack[|stack| - 1].rest[1..]);
    }
    node := if stack[|stack| - 1].rest == [] then None else Some(stack[|stack| - 1].rest[0]);
  }

  lemma {:induction false} ResumedSize(stack: seq<Gen>, sub: Index)
    requires stack != [] && stack[|stack| - 1].rest != []
    ensures var top := stack[|stack| - 1];
      var resumed := Resumed(stack, top.rest[1..]);
      StackSize(resumed) < StackSize(stack) &&
      StackSize(resumed + [Gen(sub, top.rest[0].children)]) < StackSize(stack)
  {
    var top := stack[|stack| - 1];
    var resumed := Resumed(stack, top.rest[1..]);
    assert resumed[..|stack| - 1] == stack[..|stack| - 1];
    assert (resumed + [Gen(sub, top.rest[0].children)])[..|resumed|] == resumed;
    assert SizeAll(top.rest) == Size(top.rest[0]) + SizeAll(top.rest[1..]);
    assert Size(top.rest[0]) == 2 + SizeAll(top.rest[0].children);
    assert StackSize(stack) == StackSize(stack[..|stack| - 1]) + 1 + SizeAll(top.rest);
  }

  // ----- which paths are iterated

  /** names lead to an included path, through directories that are included or scanned. */
  ghost predicate Included(nodes: seq<Node>, names: seq<Component>)
    decreases |names|, 0
  {
    names != [] && exists n :: n in nodes && n.name == names[0] && IncludedFrom(n, names[1..])
  }

  ghost predicate IncludedFrom(node: Node, names: seq<Component>)
    decreases |names|, 1
  {
    !node.blocked &&
    if names == [] then node.verdict == Include
    else node.isDir && (node.verdict == Include || node.verdict == Scan) && Included(node.children, names)
  }

  ghost predicate AnyIncluded(nodes: seq<Node>) {
    exists names: seq<Component> :: Included(nodes, names)
  }

  ghost predicate AnyIncludedFrom(node: Node) {
    exists names: seq<Component> :: IncludedFrom(node, names)
  }

  lemma AnyIncludedIff(nodes: seq<Node>)
    ensures AnyIncluded(nodes) <==> exists n :: n in nodes && AnyIncludedFrom(n)
  {
    if names: seq<Component> :| Included(nodes, names) {
      var n :| n in nodes && n.name == names[0] && IncludedFrom(n, names[1..]);
      assert AnyIncludedFrom(n);
    }
    if n :| n in nodes && AnyIncludedFrom(n) {
      var names: seq<Component> :| IncludedFrom(n, names);
      assert ([n.name] + names)[1..] == names;
      assert Included(nodes, [n.name] + names);
    }
  }

  lemma AnyIncludedFromIff(node: Node)
    ensures AnyIncludedFrom(node) <==>
            !node.blocked &&
            (node.verdict == Include || (node.isDir && node.verdict == Scan && AnyIncluded(node.children)))
  {
    if names: seq<Component> :| IncludedFrom(node, names) {
      assert names != [] ==> Included(node.children, names);
    }
    if !node.blocked && node.verdict == Include {
      assert IncludedFrom(node, []);
    }
    if !node.blocked && node.isDir && node.verdict == Scan {
      if names: seq<Component> :| Included(node.children, names) { assert IncludedFrom(node, names); }
    }
  }

  /** names lead in the same way to an included path, or to a scanned directory with one under it. */
  ghost predicate Selected(nodes: seq<Node>, names: seq<Component>)
    decreases |names|, 0
  {
    names != [] && exists n :: n in nodes && n.name == names[0] && SelectedFrom(n, names[1..])
  }

  ghost predicate SelectedFrom(node: Node, names: seq<Component>)
    decreases |names|, 1
  {
    !node.blocked &&
    if names == [] then
      node.verdict == Include ||
      (node.isDir && node.verdict == Scan && AnyIncluded(node.children))
    else node.isDir && (node.verdict == Include || node.verdict == Scan) && Selected(node.children, names)
  }

  lemma {:induction false} EmittedFrom(nodes: seq<Node>, at: Index, x: Index)
    ensures x in EmitAll(nodes, at) <==> exists n :: n in nodes && x in Emit(n, at + [n.name])
  {
    hide Emit;
    if nodes != [] {
      EmittedFrom(nodes[1..], at, x);
      EmitFirst(nodes, at);
      assert nodes == [nodes[0]] + nodes[1..];
    }
  }

  lemma {:induction false} EmittedUnder(nodes: seq<Node>, at: Index, x: Index)
    requires x in EmitAll(nodes, at)
    ensures exists n :: n in nodes && at + [n.name] <= x && x in Emit(n, at + [n.name])
    decreases nodes, 0
  {
    EmittedFrom(nodes, at, x);
    var n :| n in nodes && x in Emit(n, at + [n.name]);
    if x != at + [n.name] { EmittedUnder(n.children, at + [n.name], x); }
  }

  /** A directory yields something exactly if an included path lies under it. */
  lemma {:induction false} YieldsIff(nodes: seq<Node>, at: Index)
    ensures EmitAll(nodes, at) != [] <==> AnyIncluded(nodes)
    decreases nodes, 0
  {
    AnyIncludedIff(nodes);
    if n :| n in nodes && AnyIncludedFrom(n) {
      YieldsFrom(n, at + [n.name]);
      EmittedFrom(nodes, at, Emit(n, at + [n.name])[0]);
    }
    if EmitAll(nodes, at) != [] {
      var x := EmitAll(nodes, at)[0];
      EmittedFrom(nodes, at, x);
      var n :| n in nodes && x in Emit(n, at + [n.name]);
      YieldsFrom(n, at + [n.name]);
    }
  }

  lemma {:induction false} YieldsFrom(node: Node, at: Index)
    ensures Emit(node, at) != [] <==> AnyIncludedFrom(node)
    decreases node, 1
  {
    AnyIncludedFromIff(node);
    YieldsIff(node.children, at);
  }

  lemma OtherName(at: Index, name: Component, names: seq<Component>)
    requires names != [] && at + [name] <= at + names
    ensures name == names[0]
  {
    assert (at + [name])[|at|] == (at + names)[|at|];
  }

  lemma OwnFirst(node: Node, at: Index)
    ensures Emit(node, at) != [] ==> Emit(node, at)[0] == at
    ensures forall x :: x in Emit(node, at) ==> at <= x
  {
    forall x | x in Emit(node, at) ensures at <= x { EmittedInside(node, at, x); }
  }

  /**
   * A path is iterated if and only if nothing on the way to it is unreadable, everything above it is an included
   * or scanned directory, and it is included itself, or a scanned directory with an included path under it.
   */
  lemma {:induction false} IteratedIff(nodes: seq<Node>, at: Index, names: seq<Component>)
    ensures names != [] ==> (at + names in EmitAll(nodes, at) <==> Selected(nodes, names))
    decreases |names|, 0
  {
    if names != [] {
      var x := at + names;
      EmittedFrom(nodes, at, x);
      forall n | n in nodes
        ensures x in Emit(n, at + [n.name]) <==> n.name == names[0] && SelectedFrom(n, names[1..])
      {
        if n.name == names[0] {
          assert x == at + [n.name] + names[1..];
          IteratedFromIff(n, at + [n.name], names[1..]);
        } else if x in Emit(n, at + [n.name]) {
          EmittedInside(n, at + [n.name], x);
          OtherName(at, n.name, names);
        }
      }
    }
  }

  lemma EmittedInside(node: Node, at: Index, x: Index)
    requires x in Emit(node, at)
    ensures at <= x && (x != at ==> node.isDir && x in EmitAll(node.children, at) && at < x)
  {
    if x != at { EmittedUnder(node.children, at, x); }
  }

  lemma {:induction false} IteratedFromIff(node: Node, at: Index, names: seq<Component>)
    ensures at + names in Emit(node, at) <==> SelectedFrom(node, names)
    decreases |names|, 1
  {
    if names == [] {
      assert at + names == at;
      OwnFirst(node, at);
      YieldsFrom(node, at);
      AnyIncludedFromIff(node);
    } else {
      IteratedIff(node.children, at, names);
    }
  }

  /** names lead to this node. */
  ghost predicate LeadTo(nodes: seq<Node>, names: seq<Component>, node: Node)
    decreases |names|
  {
    names != [] && exists n ::
      n in nodes && n.name == names[0] && if |names| == 1 then n == node else LeadTo(n.children, names[1..], node)
  }

  lemma OneOfName(nodes: seq<Node>, m: Node, n: Node)
    requires NamesSorted(nodes) && m in nodes && n in nodes && m.name == n.name
    ensures m == n
  {
    var i, j :| 0 <= i < |nodes| && 0 <= j < |nodes| && nodes[i] == m && nodes[j] == n;
    BytesTotal(m.name, n.name);
  }

  /** An excluded path is not iterated, and nothing under it is. */
  lemma {:induction false} ExcludedIsNotIterated(
      nodes: seq<Node>, at: Index, names: seq<Component>, node: Node, below: seq<Component>)
    requires AllListed(nodes) && LeadTo(nodes, names, node) && node.verdict == Exclude
    ensures !Selected(nodes, names + below) && at + names + below !in EmitAll(nodes, at)
    decreases |names|
  {
    hide Emit, EmitAll;
    var n :| n in nodes && n.name == names[0] &&
      if |names| == 1 then n == node else LeadTo(n.children, names[1..], node);
    var all := names + below;
    assert all[1..] == names[1..] + below;
    assert !SelectedFrom(n, all[1..]) by {
      if |names| > 1 { ExcludedIsNotIterated(n.children, at, names[1..], node, below); }
    }
    forall m | m in nodes && m.name == all[0] ensures m == n { OneOfName(nodes, m, n); }
    IteratedIff(nodes, at, all);
    assert at + all == at + names + below;
  }

  /** What is yielded below at is what is selected. */
  ghost predicate Exactly(yielded: seq<Index>, nodes: seq<Node>, at: Index) {
    && (forall names :: names != [] ==> (at + names in yielded <==> Selected(nodes, names)))
    && (forall x :: x in yielded ==> at < x)
  }

  lemma SelectedExactly(nodes: seq<Node>, at: Index)
    ensures Exactly(EmitAll(nodes, at), nodes, at)
  {
    forall names ensures names != [] ==> (at + names in EmitAll(nodes, at) <==> Selected(nodes, names)) {
      IteratedIff(nodes, at, names);
    }
    forall x | x in EmitAll(nodes, at) ensures at < x { EmittedUnder(nodes, at, x); }
  }

  /** Iterate below a directory: the two stacks yield what the recursive definition says. */
  method Iterate(children: seq<Node>, at: Index) returns (yielded: seq<Index>)
    ensures yielded == EmitAll(children, at)
    ensures Exactly(yielded, children, at)
  {
    SelectedExactly(children, at);
    hide EmitAll, Rest, StackSize, Exactly;
    ghost var all := EmitAll(children, at);
    var diryieldStack := [Gen(at, children)];
    var delayedPathStack: seq<Index> := [];
    yielded := [];
    assert Rest(diryieldStack, []) == all by { OnlyGenerator(at, children); }
    while diryieldStack != []
      invariant Matched(diryieldStack, delayedPathStack)
      invariant yielded + Rest(diryieldStack, delayedPathStack) == all
      decreases StackSize(diryieldStack)
    {
      var node;
      diryieldStack, node := NextYield(diryieldStack, delayedPathStack);
      var top := diryieldStack[|diryieldStack| - 1];
      if node.None? {
        PopGenerator(diryieldStack, delayedPathStack);
        diryieldStack := diryieldStack[..|diryieldStack| - 1];
        if delayedPathStack != [] {
          delayedPathStack := delayedPathStack[..|delayedPathStack| - 1];
        }
        continue;
      }
      var subpath, val := top.at + [node.value.name], Yielded(node.value).value;
      var resumed := Resumed(diryieldStack, top.rest[1..]);
      ResumedSize(diryieldStack, subpath);
      if val == 0 {
        IncludeStep(diryieldStack, delayedPathStack);
        Regroup(yielded, delayedPathStack, [subpath],
                Rest(if node.value.isDir then resumed + [Gen(subpath, node.value.children)] else resumed, []));
        yielded := yielded + delayedPathStack + [subpath];
        delayedPathStack := [];
        diryieldStack := if node.value.isDir then resumed + [Gen(subpath, node.value.children)] else resumed;
      } else {
        ScanStep(diryieldStack, delayedPathStack);
        delayedPathStack := delayedPathStack + [subpath];
        diryieldStack := resumed + [Gen(subpath, node.value.children)];
      }
    }
    assert Rest([], delayedPathStack) == [] by { NoGenerators(delayedPathStack); }
  }

  lemma Regroup(a: seq<Index>, b: seq<Index>, c: seq<Index>, d: seq<Index>)
    ensures a + b + c + d == a + (b + c + d)
  {
  }

  lemma NoGenerators(delayed: seq<Index>)
    ensures Rest([], delayed) == []
  {
  }

  lemma OnlyGenerator(at: Index, children: seq<Node>)
    ensures Rest([Gen(at, children)], []) == EmitAll(children, at)
  {
    NoGenerators([]);
    assert [Gen(at, children)][..0] == [];
  }

  lemma PopGenerator(stack: seq<Gen>, delayed: seq<Index>)
    requires stack != [] && stack[|stack| - 1].rest == []
    ensures Rest(stack, delayed) == Rest(stack[..|stack| - 1], if delayed == [] then [] else delayed[..|delayed| - 1])
    ensures StackSize(stack[..|stack| - 1]) < StackSize(stack)
  {
  }

  /** The root comes first whatever the selection functions say; an unreadable one lists nothing. */
  function Iterated(root: Node): seq<Index> {
    [[]] + if root.isDir && !root.blocked then EmitAll(root.children, []) else []
  }

  /** set_iter over a root that exists. */
  method IterateRoot(root: Node) returns (yielded: seq<Index>)
    ensures yielded == Iterated(root)
  {
    yielded := [[]];
    if root.isDir {
      var below := Iterate(if root.blocked then [] else root.children, []);
      yielded := yielded + below;
    }
  }

  // ----- the order and the shape of what is iterated

  /** robust.listpath sorts the names of a directory. */
  ghost predicate NamesSorted(nodes: seq<Node>) {
    forall i, j :: 0 <= i < j < |nodes| ==> BytesLess(nodes[i].name, nodes[j].name)
  }

  ghost predicate AllListed(nodes: seq<Node>) {
    NamesSorted(nodes) && forall n :: n in nodes ==> AllListed(n.children)
  }

  /** paths agrees with the tree on what is a directory. */
  ghost predicate Describes(paths: Index -> ROPath, nodes: seq<Node>, at: Index) {
    forall n :: n in nodes ==>
      (paths(at + [n.name]).IsDir() <==> n.isDir) && Describes(paths, n.children, at + [n.name])
  }

  lemma {:induction false} SiblingOrder(at: Index, x: Index, y: Index)
    requires at < x && at < y && BytesLess(x[|at|], y[|at|])
    ensures Less(x, y)
  {
    if at != [] {
      SiblingOrder(at[1..], x[1..], y[1..]);
    }
  }

  lemma IncreasingJoin(s: seq<Index>, t: seq<Index>)
    requires Increasing(s) && Increasing(t)
    requires forall x, y :: x in s && y in t ==> Less(x, y)
    ensures Increasing(s + t)
  {
  }

  /** Everything below at is strictly under it, through one of the names listed there. */
  ghost predicate Through(s: seq<Index>, at: Index, nodes: seq<Node>) {
    forall y :: y in s ==> at < y && exists n :: n in nodes && y[|at|] == n.name
  }

  lemma {:induction false} EmitOrdered(paths: Index -> ROPath, node: Node, at: Index)
    requires AllListed(node.children)
    requires Describes(paths, node.children, at) && (paths(at).IsDir() <==> node.isDir)
    ensures var s := Emit(node, at);
      s == [] || (s == [at] + s[1..] && Increasing(s) && StrictlyUnder(s[1..], at) &&
                  Rooted(paths, at, s[1..]) && (paths(at).IsDir() || s[1..] == []))
    decreases node, 1
  {
    var inner := if node.isDir then EmitAll(node.children, at) else [];
    EmitAllOrdered(paths, node.children, at);
    assert ([at] + inner)[1..] == inner;
    forall y | y in inner ensures Less(at, y) {
      PrefixAtMost(at, y);
    }
    IncreasingJoin([at], inner);
  }

  lemma {:induction false} EmitAllOrdered(paths: Index -> ROPath, nodes: seq<Node>, at: Index)
    requires AllListed(nodes) && Describes(paths, nodes, at)
    ensures var s := EmitAll(nodes, at); Increasing(s) && Through(s, at, nodes) && Rooted(paths, at, s)
    decreases nodes, 0
  {
    if nodes == [] { return; }
    var first, later, sub := nodes[0], nodes[1..], at + [nodes[0].name];
    hide Emit, EmitAll, AllListed, Describes;
    EmitFirst(nodes, at);
    EmitOrdered(paths, first, sub);
    EmitAllOrdered(paths, later, at);
    ThroughJoin(nodes, at, Emit(first, sub), EmitAll(later, at));
    RootedJoin(paths, at, sub, Emit(first, sub), EmitAll(later, at));
  }

  lemma ThroughJoin(nodes: seq<Node>, at: Index, s: seq<Index>, t: seq<Index>)
    requires nodes != [] && NamesSorted(nodes) && Increasing(s) && Increasing(t)
    requires var sub := at + [nodes[0].name]; s == [] || (s == [sub] + s[1..] && StrictlyUnder(s[1..], sub))
    requires Through(t, at, nodes[1..])
    ensures Increasing(s + t) && Through(s + t, at, nodes)
  {
    var sub := at + [nodes[0].name];
    forall y | y in s ensures at < y && y[|at|] == nodes[0].name {
      assert y == sub || y in s[1..];
      assert sub <= y;
    }
    forall x, y | x in s && y in t ensures Less(x, y) {
      SiblingOrder(at, x, y);
    }
    IncreasingJoin(s, t);
  }

  lemma RootedJoin(paths: Index -> ROPath, at: Index, sub: Index, s: seq<Index>, t: seq<Index>)
    requires sub != [] && ParentOf(sub) == at && Rooted(paths, at, t)
    requires s == [] || (s == [sub] + s[1..] && Rooted(paths, sub, s[1..]) && (paths(sub).IsDir() || s[1..] == []))
    ensures Rooted(paths, at, s + t)
  {
    forall y | y in s + t
      ensures y != [] && (ParentOf(y) == at || (ParentOf(y) in s + t && paths(ParentOf(y)).IsDir()))
    {
      if y in s && y != sub {
        assert y in s[1..] && sub in s;
      }
    }
  }

  /**
   * What is iterated is in strictly increasing order with the root first, and holds the directory of
   * everything in it.
   */
  lemma IteratedTree(paths: Index -> ROPath, root: Node)
    requires AllListed(root.children) && Describes(paths, root.children, [])
    ensures var s := Iterated(root); Increasing(s) && UnderFirst(s) && Rooted(paths, [], s[1..])
  {
    var inner := if root.isDir && !root.blocked then EmitAll(root.children, []) else [];
    EmitAllOrdered(paths, root.children, []);
    assert ([[]] + inner)[1..] == inner;
    IncreasingJoin([[]], inner);
  }
}
