/** Array to tree: the structural check with a stack of open heads, then the reverse build. */
module Rebuild {
  import opened Shapes
  import opened Trees

  datatype Outcome<+T> = Success(value: T) | Failure(status: Status)

  // ---- which index belongs to which head ----

  /** The indices in a suffix that no head of the suffix claims, in order. */
  ghost function Roots<D>(nodes: seq<Node<D>>, i: nat): (roots: seq<nat>)
    requires i <= |nodes|
    ensures forall k :: 0 <= k < |roots| ==> i <= roots[k] < |nodes|
    ensures forall k, l :: 0 <= k < l < |roots| ==> roots[k] < roots[l]
    decreases |nodes| - i
  {
    if i == |nodes| then [] else
    var after := Roots(nodes, i + 1);
    [i] + after[Min(Arity(nodes[i]), |after|)..]
  }

  /** The indices node `i` claims. */
  ghost function MembersAt<D>(nodes: seq<Node<D>>, i: nat): (ms: seq<nat>)
    requires i < |nodes|
    ensures forall k :: 0 <= k < |ms| ==> i < ms[k] < |nodes|
    ensures forall k, l :: 0 <= k < l < |ms| ==> ms[k] < ms[l]
  {
    var after := Roots(nodes, i + 1);
    after[..Min(Arity(nodes[i]), |after|)]
  }

  /** While something is owed before each node of a suffix and nothing at the end, the suffix
      has as many roots as are owed before it. */
  lemma {:induction false} RootsAreOwed<D>(nodes: seq<Node<D>>, i: nat)
    requires i <= |nodes| && OneTree(nodes)
    ensures |Roots(nodes, i)| == Owed(nodes[..i])
    decreases |nodes| - i
  {
    if i == |nodes| {
      assert nodes[..i] == nodes;
    } else {
      RootsAreOwed(nodes, i + 1);
      OwedStep(nodes, i);
      assert Owed(nodes[..i]) > 0;
    }
  }

  lemma OnlyRoot<D>(nodes: seq<Node<D>>)
    requires OneTree(nodes)
    ensures Roots(nodes, 0) == [0]
  {
    RootsAreOwed(nodes, 0);
    assert nodes[..0] == [];
    assert Roots(nodes, 0)[0] == 0;
  }

  /** In an accepted array every node gets all the members it claims. */
  lemma MembersComplete<D>(nodes: seq<Node<D>>, i: nat)
    requires OneTree(nodes) && i < |nodes|
    ensures |MembersAt(nodes, i)| == Arity(nodes[i])
  {
    RootsAreOwed(nodes, i + 1);
    OwedStep(nodes, i);
    assert Owed(nodes[..i]) > 0;
  }

  // ---- the forward pass ----

  ghost predicate OpenBelow(open: seq<(nat, nat)>, i: nat) {
    forall p :: 0 <= p < |open| ==> open[p].0 < i
  }

  ghost function Total(open: seq<(nat, nat)>): nat {
    if open == [] then 0 else Total(open[..|open| - 1]) + open[|open| - 1].1
  }

  /** The member lists once the open heads, last one first, have taken what they are owed. */
  ghost function Distribute(open: seq<(nat, nat)>, members: seq<seq<nat>>, roots: seq<nat>): (r: seq<seq<nat>>)
    requires OpenBelow(open, |members|)
    ensures |r| == |members|
    decreases |open|
  {
    if open == [] then members else
    var (h, owed) := open[|open| - 1];
    var k := Min(owed, |roots|);
    Distribute(open[..|open| - 1], members[h := members[h] + roots[..k]], roots[k..])
  }

  lemma {:induction false} DistributeOther(open: seq<(nat, nat)>, members: seq<seq<nat>>, roots: seq<nat>, i: nat, v: seq<nat>)
    requires OpenBelow(open, i) && i < |members|
    ensures Distribute(open, members[i := v], roots) == Distribute(open, members, roots)[i := v]
    decreases |open|
  {
    if open != [] {
      var (h, owed) := open[|open| - 1];
      var k := Min(owed, |roots|);
      var taken := members[h] + roots[..k];
      assert members[i := v][h := taken] == members[h := taken][i := v];
      DistributeOther(open[..|open| - 1], members[h := taken], roots[k..], i, v);
    }
  }

  /** A head that is owed nothing more can be closed. */
  lemma DistributeClosed(open: seq<(nat, nat)>, h: nat, members: seq<seq<nat>>, roots: seq<nat>)
    requires OpenBelow(open, |members|) && h < |members|
    ensures Distribute(open + [(h, 0)], members, roots) == Distribute(open, members, roots)
  {
    assert (open + [(h, 0)])[..|open|] == open;
    assert members[h] + [] == members[h];
    assert members[h := members[h]] == members;
    assert roots[..0] == [] && roots[0..] == roots;
  }

  /** The innermost open head takes its share first. */
  lemma DistributeTop(open: seq<(nat, nat)>, h: nat, owed: nat, members: seq<seq<nat>>, roots: seq<nat>, k: nat)
    requires OpenBelow(open, |members|) && h < |members| && k == Min(owed, |roots|)
    ensures Distribute(open + [(h, owed)], members, roots)
         == Distribute(open, members[h := members[h] + roots[..k]], roots[k..])
  {
    assert (open + [(h, owed)])[..|open|] == open;
  }

  /** The lists after node `i` has been read, when the innermost head takes `k` roots in all. */
  lemma SameLists(members: seq<seq<nat>>, h: nat, i: nat, mine: seq<nat>, full: seq<nat>, more: seq<nat>)
    requires h < i < |members| && full == members[h] + [i] + more
    ensures var read := members[h := members[h] + [i]][i := mine];
            read[h := read[h] + more] == members[h := full][i := mine]
  {
  }

  lemma FirstRoots(i: nat, rest: seq<nat>, k: nat)
    requires 1 <= k <= 1 + |rest|
    ensures ([i] + rest)[..k] == [i] + rest[..k - 1] && ([i] + rest)[k..] == rest[k - 1..]
  {
  }

  /** Node `i` still to be read: the innermost head takes it and `k - 1` of the roots after it. */
  lemma DistributeBefore(open: seq<(nat, nat)>, h: nat, owed: nat, i: nat, members: seq<seq<nat>>, rest: seq<nat>, k: nat)
    requires OpenBelow(open, |members|) && h < |members| && owed > 0 && k == Min(owed, 1 + |rest|)
    ensures Distribute(open + [(h, owed)], members, [i] + rest)
         == Distribute(open, members[h := members[h] + [i] + rest[..k - 1]], rest[k - 1..])
  {
    FirstRoots(i, rest, k);
    assert members[h] + ([i] + rest[..k - 1]) == members[h] + [i] + rest[..k - 1];
    DistributeTop(open, h, owed, members, [i] + rest, k);
  }

  /** Node `i` read: it takes its own members first, then the head goes on with what is left. */
  lemma DistributeAfter(open: seq<(nat, nat)>, h: nat, owed: nat, i: nat, arity: nat, members: seq<seq<nat>>,
                        after: seq<nat>, a: nat, k: nat)
    requires OpenBelow(open, i) && h < i < |members| && owed > 0 && members[i] == []
    requires a == Min(arity, |after|) && k == Min(owed, 1 + |after[a..]|)
    ensures Distribute(open + [(h, owed - 1)] + [(i, arity)], members[h := members[h] + [i]], after)
         == Distribute(open, members[h := members[h] + [i] + after[a..][..k - 1]], after[a..][k - 1..])[i := after[..a]]
  {
    var taken, rest, mine := members[h := members[h] + [i]], after[a..], after[..a];
    assert taken[i] + mine == mine;
    DistributeTop(open + [(h, owed - 1)], i, arity, taken, after, a);
    DistributeTop(open, h, owed - 1, taken[i := mine], rest, k - 1);
    var full := members[h] + [i] + rest[..k - 1];
    SameLists(members, h, i, mine, full, rest[..k - 1]);
    DistributeOther(open, members[h := full], rest[k - 1..], i, mine);
  }

  /** Reading node `i`: the innermost open head takes it, and it opens its own list. */
  lemma DistributeStep<D>(nodes: seq<Node<D>>, i: nat, open: seq<(nat, nat)>, h: nat, owed: nat, members: seq<seq<nat>>)
    requires i < |nodes| == |members|
    requires OpenBelow(open, i) && h < i && owed > 0 && members[i] == []
    ensures Distribute(open + [(h, owed - 1)] + [(i, Arity(nodes[i]))], members[h := members[h] + [i]], Roots(nodes, i + 1))
         == Distribute(open + [(h, owed)], members, Roots(nodes, i))[i := MembersAt(nodes, i)]
  {
    var after := Roots(nodes, i + 1);
    var a := Min(Arity(nodes[i]), |after|);
    var k := Min(owed, 1 + |after[a..]|);
    DistributeBefore(open, h, owed, i, members, after[a..], k);
    DistributeAfter(open, h, owed, i, Arity(nodes[i]), members, after, a, k);
  }

  lemma TotalPush(open: seq<(nat, nat)>, e: (nat, nat))
    ensures Total(open + [e]) == Total(open) + e.1
  {
    assert (open + [e])[..|open|] == open;
  }

  lemma {:induction false} TotalPositive(open: seq<(nat, nat)>)
    requires forall p :: 0 <= p < |open| ==> open[p].1 > 0
    ensures Total(open) > 0 <==> open != []
  {
    if open != [] { TotalPositive(open[..|open| - 1]); }
  }

  /** Closing a finished head under a newly opened one. */
  lemma ClosedUnder(open: seq<(nat, nat)>, h: nat, top: (nat, nat), members: seq<seq<nat>>, roots: seq<nat>)
    requires OpenBelow(open, |members|) && h < |members| && top.0 < |members|
    ensures Distribute(open + [(h, 0)] + [top], members, roots) == Distribute(open + [top], members, roots)
  {
    var k := Min(top.1, |roots|);
    var next := members[top.0 := members[top.0] + roots[..k]];
    assert (open + [(h, 0)] + [top])[..|open| + 1] == open + [(h, 0)];
    assert (open + [top])[..|open|] == open;
    DistributeClosed(open, h, next, roots[k..]);
  }

  ghost predicate ListsUpTo<D>(nodes: seq<Node<D>>, i: nat, lists: seq<seq<nat>>)
    requires i <= |nodes|
  {
    && |lists| == |nodes|
    && (forall j :: 0 <= j < i ==> lists[j] == MembersAt(nodes, j))
    && (forall j :: i <= j < |nodes| ==> lists[j] == [])
  }

  ghost predicate AllOwed(open: seq<(nat, nat)>) {
    forall p :: 0 <= p < |open| ==> open[p].1 > 0
  }

  /** The open heads are owed, in total, the running count, which was never zero so far. */
  ghost predicate Counted<D>(nodes: seq<Node<D>>, i: nat, open: seq<(nat, nat)>)
    requires i <= |nodes|
  {
    && OpenBelow(open, i) && AllOwed(open)
    && Total(open) == Owed(nodes[..i])
    && (forall j :: 0 <= j < i ==> Owed(nodes[..j]) > 0)
  }

  /** The open heads will complete the member lists from the roots of what is left. */
  ghost predicate Listed<D>(nodes: seq<Node<D>>, i: nat, open: seq<(nat, nat)>, members: seq<seq<nat>>)
    requires i <= |nodes| && OpenBelow(open, i)
  {
    && |members| == |nodes|
    && (forall j :: i <= j < |nodes| ==> members[j] == [])
    && ListsUpTo(nodes, i, Distribute(open, members, Roots(nodes, i)))
  }

  /** The pass after `i` nodes, at least one. */
  ghost predicate Scanned<D>(nodes: seq<Node<D>>, i: nat, open: seq<(nat, nat)>, members: seq<seq<nat>>) {
    0 < i <= |nodes| && Counted(nodes, i, open) && Listed(nodes, i, open, members)
  }

  /** Opens node `i` if it claims members. */
  function Opened<D>(open: seq<(nat, nat)>, node: Node<D>, i: nat): seq<(nat, nat)> {
    if Arity(node) > 0 then open + [(i, Arity(node))] else open
  }

  lemma ScannedRoot<D>(nodes: seq<Node<D>>, members: seq<seq<nat>>)
    requires nodes != [] && |members| == |nodes| && forall j :: 0 <= j < |nodes| ==> members[j] == []
    ensures Scanned(nodes, 1, Opened([], nodes[0], 0), members)
  {
    OwedStep(nodes, 0);
    assert nodes[..0] == [];
    var open: seq<(nat, nat)> := [(0, Arity(nodes[0]))];
    assert open[..0] == [];
    assert members[0] + MembersAt(nodes, 0) == MembersAt(nodes, 0);
  }

  /** The open heads after the innermost one took a member, a full head dropped. */
  function Lowered(open: seq<(nat, nat)>): seq<(nat, nat)>
    requires open != [] && open[|open| - 1].1 > 0
  {
    var below, parent := open[..|open| - 1], open[|open| - 1];
    if parent.1 == 1 then below else below + [(parent.0, parent.1 - 1)]
  }

  lemma LoweredTotal(open: seq<(nat, nat)>, i: nat)
    requires open != [] && AllOwed(open) && OpenBelow(open, i)
    ensures AllOwed(Lowered(open)) && OpenBelow(Lowered(open), i)
    ensures Total(Lowered(open)) == Total(open) - 1
  {
    var below, parent := open[..|open| - 1], open[|open| - 1];
    TotalPush(below, (parent.0, parent.1 - 1));
  }

  lemma OpenedTotal<D>(open: seq<(nat, nat)>, node: Node<D>, i: nat)
    requires AllOwed(open) && OpenBelow(open, i)
    ensures AllOwed(Opened(open, node, i)) && OpenBelow(Opened(open, node, i), i + 1)
    ensures Total(Opened(open, node, i)) == Total(open) + Arity(node)
  {
    TotalPush(open, (i, Arity(node)));
  }

  lemma LoweredLists<D>(nodes: seq<Node<D>>, i: nat, open: seq<(nat, nat)>, members: seq<seq<nat>>)
    requires i < |nodes| == |members| && open != [] && OpenBelow(open, i) && AllOwed(open) && members[i] == []
    ensures var h := open[|open| - 1].0;
            Distribute(Lowered(open) + [(i, Arity(nodes[i]))], members[h := members[h] + [i]], Roots(nodes, i + 1))
            == Distribute(open, members, Roots(nodes, i))[i := MembersAt(nodes, i)]
  {
    var below, parent := open[..|open| - 1], open[|open| - 1];
    assert open == below + [(parent.0, parent.1)];
    DistributeStep(nodes, i, below, parent.0, parent.1, members);
    if parent.1 == 1 {
      ClosedUnder(below, parent.0, (i, Arity(nodes[i])), members[parent.0 := members[parent.0] + [i]], Roots(nodes, i + 1));
    }
  }

  lemma OpenedLists<D>(nodes: seq<Node<D>>, i: nat, open: seq<(nat, nat)>, members: seq<seq<nat>>, roots: seq<nat>)
    requires i < |nodes| == |members| && OpenBelow(open, i)
    ensures OpenBelow(Opened(open, nodes[i], i), i + 1)
    ensures Distribute(Opened(open, nodes[i], i), members, roots) == Distribute(open + [(i, Arity(nodes[i]))], members, roots)
  {
    if Arity(nodes[i]) == 0 {
      DistributeClosed(open, i, members, roots);
    }
  }

  lemma ListsStep<D>(nodes: seq<Node<D>>, i: nat, lists: seq<seq<nat>>)
    requires i < |nodes| && ListsUpTo(nodes, i, lists)
    ensures ListsUpTo(nodes, i + 1, lists[i := MembersAt(nodes, i)])
  {
  }

  lemma CountedStep<D>(nodes: seq<Node<D>>, i: nat, open: seq<(nat, nat)>)
    requires i < |nodes| && Counted(nodes, i, open) && open != []
    ensures Counted(nodes, i + 1, Opened(Lowered(open), nodes[i], i))
  {
    OwedStep(nodes, i);
    TotalPositive(open);
    LoweredTotal(open, i);
    OpenedTotal(Lowered(open), nodes[i], i);
  }

  lemma ListedStep<D>(nodes: seq<Node<D>>, i: nat, open: seq<(nat, nat)>, members: seq<seq<nat>>)
    requires i < |nodes| && open != [] && OpenBelow(open, i) && AllOwed(open) && Listed(nodes, i, open, members)
    ensures var h := open[|open| - 1].0;
            var open' := Opened(Lowered(open), nodes[i], i);
            OpenBelow(open', i + 1) && Listed(nodes, i + 1, open', members[h := members[h] + [i]])
  {
    var h := open[|open| - 1].0;
    LoweredLists(nodes, i, open, members);
    ListsStep(nodes, i, Distribute(open, members, Roots(nodes, i)));
    OpenedLists(nodes, i, Lowered(open), members[h := members[h] + [i]], Roots(nodes, i + 1));
  }

  lemma ScannedStep<D>(nodes: seq<Node<D>>, i: nat, open: seq<(nat, nat)>, members: seq<seq<nat>>)
    requires Scanned(nodes, i, open, members) && i < |nodes| && open != []
    ensures var h := open[|open| - 1].0;
            Scanned(nodes, i + 1, Opened(Lowered(open), nodes[i], i), members[h := members[h] + [i]])
  {
    CountedStep(nodes, i, open);
    ListedStep(nodes, i, open, members);
  }

  /** Takes one off what the innermost head is owed, then drops the heads that are owed
      nothing. The count taken from is positive, so it cannot underflow. */
  method LowerTop(open0: seq<(nat, nat)>) returns (open: seq<(nat, nat)>)
    requires open0 != [] && AllOwed(open0)
    ensures open == Lowered(open0)
  {
    var parent := open0[|open0| - 1];
    open := open0[|open0| - 1 := (parent.0, parent.1 - 1)];
    ghost var lowered := open;
    while open != [] && open[|open| - 1].1 == 0
      invariant open == lowered || (parent.1 == 1 && open == open0[..|open0| - 1])
      decreases |open|
    {
      open := open[..|open| - 1];
    }
  }

  /** Resolves the array into each node's list of direct members. Accepts exactly the arrays
      that spell one tree, besides the empty array, which its caller refuses. */
  method MembersOf<D>(nodes: seq<Node<D>>) returns (r: Outcome<seq<seq<nat>>>)
    ensures r.Success? <==> nodes == [] || OneTree(nodes)
    ensures r.Success? ==> |r.value| == |nodes| && forall i :: 0 <= i < |nodes| ==> r.value[i] == MembersAt(nodes, i)
    ensures r.Failure? ==> r.status == IndexOutOfBounds
  {
    var members: seq<seq<nat>> := seq(|nodes|, _ => []);
    var open: seq<(nat, nat)> := [];
    for index := 0 to |nodes|
      invariant index == 0 ==> open == [] && |members| == |nodes| && forall j :: 0 <= j < |nodes| ==> members[j] == []
      invariant index > 0 ==> Scanned(nodes, index, open, members)
    {
      if index == 0 { ScannedRoot(nodes, members); }
      if index > 0 {
        TotalPositive(open);
        if open == [] {
          assert !(Owed(nodes[..index]) > 0);
          return Failure(IndexOutOfBounds);
        }
        ScannedStep(nodes, index, open, members);
        var parent := open[|open| - 1];
        members := members[parent.0 := members[parent.0] + [index]];
        open := LowerTop(open);
      }
      if nodes[index].kind == ITEM_COMPOSITE && nodes[index].memberCount > 0 {
        open := open + [(index, nodes[index].memberCount)];
      }
    }
    assert nodes[..|nodes|] == nodes;
    if open != [] {
      TotalPositive(open);
      return Failure(IndexOutOfBounds);
    }
    return Success(members);
  }
}
