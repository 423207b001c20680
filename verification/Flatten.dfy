/** Tree to array: the explicit-stack walk that hands an item to C. */
module Flatten {
  import opened Descriptors
  import opened Trees

  /** Number of nodes. */
  ghost function Size<D>(t: Tree<D>): nat
    decreases t, 1
  {
    1 + if t.Head? then SizeAll(t.members) else 0
  }

  ghost function SizeAll<D>(ts: seq<Tree<D>>): nat
    decreases ts, 0
  {
    if ts == [] then 0 else Size(ts[0]) + SizeAll(ts[1..])
  }

  /** What is still to be printed when `stack` is left to do, its last entry first. */
  ghost function Pending<D>(stack: seq<Tree<D>>): seq<Node<D>> {
    if stack == [] then [] else Preorder(stack[|stack| - 1]) + Pending(stack[..|stack| - 1])
  }

  ghost function PendingSize<D>(stack: seq<Tree<D>>): nat {
    if stack == [] then 0 else Size(stack[|stack| - 1]) + PendingSize(stack[..|stack| - 1])
  }

  function Reversed<T>(s: seq<T>): seq<T> {
    if s == [] then [] else Reversed(s[1..]) + [s[0]]
  }

  lemma PendingTop<D>(stack: seq<Tree<D>>, t: Tree<D>)
    ensures Pending(stack + [t]) == Preorder(t) + Pending(stack)
    ensures PendingSize(stack + [t]) == Size(t) + PendingSize(stack)
  {
    assert (stack + [t])[..|stack|] == stack;
  }

  lemma PushedSplit<T>(stack: seq<T>, ms: seq<T>)
    requires ms != []
    ensures stack + Reversed(ms) == (stack + Reversed(ms[1..])) + [ms[0]]
  {
  }

  /** Members pushed in reverse come off the stack in order. */
  lemma {:induction false} PendingPushed<D>(stack: seq<Tree<D>>, ms: seq<Tree<D>>)
    ensures Pending(stack + Reversed(ms)) == PreorderAll(ms) + Pending(stack)
    ensures PendingSize(stack + Reversed(ms)) == SizeAll(ms) + PendingSize(stack)
  {
    if ms == [] {
      assert stack + Reversed(ms) == stack;
    } else {
      PendingPushed(stack, ms[1..]);
      PendingTop(stack + Reversed(ms[1..]), ms[0]);
      PushedSplit(stack, ms);
      Associate(Preorder(ms[0]), PreorderAll(ms[1..]), Pending(stack));
    }
  }

  /** Printing the root of the next tree and pushing its members keeps the whole output. */
  lemma PrintNext<D>(nodes: seq<Node<D>>, stack: seq<Tree<D>>)
    requires stack != []
    ensures var next, rest := stack[|stack| - 1], stack[..|stack| - 1];
            var pushed := rest + if next.Head? then Reversed(next.members) else [];
            && nodes + Pending(stack) == (nodes + [RootNode(next)]) + Pending(pushed)
            && PendingSize(pushed) < PendingSize(stack)
  {
    var next, rest := stack[|stack| - 1], stack[..|stack| - 1];
    if next.Head? {
      PendingPushed(rest, next.members);
      Associate([RootNode(next)], PreorderAll(next.members), Pending(rest));
    } else {
      assert rest + [] == rest;
    }
    Associate(nodes, [RootNode(next)], Pending(rest + if next.Head? then Reversed(next.members) else []));
  }

  /** Flattens an item. The loop ends because the trees on the stack shrink in total size. */
  method ItemNodes<D>(item: Tree<D>) returns (nodes: seq<Node<D>>)
    ensures nodes == Preorder(item)
  {
    nodes := [];
    var stack := [item];
    PendingTop([], item);
    assert [] + [item] == [item];
    while stack != []
      invariant nodes + Pending(stack) == Preorder(item)
      decreases PendingSize(stack)
    {
      PrintNext(nodes, stack);
      var next := stack[|stack| - 1];
      stack := stack[..|stack| - 1];
      match next {
        case Tensor(d) =>
          nodes := nodes + [Node(ITEM_TENSOR, Readable(d), 0)];
          assert stack + [] == stack;
        case Head(d, members) =>
          nodes := nodes + [Node(ITEM_COMPOSITE, Readable(d), |members| % U32_LIMIT)];
          stack := stack + Reversed(members);
      }
    }
  }
}
