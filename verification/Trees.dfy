/** Composite trees and the preorder arrays that carry them across the C boundary. */
module Trees {
  import opened Shapes
  import opened Descriptors

  const ITEM_TENSOR: U8 := 0
  const ITEM_COMPOSITE: U8 := 1

  /** A tensor, or a head with its members. `D` is what a node carries: descriptor, name, payloads. */
  datatype Tree<D> = Tensor(data: D) | Head(data: D, members: seq<Tree<D>>)

  datatype Status = NotComposite | IndexOutOfBounds | NullPointer | InvalidFile | Internal

  /** What following a node's pointers yields. */
  datatype Content<D> = Readable(data: D) | Unreadable(status: Status)

  /** One slot of the array. The member count of a node that is no head is ignored. */
  datatype Node<D> = Node(kind: U8, content: Content<D>, memberCount: U32)

  /** How many members a node claims. */
  function Arity<D>(n: Node<D>): U32 {
    if n.kind == ITEM_COMPOSITE then n.memberCount else 0
  }

  // ---- printing ----

  /** The number of members as a 32-bit field, truncated the way the cast truncates. */
  function CountField(n: nat): U32 {
    n % U32_LIMIT
  }

  function RootNode<D>(t: Tree<D>): Node<D> {
    match t
    case Tensor(d) => Node(ITEM_TENSOR, Readable(d), 0)
    case Head(d, ms) => Node(ITEM_COMPOSITE, Readable(d), CountField(|ms|))
  }

  /** A parent, then its members in order, each with its whole subtree. */
  ghost function Preorder<D>(t: Tree<D>): seq<Node<D>>
    decreases t, 1
  {
    [RootNode(t)] + if t.Head? then PreorderAll(t.members) else []
  }

  ghost function PreorderAll<D>(ts: seq<Tree<D>>): seq<Node<D>>
    decreases ts, 0
  {
    if ts == [] then [] else Preorder(ts[0]) + PreorderAll(ts[1..])
  }

  /** Every head's member count survives the cast to 32 bits. */
  ghost predicate Fits<D>(t: Tree<D>)
    decreases t, 1
  {
    t.Head? ==> |t.members| < U32_LIMIT && FitsAll(t.members)
  }

  ghost predicate FitsAll<D>(ts: seq<Tree<D>>)
    decreases ts, 0
  {
    ts != [] ==> Fits(ts[0]) && FitsAll(ts[1..])
  }

  // ---- parsing, from the right ----

  ghost predicate AllReadable<D>(nodes: seq<Node<D>>) {
    forall i :: 0 <= i < |nodes| ==> nodes[i].content.Readable?
  }

  /** The trees a suffix of an array spells: each node takes its members from the trees that
      start right after it. Absent when a node claims more than there are. */
  ghost function Forest<D>(nodes: seq<Node<D>>): Option<seq<Tree<D>>>
    requires AllReadable(nodes)
  {
    if nodes == [] then Some([]) else
    var rest := Forest(nodes[1..]);
    if rest.None? || |rest.value| < Arity(nodes[0]) then None else
    var n, a, f := nodes[0], Arity(nodes[0]), rest.value;
    if n.kind == ITEM_COMPOSITE then Some([Head(n.content.data, f[..a])] + f[a..])
    else Some([Tensor(n.content.data)] + f)
  }

  /** The array as the printer would have written it. */
  function Normal<D>(n: Node<D>): Node<D> {
    if n.kind == ITEM_COMPOSITE then n else Node(ITEM_TENSOR, n.content, 0)
  }

  ghost function NormalAll<D>(nodes: seq<Node<D>>): seq<Node<D>> {
    seq(|nodes|, i requires 0 <= i < |nodes| => Normal(nodes[i]))
  }

  // ---- printing then parsing ----

  lemma {:induction false} PreorderReadable<D>(t: Tree<D>)
    ensures AllReadable(Preorder(t))
    decreases t, 1
  {
    if t.Head? { PreorderAllReadable(t.members); }
  }

  lemma {:induction false} PreorderAllReadable<D>(ts: seq<Tree<D>>)
    ensures AllReadable(PreorderAll(ts))
    decreases ts, 0
  {
    if ts != [] {
      PreorderReadable(ts[0]);
      PreorderAllReadable(ts[1..]);
    }
  }

  /** Parsing what was printed, in front of anything that parses. */
  lemma {:induction false} ParsePrinted<D>(t: Tree<D>, rest: seq<Node<D>>)
    requires Fits(t) && AllReadable(rest) && Forest(rest).Some?
    ensures AllReadable(Preorder(t) + rest)
    ensures Forest(Preorder(t) + rest) == Some([t] + Forest(rest).value)
    decreases t, 1
  {
    PreorderReadable(t);
    var nodes := Preorder(t) + rest;
    match t
    case Tensor(d) =>
      assert nodes[1..] == rest;
    case Head(d, ms) =>
      ParsePrintedAll(ms, rest);
      assert nodes[1..] == PreorderAll(ms) + rest;
      var f := ms + Forest(rest).value;
      assert f[..|ms|] == ms && f[|ms|..] == Forest(rest).value;
  }

  lemma {:induction false} ParsePrintedAll<D>(ts: seq<Tree<D>>, rest: seq<Node<D>>)
    requires FitsAll(ts) && AllReadable(rest) && Forest(rest).Some?
    ensures AllReadable(PreorderAll(ts) + rest)
    ensures Forest(PreorderAll(ts) + rest) == Some(ts + Forest(rest).value)
    decreases ts, 0
  {
    PreorderAllReadable(ts);
    if ts == [] {
      assert PreorderAll(ts) + rest == rest;
      assert ts + Forest(rest).value == Forest(rest).value;
    } else {
      ParsePrintedAll(ts[1..], rest);
      ParsePrinted(ts[0], PreorderAll(ts[1..]) + rest);
      assert PreorderAll(ts) + rest == Preorder(ts[0]) + (PreorderAll(ts[1..]) + rest);
      assert ts + Forest(rest).value == [ts[0]] + (ts[1..] + Forest(rest).value);
    }
  }

  // ---- parsing then printing ----

  lemma {:induction false} PreorderAllConcat<D>(a: seq<Tree<D>>, b: seq<Tree<D>>)
    ensures PreorderAll(a + b) == PreorderAll(a) + PreorderAll(b)
    ensures FitsAll(a + b) <==> FitsAll(a) && FitsAll(b)
  {
    if a == [] {
      assert a + b == b;
    } else {
      PreorderAllConcat(a[1..], b);
      assert (a + b)[1..] == a[1..] + b;
    }
  }

  lemma NormalUncons<D>(nodes: seq<Node<D>>)
    requires nodes != []
    ensures NormalAll(nodes) == [Normal(nodes[0])] + NormalAll(nodes[1..])
  {
  }

  /** Printing a head that takes the first trees of a forest. */
  lemma PrintHead<D>(d: D, f: seq<Tree<D>>, a: U32)
    requires a <= |f| && FitsAll(f)
    ensures PreorderAll([Head(d, f[..a])] + f[a..]) == [Node(ITEM_COMPOSITE, Readable(d), a)] + PreorderAll(f)
    ensures FitsAll([Head(d, f[..a])] + f[a..])
  {
    var h, root := Head(d, f[..a]), Node(ITEM_COMPOSITE, Readable(d), a);
    assert f == f[..a] + f[a..];
    PreorderAllConcat(f[..a], f[a..]);
    assert ([h] + f[a..])[1..] == f[a..];
    assert Preorder(h) == [root] + PreorderAll(f[..a]);
    Associate([root], PreorderAll(f[..a]), PreorderAll(f[a..]));
  }

  lemma PrintTensor<D>(d: D, f: seq<Tree<D>>)
    requires FitsAll(f)
    ensures PreorderAll([Tensor(d)] + f) == [Node(ITEM_TENSOR, Readable(d), 0)] + PreorderAll(f)
    ensures FitsAll([Tensor(d)] + f)
  {
    assert ([Tensor(d)] + f)[1..] == f;
  }

  lemma Associate<T>(a: seq<T>, b: seq<T>, c: seq<T>)
    ensures a + (b + c) == (a + b) + c
  {
  }

  /** Printing the trees an array spells gives the array back, normalised. */
  lemma {:induction false} PrintParsed<D>(nodes: seq<Node<D>>)
    requires AllReadable(nodes) && Forest(nodes).Some?
    ensures PreorderAll(Forest(nodes).value) == NormalAll(nodes)
    ensures FitsAll(Forest(nodes).value)
  {
    if nodes != [] {
      var n, f := nodes[0], Forest(nodes[1..]).value;
      PrintParsed(nodes[1..]);
      NormalUncons(nodes);
      if n.kind == ITEM_COMPOSITE {
        PrintHead(n.content.data, f, n.memberCount);
      } else {
        PrintTensor(n.content.data, f);
      }
    }
  }

  /** Two trees with the same array are the same tree. */
  lemma PreorderInjective<D>(t: Tree<D>, u: Tree<D>)
    requires Fits(t) && Fits(u) && Preorder(t) == Preorder(u)
    ensures t == u
  {
    ParsePrinted(t, []);
    ParsePrinted(u, []);
    assert Preorder(t) + [] == Preorder(u) + [];
    assert ([t] + [])[0] == ([u] + [])[0];
  }

  // ---- running counts ----

  /** One plus, for every node read, its member count minus one: how many subtrees are owed. */
  ghost function Owed<D>(nodes: seq<Node<D>>): int {
    if nodes == [] then 1 else Owed(nodes[..|nodes| - 1]) + Arity(nodes[|nodes| - 1]) - 1
  }

  /** The array spells exactly one tree: something is owed before every node, nothing at the end. */
  ghost predicate OneTree<D>(nodes: seq<Node<D>>) {
    && nodes != []
    && (forall i :: 0 <= i < |nodes| ==> Owed(nodes[..i]) > 0)
    && Owed(nodes) == 0
  }

  lemma OwedStep<D>(nodes: seq<Node<D>>, i: nat)
    requires i < |nodes|
    ensures Owed(nodes[..i + 1]) == Owed(nodes[..i]) + Arity(nodes[i]) - 1
  {
    assert nodes[..i + 1][..i] == nodes[..i];
  }

  /** While something is owed before each node of a suffix and nothing at the end, the suffix
      spells exactly as many trees as are owed before it. */
  lemma {:induction false} OwedIsForest<D>(nodes: seq<Node<D>>, i: nat)
    requires i <= |nodes| && AllReadable(nodes[i..]) && Owed(nodes) == 0
    requires forall j :: i <= j < |nodes| ==> Owed(nodes[..j]) > 0
    ensures Forest(nodes[i..]).Some? && |Forest(nodes[i..]).value| == Owed(nodes[..i])
    decreases |nodes| - i
  {
    if i == |nodes| {
      assert nodes[..i] == nodes && nodes[i..] == [];
    } else {
      assert nodes[i..][1..] == nodes[i + 1..];
      OwedIsForest(nodes, i + 1);
      OwedStep(nodes, i);
    }
  }

  lemma {:induction false} ForestIsOwed<D>(nodes: seq<Node<D>>, i: nat)
    requires AllReadable(nodes) && i <= |nodes|
    requires Forest(nodes).Some? && |Forest(nodes).value| == 1
    ensures Forest(nodes[i..]).Some? && |Forest(nodes[i..]).value| == Owed(nodes[..i])
  {
    if i == 0 {
      assert nodes[0..] == nodes;
    } else {
      ForestIsOwed(nodes, i - 1);
      OwedStep(nodes, i - 1);
      assert nodes[i - 1..][1..] == nodes[i..];
    }
  }

  lemma ForestNonEmpty<D>(nodes: seq<Node<D>>)
    requires AllReadable(nodes) && nodes != [] && Forest(nodes).Some?
    ensures |Forest(nodes).value| > 0
  {
  }

  /** Counting and parsing accept the same arrays. */
  lemma OneTreeIffForest<D>(nodes: seq<Node<D>>)
    requires AllReadable(nodes)
    ensures OneTree(nodes) <==> Forest(nodes).Some? && |Forest(nodes).value| == 1
  {
    if OneTree(nodes) {
      assert nodes[0..] == nodes;
      OwedIsForest(nodes, 0);
    }
    if Forest(nodes).Some? && |Forest(nodes).value| == 1 {
      ForestIsOwed(nodes, |nodes|);
      assert nodes[..|nodes|] == nodes && nodes[|nodes|..] == [];
      forall i | 0 <= i < |nodes|
        ensures Owed(nodes[..i]) > 0
      {
        ForestIsOwed(nodes, i);
        ForestNonEmpty(nodes[i..]);
      }
    }
  }

  ghost predicate Spells<D>(nodes: seq<Node<D>>, t: Tree<D>) {
    Fits(t) && Preorder(t) == NormalAll(nodes)
  }

  /** An array is accepted by counting exactly when it is the preorder of a tree, and then of
      exactly one tree. */
  lemma AcceptedIffOneTree<D(!new)>(nodes: seq<Node<D>>)
    requires AllReadable(nodes)
    ensures OneTree(nodes) <==> exists t :: Spells(nodes, t)
    ensures forall t, u :: Spells(nodes, t) && Spells(nodes, u) ==> t == u
  {
    OneTreeIffForest(nodes);
    if OneTree(nodes) {
      PrintParsed(nodes);
      var f := Forest(nodes).value;
      assert f == [f[0]] && f[1..] == [];
      assert Preorder(f[0]) + [] == Preorder(f[0]);
      assert Spells(nodes, f[0]);
    }
    forall t | Spells(nodes, t)
      ensures OneTree(nodes)
    {
      ParsePrinted(t, []);
      assert Preorder(t) + [] == Preorder(t);
      OneTreeIffForest(Preorder(t));
      NormalSameOwed(nodes);
    }
    forall t, u | Spells(nodes, t) && Spells(nodes, u)
      ensures t == u
    {
      PreorderInjective(t, u);
    }
  }

  lemma {:induction false} NormalOwed<D>(nodes: seq<Node<D>>)
    ensures Owed(NormalAll(nodes)) == Owed(nodes)
  {
    if nodes != [] {
      var n := |nodes| - 1;
      NormalOwed(nodes[..n]);
      assert NormalAll(nodes)[..n] == NormalAll(nodes[..n]);
    }
  }

  lemma NormalSameOwed<D>(nodes: seq<Node<D>>)
    ensures OneTree(NormalAll(nodes)) <==> OneTree(nodes)
  {
    NormalOwed(nodes);
    forall i | 0 <= i < |nodes|
      ensures Owed(NormalAll(nodes)[..i]) == Owed(nodes[..i])
    {
      NormalOwed(nodes[..i]);
      assert NormalAll(nodes)[..i] == NormalAll(nodes[..i]);
    }
  }

  // ---- truncated counts ----

  lemma {:induction false} OwedConcat<D>(a: seq<Node<D>>, b: seq<Node<D>>)
    ensures Owed(a + b) == Owed(a) + Owed(b) - 1
  {
    if b == [] {
      assert a + b == a;
    } else {
      var n := |b| - 1;
      OwedConcat(a, b[..n]);
      assert (a + b)[..|a| + n] == a + b[..n];
    }
  }

  /** Printed trees owe nothing, or less than nothing when some head's count was truncated. */
  lemma {:induction false} PrintedOwed<D>(t: Tree<D>)
    ensures Owed(Preorder(t)) <= 0
    ensures Owed(Preorder(t)) == 0 <==> Fits(t)
    decreases t, 1
  {
    assert Owed([RootNode(t)]) == Owed<D>([]) + Arity(RootNode(t)) - 1 by {
      assert [RootNode(t)][..0] == [];
    }
    match t
    case Tensor(_) =>
      assert Preorder(t) == [RootNode(t)];
    case Head(_, ms) =>
      PrintedAllOwed(ms);
      OwedConcat([RootNode(t)], PreorderAll(ms));
      TruncationShrinks(|ms|);
  }

  lemma TruncationShrinks(n: nat)
    ensures CountField(n) <= n
    ensures CountField(n) == n <==> n < U32_LIMIT
  {
  }

  lemma {:induction false} PrintedAllOwed<D>(ts: seq<Tree<D>>)
    ensures Owed(PreorderAll(ts)) <= 1 - |ts|
    ensures Owed(PreorderAll(ts)) == 1 - |ts| <==> FitsAll(ts)
    decreases ts, 0
  {
    if ts != [] {
      PrintedOwed(ts[0]);
      PrintedAllOwed(ts[1..]);
      OwedConcat(Preorder(ts[0]), PreorderAll(ts[1..]));
    }
  }
}
