/** The reverse-preorder build of a borrowed tree from a checked array, and how it and the
    flattening undo each other. */
module Builder {
  import opened Shapes
  import opened Trees
  import opened Rebuild

  // ---- specification of the whole conversion ----

  /** `i` is the last node that cannot be read; the build meets it first. */
  ghost predicate LastUnreadable<D>(nodes: seq<Node<D>>, i: nat) {
    i < |nodes| && nodes[i].content.Unreadable? && AllReadable(nodes[i + 1..])
  }

  /** Everything the conversion promises about its answer. */
  ghost predicate Converts<D>(nodes: seq<Node<D>>, r: Outcome<Tree<D>>) {
    if nodes == [] || nodes[0].kind != ITEM_COMPOSITE then r == Failure(NotComposite)
    else if !OneTree(nodes) then r == Failure(IndexOutOfBounds)
    else if AllReadable(nodes) then r.Success? && r.value.Head? && Spells(nodes, r.value)
    else r.Failure? && exists i: nat :: LastUnreadable(nodes, i) && r.status == nodes[i].content.status
  }

  // ---- taking built members ----

  ghost predicate Takeable<D>(built: seq<Option<Tree<D>>>, indices: seq<nat>) {
    && (forall k :: 0 <= k < |indices| ==> indices[k] < |built| && built[indices[k]].Some?)
    && (forall k, l :: 0 <= k < l < |indices| ==> indices[k] < indices[l])
  }

  /** Takes the built members out of their slots, in order. */
  method TakeMembers<D>(built0: seq<Option<Tree<D>>>, indices: seq<nat>)
    returns (built: seq<Option<Tree<D>>>, r: Outcome<seq<Tree<D>>>)
    ensures Takeable(built0, indices) ==>
              && r.Success? && |r.value| == |indices| && |built| == |built0|
              && (forall k :: 0 <= k < |indices| ==> r.value[k] == built0[indices[k]].value)
              && (forall j :: 0 <= j < |built0| ==> built[j] == if j in indices then None else built0[j])
    ensures r.Failure? ==> r.status == Internal
  {
    built := built0;
    var members := [];
    for k := 0 to |indices|
      invariant |built| == |built0| && |members| == k
      invariant Takeable(built0, indices) ==> forall l :: 0 <= l < k ==> members[l] == built0[indices[l]].value
      invariant forall j :: 0 <= j < |built0| ==> built[j] == if j in indices[..k] then None else built0[j]
    {
      var index := indices[k];
      if index >= |built| || built[index].None? {
        return built, Failure(Internal);
      }
      members := members + [built[index].value];
      built := built[index := None];
      assert indices[..k + 1] == indices[..k] + [index];
    }
    assert indices[..|indices|] == indices;
    r := Success(members);
  }

  // ---- the reverse pass ----

  /** Exactly the slots at `roots` are filled, with the trees of `f` in order. */
  ghost predicate Slots<T>(built: seq<Option<T>>, roots: seq<nat>, f: seq<T>) {
    && |f| == |roots|
    && (forall k :: 0 <= k < |roots| ==> roots[k] < |built| && built[roots[k]] == Some(f[k]))
    && (forall j :: 0 <= j < |built| && j !in roots ==> built[j] == None)
  }

  /** Slot `i` takes the place of the first `a` roots. */
  lemma SlotsTake<T>(built: seq<Option<T>>, roots: seq<nat>, f: seq<T>, next: seq<Option<T>>, i: nat, a: nat, t: T)
    requires Slots(built, roots, f) && a <= |roots| && i < |built| == |next|
    requires forall k :: 0 <= k < |roots| ==> i < roots[k]
    requires forall k, l :: 0 <= k < l < |roots| ==> roots[k] < roots[l]
    requires forall j :: 0 <= j < |built| ==>
               next[j] == if j == i then Some(t) else if j in roots[..a] then None else built[j]
    ensures Slots(next, [i] + roots[a..], [t] + f[a..])
  {
    var roots', f' := [i] + roots[a..], [t] + f[a..];
    forall k | 0 <= k < |roots'|
      ensures roots'[k] < |next| && next[roots'[k]] == Some(f'[k])
    {
      if k > 0 {
        assert roots'[k] == roots[a + k - 1];
        assert roots[a + k - 1] !in roots[..a];
      }
    }
    forall j | 0 <= j < |next| && j !in roots'
      ensures next[j] == None
    {
      assert roots'[0] == i;
      assert roots == roots[..a] + roots[a..];
    }
  }

  /** After the nodes from `i` on are built, exactly their roots are waiting, in order. */
  ghost predicate Built<D>(nodes: seq<Node<D>>, i: nat, built: seq<Option<Tree<D>>>)
    requires i <= |nodes| && AllReadable(nodes[i..])
  {
    |built| == |nodes| && Forest(nodes[i..]).Some? && Slots(built, Roots(nodes, i), Forest(nodes[i..]).value)
  }

  /** What one step of the parse does, said about a suffix. */
  lemma ForestStep<D>(nodes: seq<Node<D>>, i: nat)
    requires i < |nodes| && AllReadable(nodes[i..]) && Forest(nodes[i..]).Some?
    ensures AllReadable(nodes[i + 1..]) && Forest(nodes[i + 1..]).Some?
    ensures var f, a := Forest(nodes[i + 1..]).value, Arity(nodes[i]);
            && a <= |f|
            && Forest(nodes[i..]).value ==
               (if nodes[i].kind == ITEM_COMPOSITE then [Head(nodes[i].content.data, f[..a])] + f[a..]
                else [Tensor(nodes[i].content.data)] + f)
  {
    assert nodes[i..][1..] == nodes[i + 1..];
    assert nodes[i..] == [nodes[i]] + nodes[i + 1..];
  }

  /** The members of node `i` are built and untaken when its turn comes. */
  lemma MembersTakeable<D>(nodes: seq<Node<D>>, i: nat, built: seq<Option<Tree<D>>>)
    requires i < |nodes| && AllReadable(nodes[i..]) && Forest(nodes[i..]).Some?
    requires AllReadable(nodes[i + 1..]) && Built(nodes, i + 1, built)
    ensures |MembersAt(nodes, i)| == Arity(nodes[i])
    ensures Takeable(built, MembersAt(nodes, i))
    ensures forall k :: 0 <= k < Arity(nodes[i]) ==> built[MembersAt(nodes, i)[k]].value == Forest(nodes[i + 1..]).value[k]
  {
    ForestStep(nodes, i);
  }

  lemma BuiltStep<D>(nodes: seq<Node<D>>, i: nat, built: seq<Option<Tree<D>>>, next: seq<Option<Tree<D>>>, t: Tree<D>)
    requires i < |nodes| && AllReadable(nodes[i..]) && Forest(nodes[i..]).Some?
    requires AllReadable(nodes[i + 1..]) && Built(nodes, i + 1, built)
    requires |next| == |nodes| && t == Forest(nodes[i..]).value[0]
    requires forall j :: 0 <= j < |nodes| ==>
               next[j] == if j == i then Some(t) else if j in MembersAt(nodes, i) then None else built[j]
    ensures Built(nodes, i, next)
  {
    ForestStep(nodes, i);
    SlotsTake(built, Roots(nodes, i + 1), Forest(nodes[i + 1..]).value, next, i, Arity(nodes[i]), t);
  }

  /** Builds node `index` from its content and its built members. */
  method BuildNode<D>(nodes: seq<Node<D>>, index: nat, members: seq<seq<nat>>, built0: seq<Option<Tree<D>>>)
    returns (built: seq<Option<Tree<D>>>, failed: Option<Status>)
    requires index < |nodes| == |members| && members[index] == MembersAt(nodes, index)
    requires AllReadable(nodes[index + 1..]) && Built(nodes, index + 1, built0)
    requires nodes[index].content.Readable? ==> Forest(nodes[index..]).Some?
    ensures failed == (if nodes[index].content.Readable? then None else Some(nodes[index].content.status))
    ensures failed.None? ==> AllReadable(nodes[index..]) && Built(nodes, index, built)
  {
    var node := nodes[index];
    match node.content {
      case Unreadable(status) =>
        return built0, Some(status);
      case Readable(d) =>
        assert nodes[index..] == [node] + nodes[index + 1..];
        ForestStep(nodes, index);
        MembersTakeable(nodes, index, built0);
        if node.kind == ITEM_COMPOSITE {
          var taken;
          built, taken := TakeMembers(built0, members[index]);
          assert taken.value == Forest(nodes[index + 1..]).value[..Arity(node)];
          built := built[index := Some(Head(d, taken.value))];
          BuiltStep(nodes, index, built0, built, Head(d, taken.value));
        } else {
          built := built0[index := Some(Tensor(d))];
          assert MembersAt(nodes, index) == [];
          BuiltStep(nodes, index, built0, built, Tensor(d));
        }
        failed := None;
    }
  }

  /** The array must start with a head; then its structure is checked. */
  method RootCheck<D>(nodes: seq<Node<D>>) returns (r: Outcome<seq<seq<nat>>>)
    ensures r == Failure(NotComposite) <==> nodes == [] || nodes[0].kind != ITEM_COMPOSITE
    ensures r.Success? <==> nodes != [] && nodes[0].kind == ITEM_COMPOSITE && OneTree(nodes)
    ensures r.Success? ==> |r.value| == |nodes| && forall i :: 0 <= i < |nodes| ==> r.value[i] == MembersAt(nodes, i)
    ensures r.Failure? ==> r.status == NotComposite || r.status == IndexOutOfBounds
  {
    if nodes == [] || nodes[0].kind != ITEM_COMPOSITE {
      return Failure(NotComposite);
    }
    r := MembersOf(nodes);
  }

  /** Converts a preorder array to the tree it spells. It never reports an internal error. */
  method TreeOf<D>(nodes: seq<Node<D>>) returns (r: Outcome<Tree<D>>)
    ensures Converts(nodes, r)
  {
    var checked := RootCheck(nodes);
    if checked.Failure? {
      return Failure(checked.status);
    }
    var members := checked.value;
    var built: seq<Option<Tree<D>>> := seq(|nodes|, _ => None);
    for index := |nodes| downto 0
      invariant AllReadable(nodes[index..])
      invariant Built(nodes, index, built)
    {
      ghost var before := nodes[index + 1..];
      if nodes[index].content.Readable? {
        assert nodes[index..] == [nodes[index]] + before;
        OwedIsForest(nodes, index);
      }
      var failed;
      built, failed := BuildNode(nodes, index, members, built);
      if failed.Some? {
        assert LastUnreadable(nodes, index);
        assert nodes[index].content.Unreadable?;
        return Failure(failed.value);
      }
    }
    assert nodes[0..] == nodes;
    RootIsWhole(nodes);
    assert Roots(nodes, 0)[0] == 0;
    return Success(built[0].value);
  }

  lemma RootIsWhole<D>(nodes: seq<Node<D>>)
    requires AllReadable(nodes) && OneTree(nodes)
    ensures Roots(nodes, 0) == [0]
    ensures Forest(nodes).Some? && |Forest(nodes).value| == 1 && Spells(nodes, Forest(nodes).value[0])
    ensures Forest(nodes).value[0].Head? <==> nodes[0].kind == ITEM_COMPOSITE
  {
    OneTreeIffForest(nodes);
    OnlyRoot(nodes);
    PrintParsed(nodes);
    var f := Forest(nodes).value;
    assert f == [f[0]] && f[1..] == [];
    assert Preorder(f[0]) + [] == Preorder(f[0]);
  }

  // ---- the two conversions undo each other ----

  lemma ReadableAfterLast<D>(nodes: seq<Node<D>>, i: nat, j: nat)
    requires LastUnreadable(nodes, i) && i < j < |nodes|
    ensures nodes[j].content.Readable?
  {
    assert nodes[i + 1..][j - i - 1] == nodes[j];
  }

  /** The answer is determined by the array. */
  lemma ConversionUnique<D(!new)>(nodes: seq<Node<D>>, r: Outcome<Tree<D>>, q: Outcome<Tree<D>>)
    requires Converts(nodes, r) && Converts(nodes, q)
    ensures r == q
  {
    if nodes != [] && nodes[0].kind == ITEM_COMPOSITE && OneTree(nodes) {
      if AllReadable(nodes) {
        AcceptedIffOneTree(nodes);
      } else {
        var i: nat :| LastUnreadable(nodes, i) && r.status == nodes[i].content.status;
        var j: nat :| LastUnreadable(nodes, j) && q.status == nodes[j].content.status;
        if i < j { ReadableAfterLast(nodes, i, j); }
        if j < i { ReadableAfterLast(nodes, j, i); }
      }
    }
  }

  lemma PrintedIsNormal<D>(t: Tree<D>)
    ensures NormalAll(Preorder(t)) == Preorder(t)
    decreases t, 1
  {
    if t.Head? { PrintedAllIsNormal(t.members); }
  }

  lemma PrintedAllIsNormal<D>(ts: seq<Tree<D>>)
    ensures NormalAll(PreorderAll(ts)) == PreorderAll(ts)
    decreases ts, 0
  {
    if ts != [] {
      PrintedIsNormal(ts[0]);
      PrintedAllIsNormal(ts[1..]);
      assert NormalAll(PreorderAll(ts)) == NormalAll(Preorder(ts[0])) + NormalAll(PreorderAll(ts[1..]));
    }
  }

  /** Building from a flattened tree: exactly the head-rooted trees whose member counts fit in
      32 bits come back, and they come back unchanged. */
  lemma BuildOfFlattened<D(!new)>(t: Tree<D>, r: Outcome<Tree<D>>)
    requires Converts(Preorder(t), r)
    ensures r == if t.Tensor? then Failure(NotComposite) else if Fits(t) then Success(t) else Failure(IndexOutOfBounds)
  {
    var nodes := Preorder(t);
    PreorderReadable(t);
    PrintedOwed(t);
    if t.Head? && Fits(t) {
      PrintedIsNormal(t);
      assert Spells(nodes, t);
      AcceptedIffOneTree(nodes);
    }
  }

  /** Flattening what was built gives the array back, up to the fields a tensor node ignores. */
  lemma FlattenOfBuilt<D(!new)>(nodes: seq<Node<D>>, r: Outcome<Tree<D>>)
    requires Converts(nodes, r) && r.Success?
    ensures Preorder(r.value) == NormalAll(nodes)
    ensures Converts(Preorder(r.value), r)
  {
    PreorderReadable(r.value);
    NormalSameOwed(nodes);
  }

  // ---- every member has one head ----

  /** Once a head has claimed an index, no earlier head sees it. */
  lemma {:induction false} ClaimedOnce<D>(nodes: seq<Node<D>>, i: nat, j: nat, c: nat)
    requires i <= j <= |nodes| && c !in Roots(nodes, j) && !(i <= c < j)
    ensures c !in Roots(nodes, i)
    decreases j - i
  {
    if i < j {
      ClaimedOnce(nodes, i + 1, j, c);
      var after := Roots(nodes, i + 1);
      assert forall x :: x in after[Min(Arity(nodes[i]), |after|)..] ==> x in after;
    }
  }

  /** An index that is a root from `j` but not from `i` was claimed in between. */
  lemma {:induction false} ClaimedBetween<D>(nodes: seq<Node<D>>, i: nat, j: nat, c: nat)
    requires i <= j <= |nodes| && c in Roots(nodes, j) && c !in Roots(nodes, i)
    ensures exists h :: i <= h < j && c in MembersAt(nodes, h)
    decreases j - i
  {
    assert i < j;
    if c in Roots(nodes, i + 1) {
      var after := Roots(nodes, i + 1);
      assert after == MembersAt(nodes, i) + after[Min(Arity(nodes[i]), |after|)..];
      assert c in MembersAt(nodes, i);
    } else {
      ClaimedBetween(nodes, i + 1, j, c);
    }
  }

  lemma ClaimedIsGone<D>(nodes: seq<Node<D>>, h: nat, c: nat)
    requires h < |nodes| && c in MembersAt(nodes, h)
    ensures c in Roots(nodes, h + 1) && c !in Roots(nodes, h) && h < c < |nodes|
  {
    var after := Roots(nodes, h + 1);
    var a := Min(Arity(nodes[h]), |after|);
    var k :| 0 <= k < |MembersAt(nodes, h)| && MembersAt(nodes, h)[k] == c;
    assert after[k] == c && k < a;
    forall l | 0 <= l < |after[a..]|
      ensures after[a..][l] != c
    {
      assert after[a..][l] == after[a + l];
    }
  }

  /** No two heads claim the same index. */
  lemma ClaimsDisjoint<D>(nodes: seq<Node<D>>, g: nat, h: nat, c: nat)
    requires g < h < |nodes| && c in MembersAt(nodes, g)
    ensures c !in MembersAt(nodes, h)
  {
    if c in MembersAt(nodes, h) {
      ClaimedIsGone(nodes, g, c);
      ClaimedIsGone(nodes, h, c);
      ClaimedOnce(nodes, g + 1, h, c);
    }
  }

  /** In an accepted array every index but the root is in exactly one member list, that of a
      head before it. */
  lemma OneParent<D>(nodes: seq<Node<D>>, c: nat)
    requires OneTree(nodes) && 0 < c < |nodes|
    ensures exists h :: 0 <= h < c && c in MembersAt(nodes, h)
    ensures forall g, h :: 0 <= g < h < |nodes| ==> !(c in MembersAt(nodes, g) && c in MembersAt(nodes, h))
  {
    OnlyRoot(nodes);
    assert Roots(nodes, c)[0] == c;
    ClaimedBetween(nodes, 0, c, c);
    forall g, h | 0 <= g < h < |nodes| && c in MembersAt(nodes, g)
      ensures c !in MembersAt(nodes, h)
    {
      ClaimsDisjoint(nodes, g, h, c);
    }
  }
}
