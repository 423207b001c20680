/** What a stream assembler accepts and gives back, over whole streams. */
module Assembly {
  import opened Shapes
  import opened Coverage
  import opened Descriptors
  import opened Validator
  import opened Composites
  import opened Trees
  import opened Assembler

  // ---- feeding in parts ----

  ghost function AsProgress<P>(d: Delivery<P>): Attempt<Progress<P>> {
    if d.result.Failed? then Failed(d.result.error)
    else Done(Progress(d.stack, Emitted(d)))
  }

  ghost function Continue<P>(maxDepth: nat, p: Progress<P>, es: seq<Entry<P>>): Attempt<Progress<P>> {
    var r := Feed(maxDepth, p.stack, es);
    if r.Failed? then r else Done(Progress(r.value.stack, p.items + r.value.items))
  }

  lemma {:induction false} FeedConcat<P>(maxDepth: nat, stack: seq<Open<P>>, a: seq<Entry<P>>, b: seq<Entry<P>>)
    requires Feed(maxDepth, stack, a).Done?
    ensures Feed(maxDepth, stack, a + b) == Continue(maxDepth, Feed(maxDepth, stack, a).value, b)
    decreases |a|
  {
    if a == [] {
      assert a + b == b;
      var r := Feed(maxDepth, stack, b);
      if r.Done? { assert [] + r.value.items == r.value.items; }
    } else {
      assert (a + b)[1..] == a[1..] + b;
      var d := Receive(maxDepth, stack, a[0]);
      FeedConcat(maxDepth, d.stack, a[1..], b);
      var p := Feed(maxDepth, d.stack, a[1..]).value;
      var r := Feed(maxDepth, p.stack, b);
      if r.Done? { Associate(Emitted(d), p.items, r.value.items); }
    }
  }

  lemma FeedOne<P>(maxDepth: nat, stack: seq<Open<P>>, e: Entry<P>)
    ensures Feed(maxDepth, stack, [e]) == AsProgress(Receive(maxDepth, stack, e))
  {
    var d := Receive(maxDepth, stack, e);
    assert [e][1..] == [];
    if d.result.Done? { assert Emitted(d) + [] == Emitted(d); }
  }

  // ---- every valid item with no empty head is given back ----

  lemma DescriptorsConcat<P>(a: seq<Item<P>>, m: Item<P>)
    ensures DescriptorsOf(a + [m]) == DescriptorsOf(a) + [m.data.descriptor]
  {
  }

  lemma PrefixRuns(s: State, members: seq<Descriptor>, i: nat)
    requires AllWellFormed(members) && i <= |members| && Run(s, members).Ok?
    ensures Run(s, members[..i]).Ok?
  {
    if Run(s, members[..i]).Err? { RunFailsOn(s, members, i); }
  }

  /** An open head that has taken `done`. */
  ghost function Waiting<P>(head: TensorDescriptor, done: seq<Item<P>>): Open<P>
    requires Init(head).Ok? && Run(Init(head).value, DescriptorsOf(done)).Ok?
  {
    Open(head, head.layout.memberCount, done, Run(Init(head).value, DescriptorsOf(done)).value)
  }

  lemma DonePrefix<P>(head: TensorDescriptor, done: seq<Item<P>>, todo: seq<Item<P>>)
    requires Validate(head, DescriptorsOf(done + todo)) == Ok(())
    ensures Init(head).Ok? && Run(Init(head).value, DescriptorsOf(done)).Ok?
  {
    PrefixRuns(Init(head).value, DescriptorsOf(done + todo), |done|);
    assert DescriptorsOf(done + todo)[..|done|] == DescriptorsOf(done);
  }

  lemma DeliverTop<P>(stack: seq<Open<P>>, top: Open<P>, item: Item<P>, validator: State)
    requires Admit(top.validator, item.data.descriptor) == Ok(validator) && |top.members| + 1 < U32_LIMIT
    ensures |top.members| + 1 < top.memberCount ==>
              Deliver(stack + [top], item)
              == Delivery(stack + [top.(members := top.members + [item], validator := validator)], Done(None))
    ensures |top.members| + 1 >= top.memberCount ==>
              Deliver(stack + [top], item) ==
              if Close(validator).Ok? then Deliver(stack, Head(Entry(top.head, []), top.members + [item]))
              else Delivery(stack, Failed(Core(Close(validator).error)))
  {
    assert (stack + [top])[..|stack|] == stack;
  }

  /** A waiting head takes its next member. */
  lemma WaitingTakes<P>(head: TensorDescriptor, done: seq<Item<P>>, validator: State, m: Item<P>)
    requires Init(head).Ok? && Run(Init(head).value, DescriptorsOf(done)) == Ok(validator)
    ensures Run(Init(head).value, DescriptorsOf(done + [m])) == Admit(validator, m.data.descriptor)
  {
    DescriptorsConcat(done, m);
    var ds := DescriptorsOf(done + [m]);
    assert ds[..|ds| - 1] == DescriptorsOf(done);
  }

  lemma DeliverToWaiting<P>(stack: seq<Open<P>>, head: TensorDescriptor, done: seq<Item<P>>, m: Item<P>)
    requires Init(head).Ok? && Run(Init(head).value, DescriptorsOf(done)).Ok?
    requires Run(Init(head).value, DescriptorsOf(done + [m])).Ok? && |done| + 1 < U32_LIMIT
    ensures |done| + 1 < head.layout.memberCount ==>
              Deliver(stack + [Waiting(head, done)], m) == Delivery(stack + [Waiting(head, done + [m])], Done(None))
    ensures |done| + 1 >= head.layout.memberCount && Close(Waiting(head, done + [m]).validator).Ok? ==>
              Deliver(stack + [Waiting(head, done)], m) == Deliver(stack, Head(Entry(head, []), done + [m]))
  {
    WaitingTakes(head, done, Waiting(head, done).validator, m);
    DeliverTop(stack, Waiting(head, done), m, Waiting(head, done + [m]).validator);
  }

  /** One more member for an open head of a valid composite: it stays open, or closes into
      its parent. */
  lemma DeliverMember<P>(stack: seq<Open<P>>, head: TensorDescriptor, done: seq<Item<P>>, m: Item<P>, rest: seq<Item<P>>)
    requires Validate(head, DescriptorsOf(done + [m] + rest)) == Ok(()) && |done + [m] + rest| < U32_LIMIT
    ensures Init(head).Ok? && Run(Init(head).value, DescriptorsOf(done)).Ok?
    ensures Run(Init(head).value, DescriptorsOf(done + [m])).Ok?
    ensures rest != [] ==>
              Deliver(stack + [Waiting(head, done)], m) == Delivery(stack + [Waiting(head, done + [m])], Done(None))
    ensures rest == [] ==>
              Deliver(stack + [Waiting(head, done)], m) == Deliver(stack, Head(Entry(head, []), done + [m]))
  {
    var all := done + [m] + rest;
    assert all == done + ([m] + rest);
    DonePrefix(head, done, [m] + rest);
    DonePrefix(head, done + [m], rest);
    assert head.layout.Composite? && |all| == head.layout.memberCount by { DeclaredCount(head, all); }
    if rest == [] {
      assert all == done + [m];
      WholeCloses(head, all);
    }
    DeliverToWaiting(stack, head, done, m);
  }

  lemma DeclaredCount<P>(head: TensorDescriptor, all: seq<Item<P>>)
    requires Validate(head, DescriptorsOf(all)) == Ok(()) && |all| < U32_LIMIT
    ensures head.layout.Composite? && |all| == head.layout.memberCount
  {
    CountOfValid(head, DescriptorsOf(all));
  }

  /** A head that has taken all members of a valid composite closes. */
  lemma WholeCloses<P>(head: TensorDescriptor, all: seq<Item<P>>)
    requires Validate(head, DescriptorsOf(all)) == Ok(())
    ensures Init(head).Ok? && Run(Init(head).value, DescriptorsOf(all)).Ok? && Close(Waiting(head, all).validator).Ok?
  {
  }

  lemma CountOfValid(head: Descriptor, members: seq<Descriptor>)
    requires AllWellFormed(members) && Validate(head, members) == Ok(())
    ensures head.layout.Composite? && |members| % U32_LIMIT == head.layout.memberCount
  {
    ValidateDecides(head, members);
  }

  lemma {:induction false} FeedItem<P>(maxDepth: nat, stack: seq<Open<P>>, t: Item<P>)
    requires ValidItem(t, maxDepth - |stack|) && NoEmptyHead(t)
    ensures Feed(maxDepth, stack, Wire(t)) == AsProgress(Deliver(stack, t))
    decreases t, 1
  {
    FeedOne(maxDepth, stack, t.data);
    match t
    case Tensor(e) =>
      assert Wire(t) == [e];
    case Head(e, ms) =>
      assert [] + ms == ms;
      DonePrefix(e.descriptor, [], ms);
      assert DescriptorsOf<P>([]) == [];
      var opened' := stack + [Waiting(e.descriptor, [])];
      assert Receive(maxDepth, stack, e) == Delivery(opened', Done(None));
      FeedMembers(maxDepth, stack, e.descriptor, [], ms);
      FeedConcat(maxDepth, stack, [e], WireAll(ms));
      var r := Feed(maxDepth, opened', WireAll(ms));
      if r.Done? { assert [] + r.value.items == r.value.items; }
      assert e == Entry(e.descriptor, []);
  }

  lemma {:induction false} FeedMembers<P>(maxDepth: nat, stack: seq<Open<P>>, head: TensorDescriptor,
                                          done: seq<Item<P>>, todo: seq<Item<P>>)
    requires todo != [] && |done + todo| < U32_LIMIT
    requires Validate(head, DescriptorsOf(done + todo)) == Ok(())
    requires ValidItems(todo, maxDepth - |stack| - 1) && NoEmptyHeads(todo)
    ensures Init(head).Ok? && Run(Init(head).value, DescriptorsOf(done)).Ok?
    ensures Feed(maxDepth, stack + [Waiting(head, done)], WireAll(todo))
            == AsProgress(Deliver(stack, Head(Entry(head, []), done + todo)))
    decreases todo, 0
  {
    hide Admit, Close, Run, Validate, Init;
    DonePrefix(head, done, todo);
    var m, rest := todo[0], todo[1..];
    var before := stack + [Waiting(head, done)];
    assert done + todo == done + [m] + rest;
    DeliverMember(stack, head, done, m, rest);
    FeedItem(maxDepth, before, m);
    if rest == [] {
      assert WireAll(todo) == Wire(m) + [];
      assert Wire(m) + [] == Wire(m);
      assert done + [m] == done + todo;
    } else {
      FeedMembers(maxDepth, stack, head, done + [m], rest);
      FeedConcat(maxDepth, before, Wire(m), WireAll(rest));
      var r := Feed(maxDepth, stack + [Waiting(head, done + [m])], WireAll(rest));
      if r.Done? { assert [] + r.value.items == r.value.items; }
    }
  }

  /** Completeness: streams of such items come back item by item. */
  lemma {:induction false} FeedItems<P>(maxDepth: nat, ts: seq<Item<P>>)
    requires ValidItems(ts, maxDepth) && NoEmptyHeads(ts)
    ensures Feed(maxDepth, [], WireAll(ts)) == Done(Progress([], ts))
  {
    if ts != [] {
      FeedItem(maxDepth, [], ts[0]);
      FeedItems(maxDepth, ts[1..]);
      FeedConcat(maxDepth, [], Wire(ts[0]), WireAll(ts[1..]));
      assert [ts[0]] + ts[1..] == ts;
    }
  }

  // ---- nothing else is ever given back ----

  /** Heads own no buffers: what the descriptor constructor enforces of a composite head. */
  ghost predicate HeadsBare<P>(es: seq<Entry<P>>) {
    forall i :: 0 <= i < |es| && es[i].descriptor.layout.Composite? ==> es[i].buffers == []
  }

  /** An open head at level `p`: its validator has seen exactly its members, which are valid
      items, and it is not full unless it never wanted any. */
  ghost predicate OpenOk<P>(maxDepth: nat, p: nat, o: Open<P>) {
    && p < maxDepth && Seen(o)
    && (|o.members| < o.memberCount || (o.memberCount == 0 && o.members == []))
    && ValidItems(o.members, maxDepth - p - 1) && NoEmptyHeads(o.members)
  }

  ghost predicate StackOk<P>(maxDepth: nat, stack: seq<Open<P>>) {
    forall p :: 0 <= p < |stack| ==> OpenOk(maxDepth, p, stack[p])
  }

  /** The tensors held by the open heads, in the order they arrived. */
  ghost function StackWire<P>(stack: seq<Open<P>>): seq<Entry<P>> {
    if stack == [] then [] else
    var top := stack[|stack| - 1];
    StackWire(stack[..|stack| - 1]) + ([Entry(top.head, [])] + WireAll(top.members))
  }

  lemma StackWireTop<P>(stack: seq<Open<P>>, top: Open<P>)
    ensures StackWire(stack + [top]) == StackWire(stack) + ([Entry(top.head, [])] + WireAll(top.members))
  {
    assert (stack + [top])[..|stack|] == stack;
  }

  lemma {:induction false} ItemsSnoc<P>(ts: seq<Item<P>>, t: Item<P>, room: int)
    ensures WireAll(ts + [t]) == WireAll(ts) + Wire(t)
    ensures ValidItems(ts + [t], room) <==> ValidItems(ts, room) && ValidItem(t, room)
    ensures NoEmptyHeads(ts + [t]) <==> NoEmptyHeads(ts) && NoEmptyHead(t)
  {
    if ts == [] {
      assert ts + [t] == [t] && [t][1..] == [];
      assert Wire(t) + [] == Wire(t);
    } else {
      ItemsSnoc(ts[1..], t, room);
      assert (ts + [t])[1..] == ts[1..] + [t];
      Associate(Wire(ts[0]), WireAll(ts[1..]), Wire(t));
    }
  }

  /** An open head's validator has seen exactly its members. */
  ghost predicate Seen<P>(o: Open<P>) {
    && Init(o.head).Ok? && o.memberCount == o.head.layout.memberCount
    && Run(Init(o.head).value, DescriptorsOf(o.members)) == Ok(o.validator)
  }

  lemma SeenGrows<P>(o: Open<P>, item: Item<P>, validator: State)
    requires Seen(o) && Admit(o.validator, item.data.descriptor) == Ok(validator)
    ensures Seen(Grown(o, item, validator))
  {
    WaitingTakes(o.head, o.members, o.validator, item);
  }

  lemma SeenCloses<P>(o: Open<P>)
    requires Seen(o) && Close(o.validator).Ok?
    ensures Validate(o.head, DescriptorsOf(o.members)) == Ok(())
    ensures |o.members| % U32_LIMIT == o.memberCount
  {
    CountOfValid(o.head, DescriptorsOf(o.members));
  }

  ghost function Grown<P>(o: Open<P>, item: Item<P>, validator: State): Open<P> {
    o.(members := o.members + [item], validator := validator)
  }

  /** An open head that has members, all of them valid items its validator has seen. */
  ghost predicate Fed<P>(o: Open<P>, room: int) {
    && Seen(o) && room > 0 && 0 < |o.members| < U32_LIMIT
    && ValidItems(o.members, room - 1) && NoEmptyHeads(o.members)
  }

  /** A head with its last member, closed, is a valid item. */
  lemma ClosedIsValid<P>(o: Open<P>, whole: Item<P>, room: int)
    requires Fed(o, room) && Close(o.validator).Ok? && whole == Head(Entry(o.head, []), o.members)
    ensures ValidItem(whole, room) && NoEmptyHead(whole)
  {
    SeenCloses(o);
  }

  /** Where the tensors of the stack and of the item end up. */
  ghost predicate Delivered<P>(maxDepth: nat, wire: seq<Entry<P>>, d: Delivery<P>) {
    && d.result.Done?
    && StackOk(maxDepth, d.stack)
    && match d.result.value
       case None => StackWire(d.stack) == wire
       case Some(t) => d.stack == [] && Wire(t) == wire && ValidItem(t, maxDepth) && NoEmptyHead(t)
  }

  /** Taking off the innermost head. */
  lemma StackTop<P>(maxDepth: nat, stack: seq<Open<P>>)
    requires StackOk(maxDepth, stack) && stack != []
    ensures StackOk(maxDepth, stack[..|stack| - 1])
    ensures OpenOk(maxDepth, |stack| - 1, stack[|stack| - 1])
    ensures stack == stack[..|stack| - 1] + [stack[|stack| - 1]]
  {
    var rest := stack[..|stack| - 1];
    forall p | 0 <= p < |rest|
      ensures OpenOk(maxDepth, p, rest[p])
    {
      assert rest[p] == stack[p];
    }
  }

  lemma StackPush<P>(maxDepth: nat, stack: seq<Open<P>>, top: Open<P>)
    requires StackOk(maxDepth, stack) && OpenOk(maxDepth, |stack|, top)
    ensures StackOk(maxDepth, stack + [top])
  {
    forall p | 0 <= p < |stack| + 1
      ensures OpenOk(maxDepth, p, (stack + [top])[p])
    {
    }
  }

  /** Growing or closing the innermost head keeps the tensors in order. */
  lemma WireGrows<P>(stack: seq<Open<P>>, o: Open<P>, item: Item<P>, validator: State)
    ensures var wire := StackWire(stack + [o]) + Wire(item);
            && StackWire(stack + [Grown(o, item, validator)]) == wire
            && StackWire(stack) + Wire(Head(Entry(o.head, []), o.members + [item])) == wire
  {
    var root := [Entry(o.head, [])];
    StackWireTop(stack, o);
    StackWireTop(stack, Grown(o, item, validator));
    ItemsSnoc(o.members, item, 0);
    Associate(root, WireAll(o.members), Wire(item));
    Associate(StackWire(stack), root + WireAll(o.members), Wire(item));
  }

  /** The innermost head with one more member: still waiting, or ready to close. */
  lemma GrownHead<P>(maxDepth: nat, p: nat, o: Open<P>, item: Item<P>, grown: Open<P>)
    requires OpenOk(maxDepth, p, o) && ValidItem(item, maxDepth - p - 1) && NoEmptyHead(item)
    requires Seen(grown) && grown == Grown(o, item, grown.validator)
    ensures Fed(grown, maxDepth - p)
  {
    ItemsSnoc(o.members, item, maxDepth - p - 1);
  }

  /** A head that still waits after this member. */
  lemma KeepsOpen<P>(maxDepth: nat, rest: seq<Open<P>>, top: Open<P>, item: Item<P>, validator: State)
    requires StackOk(maxDepth, rest) && OpenOk(maxDepth, |rest|, top)
    requires ValidItem(item, maxDepth - |rest| - 1) && NoEmptyHead(item)
    requires Admit(top.validator, item.data.descriptor) == Ok(validator)
    requires |top.members| + 1 < top.memberCount
    ensures Delivered(maxDepth, StackWire(rest + [top]) + Wire(item), Deliver(rest + [top], item))
  {
    var grown := Grown(top, item, validator);
    DeliverTop(rest, top, item, validator);
    assert Deliver(rest + [top], item) == Delivery(rest + [grown], Done(None));
    SeenGrows(top, item, validator);
    GrownHead(maxDepth, |rest|, top, item, grown);
    assert OpenOk(maxDepth, |rest|, grown);
    StackPush(maxDepth, rest, grown);
    WireGrows(rest, top, item, validator);
  }

  /** A head that this member completes. */
  lemma Closes<P>(maxDepth: nat, rest: seq<Open<P>>, top: Open<P>, item: Item<P>, grown: Open<P>, whole: Item<P>)
    requires OpenOk(maxDepth, |rest|, top)
    requires ValidItem(item, maxDepth - |rest| - 1) && NoEmptyHead(item)
    requires Seen(grown) && grown == Grown(top, item, grown.validator)
    requires Close(grown.validator).Ok? && whole == Head(Entry(grown.head, []), grown.members)
    ensures ValidItem(whole, maxDepth - |rest|) && NoEmptyHead(whole)
  {
    hide Run, Close, Wire, Validate;
    GrownHead(maxDepth, |rest|, top, item, grown);
    ClosedIsValid(grown, whole, maxDepth - |rest|);
  }

  lemma {:induction false} DeliverSound<P>(maxDepth: nat, stack: seq<Open<P>>, item: Item<P>)
    requires StackOk(maxDepth, stack) && ValidItem(item, maxDepth - |stack|) && NoEmptyHead(item)
    requires Deliver(stack, item).result.Done?
    ensures Delivered(maxDepth, StackWire(stack) + Wire(item), Deliver(stack, item))
    decreases |stack|
  {
    hide Admit, Close, Run, Wire, Seen, ValidItem, ValidItems, NoEmptyHead, NoEmptyHeads;
    if stack == [] {
      assert StackWire(stack) + Wire(item) == Wire(item);
    } else {
      var rest, top := stack[..|stack| - 1], stack[|stack| - 1];
      StackTop(maxDepth, stack);
      var validator := Admit(top.validator, item.data.descriptor).value;
      if |top.members| + 1 < top.memberCount {
        KeepsOpen(maxDepth, rest, top, item, validator);
      } else {
        DeliverTop(rest, top, item, validator);
        var grown := Grown(top, item, validator);
        var whole := Head(Entry(top.head, []), top.members + [item]);
        SeenGrows(top, item, validator);
        Closes(maxDepth, rest, top, item, grown, whole);
        WireGrows(rest, top, item, validator);
        DeliverSound(maxDepth, rest, whole);
      }
    }
  }

  /** Receiving one tensor. */
  lemma ReceiveSound<P>(maxDepth: nat, stack: seq<Open<P>>, e: Entry<P>)
    requires StackOk(maxDepth, stack) && HeadsBare([e])
    requires Receive(maxDepth, stack, e).result.Done?
    ensures Delivered(maxDepth, StackWire(stack) + [e], Receive(maxDepth, stack, e))
  {
    if e.descriptor.layout.Composite? {
      var o := Open(e.descriptor, e.descriptor.layout.memberCount, [], Init(e.descriptor).value);
      assert [e][0].buffers == [];
      assert e == Entry(e.descriptor, []);
      assert DescriptorsOf<P>([]) == [];
      assert OpenOk(maxDepth, |stack|, o);
      StackPush(maxDepth, stack, o);
      StackWireTop(stack, o);
      assert [e] + WireAll<P>([]) == [e];
    } else {
      DeliverSound(maxDepth, stack, Tensor(e));
      assert Wire(Tensor(e)) == [e];
    }
  }

  /** What is conserved: everything given out and everything still held, in order, is
      everything that came in. */
  ghost predicate Conserved<P>(maxDepth: nat, wire: seq<Entry<P>>, p: Progress<P>) {
    && StackOk(maxDepth, p.stack)
    && WireAll(p.items) + StackWire(p.stack) == wire
    && ValidItems(p.items, maxDepth) && NoEmptyHeads(p.items)
  }

  /** An item that came out goes in front of what comes out later. */
  lemma ConservedCons<P>(maxDepth: nat, t: Item<P>, wire: seq<Entry<P>>, p: Progress<P>)
    requires Conserved(maxDepth, wire, p) && ValidItem(t, maxDepth) && NoEmptyHead(t)
    ensures Conserved(maxDepth, Wire(t) + wire, Progress(p.stack, [t] + p.items))
  {
    assert ([t] + p.items)[1..] == p.items;
    Associate(Wire(t), WireAll(p.items), StackWire(p.stack));
  }

  lemma SplitFirst<T>(before: seq<T>, es: seq<T>)
    requires es != []
    ensures before + es == (before + [es[0]]) + es[1..]
  {
  }

  /** Soundness over whole streams: nothing is lost, added or reordered, and everything that
      comes out is valid. */
  lemma {:induction false} FeedSound<P>(maxDepth: nat, stack: seq<Open<P>>, es: seq<Entry<P>>)
    requires StackOk(maxDepth, stack) && HeadsBare(es) && Feed(maxDepth, stack, es).Done?
    ensures Conserved(maxDepth, StackWire(stack) + es, Feed(maxDepth, stack, es).value)
    decreases |es|
  {
    if es == [] {
      assert WireAll<P>([]) + StackWire(stack) == StackWire(stack) + es;
    } else {
      var d := Receive(maxDepth, stack, es[0]);
      assert HeadsBare([es[0]]);
      ReceiveSound(maxDepth, stack, es[0]);
      FeedSound(maxDepth, d.stack, es[1..]);
      var rest := Feed(maxDepth, d.stack, es[1..]).value;
      SplitFirst(StackWire(stack), es);
      if d.result.value.Some? {
        assert StackWire<P>([]) + es[1..] == es[1..];
        ConservedCons(maxDepth, d.result.value.value, es[1..], rest);
      } else {
        assert [] + rest.items == rest.items;
      }
    }
  }

  /** The assembler is the exact inverse of wire order: a stream ends cleanly with items `ts`
      if and only if it is their wire order and they are valid items with no empty head. */
  lemma AssemblerDecides<P>(maxDepth: nat, es: seq<Entry<P>>, ts: seq<Item<P>>)
    requires HeadsBare(es)
    ensures Feed(maxDepth, [], es) == Done(Progress([], ts)) <==>
            es == WireAll(ts) && ValidItems(ts, maxDepth) && NoEmptyHeads(ts)
  {
    if Feed(maxDepth, [], es) == Done(Progress([], ts)) {
      FeedSound(maxDepth, [], es);
      assert WireAll(ts) + StackWire<P>([]) == WireAll(ts);
      assert StackWire<P>([]) + es == es;
    }
    if es == WireAll(ts) && ValidItems(ts, maxDepth) && NoEmptyHeads(ts) {
      FeedItems(maxDepth, ts);
    }
  }

  lemma {:induction false} ValidIsBare<P>(t: Item<P>, room: int)
    requires ValidItem(t, room)
    ensures HeadsBare(Wire(t))
    decreases t, 1
  {
    if t.Head? { ValidAreBare(t.members, room - 1); }
  }

  lemma {:induction false} ValidAreBare<P>(ts: seq<Item<P>>, room: int)
    requires ValidItems(ts, room)
    ensures HeadsBare(WireAll(ts))
    decreases ts, 0
  {
    if ts != [] {
      ValidIsBare(ts[0], room);
      ValidAreBare(ts[1..], room);
    }
  }

  lemma SingleItem<P>(t: Item<P>, room: int)
    ensures WireAll([t]) == Wire(t)
    ensures ValidItems([t], room) <==> ValidItem(t, room)
    ensures NoEmptyHeads([t]) <==> NoEmptyHead(t)
  {
    ItemsSnoc([], t, room);
    assert [] + [t] == [t];
    assert [] + Wire(t) == Wire(t);
  }

  /** Writing a valid item and reading it back works exactly when no head in it is empty,
      although the format allows heads without members. */
  lemma ReadBackIffNoEmptyHead<P>(maxDepth: nat, t: Item<P>)
    requires ValidItem(t, maxDepth)
    ensures Feed(maxDepth, [], Wire(t)) == Done(Progress([], [t])) <==> NoEmptyHead(t)
  {
    ValidIsBare(t, maxDepth);
    SingleItem(t, maxDepth);
    AssemblerDecides(maxDepth, Wire(t), [t]);
  }

  /** A group head that declares no members is valid, but its stream is torn: the head stays
      open, waiting for the member it never declared. */
  lemma EmptyGroupIsTorn(head: TensorDescriptor)
    requires head.layout == Composite(Group, 0)
    ensures ValidItem<int>(Head(Entry(head, []), []), 1)
    ensures Feed<int>(1, [], [Entry(head, [])]) == Done(Progress([Open(head, 0, [], Init(head).value)], []))
  {
    assert DescriptorsOf<int>([]) == [];
    FeedOne<int>(1, [], Entry(head, []));
    var open: Open<int> := Open(head, 0, [], Init(head).value);
    assert [] + [open] == [open];
  }

  // ---- what a reader's items are worth ----

  /** Every partition head of the tree whose volume is counted is tiled exactly by its members. */
  ghost predicate Tiled<P>(t: Item<P>)
    decreases t, 1
  {
    t.Head? ==>
      && (t.data.descriptor.layout.Composite? && t.data.descriptor.layout.rule.Partition? && CountFits(t.data.descriptor.shape) ==>
            && (forall i :: 0 <= i < |t.members| ==> t.members[i].data.descriptor.shard.Some?)
            && ExactlyCovers(BoxesOf(DescriptorsOf(t.members)), t.data.descriptor.shape))
      && TiledAll(t.members)
  }

  ghost predicate TiledAll<P>(ts: seq<Item<P>>)
    decreases ts, 0
  {
    ts != [] ==> Tiled(ts[0]) && TiledAll(ts[1..])
  }

  lemma {:induction false} ValidIsTiled<P>(t: Item<P>, room: int)
    requires ValidItem(t, room)
    ensures Tiled(t) && Fits(t)
    decreases t, 1
  {
    if t.Head? {
      ValidAreTiled(t.members, room - 1);
      var head, ds := t.data.descriptor, DescriptorsOf(t.members);
      ValidateDecides(head, ds);
      if head.layout.rule.Partition? && CountFits(head.shape) {
        PartitionTilesHead(head, ds);
        forall i | 0 <= i < |t.members|
          ensures t.members[i].data.descriptor.shard.Some?
        {
          assert ds[i] == t.members[i].data.descriptor;
          assert MemberFits(head.layout.rule, head.shape, head.typeTag, i, ds[i]);
        }
      }
    }
  }

  lemma {:induction false} ValidAreTiled<P>(ts: seq<Item<P>>, room: int)
    requires ValidItems(ts, room)
    ensures TiledAll(ts) && FitsAll(ts)
    decreases ts, 0
  {
    if ts != [] {
      ValidIsTiled(ts[0], room);
      ValidAreTiled(ts[1..], room);
    }
  }

  /** Whatever a stream contains, every item its assembler gives out is tiled at every level
      and can cross the C boundary. */
  lemma AssembledItemsAreTiled<P>(maxDepth: nat, es: seq<Entry<P>>)
    requires HeadsBare(es) && Feed(maxDepth, [], es).Done?
    ensures TiledAll(Feed(maxDepth, [], es).value.items)
    ensures FitsAll(Feed(maxDepth, [], es).value.items)
  {
    FeedSound(maxDepth, [], es);
    ValidAreTiled(Feed(maxDepth, [], es).value.items, maxDepth);
  }
}
