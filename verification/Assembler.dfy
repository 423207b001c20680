/** Putting composites back together from the flat tensors a stream carries: an explicit
    stack of open heads, each with its own validator. */
module Assembler {
  import opened Shapes
  import opened Descriptors
  import opened Validator
  import opened Composites
  import opened Trees

  /** A tensor as the stream yields it; a head has no buffers. */
  datatype Entry<P> = Entry(descriptor: TensorDescriptor, buffers: seq<P>)

  type Item<P> = Tree<Entry<P>>

  /** A head whose members have not all arrived. */
  datatype Open<P> = Open(head: TensorDescriptor, memberCount: U32, members: seq<Item<P>>, validator: State)

  datatype StreamError = NestingLimit(limit: nat) | Core(error: Error) | TornComposite(declared: U32, actual: U32)

  datatype Attempt<+T> = Done(value: T) | Failed(error: StreamError)

  ghost function DescriptorsOf<P>(items: seq<Item<P>>): (ds: seq<Descriptor>)
    ensures |ds| == |items|
    ensures AllWellFormed(ds)
  {
    seq(|items|, i requires 0 <= i < |items| => items[i].data.descriptor)
  }

  // ---- the state machine ----

  datatype Delivery<P> = Delivery(stack: seq<Open<P>>, result: Attempt<Option<Item<P>>>)

  /** Hands an item to the innermost open head, closing heads as they fill. */
  ghost function Deliver<P>(stack: seq<Open<P>>, item: Item<P>): Delivery<P>
    decreases |stack|
  {
    if stack == [] then Delivery([], Done(Some(item))) else
    var rest, top := stack[..|stack| - 1], stack[|stack| - 1];
    var admitted := Admit(top.validator, item.data.descriptor);
    if admitted.Err? then Delivery(rest, Failed(Core(admitted.error))) else
    var members := top.members + [item];
    if |members| % U32_LIMIT < top.memberCount then
      Delivery(rest + [top.(members := members, validator := admitted.value)], Done(None))
    else
      var closed := Close(admitted.value);
      if closed.Err? then Delivery(rest, Failed(Core(closed.error))) else
      Deliver(rest, Head(Entry(top.head, []), members))
  }

  ghost function Receive<P>(maxDepth: nat, stack: seq<Open<P>>, e: Entry<P>): Delivery<P> {
    if e.descriptor.layout.Composite? then
      if |stack| >= maxDepth then Delivery(stack, Failed(NestingLimit(maxDepth))) else
      var begun := Init(e.descriptor);
      if begun.Err? then Delivery(stack, Failed(Core(begun.error))) else
      Delivery(stack + [Open(e.descriptor, e.descriptor.layout.memberCount, [], begun.value)], Done(None))
    else
      Deliver(stack, Tensor(e))
  }

  /** The assembler object. */
  class CompositeAssembler<P> {
    const maxDepth: nat
    var stack: seq<Open<P>>

    constructor (maxDepth: nat)
      ensures this.maxDepth == maxDepth && stack == []
    {
      this.maxDepth := maxDepth;
      stack := [];
    }

    method Push(e: Entry<P>) returns (r: Attempt<Option<Item<P>>>)
      modifies this
      ensures Delivery(stack, r) == Receive(maxDepth, old(stack), e)
    {
      if e.descriptor.layout.Composite? {
        if |stack| >= maxDepth {
          return Failed(NestingLimit(maxDepth));
        }
        var begun := Init(e.descriptor);
        if begun.Err? {
          return Failed(Core(begun.error));
        }
        stack := stack + [Open(e.descriptor, e.descriptor.layout.memberCount, [], begun.value)];
        return Done(None);
      }
      r := DeliverItem(Tensor(e));
    }

    method DeliverItem(item0: Item<P>) returns (r: Attempt<Option<Item<P>>>)
      modifies this
      ensures Delivery(stack, r) == Deliver(old(stack), item0)
    {
      var item := item0;
      while stack != []
        invariant Deliver(stack, item) == Deliver(old(stack), item0)
        decreases |stack|
      {
        var top := stack[|stack| - 1];
        stack := stack[..|stack| - 1];
        var verdict := MemberVerdict(top.validator, item.data.descriptor);
        if verdict.Err? {
          return Failed(Core(verdict.error));
        }
        var validator := AfterMember(top.validator, item.data.descriptor);
        var members := top.members + [item];
        if |members| % U32_LIMIT < top.memberCount {
          stack := stack + [top.(members := members, validator := validator)];
          return Done(None);
        }
        var closed := CloseState(validator);
        if closed.Err? {
          return Failed(Core(closed.error));
        }
        item := Head(Entry(top.head, []), members);
      }
      return Done(Some(item));
    }

    method Finish() returns (r: Attempt<()>)
      ensures r == if stack == [] then Done(()) else
                   Failed(TornComposite(stack[|stack| - 1].memberCount, |stack[|stack| - 1].members| % U32_LIMIT))
    {
      if stack == [] {
        return Done(());
      }
      var open := stack[|stack| - 1];
      return Failed(TornComposite(open.memberCount, |open.members| % U32_LIMIT));
    }
  }

  // ---- whole streams ----

  datatype Progress<P> = Progress(stack: seq<Open<P>>, items: seq<Item<P>>)

  /** The item a delivery completed, if any. */
  ghost function Emitted<P>(d: Delivery<P>): seq<Item<P>>
    requires d.result.Done?
  {
    if d.result.value.Some? then [d.result.value.value] else []
  }

  /** Feeding tensors in wire order, collecting the items that come out. */
  ghost function Feed<P>(maxDepth: nat, stack: seq<Open<P>>, es: seq<Entry<P>>): Attempt<Progress<P>>
    decreases |es|
  {
    if es == [] then Done(Progress(stack, [])) else
    var d := Receive(maxDepth, stack, es[0]);
    if d.result.Failed? then Failed(d.result.error) else
    var rest := Feed(maxDepth, d.stack, es[1..]);
    if rest.Failed? then rest else
    Done(Progress(rest.value.stack, Emitted(d) + rest.value.items))
  }

  /** The wire order of an item: a head, then its members. */
  ghost function Wire<P>(t: Item<P>): seq<Entry<P>>
    decreases t, 1
  {
    [t.data] + if t.Head? then WireAll(t.members) else []
  }

  ghost function WireAll<P>(ts: seq<Item<P>>): seq<Entry<P>>
    decreases ts, 0
  {
    if ts == [] then [] else Wire(ts[0]) + WireAll(ts[1..])
  }

  /** The stream items a reader should give back: kinds agree with layouts, every head is valid
      against its own members, nesting stays within `room` levels. */
  ghost predicate ValidItem<P>(t: Item<P>, room: int)
    decreases t, 1
  {
    match t
    case Tensor(e) => !e.descriptor.layout.Composite?
    case Head(e, ms) =>
      && e.buffers == [] && room > 0
      && Validate(e.descriptor, DescriptorsOf(ms)) == Ok(())
      && |ms| < U32_LIMIT
      && ValidItems(ms, room - 1)
  }

  ghost predicate ValidItems<P>(ts: seq<Item<P>>, room: int)
    decreases ts, 0
  {
    ts != [] ==> ValidItem(ts[0], room) && ValidItems(ts[1..], room)
  }

  /** No head in the tree is without members. */
  ghost predicate NoEmptyHead<P>(t: Item<P>)
    decreases t, 1
  {
    t.Head? ==> t.members != [] && NoEmptyHeads(t.members)
  }

  ghost predicate NoEmptyHeads<P>(ts: seq<Item<P>>)
    decreases ts, 0
  {
    ts != [] ==> NoEmptyHead(ts[0]) && NoEmptyHeads(ts[1..])
  }
}
