/** Why the stream assembler gives up: which tensor it stops at, and what is wrong there. */
module Refusals {
  import opened Shapes
  import opened Descriptors
  import opened Validator
  import opened Composites
  import opened Trees
  import opened Assembler
  import opened Assembly

  /** A delivery failed at head `p`, which is dropped with all above it: whatever was held above it
      and the new item make up its next member `whole`, and the error is the validator's answer to
      its members with that one. */
  ghost predicate RefusedMember<P>(stack: seq<Open<P>>, item: Item<P>, d: Delivery<P>, whole: Item<P>) {
    var p := |d.stack|;
    && p < |stack| && d.stack == stack[..p]
    && StackWire(stack[..p + 1]) + Wire(whole) == StackWire(stack) + Wire(item)
    && d.result.Failed? && d.result.error.Core?
    && Validate(stack[p].head, DescriptorsOf(stack[p].members + [whole])) == Err(d.result.error.error)
  }

  ghost predicate AllSeen<P>(stack: seq<Open<P>>) {
    forall p :: 0 <= p < |stack| ==> Seen(stack[p])
  }

  /** The innermost head with one more member: refused, complete, or still open. */
  lemma TopRefuses<P>(top: Open<P>, item: Item<P>, e: Error)
    requires Seen(top)
    requires Admit(top.validator, item.data.descriptor) == Err(e)
             || (Admit(top.validator, item.data.descriptor).Ok?
                 && Close(Admit(top.validator, item.data.descriptor).value) == Err(e))
    ensures Validate(top.head, DescriptorsOf(top.members + [item])) == Err(e)
  {
    WaitingTakes(top.head, top.members, top.validator, item);
  }

  /** Every failing delivery refuses a member of an open head. */
  lemma {:induction false} DeliverRefuses<P>(stack: seq<Open<P>>, item: Item<P>) returns (whole: Item<P>)
    requires AllSeen(stack) && Deliver(stack, item).result.Failed?
    ensures RefusedMember(stack, item, Deliver(stack, item), whole)
    decreases |stack|
  {
    hide Admit, Close, Run, Validate, Wire, StackWire, Seen;
    var rest, top := stack[..|stack| - 1], stack[|stack| - 1];
    var admitted := Admit(top.validator, item.data.descriptor);
    whole := item;
    if admitted.Err? {
      TopRefuses(top, item, admitted.error);
      assert stack[..|rest| + 1] == stack;
    } else if Close(admitted.value).Err? {
      TopRefuses(top, item, Close(admitted.value).error);
      assert stack[..|rest| + 1] == stack;
    } else {
      var closed := Head(Entry(top.head, []), top.members + [item]);
      whole := DeliverRefuses(rest, closed);
      assert rest + [top] == stack;
      WireGrows(rest, top, item, admitted.value);
      var p := |Deliver(rest, closed).stack|;
      assert rest[..p] == stack[..p] && rest[..p + 1] == stack[..p + 1];
    }
  }

  /** The tensor a stream is refused at: everything before it was taken. */
  ghost predicate StopsAt<P>(maxDepth: nat, stack: seq<Open<P>>, es: seq<Entry<P>>, k: nat, held: seq<Open<P>>, e: StreamError) {
    && k < |es| && Feed(maxDepth, stack, es[..k]).Done? && Feed(maxDepth, stack, es[..k]).value.stack == held
    && Receive(maxDepth, held, es[k]).result == Failed(e)
  }

  lemma {:induction false} FeedStops<P>(maxDepth: nat, stack: seq<Open<P>>, es: seq<Entry<P>>)
    returns (k: nat, held: seq<Open<P>>)
    requires Feed(maxDepth, stack, es).Failed?
    ensures StopsAt(maxDepth, stack, es, k, held, Feed(maxDepth, stack, es).error)
    decreases |es|
  {
    hide Receive;
    var d := Receive(maxDepth, stack, es[0]);
    if d.result.Failed? {
      k, held := 0, stack;
      assert es[..0] == [];
    } else {
      var j, later := FeedStops(maxDepth, d.stack, es[1..]);
      k, held := j + 1, later;
      assert es[..k][0] == es[0] && es[..k][1..] == es[1..][..j];
    }
  }

  /** Why a tensor is refused: a head that would nest too deep, a head that cannot be validated, or a
      member that some open head cannot take. */
  ghost predicate Because<P(!new)>(maxDepth: nat, stack: seq<Open<P>>, e: Entry<P>, why: StreamError) {
    if e.descriptor.layout.Composite? then
      if |stack| >= maxDepth then why == NestingLimit(maxDepth)
      else why == Core(InvalidLayout) && !e.descriptor.layout.rule.Group? && HasDynamic(e.descriptor.shape)
    else
      exists p: nat, whole ::
        && p < |stack| && StackWire(stack[..p + 1]) + Wire(whole) == StackWire(stack) + [e]
        && RefusedFor(stack[p], whole, why)
  }

  ghost predicate RefusedFor<P>(o: Open<P>, whole: Item<P>, why: StreamError) {
    why.Core? && Validate(o.head, DescriptorsOf(o.members + [whole])) == Err(why.error)
  }

  lemma ReceiveRefuses<P(!new)>(maxDepth: nat, stack: seq<Open<P>>, e: Entry<P>, why: StreamError)
    requires AllSeen(stack) && Receive(maxDepth, stack, e).result == Failed(why)
    ensures Because(maxDepth, stack, e, why)
  {
    hide Deliver, Validate, StackWire;
    if !e.descriptor.layout.Composite? {
      var whole := DeliverRefuses(stack, Tensor(e));
      var p := |Deliver(stack, Tensor(e)).stack|;
      assert Wire(Tensor(e)) == [e];
      assert RefusedFor(stack[p], whole, why);
    }
  }

  /** A stream that fails does so at one tensor, with everything before it accounted for: given out
      as valid items or held by open heads, in order. The error names what is wrong there. */
  lemma StreamRefused<P(!new)>(maxDepth: nat, es: seq<Entry<P>>) returns (k: nat, items: seq<Item<P>>, held: seq<Open<P>>)
    requires HeadsBare(es) && Feed(maxDepth, [], es).Failed?
    ensures k < |es| && Feed(maxDepth, [], es[..k]) == Done(Progress(held, items))
    ensures WireAll(items) + StackWire(held) == es[..k] && ValidItems(items, maxDepth)
    ensures Because(maxDepth, held, es[k], Feed(maxDepth, [], es).error)
  {
    hide Receive, Because, Wire, WireAll, StackWire, ValidItem;
    k, held := FeedStops(maxDepth, [], es);
    items := Feed(maxDepth, [], es[..k]).value.items;
    FeedSound(maxDepth, [], es[..k]);
    NoStackWire<P>();
    assert [] + es[..k] == es[..k];
    forall p | 0 <= p < |held|
      ensures Seen(held[p])
    {
      assert OpenOk(maxDepth, p, held[p]);
    }
    ReceiveRefuses(maxDepth, held, es[k], Feed(maxDepth, [], es).error);
  }

  lemma NoStackWire<P>()
    ensures StackWire<P>([]) == []
  {
  }
}
