/** Writer and reader together: which written items are read back. */
module Writing {
  import opened Shapes
  import opened Descriptors
  import opened Validator
  import opened Composites
  import opened Trees
  import opened Assembler
  import opened Assembly
  import opened Writer

  /** What a reader with `room` levels needs beyond the writer's own checks: nothing given as a
      tensor is a composite head, no head is without members or has `2^32` of them, and the
      nesting stays within its limit. */
  ghost predicate Readable(t: Item<Payload>, room: int)
    decreases t, 1
  {
    match t
    case Tensor(e) => !e.descriptor.layout.Composite?
    case Head(_, ms) => room > 0 && 0 < |ms| < U32_LIMIT && ReadableAll(ms, room - 1)
  }

  ghost predicate ReadableAll(ts: seq<Item<Payload>>, room: int)
    decreases ts, 0
  {
    ts != [] ==> Readable(ts[0], room) && ReadableAll(ts[1..], room)
  }

  lemma {:induction false} ReadableDecides(crossMachine: bool, t: Item<Payload>, room: int)
    requires Writable(crossMachine, t)
    ensures Readable(t, room) <==> ValidItem(t, room) && NoEmptyHead(t)
    decreases t, 1
  {
    if t.Head? { ReadableAllDecides(crossMachine, t.members, room - 1); }
  }

  lemma {:induction false} ReadableAllDecides(crossMachine: bool, ts: seq<Item<Payload>>, room: int)
    requires WritableAll(crossMachine, ts)
    ensures ReadableAll(ts, room) <==> ValidItems(ts, room) && NoEmptyHeads(ts)
    decreases ts, 0
  {
    if ts != [] {
      ReadableDecides(crossMachine, ts[0], room);
      ReadableAllDecides(crossMachine, ts[1..], room);
    }
  }

  /** A composite head has no buffer table, so what is written with one has no payloads. */
  lemma {:induction false} WrittenIsBare(crossMachine: bool, t: Item<Payload>)
    requires Writable(crossMachine, t)
    ensures HeadsBare(Wire(t))
    decreases t, 1
  {
    if t.Head? { WrittenAreBare(crossMachine, t.members); }
  }

  lemma {:induction false} WrittenAreBare(crossMachine: bool, ts: seq<Item<Payload>>)
    requires WritableAll(crossMachine, ts)
    ensures HeadsBare(WireAll(ts))
    decreases ts, 0
  {
    if ts != [] {
      WrittenIsBare(crossMachine, ts[0]);
      WrittenAreBare(crossMachine, ts[1..]);
    }
  }

  /** Every stream of written items, read back: the assembler returns exactly these items, with
      nothing left open, if and only if each of them is readable. */
  lemma RoundTrip(crossMachine: bool, items: seq<Item<Payload>>, maxDepth: nat)
    requires WritableAll(crossMachine, items)
    ensures Feed(maxDepth, [], WireAll(items)) == Done(Progress([], items)) <==> ReadableAll(items, maxDepth)
  {
    WrittenAreBare(crossMachine, items);
    AssemblerDecides(maxDepth, WireAll(items), items);
    ReadableAllDecides(crossMachine, items, maxDepth);
  }

  /** A composite head handed over as a plain tensor passes the writer's checks, but a reader takes
      it for the start of a composite that never ends. */
  lemma DisguisedHeadIsTorn(head: TensorDescriptor)
    requires head.layout == Composite(Group, 1)
    ensures var t: Item<Payload> := Tensor(Entry(head, []));
            && Writable(true, t) && !Readable(t, 8)
            && Feed(8, [], Wire(t)) == Done(Progress([Open(head, 1, [], Init(head).value)], []))
  {
    var e: Entry<Payload> := Entry(head, []);
    FeedOne(8, [], e);
    var open: Open<Payload> := Open(head, 1, [], Init(head).value);
    assert [] + [open] == [open];
  }

  // ---- an item that is cut short ----

  /** Descriptor encoding refuses a composite head that carries a member role. */
  ghost predicate RefusesHeadRoles(encode: Encoder) {
    forall d: TensorDescriptor :: d.layout.Composite? && d.role.Some? ==> encode(d).None?
  }

  const SCALAR_SHARD: Option<Shard> := Some(Shard([], []))

  /** An overlay over one number: a base, and a correction that is itself a composite. */
  function OverlayHead(): TensorDescriptor {
    Descriptor(0, [], Composite(Overlay(Replace), 2), None, None, None, [])
  }

  function OverlayBase(): TensorDescriptor {
    Descriptor(0, [], Plain(1), None, SCALAR_SHARD, Some(Base), [BufferHandle(0, true)])
  }

  function CompositeCorrection(): TensorDescriptor {
    Descriptor(0, [], Composite(Group, 0), None, SCALAR_SHARD, Some(Correction), [])
  }

  function NestedOverlay(): Item<Payload> {
    Head(Entry(OverlayHead(), []), [Tensor(Entry(OverlayBase(), [[]])), Head(Entry(CompositeCorrection(), []), [])])
  }

  lemma OverlayAccepted()
    ensures Validate(OverlayHead(), [OverlayBase(), CompositeCorrection()]) == Ok(())
    ensures !ValidComposite(OverlayHead(), [OverlayBase(), CompositeCorrection()])
    ensures Validate(CompositeCorrection(), []) == Ok(())
  {
    var ds := [OverlayBase(), CompositeCorrection()];
    assert MemberFits(Overlay(Replace), [], 0, 0, ds[0]);
    assert MemberFits(Overlay(Replace), [], 0, 1, ds[1]);
    ValidateDecides(OverlayHead(), ds);
    ValidateDecides(CompositeCorrection(), []);
    assert !ProperHead(ds[1]);
  }

  /** Validation on submission does not keep a torn item off the sink: this overlay passes every
      check, and its last tensor does not encode, after the bytes of the others have gone out. */
  lemma NestedOverlayIsCut(encode: Encoder)
    requires RefusesHeadRoles(encode) && encode(OverlayHead()).Some? && encode(OverlayBase()).Some?
    ensures Writable(true, NestedOverlay()) && FirstRefused(encode, Wire(NestedOverlay()), 2)
    ensures !Encodable(encode, Wire(NestedOverlay()))
  {
    var t := NestedOverlay();
    var base, correction := t.members[0], t.members[1];
    OverlayAccepted();
    assert DescriptorsOf(t.members) == [OverlayBase(), CompositeCorrection()];
    assert DescriptorsOf<Payload>([]) == [];
    assert PayloadsMatch(true, base.data);
    assert Writable(true, correction);
    WritableAt(true, t.members, 0);
    assert Wire(correction) == [correction.data];
    assert t.members[1..] == [correction] && [correction][1..] == [];
    assert Wire(t) == [t.data, base.data, correction.data];
  }

  // ---- exactly which items are cut short ----

  /** When a descriptor encodes: a composite head must not carry a member role; for the rest, what
      its layout, buffer table and length must allow, `fits` stands. */
  ghost predicate EncodesExactly(encode: Encoder, fits: TensorDescriptor -> bool) {
    forall d: TensorDescriptor :: encode(d).Some? <==> fits(d) && !HeadWithRole(d)
  }

  predicate HeadWithRole(d: Descriptor) {
    d.layout.Composite? && d.role.Some?
  }

  ghost predicate AllFit(fits: TensorDescriptor -> bool, es: seq<Entry<Payload>>) {
    forall i :: 0 <= i < |es| ==> fits(es[i].descriptor)
  }

  /** No overlay in the item, at any level, has a composite head among its members. */
  ghost predicate FlatOverlays(t: Item<Payload>)
    decreases t, 1
  {
    t.Head? ==>
      && (IsOverlay(t.data.descriptor) ==> forall i :: 0 <= i < |t.members| ==> !t.members[i].data.descriptor.layout.Composite?)
      && AllFlatOverlays(t.members)
  }

  ghost predicate AllFlatOverlays(ts: seq<Item<Payload>>)
    decreases ts, 0
  {
    ts != [] ==> FlatOverlays(ts[0]) && AllFlatOverlays(ts[1..])
  }

  ghost predicate IsOverlay(d: Descriptor) {
    d.layout.Composite? && d.layout.rule.Overlay?
  }

  ghost predicate NoneWithRole(ts: seq<Item<Payload>>) {
    forall i :: 0 <= i < |ts| ==> !HeadWithRole(ts[i].data.descriptor)
  }

  /** Members of an overlay all carry a role, other members none. */
  lemma RolesOfMembers(head: TensorDescriptor, ms: seq<Item<Payload>>, i: nat)
    requires Validate(head, DescriptorsOf(ms)) == Ok(()) && i < |ms|
    ensures ms[i].data.descriptor.role.Some? <==> IsOverlay(head)
  {
    var ds := DescriptorsOf(ms);
    ValidateDecides(head, ds);
    assert MemberFits(head.layout.rule, head.shape, head.typeTag, i, ds[i]);
  }

  /** So a head with a role is a composite member of an overlay. */
  lemma NoneWithRoleIff(head: TensorDescriptor, ms: seq<Item<Payload>>)
    requires Validate(head, DescriptorsOf(ms)) == Ok(())
    ensures NoneWithRole(ms) <==>
            (IsOverlay(head) ==> forall i :: 0 <= i < |ms| ==> !ms[i].data.descriptor.layout.Composite?)
  {
    forall i | 0 <= i < |ms|
      ensures HeadWithRole(ms[i].data.descriptor) <==> IsOverlay(head) && ms[i].data.descriptor.layout.Composite?
    {
      RolesOfMembers(head, ms, i);
    }
  }

  lemma EncodableSplit(encode: Encoder, fits: TensorDescriptor -> bool, a: seq<Entry<Payload>>, b: seq<Entry<Payload>>)
    ensures Encodable(encode, a + b) <==> Encodable(encode, a) && Encodable(encode, b)
    ensures AllFit(fits, a + b) <==> AllFit(fits, a) && AllFit(fits, b)
  {
    assert forall i :: 0 <= i < |a| ==> (a + b)[i] == a[i];
    assert forall i :: 0 <= i < |b| ==> (a + b)[|a| + i] == b[i];
  }

  /** The items that reach a sink whole: those in which no overlay has a composite among its members
      and every descriptor fits. */
  lemma {:induction false} WholeExactly(crossMachine: bool, t: Item<Payload>, encode: Encoder, fits: TensorDescriptor -> bool)
    requires Writable(crossMachine, t) && EncodesExactly(encode, fits) && !HeadWithRole(t.data.descriptor)
    ensures Encodable(encode, Wire(t)) <==> FlatOverlays(t) && AllFit(fits, Wire(t))
    decreases t, 1
  {
    match t
    case Tensor(e) =>
      assert Wire(t) == [e];
    case Head(e, ms) =>
      NoneWithRoleIff(e.descriptor, ms);
      EncodableSplit(encode, fits, [e], WireAll(ms));
      assert Encodable(encode, [e]) <==> AllFit(fits, [e]) by { assert [e][0] == e; }
      if NoneWithRole(ms) {
        WholeAllExactly(crossMachine, ms, encode, fits);
      } else {
        var i :| 0 <= i < |ms| && HeadWithRole(ms[i].data.descriptor);
        MemberNotEncoded(ms, i, encode);
      }
  }

  lemma {:induction false} WholeAllExactly(crossMachine: bool, ts: seq<Item<Payload>>, encode: Encoder, fits: TensorDescriptor -> bool)
    requires WritableAll(crossMachine, ts) && EncodesExactly(encode, fits) && NoneWithRole(ts)
    ensures Encodable(encode, WireAll(ts)) <==> AllFlatOverlays(ts) && AllFit(fits, WireAll(ts))
    decreases ts, 0
  {
    if ts != [] {
      WholeExactly(crossMachine, ts[0], encode, fits);
      assert NoneWithRole(ts[1..]) by { assert forall i :: 0 <= i < |ts[1..]| ==> ts[1..][i] == ts[i + 1]; }
      WholeAllExactly(crossMachine, ts[1..], encode, fits);
      EncodableSplit(encode, fits, Wire(ts[0]), WireAll(ts[1..]));
    }
  }

  /** A member that does not encode keeps the whole from encoding. */
  lemma {:induction false} MemberNotEncoded(ts: seq<Item<Payload>>, i: nat, encode: Encoder)
    requires i < |ts| && encode(ts[i].data.descriptor).None?
    ensures !Encodable(encode, WireAll(ts))
    decreases i
  {
    EncodableSplit(encode, _ => true, Wire(ts[0]), WireAll(ts[1..]));
    if i == 0 {
      assert Wire(ts[0])[0] == ts[0].data;
    } else {
      MemberNotEncoded(ts[1..], i - 1, encode);
    }
  }
}
