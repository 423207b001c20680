/** The stream writer: an item is checked on submission, then offered to a sink slice by slice,
    walking composites with an explicit stack of frames. The sink takes as much as it likes. */
module Writer {
  import opened Shapes
  import opened Descriptors
  import opened Validator
  import opened Composites
  import opened Trees
  import opened Assembler
  import opened Assembly

  type Payload = seq<bv8>

  /** The wire bytes of a descriptor; absent for one that does not encode. */
  type Encoder = TensorDescriptor -> Option<seq<bv8>>

  datatype Unusable = LostWriteCount | IncompleteOutput

  datatype WriteError =
    | CoreUnusable(reason: Unusable)
    | CoreFailed
    | Invalid(error: Error)
    | NotEncodable
    | BufferCountMismatch(declared: nat, actual: nat)
    | BufferSizeMismatch(index: nat, declaredSize: nat, actualSize: nat)
    | NotProducerSynced(index: nat)
    | ZeroLengthWrite
    | InvalidProgress(reported: nat, offered: nat)
    | SinkClosed

  datatype Response<+T> = Granted(value: T) | Refused(error: WriteError)

  datatype WriteStep = Output(len: nat) | ItemWritten

  // ---- what a writer may be given ----

  /** One payload for every buffer of the table, of its length, and synchronised if the stream
      leaves the machine. */
  ghost predicate PayloadsMatch(crossMachine: bool, e: Entry<Payload>) {
    && |e.buffers| == |e.descriptor.buffers|
    && forall i :: 0 <= i < |e.buffers| ==> PayloadMatches(crossMachine, e.descriptor.buffers[i], e.buffers[i])
  }

  ghost predicate PayloadMatches(crossMachine: bool, handle: BufferHandle, payload: Payload) {
    |payload| == handle.byteSize && (crossMachine ==> handle.producerSynced)
  }

  /** An item the writer takes: payloads that match, and heads the validator passes, at every level.
      Nothing is asked about nesting, nor about the layout of what is given as a tensor. */
  ghost predicate Writable(crossMachine: bool, t: Item<Payload>)
    decreases t, 1
  {
    match t
    case Tensor(e) => PayloadsMatch(crossMachine, e)
    case Head(e, ms) =>
      && e.buffers == []
      && Validate(e.descriptor, DescriptorsOf(ms)) == Ok(())
      && WritableAll(crossMachine, ms)
  }

  ghost predicate WritableAll(crossMachine: bool, ts: seq<Item<Payload>>)
    decreases ts, 0
  {
    ts != [] ==> Writable(crossMachine, ts[0]) && WritableAll(crossMachine, ts[1..])
  }

  lemma {:induction false} WritableAt(crossMachine: bool, ts: seq<Item<Payload>>, i: nat)
    ensures WritableAll(crossMachine, ts) && i < |ts| ==> Writable(crossMachine, ts[i])
    ensures WritableAll(crossMachine, ts) <==> forall k :: 0 <= k < |ts| ==> Writable(crossMachine, ts[k])
    decreases |ts|
  {
    if ts != [] {
      WritableAt(crossMachine, ts[1..], if i == 0 then 0 else i - 1);
      assert forall k :: 0 < k < |ts| ==> ts[k] == ts[1..][k - 1];
      assert forall k :: 0 <= k < |ts[1..]| ==> ts[1..][k] == ts[k + 1];
    }
  }

  // ---- what is wrong with an item ----

  /** What is wrong with a tensor: the number of its payloads, or the first payload that does not
      match, whose length comes before its synchronisation. */
  ghost predicate TensorFault(crossMachine: bool, e: Entry<Payload>, w: WriteError) {
    var handles, payloads := e.descriptor.buffers, e.buffers;
    match w
    case BufferCountMismatch(declared, actual) => declared == |handles| != |payloads| == actual
    case BufferSizeMismatch(i, declared, actual) =>
      && FirstMismatch(crossMachine, e, i) && declared == handles[i].byteSize != |payloads[i]| == actual
    case NotProducerSynced(i) =>
      && FirstMismatch(crossMachine, e, i) && handles[i].byteSize == |payloads[i]|
    case _ => false
  }

  ghost predicate FirstMismatch(crossMachine: bool, e: Entry<Payload>, i: nat) {
    && i < |e.buffers| == |e.descriptor.buffers|
    && !PayloadMatches(crossMachine, e.descriptor.buffers[i], e.buffers[i])
    && forall k :: 0 <= k < i ==> PayloadMatches(crossMachine, e.descriptor.buffers[k], e.buffers[k])
  }

  /** What is wrong with an item: with its head and the members next to it, as the validator says;
      or else with the first of the members that is not writable. */
  ghost predicate ItemFault(crossMachine: bool, t: Item<Payload>, w: WriteError)
    decreases t, 1
  {
    match t
    case Tensor(e) => TensorFault(crossMachine, e, w)
    case Head(e, ms) =>
      var valid := Validate(e.descriptor, DescriptorsOf(ms));
      if valid.Err? then w == Invalid(valid.error) else MembersFault(crossMachine, ms, w)
  }

  ghost predicate MembersFault(crossMachine: bool, ts: seq<Item<Payload>>, w: WriteError)
    decreases ts, 0
  {
    ts != [] && if Writable(crossMachine, ts[0]) then MembersFault(crossMachine, ts[1..], w) else ItemFault(crossMachine, ts[0], w)
  }

  lemma {:induction false} FaultOfMember(crossMachine: bool, ts: seq<Item<Payload>>, i: nat, w: WriteError)
    requires i < |ts| && !Writable(crossMachine, ts[i]) && ItemFault(crossMachine, ts[i], w)
    requires forall k :: 0 <= k < i ==> Writable(crossMachine, ts[k])
    ensures MembersFault(crossMachine, ts, w)
    decreases i
  {
    if i > 0 { FaultOfMember(crossMachine, ts[1..], i - 1, w); }
  }

  /** Only one error says what is wrong with an item. */
  lemma {:induction false} OneFault(crossMachine: bool, t: Item<Payload>, v: WriteError, w: WriteError)
    requires ItemFault(crossMachine, t, v) && ItemFault(crossMachine, t, w)
    ensures v == w
    decreases t, 1
  {
    if t.Head? && Validate(t.data.descriptor, DescriptorsOf(t.members)).Ok? { OneFaultBelow(crossMachine, t.members, v, w); }
  }

  lemma {:induction false} OneFaultBelow(crossMachine: bool, ts: seq<Item<Payload>>, v: WriteError, w: WriteError)
    requires MembersFault(crossMachine, ts, v) && MembersFault(crossMachine, ts, w)
    ensures v == w
    decreases ts, 0
  {
    if Writable(crossMachine, ts[0]) {
      OneFaultBelow(crossMachine, ts[1..], v, w);
    } else {
      OneFault(crossMachine, ts[0], v, w);
    }
  }

  // ---- the bytes of a stream ----

  ghost function Joined(payloads: seq<Payload>): seq<bv8> {
    if payloads == [] then [] else payloads[0] + Joined(payloads[1..])
  }

  ghost function EntryBytes(encode: Encoder, e: Entry<Payload>): seq<bv8> {
    (if encode(e.descriptor).Some? then encode(e.descriptor).value else []) + Joined(e.buffers)
  }

  /** Descriptor and payloads of each tensor, in order. */
  ghost function BytesOf(encode: Encoder, es: seq<Entry<Payload>>): seq<bv8> {
    if es == [] then [] else BytesOf(encode, es[..|es| - 1]) + EntryBytes(encode, es[|es| - 1])
  }

  ghost predicate Encodable(encode: Encoder, es: seq<Entry<Payload>>) {
    forall i :: 0 <= i < |es| ==> encode(es[i].descriptor).Some?
  }

  /** `k` is the first tensor that does not encode. */
  ghost predicate FirstRefused(encode: Encoder, es: seq<Entry<Payload>>, k: nat) {
    k < |es| && Encodable(encode, es[..k]) && encode(es[k].descriptor).None?
  }

  lemma BytesSnoc(encode: Encoder, es: seq<Entry<Payload>>, e: Entry<Payload>)
    ensures BytesOf(encode, es + [e]) == BytesOf(encode, es) + EntryBytes(encode, e)
  {
    assert (es + [e])[..|es|] == es;
  }

  lemma NoBytes(encode: Encoder)
    ensures BytesOf(encode, []) == []
  {
  }

  lemma {:induction false} BytesConcat(encode: Encoder, a: seq<Entry<Payload>>, b: seq<Entry<Payload>>)
    ensures BytesOf(encode, a + b) == BytesOf(encode, a) + BytesOf(encode, b)
    decreases |b|
  {
    hide BytesOf, EntryBytes;
    if b == [] {
      assert a + b == a;
      NoBytes(encode);
    } else {
      var n := |b| - 1;
      BytesConcat(encode, a, b[..n]);
      BytesSnoc(encode, a + b[..n], b[n]);
      BytesSnoc(encode, b[..n], b[n]);
      assert b[..n] + [b[n]] == b && (a + b[..n]) + [b[n]] == a + b;
      Associate(BytesOf(encode, a), BytesOf(encode, b[..n]), EntryBytes(encode, b[n]));
    }
  }

  // ---- the frames ----

  /** The members of one head, and the next one to write. */
  datatype Frame = Frame(members: seq<Item<Payload>>, next: nat)

  /** What the frames still hold, innermost first. */
  ghost function FrameEntries(stack: seq<Frame>): seq<Entry<Payload>>
    requires FramesOk(stack)
  {
    if stack == [] then [] else
    var top := stack[|stack| - 1];
    WireAll(top.members[top.next..]) + FrameEntries(stack[..|stack| - 1])
  }

  ghost predicate FramesOk(stack: seq<Frame>) {
    forall p :: 0 <= p < |stack| ==> stack[p].next <= |stack[p].members|
  }

  ghost predicate FramesWritable(crossMachine: bool, stack: seq<Frame>) {
    FramesOk(stack) && forall p :: 0 <= p < |stack| ==> WritableAll(crossMachine, stack[p].members)
  }

  lemma FramesPush(crossMachine: bool, stack: seq<Frame>, f: Frame)
    requires FramesWritable(crossMachine, stack) && f.next <= |f.members| && WritableAll(crossMachine, f.members)
    ensures FramesWritable(crossMachine, stack + [f])
    ensures FrameEntries(stack + [f]) == WireAll(f.members[f.next..]) + FrameEntries(stack)
  {
    assert (stack + [f])[..|stack|] == stack;
  }

  /** A frame with nothing left can be dropped. */
  lemma FrameEmpty(stack: seq<Frame>)
    requires stack != [] && FramesOk(stack) && stack[|stack| - 1].next == |stack[|stack| - 1].members|
    ensures FramesOk(stack[..|stack| - 1]) && FrameEntries(stack) == FrameEntries(stack[..|stack| - 1])
  {
    var top := stack[|stack| - 1];
    assert top.members[top.next..] == [];
    assert [] + FrameEntries(stack[..|stack| - 1]) == FrameEntries(stack[..|stack| - 1]);
  }

  /** The frames after taking the next node off the innermost one: a head brings a frame of its
      own. */
  ghost function Advanced(rest: seq<Frame>, top: Frame): seq<Frame>
    requires top.next < |top.members|
  {
    var node, below := top.members[top.next], rest + [top.(next := top.next + 1)];
    if node.Head? then below + [Frame(node.members, 0)] else below
  }

  /** Taking a node off takes exactly its own tensor off what is left to write. */
  lemma FrameAdvance(crossMachine: bool, rest: seq<Frame>, top: Frame)
    requires FramesWritable(crossMachine, rest + [top]) && top.next < |top.members|
    ensures FramesWritable(crossMachine, Advanced(rest, top)) && Writable(crossMachine, top.members[top.next])
    ensures FrameEntries(rest + [top]) == [top.members[top.next].data] + FrameEntries(Advanced(rest, top))
  {
    hide FrameEntries, Wire, WireAll, Writable, WritableAll;
    var node, next := top.members[top.next], top.(next := top.next + 1);
    assert rest == (rest + [top])[..|rest|] && top == (rest + [top])[|rest|];
    WritableAt(crossMachine, top.members, top.next);
    assert FramesWritable(crossMachine, rest) by {
      assert forall p :: 0 <= p < |rest| ==> rest[p] == (rest + [top])[p];
    }
    FramesPush(crossMachine, rest, top);
    FramesPush(crossMachine, rest, next);
    WireNode(top.members, top.next);
    if node.Head? {
      MembersWritable(crossMachine, node);
      FramesPush(crossMachine, rest + [next], Frame(node.members, 0));
      assert node.members[0..] == node.members;
    } else {
      assert [] + FrameEntries(rest + [next]) == FrameEntries(rest + [next]);
    }
    TakeHead(node.data, Below(node), WireAll(top.members[top.next + 1..]), FrameEntries(rest));
  }

  /** The tensors of a node after its own. */
  ghost function Below(t: Item<Payload>): seq<Entry<Payload>> {
    if t.Head? then WireAll(t.members) else []
  }

  lemma WireNode(ms: seq<Item<Payload>>, k: nat)
    requires k < |ms|
    ensures WireAll(ms[k..]) == ([ms[k].data] + Below(ms[k])) + WireAll(ms[k + 1..])
  {
    assert ms[k..][1..] == ms[k + 1..];
  }

  lemma MembersWritable(crossMachine: bool, t: Item<Payload>)
    requires Writable(crossMachine, t) && t.Head?
    ensures WritableAll(crossMachine, t.members) && t.data.buffers == []
  {
  }

  function StartStack(item: Item<Payload>): seq<Frame> {
    if item.Head? then [Frame(item.members, 0)] else []
  }

  lemma StartFrames(crossMachine: bool, item: Item<Payload>)
    requires Writable(crossMachine, item)
    ensures FramesWritable(crossMachine, StartStack(item))
    ensures [item.data] + FrameEntries(StartStack(item)) == Wire(item)
  {
    if item.Head? {
      FramesPush(crossMachine, [], Frame(item.members, 0));
      assert [] + StartStack(item) == StartStack(item);
      assert item.members[0..] == item.members;
    }
  }

  lemma TakeHead<T>(x: T, a: seq<T>, b: seq<T>, c: seq<T>)
    ensures ([x] + a) + b + c == [x] + (a + (b + c))
  {
  }

  // ---- submission checks ----

  method ValidateTensor(crossMachine: bool, e: Entry<Payload>) returns (r: Option<WriteError>)
    ensures r.None? <==> PayloadsMatch(crossMachine, e)
    ensures r.Some? ==> TensorFault(crossMachine, e, r.value)
  {
    if |e.buffers| != |e.descriptor.buffers| {
      return Some(BufferCountMismatch(|e.descriptor.buffers|, |e.buffers|));
    }
    for i := 0 to |e.buffers|
      invariant forall k :: 0 <= k < i ==> PayloadMatches(crossMachine, e.descriptor.buffers[k], e.buffers[k])
    {
      var handle, payload := e.descriptor.buffers[i], e.buffers[i];
      if handle.byteSize != |payload| {
        assert !PayloadMatches(crossMachine, handle, payload);
        return Some(BufferSizeMismatch(i, handle.byteSize, |payload|));
      }
      if crossMachine && !handle.producerSynced {
        assert !PayloadMatches(crossMachine, handle, payload);
        return Some(NotProducerSynced(i));
      }
    }
    return None;
  }

  /** The head against its own members. */
  method ValidateHead(head: TensorDescriptor, members: seq<Item<Payload>>) returns (r: Result<()>)
    ensures r == Validate(head, DescriptorsOf(members))
  {
    var init := Init(head);
    if init.Err? {
      return Err(init.error);
    }
    ghost var ds := DescriptorsOf(members);
    var validator := new CompositeValidator(head);
    for i := 0 to |members|
      invariant Run(init.value, ds[..i]) == Ok(validator.Current())
    {
      assert ds[..i + 1][..i] == ds[..i];
      r := validator.PushMember(members[i].data.descriptor);
      if r.Err? {
        RunFailsOn(init.value, ds, i + 1);
        return;
      }
    }
    assert ds[..|ds|] == ds;
    r := validator.Finish();
  }

  /** The head, then every member: a composite is validated all the way down before a byte is
      written. */
  method ValidateComposite(crossMachine: bool, head: TensorDescriptor, members: seq<Item<Payload>>) returns (r: Option<WriteError>)
    requires HeadsEmpty(members)
    ensures r.None? <==> Validate(head, DescriptorsOf(members)) == Ok(()) && WritableAll(crossMachine, members)
    ensures r.Some? ==>
              var valid := Validate(head, DescriptorsOf(members));
              if valid.Err? then r.value == Invalid(valid.error) else MembersFault(crossMachine, members, r.value)
    decreases members
  {
    var valid := ValidateHead(head, members);
    if valid.Err? {
      return Some(Invalid(valid.error));
    }
    WritableAt(crossMachine, members, 0);
    for i := 0 to |members|
      invariant forall k :: 0 <= k < i ==> Writable(crossMachine, members[k])
    {
      HeadsEmptyAt(members, i);
      match members[i] {
        case Tensor(e) => r := ValidateTensor(crossMachine, e);
        case Head(e, ms) => r := ValidateComposite(crossMachine, e.descriptor, ms);
      }
      if r.Some? {
        assert !Writable(crossMachine, members[i]);
        FaultOfMember(crossMachine, members, i, r.value);
        return;
      }
    }
    return None;
  }

  /** Composite nodes carry a descriptor and members, no buffers. */
  ghost predicate HeadEmpty(t: Item<Payload>)
    decreases t, 1
  {
    t.Head? ==> t.data.buffers == [] && HeadsEmpty(t.members)
  }

  ghost predicate HeadsEmpty(ts: seq<Item<Payload>>)
    decreases ts, 0
  {
    ts != [] ==> HeadEmpty(ts[0]) && HeadsEmpty(ts[1..])
  }

  lemma {:induction false} HeadsEmptyAt(ts: seq<Item<Payload>>, i: nat)
    requires HeadsEmpty(ts) && i < |ts|
    ensures HeadEmpty(ts[i])
    decreases i
  {
    if i > 0 { HeadsEmptyAt(ts[1..], i - 1); }
  }

  // ---- the cursor of an operation ----

  datatype OpState = StagedDescriptor | StagedPayload(index: nat) | AllWritten | Ended

  /** The staged descriptor and the payloads of the current tensor, which of them is being written
      and how far, and the frames. */
  datatype Cursor = Cursor(staging: seq<bv8>, payloads: seq<Payload>, state: OpState, written: nat, stack: seq<Frame>) {

    /** The position is inside the current slice. */
    predicate Placed() {
      match state
      case StagedDescriptor => written <= |staging|
      case StagedPayload(i) => i < |payloads| && written <= |payloads[i]|
      case _ => true
    }

    /** The bytes to offer next. */
    function OutputSrc(): seq<bv8>
      requires Placed()
    {
      match state
      case StagedDescriptor => staging[written..]
      case StagedPayload(i) => payloads[i][written..]
      case _ => []
    }

    /** The payloads of the current tensor after the current slice. */
    ghost function Later(): seq<Payload>
      requires Placed()
    {
      match state
      case StagedDescriptor => payloads
      case StagedPayload(i) => payloads[i + 1..]
      case _ => []
    }

    /** How many slices of the current tensor are not finished. */
    ghost function Slices(): nat
      requires Placed()
    {
      match state
      case StagedDescriptor => |payloads| + 1
      case StagedPayload(i) => |payloads| - i
      case _ => 0
    }
  }

  /** The tensors begun and those in the frames are the item's. */
  ghost predicate Walks(crossMachine: bool, item: Item<Payload>, stack: seq<Frame>, done: seq<Entry<Payload>>) {
    FramesWritable(crossMachine, stack) && done + FrameEntries(stack) == Wire(item)
  }

  /** All bytes of the tensors begun are sent, except what is left of the last one. */
  ghost predicate Sends(encode: Encoder, c: Cursor, done: seq<Entry<Payload>>, sent: seq<bv8>) {
    && c.Placed() && Encodable(encode, done)
    && sent + (c.OutputSrc() + Joined(c.Later())) == BytesOf(encode, done)
  }

  /** Where an operation in progress stands. */
  ghost predicate InFlight(encode: Encoder, crossMachine: bool, item: Item<Payload>, c: Cursor, done: seq<Entry<Payload>>, sent: seq<bv8>) {
    && Walks(crossMachine, item, c.stack, done) && Sends(encode, c, done, sent)
    && (c.state.AllWritten? ==> c.stack == [])
  }

  /** The operation ended at a tensor that does not encode: everything before it was sent, and
      nothing of it or after it. */
  ghost predicate Stopped(encode: Encoder, item: Item<Payload>, done: seq<Entry<Payload>>, sent: seq<bv8>) {
    FirstRefused(encode, Wire(item), |done|) && done == Wire(item)[..|done|] && sent == BytesOf(encode, done)
  }

  /** Drops the frames that have nothing left. */
  method PopFinished(crossMachine: bool, stack0: seq<Frame>) returns (stack: seq<Frame>)
    requires FramesWritable(crossMachine, stack0)
    ensures FramesWritable(crossMachine, stack) && FrameEntries(stack) == FrameEntries(stack0)
    ensures stack != [] ==> stack[|stack| - 1].next < |stack[|stack| - 1].members|
  {
    stack := stack0;
    while stack != [] && stack[|stack| - 1].next >= |stack[|stack| - 1].members|
      invariant FramesWritable(crossMachine, stack) && FrameEntries(stack) == FrameEntries(stack0)
      decreases |stack|
    {
      FrameEmpty(stack);
      stack := stack[..|stack| - 1];
    }
  }

  lemma AllSent(encode: Encoder, c: Cursor, done: seq<Entry<Payload>>, sent: seq<bv8>)
    requires Sends(encode, c, done, sent) && c.OutputSrc() == [] && c.Later() == []
    ensures sent == BytesOf(encode, done) && Encodable(encode, done)
  {
    assert sent + ([] + Joined([])) == sent;
  }

  lemma NothingLeft(encode: Encoder, c: Cursor, done: seq<Entry<Payload>>, sent: seq<bv8>)
    requires Encodable(encode, done) && sent == BytesOf(encode, done) && c.state.AllWritten?
    ensures Sends(encode, c, done, sent)
  {
    assert sent + ([] + Joined([])) == sent;
  }

  /** Beginning a tensor whose descriptor is staged. */
  lemma Begins(encode: Encoder, c: Cursor, done: seq<Entry<Payload>>, e: Entry<Payload>, sent: seq<bv8>)
    requires Encodable(encode, done) && sent == BytesOf(encode, done)
    requires encode(e.descriptor) == Some(c.staging) && c.payloads == e.buffers && c.state.StagedDescriptor? && c.written == 0
    ensures Sends(encode, c, done + [e], sent)
  {
    hide BytesOf, Joined;
    BytesSnoc(encode, done, e);
    assert c.OutputSrc() == c.staging;
  }

  lemma BegunEntries(done: seq<Entry<Payload>>, e: Entry<Payload>, rest: seq<Entry<Payload>>, all: seq<Entry<Payload>>)
    requires done + ([e] + rest) == all
    ensures (done + [e]) + rest == all && all[..|done|] == done && |done| < |all| && all[|done|] == e
  {
  }

  lemma NoFrames()
    ensures FrameEntries([]) == []
  {
  }

  /** The item is through: no frame is left. */
  lemma Finishes(encode: Encoder, crossMachine: bool, item: Item<Payload>, c: Cursor, done: seq<Entry<Payload>>, sent: seq<bv8>)
    requires Walks(crossMachine, item, [], done) && Encodable(encode, done) && sent == BytesOf(encode, done)
    requires c.state.AllWritten? && c.stack == []
    ensures InFlight(encode, crossMachine, item, c, done, sent)
  {
    NothingLeft(encode, c, done, sent);
  }

  /** The next tensor: taken off the frames and staged, unless it does not encode. */
  lemma TakesNode(crossMachine: bool, item: Item<Payload>, rest: seq<Frame>, top: Frame, done: seq<Entry<Payload>>)
    requires Walks(crossMachine, item, rest + [top], done) && top.next < |top.members|
    ensures var e := top.members[top.next].data;
            && Walks(crossMachine, item, Advanced(rest, top), done + [e])
            && |FrameEntries(Advanced(rest, top))| < |FrameEntries(rest + [top])|
            && |done| < |Wire(item)| && Wire(item)[|done|] == e && Wire(item)[..|done|] == done
            && (top.members[top.next].Head? ==> e.buffers == [])
  {
    hide FrameEntries, Wire, WireAll, WritableAll;
    FrameAdvance(crossMachine, rest, top);
    BegunEntries(done, top.members[top.next].data, FrameEntries(Advanced(rest, top)), Wire(item));
  }

  /** Takes the next node off the frames, or finishes the item. */
  method NextNode(encode: Encoder, crossMachine: bool, ghost item: Item<Payload>, c: Cursor,
                  ghost done0: seq<Entry<Payload>>, ghost sent: seq<bv8>)
    returns (d: Cursor, ghost done: seq<Entry<Payload>>)
    requires InFlight(encode, crossMachine, item, c, done0, sent) && c.OutputSrc() == [] && c.Later() == []
    ensures if d.state.Ended? then Stopped(encode, item, done, sent) else InFlight(encode, crossMachine, item, d, done, sent)
    ensures d.Placed()
    ensures d.state.AllWritten? ==> d.stack == [] && FrameEntries(d.stack) == FrameEntries(c.stack)
    ensures !d.state.AllWritten? && !d.state.Ended? ==>
              d.state.StagedDescriptor? && |FrameEntries(d.stack)| < |FrameEntries(c.stack)|
  {
    hide Sends, BytesOf, Encodable, Writable, WritableAll, FrameEntries, Wire;
    assert Encodable(encode, done0) && sent == BytesOf(encode, done0) by { AllSent(encode, c, done0, sent); }
    var stack := PopFinished(crossMachine, c.stack);
    done := done0;
    if stack == [] {
      d := c.(state := AllWritten, payloads := [], stack := []);
      NoFrames();
      Finishes(encode, crossMachine, item, d, done, sent);
      return;
    }
    var rest, top := stack[..|stack| - 1], stack[|stack| - 1];
    var node := top.members[top.next];
    assert stack == rest + [top];
    TakesNode(crossMachine, item, rest, top, done0);
    var encoded := encode(node.data.descriptor);
    if encoded.None? {
      d := c.(state := Ended);
      return;
    }
    done := done0 + [node.data];
    stack := rest + [top.(next := top.next + 1)];
    if node.Head? {
      d := Cursor(encoded.value, [], StagedDescriptor, 0, stack + [Frame(node.members, 0)]);
    } else {
      d := Cursor(encoded.value, node.data.buffers, StagedDescriptor, 0, stack);
    }
    Begins(encode, d, done0, node.data, sent);
  }

  lemma NextPayload(encode: Encoder, c: Cursor, d: Cursor, index: nat, done: seq<Entry<Payload>>, sent: seq<bv8>)
    requires Sends(encode, c, done, sent) && c.OutputSrc() == [] && index < |c.payloads| && c.Later() == c.payloads[index..]
    requires d == c.(state := StagedPayload(index), written := 0)
    ensures Sends(encode, d, done, sent)
  {
    hide BytesOf;
    var p := c.payloads;
    assert p[index..][1..] == p[index + 1..] && p[index..][0] == p[index];
    assert p[index][0..] == p[index];
    assert [] + Joined(p[index..]) == p[index] + Joined(p[index + 1..]);
  }

  /** Moves to a payload of the current tensor, or past it. */
  method BeginPayload(encode: Encoder, crossMachine: bool, ghost item: Item<Payload>, c: Cursor, index: nat,
                      ghost done0: seq<Entry<Payload>>, ghost sent: seq<bv8>)
    returns (d: Cursor, ghost done: seq<Entry<Payload>>)
    requires InFlight(encode, crossMachine, item, c, done0, sent) && c.OutputSrc() == []
    requires c.state.StagedDescriptor? || c.state.StagedPayload?
    requires index == if c.state.StagedDescriptor? then 0 else c.state.index + 1
    ensures if d.state.Ended? then Stopped(encode, item, done, sent) else InFlight(encode, crossMachine, item, d, done, sent)
    ensures d.Placed()
    ensures !d.state.Ended? ==>
              || |FrameEntries(d.stack)| < |FrameEntries(c.stack)|
              || (|FrameEntries(d.stack)| == |FrameEntries(c.stack)| && d.Slices() < c.Slices())
  {
    hide BytesOf, Encodable, Writable, WritableAll, FrameEntries, Wire;
    assert index <= |c.payloads| && c.Later() == c.payloads[index..];
    if index < |c.payloads| {
      d, done := c.(state := StagedPayload(index), written := 0), done0;
      NextPayload(encode, c, d, index, done, sent);
      return;
    }
    d, done := NextNode(encode, crossMachine, item, c, done0, sent);
  }

  // ---- the core and its operations ----

  /** The writer behind one sink. `sink` is every byte the sink is known to have taken, `items`
      the items reported as written. */
  class StreamWriterCore {
    const crossMachine: bool
    const encode: Encoder
    var unusable: Option<Unusable>
    var torn: bool
    ghost var sink: seq<bv8>
    ghost var items: seq<Item<Payload>>

    /** Why the core may take no more work, if so. */
    function Retired(): Option<Unusable>
      reads this
    {
      if unusable.Some? then unusable else if torn then Some(IncompleteOutput) else None
    }

    /** What can be said of the sink at any moment: it starts with the written items, whole and in
        order; and it holds nothing else unless the core is retired. */
    ghost predicate Sound()
      reads this
    {
      && WholeItems(crossMachine, encode, items)
      && BytesOf(encode, WireAll(items)) <= sink
      && (Retired().None? ==> sink == BytesOf(encode, WireAll(items)))
    }

    constructor (crossMachine: bool, encode: Encoder)
      ensures Sound() && Retired().None? && sink == [] && items == []
      ensures this.crossMachine == crossMachine && this.encode == encode
    {
      this.crossMachine := crossMachine;
      this.encode := encode;
      unusable, torn, sink, items := None, false, [], [];
    }

    /** Takes an item for writing, exactly if the core is usable, the item writable and its first
        descriptor encodable. Nothing reaches the sink yet. */
    method Submit(item: Item<Payload>) returns (r: Response<WriteOp>)
      requires Sound() && HeadEmpty(item)
      ensures r.Granted? <==> Retired().None? && Writable(crossMachine, item) && encode(item.data.descriptor).Some?
      ensures r.Refused? ==> RefusedFor(Retired(), crossMachine, encode, item, r.error)
      ensures r.Granted? ==> fresh(r.value) && r.value.core == this && r.value.Valid() && !r.value.finished
      ensures r.Granted? ==> r.value.item == item && r.value.base == sink && r.value.sent == [] && !r.value.cursor.state.Ended?
    {
      var retired := Retired();
      if retired.Some? {
        return Refused(CoreUnusable(retired.value));
      }
      var invalid: Option<WriteError>;
      match item {
        case Tensor(e) => invalid := ValidateTensor(crossMachine, e);
        case Head(e, ms) => invalid := ValidateComposite(crossMachine, e.descriptor, ms);
      }
      if invalid.Some? {
        return Refused(invalid.value);
      }
      var staging := encode(item.data.descriptor);
      if staging.None? {
        RootFirst(encode, item);
        return Refused(NotEncodable);
      }
      var op := new WriteOp(this, item, staging.value);
      return Granted(op);
    }
  }

  /** Why an item is not taken, or not written to its end: the core is retired, or something is wrong
      with the item, or a descriptor does not encode. */
  ghost predicate RefusedFor(retired: Option<Unusable>, crossMachine: bool, encode: Encoder, item: Item<Payload>, w: WriteError) {
    if retired.Some? then w == CoreUnusable(retired.value)
    else if !Writable(crossMachine, item) then ItemFault(crossMachine, item, w)
    else w == NotEncodable && !Encodable(encode, Wire(item))
  }

  /** Items that passed the checks and were encoded to the last tensor. */
  ghost predicate WholeItems(crossMachine: bool, encode: Encoder, items: seq<Item<Payload>>) {
    WritableAll(crossMachine, items) && Encodable(encode, WireAll(items))
  }

  lemma OneMoreItem(crossMachine: bool, encode: Encoder, items: seq<Item<Payload>>, item: Item<Payload>)
    requires WholeItems(crossMachine, encode, items) && Writable(crossMachine, item) && Encodable(encode, Wire(item))
    ensures WholeItems(crossMachine, encode, items + [item])
    ensures BytesOf(encode, WireAll(items + [item])) == BytesOf(encode, WireAll(items)) + BytesOf(encode, Wire(item))
  {
    hide Wire, WireAll, BytesOf, Writable, WritableAll;
    ItemsSnoc(items, item, 0);
    BytesConcat(encode, WireAll(items), Wire(item));
    WritableAt(crossMachine, items, 0);
    WritableAt(crossMachine, items + [item], 0);
  }

  /** Taking some of the offered bytes. */
  lemma Takes(encode: Encoder, c: Cursor, done: seq<Entry<Payload>>, sent: seq<bv8>, n: nat)
    requires Sends(encode, c, done, sent) && n <= |c.OutputSrc()|
    ensures Sends(encode, c.(written := c.written + n), done, sent + c.OutputSrc()[..n])
  {
    hide BytesOf, Joined, Encodable;
    var d, src := c.(written := c.written + n), c.OutputSrc();
    assert d.Placed() && d.Later() == c.Later() && d.OutputSrc() == src[n..] by {
      match c.state {
        case StagedDescriptor => DropTwice(c.staging, c.written, n);
        case StagedPayload(i) => DropTwice(c.payloads[i], c.written, n);
        case _ =>
      }
    }
    MoveOver(sent, src, Joined(c.Later()), n);
  }

  lemma DropTwice<T>(s: seq<T>, a: nat, b: nat)
    requires a + b <= |s|
    ensures s[a..][b..] == s[a + b..]
  {
  }

  lemma MoveOver<T>(a: seq<T>, s: seq<T>, c: seq<T>, n: nat)
    requires n <= |s|
    ensures (a + s[..n]) + (s[n..] + c) == a + (s + c)
  {
  }

  lemma TakesInFlight(encode: Encoder, crossMachine: bool, item: Item<Payload>, c: Cursor, d: Cursor,
                      done: seq<Entry<Payload>>, sent: seq<bv8>, more: seq<bv8>, n: nat)
    requires InFlight(encode, crossMachine, item, c, done, sent) && 0 < n <= |c.OutputSrc()|
    requires d == c.(written := c.written + n) && more == sent + c.OutputSrc()[..n]
    ensures InFlight(encode, crossMachine, item, d, done, more)
    ensures |more| == |sent| + n && !d.state.Ended? && !d.state.AllWritten?
  {
    Takes(encode, c, done, sent, n);
  }

  /** One item being written. `sent` is what the sink took of it. */
  class WriteOp {
    const core: StreamWriterCore
    var cursor: Cursor
    var emitted: nat
    ghost const item: Item<Payload>
    ghost const before: seq<Item<Payload>>
    ghost const base: seq<bv8>
    ghost var sent: seq<bv8>
    ghost var done: seq<Entry<Payload>>
    ghost var finished: bool

    ghost predicate Valid()
      reads this, core
    {
      && cursor.Placed() && |sent| == emitted && core.sink == base + sent
      && WholeItems(core.crossMachine, core.encode, before) && base == BytesOf(core.encode, WireAll(before))
      && Writable(core.crossMachine, item)
      && (!cursor.state.Ended? ==> InFlight(core.encode, core.crossMachine, item, cursor, done, sent))
      && (if finished then
            && (cursor.state.AllWritten? || cursor.state.Ended?)
            && core.items == before + [item] && !core.torn
            && Encodable(core.encode, Wire(item)) && sent == BytesOf(core.encode, Wire(item))
          else core.items == before && core.torn == (emitted > 0))
    }

    /** Whenever the operation is dropped, the core it leaves is sound. */
    lemma CoreSound()
      requires Valid()
      ensures core.Sound()
    {
      if finished { OneMoreItem(core.crossMachine, core.encode, before, item); }
    }

    constructor (core: StreamWriterCore, item: Item<Payload>, staging: seq<bv8>)
      requires core.Sound() && core.Retired().None? && Writable(core.crossMachine, item)
      requires core.encode(item.data.descriptor) == Some(staging)
      ensures Valid() && this.core == core && this.item == item && sent == [] && base == core.sink && !finished
      ensures cursor.state == StagedDescriptor
    {
      this.core := core;
      this.item := item;
      var payloads := if item.Head? then [] else item.data.buffers;
      cursor := Cursor(staging, payloads, StagedDescriptor, 0, StartStack(item));
      emitted := 0;
      before, base := core.items, core.sink;
      sent, done, finished := [], [item.data], false;
      new;
      StartFrames(core.crossMachine, item);
      Begins(core.encode, cursor, [], item.data, []);
      assert [] + [item.data] == [item.data];
    }

    /** Moves on to the next byte there is to write. It is offered, or the item is whole and said to
        be written, or its next tensor does not encode. */
    method Step() returns (r: Response<WriteStep>)
      requires Valid()
      modifies this, core
      ensures Valid() && sent == old(sent) && emitted == old(emitted) && core.unusable == old(core.unusable)
      ensures r.Granted? <==> old(core.unusable).None? && !cursor.state.Ended?
      ensures r.Granted? && r.value.Output? ==>
                cursor.Placed() && 0 < r.value.len == |cursor.OutputSrc()| && finished == old(finished) && !cursor.state.AllWritten?
      ensures r == Granted(ItemWritten) ==> finished
      ensures r.Refused? && r.error == NotEncodable ==> cursor.state.Ended? && !finished && Stopped(core.encode, item, done, sent)
      ensures r.Refused? ==> finished == old(finished)
      ensures old(core.unusable).None? && !old(cursor.state.Ended?) && r.Refused? ==> r.error == NotEncodable
      ensures old(core.unusable).Some? ==> r == Refused(CoreUnusable(old(core.unusable).value))
      ensures old(core.unusable).None? && old(cursor.state.Ended?) ==> r == Refused(CoreFailed)
    {
      hide Writable, WritableAll, WholeItems, BytesOf, Encodable, Sends, Stopped, FrameEntries, Wire;
      if core.unusable.Some? {
        return Refused(CoreUnusable(core.unusable.value));
      }
      while true
        invariant Valid() && core.unusable.None?
        invariant sent == old(sent) && emitted == old(emitted) && finished == old(finished) && core.items == old(core.items)
        invariant cursor.state.Ended? <==> old(cursor.state.Ended?)
        decreases if cursor.state.Ended? then 0 else |FrameEntries(cursor.stack)|, if cursor.state.Ended? then 0 else cursor.Slices()
      {
        if cursor.state.Ended? {
          return Refused(CoreFailed);
        }
        if cursor.state.AllWritten? {
          Finish();
          return Granted(ItemWritten);
        }
        var remaining := |cursor.OutputSrc()|;
        if remaining > 0 {
          return Granted(Output(remaining));
        }
        var index := if cursor.state.StagedDescriptor? then 0 else cursor.state.index + 1;
        cursor, done := BeginPayload(core.encode, core.crossMachine, item, cursor, index, done, sent);
        if cursor.state.Ended? {
          return Refused(NotEncodable);
        }
      }
    }

    /** The item is whole: the output is conforming again. */
    method Finish()
      requires Valid() && cursor.state.AllWritten?
      modifies this`finished, core`torn, core`items
      ensures Valid() && finished
    {
      hide Writable, WritableAll, WholeItems, BytesOf, Encodable, Wire;
      AllSent(core.encode, cursor, done, sent);
      NoFrames();
      assert done + [] == done;
      core.torn := false;
      if !finished {
        core.items := core.items + [item];
        finished := true;
      }
    }

    /** The sink took `n` bytes of what was offered. */
    method ReportWritten(n: nat) returns (r: Response<()>)
      requires Valid()
      modifies this, core
      ensures Valid() && finished == old(finished)
      ensures r.Granted? <==>
              && old(core.unusable).None? && !old(cursor.state.Ended?)
              && 0 < n <= |old(cursor.OutputSrc())|
      ensures r.Granted? ==> sent == old(sent) + old(cursor.OutputSrc())[..n] && core.unusable.None? && !cursor.state.Ended?
      ensures r.Refused? ==> sent == old(sent)
      ensures r.Refused? && r.error.InvalidProgress? ==> core.Retired() == Some(LostWriteCount)
      ensures r.Refused? ==>
                r.error == if old(core.unusable).Some? then CoreUnusable(old(core.unusable).value)
                           else if old(cursor.state.Ended?) then CoreFailed
                           else if n == 0 then ZeroLengthWrite
                           else InvalidProgress(n, |old(cursor.OutputSrc())|)
    {
      hide InFlight, Writable, WholeItems, BytesOf, Encodable;
      if core.unusable.Some? {
        return Refused(CoreUnusable(core.unusable.value));
      }
      if cursor.state.Ended? {
        return Refused(CoreFailed);
      }
      if n == 0 {
        return Refused(ZeroLengthWrite);
      }
      var offered := |cursor.OutputSrc()|;
      if n > offered {
        MarkUnusable();
        return Refused(InvalidProgress(n, offered));
      }
      Take(n);
      return Granted(());
    }

    /** Counts bytes as sent; the first one makes the output incomplete. */
    method Take(n: nat)
      requires Valid() && !cursor.state.Ended? && 0 < n <= |cursor.OutputSrc()|
      modifies this`sent, this`emitted, this`cursor, core`torn, core`sink
      ensures Valid() && sent == old(sent) + old(cursor.OutputSrc())[..n] && !cursor.state.Ended?
    {
      hide InFlight, Writable, WholeItems, BytesOf, Encodable;
      var next := cursor.(written := cursor.written + n);
      ghost var more := sent + cursor.OutputSrc()[..n];
      TakesInFlight(core.encode, core.crossMachine, item, cursor, next, done, sent, more, n);
      if emitted == 0 {
        core.torn := true;
      }
      Associate(base, sent, cursor.OutputSrc()[..n]);
      core.sink := core.sink + cursor.OutputSrc()[..n];
      sent := more;
      emitted := emitted + n;
      cursor := next;
    }

    /** The sink is gone. */
    method ReportSinkClosed() returns (e: WriteError)
      requires Valid()
      modifies this`cursor, core`unusable
      ensures Valid() && core.Retired() == Some(IncompleteOutput) && e == SinkClosed
    {
      core.unusable := Some(IncompleteOutput);
      cursor := cursor.(state := Ended);
      return SinkClosed;
    }

    /** A write moved an unknown number of bytes. */
    method MarkUnusable()
      requires Valid()
      modifies this`cursor, core`unusable
      ensures Valid() && core.Retired() == Some(LostWriteCount)
    {
      core.unusable := Some(LostWriteCount);
      cursor := cursor.(state := Ended);
    }
  }

  // ---- whole items, for every sink ----

  /** What is sent and what is offered is part of the item's bytes. */
  lemma SentBound(encode: Encoder, crossMachine: bool, item: Item<Payload>, c: Cursor, done: seq<Entry<Payload>>, sent: seq<bv8>)
    requires InFlight(encode, crossMachine, item, c, done, sent)
    ensures |sent| + |c.OutputSrc()| <= |BytesOf(encode, Wire(item))|
  {
    hide BytesOf, FrameEntries, Wire, Writable, WritableAll;
    BytesConcat(encode, done, FrameEntries(c.stack));
  }

  /** How an item can end: whole, or cut before the first tensor that does not encode. */
  ghost predicate CutAt(encode: Encoder, item: Item<Payload>, k: nat, sent: seq<bv8>) {
    FirstRefused(encode, Wire(item), k) && sent == BytesOf(encode, Wire(item)[..k])
  }

  /** An encodable item has no first tensor that does not encode, and any other has one. */
  lemma {:induction false} RefusedOrEncodable(encode: Encoder, es: seq<Entry<Payload>>)
    ensures Encodable(encode, es) <==> !exists k: nat :: FirstRefused(encode, es, k)
    decreases |es|
  {
    if Encodable(encode, es) {
      forall k: nat ensures !FirstRefused(encode, es, k) {}
    } else {
      var n := |es| - 1;
      if Encodable(encode, es[..n]) {
        assert FirstRefused(encode, es, n);
      } else {
        RefusedOrEncodable(encode, es[..n]);
        var k: nat :| FirstRefused(encode, es[..n], k);
        assert es[..n][..k] == es[..k];
        assert FirstRefused(encode, es, k);
      }
    }
  }

  /** Writes an item to a sink that takes `accept(call, offered)` bytes of what it is offered. In
      whatever portions that is, it receives exactly the item's bytes, and the writing ends. It is
      cut short exactly if a tensor inside does not encode. */
  method WriteItem(core: StreamWriterCore, item: Item<Payload>, accept: (nat, nat) -> nat) returns (r: Response<()>)
    requires core.Sound() && HeadEmpty(item)
    requires forall call: nat, offered: nat :: offered > 0 ==> 0 < accept(call, offered) <= offered
    modifies core
    ensures core.Sound()
    ensures r.Granted? <==>
            old(core.Retired()).None? && Writable(core.crossMachine, item) && Encodable(core.encode, Wire(item))
    ensures r.Granted? ==>
              && core.items == old(core.items) + [item] && core.Retired().None?
              && core.sink == old(core.sink) + BytesOf(core.encode, Wire(item))
    ensures r.Refused? ==> core.items == old(core.items)
    ensures r.Refused? ==> RefusedFor(old(core.Retired()), core.crossMachine, core.encode, item, r.error)
    ensures r.Refused? && old(core.Retired()).None? && Writable(core.crossMachine, item) ==>
              exists k: nat, sent ::
                && CutAt(core.encode, item, k, sent) && core.sink == old(core.sink) + sent
                && core.Retired() == (if sent == [] then None else Some(IncompleteOutput))
  {
    hide Writable, WritableAll, WholeItems, BytesOf, Wire, Sends, Walks, HeadEmpty;
    RootFirst(core.encode, item);
    RefusedOrEncodable(core.encode, Wire(item));
    var submitted := core.Submit(item);
    if submitted.Refused? {
      if core.Retired().None? && Writable(core.crossMachine, item) {
        assert core.sink + [] == core.sink;
        assert CutAt(core.encode, item, 0, []);
      }
      return Refused(submitted.error);
    }
    var op, call := submitted.value, 0;
    while true
      invariant op.Valid() && !op.finished && !op.cursor.state.Ended? && op.core == core && op.item == item && fresh(op)
      invariant core.unusable.None? && op.base == old(core.sink) && op.before == old(core.items)
      invariant |op.sent| <= |BytesOf(core.encode, Wire(item))|
      decreases |BytesOf(core.encode, Wire(item))| - |op.sent|
    {
      var step := op.Step();
      op.CoreSound();
      if step.Refused? {
        assert CutAt(core.encode, item, |op.done|, op.sent);
        return Refused(step.error);
      }
      if step.value.ItemWritten? {
        return Granted(());
      }
      SentBound(core.encode, core.crossMachine, item, op.cursor, op.done, op.sent);
      var reported := op.ReportWritten(accept(call, step.value.len));
      call := call + 1;
    }
  }

  lemma RootFirst(encode: Encoder, item: Item<Payload>)
    ensures |Wire(item)| > 0 && Wire(item)[0] == item.data
    ensures BytesOf(encode, Wire(item)[..0]) == []
    ensures encode(item.data.descriptor).None? ==> FirstRefused(encode, Wire(item), 0)
  {
  }
}
