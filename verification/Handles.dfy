/** Buffer handles and the lists that own them: who destroys what, and how often a release
    callback runs. A handle stands for one allocation; memory reuse is not modelled. */
module Handles {
  import opened Shapes

  type Handle = nat
  type ListId = nat

  /** A buffer: whether it is still allocated, and whether it came with a release callback. */
  datatype Buffer = Buffer(live: bool, callback: bool)

  /** A list: its slots are nulled as the handles in them are destroyed. */
  datatype BufferList = BufferList(live: bool, slots: seq<Option<Handle>>)

  /** Everything allocated so far, and every callback that has run, in order. */
  datatype Heap = Heap(buffers: map<Handle, Buffer>, lists: map<ListId, BufferList>, releases: seq<Handle>)

  datatype Status = Okay | OutOfBounds

  datatype Call =
    | FromPtr(h: Handle, callback: bool)
    | Destroy(h: Handle)
    | ListNew(l: ListId)
    | ListPush(l: ListId, h: Handle)
    | ListLen(l: ListId)
    | ListGet(l: ListId, index: nat)
    | ListDestroy(list: Option<ListId>)

  // ---- the documented contract ----

  ghost predicate LiveBuffer(s: Heap, h: Handle) {
    h in s.buffers && s.buffers[h].live
  }

  predicate LiveList(s: Heap, l: ListId) {
    l in s.lists && s.lists[l].live
  }

  /** The handle sits in some slot of a live list. */
  ghost predicate Owned(s: Heap, h: Handle) {
    exists l :: LiveList(s, l) && Some(h) in s.lists[l].slots
  }

  /** What a caller may do: fresh allocations only; destroy or push only live handles it still
      owns itself; use only live lists; destroying a null list pointer is fine. */
  ghost predicate Allowed(s: Heap, c: Call) {
    match c
    case FromPtr(h, _) => h !in s.buffers
    case Destroy(h) => LiveBuffer(s, h) && !Owned(s, h)
    case ListNew(l) => l !in s.lists
    case ListPush(l, h) => LiveList(s, l) && LiveBuffer(s, h) && !Owned(s, h)
    case ListLen(l) => LiveList(s, l)
    case ListGet(l, _) => LiveList(s, l)
    case ListDestroy(list) => list.Some? ==> LiveList(s, list.value)
  }

  // ---- what the calls do ----

  /** Marks a buffer dead and runs its callback. */
  ghost function Destroyed(s: Heap, h: Handle): Heap
    requires h in s.buffers
  {
    s.(buffers := s.buffers[h := s.buffers[h].(live := false)],
       releases := s.releases + if s.buffers[h].callback then [h] else [])
  }

  /** Destroys the handles in slots, in order. */
  ghost function SlotsDestroyed(s: Heap, slots: seq<Option<Handle>>): (t: Heap)
    ensures t.buffers.Keys == s.buffers.Keys && t.lists == s.lists
  {
    if slots == [] then s else
    var last, before := slots[|slots| - 1], SlotsDestroyed(s, slots[..|slots| - 1]);
    if last.Some? && last.value in before.buffers then Destroyed(before, last.value) else before
  }

  lemma NoSlotDestroyed(s: Heap, slots: seq<Option<Handle>>)
    ensures SlotsDestroyed(s, slots[..0]) == s
  {
  }

  lemma OneMoreDestroyed(s: Heap, slots: seq<Option<Handle>>, k: nat)
    requires k < |slots| && slots[k].Some? && slots[k].value in s.buffers
    ensures var before := SlotsDestroyed(s, slots[..k]);
            && slots[k].value in before.buffers
            && SlotsDestroyed(s, slots[..k + 1]) == Destroyed(before, slots[k].value)
  {
    assert slots[..k + 1][..k] == slots[..k];
  }

  /** Only buffers and callbacks matter to what a destruction does to them. */
  lemma DestroyedAlike(s: Heap, t: Heap, h: Handle)
    requires s.buffers == t.buffers && s.releases == t.releases && h in s.buffers
    ensures Destroyed(s, h).buffers == Destroyed(t, h).buffers && Destroyed(s, h).releases == Destroyed(t, h).releases
    ensures Destroyed(s, h).lists == s.lists
  {
  }

  function Nulls(n: nat): seq<Option<Handle>> {
    seq(n, _ => None)
  }

  ghost function Step(s: Heap, c: Call): Heap
    requires Allowed(s, c)
  {
    match c
    case FromPtr(h, callback) => s.(buffers := s.buffers[h := Buffer(true, callback)])
    case Destroy(h) => Destroyed(s, h)
    case ListNew(l) => s.(lists := s.lists[l := BufferList(true, [])])
    case ListPush(l, h) => s.(lists := s.lists[l := s.lists[l].(slots := s.lists[l].slots + [Some(h)])])
    case ListLen(_) => s
    case ListGet(_, _) => s
    case ListDestroy(list) =>
      if list.None? then s else
      var slots := s.lists[list.value].slots;
      var t := SlotsDestroyed(s, slots);
      t.(lists := t.lists[list.value := BufferList(false, Nulls(|slots|))])
  }

  // ---- the invariant ----

  /** Live lists hold live handles, each in one slot only. */
  ghost predicate OwnedOnce(s: Heap) {
    && (forall l, i :: LiveList(s, l) && 0 <= i < |s.lists[l].slots| ==>
          s.lists[l].slots[i].Some? && LiveBuffer(s, s.lists[l].slots[i].value))
    && (forall l, m, i, j ::
          (LiveList(s, l) && LiveList(s, m) && 0 <= i < |s.lists[l].slots| && 0 <= j < |s.lists[m].slots|
           && s.lists[l].slots[i] == s.lists[m].slots[j]) ==> l == m && i == j)
  }

  /** A callback has run exactly for the dead buffers that came with one, and once each. */
  ghost predicate ReleasedOnce(s: Heap) {
    && (forall h :: h in s.releases <==> h in s.buffers && !s.buffers[h].live && s.buffers[h].callback)
    && (forall i, j :: 0 <= i < j < |s.releases| ==> s.releases[i] != s.releases[j])
  }

  ghost predicate Sound(s: Heap) {
    OwnedOnce(s) && ReleasedOnce(s)
  }

  // ---- every call keeps it ----

  lemma DestroyedReleases(s: Heap, h: Handle)
    requires ReleasedOnce(s) && LiveBuffer(s, h)
    ensures ReleasedOnce(Destroyed(s, h))
  {
    assert h !in s.releases;
  }

  ghost predicate DistinctSlots(slots: seq<Option<Handle>>) {
    forall i, j :: 0 <= i < j < |slots| ==> slots[i] != slots[j]
  }

  ghost predicate AllLive(s: Heap, slots: seq<Option<Handle>>) {
    forall i :: 0 <= i < |slots| ==> slots[i].Some? && LiveBuffer(s, slots[i].value)
  }

  /** The handles in slots that came with a callback, in order. */
  ghost function Called(s: Heap, slots: seq<Option<Handle>>): seq<Handle>
    requires AllLive(s, slots)
  {
    if slots == [] then [] else
    var n := |slots| - 1;
    assert slots[n].Some? && LiveBuffer(s, slots[n].value);
    Called(s, slots[..n]) + if s.buffers[slots[n].value].callback then [slots[n].value] else []
  }

  /** Destroying distinct live slots kills exactly their buffers. */
  lemma {:induction false} SlotsKilled(s: Heap, slots: seq<Option<Handle>>, h: Handle)
    requires DistinctSlots(slots) && AllLive(s, slots) && h in s.buffers
    ensures SlotsDestroyed(s, slots).buffers[h] ==
            if Some(h) in slots then s.buffers[h].(live := false) else s.buffers[h]
  {
    if slots != [] {
      var n := |slots| - 1;
      SlotsKilled(s, slots[..n], h);
      assert slots == slots[..n] + [slots[n]];
      assert slots[n].Some? && LiveBuffer(s, slots[n].value);
      SlotsKilled(s, slots[..n], slots[n].value);
    }
  }

  /** It runs exactly their callbacks, once each and in order. */
  lemma {:induction false} SlotsReleased(s: Heap, slots: seq<Option<Handle>>)
    requires ReleasedOnce(s) && DistinctSlots(slots) && AllLive(s, slots)
    ensures ReleasedOnce(SlotsDestroyed(s, slots))
    ensures SlotsDestroyed(s, slots).releases == s.releases + Called(s, slots)
  {
    if slots == [] {
      assert s.releases + [] == s.releases;
    } else {
      var n := |slots| - 1;
      var t, h := SlotsDestroyed(s, slots[..n]), slots[n].value;
      SlotsReleased(s, slots[..n]);
      assert LiveBuffer(s, h);
      assert Some(h) !in slots[..n];
      SlotsKilled(s, slots[..n], h);
      DestroyedReleases(t, h);
    }
  }

  lemma DestroyListSound(s: Heap, l: ListId)
    requires Sound(s) && LiveList(s, l)
    ensures Sound(Step(s, ListDestroy(Some(l))))
  {
    var slots := s.lists[l].slots;
    assert AllLive(s, slots) && DistinctSlots(slots);
    SlotsReleased(s, slots);
    var t := Step(s, ListDestroy(Some(l)));
    forall m, i | LiveList(t, m) && 0 <= i < |t.lists[m].slots|
      ensures t.lists[m].slots[i].Some? && LiveBuffer(t, t.lists[m].slots[i].value)
    {
      assert LiveList(s, m) && t.lists[m] == s.lists[m];
      var h := s.lists[m].slots[i].value;
      assert LiveBuffer(s, h) && Some(h) !in slots;
      SlotsKilled(s, slots, h);
    }
    assert forall m :: LiveList(t, m) ==> LiveList(s, m) && t.lists[m] == s.lists[m];
  }

  lemma DestroyOneSound(s: Heap, h: Handle)
    requires Sound(s) && Allowed(s, Destroy(h))
    ensures Sound(Step(s, Destroy(h)))
  {
    DestroyedReleases(s, h);
    var t := Step(s, Destroy(h));
    forall l, i | LiveList(t, l) && 0 <= i < |t.lists[l].slots|
      ensures t.lists[l].slots[i].Some? && LiveBuffer(t, t.lists[l].slots[i].value)
    {
      assert LiveList(s, l);
      assert s.lists[l].slots[i] in s.lists[l].slots;
    }
    assert forall l :: LiveList(t, l) ==> LiveList(s, l) && t.lists[l] == s.lists[l];
  }

  lemma PushSound(s: Heap, l: ListId, h: Handle)
    requires Sound(s) && Allowed(s, ListPush(l, h))
    ensures Sound(Step(s, ListPush(l, h)))
  {
    var t := Step(s, ListPush(l, h));
    forall m, i | LiveList(t, m) && 0 <= i < |t.lists[m].slots|
      ensures LiveList(s, m)
      ensures if m == l && i == |s.lists[l].slots| then t.lists[m].slots[i] == Some(h)
              else i < |s.lists[m].slots| && t.lists[m].slots[i] == s.lists[m].slots[i] && s.lists[m].slots[i] != Some(h)
    {
      if i < |s.lists[m].slots| { assert s.lists[m].slots[i] in s.lists[m].slots; }
    }
  }

  /** Every allowed call keeps the invariant. */
  lemma StepSound(s: Heap, c: Call)
    requires Sound(s) && Allowed(s, c)
    ensures Sound(Step(s, c))
  {
    match c
    case FromPtr(h, _) =>
      var t := Step(s, c);
      assert forall l :: LiveList(t, l) ==> LiveList(s, l) && t.lists[l] == s.lists[l];
    case Destroy(h) => DestroyOneSound(s, h);
    case ListNew(l) =>
      var t := Step(s, c);
      assert forall m :: LiveList(t, m) ==> m == l || (LiveList(s, m) && t.lists[m] == s.lists[m]);
    case ListPush(l, h) => PushSound(s, l, h);
    case ListLen(_) =>
    case ListGet(_, _) =>
    case ListDestroy(list) => if list.Some? { DestroyListSound(s, list.value); }
  }

  // ---- whole runs ----

  const EMPTY_HEAP: Heap := Heap(map[], map[], [])

  /** The heap after a run from nothing; absent when some call breaks the contract. */
  ghost function After(calls: seq<Call>): Option<Heap> {
    if calls == [] then Some(EMPTY_HEAP) else
    var n := |calls| - 1;
    var before := After(calls[..n]);
    if before.None? || !Allowed(before.value, calls[n]) then None else Some(Step(before.value, calls[n]))
  }

  /** Safety over whole runs: whatever a contract-respecting caller does, no callback ever runs
      twice, and it has run exactly when its buffer is gone. */
  lemma {:induction false} RunSound(calls: seq<Call>)
    requires After(calls).Some?
    ensures Sound(After(calls).value)
  {
    if calls != [] {
      var n := |calls| - 1;
      RunSound(calls[..n]);
      StepSound(After(calls[..n]).value, calls[n]);
    }
  }

  /** The handles a run pushed onto a list, in order. */
  ghost function Pushes(calls: seq<Call>, l: ListId): seq<Option<Handle>> {
    if calls == [] then [] else
    var n := |calls| - 1;
    Pushes(calls[..n], l) + if calls[n].ListPush? && calls[n].l == l then [Some(calls[n].h)] else []
  }

  /** While a list lives, slot `i` holds the `i`-th handle pushed onto it. */
  lemma {:induction false} SlotsArePushes(calls: seq<Call>, l: ListId)
    requires After(calls).Some?
    ensures l !in After(calls).value.lists ==> Pushes(calls, l) == []
    ensures LiveList(After(calls).value, l) ==> After(calls).value.lists[l].slots == Pushes(calls, l)
  {
    if calls != [] {
      var n := |calls| - 1;
      SlotsArePushes(calls[..n], l);
    }
  }

  lemma ListSlots(s: Heap, l: ListId)
    requires Sound(s) && LiveList(s, l)
    ensures AllLive(s, s.lists[l].slots) && DistinctSlots(s.lists[l].slots)
  {
  }

  lemma AllKilled(s: Heap, slots: seq<Option<Handle>>, h: Handle)
    requires DistinctSlots(slots) && AllLive(s, slots) && Some(h) in slots
    ensures h in s.buffers && !SlotsDestroyed(s, slots).buffers[h].live
  {
    var i :| 0 <= i < |slots| && slots[i] == Some(h);
    assert LiveBuffer(s, slots[i].value);
    SlotsKilled(s, slots, h);
  }

  lemma ListDestroyEffect(s: Heap, l: ListId)
    requires Sound(s) && LiveList(s, l)
    ensures AllLive(s, s.lists[l].slots)
    ensures Step(s, ListDestroy(Some(l))).releases == s.releases + Called(s, s.lists[l].slots)
    ensures forall h :: Some(h) in s.lists[l].slots ==>
              h in Step(s, ListDestroy(Some(l))).buffers && !Step(s, ListDestroy(Some(l))).buffers[h].live
  {
    ListSlots(s, l);
    SlotsReleased(s, s.lists[l].slots);
    forall h | Some(h) in s.lists[l].slots
      ensures h in s.buffers && !SlotsDestroyed(s, s.lists[l].slots).buffers[h].live
    {
      AllKilled(s, s.lists[l].slots, h);
    }
  }

  // ---- what a run does, said of its calls alone ----

  /** The run got the handle with a release callback. */
  ghost predicate Supplied(calls: seq<Call>, h: Handle) {
    FromPtr(h, true) in calls
  }

  /** The run destroyed the handle, or a list it pushed the handle onto. */
  ghost predicate Gone(calls: seq<Call>, h: Handle) {
    Destroy(h) in calls || exists l :: ListPush(l, h) in calls && ListDestroy(Some(l)) in calls
  }

  /** The handles of slots that came with a callback, in order. */
  ghost function WithCallback(calls: seq<Call>, slots: seq<Option<Handle>>): seq<Handle> {
    if slots == [] then [] else
    var last := slots[|slots| - 1];
    WithCallback(calls, slots[..|slots| - 1]) + if last.Some? && Supplied(calls, last.value) then [last.value] else []
  }

  /** The callbacks a run makes, in order: one for a destroyed handle, and for a destroyed list one
      for each handle pushed onto it. */
  ghost function Callbacks(calls: seq<Call>): seq<Handle> {
    if calls == [] then [] else
    var before, c := calls[..|calls| - 1], calls[|calls| - 1];
    Callbacks(before) +
      if c.Destroy? then WithCallback(before, [Some(c.h)])
      else if c.ListDestroy? && c.list.Some? then WithCallback(before, Pushes(before, c.list.value))
      else []
  }

  lemma {:induction false} PushedIffPush(calls: seq<Call>, l: ListId, h: Handle)
    ensures Some(h) in Pushes(calls, l) <==> ListPush(l, h) in calls
  {
    if calls != [] {
      var n := |calls| - 1;
      PushedIffPush(calls[..n], l, h);
      assert calls == calls[..n] + [calls[n]];
    }
  }

  lemma {:induction false} SlotsKeepCallback(s: Heap, slots: seq<Option<Handle>>, h: Handle)
    requires h in s.buffers
    ensures SlotsDestroyed(s, slots).buffers[h].callback == s.buffers[h].callback
  {
    if slots != [] { SlotsKeepCallback(s, slots[..|slots| - 1], h); }
  }

  /** Which buffers there are, and which of them have a callback. */
  ghost predicate BuffersFrom(s: Heap, calls: seq<Call>) {
    && (forall h :: h in s.buffers <==> FromPtr(h, true) in calls || FromPtr(h, false) in calls)
    && (forall h :: h in s.buffers ==> (s.buffers[h].callback <==> Supplied(calls, h)))
  }

  /** Which lists there are, and which of them are live. */
  ghost predicate ListsFrom(s: Heap, calls: seq<Call>) {
    && (forall l :: l in s.lists <==> ListNew(l) in calls)
    && (forall l :: l in s.lists ==> (s.lists[l].live <==> ListDestroy(Some(l)) !in calls))
    && (forall l :: ListDestroy(Some(l)) in calls ==> l in s.lists)
  }

  /** Which buffers are live. */
  ghost predicate LiveFrom(s: Heap, calls: seq<Call>) {
    && (forall h :: h in s.buffers ==> (s.buffers[h].live <==> !Gone(calls, h)))
    && (forall h :: Gone(calls, h) ==> h in s.buffers)
  }

  lemma {:induction false} BuffersFromCalls(calls: seq<Call>)
    requires After(calls).Some?
    ensures BuffersFrom(After(calls).value, calls)
  {
    if calls != [] {
      var n := |calls| - 1;
      var s, c := After(calls[..n]).value, calls[n];
      BuffersFromCalls(calls[..n]);
      assert calls == calls[..n] + [c];
      if c.ListDestroy? && c.list.Some? {
        forall h | h in s.buffers
          ensures Step(s, c).buffers[h].callback == s.buffers[h].callback
        {
          SlotsKeepCallback(s, s.lists[c.list.value].slots, h);
        }
      }
    }
  }

  lemma {:induction false} ListsFromCalls(calls: seq<Call>)
    requires After(calls).Some?
    ensures ListsFrom(After(calls).value, calls)
  {
    if calls != [] {
      var n := |calls| - 1;
      ListsFromCalls(calls[..n]);
      ListsStep(After(calls[..n]).value, calls[..n], calls[n]);
      assert calls == calls[..n] + [calls[n]];
    }
  }

  lemma ListsStep(s: Heap, calls: seq<Call>, c: Call)
    requires Allowed(s, c) && ListsFrom(s, calls)
    ensures ListsFrom(Step(s, c), calls + [c])
  {
    hide SlotsDestroyed, Owned, LiveBuffer;
  }

  /** One more call takes with it what it destroys. */
  lemma GoneMore(calls: seq<Call>, c: Call, h: Handle)
    requires After(calls).Some? && Allowed(After(calls).value, c)
    ensures Gone(calls + [c], h) <==>
            || Gone(calls, h) || c == Destroy(h)
            || (c.ListDestroy? && c.list.Some? && ListPush(c.list.value, h) in calls)
  {
    ListsFromCalls(calls);
  }

  lemma {:induction false} LiveFromCalls(calls: seq<Call>)
    requires After(calls).Some?
    ensures LiveFrom(After(calls).value, calls)
  {
    if calls != [] {
      var n := |calls| - 1;
      var s, c := After(calls[..n]).value, calls[n];
      LiveFromCalls(calls[..n]);
      LiveStep(s, calls[..n], c);
      assert calls == calls[..n] + [c];
    }
  }

  lemma LiveStep(s: Heap, calls: seq<Call>, c: Call)
    requires After(calls) == Some(s) && Allowed(s, c) && LiveFrom(s, calls)
    ensures LiveFrom(Step(s, c), calls + [c])
  {
    RunSound(calls);
    var t := Step(s, c);
    forall h
      ensures h in t.buffers ==> (t.buffers[h].live <==> !Gone(calls + [c], h))
      ensures Gone(calls + [c], h) ==> h in t.buffers
    {
      GoneMore(calls, c, h);
      if c.ListDestroy? && c.list.Some? { ListGone(s, calls, c.list.value, h); }
    }
  }

  lemma ListGone(s: Heap, calls: seq<Call>, l: ListId, h: Handle)
    requires After(calls) == Some(s) && Sound(s) && LiveList(s, l)
    ensures ListPush(l, h) in calls ==> LiveBuffer(s, h)
    ensures h in s.buffers ==> (SlotsDestroyed(s, s.lists[l].slots).buffers[h].live <==>
                                s.buffers[h].live && ListPush(l, h) !in calls)
  {
    var slots := s.lists[l].slots;
    SlotsArePushes(calls, l);
    PushedIffPush(calls, l, h);
    ListSlots(s, l);
    if Some(h) in slots {
      var i :| 0 <= i < |slots| && slots[i] == Some(h);
      assert LiveBuffer(s, slots[i].value);
    }
    if h in s.buffers { SlotsKilled(s, slots, h); }
  }

  lemma {:induction false} CalledIsSupplied(s: Heap, calls: seq<Call>, slots: seq<Option<Handle>>)
    requires BuffersFrom(s, calls) && AllLive(s, slots)
    ensures Called(s, slots) == WithCallback(calls, slots)
  {
    if slots != [] {
      var n := |slots| - 1;
      CalledIsSupplied(s, calls, slots[..n]);
      assert LiveBuffer(s, slots[n].value);
    }
  }

  /** The callbacks that have run, and their order, are a function of the calls. */
  lemma {:induction false} CallbacksOfCalls(calls: seq<Call>)
    requires After(calls).Some?
    ensures After(calls).value.releases == Callbacks(calls)
  {
    if calls != [] {
      var n := |calls| - 1;
      var s, c := After(calls[..n]).value, calls[n];
      CallbacksOfCalls(calls[..n]);
      BuffersFromCalls(calls[..n]);
      if c.Destroy? {
        CalledIsSupplied(s, calls[..n], [Some(c.h)]);
      } else if c.ListDestroy? && c.list.Some? {
        RunSound(calls[..n]);
        SlotsArePushes(calls[..n], c.list.value);
        ListDestroyEffect(s, c.list.value);
        CalledIsSupplied(s, calls[..n], s.lists[c.list.value].slots);
      }
    }
  }

  /** Over any run that respects the contract, a callback has run if and only if its handle came
      with one and was destroyed, by itself or with the list it was pushed onto; and then once. */
  lemma ReleasedIff(calls: seq<Call>, h: Handle)
    requires After(calls).Some?
    ensures h in After(calls).value.releases <==> Supplied(calls, h) && Gone(calls, h)
    ensures multiset(After(calls).value.releases)[h] <= 1
  {
    RunSound(calls);
    BuffersFromCalls(calls);
    LiveFromCalls(calls);
    OnceEach(After(calls).value.releases, h);
  }

  lemma {:induction false} OnceEach(log: seq<Handle>, h: Handle)
    requires forall i, j :: 0 <= i < j < |log| ==> log[i] != log[j]
    ensures multiset(log)[h] <= 1
  {
    if log != [] {
      var n := |log| - 1;
      OnceEach(log[..n], h);
      assert log == log[..n] + [log[n]];
      if log[n] == h { assert h !in log[..n]; }
    }
  }

  lemma AfterSnoc(calls: seq<Call>, c: Call)
    requires After(calls).Some? && Allowed(After(calls).value, c)
    ensures After(calls + [c]) == Some(Step(After(calls).value, c))
  {
    assert (calls + [c])[..|calls|] == calls;
  }

  /** Destroying a list runs the callback of every handle pushed onto it that has one, once
      each, in push order, and leaves no buffer of the list alive. */
  lemma DestroyReleasesAll(calls: seq<Call>, l: ListId)
    requires After(calls).Some? && LiveList(After(calls).value, l)
    ensures After(calls + [ListDestroy(Some(l))]).Some?
    ensures AllLive(After(calls).value, Pushes(calls, l))
    ensures After(calls + [ListDestroy(Some(l))]).value.releases
         == After(calls).value.releases + WithCallback(calls, Pushes(calls, l))
    ensures forall h :: Some(h) in Pushes(calls, l) ==>
              var t := After(calls + [ListDestroy(Some(l))]).value; h in t.buffers && !t.buffers[h].live
  {
    AfterSnoc(calls, ListDestroy(Some(l)));
    RunSound(calls);
    SlotsArePushes(calls, l);
    ListDestroyEffect(After(calls).value, l);
    BuffersFromCalls(calls);
    CalledIsSupplied(After(calls).value, calls, Pushes(calls, l));
  }

  // ---- the library ----

  /** The C functions over the heap. */
  class Library {
    var buffers: map<Handle, Buffer>
    var lists: map<ListId, BufferList>
    var releases: seq<Handle>

    ghost function Current(): Heap
      reads this
    {
      Heap(buffers, lists, releases)
    }

    constructor ()
      ensures Current() == EMPTY_HEAP
    {
      buffers, lists, releases := map[], map[], [];
    }

    method BufferFromPtr(h: Handle, callback: bool)
      requires Allowed(Current(), FromPtr(h, callback))
      modifies this
      ensures Current() == Step(old(Current()), FromPtr(h, callback))
    {
      buffers := buffers[h := Buffer(true, callback)];
    }

    /** Marks the handle dead, takes the callback and runs it. */
    method BufferDestroy(h: Handle)
      requires h in buffers
      modifies this
      ensures Current() == Destroyed(old(Current()), h)
    {
      var b := buffers[h];
      buffers := buffers[h := b.(live := false)];
      if b.callback {
        releases := releases + [h];
      } else {
        assert releases + [] == releases;
      }
    }

    method BufferListNew(l: ListId)
      requires Allowed(Current(), ListNew(l))
      modifies this
      ensures Current() == Step(old(Current()), ListNew(l))
    {
      lists := lists[l := BufferList(true, [])];
    }

    method BufferListPush(l: ListId, h: Handle)
      requires Allowed(Current(), ListPush(l, h))
      modifies this
      ensures Current() == Step(old(Current()), ListPush(l, h))
    {
      lists := lists[l := lists[l].(slots := lists[l].slots + [Some(h)])];
    }

    method BufferListLen(l: ListId) returns (len: nat)
      requires LiveList(Current(), l)
      ensures len == |Current().lists[l].slots|
    {
      len := |lists[l].slots|;
    }

    /** Borrows the handle in a slot; a nulled slot counts as absent. */
    method BufferListGet(l: ListId, index: nat) returns (status: Status, h: Option<Handle>)
      requires Allowed(Current(), ListGet(l, index))
      ensures status == Okay <==> h.Some?
      ensures h.Some? <==> index < |Current().lists[l].slots| && Current().lists[l].slots[index].Some?
      ensures h.Some? ==> h == Current().lists[l].slots[index]
    {
      var slots := lists[l].slots;
      if index < |slots| && slots[index].Some? {
        return Okay, slots[index];
      }
      return OutOfBounds, None;
    }

    /** Nulls each slot before destroying the handle that was in it. */
    method DestroySlots(l: ListId)
      requires LiveList(Current(), l) && AllLive(Current(), lists[l].slots)
      modifies this
      ensures var s := old(Current()); var t := SlotsDestroyed(s, s.lists[l].slots);
              buffers == t.buffers && releases == t.releases
      ensures lists == old(lists)[l := BufferList(true, Nulls(|old(lists)[l].slots|))]
    {
      hide SlotsDestroyed, Destroyed;
      ghost var start := Current();
      ghost var slots := lists[l].slots;
      NoSlotDestroyed(start, slots);
      for k := 0 to |lists[l].slots|
        invariant l in lists && lists[l].live && |lists[l].slots| == |slots|
        invariant forall j :: 0 <= j < |slots| ==> lists[l].slots[j] == if j < k then None else slots[j]
        invariant lists == start.lists[l := lists[l]]
        invariant buffers == SlotsDestroyed(start, slots[..k]).buffers
        invariant releases == SlotsDestroyed(start, slots[..k]).releases
      {
        var slot := lists[l].slots[k];
        assert slot == slots[k] && slots[k].Some? && LiveBuffer(start, slots[k].value);
        OneMoreDestroyed(start, slots, k);
        lists := lists[l := lists[l].(slots := lists[l].slots[k := None])];
        if slot.Some? {
          DestroyedAlike(Current(), SlotsDestroyed(start, slots[..k]), slot.value);
          BufferDestroy(slot.value);
        }
      }
      assert slots[..|slots|] == slots;
      assert lists[l].slots == Nulls(|slots|);
    }

    /** Destroys every handle of the list, frees the list and nulls the caller's pointer. */
    method BufferListDestroy(list: Option<ListId>) returns (pointer: Option<ListId>)
      requires Allowed(Current(), ListDestroy(list))
      requires list.Some? ==> AllLive(Current(), lists[list.value].slots)
      modifies this
      ensures Current() == Step(old(Current()), ListDestroy(list))
      ensures pointer == None
    {
      if list.None? {
        return None;
      }
      DestroySlots(list.value);
      lists := lists[list.value := lists[list.value].(live := false)];
      return None;
    }

    /** Any allowed call on a sound heap; a get returns what it borrowed. */
    method Perform(c: Call) returns (got: Option<Handle>)
      requires Sound(Current()) && Allowed(Current(), c)
      modifies this
      ensures Current() == Step(old(Current()), c) && Sound(Current())
      ensures got == if c.ListGet? then SlotAt(old(Current()), c.l, c.index) else None
    {
      StepSound(Current(), c);
      got := None;
      match c {
        case FromPtr(h, callback) => BufferFromPtr(h, callback);
        case Destroy(h) => BufferDestroy(h);
        case ListNew(l) => BufferListNew(l);
        case ListPush(l, h) => BufferListPush(l, h);
        case ListLen(l) =>
          var len := BufferListLen(l);
        case ListGet(l, index) =>
          var status;
          status, got := BufferListGet(l, index);
        case ListDestroy(list) =>
          if list.Some? { ListSlots(Current(), list.value); }
          var pointer := BufferListDestroy(list);
      }
    }
  }

  // ---- whole runs of the library ----

  /** What a get borrows: the handle in the slot, if there is one. */
  ghost function SlotAt(s: Heap, l: ListId, index: nat): Option<Handle>
    requires LiveList(s, l)
  {
    if index < |s.lists[l].slots| then s.lists[l].slots[index] else None
  }

  /** What the gets of a run should return: the handle pushed at that position before. */
  ghost function Gets(calls: seq<Call>): seq<Option<Handle>> {
    if calls == [] then [] else
    var n := |calls| - 1;
    Gets(calls[..n]) +
      if calls[n].ListGet? then
        var pushed := Pushes(calls[..n], calls[n].l);
        [if calls[n].index < |pushed| then pushed[calls[n].index] else None]
      else []
  }

  lemma {:induction false} AfterPrefix(calls: seq<Call>, i: nat)
    requires After(calls).Some? && i <= |calls|
    ensures After(calls[..i]).Some?
    decreases |calls|
  {
    if i == |calls| {
      assert calls[..i] == calls;
    } else {
      AfterPrefix(calls[..|calls| - 1], i);
      assert calls[..|calls| - 1][..i] == calls[..i];
    }
  }

  /** Runs a contract-respecting sequence of calls on a new library. The object ends in the heap
      of the state machine, to which every result about whole runs applies, and every get
      returned the handle pushed at its position. */
  method PerformAll(calls: seq<Call>) returns (library: Library, got: seq<Option<Handle>>)
    requires After(calls).Some?
    ensures fresh(library) && library.Current() == After(calls).value
    ensures Sound(library.Current())
    ensures library.releases == Callbacks(calls)
    ensures got == Gets(calls)
  {
    library := new Library();
    got := [];
    for i := 0 to |calls|
      invariant fresh(library)
      invariant After(calls[..i]) == Some(library.Current()) && Sound(library.Current())
      invariant got == Gets(calls[..i])
    {
      assert calls[..i + 1][..i] == calls[..i];
      AfterPrefix(calls, i + 1);
      if calls[i].ListGet? { SlotsArePushes(calls[..i], calls[i].l); }
      var h := library.Perform(calls[i]);
      if calls[i].ListGet? {
        got := got + [h];
      } else {
        assert got + [] == got;
      }
    }
    assert calls[..|calls|] == calls;
    CallbacksOfCalls(calls);
  }
}
