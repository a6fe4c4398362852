/**
  The callback registry of Unicorn.java: array lists shared between the fields, the table
  of memory events and the list of all lists, refined to the log of HookLog.
 */
module HookRegistry {
  import opened HookLog
  import opened Words

  /** The events with a list and a handle of their own, numbered. */
  function Fixed(k: nat): (e: Event)
    requires k < 8
    ensures !e.Mem?
  {
    if k == 0 then Block else if k == 1 then Intr else if k == 2 then Code else if k == 3 then Read
    else if k == 4 then Write else if k == 5 then In else if k == 6 then Out else Syscall
  }

  lemma FixedDiffer()
    ensures forall i, j :: 0 <= i < j < 8 ==> Fixed(i) != Fixed(j)
  {
  }

  /** What is asked of the native side: an event with a list of its own, or one bit of the
      memory events. */
  datatype Request = ForEvent(event: Event) | ForBit(htype: int)

  /** An `ArrayList<Tuple>`: an object that several places share. */
  class HookList {
    var items: seq<Tuple>

    constructor ()
      ensures items == []
    {
      items := [];
    }

    method Append(t: Tuple)
      modifies this
      ensures items == old(items) + [t]
    {
      items := items + [t];
    }

    /** The inner loop of `hook_del`, which removes through the iterator. */
    method RemoveAll(hook: nat, equal: Equals)
      modifies this
      ensures items == Without(old(items), hook, equal)
    {
      var next := 0;
      while next < |items|
        invariant next <= |items|
        invariant items[..next] + Without(items[next..], hook, equal) == Without(old(items), hook, equal)
        decreases |items| - next
      {
        var t := items[next];
        if equal(t.callback, hook) {
          assert (items[..next] + items[next + 1..])[next..] == items[next..][1..];
          items := items[..next] + items[next + 1..];
        } else {
          assert items[..next + 1] == items[..next] + [t];
          assert items[next..][1..] == items[next + 1..];
          next := next + 1;
        }
      }
      assert items[..next] == items && items[next..] == [];
    }
  }

  ghost predicate AddedFor(log: seq<Op>, e: Event) {
    exists i :: 0 <= i < |log| && log[i].Add? && log[i].event == e
  }

  lemma AddedMore(log: seq<Op>, op: Op, e: Event)
    ensures AddedFor(log + [op], e) <==> AddedFor(log, e) || (op.Add? && op.event == e)
  {
    var more := log + [op];
    assert more[|log|] == op;
    if AddedFor(log, e) {
      var i :| 0 <= i < |log| && log[i].Add? && log[i].event == e;
      assert more[i] == log[i];
    }
  }

  lemma {:induction false} ActiveWasAdded(log: seq<Op>, e: Event, equal: Equals)
    requires Active(log, e, equal) != []
    ensures AddedFor(log, e)
  {
    var rest, op := log[..|log| - 1], log[|log| - 1];
    assert log == rest + [op];
    AddedMore(rest, op, e);
    if !(op.Add? && op.event == e) {
      ActiveWasAdded(rest, e, equal);
    }
  }

  /** The requests that the native side granted, given the handles that are kept: a bit is
      requested at most once, and every list that was ever added to was requested first.
      Events with a list of their own are requested once if no handle is zero. */
  ghost predicate Requested(log: seq<Op>, requests: seq<Request>, handles: seq<int>, bits: map<int, int>,
          nonZero: bool) {
    |handles| == 8 &&
    (forall k :: 0 <= k < 8 && AddedFor(log, Fixed(k)) ==> ForEvent(Fixed(k)) in requests) &&
    (forall h :: IsHookType(h) && AddedFor(log, Mem(Reported(h))) ==> ForBit(h) in requests) &&
    (forall h :: ForBit(h) in requests <==> h in bits) &&
    (forall k :: 0 <= k < 8 && handles[k] != 0 ==> ForEvent(Fixed(k)) in requests) &&
    (nonZero ==> forall k :: 0 <= k < 8 && ForEvent(Fixed(k)) in requests ==> handles[k] != 0) &&
    forall i, j :: 0 <= i < j < |requests| && requests[i] == requests[j] ==> requests[i].ForEvent? && !nonZero
  }

  lemma AppliedToAll(log: seq<Op>, op: Op, equal: Equals)
    ensures forall e: Event :: Active(log + [op], e, equal) == Applied(Active(log, e, equal), op, e, equal)
  {
    forall e: Event ensures Active(log + [op], e, equal) == Applied(Active(log, e, equal), op, e, equal) {
      ActiveOne(log, op, e, equal);
    }
  }

  /** Event `k` was registered if its handle was zero. */
  ghost predicate Registered(handles: seq<int>, handles': seq<int>, requests: seq<Request>, requests': seq<Request>,
                             k: nat, nonZero: bool)
    requires k < |handles| == 8
  {
    if handles[k] == 0 then
      requests' == requests + [ForEvent(Fixed(k))] && |handles'| == 8 &&
      (forall j :: 0 <= j < 8 && j != k ==> handles'[j] == handles[j]) && (nonZero ==> handles'[k] != 0)
    else requests' == requests && handles' == handles
  }

  lemma GrantedOf(handles: seq<int>, handles': seq<int>, requests: seq<Request>, requests': seq<Request>, k: nat,
          nonZero: bool)
    requires k < |handles| == 8 && Registered(handles, handles', requests, requests', k, nonZero)
    ensures requests' == if handles[k] == 0 then requests + [ForEvent(Fixed(k))] else requests
  {
  }

  lemma RequestedFixed(log: seq<Op>, op: Op, requests: seq<Request>, requests': seq<Request>, handles: seq<int>,
                       handles': seq<int>, k: nat, bits: map<int, int>, nonZero: bool)
    requires Requested(log, requests, handles, bits, nonZero) && k < |handles| == 8 && op.Add? && op.event == Fixed(k)
    requires Registered(handles, handles', requests, requests', k, nonZero)
    ensures Requested(log + [op], requests', handles', bits, nonZero)
  {
    FixedDiffer();
    hide Fixed, AddedFor;
    forall e: Event ensures AddedFor(log + [op], e) <==> AddedFor(log, e) || op.event == e {
      AddedMore(log, op, e);
    }
    assert ForEvent(Fixed(k)) in requests';
    assert forall r :: r in requests' <==> r in requests || r == ForEvent(Fixed(k));
  }

  /** A bit was registered if it had no handle. */
  ghost predicate BitRegistered(bits: map<int, int>, bits': map<int, int>, requests: seq<Request>,
          requests': seq<Request>, h: int) {
    if h in bits then requests' == requests && bits' == bits
    else requests' == requests + [ForBit(h)] && bits'.Keys == bits.Keys + {h}
  }

  lemma BitOnce(bits: map<int, int>, bits': map<int, int>, requests: seq<Request>, requests': seq<Request>, h: int,
          ok: bool)
    requires if ok then BitRegistered(bits, bits', requests, requests', h)
             else requests' == requests && bits' == bits && h !in bits
    ensures h in bits ==> ok && requests' == requests
    ensures !ok ==> requests' == requests && bits' == bits
  {
  }

  lemma RequestedBit(log: seq<Op>, op: Op, requests: seq<Request>, requests': seq<Request>, handles: seq<int>,
                     bits: map<int, int>, bits': map<int, int>, h: int, nonZero: bool)
    requires Requested(log, requests, handles, bits, nonZero) && IsHookType(h) && op.Add? &&
             op.event == Mem(Reported(h))
    requires BitRegistered(bits, bits', requests, requests', h)
    ensures Requested(log + [op], requests', handles, bits', nonZero)
  {
    hide Fixed, AddedFor, Reported, IsHookType;
    forall e: Event ensures AddedFor(log + [op], e) <==> AddedFor(log, e) || op.event == e {
      AddedMore(log, op, e);
    }
    forall k | IsHookType(k) && Reported(k) == Reported(h) ensures k == h {
      ReportedOnce(k, h);
    }
    assert forall r :: r in requests' <==> r in requests || r == ForBit(h);
    assert h in bits';
  }

  lemma RequestedDel(log: seq<Op>, hook: nat, requests: seq<Request>, handles: seq<int>, bits: map<int, int>,
          nonZero: bool)
    requires Requested(log, requests, handles, bits, nonZero)
    ensures Requested(log + [Del(hook)], requests, handles, bits, nonZero)
  {
    hide Fixed, AddedFor, Reported, IsHookType;
    forall e: Event ensures AddedFor(log + [Del(hook)], e) <==> AddedFor(log, e) {
      AddedMore(log, Del(hook), e);
    }
  }

  lemma WithoutNone(hook: nat, equal: Equals)
    ensures Without([], hook, equal) == []
  {
  }

  class Unicorn {
    const equal: Equals
    /** The n-th call of the native registration: a handle, or an exception. */
    const native: (nat, Request) -> Option<int>
    /** The order in which the key set of the hook types is walked. */
    const order: seq<int>
    /** The eight list fields, and the eight handle fields, as Fixed numbers them. */
    const fixedLists: seq<HookList>
    var handles: seq<int>
    var eventMemHandles: map<int, int>
    var eventMemLists: map<int, HookList>
    var allLists: seq<HookList>
    var calls: nat
    ghost var owners: seq<Event>
    /** All list objects. */
    ghost var repr: set<HookList>
    ghost var log: seq<Op>
    ghost var requests: seq<Request>

    ghost predicate NonZero() {
      forall n: nat, r: Request :: native(n, r).Some? ==> native(n, r).value != 0
    }

    /** Every list belongs to one event, and no list is shared between two. */
    ghost predicate Shape()
      reads this`allLists, this`owners, this`eventMemLists, this`repr
    {
      |fixedLists| == 8 && (forall i :: 0 <= i < |allLists| ==> allLists[i] in repr) &&
      IsOrder(order) && |owners| == |allLists| >= 8 &&
      (forall k :: 0 <= k < 8 ==> allLists[k] == fixedLists[k] && owners[k] == Fixed(k)) &&
      (forall i, j :: 0 <= i < j < |allLists| ==> allLists[i] != allLists[j] && owners[i] != owners[j]) &&
      (forall i :: 8 <= i < |allLists| ==>
        owners[i].Mem? && owners[i].cbType in eventMemLists && eventMemLists[owners[i].cbType] == allLists[i]) &&
      forall c :: c in eventMemLists ==> Mem(c) in owners
    }

    /** The lists hold what the log says. */
    ghost predicate Contents()
      reads this`allLists, this`owners, this`eventMemLists, this`log, this`repr, repr
    {
      |owners| == |allLists| && (forall i :: 0 <= i < |allLists| ==> allLists[i] in repr) &&
      (forall i :: 0 <= i < |allLists| ==> allLists[i].items == Active(log, owners[i], equal)) &&
      forall c :: c !in eventMemLists ==> Active(log, Mem(c), equal) == []
    }

    /** The registry stands for its log. */
    ghost predicate Valid()
      reads this, repr
    {
      Shape() && Contents() && Requested(log, requests, handles, eventMemHandles, NonZero())
    }

    constructor (equal: Equals, native: (nat, Request) -> Option<int>, order: seq<int>)
      requires IsOrder(order)
      ensures Valid() && log == [] && requests == [] && fresh(repr)
      ensures this.equal == equal && this.native == native && this.order == order
    {
      this.equal, this.native, this.order := equal, native, order;
      var lists: seq<HookList> := [];
      for k := 0 to 8
        invariant |lists| == k && fresh(lists)
        invariant forall i, j :: 0 <= i < j < k ==> lists[i] != lists[j]
        invariant forall i :: 0 <= i < k ==> lists[i].items == []
      {
        var list := new HookList();
        lists := lists + [list];
      }
      repr := set l | l in lists;
      fixedLists, allLists, handles := lists, lists, [0, 0, 0, 0, 0, 0, 0, 0];
      eventMemHandles, eventMemLists, calls := map[], map[], 0;
      owners, log, requests := seq(8, (k: int) requires 0 <= k < 8 => Fixed(k)), [], [];
      new;
      FixedDiffer();
      hide Fixed, IsOrder;
    }

    /** The list of an event is no other event's. */
    lemma ListOf(k: nat)
      requires Shape() && k < |allLists|
      ensures |fixedLists| == 8 && |owners| == |allLists| >= 8
      ensures k < 8 ==> allLists[k] == fixedLists[k] && owners[k] == Fixed(k)
      ensures forall i :: 0 <= i < |allLists| && i != k ==> allLists[i] != allLists[k] && owners[i] != owners[k]
      ensures owners[k].Mem? ==> owners[k].cbType in eventMemLists
    {
      hide Fixed, IsOrder;
    }

    lemma FixedListOf(k: nat)
      requires Shape() && k < 8 && Requested(log, requests, handles, eventMemHandles, NonZero())
      ensures |fixedLists| == |handles| == 8 && k < |allLists| && |owners| == |allLists|
      ensures allLists[k] == fixedLists[k] && owners[k] == Fixed(k)
    {
      hide Fixed, IsOrder;
    }

    method RegisterHook(request: Request) returns (handle: Option<int>)
      modifies this`calls, this`requests
      ensures handle == native(old(calls), request)
      ensures requests == if handle.Some? then old(requests) + [request] else old(requests)
      ensures NonZero() && handle.Some? ==> handle.value != 0
    {
      handle := native(calls, request);
      calls := calls + 1;
      if handle.Some? {
        requests := requests + [request];
      }
    }

    /** Adds to one of the lists, which every place that shares it then sees. */
    method Attach(list: HookList, ghost i: nat, t: Tuple)
      requires Shape() && Contents() && i < |allLists| && list == allLists[i]
      modifies list, this`log
      ensures Shape() && Contents() && log == old(log) + [Add(owners[i], t)]
    {
      ListOf(i);
      hide Unicorn.Shape, Active;
      list.Append(t);
      ghost var op := Add(owners[i], t);
      AppliedToAll(log, op, equal);
      log := log + [op];
    }

    /** Registers event `k` with the native side unless its handle says that it is. */
    method Ensure(k: nat) returns (ok: bool)
      requires k < |handles| == 8
      modifies this`handles, this`calls, this`requests
      ensures !ok ==> handles == old(handles) && requests == old(requests) && handles[k] == 0
      ensures ok ==> Registered(old(handles), handles, old(requests), requests, k, NonZero())
    {
      hide Fixed, Unicorn.NonZero;
      if handles[k] == 0 {
        var handle := RegisterHook(ForEvent(Fixed(k)));
        if handle.None? {
          return false;
        }
        handles := handles[k := handle.value];
      }
      ok := true;
    }

    /** `hook_add` for the event number `k`; false when an exception left it. */
    method HookAdd(k: nat, t: Tuple) returns (ok: bool)
      requires Valid() && k < 8
      modifies this`handles, this`calls, this`requests, this`log, fixedLists[k]
      ensures Valid()
      ensures log == if ok then old(log) + [Add(Fixed(k), t)] else old(log)
      ensures requests == if ok && old(handles[k]) == 0 then old(requests) + [ForEvent(Fixed(k))] else old(requests)
      ensures old(handles[k]) != 0 ==> ok
    {
      hide Requested, Unicorn.NonZero, Unicorn.Shape, Unicorn.Contents, Active, Fixed, Registered;
      FixedListOf(k);
      ok := Ensure(k);
      if ok {
        GrantedOf(old(handles), handles, old(requests), requests, k, NonZero());
        RequestedFixed(log, Add(Fixed(k), t), old(requests), requests, old(handles), handles, k, eventMemHandles,
            NonZero());
        Attach(fixedLists[k], k, t);
      }
    }

    /** `hook_add` for a MemHook, which joins the read list and then the write list; without
        an exception in the first call there is always the first entry. */
    method HookAddMem(t: Tuple) returns (ok: bool)
      requires Valid()
      modifies this`handles, this`calls, this`requests, this`log, fixedLists[3], fixedLists[4]
      ensures Valid()
      ensures ok ==> log == old(log) + [Add(Read, t), Add(Write, t)]
      ensures !ok ==> log == old(log) || log == old(log) + [Add(Read, t)]
    {
      hide Requested, Unicorn.NonZero, Unicorn.Shape, Unicorn.Contents, Active;
      ok := HookAdd(3, t);
      if ok {
        ok := HookAdd(4, t);
      }
    }

    /** Registers a bit with the native side unless it has a handle already. */
    method EnsureBit(htype: int) returns (ok: bool)
      modifies this`eventMemHandles, this`calls, this`requests
      ensures !ok ==> eventMemHandles == old(eventMemHandles) && requests == old(requests) && htype !in eventMemHandles
      ensures ok ==> BitRegistered(old(eventMemHandles), eventMemHandles, old(requests), requests, htype)
    {
      hide Unicorn.NonZero;
      if htype !in eventMemHandles {
        var handle := RegisterHook(ForBit(htype));
        if handle.None? {
          return false;
        }
        eventMemHandles := eventMemHandles[htype := handle.value];
      }
      ok := true;
    }

    /** Makes a list for a memory event that has none. */
    method AddList(cbType: int)
      requires Shape() && Contents() && cbType !in eventMemLists
      modifies this`allLists, this`eventMemLists, this`owners, this`repr
      ensures Shape() && Contents() && cbType in eventMemLists && fresh(repr - old(repr))
    {
      hide IsOrder, Active, Fixed;
      var list := new HookList();
      ghost var n := |owners|;
      assert forall i :: 0 <= i < n ==> owners[i] != Mem(cbType);
      assert Active(log, Mem(cbType), equal) == [] && list !in repr;
      allLists, repr := allLists + [list], repr + {list};
      eventMemLists := eventMemLists[cbType := list];
      owners := owners + [Mem(cbType)];
      assert owners[n] == Mem(cbType) && allLists[n] == list;
      assert forall i :: 0 <= i < n ==> owners[i] == old(owners)[i] && allLists[i] == old(allLists)[i];
      assert forall e :: e in old(owners) ==> e in owners;
    }

    /** A memory event's list is one of all lists. */
    lemma IndexOf(cbType: int) returns (i: nat)
      requires Shape() && cbType in eventMemLists
      ensures 8 <= i < |allLists| == |owners| && owners[i] == Mem(cbType)
      ensures allLists[i] == eventMemLists[cbType] && allLists[i] in repr
    {
      hide IsOrder;
      i :| 0 <= i < |owners| && owners[i] == Mem(cbType);
    }

    /** The body of the loop over the hook types, for one that is in the mask. */
    method AddBit(htype: int, t: Tuple) returns (ok: bool)
      requires Valid() && IsHookType(htype)
      modifies this`eventMemHandles, this`calls, this`requests, this`allLists, this`eventMemLists, this`owners
      modifies this`repr, this`log, repr
      ensures Valid()
      ensures log == if ok then old(log) + [Add(Mem(Reported(htype)), t)] else old(log)
      ensures htype in old(eventMemHandles) ==> ok && requests == old(requests)
      ensures fresh(repr - old(repr))
    {
      hide Requested, Unicorn.NonZero, Unicorn.Shape, Unicorn.Contents, Active, Fixed, BitRegistered, Reported,
        IsHookType;
      ok := EnsureBit(htype);
      BitOnce(old(eventMemHandles), eventMemHandles, old(requests), requests, htype, ok);
      if ok {
        var cbType := Reported(htype);
        RequestedBit(log, Add(Mem(cbType), t), old(requests), requests, handles, old(eventMemHandles),
                     eventMemHandles, htype, NonZero());
        if cbType !in eventMemLists {
          AddList(cbType);
        }
        ghost var i := IndexOf(cbType);
        Attach(eventMemLists[cbType], i, t);
      }
    }

    /** `hook_add` for a memory event callback.  Each bit of the mask adds the callback to
        its event; an exception keeps what was added before it. */
    method HookAddEventMem(mask: int, t: Tuple) returns (ok: bool)
      requires Valid()
      modifies this`eventMemHandles, this`calls, this`requests, this`allLists, this`eventMemLists, this`owners
      modifies this`repr, this`log, repr
      ensures Valid()
      ensures ok ==> log == old(log) + MemAdds(mask, order, t)
      ensures !ok ==> exists n :: 0 <= n < |order| && AddedUpTo(old(log), log, mask, order, t, n)
    {
      OrderInTypes();
      hide *;
      AddedNone(log, mask, order, t);
      ok := true;
      for k := 0 to |order|
        invariant ok && Valid() && AddedUpTo(old(log), log, mask, order, t, k)
        invariant fresh(repr - old(repr))
      {
        AddedNext(old(log), log, mask, order, t, k);
        if HasBit(mask, order[k]) {
          ok := AddBit(order[k], t);
          if !ok {
            return;
          }
        }
      }
      AddedAll(old(log), log, mask, order, t);
    }

    lemma OrderInTypes()
      requires Valid()
      ensures forall i :: 0 <= i < |order| ==> IsHookType(order[i])
    {
    }

    /** `hook_del`: no list keeps an equal callback. */
    method HookDel(hook: nat)
      requires Valid()
      modifies this`log, repr
      ensures Valid() && log == old(log) + [Del(hook)] && requests == old(requests)
    {
      hide Requested, Unicorn.NonZero, Active, IsOrder, Fixed, Without;
      for k := 0 to |allLists|
        invariant log == old(log)
        invariant forall i :: 0 <= i < k ==> allLists[i].items == Without(old(allLists[i].items), hook, equal)
        invariant forall i :: k <= i < |allLists| ==> allLists[i].items == old(allLists[i].items)
      {
        allLists[k].RemoveAll(hook, equal);
      }
      AppliedToAll(log, Del(hook), equal);
      RequestedDel(log, hook, requests, handles, eventMemHandles, NonZero());
      WithoutNone(hook, equal);
      log := log + [Del(hook)];
    }

    // ------------------------------------------------------------- dispatch

    /** The callbacks that run for the event number `k`, in order. */
    method Invoke(k: nat) returns (ran: seq<Tuple>)
      requires Valid() && k < 8
      ensures ran == Active(log, Fixed(k), equal)
    {
      hide Requested, Unicorn.NonZero, Active, IsOrder, Fixed;
      ListOf(k);
      ran := [];
      for i := 0 to |fixedLists[k].items|
        invariant ran == fixedLists[k].items[..i]
      {
        ran := ran + [fixedLists[k].items[i]];
      }
    }

    /** `invokeEventMemCallbacks`: all of them run, and the result is the conjunction of
        their answers. */
    method InvokeEventMem(cbType: int, answer: (nat, Tuple) -> bool) returns (ran: seq<Tuple>, result: bool)
      requires Valid()
      ensures ran == Active(log, Mem(cbType), equal)
      ensures result <==> forall i :: 0 <= i < |ran| ==> answer(i, ran[i])
    {
      hide Requested, Unicorn.NonZero, Active, IsOrder, Fixed;
      ran, result := [], true;
      if cbType in eventMemLists {
        var list := eventMemLists[cbType];
        ghost var j := IndexOf(cbType);
        for i := 0 to |list.items|
          invariant ran == list.items[..i]
          invariant result <==> forall i :: 0 <= i < |ran| ==> answer(i, ran[i])
        {
          ran := ran + [list.items[i]];
          result := answer(i, list.items[i]) && result;
        }
      }
    }

    /** `invokeInCallbacks`: all of them run, and the last answer is the result. */
    method InvokeIn(answer: (nat, Tuple) -> int) returns (ran: seq<Tuple>, result: int)
      requires Valid()
      ensures ran == Active(log, In, equal)
      ensures result == if ran == [] then 0 else answer(|ran| - 1, ran[|ran| - 1])
    {
      hide Requested, Unicorn.NonZero, Active, IsOrder;
      ran, result := [], 0;
      var list := fixedLists[5];
      ListOf(5);
      for i := 0 to |list.items|
        invariant ran == list.items[..i]
        invariant result == if ran == [] then 0 else answer(|ran| - 1, ran[|ran| - 1])
      {
        ran := ran + [list.items[i]];
        result := answer(i, list.items[i]);
      }
    }

    /** Whatever can run is registered with the native side; a bit of the memory events never
        twice, and with nonzero handles nothing twice. */
    lemma RegisteredOnceBeforeUse()
      requires Valid()
      ensures forall k :: 0 <= k < 8 && Active(log, Fixed(k), equal) != [] ==> ForEvent(Fixed(k)) in requests
      ensures forall h :: IsHookType(h) && Active(log, Mem(Reported(h)), equal) != [] ==> ForBit(h) in requests
      ensures forall i, j :: 0 <= i < j < |requests| && requests[i] == requests[j] ==>
              requests[i].ForEvent? && !NonZero()
    {
      hide Unicorn.Shape, Unicorn.Contents, Active, IsHookType, Reported, Fixed, AddedFor;
      forall e: Event | Active(log, e, equal) != [] ensures AddedFor(log, e) {
        ActiveWasAdded(log, e, equal);
      }
    }
  }
}
