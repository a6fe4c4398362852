/**
  What a sequence of registrations and deletions of callbacks means: for every event, the
  callbacks that were added for it and not deleted since, in the order of registration.
 */
module HookLog {

  /** A registered callback with its user data. */
  datatype Tuple = Tuple(callback: nat, data: nat)

  /** The eight events with a list of their own, and the memory events by the type that
      the native side reports. */
  datatype Event = Block | Intr | Code | Read | Write | In | Out | Syscall | Mem(cbType: int)

  datatype Op = Add(event: Event, tuple: Tuple) | Del(hook: nat)

  type Equals = (nat, nat) -> bool

  /** The tuples of `s` whose function does not equal `hook`. */
  function Without(s: seq<Tuple>, hook: nat, equal: Equals): seq<Tuple> {
    if s == [] then []
    else if equal(s[0].callback, hook) then Without(s[1..], hook, equal)
    else [s[0]] + Without(s[1..], hook, equal)
  }

  /** What one operation does to the callbacks `s` of the event `e`. */
  function Applied(s: seq<Tuple>, op: Op, e: Event, equal: Equals): seq<Tuple> {
    if op.Del? then Without(s, op.hook, equal)
    else if op.event == e then s + [op.tuple]
    else s
  }

  /** The callbacks of an event after the operations of `log`. */
  function Active(log: seq<Op>, e: Event, equal: Equals): seq<Tuple> {
    if log == [] then []
    else Applied(Active(log[..|log| - 1], e, equal), log[|log| - 1], e, equal)
  }

  lemma ActiveOne(log: seq<Op>, op: Op, e: Event, equal: Equals)
    ensures Active(log + [op], e, equal) == Applied(Active(log, e, equal), op, e, equal)
  {
    assert (log + [op])[..|log|] == log;
  }

  // ---------------------------------------------------------------- the same, looking forward

  /** Some operation of `log` deletes `callback`. */
  predicate Deleted(log: seq<Op>, callback: nat, equal: Equals) {
    exists i :: 0 <= i < |log| && log[i].Del? && equal(callback, log[i].hook)
  }

  /** The tuples added for `e` that no later operation deletes. */
  function Survivors(log: seq<Op>, e: Event, equal: Equals): seq<Tuple> {
    if log == [] then []
    else
      var later := Survivors(log[1..], e, equal);
      if log[0].Add? && log[0].event == e && !Deleted(log[1..], log[0].tuple.callback, equal)
      then [log[0].tuple] + later else later
  }

  lemma {:induction false} WithoutAppend(s: seq<Tuple>, t: seq<Tuple>, hook: nat, equal: Equals)
    ensures Without(s + t, hook, equal) == Without(s, hook, equal) + Without(t, hook, equal)
  {
    if s == [] {
      assert s + t == t;
    } else {
      assert (s + t)[1..] == s[1..] + t;
      WithoutAppend(s[1..], t, hook, equal);
    }
  }

  lemma DeletedMore(log: seq<Op>, op: Op, callback: nat, equal: Equals)
    ensures Deleted(log + [op], callback, equal) <==>
            Deleted(log, callback, equal) || (op.Del? && equal(callback, op.hook))
  {
    var more := log + [op];
    if Deleted(log, callback, equal) {
      var i :| 0 <= i < |log| && log[i].Del? && equal(callback, log[i].hook);
      assert more[i] == log[i];
    }
    if op.Del? && equal(callback, op.hook) {
      assert more[|log|] == op;
    }
  }

  /** One more operation at the end: an addition is appended, a deletion filters. */
  lemma {:induction false} SurvivorsOne(log: seq<Op>, op: Op, e: Event, equal: Equals)
    ensures Survivors(log + [op], e, equal) == Applied(Survivors(log, e, equal), op, e, equal)
  {
    if log == [] {
      assert log + [op] == [op];
      assert !Deleted([], 0, equal);
      assert [op][1..] == [];
    } else {
      assert (log + [op])[1..] == log[1..] + [op];
      SurvivorsOne(log[1..], op, e, equal);
      if log[0].Add? {
        DeletedMore(log[1..], op, log[0].tuple.callback, equal);
        if op.Del? && log[0].event == e && !Deleted(log[1..], log[0].tuple.callback, equal) {
          var later := Survivors(log[1..], e, equal);
          assert ([log[0].tuple] + later)[1..] == later;
        }
      }
    }
  }

  /** The callbacks of an event are exactly those added for it and not deleted since, in
      the order of registration. */
  lemma {:induction false} ActiveAreSurvivors(log: seq<Op>, e: Event, equal: Equals)
    ensures Active(log, e, equal) == Survivors(log, e, equal)
  {
    if log != [] {
      var rest, op := log[..|log| - 1], log[|log| - 1];
      assert log == rest + [op];
      ActiveAreSurvivors(rest, e, equal);
      ActiveOne(rest, op, e, equal);
      SurvivorsOne(rest, op, e, equal);
    }
  }

  // ---------------------------------------------------------------- memory events by bit mask

  /** The hook types of memory events, each with the type that its callbacks report. */
  function Reported(htype: int): int {
    match htype
    case 16 => 19
    case 32 => 20
    case 64 => 21
    case 128 => 23
    case 256 => 22
    case 512 => 24
    case 1024 => 16
    case 2048 => 17
    case 4096 => 18
    case 8192 => 25
    case _ => -1
  }

  predicate IsHookType(h: int): (b: bool)
    ensures b ==> h > 0
  {
    h in {16, 32, 64, 128, 256, 512, 1024, 2048, 4096, 8192}
  }

  /** `(mask & htype) != 0` for a hook type, which is a power of two, and a mask of either
      sign in two's complement. */
  predicate HasBit(mask: int, htype: int) { htype > 0 && mask / htype % 2 == 1 }

  /** Every hook type once, in whatever order the hash table gives them. */
  ghost predicate IsOrder(order: seq<int>) {
    (forall i :: 0 <= i < |order| ==> IsHookType(order[i])) &&
    (forall i, j :: 0 <= i < j < |order| ==> order[i] != order[j]) &&
    forall h :: IsHookType(h) ==> h in order
  }

  /** What adding a callback for `mask` adds, hook type by hook type. */
  function MemAdds(mask: int, order: seq<int>, t: Tuple): seq<Op>
  {
    if order == [] then []
    else
      var htype := order[|order| - 1];
      MemAdds(mask, order[..|order| - 1], t) + (if HasBit(mask, htype) then [Add(Mem(Reported(htype)), t)] else [])
  }

  /** `after` is `before` with what the first `k` hook types add. */
  predicate AddedUpTo(before: seq<Op>, after: seq<Op>, mask: int, order: seq<int>, t: Tuple, k: nat)
    requires k <= |order|
  {
    after == before + MemAdds(mask, order[..k], t)
  }

  lemma AddedNone(log: seq<Op>, mask: int, order: seq<int>, t: Tuple)
    ensures AddedUpTo(log, log, mask, order, t, 0)
  {
    assert order[..0] == [];
  }

  lemma AddedNext(before: seq<Op>, after: seq<Op>, mask: int, order: seq<int>, t: Tuple, k: nat)
    requires k < |order| && AddedUpTo(before, after, mask, order, t, k)
    ensures HasBit(mask, order[k]) ==>
              AddedUpTo(before, after + [Add(Mem(Reported(order[k])), t)], mask, order, t, k + 1)
    ensures !HasBit(mask, order[k]) ==> AddedUpTo(before, after, mask, order, t, k + 1)
  {
    hide HasBit, Reported;
    assert order[..k + 1][..k] == order[..k];
  }

  lemma AddedAll(before: seq<Op>, after: seq<Op>, mask: int, order: seq<int>, t: Tuple)
    requires AddedUpTo(before, after, mask, order, t, |order|)
    ensures after == before + MemAdds(mask, order, t)
  {
    assert order[..|order|] == order;
  }

  lemma ReportedOnce(h: int, k: int)
    requires IsHookType(h) && IsHookType(k) && Reported(h) == Reported(k)
    ensures h == k
  {
  }

  /** A callback added for a mask joins the list of every memory event in the mask once,
      and no other list, whatever the order of the hash table. */
  lemma {:induction false} MaskReachesItsEvents(log: seq<Op>, mask: int, order: seq<int>, t: Tuple, h: int,
          equal: Equals)
    requires forall i :: 0 <= i < |order| ==> IsHookType(order[i])
    requires forall i, j :: 0 <= i < j < |order| ==> order[i] != order[j]
    requires IsHookType(h)
    ensures Active(log + MemAdds(mask, order, t), Mem(Reported(h)), equal)
            == Active(log, Mem(Reported(h)), equal) + (if h in order && HasBit(mask, h) then [t] else [])
    ensures forall e: Event :: !e.Mem? ==> Active(log + MemAdds(mask, order, t), e, equal) == Active(log, e, equal)
  {
    hide Reported, Active;
    if order == [] {
      assert log + [] == log;
    } else {
      var init, k := order[..|order| - 1], order[|order| - 1];
      assert order == init + [k];
      MaskReachesItsEvents(log, mask, init, t, h, equal);
      assert k !in init;
      var some := log + MemAdds(mask, init, t);
      if HasBit(mask, k) {
        var op := Add(Mem(Reported(k)), t);
        assert log + MemAdds(mask, order, t) == some + [op];
        forall e: Event
          ensures Active(some + [op], e, equal)
                  == if e == op.event then Active(some, e, equal) + [t] else Active(some, e, equal)
        {
          ActiveOne(some, op, e, equal);
        }
        if Reported(h) == Reported(k) {
          ReportedOnce(h, k);
        }
      } else {
        assert log + MemAdds(mask, order, t) == some;
      }
    }
  }
}
