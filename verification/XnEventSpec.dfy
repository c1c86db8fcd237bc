/**
 * What an event means, on values: the registered callbacks, the two queues that Register and Unregister
 * feed, and the list of registrations that is in effect.
 */
module XnEventSpec {
  import opened XnListT

  /** The address of a callback object; its registration handle. */
  type Handle = nat

  datatype Event = Event(callbacks: seq<Handle>, toAdd: seq<Handle>, toRemove: seq<Handle>)

  const EMPTY := Event([], [], [])

  /** The callback objects an event owns, each once. */
  function Owned(e: Event): seq<Handle> {
    e.callbacks + e.toAdd
  }

  ghost predicate WF(e: Event) {
    Distinct(Owned(e))
  }

  /** `s` without the elements of `gone`. */
  function Without(s: seq<Handle>, gone: seq<Handle>): (r: seq<Handle>)
    ensures |r| <= |s|
  {
    if s == [] then []
    else
      var rest := Without(s[..|s| - 1], gone);
      if s[|s| - 1] in gone then rest else rest + [s[|s| - 1]]
  }

  /** The registrations in effect: what the next Raise will call. */
  function Effective(e: Event): seq<Handle> {
    Without(Owned(e), e.toRemove)
  }

  function RemoveOne(s: seq<Handle>, h: Handle): seq<Handle> {
    if h in s then Deleted(s, FirstIndex(s, h)) else s
  }

  function RemoveEach(s: seq<Handle>, gone: seq<Handle>): seq<Handle> {
    if gone == [] then s else RemoveOne(RemoveEach(s, gone[..|gone| - 1]), gone[|gone| - 1])
  }

  // ----- the operations -----

  function Registered(e: Event, h: Handle): Event {
    e.(toAdd := e.toAdd + [h])
  }

  function Unregistered(e: Event, h: Handle): Event {
    if h in e.toAdd then e.(toAdd := RemoveOne(e.toAdd, h)) else e.(toRemove := e.toRemove + [h])
  }

  /** First everything queued is added, then every removal is looked up. */
  function Applied(e: Event): Event {
    Event(RemoveEach(e.callbacks + e.toAdd, e.toRemove), [], [])
  }

  /** The event without the queued additions that find no memory for their list node: those are passed over. */
  function Kept(e: Event, addOk: seq<bool>): Event {
    e.(toAdd := Picked(e.toAdd, addOk))
  }

  /** The queued additions that are passed over: nothing refers to those callback objects any more. */
  function Missed(s: seq<Handle>, addOk: seq<bool>): seq<Handle> {
    if s == [] then []
    else Missed(s[..|s| - 1], addOk) + (if Granted(addOk, |s| - 1) then [] else [s[|s| - 1]])
  }

  // ----- lists without duplicates -----

  lemma {:induction false} WithoutConcat(s: seq<Handle>, t: seq<Handle>, gone: seq<Handle>)
    ensures Without(s + t, gone) == Without(s, gone) + Without(t, gone)
  {
    if t == [] {
      assert s + t == s;
    } else {
      assert (s + t)[..|s + t| - 1] == s + t[..|t| - 1];
      WithoutConcat(s, t[..|t| - 1], gone);
    }
  }

  lemma {:induction false} WithoutNothing(s: seq<Handle>, gone: seq<Handle>)
    requires forall h :: h in gone ==> h !in s
    ensures Without(s, gone) == s
  {
    if s != [] {
      WithoutNothing(s[..|s| - 1], gone);
      assert s[|s| - 1] in s;
    }
  }

  lemma {:induction false} WithoutTwice(s: seq<Handle>, a: seq<Handle>, b: seq<Handle>)
    ensures Without(Without(s, a), b) == Without(s, a + b)
  {
    if s != [] {
      WithoutTwice(s[..|s| - 1], a, b);
      var last := s[|s| - 1];
      if last !in a {
        WithoutConcat(Without(s[..|s| - 1], a), [last], b);
        assert Without([last], b) == if last in b then [] else [last];
      }
    }
  }

  lemma {:induction false} WithoutIn(s: seq<Handle>, gone: seq<Handle>)
    ensures forall h :: h in Without(s, gone) <==> h in s && h !in gone
  {
    if s != [] {
      WithoutIn(s[..|s| - 1], gone);
      assert s == s[..|s| - 1] + [s[|s| - 1]];
    }
  }

  lemma {:induction false} WithoutDistinct(s: seq<Handle>, gone: seq<Handle>)
    requires Distinct(s)
    ensures Distinct(Without(s, gone))
  {
    if s != [] {
      var n := |s| - 1;
      WithoutDistinct(s[..n], gone);
      WithoutIn(s[..n], gone);
      assert s[n] !in s[..n];
    }
  }

  lemma RemoveOneIsWithout(s: seq<Handle>, h: Handle)
    requires Distinct(s)
    ensures RemoveOne(s, h) == Without(s, [h])
  {
    if h in s {
      var i := FirstIndex(s, h);
      var front, back := s[..i], s[i + 1..];
      assert h !in front && h !in back by {
        DeletedDistinct(s, i);
        assert Deleted(s, i) == front + back;
      }
      assert s == (front + [h]) + back;
      WithoutConcat(front + [h], back, [h]);
      WithoutConcat(front, [h], [h]);
      WithoutNothing(front, [h]);
      WithoutNothing(back, [h]);
      assert Without([h], [h]) == [];
    } else {
      WithoutNothing(s, [h]);
    }
  }

  lemma {:induction false} RemoveEachIsWithout(s: seq<Handle>, gone: seq<Handle>)
    requires Distinct(s)
    ensures RemoveEach(s, gone) == Without(s, gone)
  {
    if gone == [] {
      WithoutNothing(s, gone);
    } else {
      var n := |gone| - 1;
      RemoveEachIsWithout(s, gone[..n]);
      WithoutDistinct(s, gone[..n]);
      RemoveOneIsWithout(Without(s, gone[..n]), gone[n]);
      WithoutTwice(s, gone[..n], [gone[n]]);
      assert gone == gone[..n] + [gone[n]];
    }
  }

  lemma DistinctParts(a: seq<Handle>, b: seq<Handle>)
    requires Distinct(a + b)
    ensures Distinct(a) && Distinct(b)
    ensures forall i, j :: 0 <= i < |a| && 0 <= j < |b| ==> a[i] != b[j]
  {
    var s := a + b;
    assert forall i :: 0 <= i < |a| ==> s[i] == a[i];
    assert forall j :: 0 <= j < |b| ==> s[|a| + j] == b[j];
  }

  lemma DistinctWithOneMore(s: seq<Handle>, h: Handle)
    requires Distinct(s) && h !in s
    ensures Distinct(s + [h])
  {
  }

  lemma WithoutOneMore(s: seq<Handle>, h: Handle, gone: seq<Handle>)
    ensures Without(s + [h], gone) == if h in gone then Without(s, gone) else Without(s, gone) + [h]
  {
    assert (s + [h])[..|s|] == s;
  }

  // ----- the laws -----

  /**
   * Registering appends to what is in effect exactly when the new object's address is not queued for
   * removal; when it is, the registration is lost.
   */
  lemma RegisterLaw(e: Event, h: Handle)
    requires WF(e) && h !in Owned(e)
    ensures WF(Registered(e, h))
    ensures Effective(Registered(e, h)) == if h in e.toRemove then Effective(e) else Effective(e) + [h]
    ensures Effective(Registered(e, h)) == Effective(e) + [h] <==> h !in e.toRemove
  {
    var owned := Owned(e);
    assert Owned(Registered(e, h)) == owned + [h];
    DistinctWithOneMore(owned, h);
    WithoutOneMore(owned, h, e.toRemove);
  }

  /** Unregistering takes exactly that handle out of what is in effect, wherever it waits. */
  lemma UnregisterLaw(e: Event, h: Handle)
    requires WF(e)
    ensures WF(Unregistered(e, h))
    ensures Effective(Unregistered(e, h)) == Without(Effective(e), [h])
  {
    if h in e.toAdd {
      DistinctParts(e.callbacks, e.toAdd);
      RemoveOneIsWithout(e.toAdd, h);
      WithoutNothing(e.callbacks, [h]);
      WithoutConcat(e.callbacks, e.toAdd, [h]);
      WithoutDistinct(Owned(e), [h]);
      WithoutTwice(Owned(e), [h], e.toRemove);
      WithoutTwice(Owned(e), e.toRemove, [h]);
      SameGone(Owned(e), [h] + e.toRemove, e.toRemove + [h]);
    } else {
      WithoutTwice(Owned(e), e.toRemove, [h]);
    }
  }

  lemma {:induction false} SameGone(s: seq<Handle>, a: seq<Handle>, b: seq<Handle>)
    requires forall h :: h in a <==> h in b
    ensures Without(s, a) == Without(s, b)
  {
    if s != [] {
      SameGone(s[..|s| - 1], a, b);
    }
  }

  /** Applying the queues changes nothing about what is in effect: it becomes the callback list. */
  lemma ApplyLaw(e: Event)
    requires WF(e)
    ensures WF(Applied(e))
    ensures Applied(e) == Event(Effective(e), [], [])
    ensures Effective(Applied(e)) == Effective(e)
  {
    RemoveEachIsWithout(Owned(e), e.toRemove);
    WithoutDistinct(Owned(e), e.toRemove);
    assert Owned(Applied(e)) == Effective(e);
    WithoutNothing(Effective(e), []);
  }

  // ----- ownership -----

  /** The callback objects that an operation deletes, in order. */
  function UnregisterFrees(e: Event, h: Handle): seq<Handle> {
    if h in e.toAdd then [h] else []
  }

  function RemovalFrees(s: seq<Handle>, gone: seq<Handle>): seq<Handle> {
    if gone == [] then []
    else
      var n := |gone| - 1;
      RemovalFrees(s, gone[..n]) + (if gone[n] in RemoveEach(s, gone[..n]) then [gone[n]] else [])
  }

  function ApplyFrees(e: Event): seq<Handle> {
    RemovalFrees(Owned(e), e.toRemove)
  }

  lemma RemoveOneConserves(s: seq<Handle>, h: Handle)
    ensures multiset(s) == multiset(RemoveOne(s, h)) + (if h in s then multiset{h} else multiset{})
  {
    if h in s {
      var i := FirstIndex(s, h);
      assert s == s[..i] + [h] + s[i + 1..];
    }
  }

  lemma {:induction false} RemovalConserves(s: seq<Handle>, gone: seq<Handle>)
    ensures multiset(s) == multiset(RemoveEach(s, gone)) + multiset(RemovalFrees(s, gone))
  {
    if gone != [] {
      var n := |gone| - 1;
      RemovalConserves(s, gone[..n]);
      RemoveOneConserves(RemoveEach(s, gone[..n]), gone[n]);
    }
  }

  lemma ApplyConserves(e: Event)
    ensures multiset(Owned(e)) == multiset(Applied(e).callbacks) + multiset(ApplyFrees(e))
    ensures Owned(Applied(e)) == Applied(e).callbacks
  {
    RemovalConserves(Owned(e), e.toRemove);
  }

  lemma {:induction false} PickedIn(s: seq<Handle>, ok: seq<bool>)
    ensures forall h :: h in Picked(s, ok) ==> h in s
    ensures Distinct(s) ==> Distinct(Picked(s, ok))
  {
    if s != [] {
      var n := |s| - 1;
      PickedIn(s[..n], ok);
      if Distinct(s) {
        assert s[n] !in s[..n];
        assert s[n] !in Picked(s[..n], ok);
      }
    }
  }

  lemma KeptWF(e: Event, addOk: seq<bool>)
    requires WF(e)
    ensures WF(Kept(e, addOk))
  {
    DistinctParts(e.callbacks, e.toAdd);
    PickedIn(e.toAdd, addOk);
    assert forall j :: 0 <= j < |Kept(e, addOk).toAdd| ==> Kept(e, addOk).toAdd[j] in e.toAdd;
  }

  lemma {:induction false} MissedConserves(s: seq<Handle>, addOk: seq<bool>)
    ensures multiset(s) == multiset(Picked(s, addOk)) + multiset(Missed(s, addOk))
  {
    if s != [] {
      var n := |s| - 1;
      MissedConserves(s[..n], addOk);
      assert multiset(s) == multiset(s[..n]) + multiset{s[n]} by {
        assert s == s[..n] + [s[n]];
      }
    }
  }

  lemma {:induction false} MissedNone(s: seq<Handle>, addOk: seq<bool>)
    ensures Missed(s, addOk) == [] <==> forall i :: 0 <= i < |s| ==> Granted(addOk, i)
  {
    if s != [] {
      MissedNone(s[..|s| - 1], addOk);
      if Missed(s, addOk) == [] {
        assert Granted(addOk, |s| - 1);
      }
    }
  }

  /**
   * Applying the queues loses no callback object, so that each is owned still or freed, if and only if
   * there is memory for every queued addition.
   */
  lemma AdditionsLost(e: Event, addOk: seq<bool>)
    ensures var e' := Applied(Kept(e, addOk));
            multiset(Owned(e))
            == multiset(Owned(e')) + multiset(ApplyFrees(Kept(e, addOk))) + multiset(Missed(e.toAdd, addOk))
    ensures Missed(e.toAdd, addOk) == [] <==> forall i :: 0 <= i < |e.toAdd| ==> Granted(addOk, i)
    ensures Kept(e, addOk) == e <==> Missed(e.toAdd, addOk) == []
  {
    ApplyConserves(Kept(e, addOk));
    PickedAll(e.toAdd, addOk);
    MissedConserves(e.toAdd, addOk);
    MissedNone(e.toAdd, addOk);
  }

  /** One step of a run. `Register` carries the address that the allocator handed out. */
  datatype Op = Register(h: Handle) | Unregister(h: Handle) | Apply(addOk: seq<bool>) | Clear(addOk: seq<bool>)

  function StepEvent(e: Event, op: Op): Event {
    match op
    case Register(h) => Registered(e, h)
    case Unregister(h) => Unregistered(e, h)
    case Apply(addOk) => Applied(Kept(e, addOk))
    case Clear(_) => EMPTY
  }

  function StepFrees(e: Event, op: Op): seq<Handle> {
    match op
    case Register(_) => []
    case Unregister(h) => UnregisterFrees(e, h)
    case Apply(addOk) => ApplyFrees(Kept(e, addOk))
    case Clear(addOk) => ApplyFrees(Kept(e, addOk)) + Applied(Kept(e, addOk)).callbacks
  }

  /** The callback objects that an operation loses for want of memory. */
  function StepLosses(e: Event, op: Op): seq<Handle> {
    if op.Apply? || op.Clear? then Missed(e.toAdd, op.addOk) else []
  }

  function StepAllocs(op: Op): seq<Handle> {
    if op.Register? then [op.h] else []
  }

  /** The allocator never hands out an address that is in use; it may hand out one that was freed. */
  ghost predicate OpOk(e: Event, op: Op) {
    op.Register? ==> op.h !in Owned(e)
  }

  /** What was owned, plus what is allocated, is what stays owned, plus what is freed or lost. */
  lemma StepConserves(e: Event, op: Op)
    requires WF(e) && OpOk(e, op)
    ensures WF(StepEvent(e, op))
    ensures multiset(Owned(e)) + multiset(StepAllocs(op))
         == multiset(Owned(StepEvent(e, op))) + multiset(StepFrees(e, op)) + multiset(StepLosses(e, op))
  {
    match op
    case Register(h) =>
      RegisterLaw(e, h);
    case Unregister(h) =>
      UnregisterLaw(e, h);
      RemoveOneConserves(e.toAdd, h);
    case Apply(addOk) =>
      KeptWF(e, addOk);
      ApplyLaw(Kept(e, addOk));
      AdditionsLost(e, addOk);
    case Clear(addOk) =>
      ApplyConserves(Kept(e, addOk));
      AdditionsLost(e, addOk);
  }

  /** What a step frees it owned, each object once: nothing is freed twice and nothing foreign is freed. */
  lemma StepFreesOwned(e: Event, op: Op)
    requires WF(e) && OpOk(e, op)
    ensures Distinct(StepFrees(e, op))
    ensures forall h :: h in StepFrees(e, op) ==> h in Owned(e) && h !in Owned(StepEvent(e, op))
  {
    if !op.Register? {
      var freed, rest, lost := StepFrees(e, op), Owned(StepEvent(e, op)), StepLosses(e, op);
      StepConserves(e, op);
      assert StepAllocs(op) == [];
      OncePerElement(Owned(e));
      SplitOff(Owned(e), rest, lost, freed);
    }
  }

  /** A list that is split off one without duplicates has none, and is gone from the rest. */
  lemma SplitOff(all: seq<Handle>, rest: seq<Handle>, lost: seq<Handle>, part: seq<Handle>)
    requires multiset(all) == multiset(rest) + multiset(part) + multiset(lost)
    requires forall h :: multiset(all)[h] <= 1
    ensures Distinct(part) && forall h :: h in part ==> h in all && h !in rest
  {
    PartOfDistinct(multiset(all), multiset(rest) + multiset(lost), multiset(part));
    forall i, j | 0 <= i < j < |part|
      ensures part[i] != part[j]
    {
      if part[i] == part[j] {
        TwiceCounts(part, i, j);
      }
    }
    forall h | h in part
      ensures h in all && h !in rest
    {
      assert h in multiset(part);
      assert h in multiset(all) && h !in multiset(rest);
    }
  }

  /** What is split off a multiset without duplicates has none, and is gone from the rest. */
  lemma PartOfDistinct(all: multiset<Handle>, rest: multiset<Handle>, part: multiset<Handle>)
    requires all == rest + part && forall h :: all[h] <= 1
    ensures forall h :: part[h] <= 1
    ensures forall h :: h in part ==> h in all && h !in rest
  {
    forall h
      ensures part[h] <= 1 && (h in part ==> h in all && h !in rest)
    {
      assert all[h] == rest[h] + part[h];
    }
  }

  lemma {:induction false} OncePerElement(s: seq<Handle>)
    requires Distinct(s)
    ensures forall h :: multiset(s)[h] <= 1
  {
    if s != [] {
      var n := |s| - 1;
      OncePerElement(s[..n]);
      assert s == s[..n] + [s[n]];
      assert s[n] !in s[..n];
      assert s[n] !in multiset(s[..n]);
    }
  }

  lemma TwiceCounts(s: seq<Handle>, i: nat, j: nat)
    requires i < j < |s| && s[i] == s[j]
    ensures multiset(s)[s[i]] >= 2
  {
    assert s == s[..i] + [s[i]] + s[i + 1..j] + [s[j]] + s[j + 1..];
  }

  // ----- runs -----

  function RunEvent(ops: seq<Op>): Event {
    if ops == [] then EMPTY else StepEvent(RunEvent(ops[..|ops| - 1]), ops[|ops| - 1])
  }

  function RunFrees(ops: seq<Op>): seq<Handle> {
    if ops == [] then [] else RunFrees(ops[..|ops| - 1]) + StepFrees(RunEvent(ops[..|ops| - 1]), ops[|ops| - 1])
  }

  function RunLosses(ops: seq<Op>): seq<Handle> {
    if ops == [] then [] else RunLosses(ops[..|ops| - 1]) + StepLosses(RunEvent(ops[..|ops| - 1]), ops[|ops| - 1])
  }

  function RunAllocs(ops: seq<Op>): seq<Handle> {
    if ops == [] then [] else RunAllocs(ops[..|ops| - 1]) + StepAllocs(ops[|ops| - 1])
  }

  ghost predicate RunOk(ops: seq<Op>) {
    ops != [] ==> RunOk(ops[..|ops| - 1]) && OpOk(RunEvent(ops[..|ops| - 1]), ops[|ops| - 1])
  }

  /**
   * Over every run, every object ever issued is owned, in exactly one place, or was freed, exactly once, or
   * was lost for want of memory.
   */
  lemma {:induction false} RunConserves(ops: seq<Op>)
    requires RunOk(ops)
    ensures WF(RunEvent(ops))
    ensures multiset(RunAllocs(ops))
         == multiset(Owned(RunEvent(ops))) + (multiset(RunFrees(ops)) + multiset(RunLosses(ops)))
  {
    if ops != [] {
      var before, op := ops[..|ops| - 1], ops[|ops| - 1];
      var e := RunEvent(before);
      RunConserves(before);
      StepConserves(e, op);
      Balance(multiset(RunAllocs(before)), multiset(StepAllocs(op)),
              multiset(Owned(e)), multiset(Owned(StepEvent(e, op))),
              multiset(RunFrees(before)) + multiset(RunLosses(before)),
              multiset(StepFrees(e, op)) + multiset(StepLosses(e, op)));
    }
  }

  lemma Balance(issued: multiset<Handle>, alloc: multiset<Handle>, owned: multiset<Handle>, owned': multiset<Handle>,
                freed: multiset<Handle>, free: multiset<Handle>)
    requires issued == owned + freed && owned + alloc == owned' + free
    ensures issued + alloc == owned' + (freed + free)
  {
    forall h
      ensures (issued + alloc)[h] == (owned' + (freed + free))[h]
    {
      assert (owned + alloc)[h] == (owned' + free)[h];
    }
  }

  /** No address is ever handed out twice. */
  ghost predicate FreshRun(ops: seq<Op>) {
    Distinct(RunAllocs(ops))
  }

  /** Only addresses that a caller names can be queued for removal. */
  ghost predicate NamesIssued(ops: seq<Op>) {
    ops != [] ==>
      && NamesIssued(ops[..|ops| - 1])
      && (ops[|ops| - 1].Unregister? ==> ops[|ops| - 1].h in RunAllocs(ops[..|ops| - 1]))
  }

  /** When handles are never reused and callers unregister only what was issued, Register always appends. */
  lemma FreshRegisterAppends(ops: seq<Op>, h: Handle)
    requires RunOk(ops + [Register(h)]) && FreshRun(ops + [Register(h)]) && NamesIssued(ops)
    ensures Effective(RunEvent(ops + [Register(h)])) == Effective(RunEvent(ops)) + [h]
  {
    var all := ops + [Register(h)];
    assert all[..|all| - 1] == ops && all[|all| - 1] == Register(h);
    var e := RunEvent(ops);
    assert RunEvent(all) == Registered(e, h);
    RunConserves(ops);
    assert h !in e.toRemove by {
      assert RunAllocs(all) == RunAllocs(ops) + [h];
      LastIsNew(RunAllocs(ops), h);
      QueuedWereIssued(ops);
    }
    RegisterLaw(e, h);
  }

  lemma LastIsNew(s: seq<Handle>, h: Handle)
    requires Distinct(s + [h])
    ensures h !in s
  {
    var t := s + [h];
    assert t[|s|] == h && forall i :: 0 <= i < |s| ==> t[i] == s[i];
  }

  lemma {:induction false} QueuedWereIssued(ops: seq<Op>)
    requires NamesIssued(ops)
    ensures forall h :: h in RunEvent(ops).toRemove ==> h in RunAllocs(ops)
  {
    if ops != [] {
      QueuedWereIssued(ops[..|ops| - 1]);
    }
  }

  lemma RunExtended(ops: seq<Op>, op: Op)
    ensures RunEvent(ops + [op]) == StepEvent(RunEvent(ops), op)
    ensures RunOk(ops) && OpOk(RunEvent(ops), op) ==> RunOk(ops + [op])
  {
    assert (ops + [op])[..|ops|] == ops;
  }

  /** With a handle unregistered twice and its address handed out again, a registration is lost. */
  lemma ReusedAddressLosesRegistration()
    ensures var ops := [Register(1), Unregister(1), Unregister(1), Register(1)];
            RunOk(ops) && RunEvent(ops).toAdd == [1] && Effective(RunEvent(ops)) == []
  {
    var a, b, c := [Register(1)], [Register(1), Unregister(1)], [Register(1), Unregister(1), Unregister(1)];
    assert [] + [Register(1)] == a && a + [Unregister(1)] == b && b + [Unregister(1)] == c;
    assert c + [Register(1)] == [Register(1), Unregister(1), Unregister(1), Register(1)];
    RunExtended([], Register(1));
    assert RunEvent(a) == Event([], [1], []);
    RunExtended(a, Unregister(1));
    assert FirstIndex([1], 1) == 0;
    assert RunEvent(b) == EMPTY;
    RunExtended(b, Unregister(1));
    assert RunEvent(c) == Event([], [], [1]);
    RunExtended(c, Register(1));
  }

  /** The list in effect as the calls alone tell it: append, take out, leave alone, empty. */
  function Folded(ops: seq<Op>): seq<Handle> {
    if ops == [] then []
    else
      var before := Folded(ops[..|ops| - 1]);
      match ops[|ops| - 1]
      case Register(h) => before + [h]
      case Unregister(h) => Without(before, [h])
      case Apply(_) => before
      case Clear(_) => []
  }

  /** The step loses no registration: to an address queued for removal, or to a want of memory. */
  ghost predicate LosesNone(e: Event, op: Op) {
    match op
    case Register(h) => h !in e.toRemove
    case Unregister(_) => true
    case Apply(addOk) => forall i :: 0 <= i < |e.toAdd| ==> Granted(addOk, i)
    case Clear(_) => true
  }

  ghost predicate NoneLost(ops: seq<Op>) {
    ops != [] ==> NoneLost(ops[..|ops| - 1]) && LosesNone(RunEvent(ops[..|ops| - 1]), ops[|ops| - 1])
  }

  /** The list in effect follows the calls after each of them. */
  ghost predicate Follows(ops: seq<Op>) {
    (ops != [] ==> Follows(ops[..|ops| - 1])) && Effective(RunEvent(ops)) == Folded(ops)
  }

  /** As long as no registration is lost, what waits to be added does not wait to be removed. */
  lemma {:induction false} QueuesApart(ops: seq<Op>)
    requires RunOk(ops) && NoneLost(ops)
    ensures forall h :: h in RunEvent(ops).toAdd ==> h !in RunEvent(ops).toRemove
  {
    if ops != [] {
      var before, op := ops[..|ops| - 1], ops[|ops| - 1];
      QueuesApart(before);
      if op.Unregister? && op.h in RunEvent(before).toAdd {
        var s := RunEvent(before).toAdd;
        assert forall h :: h in RemoveOne(s, op.h) ==> h in s;
      }
    }
  }

  /** When nothing waits for both, an application changes the list in effect exactly when an addition is missed. */
  lemma ApplyExactly(e: Event, addOk: seq<bool>)
    requires WF(e) && forall h :: h in e.toAdd ==> h !in e.toRemove
    ensures Effective(Applied(Kept(e, addOk))) == Effective(e) <==> LosesNone(e, Apply(addOk))
  {
    var k := Kept(e, addOk);
    var front := Without(e.callbacks, e.toRemove);
    KeptWF(e, addOk);
    ApplyLaw(k);
    assert Effective(e) == front + e.toAdd by {
      WithoutConcat(e.callbacks, e.toAdd, e.toRemove);
      WithoutNothing(e.toAdd, e.toRemove);
    }
    assert Effective(k) == front + k.toAdd by {
      PickedIn(e.toAdd, addOk);
      WithoutConcat(e.callbacks, k.toAdd, e.toRemove);
      WithoutNothing(k.toAdd, e.toRemove);
    }
    PickedAll(e.toAdd, addOk);
    SameFront(front, e.toAdd, k.toAdd);
  }

  lemma SameFront(front: seq<Handle>, a: seq<Handle>, b: seq<Handle>)
    ensures front + a == front + b <==> a == b
  {
    if front + a == front + b {
      assert (front + a)[|front|..] == a && (front + b)[|front|..] == b;
    }
  }

  lemma FollowsStep(e: Event, op: Op)
    requires WF(e) && OpOk(e, op) && forall h :: h in e.toAdd ==> h !in e.toRemove
    ensures match op
            case Register(h) => Effective(StepEvent(e, op)) == Effective(e) + [h] <==> LosesNone(e, op)
            case Unregister(h) => Effective(StepEvent(e, op)) == Without(Effective(e), [h])
            case Apply(addOk) => Effective(StepEvent(e, op)) == Effective(e) <==> LosesNone(e, op)
            case Clear(_) => Effective(StepEvent(e, op)) == []
  {
    match op
    case Register(h) => RegisterLaw(e, h);
    case Unregister(h) => UnregisterLaw(e, h);
    case Apply(addOk) => ApplyExactly(e, addOk);
    case Clear(_) =>
  }

  /** Throughout a run the list in effect follows the calls if and only if no registration is lost. */
  lemma {:induction false} FollowsUnlessLost(ops: seq<Op>)
    requires RunOk(ops)
    ensures Follows(ops) <==> NoneLost(ops)
  {
    if ops != [] {
      var before, op := ops[..|ops| - 1], ops[|ops| - 1];
      FollowsUnlessLost(before);
      if NoneLost(before) {
        RunConserves(before);
        QueuesApart(before);
        FollowsStep(RunEvent(before), op);
      }
    }
  }

  lemma WithoutOut(s: seq<Handle>, gone: seq<Handle>, h: Handle)
    requires h !in s
    ensures h !in Without(s, gone)
  {
    WithoutIn(s, gone);
  }

  /** Only its own registration brings a handle into effect. */
  lemma StaysOut(e: Event, op: Op, h: Handle)
    requires WF(e) && OpOk(e, op) && h !in Effective(e) && op != Op.Register(h)
    ensures h !in Effective(StepEvent(e, op))
  {
    match op
    case Register(g) => RegisterLaw(e, g);
    case Unregister(g) => UnregisterLaw(e, g); WithoutOut(Effective(e), [g], h);
    case Apply(addOk) =>
      KeptWF(e, addOk);
      ApplyLaw(Kept(e, addOk));
      PickedIn(e.toAdd, addOk);
      WithoutIn(Owned(e), e.toRemove);
      WithoutIn(Owned(Kept(e, addOk)), e.toRemove);
    case Clear(_) =>
  }

  /** A handle that was unregistered is not in effect again, until it is registered again. */
  lemma {:induction false} UnregisteredStaysOut(ops: seq<Op>, q: nat, h: Handle)
    requires RunOk(ops) && q < |ops| && ops[q] == Op.Unregister(h)
    requires forall r :: q < r < |ops| ==> ops[r] != Op.Register(h)
    ensures h !in Effective(RunEvent(ops))
  {
    var before, op := ops[..|ops| - 1], ops[|ops| - 1];
    RunConserves(before);
    if q == |ops| - 1 {
      UnregisterLaw(RunEvent(before), h);
      WithoutIn(Effective(RunEvent(before)), [h]);
    } else {
      UnregisteredStaysOut(before, q, h);
      StaysOut(RunEvent(before), op, h);
    }
  }

  /** Every application of the run finds memory for the additions queued. */
  ghost predicate MemoryFound(ops: seq<Op>) {
    ops != [] ==>
      && MemoryFound(ops[..|ops| - 1])
      && (ops[|ops| - 1].Apply? ==> LosesNone(RunEvent(ops[..|ops| - 1]), ops[|ops| - 1]))
  }

  /**
   * With memory for every addition, handles that are never reused, and callers that unregister only what was
   * issued, no registration is lost.
   */
  lemma {:induction false} FreshRunLosesNone(ops: seq<Op>)
    requires RunOk(ops) && FreshRun(ops) && NamesIssued(ops) && MemoryFound(ops)
    ensures NoneLost(ops)
  {
    if ops != [] {
      var before, op := ops[..|ops| - 1], ops[|ops| - 1];
      DistinctParts(RunAllocs(before), StepAllocs(op));
      FreshRunLosesNone(before);
      if op.Register? {
        LastIsNew(RunAllocs(before), op.h);
        QueuedWereIssued(before);
      }
    }
  }

  // ----- what handlers do while they are being called -----

  datatype Request = AskRegister(alloc: Handle) | AskUnregister(h: Handle)

  function Requested(e: Event, r: Request): Event {
    match r
    case AskRegister(alloc) => Registered(e, alloc)
    case AskUnregister(h) => Unregistered(e, h)
  }

  function AfterRequests(e: Event, rs: seq<Request>): Event {
    if rs == [] then e else Requested(AfterRequests(e, rs[..|rs| - 1]), rs[|rs| - 1])
  }

  ghost predicate RequestsOk(e: Event, rs: seq<Request>) {
    rs != [] ==>
      && RequestsOk(e, rs[..|rs| - 1])
      && (rs[|rs| - 1].AskRegister? ==> rs[|rs| - 1].alloc !in Owned(AfterRequests(e, rs[..|rs| - 1])))
  }

  /** What the handler of call `i` asks for; handlers beyond the script ask for nothing. */
  function Asks(script: seq<seq<Request>>, i: nat): seq<Request> {
    if i < |script| then script[i] else []
  }

  /** The event after the handlers of the first `n` calls have run. */
  function AfterCalls(e: Event, script: seq<seq<Request>>, n: nat): Event {
    if n == 0 then e else AfterRequests(AfterCalls(e, script, n - 1), Asks(script, n - 1))
  }

  ghost predicate CallOk(e: Event, script: seq<seq<Request>>, i: nat) {
    RequestsOk(AfterCalls(e, script, i), Asks(script, i))
  }

  ghost predicate CallsOk(e: Event, script: seq<seq<Request>>, n: nat) {
    forall i {:trigger CallOk(e, script, i)} :: 0 <= i < n ==> CallOk(e, script, i)
  }

  lemma {:induction false} RequestsKeepCallbacks(e: Event, rs: seq<Request>)
    requires WF(e) && RequestsOk(e, rs)
    ensures WF(AfterRequests(e, rs))
    ensures AfterRequests(e, rs).callbacks == e.callbacks
  {
    if rs != [] {
      var before, r := rs[..|rs| - 1], rs[|rs| - 1];
      RequestsKeepCallbacks(e, before);
      match r
      case AskRegister(alloc) => RegisterLaw(AfterRequests(e, before), alloc);
      case AskUnregister(h) => UnregisterLaw(AfterRequests(e, before), h);
    }
  }

  /** Handlers cannot touch the list that is being called. */
  lemma {:induction false} CallsKeepCallbacks(e: Event, script: seq<seq<Request>>, n: nat)
    requires WF(e) && CallsOk(e, script, n)
    ensures WF(AfterCalls(e, script, n))
    ensures AfterCalls(e, script, n).callbacks == e.callbacks
  {
    if n > 0 {
      CallsKeepCallbacks(e, script, n - 1);
      assert CallOk(e, script, n - 1);
      RequestsKeepCallbacks(AfterCalls(e, script, n - 1), Asks(script, n - 1));
    }
  }

  /** The list in effect after a sequence of requests, one at a time. */
  function Replayed(s: seq<Handle>, rs: seq<Request>): seq<Handle> {
    if rs == [] then s
    else
      var before := Replayed(s, rs[..|rs| - 1]);
      match rs[|rs| - 1]
      case AskRegister(alloc) => before + [alloc]
      case AskUnregister(h) => Without(before, [h])
  }

  /** Requests whose new addresses are not queued for removal replay on the list in effect. */
  ghost predicate RequestsFresh(e: Event, rs: seq<Request>) {
    rs != [] ==>
      && RequestsFresh(e, rs[..|rs| - 1])
      && (rs[|rs| - 1].AskRegister? ==> rs[|rs| - 1].alloc !in AfterRequests(e, rs[..|rs| - 1]).toRemove)
  }

  /** What handlers ask for during a Raise is what the next Raise will see. */
  lemma {:induction false} RequestsReplay(e: Event, rs: seq<Request>)
    requires WF(e) && RequestsOk(e, rs) && RequestsFresh(e, rs)
    ensures WF(AfterRequests(e, rs))
    ensures Effective(AfterRequests(e, rs)) == Replayed(Effective(e), rs)
  {
    if rs != [] {
      var before, r := rs[..|rs| - 1], rs[|rs| - 1];
      RequestsReplay(e, before);
      match r
      case AskRegister(alloc) => RegisterLaw(AfterRequests(e, before), alloc);
      case AskUnregister(h) => UnregisterLaw(AfterRequests(e, before), h);
    }
  }

  /** `s` after the requests of the handlers of the first `n` calls, one at a time. */
  function ReplayedCalls(s: seq<Handle>, script: seq<seq<Request>>, n: nat): seq<Handle> {
    if n == 0 then s else Replayed(ReplayedCalls(s, script, n - 1), Asks(script, n - 1))
  }

  ghost predicate CallFresh(e: Event, script: seq<seq<Request>>, i: nat) {
    RequestsFresh(AfterCalls(e, script, i), Asks(script, i))
  }

  ghost predicate CallsFresh(e: Event, script: seq<seq<Request>>, n: nat) {
    forall i {:trigger CallFresh(e, script, i)} :: 0 <= i < n ==> CallFresh(e, script, i)
  }

  /** The first `n` calls have left exactly what their handlers asked for. */
  ghost predicate UpToDate(e: Event, script: seq<seq<Request>>, n: nat, s: seq<Handle>) {
    WF(AfterCalls(e, script, n)) && Effective(AfterCalls(e, script, n)) == s
  }

  lemma CallReplays(e: Event, script: seq<seq<Request>>, i: nat, s: seq<Handle>)
    requires UpToDate(e, script, i, ReplayedCalls(s, script, i)) && CallOk(e, script, i) && CallFresh(e, script, i)
    ensures UpToDate(e, script, i + 1, ReplayedCalls(s, script, i + 1))
  {
    RequestsReplay(AfterCalls(e, script, i), Asks(script, i));
  }

  /** The list in effect after `n` calls is the replay of everything their handlers asked for. */
  lemma {:induction false} CallsReplay(e: Event, script: seq<seq<Request>>, n: nat)
    requires WF(e) && CallsOk(e, script, n) && CallsFresh(e, script, n)
    ensures UpToDate(e, script, n, ReplayedCalls(Effective(e), script, n))
  {
    if n > 0 {
      var i: nat := n - 1;
      CallsReplay(e, script, i);
      assert CallOk(e, script, i) && CallFresh(e, script, i);
      CallReplays(e, script, i, Effective(e));
    }
  }

  /** What a Raise leaves for the next one: its own list, on which the handlers' requests are replayed. */
  lemma NextRaiseSees(e: Event, script: seq<seq<Request>>, n: nat)
    requires WF(e) && CallsOk(Applied(e), script, n) && CallsFresh(Applied(e), script, n)
    ensures var e' := Applied(AfterCalls(Applied(e), script, n));
            WF(e') && Effective(e') == ReplayedCalls(Effective(e), script, n)
  {
    ApplyLaw(e);
    CallsReplay(Applied(e), script, n);
    ApplyLaw(AfterCalls(Applied(e), script, n));
  }

  function Joined(rows: seq<seq<Request>>): seq<Request> {
    if rows == [] then [] else Joined(rows[..|rows| - 1]) + rows[|rows| - 1]
  }

  lemma {:induction false} ReplayedConcat(s: seq<Handle>, a: seq<Request>, b: seq<Request>)
    ensures Replayed(s, a + b) == Replayed(Replayed(s, a), b)
  {
    if b == [] {
      assert a + b == a;
    } else {
      assert (a + b)[..|a + b| - 1] == a + b[..|b| - 1];
      ReplayedConcat(s, a, b[..|b| - 1]);
    }
  }

  /** Call `i` of a Raise runs row `i` of the script: together the rows are replayed from the first on. */
  lemma {:induction false} RowsReplayed(s: seq<Handle>, script: seq<seq<Request>>, n: nat)
    requires n <= |script|
    ensures ReplayedCalls(s, script, n) == Replayed(s, Joined(script[..n]))
  {
    if n > 0 {
      RowsReplayed(s, script, n - 1);
      assert script[..n][..n - 1] == script[..n - 1];
      ReplayedConcat(s, Joined(script[..n - 1]), script[n - 1]);
    }
  }

  /** Handlers beyond the script ask for nothing. */
  lemma {:induction false} NoRowsLeft(s: seq<Handle>, script: seq<seq<Request>>, n: nat)
    requires |script| <= n
    ensures ReplayedCalls(s, script, n) == Replayed(s, Joined(script))
  {
    if n == |script| {
      RowsReplayed(s, script, n);
      assert script[..n] == script;
    } else {
      NoRowsLeft(s, script, n - 1);
    }
  }

  /** Handlers that unregister only what the event owns at that moment. */
  ghost predicate UnregistersOwned(e: Event, rs: seq<Request>) {
    rs != [] ==>
      && UnregistersOwned(e, rs[..|rs| - 1])
      && (rs[|rs| - 1].AskUnregister? ==> rs[|rs| - 1].h in Owned(AfterRequests(e, rs[..|rs| - 1])))
  }

  /** Such handlers never queue an address that a registration could receive. */
  lemma {:induction false} OwnedIsFresh(e: Event, rs: seq<Request>)
    requires WF(e) && RequestsOk(e, rs) && UnregistersOwned(e, rs)
    requires forall h :: h in e.toRemove ==> h in e.callbacks
    ensures RequestsFresh(e, rs) && AfterRequests(e, rs).callbacks == e.callbacks
    ensures forall h :: h in AfterRequests(e, rs).toRemove ==> h in e.callbacks
  {
    RequestsKeepCallbacks(e, rs);
    if rs != [] {
      OwnedIsFresh(e, rs[..|rs| - 1]);
    }
  }

  // ----- what handlers free -----

  function RequestFrees(e: Event, rs: seq<Request>): seq<Handle> {
    if rs == [] then []
    else
      var n := |rs| - 1;
      RequestFrees(e, rs[..n])
      + (if rs[n].AskUnregister? then UnregisterFrees(AfterRequests(e, rs[..n]), rs[n].h) else [])
  }

  function CallFrees(e: Event, script: seq<seq<Request>>, n: nat): seq<Handle> {
    if n == 0 then []
    else CallFrees(e, script, n - 1) + RequestFrees(AfterCalls(e, script, n - 1), Asks(script, n - 1))
  }

  lemma {:induction false} RequestsFreeOthers(e: Event, rs: seq<Request>)
    requires WF(e) && RequestsOk(e, rs)
    ensures forall h :: h in RequestFrees(e, rs) ==> h !in e.callbacks
  {
    if rs != [] {
      var e' := AfterRequests(e, rs[..|rs| - 1]);
      RequestsFreeOthers(e, rs[..|rs| - 1]);
      RequestsKeepCallbacks(e, rs[..|rs| - 1]);
      DistinctParts(e'.callbacks, e'.toAdd);
    }
  }

  /** Handlers free no callback of the list that is being called. */
  lemma {:induction false} CallsFreeOthers(e: Event, script: seq<seq<Request>>, n: nat)
    requires WF(e) && CallsOk(e, script, n)
    ensures forall h :: h in CallFrees(e, script, n) ==> h !in e.callbacks
  {
    if n > 0 {
      CallsFreeOthers(e, script, n - 1);
      CallsKeepCallbacks(e, script, n - 1);
      assert CallOk(e, script, n - 1);
      RequestsFreeOthers(AfterCalls(e, script, n - 1), Asks(script, n - 1));
    }
  }
}
