/**
 * Many threads on one event: a transition system with the recursive lock of XnAutoCSLocker. A step is
 * one action of one thread; any thread may act next. Handlers run inside a Raise and may register and
 * unregister on the same event, but do not raise or clear it.
 */
module XnEventThreads {
  import opened XnListT
  import opened XnEventSpec

  type Thread = nat

  datatype Owner = Nobody | By(t: Thread)

  /** Where a call stands: before its lock, with the lock, in the raise loop, or about to unlock. */
  datatype Pc = WantLock | Locked | Looping | Finished

  datatype Frame =
    | RegisterFrame(pc: Pc, h: Handle)
    | UnregisterFrame(pc: Pc, h: Handle)
    | ClearFrame(pc: Pc)
    | RaiseFrame(pc: Pc, i: nat, inHandler: bool, failed: bool, entry: seq<Handle>, calls: seq<Handle>)

  /** `entry` of a raise is the list it found when it applied the queues; `failed` when a handler ended it. */
  datatype Report = Report(thread: Thread, entry: seq<Handle>, calls: seq<Handle>, failed: bool)

  datatype State = State(
    event: Event,
    owner: Owner,
    depth: nat,
    stacks: map<Thread, seq<Frame>>,
    inFlight: map<Handle, Thread>,
    allocs: seq<Handle>,
    frees: seq<Handle>,
    losses: seq<Handle>,
    reports: seq<Report>)

  const INIT := State(EMPTY, Nobody, 0, map[], map[], [], [], [], [])

  datatype Action =
    | BeginRegister(h: Handle)
    | BeginUnregister(h: Handle)
    | BeginRaise
    | BeginClear
    | Lock
    | Work(addOk: seq<bool>)
    | WorkFails
    | Call
    | Return(ok: bool)
    | Unlock

  function Stack(s: State, t: Thread): seq<Frame> {
    if t in s.stacks then s.stacks[t] else []
  }

  function Push(s: State, t: Thread, f: Frame): State {
    s.(stacks := s.stacks[t := Stack(s, t) + [f]])
  }

  function Top(s: State, t: Thread): Frame
    requires Stack(s, t) != []
  {
    Stack(s, t)[|Stack(s, t)| - 1]
  }

  function SetTop(s: State, t: Thread, f: Frame): State
    requires Stack(s, t) != []
  {
    s.(stacks := s.stacks[t := Stack(s, t)[|Stack(s, t)| - 1 := f]])
  }

  function Pop(s: State, t: Thread): State
    requires Stack(s, t) != []
  {
    s.(stacks := s.stacks[t := Stack(s, t)[..|Stack(s, t)| - 1]])
  }

  function WithPc(f: Frame, pc: Pc): Frame {
    match f
    case RegisterFrame(_, h) => RegisterFrame(pc, h)
    case UnregisterFrame(_, h) => UnregisterFrame(pc, h)
    case ClearFrame(_) => ClearFrame(pc)
    case RaiseFrame(_, i, inHandler, failed, entry, calls) => RaiseFrame(pc, i, inHandler, failed, entry, calls)
  }

  /** The thread runs client code: outside the event, or in a handler that is being called. */
  predicate InClient(s: State, t: Thread) {
    Stack(s, t) == [] || (Top(s, t).RaiseFrame? && Top(s, t).inHandler)
  }

  predicate Enabled(s: State, t: Thread, a: Action) {
    match a
    case BeginRegister(h) => InClient(s, t) && h !in Owned(s.event) && h !in s.inFlight
    case BeginUnregister(_) => InClient(s, t)
    case BeginRaise => Stack(s, t) == []
    case BeginClear => Stack(s, t) == []
    case Lock => Stack(s, t) != [] && Top(s, t).pc == WantLock && (s.owner == Nobody || s.owner == By(t))
    case Work(_) =>
      Stack(s, t) != [] && (Top(s, t).pc == Locked || (Top(s, t).pc == Looping && RaiseDone(s, Top(s, t))))
    case WorkFails => Stack(s, t) != [] && Top(s, t).pc == Locked && NeedsNode(s.event, Top(s, t))
    case Call =>
      && Stack(s, t) != [] && Top(s, t).pc == Looping && Top(s, t).RaiseFrame?
      && !Top(s, t).inHandler && !Top(s, t).failed && Top(s, t).i < |s.event.callbacks|
    case Return(_) => Stack(s, t) != [] && Top(s, t).pc == Looping && Top(s, t).RaiseFrame? && Top(s, t).inHandler
    case Unlock => Stack(s, t) != [] && Top(s, t).pc == Finished && s.depth > 0
  }

  /** The call queues something, for which there may be no memory. */
  predicate NeedsNode(e: Event, f: Frame) {
    f.RegisterFrame? || (f.UnregisterFrame? && f.h !in e.toAdd)
  }

  /** The loop condition of Raise fails, or a handler has failed. */
  predicate RaiseDone(s: State, f: Frame) {
    f.RaiseFrame? && !f.inHandler && (f.failed || f.i >= |s.event.callbacks|)
  }

  function Do(s: State, t: Thread, a: Action): State
    requires Enabled(s, t, a)
  {
    match a
    case BeginRegister(h) =>
      // the callback object is allocated before the lock is taken
      Push(s, t, RegisterFrame(WantLock, h)).(inFlight := s.inFlight[h := t], allocs := s.allocs + [h])
    case BeginUnregister(h) =>
      Push(s, t, UnregisterFrame(WantLock, h))
    case BeginRaise =>
      Push(s, t, RaiseFrame(WantLock, 0, false, false, [], []))
    case BeginClear =>
      Push(s, t, ClearFrame(WantLock))
    case Lock =>
      var f := Top(s, t);
      SetTop(s, t, WithPc(f, Locked)).(owner := By(t), depth := s.depth + 1)
    case Work(addOk) =>
      DoWork(s, t, Top(s, t), addOk)
    case WorkFails =>
      // the callback object that could not be queued is deleted; nobody else knows it yet
      var f := Top(s, t);
      var s' := SetTop(s, t, WithPc(f, Finished));
      if f.RegisterFrame? then s'.(inFlight := s.inFlight - {f.h}, frees := s.frees + [f.h]) else s'
    case Call =>
      var f := Top(s, t);
      SetTop(s, t, f.(inHandler := true, calls := f.calls + [s.event.callbacks[f.i]]))
    case Return(ok) =>
      // a handler that returns nothing counts as one that returns OK
      var f := Top(s, t);
      SetTop(s, t, if ok then f.(inHandler := false, i := f.i + 1) else f.(inHandler := false, failed := true))
    case Unlock =>
      Pop(s, t).(depth := s.depth - 1, owner := if s.depth == 1 then Nobody else s.owner)
  }

  /** What a call does with the lock held; `addOk` tells which queued additions find memory. */
  function DoWork(s: State, t: Thread, f: Frame, addOk: seq<bool>): State
    requires Stack(s, t) != []
  {
    var e := Applied(Kept(s.event, addOk));
    match f
    case RegisterFrame(_, h) =>
      SetTop(s, t, WithPc(f, Finished)).(event := Registered(s.event, h), inFlight := s.inFlight - {h})
    case UnregisterFrame(_, h) =>
      SetTop(s, t, WithPc(f, Finished)).(
        event := Unregistered(s.event, h), frees := s.frees + UnregisterFrees(s.event, h))
    case ClearFrame(_) =>
      SetTop(s, t, WithPc(f, Finished)).(
        event := EMPTY, frees := s.frees + (ApplyFrees(Kept(s.event, addOk)) + e.callbacks),
        losses := s.losses + Missed(s.event.toAdd, addOk))
    case RaiseFrame(Locked, _, _, _, _, _) =>
      SetTop(s, t, WithPc(f, Looping).(entry := e.callbacks)).(
        event := e, frees := s.frees + ApplyFrees(Kept(s.event, addOk)),
        losses := s.losses + Missed(s.event.toAdd, addOk))
    case RaiseFrame(_, _, _, failed, entry, calls) =>
      SetTop(s, t, WithPc(f, Finished)).(
        event := e, frees := s.frees + ApplyFrees(Kept(s.event, addOk)),
        losses := s.losses + Missed(s.event.toAdd, addOk),
        reports := s.reports + [Report(t, entry, calls, failed)])
  }

  // ----- what every step keeps -----

  function Holds(f: Frame): nat {
    if f.pc == WantLock then 0 else 1
  }

  /** How often a thread holds the lock. */
  function Held(st: seq<Frame>): nat {
    if st == [] then 0 else Held(st[..|st| - 1]) + Holds(st[|st| - 1])
  }

  predicate FrameOk(e: Event, f: Frame) {
    match f
    case RegisterFrame(pc, _) => pc != Looping
    case UnregisterFrame(pc, _) => pc != Looping
    case ClearFrame(pc) => pc != Looping
    case RaiseFrame(pc, i, inHandler, failed, entry, calls) =>
      match pc
      case WantLock => i == 0 && !inHandler && !failed && calls == []
      case Locked => i == 0 && !inHandler && !failed && calls == []
      case Looping =>
        && entry == e.callbacks && i <= |entry| && (inHandler || failed ==> i < |entry|) && !(inHandler && failed)
        && calls == entry[..if inHandler || failed then i + 1 else i]
      case Finished => !inHandler && CallsOf(entry, failed, i, calls)
  }

  /** Every callback was called or, when the handler of call `i` failed, those up to and including that one. */
  predicate CallsOf(entry: seq<Handle>, failed: bool, i: nat, calls: seq<Handle>) {
    if failed then i < |entry| && calls == entry[..i + 1] else i == |entry| && calls == entry
  }

  /** What a handler may call. */
  predicate MayNest(f: Frame) {
    f.RegisterFrame? || f.UnregisterFrame?
  }

  /** Only a handler that is being called can be interrupted by another call of its thread. */
  predicate StackOk(e: Event, st: seq<Frame>) {
    && |st| <= 2
    && (forall k :: 0 <= k < |st| ==> FrameOk(e, st[k]))
    && (|st| == 2 ==> st[0].RaiseFrame? && st[0].pc == Looping && st[0].inHandler && MayNest(st[1]))
  }

  /** A callback object that is allocated but not yet listed belongs to the thread that is registering it. */
  predicate FlightOk(s: State, t: Thread) {
    var st := Stack(s, t);
    (st != [] && st[|st| - 1].RegisterFrame? && st[|st| - 1].pc != Finished)
    ==> (st[|st| - 1].h in s.inFlight && s.inFlight[st[|st| - 1].h] == t)
  }

  predicate ThreadOk(s: State, t: Thread) {
    && StackOk(s.event, Stack(s, t))
    && Held(Stack(s, t)) == (if s.owner == By(t) then s.depth else 0)
    && FlightOk(s, t)
  }

  ghost predicate ReportOk(r: Report) {
    && Distinct(r.entry)
    && r.calls <= r.entry && (if r.failed then r.calls != [] else r.calls == r.entry)
  }

  /** Everything issued is listed, in flight or freed. */
  ghost predicate Accounts(s: State) {
    && (forall h :: h in s.inFlight ==> h !in Owned(s.event))
    && multiset(s.allocs)
       == multiset(Owned(s.event)) + multiset(s.inFlight.Keys) + multiset(s.frees) + multiset(s.losses)
  }

  ghost predicate Inv(s: State) {
    && WF(s.event)
    && (s.owner == Nobody <==> s.depth == 0)
    && (forall t :: ThreadOk(s, t))
    && Accounts(s)
    && (forall k :: 0 <= k < |s.reports| ==> ReportOk(s.reports[k]))
  }

  /** Whoever holds the lock in some frame is its owner: two threads never hold it together. */
  lemma HoldersOwn(s: State, t: Thread, k: nat)
    requires Inv(s) && k < |Stack(s, t)| && Stack(s, t)[k].pc != WantLock
    ensures s.owner == By(t)
  {
    assert ThreadOk(s, t);
    HeldPositive(Stack(s, t), k);
  }

  lemma {:induction false} HeldPositive(st: seq<Frame>, k: nat)
    requires k < |st| && st[k].pc != WantLock
    ensures Held(st) > 0
  {
    if k < |st| - 1 {
      HeldPositive(st[..|st| - 1], k);
    }
  }

  /** A thread all of whose frames wait is fine with any event. */
  lemma NothingHeld(st: seq<Frame>, e: Event, e': Event)
    requires Held(st) == 0 && StackOk(e, st)
    ensures StackOk(e', st)
  {
    forall k | 0 <= k < |st|
      ensures FrameOk(e', st[k])
    {
      if st[k].pc != WantLock {
        HeldPositive(st, k);
      }
      assert FrameOk(e, st[k]);
    }
  }

  lemma HeldOfTwo(st: seq<Frame>)
    requires |st| <= 2
    ensures Held(st) == (if |st| > 0 then Holds(st[0]) else 0) + (if |st| > 1 then Holds(st[1]) else 0)
  {
    if |st| == 2 {
      assert st[..1][..0] == [];
    }
  }

  /** The other threads are untouched by what one thread does to its stack, when the event stays. */
  lemma OthersSame(s: State, s': State, t: Thread)
    requires Inv(s)
    requires forall u :: u != t ==> Stack(s', u) == Stack(s, u)
    requires s'.event == s.event || s.owner == By(t)
    requires forall u :: u != t ==> (s'.owner == By(u) <==> s.owner == By(u))
    requires forall u :: u != t && s.owner == By(u) ==> s'.depth == s.depth
    requires forall h :: h in s.inFlight && s.inFlight[h] != t ==> h in s'.inFlight && s'.inFlight[h] == s.inFlight[h]
    ensures forall u :: u != t ==> ThreadOk(s', u)
  {
    forall u | u != t
      ensures ThreadOk(s', u)
    {
      assert ThreadOk(s, u);
      if s.owner == By(t) {
        NothingHeld(Stack(s, u), s.event, s'.event);
      }
    }
  }

  lemma BeginRegisterKeeps(s: State, t: Thread, h: Handle)
    requires Inv(s) && Enabled(s, t, BeginRegister(h))
    ensures Inv(Do(s, t, BeginRegister(h)))
  {
    var s' := Do(s, t, BeginRegister(h));
    OthersSame(s, s', t);
    BeginThread(s, s', t, RegisterFrame(WantLock, h));
    IssueAccounts(s, s', t, h);
  }

  lemma IssueAccounts(s: State, s': State, t: Thread, h: Handle)
    requires Accounts(s) && h !in Owned(s.event) && h !in s.inFlight
    requires s'.event == s.event && s'.inFlight == s.inFlight[h := t]
    requires s'.allocs == s.allocs + [h] && s'.frees == s.frees && s'.losses == s.losses
    ensures Accounts(s')
  {
    assert s'.inFlight.Keys == s.inFlight.Keys + {h};
    assert multiset(s'.inFlight.Keys) == multiset(s.inFlight.Keys) + multiset{h};
  }

  /** A call that begins without a new callback object changes the stack of its thread only. */
  lemma BeginKeeps(s: State, t: Thread, f: Frame)
    requires Inv(s) && InClient(s, t) && f.pc == WantLock && FrameOk(s.event, f)
    requires f.UnregisterFrame? || ((f.RaiseFrame? || f.ClearFrame?) && Stack(s, t) == [])
    ensures Inv(Push(s, t, f))
  {
    var s' := Push(s, t, f);
    OthersSame(s, s', t);
    BeginThread(s, s', t, f);
    assert Accounts(s');
  }

  /** A call that begins holds nothing yet, and may begin where client code runs. */
  lemma BeginThread(s: State, s': State, t: Thread, f: Frame)
    requires ThreadOk(s, t) && InClient(s, t) && f.pc == WantLock && FrameOk(s.event, f)
    requires MayNest(f) || Stack(s, t) == []
    requires f.RegisterFrame? ==> f.h in s'.inFlight && s'.inFlight[f.h] == t
    requires Stack(s', t) == Stack(s, t) + [f]
    requires s'.event == s.event && s'.owner == s.owner && s'.depth == s.depth
    ensures ThreadOk(s', t)
  {
    PushKeepsOrder(s.event, Stack(s, t), f);
  }

  lemma PushKeepsOrder(e: Event, st: seq<Frame>, f: Frame)
    requires StackOk(e, st) && f.pc == WantLock && FrameOk(e, f)
    requires st != [] ==> st[|st| - 1].RaiseFrame? && st[|st| - 1].inHandler && MayNest(f)
    ensures StackOk(e, st + [f])
    ensures Held(st + [f]) == Held(st)
  {
    assert (st + [f])[..|st|] == st;
  }

  lemma LockKeeps(s: State, t: Thread)
    requires Inv(s) && Enabled(s, t, Lock)
    ensures Inv(Do(s, t, Lock))
  {
    var s' := Do(s, t, Lock);
    OthersSame(s, s', t);
    assert ThreadOk(s, t);
    HeldOfTwo(Stack(s, t));
    HeldOfTwo(Stack(s', t));
  }

  lemma CallKeeps(s: State, t: Thread, a: Action)
    requires Inv(s) && Enabled(s, t, a) && (a.Call? || a.Return?)
    ensures Inv(Do(s, t, a))
  {
    var s' := Do(s, t, a);
    OthersSame(s, s', t);
    assert ThreadOk(s, t);
    HeldOfTwo(Stack(s, t));
    HeldOfTwo(Stack(s', t));
  }

  lemma UnlockKeeps(s: State, t: Thread)
    requires Inv(s) && Enabled(s, t, Unlock)
    ensures Inv(Do(s, t, Unlock))
  {
    var s' := Do(s, t, Unlock);
    assert ThreadOk(s, t);
    HoldersOwn(s, t, |Stack(s, t)| - 1);
    OthersSame(s, s', t);
    HeldOfTwo(Stack(s, t));
    HeldOfTwo(Stack(s', t));
  }

  /** The effect of Work on the event, as an operation of the event. */
  function WorkOp(f: Frame, addOk: seq<bool>): Op {
    match f
    case RegisterFrame(_, h) => Op.Register(h)
    case UnregisterFrame(_, h) => Op.Unregister(h)
    case ClearFrame(_) => Op.Clear(addOk)
    case RaiseFrame(_, _, _, _, _, _) => Apply(addOk)
  }

  lemma OnlyOwnerWorks(s: State, u: Thread, a: Action)
    requires Inv(s) && Enabled(s, u, a)
    ensures a.Work? ==> s.owner == By(u)
  {
    if a.Work? {
      HoldersOwn(s, u, |Stack(s, u)| - 1);
    }
  }

  lemma WorkIs(s: State, t: Thread, addOk: seq<bool>)
    requires Enabled(s, t, Work(addOk))
    ensures Do(s, t, Work(addOk)).event == StepEvent(s.event, WorkOp(Top(s, t), addOk))
    ensures Do(s, t, Work(addOk)).frees == s.frees + StepFrees(s.event, WorkOp(Top(s, t), addOk))
    ensures Do(s, t, Work(addOk)).losses == s.losses + StepLosses(s.event, WorkOp(Top(s, t), addOk))
    ensures Do(s, t, Work(addOk)).allocs == s.allocs
    ensures Do(s, t, Work(addOk)).inFlight
         == if Top(s, t).RegisterFrame? then s.inFlight - {Top(s, t).h} else s.inFlight
  {
  }

  lemma WorkEffect(s: State, t: Thread, addOk: seq<bool>)
    requires Inv(s) && Enabled(s, t, Work(addOk))
    ensures s.owner == By(t)
    ensures OpOk(s.event, WorkOp(Top(s, t), addOk))
    ensures WF(Do(s, t, Work(addOk)).event)
    ensures Top(s, t).RegisterFrame? ==> Top(s, t).h in s.inFlight && s.inFlight[Top(s, t).h] == t
  {
    assert ThreadOk(s, t);
    OnlyOwnerWorks(s, t, Work(addOk));
    WorkIs(s, t, addOk);
    StepConserves(s.event, WorkOp(Top(s, t), addOk));
  }

  lemma RegisterAccounts(s: State, s': State, h: Handle)
    requires Accounts(s) && h in s.inFlight && s'.inFlight == s.inFlight - {h}
    requires Owned(s'.event) == Owned(s.event) + [h]
    requires s'.allocs == s.allocs && s'.frees == s.frees && s'.losses == s.losses
    ensures Accounts(s')
  {
    assert s.inFlight.Keys == s'.inFlight.Keys + {h};
    assert multiset(s.inFlight.Keys) == multiset(s'.inFlight.Keys) + multiset{h};
  }

  /** What leaves the event is freed or lost. */
  lemma OtherAccounts(s: State, s': State, free: seq<Handle>, lost: seq<Handle>)
    requires Accounts(s) && s'.inFlight == s.inFlight && s'.allocs == s.allocs
    requires s'.frees == s.frees + free && s'.losses == s.losses + lost
    requires multiset(Owned(s.event)) == multiset(Owned(s'.event)) + multiset(free) + multiset(lost)
    ensures Accounts(s')
  {
    forall h | h in s.inFlight
      ensures h !in Owned(s'.event)
    {
      assert h !in multiset(Owned(s.event));
      assert h !in multiset(Owned(s'.event));
    }
  }

  lemma WorkAccounts(s: State, t: Thread, addOk: seq<bool>)
    requires Inv(s) && Enabled(s, t, Work(addOk))
    ensures Accounts(Do(s, t, Work(addOk)))
  {
    var s' := Do(s, t, Work(addOk));
    var op := WorkOp(Top(s, t), addOk);
    WorkEffect(s, t, addOk);
    WorkIs(s, t, addOk);
    if Top(s, t).RegisterFrame? {
      assert Owned(s'.event) == Owned(s.event) + [Top(s, t).h];
      RegisterAccounts(s, s', Top(s, t).h);
    } else {
      StepConserves(s.event, op);
      assert StepAllocs(op) == [];
      OtherAccounts(s, s', StepFrees(s.event, op), StepLosses(s.event, op));
    }
  }

  /** Replacing the frame on top by one in order keeps a stack in order when the list below is not touched. */
  lemma TopReplaced(e: Event, e': Event, st: seq<Frame>, f: Frame)
    requires StackOk(e, st) && st != [] && FrameOk(e', f)
    requires |st| == 2 ==> e'.callbacks == e.callbacks && MayNest(f)
    requires Holds(f) == Holds(st[|st| - 1])
    ensures StackOk(e', st[|st| - 1 := f])
    ensures Held(st[|st| - 1 := f]) == Held(st)
  {
    var st' := st[|st| - 1 := f];
    HeldOfTwo(st);
    HeldOfTwo(st');
    if |st| == 2 {
      assert FrameOk(e, st[0]);
    }
  }

  /** The frame that worked is in order again, and so is the handler frame below it, whose list did not change. */
  lemma WorkThread(s: State, t: Thread, addOk: seq<bool>)
    requires WF(s.event) && ThreadOk(s, t) && s.owner == By(t) && Enabled(s, t, Work(addOk))
    ensures ThreadOk(Do(s, t, Work(addOk)), t)
  {
    var s' := Do(s, t, Work(addOk));
    var st := Stack(s, t);
    var f := Top(s, t);
    assert FrameOk(s.event, f);
    KeptWF(s.event, addOk);
    ApplyLaw(Kept(s.event, addOk));
    TopReplaced(s.event, s'.event, st, Top(s', t));
  }

  /** A Raise that ends reports what its frame recorded. */
  lemma WorkReports(s: State, t: Thread, addOk: seq<bool>)
    requires WF(s.event) && ThreadOk(s, t) && Enabled(s, t, Work(addOk))
    requires forall k :: 0 <= k < |s.reports| ==> ReportOk(s.reports[k])
    ensures forall k :: 0 <= k < |Do(s, t, Work(addOk)).reports| ==> ReportOk(Do(s, t, Work(addOk)).reports[k])
  {
    assert FrameOk(s.event, Top(s, t));
    DistinctParts(s.event.callbacks, s.event.toAdd);
  }

  /** The event changes only in the hands of the owner of the lock. */
  lemma WorkKeeps(s: State, t: Thread, addOk: seq<bool>)
    requires Inv(s) && Enabled(s, t, Work(addOk))
    ensures Inv(Do(s, t, Work(addOk)))
  {
    assert ThreadOk(s, t);
    WorkEffect(s, t, addOk);
    WorkIs(s, t, addOk);
    WorkThread(s, t, addOk);
    WorkReports(s, t, addOk);
    WorkAccounts(s, t, addOk);
    OthersSame(s, Do(s, t, Work(addOk)), t);
  }

  lemma DiscardAccounts(s: State, s': State, h: Handle)
    requires Accounts(s) && h in s.inFlight
    requires s'.event == s.event && s'.allocs == s.allocs
    requires s'.inFlight == s.inFlight - {h} && s'.frees == s.frees + [h] && s'.losses == s.losses
    ensures Accounts(s')
  {
    assert s.inFlight.Keys == s'.inFlight.Keys + {h};
    assert multiset(s.inFlight.Keys) == multiset(s'.inFlight.Keys) + multiset{h};
  }

  /** A call that finds no memory leaves the event alone. */
  lemma WorkFailsKeeps(s: State, t: Thread)
    requires Inv(s) && Enabled(s, t, WorkFails)
    ensures Inv(Do(s, t, WorkFails))
  {
    var s' := Do(s, t, WorkFails);
    var f := Top(s, t);
    assert ThreadOk(s, t);
    OthersSame(s, s', t);
    TopReplaced(s.event, s.event, Stack(s, t), WithPc(f, Finished));
    if f.RegisterFrame? {
      DiscardAccounts(s, s', f.h);
    }
  }

  lemma StepKeeps(s: State, t: Thread, a: Action)
    requires Inv(s) && Enabled(s, t, a)
    ensures Inv(Do(s, t, a))
  {
    match a
    case BeginRegister(h) => BeginRegisterKeeps(s, t, h);
    case BeginUnregister(h) => BeginKeeps(s, t, UnregisterFrame(WantLock, h));
    case BeginRaise => BeginKeeps(s, t, RaiseFrame(WantLock, 0, false, false, [], []));
    case BeginClear => BeginKeeps(s, t, ClearFrame(WantLock));
    case Lock => LockKeeps(s, t);
    case Call => CallKeeps(s, t, a);
    case Return(_) => CallKeeps(s, t, a);
    case Unlock => UnlockKeeps(s, t);
    case Work(addOk) => WorkKeeps(s, t, addOk);
    case WorkFails => WorkFailsKeeps(s, t);
  }

  // ----- whole runs -----

  /** The state after a schedule, as far as its steps were enabled. */
  function Run(schedule: seq<(Thread, Action)>): State {
    if schedule == [] then INIT
    else
      var s := Run(schedule[..|schedule| - 1]);
      var (t, a) := schedule[|schedule| - 1];
      if Enabled(s, t, a) then Do(s, t, a) else s
  }

  lemma InitOk()
    ensures Inv(INIT)
  {
  }

  lemma {:induction false} RunOk(schedule: seq<(Thread, Action)>)
    ensures Inv(Run(schedule))
  {
    if schedule == [] {
      InitOk();
    } else {
      var (t, a) := schedule[|schedule| - 1];
      RunOk(schedule[..|schedule| - 1]);
      if Enabled(Run(schedule[..|schedule| - 1]), t, a) {
        StepKeeps(Run(schedule[..|schedule| - 1]), t, a);
      }
    }
  }

  /**
   * Snapshot semantics under every schedule: each raise that has ended called the list that was in effect
   * when it took the lock, every callback once and in registration order: all of it or, when a handler
   * failed, the part up to and including that handler.
   */
  lemma RaisesCallTheSnapshot(schedule: seq<(Thread, Action)>, k: nat)
    requires k < |Run(schedule).reports|
    ensures var r := Run(schedule).reports[k];
            && Distinct(r.entry) && r.calls <= r.entry
            && (if r.failed then r.calls != [] else r.calls == r.entry)
  {
    RunOk(schedule);
  }

  /** Mutual exclusion under every schedule. */
  lemma OneHolder(schedule: seq<(Thread, Action)>, t: Thread, u: Thread, k: nat, l: nat)
    requires k < |Stack(Run(schedule), t)| && Stack(Run(schedule), t)[k].pc != WantLock
    requires l < |Stack(Run(schedule), u)| && Stack(Run(schedule), u)[l].pc != WantLock
    ensures t == u
  {
    RunOk(schedule);
    HoldersOwn(Run(schedule), t, k);
    HoldersOwn(Run(schedule), u, l);
  }

  /** Under every schedule, a callback that is called is owned at that moment: it has not been freed. */
  lemma CalledIsAlive(schedule: seq<(Thread, Action)>, t: Thread)
    requires Enabled(Run(schedule), t, Call)
    ensures var s := Run(schedule);
            var h := s.event.callbacks[Top(s, t).i];
            h in Owned(s.event) && multiset(s.allocs)[h] == multiset(s.frees)[h] + multiset(s.losses)[h] + 1
  {
    RunOk(schedule);
    var s := Run(schedule);
    var h := s.event.callbacks[Top(s, t).i];
    assert Owned(s.event)[Top(s, t).i] == h;
    OncePerElement(Owned(s.event));
    assert h in multiset(Owned(s.event));
    assert h !in s.inFlight;
  }

  /** Under every schedule each object is listed once, or on its way to the list, or freed or lost. */
  lemma EveryCallbackAccounted(schedule: seq<(Thread, Action)>, h: Handle)
    ensures var s := Run(schedule);
            multiset(s.allocs)[h]
            == multiset(s.frees)[h] + multiset(s.losses)[h] + (if h in Owned(s.event) || h in s.inFlight then 1 else 0)
  {
    RunOk(schedule);
    var s := Run(schedule);
    OncePerElement(Owned(s.event));
    assert h in multiset(Owned(s.event)) <==> h in Owned(s.event);
    assert h in multiset(s.inFlight.Keys) <==> h in s.inFlight;
  }

  // ----- the one list that all threads see -----

  /** What a step does to the event, as an operation of the event. */
  function StepLog(s: State, t: Thread, a: Action): seq<Op> {
    if a.Work? && Enabled(s, t, a) then [WorkOp(Top(s, t), a.addOk)] else []
  }

  /** The operations that a schedule carries out, in the order in which their threads held the lock. */
  function Log(schedule: seq<(Thread, Action)>): seq<Op> {
    if schedule == [] then []
    else
      var before := schedule[..|schedule| - 1];
      var (t, a) := schedule[|schedule| - 1];
      Log(before) + StepLog(Run(before), t, a)
  }

  /** The event and a log it follows from. */
  ghost predicate Logged(e: Event, log: seq<Op>) {
    XnEventSpec.RunOk(log) && e == RunEvent(log)
  }

  lemma LogWork(s: State, t: Thread, addOk: seq<bool>, log: seq<Op>)
    requires Inv(s) && Logged(s.event, log) && Enabled(s, t, Work(addOk))
    ensures Logged(Do(s, t, Work(addOk)).event, log + [WorkOp(Top(s, t), addOk)])
  {
    WorkEffect(s, t, addOk);
    WorkIs(s, t, addOk);
    RunExtended(log, WorkOp(Top(s, t), addOk));
  }

  lemma LogStep(s: State, t: Thread, a: Action, log: seq<Op>)
    requires Inv(s) && Logged(s.event, log) && Enabled(s, t, a)
    ensures Logged(Do(s, t, a).event, log + StepLog(s, t, a))
  {
    match a
    case Work(addOk) => LogWork(s, t, addOk, log);
    case _ => assert log + [] == log;
  }

  /** The last step of a schedule. */
  lemma LastStep(schedule: seq<(Thread, Action)>)
    requires schedule != []
    ensures var s := Run(schedule[..|schedule| - 1]);
            var (t, a) := schedule[|schedule| - 1];
            && Run(schedule) == (if Enabled(s, t, a) then Do(s, t, a) else s)
            && Log(schedule) == Log(schedule[..|schedule| - 1]) + StepLog(s, t, a)
  {
  }

  /** Under every schedule the event is what its log, carried out by one thread, makes of it. */
  lemma {:induction false} EventIsLog(schedule: seq<(Thread, Action)>)
    ensures Logged(Run(schedule).event, Log(schedule))
  {
    if schedule != [] {
      var before := schedule[..|schedule| - 1];
      var (t, a) := schedule[|schedule| - 1];
      EventIsLog(before);
      RunOk(before);
      LastStep(schedule);
      if Enabled(Run(before), t, a) {
        LogStep(Run(before), t, a, Log(before));
      } else {
        assert Log(before) + [] == Log(before);
      }
    }
  }

  /** The thread has the lock for a Raise, and has not applied the queues yet. */
  predicate Entering(s: State, t: Thread) {
    Stack(s, t) != [] && Stack(s, t)[0].RaiseFrame? && Stack(s, t)[0].pc == Locked
  }

  /** The thread has applied the queues for a Raise, and has not returned from it. */
  predicate InRaise(s: State, t: Thread) {
    Stack(s, t) != [] && Stack(s, t)[0].RaiseFrame? && (Stack(s, t)[0].pc == Looping || Stack(s, t)[0].pc == Finished)
  }

  /** Between taking the lock and applying the queues nothing is logged, by any thread. */
  lemma NothingLogged(s: State, u: Thread, a: Action, t: Thread)
    requires Inv(s) && Enabled(s, u, a) && Entering(Do(s, u, a), t)
    ensures StepLog(s, u, a) == [] && (Entering(s, t) || (u == t && a == Lock))
  {
    assert ThreadOk(s, u) && ThreadOk(s, t);
    OnlyOwnerWorks(s, u, a);
    if Entering(s, t) {
      HoldersOwn(s, t, 0);
    }
  }

  predicate EnteringAt(schedule: seq<(Thread, Action)>, t: Thread, n: nat)
    requires n <= |schedule|
  {
    Entering(Run(schedule[..n]), t)
  }

  predicate InRaiseAt(schedule: seq<(Thread, Action)>, t: Thread, n: nat)
    requires n <= |schedule|
  {
    InRaise(Run(schedule[..n]), t)
  }

  /** The thread has had the lock for a Raise since step `l - 1`. */
  ghost predicate EnteringSince(schedule: seq<(Thread, Action)>, t: Thread, l: nat) {
    forall n {:trigger EnteringAt(schedule, t, n)} :: l <= n <= |schedule| ==> EnteringAt(schedule, t, n)
  }

  lemma EnteringStill(schedule: seq<(Thread, Action)>, t: Thread, l: nat)
    requires schedule != [] && EnteringSince(schedule[..|schedule| - 1], t, l) && Entering(Run(schedule), t)
    ensures EnteringSince(schedule, t, l)
  {
    forall n | l <= n <= |schedule|
      ensures EnteringAt(schedule, t, n)
    {
      if n < |schedule| {
        assert schedule[..|schedule| - 1][..n] == schedule[..n] && EnteringAt(schedule[..|schedule| - 1], t, n);
      } else {
        assert schedule[..n] == schedule;
      }
    }
  }

  lemma EnteringBefore(schedule: seq<(Thread, Action)>, t: Thread)
    requires schedule != [] && Entering(Run(schedule), t)
    ensures Log(schedule) == Log(schedule[..|schedule| - 1])
    ensures Entering(Run(schedule[..|schedule| - 1]), t) || schedule[|schedule| - 1] == (t, Lock)
  {
    var before := schedule[..|schedule| - 1];
    var (u, a) := schedule[|schedule| - 1];
    RunOk(before);
    LastStep(schedule);
    if Enabled(Run(before), u, a) {
      NothingLogged(Run(before), u, a, t);
    }
  }

  lemma EnteringNow(schedule: seq<(Thread, Action)>, t: Thread)
    requires Entering(Run(schedule), t)
    ensures EnteringSince(schedule, t, |schedule|)
  {
    assert schedule[..|schedule|] == schedule;
  }

  lemma {:induction false} LockTaken(schedule: seq<(Thread, Action)>, t: Thread) returns (l: nat)
    requires Entering(Run(schedule), t)
    ensures 0 < l <= |schedule| && schedule[l - 1] == (t, Lock) && Log(schedule) == Log(schedule[..l - 1])
    ensures EnteringSince(schedule, t, l)
  {
    var before := schedule[..|schedule| - 1];
    EnteringBefore(schedule, t);
    if Entering(Run(before), t) {
      l := LockTaken(before, t);
      assert before[..l - 1] == schedule[..l - 1];
      EnteringStill(schedule, t, l);
    } else {
      l := |schedule|;
      EnteringNow(schedule, t);
    }
  }

  /** The application at the start of a Raise makes the list in effect the one that is called. */
  lemma EntryFound(s: State, t: Thread, addOk: seq<bool>)
    requires WF(s.event) && Enabled(s, t, Work(addOk)) && |Stack(s, t)| == 1 && Entering(s, t)
    ensures InRaise(Do(s, t, Work(addOk)), t)
    ensures Stack(Do(s, t, Work(addOk)), t)[0].entry == Effective(StepEvent(s.event, Apply(addOk)))
  {
    KeptWF(s.event, addOk);
    ApplyLaw(Kept(s.event, addOk));
  }

  /** A thread gets into a Raise only by applying the queues, and keeps the list it finds until it leaves. */
  lemma EntryKept(s: State, u: Thread, a: Action, t: Thread)
    requires Inv(s) && Enabled(s, u, a) && InRaise(Do(s, u, a), t)
    ensures if InRaise(s, t) then Stack(Do(s, u, a), t)[0].entry == Stack(s, t)[0].entry
            else
              && u == t && a.Work? && Entering(s, t)
              && Stack(Do(s, u, a), t)[0].entry == Effective(StepEvent(s.event, Apply(a.addOk)))
  {
    assert ThreadOk(s, u);
    if u == t && a.Work? && Entering(s, t) {
      EntryFound(s, t, a.addOk);
    }
  }

  /** The thread applied the queues for a Raise with step `j - 1`, and has been in that Raise ever since. */
  ghost predicate Raising(schedule: seq<(Thread, Action)>, t: Thread, j: nat) {
    && 0 < j <= |schedule| && schedule[j - 1].0 == t && schedule[j - 1].1.Work?
    && Entering(Run(schedule[..j - 1]), t)
    && forall i {:trigger InRaiseAt(schedule, t, i)} :: j <= i <= |schedule| ==> InRaiseAt(schedule, t, i)
  }

  /**
   * The thread took the lock for that Raise with step `l - 1`. What it calls is the list in effect after the
   * operations logged before that and the Raise's own application.
   */
  ghost predicate Started(schedule: seq<(Thread, Action)>, t: Thread, l: nat, j: nat, entry: seq<Handle>) {
    && Raising(schedule, t, j) && 0 < l < j && schedule[l - 1] == (t, Lock)
    && EnteringSince(schedule[..j - 1], t, l)
    && Log(schedule[..j - 1]) == Log(schedule[..l - 1])
    && entry == Effective(StepEvent(RunEvent(Log(schedule[..l - 1])), Apply(schedule[j - 1].1.addOk)))
  }

  lemma RaisingStill(schedule: seq<(Thread, Action)>, t: Thread, j: nat, i: nat)
    requires schedule != [] && Raising(schedule[..|schedule| - 1], t, j) && InRaise(Run(schedule), t)
    requires j <= i <= |schedule|
    ensures InRaiseAt(schedule, t, i)
  {
    if i < |schedule| {
      assert schedule[..|schedule| - 1][..i] == schedule[..i] && InRaiseAt(schedule[..|schedule| - 1], t, i);
    } else {
      assert schedule[..i] == schedule;
    }
  }

  lemma RaisingOn(schedule: seq<(Thread, Action)>, t: Thread, j: nat)
    requires schedule != [] && Raising(schedule[..|schedule| - 1], t, j) && InRaise(Run(schedule), t)
    ensures Raising(schedule, t, j)
  {
    assert schedule[..|schedule| - 1][..j - 1] == schedule[..j - 1];
    forall i | j <= i <= |schedule|
      ensures InRaiseAt(schedule, t, i)
    {
      RaisingStill(schedule, t, j, i);
    }
  }

  lemma StartedBefore(schedule: seq<(Thread, Action)>, t: Thread, l: nat, j: nat, entry: seq<Handle>)
    requires schedule != [] && Started(schedule[..|schedule| - 1], t, l, j, entry) && InRaise(Run(schedule), t)
    ensures Started(schedule, t, l, j, entry)
  {
    var before := schedule[..|schedule| - 1];
    assert before[..j - 1] == schedule[..j - 1];
    assert before[..l - 1] == schedule[..l - 1];
    RaisingOn(schedule, t, j);
  }

  lemma RaisingNow(schedule: seq<(Thread, Action)>, t: Thread)
    requires schedule != [] && schedule[|schedule| - 1].0 == t && schedule[|schedule| - 1].1.Work?
    requires InRaise(Run(schedule), t) && Entering(Run(schedule[..|schedule| - 1]), t)
    ensures Raising(schedule, t, |schedule|)
  {
    assert schedule[..|schedule|] == schedule;
  }

  lemma StartedNow(schedule: seq<(Thread, Action)>, t: Thread, addOk: seq<bool>) returns (l: nat)
    requires schedule != [] && schedule[|schedule| - 1] == (t, Work(addOk))
    requires InRaise(Run(schedule), t) && Entering(Run(schedule[..|schedule| - 1]), t)
    ensures var s := Run(schedule[..|schedule| - 1]);
            Started(schedule, t, l, |schedule|, Effective(StepEvent(s.event, Apply(addOk))))
  {
    var before := schedule[..|schedule| - 1];
    RaisingNow(schedule, t);
    l := LockTaken(before, t);
    EventIsLog(before);
    assert before[..l - 1] == schedule[..l - 1];
  }

  lemma {:induction false} RaiseStarted(schedule: seq<(Thread, Action)>, t: Thread) returns (l: nat, j: nat)
    requires InRaise(Run(schedule), t)
    ensures Started(schedule, t, l, j, Stack(Run(schedule), t)[0].entry)
  {
    var before := schedule[..|schedule| - 1];
    var (u, a) := schedule[|schedule| - 1];
    var s := Run(before);
    RunOk(before);
    LastStep(schedule);
    if Enabled(s, u, a) {
      EntryKept(s, u, a, t);
    }
    if InRaise(s, t) {
      l, j := RaiseStarted(before, t);
      StartedBefore(schedule, t, l, j, Stack(s, t)[0].entry);
    } else {
      l := StartedNow(schedule, t, a.addOk);
      j := |schedule|;
    }
  }

  /** Reports are only added, by the last step of a Raise. */
  lemma ReportAdded(s: State, t: Thread, a: Action)
    requires Inv(s) && Enabled(s, t, a)
    ensures s.reports <= Do(s, t, a).reports
    ensures |Do(s, t, a).reports| > |s.reports| ==>
              && a.Work? && InRaise(s, t) && |Do(s, t, a).reports| == |s.reports| + 1
              && Do(s, t, a).reports[|s.reports|].entry == Stack(s, t)[0].entry
  {
    assert ThreadOk(s, t);
  }

  /** Report `k` has its place in the schedule: thread `t` ended with step `m` what it began with step `l - 1`. */
  ghost predicate Placed(schedule: seq<(Thread, Action)>, k: nat, entry: seq<Handle>,
                        t: Thread, l: nat, j: nat, m: nat)
  {
    && m < |schedule| && schedule[m].0 == t && schedule[m].1.Work? && |Run(schedule[..m]).reports| == k
    && Started(schedule[..m], t, l, j, entry)
  }

  lemma PlacedExtended(schedule: seq<(Thread, Action)>, k: nat, entry: seq<Handle>,
                        t: Thread, l: nat, j: nat, m: nat)
    requires schedule != [] && Placed(schedule[..|schedule| - 1], k, entry, t, l, j, m)
    ensures Placed(schedule, k, entry, t, l, j, m)
  {
    var before := schedule[..|schedule| - 1];
    assert before[..m] == schedule[..m];
  }

  lemma LastPlaced(schedule: seq<(Thread, Action)>) returns (t: Thread, l: nat, j: nat)
    requires schedule != [] && |Run(schedule).reports| > |Run(schedule[..|schedule| - 1]).reports|
    ensures var k := |Run(schedule[..|schedule| - 1]).reports|;
            && |Run(schedule).reports| == k + 1
            && Placed(schedule, k, Run(schedule).reports[k].entry, t, l, j, |schedule| - 1)
  {
    var before := schedule[..|schedule| - 1];
    var (u, a) := schedule[|schedule| - 1];
    t := u;
    LastStep(schedule);
    RunOk(before);
    ReportAdded(Run(before), t, a);
    l, j := RaiseStarted(before, t);
  }

  lemma ReportsGrow(schedule: seq<(Thread, Action)>)
    requires schedule != []
    ensures Run(schedule[..|schedule| - 1]).reports <= Run(schedule).reports
  {
    var before := schedule[..|schedule| - 1];
    var (t, a) := schedule[|schedule| - 1];
    LastStep(schedule);
    RunOk(before);
    if Enabled(Run(before), t, a) {
      ReportAdded(Run(before), t, a);
    }
  }

  lemma {:induction false} ReportPlaced(schedule: seq<(Thread, Action)>, k: nat) 
    returns (t: Thread, l: nat, j: nat, m: nat)
    requires k < |Run(schedule).reports|
    ensures Placed(schedule, k, Run(schedule).reports[k].entry, t, l, j, m)
  {
    var before := schedule[..|schedule| - 1];
    ReportsGrow(schedule);
    if k < |Run(before).reports| {
      t, l, j, m := ReportPlaced(before, k);
      PlacedExtended(schedule, k, Run(before).reports[k].entry, t, l, j, m);
    } else {
      t, l, j := LastPlaced(schedule);
      m := |schedule| - 1;
    }
  }

  /** When no registration is lost, an application finds the logged operations carried out on an empty list. */
  lemma AppliedFollows(log: seq<Op>, addOk: seq<bool>)
    requires XnEventSpec.RunOk(log)
    ensures NoneLost(log + [Apply(addOk)]) ==> Effective(StepEvent(RunEvent(log), Apply(addOk))) == Folded(log)
  {
    RunExtended(log, Apply(addOk));
    FollowsUnlessLost(log + [Apply(addOk)]);
    assert (log + [Apply(addOk)])[..|log|] == log;
  }

  /**
   * Every schedule gives each ended Raise its place in the log, and what it called is the list in effect
   * after the operations logged before it took the lock and its own application of the queues: all of it, or
   * the part up to a failing handler. So whatever is logged before is seen, and nothing that is logged later,
   * by a handler or another thread. When no registration is lost, that list is the logged operations, carried
   * out on an empty one.
   */
  lemma RaisesCallTheLog(schedule: seq<(Thread, Action)>, k: nat)
    returns (t: Thread, l: nat, j: nat, m: nat)
    requires k < |Run(schedule).reports|
    ensures Placed(schedule, k, Run(schedule).reports[k].entry, t, l, j, m)
    ensures ReportOk(Run(schedule).reports[k])
    ensures var log, apply := Log(schedule[..l - 1]), Apply(schedule[j - 1].1.addOk);
            && Run(schedule).reports[k].entry == Effective(StepEvent(RunEvent(log), apply))
            && (NoneLost(log + [apply]) ==> Run(schedule).reports[k].entry == Folded(log))
  {
    t, l, j, m := ReportPlaced(schedule, k);
    RaisesCallTheSnapshot(schedule, k);
    var log, apply := Log(schedule[..l - 1]), Apply(schedule[j - 1].1.addOk);
    assert schedule[..m][..l - 1] == schedule[..l - 1];
    EventIsLog(schedule[..l - 1]);
    AppliedFollows(log, schedule[j - 1].1.addOk);
  }

  // ----- progress -----

  /** The action begins no new call. */
  predicate Continues(a: Action) {
    !a.BeginRegister? && !a.BeginUnregister? && !a.BeginRaise? && !a.BeginClear?
  }

  /** What the call on top of a stack does next, unless it waits for the lock. */
  function Next(s: State, f: Frame): Action {
    match f.pc
    case WantLock => Lock
    case Locked => Work([])
    case Looping =>
      if f.RaiseFrame? && f.inHandler then Return(true)
      else if RaiseDone(s, f) then Work([]) else Call
    case Finished => Unlock
  }

  /** The owner of the lock can always go on; when nobody owns it, every call that is under way can. */
  lemma CanGoOn(s: State, t: Thread)
    requires Inv(s) && Stack(s, t) != [] && (s.owner == Nobody || s.owner == By(t))
    ensures Enabled(s, t, Next(s, Top(s, t)))
  {
    assert ThreadOk(s, t);
    if Top(s, t).pc != WantLock {
      HoldersOwn(s, t, |Stack(s, t)| - 1);
    }
  }

  /** The recursive lock never deadlocks: under every schedule, while a call is under way some call can go on. */
  lemma NoDeadlock(schedule: seq<(Thread, Action)>, t: Thread) returns (u: Thread, a: Action)
    requires Stack(Run(schedule), t) != []
    ensures Continues(a) && Enabled(Run(schedule), u, a)
  {
    RunOk(schedule);
    var s := Run(schedule);
    u := if s.owner.By? then s.owner.t else t;
    assert ThreadOk(s, u);
    CanGoOn(s, u);
    a := Next(s, Top(s, u));
  }
}
