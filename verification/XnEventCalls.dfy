/**
 * What callers ask of an event that many threads use, told from their actions alone, and what becomes of it:
 * every call that is begun takes the lock, does its own work and no other, and returns.
 */
module XnEventCalls {
  import opened XnListT
  import opened XnEventSpec
  import opened XnEventThreads

  type Schedule = seq<(Thread, Action)>

  predicate Begins(a: Action) {
    a.BeginRegister? || a.BeginUnregister? || a.BeginRaise? || a.BeginClear?
  }

  /** The calls a thread has begun and not returned from, by its actions alone. */
  function Open(schedule: Schedule, t: Thread): seq<Action> {
    if schedule == [] then []
    else
      var before := schedule[..|schedule| - 1];
      var (u, a) := schedule[|schedule| - 1];
      if u != t || !Enabled(Run(before), u, a) then Open(before, t)
      else AfterAction(Open(before, t), a)
  }

  function AfterAction(open: seq<Action>, a: Action): seq<Action> {
    if Begins(a) then open + [a]
    else if a == Unlock && open != [] then open[..|open| - 1]
    else open
  }

  /** The frame belongs to this call. */
  predicate Of(f: Frame, a: Action) {
    match a
    case BeginRegister(h) => f.RegisterFrame? && f.h == h
    case BeginUnregister(h) => f.UnregisterFrame? && f.h == h
    case BeginRaise => f.RaiseFrame?
    case BeginClear => f.ClearFrame?
    case _ => false
  }

  predicate FramesOf(st: seq<Frame>, open: seq<Action>) {
    |st| == |open| && forall k :: 0 <= k < |st| ==> Of(st[k], open[k])
  }

  lemma FramesStep(s: State, t: Thread, a: Action, open: seq<Action>)
    requires Enabled(s, t, a) && FramesOf(Stack(s, t), open)
    ensures FramesOf(Stack(Do(s, t, a), t), AfterAction(open, a))
  {
  }

  lemma OthersStep(s: State, t: Thread, a: Action, u: Thread)
    requires Enabled(s, t, a) && u != t
    ensures Stack(Do(s, t, a), u) == Stack(s, u)
  {
  }

  /** The frames of a thread are those of the calls it has open. */
  lemma {:induction false} OpenFrames(schedule: Schedule, t: Thread)
    ensures FramesOf(Stack(Run(schedule), t), Open(schedule, t))
  {
    if schedule != [] {
      var before := schedule[..|schedule| - 1];
      var (u, a) := schedule[|schedule| - 1];
      OpenFrames(before, t);
      LastStep(schedule);
      if Enabled(Run(before), u, a) {
        if u == t {
          FramesStep(Run(before), t, a, Open(before, t));
        } else {
          OthersStep(Run(before), u, a, t);
        }
      }
    }
  }

  /** What the work of a call is, as an operation of the event. */
  function OpOf(call: Action, addOk: seq<bool>): Op {
    match call
    case BeginRegister(h) => Op.Register(h)
    case BeginUnregister(h) => Op.Unregister(h)
    case BeginClear => Op.Clear(addOk)
    case _ => Apply(addOk)
  }

  /** What callers asked for, in the order in which it was done, by their actions alone. */
  function Asked(schedule: Schedule): seq<Op> {
    if schedule == [] then []
    else
      var before := schedule[..|schedule| - 1];
      var (t, a) := schedule[|schedule| - 1];
      if a.Work? && Enabled(Run(before), t, a) && Open(before, t) != []
      then Asked(before) + [OpOf(Open(before, t)[|Open(before, t)| - 1], a.addOk)]
      else Asked(before)
  }

  lemma WorkIsOf(s: State, t: Thread, addOk: seq<bool>, open: seq<Action>)
    requires Enabled(s, t, Work(addOk)) && FramesOf(Stack(s, t), open)
    ensures open != [] && WorkOp(Top(s, t), addOk) == OpOf(open[|open| - 1], addOk)
  {
  }

  /** What is logged, and so what the event is made of, is what callers asked for. */
  lemma {:induction false} LogIsAsked(schedule: Schedule)
    ensures Log(schedule) == Asked(schedule)
    ensures XnEventSpec.RunOk(Asked(schedule)) && Run(schedule).event == RunEvent(Asked(schedule))
  {
    EventIsLog(schedule);
    if schedule != [] {
      var before := schedule[..|schedule| - 1];
      var (t, a) := schedule[|schedule| - 1];
      LogIsAsked(before);
      LastStep(schedule);
      OpenFrames(before, t);
      if a.Work? && Enabled(Run(before), t, a) {
        WorkIsOf(Run(before), t, a.addOk, Open(before, t));
      } else {
        assert Log(before) + [] == Log(before);
      }
    }
  }

  // ----- the life of one call -----

  /** After `n` steps the thread has more calls open than after `i`. */
  predicate Deeper(schedule: Schedule, i: nat, t: Thread, n: nat)
    requires i <= n <= |schedule|
  {
    |Open(schedule[..n], t)| > |Open(schedule[..i], t)|
  }

  /** The call of `t` that was begun with step `i` has not returned. */
  ghost predicate Underway(schedule: Schedule, i: nat, t: Thread) {
    && i < |schedule| && schedule[i].0 == t && Begins(schedule[i].1) && Enabled(Run(schedule[..i]), t, schedule[i].1)
    && forall n {:trigger Deeper(schedule, i, t, n)} :: i < n <= |schedule| ==> Deeper(schedule, i, t, n)
  }

  /** The steps that `t` has made in that call itself, besides what its handlers begin. */
  function Own(schedule: Schedule, i: nat, t: Thread): seq<Action>
    requires i < |schedule|
    decreases |schedule|
  {
    if |schedule| == i + 1 then []
    else
      var before := schedule[..|schedule| - 1];
      var (u, a) := schedule[|schedule| - 1];
      if u == t && !Begins(a) && Enabled(Run(before), u, a) && |Open(before, t)| == |Open(schedule[..i], t)| + 1
      then Own(before, i, t) + [a]
      else Own(before, i, t)
  }

  /** `n` handlers are called and return without failing. */
  function Rounds(n: nat): seq<Action> {
    if n == 0 then [] else Rounds(n - 1) + [Call, Return(true)]
  }

  /** The call a raise is in, or the one whose handler failed. */
  function Last(f: Frame): seq<Action>
    requires f.RaiseFrame?
  {
    if f.inHandler then [Call] else if f.failed then [Call, Return(false)] else []
  }

  /** How far a call of this kind is when its thread has made these steps in it. */
  predicate Progress(call: Action, own: seq<Action>, f: Frame) {
    && Of(f, call)
    && match f.pc
       case WantLock => own == []
       case Locked => own == [Lock]
       case Looping =>
         && call == BeginRaise
         && |own| >= 2 && own[0] == Lock && own[1].Work? && own[2..] == Rounds(f.i) + Last(f)
       case Finished =>
         if call == BeginRaise then
           && |own| >= 3 && own[0] == Lock && own[1].Work? && own[|own| - 1].Work?
           && own[2..|own| - 1] == Rounds(f.i) + Last(f)
         else
           && |own| == 2 && own[0] == Lock
           && (own[1].Work? || (own[1] == WorkFails && (call.BeginRegister? || call.BeginUnregister?)))
  }

  /** A step in the loop of a raise. */
  lemma ProgressLoop(s: State, t: Thread, a: Action, own: seq<Action>)
    requires Enabled(s, t, a) && !Begins(a) && a != Unlock && Progress(BeginRaise, own, Top(s, t))
    requires FrameOk(s.event, Top(s, t)) && Top(s, t).pc == Looping
    ensures Stack(Do(s, t, a), t) != [] && Progress(BeginRaise, own + [a], Top(Do(s, t, a), t))
  {
    assert (own + [a])[2..] == own[2..] + [a];
    assert (own + [a])[2..|own + [a]| - 1] == own[2..];
  }

  /** A step of the thread in the call on top of its stack. */
  lemma ProgressStep(s: State, t: Thread, a: Action, call: Action, own: seq<Action>)
    requires Enabled(s, t, a) && !Begins(a) && a != Unlock && Progress(call, own, Top(s, t))
    requires FrameOk(s.event, Top(s, t))
    ensures Stack(Do(s, t, a), t) != [] && Progress(call, own + [a], Top(Do(s, t, a), t))
  {
    if Top(s, t).pc == Looping {
      ProgressLoop(s, t, a, own);
    }
  }

  lemma BelowTop(s: State, t: Thread, a: Action, k: nat)
    requires Enabled(s, t, a) && k < |Stack(s, t)| && (Begins(a) || k + 1 < |Stack(s, t)|)
    ensures k < |Stack(Do(s, t, a), t)| && Stack(Do(s, t, a), t)[k] == Stack(s, t)[k]
  {
  }

  lemma BeginsAnew(s: State, t: Thread, a: Action)
    requires Enabled(s, t, a) && Begins(a)
    ensures Stack(Do(s, t, a), t) != [] && Stack(Do(s, t, a), t)[..|Stack(Do(s, t, a), t)| - 1] == Stack(s, t)
    ensures Progress(a, [], Top(Do(s, t, a), t))
  {
  }

  lemma UnderwayBefore(schedule: Schedule, i: nat, t: Thread)
    requires Underway(schedule, i, t) && i + 1 < |schedule|
    ensures Underway(schedule[..|schedule| - 1], i, t)
    ensures schedule[..|schedule| - 1][..i] == schedule[..i]
  {
    var before := schedule[..|schedule| - 1];
    assert before[..i] == schedule[..i];
    forall n | i < n <= |before|
      ensures Deeper(before, i, t, n)
    {
      assert before[..n] == schedule[..n] && Deeper(schedule, i, t, n);
    }
  }

  /** The place of the call in the stack of its thread. */
  function Level(schedule: Schedule, i: nat, t: Thread): nat
    requires i < |schedule|
  {
    |Open(schedule[..i], t)|
  }

  lemma StillOpen(schedule: Schedule, i: nat, t: Thread)
    requires Underway(schedule, i, t)
    ensures Level(schedule, i, t) < |Open(schedule, t)| == |Stack(Run(schedule), t)|
  {
    assert schedule[..|schedule|] == schedule && Deeper(schedule, i, t, |schedule|);
    OpenFrames(schedule, t);
  }

  /** The frame at `k` stays, unless the call is the innermost and makes a step. */
  lemma FrameStays(s: State, u: Thread, a: Action, t: Thread, k: nat)
    requires Enabled(s, u, a) && k < |Stack(s, t)| && k < |Stack(Do(s, u, a), t)|
    requires u != t || Begins(a) || |Stack(s, t)| > k + 1
    ensures Stack(Do(s, u, a), t)[k] == Stack(s, t)[k]
  {
    if u != t {
      OthersStep(s, u, a, t);
    } else {
      BelowTop(s, t, a, k);
    }
  }

  /** How a step changes the frame at `k` of thread `t`, and the steps made in its call. */
  lemma StoryStep(s: State, u: Thread, a: Action, t: Thread, k: nat, call: Action, own: seq<Action>)
    requires Inv(s) && Enabled(s, u, a) && k < |Stack(s, t)| && Progress(call, own, Stack(s, t)[k])
    requires k < |Stack(Do(s, u, a), t)|
    ensures var own' := if u == t && !Begins(a) && |Stack(s, t)| == k + 1 then own + [a] else own;
            Progress(call, own', Stack(Do(s, u, a), t)[k])
  {
    if u == t && !Begins(a) && |Stack(s, t)| == k + 1 {
      assert ThreadOk(s, t);
      ProgressStep(s, t, a, call, own);
    } else {
      FrameStays(s, u, a, t, k);
    }
  }

  /**
   * The story of every call: whatever the other threads do, and whatever its own handlers begin, the steps it
   * has made are those of a call of its kind, and no others.
   */
  lemma {:induction false} Story(schedule: Schedule, i: nat, t: Thread)
    requires Underway(schedule, i, t)
    ensures Level(schedule, i, t) < |Stack(Run(schedule), t)|
    ensures Progress(schedule[i].1, Own(schedule, i, t), Stack(Run(schedule), t)[Level(schedule, i, t)])
    decreases |schedule|
  {
    var before := schedule[..|schedule| - 1];
    var (u, a) := schedule[|schedule| - 1];
    StillOpen(schedule, i, t);
    LastStep(schedule);
    OpenFrames(before, t);
    if |schedule| == i + 1 {
      BeginsAnew(Run(before), t, a);
    } else {
      UnderwayBefore(schedule, i, t);
      Story(before, i, t);
      if Enabled(Run(before), u, a) {
        XnEventThreads.RunOk(before);
        StoryStep(Run(before), u, a, t, Level(schedule, i, t), schedule[i].1, Own(before, i, t));
      }
    }
  }

  // ----- what a call reports -----

  /** The reports of one thread. */
  function ReportsBy(reports: seq<Report>, t: Thread): seq<Report> {
    if reports == [] then []
    else
      var last := reports[|reports| - 1];
      ReportsBy(reports[..|reports| - 1], t) + (if last.thread == t then [last] else [])
  }

  /** What a call with this frame has reported. */
  function Told(t: Thread, f: Frame): seq<Report> {
    if f.RaiseFrame? && f.pc == Finished then [Report(t, f.entry, f.calls, f.failed)] else []
  }

  lemma OneMoreReport(reports: seq<Report>, r: Report, t: Thread)
    ensures ReportsBy(reports + [r], t) == ReportsBy(reports, t) + (if r.thread == t then [r] else [])
  {
    assert (reports + [r])[..|reports|] == reports;
  }

  /** A step of another thread, or of a handler, reports nothing in the name of `t`. */
  lemma ToldElsewhere(s: State, u: Thread, a: Action, t: Thread, k: nat)
    requires Inv(s) && Enabled(s, u, a) && k < |Stack(s, t)|
    requires u != t || Begins(a) || |Stack(s, t)| > k + 1
    ensures ReportsBy(Do(s, u, a).reports, t) == ReportsBy(s.reports, t)
  {
    assert ThreadOk(s, t);
    if a.Work? && Top(s, u).RaiseFrame? && Top(s, u).pc != Locked {
      OneMoreReport(s.reports, Report(u, Top(s, u).entry, Top(s, u).calls, Top(s, u).failed), t);
    }
  }

  /** A step of the call on top reports exactly when it is the last application of a raise. */
  lemma ToldHere(s: State, t: Thread, a: Action)
    requires Inv(s) && Enabled(s, t, a) && !Begins(a) && a != Unlock
    ensures |Stack(Do(s, t, a), t)| == |Stack(s, t)| && Told(t, Top(s, t)) == []
    ensures ReportsBy(Do(s, t, a).reports, t) == ReportsBy(s.reports, t) + Told(t, Top(Do(s, t, a), t))
  {
    assert ThreadOk(s, t);
    if a.Work? && Top(s, t).RaiseFrame? && Top(s, t).pc != Locked {
      OneMoreReport(s.reports, Report(t, Top(s, t).entry, Top(s, t).calls, Top(s, t).failed), t);
    }
  }

  lemma ToldOnTop(s: State, t: Thread, a: Action, k: nat)
    requires Inv(s) && Enabled(s, t, a) && !Begins(a) && |Stack(s, t)| == k + 1 && k < |Stack(Do(s, t, a), t)|
    ensures Told(t, Stack(s, t)[k]) == []
    ensures ReportsBy(Do(s, t, a).reports, t) == ReportsBy(s.reports, t) + Told(t, Stack(Do(s, t, a), t)[k])
  {
    ToldHere(s, t, a);
  }

  lemma ToldStep(s: State, u: Thread, a: Action, t: Thread, k: nat, s': State, told: seq<Report>)
    requires Inv(s) && Enabled(s, u, a) && s' == Do(s, u, a) && k < |Stack(s, t)| && k < |Stack(s', t)|
    requires ReportsBy(s.reports, t) == told + Told(t, Stack(s, t)[k])
    ensures ReportsBy(s'.reports, t) == told + Told(t, Stack(s', t)[k])
  {
    if u == t && !Begins(a) && |Stack(s, t)| == k + 1 {
      ToldOnTop(s, t, a, k);
    } else {
      ToldElsewhere(s, u, a, t, k);
      FrameStays(s, u, a, t, k);
    }
  }

  /** While a call lasts, its thread reports what this call tells, and nothing else. */
  lemma {:induction false} Reporting(schedule: Schedule, i: nat, t: Thread)
    requires Underway(schedule, i, t)
    ensures Level(schedule, i, t) < |Stack(Run(schedule), t)|
    ensures ReportsBy(Run(schedule).reports, t)
         == ReportsBy(Run(schedule[..i]).reports, t) + Told(t, Stack(Run(schedule), t)[Level(schedule, i, t)])
    decreases |schedule|
  {
    var before := schedule[..|schedule| - 1];
    var (u, a) := schedule[|schedule| - 1];
    StillOpen(schedule, i, t);
    LastStep(schedule);
    OpenFrames(before, t);
    XnEventThreads.RunOk(before);
    if |schedule| == i + 1 {
      BeginsAnew(Run(before), t, a);
      assert Run(schedule).reports == Run(before).reports;
    } else {
      UnderwayBefore(schedule, i, t);
      Reporting(before, i, t);
      if Enabled(Run(before), u, a) {
        ToldStep(Run(before), u, a, t, Level(schedule, i, t), Run(schedule), ReportsBy(Run(schedule[..i]).reports, t));
      }
    }
  }

  // ----- calls that return -----

  /** The call begun with step `i` is the innermost of its thread, and returns with the thread's next step. */
  ghost predicate Returning(schedule: Schedule, i: nat, t: Thread) {
    && Underway(schedule, i, t)
    && |Open(schedule, t)| == Level(schedule, i, t) + 1 && Enabled(Run(schedule), t, Unlock)
  }

  /** The step `w` that the call made as its step `n`. */
  ghost predicate StepOf(schedule: Schedule, i: nat, t: Thread, n: nat, w: nat) {
    && i < w < |schedule| && n < |Own(schedule, i, t)| && schedule[w] == (t, Own(schedule, i, t)[n])
    && Underway(schedule[..w], i, t) && |Open(schedule[..w], t)| == Level(schedule, i, t) + 1
    && Enabled(Run(schedule[..w]), t, schedule[w].1)
    && schedule[..w][..i] == schedule[..i] && Own(schedule[..w], i, t) == Own(schedule, i, t)[..n]
  }

  lemma StepStays(schedule: Schedule, i: nat, t: Thread, n: nat, w: nat)
    requires i + 1 < |schedule| && StepOf(schedule[..|schedule| - 1], i, t, n, w)
    requires Underway(schedule, i, t)
    ensures StepOf(schedule, i, t, n, w)
  {
    var before := schedule[..|schedule| - 1];
    assert before[..w] == schedule[..w] && before[..i] == schedule[..i];
    assert Own(schedule, i, t)[..|Own(before, i, t)|] == Own(before, i, t);
  }

  lemma LastOwn(schedule: Schedule, i: nat, t: Thread)
    requires i + 1 < |schedule| && Underway(schedule, i, t)
    ensures var before := schedule[..|schedule| - 1];
            && |Own(before, i, t)| <= |Own(schedule, i, t)| <= |Own(before, i, t)| + 1
            && (Own(schedule, i, t) != Own(before, i, t) ==>
                  StepOf(schedule, i, t, |Own(before, i, t)|, |schedule| - 1))
  {
    UnderwayBefore(schedule, i, t);
  }

  lemma OwnBefore(schedule: Schedule, i: nat, t: Thread, n: nat)
    requires Underway(schedule, i, t) && n < |Own(schedule, i, t)|
    ensures i + 1 < |schedule| && Underway(schedule[..|schedule| - 1], i, t)
    ensures n >= |Own(schedule[..|schedule| - 1], i, t)| ==> StepOf(schedule, i, t, n, |schedule| - 1)
  {
    UnderwayBefore(schedule, i, t);
    LastOwn(schedule, i, t);
  }

  lemma {:induction false} OwnStep(schedule: Schedule, i: nat, t: Thread, n: nat) returns (w: nat)
    requires Underway(schedule, i, t) && n < |Own(schedule, i, t)|
    ensures StepOf(schedule, i, t, n, w)
    decreases |schedule|
  {
    OwnBefore(schedule, i, t, n);
    w := |schedule| - 1;
    if n < |Own(schedule[..w], i, t)| {
      w := OwnStep(schedule[..w], i, t, n);
      StepStays(schedule, i, t, n, w);
    }
  }

  lemma OneCall(f: Frame, a: Action, b: Action)
    requires Of(f, a) && Of(f, b)
    ensures a == b
  {
  }

  /** The innermost open call is the one whose frame is on top. */
  lemma Innermost(schedule: Schedule, i: nat, t: Thread)
    requires Underway(schedule, i, t) && |Open(schedule, t)| == Level(schedule, i, t) + 1
    ensures Open(schedule, t)[|Open(schedule, t)| - 1] == schedule[i].1
  {
    var k := Level(schedule, i, t);
    Story(schedule, i, t);
    OpenFrames(schedule, t);
    OneCall(Stack(Run(schedule), t)[k], schedule[i].1, Open(schedule, t)[k]);
  }

  lemma WorkLoggedNext(now: Schedule, i: nat, t: Thread, addOk: seq<bool>)
    requires Underway(now, i, t) && |Open(now, t)| == Level(now, i, t) + 1 && Enabled(Run(now), t, Work(addOk))
    ensures Log(now + [(t, Work(addOk))]) == Log(now) + [OpOf(now[i].1, addOk)]
  {
    var after := now + [(t, Work(addOk))];
    assert after[..|after| - 1] == now;
    LastStep(after);
    Innermost(now, i, t);
    OpenFrames(now, t);
    WorkIsOf(Run(now), t, addOk, Open(now, t));
  }

  /** The call begun with step `i` does its work with step `w`. */
  ghost predicate WorksAt(schedule: Schedule, i: nat, t: Thread, w: nat) {
    && i < w < |schedule| && schedule[w].0 == t && schedule[w].1.Work?
    && Underway(schedule[..w], i, t) && |Open(schedule[..w], t)| == Level(schedule[..w], i, t) + 1
    && Enabled(Run(schedule[..w]), t, schedule[w].1)
  }

  /** The operation that the caller of the call begun with step `i` asked for, if it is done with step `w`. */
  ghost function WorkOf(schedule: Schedule, i: nat, t: Thread, w: nat): seq<Op> {
    if WorksAt(schedule, i, t, w) then [OpOf(schedule[i].1, schedule[w].1.addOk)] else []
  }

  /** The work of a call is logged as the operation the caller asked for. */
  lemma WorkLogged(schedule: Schedule, i: nat, t: Thread, w: nat)
    requires WorksAt(schedule, i, t, w)
    ensures Log(schedule[..w + 1]) == Log(schedule[..w]) + WorkOf(schedule, i, t, w)
  {
    assert schedule[..w + 1] == schedule[..w] + [(t, Work(schedule[w].1.addOk))];
    WorkLoggedNext(schedule[..w], i, t, schedule[w].1.addOk);
  }

  /** A call other than a raise has taken the lock and done one thing with it. */
  predicate OneThing(call: Action, own: seq<Action>) {
    && |own| == 2 && own[0] == Lock
    && (own[1].Work? || (own[1] == WorkFails && !call.BeginClear?))
  }

  lemma OneThingDone(s: State, t: Thread, k: nat, call: Action, own: seq<Action>)
    requires |Stack(s, t)| == k + 1 && Enabled(s, t, Unlock) && Progress(call, own, Stack(s, t)[k])
    requires !call.BeginRaise?
    ensures OneThing(call, own)
  {
  }

  lemma Finishing(schedule: Schedule, i: nat, t: Thread)
    requires Returning(schedule, i, t) && !schedule[i].1.BeginRaise?
    ensures OneThing(schedule[i].1, Own(schedule, i, t))
  {
    StillOpen(schedule, i, t);
    Story(schedule, i, t);
    OneThingDone(Run(schedule), t, Level(schedule, i, t), schedule[i].1, Own(schedule, i, t));
  }

  /**
   * A call to Register, Unregister or Clear that returns took the lock and did one thing with it. Unless there
   * was no memory, that is the operation the caller asked for, and it is logged at that place.
   */
  lemma CallDoesItsWork(schedule: Schedule, i: nat, t: Thread) returns (w: nat)
    requires Returning(schedule, i, t) && !schedule[i].1.BeginRaise?
    ensures OneThing(schedule[i].1, Own(schedule, i, t))
    ensures i < w < |schedule| && schedule[w] == (t, Own(schedule, i, t)[1])
    ensures if schedule[w].1.Work? then
              && WorkOf(schedule, i, t, w) == [OpOf(schedule[i].1, schedule[w].1.addOk)]
              && Log(schedule[..w + 1]) == Log(schedule[..w]) + WorkOf(schedule, i, t, w)
            else schedule[w].1 == WorkFails && !schedule[i].1.BeginClear?
  {
    Finishing(schedule, i, t);
    w := OwnStep(schedule, i, t, 1);
    if schedule[w].1.Work? {
      WorkLogged(schedule, i, t, w);
    }
  }

  /** The steps of a raise that has returned with this report: two applications, and between them its calls. */
  predicate RaiseSteps(own: seq<Action>, r: Report) {
    && |own| >= 3 && own[0] == Lock && own[1].Work? && own[|own| - 1].Work?
    && (if r.failed then r.calls != [] && own[2..|own| - 1] == Rounds(|r.calls| - 1) + [Call, Return(false)]
        else own[2..|own| - 1] == Rounds(|r.calls|))
  }

  lemma RaiseFinishing(e: Event, f: Frame, own: seq<Action>, t: Thread)
    requires FrameOk(e, f) && Progress(BeginRaise, own, f) && f.pc == Finished
    ensures RaiseSteps(own, Report(t, f.entry, f.calls, f.failed))
    ensures f.failed ==> 0 < |f.calls| <= |f.entry| && f.calls == f.entry[..|f.calls|]
    ensures !f.failed ==> f.calls == f.entry
  {
  }

  /** A raise is the only call its thread has open, until a handler begins another. */
  lemma RaiseLevel(schedule: Schedule, i: nat, t: Thread)
    requires Underway(schedule, i, t) && schedule[i].1 == BeginRaise
    ensures Level(schedule, i, t) == 0 && Stack(Run(schedule[..i]), t) == []
  {
    OpenFrames(schedule[..i], t);
  }

  lemma InsideFrom(schedule: Schedule, t: Thread, l: nat, j: nat, entry: seq<Handle>, n: nat)
    requires Started(schedule, t, l, j, entry) && l <= n <= |schedule|
    ensures Entering(Run(schedule[..n]), t) || InRaise(Run(schedule[..n]), t)
  {
    if n < j {
      assert schedule[..j - 1][..n] == schedule[..n] && EnteringAt(schedule[..j - 1], t, n);
    } else {
      assert InRaiseAt(schedule, t, n);
    }
  }

  /** The state after step `d`. */
  lemma RunNext(schedule: Schedule, d: nat)
    requires d < |schedule| && Enabled(Run(schedule[..d]), schedule[d].0, schedule[d].1)
    ensures Run(schedule[..d + 1]) == Do(Run(schedule[..d]), schedule[d].0, schedule[d].1)
  {
    assert schedule[..d + 1][..d] == schedule[..d];
  }

  lemma WaitsFirst(s: State, t: Thread)
    requires Enabled(s, t, BeginRaise)
    ensures !Entering(Do(s, t, BeginRaise), t) && !InRaise(Do(s, t, BeginRaise), t)
  {
  }

  lemma JustBegun(schedule: Schedule, i: nat, t: Thread)
    requires Underway(schedule, i, t) && schedule[i].1 == BeginRaise
    ensures !Entering(Run(schedule[..i + 1]), t) && !InRaise(Run(schedule[..i + 1]), t)
  {
    RunNext(schedule, i);
    WaitsFirst(Run(schedule[..i]), t);
  }

  /** The lock of a raise comes after its beginning. */
  lemma LockedAfter(schedule: Schedule, i: nat, t: Thread, l: nat, j: nat, entry: seq<Handle>)
    requires Underway(schedule, i, t) && schedule[i].1 == BeginRaise && Started(schedule, t, l, j, entry)
    ensures i < l - 1
  {
    JustBegun(schedule, i, t);
    if l <= i + 1 {
      InsideFrom(schedule, t, l, j, entry, i + 1);
    }
  }

  lemma {:induction false} UnderwayThen(schedule: Schedule, i: nat, t: Thread, n: nat)
    requires Underway(schedule, i, t) && i < n <= |schedule|
    ensures Underway(schedule[..n], i, t) && schedule[..n][..i] == schedule[..i]
    ensures Own(schedule[..n], i, t) <= Own(schedule, i, t)
    decreases |schedule|
  {
    if n < |schedule| {
      UnderwayBefore(schedule, i, t);
      LastOwn(schedule, i, t);
      UnderwayThen(schedule[..|schedule| - 1], i, t, n);
      assert schedule[..|schedule| - 1][..n] == schedule[..n];
    } else {
      assert schedule[..n] == schedule;
    }
  }

  lemma AppliesFirst(now: Schedule, i: nat, t: Thread, addOk: seq<bool>)
    requires Underway(now, i, t) && now[i].1 == BeginRaise && Entering(Run(now), t)
    ensures Own(now + [(t, Work(addOk))], i, t) == [Lock, Work(addOk)]
  {
    var after := now + [(t, Work(addOk))];
    assert after[..|after| - 1] == now && after[..i] == now[..i];
    RaiseLevel(now, i, t);
    Story(now, i, t);
    StillOpen(now, i, t);
    XnEventThreads.RunOk(now);
    assert ThreadOk(Run(now), t);
  }

  lemma NextSlice(schedule: Schedule, d: nat)
    requires d < |schedule|
    ensures schedule[..d + 1] == schedule[..d] + [schedule[d]]
  {
  }

  /** The application that finds the list a raise calls is its first step after the lock. */
  lemma FirstApplication(schedule: Schedule, i: nat, t: Thread, d: nat)
    requires Underway(schedule, i, t) && schedule[i].1 == BeginRaise && i < d < |schedule|
    requires schedule[d].0 == t && schedule[d].1.Work? && Entering(Run(schedule[..d]), t)
    ensures [Lock, schedule[d].1] <= Own(schedule, i, t)
  {
    UnderwayThen(schedule, i, t, d);
    UnderwayThen(schedule, i, t, d + 1);
    NextSlice(schedule, d);
    AppliesFirst(schedule[..d], i, t, schedule[d].1.addOk);
  }

  lemma RaiseReportAt(s: State, t: Thread, own: seq<Action>) returns (r: Report)
    requires Inv(s) && |Stack(s, t)| == 1 && Enabled(s, t, Unlock) && Progress(BeginRaise, own, Stack(s, t)[0])
    ensures Told(t, Stack(s, t)[0]) == [r] && RaiseSteps(own, r)
    ensures if r.failed then 0 < |r.calls| <= |r.entry| && r.calls == r.entry[..|r.calls|] else r.calls == r.entry
    ensures InRaise(s, t) && Stack(s, t)[0].entry == r.entry
  {
    var f := Stack(s, t)[0];
    assert ThreadOk(s, t);
    RaiseFinishing(s.event, f, own, t);
    r := Report(t, f.entry, f.calls, f.failed);
  }

  lemma RaiseReport(schedule: Schedule, i: nat, t: Thread) returns (r: Report)
    requires Returning(schedule, i, t) && schedule[i].1 == BeginRaise
    ensures ReportsBy(Run(schedule).reports, t) == ReportsBy(Run(schedule[..i]).reports, t) + [r]
    ensures RaiseSteps(Own(schedule, i, t), r)
    ensures if r.failed then 0 < |r.calls| <= |r.entry| && r.calls == r.entry[..|r.calls|] else r.calls == r.entry
    ensures InRaise(Run(schedule), t) && Stack(Run(schedule), t)[0].entry == r.entry
  {
    RaiseLevel(schedule, i, t);
    StillOpen(schedule, i, t);
    Story(schedule, i, t);
    Reporting(schedule, i, t);
    XnEventThreads.RunOk(schedule);
    r := RaiseReportAt(Run(schedule), t, Own(schedule, i, t));
  }

  lemma RaiseLocked(schedule: Schedule, i: nat, t: Thread) returns (l: nat, j: nat)
    requires Underway(schedule, i, t) && schedule[i].1 == BeginRaise && InRaise(Run(schedule), t)
    ensures Started(schedule, t, l, j, Stack(Run(schedule), t)[0].entry) && i < l - 1
    ensures [Lock, schedule[j - 1].1] <= Own(schedule, i, t)
  {
    l, j := RaiseStarted(schedule, t);
    LockedAfter(schedule, i, t, l, j, Stack(Run(schedule), t)[0].entry);
    FirstApplication(schedule, i, t, j - 1);
  }

  /**
   * A Raise that returns took the lock, applied the queues, called its handlers one after the other, applied
   * the queues again and made one report. It called every callback that was in effect after what was logged
   * before it took the lock and its own first application; or those up to a handler that failed, after which
   * it called no other.
   */
  lemma RaiseReports(schedule: Schedule, i: nat, t: Thread) returns (r: Report, l: nat, j: nat)
    requires Returning(schedule, i, t) && schedule[i].1 == BeginRaise
    ensures ReportsBy(Run(schedule).reports, t) == ReportsBy(Run(schedule[..i]).reports, t) + [r]
    ensures RaiseSteps(Own(schedule, i, t), r)
    ensures if r.failed then 0 < |r.calls| <= |r.entry| && r.calls == r.entry[..|r.calls|] else r.calls == r.entry
    ensures Started(schedule, t, l, j, r.entry) && i < l - 1 && Own(schedule, i, t)[1] == schedule[j - 1].1
  {
    r := RaiseReport(schedule, i, t);
    l, j := RaiseLocked(schedule, i, t);
  }

  // ----- what a caller can rely on -----

  lemma {:induction false} LogPrefix(schedule: Schedule, m: nat)
    requires m <= |schedule|
    ensures Log(schedule[..m]) <= Log(schedule)
  {
    if m < |schedule| {
      var before := schedule[..|schedule| - 1];
      LogPrefix(before, m);
      LastStep(schedule);
      assert before[..m] == schedule[..m];
    } else {
      assert schedule[..m] == schedule;
    }
  }

  /** What a step logs has its place in every later log. */
  lemma LoggedAt(schedule: Schedule, w: nat, m: nat, op: Op)
    requires w < m <= |schedule| && Log(schedule[..w + 1]) == Log(schedule[..w]) + [op]
    ensures |Log(schedule[..w])| < |Log(schedule[..m])| && Log(schedule[..m])[|Log(schedule[..w])|] == op
  {
    assert schedule[..m][..w + 1] == schedule[..w + 1];
    LogPrefix(schedule[..m], w + 1);
  }

  /** What is logged after operation `q`. */
  function Later(log: seq<Op>, q: nat): seq<Op> {
    if q < |log| then log[q + 1..] else []
  }

  lemma NotCalled(log: seq<Op>, addOk: seq<bool>, q: nat, h: Handle)
    requires XnEventSpec.RunOk(log) && q < |log| && log[q] == Op.Unregister(h) && Op.Register(h) !in Later(log, q)
    ensures h !in Effective(StepEvent(RunEvent(log), Apply(addOk)))
  {
    RunExtended(log, Apply(addOk));
    assert forall r :: q < r < |log| ==> log[r] in Later(log, q);
    UnregisteredStaysOut(log + [Apply(addOk)], q, h);
  }

  lemma NotCalledLater(schedule: Schedule, w: nat, m: nat, h: Handle, addOk: seq<bool>)
    requires w < m <= |schedule| && Log(schedule[..w + 1]) == Log(schedule[..w]) + [Op.Unregister(h)]
    requires Op.Register(h) !in Later(Log(schedule[..m]), |Log(schedule[..w])|)
    ensures h !in Effective(StepEvent(RunEvent(Log(schedule[..m])), Apply(addOk)))
  {
    LoggedAt(schedule, w, m, Op.Unregister(h));
    EventIsLog(schedule[..m]);
    NotCalled(Log(schedule[..m]), addOk, |Log(schedule[..w])|, h);
  }

  lemma UnregisteredIsOut(schedule: Schedule, i: nat, t: Thread, w: nat, h: Handle, m: nat, addOk: seq<bool>)
    requires WorkOf(schedule, i, t, w) == [Op.Unregister(h)] && w < m <= |schedule|
    requires Op.Register(h) !in Later(Log(schedule[..m]), |Log(schedule[..w])|)
    ensures h !in Effective(StepEvent(RunEvent(Log(schedule[..m])), Apply(addOk)))
  {
    WorkLogged(schedule, i, t, w);
    NotCalledLater(schedule, w, m, h, addOk);
  }

  /**
   * When a call to Unregister has done its work, any Raise of any thread that takes the lock with a later step
   * `m` does not call that callback, unless a registration of the same address is logged in between.
   */
  lemma UnregisteredIsNotCalled(schedule: Schedule, i: nat, t: Thread, w: nat, h: Handle,
                                u: Thread, m: nat, j: nat, entry: seq<Handle>)
    requires WorkOf(schedule, i, t, w) == [Op.Unregister(h)]
    requires Started(schedule, u, m + 1, j, entry) && w < m
    requires Op.Register(h) !in Later(Log(schedule[..m]), |Log(schedule[..w])|)
    ensures h !in entry
  {
    UnregisteredIsOut(schedule, i, t, w, h, m, schedule[j - 1].1.addOk);
  }

  // ----- handlers -----

  /** The owner of the lock has this call on top of a stack. */
  predicate OnTop(s: State, t: Thread, below: seq<Frame>, f: Frame) {
    Stack(s, t) == below + [f] && s.owner == By(t) && s.depth > 0
  }

  lemma HandlerBegins(s: State, t: Thread, begin: Action) returns (f: Frame)
    requires Inv(s) && Enabled(s, t, begin) && Stack(s, t) != []
    requires begin.BeginUnregister? || begin.BeginRegister?
    ensures OnTop(Do(s, t, begin), t, Stack(s, t), f) && f.pc == WantLock && Of(f, begin)
  {
    assert ThreadOk(s, t);
    HoldersOwn(s, t, |Stack(s, t)| - 1);
    f := Top(Do(s, t, begin), t);
  }

  lemma HandlerLocks(s: State, t: Thread, below: seq<Frame>, f: Frame)
    requires OnTop(s, t, below, f) && f.pc == WantLock
    ensures Enabled(s, t, Lock) && OnTop(Do(s, t, Lock), t, below, WithPc(f, Locked))
  {
  }

  lemma HandlerWorks(s: State, t: Thread, below: seq<Frame>, f: Frame, begin: Action)
    requires OnTop(s, t, below, f) && f.pc == Locked && Of(f, begin) && (f.RegisterFrame? || f.UnregisterFrame?)
    ensures Enabled(s, t, Work([])) && StepLog(s, t, Work([])) == [OpOf(begin, [])]
    ensures OnTop(Do(s, t, Work([])), t, below, WithPc(f, Finished))
  {
  }

  lemma HandlerUnlocks(s: State, t: Thread, below: seq<Frame>, f: Frame)
    requires OnTop(s, t, below, f) && f.pc == Finished
    ensures Enabled(s, t, Unlock) && Stack(Do(s, t, Unlock), t) == below
  {
  }

  /** A handler that is being called may return. */
  lemma HandlerReady(schedule: Schedule, t: Thread)
    requires InClient(Run(schedule), t) && Stack(Run(schedule), t) != []
    ensures forall s :: Stack(s, t) == Stack(Run(schedule), t) ==> Enabled(s, t, Return(true))
  {
    XnEventThreads.RunOk(schedule);
    assert ThreadOk(Run(schedule), t);
  }

  lemma NextStep(schedule: Schedule, t: Thread, a: Action) returns (after: Schedule)
    requires Enabled(Run(schedule), t, a)
    ensures after == schedule + [(t, a)]
    ensures Run(after) == Do(Run(schedule), t, a) && Log(after) == Log(schedule) + StepLog(Run(schedule), t, a)
  {
    after := schedule + [(t, a)];
    assert after[..|after| - 1] == schedule;
    LastStep(after);
  }

  lemma HandlerGetsIn(schedule: Schedule, t: Thread, begin: Action) returns (after: Schedule, f: Frame)
    requires Enabled(Run(schedule), t, begin) && Stack(Run(schedule), t) != []
    requires begin.BeginUnregister? || begin.BeginRegister?
    ensures after == schedule + [(t, begin), (t, Lock)] && Log(after) == Log(schedule)
    ensures OnTop(Run(after), t, Stack(Run(schedule), t), f) && f.pc == Locked && Of(f, begin)
  {
    XnEventThreads.RunOk(schedule);
    f := HandlerBegins(Run(schedule), t, begin);
    after := NextStep(schedule, t, begin);
    HandlerLocks(Run(after), t, Stack(Run(schedule), t), f);
    after := NextStep(after, t, Lock);
    f := WithPc(f, Locked);
  }

  lemma HandlerGetsOut(schedule: Schedule, t: Thread, below: seq<Frame>, f: Frame, begin: Action)
    returns (after: Schedule)
    requires OnTop(Run(schedule), t, below, f) && f.pc == Locked && Of(f, begin)
    requires begin.BeginUnregister? || begin.BeginRegister?
    ensures after == schedule + [(t, Work([])), (t, Unlock)] && Log(after) == Log(schedule) + [OpOf(begin, [])]
    ensures Stack(Run(after), t) == below
  {
    HandlerWorks(Run(schedule), t, below, f, begin);
    after := NextStep(schedule, t, Work([]));
    HandlerUnlocks(Run(after), t, below, WithPc(f, Finished));
    after := NextStep(after, t, Unlock);
  }

  /** The raise begun with step `i` is calling a handler: its own last step was that call. */
  ghost predicate Calling(schedule: Schedule, i: nat, t: Thread) {
    && Underway(schedule, i, t) && schedule[i].1 == BeginRaise && |Open(schedule, t)| == 1
    && Own(schedule, i, t) != [] && Own(schedule, i, t)[|Own(schedule, i, t)| - 1] == Call
  }

  lemma CalledNow(own: seq<Action>, f: Frame)
    requires Progress(BeginRaise, own, f) && own != [] && own[|own| - 1] == Call
    ensures f.RaiseFrame? && f.inHandler
  {
    if f.pc == Looping {
      var rest := own[2..];
      assert rest != [] ==> rest[|rest| - 1] == Call;
    }
  }

  lemma HandlerRunsAt(s: State, t: Thread, own: seq<Action>)
    requires |Stack(s, t)| == 1 && Progress(BeginRaise, own, Stack(s, t)[0])
    requires own != [] && own[|own| - 1] == Call
    ensures InClient(s, t)
  {
    CalledNow(own, Stack(s, t)[0]);
  }

  lemma HandlerRuns(schedule: Schedule, i: nat, t: Thread)
    requires Calling(schedule, i, t)
    ensures InClient(Run(schedule), t) && |Stack(Run(schedule), t)| == 1
  {
    RaiseLevel(schedule, i, t);
    StillOpen(schedule, i, t);
    Story(schedule, i, t);
    HandlerRunsAt(Run(schedule), t, Own(schedule, i, t));
  }

  /** The lock lets its owner in again: a handler may register and unregister on the event that calls it. */
  lemma HandlersMayAsk(schedule: Schedule, i: nat, t: Thread, begin: Action) returns (after: Schedule)
    requires Calling(schedule, i, t)
    requires match begin
             case BeginUnregister(h) => true
             case BeginRegister(h) => h !in Owned(Run(schedule).event) && h !in Run(schedule).inFlight
             case _ => false
    ensures after == schedule + [(t, begin), (t, Lock), (t, Work([])), (t, Unlock)]
    ensures Log(after) == Log(schedule) + [OpOf(begin, [])] && Stack(Run(after), t) == Stack(Run(schedule), t)
    ensures Enabled(Run(after), t, Return(true))
  {
    HandlerRuns(schedule, i, t);
    var inside, f := HandlerGetsIn(schedule, t, begin);
    after := HandlerGetsOut(inside, t, Stack(Run(schedule), t), f, begin);
    HandlerReady(schedule, t);
  }
}
