/**
 * The event of XnEventT.h, and the raise loops of XnEventT.h and XnEvent.h. Its three callback lists
 * are sequences here. Addresses of new callback objects, the outcome of allocations and what handlers do
 * are parameters; `deleted` logs every callback object that is freed.
 */
module XnEventT {
  import opened XnStatus
  import opened XnListT
  import opened XnEventSpec

  class EventInterface {
    var callbacks: seq<Handle>
    var toAdd: seq<Handle>
    var toRemove: seq<Handle>
    ghost var deleted: seq<Handle>

    function State(): Event
      reads this
    {
      Event(callbacks, toAdd, toRemove)
    }

    constructor ()
      ensures State() == EMPTY && deleted == []
    {
      callbacks, toAdd, toRemove := [], [], [];
      deleted := [];
    }

    /** `alloc` is where the callback object goes, if there is memory for it. */
    method Register(hasFunc: bool, alloc: Handle, allocOk: bool, listOk: bool) returns (st: Status, handle: Handle)
      modifies this
      ensures st == if !hasFunc then NULL_INPUT_PTR else if allocOk && listOk then OK else ALLOC_FAILED
      ensures st == OK ==> handle == alloc && State() == Registered(old(State()), alloc) && deleted == old(deleted)
      ensures st != OK ==> State() == old(State())
      ensures st != OK ==> deleted == old(deleted) + (if hasFunc && allocOk then [alloc] else [])
    {
      handle := 0;
      if !hasFunc {
        return NULL_INPUT_PTR, handle;
      }
      if !allocOk {
        return ALLOC_FAILED, handle;
      }
      if !listOk {
        deleted := deleted + [alloc];
        return ALLOC_FAILED, handle;
      }
      toAdd := toAdd + [alloc];
      return OK, alloc;
    }

    method Unregister(h: Handle, listOk: bool) returns (st: Status)
      modifies this
      ensures st == if listOk || h in old(toAdd) then OK else ALLOC_FAILED
      ensures State() == if st == OK then Unregistered(old(State()), h) else old(State())
      ensures deleted == old(deleted) + UnregisterFrees(old(State()), h)
    {
      var list, found := RemoveCallback(toAdd, h);
      toAdd := list;
      if !found {
        if !listOk {
          return ALLOC_FAILED;
        }
        toRemove := toRemove + [h];
      }
      return OK;
    }

    /** Takes the first occurrence out of a list and deletes the callback object. */
    method RemoveCallback(list: seq<Handle>, h: Handle) returns (rest: seq<Handle>, found: bool)
      modifies this`deleted
      ensures found <==> h in list
      ensures rest == RemoveOne(list, h)
      ensures deleted == old(deleted) + (if found then [h] else [])
    {
      var i := 0;
      while i < |list| && list[i] != h
        invariant 0 <= i <= |list| && h !in list[..i]
      {
        i := i + 1;
      }
      FirstIndexIs(list, h, i);
      if i < |list| {
        deleted := deleted + [h];
        return Deleted(list, i), true;
      }
      return list, false;
    }

    /**
     * Drains both queues. An addition that finds no memory for its list node is passed over, and its
     * callback object is lost.
     */
    method ApplyListChanges(addOk: seq<bool>)
      modifies this
      ensures State() == Applied(Kept(old(State()), addOk))
      ensures deleted == old(deleted) + ApplyFrees(Kept(old(State()), addOk))
    {
      AddQueued(addOk);
      toAdd := [];
      RemoveQueued();
      toRemove := [];
    }

    /** The first loop. */
    method AddQueued(addOk: seq<bool>)
      modifies this`callbacks
      ensures callbacks == old(callbacks) + Picked(toAdd, addOk)
    {
      var i := 0;
      while i < |toAdd|
        invariant 0 <= i <= |toAdd|
        invariant callbacks == old(callbacks) + Picked(toAdd[..i], addOk)
      {
        PickedNext(toAdd, i, addOk);
        if Granted(addOk, i) {
          callbacks := callbacks + [toAdd[i]];
        }
        i := i + 1;
      }
      assert toAdd[..i] == toAdd;
    }

    /** The second loop. */
    method RemoveQueued()
      modifies this`callbacks, this`deleted
      ensures callbacks == RemoveEach(old(callbacks), toRemove)
      ensures deleted == old(deleted) + RemovalFrees(old(callbacks), toRemove)
    {
      var i := 0;
      while i < |toRemove|
        invariant 0 <= i <= |toRemove|
        invariant callbacks == RemoveEach(old(callbacks), toRemove[..i])
        invariant deleted == old(deleted) + RemovalFrees(old(callbacks), toRemove[..i])
      {
        assert toRemove[..i + 1][..i] == toRemove[..i];
        var list, found := RemoveCallback(callbacks, toRemove[i]);
        callbacks := list;
        i := i + 1;
      }
      assert toRemove[..i] == toRemove;
    }

    method Clear(addOk: seq<bool>)
      modifies this
      ensures State() == EMPTY
      ensures deleted == old(deleted) + StepFrees(old(State()), Op.Clear(addOk))
    {
      ApplyListChanges(addOk);
      DeleteCallbacks();
      callbacks, toRemove, toAdd := [], [], [];
    }

    /** The loop of Clear. */
    method DeleteCallbacks()
      modifies this`deleted
      ensures deleted == old(deleted) + callbacks
    {
      var i := 0;
      while i < |callbacks|
        invariant 0 <= i <= |callbacks|
        invariant deleted == old(deleted) + callbacks[..i]
      {
        deleted := deleted + [callbacks[i]];
        i := i + 1;
      }
      assert callbacks[..i] == callbacks;
    }

    /** Everything one handler asks for, in order, as far as it succeeds. */
    method RunHandler(requests: seq<Request>)
      modifies this
      ensures State() == AfterRequests(old(State()), requests)
      ensures deleted == old(deleted) + RequestFrees(old(State()), requests)
    {
      var i := 0;
      while i < |requests|
        invariant 0 <= i <= |requests|
        invariant State() == AfterRequests(old(State()), requests[..i])
        invariant deleted == old(deleted) + RequestFrees(old(State()), requests[..i])
      {
        assert requests[..i + 1][..i] == requests[..i];
        match requests[i] {
          case AskRegister(alloc) =>
            var _, _ := Register(true, alloc, true, true);
          case AskUnregister(h) =>
            var _ := Unregister(h, true);
        }
        i := i + 1;
      }
      assert requests[..i] == requests;
    }

    /** The first `i` calls of a Raise have been made; `freed` was logged before them. */
    ghost predicate Made(start: Event, script: seq<seq<Request>>, i: nat, freed: seq<Handle>)
      reads this
    {
      State() == AfterCalls(start, script, i) && deleted == freed + CallFrees(start, script, i)
    }

    /** The handler of call `i` runs, and leaves the list that is being called alone. */
    method RunHandlerOf(ghost start: Event, script: seq<seq<Request>>, i: nat, ghost n: nat, ghost freed: seq<Handle>)
      requires WF(start) && CallsOk(start, script, n) && i < n
      requires Made(start, script, i, freed)
      modifies this
      ensures Made(start, script, i + 1, freed) && callbacks == start.callbacks
    {
      assert CallOk(start, script, i);
      CallsKeepCallbacks(start, script, i);
      RequestsKeepCallbacks(State(), Asks(script, i));
      RunHandler(Asks(script, i));
    }

    /** The raise loop: handlers are called until one fails. Where handlers return nothing, `codes` is empty. */
    method CallHandlers(ghost start: Event, script: seq<seq<Request>>, codes: seq<Status>)
      returns (st: Status, invoked: seq<Handle>)
      requires State() == start && WF(start) && CallsOk(start, script, |callbacks|)
      modifies this
      ensures invoked == start.callbacks[..CallsMade(codes, |start.callbacks|)]
      ensures st == if invoked == [] then OK else Code(codes, |invoked| - 1)
      ensures Made(start, script, |invoked|, old(deleted))
    {
      st := OK;
      invoked := [];
      var i := 0;
      while i < |callbacks|
        invariant 0 <= i <= |start.callbacks| && callbacks == start.callbacks
        invariant invoked == start.callbacks[..i]
        invariant st == OK && forall j: nat :: j < i ==> Code(codes, j) == OK
        invariant Made(start, script, i, old(deleted))
      {
        invoked := invoked + [callbacks[i]];
        RunHandlerOf(start, script, i, |start.callbacks|, old(deleted));
        st := Code(codes, i);
        i := i + 1;
        if st != OK {
          break;
        }
      }
      CallsMadeIs(codes, |start.callbacks|, i);
    }

    /**
     * Calls every callback in effect on entry, in registration order, while the handlers register and
     * unregister as the script says; what they asked for is applied at the end.
     */
    method Raise(script: seq<seq<Request>>, before: seq<bool>, after: seq<bool>) returns (invoked: seq<Handle>)
      requires WF(State()) && RaiseOk(Kept(State(), before), script)
      modifies this
      ensures invoked == Effective(Kept(old(State()), before))
      ensures Raised(Kept(old(State()), before), script, |invoked|, after, old(deleted))
    {
      ghost var e := Kept(State(), before);
      KeptWF(State(), before);
      ApplyLaw(e);
      ApplyListChanges(before);
      CallsMadeIs([], |callbacks|, |callbacks|);
      var _, called := CallHandlers(State(), script, []);
      invoked := called;
      Finish(e, script, |invoked|, after, old(deleted));
    }

    /** The form for handlers that return a status: stops behind the first that fails, and still applies the queues. */
    method RaiseWithRetCode(script: seq<seq<Request>>, codes: seq<Status>, before: seq<bool>, after: seq<bool>)
      returns (st: Status, invoked: seq<Handle>)
      requires WF(State()) && RaiseOk(Kept(State(), before), script)
      modifies this
      ensures var live := Effective(Kept(old(State()), before)); invoked == live[..CallsMade(codes, |live|)]
      ensures StopsAt(codes, |Effective(Kept(old(State()), before))|, |invoked|, st)
      ensures Raised(Kept(old(State()), before), script, |invoked|, after, old(deleted))
    {
      ghost var e := Kept(State(), before);
      KeptWF(State(), before);
      ApplyLaw(e);
      ApplyListChanges(before);
      st, invoked := CallHandlers(State(), script, codes);
      CallsStop(codes, |Effective(e)|);
      Finish(e, script, |invoked|, after, old(deleted));
    }

    /** The end of a Raise. */
    method Finish(ghost e: Event, script: seq<seq<Request>>, ghost n: nat, after: seq<bool>, ghost freed: seq<Handle>)
      requires Made(Applied(e), script, n, freed + ApplyFrees(e))
      modifies this
      ensures Raised(e, script, n, after, freed)
    {
      ApplyListChanges(after);
    }

    /**
     * What a Raise that began with `e`, and made `n` calls, leaves behind: the state, and the callback
     * objects freed at its start, by its handlers and at its end.
     */
    ghost predicate Raised(e: Event, script: seq<seq<Request>>, n: nat, after: seq<bool>, freed: seq<Handle>)
      reads this
    {
      var called := Kept(AfterCalls(Applied(e), script, n), after);
      && State() == Applied(called)
      && deleted == freed + ApplyFrees(e) + CallFrees(Applied(e), script, n) + ApplyFrees(called)
    }

    /** After a Raise that found memory for every addition, its list with the requests replayed is in effect. */
    lemma RaisedReplays(e: Event, script: seq<seq<Request>>, n: nat, after: seq<bool>, freed: seq<Handle>)
      requires Raised(e, script, n, after, freed) && WF(e)
      requires CallsOk(Applied(e), script, n) && CallsFresh(Applied(e), script, n)
      requires forall i :: 0 <= i < |AfterCalls(Applied(e), script, n).toAdd| ==> Granted(after, i)
      ensures WF(State()) && Effective(State()) == ReplayedCalls(Effective(e), script, n)
    {
      var called := AfterCalls(Applied(e), script, n);
      AdditionsLost(called, after);
      NextRaiseSees(e, script, n);
    }
  }

  /** What handlers may ask for while `e` is being raised: new callback objects get addresses not in use. */
  ghost predicate RaiseOk(e: Event, script: seq<seq<Request>>) {
    CallsOk(Applied(e), script, |Effective(e)|)
  }

  /** No callback has been freed, since the Raise began, when its turn comes. */
  lemma CalledBeforeFreed(e: Event, script: seq<seq<Request>>, i: nat)
    requires WF(e) && RaiseOk(e, script) && i < |Effective(e)|
    ensures Effective(e)[i] !in ApplyFrees(e) && Effective(e)[i] !in CallFrees(Applied(e), script, i)
  {
    ApplyLaw(e);
    StepFreesOwned(e, Apply([]));
    AdditionsLost(e, []);
    CallsFreeOthers(Applied(e), script, i);
    assert Effective(e)[i] in Owned(Applied(e));
  }

  /** What the handler of call `i` returns. */
  function Code(codes: seq<Status>, i: nat): Status {
    if i < |codes| then codes[i] else OK
  }

  /** How many of the first `n` handlers run: all up to and including the first that fails. */
  function CallsMade(codes: seq<Status>, n: nat): (r: nat)
    ensures r <= n
    ensures forall j: nat :: j < r - 1 ==> Code(codes, j) == OK
    ensures r < n ==> r > 0 && Code(codes, r - 1) != OK
  {
    if n == 0 then 0
    else
      var r := CallsMade(codes, n - 1);
      if r == n - 1 && (r == 0 || Code(codes, r - 1) == OK) then n else r
  }

  /** Of `n` handlers `k` ran and returned `codes`: all, or those up to the first that failed, whose code is `st`. */
  predicate StopsAt(codes: seq<Status>, n: nat, k: nat, st: Status) {
    && k <= n && st == (if 0 < k <= |codes| then codes[k - 1] else OK)
    && (forall j :: 0 <= j < |codes| && j < k - 1 ==> codes[j] == OK)
    && (k < n ==> 0 < k <= |codes| && codes[k - 1] != OK)
  }

  lemma CallsStop(codes: seq<Status>, n: nat)
    ensures var k := CallsMade(codes, n);
            StopsAt(codes, n, k, if k == 0 then OK else Code(codes, k - 1))
  {
  }

  lemma CallsMadeIs(codes: seq<Status>, n: nat, k: nat)
    requires k <= n
    requires forall j: nat :: j < k - 1 ==> Code(codes, j) == OK
    requires k < n ==> k > 0 && Code(codes, k - 1) != OK
    ensures CallsMade(codes, n) == k
  {
    var r := CallsMade(codes, n);
    assert k < n ==> Code(codes, k - 1) != OK;
    assert r < n ==> Code(codes, r - 1) != OK;
  }
}
