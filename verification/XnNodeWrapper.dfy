/**
 * The smart handles of XnCppWrapper.h. The C functions they call are known by their documented effect
 * only, so each is a small function on the `Runtime` value. `Run` follows any sequence of calls.
 */
module XnNodeWrapper {
  type Node = nat
  type Context = nat
  type Callback = nat

  /** A node handle; NULL is None. */
  datatype Handle = None | Some(node: Node)

  /** A shutdown handler's registration: the context it waits for and the cookie it is called with. */
  datatype Registration = Registration(context: Context, wrapper: NodeWrapper)

  /**
   * What the C library holds. `owned` and `contextOwned` are bookkeeping: how many of the references
   * were taken by callers of the C functions themselves and not by a wrapper.
   */
  datatype Runtime = Runtime(
    counts: map<Node, nat>,
    owned: map<Node, nat>,
    contextOf: map<Node, Context>,
    contextRefs: map<Context, nat>,
    contextOwned: map<Context, nat>,
    registrations: map<Callback, Registration>)

  /** The library with all live wrappers: what each points at, and the callback handle it remembers. */
  datatype World = World(lib: Runtime, handles: map<NodeWrapper, Handle>, callbacks: map<NodeWrapper, Callback>)

  // ----- the C functions -----

  function NodeAddRef(l: Runtime, n: Node): Runtime
    requires n in l.counts
  {
    l.(counts := l.counts[n := l.counts[n] + 1])
  }

  /** A node whose count drops to zero is destroyed. */
  function NodeRelease(l: Runtime, n: Node): Runtime
    requires n in l.counts && l.counts[n] > 0
  {
    if l.counts[n] == 1 then l.(counts := l.counts - {n}, owned := l.owned - {n})
    else l.(counts := l.counts[n := l.counts[n] - 1])
  }

  /** Looks up the context of a node and references it. */
  function RefContext(l: Runtime, n: Node): Runtime
    requires n in l.contextOf && l.contextOf[n] in l.contextRefs
  {
    l.(contextRefs := l.contextRefs[l.contextOf[n] := l.contextRefs[l.contextOf[n]] + 1])
  }

  /** Gives back one of several references to a context; the last one is given back by `Shutdown`. */
  function ContextRelease(l: Runtime, c: Context): Runtime
    requires c in l.contextRefs && l.contextRefs[c] > 1
  {
    l.(contextRefs := l.contextRefs[c := l.contextRefs[c] - 1])
  }

  /** The library answers with a callback handle `cb` that is not registered at the moment. */
  function RegisterForShutdown(l: Runtime, c: Context, w: NodeWrapper, cb: Callback): Runtime
    requires cb !in l.registrations
  {
    l.(registrations := l.registrations[cb := Registration(c, w)])
  }

  function UnregisterFromShutdown(l: Runtime, cb: Callback): Runtime {
    l.(registrations := l.registrations - {cb})
  }

  /** Destroys a context with its nodes and registrations, once its handlers have been called. */
  function DestroyContext(l: Runtime, c: Context): Runtime {
    var nodes := set n | n in l.contextOf && l.contextOf[n] == c;
    l.(counts := l.counts - nodes, owned := l.owned - nodes,
       contextRefs := l.contextRefs - {c}, contextOwned := l.contextOwned - {c},
       registrations := l.registrations - Waiting(l, c))
  }

  /** The callback handles registered with a context. */
  function Waiting(l: Runtime, c: Context): set<Callback> {
    set cb | cb in l.registrations && l.registrations[cb].context == c
  }

  // ----- what holds between the calls -----

  ghost function Pointing(s: World, n: Node): set<NodeWrapper> {
    set w | w in s.handles && s.handles[w] == Some(n)
  }

  /** A node's count is the wrappers pointing at it plus the references of raw callers. */
  ghost predicate Counted(s: World, n: Node) {
    && n in s.lib.counts && n in s.lib.owned && n in s.lib.contextOf && s.lib.contextOf[n] in s.lib.contextRefs
    && s.lib.counts[n] == |Pointing(s, n)| + s.lib.owned[n] && s.lib.counts[n] > 0
  }

  /** A wrapper that points at a node points at a live one, and is registered with the context of that node. */
  ghost predicate Listed(s: World, w: NodeWrapper) {
    && w in s.handles && w in s.callbacks
    && (s.handles[w].Some? ==>
          var n, cb := s.handles[w].node, s.callbacks[w];
          && n in s.lib.counts && n in s.lib.contextOf
          && cb in s.lib.registrations && s.lib.registrations[cb] == Registration(s.lib.contextOf[n], w))
  }

  /** A registration's cookie is a live wrapper that points at a node and remembers this registration. */
  ghost predicate Registered(s: World, cb: Callback) {
    && cb in s.lib.registrations
    && var w := s.lib.registrations[cb].wrapper;
    && w in s.handles && s.handles[w].Some? && w in s.callbacks && s.callbacks[w] == cb
  }

  ghost predicate Inv(s: World) {
    && s.lib.counts.Keys == s.lib.owned.Keys
    && s.lib.contextRefs == s.lib.contextOwned
    && s.callbacks.Keys == s.handles.Keys
    && (forall c :: c in s.lib.contextRefs ==> s.lib.contextRefs[c] > 0)
    && (forall n {:trigger Counted(s, n)} :: n in s.lib.counts ==> Counted(s, n))
    && (forall w {:trigger Listed(s, w)} :: w in s.handles ==> Listed(s, w))
    && (forall cb {:trigger Registered(s, cb)} :: cb in s.lib.registrations ==> Registered(s, cb))
  }

  /** `Inv` makes registrations and pointing wrappers correspond one to one. */
  lemma OneRegistrationEach(s: World, w: NodeWrapper)
    requires Inv(s) && w in s.handles
    ensures (set cb | cb in s.lib.registrations && s.lib.registrations[cb].wrapper == w)
         == if s.handles[w].Some? then {s.callbacks[w]} else {}
  {
    assert Listed(s, w);
    forall cb | cb in s.lib.registrations
      ensures Registered(s, cb)
    {
    }
  }

  // ----- SetHandle -----

  /** The calls on the node held: its context is looked up, unregistered from and released, then the node too. */
  function Unhold(l: Runtime, n: Node, cb: Callback): Runtime
    requires n in l.counts && l.counts[n] > 0
    requires n in l.contextOf && l.contextOf[n] in l.contextRefs && l.contextRefs[l.contextOf[n]] > 0
  {
    var l1 := RefContext(l, n);
    var l2 := UnregisterFromShutdown(l1, cb);
    var l3 := ContextRelease(l2, l.contextOf[n]);
    NodeRelease(l3, n)
  }

  /** The calls on a new node: it is referenced, its context looked up, registered with and released. */
  function Hold(l: Runtime, n: Node, w: NodeWrapper, cb: Callback): Runtime
    requires n in l.counts && cb !in l.registrations
    requires n in l.contextOf && l.contextOf[n] in l.contextRefs && l.contextRefs[l.contextOf[n]] > 0
  {
    var l1 := NodeAddRef(l, n);
    var l2 := RefContext(l1, n);
    var l3 := RegisterForShutdown(l2, l.contextOf[n], w, cb);
    ContextRelease(l3, l.contextOf[n])
  }

  /** The wrapper lets go of the node it holds. */
  function Dropped(s: World, w: NodeWrapper): World
    requires Inv(s) && w in s.handles
  {
    if s.handles[w] == None then s
    else
      var n := s.handles[w].node;
      assert Listed(s, w) && Counted(s, n);
      s.(lib := Unhold(s.lib, n, s.callbacks[w]), handles := s.handles[w := None])
  }

  /** A wrapper that points at nothing takes hold of a node. */
  function Taken(s: World, w: NodeWrapper, n: Node, cb: Callback): World
    requires Inv(s) && w in s.handles && n in s.lib.counts && cb !in s.lib.registrations
  {
    assert Counted(s, n);
    World(Hold(s.lib, n, w, cb), s.handles[w := Some(n)], s.callbacks[w := cb])
  }

  lemma PointingAfter(s: World, s': World, w: NodeWrapper, h: Handle, n: Node)
    requires w in s.handles && s'.handles == s.handles[w := h]
    ensures |Pointing(s', n)|
         == |Pointing(s, n)| - (if s.handles[w] == Some(n) then 1 else 0) + (if h == Some(n) then 1 else 0)
  {
    var others := Pointing(s, n) - {w};
    assert Pointing(s, n) == if s.handles[w] == Some(n) then others + {w} else others;
    assert Pointing(s', n) == if h == Some(n) then others + {w} else others;
  }

  lemma TwoPointers(s: World, n: Node, v: NodeWrapper, w: NodeWrapper)
    requires v != w && v in Pointing(s, n) && w in Pointing(s, n)
    ensures |Pointing(s, n)| >= 2
  {
    assert Pointing(s, n) == (Pointing(s, n) - {v, w}) + {v, w};
  }

  /** What `Dropped` leaves, field by field. */
  ghost predicate DroppedIs(s: World, w: NodeWrapper, s': World)
    requires w in s.handles && s.handles[w].Some? && w in s.callbacks
    requires s.handles[w].node in s.lib.counts && s.lib.counts[s.handles[w].node] > 0
  {
    var n := s.handles[w].node;
    && s'.handles == s.handles[w := None] && s'.callbacks == s.callbacks
    && s'.lib.contextOf == s.lib.contextOf
    && s'.lib.contextRefs == s.lib.contextRefs && s'.lib.contextOwned == s.lib.contextOwned
    && s'.lib.registrations == s.lib.registrations - {s.callbacks[w]}
    && (if s.lib.counts[n] == 1 then s'.lib.counts == s.lib.counts - {n} && s'.lib.owned == s.lib.owned - {n}
        else s'.lib.counts == s.lib.counts[n := s.lib.counts[n] - 1] && s'.lib.owned == s.lib.owned)
  }

  lemma DroppedFields(s: World, w: NodeWrapper)
    requires Inv(s) && w in s.handles && s.handles[w].Some?
    ensures Listed(s, w) && Counted(s, s.handles[w].node) && DroppedIs(s, w, Dropped(s, w))
  {
    assert Listed(s, w) && Counted(s, s.handles[w].node);
  }

  lemma DroppedCounts(s: World, w: NodeWrapper, s': World, m: Node)
    requires Inv(s) && w in s.handles && s.handles[w].Some? && Listed(s, w)
    requires Counted(s, s.handles[w].node) && DroppedIs(s, w, s')
    requires m in s'.lib.counts
    ensures Counted(s', m)
  {
    assert Counted(s, m);
    PointingAfter(s, s', w, None, m);
  }

  lemma DroppedLists(s: World, w: NodeWrapper, s': World, v: NodeWrapper)
    requires Inv(s) && w in s.handles && s.handles[w].Some? && Listed(s, w)
    requires Counted(s, s.handles[w].node) && DroppedIs(s, w, s')
    requires v in s'.handles
    ensures Listed(s', v)
  {
    assert Listed(s, v) && Counted(s, s.handles[w].node);
    if v != w && s.handles[v] == s.handles[w] {
      TwoPointers(s, s.handles[w].node, v, w);
    }
  }

  lemma DroppedKeeps(s: World, w: NodeWrapper)
    requires Inv(s) && w in s.handles
    ensures Inv(Dropped(s, w)) && Dropped(s, w).handles == s.handles[w := None]
    ensures Dropped(s, w).lib.contextRefs == s.lib.contextRefs
  {
    if s.handles[w].Some? {
      var s' := Dropped(s, w);
      DroppedFields(s, w);
      forall m | m in s'.lib.counts
        ensures Counted(s', m)
      {
        DroppedCounts(s, w, s', m);
      }
      forall v | v in s'.handles
        ensures Listed(s', v)
      {
        DroppedLists(s, w, s', v);
      }
      forall cb | cb in s'.lib.registrations
        ensures Registered(s', cb)
      {
        assert Registered(s, cb);
      }
    }
  }

  /** Only the node held loses a reference, and it stays as long as it has another. */
  lemma DroppedLeaves(s: World, w: NodeWrapper, n: Node)
    requires Inv(s) && w in s.handles && n in s.lib.counts
    requires s.handles[w] == Some(n) ==> s.lib.counts[n] > 1
    ensures n in Dropped(s, w).lib.counts && n in s.lib.owned && n in Dropped(s, w).lib.owned
    ensures Dropped(s, w).lib.owned[n] == s.lib.owned[n]
  {
    assert Counted(s, n);
    if s.handles[w].Some? {
      DroppedFields(s, w);
    }
  }

  lemma TakenCounts(s: World, w: NodeWrapper, n: Node, cb: Callback, m: Node)
    requires Inv(s) && w in s.handles && s.handles[w] == None && n in s.lib.counts && cb !in s.lib.registrations
    requires m in Taken(s, w, n, cb).lib.counts
    ensures Counted(Taken(s, w, n, cb), m)
  {
    assert Counted(s, m) && Counted(s, n);
    PointingAfter(s, Taken(s, w, n, cb), w, Some(n), m);
  }

  lemma TakenKeeps(s: World, w: NodeWrapper, n: Node, cb: Callback)
    requires Inv(s) && w in s.handles && s.handles[w] == None && n in s.lib.counts && cb !in s.lib.registrations
    ensures Inv(Taken(s, w, n, cb)) && Taken(s, w, n, cb).handles == s.handles[w := Some(n)]
    ensures Taken(s, w, n, cb).lib.contextRefs == s.lib.contextRefs
    ensures Taken(s, w, n, cb).lib.owned == s.lib.owned
  {
    var s' := Taken(s, w, n, cb);
    assert Counted(s, n);
    assert s'.lib.contextRefs == s.lib.contextRefs;
    forall m | m in s'.lib.counts
      ensures Counted(s', m)
    {
      TakenCounts(s, w, n, cb, m);
    }
    forall v | v in s'.handles
      ensures Listed(s', v)
    {
      assert Listed(s, v);
      if v != w && s.handles[v].Some? {
        assert Registered(s, s.callbacks[v]);
      }
    }
    forall other | other in s'.lib.registrations
      ensures Registered(s', other)
    {
      if other != cb {
        assert Registered(s, other);
      }
    }
  }

  lemma TakenLeaves(s: World, w: NodeWrapper, n: Node, cb: Callback, m: Node)
    requires Inv(s) && w in s.handles && n in s.lib.counts && m in s.lib.counts && cb !in s.lib.registrations
    ensures m in Taken(s, w, n, cb).lib.counts && Taken(s, w, n, cb).lib.owned == s.lib.owned
  {
    assert Counted(s, n);
  }

  /** NULL, or the handle of a node that has not been destroyed. */
  predicate Live(s: World, h: Handle) {
    h.Some? ==> h.node in s.lib.counts
  }

  /** The library may answer with `cb`: it is not registered, or is the wrapper's own, which is given up first. */
  predicate Free(s: World, w: NodeWrapper, h: Handle, cb: Callback) {
    h.Some? && cb in s.lib.registrations ==> s.lib.registrations[cb].wrapper == w
  }

  lemma DroppedFrees(s: World, w: NodeWrapper, h: Handle, cb: Callback)
    requires Inv(s) && w in s.handles && h.Some? && Free(s, w, h, cb)
    ensures cb !in Dropped(s, w).lib.registrations
  {
    if cb in s.lib.registrations {
      assert Registered(s, cb);
    }
    if s.handles[w].Some? {
      DroppedFields(s, w);
    }
  }

  /** The world after `SetHandle`: nothing when the wrapper has this handle already. */
  function WithHandle(s: World, w: NodeWrapper, h: Handle, cb: Callback): World
    requires Inv(s) && w in s.handles && Live(s, h) && Free(s, w, h, cb)
  {
    if s.handles[w] == h then s
    else if h == None then Dropped(s, w)
    else
      DroppedKeeps(s, w);
      DroppedLeaves(s, w, h.node);
      DroppedFrees(s, w, h, cb);
      Taken(Dropped(s, w), w, h.node, cb)
  }

  lemma WithHandleKeeps(s: World, w: NodeWrapper, h: Handle, cb: Callback)
    requires Inv(s) && w in s.handles && Live(s, h) && Free(s, w, h, cb)
    ensures Inv(WithHandle(s, w, h, cb))
    ensures WithHandle(s, w, h, cb).handles == s.handles[w := h]
    ensures WithHandle(s, w, h, cb).lib.contextRefs == s.lib.contextRefs
  {
    if s.handles[w] == h {
      assert s.handles[w := h] == s.handles;
    } else if h == None {
      DroppedKeeps(s, w);
    } else {
      DroppedKeeps(s, w);
      DroppedLeaves(s, w, h.node);
      DroppedFrees(s, w, h, cb);
      TakenKeeps(Dropped(s, w), w, h.node, cb);
      Overwritten(s.handles, w, None, h);
      assert WithHandle(s, w, h, cb) == Taken(Dropped(s, w), w, h.node, cb);
    }
  }

  lemma Overwritten(m: map<NodeWrapper, Handle>, w: NodeWrapper, a: Handle, b: Handle)
    ensures m[w := a][w := b] == m[w := b]
  {
  }

  /** The references of raw callers to a node that survives are theirs still. */
  lemma WithHandleLeaves(s: World, w: NodeWrapper, h: Handle, cb: Callback, n: Node)
    requires Inv(s) && w in s.handles && Live(s, h) && Free(s, w, h, cb) && n in s.lib.counts
    requires s.handles[w] == Some(n) && h != Some(n) ==> s.lib.counts[n] > 1
    ensures n in WithHandle(s, w, h, cb).lib.counts && n in s.lib.owned && n in WithHandle(s, w, h, cb).lib.owned
    ensures WithHandle(s, w, h, cb).lib.owned[n] == s.lib.owned[n]
  {
    if s.handles[w] != h {
      var d := Dropped(s, w);
      DroppedKeeps(s, w);
      DroppedLeaves(s, w, n);
      if h.Some? {
        DroppedLeaves(s, w, h.node);
        DroppedFrees(s, w, h, cb);
        TakenLeaves(d, w, h.node, cb, n);
        assert WithHandle(s, w, h, cb) == Taken(d, w, h.node, cb);
      }
    }
  }

  // ----- every operation of a program -----

  /** The references a raw caller gives back. */
  function GivenBack(s: World, n: Node): World
    requires n in s.lib.counts && s.lib.counts[n] > 0 && n in s.lib.owned && s.lib.owned[n] > 0
  {
    var l := s.lib.(owned := s.lib.owned[n := s.lib.owned[n] - 1]);
    s.(lib := NodeRelease(l, n))
  }

  lemma GivenBackKeeps(s: World, n: Node)
    requires Inv(s) && n in s.lib.counts && Counted(s, n) && s.lib.owned[n] > 0
    ensures Inv(GivenBack(s, n))
  {
    var s' := GivenBack(s, n);
    forall m | m in s'.lib.counts
      ensures Counted(s', m)
    {
      assert Counted(s, m) && Pointing(s', m) == Pointing(s, m);
    }
    forall v | v in s'.handles
      ensures Listed(s', v)
    {
      assert Listed(s, v);
      if s.handles[v] == Some(n) {
        assert Pointing(s, n) != {} by { assert v in Pointing(s, n); }
      }
    }
    forall cb | cb in s'.lib.registrations
      ensures Registered(s', cb)
    {
      assert Registered(s, cb);
    }
  }

  /** The handler clears the cookie's node; every registration of the context is called before it is destroyed. */
  function ShutDown(s: World, c: Context): World {
    World(DestroyContext(s.lib, c),
          map w | w in s.handles :: if IsCookie(s.lib, c, w) then None else s.handles[w],
          s.callbacks)
  }

  predicate IsCookie(l: Runtime, c: Context, w: NodeWrapper) {
    exists cb :: cb in l.registrations && l.registrations[cb] == Registration(c, w)
  }

  /** Whether a handle is that of a node of the context. */
  predicate PointsInto(s: World, c: Context, h: Handle) {
    h.Some? && h.node in s.lib.contextOf && s.lib.contextOf[h.node] == c
  }

  lemma CookiesPointInto(s: World, c: Context, w: NodeWrapper)
    requires Inv(s) && w in s.handles
    ensures IsCookie(s.lib, c, w) <==> PointsInto(s, c, s.handles[w])
  {
    assert Listed(s, w);
    if PointsInto(s, c, s.handles[w]) {
      assert s.lib.registrations[s.callbacks[w]] == Registration(c, w);
    }
    if IsCookie(s.lib, c, w) {
      var cb :| cb in s.lib.registrations && s.lib.registrations[cb] == Registration(c, w);
      assert Registered(s, cb);
    }
  }

  /** A shutdown clears the wrappers that point into the context, and only those. */
  lemma ShutDownClears(s: World, c: Context, w: NodeWrapper)
    requires Inv(s) && w in s.handles
    ensures w in ShutDown(s, c).handles
    ensures ShutDown(s, c).handles[w] == if PointsInto(s, c, s.handles[w]) then None else s.handles[w]
    ensures !PointsInto(ShutDown(s, c), c, ShutDown(s, c).handles[w])
  {
    CookiesPointInto(s, c, w);
  }

  lemma ShutDownKeeps(s: World, c: Context)
    requires Inv(s)
    ensures Inv(ShutDown(s, c))
  {
    var s' := ShutDown(s, c);
    forall m | m in s'.lib.counts
      ensures Counted(s', m)
    {
      assert Counted(s, m);
      forall w | w in s.handles
        ensures s'.handles[w] == Some(m) <==> s.handles[w] == Some(m)
      {
        ShutDownClears(s, c, w);
      }
      assert Pointing(s', m) == Pointing(s, m);
    }
    forall v | v in s'.handles
      ensures Listed(s', v)
    {
      assert Listed(s, v);
      ShutDownClears(s, c, v);
    }
    forall cb | cb in s'.lib.registrations
      ensures Registered(s', cb)
    {
      assert Registered(s, cb);
      var w := s.lib.registrations[cb].wrapper;
      assert Listed(s, w);
      ShutDownClears(s, c, w);
    }
  }

  /** `Copy` and `Assign` are `Construct` and `SetTo` with another wrapper's handle. */
  datatype Op =
    | Construct(w: NodeWrapper, h: Handle, cb: Callback)
    | SetTo(w: NodeWrapper, h: Handle, cb: Callback)
    | TakeOwned(w: NodeWrapper, h: Handle, cb: Callback)
    | Destroy(w: NodeWrapper)
    | NodeCreated(n: Node, c: Context)
    | AddRef(n: Node)
    | Release(n: Node)
    | ContextCreated(c: Context)
    | ContextAddRef(c: Context)
    | ContextReleased(c: Context)

  /** What the operation demands of its caller: live objects, and for a release a reference to give back. */
  predicate Enabled(s: World, op: Op) {
    match op
    case Construct(w, h, cb) => w !in s.handles && Live(s, h) && Free(s, w, h, cb)
    case SetTo(w, h, cb) => w in s.handles && Live(s, h) && Free(s, w, h, cb)
    case TakeOwned(w, h, cb) =>
      && w in s.handles && Live(s, h) && Free(s, w, h, cb)
      && (h.Some? ==> h.node in s.lib.owned && s.lib.owned[h.node] > 0)
    case Destroy(w) => w in s.handles
    case NodeCreated(n, c) => n !in s.lib.counts && c in s.lib.contextRefs
    case AddRef(n) => n in s.lib.counts
    case Release(n) => n in s.lib.counts && n in s.lib.owned && s.lib.owned[n] > 0
    case ContextCreated(c) => c !in s.lib.contextRefs
    case ContextAddRef(c) => c in s.lib.contextRefs
    case ContextReleased(c) => c in s.lib.contextRefs
  }

  /** A new wrapper: NULL, and no callback handle yet. */
  function Blank(s: World, w: NodeWrapper): World {
    s.(handles := s.handles[w := None], callbacks := s.callbacks[w := 0])
  }

  lemma BlankKeeps(s: World, w: NodeWrapper)
    requires Inv(s) && w !in s.handles
    ensures Inv(Blank(s, w))
  {
    var s' := Blank(s, w);
    forall m | m in s'.lib.counts
      ensures Counted(s', m)
    {
      assert Counted(s, m) && Pointing(s', m) == Pointing(s, m);
    }
    forall v | v in s'.handles
      ensures Listed(s', v)
    {
      if v != w {
        assert Listed(s, v);
      }
    }
    forall cb | cb in s'.lib.registrations
      ensures Registered(s', cb)
    {
      assert Registered(s, cb);
    }
  }

  /** The wrapper lets go of its node and is gone. */
  function Gone(s: World, w: NodeWrapper): World
    requires Inv(s) && w in s.handles
  {
    var t := WithHandle(s, w, None, 0);
    t.(handles := t.handles - {w}, callbacks := t.callbacks - {w})
  }

  lemma GoneKeeps(s: World, w: NodeWrapper)
    requires Inv(s) && w in s.handles
    ensures Inv(Gone(s, w))
  {
    WithHandleKeeps(s, w, None, 0);
    var t, s' := WithHandle(s, w, None, 0), Gone(s, w);
    forall m | m in s'.lib.counts
      ensures Counted(s', m)
    {
      assert Counted(t, m) && Pointing(s', m) == Pointing(t, m);
    }
    forall v | v in s'.handles
      ensures Listed(s', v)
    {
      assert Listed(t, v);
    }
    forall cb | cb in s'.lib.registrations
      ensures Registered(s', cb)
    {
      assert Registered(t, cb);
    }
  }

  /** The reference the caller is to give back is still there after `SetHandle`. */
  lemma OwnedStill(s: World, w: NodeWrapper, h: Handle, cb: Callback)
    requires Inv(s) && Enabled(s, TakeOwned(w, h, cb))
    ensures h.Some? ==>
              var l := WithHandle(s, w, h, cb).lib;
              h.node in l.counts && h.node in l.owned && l.owned[h.node] == s.lib.owned[h.node]
  {
    if h.Some? {
      WithHandleLeaves(s, w, h, cb, h.node);
    }
  }

  /** `SetHandle`, then the reference the caller had is given back. */
  function Owned(s: World, w: NodeWrapper, h: Handle, cb: Callback): World
    requires Inv(s) && Enabled(s, TakeOwned(w, h, cb))
  {
    WithHandleKeeps(s, w, h, cb);
    OwnedStill(s, w, h, cb);
    var t := WithHandle(s, w, h, cb);
    if h == None then t
    else
      assert Counted(t, h.node);
      GivenBack(t, h.node)
  }

  lemma OwnedKeeps(s: World, w: NodeWrapper, h: Handle, cb: Callback)
    requires Inv(s) && Enabled(s, TakeOwned(w, h, cb))
    ensures Inv(Owned(s, w, h, cb)) && Owned(s, w, h, cb).handles == s.handles[w := h]
  {
    WithHandleKeeps(s, w, h, cb);
    OwnedStill(s, w, h, cb);
    if h.Some? {
      var t := WithHandle(s, w, h, cb);
      assert Counted(t, h.node);
      GivenBackKeeps(t, h.node);
    }
  }

  /** Create() hands its caller one reference. */
  function Created(s: World, n: Node, c: Context): World {
    var l := s.lib;
    s.(lib := l.(counts := l.counts[n := 1], owned := l.owned[n := 1], contextOf := l.contextOf[n := c]))
  }

  function Referenced(s: World, n: Node): World
    requires n in s.lib.counts && n in s.lib.owned
  {
    s.(lib := NodeAddRef(s.lib, n).(owned := s.lib.owned[n := s.lib.owned[n] + 1]))
  }

  lemma CreatedKeeps(s: World, n: Node, c: Context)
    requires Inv(s) && Enabled(s, NodeCreated(n, c))
    ensures Inv(Created(s, n, c))
  {
    var s' := Created(s, n, c);
    forall m | m in s'.lib.counts
      ensures Counted(s', m)
    {
      assert Pointing(s', m) == Pointing(s, m);
      if m == n {
        forall w | w in s.handles
          ensures s.handles[w] != Some(n)
        {
          assert Listed(s, w);
        }
        assert Pointing(s, n) == {};
      } else {
        assert Counted(s, m);
      }
    }
    forall v | v in s'.handles
      ensures Listed(s', v)
    {
      assert Listed(s, v);
    }
    forall cb | cb in s'.lib.registrations
      ensures Registered(s', cb)
    {
      assert Registered(s, cb);
    }
  }

  lemma ReferencedKeeps(s: World, n: Node)
    requires Inv(s) && n in s.lib.counts
    ensures n in s.lib.owned && Inv(Referenced(s, n))
  {
    var s' := Referenced(s, n);
    forall m | m in s'.lib.counts
      ensures Counted(s', m)
    {
      assert Counted(s, m) && Pointing(s', m) == Pointing(s, m);
    }
    forall v | v in s'.handles
      ensures Listed(s', v)
    {
      assert Listed(s, v);
    }
    forall cb | cb in s'.lib.registrations
      ensures Registered(s', cb)
    {
      assert Registered(s, cb);
    }
  }

  /** `k` references to a context, all of raw callers. */
  function ContextCount(s: World, c: Context, k: nat): World {
    s.(lib := s.lib.(contextRefs := s.lib.contextRefs[c := k], contextOwned := s.lib.contextOwned[c := k]))
  }

  lemma ContextCountKeeps(s: World, c: Context, k: nat)
    requires Inv(s) && k > 0
    ensures Inv(ContextCount(s, c, k))
  {
    var s' := ContextCount(s, c, k);
    forall m | m in s'.lib.counts
      ensures Counted(s', m)
    {
      assert Counted(s, m) && Pointing(s', m) == Pointing(s, m);
    }
    forall v | v in s'.handles
      ensures Listed(s', v)
    {
      assert Listed(s, v);
    }
    forall cb | cb in s'.lib.registrations
      ensures Registered(s', cb)
    {
      assert Registered(s, cb);
    }
  }

  function Step(s: World, op: Op): World
    requires Inv(s) && Enabled(s, op)
  {
    match op
    case Construct(w, h, cb) => BlankKeeps(s, w); WithHandle(Blank(s, w), w, h, cb)
    case SetTo(w, h, cb) => WithHandle(s, w, h, cb)
    case TakeOwned(w, h, cb) => Owned(s, w, h, cb)
    case Destroy(w) => Gone(s, w)
    case NodeCreated(n, c) => Created(s, n, c)
    case AddRef(n) => Referenced(s, n)
    case Release(n) => assert Counted(s, n); GivenBack(s, n)
    case ContextCreated(c) => ContextCount(s, c, 1)
    case ContextAddRef(c) => ContextCount(s, c, s.lib.contextRefs[c] + 1)
    case ContextReleased(c) =>
      if s.lib.contextRefs[c] == 1 then ShutDown(s, c) else ContextCount(s, c, s.lib.contextRefs[c] - 1)
  }

  lemma StepKeeps(s: World, op: Op)
    requires Inv(s) && Enabled(s, op)
    ensures Inv(Step(s, op))
  {
    match op
    case Construct(w, h, cb) => BlankKeeps(s, w); WithHandleKeeps(Blank(s, w), w, h, cb);
    case SetTo(w, h, cb) => WithHandleKeeps(s, w, h, cb);
    case TakeOwned(w, h, cb) => OwnedKeeps(s, w, h, cb);
    case Destroy(w) => GoneKeeps(s, w);
    case NodeCreated(n, c) => CreatedKeeps(s, n, c);
    case AddRef(n) => ReferencedKeeps(s, n);
    case Release(n) => assert Counted(s, n); GivenBackKeeps(s, n);
    case ContextCreated(c) => ContextCountKeeps(s, c, 1);
    case ContextAddRef(c) => ContextCountKeeps(s, c, s.lib.contextRefs[c] + 1);
    case ContextReleased(c) =>
      if s.lib.contextRefs[c] == 1 {
        ShutDownKeeps(s, c);
      } else {
        ContextCountKeeps(s, c, s.lib.contextRefs[c] - 1);
      }
  }

  // ----- runs -----

  predicate RunEnabled(s: World, ops: seq<Op>)
    requires Inv(s)
    decreases |ops|
  {
    ops == [] || (Enabled(s, ops[0]) && (StepKeeps(s, ops[0]); RunEnabled(Step(s, ops[0]), ops[1..])))
  }

  function Run(s: World, ops: seq<Op>): World
    requires Inv(s) && RunEnabled(s, ops)
    decreases |ops|
  {
    if ops == [] then s
    else
      StepKeeps(s, ops[0]);
      Run(Step(s, ops[0]), ops[1..])
  }

  /** Every sequence of calls keeps the references, the registrations and the wrappers in step. */
  lemma {:induction false} RunKeeps(s: World, ops: seq<Op>)
    requires Inv(s) && RunEnabled(s, ops)
    ensures Inv(Run(s, ops))
    decreases |ops|
  {
    if ops != [] {
      StepKeeps(s, ops[0]);
      RunKeeps(Step(s, ops[0]), ops[1..]);
    }
  }

  /** The references to `n` that raw callers hold after `op`, by the calls alone. */
  function OwnedAfter(op: Op, n: Node, k: int): int {
    match op
    case NodeCreated(m, _) => if m == n then 1 else k
    case AddRef(m) => if m == n then k + 1 else k
    case Release(m) => if m == n then k - 1 else k
    case TakeOwned(_, h, _) => if h == Some(n) then k - 1 else k
    case _ => k
  }

  function Ledger(k: int, ops: seq<Op>, n: Node): int
    decreases |ops|
  {
    if ops == [] then k else Ledger(OwnedAfter(ops[0], n, k), ops[1..], n)
  }

  function ContextOwnedAfter(op: Op, c: Context, k: int): int {
    match op
    case ContextCreated(d) => if d == c then 1 else k
    case ContextAddRef(d) => if d == c then k + 1 else k
    case ContextReleased(d) => if d == c then k - 1 else k
    case _ => k
  }

  function ContextLedger(k: int, ops: seq<Op>, c: Context): int
    decreases |ops|
  {
    if ops == [] then k else ContextLedger(ContextOwnedAfter(ops[0], c, k), ops[1..], c)
  }

  /** Whether this call shuts down the context of the node. */
  predicate Ends(s: World, op: Op, n: Node) {
    && op.ContextReleased? && op.c in s.lib.contextRefs && s.lib.contextRefs[op.c] == 1
    && n in s.lib.contextOf && s.lib.contextOf[n] == op.c
  }

  /** A node the wrapper lets go of ends when nothing else holds it. */
  lemma LetGo(s: World, w: NodeWrapper, h: Handle, cb: Callback, n: Node)
    requires Inv(s) && w in s.handles && Live(s, h) && Free(s, w, h, cb) && n in s.lib.counts
    requires s.handles[w] == Some(n) && h != Some(n) && s.lib.counts[n] == 1
    ensures n !in WithHandle(s, w, h, cb).lib.counts
    ensures n in s.lib.owned && s.lib.owned[n] == 0
  {
    assert Counted(s, n) && w in Pointing(s, n);
    DroppedKeeps(s, w);
    DroppedFields(s, w);
    if h.Some? {
      DroppedLeaves(s, w, h.node);
    }
  }

  lemma WithHandleEnds(s: World, w: NodeWrapper, h: Handle, cb: Callback, n: Node)
    requires Inv(s) && w in s.handles && Live(s, h) && Free(s, w, h, cb) && n in s.lib.counts
    ensures n in s.lib.owned
    ensures n in WithHandle(s, w, h, cb).lib.counts <==> |Pointing(WithHandle(s, w, h, cb), n)| + s.lib.owned[n] > 0
  {
    var s' := WithHandle(s, w, h, cb);
    WithHandleKeeps(s, w, h, cb);
    PointingAfter(s, s', w, h, n);
    assert Counted(s, n);
    if s.handles[w] == Some(n) && h != Some(n) && s.lib.counts[n] == 1 {
      LetGo(s, w, h, cb, n);
    } else {
      WithHandleLeaves(s, w, h, cb, n);
      assert Counted(s', n);
    }
  }

  lemma GivenBackEnds(s: World, m: Node, n: Node)
    requires Inv(s) && Enabled(s, Release(m)) && n in s.lib.counts && Counted(s, m)
    ensures n in s.lib.owned
    ensures n in GivenBack(s, m).lib.counts <==>
              |Pointing(GivenBack(s, m), n)| + OwnedAfter(Release(m), n, s.lib.owned[n]) > 0
  {
    assert Counted(s, n) && Pointing(GivenBack(s, m), n) == Pointing(s, n);
  }

  lemma OwnedEnds(s: World, w: NodeWrapper, h: Handle, cb: Callback, n: Node)
    requires Inv(s) && Enabled(s, TakeOwned(w, h, cb)) && n in s.lib.counts
    ensures n in s.lib.owned
    ensures n in Owned(s, w, h, cb).lib.counts <==>
              |Pointing(Owned(s, w, h, cb), n)| + OwnedAfter(TakeOwned(w, h, cb), n, s.lib.owned[n]) > 0
  {
    WithHandleEnds(s, w, h, cb, n);
    var t := WithHandle(s, w, h, cb);
    if h == None {
      assert Owned(s, w, h, cb) == t;
    } else {
      WithHandleKeeps(s, w, h, cb);
      OwnedStill(s, w, h, cb);
      assert Counted(t, h.node);
      assert Owned(s, w, h, cb) == GivenBack(t, h.node);
      if n in t.lib.counts {
        GivenBackEnds(t, h.node, n);
        Survivor(s, w, h, cb, n);
        assert OwnedAfter(TakeOwned(w, h, cb), n, s.lib.owned[n]) == OwnedAfter(Release(h.node), n, t.lib.owned[n]);
      } else {
        assert h != Some(n);
        assert n !in GivenBack(t, h.node).lib.counts;
        assert Pointing(GivenBack(t, h.node), n) == Pointing(t, n);
      }
    }
  }

  lemma Survivor(s: World, w: NodeWrapper, h: Handle, cb: Callback, n: Node)
    requires Inv(s) && w in s.handles && Live(s, h) && Free(s, w, h, cb)
    requires n in s.lib.counts && n in WithHandle(s, w, h, cb).lib.counts
    ensures n in s.lib.owned && n in WithHandle(s, w, h, cb).lib.owned
    ensures WithHandle(s, w, h, cb).lib.owned[n] == s.lib.owned[n]
  {
    if s.handles[w] == Some(n) && h != Some(n) && s.lib.counts[n] == 1 {
      LetGo(s, w, h, cb, n);
    } else {
      if s.handles[w] == Some(n) && h != Some(n) {
        assert Counted(s, n);
      }
      WithHandleLeaves(s, w, h, cb, n);
    }
  }

  lemma GoneEnds(s: World, w: NodeWrapper, n: Node)
    requires Inv(s) && w in s.handles && n in s.lib.counts
    ensures n in s.lib.owned
    ensures n in Gone(s, w).lib.counts <==> |Pointing(Gone(s, w), n)| + s.lib.owned[n] > 0
  {
    WithHandleKeeps(s, w, None, 0);
    WithHandleEnds(s, w, None, 0, n);
    assert Pointing(Gone(s, w), n) == Pointing(WithHandle(s, w, None, 0), n);
  }

  lemma ShutDownEnds(s: World, c: Context, n: Node)
    requires Inv(s) && n in s.lib.counts
    ensures n in s.lib.owned && |Pointing(s, n)| + s.lib.owned[n] > 0
    ensures n in ShutDown(s, c).lib.counts <==> !(n in s.lib.contextOf && s.lib.contextOf[n] == c)
    ensures n in ShutDown(s, c).lib.counts ==> Pointing(ShutDown(s, c), n) == Pointing(s, n)
  {
    assert Counted(s, n);
    forall w | w in s.handles && n in ShutDown(s, c).lib.counts
      ensures ShutDown(s, c).handles[w] == Some(n) <==> s.handles[w] == Some(n)
    {
      ShutDownClears(s, c, w);
    }
  }

  lemma OtherwiseAlive(s: World, s': World, n: Node)
    requires Inv(s) && n in s.lib.counts && s'.handles == s.handles
    ensures n in s.lib.owned && |Pointing(s', n)| + s.lib.owned[n] > 0
  {
    assert Counted(s, n) && Pointing(s', n) == Pointing(s, n);
  }

  /** A node is destroyed by the very call that gives back its last reference, or with its context. */
  lemma EndsWithLastReference(s: World, op: Op, n: Node)
    requires Inv(s) && Enabled(s, op) && n in s.lib.counts
    ensures n in s.lib.owned
    ensures n in Step(s, op).lib.counts <==>
              !Ends(s, op, n) && |Pointing(Step(s, op), n)| + OwnedAfter(op, n, s.lib.owned[n]) > 0
  {
    match op
    case Construct(w, h, cb) => BlankKeeps(s, w); WithHandleEnds(Blank(s, w), w, h, cb, n);
    case SetTo(w, h, cb) => WithHandleEnds(s, w, h, cb, n);
    case TakeOwned(w, h, cb) => OwnedEnds(s, w, h, cb, n);
    case Destroy(w) => GoneEnds(s, w, n);
    case Release(m) => assert Counted(s, m); GivenBackEnds(s, m, n);
    case ContextReleased(c) =>
      if s.lib.contextRefs[c] == 1 {
        ShutDownEnds(s, c, n);
      } else {
        OtherwiseAlive(s, Step(s, op), n);
      }
    case _ => OtherwiseAlive(s, Step(s, op), n);
  }

  lemma SameCounts(s: World, w: NodeWrapper, h: Handle, cb: Callback, n: Node)
    requires Inv(s) && w in s.handles && Live(s, h) && Free(s, w, h, cb) && n in WithHandle(s, w, h, cb).lib.counts
    ensures n in s.lib.counts
  {
    if s.handles[w] != h {
      if s.handles[w].Some? {
        DroppedFields(s, w);
      }
      if h.Some? {
        DroppedKeeps(s, w);
        DroppedLeaves(s, w, h.node);
      }
    }
  }

  lemma OwnedTaken(s: World, w: NodeWrapper, h: Handle, cb: Callback, n: Node)
    requires Inv(s) && Enabled(s, TakeOwned(w, h, cb)) && n in Owned(s, w, h, cb).lib.counts
    ensures n in s.lib.counts && n in s.lib.owned && n in Owned(s, w, h, cb).lib.owned
    ensures Owned(s, w, h, cb).lib.owned[n] == OwnedAfter(TakeOwned(w, h, cb), n, s.lib.owned[n])
  {
    var t := WithHandle(s, w, h, cb);
    if h == None {
      assert Owned(s, w, h, cb) == t;
    } else {
      WithHandleKeeps(s, w, h, cb);
      OwnedStill(s, w, h, cb);
      assert Counted(t, h.node);
      assert Owned(s, w, h, cb) == GivenBack(t, h.node);
    }
    SameCounts(s, w, h, cb, n);
    Survivor(s, w, h, cb, n);
  }

  lemma OwnedStep(s: World, op: Op, n: Node)
    requires Inv(s) && Enabled(s, op) && n in Step(s, op).lib.counts
    ensures n in Step(s, op).lib.owned
    ensures if n in s.lib.counts then n in s.lib.owned && Step(s, op).lib.owned[n] == OwnedAfter(op, n, s.lib.owned[n])
            else Step(s, op).lib.owned[n] == 1 && forall k :: OwnedAfter(op, n, k) == 1
  {
    match op
    case Construct(w, h, cb) =>
      BlankKeeps(s, w);
      SameCounts(Blank(s, w), w, h, cb, n);
      Survivor(Blank(s, w), w, h, cb, n);
    case SetTo(w, h, cb) => SameCounts(s, w, h, cb, n); Survivor(s, w, h, cb, n);
    case TakeOwned(w, h, cb) => OwnedTaken(s, w, h, cb, n);
    case Destroy(w) => SameCounts(s, w, None, 0, n); Survivor(s, w, None, 0, n);
    case _ =>
      if n in s.lib.counts {
        assert Counted(s, n);
      }
  }

  /** Reference conservation: what the calls of a run add up to is what the node's count says. */
  lemma {:induction false} RunConserves(s: World, ops: seq<Op>, n: Node, k: int)
    requires Inv(s) && RunEnabled(s, ops) && n in Run(s, ops).lib.counts
    requires n in s.lib.counts ==> n in s.lib.owned && k == s.lib.owned[n]
    ensures Run(s, ops).lib.counts[n] == |Pointing(Run(s, ops), n)| + Ledger(k, ops, n)
    decreases |ops|
  {
    if ops == [] {
      assert Counted(s, n);
    } else {
      var s' := Step(s, ops[0]);
      StepKeeps(s, ops[0]);
      if n in s'.lib.counts {
        OwnedStep(s, ops[0], n);
      }
      RunConserves(s', ops[1..], n, OwnedAfter(ops[0], n, k));
    }
  }

  lemma OwnedContexts(s: World, w: NodeWrapper, h: Handle, cb: Callback)
    requires Inv(s) && Enabled(s, TakeOwned(w, h, cb))
    ensures Owned(s, w, h, cb).lib.contextRefs == s.lib.contextRefs
  {
    var t := WithHandle(s, w, h, cb);
    WithHandleKeeps(s, w, h, cb);
    OwnedStill(s, w, h, cb);
    if h.Some? {
      assert Counted(t, h.node);
      assert Owned(s, w, h, cb) == GivenBack(t, h.node);
    }
  }

  lemma ContextStep(s: World, op: Op, c: Context)
    requires Inv(s) && Enabled(s, op) && c in Step(s, op).lib.contextRefs
    ensures if c in s.lib.contextRefs
            then Step(s, op).lib.contextRefs[c] == ContextOwnedAfter(op, c, s.lib.contextRefs[c])
            else Step(s, op).lib.contextRefs[c] == 1 && forall k :: ContextOwnedAfter(op, c, k) == 1
  {
    match op
    case Construct(w, h, cb) => BlankKeeps(s, w); WithHandleKeeps(Blank(s, w), w, h, cb);
    case SetTo(w, h, cb) => WithHandleKeeps(s, w, h, cb);
    case TakeOwned(w, h, cb) => OwnedContexts(s, w, h, cb);
    case Destroy(w) => WithHandleKeeps(s, w, None, 0);
    case _ =>
  }

  /** Wrappers reference contexts only in passing: what counts in the end are the raw callers' calls. */
  lemma {:induction false} ContextsNetZero(s: World, ops: seq<Op>, c: Context, k: int)
    requires Inv(s) && RunEnabled(s, ops) && c in Run(s, ops).lib.contextRefs
    requires c in s.lib.contextRefs ==> k == s.lib.contextRefs[c]
    ensures Run(s, ops).lib.contextRefs[c] == ContextLedger(k, ops, c)
    decreases |ops|
  {
    if ops != [] {
      var s' := Step(s, ops[0]);
      StepKeeps(s, ops[0]);
      if c in s'.lib.contextRefs {
        ContextStep(s, ops[0], c);
      }
      ContextsNetZero(s', ops[1..], c, ContextOwnedAfter(ops[0], c, k));
    }
  }

  // ----- the wrapper objects -----

  /** The library as every wrapper sees it. The keys of `world.handles` are the objects not destroyed yet. */
  class Library {
    var rt: Runtime
    ghost var world: World

    /** The ghost world is what the library and the objects hold. */
    ghost predicate Shown()
      reads this, world.handles.Keys
    {
      && world.lib == rt && world.callbacks.Keys == world.handles.Keys
      && (forall w :: w in world.handles ==> w.node == world.handles[w] && w.callback == world.callbacks[w])
    }

    ghost predicate Valid()
      reads this, world.handles.Keys
    {
      Shown() && Inv(world)
    }

    constructor ()
      ensures Valid() && world.handles == map[]
    {
      rt := Runtime(map[], map[], map[], map[], map[], map[]);
      world := World(Runtime(map[], map[], map[], map[], map[], map[]), map[], map[]);
    }

    /** A raw caller gives back a reference of its own. */
    method ReleaseNode(n: Node)
      requires Valid() && Enabled(world, Op.Release(n))
      modifies this
      ensures Counted(old(world), n) && Valid() && world == GivenBack(old(world), n)
    {
      assert Counted(world, n);
      GivenBackKeeps(world, n);
      rt := NodeRelease(rt.(owned := rt.owned[n := rt.owned[n] - 1]), n);
      world := GivenBack(world, n);
    }

    /** Calls the handlers that wait for the context, then destroys it. */
    method ShutDownContext(c: Context)
      requires Valid()
      modifies this, world.handles.Keys
      ensures Valid() && world == ShutDown(old(world), c)
    {
      var todo := Waiting(rt, c);
      forall cb | cb in rt.registrations
        ensures rt.registrations[cb].wrapper in world.handles
      {
        assert Registered(world, cb);
      }
      while todo != {}
        invariant todo <= Waiting(rt, c)
        invariant rt == old(rt) && world == old(world)
        invariant forall w :: w in world.handles ==> w.callback == world.callbacks[w]
        invariant forall w :: w in world.handles ==>
                    w.node == world.handles[w] || (w.node == None && IsCookie(rt, c, w))
        invariant forall cb :: cb in Waiting(rt, c) - todo ==> rt.registrations[cb].wrapper.node == None
      {
        var cb :| cb in todo;
        assert rt.registrations[cb] == Registration(c, rt.registrations[cb].wrapper);
        rt.registrations[cb].wrapper.ContextShuttingDown();
        todo := todo - {cb};
      }
      forall w | w in world.handles
        ensures w.node == if IsCookie(rt, c, w) then None else world.handles[w]
      {
        if IsCookie(rt, c, w) {
          var cb :| cb in rt.registrations && rt.registrations[cb] == Registration(c, w);
          assert cb in Waiting(rt, c);
        }
      }
      ShutDownKeeps(world, c);
      rt := DestroyContext(rt, c);
      world := ShutDown(world, c);
    }
  }

  class NodeWrapper {
    var node: Handle
    var callback: Callback

    constructor (lib: Library, h: Handle, cb: Callback)
      requires lib.Valid() && Live(lib.world, h) && (h.Some? ==> cb !in lib.rt.registrations)
      modifies lib
      ensures lib.Valid()
      ensures Enabled(old(lib.world), Construct(this, h, cb))
      ensures lib.world == Step(old(lib.world), Construct(this, h, cb))
    {
      node := None;
      callback := 0;
      new;
      BlankKeeps(lib.world, this);
      lib.world := Blank(lib.world, this);
      SetHandle(lib, h, cb);
    }

    method ContextShuttingDown()
      modifies this
      ensures node == None && callback == old(callback)
    {
      node := None;
    }

    /** The first half of SetHandle: a node that is held is given up. */
    method LetGo(lib: Library)
      requires lib.Valid() && this in lib.world.handles && node != None
      modifies this`node, lib
      ensures lib.Valid() && lib.world == Dropped(old(lib.world), this)
    {
      DroppedKeeps(lib.world, this);
      DroppedFields(lib.world, this);
      lib.rt := Unhold(lib.rt, node.node, callback);
      lib.world := Dropped(lib.world, this);
      node := None;
    }

    /** The second half: a node is referenced and the wrapper registered. */
    method TakeHold(lib: Library, n: Node, cb: Callback)
      requires lib.Valid() && this in lib.world.handles && node == None && n in lib.world.lib.counts
      requires cb !in lib.world.lib.registrations
      modifies this, lib
      ensures lib.Valid() && lib.world == Taken(old(lib.world), this, n, cb)
    {
      TakenKeeps(lib.world, this, n, cb);
      assert Counted(lib.world, n);
      callback, lib.rt := cb, Hold(lib.rt, n, this, cb);
      lib.world := Taken(lib.world, this, n, cb);
      node := Some(n);
    }

    method SetHandle(lib: Library, h: Handle, cb: Callback)
      requires lib.Valid() && this in lib.world.handles && Live(lib.world, h) && Free(lib.world, this, h, cb)
      modifies this, lib
      ensures lib.Valid() && lib.world == WithHandle(old(lib.world), this, h, cb)
    {
      if node == h {
        return;
      }
      WithHandleKeeps(lib.world, this, h, cb);
      DroppedKeeps(lib.world, this);
      if h != None {
        DroppedLeaves(lib.world, this, h.node);
        DroppedFrees(lib.world, this, h, cb);
      }
      if node != None {
        LetGo(lib);
      }
      if h != None {
        TakeHold(lib, h.node, cb);
      }
    }

    method TakeOwnership(lib: Library, h: Handle, cb: Callback)
      requires lib.Valid() && this in lib.world.handles && Enabled(lib.world, TakeOwned(this, h, cb))
      modifies this, lib
      ensures lib.Valid() && lib.world == Owned(old(lib.world), this, h, cb)
    {
      OwnedStill(lib.world, this, h, cb);
      SetHandle(lib, h, cb);
      if h != None {
        lib.ReleaseNode(h.node);
      }
    }

    method Release(lib: Library)
      requires lib.Valid() && this in lib.world.handles
      modifies this, lib
      ensures lib.Valid() && lib.world == WithHandle(old(lib.world), this, None, 0)
    {
      SetHandle(lib, None, 0);
    }

    /** The destructor: the object is no longer one of the live wrappers. */
    method Destroy(lib: Library)
      requires lib.Valid() && this in lib.world.handles
      modifies this, lib
      ensures lib.Valid() && lib.world == Gone(old(lib.world), this)
    {
      GoneKeeps(lib.world, this);
      SetHandle(lib, None, 0);
      lib.world := lib.world.(handles := lib.world.handles - {this}, callbacks := lib.world.callbacks - {this});
    }
  }
}
