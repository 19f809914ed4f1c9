/**
 The bridge mailbox: callers of `Bridge::peek` and `Bridge::poke`
 (tools/wishbone-utils/wishbone-tool/crates/bridge/src/lib.rs), the worker thread, the
 request channel and the one-place response slot with its condition variable
 (.../bridge/src/bridges/ethernet.rs), as interleaved steps.
 */
module Mailbox {
  datatype Option<T> = None | Some(value: T)

  datatype Request = Peek(addr: nat) | Poke(addr: nat, val: nat) | StartPolling

  /** A device access succeeds, with the value read (0 for a write), or fails. */
  datatype Result = Good(v: nat) | Bad | WrongResponse

  datatype Response = OpenedDevice | PeekResult(r: Result) | PokeResult(r: Result)

  /** An access the worker has begun, and how it ended. */
  datatype Access = Access(req: Request, result: Option<Result>)

  datatype Phase =
    | Idle
    | Locking(req: Request)     // called, wants the bridge mutex
    | Entering(req: Request)    // wants the slot's mutex
    | Sending(req: Request)
    | Clearing(req: Request)
    | Checking(req: Request)    // at the test of the wait loop
    | Waiting(req: Request, notified: bool)
    | Waking(req: Request)      // woken, wants the slot's mutex back
    | Taking(req: Request)
    | Returned(req: Request, result: Result) // back in the retry loop
    | Finished(req: Request, result: Result)

  /** `begun` counts the device accesses begun before the current call. */
  datatype Caller = Caller(phase: Phase, begun: nat)

  datatype Worker =
    | Connecting(first: bool)
    | Receiving
    | Executing(req: Request)
    | Storing(resp: Response, drain: bool)
    | Notifying(drain: bool)
    | Draining

  datatype State = State(
    callers: seq<Caller>, bridge: Option<nat>, lock: Option<nat>,
    slot: Option<Response>, queue: seq<Request>, worker: Worker, log: seq<Access>)

  datatype Step =
    | Call(c: nat, req: Request)
    | TakeBridge(c: nat)
    | TakeLock(c: nat)
    | Send(c: nat)
    | Clear(c: nat)
    | Check(c: nat)
    | Wake(c: nat)
    | SpuriousWake(c: nat)
    | Relock(c: nat)
    | Take(c: nat)
    | Leave(c: nat)
    | Connected
    | Receive
    | EndAccess(result: Result)
    | Store
    | Notify(c: nat)
    | NotifyNobody
    | DrainOne
    | DrainEnd

  function ResponseTo(req: Request, r: Result): Response {
    if req.Peek? then PeekResult(r) else PokeResult(r)
  }

  /** What `peek` and `poke` make of the response they find. */
  function Understand(req: Request, resp: Response): Result {
    match resp
    case PeekResult(r) => if req.Peek? then r else WrongResponse
    case PokeResult(r) => if req.Poke? then r else WrongResponse
    case OpenedDevice => WrongResponse
  }

  /** An answer of the right kind is passed on, and anything else is a wrong response. */
  lemma UnderstandIff(req: Request, resp: Response, r: Result)
    requires !req.StartPolling? && r != WrongResponse
    ensures Understand(req, resp) == r <==>
            resp == if req.Peek? then PeekResult(r) else PokeResult(r)
  {
  }

  // ---------- Steps ----------

  predicate At(s: State, c: nat) { c < |s.callers| }

  function Ph(s: State, c: nat): Phase
    requires At(s, c)
  {
    s.callers[c].phase
  }

  predicate Enabled(s: State, st: Step) {
    match st
    case Call(c, req) => At(s, c) && (Ph(s, c).Idle? || Ph(s, c).Finished?) && !req.StartPolling?
    case TakeBridge(c) => At(s, c) && Ph(s, c).Locking? && s.bridge == None
    case TakeLock(c) => At(s, c) && Ph(s, c).Entering? && s.lock == None
    case Send(c) => At(s, c) && Ph(s, c).Sending?
    case Clear(c) => At(s, c) && Ph(s, c).Clearing?
    case Check(c) => At(s, c) && Ph(s, c).Checking?
    case Wake(c) => At(s, c) && Ph(s, c).Waiting? && Ph(s, c).notified
    case SpuriousWake(c) => At(s, c) && Ph(s, c).Waiting?
    case Relock(c) => At(s, c) && Ph(s, c).Waking? && s.lock == None
    case Take(c) => At(s, c) && Ph(s, c).Taking? && s.slot.Some?
    case Leave(c) => At(s, c) && Ph(s, c).Returned?
    case Connected => s.worker.Connecting?
    case Receive => s.worker.Receiving? && s.queue != []
    case EndAccess(result) => s.worker.Executing? && |s.log| > 0 && !result.WrongResponse?
    case Store => s.worker.Storing? && s.lock == None
    case Notify(c) => s.worker.Notifying? && At(s, c) && Ph(s, c).Waiting?
    case NotifyNobody => s.worker.Notifying? && forall c :: 0 <= c < |s.callers| ==> !Ph(s, c).Waiting?
    case DrainOne => s.worker.Draining? && s.queue != []
    case DrainEnd => s.worker.Draining? && s.queue == []
  }

  function Go(s: State, c: nat, p: Phase): State
    requires At(s, c)
  {
    s.(callers := s.callers[c := s.callers[c].(phase := p)])
  }

  function After(drain: bool): Worker { if drain then Draining else Receiving }

  function Do(s: State, st: Step): State
    requires Enabled(s, st)
  {
    match st
    case Call(c, req) => s.(callers := s.callers[c := Caller(Locking(req), |s.log|)])
    case TakeBridge(c) => Go(s, c, Entering(Ph(s, c).req)).(bridge := Some(c))
    case TakeLock(c) => Go(s, c, Sending(Ph(s, c).req)).(lock := Some(c))
    case Send(c) => Go(s, c, Clearing(Ph(s, c).req)).(queue := s.queue + [Ph(s, c).req])
    case Clear(c) => Go(s, c, Checking(Ph(s, c).req)).(slot := None)
    case Check(c) =>
      if s.slot.None? then Go(s, c, Waiting(Ph(s, c).req, false)).(lock := None)
      else Go(s, c, Taking(Ph(s, c).req))
    case Wake(c) => Go(s, c, Waking(Ph(s, c).req))
    case SpuriousWake(c) => Go(s, c, Waking(Ph(s, c).req))
    case Relock(c) => Go(s, c, Checking(Ph(s, c).req)).(lock := Some(c))
    case Take(c) =>
      Go(s, c, Returned(Ph(s, c).req, Understand(Ph(s, c).req, s.slot.value))).(slot := None, lock := None)
    case Leave(c) =>
      if Ph(s, c).result.Good? then Go(s, c, Finished(Ph(s, c).req, Ph(s, c).result)).(bridge := None)
      else Go(s, c, Entering(Ph(s, c).req))
    case Connected => s.(worker := if s.worker.first then Storing(OpenedDevice, false) else Receiving)
    case Receive =>
      var req, rest := s.queue[0], s.queue[1..];
      if req.StartPolling? then s.(queue := rest)
      else s.(queue := rest, worker := Executing(req), log := s.log + [Access(req, None)])
    case EndAccess(result) =>
      var k := |s.log| - 1;
      s.(log := s.log[k := s.log[k].(result := Some(result))],
         worker := Storing(ResponseTo(s.worker.req, result), result.Bad?))
    case Store => s.(slot := Some(s.worker.resp), worker := Notifying(s.worker.drain))
    case Notify(c) => Go(s, c, Waiting(Ph(s, c).req, true)).(worker := After(s.worker.drain))
    case NotifyNobody => s.(worker := After(s.worker.drain))
    case DrainOne =>
      var req, rest := s.queue[0], s.queue[1..];
      if req.StartPolling? then s.(queue := rest)
      else s.(queue := rest, worker := Storing(ResponseTo(req, Bad), true))
    case DrainEnd => s.(worker := Connecting(false))
  }

  predicate Runs(s: State, steps: seq<Step>)
    decreases |steps|
  {
    steps == [] || (Enabled(s, steps[0]) && Runs(Do(s, steps[0]), steps[1..]))
  }

  function Final(s: State, steps: seq<Step>): State
    requires Runs(s, steps)
    decreases |steps|
  {
    if steps == [] then s else Final(Do(s, steps[0]), steps[1..])
  }

  // ---------- The invariant ----------

  /** Inside `EthernetBridgeInner::peek` or `poke`, or between retries. */
  predicate InCall(p: Phase) { !p.Idle? && !p.Locking? && !p.Finished? }

  predicate HoldsLock(p: Phase) { p.Sending? || p.Clearing? || p.Checking? || p.Taking? }

  /** Sent and not yet answered to the caller. */
  predicate Outstanding(p: Phase) { p.Clearing? || p.Checking? || p.Waiting? || p.Waking? || p.Taking? }

  ghost predicate Locks(s: State) {
    && (forall c :: 0 <= c < |s.callers| ==> (InCall(Ph(s, c)) <==> s.bridge == Some(c)))
    && (forall c :: 0 <= c < |s.callers| ==> (HoldsLock(Ph(s, c)) <==> s.lock == Some(c)))
    && (s.bridge.Some? ==> s.bridge.value < |s.callers|)
    && (s.lock.Some? ==> s.lock.value < |s.callers|)
  }

  /** Peeks and pokes in the queue. */
  function Pending(q: seq<Request>): seq<Request> {
    if q == [] then [] else (if q[0].StartPolling? then [] else [q[0]]) + Pending(q[1..])
  }

  lemma {:induction false} PendingAppend(q: seq<Request>, r: Request)
    ensures Pending(q + [r]) == Pending(q) + if r.StartPolling? then [] else [r]
  {
    if q != [] {
      assert (q + [r])[1..] == q[1..] + [r];
      PendingAppend(q[1..], r);
    } else {
      assert (q + [r])[1..] == [];
    }
  }

  /** Taking the first request off a queue with at most one peek or poke in it. */
  lemma PendingPop(q: seq<Request>)
    requires q != []
    ensures q[0].StartPolling? ==> Pending(q[1..]) == Pending(q)
    ensures !q[0].StartPolling? ==> |Pending(q)| > 0 && Pending(q)[0] == q[0]
    ensures !q[0].StartPolling? && |Pending(q)| == 1 ==> Pending(q[1..]) == []
  {
  }

  /** A good result of a request comes from an access to the device for that same
      request, begun no earlier than access number `begun`. */
  predicate Justified(log: seq<Access>, req: Request, begun: nat, r: Result) {
    && !r.WrongResponse?
    && (r.Good? ==> exists k :: begun <= k < |log| && log[k] == Access(req, Some(r)))
  }

  predicate Answers(log: seq<Access>, req: Request, begun: nat, resp: Response) {
    resp == ResponseTo(req, Understand(req, resp)) && Justified(log, req, begun, Understand(req, resp))
  }

  predicate Busy(w: Worker) { w.Executing? || w.Storing? }

  /** Nothing is on its way. */
  predicate Quiet(s: State) { s.slot == None && Pending(s.queue) == [] && !Busy(s.worker) }

  /** Exactly one request is on its way, it is the caller's, and it is in exactly one
      place: the queue, the worker's hands or the slot. */
  predicate OneInFlight(s: State, req: Request, begun: nat) {
    || (s.slot == None && Pending(s.queue) == [req] && !Busy(s.worker))
    || (s.slot == None && Pending(s.queue) == [] && s.worker == Executing(req) && begun < |s.log|
        && s.log[|s.log| - 1] == Access(req, None))
    || (s.slot == None && Pending(s.queue) == [] && s.worker.Storing? && Answers(s.log, req, begun, s.worker.resp))
    || (s.slot.Some? && Pending(s.queue) == [] && !Busy(s.worker) && Answers(s.log, req, begun, s.slot.value))
  }

  ghost predicate CallerInv(s: State, c: nat)
    requires At(s, c)
  {
    var p := Ph(s, c);
    && s.callers[c].begun <= |s.log|
    && (p.Returned? || p.Finished? ==> Justified(s.log, p.req, s.callers[c].begun, p.result))
    && (p.Finished? ==> p.result.Good?)
    && (!p.Idle? ==> !p.req.StartPolling?)
    && (Outstanding(p) ==> OneInFlight(s, p.req, s.callers[c].begun))
    && (p.Taking? ==> s.slot.Some?)
    && (p.Clearing? ==> s.slot.None?)
    && (p.Waiting? && s.slot.Some? ==> p.notified || s.worker.Notifying?)
  }

  ghost predicate Inv(s: State) {
    && Locks(s)
    && (forall c :: 0 <= c < |s.callers| ==> CallerInv(s, c))
    && ((forall c :: 0 <= c < |s.callers| ==> !Outstanding(Ph(s, c))) ==> Quiet(s))
    && (s.worker.Connecting? ==> !s.worker.first)
  }

  /** Just after `connect` has consumed the `OpenedDevice` response. */
  predicate Ready(s: State) {
    && (forall c :: 0 <= c < |s.callers| ==> s.callers[c] == Caller(Idle, 0))
    && s.bridge == None && s.lock == None && s.slot == None && s.log == []
    && (s.queue == [] || s.queue == [StartPolling])
    && (s.worker == Receiving || s.worker == Notifying(false))
  }

  // ---------- Every step keeps it ----------

  /** Callers other than the one in the bridge are not in a call. */
  lemma OthersOutside(s: State, c: nat, d: nat)
    requires Locks(s) && s.bridge == Some(c) && At(s, d) && d != c
    ensures !InCall(Ph(s, d)) && !Outstanding(Ph(s, d)) && !HoldsLock(Ph(s, d))
  {
    assert InCall(Ph(s, d)) <==> s.bridge == Some(d);
  }

  /** A step of the caller in the bridge leaves the other callers' invariant alone. */
  lemma OthersKeep(s: State, t: State, c: nat)
    requires Inv(s) && At(s, c) && s.bridge == Some(c)
    requires |t.callers| == |s.callers| && t.log == s.log
    requires forall d :: 0 <= d < |s.callers| && d != c ==> t.callers[d] == s.callers[d]
    ensures forall d :: 0 <= d < |s.callers| && d != c ==> CallerInv(t, d) && !Outstanding(Ph(t, d))
  {
    forall d | 0 <= d < |s.callers| && d != c
      ensures CallerInv(t, d) && !Outstanding(Ph(t, d))
    {
      OthersOutside(s, c, d);
      assert CallerInv(s, d);
    }
  }

  /** What is left to show for a step of the caller in the bridge. */
  lemma CallerStepKeeps(s: State, t: State, c: nat)
    requires Inv(s) && At(s, c) && s.bridge == Some(c)
    requires |t.callers| == |s.callers| && t.log == s.log && t.worker == s.worker
    requires forall d :: 0 <= d < |s.callers| && d != c ==> t.callers[d] == s.callers[d]
    requires t.bridge == (if InCall(Ph(t, c)) then Some(c) else None)
    requires t.lock == (if HoldsLock(Ph(t, c)) then Some(c) else None)
    requires CallerInv(t, c) && (!Outstanding(Ph(t, c)) ==> Quiet(t))
    ensures Inv(t)
  {
    OthersKeep(s, t, c);
    forall d | 0 <= d < |s.callers|
      ensures InCall(Ph(t, d)) <==> t.bridge == Some(d)
      ensures HoldsLock(Ph(t, d)) <==> t.lock == Some(d)
    {
      if d != c {
        OthersOutside(s, c, d);
      }
    }
  }

  /** With the bridge held by `c` and nothing sent, nothing is on its way. */
  lemma QuietWhen(s: State, c: nat)
    requires Inv(s) && At(s, c) && s.bridge == Some(c) && !Outstanding(Ph(s, c))
    ensures Quiet(s)
  {
    forall d | 0 <= d < |s.callers|
      ensures !Outstanding(Ph(s, d))
    {
      if d != c {
        OthersOutside(s, c, d);
      }
    }
  }

  lemma LockOwner(s: State, c: nat)
    requires Inv(s) && At(s, c) && s.bridge == Some(c)
    ensures s.lock == if HoldsLock(Ph(s, c)) then Some(c) else None
  {
    if s.lock.Some? && s.lock.value != c {
      OthersOutside(s, c, s.lock.value);
    }
  }

  predicate OfHolder(st: Step) {
    || st.TakeLock? || st.Send? || st.Clear? || st.Check? || st.Wake?
    || st.SpuriousWake? || st.Relock? || st.Take? || st.Leave?
  }

  lemma HolderStep(s: State, st: Step)
    requires Inv(s) && Enabled(s, st) && OfHolder(st)
    ensures Inv(Do(s, st))
  {
    hide Inv, Locks, Pending;
    var c, t := st.c, Do(s, st);
    HolderFacts(s, c);
    LockOwner(s, c);
    if !Outstanding(Ph(s, c)) {
      QuietWhen(s, c);
    }
    if st.Send? {
      PendingAppend(s.queue, Ph(s, c).req);
    }
    CallerStepKeeps(s, t, c);
  }

  lemma HolderFacts(s: State, c: nat)
    requires Inv(s) && At(s, c) && InCall(Ph(s, c))
    ensures s.bridge == Some(c) && CallerInv(s, c)
  {
  }

  lemma CallKeeps(s: State, c: nat, req: Request)
    requires Inv(s) && Enabled(s, Call(c, req))
    ensures Inv(Do(s, Call(c, req)))
  {
    var t := Do(s, Call(c, req));
    forall d | 0 <= d < |s.callers|
      ensures CallerInv(t, d) && (Outstanding(Ph(t, d)) <==> Outstanding(Ph(s, d)))
      ensures InCall(Ph(t, d)) <==> InCall(Ph(s, d))
      ensures HoldsLock(Ph(t, d)) <==> HoldsLock(Ph(s, d))
    {
      assert CallerInv(s, d);
    }
  }

  lemma TakeBridgeKeeps(s: State, c: nat)
    requires Inv(s) && Enabled(s, TakeBridge(c))
    ensures Inv(Do(s, TakeBridge(c)))
  {
    var t := Do(s, TakeBridge(c));
    forall d | 0 <= d < |s.callers|
      ensures CallerInv(t, d) && !Outstanding(Ph(t, d)) && !Outstanding(Ph(s, d))
      ensures InCall(Ph(t, d)) <==> t.bridge == Some(d)
      ensures HoldsLock(Ph(t, d)) <==> t.lock == Some(d)
    {
      assert InCall(Ph(s, d)) <==> s.bridge == Some(d);
      assert CallerInv(s, d);
    }
  }

  // ---------- The worker ----------

  /** The log of accesses only grows, and a finished access stays as it is. */
  predicate LogGrows(a: seq<Access>, b: seq<Access>) {
    |a| <= |b| && forall k :: 0 <= k < |a| && a[k].result.Some? ==> b[k] == a[k]
  }

  lemma JustifiedStays(a: seq<Access>, b: seq<Access>, req: Request, begun: nat, r: Result)
    requires LogGrows(a, b) && Justified(a, req, begun, r)
    ensures Justified(b, req, begun, r)
  {
    if r.Good? {
      var k :| begun <= k < |a| && a[k] == Access(req, Some(r));
      assert b[k] == Access(req, Some(r));
    }
  }

  /** No caller is outstanding, or exactly the one in the bridge is. */
  lemma HolderOr(s: State) returns (h: Option<nat>)
    requires Inv(s)
    ensures h.None? ==> Quiet(s) && forall c :: 0 <= c < |s.callers| ==> !Outstanding(Ph(s, c))
    ensures h.Some? ==> At(s, h.value) && s.bridge == h && Outstanding(Ph(s, h.value))
  {
    if c :| 0 <= c < |s.callers| && Outstanding(Ph(s, c)) {
      assert InCall(Ph(s, c)) <==> s.bridge == Some(c);
      return Some(c);
    }
    return None;
  }

  /** What is left to show for a step of the worker: that the outstanding caller's
      request is still in exactly one place. */
  lemma WorkerStepKeeps(s: State, t: State, h: Option<nat>)
    requires Inv(s) && t.bridge == s.bridge && t.lock == s.lock && LogGrows(s.log, t.log)
    requires t.worker.Connecting? ==> !t.worker.first
    requires |t.callers| == |s.callers|
    requires forall d :: 0 <= d < |s.callers| && h != Some(d) ==> t.callers[d] == s.callers[d]
    requires h.None? ==> Quiet(t) && forall c :: 0 <= c < |s.callers| ==> !Outstanding(Ph(s, c))
    requires h.Some? ==>
               && At(s, h.value) && s.bridge == h && Outstanding(Ph(s, h.value)) && Outstanding(Ph(t, h.value))
               && (HoldsLock(Ph(t, h.value)) <==> HoldsLock(Ph(s, h.value))) && CallerInv(t, h.value)
    ensures Inv(t)
  {
    forall d | 0 <= d < |s.callers|
      ensures CallerInv(t, d)
      ensures InCall(Ph(t, d)) <==> t.bridge == Some(d)
      ensures HoldsLock(Ph(t, d)) <==> t.lock == Some(d)
      ensures Outstanding(Ph(t, d)) <==> h == Some(d)
    {
      assert CallerInv(s, d) && (InCall(Ph(s, d)) <==> s.bridge == Some(d));
      if h != Some(d) {
        if h.Some? {
          OthersOutside(s, h.value, d);
        }
        var p := Ph(s, d);
        if p.Returned? || p.Finished? {
          JustifiedStays(s.log, t.log, p.req, s.callers[d].begun, p.result);
        }
      }
    }
  }

  /** The worker takes a request off the queue. */
  lemma TakingKeeps(s: State, st: Step)
    requires Inv(s) && Enabled(s, st) && (st.Receive? || st.DrainOne?)
    ensures Inv(Do(s, st))
  {
    var h := HolderOr(s);
    if h.Some? {
      HolderFacts(s, h.value);
    }
    PendingPop(s.queue);
    hide Inv, Locks, Pending;
    WorkerStepKeeps(s, Do(s, st), h);
  }

  /** The worker takes nothing and delivers nothing. */
  lemma TurningKeeps(s: State, st: Step)
    requires Inv(s) && Enabled(s, st) && (st.Connected? || st.DrainEnd? || st.NotifyNobody?)
    ensures Inv(Do(s, st))
  {
    var h := HolderOr(s);
    if h.Some? {
      HolderFacts(s, h.value);
    }
    assert s.worker.Connecting? ==> !s.worker.first;
    hide Inv, Locks, Pending, Justified, Answers;
    WorkerStepKeeps(s, Do(s, st), h);
  }

  lemma EndAccessKeeps(s: State, result: Result)
    requires Inv(s) && Enabled(s, EndAccess(result))
    ensures Inv(Do(s, EndAccess(result)))
  {
    var h := HolderOr(s);
    var t := Do(s, EndAccess(result));
    if h.Some? {
      assert CallerInv(s, h.value);
      var req, begun := Ph(s, h.value).req, s.callers[h.value].begun;
      var k := |s.log| - 1;
      assert t.log[k] == Access(req, Some(result));
      assert Justified(t.log, req, begun, result);
      assert Answers(t.log, req, begun, t.worker.resp);
    }
    hide Inv, Locks, Pending, Justified, Answers;
    WorkerStepKeeps(s, t, h);
  }

  lemma StoreKeeps(s: State)
    requires Inv(s) && Enabled(s, Store)
    ensures Inv(Do(s, Store))
  {
    var h := HolderOr(s);
    if h.Some? {
      HolderFacts(s, h.value);
      LockOwner(s, h.value);
    }
    hide Inv, Locks, Pending, Justified, Answers;
    WorkerStepKeeps(s, Do(s, Store), h);
  }

  lemma NotifyKeeps(s: State, c: nat)
    requires Inv(s) && Enabled(s, Notify(c))
    ensures Inv(Do(s, Notify(c)))
  {
    HolderFacts(s, c);
    hide Inv, Locks, Pending, Justified, Answers;
    WorkerStepKeeps(s, Do(s, Notify(c)), Some(c));
  }

  lemma StepKeeps(s: State, st: Step)
    requires Inv(s) && Enabled(s, st)
    ensures Inv(Do(s, st))
  {
    hide Inv, Enabled, Do;
    match st
    case Call(c, req) => CallKeeps(s, c, req);
    case TakeBridge(c) => TakeBridgeKeeps(s, c);
    case EndAccess(r) => EndAccessKeeps(s, r);
    case Store => StoreKeeps(s);
    case Notify(c) => NotifyKeeps(s, c);
    case _ =>
      if OfHolder(st) {
        HolderStep(s, st);
      } else if st.Receive? || st.DrainOne? {
        TakingKeeps(s, st);
      } else {
        TurningKeeps(s, st);
      }
  }

  lemma ReadyInv(s: State)
    requires Ready(s)
    ensures Inv(s)
  {
    assert Pending([]) == [];
    if s.queue != [] {
      assert s.queue[1..] == [];
    }
  }

  lemma {:induction false} RunKeeps(s: State, steps: seq<Step>)
    requires Inv(s) && Runs(s, steps)
    ensures Inv(Final(s, steps))
    decreases |steps|
  {
    hide Inv, Enabled, Do;
    if steps != [] {
      StepKeeps(s, steps[0]);
      RunKeeps(Do(s, steps[0]), steps[1..]);
    }
  }

  // ---------- What it means ----------

  /** Peeks and pokes that were sent and whose response has not been taken. */
  function InFlight(s: State): nat {
    |Pending(s.queue)| + (if Answering(s.worker) then 1 else 0) + (if Answered(s.slot) then 1 else 0)
  }

  /** The worker has a peek or poke in hand. */
  predicate Answering(w: Worker) { w.Executing? || (w.Storing? && w.resp != OpenedDevice) }

  /** The slot holds the response to a peek or poke. */
  predicate Answered(slot: Option<Response>) { slot.Some? && slot.value != OpenedDevice }

  /** At most one request is on its way, an answer in the slot is the answer to it, no
      call gets a wrong response, and a call that returned `v` got it from an access to
      the device for that very request, begun after the call. */
  ghost predicate Safe(t: State) {
    && InFlight(t) <= 1
    && (Answered(t.slot) ==>
          exists c :: 0 <= c < |t.callers| && Outstanding(Ph(t, c))
              && t.slot.value == ResponseTo(Ph(t, c).req, Understand(Ph(t, c).req, t.slot.value)))
    && (forall c :: 0 <= c < |t.callers| && (Ph(t, c).Returned? || Ph(t, c).Finished?) ==>
          Ph(t, c).result != WrongResponse)
    && (forall c :: 0 <= c < |t.callers| && Ph(t, c).Finished? ==>
          Ph(t, c).result.Good? &&
          exists k :: t.callers[c].begun <= k < |t.log|
              && t.log[k] == Access(Ph(t, c).req, Some(Ph(t, c).result)))
  }

  lemma InvSafe(t: State)
    requires Inv(t)
    ensures Safe(t) && t.slot != Some(OpenedDevice)
  {
    var h := HolderOr(t);
    if h.Some? {
      assert CallerInv(t, h.value);
    }
    forall c | 0 <= c < |t.callers| && (Ph(t, c).Returned? || Ph(t, c).Finished?)
      ensures Ph(t, c).result != WrongResponse
      ensures Ph(t, c).Finished? ==>
                Ph(t, c).result.Good? &&
                exists k :: t.callers[c].begun <= k < |t.log|
                    && t.log[k] == Access(Ph(t, c).req, Some(Ph(t, c).result))
    {
      assert CallerInv(t, c);
    }
  }

  /** In every interleaving after `connect`, with reconnects and spurious wakeups. */
  lemma MailboxSafe(s: State, steps: seq<Step>)
    requires Ready(s) && Runs(s, steps)
    ensures Safe(Final(s, steps)) && Final(s, steps).slot != Some(OpenedDevice)
  {
    ReadyInv(s);
    RunKeeps(s, steps);
    InvSafe(Final(s, steps));
  }

  // ---------- Reconnecting ----------

  /** An access has failed and the device has not been opened again. */
  predicate Broken(w: Worker) {
    || ((w.Storing? || w.Notifying?) && w.drain)
    || w.Draining? || w == Connecting(false)
  }

  /** ... and whatever is answered meanwhile is answered with a failure. */
  predicate Failing(w: Worker) {
    Broken(w) && (w.Storing? ==> w.resp in {PeekResult(Bad), PokeResult(Bad)})
  }

  /** A failed access, and nothing else, makes the worker reconnect; only opening the device
      ends that; before it does so the queue is drained; and meanwhile nothing is accessed. */
  lemma ReconnectStep(s: State, st: Step)
    requires Enabled(s, st)
    ensures var t := Do(s, st);
            && (Broken(t.worker) <==> st == EndAccess(Bad) || (Broken(s.worker) && !st.Connected?))
            && (st == EndAccess(Bad) || (Failing(s.worker) && !st.Connected?) ==> Failing(t.worker))
            && (t.worker == Connecting(false) && s.worker != Connecting(false) ==> t.queue == [])
            && (|t.log| != |s.log| ==> st.Receive? && !Broken(s.worker))
  {
  }

  /** From a failed access until the device is opened again, no request is accessed and all
      answers are failures; without a failed access the worker never reconnects. */
  lemma {:induction false} ReconnectsFirst(s: State, steps: seq<Step>)
    requires Runs(s, steps)
    ensures Failing(s.worker) && (forall i :: 0 <= i < |steps| ==> !steps[i].Connected?) ==>
              Failing(Final(s, steps).worker) && |Final(s, steps).log| == |s.log|
    ensures !Broken(s.worker) && (forall i :: 0 <= i < |steps| ==> steps[i] != EndAccess(Bad)) ==>
              !Broken(Final(s, steps).worker)
    decreases |steps|
  {
    hide Enabled, Do, Broken, Failing;
    if steps != [] {
      ReconnectStep(s, steps[0]);
      ReconnectsFirst(Do(s, steps[0]), steps[1..]);
      BrokenFailing(s.worker);
      assert forall i :: 0 <= i < |steps| - 1 ==> steps[1..][i] == steps[i + 1];
    }
  }

  lemma BrokenFailing(w: Worker)
    ensures Failing(w) ==> Broken(w)
  {
  }

  // ---------- Runs, one step at a time ----------

  ghost predicate Reaches(s: State, t: State) {
    exists steps :: Runs(s, steps) && Final(s, steps) == t
  }

  lemma {:induction false} RunsAppend(s: State, steps: seq<Step>, st: Step)
    requires Runs(s, steps) && Enabled(Final(s, steps), st)
    ensures Runs(s, steps + [st]) && Final(s, steps + [st]) == Do(Final(s, steps), st)
    decreases |steps|
  {
    hide Enabled, Do;
    if steps == [] {
      assert ([] + [st])[1..] == [];
      assert Runs(Do(s, st), []);
    } else {
      RunsAppend(Do(s, steps[0]), steps[1..], st);
      assert (steps + [st])[1..] == steps[1..] + [st];
    }
  }

  lemma ReachStep(s: State, t: State, st: Step)
    requires Reaches(s, t) && Enabled(t, st)
    ensures Reaches(s, Do(t, st))
  {
    hide Enabled, Do, Runs, Final;
    var steps :| Runs(s, steps) && Final(s, steps) == t;
    RunsAppend(s, steps, st);
  }

  lemma ReachesSelf(s: State)
    ensures Reaches(s, s)
  {
    assert Runs(s, []) && Final(s, []) == s;
  }

  // ---------- Every call can finish ----------

  lemma {:induction false} RunsJoin(s: State, a: seq<Step>, b: seq<Step>)
    requires Runs(s, a) && Runs(Final(s, a), b)
    ensures Runs(s, a + b) && Final(s, a + b) == Final(Final(s, a), b)
    decreases |a|
  {
    hide Enabled, Do;
    if a == [] {
      assert a + b == b;
    } else {
      RunsJoin(Do(s, a[0]), a[1..], b);
      assert (a + b)[1..] == a[1..] + b;
    }
  }

  lemma ReachTrans(s: State, t: State, u: State)
    requires Reaches(s, t) && Reaches(t, u)
    ensures Reaches(s, u)
  {
    hide Runs, Final;
    var a :| Runs(s, a) && Final(s, a) == t;
    var b :| Runs(t, b) && Final(t, b) == u;
    RunsJoin(s, a, b);
  }

  /** `u` is reached from `t` while only caller `h` and the worker move. */
  ghost predicate Leads(t: State, u: State, h: nat) {
    && Reaches(t, u) && Inv(u) && |u.callers| == |t.callers| && h < |t.callers|
    && (forall d :: 0 <= d < |t.callers| && d != h ==> u.callers[d] == t.callers[d])
    && !Ph(u, h).Idle? && !Ph(t, h).Idle? && Ph(u, h).req == Ph(t, h).req
  }

  lemma LeadsTrans(t: State, u: State, v: State, h: nat)
    requires Leads(t, u, h) && Leads(u, v, h)
    ensures Leads(t, v, h)
  {
    hide Reaches, Inv;
    ReachTrans(t, u, v);
  }

  lemma LeadsSelf(t: State, h: nat)
    requires Inv(t) && At(t, h) && !Ph(t, h).Idle?
    ensures Leads(t, t, h)
  {
    hide Reaches, Inv;
    ReachesSelf(t);
  }

  lemma LeadsStep(t: State, st: Step, h: nat)
    requires Inv(t) && At(t, h) && Enabled(t, st) && !Ph(t, h).Idle?
    requires var u := Do(t, st);
             && |u.callers| == |t.callers| && !Ph(u, h).Idle? && Ph(u, h).req == Ph(t, h).req
             && (forall d :: 0 <= d < |t.callers| && d != h ==> u.callers[d] == t.callers[d])
    ensures Leads(t, Do(t, st), h)
  {
    hide Reaches, Inv, Enabled, Do;
    ReachesSelf(t);
    ReachStep(t, t, st);
    StepKeeps(t, st);
  }

  /** With nothing on its way, the worker comes to wait at an empty queue. */
  lemma {:induction false} Quieten(t: State, h: nat) returns (u: State)
    requires Inv(t) && At(t, h) && t.bridge == Some(h) && !Outstanding(Ph(t, h)) && !Ph(t, h).Idle?
    ensures Leads(t, u, h) && u.callers == t.callers && u.bridge == t.bridge && u.lock == t.lock
    ensures u.slot == None && u.worker == Receiving && u.queue == []
    decreases |t.queue|,
              if t.worker.Notifying? then 3 else if t.worker.Draining? then 2 else if t.worker.Connecting? then 1 else 0
  {
    hide Leads;
    QuietWhen(t, h);
    NobodyWaits(t, h);
    if t.worker == Receiving && t.queue == [] {
      LeadsSelf(t, h);
      return t;
    }
    var st := IdleStep(t);
    assert st.Receive? || st.DrainOne? ==> t.queue[0].StartPolling?;
    var t1 := Do(t, st);
    LeadsStep(t, st, h);
    StepKeeps(t, st);
    u := Quieten(t1, h);
    LeadsTrans(t, t1, u, h);
  }

  lemma NobodyWaits(t: State, h: nat)
    requires Inv(t) && At(t, h) && t.bridge == Some(h) && !Outstanding(Ph(t, h))
    ensures forall d :: 0 <= d < |t.callers| ==> !Ph(t, d).Waiting?
    ensures t.worker.Connecting? ==> !t.worker.first
  {
    forall d | 0 <= d < |t.callers|
      ensures !Ph(t, d).Waiting?
    {
      if d != h {
        OthersOutside(t, h, d);
      }
    }
  }

  /** What the worker does when no request is on its way. */
  function IdleStep(t: State): Step {
    if t.worker.Notifying? then NotifyNobody
    else if t.worker.Draining? then (if t.queue == [] then DrainEnd else DrainOne)
    else if t.worker.Connecting? then Connected
    else Receive
  }

  function Stage(t: State): nat {
    if t.slot.Some? then 0 else if t.worker.Storing? then 1 else if t.worker.Executing? then 2 else 3
  }

  function WorkerRank(w: Worker): nat { if w.Notifying? then 2 else if w.Connecting? then 1 else 0 }

  function CallerRank(p: Phase, stage: nat): nat {
    if stage == 0 then
      if p.Waiting? then (if p.notified then 4 else 5) else if p.Waking? then 3 else if p.Checking? then 2 else 1
    else if p.Waiting? then 0 else if p.Checking? then 1 else 2
  }

  /** The outstanding request of caller `h` will be answered with success. */
  predicate Hopeful(t: State, h: nat)
    requires At(t, h) && Outstanding(Ph(t, h))
  {
    if t.slot.Some? then Understand(Ph(t, h).req, t.slot.value).Good?
    else if t.worker.Storing? then Understand(Ph(t, h).req, t.worker.resp).Good?
    else t.worker.Executing? || t.worker == Receiving || t.worker == Notifying(false)
  }

  /** The step that brings the answer nearer: the caller's as long as it does not wait in
      vain, else the worker's, whose accesses succeed. */
  function NextStep(t: State, h: nat): Step
    requires At(t, h)
  {
    match Ph(t, h)
    case Clearing(_) => Clear(h)
    case Checking(_) => Check(h)
    case Waking(_) => Relock(h)
    case Taking(_) => Take(h)
    case Waiting(_, notified) =>
      if t.slot.Some? && notified then Wake(h)
      else
        (match t.worker
         case Connecting(_) => Connected
         case Executing(_) => EndAccess(Good(0))
         case Storing(_, _) => Store
         case Notifying(_) => Notify(h)
         case Receiving => Receive
         case Draining => DrainOne)
    case _ => Leave(h)
  }

  lemma NextEnabled(t: State, h: nat)
    requires Inv(t) && At(t, h) && t.bridge == Some(h) && Outstanding(Ph(t, h))
    ensures Enabled(t, NextStep(t, h))
  {
    HolderFacts(t, h);
    LockOwner(t, h);
    hide Inv, Locks;
  }

  lemma NextNearer(t: State, h: nat)
    requires Inv(t) && At(t, h) && t.bridge == Some(h) && Outstanding(Ph(t, h)) && Enabled(t, NextStep(t, h))
    ensures var u := Do(t, NextStep(t, h));
            && |u.callers| == |t.callers|
            && (forall d :: 0 <= d < |t.callers| && d != h ==> u.callers[d] == t.callers[d])
            && !Ph(u, h).Idle? && Ph(u, h).req == Ph(t, h).req && u.bridge == t.bridge
            && (Ph(u, h).Returned? || Outstanding(Ph(u, h)))
            && (Ph(u, h).Returned? && Hopeful(t, h) ==> Ph(u, h).result.Good?)
  {
    HolderFacts(t, h);
    hide Inv, Locks;
  }

  /** The order in which steps bring the answer nearer. */
  predicate Nearer(t: State, u: State, h: nat)
    requires At(t, h) && At(u, h)
  {
    || Stage(u) < Stage(t)
    || (Stage(u) == Stage(t) && |u.queue| < |t.queue|)
    || (Stage(u) == Stage(t) && |u.queue| == |t.queue| && WorkerRank(u.worker) < WorkerRank(t.worker))
    || (Stage(u) == Stage(t) && |u.queue| == |t.queue| && u.worker == t.worker
        && CallerRank(Ph(u, h), Stage(u)) < CallerRank(Ph(t, h), Stage(t)))
  }

  /** The worker has to move. */
  predicate Vain(t: State, h: nat)
    requires At(t, h)
  {
    Ph(t, h).Waiting? && !(t.slot.Some? && Ph(t, h).notified)
  }

  lemma CallerNearer(t: State, h: nat)
    requires At(t, h) && Outstanding(Ph(t, h)) && CallerInv(t, h) && !Vain(t, h) && Enabled(t, NextStep(t, h))
    ensures var u := Do(t, NextStep(t, h));
            At(u, h) && (Outstanding(Ph(u, h)) ==> Nearer(t, u, h) && (Hopeful(t, h) ==> Hopeful(u, h)))
  {
    hide Answers, Justified, Pending;
  }

  lemma WorkerNearer(t: State, h: nat)
    requires At(t, h) && Outstanding(Ph(t, h)) && CallerInv(t, h) && Vain(t, h) && Enabled(t, NextStep(t, h))
    requires t.worker.Connecting? ==> !t.worker.first
    ensures var u := Do(t, NextStep(t, h));
            At(u, h) && Outstanding(Ph(u, h)) && Nearer(t, u, h)
  {
    hide Answers, Justified, Pending, Hopeful;
  }

  lemma WorkerHopeful(t: State, h: nat)
    requires At(t, h) && Outstanding(Ph(t, h)) && CallerInv(t, h) && Vain(t, h) && Enabled(t, NextStep(t, h))
    ensures var u := Do(t, NextStep(t, h));
            At(u, h) && Outstanding(Ph(u, h)) && (Hopeful(t, h) ==> Hopeful(u, h))
  {
    if t.queue != [] {
      PendingPop(t.queue);
    }
    hide Answers, Justified, Pending, CallerInv, OneInFlight;
    var u := Do(t, NextStep(t, h));
    assert t.worker.Executing? ==> u.worker == Storing(ResponseTo(t.worker.req, Good(0)), false);
  }

  lemma NextSmaller(t: State, h: nat)
    requires Inv(t) && At(t, h) && t.bridge == Some(h) && Outstanding(Ph(t, h)) && Enabled(t, NextStep(t, h))
    ensures var u := Do(t, NextStep(t, h));
            At(u, h) && (Outstanding(Ph(u, h)) ==> Nearer(t, u, h) && (Hopeful(t, h) ==> Hopeful(u, h)))
  {
    HolderFacts(t, h);
    assert t.worker.Connecting? ==> !t.worker.first;
    hide Inv, Locks, Nearer, Hopeful, Do, Enabled;
    if Vain(t, h) {
      WorkerNearer(t, h);
      WorkerHopeful(t, h);
    } else {
      CallerNearer(t, h);
    }
  }

  /** An outstanding request is answered. */
  lemma {:induction false} Drive(t: State, h: nat) returns (u: State)
    requires Inv(t) && At(t, h) && t.bridge == Some(h) && Outstanding(Ph(t, h))
    ensures Leads(t, u, h) && u.bridge == Some(h) && Ph(u, h).Returned?
    ensures Hopeful(t, h) ==> Ph(u, h).result.Good?
    decreases Stage(t), |t.queue|, WorkerRank(t.worker), CallerRank(Ph(t, h), Stage(t))
  {
    hide Leads, Inv, Enabled, Do, Stage, WorkerRank, CallerRank, Hopeful;
    NextEnabled(t, h);
    NextNearer(t, h);
    NextSmaller(t, h);
    var st := NextStep(t, h);
    var t1 := Do(t, st);
    LeadsStep(t, st, h);
    StepKeeps(t, st);
    if Ph(t1, h).Returned? {
      u := t1;
    } else {
      u := Drive(t1, h);
      LeadsTrans(t, t1, u, h);
    }
  }

  /** From before the request is sent, when nothing is on its way and the worker is ready. */
  lemma Attempt(t: State, h: nat) returns (u: State)
    requires Inv(t) && At(t, h) && t.bridge == Some(h) && (Ph(t, h).Entering? || Ph(t, h).Sending?)
    ensures Leads(t, u, h) && u.bridge == None && Ph(u, h).Finished?
  {
    hide Leads, Inv;
    var t1 := Quieten(t, h);
    LeadsInv(t, t1, h);
    LockOwner(t1, h);
    var t2 := t1;
    LeadsSelf(t1, h);
    if Ph(t1, h).Entering? {
      LeadsStep(t1, TakeLock(h), h);
      t2 := Do(t1, TakeLock(h));
      StepKeeps(t1, TakeLock(h));
    }
    LeadsTrans(t, t1, t2, h);
    LeadsStep(t2, Send(h), h);
    var t3 := Do(t2, Send(h));
    StepKeeps(t2, Send(h));
    LeadsTrans(t, t2, t3, h);
    assert Hopeful(t3, h);
    var t4 := Drive(t3, h);
    LeadsTrans(t, t3, t4, h);
    LeadsInv(t3, t4, h);
    LeadsStep(t4, Leave(h), h);
    u := Do(t4, Leave(h));
    LeadsTrans(t, t4, u, h);
  }

  lemma LeadsInv(t: State, u: State, h: nat)
    requires Leads(t, u, h)
    ensures Inv(u) && |u.callers| == |t.callers| && At(u, h) && At(t, h) && !Ph(u, h).Idle?
  {
    hide Reaches, Inv;
  }

  /** The caller in the bridge can finish its call. */
  lemma HolderCanFinish(t: State, h: nat) returns (u: State)
    requires Inv(t) && At(t, h) && t.bridge == Some(h) && InCall(Ph(t, h))
    ensures Leads(t, u, h) && u.bridge == None && Ph(u, h).Finished?
  {
    hide Leads, Inv;
    if Ph(t, h).Entering? || Ph(t, h).Sending? {
      u := Attempt(t, h);
      return;
    }
    var t1 := t;
    LeadsSelf(t, h);
    if Outstanding(Ph(t, h)) {
      t1 := Drive(t, h);
    }
    LeadsInv(t, t1, h);
    LeadsStep(t1, Leave(h), h);
    var t2 := Do(t1, Leave(h));
    StepKeeps(t1, Leave(h));
    LeadsTrans(t, t1, t2, h);
    u := t2;
    if Ph(t2, h).Entering? {
      u := Attempt(t2, h);
      LeadsTrans(t, t2, u, h);
    }
  }

  /** Whatever has happened since `connect`, every call under way can still finish, with
      the answer to its own request: no wakeup is lost for good and nothing deadlocks. */
  lemma CanFinish(s: State, steps: seq<Step>, c: nat) returns (more: seq<Step>)
    requires Ready(s) && Runs(s, steps) && At(Final(s, steps), c)
    requires var p := Ph(Final(s, steps), c); !p.Idle? && !p.Finished?
    ensures Runs(s, steps + more) && At(Final(s, steps + more), c)
    ensures var p := Ph(Final(s, steps + more), c); p.Finished? && p.req == Ph(Final(s, steps), c).req
  {
    hide Runs, Final, Inv;
    ReadyInv(s);
    RunKeeps(s, steps);
    var t := Final(s, steps);
    var u := AnyCanFinish(t, c);
    more :| Runs(t, more) && Final(t, more) == u;
    RunsJoin(s, steps, more);
  }

  lemma AnyCanFinish(t: State, c: nat) returns (u: State)
    requires Inv(t) && At(t, c) && !Ph(t, c).Idle? && !Ph(t, c).Finished?
    ensures Reaches(t, u) && At(u, c) && Ph(u, c).Finished? && Ph(u, c).req == Ph(t, c).req
  {
    var t1 := t;
    ReachesSelf(t);
    if t.bridge.Some? {
      BridgeHolder(t);
      t1 := HolderCanFinish(t, t.bridge.value);
    }
    if t.bridge == Some(c) {
      return t1;
    }
    assert Ph(t, c).Locking?;
    assert Ph(t1, c) == Ph(t, c);
    hide Inv, Reaches;
    LeadsStep(t1, TakeBridge(c), c);
    var t2 := Do(t1, TakeBridge(c));
    StepKeeps(t1, TakeBridge(c));
    u := HolderCanFinish(t2, c);
    ReachTrans(t, t1, t2);
    ReachTrans(t, t2, u);
  }

  lemma BridgeHolder(t: State)
    requires Inv(t) && t.bridge.Some?
    ensures At(t, t.bridge.value) && InCall(Ph(t, t.bridge.value))
  {
  }

  // ---------- From any start: exactly when it is safe ----------

  /** No call has been made yet and no peek or poke is queued.  The worker, the slot and
      the log are arbitrary. */
  predicate Start(s: State) {
    && s.callers != [] && s.bridge == None && s.lock == None && Pending(s.queue) == []
    && (forall c :: 0 <= c < |s.callers| ==> Ph(s, c).Idle? && s.callers[c].begun <= |s.log|)
  }

  /** No response is still to be stored, and the slot holds at most `OpenedDevice`. */
  predicate Settled(s: State) {
    s.worker != Connecting(true) && !Busy(s.worker) && !Answered(s.slot)
  }

  predicate LooksAtSlot(p: Phase) { p.Checking? || p.Waiting? || p.Waking? || p.Taking? }

  /** `OpenedDevice` is still in the slot, and the first call will clear it before
      anybody looks. */
  ghost predicate Stale(s: State) {
    && s.slot == Some(OpenedDevice) && Inv(s.(slot := None))
    && (forall c :: 0 <= c < |s.callers| ==> !LooksAtSlot(Ph(s, c)))
  }

  lemma SettledInv(s: State)
    requires Start(s) && Settled(s)
    ensures Inv(s) || Stale(s)
  {
    assert Inv(s.(slot := None));
    assert s.slot == None ==> s == s.(slot := None);
  }

  /** The worker cannot store anything before the slot is cleared: a busy worker means
      that a caller stands before `Clear`, with the slot's mutex. */
  lemma StoreBlocked(s: State)
    requires Stale(s)
    ensures !Enabled(s, Store)
  {
    var u := s.(slot := None);
    var h := HolderOr(u);
    if h.Some? {
      HolderFacts(u, h.value);
      LockOwner(u, h.value);
      assert !LooksAtSlot(Ph(s, h.value));
    }
  }

  /** Until it is cleared, a stale `OpenedDevice` changes nothing. */
  lemma StaleStep(s: State, st: Step)
    requires Stale(s) && Enabled(s, st)
    ensures Inv(Do(s, st)) || Stale(Do(s, st))
  {
    StoreBlocked(s);
    var u, t := s.(slot := None), Do(s, st);
    assert !st.Store?;
    hide Inv, Pending, Do, Enabled;
    SameButSlot(s, u, st);
    StepKeeps(u, st);
    if !st.Clear? {
      assert t.(slot := None) == Do(u, st);
    }
  }

  lemma SameButSlot(s: State, u: State, st: Step)
    requires u == s.(slot := None) && s.slot == Some(OpenedDevice) && Enabled(s, st) && !st.Store?
    requires forall c :: 0 <= c < |s.callers| ==> !LooksAtSlot(Ph(s, c))
    ensures Enabled(u, st)
    ensures Do(s, st) == if st.Clear? then Do(u, st) else Do(u, st).(slot := s.slot)
    ensures !st.Clear? ==> forall c :: 0 <= c < |Do(s, st).callers| ==> !LooksAtSlot(Ph(Do(s, st), c))
  {
    forall c | 0 <= c < |s.callers|
      ensures Ph(u, c) == Ph(s, c)
      ensures !st.Clear? ==> !LooksAtSlot(Ph(Do(s, st), c))
    {
      assert !LooksAtSlot(Ph(s, c));
    }
  }

  lemma {:induction false} StaleRun(s: State, steps: seq<Step>)
    requires (Inv(s) || Stale(s)) && Runs(s, steps)
    ensures Inv(Final(s, steps)) || Stale(Final(s, steps))
    decreases |steps|
  {
    hide Inv, Stale, Enabled, Do;
    if steps != [] {
      if Inv(s) {
        StepKeeps(s, steps[0]);
      } else {
        StaleStep(s, steps[0]);
      }
      StaleRun(Do(s, steps[0]), steps[1..]);
    }
  }

  lemma StaleSafe(t: State)
    requires Stale(t)
    ensures Safe(t)
  {
    var u := t.(slot := None);
    InvSafe(u);
    forall c | 0 <= c < |t.callers|
      ensures Ph(t, c) == Ph(u, c) && t.callers[c] == u.callers[c]
    {
    }
  }

  /** The first caller in the bridge, at a phase of a first call. */
  function Inside(s: State, p: Phase, lock: Option<nat>): State
    requires s.callers != []
  {
    s.(callers := s.callers[0 := Caller(p, |s.log|)], bridge := Some(0), lock := lock)
  }

  /** A first call gets as far as sending its request. */
  lemma FirstSend(s: State, t: State, req: Request)
    requires Start(t) && Reaches(s, t) && !req.StartPolling?
    ensures Reaches(s, Inside(t.(queue := t.queue + [req]), Clearing(req), Some(0)))
  {
    hide Reaches;
    ReachStep(s, t, Call(0, req));
    var t1 := Do(t, Call(0, req));
    ReachStep(s, t1, TakeBridge(0));
    var t2 := Inside(t, Entering(req), None);
    assert Do(t1, TakeBridge(0)) == t2;
    ReachStep(s, t2, TakeLock(0));
    var t3 := Inside(t, Sending(req), Some(0));
    assert Do(t2, TakeLock(0)) == t3;
    ReachStep(s, t3, Send(0));
    assert Do(t3, Send(0)) == Inside(t.(queue := t.queue + [req]), Clearing(req), Some(0));
  }

  /** The slot is cleared and the worker stores `OpenedDevice`. */
  lemma FirstStale(s: State, t: State, req: Request)
    requires t.callers != [] && t.worker.Storing? && t.worker.resp == OpenedDevice
    requires Reaches(s, Inside(t, Clearing(req), Some(0)))
    ensures Reaches(s, Inside(Opened(t), Waiting(req, false), None))
  {
    hide Reaches;
    var t0 := Inside(t, Clearing(req), Some(0));
    ReachStep(s, t0, Clear(0));
    var t1 := Inside(t.(slot := None), Checking(req), Some(0));
    assert Do(t0, Clear(0)) == t1;
    ReachStep(s, t1, Check(0));
    var t2 := Inside(t.(slot := None), Waiting(req, false), None);
    assert Do(t1, Check(0)) == t2;
    ReachStep(s, t2, Store);
    assert Do(t2, Store) == Inside(Opened(t), Waiting(req, false), None);
  }

  function Opened(t: State): State
    requires t.worker.Storing?
  {
    t.(slot := Some(OpenedDevice), worker := Notifying(t.worker.drain))
  }

  /** The caller takes `OpenedDevice` for its answer. */
  lemma FirstWrong(s: State, t: State, req: Request)
    requires t.callers != [] && t.slot == Some(OpenedDevice)
    requires Reaches(s, Inside(t, Waiting(req, false), None))
    ensures exists u :: Reaches(s, u) && At(u, 0) && Ph(u, 0) == Returned(req, WrongResponse)
  {
    hide Reaches;
    var t0 := Inside(t, Waiting(req, false), None);
    ReachStep(s, t0, SpuriousWake(0));
    var t1 := Inside(t, Waking(req), None);
    assert Do(t0, SpuriousWake(0)) == t1;
    ReachStep(s, t1, Relock(0));
    var t2 := Inside(t, Checking(req), Some(0));
    assert Do(t1, Relock(0)) == t2;
    ReachStep(s, t2, Check(0));
    var t3 := Inside(t, Taking(req), Some(0));
    assert Do(t2, Check(0)) == t3;
    ReachStep(s, t3, Take(0));
    assert Ph(Do(t3, Take(0)), 0) == Returned(req, WrongResponse);
  }

  /** From a start that is not settled some run leads to a state that is not safe: a
      second request under way, or a first call that takes `OpenedDevice` for its answer. */
  lemma Unsettled(s: State)
    requires Start(s) && !Settled(s)
    ensures exists t :: Reaches(s, t) && !Safe(t)
  {
    hide Reaches;
    ReachesSelf(s);
    if !Answered(s.slot) {
      var t := s;
      if s.worker == Connecting(true) {
        ReachStep(s, s, Connected);
        t := Do(s, Connected);
      }
      FirstSend(s, t, Peek(0));
      var u := t.(queue := t.queue + [Peek(0)]);
      PendingAppend(t.queue, Peek(0));
      if Answering(t.worker) {
        assert InFlight(Inside(u, Clearing(Peek(0)), Some(0))) >= 2;
      } else {
        FirstStale(s, u, Peek(0));
        FirstWrong(s, Opened(u), Peek(0));
      }
    }
  }

  /** Every interleaving is safe exactly when, before the first call, no response is
      still to be stored and the slot holds none but `OpenedDevice`. */
  lemma SafeIff(s: State)
    requires Start(s)
    ensures (forall steps :: Runs(s, steps) ==> Safe(Final(s, steps))) <==> Settled(s)
  {
    hide Runs, Final, Safe, Inv, Stale;
    if Settled(s) {
      SettledInv(s);
      forall steps | Runs(s, steps)
        ensures Safe(Final(s, steps))
      {
        StaleRun(s, steps);
        if Inv(Final(s, steps)) {
          InvSafe(Final(s, steps));
        } else {
          StaleSafe(Final(s, steps));
        }
      }
    } else {
      Unsettled(s);
      var t :| Reaches(s, t) && !Safe(t);
      var steps :| Runs(s, steps) && Final(s, steps) == t;
      assert !Safe(Final(s, steps));
    }
  }

  /** No wakeup is lost and nothing deadlocks: as long as some call has not finished, a
      step other than a spurious wakeup or a new call can be taken. */
  lemma NeverStuck(s: State, steps: seq<Step>, c: nat) returns (st: Step)
    requires Ready(s) && Runs(s, steps) && At(Final(s, steps), c)
    requires var p := Ph(Final(s, steps), c); !p.Idle? && !p.Finished?
    ensures Enabled(Final(s, steps), st) && !st.SpuriousWake? && !st.Call?
  {
    ReadyInv(s);
    RunKeeps(s, steps);
    st := CanMove(Final(s, steps), c);
  }

  lemma CanMove(t: State, c: nat) returns (st: Step)
    requires Inv(t) && At(t, c) && !Ph(t, c).Idle? && !Ph(t, c).Finished?
    ensures Enabled(t, st) && !st.SpuriousWake? && !st.Call?
  {
    if t.bridge == None {
      assert InCall(Ph(t, c)) <==> t.bridge == Some(c);
      return TakeBridge(c);
    }
    var h := t.bridge.value;
    HolderFacts(t, h);
    LockOwner(t, h);
    hide Inv, Locks, Pending;
    match Ph(t, h)
    case Entering(_) => return TakeLock(h);
    case Sending(_) => return Send(h);
    case Clearing(_) => return Clear(h);
    case Checking(_) => return Check(h);
    case Waking(_) => return Relock(h);
    case Taking(_) => return Take(h);
    case Returned(_, _) => return Leave(h);
    case Waiting(_, _) => st := WorkerCan(t, h);
  }

  /** While a caller waits, it has been notified or the worker can move. */
  lemma WorkerCan(t: State, h: nat) returns (st: Step)
    requires At(t, h) && Ph(t, h).Waiting? && CallerInv(t, h) && t.lock == None
    ensures Enabled(t, st) && !st.SpuriousWake? && !st.Call?
  {
    if Ph(t, h).notified {
      return Wake(h);
    }
    match t.worker
    case Connecting(_) => return Connected;
    case Executing(_) => return EndAccess(Bad);
    case Storing(_, _) => return Store;
    case Notifying(_) => return Notify(h);
    case Receiving => return Receive;
    case Draining => return DrainOne;
  }

  // ---------- Without `connect` ----------

  /** One caller, inside the bridge or not, with the slot's mutex free. */
  function Lone(
    p: Phase, begun: nat, slot: Option<Response>, queue: seq<Request>, worker: Worker, log: seq<Access>): State
  {
    State([Caller(p, begun)], if InCall(p) then Some(0) else None, None, slot, queue, worker, log)
  }

  /** Lock, send, clear, wait. */
  lemma AskRun(s: State, req: Request, begun: nat, queue: seq<Request>, w: Worker, log: seq<Access>)
    requires Reaches(s, Lone(Entering(req), begun, None, queue, w, log))
    ensures Reaches(s, Lone(Waiting(req, false), begun, None, queue + [req], w, log))
  {
    hide Reaches;
    var t := Lone(Entering(req), begun, None, queue, w, log);
    ReachStep(s, t, TakeLock(0));
    var t1 := Do(t, TakeLock(0));
    ReachStep(s, t1, Send(0));
    var t2 := Do(t1, Send(0));
    ReachStep(s, t2, Clear(0));
    var t3 := Do(t2, Clear(0));
    ReachStep(s, t3, Check(0));
    assert Do(t3, Check(0)) == Lone(Waiting(req, false), begun, None, queue + [req], w, log);
  }

  /** The worker receives a request and reads `v`. */
  lemma AccessRun(s: State, p: Phase, begun: nat, req: Request, rest: seq<Request>, log: seq<Access>, v: nat)
    requires Reaches(s, Lone(p, begun, None, [req] + rest, Receiving, log)) && !req.StartPolling?
    ensures var longer := log + [Access(req, Some(Good(v)))];
            Reaches(s, Lone(p, begun, None, rest, Storing(ResponseTo(req, Good(v)), false), longer))
  {
    hide Reaches;
    var t := Lone(p, begun, None, [req] + rest, Receiving, log);
    ReachStep(s, t, Receive);
    var t1 := Do(t, Receive);
    ReachStep(s, t1, EndAccess(Good(v)));
    assert ([req] + rest)[1..] == rest;
    assert Do(t1, EndAccess(Good(v))).log == log + [Access(req, Some(Good(v)))];
  }

  /** The response is stored, the caller notified, and the response taken. */
  lemma DeliverRun(s: State, req: Request, begun: nat, queue: seq<Request>, resp: Response, log: seq<Access>)
    requires Reaches(s, Lone(Waiting(req, false), begun, None, queue, Storing(resp, false), log))
    ensures Reaches(s, Lone(Returned(req, Understand(req, resp)), begun, None, queue, Receiving, log))
  {
    hide Reaches;
    var t := Lone(Waiting(req, false), begun, None, queue, Storing(resp, false), log);
    ReachStep(s, t, Store);
    var t1 := Do(t, Store);
    ReachStep(s, t1, Notify(0));
    var t2 := Do(t1, Notify(0));
    ReachStep(s, t2, Wake(0));
    var t3 := Do(t2, Wake(0));
    ReachStep(s, t3, Relock(0));
    var t4 := Do(t3, Relock(0));
    ReachStep(s, t4, Check(0));
    var t5 := Do(t4, Check(0));
    ReachStep(s, t5, Take(0));
    assert Do(t5, Take(0)) == Lone(Returned(req, Understand(req, resp)), begun, None, queue, Receiving, log);
  }

  /** A new call gets the bridge. */
  lemma EnterRun(s: State, p: Phase, begun: nat, req: Request, queue: seq<Request>, w: Worker, log: seq<Access>)
    requires (p.Idle? || p.Finished?) && !req.StartPolling? && Reaches(s, Lone(p, begun, None, queue, w, log))
    ensures Reaches(s, Lone(Entering(req), |log|, None, queue, w, log))
  {
    hide Reaches;
    var t := Lone(p, begun, None, queue, w, log);
    ReachStep(s, t, Call(0, req));
    var t1 := Do(t, Call(0, req));
    ReachStep(s, t1, TakeBridge(0));
    assert Do(t1, TakeBridge(0)) == Lone(Entering(req), |log|, None, queue, w, log);
  }

  lemma LeaveRun(s: State, req: Request, r: Result, begun: nat, queue: seq<Request>, w: Worker, log: seq<Access>)
    requires Reaches(s, Lone(Returned(req, r), begun, None, queue, w, log))
    ensures Reaches(s, Lone(if r.Good? then Finished(req, r) else Entering(req), begun, None, queue, w, log))
  {
    hide Reaches;
    var t := Lone(Returned(req, r), begun, None, queue, w, log);
    ReachStep(s, t, Leave(0));
    assert Do(t, Leave(0)) == Lone(if r.Good? then Finished(req, r) else Entering(req), begun, None, queue, w, log);
  }

  /** After `n + 1` calls that did not wait for `connect`: call `i` peeked `addrs[i]`, and
      call `n` returned `vals[n]`, which access `n` read at the address of the call before. */
  ghost function Late(addrs: seq<nat>, vals: seq<nat>, n: nat): State
    requires n < |addrs| == |vals|
  {
    Lone(Finished(Peek(addrs[n]), Good(vals[n])), n, None, [Peek(addrs[n])], Receiving, LateLog(addrs, vals, n))
  }

  /** The device is accessed twice for the first call and once for each later one. */
  ghost function LateLog(addrs: seq<nat>, vals: seq<nat>, n: nat): seq<Access>
    requires n < |addrs| == |vals|
  {
    seq(n + 1, k requires 0 <= k <= n => Access(Peek(addrs[if k == 0 then 0 else k - 1]), Some(Good(vals[k]))))
  }

  /** `connect` is needed: a first call made before the device is opened takes
      `OpenedDevice` for its answer and sends again, which leaves one request too many. */
  lemma LateFirst(addrs: seq<nat>, vals: seq<nat>)
    requires 0 < |addrs| == |vals|
    ensures Reaches(Lone(Idle, 0, None, [], Connecting(true), []), Late(addrs, vals, 0))
  {
    hide Reaches;
    var s := Lone(Idle, 0, None, [], Connecting(true), []);
    var p, v := Peek(addrs[0]), vals[0];
    var read := Access(p, Some(Good(v)));
    ReachesSelf(s);
    EnterRun(s, Idle, 0, p, [], Connecting(true), []);
    AskRun(s, p, 0, [], Connecting(true), []);
    var opening := Lone(Waiting(p, false), 0, None, [p], Connecting(true), []);
    assert [] + [p] == [p];
    ReachStep(s, opening, Connected);
    DeliverRun(s, p, 0, [p], OpenedDevice, []);
    LeaveRun(s, p, WrongResponse, 0, [p], Receiving, []);
    AskRun(s, p, 0, [p], Receiving, []);
    AccessRun(s, Waiting(p, false), 0, p, [p], [], v);
    assert [] + [read] == [read] == LateLog(addrs, vals, 0);
    DeliverRun(s, p, 0, [p], PeekResult(Good(v)), [read]);
    LeaveRun(s, p, Good(v), 0, [p], Receiving, [read]);
  }

  /** The next call is answered by the request that the call before left behind. */
  lemma LateNext(addrs: seq<nat>, vals: seq<nat>, n: nat)
    requires n + 1 < |addrs| == |vals|
    ensures Reaches(Late(addrs, vals, n), Late(addrs, vals, n + 1))
  {
    hide Reaches;
    var s, log := Late(addrs, vals, n), LateLog(addrs, vals, n);
    var left, p, v := Peek(addrs[n]), Peek(addrs[n + 1]), vals[n + 1];
    ReachesSelf(s);
    EnterRun(s, Finished(left, Good(vals[n])), n, p, [left], Receiving, log);
    AskRun(s, p, n + 1, [left], Receiving, log);
    AccessRun(s, Waiting(p, false), n + 1, left, [p], log, v);
    var longer := log + [Access(left, Some(Good(v)))];
    DeliverRun(s, p, n + 1, [p], PeekResult(Good(v)), longer);
    LeaveRun(s, p, Good(v), n + 1, [p], Receiving, longer);
    assert longer == LateLog(addrs, vals, n + 1);
  }

  /** For every sequence of peeks there is a run without `connect` in which every call
      but the first returns what was read at the address of the call before it. */
  lemma UnconnectedMixup(addrs: seq<nat>, vals: seq<nat>)
    requires 0 < |addrs| == |vals|
    ensures Reaches(Lone(Idle, 0, None, [], Connecting(true), []), Late(addrs, vals, 0))
    ensures forall n :: 0 <= n < |addrs| - 1 ==> Reaches(Late(addrs, vals, n), Late(addrs, vals, n + 1))
    ensures forall n :: 0 < n < |addrs| ==>
              var t := Late(addrs, vals, n);
              Ph(t, 0) == Finished(Peek(addrs[n]), Good(vals[n]))
              && forall k :: t.callers[0].begun <= k < |t.log| ==> t.log[k].req == Peek(addrs[n - 1])
  {
    hide Reaches;
    LateFirst(addrs, vals);
    forall n | 0 <= n < |addrs| - 1
      ensures Reaches(Late(addrs, vals, n), Late(addrs, vals, n + 1))
    {
      LateNext(addrs, vals, n);
    }
  }
}
