// The in-process bidirectional stream: one client goroutine (push, half-close, wait) against one handler goroutine
// (receive, send, return) over a rendezvous channel. Each action is one atomic step of one of the two, and where a
// select has several ready cases any of them may be taken.
module StreamProtocol {
  import opened Common

  /** What `Push` returned: nil, the handler's own error, `ErrHandlerDone`, or the context's error. */
  datatype PushResult = Accepted | HandlerFailed(error: string) | HandlerDone | ContextError

  /** The client inside `Push` is `Pushing` while in the outer select, `Rechecking` after that select took the
      context case, and `Leaving` once a case decided the result. */
  datatype Client =
    | Ready
    | Pushing(req: Bytes)
    | Rechecking(req: Bytes)
    | Leaving(req: Bytes, result: PushResult)
    | Waiting

  /** The handler runs its own code (`Running`), is inside `Recv` or `Send`, or has returned: then its result is
      written, `done` closes and the context is cancelled, in this order. */
  datatype Handler =
    | Running
    | Receiving
    | Received(req: Bytes)
    | Appending(resp: Bytes)
    | Appended(resp: Bytes)
    | ResultWritten
    | DoneClosed
    | Exited

  datatype Outcome = Outcome(req: Bytes, result: PushResult)

  /** What a `Wait` returned. */
  datatype Waited = Waited(responses: seq<Bytes>, error: Option<string>)

  /** `cancelled` is the stream context, `external` whether anyone but the handler's own exit cancelled it.
      `outcomes`, `waits`, `received`, `accepted` (the responses whose `Send` returned nil), `eof` and `pushedLate` (a
      push began after the half-close) are histories. */
  datatype State = State(
    client: Client,
    handler: Handler,
    closed: bool,
    done: bool,
    cancelled: bool,
    err: Option<string>,
    responses: seq<Bytes>,
    external: bool,
    outcomes: seq<Outcome>,
    waits: seq<Waited>,
    received: seq<Bytes>,
    accepted: seq<Bytes>,
    eof: bool,
    pushedLate: bool)

  const INITIAL := State(Ready, Running, false, false, false, None, [], false, [], [], [], [], false, false)

  datatype Action =
    // the client
    | StartPush(req: Bytes)
    | PushSeesDone
    | PushSeesCancel
    | RecheckSeesDone
    | RecheckDefaults
    | LeavePush
    | CloseSend
    | StartWait
    | LeaveWait
    // both at once: the rendezvous on the request channel
    | Exchange
    // the handler
    | StartRecv
    | RecvSeesEof
    | RecvSeesCancel
    | LeaveRecv
    | StartSend(resp: Bytes)
    | Append
    | LeaveSend
    | Return(error: Option<string>)
    | CloseDone
    | CancelContext
    // anyone else
    | ExternalCancel

  /** `result()`: the handler's error, or `ErrHandlerDone` when it succeeded. */
  function HandlerResult(s: State): PushResult {
    match s.err
    case Some(e) => HandlerFailed(e)
    case None => HandlerDone
  }

  predicate Enabled(s: State, a: Action) {
    match a
    case StartPush(_) => s.client.Ready?
    case PushSeesDone => s.client.Pushing? && s.done
    case PushSeesCancel => s.client.Pushing? && s.cancelled
    case RecheckSeesDone => s.client.Rechecking? && s.done
    case RecheckDefaults => s.client.Rechecking? && !s.done
    case LeavePush => s.client.Leaving?
    case CloseSend => s.client.Ready?
    case StartWait => s.client.Ready?
    case LeaveWait => s.client.Waiting? && s.done
    case Exchange => s.client.Pushing? && s.handler.Receiving?
    case StartRecv => s.handler.Running?
    case RecvSeesEof => s.handler.Receiving? && s.closed
    case RecvSeesCancel => s.handler.Receiving? && s.cancelled
    case LeaveRecv => s.handler.Received?
    case StartSend(_) => s.handler.Running? && !s.cancelled
    case Append => s.handler.Appending?
    case LeaveSend => s.handler.Appended?
    case Return(_) => s.handler.Running?
    case CloseDone => s.handler.ResultWritten?
    case CancelContext => s.handler.DoneClosed?
    case ExternalCancel => true
  }

  function Step(s: State, a: Action): State
    requires Enabled(s, a)
  {
    match a
    case StartPush(req) => s.(client := Pushing(req), pushedLate := s.pushedLate || s.closed)
    case PushSeesDone => s.(client := Leaving(s.client.req, HandlerResult(s)))
    case PushSeesCancel => s.(client := Rechecking(s.client.req))
    case RecheckSeesDone => s.(client := Leaving(s.client.req, HandlerResult(s)))
    case RecheckDefaults => s.(client := Leaving(s.client.req, ContextError))
    case LeavePush => s.(client := Ready, outcomes := s.outcomes + [Outcome(s.client.req, s.client.result)])
    case CloseSend => s.(closed := true)
    case StartWait => s.(client := Waiting)
    case LeaveWait => s.(client := Ready, waits := s.waits + [Waited(s.responses, s.err)])
    case Exchange => s.(client := Leaving(s.client.req, Accepted), handler := Received(s.client.req))
    case StartRecv => s.(handler := Receiving)
    case RecvSeesEof => s.(handler := Running, eof := true)
    case RecvSeesCancel => s.(handler := Running)
    case LeaveRecv => s.(handler := Running, received := s.received + [s.handler.req])
    case StartSend(resp) => s.(handler := Appending(resp))
    case Append => s.(handler := Appended(s.handler.resp), responses := s.responses + [s.handler.resp])
    case LeaveSend => s.(handler := Running, accepted := s.accepted + [s.handler.resp])
    case Return(error) => s.(handler := ResultWritten, err := error)
    case CloseDone => s.(handler := DoneClosed, done := true)
    case CancelContext => s.(handler := Exited, cancelled := true)
    case ExternalCancel => s.(cancelled := true, external := true)
  }

  ghost predicate IsRun(run: seq<State>, actions: seq<Action>) {
    && |run| == |actions| + 1
    && run[0] == INITIAL
    && forall i | 0 <= i < |actions| :: Enabled(run[i], actions[i]) && run[i + 1] == Step(run[i], actions[i])
  }

  /** Some run of the two goroutines ends in `s`. */
  ghost predicate Reachable(s: State) {
    exists run, actions :: IsRun(run, actions) && run[|actions|] == s
  }

  // --- invariant -------------------------------------------------------------------

  /** The requests for which `Push` returned nil, in order. */
  function AcceptedRequests(outcomes: seq<Outcome>): seq<Bytes> {
    if outcomes == [] then []
    else
      var last := outcomes[|outcomes| - 1];
      AcceptedRequests(outcomes[..|outcomes| - 1]) + if last.result == Accepted then [last.req] else []
  }

  /** A request exchanged whose `Push` has not returned yet. */
  function ClientHolds(s: State): seq<Bytes> {
    if s.client.Leaving? && s.client.result == Accepted then [s.client.req] else []
  }

  /** A request exchanged whose `Recv` has not returned yet. */
  function HandlerHolds(s: State): seq<Bytes> {
    if s.handler.Received? then [s.handler.req] else []
  }

  /** A decided result is one the stream can still justify. */
  predicate Justified(s: State, r: PushResult) {
    match r
    case Accepted => true
    case ContextError => s.external
    case _ => s.done && r == HandlerResult(s)
  }

  /** The two ends agree on what was exchanged. */
  predicate ExchangeInv(s: State) {
    s.received + HandlerHolds(s) == AcceptedRequests(s.outcomes) + ClientHolds(s)
  }

  /** What is buffered is what was sent, and a response whose `Send` has not returned yet. */
  predicate BufferInv(s: State) {
    s.responses == if s.handler.Appended? then s.accepted + [s.handler.resp] else s.accepted
  }

  /** Every `Wait` returned what is buffered and the result. */
  predicate WaitInv(s: State) {
    && (s.waits != [] ==> s.done)
    && (forall i | 0 <= i < |s.waits| :: s.waits[i] == Waited(s.responses, s.err))
  }

  /** The result is written before `done` closes and `done` closes before the context is cancelled. */
  predicate ExitInv(s: State) {
    && (s.done <==> s.handler.DoneClosed? || s.handler.Exited?)
    && (s.cancelled ==> s.external || s.handler.Exited?)
    && (s.handler.Exited? ==> s.cancelled)
    && (s.client.Rechecking? ==> s.cancelled)
  }

  predicate ResultInv(s: State) {
    && (s.client.Leaving? ==> Justified(s, s.client.result))
    && (forall i | 0 <= i < |s.outcomes| :: Justified(s, s.outcomes[i].result))
  }

  predicate AnyFailed(outcomes: seq<Outcome>) {
    exists i | 0 <= i < |outcomes| :: outcomes[i].result != Accepted
  }

  /** Without an external cancel, no push is accepted after one failed. */
  predicate OrderInv(s: State) {
    && (forall i, j | 0 <= i < j < |s.outcomes| ::
          !s.external && s.outcomes[i].result != Accepted ==> s.outcomes[j].result != Accepted)
    && (!s.external && s.client.Leaving? && s.client.result == Accepted ==> !AnyFailed(s.outcomes))
  }

  /** After the half-close of a client that pushes no more, nothing is in transit from the client. */
  predicate CloseInv(s: State) {
    && (s.closed && !s.pushedLate ==> !s.client.Pushing? && !s.client.Rechecking? && !s.client.Leaving?)
    && (s.eof ==> s.closed)
    && (s.eof && !s.pushedLate ==> HandlerHolds(s) == [])
  }

  predicate Inv(s: State) {
    ExchangeInv(s) && BufferInv(s) && WaitInv(s) && ExitInv(s) && ResultInv(s) && OrderInv(s) && CloseInv(s)
  }

  lemma StepKeepsExchange(s: State, a: Action)
    requires ExchangeInv(s) && Enabled(s, a)
    ensures ExchangeInv(Step(s, a))
  {
    if a.LeavePush? {
      LeavePushKeepsExchange(s);
    } else if a.Exchange? {
      assert s.received + [] == s.received && AcceptedRequests(s.outcomes) + [] == AcceptedRequests(s.outcomes);
    } else if a.LeaveRecv? {
      assert s.received + [s.handler.req] + [] == s.received + [s.handler.req];
    }
  }

  /** An accepted request moves from the push under way to the history; a refused one is in neither. */
  lemma LeavePushKeepsExchange(s: State)
    requires ExchangeInv(s) && s.client.Leaving?
    ensures ExchangeInv(Step(s, LeavePush))
  {
    var outcomes' := Step(s, LeavePush).outcomes;
    assert outcomes'[..|outcomes'| - 1] == s.outcomes;
    assert AcceptedRequests(outcomes') == AcceptedRequests(s.outcomes) + ClientHolds(s);
    assert AcceptedRequests(outcomes') + [] == AcceptedRequests(outcomes');
  }

  lemma StepKeepsBuffer(s: State, a: Action)
    requires BufferInv(s) && Enabled(s, a)
    ensures BufferInv(Step(s, a))
  {
  }

  lemma StepKeepsWaits(s: State, a: Action)
    requires WaitInv(s) && ExitInv(s) && Enabled(s, a)
    ensures WaitInv(Step(s, a))
  {
  }

  lemma StepKeepsExit(s: State, a: Action)
    requires ExitInv(s) && Enabled(s, a)
    ensures ExitInv(Step(s, a))
  {
  }

  lemma StepKeepsResults(s: State, a: Action)
    requires ExitInv(s) && ResultInv(s) && Enabled(s, a)
    ensures ResultInv(Step(s, a))
  {
    var s' := Step(s, a);
    assert s.done ==> s'.done && s'.err == s.err;
    forall i | 0 <= i < |s.outcomes|
      ensures Justified(s', s.outcomes[i].result)
    {
      assert Justified(s, s.outcomes[i].result);
    }
  }

  lemma StepKeepsOrder(s: State, a: Action)
    requires ExitInv(s) && ResultInv(s) && OrderInv(s) && Enabled(s, a)
    ensures OrderInv(Step(s, a))
  {
    if a.Exchange? {
      forall i | 0 <= i < |s.outcomes|
        ensures s.external || s.outcomes[i].result == Accepted
      {
        assert Justified(s, s.outcomes[i].result);
      }
    } else if a.LeavePush? {
      var s' := Step(s, a);
      assert forall i | 0 <= i < |s.outcomes| :: s'.outcomes[i] == s.outcomes[i];
    }
  }

  lemma StepKeepsClose(s: State, a: Action)
    requires CloseInv(s) && Enabled(s, a)
    ensures CloseInv(Step(s, a))
  {
  }

  lemma {:induction false} RunKeepsInv(run: seq<State>, actions: seq<Action>, i: nat)
    requires IsRun(run, actions) && i < |run|
    ensures Inv(run[i])
  {
    if i > 0 {
      RunKeepsInv(run, actions, i - 1);
      assert run[i] == Step(run[i - 1], actions[i - 1]);
      StepKeepsExchange(run[i - 1], actions[i - 1]);
      StepKeepsBuffer(run[i - 1], actions[i - 1]);
      StepKeepsWaits(run[i - 1], actions[i - 1]);
      StepKeepsExit(run[i - 1], actions[i - 1]);
      StepKeepsResults(run[i - 1], actions[i - 1]);
      StepKeepsOrder(run[i - 1], actions[i - 1]);
      StepKeepsClose(run[i - 1], actions[i - 1]);
    }
  }

  lemma ReachableInv(s: State)
    requires Reachable(s)
    ensures Inv(s)
  {
    var run, actions :| IsRun(run, actions) && run[|actions|] == s;
    RunKeepsInv(run, actions, |actions|);
  }

  lemma InitiallyReachable()
    ensures Reachable(INITIAL)
  {
    assert IsRun([INITIAL], []);
  }

  lemma ReachableStep(s: State, a: Action)
    requires Reachable(s) && Enabled(s, a)
    ensures Reachable(Step(s, a))
  {
    var run, actions :| IsRun(run, actions) && run[|actions|] == s;
    assert IsRun(run + [Step(s, a)], actions + [a]);
  }

  // --- what closing and cancelling do ----------------------------------------------------

  /** Some action of this kind was taken before state `j`. */
  ghost predicate ClosedBefore(actions: seq<Action>, j: nat) {
    exists i | 0 <= i < j && i < |actions| :: actions[i].CloseSend?
  }

  ghost predicate CancelledBefore(actions: seq<Action>, j: nat) {
    exists i | 0 <= i < j && i < |actions| :: actions[i].ExternalCancel? || actions[i].CancelContext?
  }

  lemma ClosingStep(s: State, a: Action)
    requires Enabled(s, a) && a.CloseSend?
    ensures Step(s, a).closed && Step(s, a).cancelled == s.cancelled
  {
  }

  lemma CancellingStep(s: State, a: Action)
    requires Enabled(s, a) && (a.ExternalCancel? || a.CancelContext?)
    ensures Step(s, a).cancelled && Step(s, a).closed == s.closed
  {
  }

  predicate OfPush(a: Action) {
    a.StartPush? || a.PushSeesDone? || a.PushSeesCancel? || a.RecheckSeesDone? || a.RecheckDefaults? || a.LeavePush?
    || a.Exchange?
  }

  predicate OfReceiving(a: Action) {
    a.StartRecv? || a.RecvSeesEof? || a.RecvSeesCancel? || a.LeaveRecv?
  }

  lemma PushStep(s: State, a: Action)
    requires Enabled(s, a) && OfPush(a)
    ensures Step(s, a).closed == s.closed && Step(s, a).cancelled == s.cancelled
  {
  }

  lemma ReceivingStep(s: State, a: Action)
    requires Enabled(s, a) && OfReceiving(a)
    ensures Step(s, a).closed == s.closed && Step(s, a).cancelled == s.cancelled
  {
    var s' := Step(s, a);
    if a.StartRecv? {
      assert s'.closed == s.closed;
    } else if a.LeaveRecv? {
      assert s'.closed == s.closed;
    }
  }

  lemma OtherStep(s: State, a: Action)
    requires Enabled(s, a) && !a.CloseSend? && !a.ExternalCancel? && !a.CancelContext? && !OfPush(a) && !OfReceiving(a)
    ensures Step(s, a).closed == s.closed && Step(s, a).cancelled == s.cancelled
  {
  }

  lemma StepSets(s: State, a: Action)
    requires Enabled(s, a)
    ensures Step(s, a).closed == (s.closed || a.CloseSend?)
    ensures Step(s, a).cancelled == (s.cancelled || a.ExternalCancel? || a.CancelContext?)
  {
    if a.CloseSend? {
      ClosingStep(s, a);
    } else if a.ExternalCancel? || a.CancelContext? {
      CancellingStep(s, a);
    } else if OfPush(a) {
      PushStep(s, a);
    } else if OfReceiving(a) {
      ReceivingStep(s, a);
    } else {
      OtherStep(s, a);
    }
  }

  lemma ClosedBeforeNext(actions: seq<Action>, j: nat)
    requires j < |actions|
    ensures ClosedBefore(actions, j + 1) <==> ClosedBefore(actions, j) || actions[j].CloseSend?
  {
    if ClosedBefore(actions, j + 1) && !ClosedBefore(actions, j) {
      assert actions[j].CloseSend?;
    }
  }

  lemma CancelledBeforeNext(actions: seq<Action>, j: nat)
    requires j < |actions|
    ensures CancelledBefore(actions, j + 1)
      <==> CancelledBefore(actions, j) || actions[j].ExternalCancel? || actions[j].CancelContext?
  {
    if CancelledBefore(actions, j + 1) && !CancelledBefore(actions, j) {
      assert actions[j].ExternalCancel? || actions[j].CancelContext?;
    }
  }

  lemma {:induction false} ClosedFromThen(run: seq<State>, actions: seq<Action>, j: nat)
    requires IsRun(run, actions) && j < |run|
    ensures run[j].closed <==> ClosedBefore(actions, j)
  {
    if j > 0 {
      ClosedFromThen(run, actions, j - 1);
      StepSets(run[j - 1], actions[j - 1]);
      ClosedBeforeNext(actions, j - 1);
    }
  }

  lemma {:induction false} CancelledFromThen(run: seq<State>, actions: seq<Action>, j: nat)
    requires IsRun(run, actions) && j < |run|
    ensures run[j].cancelled <==> CancelledBefore(actions, j)
  {
    if j > 0 {
      CancelledFromThen(run, actions, j - 1);
      StepSets(run[j - 1], actions[j - 1]);
      CancelledBeforeNext(actions, j - 1);
    }
  }

  /** In every run the stream is half-closed exactly from the first `CloseSend` on, and from then on a handler in `Recv`
      can take the end of the requests, which it cannot before. */
  lemma HalfCloseIsSeen(run: seq<State>, actions: seq<Action>, j: nat)
    requires IsRun(run, actions) && j < |run|
    ensures run[j].closed <==> ClosedBefore(actions, j)
    ensures run[j].handler.Receiving? ==> (Enabled(run[j], RecvSeesEof) <==> ClosedBefore(actions, j))
  {
    ClosedFromThen(run, actions, j);
  }

  /** In every run the stream context is cancelled exactly from the first external cancel or the handler's exit on, and
      from then on `Recv` and `Push` can leave their selects by it and `Send` refuses, which they cannot before. */
  lemma CancelIsSeen(run: seq<State>, actions: seq<Action>, j: nat)
    requires IsRun(run, actions) && j < |run|
    ensures run[j].cancelled <==> CancelledBefore(actions, j)
    ensures run[j].handler.Receiving? ==> (Enabled(run[j], RecvSeesCancel) <==> CancelledBefore(actions, j))
    ensures run[j].client.Pushing? ==> (Enabled(run[j], PushSeesCancel) <==> CancelledBefore(actions, j))
    ensures forall resp :: run[j].handler.Running? ==>
      (Enabled(run[j], StartSend(resp)) <==> !CancelledBefore(actions, j))
  {
    CancelledFromThen(run, actions, j);
  }

  // --- whole calls, when no other action comes between their steps ---------------------

  function AfterSend(s: State, resp: Bytes): State {
    s.(responses := s.responses + [resp], accepted := s.accepted + [resp])
  }

  lemma SendIsReachable(s: State, resp: Bytes)
    requires Reachable(s) && s.handler.Running? && !s.cancelled
    ensures Reachable(AfterSend(s, resp))
  {
    var s1 := Step(s, StartSend(resp));
    ReachableStep(s, StartSend(resp));
    ReachableStep(s1, Append);
    var s2 := Step(s1, Append);
    ReachableStep(s2, LeaveSend);
    assert Step(s2, LeaveSend) == AfterSend(s, resp);
  }

  /** The handler's end: the result is written, then `done` closes, then the context is cancelled. */
  function AfterExit(s: State, error: Option<string>): State {
    s.(handler := Exited, err := error, done := true, cancelled := true)
  }

  lemma ExitIsReachable(s: State, error: Option<string>)
    requires Reachable(s) && s.handler.Running?
    ensures Reachable(AfterExit(s, error))
    ensures AfterExit(s, error) == Step(Step(Step(s, Return(error)), CloseDone), CancelContext)
  {
    ReachableStep(s, Return(error));
    var s1 := Step(s, Return(error));
    ReachableStep(s1, CloseDone);
    ReachableStep(Step(s1, CloseDone), CancelContext);
  }

  function AfterWait(s: State): State {
    s.(waits := s.waits + [Waited(s.responses, s.err)])
  }

  lemma WaitIsReachable(s: State)
    requires Reachable(s) && s.client.Ready? && s.done
    ensures Reachable(AfterWait(s)) && s.responses == s.accepted
  {
    ReachableInv(s);
    ReachableStep(s, StartWait);
    ReachableStep(Step(s, StartWait), LeaveWait);
    assert Step(Step(s, StartWait), LeaveWait) == AfterWait(s);
  }

  function AfterPush(s: State, req: Bytes, r: PushResult): State {
    s.(outcomes := s.outcomes + [Outcome(req, r)], pushedLate := s.pushedLate || s.closed,
       handler := if r == Accepted then Received(req) else s.handler)
  }

  lemma PushIsReachable(s: State, req: Bytes, taken: Action, r: PushResult)
    requires Reachable(s) && s.client.Ready?
    requires taken == Exchange ==> s.handler.Receiving? && r == Accepted
    requires taken == PushSeesDone ==> s.done && r == HandlerResult(s)
    requires taken == PushSeesCancel ==> s.cancelled && r == if s.done then HandlerResult(s) else ContextError
    requires taken in {Exchange, PushSeesDone, PushSeesCancel}
    ensures Reachable(AfterPush(s, req, r))
    ensures taken == PushSeesCancel && !s.external ==> s.done
  {
    ReachableInv(s);
    var s1 := Step(s, StartPush(req));
    ReachableStep(s, StartPush(req));
    ReachableStep(s1, taken);
    var s2 := Step(s1, taken);
    if taken == PushSeesCancel {
      var recheck := if s.done then RecheckSeesDone else RecheckDefaults;
      ReachableStep(s2, recheck);
      s2 := Step(s2, recheck);
    }
    ReachableStep(s2, LeavePush);
    assert Step(s2, LeavePush) == AfterPush(s, req, r);
  }

  // --- main results ------------------------------------------------------------------

  /** What `Recv` returned is, in order, what `Push` returned nil for, up to one request whose exchange only one
      side has returned from. */
  lemma ReceivedIsWhatWasAccepted(s: State)
    requires Reachable(s)
    ensures s.received + HandlerHolds(s) == AcceptedRequests(s.outcomes) + ClientHolds(s)
    ensures !s.client.Leaving? && !s.handler.Received? ==> s.received == AcceptedRequests(s.outcomes)
  {
    ReachableInv(s);
    assert s.received + [] == s.received;
    assert AcceptedRequests(s.outcomes) + [] == AcceptedRequests(s.outcomes);
  }

  /** When no push follows the half-close, the handler that saw the end of the requests has received every request
      that was or ever will be accepted. */
  lemma EofComesAfterAllRequests(s: State)
    requires Reachable(s) && s.eof && !s.pushedLate
    ensures s.received == AcceptedRequests(s.outcomes)
    ensures !s.client.Pushing? && !s.client.Rechecking? && !s.client.Leaving?
  {
    ReachableInv(s);
    assert s.received + [] == s.received;
    assert AcceptedRequests(s.outcomes) + [] == AcceptedRequests(s.outcomes);
  }

  /** Without an external cancel no `Push` returns the context's error; one that fails returns exactly the handler's
      final result, and every later one returns the same. */
  lemma PushFailsOnlyWithTheHandlersResult(s: State, i: nat)
    requires Reachable(s) && !s.external && i < |s.outcomes| && s.outcomes[i].result != Accepted
    ensures s.done && s.outcomes[i].result == HandlerResult(s)
    ensures forall j | i < j < |s.outcomes| :: s.outcomes[j].result == HandlerResult(s)
  {
    ReachableInv(s);
    assert Justified(s, s.outcomes[i].result);
    forall j | i < j < |s.outcomes|
      ensures s.outcomes[j].result == HandlerResult(s)
    {
      assert Justified(s, s.outcomes[j].result);
    }
  }

  /** Every `Wait` returns, in order, exactly the responses for which `Send` returned nil, and the handler's error; a
      second one returns the same again. */
  lemma WaitReturnsWhatWasSent(s: State, i: nat)
    requires Reachable(s) && i < |s.waits|
    ensures s.done && s.waits[i] == Waited(s.accepted, s.err)
  {
    ReachableInv(s);
  }

  /** A `Push` made after a `Wait` returned is never accepted: also on a cancelled stream it returns the handler's error,
      or `ErrHandlerDone` if that was nil. */
  lemma PushAfterWaitIsRefused(s: State, a: Action)
    requires Reachable(s) && s.waits != [] && Enabled(s, a)
    requires s.client.Pushing? || s.client.Rechecking?
    ensures var s' := Step(s, a); s'.client.Leaving? ==>
      s'.client.result == match s.waits[0].error { case Some(e) => HandlerFailed(e) case None => HandlerDone }
  {
    ReachableInv(s);
  }

  /** Once `done` is closed the handler's result and the buffered responses no longer change. */
  lemma ResultIsFinal(s: State, a: Action)
    requires Reachable(s) && s.done && Enabled(s, a)
    ensures Step(s, a).done && Step(s, a).err == s.err && Step(s, a).responses == s.responses
  {
    ReachableInv(s);
  }

  /** An action the stream itself takes, as opposed to a decision of the client's, the handler's or a canceller's
      own code. */
  predicate Internal(a: Action) {
    !(a.StartPush? || a.CloseSend? || a.StartWait? || a.StartRecv? || a.StartSend? || a.Return? || a.ExternalCancel?)
  }

  predicate InsideCall(s: State) {
    !s.client.Ready? || (!s.handler.Running? && !s.handler.Exited?)
  }

  predicate CanMove(s: State, a: Action) {
    Enabled(s, a) && Internal(a)
  }

  /** While somebody is inside a call and the handler is not running its own code, no call can go on exactly when the
      handler waits for a request of a stream neither half-closed nor cancelled and the client is not pushing: it runs
      its own code, or it waits, which is the only deadlock. */
  lemma OnlyDeadlockIsAnUnclosedWait(s: State)
    requires Reachable(s) && !s.handler.Running? && InsideCall(s)
    ensures (forall a: Action :: !CanMove(s, a))
      <==> s.handler.Receiving? && !s.closed && !s.cancelled && (s.client.Waiting? || s.client.Ready?)
  {
    ReachableInv(s);
    if s.handler.Receiving? {
      ReceiverMoves(s);
    } else if s.handler.Exited? {
      ClientMoves(s);
    } else {
      HandlerMoves(s);
    }
  }

  lemma ReceiverMoves(s: State)
    requires Inv(s) && s.handler.Receiving?
    ensures (exists a: Action :: CanMove(s, a)) <==> s.closed || s.cancelled || !(s.client.Waiting? || s.client.Ready?)
  {
    if s.client.Pushing? {
      assert CanMove(s, Exchange);
    } else if s.client.Rechecking? {
      assert CanMove(s, RecheckDefaults);
    } else if s.client.Leaving? {
      assert CanMove(s, LeavePush);
    } else if s.closed {
      assert CanMove(s, RecvSeesEof);
    } else if s.cancelled {
      assert CanMove(s, RecvSeesCancel);
    }
  }

  lemma HandlerMoves(s: State)
    requires !s.handler.Running? && !s.handler.Receiving? && !s.handler.Exited?
    ensures exists a: Action :: CanMove(s, a)
  {
    var a := if s.handler.Received? then LeaveRecv
             else if s.handler.Appending? then Append
             else if s.handler.Appended? then LeaveSend
             else if s.handler.ResultWritten? then CloseDone
             else CancelContext;
    assert CanMove(s, a);
  }

  lemma ClientMoves(s: State)
    requires Inv(s) && s.handler.Exited? && !s.client.Ready?
    ensures exists a: Action :: CanMove(s, a)
  {
    var a := if s.client.Pushing? then PushSeesDone
             else if s.client.Rechecking? then RecheckSeesDone
             else if s.client.Leaving? then LeavePush
             else LeaveWait;
    assert CanMove(s, a);
  }

  /** A client that waits without half-closing does meet a handler that keeps receiving. */
  lemma UnclosedWaitIsReachable()
    ensures exists s ::
      && Reachable(s) && s.client.Waiting? && s.handler.Receiving? && !s.closed && !s.cancelled
  {
    var s1 := Step(INITIAL, StartRecv);
    var s2 := Step(s1, StartWait);
    assert IsRun([INITIAL, s1, s2], [StartRecv, StartWait]);
    assert Reachable(s2);
  }
}
