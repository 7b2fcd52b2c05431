// The stream object itself: its fields, the calls that update them, and the response buffers, which are heap
// objects a handler may overwrite as soon as `Send` returned. `model` is the protocol state the object is in.
module StreamBuffers {
  import opened Common
  import opened StreamProtocol

  /** The ready case a select took. */
  datatype Case = RequestCase | DoneCase | ContextCase

  ghost function ActionOf(taken: Case): Action {
    match taken
    case RequestCase => Exchange
    case DoneCase => PushSeesDone
    case ContextCase => PushSeesCancel
  }

  datatype RecvCase = Handed | Closed | Cancelled

  /** What `Recv` returned: a request, `io.EOF`, or the context's error. */
  datatype RecvResult = Request(req: Bytes) | EndOfRequests | ContextDone

  ghost function RecvActionOf(taken: RecvCase): Action {
    match taken
    case Handed => LeaveRecv
    case Closed => RecvSeesEof
    case Cancelled => RecvSeesCancel
  }

  lemma AllReceivedAtTheEnd(s: State)
    requires Reachable(s) && s.eof
    ensures !s.pushedLate ==> s.received == AcceptedRequests(s.outcomes)
  {
    if !s.pushedLate {
      EofComesAfterAllRequests(s);
    }
  }

  lemma Extend(first: seq<Bytes>, messages: seq<Bytes>, k: nat)
    requires k < |messages|
    ensures first + messages[..k] + [messages[k]] == first + messages[..k + 1]
  {
  }

  /** `proto.Clone`: a deep copy. */
  method Clone(buffer: array<bv8>, length: nat) returns (clone: array<bv8>)
    requires length <= buffer.Length
    ensures fresh(clone) && clone[..] == buffer[..length]
  {
    clone := new bv8[length](i requires 0 <= i < length reads buffer => buffer[i]);
  }

  class Bidi {
    var closed: bool
    var done: bool
    var cancelled: bool
    var err: Option<string>
    var responses: seq<array<bv8>>
    var handed: Option<Bytes>         // the request the channel passed to a `Recv` that has not returned yet

    ghost var model: State

    /** The bytes of the buffered responses, in order. */
    ghost function Contents(buffers: seq<array<bv8>>): (c: seq<Bytes>)
      reads buffers
      ensures |c| == |buffers| && forall i | 0 <= i < |c| :: c[i] == buffers[i][..]
    {
      seq(|buffers|, i requires 0 <= i < |buffers| reads buffers => buffers[i][..])
    }

    method ReadOut(buffers: seq<array<bv8>>) returns (c: seq<Bytes>)
      ensures c == Contents(buffers)
    {
      c := seq(|buffers|, i requires 0 <= i < |buffers| reads buffers => buffers[i][..]);
    }

    lemma ContentsGrow(buffers: seq<array<bv8>>, last: array<bv8>)
      ensures Contents(buffers + [last]) == Contents(buffers) + [last[..]]
    {
    }

    ghost predicate Valid()
      reads this, responses
    {
      && Reachable(model)
      && closed == model.closed && done == model.done && cancelled == model.cancelled && err == model.err
      && Contents(responses) == model.responses
      && handed == (if model.handler.Received? then Some(model.handler.req) else None)
    }

    constructor ()
      ensures Valid() && model == INITIAL && responses == []
      ensures !closed && !done && !cancelled && handed == None
    {
      InitiallyReachable();
      closed, done, cancelled, err, responses, handed := false, false, false, None, [], None;
      model := INITIAL;
    }

    /** `Send` of a message that holds the first `length` bytes of `buffer`: refuse on a cancelled stream, otherwise
        buffer a copy of the bytes the message holds now. */
    method Send(buffer: array<bv8>, length: nat) returns (ok: bool)
      requires Valid() && model.handler.Running? && length <= buffer.Length
      modifies this
      ensures Valid() && ok == !old(cancelled)
      ensures !ok ==> model == old(model) && responses == old(responses)
      ensures ok ==> model == AfterSend(old(model), buffer[..length])
      ensures ok ==> |responses| == |old(responses)| + 1 && responses[..|responses| - 1] == old(responses)
      ensures ok ==> var copy := responses[|responses| - 1]; fresh(copy) && copy[..] == buffer[..length]
    {
      if cancelled {
        return false;
      }
      var clone := Clone(buffer, length);
      SendIsReachable(model, buffer[..length]);
      ContentsGrow(responses, clone);
      responses := responses + [clone];
      model := AfterSend(model, buffer[..length]);
      return true;
    }

    /** Overwrite the front of `buffer` with `message` and send it: what is buffered already does not change. */
    method SendThrough(buffer: array<bv8>, message: Bytes)
      requires Valid() && model.handler.Running? && !cancelled
      requires buffer !in responses && |message| <= buffer.Length
      modifies this, buffer
      ensures Valid() && !cancelled && buffer !in responses
      ensures model == AfterSend(old(model), message)
    {
      forall i | 0 <= i < |message| {
        buffer[i] := message[i];
      }
      assert buffer[..|message|] == message;
      assert Contents(responses) == old(Contents(responses));
      var ok := Send(buffer, |message|);
    }

    /** A handler that reuses one buffer for every message, as the runtime's crypto handler does, still leaves each
        message as it was when it was sent. */
    method SendAllThrough(buffer: array<bv8>, messages: seq<Bytes>)
      requires Valid() && model.handler.Running? && !cancelled
      requires buffer !in responses && forall m | m in messages :: |m| <= buffer.Length
      modifies this, buffer
      ensures Valid() && model.handler.Running? && !cancelled && buffer !in responses
      ensures Contents(responses) == old(Contents(responses)) + messages
    {
      ghost var before := model;
      for k := 0 to |messages|
        invariant Valid() && model.handler.Running? && !cancelled && buffer !in responses
        invariant model.responses == before.responses + messages[..k]
      {
        SendThrough(buffer, messages[k]);
        Extend(before.responses, messages, k);
      }
      assert messages[..|messages|] == messages;
    }

    /** `Recv` enters its select. */
    method StartRecv()
      requires Valid() && model.handler.Running?
      modifies this`model
      ensures Valid() && model == Step(old(model), StreamProtocol.StartRecv)
      ensures model.handler.Receiving? && model.client == old(model).client
    {
      ReachableStep(model, StreamProtocol.StartRecv);
      model := Step(model, StreamProtocol.StartRecv);
    }

    /** `Recv` leaves its select by a ready case: a request a push handed over, the half-close, or the cancelled context. */
    method Recv(taken: RecvCase) returns (r: RecvResult)
      requires Valid()
      requires taken == Handed ==> handed.Some?
      requires taken == Closed ==> model.handler.Receiving? && closed
      requires taken == Cancelled ==> model.handler.Receiving? && cancelled
      modifies this`model, this`handed
      ensures Valid() && model.handler.Running? && model.outcomes == old(model).outcomes
      ensures taken == Handed <==> r.Request?
      ensures taken == Closed <==> r.EndOfRequests?
      ensures model.client == old(model).client && handed == if r.Request? then None else old(handed)
      ensures r.Request? ==> old(handed) == Some(r.req)
      ensures r.EndOfRequests? ==> closed && model.eof
      ensures r.Request? ==> model.received == old(model).received + [r.req]
      ensures !r.Request? ==> model.received == old(model).received
      ensures r.EndOfRequests? && !model.pushedLate ==> model.received == AcceptedRequests(model.outcomes)
      ensures r.ContextDone? ==> cancelled
    {
      ghost var s' := Step(model, RecvActionOf(taken));
      ReachableStep(model, RecvActionOf(taken));
      match taken {
        case Handed =>
          r := Request(handed.value);
          handed := None;
        case Closed =>
          r := EndOfRequests;
          AllReceivedAtTheEnd(s');
        case Cancelled =>
          r := ContextDone;
      }
      model := s';
    }

    /** `CloseSend`: any number of calls closes once. */
    method CloseSend()
      requires Valid() && model.client.Ready?
      modifies this`closed, this`model
      ensures Valid() && closed && model == Step(old(model), StreamProtocol.CloseSend)
      ensures model.client == old(model).client && model.handler == old(model).handler
    {
      ReachableStep(model, StreamProtocol.CloseSend);
      closed := true;
      model := Step(model, StreamProtocol.CloseSend);
    }

    /** `Cancel`: any number of calls cancels once. */
    method Cancel()
      requires Valid()
      modifies this`cancelled, this`model
      ensures Valid() && cancelled && model == Step(old(model), ExternalCancel)
      ensures model.client == old(model).client && model.handler == old(model).handler
    {
      ReachableStep(model, ExternalCancel);
      cancelled := true;
      model := Step(model, ExternalCancel);
    }

    /** The handler goroutine's end: the result, then `close(done)`, then `cancel()`. */
    method Exit(error: Option<string>)
      requires Valid() && model.handler.Running?
      modifies this`err, this`done, this`cancelled, this`model
      ensures Valid() && done && cancelled && err == error && model.client == old(model).client
      ensures model == Step(Step(Step(old(model), Return(error)), CloseDone), CancelContext)
    {
      ExitIsReachable(model, error);
      err := error;
      done := true;
      cancelled := true;
      model := AfterExit(model, error);
    }

    method Result() returns (r: PushResult)
      requires Valid() && done
      ensures r == HandlerResult(model)
    {
      if err.Some? {
        return HandlerFailed(err.value);
      }
      return HandlerDone;
    }

    /** `Push`, for each case of its select that is ready. Without an external cancel the inner select after the
        context case always finds `done` closed. */
    method Push(req: Bytes, taken: Case) returns (r: PushResult)
      requires Valid() && model.client.Ready?
      requires taken == RequestCase ==> model.handler.Receiving?
      requires taken == DoneCase ==> done
      requires taken == ContextCase ==> cancelled
      modifies this`model, this`handed
      ensures Valid() && model == AfterPush(old(model), req, r)
      ensures taken == RequestCase <==> r == Accepted
      ensures handed == (if taken == RequestCase then Some(req) else old(handed)) && model.client.Ready?
      ensures model.outcomes == old(model).outcomes + [Outcome(req, r)]
      ensures taken == DoneCase || (taken == ContextCase && done) ==>
        r == match err { case Some(e) => HandlerFailed(e) case None => HandlerDone }
      ensures taken == ContextCase && !done ==> r == ContextError
      ensures taken != RequestCase && !model.external ==> r == HandlerResult(model)
    {
      ghost var s := model;
      match taken {
        case RequestCase =>
          r := Accepted;
          handed := Some(req);
        case DoneCase =>
          r := Result();
        case ContextCase =>
          if done {
            r := Result();
          } else {
            r := ContextError;
          }
      }
      PushIsReachable(s, req, ActionOf(taken), r);
      model := AfterPush(s, req, r);
    }

    /** `Wait`, once `done` is closed: the buffers hold all responses for which `Send` returned nil. */
    method Wait() returns (buffers: seq<array<bv8>>, error: Option<string>)
      requires Valid() && model.client.Ready? && done
      modifies this`model
      ensures Valid() && Contents(buffers) == model.accepted && error == model.err
      ensures model == AfterWait(old(model)) && buffers == responses
      ensures model.waits == old(model).waits + [Waited(model.accepted, error)]
    {
      WaitIsReachable(model);
      model := AfterWait(model);
      return responses, err;
    }
  }

  /** A stream between two calls, neither cancelled nor at its end. */
  ghost predicate Between(b: Bidi)
    reads b, b.responses
  {
    b.Valid() && b.model.handler.Running? && b.model.client.Ready? && !b.cancelled && b.handed == None
  }

  /** The handler receives a request that the client pushes. */
  method PassRequest(b: Bidi, req: Bytes) returns (received: Bytes)
    requires Between(b)
    modifies b`model, b`handed
    ensures Between(b) && received == req && b.responses == old(b.responses)
  {
    b.StartRecv();
    var pushed := b.Push(req, RequestCase);
    var r := b.Recv(Handed);
    return r.req;
  }

  method AnswerOne(b: Bidi, req: Bytes, handle: Bytes -> Bytes)
    requires Between(b)
    modifies b
    ensures Between(b) && b.Contents(b.responses) == old(b.Contents(b.responses)) + [handle(req)]
  {
    var received := PassRequest(b, req);
    var answer := handle(received);
    var buffer := new bv8[|answer|](k requires 0 <= k < |answer| => answer[k]);
    assert buffer[..|answer|] == answer;
    var sent := b.Send(buffer, |answer|);
  }

  /** The end: half-close, the handler sees it and returns, and the client waits. */
  method FinishStream(b: Bidi) returns (buffers: seq<array<bv8>>, last: RecvResult, error: Option<string>)
    requires Between(b)
    modifies b
    ensures b.Valid() && buffers == b.responses == old(b.responses) && last == EndOfRequests && error == None
  {
    b.CloseSend();
    b.StartRecv();
    last := b.Recv(Closed);
    b.Exit(None);
    buffers, error := b.Wait();
  }

  function Handled(requests: seq<Bytes>, handle: Bytes -> Bytes): (answers: seq<Bytes>)
    ensures |answers| == |requests| && forall i | 0 <= i < |answers| :: answers[i] == handle(requests[i])
  {
    seq(|requests|, i requires 0 <= i < |requests| => handle(requests[i]))
  }

  lemma HandledGrows(requests: seq<Bytes>, handle: Bytes -> Bytes, i: nat)
    requires i < |requests|
    ensures Handled(requests[..i + 1], handle) == Handled(requests[..i], handle) + [handle(requests[i])]
  {
  }

  /** A client that pushes all requests to a handler answering each with `handle`, half-closes and waits: the handler
      sees the requests in order and then their end, and the client gets all answers in order and no error. */
  method AnswerUntilCloseSend(requests: seq<Bytes>, handle: Bytes -> Bytes)
    returns (answers: seq<Bytes>, last: RecvResult, error: Option<string>)
    ensures |answers| == |requests| && forall i | 0 <= i < |answers| :: answers[i] == handle(requests[i])
    ensures last == EndOfRequests && error == None
  {
    var b := new Bidi();
    for i := 0 to |requests|
      invariant Between(b) && fresh(b) && b.Contents(b.responses) == Handled(requests[..i], handle)
    {
      AnswerOne(b, requests[i], handle);
      HandledGrows(requests, handle, i);
    }
    assert requests[..|requests|] == requests;
    var buffers;
    buffers, last, error := FinishStream(b);
    answers := b.ReadOut(buffers);
  }

  /** Pushes to a handler that has returned report its error, also when the stream was cancelled meanwhile. */
  method PushAfterExit(req: Bytes, error: Option<string>) returns (first: PushResult, second: PushResult)
    ensures first == second == match error { case Some(e) => HandlerFailed(e) case None => HandlerDone }
  {
    var b := new Bidi();
    b.Exit(error);
    first := b.Push(req, DoneCase);
    b.Cancel();
    second := b.Push(req, ContextCase);
  }
}
