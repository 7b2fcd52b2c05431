// The streaming upload of the HTTP crypto provider: one request whose body is written chunk by chunk while the
// sidecar may answer early. What the host does is read off oracles by poll; a run may stop at its last wait (`Blocked`), so
// every finite part of every run is covered.
module StreamingUpload {
  import opened Common
  import opened HostStreams

  /** A recoverable answer of the sidecar. */
  datatype Failure = Failure(status: nat, body: Bytes)

  /** What panics (the component traps), by message. */
  datatype Panic =
    | SidecarError           // 5xx
    | EarlySuccess           // 2xx before the body ended
    | TransportFailed
    | AlreadyConsumed        // the response future was read twice
    | BodyFailed             // the response body broke
    | WriteAfterFinish
    | Unreachable

  /** How a call ends: it returns, it traps, or the run under consideration ends before it does. */
  datatype Outcome<+T> = Returned(value: T) | Trapped(panic: Panic) | Blocked

  /** The bytes a response body still has to deliver, and whether it breaks off instead of ending. */
  datatype Body = Body(chunks: seq<Bytes>, breaks: bool)

  datatype Answer = Response(status: nat, body: Body) | NoResponse

  // --- the host ---------------------------------------------------------------------

  /** The request's handles on the host: the body stream, the response future and their oracles. */
  class Host {
    const horizon: nat
    const ready: nat -> bool          // is the response future ready at this poll
    const permits: nat -> Permit      // what check-write reports at this poll
    const accepts: nat -> bool        // does a write succeed at this poll
    const flushes: bool               // does the final flush succeed
    const finishes: bool              // does ending the body succeed
    const answer: Answer

    var time: nat                     // waits so far
    var polls: nat                    // polls of the response future so far
    var sent: Bytes                   // everything the body stream accepted
    var permitted: nat                // what the last check-write allows
    var consumed: bool                // the response future has been read
    var unanswered: bool              // the last poll, not followed by a check-write, found no answer

    ghost predicate Valid()
      reads this
    {
      time <= horizon
    }

    constructor (horizon: nat, ready: nat -> bool, permits: nat -> Permit, accepts: nat -> bool,
                 flushes: bool, finishes: bool, answer: Answer)
      ensures Valid() && sent == [] && !consumed && this.answer == answer && time == 0 && polls == 0
      ensures this.horizon == horizon && this.ready == ready && this.permits == permits && this.accepts == accepts
      ensures this.flushes == flushes && this.finishes == finishes
    {
      this.horizon, this.ready, this.permits, this.accepts := horizon, ready, permits, accepts;
      this.flushes, this.finishes, this.answer := flushes, finishes, answer;
      time, polls, sent, permitted, consumed, unanswered := 0, 0, [], 0, false, false;
    }

    /** Whether the upload cannot go on at a poll: the answer is there, or the body stream is broken. */
    predicate Breaks(poll: nat) {
      ready(poll) || permits(poll).Refused? || (permits(poll).bytes > 0 && !accepts(poll))
    }

    /** `response.subscribe().ready()`. */
    method Ready() returns (b: bool)
      modifies this`polls, this`unanswered
      ensures polls == old(polls) + 1 && b == ready(polls) && unanswered == !b
    {
      polls := polls + 1;
      b := ready(polls);
      unanswered := !b;
    }

    /** `output-stream.check-write`, which comes only after a look at the response future. */
    method CheckWrite() returns (p: Permit)
      requires unanswered
      modifies this`permitted, this`unanswered
      ensures p == permits(polls) && !unanswered
      ensures permitted == if p.Allowed? then p.bytes else 0
    {
      p := permits(polls);
      permitted := if p.Allowed? then p.bytes else 0;
      unanswered := false;
    }

    /** `output-stream.write`, which must stay within the preceding permit. */
    method Write(chunk: Bytes) returns (ok: bool)
      requires |chunk| <= permitted
      modifies this`permitted, this`sent
      ensures ok == accepts(polls) && permitted == 0
      ensures sent == if ok then old(sent) + chunk else old(sent)
    {
      ok := accepts(polls);
      permitted := 0;
      if ok {
        sent := sent + chunk;
      }
    }

    /** Wait for the next tick; false when the run under consideration ends first. */
    method Wait() returns (woken: bool)
      requires Valid()
      modifies this`time
      ensures Valid()
      ensures woken <==> old(time) < horizon
      ensures woken ==> time == old(time) + 1
      ensures !woken ==> time == old(time)
    {
      woken := time < horizon;
      if woken {
        time := time + 1;
      }
    }

    /** `future-incoming-response.get` after it became ready: the answer, once. */
    method Get() returns (a: Option<Answer>)
      modifies this`consumed
      ensures consumed
      ensures a == if old(consumed) then None else Some(answer)
    {
      if consumed {
        return None;
      }
      consumed := true;
      return Some(answer);
    }
  }

  // --- reading an answer --------------------------------------------------------------

  /** `read_all`: the whole body, unless it breaks. */
  method ReadAll(body: Body) returns (r: Outcome<Bytes>)
    ensures r == if body.breaks then Trapped(BodyFailed) else Returned(Flatten(body.chunks))
  {
    var bytes: Bytes := [];
    for i := 0 to |body.chunks|
      invariant bytes == Flatten(body.chunks[..i])
    {
      assert body.chunks[..i + 1][..i] == body.chunks[..i];
      bytes := bytes + body.chunks[i];
    }
    assert body.chunks[..|body.chunks|] == body.chunks;
    if body.breaks {
      return Trapped(BodyFailed);
    }
    return Returned(bytes);
  }

  /** `check_status`: 2xx is success, 5xx traps, anything else is a recoverable failure. */
  function CheckStatus(status: nat, body: Bytes): Outcome<Result<Bytes, Failure>> {
    if status / 100 == 2 then Returned(Ok(body))
    else if 500 <= status <= 599 then Trapped(SidecarError)
    else Returned(Err(Failure(status, body)))
  }

  /** The failure the sidecar's answer amounts to when it comes before the request body ended. */
  function EarlyAnswer(a: Answer): Outcome<Failure> {
    match a
    case NoResponse => Trapped(TransportFailed)
    case Response(status, body) =>
      if body.breaks then Trapped(BodyFailed)
      else match CheckStatus(status, Flatten(body.chunks))
        case Returned(Err(failure)) => Returned(failure)
        case Returned(Ok(_)) => Trapped(EarlySuccess)
        case Trapped(p) => Trapped(p)
        case Blocked => Blocked
  }

  /** The recoverable failure of an answer: a whole body with a status that is neither success nor a server error. */
  predicate FailsWith(a: Answer, f: Failure) {
    && a.Response? && !a.body.breaks
    && !(200 <= a.status < 300) && !(500 <= a.status < 600)
    && f.status == a.status && f.body == Flatten(a.body.chunks)
  }

  /** What an answer makes the component trap with when it comes before the request body ended. */
  predicate TrapsWith(a: Answer, p: Panic) {
    match p
    case TransportFailed => a.NoResponse?
    case BodyFailed => a.Response? && a.body.breaks
    case SidecarError => a.Response? && !a.body.breaks && 500 <= a.status < 600
    case EarlySuccess => a.Response? && !a.body.breaks && 200 <= a.status < 300
    case _ => false
  }

  /** Which answers trap and which are recoverable. */
  lemma EarlyAnswerMeans(a: Answer)
    ensures forall f :: EarlyAnswer(a) == Returned(f) <==> FailsWith(a, f)
    ensures forall p :: EarlyAnswer(a) == Trapped(p) <==> TrapsWith(a, p)
    ensures EarlyAnswer(a) != Blocked
  {
    if a.Response? && !a.body.breaks {
      assert a.status / 100 == 2 <==> 200 <= a.status < 300;
    }
  }

  // --- the request -----------------------------------------------------------------------

  /** How a pass of the loop of `write` ends. */
  datatype Pass = Broken | NoRoom | Gave(n: nat)

  class StreamingRequest {
    const host: Host
    var stream: bool                  // the body stream has not been taken
    var failed: Option<Failure>
    ghost var dead: bool              // a call trapped or never returned

    /** As long as the component lives, the response future has been read exactly when a failure is latched, and
        then the failure is the sidecar's answer. */
    ghost predicate Valid()
      reads this, host
    {
      && host.Valid()
      && (!dead ==> stream && (host.consumed <==> failed.Some?))
      && (failed.Some? ==> FailsWith(host.answer, failed.value))
    }

    constructor (host: Host)
      requires host.Valid() && !host.consumed
      ensures Valid() && this.host == host && failed == None && !dead
    {
      this.host := host;
      stream, failed, dead := true, None, false;
    }

    /** `await_response`: the answer, once; it waits at most once. */
    method AwaitResponse() returns (r: Outcome<Answer>)
      requires host.Valid()
      modifies host`time, host`consumed
      ensures host.Valid() && old(host.time) <= host.time <= old(host.time) + 1
      ensures r ==
        if old(host.time) == host.horizon then Blocked
        else if old(host.consumed) then Trapped(AlreadyConsumed)
        else if host.answer.NoResponse? then Trapped(TransportFailed)
        else Returned(host.answer)
      ensures host.consumed <==> old(host.consumed) || !r.Blocked?
    {
      var woken := host.Wait();
      if !woken {
        return Blocked;
      }
      var answer := host.Get();
      match answer {
        case Some(Response(status, body)) => return Returned(Response(status, body));
        case Some(NoResponse) => return Trapped(TransportFailed);
        case None => return Trapped(AlreadyConsumed);
      }
    }

    /** `answer_or_panic`: what the sidecar's answer amounts to, unless the run ends before it comes. */
    method AnswerOrPanic() returns (r: Outcome<Failure>)
      requires host.Valid() && !host.consumed
      modifies host`time, host`consumed
      ensures host.Valid() && old(host.time) <= host.time <= old(host.time) + 1
      ensures r == if old(host.time) == host.horizon then Blocked else EarlyAnswer(host.answer)
      ensures r.Returned? ==> FailsWith(host.answer, r.value)
      ensures r.Trapped? ==> TrapsWith(host.answer, r.panic)
      ensures host.consumed <==> !r.Blocked?
    {
      EarlyAnswerMeans(host.answer);
      var response := AwaitResponse();
      match response {
        case Blocked => return Blocked;
        case Trapped(p) => return Trapped(p);
        case Returned(answer) =>
          var body := ReadAll(answer.body);
          match body {
            case Trapped(p) => return Trapped(p);
            case Blocked => return Blocked;
            case Returned(bytes) =>
              match CheckStatus(answer.status, bytes) {
                case Returned(Err(failure)) => return Returned(failure);
                case Returned(Ok(_)) => return Trapped(EarlySuccess);
                case Trapped(p) => return Trapped(p);
                case Blocked => return Blocked;
              }
          }
      }
    }

    /** `early_answer`: latch the failure. */
    method EarlyFailure() returns (r: Outcome<Result<(), Failure>>)
      requires Valid() && !dead && failed.None?
      modifies this`failed, this`dead, host`time, host`consumed
      ensures Valid() && old(host.time) <= host.time <= old(host.time) + 1
      ensures r.Returned? <==> !dead
      ensures r.Returned? ==> r.value.Err? && failed == Some(r.value.error)
      ensures r.Trapped? ==> TrapsWith(host.answer, r.panic)
      ensures r.Blocked? <==> old(host.time) == host.horizon
      ensures !r.Returned? ==> failed == old(failed)
    {
      var answer := AnswerOrPanic();
      match answer {
        case Returned(failure) =>
          failed := Some(failure);
          return Returned(Err(failure));
        case Trapped(p) =>
          dead := true;
          return Trapped(p);
        case Blocked =>
          dead := true;
          return Blocked;
      }
    }

    /** `write`: what was sent grows by all of `data` on success; it ends early at exactly the first poll at which the
        upload cannot go on, having sent as much as the polls before allowed, with the sidecar's early answer as a
        failure, which is latched; and it waits only where there is no room to write. */
    method Write(data: Bytes) returns (r: Outcome<Result<(), Failure>>)
      requires Valid() && !dead
      modifies this`failed, this`dead, host
      ensures Valid() && (r.Returned? <==> !dead)
      ensures old(host.sent) <= host.sent <= old(host.sent) + data
      ensures r.Returned? && r.value.Ok? ==> host.sent == old(host.sent) + data && failed == None
      ensures r.Returned? && r.value.Err? ==> failed == Some(r.value.error)
      ensures r.Returned? && r.value.Err? ==> FailsWith(host.answer, r.value.error)
      ensures !r.Returned? ==> failed == old(failed)
      ensures old(failed).Some? ==>
        r == Returned(Err(old(failed).value)) && host.sent == old(host.sent) && host.polls == old(host.polls)
      ensures r.Trapped? ==> TrapsWith(host.answer, r.panic)
      ensures old(host.polls) <= host.polls
      ensures forall k | old(host.polls) < k < host.polls :: !host.Breaks(k)
      ensures r.Returned? && r.value.Ok? ==> forall k | old(host.polls) < k <= host.polls :: !host.Breaks(k)
      ensures r.Returned? && r.value.Ok? && data != [] ==> old(host.polls) < host.polls
      ensures old(failed).None? && !(r.Returned? && r.value.Ok?) ==>
        && old(host.polls) < host.polls
        && var n := Room(host.permits, old(host.polls), host.polls - 1);
           n < |data| && host.sent == old(host.sent) + data[..n]
      ensures old(failed).None? && ((r.Returned? && r.value.Err?) || r.Trapped?) ==> host.Breaks(host.polls)
      ensures r.Blocked? ==> host.time == host.horizon
      ensures r.Blocked? ==> host.Breaks(host.polls) || host.permits(host.polls) == Allowed(0)
      ensures host.time <= old(host.time) + Stalls(host.permits, old(host.polls), host.polls) +
        if (r.Returned? && r.value.Ok?) || old(failed).Some? then 0 else 1
    {
      if failed.Some? {
        return Returned(Err(failed.value));
      }
      if !stream {
        return Trapped(WriteAfterFinish);
      }
      r := WriteLoop(data);
      if !Succeeded(r) {
        PrefixGrows(old(host.sent), data, Room(host.permits, old(host.polls), host.polls - 1), []);
      }
    }

    /** The loop of `write`. */
    method WriteLoop(data: Bytes) returns (r: Outcome<Result<(), Failure>>)
      requires Valid() && !dead && failed.None?
      modifies this`failed, this`dead, host
      ensures Valid() && (r.Returned? <==> !dead)
      ensures Succeeded(r) ==> host.sent == old(host.sent) + data && failed == None
      ensures !Succeeded(r) ==> old(host.polls) < host.polls
      ensures !Succeeded(r) ==> var n := Room(host.permits, old(host.polls), host.polls - 1);
        n < |data| && host.sent == old(host.sent) + data[..n]
      ensures r.Returned? && r.value.Err? ==> failed == Some(r.value.error)
      ensures !r.Returned? ==> failed == None
      ensures r.Trapped? ==> TrapsWith(host.answer, r.panic)
      ensures old(host.polls) <= host.polls && (data != [] ==> old(host.polls) < host.polls)
      ensures forall k | old(host.polls) < k < host.polls :: !host.Breaks(k)
      ensures Succeeded(r) && old(host.polls) < host.polls ==> !host.Breaks(host.polls)
      ensures !Succeeded(r) && !r.Blocked? ==> host.Breaks(host.polls)
      ensures r.Blocked? ==> host.time == host.horizon
      ensures r.Blocked? ==> host.Breaks(host.polls) || host.permits(host.polls) == Allowed(0)
      ensures host.time <= old(host.time) + Stalls(host.permits, old(host.polls), host.polls)
        + if Succeeded(r) then 0 else 1
    {
      var written := 0;
      while written < |data|
        invariant Valid() && !dead && failed.None?
        invariant written <= |data| && host.sent == old(host.sent) + data[..written]
        invariant old(host.polls) <= host.polls && (written > 0 ==> old(host.polls) < host.polls)
        invariant written < |data| ==> written == Room(host.permits, old(host.polls), host.polls)
        invariant forall k | old(host.polls) < k <= host.polls :: !host.Breaks(k)
        invariant host.time == old(host.time) + Stalls(host.permits, old(host.polls), host.polls)
        decreases host.horizon - host.time, |data| - written
      {
        var pass := WritePass(data[written..]);
        match pass {
          case Broken =>
            r := EarlyFailure();
            return;
          case NoRoom =>
            var woken := host.Wait();
            if !woken {
              dead := true;
              return Blocked;
            }
          case Gave(n) =>
            PrefixGrows(old(host.sent), data, written, data[written..][..n]);
            written := written + n;
        }
      }
      assert data[..|data|] == data;
      return Returned(Ok(()));
    }

    /** One pass of the loop of `write`, up to its wait. */
    method WritePass(rest: Bytes) returns (pass: Pass)
      requires Valid() && !dead && failed.None? && rest != []
      modifies host`polls, host`permitted, host`unanswered, host`sent
      ensures Valid() && host.polls == old(host.polls) + 1
      ensures pass.Broken? <==> host.Breaks(host.polls)
      ensures pass.NoRoom? ==> host.permits(host.polls) == Allowed(0)
      ensures pass.Gave? ==> var room := host.permits(host.polls).bytes;
        room > 0 && pass.n == (if room < |rest| then room else |rest|) && host.sent == old(host.sent) + rest[..pass.n]
      ensures !pass.Gave? ==> host.sent == old(host.sent)
    {
      var ready := host.Ready();
      if ready {
        return Broken;
      }
      var permit := host.CheckWrite();
      match permit {
        case Refused => return Broken;
        case Allowed(n) =>
          if n == 0 {
            return NoRoom;
          }
          var permitted := if n < |rest| then n else |rest|;
          var ok := host.Write(rest[..permitted]);
          return if ok then Gave(permitted) else Broken;
      }
    }

    /** `finish`: a latched failure comes back, and otherwise the result is the sidecar's one answer. */
    method Finish() returns (r: Outcome<Result<ResponseBody, Failure>>)
      requires Valid() && !dead
      modifies this, host`time, host`consumed
      ensures old(failed).Some? ==> r == Returned(Err(old(failed).value))
      ensures failed == None && (old(failed).None? ==> !stream)
      ensures r.Returned? && r.value.Err? ==> FailsWith(host.answer, r.value.error)
      ensures r.Returned? && r.value.Ok? ==> host.answer.Response? && host.answer.status / 100 == 2
      ensures r.Returned? && r.value.Ok? ==> fresh(r.value.value) && r.value.value.Valid()
      ensures r.Returned? && r.value.Ok? ==> r.value.value.Rest() == Flatten(host.answer.body.chunks)
      ensures r.Returned? && r.value.Ok? ==> r.value.value.breaks == host.answer.body.breaks
      ensures r.Trapped? ==> TrapsWith(host.answer, r.panic)
      ensures host.Valid() && old(host.time) <= host.time <= old(host.time) + if old(failed).Some? then 0 else 1
      ensures r.Blocked? <==> old(failed).None? && old(host.time) == host.horizon
      ensures old(failed).None? && !r.Blocked? ==>
        (r.Returned? && r.value.Ok? <==>
          host.flushes && host.finishes && host.answer.Response? && host.answer.status / 100 == 2)
    {
      if failed.Some? {
        var failure := failed.value;
        failed := None;
        return Returned(Err(failure));
      }
      stream := false;
      EarlyAnswerMeans(host.answer);
      if !host.flushes {
        var early := AnswerOrPanic();
        match early {
          case Returned(failure) => return Returned(Err(failure));
          case Trapped(p) => return Trapped(p);
          case Blocked => return Blocked;
        }
      }
      if !host.finishes {
        var early := AnswerOrPanic();
        match early {
          case Returned(failure) => return Returned(Err(failure));
          case Trapped(p) => return Trapped(p);
          case Blocked => return Blocked;
        }
      }
      var response := AwaitResponse();
      match response {
        case Blocked => return Blocked;
        case Trapped(p) => return Trapped(p);
        case Returned(answer) =>
          if !(200 <= answer.status < 300) {
            var body := ReadAll(answer.body);
            match body {
              case Trapped(p) => return Trapped(p);
              case Blocked => return Blocked;
              case Returned(bytes) =>
                match CheckStatus(answer.status, bytes) {
                  case Returned(Err(failure)) => return Returned(Err(failure));
                  case Returned(Ok(_)) => return Trapped(Unreachable);
                  case Trapped(p) => return Trapped(p);
                  case Blocked => return Blocked;
                }
            }
          }
          var body := new ResponseBody(answer.body);
          return Returned(Ok(body));
      }
    }
  }

  // --- the response -----------------------------------------------------------------------

  /** `StreamingResponse`: the body of a 2xx answer, read chunk by chunk. */
  class ResponseBody {
    var chunks: seq<Bytes>            // what the host's input stream still delivers
    var open: bool
    const breaks: bool

    ghost function Rest(): Bytes
      reads this
    {
      Flatten(chunks)
    }

    ghost predicate Valid()
      reads this
    {
      !open ==> Rest() == [] && !breaks
    }

    constructor (body: Body)
      ensures Valid() && open && Rest() == Flatten(body.chunks) && breaks == body.breaks
    {
      chunks, open, breaks := body.chunks, true, body.breaks;
    }

    /** `read`: a non-empty chunk of at most `maxLen` bytes, in order; `None` exactly at the end, and from then on. */
    method Read(maxLen: nat) returns (r: Outcome<Option<Bytes>>)
      requires Valid()
      modifies this
      ensures Valid() && !r.Blocked?
      ensures r.Trapped? <==> old(Rest()) == [] && breaks
      ensures r.Trapped? ==> r.panic == BodyFailed
      ensures r == Returned(None) <==> old(Rest()) == [] && !breaks
      ensures r == Returned(None) ==> !open
      ensures r.Returned? && r.value.Some? ==> r.value.value != [] && r.value.value + Rest() == old(Rest())
      ensures r.Returned? && r.value.Some? ==> |r.value.value| <= if maxLen == 0 then 1 else maxLen
    {
      if !open {
        return Returned(None);
      }
      var asked := if maxLen == 0 then 1 else maxLen;
      while chunks != []
        invariant Valid() && open && Rest() == old(Rest())
        decreases |chunks|
      {
        FlattenFirst(chunks);
        var next := chunks[0];
        if next == [] {
          chunks := chunks[1..];
          continue;
        }
        var len := if |next| < asked then |next| else asked;
        FlattenFirst([next[len..]] + chunks[1..]);
        chunks := [next[len..]] + chunks[1..];
        assert next == next[..len] + next[len..];
        return Returned(Some(next[..len]));
      }
      if breaks {
        return Trapped(BodyFailed);
      }
      open := false;
      return Returned(None);
    }
  }

  lemma {:induction false} FlattenFirst(chunks: seq<Bytes>)
    requires chunks != []
    ensures Flatten(chunks) == chunks[0] + Flatten(chunks[1..])
  {
    if |chunks| > 1 {
      FlattenFirst(chunks[..|chunks| - 1]);
      assert chunks[..|chunks| - 1][1..] == chunks[1..][..|chunks| - 2];
    } else {
      assert Flatten(chunks) == Flatten(chunks[..0]) + chunks[0];
    }
  }

  // --- uploads ------------------------------------------------------------------------------

  /** An upload, or the failure that stopped it before it started. */
  datatype Upload = Rejected(failure: Failure) | Open(request: StreamingRequest)

  /** Every call of an open upload that did not succeed has the sidecar's answer as its cause. */
  ghost predicate Caused<T>(r: Outcome<Result<T, Failure>>, a: Answer) {
    match r
    case Trapped(p) => TrapsWith(a, p)
    case Returned(Err(f)) => FailsWith(a, f)
    case _ => true
  }

  predicate Succeeded<T>(r: Outcome<Result<T, Failure>>) {
    r.Returned? && r.value.Ok?
  }

  /** How many writes there are up to the last that succeeded. */
  function Accepted(writes: seq<Outcome<Result<(), Failure>>>): (n: nat)
    ensures n <= |writes|
  {
    if writes == [] || Succeeded(writes[|writes| - 1]) then |writes| else Accepted(writes[..|writes| - 1])
  }

  /** A whole upload: write every chunk and finish, going on after failures and stopping only when the component
      traps or the run ends. */
  method RunUpload(upload: Upload, data: seq<Bytes>)
    returns (writes: seq<Outcome<Result<(), Failure>>>, end: Option<Outcome<Result<ResponseBody, Failure>>>)
    requires upload.Open? ==> upload.request.Valid() && !upload.request.dead && upload.request.failed.None?
    requires upload.Open? ==> upload.request.host.sent == []
    modifies if upload.Open? then {upload.request, upload.request.host} else {}
    ensures |writes| <= |data| && (end.Some? ==> |writes| == |data|)
    ensures end.None? <==> writes != [] && !writes[|writes| - 1].Returned?
    // it stops short only when the run ends
    ensures Blocked in writes || end == Some(Blocked) ==>
      upload.Open? && upload.request.host.time == upload.request.host.horizon
    // it waits only where a poll finds no room to write, and once for the answer
    ensures upload.Open? ==> var host := upload.request.host;
      host.time <= old(host.time) + Stalls(host.permits, old(host.polls), host.polls) + 1
    // a trap or failure is what the sidecar's answer amounts to, and a write meets it only where it cannot go on
    ensures upload.Open? ==> forall r | r in writes :: Caused(r, upload.request.host.answer)
    ensures upload.Open? && end.Some? ==> Caused(end.value, upload.request.host.answer)
    ensures upload.Open? ==> var host := upload.request.host;
      && old(host.polls) <= host.polls && (forall k | old(host.polls) < k < host.polls :: !host.Breaks(k))
      && (forall r | r in writes && !Succeeded(r) && !r.Blocked? :: old(host.polls) < host.polls && host.Breaks(host.polls))
    // nobody ever reads the response future twice or writes after the end
    ensures forall p | Trapped(p) in writes || end == Some(Trapped(p)) ::
      p !in {AlreadyConsumed, WriteAfterFinish, Unreachable}
    // a failure is final: every later write and the end return it again
    ensures forall i, j, f | 0 <= i < j < |writes| && writes[i] == Returned(Err(f)) :: writes[j] == Returned(Err(f))
    ensures forall i, f | 0 <= i < |writes| && writes[i] == Returned(Err(f)) :: end == Some(Returned(Err(f)))
    ensures upload.Rejected? ==> end == Some(Returned(Err(upload.failure)))
    // what reached the sidecar is a prefix of the input with the data of every successful write, and all of it when
    // every write succeeded, whatever `finish` returns
    ensures upload.Open? ==> upload.request.host.sent <= Flatten(data)
    ensures upload.Open? ==> |Flatten(data[..Accepted(writes)])| <= |upload.request.host.sent|
    ensures upload.Open? && end.Some? && (forall r | r in writes :: Succeeded(r)) ==>
      upload.request.host.sent == Flatten(data)
    ensures upload.Open? && end.Some? && Succeeded(end.value) ==> forall r | r in writes :: Succeeded(r)
    // when every write succeeded, the end succeeds exactly on a 2xx answer to a whole body
    ensures upload.Open? && end.Some? && (forall r | r in writes :: Succeeded(r)) && !end.value.Blocked? ==>
      var host := upload.request.host;
      (Succeeded(end.value) <==>
        host.flushes && host.finishes && host.answer.Response? && host.answer.status / 100 == 2)
  {
    writes := [];
    if upload.Rejected? {
      for i := 0 to |data|
        invariant |writes| == i && forall k | 0 <= k < i :: writes[k] == Returned(Err(upload.failure))
      {
        writes := writes + [Returned(Err(upload.failure))];
      }
      return writes, Some(Returned(Err(upload.failure)));
    }
    ghost var failed;
    writes, end, failed := RunOpen(upload.request, data);
    ResultsMean(writes, failed, upload.request.host.answer);
    FlattenPrefix(data, |writes|);
  }

  /** An upload that was not rejected. */
  method RunOpen(request: StreamingRequest, data: seq<Bytes>)
    returns (writes: seq<Outcome<Result<(), Failure>>>, end: Option<Outcome<Result<ResponseBody, Failure>>>,
             ghost failed: Option<Failure>)
    requires request.Valid() && !request.dead && request.failed.None? && request.host.sent == []
    modifies request, request.host
    ensures |writes| <= |data| && (end.Some? ==> |writes| == |data|)
    ensures end.None? <==> writes != [] && !writes[|writes| - 1].Returned?
    ensures Results(writes, failed, request.host.answer)
    ensures failed.Some? ==> end == Some(Returned(Err(failed.value)))
    ensures Blocked in writes || end == Some(Blocked) ==> request.host.time == request.host.horizon
    ensures var host := request.host;
      host.time <= old(host.time) + Stalls(host.permits, old(host.polls), host.polls) + 1
    ensures end.Some? ==> Caused(end.value, request.host.answer)
    ensures var host := request.host;
      && old(host.polls) <= host.polls && (forall k | old(host.polls) < k < host.polls :: !host.Breaks(k))
      && (forall r | r in writes && !Succeeded(r) && !r.Blocked? :: old(host.polls) < host.polls && host.Breaks(host.polls))
    ensures SentBy(|writes|, Accepted(writes), data, request.host.sent)
    ensures end.Some? && (forall r | r in writes :: Succeeded(r)) ==> request.host.sent == Flatten(data)
    ensures end.Some? && Succeeded(end.value) ==> forall r | r in writes :: Succeeded(r)
    ensures end.Some? && (forall r | r in writes :: Succeeded(r)) && !end.value.Blocked? ==>
      var host := request.host;
      (Succeeded(end.value) <==>
        host.flushes && host.finishes && host.answer.Response? && host.answer.status / 100 == 2)
  {
    writes := WriteAll(request, data);
    ResultsMean(writes, request.failed, request.host.answer);
    end, failed := None, request.failed;
    if writes != [] && !writes[|writes| - 1].Returned? {
      return;
    }
    assert request.failed.None? ==> forall k | 0 <= k < |writes| :: Succeeded(writes[k]);
    assert request.failed.Some? ==> writes[|writes| - 1] in writes;
    var finished := request.Finish();
    end := Some(finished);
  }

  /** What the writes so far returned, where `failed` is the latched failure and `a` the sidecar's answer: only the last
      may have trapped or not returned, and a failure is final. */
  ghost predicate Results(writes: seq<Outcome<Result<(), Failure>>>, failed: Option<Failure>, a: Answer) {
    if writes == [] then failed.None?
    else
      var k := |writes| - 1;
      var before, last := writes[..k], writes[k];
      && (k > 0 ==> writes[k - 1].Returned?)
      && Caused(last, a)
      && if last.Returned? && last.value.Err?
         then failed == Some(last.value.error) && (Results(before, None, a) || Results(before, failed, a))
         else failed.None? && Results(before, None, a)
  }

  lemma {:induction false} ResultsMean(
    writes: seq<Outcome<Result<(), Failure>>>, failed: Option<Failure>, a: Answer)
    requires Results(writes, failed, a)
    ensures forall k | 0 <= k < |writes| - 1 :: writes[k].Returned?
    ensures forall k | 0 <= k < |writes| :: Caused(writes[k], a)
    ensures forall k, f | 0 <= k < |writes| && writes[k] == Returned(Err(f)) :: failed == Some(f)
    ensures forall i, j, f | 0 <= i < j < |writes| && writes[i] == Returned(Err(f)) :: writes[j] == Returned(Err(f))
    ensures failed.Some? ==> writes != [] && writes[|writes| - 1] == Returned(Err(failed.value))
  {
    if writes != [] {
      var k := |writes| - 1;
      var before := writes[..k];
      if Results(before, None, a) {
        ResultsMean(before, None, a);
      } else {
        ResultsMean(before, failed, a);
      }
      assert forall i | 0 <= i < k :: before[i] == writes[i];
    }
  }

  lemma ResultsGrow(writes: seq<Outcome<Result<(), Failure>>>, failed: Option<Failure>,
                    r: Outcome<Result<(), Failure>>, failed': Option<Failure>, a: Answer)
    requires Results(writes, failed, a) && (writes != [] ==> writes[|writes| - 1].Returned?) && Caused(r, a)
    requires failed.Some? ==> r == Returned(Err(failed.value))
    requires failed' == if r.Returned? && r.value.Err? then Some(r.value.error) else failed
    ensures Results(writes + [r], failed', a)
  {
    assert (writes + [r])[..|writes|] == writes;
  }

  /** What was sent after `n` writes, the last to succeed being the one before `accepted`: a prefix of their data, with
      at least the data up to there. */
  ghost predicate SentBy(n: nat, accepted: nat, data: seq<Bytes>, sent: Bytes) {
    accepted <= n <= |data| && sent <= Flatten(data[..n]) && |Flatten(data[..accepted])| <= |sent|
  }

  lemma SentGrows(n: nat, accepted: nat, data: seq<Bytes>, sent: Bytes, ok: bool, sent': Bytes)
    requires SentBy(n, accepted, data, sent) && n < |data| && sent <= sent' <= sent + data[n]
    requires sent' != sent || ok ==> accepted == n
    requires ok ==> sent' == sent + data[n]
    ensures SentBy(n + 1, if ok then n + 1 else accepted, data, sent')
  {
    FlattenNext(data, n);
    PrefixStep(Flatten(data[..n]), |Flatten(data[..accepted])|, sent, data[n], sent', ok);
  }

  /** The bytes sent stay a prefix of the whole, hold at least the bytes known to be accepted, and are the whole when the
      last chunk was. */
  lemma PrefixStep(whole: Bytes, accepted: nat, sent: Bytes, chunk: Bytes, sent': Bytes, ok: bool)
    requires sent <= whole && accepted <= |sent| && sent <= sent' <= sent + chunk
    requires sent' != sent || ok ==> |whole| <= |sent|
    requires ok ==> sent' == sent + chunk
    ensures sent' <= whole + chunk && accepted <= |sent'| && (ok ==> |whole + chunk| <= |sent'|)
  {
    if sent' == sent {
      PrefixStays(whole, sent, chunk);
    } else {
      WholeGrows(whole, sent, chunk, sent');
    }
  }

  lemma FlattenNext(data: seq<Bytes>, i: nat)
    requires i < |data|
    ensures Flatten(data[..i + 1]) == Flatten(data[..i]) + data[i]
  {
    assert data[..i + 1][..i] == data[..i];
  }

  lemma AcceptedGrows(writes: seq<Outcome<Result<(), Failure>>>, r: Outcome<Result<(), Failure>>)
    ensures Accepted(writes + [r]) == if Succeeded(r) then |writes| + 1 else Accepted(writes)
  {
    assert (writes + [r])[..|writes|] == writes;
  }

  lemma WholeGrows(whole: Bytes, sent: Bytes, chunk: Bytes, sent': Bytes)
    requires sent <= whole && |whole| <= |sent| && sent <= sent' <= sent + chunk
    ensures sent == whole && sent' <= whole + chunk && |sent| <= |sent'|
  {
  }

  lemma PrefixStays(whole: Bytes, sent: Bytes, chunk: Bytes)
    requires sent <= whole
    ensures sent <= whole + chunk
  {
  }

  /** How the polls after `from` went, up to the present `polls` and `time`: none before the last broke, none at all
      when the upload is still going on, and there was a wait for each poll without room and at most one for the
      answer. */
  ghost predicate Paced(host: Host, from: nat, start: nat, polls: nat, time: nat, going: bool) {
    && from <= polls && (forall k | from < k < polls :: !host.Breaks(k))
    && (going && from < polls ==> !host.Breaks(polls))
    && time <= start + Stalls(host.permits, from, polls) + if going then 0 else 1
  }

  lemma PacedOn(host: Host, from: nat, start: nat, polls: nat, time: nat, polls': nat, time': nat, going: bool)
    requires Paced(host, from, start, polls, time, true) && Paced(host, polls, time, polls', time', going)
    ensures Paced(host, from, start, polls', time', going)
  {
    StallsAdd(host.permits, from, polls, polls');
  }

  /** The next write of an upload that began at poll `from` and time `start`. */
  method WriteNext(request: StreamingRequest, data: seq<Bytes>, i: nat,
                   ghost writes: seq<Outcome<Result<(), Failure>>>, ghost from: nat, ghost start: nat)
    returns (r: Outcome<Result<(), Failure>>)
    requires request.Valid() && !request.dead && i == |writes| < |data|
    requires Results(writes, request.failed, request.host.answer) && (i > 0 ==> writes[i - 1].Returned?)
    requires SentBy(|writes|, Accepted(writes), data, request.host.sent) && (request.failed.None? ==> Accepted(writes) == i)
    requires Paced(request.host, from, start, request.host.polls, request.host.time, request.failed.None?)
    requires request.failed.Some? ==> from < request.host.polls && request.host.Breaks(request.host.polls)
    modifies request`failed, request`dead, request.host
    ensures request.Valid() && (r.Returned? <==> !request.dead)
    ensures Results(writes + [r], request.failed, request.host.answer)
    ensures SentBy(i + 1, Accepted(writes + [r]), data, request.host.sent)
    ensures !request.dead && request.failed.None? ==> Accepted(writes + [r]) == i + 1
    ensures Paced(request.host, from, start, request.host.polls, request.host.time,
                  !request.dead && request.failed.None?)
    ensures request.failed.Some? || r.Trapped? ==> from < request.host.polls && request.host.Breaks(request.host.polls)
    ensures r.Blocked? ==> request.host.time == request.host.horizon
  {
    ghost var host, failed := request.host, request.failed;
    ghost var sent, polls, time := host.sent, host.polls, host.time;
    r := request.Write(data[i]);
    ResultsGrow(writes, failed, r, request.failed, host.answer);
    AcceptedGrows(writes, r);
    SentGrows(i, Accepted(writes), data, sent, Succeeded(r), host.sent);
    if failed.None? {
      PacedOn(host, from, start, polls, time, host.polls, host.time, Succeeded(r));
    }
  }

  /** The writes of an upload: none succeeds after one failed, and the last may trap or not return. */
  method WriteAll(request: StreamingRequest, data: seq<Bytes>) returns (writes: seq<Outcome<Result<(), Failure>>>)
    requires request.Valid() && !request.dead && request.failed.None? && request.host.sent == []
    modifies request`failed, request`dead, request.host
    ensures request.Valid() && |writes| <= |data| && (!request.dead ==> |writes| == |data|)
    ensures request.dead <==> writes != [] && !writes[|writes| - 1].Returned?
    ensures Results(writes, request.failed, request.host.answer)
    ensures SentBy(|writes|, Accepted(writes), data, request.host.sent)
    ensures !request.dead && request.failed.None? ==> request.host.sent == Flatten(data)
    ensures var host := request.host;
      Paced(host, old(host.polls), old(host.time), host.polls, host.time, !request.dead && request.failed.None?)
    ensures request.failed.Some? || (request.dead && writes[|writes| - 1].Trapped?) ==>
      old(request.host.polls) < request.host.polls && request.host.Breaks(request.host.polls)
    ensures request.dead && writes[|writes| - 1].Blocked? ==> request.host.time == request.host.horizon
  {
    writes := [];
    ghost var host, start, from := request.host, request.host.time, request.host.polls;
    for i := 0 to |data|
      invariant request.Valid() && !request.dead && |writes| == i
      invariant i > 0 ==> writes[i - 1].Returned?
      invariant Results(writes, request.failed, host.answer)
      invariant SentBy(i, Accepted(writes), data, host.sent) && (request.failed.None? ==> Accepted(writes) == i)
      invariant Paced(host, from, start, host.polls, host.time, request.failed.None?)
      invariant request.failed.Some? ==> from < host.polls && host.Breaks(host.polls)
    {
      var r := WriteNext(request, data, i, writes, from, start);
      writes := writes + [r];
      if !r.Returned? {
        return;
      }
    }
    if request.failed.None? {
      AllSent(writes, data, host.sent);
    }
  }

  lemma AllSent(writes: seq<Outcome<Result<(), Failure>>>, data: seq<Bytes>, sent: Bytes)
    requires SentBy(|writes|, Accepted(writes), data, sent) && Accepted(writes) == |writes| == |data|
    ensures sent == Flatten(data)
  {
    assert data[..|data|] == data;
  }

  lemma {:induction false} FlattenPrefix(chunks: seq<Bytes>, k: nat)
    requires k <= |chunks|
    ensures Flatten(chunks[..k]) <= Flatten(chunks)
    decreases |chunks|
  {
    if k < |chunks| {
      FlattenPrefix(chunks[..|chunks| - 1], k);
      assert chunks[..|chunks| - 1][..k] == chunks[..k];
    } else {
      assert chunks[..k] == chunks;
    }
  }
}
