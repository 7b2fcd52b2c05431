// TCP connections over non-blocking host streams. Goroutines switch only inside `Sleep`, so that is where another
// goroutine's `Close` may drop the stream handles. The scheduler is read off an oracle by sleep, the host and the
// clock by poll; a run may stop at its last sleep (`Blocked`). Dropping a handle again does nothing, and any other call
// on a dropped handle traps.
module WasiSocket {
  import opened Common
  import opened HostStreams

  datatype Error = UseOfClosed | EndOfFile | DeadlineExceeded | ConnectionReset | BrokenPipe | NotShutDown

  datatype Outcome = Returned(n: nat, error: Option<Error>) | Trapped | Blocked

  /** What the input stream does at a poll: hand over up to this many bytes, end, or fail. It ends once everything has
      been read, and has nothing yet before that; once it failed it is closed and reports its end from then on. */
  datatype Arrival = Ready(count: nat) | Ended | Broken

  /** How a pass of the loop of `Write` ends. */
  datatype Pass = Failed(error: Error) | NoRoom | Gave(n: nat)

  class Conn {
    const horizon: nat
    const closes: nat -> bool         // another goroutine's Close completes during this sleep
    const readExpired: nat -> bool    // the deadline is over at this poll
    const writeExpired: nat -> bool
    const arrivals: nat -> Arrival
    const permits: nat -> Permit
    const accepts: nat -> bool
    const drainExpired: nat -> bool
    const shutsDown: bool             // does the socket's shutdown succeed
    const input: Bytes                // all the peer sends

    var time: nat                     // sleeps so far
    var polls: nat                    // passes of the polling loops so far
    var closed: bool
    var readEOF: bool
    var dropped: bool                 // the handles of the streams and the socket are gone
    var drops: nat                    // how often the host was asked to drop them
    var failed: bool                  // the input stream has failed
    var sent: Bytes                   // what the output stream accepted
    var received: nat                 // how much of the input has been handed over

    ghost predicate Valid()
      reads this
    {
      && time <= horizon && received <= |input|
      && (dropped <==> closed) && drops == (if dropped then 1 else 0)
      && (readEOF ==> received == |input| || failed)
    }

    constructor (horizon: nat, closes: nat -> bool, readExpired: nat -> bool, writeExpired: nat -> bool,
                 arrivals: nat -> Arrival, permits: nat -> Permit, accepts: nat -> bool,
                 drainExpired: nat -> bool, shutsDown: bool, input: Bytes)
      ensures Valid() && !closed && !failed && sent == [] && received == 0 && this.input == input
      ensures time == 0 && polls == 0 && !readEOF
      ensures this.horizon == horizon && this.closes == closes && this.readExpired == readExpired
      ensures this.arrivals == arrivals && this.permits == permits && this.drainExpired == drainExpired
    {
      this.horizon, this.closes, this.readExpired, this.writeExpired := horizon, closes, readExpired, writeExpired;
      this.arrivals, this.permits, this.accepts, this.drainExpired := arrivals, permits, accepts, drainExpired;
      this.shutsDown, this.input := shutsDown, input;
      time, polls, closed, readEOF, sent, received := 0, 0, false, false, [], 0;
      dropped, drops, failed := false, 0, false;
    }

    /** Whether another goroutine's `Close` completed in a sleep after tick `from` and up to tick `to`. */
    ghost predicate ClosedBetween(from: nat, to: nat) {
      exists t | from < t <= to :: closes(t)
    }

    // --- the host's stream calls ----------------------------------------------------

    /** `output-stream.write` within the preceding permit. */
    method HostWrite(chunk: Bytes, ghost permit: nat) returns (ok: bool)
      requires !dropped && |chunk| <= permit
      modifies this`sent
      ensures ok == accepts(polls)
      ensures sent == if ok then old(sent) + chunk else old(sent)
    {
      ok := accepts(polls);
      if ok {
        sent := sent + chunk;
      }
    }

    /** `output-stream.check-write`. */
    method CheckWrite() returns (permit: Permit)
      requires !dropped
      ensures permit == permits(polls)
    {
      permit := permits(polls);
    }

    /** `output-stream.flush`, whose result nobody looks at. */
    method Flush()
      requires !dropped
    {
    }

    /** `tcp-socket.shutdown`. */
    method Shutdown() returns (ok: bool)
      requires !dropped
      ensures ok == shutsDown
    {
      ok := shutsDown;
    }

    /** `input-stream.read(len)`: some of what is left, possibly nothing yet; `None` at its end or after a failure. */
    method HostRead(len: nat) returns (broken: bool, data: Option<Bytes>)
      requires Valid() && !dropped
      modifies this`received, this`failed
      ensures Valid() && !closed && broken == (!old(failed) && arrivals(polls).Broken?)
      ensures failed == (old(failed) || broken)
      ensures broken || data.None? ==> received == old(received)
      ensures !broken && data.None? ==> failed || (received == |input| && arrivals(polls).Ended?)
      ensures !broken && data.Some? ==> !failed && |data.value| <= len && received == old(received) + |data.value|
      ensures !broken && data.Some? ==> data.value == input[old(received)..received]
      ensures !broken && data.Some? && data.value != [] ==> arrivals(polls).Ready?
      ensures !broken && data == Some([]) && len > 0 ==> NothingYet(polls, |input| - received)
    {
      if failed {
        return false, None;
      }
      match arrivals(polls) {
        case Broken =>
          failed := true;
          return true, None;
        case Ended => return false, if received == |input| then None else Some([]);
        case Ready(count) =>
          var left := |input| - received;
          var n := if count < len then count else len;
          n := if n < left then n else left;
          data := Some(input[received..received + n]);
          received := received + n;
          return false, data;
      }
    }

    /** Whether a read at this poll hands over nothing, with `left` bytes to come. */
    predicate NothingYet(poll: nat, left: nat) {
      match arrivals(poll)
      case Ready(count) => count == 0 || left == 0
      case Ended => left > 0
      case Broken => false
    }

    /** `Drop` of the streams and the socket: the binding forgets the handle, so the host is asked once. */
    method Drop()
      modifies this`dropped, this`drops
      ensures dropped && drops == old(drops) + if old(dropped) then 0 else 1
    {
      if !dropped {
        dropped, drops := true, drops + 1;
      }
    }

    /** `backoff.wait`: other goroutines run, and one of them may finish a `Close`. */
    method Sleep() returns (woken: bool)
      requires Valid()
      modifies this`time, this`closed, this`dropped, this`drops
      ensures Valid() && (woken <==> old(time) < horizon)
      ensures woken ==> time == old(time) + 1 && closed == (old(closed) || closes(time))
      ensures !woken ==> time == old(time) && closed == old(closed)
    {
      woken := time < horizon;
      if woken {
        time := time + 1;
        if closes(time) {
          closed := true;
          Drop();
        }
      }
    }

    // --- the connection -----------------------------------------------------------------

    /** Whether `Read` goes on sleeping after this poll, with `delivered` bytes of the input handed over. */
    predicate ReadWaits(poll: nat, delivered: nat)
      requires delivered <= |input|
    {
      !readExpired(poll) && NothingYet(poll, |input| - delivered)
    }

    /** `Read`: no dropped handle is touched; the bytes delivered are the next of the input; end of file comes after all
        of them or, with input missing, on exactly the reads after a failed one, and comes again on every later read;
        and it sleeps only as long as there is nothing to deliver or to report. */
    method Read(p: array<bv8>) returns (r: Outcome)
      requires Valid()
      modifies this`time, this`polls, this`closed, this`dropped, this`drops, this`readEOF, this`received, this`failed, p
      ensures Valid() && !r.Trapped?
      ensures r.Returned? ==> r.n <= p.Length && received == old(received) + r.n
      ensures r.Returned? ==> p[..r.n] == input[old(received)..received] && p[r.n..] == old(p[..])[r.n..]
      ensures !r.Returned? ==> received == old(received)
      ensures r.Returned? && r.error.None? ==> r.n > 0 || p.Length == 0
      ensures r.Returned? && r.error.Some? ==> r.n == 0
      ensures failed <==> old(failed) || r == Returned(0, Some(ConnectionReset))
      ensures r.Returned? && r.error == Some(EndOfFile) ==> (received == |input| || failed) && readEOF
      ensures !old(failed) && !old(readEOF) && r.Returned? && r.error == Some(EndOfFile) ==> arrivals(polls).Ended?
      ensures old(failed) && !old(closed) && !old(readEOF) && p.Length > 0 && !readExpired(old(polls) + 1) ==>
        r == Returned(0, Some(EndOfFile))
      ensures !old(readEOF) && r == Returned(0, Some(EndOfFile)) ==>
        (received < |input| <==> old(failed) && old(received) < |input|)
      ensures closed <==> old(closed) || ClosedBetween(old(time), time)
      ensures r.Returned? && r.error.Some? ==> (r.error.value == UseOfClosed <==> closed)
      ensures r.Returned? && r.error.Some? && old(polls) < polls ==>
        (r.error.value == DeadlineExceeded <==> !closed && readExpired(polls))
      ensures r.Returned? && r.error == Some(DeadlineExceeded) ==> old(polls) < polls && readExpired(polls)
      ensures r.Returned? && r.error == Some(ConnectionReset) ==>
        old(polls) < polls && !readExpired(polls) && arrivals(polls).Broken?
      ensures r.Returned? && r.n > 0 ==> !closed && !old(failed) && !readExpired(polls) && arrivals(polls).Ready?
      ensures r.Returned? && r.error.Some? ==>
        r.error.value in {UseOfClosed, EndOfFile, DeadlineExceeded, ConnectionReset}
      ensures forall k | old(polls) < k < polls :: ReadWaits(k, old(received))
      ensures r.Blocked? ==> time == horizon && old(polls) < polls && ReadWaits(polls, received)
      ensures old(time) <= time <= old(time) + polls - old(polls)
      ensures old(polls) <= polls && (old(polls) < polls <==> !old(closed) && p.Length > 0 && !old(readEOF))
      ensures old(closed) ==> r == Returned(0, Some(UseOfClosed))
      ensures old(readEOF) && !old(closed) && p.Length > 0 ==> r == Returned(0, Some(EndOfFile))
    {
      if closed {
        return Returned(0, Some(UseOfClosed));
      }
      if p.Length == 0 {
        return Returned(0, None);
      }
      if readEOF {
        return Returned(0, Some(EndOfFile));
      }
      r := ReadLoop(p);
    }

    /** The loop of `Read`. */
    method ReadLoop(p: array<bv8>) returns (r: Outcome)
      requires Valid() && !closed && !readEOF && p.Length > 0
      modifies this`time, this`polls, this`closed, this`dropped, this`drops, this`readEOF, this`received, this`failed, p
      ensures Valid() && !r.Trapped? && old(polls) < polls
      ensures r.Returned? ==> r.n <= p.Length && received == old(received) + r.n
      ensures r.Returned? ==> p[..r.n] == input[old(received)..received] && p[r.n..] == old(p[..])[r.n..]
      ensures !r.Returned? ==> received == old(received)
      ensures r.Returned? ==> (r.error.None? <==> r.n > 0)
      ensures failed <==> old(failed) || r == Returned(0, Some(ConnectionReset))
      ensures r.Returned? && r.n > 0 ==> !closed && !failed && !readExpired(polls) && arrivals(polls).Ready?
      ensures readEOF <==> r == Returned(0, Some(EndOfFile))
      ensures readEOF && !failed ==> received == |input| && arrivals(polls).Ended?
      ensures old(failed) && !readExpired(old(polls) + 1) ==> readEOF
      ensures closed <==> ClosedBetween(old(time), time)
      ensures r.Returned? && r.error.Some? ==> match r.error.value
        case UseOfClosed => closed
        case EndOfFile => !closed && !readExpired(polls)
        case DeadlineExceeded => !closed && readExpired(polls)
        case ConnectionReset => !closed && !readExpired(polls) && arrivals(polls).Broken?
        case _ => false
      ensures forall k | old(polls) < k < polls :: ReadWaits(k, old(received))
      ensures r.Blocked? ==> time == horizon && ReadWaits(polls, received)
      ensures old(time) <= time <= old(time) + polls - old(polls)
    {
      while true
        invariant Valid() && received == old(received) && p[..] == old(p[..]) && !readEOF && failed == old(failed)
        invariant polls >= old(polls) && old(time) <= time <= old(time) + polls - old(polls)
        invariant (failed ==> polls == old(polls)) && (polls == old(polls) ==> !closed)
        invariant closed <==> ClosedBetween(old(time), time)
        invariant forall k | old(polls) < k <= polls :: ReadWaits(k, old(received))
        decreases horizon - time
      {
        polls := polls + 1;
        if closed {
          return Returned(0, Some(UseOfClosed));
        }
        if readExpired(polls) {
          return Returned(0, Some(DeadlineExceeded));
        }
        var broken, reply := HostRead(p.Length);
        if broken {
          return Returned(0, Some(ConnectionReset));
        }
        if reply.None? {
          readEOF := true;
          return Returned(0, Some(EndOfFile));
        }
        var data := reply.value;
        if |data| > 0 {
          forall i | 0 <= i < |data| {
            p[i] := data[i];
          }
          assert p[..|data|] == data;
          return Returned(|data|, None);
        }
        var woken := Sleep();
        if !woken {
          return Blocked;
        }
      }
    }

    /** Whether `Write` goes on after this poll. */
    predicate WriteGoesOn(poll: nat) {
      !writeExpired(poll) && permits(poll).Allowed? && (permits(poll).bytes > 0 ==> accepts(poll))
    }

    /** Whether an error of `Write` is the one for what holds at the present poll: a close comes before a deadline, and
        both come before any call of the stream. */
    predicate WriteFails(error: Error)
      reads this
    {
      match error
      case UseOfClosed => closed
      case DeadlineExceeded => !closed && writeExpired(polls)
      case BrokenPipe =>
        !closed && !writeExpired(polls) &&
        (permits(polls).Refused? || (permits(polls).bytes > 0 && !accepts(polls)))
      case _ => false
    }

    /** `Write`: the count returned says exactly which prefix of `p` was handed over, and the error is nil exactly
        when that is all of it; it sleeps only as long as the permit is 0. A handle is touched after it was dropped in
        one case only, the flush of an empty write on a closed connection. */
    method Write(p: Bytes) returns (r: Outcome)
      requires Valid()
      modifies this`time, this`polls, this`closed, this`dropped, this`drops, this`sent
      ensures Valid()
      ensures r.Trapped? <==> p == [] && old(closed)
      ensures r.Returned? ==> r.n <= |p| && sent == old(sent) + p[..r.n]
      ensures r.Returned? ==> (r.error.None? <==> r.n == |p|)
      ensures r.Returned? && r.error.Some? ==> WriteFails(r.error.value)
      ensures r.Returned? && r.error.Some? ==> old(polls) < polls && r.n == Room(permits, old(polls), polls - 1)
      ensures r.Blocked? ==> var n := Room(permits, old(polls), polls); n < |p| && sent == old(sent) + p[..n]
      ensures !r.Returned? ==> old(sent) <= sent <= old(sent) + p
      ensures forall k | old(polls) < k < polls :: WriteGoesOn(k)
      ensures r == Returned(|p|, None) && p != [] ==>
        !closed && old(polls) < polls && WriteGoesOn(polls) && permits(polls).bytes > 0
      ensures r.Blocked? ==> time == horizon && old(polls) < polls && WriteGoesOn(polls) && permits(polls).bytes == 0
      ensures old(polls) <= polls && old(time) <= time <= old(time) + Stalls(permits, old(polls), polls)
    {
      var written := 0;
      while written < |p|
        invariant Valid() && written <= |p| && sent == old(sent) + p[..written]
        invariant polls >= old(polls) && forall k | old(polls) < k <= polls :: WriteGoesOn(k)
        invariant written < |p| ==> written == Room(permits, old(polls), polls)
        invariant old(time) <= time <= old(time) + Stalls(permits, old(polls), polls)
        invariant written == |p| && p != [] ==>
          !closed && old(polls) < polls && WriteGoesOn(polls) && permits(polls).bytes > 0
        invariant p == [] ==> closed == old(closed)
        decreases |p| - written, horizon - time
      {
        var pass := WritePass(p[written..]);
        match pass {
          case Failed(error) =>
            return Returned(written, Some(error));
          case NoRoom =>
            var woken := Sleep();
            if !woken {
              PrefixGrows(old(sent), p, written, []);
              return Blocked;
            }
          case Gave(n) =>
            PrefixGrows(old(sent), p, written, p[written..][..n]);
            written := written + n;
        }
      }
      assert p[..|p|] == p;
      if dropped {
        return Trapped;  // the final flush is a call on the output stream
      }
      Flush();
      return Returned(written, None);
    }

    /** One pass of the loop of `Write`, up to its sleep: hand over as much of the rest as the permit allows. */
    method WritePass(rest: Bytes) returns (pass: Pass)
      requires Valid() && rest != []
      modifies this`polls, this`sent
      ensures Valid() && polls == old(polls) + 1
      ensures pass.Failed? ==> WriteFails(pass.error)
      ensures !pass.Failed? ==> !closed && WriteGoesOn(polls)
      ensures pass.NoRoom? ==> permits(polls).bytes == 0
      ensures pass.Gave? ==> var room := permits(polls).bytes;
        room > 0 && pass.n == (if |rest| < room then |rest| else room) && sent == old(sent) + rest[..pass.n]
      ensures !pass.Gave? ==> sent == old(sent)
    {
      polls := polls + 1;
      if closed {
        return Failed(UseOfClosed);
      }
      if writeExpired(polls) {
        return Failed(DeadlineExceeded);
      }
      var permit := CheckWrite();
      if permit.Refused? {
        return Failed(BrokenPipe);
      }
      if permit.bytes == 0 {
        return NoRoom;
      }
      var chunk := rest;
      if |chunk| > permit.bytes {
        chunk := chunk[..permit.bytes];
      }
      var ok := HostWrite(chunk, permit.bytes);
      if !ok {
        return Failed(BrokenPipe);
      }
      return Gave(|chunk|);
    }

    /** Whether a `check-write` at this poll says that buffered output was flushed, or never will be. */
    predicate Flushed(poll: nat) {
      permits(poll).Refused? || permits(poll).bytes > 0
    }

    /** `drain`: start a flush, then wait until buffered output is flushed, the time is over, or somebody else closed;
        as long as none of that happens, keep waiting. */
    method Drain() returns (r: Outcome)
      requires Valid()
      modifies this`time, this`polls, this`closed, this`dropped, this`drops
      ensures Valid() && old(time) <= time <= old(time) + polls - old(polls)
      ensures r.Trapped? <==> old(closed)
      ensures closed <==> old(closed) || ClosedBetween(old(time), time)
      ensures r.Returned? ==> r == Returned(0, None) && (closed || drainExpired(polls) || Flushed(polls))
      ensures r.Blocked? ==>
        !closed && time == horizon && old(polls) < polls && !drainExpired(polls) && !Flushed(polls)
      ensures forall k | old(polls) < k < polls :: !drainExpired(k) && !Flushed(k)
    {
      if dropped {
        return Trapped;  // the flush is a call on the output stream
      }
      Flush();
      while !closed
        invariant Valid() && old(time) <= time <= old(time) + polls - old(polls)
        invariant closed <==> ClosedBetween(old(time), time)
        invariant polls >= old(polls) && forall k | old(polls) < k <= polls :: !drainExpired(k) && !Flushed(k)
        decreases horizon - time
      {
        polls := polls + 1;
        if drainExpired(polls) {
          return Returned(0, None);
        }
        var permit := CheckWrite();
        if permit.Refused? || permit.bytes > 0 {
          return Returned(0, None);
        }
        var woken := Sleep();
        if !woken {
          return Blocked;
        }
      }
      return Returned(0, None);
    }

    /** `CloseWrite`, which does not look at `closed`: it touches a dropped handle exactly when the connection is closed
        before it or while it drains. */
    method CloseWrite() returns (r: Outcome)
      requires Valid()
      modifies this`time, this`polls, this`closed, this`dropped, this`drops
      ensures Valid() && old(time) <= time <= old(time) + polls - old(polls)
      ensures forall k | old(polls) < k < polls :: !drainExpired(k) && !Flushed(k)
      ensures closed <==> old(closed) || ClosedBetween(old(time), time)
      ensures r.Trapped? <==> closed
      ensures r.Blocked? ==> time == horizon && !drainExpired(polls) && !Flushed(polls)
      ensures r.Returned? ==> (drainExpired(polls) || Flushed(polls))
      ensures r.Returned? ==> r == Returned(0, if shutsDown then None else Some(NotShutDown))
    {
      var drained := Drain();
      if !drained.Returned? {
        return drained;
      }
      if dropped {
        return Trapped;  // the shutdown is a call on the socket
      }
      var ok := Shutdown();
      return Returned(0, if ok then None else Some(NotShutDown));
    }

    /** `Close`: it never touches a dropped handle, closes once the output is drained, and however many closes overlap
        or follow each other the host is asked to drop the handles exactly once (`Valid` bounds `drops`). */
    method Close() returns (r: Outcome)
      requires Valid()
      modifies this`time, this`polls, this`closed, this`dropped, this`drops
      ensures Valid() && !r.Trapped? && old(time) <= time <= old(time) + polls - old(polls)
      ensures r.Returned? ==> r == Returned(0, None) && closed && dropped && drops == 1
      ensures old(closed) ==> r == Returned(0, None) && time == old(time)
      ensures !old(closed) && r.Returned? ==>
        ClosedBetween(old(time), time) || drainExpired(polls) || Flushed(polls)
      ensures forall k | old(polls) < k < polls :: !drainExpired(k) && !Flushed(k)
      ensures r.Blocked? ==> !closed && time == horizon && !ClosedBetween(old(time), time)
      ensures r.Blocked? ==> !drainExpired(polls) && !Flushed(polls)
    {
      if closed {
        return Returned(0, None);
      }
      var drained := Drain();
      if drained.Blocked? {
        return Blocked;
      }
      closed := true;
      Drop();
      return Returned(0, None);
    }

    /** Whether an error of a read has its cause at one of the polls after `from`. */
    ghost predicate ReadFails(error: Error, from: nat)
      reads this
    {
      match error
      case UseOfClosed => closed
      case EndOfFile => received == |input| || failed
      case DeadlineExceeded => exists k | from < k <= polls :: readExpired(k)
      case ConnectionReset => failed && exists k | from < k <= polls :: arrivals(k).Broken?
      case _ => false
    }

    /** Whether `r` is what a read with a buffer of `size` bytes returns after poll `from`: bytes unless the buffer is
        empty, an error with its cause, or nothing at the end of the run. */
    ghost predicate ReadReturns(r: Outcome, size: nat, from: nat)
      reads this
    {
      match r
      case Returned(n, None) => n <= size && (size > 0 ==> n > 0)
      case Returned(n, Some(error)) => n == 0 && ReadFails(error, from)
      case Trapped => false
      case Blocked => time == horizon
    }

    /** A read with a fresh buffer. */
    method ReadFresh(size: nat) returns (bytes: Bytes, r: Outcome)
      requires Valid()
      modifies this`time, this`polls, this`closed, this`dropped, this`drops, this`readEOF, this`received, this`failed
      ensures Valid() && old(received) <= received && bytes == input[old(received)..received]
      ensures ReadReturns(r, size, old(polls)) && |bytes| == if r.Returned? then r.n else 0
      ensures (old(closed) ==> closed) && (old(failed) ==> failed) && old(polls) <= polls
      ensures old(time) <= time <= old(time) + polls - old(polls)
    {
      var p := new bv8[size];
      r := Read(p);
      bytes := if r.Returned? then p[..r.n] else [];
    }

    /** Reads with buffers of any sizes, going on after errors and interrupted by closes at any sleep: what they return
        is, in order, the next of the input, as much as they report; every read is made, unless the run ends, and one
        with a non-empty buffer that reports no error delivers something. */
    method ReadEach(sizes: seq<nat>) returns (out: Bytes, results: seq<Outcome>)
      requires Valid()
      modifies this`time, this`polls, this`closed, this`dropped, this`drops, this`readEOF, this`received, this`failed
      ensures Valid() && old(received) <= received && out == input[old(received)..received]
      ensures |out| == Total(results)
      ensures |results| <= |sizes| && (|results| < |sizes| ==> results != [] && results[|results| - 1].Blocked?)
      ensures forall i | 0 <= i < |results| :: ReadReturns(results[i], sizes[i], old(polls))
      ensures Returned(0, Some(EndOfFile)) in results ==> out == input[old(received)..] || failed
      ensures old(time) <= time <= old(time) + polls - old(polls)
    {
      out, results := [], [];
      for i := 0 to |sizes|
        invariant Valid() && received >= old(received) && out == input[old(received)..received]
        invariant |results| == i && |out| == Total(results)
        invariant forall k | 0 <= k < i :: results[k].Returned? && ReadReturns(results[k], sizes[k], old(polls))
        invariant polls >= old(polls) && old(time) <= time <= old(time) + polls - old(polls)
      {
        var bytes, r := ReadFresh(sizes[i]);
        assert (results + [r])[..i] == results;
        results := results + [r];
        if r.Blocked? {
          return;
        }
        out := out + bytes;
      }
    }
  }

  /** The bytes reported by some reads. */
  function Total(results: seq<Outcome>): nat {
    if results == [] then 0
    else
      var last := results[|results| - 1];
      Total(results[..|results| - 1]) + if last.Returned? then last.n else 0
  }

  /** A reset and then an end of file, with the one byte of the input missing. */
  method EndOfFileAfterReset() returns (first: Outcome, second: Outcome, missing: nat)
    ensures first == Returned(0, Some(ConnectionReset)) && second == Returned(0, Some(EndOfFile)) && missing == 1
  {
    var never: nat -> bool := _ => false;
    var always: nat -> bool := _ => true;
    var conn := new Conn(1, never, never, never, _ => Arrival.Broken, _ => Allowed(1), always, always, true, [7]);
    var p := new bv8[1];
    first := conn.Read(p);
    second := conn.Read(p);
    missing := |conn.input| - conn.received;
  }

  /** An empty write on a closed connection calls the dropped output stream. */
  method EmptyWriteAfterClose() returns (r: Outcome)
    ensures r.Trapped?
  {
    var never: nat -> bool := _ => false;
    var always: nat -> bool := _ => true;
    var conn := new Conn(1, never, never, never, _ => Ready(0), _ => Allowed(1), always, always, true, []);
    var closed := conn.Close();
    r := conn.Write([]);
  }

  /** A half-close whose drain sleeps while another goroutine closes calls the dropped socket. */
  method HalfCloseOverlapsClose() returns (r: Outcome)
    ensures r.Trapped?
  {
    var never: nat -> bool := _ => false;
    var always: nat -> bool := _ => true;
    var busy: nat -> Permit := _ => Allowed(0);
    var conn := new Conn(1, always, never, never, _ => Ready(0), busy, always, never, true, []);
    r := conn.CloseWrite();
    assert conn.closes(1);
  }
}
