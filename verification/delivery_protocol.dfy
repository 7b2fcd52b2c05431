// The delivery queue between Dapr's goroutines and the app: any number of `Deliver` calls register under a lock,
// send their id on a bounded channel in a separate step and wait on a one-slot reply channel, while one pump
// takes ids, calls the app and completes them. Every interleaving is a run of `Step`.
module DeliveryProtocol {
  import opened Common

  // --- events and results ------------------------------------------------------

  /** One case per callback of the app; the payload is the callback's argument record. */
  datatype Event =
    | ListTopicSubscriptions
    | ListInputBindings
    | ActorConfig
    | HealthCheck
    | Invoke(request: Bytes)
    | Topic(event: Bytes)
    | BulkTopic(events: Bytes)
    | Binding(event: Bytes)
    | Job(event: Bytes)
    | ActorInvoke(call: Bytes)
    | ActorTimer(timer: Bytes)
    | ActorReminder(reminder: Bytes)
    | ActorDeactivate(actor: Bytes)
    | ConfigurationUpdate(update: Bytes)

  datatype EventResult =
    | TopicSubscriptions(answer: Bytes)
    | InputBindings(answer: Bytes)
    | Config(answer: Bytes)
    | Health(answer: Bytes)
    | Invoked(answer: Bytes)
    | TopicHandled(answer: Bytes)
    | BulkTopicHandled(answer: Bytes)
    | BindingHandled(answer: Bytes)
    | JobHandled(answer: Bytes)
    | ActorInvoked(answer: Bytes)
    | TimerHandled(answer: Bytes)
    | ReminderHandled(answer: Bytes)
    | Deactivated(answer: Bytes)
    | ConfigurationUpdated

  /** Case numbers of the `event` variant, in declaration order. */
  function EventTag(e: Event): nat {
    match e
    case ListTopicSubscriptions => 0
    case ListInputBindings => 1
    case ActorConfig => 2
    case HealthCheck => 3
    case Invoke(_) => 4
    case Topic(_) => 5
    case BulkTopic(_) => 6
    case Binding(_) => 7
    case Job(_) => 8
    case ActorInvoke(_) => 9
    case ActorTimer(_) => 10
    case ActorReminder(_) => 11
    case ActorDeactivate(_) => 12
    case ConfigurationUpdate(_) => 13
  }

  /** Case numbers of the `event-result` variant, in declaration order. */
  function ResultTag(r: EventResult): nat {
    match r
    case TopicSubscriptions(_) => 0
    case InputBindings(_) => 1
    case Config(_) => 2
    case Health(_) => 3
    case Invoked(_) => 4
    case TopicHandled(_) => 5
    case BulkTopicHandled(_) => 6
    case BindingHandled(_) => 7
    case JobHandled(_) => 8
    case ActorInvoked(_) => 9
    case TimerHandled(_) => 10
    case ReminderHandled(_) => 11
    case Deactivated(_) => 12
    case ConfigurationUpdated => 13
  }

  /** The numbers tell the cases apart, so equal numbers mean the same callback. */
  lemma TagsTellCasesApart(e: Event, f: Event)
    requires EventTag(e) == EventTag(f)
    ensures e.ListTopicSubscriptions? == f.ListTopicSubscriptions? && e.ListInputBindings? == f.ListInputBindings?
    ensures e.ActorConfig? == f.ActorConfig? && e.HealthCheck? == f.HealthCheck? && e.Invoke? == f.Invoke?
    ensures e.Topic? == f.Topic? && e.BulkTopic? == f.BulkTopic? && e.Binding? == f.Binding? && e.Job? == f.Job?
    ensures e.ActorInvoke? == f.ActorInvoke? && e.ActorTimer? == f.ActorTimer?
    ensures e.ActorReminder? == f.ActorReminder? && e.ActorDeactivate? == f.ActorDeactivate?
    ensures EventTag(e) < 14
  {
  }

  /** The pump's `dispatch`: call the callback of the event's case, which answers `answer`, and wrap the answer. */
  function Dispatch(e: Event, answer: Bytes): (r: EventResult)
    ensures ResultTag(r) == EventTag(e)
    ensures !r.ConfigurationUpdated? ==> r.answer == answer
  {
    match e
    case ListTopicSubscriptions => TopicSubscriptions(answer)
    case ListInputBindings => InputBindings(answer)
    case ActorConfig => Config(answer)
    case HealthCheck => Health(answer)
    case Invoke(_) => Invoked(answer)
    case Topic(_) => TopicHandled(answer)
    case BulkTopic(_) => BulkTopicHandled(answer)
    case Binding(_) => BindingHandled(answer)
    case Job(_) => JobHandled(answer)
    case ActorInvoke(_) => ActorInvoked(answer)
    case ActorTimer(_) => TimerHandled(answer)
    case ActorReminder(_) => ReminderHandled(answer)
    case ActorDeactivate(_) => Deactivated(answer)
    case ConfigurationUpdate(_) => ConfigurationUpdated
  }

  // --- state ---------------------------------------------------------------------

  const UINT64 := 0x1_0000_0000_0000_0000
  const CAPACITY := 1024

  /** A `pending` struct: the event and its one-slot reply channel. */
  datatype Cell = Cell(event: Event, done: Option<EventResult>)

  /** Where a `Deliver` call stands after it left the lock. */
  datatype Caller = Sending | Waiting | Returned(result: EventResult)

  datatype Fault = NilEvent | UnknownId | CaseMismatch | BlockedReply

  /** The pump inside `Next` has `Fetched` an id from the channel before it looks the entry up, and inside `Complete`
      it forgot the entry (`Forgot`, with whether there was one) before it replies; the lock is free in between. */
  datatype Pump =
    | Detached
    | Idle
    | Fetched(id: nat)
    | Took(id: nat, event: Event)
    | Answered(id: nat, result: EventResult)
    | Forgot(id: nat, known: bool, result: EventResult)
    | Faulted(fault: Fault)

  /** One call of the app by the pump. */
  datatype Handled = Handled(id: nat, event: Event, result: EventResult)

  /** `cells` are the pending structs by the id they were registered under and `inflight` the ids in the map.
      `registered`, `sent` and `log` are histories: registrations so far, ids in the order they entered the
      channel, and calls of the app. */
  datatype State = State(
    attached: bool,
    nextID: nat,
    inflight: set<nat>,
    queue: seq<nat>,
    cells: map<nat, Cell>,
    callers: map<nat, Caller>,
    pump: Pump,
    registered: nat,
    sent: seq<nat>,
    log: seq<Handled>)

  const INITIAL := State(false, 0, {}, [], map[], map[], Detached, 0, [], [])

  // --- steps ------------------------------------------------------------------------

  function Attached(s: State): State {
    s.(attached := true, pump := if s.pump.Detached? then Idle else s.pump)
  }

  function NewId(s: State): nat {
    (s.nextID + 1) % UINT64
  }

  /** The locked section of `Deliver`, when a pump is attached. */
  function Registered(s: State, e: Event): State {
    var id := NewId(s);
    s.(nextID := id,
       registered := s.registered + 1,
       inflight := s.inflight + {id},
       cells := s.cells[id := Cell(e, None)],
       callers := s.callers[id := Sending])
  }

  predicate CanSend(s: State, id: nat) {
    id in s.callers && s.callers[id].Sending? && |s.queue| < CAPACITY
  }

  function Sent(s: State, id: nat): State {
    s.(queue := s.queue + [id], callers := s.callers[id := Waiting], sent := s.sent + [id])
  }

  predicate CanTake(s: State) {
    s.pump.Idle? && s.queue != []
  }

  /** `Next` receives an id. */
  function Taken(s: State): State
    requires s.queue != []
  {
    s.(queue := s.queue[1..], pump := Fetched(s.queue[0]))
  }

  /** `Next` looks the entry up, under the lock, and reads its event; a missing entry is a nil dereference. */
  function LookedUp(s: State): State
    requires s.pump.Fetched?
  {
    var id := s.pump.id;
    s.(pump := if id in s.inflight && id in s.cells then Took(id, s.cells[id].event) else Faulted(NilEvent))
  }

  /** The pump calls the app, which answers `answer`. */
  function HandledBy(s: State, answer: Bytes): State
    requires s.pump.Took?
  {
    var r := Dispatch(s.pump.event, answer);
    s.(pump := Answered(s.pump.id, r), log := s.log + [Handled(s.pump.id, s.pump.event, r)])
  }

  /** `Complete` takes the entry out of the map, under the lock. */
  function Forgotten(s: State): State
    requires s.pump.Answered?
  {
    var id := s.pump.id;
    s.(inflight := s.inflight - {id},
       pump := Forgot(id, id in s.inflight && id in s.cells, s.pump.result))
  }

  /** `Complete` checks the entry and replies: an unknown id and a case mismatch panic, and a full reply slot would
      block the pump for ever. */
  function Replied(s: State): State
    requires s.pump.Forgot?
  {
    var id, r := s.pump.id, s.pump.result;
    if !s.pump.known || id !in s.cells then s.(pump := Faulted(UnknownId))
    else if EventTag(s.cells[id].event) != ResultTag(r) then s.(pump := Faulted(CaseMismatch))
    else if s.cells[id].done.Some? then s.(pump := Faulted(BlockedReply))
    else s.(cells := s.cells[id := s.cells[id].(done := Some(r))], pump := Idle)
  }

  predicate CanReceive(s: State, id: nat) {
    id in s.callers && s.callers[id].Waiting? && id in s.cells && s.cells[id].done.Some?
  }

  /** A waiting `Deliver` receives its reply and returns it. */
  function Received(s: State, id: nat): State
    requires CanReceive(s, id)
  {
    var cell := s.cells[id];
    s.(cells := s.cells[id := cell.(done := None)], callers := s.callers[id := Returned(cell.done.value)])
  }

  /** In any state, reachable or not: a lookup of a missing entry, a reply to a missing entry or with a result of another
      case than the event's, and a reply to a full slot are faults, and nothing else is. */
  lemma FaultsAreSeen(s: State)
    ensures s.pump.Fetched? ==>
      (LookedUp(s).pump.Faulted? <==> !(s.pump.id in s.inflight && s.pump.id in s.cells))
    ensures s.pump.Answered? ==>
      Forgotten(s).pump == Forgot(s.pump.id, s.pump.id in s.inflight && s.pump.id in s.cells, s.pump.result)
    ensures s.pump.Forgot? && (!s.pump.known || s.pump.id !in s.cells) ==> Replied(s).pump == Faulted(UnknownId)
    ensures s.pump.Forgot? && s.pump.known && s.pump.id in s.cells ==>
      var cell := s.cells[s.pump.id];
      && (EventTag(cell.event) != ResultTag(s.pump.result) ==> Replied(s).pump == Faulted(CaseMismatch))
      && (EventTag(cell.event) == ResultTag(s.pump.result) && cell.done.Some? ==>
            Replied(s).pump == Faulted(BlockedReply))
      && (EventTag(cell.event) == ResultTag(s.pump.result) && cell.done.None? ==> Replied(s).pump == Idle)
  {
  }

  datatype Action =
    | Attach
    | Register(e: Event)
    | Send(id: nat)
    | Take
    | LookUp
    | Handle(answer: Bytes)
    | Forget
    | Reply
    | Receive(id: nat)

  predicate Enabled(s: State, a: Action) {
    match a
    case Attach => s.pump.Detached?
    case Register(_) => s.attached
    case Send(id) => CanSend(s, id)
    case Take => CanTake(s)
    case LookUp => s.pump.Fetched?
    case Handle(_) => s.pump.Took?
    case Forget => s.pump.Answered?
    case Reply => s.pump.Forgot?
    case Receive(id) => CanReceive(s, id)
  }

  function Step(s: State, a: Action): State
    requires Enabled(s, a)
  {
    match a
    case Attach => Attached(s)
    case Register(e) => Registered(s, e)
    case Send(id) => Sent(s, id)
    case Take => Taken(s)
    case LookUp => LookedUp(s)
    case Handle(answer) => HandledBy(s, answer)
    case Forget => Forgotten(s)
    case Reply => Replied(s)
    case Receive(id) => Received(s, id)
  }

  /** `run` is a run: it starts in the initial state and each state follows from the one before by an enabled action. */
  ghost predicate IsRun(run: seq<State>, actions: seq<Action>) {
    && |run| == |actions| + 1
    && run[0] == INITIAL
    && forall i | 0 <= i < |actions| :: Enabled(run[i], actions[i]) && run[i + 1] == Step(run[i], actions[i])
  }

  // --- invariant --------------------------------------------------------------------

  predicate NoDuplicates(ids: seq<nat>) {
    forall i, j | 0 <= i < j < |ids| :: ids[i] != ids[j]
  }

  function LoggedIds(log: seq<Handled>): (ids: seq<nat>)
    ensures |ids| == |log|
    ensures forall i | 0 <= i < |log| :: ids[i] == log[i].id
  {
    if log == [] then [] else LoggedIds(log[..|log| - 1]) + [log[|log| - 1].id]
  }

  /** The id the pump took from the channel and whose entry it has not forgotten. */
  predicate Held(s: State, id: nat) {
    (s.pump.Fetched? || s.pump.Took? || s.pump.Answered?) && s.pump.id == id
  }

  /** The id whose entry the pump forgot and has not replied to. */
  predicate Replying(s: State, id: nat) {
    s.pump.Forgot? && s.pump.id == id
  }

  function TakenNotHandled(s: State): seq<nat> {
    if s.pump.Fetched? || s.pump.Took? then [s.pump.id] else []
  }

  ghost predicate CallerInv(s: State, id: nat)
    requires id in s.callers && id in s.cells
  {
    var cell := s.cells[id];
    match s.callers[id]
    case Sending =>
      id in s.inflight && id !in s.queue && !Held(s, id) && !Replying(s, id) && id !in s.sent && cell.done.None?
    case Waiting =>
      && id in s.sent
      && (id in s.inflight ==> cell.done.None? && !Replying(s, id) && (id in s.queue <==> !Held(s, id)))
      && (id !in s.inflight ==> id !in s.queue && !Held(s, id) && (Replying(s, id) <==> cell.done.None?))
      && (cell.done.Some? ==> Handled(id, cell.event, cell.done.value) in s.log)
    case Returned(r) =>
      && id in s.sent && id !in s.inflight && id !in s.queue && !Held(s, id) && !Replying(s, id) && cell.done.None?
      && Handled(id, cell.event, r) in s.log
  }

  ghost predicate Inv(s: State) {
    && s.nextID == s.registered < UINT64
    && (forall id: nat :: id in s.callers <==> 1 <= id <= s.registered)
    && s.cells.Keys == s.callers.Keys
    && s.inflight <= s.callers.Keys
    && (forall id | id in s.callers :: CallerInv(s, id))
    && (forall id | id in s.sent :: id in s.callers)
    && (forall id | id in s.queue :: id in s.inflight)
    && s.sent == LoggedIds(s.log) + TakenNotHandled(s) + s.queue
    && NoDuplicates(s.sent)
    && |s.queue| <= CAPACITY
    && (s.attached <==> !s.pump.Detached?)
    && (!s.attached ==> s.registered == 0)
    && match s.pump
       case Faulted(_) => false
       case Fetched(id) => id in s.inflight && id in s.cells
       case Took(id, e) => id in s.inflight && id in s.cells && e == s.cells[id].event
       case Answered(id, r) =>
         && id in s.inflight && id in s.cells && ResultTag(r) == EventTag(s.cells[id].event)
         && s.log != [] && s.log[|s.log| - 1] == Handled(id, s.cells[id].event, r)
       case Forgot(id, known, r) =>
         && known && id !in s.inflight && id in s.cells && ResultTag(r) == EventTag(s.cells[id].event)
         && s.log != [] && s.log[|s.log| - 1] == Handled(id, s.cells[id].event, r)
       case _ => true
  }

  lemma AttachKeepsInv(s: State)
    requires Inv(s) && Enabled(s, Attach)
    ensures Inv(Attached(s))
  {
    assert s.callers.Keys == {};
  }

  lemma RegisterKeepsCallers(s: State, e: Event)
    requires Inv(s) && Enabled(s, Register(e)) && s.registered + 1 < UINT64
    ensures var s' := Registered(s, e); forall k | k in s'.callers :: CallerInv(s', k)
  {
    var s' := Registered(s, e);
    var id := NewId(s);
    assert id == s.registered + 1 && id !in s.callers;
    forall k | k in s'.callers
      ensures CallerInv(s', k)
    {
      if k != id {
        assert CallerInv(s, k);
      } else {
        assert id !in s.sent && id !in s.queue && !Held(s, id);
      }
    }
  }

  lemma RegisterKeepsInv(s: State, e: Event)
    requires Inv(s) && Enabled(s, Register(e)) && s.registered + 1 < UINT64
    ensures Inv(Registered(s, e))
  {
    RegisterKeepsCallers(s, e);
    assert NewId(s) == s.registered + 1;
  }

  lemma SendKeepsCallers(s: State, id: nat)
    requires Inv(s) && CanSend(s, id)
    ensures var s' := Sent(s, id); forall k | k in s'.callers :: CallerInv(s', k)
  {
    var s' := Sent(s, id);
    assert CallerInv(s, id);
    forall k | k in s'.callers
      ensures CallerInv(s', k)
    {
      assert CallerInv(s, k);
    }
  }

  lemma SendKeepsInv(s: State, id: nat)
    requires Inv(s) && CanSend(s, id)
    ensures Inv(Sent(s, id))
  {
    var s' := Sent(s, id);
    assert CallerInv(s, id);
    SendKeepsCallers(s, id);
    assert s'.sent == LoggedIds(s.log) + TakenNotHandled(s) + s'.queue;
  }

  lemma TakeKeepsInv(s: State)
    requires Inv(s) && CanTake(s)
    ensures Inv(Taken(s))
  {
    var s' := Taken(s);
    var id := s.queue[0];
    assert id in s.queue;
    assert s.queue == [id] + s'.queue;
    assert s'.sent == LoggedIds(s.log) + [id] + s'.queue;
    QueueIsDuplicateFree(s);
    forall k | k in s'.callers
      ensures CallerInv(s', k)
    {
      assert CallerInv(s, k);
      assert k in s.queue <==> k == id || k in s'.queue;
    }
  }

  lemma LookUpKeepsInv(s: State)
    requires Inv(s) && s.pump.Fetched?
    ensures Inv(LookedUp(s))
    ensures s.pump.id in s.cells && LookedUp(s).pump == Took(s.pump.id, s.cells[s.pump.id].event)
  {
    var s' := LookedUp(s);
    forall k | k in s'.callers
      ensures CallerInv(s', k)
    {
      assert CallerInv(s, k);
    }
  }

  lemma QueueIsDuplicateFree(s: State)
    requires Inv(s)
    ensures NoDuplicates(s.queue)
    ensures forall i, j | 0 <= i < |s.log| && 0 <= j < |s.queue| :: s.log[i].id != s.queue[j]
    ensures forall i, j | 0 <= i < j < |s.log| :: s.log[i].id != s.log[j].id
    ensures s.pump.Fetched? || s.pump.Took? ==> forall i | 0 <= i < |s.log| :: s.log[i].id != s.pump.id
  {
    var k := |s.log| + |TakenNotHandled(s)|;
    forall i, j | 0 <= i < j < |s.queue|
      ensures s.queue[i] != s.queue[j]
    {
      assert s.sent[k + i] == s.queue[i] && s.sent[k + j] == s.queue[j];
    }
    forall i, j | 0 <= i < |s.log| && 0 <= j < |s.queue|
      ensures s.log[i].id != s.queue[j]
    {
      assert s.sent[i] == s.log[i].id && s.sent[k + j] == s.queue[j];
    }
    forall i, j | 0 <= i < j < |s.log|
      ensures s.log[i].id != s.log[j].id
    {
      assert s.sent[i] == s.log[i].id && s.sent[j] == s.log[j].id;
    }
    if s.pump.Fetched? || s.pump.Took? {
      forall i | 0 <= i < |s.log|
        ensures s.log[i].id != s.pump.id
      {
        assert s.sent[i] == s.log[i].id && s.sent[|s.log|] == s.pump.id;
      }
    }
  }

  lemma HandleKeepsInv(s: State, answer: Bytes)
    requires Inv(s) && s.pump.Took?
    ensures Inv(HandledBy(s, answer))
  {
    var s' := HandledBy(s, answer);
    assert s'.log[..|s'.log| - 1] == s.log;
    assert s'.sent == LoggedIds(s'.log) + [] + s'.queue;
    forall k | k in s'.callers
      ensures CallerInv(s', k)
    {
      assert CallerInv(s, k);
    }
  }

  lemma ForgetKeepsInv(s: State)
    requires Inv(s) && s.pump.Answered?
    ensures Inv(Forgotten(s))
  {
    var s' := Forgotten(s);
    var id := s.pump.id;
    assert CallerInv(s, id);
    assert id !in s.queue;
    forall k | k in s'.callers
      ensures CallerInv(s', k)
    {
      assert CallerInv(s, k);
    }
  }

  lemma ReplyKeepsInv(s: State)
    requires Inv(s) && s.pump.Forgot?
    ensures Inv(Replied(s)) && Replied(s).pump == Idle
  {
    var s' := Replied(s);
    var id := s.pump.id;
    assert CallerInv(s, id);
    forall k | k in s'.callers
      ensures CallerInv(s', k)
    {
      assert CallerInv(s, k);
    }
  }

  lemma ReceiveKeepsInv(s: State, id: nat)
    requires Inv(s) && CanReceive(s, id)
    ensures Inv(Received(s, id))
  {
    var s' := Received(s, id);
    assert CallerInv(s, id);
    forall k | k in s'.callers
      ensures CallerInv(s', k)
    {
      assert CallerInv(s, k);
    }
  }

  lemma StepKeepsInv(s: State, a: Action)
    requires Inv(s) && Enabled(s, a) && Step(s, a).registered < UINT64
    ensures Inv(Step(s, a))
  {
    match a
    case Attach => AttachKeepsInv(s);
    case Register(e) => RegisterKeepsInv(s, e);
    case Send(id) => SendKeepsInv(s, id);
    case Take => TakeKeepsInv(s);
    case LookUp => LookUpKeepsInv(s);
    case Handle(answer) => HandleKeepsInv(s, answer);
    case Forget => ForgetKeepsInv(s);
    case Reply => ReplyKeepsInv(s);
    case Receive(id) => ReceiveKeepsInv(s, id);
  }

  /** Registrations never decrease, so a run whose last id fits a uint64 never wrapped. */
  lemma {:induction false} RunKeepsInv(run: seq<State>, actions: seq<Action>, i: nat)
    requires IsRun(run, actions) && i < |run|
    requires run[|run| - 1].registered < UINT64
    ensures Inv(run[i])
  {
    if i > 0 {
      RunKeepsInv(run, actions, i - 1);
      RegisteredGrows(run, actions, i);
      assert run[i] == Step(run[i - 1], actions[i - 1]);
      StepKeepsInv(run[i - 1], actions[i - 1]);
    }
  }

  lemma {:induction false} RegisteredGrows(run: seq<State>, actions: seq<Action>, i: nat)
    requires IsRun(run, actions) && i < |run|
    ensures run[i].registered <= run[|run| - 1].registered
    decreases |run| - i
  {
    if i + 1 < |run| {
      RegisteredGrows(run, actions, i + 1);
      assert run[i + 1] == Step(run[i], actions[i]);
    }
  }

  /** Some run from the initial state with fewer than 2^64 registrations ends in `s`. */
  ghost predicate Reachable(s: State) {
    s.registered < UINT64 && exists run, actions :: IsRun(run, actions) && run[|actions|] == s
  }

  lemma InitiallyReachable()
    ensures Reachable(INITIAL)
  {
    assert IsRun([INITIAL], []);
  }

  lemma ReachableInv(s: State)
    requires Reachable(s)
    ensures Inv(s)
  {
    var run, actions :| IsRun(run, actions) && run[|actions|] == s;
    RunKeepsInv(run, actions, |actions|);
  }

  lemma ReachableStep(s: State, a: Action)
    requires Reachable(s) && Enabled(s, a) && Step(s, a).registered < UINT64
    ensures Reachable(Step(s, a))
  {
    var run, actions :| IsRun(run, actions) && run[|actions|] == s;
    assert IsRun(run + [Step(s, a)], actions + [a]);
  }

  /** The state after `Next`, when no other action comes between its steps. */
  function AfterNext(s: State): State
    requires CanTake(s)
  {
    LookedUp(Taken(s))
  }

  /** The state after `Complete`, likewise. */
  function Completed(s: State): State
    requires s.pump.Answered?
  {
    Replied(Forgotten(s))
  }

  /** The state after one round of the pump: take, call the app, complete. */
  function Round(s: State, answer: Bytes): State {
    if !CanTake(s) || !AfterNext(s).pump.Took? then s else Completed(HandledBy(AfterNext(s), answer))
  }

  /** A round calls the app once, with the event at the head of the channel, and leaves the wrapped answer in that
      event's reply slot for its waiting `Deliver`. */
  lemma RoundAnswersTheHead(s: State, answer: Bytes)
    requires Reachable(s) && CanTake(s)
    ensures var id := s.queue[0]; var s' := Round(s, answer);
      && id in s.cells
      && var r := Dispatch(s.cells[id].event, answer);
      && AfterNext(s).pump.Took? && s' == Completed(HandledBy(AfterNext(s), answer))
      && s'.log == s.log + [Handled(id, s.cells[id].event, r)]
      && s'.queue == s.queue[1..] && s'.pump == Idle && s'.registered == s.registered && s'.attached == s.attached
      && CanReceive(s', id) && s'.cells[id] == Cell(s.cells[id].event, Some(r))
  {
    ReachableInv(s);
    TakeKeepsInv(s);
    LookUpKeepsInv(Taken(s));
    HandleKeepsInv(AfterNext(s), answer);
    var answered := HandledBy(AfterNext(s), answer);
    ForgetKeepsInv(answered);
    ReplyKeepsInv(Forgotten(answered));
    assert CallerInv(Forgotten(answered), s.queue[0]);
  }

  /** Whatever happens between the steps of `Next` and `Complete`: the lookup finds the entry, the delete finds it too,
      and the reply finds the result's case and an empty reply slot. */
  lemma PumpStepsAreSafe(s: State)
    requires Reachable(s) && (s.pump.Fetched? || s.pump.Answered? || s.pump.Forgot?)
    ensures var id := s.pump.id; id in s.cells
    ensures s.pump.Fetched? ==> s.pump.id in s.inflight
    ensures s.pump.Answered? ==> s.pump.id in s.inflight && Forgotten(s).pump == Forgot(s.pump.id, true, s.pump.result)
    ensures s.pump.Forgot? ==> var id := s.pump.id;
      && s.pump.known && EventTag(s.cells[id].event) == ResultTag(s.pump.result) && s.cells[id].done.None?
      && Replied(s) == s.(cells := s.cells[id := Cell(s.cells[id].event, Some(s.pump.result))], pump := Idle)
  {
    ReachableInv(s);
    assert CallerInv(s, s.pump.id);
  }

  /** Without wrap-around a registration takes an id no earlier call has. */
  lemma NewIdIsFresh(s: State)
    requires Reachable(s) && s.registered + 1 < UINT64
    ensures NewId(s) == s.nextID + 1
    ensures NewId(s) !in s.callers && NewId(s) !in s.cells && NewId(s) !in s.inflight
  {
    ReachableInv(s);
  }

  // --- safety ---------------------------------------------------------------------------

  function SendingIds(s: State): set<nat> {
    set id | id in s.callers && s.callers[id].Sending?
  }

  function QueuedIds(s: State): set<nat> {
    set id | id in s.queue
  }

  function HeldIds(s: State): set<nat> {
    if s.pump.Fetched? || s.pump.Took? || s.pump.Answered? then {s.pump.id} else {}
  }

  /** In every reachable state the keys of the map are the disjoint union of the ids registered but not sent, the
      ids in the channel and the id the pump holds; no id is in the channel twice. */
  lemma InflightIsPartitioned(s: State)
    requires Reachable(s)
    ensures
      && s.inflight == SendingIds(s) + QueuedIds(s) + HeldIds(s)
      && SendingIds(s) !! QueuedIds(s) !! HeldIds(s)
      && NoDuplicates(s.queue)
  {
    ReachableInv(s);
    QueueIsDuplicateFree(s);
    forall id
      ensures id in s.inflight <==> id in SendingIds(s) + QueuedIds(s) + HeldIds(s)
      ensures !(id in SendingIds(s) && id in QueuedIds(s))
      ensures !(id in SendingIds(s) + QueuedIds(s) && id in HeldIds(s))
    {
      if id in s.callers {
        assert CallerInv(s, id);
      }
    }
  }

  /** The channel never holds more than 1024 ids, and a call that left the lock can send exactly while it holds fewer. */
  lemma ChannelIsBounded(s: State, id: nat)
    requires Reachable(s) && id in s.callers && s.callers[id].Sending?
    ensures |s.queue| <= 1024 && (Enabled(s, Send(id)) <==> |s.queue| < 1024)
  {
    ReachableInv(s);
  }

  /** The pump never meets a missing entry, an unknown id, a mismatched case or a full reply slot. */
  lemma PumpNeverFaults(s: State)
    requires Reachable(s)
    ensures !s.pump.Faulted?
  {
    ReachableInv(s);
  }

  predicate IsPrefix<T(==)>(a: seq<T>, b: seq<T>) {
    |a| <= |b| && a == b[..|a|]
  }

  /** Each event reaches the app at most once, in the order in which the ids entered the channel, and nothing else
      reaches it. */
  lemma EventsReachAppOnceInOrder(s: State)
    requires Reachable(s)
    ensures
      && IsPrefix(LoggedIds(s.log), s.sent) && NoDuplicates(s.sent)
      && |s.sent| == |s.log| + |TakenNotHandled(s)| + |s.queue|
  {
    ReachableInv(s);
  }

  /** Entry `k` of the log is the only one for `id`. */
  predicate HandledOnceAt(log: seq<Handled>, id: nat, k: int) {
    0 <= k < |log| && log[k].id == id && forall j | 0 <= j < |log| && j != k :: log[j].id != id
  }

  lemma FirstIsQueued(queue: seq<nat>)
    ensures queue == [] || queue[0] in queue
  {
  }

  /** Once every `Deliver` has returned, the app has been called exactly once for every registration. */
  lemma AllReturnedMeansAllHandled(s: State)
    requires Reachable(s) && forall id | id in s.callers :: s.callers[id].Returned?
    ensures |s.log| == |s.sent| && LoggedIds(s.log) == s.sent && s.inflight == {}
    ensures forall id: nat :: id in s.callers <==> 1 <= id <= s.registered
    ensures forall id | id in s.callers :: exists k :: HandledOnceAt(s.log, id, k)
  {
    ReachableInv(s);
    QueueIsDuplicateFree(s);
    assert forall k | k in s.callers :: CallerInv(s, k);
    forall id | id in s.callers
      ensures id !in s.queue && id !in s.inflight && !Held(s, id) && id in s.sent
    {
      assert CallerInv(s, id);
    }
    FirstIsQueued(s.queue);
    assert s.sent == LoggedIds(s.log);
    forall id | id in s.callers
      ensures exists k :: HandledOnceAt(s.log, id, k)
    {
      assert id in s.sent;
      var k :| 0 <= k < |s.sent| && s.sent[k] == id;
      assert HandledOnceAt(s.log, id, k);
    }
  }

  /** A returned `Deliver` carries the result the app computed for its own event, and that call of the app is the
      only one made for its id. */
  lemma EachCallerGetsItsOwnResult(s: State, id: nat)
    requires Reachable(s) && id in s.callers && s.callers[id].Returned?
    ensures
      && id in s.cells
      && (exists answer :: s.callers[id].result == Dispatch(s.cells[id].event, answer))
      && exists k :: HandledOnceAt(s.log, id, k) && s.log[k] == Handled(id, s.cells[id].event, s.callers[id].result)
  {
    ReachableInv(s);
    var run, actions :| IsRun(run, actions) && run[|actions|] == s;
    LogIsDispatched(run, actions, |actions|);
    assert CallerInv(s, id);
    var k :| 0 <= k < |s.log| && s.log[k] == Handled(id, s.cells[id].event, s.callers[id].result);
    QueueIsDuplicateFree(s);
    assert HandledOnceAt(s.log, id, k);
  }

  /** Every entry of the log is an event with the wrapped answer of the callback of its case. */
  lemma {:induction false} LogIsDispatched(run: seq<State>, actions: seq<Action>, i: nat)
    requires IsRun(run, actions) && i < |run|
    ensures forall h | h in run[i].log :: exists answer :: h.result == Dispatch(h.event, answer)
  {
    if i > 0 {
      LogIsDispatched(run, actions, i - 1);
      assert run[i] == Step(run[i - 1], actions[i - 1]);
      if actions[i - 1].Handle? {
        var h := run[i].log[|run[i].log| - 1];
        assert h.result == Dispatch(h.event, actions[i - 1].answer);
      }
    }
  }

  lemma EventsNeverChange(s: State, a: Action, id: nat)
    requires Enabled(s, a) && id in s.cells && (a.Register? ==> NewId(s) != id)
    ensures id in Step(s, a).cells && Step(s, a).cells[id].event == s.cells[id].event
  {
  }

  lemma EventStays(run: seq<State>, actions: seq<Action>, i: nat, id: nat)
    requires IsRun(run, actions) && i < |actions| && run[|run| - 1].registered < UINT64
    requires id in run[i].cells
    ensures id in run[i + 1].cells && run[i + 1].cells[id].event == run[i].cells[id].event
  {
    RunKeepsInv(run, actions, i);
    RegisteredGrows(run, actions, i + 1);
    EventsNeverChange(run[i], actions[i], id);
  }

  /** The event a call registered with is the one in its cell for the rest of the run. */
  lemma {:induction false} CellKeepsItsEvent(run: seq<State>, actions: seq<Action>, from: nat, i: nat)
    requires IsRun(run, actions) && from < |actions| && from < i < |run|
    requires run[|run| - 1].registered < UINT64
    requires actions[from].Register?
    ensures var id := NewId(run[from]); id in run[i].cells && run[i].cells[id].event == actions[from].e
  {
    var id := NewId(run[from]);
    if i == from + 1 {
      assert run[i] == Registered(run[from], actions[from].e);
    } else {
      CellKeepsItsEvent(run, actions, from, i - 1);
      EventStays(run, actions, i - 1, id);
    }
  }

  // --- progress --------------------------------------------------------------------------

  function WaitingIds(s: State): set<nat> {
    set id | id in s.callers && s.callers[id].Waiting?
  }

  predicate Pending(s: State, id: nat) {
    id in s.callers && !s.callers[id].Returned?
  }

  /** While any call is pending, some action other than a new registration is enabled, also when the channel is full. */
  lemma PendingCallsCanMove(s: State, id: nat)
    requires Reachable(s) && Pending(s, id)
    ensures exists a: Action :: Enabled(s, a) && !a.Register?
  {
    ReachableInv(s);
    assert CallerInv(s, id);
    if s.pump.Took? {
      assert Enabled(s, Handle([]));
    } else if s.pump.Fetched? {
      assert Enabled(s, LookUp);
    } else if s.pump.Answered? {
      assert Enabled(s, Forget);
    } else if s.pump.Forgot? {
      assert Enabled(s, Reply);
    } else if s.queue != [] {
      assert Enabled(s, Take);
    } else if s.callers[id].Sending? {
      assert Enabled(s, Send(id));
    } else {
      assert Enabled(s, Receive(id));
    }
  }

  function PumpWeight(p: Pump): nat {
    match p
    case Detached => 1
    case Fetched(_) => 4
    case Took(_, _) => 3
    case Answered(_, _) => 2
    case Forgot(_, _, _) => 1
    case _ => 0
  }

  function Weight(s: State): nat {
    7 * |SendingIds(s)| + 5 * |s.queue| + |WaitingIds(s)| + PumpWeight(s.pump)
  }

  /** Every action other than a new registration makes the weight smaller. */
  lemma StepsLoseWeight(s: State, a: Action)
    requires Inv(s) && Enabled(s, a) && !a.Register?
    ensures Weight(Step(s, a)) < Weight(s)
  {
    match a
    case Send(id) => SendLosesWeight(s, id);
    case Receive(id) => ReceiveLosesWeight(s, id);
    case _ => PumpLosesWeight(s, a);
  }

  lemma SendLosesWeight(s: State, id: nat)
    requires CanSend(s, id)
    ensures Weight(Sent(s, id)) == Weight(s) - 1
  {
    var s' := Sent(s, id);
    assert SendingIds(s) == SendingIds(s') + {id} && id !in SendingIds(s');
    assert WaitingIds(s') == WaitingIds(s) + {id} && id !in WaitingIds(s);
  }

  lemma ReceiveLosesWeight(s: State, id: nat)
    requires CanReceive(s, id)
    ensures Weight(Received(s, id)) == Weight(s) - 1
  {
    var s' := Received(s, id);
    assert SendingIds(s') == SendingIds(s);
    assert WaitingIds(s) == WaitingIds(s') + {id} && id !in WaitingIds(s');
  }

  lemma PumpLosesWeight(s: State, a: Action)
    requires Inv(s) && Enabled(s, a) && !a.Register? && !a.Send? && !a.Receive?
    ensures Weight(Step(s, a)) < Weight(s)
  {
    var s' := Step(s, a);
    assert SendingIds(s') == SendingIds(s) && WaitingIds(s') == WaitingIds(s);
    if a.LookUp? {
      LookUpKeepsInv(s);
    } else if a.Reply? {
      ReplyKeepsInv(s);
    }
  }

  /** A run of actions from `s` without new registrations. */
  ghost predicate IsDrain(s: State, states: seq<State>, actions: seq<Action>) {
    && |states| == |actions| + 1 && states[0] == s
    && forall i | 0 <= i < |actions| ::
         Enabled(states[i], actions[i]) && !actions[i].Register? && states[i + 1] == Step(states[i], actions[i])
  }

  /** Without new registrations at most `Weight(s)` actions can follow, and once none is enabled every call has
      returned. */
  lemma {:induction false} DrainTerminates(s: State, states: seq<State>, actions: seq<Action>)
    requires Reachable(s) && IsDrain(s, states, actions)
    ensures |actions| <= Weight(s)
    ensures var last := states[|actions|];
      (forall a: Action :: Enabled(last, a) ==> a.Register?) ==>
        (forall id | id in last.callers :: last.callers[id].Returned?)
    decreases |actions|
  {
    if actions == [] {
      if forall a: Action :: Enabled(s, a) ==> a.Register? {
        forall id | id in s.callers
          ensures s.callers[id].Returned?
        {
          if Pending(s, id) {
            PendingCallsCanMove(s, id);
          }
        }
      }
    } else {
      assert states[1] == Step(s, actions[0]);
      ReachableInv(s);
      ReachableStep(s, actions[0]);
      StepsLoseWeight(s, actions[0]);
      assert states[1..][|actions[1..]|] == states[|actions|];
      DrainTerminates(states[1], states[1..], actions[1..]);
    }
  }
}
