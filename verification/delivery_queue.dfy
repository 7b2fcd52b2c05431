// The package variables of the delivery queue and the atomic sections that update them. `model` is the protocol
// state they implement: every method is one step of the protocol.
module DeliveryQueue {
  import opened Common
  import opened DeliveryProtocol

  /** One registered event with its one-slot reply channel; `Deliver` and the map share the same object. */
  class Pending {
    const event: Event
    var done: Option<EventResult>

    constructor (event: Event)
      ensures this.event == event && done == None
    {
      this.event := event;
      done := None;
    }
  }

  class Deliveries {
    var attached: bool
    var nextID: nat
    var inflight: map<nat, Pending>
    var queue: seq<nat>

    ghost var cells: map<nat, Pending>
    ghost var model: State

    ghost predicate Valid()
      reads this, cells.Values
    {
      && Reachable(model)
      && attached == model.attached && nextID == model.nextID
      && inflight.Keys == model.inflight && queue == model.queue
      && cells.Keys == model.cells.Keys
      && (forall id | id in inflight :: id in cells && inflight[id] == cells[id])
      && (forall id | id in cells :: Cell(cells[id].event, cells[id].done) == model.cells[id])
      && (forall i, j | i in cells && j in cells && i != j :: cells[i] != cells[j])
    }

    constructor ()
      ensures Valid() && model == INITIAL && fresh(cells.Values)
    {
      InitiallyReachable();
      attached, nextID, inflight, queue := false, 0, map[], [];
      cells, model := map[], INITIAL;
    }

    method Attach()
      requires Valid() && model.pump.Detached?
      modifies this
      ensures Valid() && model == Attached(old(model)) && cells == old(cells)
    {
      ReachableInv(model);
      ReachableStep(model, Action.Attach);
      attached := true;
      model := Attached(model);
    }

    /** The locked section of `Deliver`: refuse without a pump, otherwise register a new pending struct. */
    method Register(e: Event) returns (id: nat, p: Pending?)
      requires Valid() && model.registered + 1 < UINT64
      modifies this
      ensures Valid()
      ensures !old(attached) ==> p == null && model == old(model) && cells == old(cells)
      ensures old(attached) ==> p != null && fresh(p) && model == Registered(old(model), e)
      ensures old(attached) ==> id == NewId(old(model)) && cells == old(cells)[id := p]
    {
      if !attached {
        return 0, null;
      }
      id, p := AddPending(e);
    }

    method AddPending(e: Event) returns (id: nat, p: Pending)
      requires Valid() && attached && model.registered + 1 < UINT64
      modifies this
      ensures Valid() && fresh(p) && model == Registered(old(model), e)
      ensures id == NewId(old(model)) && cells == old(cells)[id := p]
    {
      NewIdIsFresh(model);
      ReachableStep(model, Action.Register(e));
      nextID := (nextID + 1) % UINT64;
      id := nextID;
      p := new Pending(e);
      inflight := inflight[id := p];
      cells := cells[id := p];
      ghost var before := model;
      model := Registered(model, e);
      assert model.inflight == before.inflight + {id} && model.cells == before.cells[id := Cell(e, None)];
    }

    /** `queue <- id`, once the channel has room. */
    method Send(id: nat)
      requires Valid() && CanSend(model, id)
      modifies this
      ensures Valid() && model == Sent(old(model), id) && cells == old(cells)
    {
      ReachableStep(model, Action.Send(id));
      queue := queue + [id];
      model := Sent(model, id);
    }

    /** The receiving case of `Next`: the looked-up entry is there, so its event can be read. */
    method Next() returns (id: nat, event: Event)
      requires Valid() && CanTake(model)
      modifies this
      ensures Valid() && model == AfterNext(old(model)) && cells == old(cells)
      ensures model.pump == Took(id, event)
    {
      id := TakeId();
      event := LookUp(id);
    }

    /** `<-queue`. */
    method TakeId() returns (id: nat)
      requires Valid() && CanTake(model)
      modifies this
      ensures Valid() && model == Taken(old(model)) && cells == old(cells) && model.pump == Fetched(id)
    {
      ReachableStep(model, Take);
      id := queue[0];
      queue := queue[1..];
      model := Taken(model);
    }

    /** The lookup in the map, under the lock, and the read of the event. */
    method LookUp(id: nat) returns (event: Event)
      requires Valid() && model.pump == Fetched(id)
      modifies this
      ensures Valid() && model == LookedUp(old(model)) && cells == old(cells) && model.pump == Took(id, event)
    {
      PumpStepsAreSafe(model);
      ReachableStep(model, Action.LookUp);
      var p := inflight[id];
      event := p.event;
      model := LookedUp(model);
    }

    /** The pump's call of the app, between `Next` and `Complete`. */
    method Dispatch(event: Event, answer: Bytes) returns (r: EventResult)
      requires Valid() && model.pump.Took? && model.pump.event == event
      modifies this
      ensures Valid() && model == HandledBy(old(model), answer) && cells == old(cells)
      ensures model.pump == Answered(old(model).pump.id, r)
    {
      ReachableStep(model, Handle(answer));
      r := DeliveryProtocol.Dispatch(event, answer);
      model := HandledBy(model, answer);
    }

    /** `Complete`: the panics are returned as faults, and none is. */
    method Complete(id: nat, r: EventResult) returns (fault: Option<Fault>)
      requires Valid() && model.pump == Answered(id, r)
      modifies this, cells.Values
      ensures fault == None
      ensures Valid() && model == Completed(old(model)) && cells == old(cells)
    {
      var p := Forget(id);
      fault := Reply(p, r);
    }

    /** The locked section of `Complete`. */
    method Forget(id: nat) returns (p: Pending?)
      requires Valid() && model.pump.Answered? && model.pump.id == id
      modifies this
      ensures Valid() && model == Forgotten(old(model)) && cells == old(cells)
      ensures id in cells && p == cells[id] && model.pump == Forgot(id, true, old(model).pump.result)
    {
      PumpStepsAreSafe(model);
      ReachableStep(model, Action.Forget);
      p := if id in inflight then inflight[id] else null;
      inflight := inflight - {id};
      model := Forgotten(model);
    }

    /** The checks of `Complete` and its reply. */
    method Reply(p: Pending?, r: EventResult) returns (fault: Option<Fault>)
      requires Valid() && model.pump.Forgot? && model.pump.result == r
      requires model.pump.id in cells && p == cells[model.pump.id]
      modifies this, cells.Values
      ensures fault == None
      ensures Valid() && model == Replied(old(model)) && cells == old(cells)
    {
      PumpStepsAreSafe(model);
      ReachableStep(model, Action.Reply);
      if p == null {
        return Some(UnknownId);
      }
      if EventTag(p.event) != ResultTag(r) {
        return Some(CaseMismatch);
      }
      if p.done.Some? {
        return Some(BlockedReply);
      }
      p.done := Some(r);
      model := Replied(model);
      return None;
    }

    /** `<-p.done`: the reply of a waiting `Deliver`. */
    method Receive(id: nat, p: Pending) returns (r: EventResult)
      requires Valid() && CanReceive(model, id) && p == cells[id]
      modifies this, p
      ensures Valid() && model == Received(old(model), id) && cells == old(cells)
      ensures model.callers[id] == Returned(r) && old(model).cells[id].done == Some(r)
      ensures queue == old(queue) && attached == old(attached)
      ensures model.pump == old(model).pump && model.registered == old(model).registered
    {
      ReachableStep(model, Action.Receive(id));
      r := p.done.value;
      p.done := None;
      model := Received(model, id);
    }

    /** One round of the pump's endless loop: the app answers the event at the head of the channel with `app` of it. */
    method PumpRound(app: Event -> Bytes) returns (id: nat, r: EventResult)
      requires Valid() && CanTake(model)
      modifies this, cells.Values
      ensures Valid() && cells == old(cells) && id == old(model).queue[0] && id in old(model).cells
      ensures model == Round(old(model), app(old(model).cells[id].event))
      ensures CanReceive(model, id) && model.cells[id].done == Some(r) && model.pump == Idle
      ensures ResultTag(r) == EventTag(old(model).cells[id].event)
      ensures !r.ConfigurationUpdated? ==> r.answer == app(old(model).cells[id].event)
      ensures queue == old(queue)[1..] && attached == old(attached) && model.registered == old(model).registered
    {
      RoundAnswersTheHead(model, app(HeadEvent(model)));
      var event: Event;
      id, event := Next();
      r := Dispatch(event, app(event));
      var fault := Complete(id, r);
    }
  }

  ghost function HeadEvent(s: State): Event {
    if s.queue != [] && s.queue[0] in s.cells then s.cells[s.queue[0]].event else HealthCheck
  }

  /** An attached queue with nothing under way. */
  ghost predicate AtRest(d: Deliveries)
    reads d, d.cells.Values
  {
    d.Valid() && d.attached && d.model.pump == Idle && d.queue == []
  }

  /** A whole `Deliver` with one round of the pump: its event reaches the app, and it returns the app's answer in the
      event's own case. */
  method DeliverOne(d: Deliveries, e: Event, app: Event -> Bytes)
    returns (result: EventResult, ghost id: nat, ghost p: Pending)
    requires AtRest(d) && d.model.registered + 1 < UINT64
    modifies d, d.cells.Values
    ensures AtRest(d) && d.model.registered == old(d.model.registered) + 1
    ensures fresh(p) && d.cells == old(d.cells)[id := p]
    ensures ResultTag(result) == EventTag(e) && (!result.ConfigurationUpdated? ==> result.answer == app(e))
  {
    var theId, pending := Enqueue(d, e);
    id, p := theId, pending;
    result := Serve(d, theId, pending, app);
  }

  /** The pump's round for the only event under way, and the `Deliver` that waits for it. */
  method Serve(d: Deliveries, id: nat, p: Pending, app: Event -> Bytes) returns (result: EventResult)
    requires d.Valid() && d.attached && d.model.pump == Idle && d.queue == [id]
    requires id in d.cells && p == d.cells[id]
    modifies d, d.cells.Values
    ensures AtRest(d) && d.model.registered == old(d.model.registered) && d.cells == old(d.cells)
    ensures ResultTag(result) == EventTag(p.event)
    ensures !result.ConfigurationUpdated? ==> result.answer == app(p.event)
  {
    var taken, r := d.PumpRound(app);
    result := d.Receive(taken, p);
  }

  /** `Deliver` up to its wait. */
  method Enqueue(d: Deliveries, e: Event) returns (id: nat, p: Pending)
    requires AtRest(d) && d.model.registered + 1 < UINT64
    modifies d
    ensures d.Valid() && d.attached && d.model.pump == Idle && d.queue == [id]
    ensures fresh(p) && d.cells == old(d.cells)[id := p] && d.model.cells[id].event == e
    ensures d.model.registered == old(d.model.registered) + 1
  {
    id, p := d.Register(e);
    d.Send(id);
  }

  /** From the start: attach the pump and deliver one event after the other. */
  method DeliverAll(events: seq<Event>, app: Event -> Bytes) returns (results: seq<EventResult>)
    requires |events| < UINT64
    ensures |results| == |events|
    ensures forall i | 0 <= i < |events| ::
      && ResultTag(results[i]) == EventTag(events[i])
      && (!results[i].ConfigurationUpdated? ==> results[i].answer == app(events[i]))
  {
    var d := new Deliveries();
    d.Attach();
    results := [];
    for i := 0 to |events|
      invariant AtRest(d) && fresh(d) && fresh(d.cells.Values) && d.model.registered == i == |results|
      invariant forall k | 0 <= k < i ::
        && ResultTag(results[k]) == EventTag(events[k])
        && (!results[k].ConfigurationUpdated? ==> results[k].answer == app(events[k]))
    {
      ghost var before, id, p: Pending? := d.cells, 0, null;
      var result: EventResult;
      result, id, p := DeliverOne(d, events[i], app);
      assert d.cells.Values <= before.Values + {p};
      results := results + [result];
    }
  }
}
