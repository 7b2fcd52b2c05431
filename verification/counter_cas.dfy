// The compare-and-swap counter of the microservice: `increment` reads value and etag, writes back with first-write
// concurrency and retries on conflict, in any number of processes at once.
module CounterCas {
  import opened Common
  import opened Decimal

  const UINT64 := 0x1_0000_0000_0000_0000
  const ATTEMPTS := 16

  /** `parse::<u64>().unwrap_or(0)`: an optional plus sign and digits that fit, or 0. */
  function ParseCounter(text: string): (n: nat)
    ensures n < UINT64
  {
    var digits := if text != "" && text[0] == '+' then text[1..] else text;
    if digits != "" && AllDigits(digits) && ValueOf(digits) < UINT64 then ValueOf(digits) else 0
  }

  /** Digits below 2^64, with or without a plus sign, are read as their value. */
  lemma CounterTextReads(digits: string)
    requires digits != "" && AllDigits(digits) && ValueOf(digits) < 0x1_0000_0000_0000_0000
    ensures ParseCounter(digits) == ValueOf(digits) && ParseCounter("+" + digits) == ValueOf(digits)
  {
    assert digits[0] != '+';
    assert ("+" + digits)[1..] == digits;
  }

  /** Every other text counts as zero. */
  lemma OtherTextIsZero(text: string)
    requires ParseCounter(text) != 0
    ensures exists digits ::
      (text == digits || text == "+" + digits) && digits != "" && AllDigits(digits) && ValueOf(digits) == ParseCounter(text)
  {
    var digits := if text != "" && text[0] == '+' then text[1..] else text;
    assert text == digits || text == "+" + digits;
  }

  /** The text of the next count; in a release build the addition wraps. */
  function NextText(count: nat): string {
    NatText((count + 1) % UINT64)
  }

  lemma NextTextParses(count: nat)
    ensures ParseCounter(NextText(count)) == (count + 1) % UINT64
  {
    NatTextReads((count + 1) % UINT64);
    assert IsDigit(NextText(count)[0]);
  }

  // --- the store ------------------------------------------------------------------

  /** The counter's entry. The store never gives two versions of it the same etag. */
  datatype Item = Item(text: string, etag: nat)

  function Count(item: Option<Item>): nat {
    match item
    case None => 0
    case Some(i) => ParseCounter(i.text)
  }

  /** When a first-write is accepted: the etag is the current one, or there is none and the key is absent. */
  predicate FirstWriteMatches(item: Option<Item>, etag: Option<nat>) {
    match etag
    case None => item.None?
    case Some(e) => item.Some? && item.value.etag == e
  }

  // --- any number of processes ------------------------------------------------------

  datatype Error = ReadFailed | WriteFailed | TooManyConflicts

  /** A call of `increment`: about to read, about to write what it read, or returned. `since` is how many saves there
      had been when the call started, `seen` how many when it read; `blind` records a read that came without an etag, and
      `applied` a write that the store applied although it reported a failure other than a conflict. */
  datatype Process =
    | Reading(attempt: nat, since: nat, blind: bool)
    | Saving(attempt: nat, since: nat, blind: bool, count: nat, etag: Option<nat>, seen: nat)
    | Succeeded
    | Failed(error: Error, since: nat, blind: bool, applied: bool)

  /** `saves` is the history of successful saves, by process. */
  datatype State = State(item: Option<Item>, version: nat, processes: map<nat, Process>, saves: seq<nat>)

  function Initial(item: Option<Item>): State {
    State(item, if item.Some? then item.value.etag else 0, map[], [])
  }

  datatype Action =
    | Start(p: nat)
    | GetFound(p: nat, withEtag: bool)
    | GetMissing(p: nat)
    | GetFails(p: nat)
    | Save(p: nat)
    | SaveFails(p: nat, applied: bool)

  predicate Enabled(s: State, a: Action) {
    match a
    case Start(p) => p !in s.processes
    case GetFound(p, _) => p in s.processes && s.processes[p].Reading? && s.item.Some?
    case GetMissing(p) => p in s.processes && s.processes[p].Reading? && s.item.None?
    case GetFails(p) => p in s.processes && s.processes[p].Reading?
    case Save(p) => p in s.processes && s.processes[p].Saving?
    case SaveFails(p, applied) =>
      p in s.processes && s.processes[p].Saving? && (applied ==> FirstWriteMatches(s.item, s.processes[p].etag))
  }

  /** The store takes the save of process `p`, which goes on as `after`. */
  function Written(s: State, p: nat, after: Process): State
    requires p in s.processes && s.processes[p].Saving?
  {
    State(Some(Item(NextText(s.processes[p].count), s.version + 1)), s.version + 1,
          s.processes[p := after], s.saves + [p])
  }

  function Step(s: State, a: Action): State
    requires Enabled(s, a)
  {
    match a
    case Start(p) => s.(processes := s.processes[p := Reading(0, |s.saves|, false)])
    case GetFound(p, withEtag) =>
      var r := s.processes[p];
      var etag := if withEtag then Some(s.item.value.etag) else None;
      var read := Saving(r.attempt, r.since, r.blind || !withEtag, Count(s.item), etag, |s.saves|);
      s.(processes := s.processes[p := read])
    case GetMissing(p) =>
      var r := s.processes[p];
      s.(processes := s.processes[p := Saving(r.attempt, r.since, r.blind, 0, None, |s.saves|)])
    case GetFails(p) =>
      var r := s.processes[p];
      s.(processes := s.processes[p := Failed(ReadFailed, r.since, r.blind, false)])
    case Save(p) =>
      var w := s.processes[p];
      if FirstWriteMatches(s.item, w.etag) then Written(s, p, Succeeded)
      else if w.attempt + 1 < ATTEMPTS then
        s.(processes := s.processes[p := Reading(w.attempt + 1, w.since, w.blind)])
      else
        s.(processes := s.processes[p := Failed(TooManyConflicts, w.since, w.blind, false)])
    case SaveFails(p, applied) =>
      var w := s.processes[p];
      var after := Failed(WriteFailed, w.since, w.blind, applied);
      if applied then Written(s, p, after) else s.(processes := s.processes[p := after])
  }

  ghost predicate IsRun(item: Option<Item>, run: seq<State>, actions: seq<Action>) {
    && |run| == |actions| + 1
    && run[0] == Initial(item)
    && forall i | 0 <= i < |actions| :: Enabled(run[i], actions[i]) && run[i + 1] == Step(run[i], actions[i])
  }

  /** Some run against a store that starts with `item` ends in `s`. */
  ghost predicate Reachable(item: Option<Item>, s: State) {
    exists run, actions :: IsRun(item, run, actions) && run[|actions|] == s
  }

  predicate ProcessInv(s: State, p: Process) {
    match p
    case Reading(attempt, since, blind) =>
      attempt < ATTEMPTS && (!blind ==> since + attempt <= |s.saves|)
    case Saving(attempt, since, blind, count, etag, seen) =>
      && attempt < ATTEMPTS && seen <= |s.saves| && (!blind ==> since + attempt <= seen)
      && (etag.Some? ==> etag.value <= s.version)
      && (FirstWriteMatches(s.item, etag) ==> count == Count(s.item))
      && (!blind && seen == |s.saves| ==> FirstWriteMatches(s.item, etag))
    case Failed(error, since, blind, applied) =>
      (applied ==> error == WriteFailed) && (error == TooManyConflicts && !blind ==> since + ATTEMPTS <= |s.saves|)
    case Succeeded => true
  }

  /** Whether the store took the save of a call. */
  predicate Saved(p: Process) {
    p.Succeeded? || (p.Failed? && p.applied)
  }

  predicate Inv(initial: Option<Item>, s: State) {
    && Count(s.item) == (Count(initial) + |s.saves|) % UINT64
    && (s.item.Some? ==> s.item.value.etag <= s.version)
    && (forall p | p in s.processes :: ProcessInv(s, s.processes[p]))
    && (forall p | p in s.processes :: Saved(s.processes[p]) <==> p in s.saves)
    && (forall p | p in s.saves :: p in s.processes)
    && (forall i, j | 0 <= i < j < |s.saves| :: s.saves[i] != s.saves[j])
  }

  /** Counting modulo 2^64. */
  lemma WrapAdds(a: nat, b: nat)
    ensures (a % UINT64 + b) % UINT64 == (a + b) % UINT64
  {
    assert a == UINT64 * (a / UINT64) + a % UINT64;
    WrapAddsMultiples(a % UINT64 + b, a / UINT64);
  }

  lemma {:induction false} WrapAddsMultiples(r: nat, k: nat)
    ensures (UINT64 * k + r) % UINT64 == r % UINT64
  {
    if k > 0 {
      WrapAddsMultiples(r, k - 1);
    }
  }

  /** A save makes every other process's etag stale. */
  lemma SaveOvertakesOthers(s: State, s': State, q: Process)
    requires ProcessInv(s, q)
    requires s'.item.Some? && s'.item.value.etag == s'.version == s.version + 1 && |s'.saves| == |s.saves| + 1
    ensures ProcessInv(s', q)
  {
  }

  /** A matching save writes one more than what was stored. */
  lemma WriteCounts(initial: Option<Item>, s: State, p: nat, after: Process)
    requires Inv(initial, s) && p in s.processes && s.processes[p].Saving?
    requires FirstWriteMatches(s.item, s.processes[p].etag)
    ensures Count(Written(s, p, after).item) == (Count(initial) + |s.saves| + 1) % UINT64
  {
    assert ProcessInv(s, s.processes[p]);
    NextTextParses(s.processes[p].count);
    WrapAdds(Count(initial) + |s.saves|, 1);
  }

  /** It does so under an etag nobody holds. */
  lemma WriteKeepsProcesses(initial: Option<Item>, s: State, p: nat, after: Process)
    requires Inv(initial, s) && p in s.processes && s.processes[p].Saving?
    requires Saved(after) && (after.Failed? ==> after.error == WriteFailed)
    ensures var s' := Written(s, p, after); forall q | q in s'.processes :: ProcessInv(s', s'.processes[q])
  {
    var s' := Written(s, p, after);
    forall q | q in s'.processes
      ensures ProcessInv(s', s'.processes[q])
    {
      if q != p {
        SaveOvertakesOthers(s, s', s.processes[q]);
      }
    }
  }

  lemma WriteKeepsInv(initial: Option<Item>, s: State, p: nat, after: Process)
    requires Inv(initial, s) && p in s.processes && s.processes[p].Saving?
    requires FirstWriteMatches(s.item, s.processes[p].etag)
    requires Saved(after) && (after.Failed? ==> after.error == WriteFailed)
    ensures Inv(initial, Written(s, p, after))
  {
    WriteCounts(initial, s, p, after);
    WriteKeepsProcesses(initial, s, p, after);
  }

  /** The steps with which the store takes a save. */
  predicate Writes(s: State, a: Action)
    requires Enabled(s, a)
  {
    (a.Save? && FirstWriteMatches(s.item, s.processes[a.p].etag)) || (a.SaveFails? && a.applied)
  }

  /** Steps that do not write the store. */
  lemma OtherStepsKeepInv(initial: Option<Item>, s: State, a: Action)
    requires Inv(initial, s) && Enabled(s, a) && !Writes(s, a)
    ensures Inv(initial, Step(s, a))
  {
    var s' := Step(s, a);
    ActingProcessStaysSound(s, a);
    forall q | q in s'.processes
      ensures ProcessInv(s', s'.processes[q])
    {
      if q != a.p {
        assert ProcessInv(s, s.processes[q]);
      }
    }
  }

  lemma ActingProcessStaysSound(s: State, a: Action)
    requires Enabled(s, a) && !Writes(s, a) && (a.p in s.processes ==> ProcessInv(s, s.processes[a.p]))
    requires s.item.Some? ==> s.item.value.etag <= s.version
    ensures var s' := Step(s, a);
      && s'.item == s.item && s'.version == s.version && s'.saves == s.saves
      && a.p in s'.processes && ProcessInv(s', s'.processes[a.p]) && !Saved(s'.processes[a.p])
  {
  }

  lemma {:induction false} RunKeepsInv(item: Option<Item>, run: seq<State>, actions: seq<Action>, i: nat)
    requires IsRun(item, run, actions) && i < |run|
    ensures Inv(item, run[i])
  {
    if i > 0 {
      RunKeepsInv(item, run, actions, i - 1);
      var s, a := run[i - 1], actions[i - 1];
      assert run[i] == Step(s, a);
      if Writes(s, a) {
        WriteKeepsInv(item, s, a.p, run[i].processes[a.p]);
      } else {
        OtherStepsKeepInv(item, s, a);
      }
    } else {
      assert Count(item) % UINT64 == Count(item);
    }
  }

  lemma ReachableInv(item: Option<Item>, s: State)
    requires Reachable(item, s)
    ensures Inv(item, s)
  {
    var run, actions :| IsRun(item, run, actions) && run[|actions|] == s;
    RunKeepsInv(item, run, actions, |actions|);
  }

  function SucceededProcesses(s: State): set<nat> {
    set p | p in s.processes && s.processes[p].Succeeded?
  }

  function Elements(ids: seq<nat>): set<nat> {
    set p | p in ids
  }

  lemma {:induction false} DistinctElements(ids: seq<nat>)
    requires forall i, j | 0 <= i < j < |ids| :: ids[i] != ids[j]
    ensures |Elements(ids)| == |ids|
  {
    if ids != [] {
      var rest := ids[1..];
      DistinctElements(rest);
      assert ids == [ids[0]] + rest && ids[0] !in rest;
      assert Elements(ids) == {ids[0]} + Elements(rest);
    }
  }

  /** The calls that report a failed write which the store applied. */
  function UnreportedSaves(s: State): set<nat> {
    set p | p in s.processes && s.processes[p].Failed? && s.processes[p].applied
  }

  lemma SavesAreCounted(item: Option<Item>, s: State)
    requires Inv(item, s)
    ensures |s.saves| == |SucceededProcesses(s)| + |UnreportedSaves(s)|
  {
    DistinctElements(s.saves);
    var succeeded, unreported := SucceededProcesses(s), UnreportedSaves(s);
    assert forall p :: p in Elements(s.saves) <==> p in succeeded || p in unreported;
    assert Elements(s.saves) == succeeded + unreported && succeeded !! unreported;
  }

  /** No update is lost: in every reachable state the counter is its first value plus the number of calls that
      returned success and of the calls whose write was applied but reported as failed (modulo 2^64, where the count
      wraps); each of these saved exactly once, and every other call saved nothing. */
  lemma NoUpdateIsLost(item: Option<Item>, s: State)
    requires Reachable(item, s)
    ensures Count(s.item) == (Count(item) + |SucceededProcesses(s)| + |UnreportedSaves(s)|) % UINT64
    ensures |s.saves| == |SucceededProcesses(s)| + |UnreportedSaves(s)|
    ensures forall p | p in s.processes ::
      p in s.saves <==> p in SucceededProcesses(s) || p in UnreportedSaves(s)
    ensures forall p | p in UnreportedSaves(s) :: s.processes[p].error == WriteFailed
  {
    ReachableInv(item, s);
    SavesAreCounted(item, s);
    forall p | p in UnreportedSaves(s)
      ensures s.processes[p].error == WriteFailed
    {
      assert ProcessInv(s, s.processes[p]);
    }
  }

  /** A call that gave up on conflicts although every read came with an etag was overtaken by at least sixteen
      successful saves of other calls. */
  lemma GivingUpMeansOvertaken(item: Option<Item>, s: State, p: nat)
    requires Reachable(item, s) && p in s.processes
    requires s.processes[p].Failed? && s.processes[p].error == TooManyConflicts && !s.processes[p].blind
    ensures s.processes[p].since + ATTEMPTS <= |s.saves| && p !in s.saves
  {
    ReachableInv(item, s);
    assert ProcessInv(s, s.processes[p]);
  }

  predicate GaveUp(p: Process) {
    p.Failed? && p.error == TooManyConflicts
  }

  predicate IsRead(a: Action, p: nat) {
    a.p == p && (a.GetFound? || a.GetMissing? || a.GetFails?)
  }

  predicate IsWrite(a: Action, p: nat) {
    a.p == p && (a.Save? || a.SaveFails?)
  }

  /** How often a call has read the counter in a run, and how often it has tried to write it back. */
  function ReadsOf(actions: seq<Action>, p: nat): nat {
    if actions == [] then 0
    else ReadsOf(actions[..|actions| - 1], p) + if IsRead(actions[|actions| - 1], p) then 1 else 0
  }

  function WritesOf(actions: seq<Action>, p: nat): nat {
    if actions == [] then 0
    else WritesOf(actions[..|actions| - 1], p) + if IsWrite(actions[|actions| - 1], p) then 1 else 0
  }

  /** What the state of a call says about how often it has read and written. */
  predicate CountsMatch(s: State, p: nat, gets: nat, writes: nat) {
    if p !in s.processes then gets == 0 && writes == 0
    else match s.processes[p]
      case Reading(attempt, _, _) => gets == writes == attempt < 16
      case Saving(attempt, _, _, _, _, _) => gets == attempt + 1 <= 16 && writes == attempt
      case Succeeded => 1 <= gets == writes <= 16
      case Failed(ReadFailed, _, _, _) => 1 <= gets == writes + 1 <= 16
      case Failed(WriteFailed, _, _, _) => 1 <= gets == writes <= 16
      case Failed(TooManyConflicts, _, _, _) => gets == writes == 16
  }

  /** In every run a call reads and writes in turns: it reads again before it tries to write again, never does either more
      than sixteen times, and does both sixteen times when it gives up on conflicts. */
  lemma {:induction false} AttemptsCountReads(
    item: Option<Item>, run: seq<State>, actions: seq<Action>, i: nat, p: nat)
    requires IsRun(item, run, actions) && i < |run|
    ensures CountsMatch(run[i], p, ReadsOf(actions[..i], p), WritesOf(actions[..i], p))
  {
    if i > 0 {
      AttemptsCountReads(item, run, actions, i - 1, p);
      assert run[i] == Step(run[i - 1], actions[i - 1]);
      assert actions[..i][..i - 1] == actions[..i - 1];
    }
  }

  /** A call that is not disturbed: whatever happened before, it can start, reads what is stored, and its save succeeds
      and leaves one more. */
  lemma UndisturbedCallSucceeds(item: Option<Item>, s: State, p: nat) returns (s': State)
    requires Reachable(item, s) && p !in s.processes
    ensures Reachable(item, s') && s'.processes == s.processes[p := Succeeded] && s'.saves == s.saves + [p]
    ensures Count(s'.item) == (Count(s.item) + 1) % 0x1_0000_0000_0000_0000
  {
    ReachableStep(item, s, Start(p));
    var started := Step(s, Start(p));
    s' := ReadAndSave(item, started, p);
    assert started.processes[p := Succeeded] == s.processes[p := Succeeded];
  }

  lemma ReadAndSave(item: Option<Item>, s: State, p: nat) returns (s': State)
    requires Reachable(item, s) && p in s.processes && s.processes[p].Reading?
    ensures Reachable(item, s') && s'.processes == s.processes[p := Succeeded] && s'.saves == s.saves + [p]
    ensures Count(s'.item) == (Count(s.item) + 1) % 0x1_0000_0000_0000_0000
  {
    var get := if s.item.Some? then GetFound(p, true) else GetMissing(p);
    ReachableStep(item, s, get);
    s' := SaveWhatWasRead(item, Step(s, get), p);
    assert Step(s, get).processes[p := Succeeded] == s.processes[p := Succeeded];
  }

  lemma SaveWhatWasRead(item: Option<Item>, s: State, p: nat) returns (s': State)
    requires Reachable(item, s) && p in s.processes && s.processes[p].Saving?
    requires FirstWriteMatches(s.item, s.processes[p].etag) && s.processes[p].count == Count(s.item)
    ensures Reachable(item, s') && s'.processes == s.processes[p := Succeeded] && s'.saves == s.saves + [p]
    ensures Count(s'.item) == (Count(s.item) + 1) % 0x1_0000_0000_0000_0000
  {
    ReachableStep(item, s, Save(p));
    s' := Step(s, Save(p));
    NextTextParses(Count(s.item));
  }

  lemma ReachableStep(item: Option<Item>, s: State, a: Action)
    requires Reachable(item, s) && Enabled(s, a)
    ensures Reachable(item, Step(s, a))
  {
    var run, actions :| IsRun(item, run, actions) && run[|actions|] == s;
    assert IsRun(item, run + [Step(s, a)], actions + [a]);
  }

  /** No call makes more than sixteen attempts. */
  lemma AttemptsAreBounded(item: Option<Item>, s: State, p: nat)
    requires Reachable(item, s) && p in s.processes && (s.processes[p].Reading? || s.processes[p].Saving?)
    ensures s.processes[p].attempt < ATTEMPTS
  {
    ReachableInv(item, s);
    assert ProcessInv(s, s.processes[p]);
  }

  // --- the loop itself, with the other processes as interference -----------------------

  /** What happens around one attempt: saves of others before the read, whether the read fails and whether it comes
      with the etag, saves of others between read and write, and whether the write fails for a reason other than a
      conflict, with or without being applied. */
  datatype Round = Round(beforeGet: nat, getFails: bool, withEtag: bool, beforeSave: nat, saveFails: bool,
                         applied: bool)

  /** Whether the save of a round finds the store as it was read, where `present` says whether the key was there before
      the round: nobody saved in between, and a read that found the key came with the etag. */
  predicate Matches(round: Round, present: bool) {
    round.beforeSave == 0 && (round.withEtag || (!present && round.beforeGet == 0))
  }

  /** How a pass ends: with success, with an error, or with a conflict (`None`). */
  function PassOf(round: Round, present: bool): Option<Option<Error>> {
    if round.getFails then Some(Some(ReadFailed))
    else if round.saveFails then Some(Some(WriteFailed))
    else if Matches(round, present) then Some(None)
    else None
  }

  /** Whether a pass saves. */
  predicate Saves(round: Round, present: bool) {
    !round.getFails && (round.saveFails ==> round.applied) && Matches(round, present)
  }

  /** How a call ends from attempt `i` on: with the first pass that is no conflict. */
  function CallOf(rounds: nat -> Round, present: bool, i: nat): Option<Error>
    decreases ATTEMPTS - i, present
  {
    if i >= ATTEMPTS then Some(TooManyConflicts)
    else match PassOf(rounds(i), present)
      case Some(end) => end
      case None => CallOf(rounds, true, i + 1)
  }

  /** Every read of a call comes with the etag. */
  ghost predicate AllWithEtag(rounds: nat -> Round) {
    forall i: nat | i < ATTEMPTS :: rounds(i).withEtag
  }

  lemma {:induction false} ErrorsHaveCauses(rounds: nat -> Round, present: bool, i: nat)
    ensures CallOf(rounds, present, i) == Some(ReadFailed) ==> exists k: nat | k < ATTEMPTS :: rounds(k).getFails
    ensures CallOf(rounds, present, i) == Some(WriteFailed) ==> exists k: nat | k < ATTEMPTS :: rounds(k).saveFails
    decreases ATTEMPTS - i, present
  {
    if i < ATTEMPTS && PassOf(rounds(i), present).None? {
      ErrorsHaveCauses(rounds, true, i + 1);
    }
  }

  /** The count after `k` increments of `n`. */
  function Incremented(n: nat, k: nat): nat {
    if k == 0 then n else (Incremented(n, k - 1) + 1) % UINT64
  }

  lemma {:induction false} IncrementsAdd(n: nat, j: nat, k: nat)
    ensures Incremented(Incremented(n, j), k) == Incremented(n, j + k)
  {
    if k > 0 {
      IncrementsAdd(n, j, k - 1);
    }
  }

  lemma {:induction false} IncrementedIsModular(n: nat, k: nat)
    requires n < UINT64
    ensures Incremented(n, k) == (n + k) % UINT64
  {
    if k > 0 {
      IncrementedIsModular(n, k - 1);
      WrapAdds(n + k - 1, 1);
    }
  }

  class StateStore {
    var item: Option<Item>
    var version: nat
    ghost var mine: nat
    ghost var others: nat

    ghost predicate Valid()
      reads this
    {
      item.Some? ==> item.value.etag <= version
    }

    /** `state.save` with first-write concurrency. */
    method Save(text: string, etag: Option<nat>) returns (saved: bool)
      requires Valid()
      modifies this`item, this`version
      ensures Valid() && saved == FirstWriteMatches(old(item), etag)
      ensures saved ==> item == Some(Item(text, version)) && version == old(version) + 1
      ensures !saved ==> item == old(item) && version == old(version)
    {
      saved := match etag
        case None => item.None?
        case Some(e) => item.Some? && item.value.etag == e;
      if saved {
        version := version + 1;
        item := Some(Item(text, version));
      }
    }

    /** One complete increment by another process. */
    method InterfereOnce()
      requires Valid()
      modifies this
      ensures Valid() && mine == old(mine) && others == old(others) + 1 && version == old(version) + 1
      ensures Count(item) == Incremented(old(Count(item)), 1)
      ensures item.Some? && item.value.etag == version
    {
      NextTextParses(Count(item));
      var saved := Save(NextText(Count(item)), if item.Some? then Some(item.value.etag) else None);
      others := others + 1;
    }

    /** `n` complete increments by other processes. */
    method Interfere(n: nat)
      requires Valid()
      modifies this
      ensures Valid() && mine == old(mine) && others == old(others) + n && version == old(version) + n
      ensures Count(item) == Incremented(old(Count(item)), n)
      ensures n == 0 ==> item == old(item)
      ensures n > 0 ==> item.Some? && item.value.etag == version
    {
      for i := 0 to n
        invariant Valid() && mine == old(mine) && others == old(others) + i && version == old(version) + i
        invariant Count(item) == Incremented(old(Count(item)), i)
        invariant i == 0 ==> item == old(item)
        invariant i > 0 ==> item.Some? && item.value.etag == version
      {
        IncrementsAdd(old(Count(item)), i, 1);
        InterfereOnce();
      }
    }

    /** `state-read.get`, the count parsed: what it returns matches what is stored, unless it comes without the etag of
        an item. */
    method Get(withEtag: bool) returns (count: nat, etag: Option<nat>)
      ensures count == Count(item)
      ensures etag == if item.Some? && withEtag then Some(item.value.etag) else None
      ensures FirstWriteMatches(item, etag) <==> item.None? || withEtag
    {
      count, etag := 0, None;
      if item.Some? {
        count := ParseCounter(item.value.text);
        if withEtag {
          etag := Some(item.value.etag);
        }
      }
    }

    /** Write the next count back under the etag it was read with. */
    method SaveNext(count: nat, etag: Option<nat>) returns (saved: bool)
      requires Valid() && (FirstWriteMatches(item, etag) ==> count == Count(item))
      modifies this`item, this`version
      ensures Valid() && saved == FirstWriteMatches(old(item), etag)
      ensures Count(item) == if saved then Incremented(old(Count(item)), 1) else old(Count(item))
      ensures if saved then item.Some? else item == old(item)
    {
      NextTextParses(count);
      saved := Save(NextText(count), etag);
    }

    /** One pass of the loop: read, write back, and say how the write went: `None` for a conflict, which is exactly a
        save that does not match what is stored. */
    method Attempt(round: Round) returns (outcome: Option<Option<Error>>)
      requires Valid()
      modifies this
      ensures Valid() && others >= old(others)
      ensures old(mine) <= mine <= old(mine) + 1
      ensures outcome == Some(None) ==> mine == old(mine) + 1
      ensures mine > old(mine) ==> outcome == Some(None) || (outcome == Some(Some(WriteFailed)) && round.applied)
      ensures Count(item) == Incremented(old(Count(item)), mine - old(mine) + others - old(others))
      ensures outcome == PassOf(round, old(item).Some?)
      ensures mine == old(mine) + if Saves(round, old(item).Some?) then 1 else 0
      ensures others == old(others) + round.beforeGet + if round.getFails then 0 else round.beforeSave
      ensures outcome == None ==> item.Some?
      ensures outcome == None ==> others > old(others) || !round.withEtag
      ensures outcome != Some(Some(TooManyConflicts))
    {
      Interfere(round.beforeGet);
      if round.getFails {
        return Some(Some(ReadFailed));
      }
      var count, etag := Get(round.withEtag);
      IncrementsAdd(old(Count(item)), round.beforeGet, round.beforeSave);
      Interfere(round.beforeSave);
      if round.saveFails && !round.applied {
        return Some(Some(WriteFailed));
      }
      IncrementsAdd(old(Count(item)), round.beforeGet + round.beforeSave, 1);
      outcome := WriteBack(count, etag, round.saveFails);
    }

    /** The second half of a pass; `fails` makes the store report another failure than a conflict. */
    method WriteBack(count: nat, etag: Option<nat>, fails: bool) returns (outcome: Option<Option<Error>>)
      requires Valid() && (FirstWriteMatches(item, etag) ==> count == Count(item))
      modifies this`item, this`version, this`mine
      ensures Valid()
      ensures var saved := FirstWriteMatches(old(item), etag);
        && mine == old(mine) + (if saved then 1 else 0)
        && Count(item) == (if saved then Incremented(old(Count(item)), 1) else old(Count(item)))
        && (item.Some? <==> saved || old(item).Some?)
        && outcome == if fails then Some(Some(WriteFailed)) else if saved then Some(None) else None
    {
      var saved := SaveNext(count, etag);
      if saved {
        mine := mine + 1;
        return Some(if fails then Some(WriteFailed) else None);
      }
      return if fails then Some(Some(WriteFailed)) else None;
    }

    /** `increment`: it ends with the first pass that is no conflict; it adds exactly one save of its own when it
        succeeds, at most one when a write failed and none otherwise; the saves of others are kept; and when its reads
        come with the etag conflicts exhaust it only after sixteen saves of others. */
    method Increment(rounds: nat -> Round) returns (error: Option<Error>)
      requires Valid()
      modifies this
      ensures Valid() && others >= old(others)
      ensures old(mine) <= mine <= old(mine) + 1
      ensures error.None? ==> mine == old(mine) + 1
      ensures mine > old(mine) ==> error == None || error == Some(WriteFailed)
      ensures Count(item) == (old(Count(item)) + (mine - old(mine)) + (others - old(others))) % UINT64
      ensures error == CallOf(rounds, old(item).Some?, 0)
      ensures error == Some(ReadFailed) ==> exists i: nat | i < ATTEMPTS :: rounds(i).getFails
      ensures error == Some(WriteFailed) ==> exists i: nat | i < ATTEMPTS :: rounds(i).saveFails
      ensures error == Some(TooManyConflicts) && AllWithEtag(rounds) ==> others >= old(others) + ATTEMPTS
    {
      error := Loop(rounds);
      ErrorsHaveCauses(rounds, old(item).Some?, 0);
      IncrementedIsModular(old(Count(item)), mine - old(mine) + others - old(others));
    }

    /** The loop of `increment`. */
    method Loop(rounds: nat -> Round) returns (error: Option<Error>)
      requires Valid()
      modifies this
      ensures Valid() && others >= old(others) && old(mine) <= mine <= old(mine) + 1
      ensures error.None? ==> mine == old(mine) + 1
      ensures mine > old(mine) ==> error == None || error == Some(WriteFailed)
      ensures Count(item) == Incremented(old(Count(item)), mine - old(mine) + others - old(others))
      ensures error == CallOf(rounds, old(item).Some?, 0)
      ensures error == Some(TooManyConflicts) && AllWithEtag(rounds) ==> others >= old(others) + ATTEMPTS
    {
      ghost var first := Count(item);
      for attempt := 0 to ATTEMPTS
        invariant Valid() && mine == old(mine) && others >= old(others)
        invariant CallOf(rounds, old(item).Some?, 0) == CallOf(rounds, item.Some?, attempt)
        invariant AllWithEtag(rounds) ==> others >= old(others) + attempt
        invariant Count(item) == Incremented(first, others - old(others))
      {
        ghost var before := others;
        var outcome := Attempt(rounds(attempt));
        IncrementsAdd(first, before - old(others), mine - old(mine) + (others - before));
        if outcome.Some? {
          return outcome.value;
        }
      }
      return Some(TooManyConflicts);
    }
  }
}
