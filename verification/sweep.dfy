/**
  The sweep over stale game sessions: for each candidate, in order, a
  deadline check, a throttled "typing" signal, an edit of the game message
  (only for a stored game that can run, spaced at least ten seconds from the
  previous edit) and a delete from storage, counted as cleaned, edited and
  errored.
*/
module SessionSweep {
  import opened Wrappers
  import opened Texts
  import opened Environment

  /** Seconds between "typing" signals. */
  const TypingWindow: int := 5
  /** Seconds that must pass after an edit before the next one. */
  const EditGap: int := 10

  /**
    The edit of an emptied game message. `waited` holds the readings of the
    throttle loop that were not yet past `$last_request_time + 10`, one per
    `sleep(1)`; `at` is the reading that let the edit through and `after`
    the reading stored in `$last_request_time` once the edit returned;
    `markup` is the keyboard sent and `ok` the outcome.
  */
  datatype Edit = NotAttempted | Attempted(waited: seq<int>, at: int, after: int, markup: Keyboard, ok: bool)

  /**
    One candidate that passed the deadline check: the clock reading of that
    check, the reading `strtotime('-5 seconds')` was computed from, the
    "typing" signal if one was sent (stamped with the time it reset the
    window to), the stored game code, the edit, and whether the delete
    succeeded.
  */
  datatype Step = Step(id: Id, checkedAt: int, probe: int, typing: Option<int>, code: Option<GameCode>,
                       edit: Edit, deleted: bool)

  /** Why the sweep ended: every candidate handled, or the clock reading that hit the deadline. */
  datatype Stop = Exhausted | Deadline(at: int)

  datatype Counters = Counters(cleaned: nat, edited: nat, errored: nat)

  /** The first reading of the throttle loop. */
  function FirstPoll(e: Edit): int
    requires e.Attempted?
  {
    if e.waited == [] then e.at else e.waited[0]
  }

  /** The readings of the throttle loop, from `z` seconds slept: the i-th one follows i one-second sleeps. */
  function WaitReadings(waited: seq<int>, z: nat): seq<Reading>
    decreases |waited|
  {
    if waited == [] then []
    else WaitReadings(waited[..|waited| - 1], z) + [Reading(waited[|waited| - 1], z + |waited| - 1)]
  }

  /** The seconds an edit slept: one per reading of the throttle loop. */
  function EditSlept(e: Edit): nat {
    if e.Attempted? then |e.waited| else 0
  }

  /**
    The clock readings an edit took, from `z` seconds slept: the throttle
    loop's, then the one that let the edit through and the one stored in
    `$last_request_time`, both after all the loop's sleeps.
  */
  function EditReadings(e: Edit, z: nat): seq<Reading> {
    match e
    case NotAttempted => []
    case Attempted(waited, at, after, _, _) =>
      WaitReadings(waited, z) + [Reading(at, z + |waited|), Reading(after, z + |waited|)]
  }

  /**
    The clock readings of one candidate after its deadline check, from `z`
    seconds slept: the probe, the typing reset, the edit's.
  */
  function VisitReadings(s: Step, z: nat): seq<Reading> {
    [Reading(s.probe, z)] + (if s.typing.Some? then [Reading(s.typing.value, z)] else []) + EditReadings(s.edit, z)
  }

  /** Every clock reading one candidate took, its deadline check first. */
  function StepReadings(s: Step, z: nat): seq<Reading> { [Reading(s.checkedAt, z)] + VisitReadings(s, z) }

  /** The last clock reading one candidate took. */
  function Finish(s: Step): int {
    if s.edit.Attempted? then s.edit.after else if s.typing.Some? then s.typing.value else s.probe
  }

  /** The seconds the handled candidates slept in all. */
  function Slept(steps: seq<Step>): nat
    decreases |steps|
  {
    if steps == [] then 0 else Slept(steps[..|steps| - 1]) + EditSlept(steps[|steps| - 1].edit)
  }

  /** Every clock reading the handled candidates took, in order, from `z` seconds slept. */
  function TraceReadings(steps: seq<Step>, z: nat): seq<Reading>
    decreases |steps|
  {
    if steps == [] then []
    else
      var init := steps[..|steps| - 1];
      TraceReadings(init, z) + StepReadings(steps[|steps| - 1], z + Slept(init))
  }

  /** Every clock reading of the sweep: the candidates', then the deadline check that stopped it. */
  function SweepReadings(steps: seq<Step>, stop: Stop, z: nat): seq<Reading> {
    TraceReadings(steps, z) + (if stop.Deadline? then [Reading(stop.at, z + Slept(steps))] else [])
  }

  /** `$chat_action_start` after one step. */
  function ChatAfter(s: Step, chat: int): int { if s.typing.Some? then s.typing.value else chat }

  /** `$last_request_time` after one step. */
  function LastAfter(s: Step, last: int): int { if s.edit.Attempted? then s.edit.after else last }

  /** `$chat_action_start` after `steps`, starting from 0. */
  function ChatStart(steps: seq<Step>): int
    decreases |steps|
  {
    if steps == [] then 0 else ChatAfter(steps[|steps| - 1], ChatStart(steps[..|steps| - 1]))
  }

  /** `$last_request_time` after `steps`, starting from 0. */
  function LastRequest(steps: seq<Step>): int
    decreases |steps|
  {
    if steps == [] then 0 else LastAfter(steps[|steps| - 1], LastRequest(steps[..|steps| - 1]))
  }

  /**
    The throttle and the edit, given `$last_request_time` before it and the
    reading `from` taken just before the loop: the recreate keyboard of the
    code, the outcome the messaging service gives, a sleep for every
    reading not yet past `last + 10`, and the edit let through only on a
    reading past it.
  */
  predicate EditFollows(e: Edit, code: GameCode, editOk: bool, from: int, last: int) {
    && e.Attempted?
    && e.markup == RecreateKeyboard(code) && e.ok == editOk
    && (forall i :: 0 <= i < |e.waited| ==> e.waited[i] <= last + EditGap)
    && from <= FirstPoll(e) <= e.at <= e.after
    && e.at > last + EditGap
  }

  /**
    The rules one candidate is handled by, given the records and the two
    timers at that point: a "typing" signal exactly when `chat` is more
    than five seconds before the probe reading; the code is the stored one;
    an edit is made exactly when there is a code and that game can run; the
    delete is always made.
  */
  predicate StepFollows(s: Step, records: map<Id, Option<GameCode>>, runnable: set<GameCode>,
                        editOk: bool, deleteOk: bool, chat: int, last: int) {
    && s.probe >= s.checkedAt
    && (s.typing.Some? <==> chat < s.probe - TypingWindow)
    && (s.typing.Some? ==> s.typing.value >= s.probe)
    && s.code == Lookup(records, s.id)
    && (s.edit.Attempted? <==> s.code.Some? && s.code.value in runnable)
    && (s.edit.Attempted? ==>
          EditFollows(s.edit, s.code.value, editOk, if s.typing.Some? then s.typing.value else s.probe, last))
    && s.deleted == deleteOk
  }

  /** The records left once the successful deletes of `steps` are applied in order. */
  function StoreAfter(records: map<Id, Option<GameCode>>, steps: seq<Step>): map<Id, Option<GameCode>>
    decreases |steps|
  {
    if steps == [] then records
    else
      var s := steps[|steps| - 1];
      var r := StoreAfter(records, steps[..|steps| - 1]);
      if s.deleted then r - {s.id} else r
  }

  /** The counters after one more step: `$cleaned++` on a successful delete, `$edited++` / `$error++` per edit outcome. */
  function Count(c: Counters, s: Step): Counters {
    Counters(c.cleaned + (if s.deleted then 1 else 0),
             c.edited + (if s.edit.Attempted? && s.edit.ok then 1 else 0),
             c.errored + (if s.edit.Attempted? && !s.edit.ok then 1 else 0))
  }

  /** The counters after `steps`, starting from zero. */
  function Tally(steps: seq<Step>): Counters
    decreases |steps|
  {
    if steps == [] then Counters(0, 0, 0) else Count(Tally(steps[..|steps| - 1]), steps[|steps| - 1])
  }

  /**
    What a sweep starts from: the candidates in listing order, the records
    and the number of delete calls before it, the games that can run, the
    outcome of the edit for the k-th candidate and of the k-th delete call,
    `$start_time` and the seconds allowed.
  */
  datatype Run = Run(candidates: seq<Id>, records: map<Id, Option<GameCode>>, runnable: set<GameCode>,
                     editOk: nat -> bool, deleteOk: nat -> bool, deletes: nat, start: int, timelimit: int)

  /**
    `s` handles the candidate after the steps `before`: it was checked
    before the deadline, after every reading of the step before it, and
    handled by the rules against the records and the timers `before` left.
    `deleteOk(deletes + k)` is the outcome of the k-th candidate's delete call.
  */
  predicate NextHandled(before: seq<Step>, s: Step, run: Run) {
    var k := |before|;
    && k < |run.candidates| && s.id == run.candidates[k]
    && run.start <= s.checkedAt < run.start + run.timelimit
    && (k > 0 ==> s.checkedAt >= Finish(before[k - 1]))
    && StepFollows(s, StoreAfter(run.records, before), run.runnable, run.editOk(k), run.deleteOk(run.deletes + k),
                   ChatStart(before), LastRequest(before))
  }

  /** The candidates handled so far: a prefix of the list, each handled after the ones before it. */
  predicate Handled(steps: seq<Step>, run: Run)
    decreases |steps|
  {
    && |steps| <= |run.candidates|
    && (steps != [] ==>
          var before := steps[..|steps| - 1];
          Handled(before, run) && NextHandled(before, steps[|steps| - 1], run))
  }

  /** Every handled candidate, at its position, was checked before the deadline and handled by the rules. */
  lemma {:induction false} HandledAt(steps: seq<Step>, run: Run, k: nat)
    requires Handled(steps, run)
    requires k < |steps|
    ensures k < |run.candidates| && steps[k].id == run.candidates[k]
    ensures run.start <= steps[k].checkedAt < run.start + run.timelimit
    ensures k > 0 ==> steps[k].checkedAt >= Finish(steps[k - 1])
    ensures StepFollows(steps[k], StoreAfter(run.records, steps[..k]), run.runnable, run.editOk(k),
                        run.deleteOk(run.deletes + k), ChatStart(steps[..k]), LastRequest(steps[..k]))
    decreases |steps|
  {
    var n := |steps| - 1;
    if k < n {
      var init := steps[..n];
      HandledAt(init, run, k);
      assert init[k] == steps[k] && init[..k] == steps[..k];
      if k > 0 { assert init[k - 1] == steps[k - 1]; }
    }
  }

  /** Any two edits are spaced: the later one is let through more than `EditGap` seconds after the earlier one returned. */
  predicate EditsSpaced(steps: seq<Step>) {
    forall i, j :: 0 <= i < j < |steps| && steps[i].edit.Attempted? && steps[j].edit.Attempted? ==>
      steps[j].edit.at > steps[i].edit.after + EditGap
  }

  /** Any two "typing" signals are more than `TypingWindow` seconds apart. */
  predicate TypingSpaced(steps: seq<Step>) {
    forall i, j :: 0 <= i < j < |steps| && steps[i].typing.Some? && steps[j].typing.Some? ==>
      steps[j].typing.value > steps[i].typing.value + TypingWindow
  }

  /** No edit was made among the first `k` steps. */
  predicate NoEditBefore(steps: seq<Step>, k: nat)
    requires k <= |steps|
  {
    forall j :: 0 <= j < k ==> steps[j].edit.NotAttempted?
  }

  /**
    The first edit of the sweep (`$last_request_time` still 0) does not
    sleep when its first reading is already past 10.
  */
  predicate FirstEditUnthrottled(steps: seq<Step>) {
    forall k :: (0 <= k < |steps| && steps[k].edit.Attempted? && NoEditBefore(steps, k) &&
                 FirstPoll(steps[k].edit) > EditGap) ==> steps[k].edit.waited == []
  }

  /**
    The pacing the sweep keeps: edits and "typing" signals spaced, a signal
    for the first candidate whenever the run starts after the epoch's first
    `TypingWindow` seconds, and no wait before the first edit once ten
    seconds of the epoch have passed.
  */
  predicate Paced(steps: seq<Step>, start: int) {
    && EditsSpaced(steps) && TypingSpaced(steps)
    && (start > TypingWindow && steps != [] ==> steps[0].typing.Some?)
    && FirstEditUnthrottled(steps)
  }

  /** The two timers are at or after every signal and every edit so far. */
  lemma {:induction false} TimersBound(steps: seq<Step>, run: Run)
    requires Handled(steps, run)
    ensures forall k :: 0 <= k < |steps| && steps[k].typing.Some? ==> steps[k].typing.value <= ChatStart(steps)
    ensures forall k :: 0 <= k < |steps| && steps[k].edit.Attempted? ==> steps[k].edit.after <= LastRequest(steps)
    decreases |steps|
  {
    if steps != [] {
      var n := |steps| - 1;
      var init := steps[..n];
      TimersBound(init, run);
      assert forall k :: 0 <= k < n ==> steps[k] == init[k];
    }
  }

  /** Before any edit, `$last_request_time` is still 0. */
  lemma {:induction false} NoEditNoRequest(steps: seq<Step>)
    requires NoEditBefore(steps, |steps|)
    ensures LastRequest(steps) == 0
    decreases |steps|
  {
    if steps != [] {
      var init := steps[..|steps| - 1];
      assert NoEditBefore(init, |init|) by {
        forall j | 0 <= j < |init| ensures init[j].edit.NotAttempted? { assert init[j] == steps[j]; }
      }
      NoEditNoRequest(init);
    }
  }

  /** The last handled step keeps the pacing of the steps before it. */
  lemma EditsSpacedAppend(steps: seq<Step>, s: Step, last: int)
    requires EditsSpaced(steps)
    requires forall k :: 0 <= k < |steps| && steps[k].edit.Attempted? ==> steps[k].edit.after <= last
    requires s.edit.Attempted? ==> s.edit.at > last + EditGap
    ensures EditsSpaced(steps + [s])
  {
    var n := steps + [s];
    assert forall k :: 0 <= k < |steps| ==> n[k] == steps[k];
  }

  lemma TypingSpacedAppend(steps: seq<Step>, s: Step, chat: int)
    requires TypingSpaced(steps)
    requires forall k :: 0 <= k < |steps| && steps[k].typing.Some? ==> steps[k].typing.value <= chat
    requires s.typing.Some? ==> s.typing.value > chat + TypingWindow
    ensures TypingSpaced(steps + [s])
  {
    var n := steps + [s];
    assert forall k :: 0 <= k < |steps| ==> n[k] == steps[k];
  }

  lemma FirstEditAppend(steps: seq<Step>, s: Step)
    requires FirstEditUnthrottled(steps)
    requires s.edit.Attempted? && NoEditBefore(steps, |steps|) && FirstPoll(s.edit) > EditGap ==> s.edit.waited == []
    ensures FirstEditUnthrottled(steps + [s])
  {
    var n := steps + [s];
    forall k | 0 <= k < |n| && n[k].edit.Attempted? && NoEditBefore(n, k) && FirstPoll(n[k].edit) > EditGap
      ensures n[k].edit.waited == []
    {
      if k < |steps| {
        assert n[k] == steps[k];
        assert NoEditBefore(steps, k) by {
          forall j | 0 <= j < k ensures steps[j].edit.NotAttempted? { assert n[j] == steps[j]; }
        }
      } else {
        assert NoEditBefore(steps, |steps|) by {
          forall j | 0 <= j < |steps| ensures steps[j].edit.NotAttempted? { assert n[j] == steps[j]; }
        }
      }
    }
  }

  /** The last handled step keeps the pacing of the steps before it. */
  lemma PacedStep(steps: seq<Step>, run: Run)
    requires steps != []
    requires Handled(steps, run)
    requires Paced(steps[..|steps| - 1], run.start)
    ensures Paced(steps, run.start)
  {
    var n := |steps| - 1;
    var init := steps[..n];
    var s := steps[n];
    assert steps == init + [s];
    TimersBound(init, run);
    EditsSpacedAppend(init, s, LastRequest(init));
    TypingSpacedAppend(init, s, ChatStart(init));
    if s.edit.Attempted? && NoEditBefore(init, |init|) {
      NoEditNoRequest(init);
    }
    FirstEditAppend(init, s);
  }

  /** Handling by the rules keeps the pacing: the spacing promises follow from the per-step rule. */
  lemma {:induction false} HandledIsPaced(steps: seq<Step>, run: Run)
    requires Handled(steps, run)
    ensures Paced(steps, run.start)
    decreases |steps|
  {
    if steps != [] {
      HandledIsPaced(steps[..|steps| - 1], run);
      PacedStep(steps, run);
    }
  }

  lemma HandledExtend(steps: seq<Step>, s: Step, run: Run)
    requires Handled(steps, run)
    requires NextHandled(steps, s, run)
    ensures Handled(steps + [s], run)
  {
    assert (steps + [s])[..|steps|] == steps;
  }

  /** The store, the counters, the two timers and the sleeps after one more step. */
  lemma TraceAppend(records: map<Id, Option<GameCode>>, steps: seq<Step>, s: Step)
    ensures StoreAfter(records, steps + [s]) ==
            if s.deleted then StoreAfter(records, steps) - {s.id} else StoreAfter(records, steps)
    ensures Tally(steps + [s]) == Count(Tally(steps), s)
    ensures ChatStart(steps + [s]) == ChatAfter(s, ChatStart(steps))
    ensures LastRequest(steps + [s]) == LastAfter(s, LastRequest(steps))
    ensures Slept(steps + [s]) == Slept(steps) + EditSlept(s.edit)
  {
    assert (steps + [s])[..|steps|] == steps;
  }

  /**
    `while (time() <= $last_request_time + 10) sleep(1);`: returns the
    readings that made it sleep and the reading that let the edit through.
  */
  method WaitTurn(clock: Clock, last: int) returns (waited: seq<int>, t: int)
    requires clock.Valid()
    modifies clock
    ensures clock.Valid()
    ensures clock.log == old(clock.log) + WaitReadings(waited, old(clock.slept)) +
                         [Reading(t, old(clock.slept) + |waited|)]
    ensures clock.slept == old(clock.slept) + |waited|
    ensures forall i :: 0 <= i < |waited| ==> old(clock.now) <= waited[i] <= last + EditGap
    ensures t > last + EditGap && t == clock.now && t >= old(clock.now)
    ensures (if waited == [] then t else waited[0]) == old(clock.now) + clock.drift(old(clock.readings))
  {
    ghost var first := old(clock.now) + clock.drift(old(clock.readings));
    ghost var z := clock.slept;
    waited := [];
    t := clock.Time();
    while t <= last + EditGap
      invariant clock.Valid()
      invariant clock.log == old(clock.log) + WaitReadings(waited, z) + [Reading(t, z + |waited|)]
      invariant clock.slept == z + |waited|
      invariant t == clock.now && t >= old(clock.now)
      invariant forall i :: 0 <= i < |waited| ==> old(clock.now) <= waited[i] <= last + EditGap
      invariant (if waited == [] then t else waited[0]) == first
      decreases last + EditGap - t
    {
      ghost var before := waited;
      ghost var prior := clock.log;
      ghost var polled := [Reading(t, z + |before|)];
      waited := waited + [t];
      assert waited[..|before|] == before;
      assert WaitReadings(waited, z) == WaitReadings(before, z) + polled;
      AppendAssoc(old(clock.log), WaitReadings(before, z), polled);
      clock.Sleep(1);
      t := clock.Time();
      assert clock.log == prior + [Reading(t, z + |waited|)];
    }
  }

  /**
    `if ($chat_action_start < strtotime('-5 seconds'))`: the probe reading,
    and the "typing" signal with the reading `$chat_action_start` is reset
    to, if one is sent.
  */
  method Ping(clock: Clock, chatActionStart: int) returns (probe: int, typing: Option<int>)
    requires clock.Valid()
    modifies clock
    ensures clock.Valid()
    ensures probe == old(clock.now) + clock.drift(old(clock.readings)) && probe >= old(clock.now)
    ensures typing.Some? <==> chatActionStart < probe - TypingWindow
    ensures typing.Some? ==> typing.value >= probe
    ensures clock.log == old(clock.log) + [Reading(probe, clock.slept)] +
                         (if typing.Some? then [Reading(typing.value, clock.slept)] else [])
    ensures clock.slept == old(clock.slept)
    ensures clock.now == (if typing.Some? then typing.value else probe) >= old(clock.now)
  {
    probe := clock.Time();
    typing := None;
    if chatActionStart < probe - TypingWindow {
      var reset := clock.Time();
      typing := Some(reset);
    }
  }

  /** The throttled edit of one game message, with `$last_request_time` at `last` before it. */
  method EditTurn(clock: Clock, last: int, code: GameCode, editOk: bool) returns (e: Edit)
    requires clock.Valid()
    modifies clock
    ensures clock.Valid()
    ensures EditFollows(e, code, editOk, old(clock.now), last)
    ensures FirstPoll(e) == old(clock.now) + clock.drift(old(clock.readings))
    ensures clock.log == old(clock.log) + EditReadings(e, old(clock.slept))
    ensures clock.slept == old(clock.slept) + EditSlept(e)
    ensures clock.now == e.after >= old(clock.now)
  {
    var waited, at := WaitTurn(clock, last);
    var after := clock.Time();
    e := Attempted(waited, at, after, RecreateKeyboard(code), editOk);
    AppendAssoc(old(clock.log) + WaitReadings(waited, old(clock.slept)),
                [Reading(at, old(clock.slept) + |waited|)], [Reading(after, old(clock.slept) + |waited|)]);
    AppendAssoc(old(clock.log), WaitReadings(waited, old(clock.slept)),
                [Reading(at, old(clock.slept) + |waited|), Reading(after, old(clock.slept) + |waited|)]);
  }

  /**
    The body of the sweep for one candidate that passed the deadline check
    at `checkedAt`: the typing signal, the lookup, the throttled edit and
    the delete. `chat` and `last` are the new `$chat_action_start` and
    `$last_request_time`.
  */
  method Visit(id: Id, index: nat, checkedAt: int, store: SessionStore, clock: Clock,
               runnable: set<GameCode>, editOk: nat -> bool, chatActionStart: int, lastRequestTime: int,
               ghost records: map<Id, Option<GameCode>>, ghost deletes: nat)
    returns (s: Step, chat: int, last: int)
    requires store.records == records && store.deletes == deletes && checkedAt <= clock.now
    requires clock.Valid()
    modifies store, clock
    ensures clock.Valid()
    ensures s.id == id && s.checkedAt == checkedAt
    ensures s.probe == old(clock.now) + clock.drift(old(clock.readings))
    ensures clock.log == old(clock.log) + VisitReadings(s, old(clock.slept)) && clock.now == Finish(s)
    ensures clock.slept == old(clock.slept) + EditSlept(s.edit)
    ensures StepFollows(s, records, runnable, editOk(index), store.deleteOk(deletes), chatActionStart, lastRequestTime)
    ensures chat == ChatAfter(s, chatActionStart) && last == LastAfter(s, lastRequestTime)
    ensures store.records == (if s.deleted then old(store.records) - {id} else old(store.records))
    ensures store.deletes == old(store.deletes) + 1
    ensures clock.now >= old(clock.now)
  {
    ghost var z := clock.slept;
    var probe, typing := Ping(clock, chatActionStart);
    ghost var signalled := if typing.Some? then [Reading(typing.value, z)] else [];
    ghost var pinged := clock.log;
    chat := if typing.Some? then typing.value else chatActionStart;
    var code := store.Select(id);
    var edit := NotAttempted;
    last := lastRequestTime;
    if code.Some? && code.value in runnable {
      edit := EditTurn(clock, lastRequestTime, code.value, editOk(index));
      last := edit.after;
    } else {
      assert clock.log == pinged + [];
    }
    AppendAssoc(old(clock.log), [Reading(probe, z)], signalled);
    AppendAssoc(old(clock.log), [Reading(probe, z)] + signalled, EditReadings(edit, z));
    var deleted := store.Delete(id);
    s := Step(id, checkedAt, probe, typing, code, edit, deleted);
  }

  /**
    What holds after the candidates in `steps`: they were handled by the
    rules, the counters are their tally, and the two timers are the ones
    the steps left.
  */
  predicate Swept(steps: seq<Step>, chat: int, last: int, counters: Counters, run: Run) {
    && Handled(steps, run)
    && counters == Tally(steps)
    && chat == ChatStart(steps) && last == LastRequest(steps)
  }

  /** One more handled candidate, with the counters and timers it left, keeps `Swept`. */
  lemma SweptExtend(steps: seq<Step>, s: Step, chat: int, last: int, counters: Counters,
                    chat': int, last': int, counters': Counters, run: Run)
    requires Swept(steps, chat, last, counters, run)
    requires NextHandled(steps, s, run)
    requires counters' == Count(counters, s) && chat' == ChatAfter(s, chat) && last' == LastAfter(s, last)
    ensures Swept(steps + [s], chat', last', counters', run)
    ensures StoreAfter(run.records, steps + [s]) ==
            if s.deleted then StoreAfter(run.records, steps) - {s.id} else StoreAfter(run.records, steps)
    ensures Slept(steps + [s]) == Slept(steps) + EditSlept(s.edit)
  {
    HandledExtend(steps, s, run);
    TraceAppend(run.records, steps, s);
  }

  /** The readings of the first `k` candidates open the readings of the whole trace. */
  lemma {:induction false} TracePrefix(steps: seq<Step>, z: nat, k: nat)
    requires k <= |steps|
    ensures TraceReadings(steps[..k], z) <= TraceReadings(steps, z)
    decreases |steps|
  {
    if k < |steps| {
      var init := steps[..|steps| - 1];
      TracePrefix(init, z, k);
      assert init[..k] == steps[..k];
    } else {
      assert steps[..k] == steps;
    }
  }

  /**
    The clock log after one more step, with `n` the seconds slept before it:
    the deadline check's reading, then the visit's.
  */
  lemma StepLog(log: seq<Reading>, steps: seq<Step>, s: Step, z: nat, n: nat)
    requires n == z + Slept(steps)
    ensures log + TraceReadings(steps, z) + [Reading(s.checkedAt, n)] + VisitReadings(s, n) ==
            log + TraceReadings(steps + [s], z)
  {
    assert (steps + [s])[..|steps|] == steps;
    var checked := [Reading(s.checkedAt, n)];
    var visit := VisitReadings(s, n);
    calc {
      log + TraceReadings(steps + [s], z);
      log + (TraceReadings(steps, z) + (checked + visit));
      { AppendAssoc(TraceReadings(steps, z), checked, visit);
        AppendAssoc(log, TraceReadings(steps, z), checked + visit);
        AppendAssoc(log, TraceReadings(steps, z) + checked, visit); }
      log + TraceReadings(steps, z) + checked + visit;
    }
  }

  /**
    One pass of the loop body after the deadline check read `t`: handles
    the next candidate and bumps the counters by its outcome. `z` is the
    seconds slept before the sweep.
  */
  method Advance(run: Run, store: SessionStore, clock: Clock, t: int, ghost log: seq<Reading>, ghost z: nat,
                 steps: seq<Step>, chat: int, last: int, counters: Counters)
    returns (steps': seq<Step>, chat': int, last': int, counters': Counters)
    requires |steps| < |run.candidates| && run.start <= t < run.start + run.timelimit && t == clock.now
    requires clock.slept == z + Slept(steps)
    requires clock.log == log + TraceReadings(steps, z) + [Reading(t, z + Slept(steps))]
    requires steps != [] ==> t >= Finish(steps[|steps| - 1])
    requires Swept(steps, chat, last, counters, run) && store.deleteOk == run.deleteOk
    requires store.records == StoreAfter(run.records, steps) && store.deletes == run.deletes + |steps|
    requires clock.Valid()
    modifies store, clock
    ensures clock.Valid()
    ensures Swept(steps', chat', last', counters', run)
    ensures store.records == StoreAfter(run.records, steps') && store.deletes == run.deletes + |steps'|
    ensures |steps'| == |steps| + 1 && steps' == steps + [steps'[|steps|]] && steps'[|steps|].checkedAt == t
    ensures clock.log == log + TraceReadings(steps', z) && clock.slept == z + Slept(steps')
    ensures clock.now == Finish(steps'[|steps|]) >= t
  {
    var i := |steps|;
    var s;
    ghost var n := clock.slept;
    ghost var checked := clock.log;
    assert checked == log + TraceReadings(steps, z) + [Reading(t, n)];
    s, chat', last' := Visit(run.candidates[i], i, t, store, clock, run.runnable, run.editOk, chat, last,
                             StoreAfter(run.records, steps), run.deletes + i);
    counters' := Count(counters, s);
    assert StepFollows(s, StoreAfter(run.records, steps), run.runnable, run.editOk(i), run.deleteOk(run.deletes + i),
                       ChatStart(steps), LastRequest(steps));
    SweptExtend(steps, s, chat, last, counters, chat', last', counters', run);
    assert clock.log == checked + VisitReadings(s, n);
    StepLog(log, steps, s, z, n);
    steps' := steps + [s];
  }

  /**
    One pass of the `foreach`: the deadline check, then, if it read a time
    before `start + timelimit`, the next candidate.
  */
  method Turn(run: Run, store: SessionStore, clock: Clock, ghost log: seq<Reading>, ghost z: nat,
              steps: seq<Step>, chat: int, last: int, counters: Counters)
    returns (steps': seq<Step>, stop: Stop, chat': int, last': int, counters': Counters)
    requires |steps| < |run.candidates| && run.start <= clock.now && clock.Valid()
    requires clock.log == log + TraceReadings(steps, z) && clock.slept == z + Slept(steps)
    requires steps != [] ==> clock.now == Finish(steps[|steps| - 1])
    requires Swept(steps, chat, last, counters, run) && store.deleteOk == run.deleteOk
    requires store.records == StoreAfter(run.records, steps) && store.deletes == run.deletes + |steps|
    modifies store, clock
    ensures clock.Valid()
    ensures Swept(steps', chat', last', counters', run)
    ensures store.records == StoreAfter(run.records, steps') && store.deletes == run.deletes + |steps'|
    ensures clock.slept == z + Slept(steps') && clock.now >= old(clock.now)
    ensures stop.Exhausted? ==> |steps'| == |steps| + 1 && clock.log == log + TraceReadings(steps', z) &&
                                clock.now == Finish(steps'[|steps|])
    ensures stop.Deadline? ==> steps' == steps && stop.at >= run.start + run.timelimit && stop.at == clock.now &&
                               clock.log == log + SweepReadings(steps, stop, z)
  {
    var t := clock.Time();
    if t >= run.start + run.timelimit {
      stop := Deadline(t);
      AppendAssoc(log, TraceReadings(steps, z), [Reading(t, z + Slept(steps))]);
      steps', chat', last', counters' := steps, chat, last, counters;
    } else {
      stop := Exhausted;
      steps', chat', last', counters' := Advance(run, store, clock, t, log, z, steps, chat, last, counters);
    }
  }

  /**
    The `foreach` over the candidates of `run`, whose records and delete
    count are the store's before it; `log` and `z` are the clock's. `chat`
    and `last` are the timers it leaves.
  */
  method SweepLoop(run: Run, store: SessionStore, clock: Clock, ghost log: seq<Reading>, ghost z: nat)
    returns (steps: seq<Step>, stop: Stop, counters: Counters, chat: int, last: int)
    requires run.start <= clock.now && clock.Valid() && store.deleteOk == run.deleteOk
    requires store.records == run.records && store.deletes == run.deletes && clock.log == log && clock.slept == z
    modifies store, clock
    ensures clock.Valid()
    ensures Swept(steps, chat, last, counters, run)
    ensures stop.Exhausted? <==> |steps| == |run.candidates|
    ensures stop.Deadline? ==> stop.at >= run.start + run.timelimit && stop.at == clock.now
    ensures stop.Deadline? && steps != [] ==> stop.at >= Finish(steps[|steps| - 1])
    ensures clock.log == log + SweepReadings(steps, stop, z) && clock.slept == z + Slept(steps)
    ensures store.records == StoreAfter(run.records, steps) && store.deletes == run.deletes + |steps|
    ensures clock.now >= old(clock.now)
  {
    chat := 0;
    last := 0;
    counters := Counters(0, 0, 0);
    steps := [];
    stop := Exhausted;
    while |steps| < |run.candidates|
      invariant clock.Valid()
      invariant store.records == StoreAfter(run.records, steps) && store.deletes == run.deletes + |steps|
      invariant Swept(steps, chat, last, counters, run)
      invariant clock.now >= run.start && clock.now >= old(clock.now)
      invariant clock.log == log + TraceReadings(steps, z) && clock.slept == z + Slept(steps)
      invariant steps != [] ==> clock.now == Finish(steps[|steps| - 1])
      invariant stop == Exhausted
      decreases |run.candidates| - |steps|
    {
      ghost var now := clock.now;
      steps, stop, chat, last, counters := Turn(run, store, clock, log, z, steps, chat, last, counters);
      if stop.Deadline? {
        assert stop.at >= now;
        break;
      }
    }
    assert stop.Exhausted? ==> TraceReadings(steps, z) + [] == TraceReadings(steps, z);
  }

  /**
    The sweep of the stale sessions. `start` is `$start_time`, `timelimit`
    the seconds allowed; `editOk(k)` is the outcome of the edit for the k-th
    candidate. Stops before the first candidate whose deadline check reads
    `start + timelimit` or later.
  */
  method Sweep(candidates: seq<Id>, store: SessionStore, clock: Clock, runnable: set<GameCode>,
               editOk: nat -> bool, timelimit: int, start: int)
    returns (steps: seq<Step>, stop: Stop, counters: Counters)
    requires start <= clock.now
    requires clock.Valid()
    modifies store, clock
    ensures clock.Valid()
    ensures Handled(steps, Run(candidates, old(store.records), runnable, editOk, store.deleteOk,
                               old(store.deletes), start, timelimit))
    ensures stop.Exhausted? <==> |steps| == |candidates|
    ensures stop.Deadline? ==> stop.at >= start + timelimit && stop.at == clock.now
    ensures stop.Deadline? && steps != [] ==> stop.at >= Finish(steps[|steps| - 1])
    ensures clock.log == old(clock.log) + SweepReadings(steps, stop, old(clock.slept))
    ensures clock.slept == old(clock.slept) + Slept(steps)
    ensures store.records == StoreAfter(old(store.records), steps)
    ensures store.deletes == old(store.deletes) + |steps|
    ensures counters == Tally(steps)
    ensures Paced(steps, start)
    ensures timelimit <= 0 ==> steps == [] && store.records == old(store.records)
    ensures clock.now >= old(clock.now)
  {
    var run := Run(candidates, store.records, runnable, editOk, store.deleteOk, store.deletes, start, timelimit);
    var chat, last;
    steps, stop, counters, chat, last := SweepLoop(run, store, clock, clock.log, clock.slept);
    HandledIsPaced(steps, run);
    if steps != [] {
      HandledAt(steps, run, 0);
    }
  }

  // ---------------------------------------------------------------------------
  // What the counters and the store mean.

  predicate Deleted(s: Step) { s.deleted }
  predicate EditedOk(s: Step) { s.edit.Attempted? && s.edit.ok }
  predicate EditFailed(s: Step) { s.edit.Attempted? && !s.edit.ok }
  predicate EditMade(s: Step) { s.edit.Attempted? }

  /** The positions of the steps with property `p`. */
  function Indices(steps: seq<Step>, p: Step -> bool): set<nat> {
    set k: nat | k < |steps| && p(steps[k])
  }

  lemma IndicesAppend(steps: seq<Step>, s: Step, p: Step -> bool)
    ensures |Indices(steps + [s], p)| == |Indices(steps, p)| + if p(s) then 1 else 0
  {
    var n := steps + [s];
    var old_ := Indices(steps, p);
    var new_ := Indices(n, p);
    assert forall k :: 0 <= k < |steps| ==> n[k] == steps[k];
    if p(s) {
      assert new_ == old_ + {|steps|};
    } else {
      assert new_ == old_;
    }
  }

  /** Each counter is the number of steps with its outcome: `$cleaned++` exactly when a delete succeeded. */
  lemma {:induction false} TallyCounts(steps: seq<Step>)
    ensures Tally(steps).cleaned == |Indices(steps, Deleted)|
    ensures Tally(steps).edited == |Indices(steps, EditedOk)|
    ensures Tally(steps).errored == |Indices(steps, EditFailed)|
    ensures Tally(steps).edited + Tally(steps).errored == |Indices(steps, EditMade)|
    decreases |steps|
  {
    if steps == [] {
      assert Indices(steps, Deleted) == {};
      assert Indices(steps, EditedOk) == {};
      assert Indices(steps, EditFailed) == {};
      assert Indices(steps, EditMade) == {};
    } else {
      var init := steps[..|steps| - 1];
      var s := steps[|steps| - 1];
      assert steps == init + [s];
      TallyCounts(init);
      IndicesAppend(init, s, Deleted);
      IndicesAppend(init, s, EditedOk);
      IndicesAppend(init, s, EditFailed);
      IndicesAppend(init, s, EditMade);
    }
  }

  /** At most one clean and at most one edit outcome per handled candidate. */
  lemma {:induction false} TallyBounds(steps: seq<Step>)
    ensures Tally(steps).cleaned <= |steps|
    ensures Tally(steps).edited + Tally(steps).errored <= |steps|
    decreases |steps|
  {
    if steps != [] {
      TallyBounds(steps[..|steps| - 1]);
    }
  }

  /** The ids of the steps whose delete succeeded. */
  function DeletedIds(steps: seq<Step>): set<Id> {
    set k | 0 <= k < |steps| && steps[k].deleted :: steps[k].id
  }

  /** The store after the sweep is the one before, less the sessions whose delete succeeded. */
  lemma {:induction false} StoreAfterRemoves(records: map<Id, Option<GameCode>>, steps: seq<Step>)
    ensures StoreAfter(records, steps) == records - DeletedIds(steps)
    decreases |steps|
  {
    if steps == [] {
      assert DeletedIds(steps) == {};
    } else {
      var init := steps[..|steps| - 1];
      var s := steps[|steps| - 1];
      StoreAfterRemoves(records, init);
      assert DeletedIds(steps) == DeletedIds(init) + (if s.deleted then {s.id} else {}) by {
        forall k | 0 <= k < |init| ensures init[k] == steps[k] { }
      }
    }
  }

  /**
    Edits go exactly to the stored games that can run: a record without a
    code, or whose game cannot run, is deleted without an edit (and so
    without an error).
  */
  lemma EditsOnlyForRunnable(steps: seq<Step>, run: Run)
    requires Handled(steps, run)
    ensures forall k :: 0 <= k < |steps| ==>
              (k in Indices(steps, EditMade) <==> steps[k].code.Some? && steps[k].code.value in run.runnable)
  {
    forall k | 0 <= k < |steps|
      ensures k in Indices(steps, EditMade) <==> steps[k].code.Some? && steps[k].code.value in run.runnable
    {
      HandledAt(steps, run, k);
    }
  }

  /** Each candidate's deadline check comes after every clock reading of the candidates handled before it. */
  lemma {:induction false} ChecksFollow(steps: seq<Step>, run: Run, i: nat, j: nat)
    requires Handled(steps, run)
    requires i < j < |steps|
    ensures steps[j].checkedAt >= Finish(steps[i])
    decreases j
  {
    HandledAt(steps, run, j);
    if i < j - 1 {
      ChecksFollow(steps, run, i, j - 1);
      HandledAt(steps, run, j - 1);
    }
  }

  /**
    `if (time() >= $start_time + $timelimit) break;`: when a later candidate
    was handled, every reading taken for candidate `i` came before the
    deadline. Once a candidate's handling reads the deadline or later, the
    sweep handles no other.
  */
  lemma LateFinishEndsSweep(steps: seq<Step>, run: Run, i: nat, j: nat)
    requires Handled(steps, run)
    requires i < j < |steps|
    ensures Finish(steps[i]) < run.start + run.timelimit
  {
    ChecksFollow(steps, run, i, j);
    HandledAt(steps, run, j);
  }

  /** A session removed earlier in the sweep is found without a code later on, so it is never edited again. */
  lemma RemovedSessionNotEditedAgain(steps: seq<Step>, run: Run, i: nat, j: nat)
    requires Handled(steps, run)
    requires i < j < |steps| && steps[i].id == steps[j].id && steps[i].deleted
    ensures steps[j].code.None? && steps[j].edit.NotAttempted?
  {
    var before := steps[..j];
    StoreAfterRemoves(run.records, before);
    assert before[i] == steps[i];
    assert steps[i].id in DeletedIds(before);
    HandledAt(steps, run, j);
  }
}
