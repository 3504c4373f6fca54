/**
  The `/clean` admin command: resolve the staleness threshold, sweep the
  stale game sessions it selects within the time limit, clear old temporary
  files and report what was done.
*/
module CleanCommand {
  import opened Wrappers
  import opened Texts
  import opened Environment
  import opened Threshold
  import opened SessionSweep
  import opened TempJanitor

  /** The texts of the incoming message and of an edited message, as the update carries them. */
  datatype Update = Update(message: Option<string>, edited: Option<string>)

  /** The command text: the edited message wins over the original one. */
  function CommandText(u: Update): (t: Option<string>)
    ensures u.edited.Some? ==> t == u.edited
    ensures u.edited.None? ==> t == u.message
  {
    if u.edited.Some? then u.edited else u.message
  }

  /** The outcome of one run: what the sweep did and the messages sent to the admin's chat. */
  datatype Report = Report(interval: PhpValue, timelimit: int, start: int, candidates: seq<Id>,
                           steps: seq<Step>, stop: Stop, counters: Counters,
                           removed: nat, verdicts: seq<Verdict>, replies: seq<string>)

  /** `$timelimit = ini_get('max_execution_time') - 1`, with `ceiling` the limit in force. */
  function TimeLimit(ceiling: int): int { ceiling - 1 }

  /**
    `execute()`. `config` is the `clean_interval` setting; `listing` stands
    for `listFromStorage`, which picks the stale sessions for a threshold,
    and is only consulted when the storage class exists; `ceiling` is the
    `max_execution_time` in force (90 once `set_time_limit(90)` took effect);
    `tmp` is the listing of the temporary directory, `None` when there is
    none; `editOk` and `unlinkOk` give the outcomes of the edit and unlink
    calls.
  */
  method Execute(update: Update, config: PhpValue, storageExists: bool, listing: PhpValue -> seq<Id>,
                 ceiling: int, store: SessionStore, clock: Clock, runnable: set<GameCode>,
                 editOk: nat -> bool, tmp: Option<seq<Entry>>, unlinkOk: nat -> bool)
    returns (r: Report)
    requires clock.Valid()
    modifies store, clock
    ensures clock.Valid()
    ensures r.interval == ResolveInterval(CommandText(update), config)
    ensures r.timelimit == TimeLimit(ceiling)
    ensures r.start == old(clock.now) + clock.drift(old(clock.readings)) && r.start >= old(clock.now)
    ensures r.candidates == if storageExists then listing(r.interval) else []
    ensures Handled(r.steps, Run(r.candidates, old(store.records), runnable, editOk, store.deleteOk,
                                 old(store.deletes), r.start, r.timelimit))
    ensures r.stop.Exhausted? <==> |r.steps| == |r.candidates|
    ensures r.stop.Deadline? ==> r.stop.at >= r.start + r.timelimit
    ensures r.stop.Deadline? && r.steps != [] ==> r.stop.at >= Finish(r.steps[|r.steps| - 1])
    ensures clock.log == old(clock.log) + [Reading(r.start, old(clock.slept))] +
                         SweepReadings(r.steps, r.stop, old(clock.slept)) +
                         TempReadings(r.verdicts, clock.slept)
    ensures clock.slept == old(clock.slept) + Slept(r.steps)
    ensures store.records == StoreAfter(old(store.records), r.steps)
    ensures store.deletes == old(store.deletes) + |r.steps|
    ensures r.counters == Tally(r.steps)
    ensures Paced(r.steps, r.start)
    ensures ceiling <= 1 ==> r.steps == [] && store.records == old(store.records)
    ensures r.removed == CountRemoved(r.verdicts)
    ensures tmp.None? ==> r.removed == 0 && r.verdicts == []
    ensures tmp.Some? ==> |r.verdicts| == |tmp.value| &&
                          Judged(tmp.value, r.verdicts, unlinkOk, r.start - StaleAge, clock.now - StaleAge)
    ensures r.replies ==
            [ExecutingText(r.timelimit)] +
            if CommandText(update).Some?
            then [SummaryText(Summary(r.counters.cleaned, r.counters.edited, r.counters.errored, r.removed))]
            else []
  {
    var text := CommandText(update);
    var interval := ResolveInterval(text, config);
    var candidates := if storageExists then listing(interval) else [];
    var timelimit := TimeLimit(ceiling);
    ghost var z := clock.slept;
    var start := clock.Time();
    ghost var started := clock.log;
    assert started == old(clock.log) + [Reading(start, z)];
    var replies := [ExecutingText(timelimit)];
    var steps, stop, counters := Sweep(candidates, store, clock, runnable, editOk, timelimit, start);
    assert stop.Deadline? && steps != [] ==> stop.at >= Finish(steps[|steps| - 1]);
    ghost var swept := clock.log;
    ghost var napped := clock.slept;
    assert swept == started + SweepReadings(steps, stop, z) && napped == z + Slept(steps);
    var removed, verdicts := TempSweep(tmp, clock, unlinkOk);
    assert clock.log == swept + TempReadings(verdicts, napped);
    assert clock.log == old(clock.log) + [Reading(start, z)] + SweepReadings(steps, stop, z) +
                        TempReadings(verdicts, napped);
    replies := replies +
               if text.Some?
               then [SummaryText(Summary(counters.cleaned, counters.edited, counters.errored, removed))]
               else [];
    r := Report(interval, timelimit, start, candidates, steps, stop, counters, removed, verdicts, replies);
  }
}
