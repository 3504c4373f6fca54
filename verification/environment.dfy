/**
  The two pieces of outside state the clean command changes or observes
  step by step: the wall clock read by `time()` / `strtotime()` and
  advanced by `sleep()`, and the game-session storage.
*/
module Environment {
  import opened Wrappers
  import opened Texts

  /** The inline message id a game session is stored under. */
  type Id = string

  /** One clock reading, with the seconds slept in all before it was taken. */
  datatype Reading = Reading(at: int, slept: nat)

  /**
    The wall clock. Each reading sees the time that passed since the
    previous one, which `drift` supplies (network calls, storage work);
    `sleep($n)` lets exactly `n` seconds pass. `log` lists every reading
    taken, in order, and `slept` the seconds slept so far.
  */
  class Clock {
    var now: int
    var readings: nat
    ghost var log: seq<Reading>
    ghost var slept: nat
    const origin: int
    const drift: nat -> nat

    /** The time the first `n` readings saw pass through drift. */
    function Drifted(n: nat): int
      decreases n
    {
      if n == 0 then 0 else Drifted(n - 1) + drift(n - 1)
    }

    /** Every reading in `log` is the time the clock showed: its origin, the sleeps and the drift before it. */
    ghost predicate Valid()
      reads this
    {
      && readings == |log|
      && (forall k :: 0 <= k < |log| ==> log[k].at == origin + log[k].slept + Drifted(k + 1))
      && now == origin + slept + Drifted(readings)
    }

    constructor (start: int, drift: nat -> nat)
      ensures now == start && readings == 0 && log == [] && slept == 0 && this.drift == drift && origin == start
      ensures Valid()
    {
      now := start;
      readings := 0;
      log := [];
      slept := 0;
      origin := start;
      this.drift := drift;
    }

    /** `time()`: the clock never runs backwards. */
    method Time() returns (t: int)
      requires Valid()
      modifies this
      ensures Valid()
      ensures readings == old(readings) + 1
      ensures now == old(now) + drift(old(readings)) && t == now
      ensures t >= old(now) && log == old(log) + [Reading(t, slept)] && slept == old(slept)
    {
      ghost var n := readings;
      assert Drifted(n + 1) == Drifted(n) + drift(n);
      now := now + drift(readings);
      readings := readings + 1;
      t := now;
      log := log + [Reading(t, slept)];
      forall k | 0 <= k < |log|
        ensures log[k].at == origin + log[k].slept + Drifted(k + 1)
      {
        if k < n { assert log[k] == old(log)[k]; }
      }
    }

    /** `sleep($seconds)`. */
    method Sleep(seconds: nat)
      requires Valid()
      modifies this
      ensures Valid()
      ensures now == old(now) + seconds && readings == old(readings) && log == old(log)
      ensures slept == old(slept) + seconds
    {
      now := now + seconds;
      slept := slept + seconds;
    }
  }

  /** Readings appended in two goes are the readings appended at once. */
  lemma AppendAssoc<T>(a: seq<T>, b: seq<T>, c: seq<T>)
    ensures a + b + c == a + (b + c)
  {
  }

  /** The record stored for an id, reduced to its `game_code` (absent when not set). */
  function Lookup(records: map<Id, Option<GameCode>>, id: Id): Option<GameCode> {
    if id in records then records[id] else None
  }

  /**
    The storage backend: records keyed by id. Whether a delete succeeds is
    up to the backend; `deleteOk(k)` is the outcome of the k-th delete call.
  */
  class SessionStore {
    var records: map<Id, Option<GameCode>>
    var deletes: nat
    const deleteOk: nat -> bool

    constructor (records: map<Id, Option<GameCode>>, deleteOk: nat -> bool)
      ensures this.records == records && deletes == 0 && this.deleteOk == deleteOk
    {
      this.records := records;
      deletes := 0;
      this.deleteOk := deleteOk;
    }

    /** `selectFromStorage($id)['game_code']`: set only when the record exists and carries a code. */
    method Select(id: Id) returns (code: Option<GameCode>)
      ensures code.Some? <==> id in records && records[id].Some?
      ensures code.Some? ==> code.value == records[id].value
    {
      code := if id in records then records[id] else None;
    }

    /** `deleteFromStorage($id)`: on success the record is gone and nothing else changes. */
    method Delete(id: Id) returns (ok: bool)
      modifies this
      ensures ok == deleteOk(old(deletes)) && deletes == old(deletes) + 1
      ensures records == if ok then old(records) - {id} else old(records)
    {
      ok := deleteOk(deletes);
      if ok {
        records := records - {id};
      }
      deletes := deletes + 1;
    }
  }
}
