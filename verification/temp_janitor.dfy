/**
  The clean-up of the bot's temporary directory: every plain file (not a
  directory, not "." or "..") last modified more than a minute before the
  moment it is looked at is unlinked, and the successful unlinks are counted.
*/
module TempJanitor {
  import opened Wrappers
  import opened Environment

  /** Seconds a temporary file must be older than to be removed: `strtotime('-1 minute')`. */
  const StaleAge: int := 60

  /** One entry of the directory listing, with its modification time. */
  datatype Entry = Entry(name: string, isDir: bool, isDot: bool, mtime: int)

  /**
    What became of one entry: skipped as a directory or dot entry, or
    compared with the cutoff `time() - 60` read for it and then found fresh,
    kept because the unlink failed, or removed.
  */
  datatype Verdict = Skipped | Fresh(cutoff: int) | Kept(cutoff: int) | Removed(cutoff: int)

  predicate IsFile(e: Entry) { !e.isDir && !e.isDot }

  /** The rule for one entry, given the outcome its unlink would have. */
  predicate VerdictFollows(e: Entry, v: Verdict, unlinkOk: bool) {
    match v
    case Skipped => !IsFile(e)
    case Fresh(c) => IsFile(e) && e.mtime >= c
    case Kept(c) => IsFile(e) && e.mtime < c && !unlinkOk
    case Removed(c) => IsFile(e) && e.mtime < c && unlinkOk
  }

  /** The entries judged so far, each by the rule, with every cutoff within `[lo, hi]`. */
  predicate Judged(entries: seq<Entry>, verdicts: seq<Verdict>, unlinkOk: nat -> bool, lo: int, hi: int) {
    && |verdicts| <= |entries|
    && (forall k :: 0 <= k < |verdicts| ==> VerdictFollows(entries[k], verdicts[k], unlinkOk(k)))
    && (forall k :: 0 <= k < |verdicts| && !verdicts[k].Skipped? ==> lo <= verdicts[k].cutoff <= hi)
  }

  /** The number of removed entries. */
  function CountRemoved(verdicts: seq<Verdict>): nat
    decreases |verdicts|
  {
    if verdicts == [] then 0
    else CountRemoved(verdicts[..|verdicts| - 1]) + if verdicts[|verdicts| - 1].Removed? then 1 else 0
  }

  lemma CountRemovedAppend(verdicts: seq<Verdict>, v: Verdict)
    ensures CountRemoved(verdicts + [v]) == CountRemoved(verdicts) + if v.Removed? then 1 else 0
  {
    assert (verdicts + [v])[..|verdicts|] == verdicts;
  }

  /**
    The clock readings the sweep took, with `z` seconds slept before it and
    none during it: one `time()` per plain file, from which its cutoff was
    computed.
  */
  function TempReadings(verdicts: seq<Verdict>, z: nat): seq<Reading>
    decreases |verdicts|
  {
    if verdicts == [] then []
    else
      var v := verdicts[|verdicts| - 1];
      TempReadings(verdicts[..|verdicts| - 1], z) + if v.Skipped? then [] else [Reading(v.cutoff + StaleAge, z)]
  }

  lemma TempReadingsAppend(verdicts: seq<Verdict>, v: Verdict, z: nat)
    ensures TempReadings(verdicts + [v], z) ==
            TempReadings(verdicts, z) + if v.Skipped? then [] else [Reading(v.cutoff + StaleAge, z)]
  {
    assert (verdicts + [v])[..|verdicts|] == verdicts;
  }

  /**
    The sweep of the temporary directory, `None` when it does not exist.
    `unlinkOk(k)` is the outcome `unlink()` would have for the k-th entry.
  */
  method TempSweep(dir: Option<seq<Entry>>, clock: Clock, unlinkOk: nat -> bool)
    returns (removed: nat, verdicts: seq<Verdict>)
    requires clock.Valid()
    modifies clock
    ensures clock.Valid()
    ensures dir.None? ==> removed == 0 && verdicts == []
    ensures dir.Some? ==>
              (|verdicts| == |dir.value| &&
               Judged(dir.value, verdicts, unlinkOk, old(clock.now) - StaleAge, clock.now - StaleAge))
    ensures removed == CountRemoved(verdicts)
    ensures clock.log == old(clock.log) + TempReadings(verdicts, old(clock.slept)) && clock.slept == old(clock.slept)
    ensures clock.now >= old(clock.now)
  {
    ghost var z := clock.slept;
    removed := 0;
    verdicts := [];
    if dir.Some? {
      var entries := dir.value;
      while |verdicts| < |entries|
        invariant clock.Valid()
        invariant Judged(entries, verdicts, unlinkOk, old(clock.now) - StaleAge, clock.now - StaleAge)
        invariant removed == CountRemoved(verdicts)
        invariant clock.log == old(clock.log) + TempReadings(verdicts, z) && clock.slept == z
        invariant clock.now >= old(clock.now)
        decreases |entries| - |verdicts|
      {
        var k := |verdicts|;
        var e := entries[k];
        var v := Skipped;
        ghost var before := clock.log;
        if !e.isDir && !e.isDot {
          var t := clock.Time();
          var cutoff := t - StaleAge;
          if e.mtime < cutoff {
            if unlinkOk(k) {
              removed := removed + 1;
              v := Removed(cutoff);
            } else {
              v := Kept(cutoff);
            }
          } else {
            v := Fresh(cutoff);
          }
        }
        ghost var read := if v.Skipped? then [] else [Reading(v.cutoff + StaleAge, z)];
        assert clock.log == before + read;
        CountRemovedAppend(verdicts, v);
        TempReadingsAppend(verdicts, v, z);
        AppendAssoc(old(clock.log), TempReadings(verdicts, z), read);
        verdicts := verdicts + [v];
      }
    }
  }

  /** Only plain files are removed, so `$removed` never exceeds the number of entries. */
  lemma {:induction false} RemovedAreFiles(entries: seq<Entry>, verdicts: seq<Verdict>, unlinkOk: nat -> bool,
                                           lo: int, hi: int)
    requires Judged(entries, verdicts, unlinkOk, lo, hi)
    ensures CountRemoved(verdicts) <= |verdicts| <= |entries|
    ensures forall k :: 0 <= k < |verdicts| && verdicts[k].Removed? ==>
              IsFile(entries[k]) && unlinkOk(k) && entries[k].mtime < hi
    decreases |verdicts|
  {
    if verdicts != [] {
      RemovedAreFiles(entries, verdicts[..|verdicts| - 1], unlinkOk, lo, hi);
    }
  }

  /**
    A plain file already stale when the sweep began is removed whenever its
    unlink succeeds; a file modified within the last minute before the
    sweep ended is never removed.
  */
  lemma StaleFilesGo(entries: seq<Entry>, verdicts: seq<Verdict>, unlinkOk: nat -> bool, lo: int, hi: int, k: nat)
    requires Judged(entries, verdicts, unlinkOk, lo, hi) && k < |verdicts|
    ensures IsFile(entries[k]) && entries[k].mtime < lo && unlinkOk(k) ==> verdicts[k].Removed?
    ensures entries[k].mtime >= hi ==> !verdicts[k].Removed?
  {
    assert VerdictFollows(entries[k], verdicts[k], unlinkOk(k));
  }
}
