/** Recording while windows are being sampled (profiling/src/lib.rs). A snapshot locks one
    shard after another, so recordings fall between its reads; every step here takes one
    lock. The log and the cuts are history: when each recording and each read happened. */
module CounterWindows {
  import opened Counters

  datatype Event = Event(key: nat, name: string, units: nat)

  /** The shards read so far, and how long the log was at each read. */
  datatype Snapshot = Snapshot(values: Units, cuts: seq<nat>)

  datatype Window = Window(before: Snapshot, after: Snapshot)

  datatype Phase =
    | Idle
    | ReadingBefore(partial: Snapshot)
    | Sampling(before: Snapshot)
    | ReadingAfter(before: Snapshot, partial: Snapshot)

  datatype State = State(table: Table, phase: Phase, windows: seq<Window>, log: seq<Event>)

  const NOTHING := Snapshot(map[], [])

  function ReadShard(s: Snapshot, table: Table, now: nat): Snapshot {
    var shard := map key | key in table && key % SHARD_COUNT == |s.cuts| :: table[key].units;
    Snapshot(s.values + shard, s.cuts + [now])
  }

  // ----- Steps -----

  predicate Init(s: State) {
    s == State(map[], Idle, [], [])
  }

  ghost predicate RecordStep(s: State, s': State) {
    exists e: Event :: 0 < e.units <= MAX_U64 && s' == s.(table := Recorded(s.table, e.key, e.name, e.units), log := s.log + [e])
  }

  predicate SamplerStep(s: State, s': State) {
    match s.phase
    case Idle => s' == s.(phase := ReadingBefore(NOTHING))
    case ReadingBefore(partial) =>
      if |partial.cuts| < SHARD_COUNT then s' == s.(phase := ReadingBefore(ReadShard(partial, s.table, |s.log|)))
      else s' == s.(phase := Sampling(partial))
    case Sampling(before) =>
      s' == s.(phase := ReadingAfter(before, NOTHING)) || s' == s.(phase := Idle)
    case ReadingAfter(before, partial) =>
      if |partial.cuts| < SHARD_COUNT then s' == s.(phase := ReadingAfter(before, ReadShard(partial, s.table, |s.log|)))
      else s' == s.(phase := Idle, windows := s.windows + [Window(before, partial)])
  }

  ghost predicate Next(s: State, s': State) {
    RecordStep(s, s') || SamplerStep(s, s')
  }

  ghost predicate StepTo(run: seq<State>, i: nat) {
    0 < i < |run| && Next(run[i - 1], run[i])
  }

  ghost predicate IsRun(run: seq<State>) {
    run != [] && Init(run[0]) && forall i :: 0 < i < |run| ==> StepTo(run, i)
  }

  // ----- What was recorded -----

  /** All units recorded for a key, without saturation. */
  function Total(log: seq<Event>, key: nat): nat {
    if log == [] then 0
    else
      var last := log[|log| - 1];
      Total(log[..|log| - 1], key) + if last.key == key then last.units else 0
  }

  function TotalAt(log: seq<Event>, cut: nat, key: nat): nat {
    if cut <= |log| then Total(log[..cut], key) else 0
  }

  lemma TotalAppend(log: seq<Event>, e: Event)
    ensures forall key: nat :: Total(log + [e], key) == Total(log, key) + if e.key == key then e.units else 0
    ensures forall cut: nat, key: nat :: cut <= |log| ==> TotalAt(log + [e], cut, key) == TotalAt(log, cut, key)
  {
    assert (log + [e])[..|log|] == log;
    forall cut: nat, key: nat | cut <= |log|
      ensures TotalAt(log + [e], cut, key) == TotalAt(log, cut, key)
    {
      assert (log + [e])[..cut] == log[..cut];
    }
  }

  lemma {:induction false} TotalMonotone(log: seq<Event>, i: nat, j: nat, key: nat)
    requires i <= j <= |log|
    ensures TotalAt(log, i, key) <= TotalAt(log, j, key)
  {
    if i < j {
      assert log[..j][..j - 1] == log[..j - 1];
      TotalMonotone(log, i, j - 1, key);
    }
  }

  // ----- The invariant -----

  function Value(values: Units, key: nat): nat {
    if key in values then values[key] else 0
  }

  function Cut(s: Snapshot, key: nat): nat {
    if key % SHARD_COUNT < |s.cuts| then s.cuts[key % SHARD_COUNT] else 0
  }

  /** Every value read is what had been recorded when its shard was read. */
  ghost predicate SnapshotOk(s: Snapshot, log: seq<Event>) {
    && |s.cuts| <= SHARD_COUNT
    && (forall i :: 0 <= i < |s.cuts| ==> s.cuts[i] <= |log|)
    && (forall key: nat :: key % SHARD_COUNT < |s.cuts| ==> Value(s.values, key) == Saturated(TotalAt(log, Cut(s, key), key)))
    && (forall key: nat :: key in s.values ==> key % SHARD_COUNT < |s.cuts|)
  }

  /** Wherever both have read a shard, `a` read it no later than `b`. */
  ghost predicate NotAfter(a: Snapshot, b: Snapshot) {
    forall i :: 0 <= i < |a.cuts| && i < |b.cuts| ==> a.cuts[i] <= b.cuts[i]
  }

  ghost predicate TableOk(table: Table, log: seq<Event>) {
    forall key: nat :: Value(UnitsOf(table), key) == Saturated(Total(log, key))
  }

  ghost predicate WindowOk(w: Window, log: seq<Event>) {
    && SnapshotOk(w.before, log) && SnapshotOk(w.after, log)
    && |w.before.cuts| == |w.after.cuts| == SHARD_COUNT
    && NotAfter(w.before, w.after)
  }

  /** The snapshot being read comes after every finished window. */
  ghost predicate Follows(windows: seq<Window>, s: Snapshot) {
    forall i :: 0 <= i < |windows| ==> NotAfter(windows[i].after, s)
  }

  ghost predicate PhaseOk(s: State) {
    match s.phase
    case Idle => true
    case ReadingBefore(partial) => SnapshotOk(partial, s.log) && Follows(s.windows, partial)
    case Sampling(before) => SnapshotOk(before, s.log) && Follows(s.windows, before) && |before.cuts| == SHARD_COUNT
    case ReadingAfter(before, partial) =>
      && SnapshotOk(before, s.log) && Follows(s.windows, before) && |before.cuts| == SHARD_COUNT
      && SnapshotOk(partial, s.log) && NotAfter(before, partial)
  }

  ghost predicate InOrder(windows: seq<Window>) {
    forall i, j :: 0 <= i < j < |windows| ==> NotAfter(windows[i].after, windows[j].before)
  }

  ghost predicate Inv(s: State) {
    && TableOk(s.table, s.log)
    && (forall i :: 0 <= i < |s.windows| ==> WindowOk(s.windows[i], s.log))
    && InOrder(s.windows)
    && PhaseOk(s)
  }

  lemma SnapshotKept(s: Snapshot, log: seq<Event>, e: Event)
    requires SnapshotOk(s, log)
    ensures SnapshotOk(s, log + [e])
  {
    TotalAppend(log, e);
    hide Total, TotalAt;
    forall key: nat | key % SHARD_COUNT < |s.cuts|
      ensures Value(s.values, key) == Saturated(TotalAt(log + [e], Cut(s, key), key))
    {
      assert Cut(s, key) <= |log|;
    }
  }

  lemma RecordKeepsInv(s: State, s': State)
    requires Inv(s) && RecordStep(s, s')
    ensures Inv(s')
  {
    var e: Event :| 0 < e.units <= MAX_U64 && s' == s.(table := Recorded(s.table, e.key, e.name, e.units), log := s.log + [e]);
    RecordedOk(s.table, s.log, e);
    forall i | 0 <= i < |s.windows|
      ensures WindowOk(s.windows[i], s'.log)
    {
      SnapshotKept(s.windows[i].before, s.log, e);
      SnapshotKept(s.windows[i].after, s.log, e);
    }
    match s.phase
    case Idle =>
    case ReadingBefore(partial) =>
      SnapshotKept(partial, s.log, e);
    case Sampling(before) =>
      SnapshotKept(before, s.log, e);
    case ReadingAfter(before, partial) =>
      SnapshotKept(before, s.log, e);
      SnapshotKept(partial, s.log, e);
  }

  lemma RecordedOk(table: Table, log: seq<Event>, e: Event)
    requires TableOk(table, log) && 0 < e.units <= MAX_U64
    ensures TableOk(Recorded(table, e.key, e.name, e.units), log + [e])
  {
    TotalAppend(log, e);
    var table' := Recorded(table, e.key, e.name, e.units);
    forall key: nat
      ensures Value(UnitsOf(table'), key) == Saturated(Total(log + [e], key))
    {
      assert Value(UnitsOf(table), key) == Saturated(Total(log, key));
      assert Total(log + [e], key) == Total(log, key) + if e.key == key then e.units else 0;
      hide Total;
    }
  }

  /** Reading the next shard now. */
  lemma ReadShardOk(s: Snapshot, table: Table, log: seq<Event>)
    requires SnapshotOk(s, log) && TableOk(table, log) && |s.cuts| < SHARD_COUNT
    ensures SnapshotOk(ReadShard(s, table, |log|), log)
  {
    var s' := ReadShard(s, table, |log|);
    assert log[..|log|] == log;
    forall key: nat | key % SHARD_COUNT < |s'.cuts|
      ensures Value(s'.values, key) == Saturated(TotalAt(log, Cut(s', key), key))
    {
      if key % SHARD_COUNT < |s.cuts| {
        assert Cut(s', key) == Cut(s, key);
        assert Value(s'.values, key) == Value(s.values, key);
      } else {
        assert Value(s'.values, key) == Value(UnitsOf(table), key);
        assert Cut(s', key) == |log|;
        assert TotalAt(log, |log|, key) == Total(log, key);
      }
    }
  }

  /** A read made now is not earlier than any read made before. */
  lemma ReadShardLater(a: Snapshot, s: Snapshot, table: Table, log: seq<Event>)
    requires SnapshotOk(a, log) && NotAfter(a, s)
    ensures NotAfter(a, ReadShard(s, table, |log|))
  {
    hide TotalAt;
  }

  lemma SamplerKeepsInv(s: State, s': State)
    requires Inv(s) && SamplerStep(s, s')
    ensures Inv(s')
  {
    hide ReadShard, SnapshotOk, NotAfter, TableOk;
    NothingOk(s.log);
    match s.phase
    case ReadingBefore(partial) =>
      if |partial.cuts| < SHARD_COUNT {
        ReadShardOk(partial, s.table, s.log);
        forall i | 0 <= i < |s.windows|
          ensures NotAfter(s.windows[i].after, ReadShard(partial, s.table, |s.log|))
        {
          assert WindowOk(s.windows[i], s.log);
          ReadShardLater(s.windows[i].after, partial, s.table, s.log);
        }
      } else {
        FullSnapshot(partial, s.log);
      }
    case ReadingAfter(before, partial) =>
      if |partial.cuts| < SHARD_COUNT {
        ReadShardOk(partial, s.table, s.log);
        ReadShardLater(before, partial, s.table, s.log);
      } else {
        FullSnapshot(partial, s.log);
        assert WindowOk(Window(before, partial), s.log);
      }
    case _ =>
  }

  lemma NothingOk(log: seq<Event>)
    ensures SnapshotOk(NOTHING, log) && forall a :: NotAfter(a, NOTHING)
  {
  }

  lemma FullSnapshot(s: Snapshot, log: seq<Event>)
    requires SnapshotOk(s, log) && |s.cuts| >= SHARD_COUNT
    ensures |s.cuts| == SHARD_COUNT
  {
  }

  lemma {:induction false} RunKeepsInv(run: seq<State>, i: nat)
    requires IsRun(run) && i < |run|
    ensures Inv(run[i])
  {
    if i > 0 {
      RunKeepsInv(run, i - 1);
      assert StepTo(run, i);
      if RecordStep(run[i - 1], run[i]) {
        RecordKeepsInv(run[i - 1], run[i]);
      } else {
        SamplerKeepsInv(run[i - 1], run[i]);
      }
    }
  }

  // ----- What the windows count -----

  /** The window's two reads of the event's shard lie on either side of the event. */
  predicate Counts(w: Window, log: seq<Event>, e: nat)
    requires e < |log|
  {
    Cut(w.before, log[e].key) <= e < Cut(w.after, log[e].key)
  }

  /** The units of a key recorded between the two reads of its shard. */
  function Counted(w: Window, log: seq<Event>, key: nat): int {
    TotalAt(log, Cut(w.after, key), key) - TotalAt(log, Cut(w.before, key), key)
  }

  /** In every run, no recording is counted in two windows. */
  lemma CountedOnce(run: seq<State>, i: nat, e: nat, a: nat, b: nat)
    requires IsRun(run) && i < |run| && e < |run[i].log| && a < |run[i].windows| && b < |run[i].windows|
    requires Counts(run[i].windows[a], run[i].log, e) && Counts(run[i].windows[b], run[i].log, e)
    ensures a == b
  {
    RunKeepsInv(run, i);
    WindowsApart(run[i], run[i].log[e].key);
  }

  /** A later window reads every shard no earlier than the one before it last did. */
  lemma WindowsApart(s: State, key: nat)
    requires Inv(s)
    ensures forall a, b :: 0 <= a < b < |s.windows| ==> Cut(s.windows[a].after, key) <= Cut(s.windows[b].before, key)
  {
    forall a, b | 0 <= a < b < |s.windows|
      ensures Cut(s.windows[a].after, key) <= Cut(s.windows[b].before, key)
    {
      assert WindowOk(s.windows[a], s.log) && WindowOk(s.windows[b], s.log);
      assert NotAfter(s.windows[a].after, s.windows[b].before);
    }
  }

  lemma WindowDelta(w: Window, log: seq<Event>, key: nat)
    requires WindowOk(w, log)
    ensures var early, late := TotalAt(log, Cut(w.before, key), key), TotalAt(log, Cut(w.after, key), key);
            && early <= late <= Total(log, key)
            && Delta(w.before.values, w.after.values, key) == Saturated(late) - Saturated(early)
  {
    var shard := key % SHARD_COUNT;
    assert w.before.cuts[shard] <= w.after.cuts[shard] <= |log|;
    TotalMonotone(log, Cut(w.before, key), Cut(w.after, key), key);
    TotalMonotone(log, Cut(w.after, key), |log|, key);
    assert log[..|log|] == log;
    assert Value(w.before.values, key) == Saturated(TotalAt(log, Cut(w.before, key), key));
    assert Value(w.after.values, key) == Saturated(TotalAt(log, Cut(w.after, key), key));
  }

  /** In every run, what a window reports for a key is at most what was recorded between
      its two reads, and exactly that as long as the counter has not saturated. */
  lemma WindowReportsCounted(run: seq<State>, i: nat, a: nat, key: nat)
    requires IsRun(run) && i < |run| && a < |run[i].windows|
    ensures var w, log := run[i].windows[a], run[i].log;
            && Delta(w.before.values, w.after.values, key) <= Counted(w, log, key)
            && (Total(log, key) <= MAX_U64 ==> Delta(w.before.values, w.after.values, key) == Counted(w, log, key))
  {
    RunKeepsInv(run, i);
    assert WindowOk(run[i].windows[a], run[i].log);
    hide WindowOk, TotalAt, Total;
    WindowDelta(run[i].windows[a], run[i].log, key);
  }

  function Reported(windows: seq<Window>, key: nat): nat {
    if windows == [] then 0
    else
      var last := windows[|windows| - 1];
      Reported(windows[..|windows| - 1], key) + Delta(last.before.values, last.after.values, key)
  }

  lemma {:induction false} ReportedBound(windows: seq<Window>, log: seq<Event>, key: nat)
    requires forall i :: 0 <= i < |windows| ==> WindowOk(windows[i], log)
    requires InOrder(windows)
    ensures Reported(windows, key) <= if windows == [] then 0 else Saturated(TotalAt(log, Cut(windows[|windows| - 1].after, key), key))
  {
    if windows != [] {
      hide TotalAt, Delta, SnapshotOk;
      var n := |windows| - 1;
      ReportedBound(windows[..n], log, key);
      WindowDelta(windows[n], log, key);
      if n > 0 {
        var shard := key % SHARD_COUNT;
        assert WindowOk(windows[n - 1], log) && WindowOk(windows[n], log);
        assert NotAfter(windows[n - 1].after, windows[n].before);
        assert windows[n - 1].after.cuts[shard] <= windows[n].before.cuts[shard];
        CutInLog(windows[n].before, log, key);
        TotalMonotone(log, Cut(windows[n - 1].after, key), Cut(windows[n].before, key), key);
      }
    }
  }

  lemma CutInLog(s: Snapshot, log: seq<Event>, key: nat)
    requires SnapshotOk(s, log)
    ensures Cut(s, key) <= |log|
  {
  }

  /** In every run, all windows together report no more for a key than its counter holds. */
  lemma WindowsReportAtMostTable(run: seq<State>, i: nat, key: nat)
    requires IsRun(run) && i < |run|
    ensures Reported(run[i].windows, key) <= Value(UnitsOf(run[i].table), key)
  {
    RunKeepsInv(run, i);
    var s := run[i];
    ReportedBound(s.windows, s.log, key);
    if s.windows != [] {
      var last := s.windows[|s.windows| - 1];
      assert WindowOk(last, s.log);
      WindowDelta(last, s.log, key);
    }
  }
}
