/**
 * Runs of the statistics: inserts, the clock, and the rollup workers of any number of nodes over one
 * log. A rollup is a query and, later, a transaction; any other step may come between.
 */
module RollupRuns {
  import opened Text
  import opened Hits
  import opened Rollup

  type Node = nat

  /**
   * What a rollup worker is about to do. now: the time it read when it began; todo: the hours it has
   * still to roll up; found: what its query delivered. at (when the query was made) and seen (how
   * much of the log it read) are history.
   */
  datatype Worker =
    | Idle
    | Ready(now: int, todo: seq<int>)
    | Queried(now: int, todo: seq<int>, found: map<Str, Stat>, at: int, seen: nat)

  /** covered is history: how much of the log the query behind each figure had read. */
  datatype State = State(
    log: seq<Row>, stats: Stats, clock: int, workers: map<Node, Worker>, covered: map<(Str, int), nat>)

  datatype Step =
    | Insert(entries: seq<LogEntry>)
    | Advance(clock: int)
    | Begin(n: Node)
    | Query(n: Node, found: map<Str, Stat>)
    | Commit(n: Node)
    | Fail(n: Node)
    | Restart(n: Node)

  function Stamped(entries: seq<LogEntry>, t: int): seq<Row> {
    seq(|entries|, i requires 0 <= i < |entries| => Row(entries[i], t))
  }

  ghost predicate Enabled(s: State, step: Step) {
    match step
    case Insert(_) => true
    case Advance(clock) => clock >= s.clock
    case Begin(n) => n in s.workers && s.workers[n] == Idle
    case Query(n, found) =>
      n in s.workers && s.workers[n].Ready? && s.workers[n].todo != [] && IsQuery(found, s.log, s.workers[n].todo[0])
    case Commit(n) => n in s.workers && s.workers[n].Queried? && s.workers[n].todo != []
    case Fail(n) => n in s.workers && s.workers[n] != Idle && s.workers[n].todo != []
    case Restart(n) => n in s.workers
  }

  /** A worker goes on with the next hour, whether the last one succeeded or not. */
  function Onward(now: int, todo: seq<int>): Worker {
    if |todo| <= 1 then Idle else Ready(now, todo[1..])
  }

  function WithWorker(s: State, n: Node, w: Worker): State {
    s.(workers := s.workers[n := w])
  }

  ghost function Do(s: State, step: Step): State
    requires Enabled(s, step)
  {
    match step
    case Insert(entries) => s.(log := s.log + Stamped(entries, s.clock))
    case Advance(clock) => s.(clock := clock)
    case Begin(n) => WithWorker(s, n, Ready(s.clock, [HourOf(s.clock - HOUR), HourOf(s.clock)]))
    case Query(n, found) =>
      WithWorker(s, n, Queried(s.workers[n].now, s.workers[n].todo, found, s.clock, |s.log|))
    case Commit(n) =>
      var w := s.workers[n];
      WithWorker(s, n, Onward(w.now, w.todo))
        .(stats := PutHour(s.stats, w.todo[0], w.found),
          covered := PutHour(s.covered, w.todo[0], map d | d in w.found :: w.seen))
    case Fail(n) => WithWorker(s, n, Onward(s.workers[n].now, s.workers[n].todo))
    case Restart(n) => WithWorker(s, n, Idle)
  }

  ghost predicate Init(s: State) {
    && s.log == [] && s.stats == map[] && s.covered == map[]
    && forall n :: n in s.workers ==> s.workers[n] == Idle
  }

  ghost predicate IsRun(states: seq<State>, steps: seq<Step>) {
    && |states| == |steps| + 1
    && Init(states[0])
    && forall i :: 0 <= i < |steps| ==> Enabled(states[i], steps[i]) && states[i + 1] == Do(states[i], steps[i])
  }

  // ---- The invariant ----

  predicate TodoOk(now: int, todo: seq<int>) {
    todo == [HourOf(now - HOUR), HourOf(now)] || todo == [HourOf(now)]
  }

  ghost predicate WorkerOk(s: State, w: Worker) {
    match w
    case Idle => true
    case Ready(now, todo) => now <= s.clock && TodoOk(now, todo)
    case Queried(now, todo, found, at, seen) =>
      && now <= at <= s.clock && TodoOk(now, todo)
      && seen <= |s.log| && IsQuery(found, s.log[..seen], todo[0])
      && forall i :: seen <= i < |s.log| ==> s.log[i].time >= at
  }

  /** How much of the log the figure of domain d and hour h is about. */
  function CoveredIn(s: State, d: Str, h: int): (n: nat)
    ensures n <= |s.log|
  {
    if (d, h) in s.covered && s.covered[(d, h)] <= |s.log| then s.covered[(d, h)] else 0
  }

  ghost predicate FiguresOk(s: State) {
    forall d, h :: StatAt(s.stats, d, h) == StatFor(s.log[..CoveredIn(s, d, h)], d, h)
  }

  ghost predicate Inv(s: State) {
    && (forall k :: k in s.covered ==> s.covered[k] <= |s.log|)
    && (forall n :: n in s.workers ==> WorkerOk(s, s.workers[n]))
    && FiguresOk(s)
  }

  lemma InsertKeepsWorker(s: State, entries: seq<LogEntry>, w: Worker)
    requires WorkerOk(s, w)
    ensures WorkerOk(Do(s, Insert(entries)), w)
  {
    var t := Do(s, Insert(entries));
    if w.Queried? {
      assert t.log[..w.seen] == s.log[..w.seen];
    }
  }

  lemma InsertKeepsFigures(s: State, entries: seq<LogEntry>)
    requires Inv(s)
    ensures FiguresOk(Do(s, Insert(entries)))
  {
    var t := Do(s, Insert(entries));
    forall d, h ensures StatAt(t.stats, d, h) == StatFor(t.log[..CoveredIn(t, d, h)], d, h) {
      assert CoveredIn(t, d, h) == CoveredIn(s, d, h);
      assert t.log[..CoveredIn(t, d, h)] == s.log[..CoveredIn(s, d, h)];
    }
  }

  lemma SameFigures(s: State, t: State)
    requires FiguresOk(s) && t.log == s.log && t.stats == s.stats && t.covered == s.covered
    ensures FiguresOk(t)
  {
    forall d, h ensures StatAt(t.stats, d, h) == StatFor(t.log[..CoveredIn(t, d, h)], d, h) {
      assert CoveredIn(t, d, h) == CoveredIn(s, d, h);
    }
  }

  lemma CommitKeepsFigures(s: State, n: Node)
    requires Inv(s) && Enabled(s, Commit(n))
    ensures FiguresOk(Do(s, Commit(n)))
  {
    var t, w := Do(s, Commit(n)), s.workers[n];
    assert WorkerOk(s, w);
    forall d, h ensures StatAt(t.stats, d, h) == StatFor(t.log[..CoveredIn(t, d, h)], d, h) {
      if h == w.todo[0] && d in w.found {
        assert CoveredIn(t, d, h) == w.seen;
      } else {
        assert CoveredIn(t, d, h) == CoveredIn(s, d, h);
      }
    }
  }

  lemma StepKeepsInv(s: State, step: Step)
    requires Inv(s) && Enabled(s, step)
    ensures Inv(Do(s, step))
  {
    var t := Do(s, step);
    match step
    case Insert(entries) =>
      InsertKeepsFigures(s, entries);
      forall n | n in t.workers ensures WorkerOk(t, t.workers[n]) { InsertKeepsWorker(s, entries, s.workers[n]); }
    case Advance(_) => SameFigures(s, t);
    case Begin(_) => SameFigures(s, t);
    case Query(n, found) =>
      SameFigures(s, t);
      assert s.log[..|s.log|] == s.log;
    case Commit(n) => CommitKeepsFigures(s, n);
    case Fail(_) => SameFigures(s, t);
    case Restart(_) => SameFigures(s, t);
  }

  /** In every state of every run, each figure is that of the part of the log its query had read. */
  lemma {:induction false} StatsAreOfCoveredLog(states: seq<State>, steps: seq<Step>, i: nat)
    requires IsRun(states, steps) && i < |states|
    ensures Inv(states[i])
  {
    if i == 0 {
      assert forall d, h :: states[0].log[..CoveredIn(states[0], d, h)] == [];
    } else {
      StatsAreOfCoveredLog(states, steps, i - 1);
      StepKeepsInv(states[i - 1], steps[i - 1]);
    }
  }

  /**
   * Hits are never overcounted, and are exact just when no row of the domain and hour came after
   * those the query behind the figure had read; then the count of addresses is exact, too.
   */
  lemma HitsExactIff(states: seq<State>, steps: seq<Step>, i: nat, d: Str, h: int)
    requires IsRun(states, steps) && i < |states|
    ensures var s := states[i];
            var missed := RowsIn(s.log[CoveredIn(s, d, h)..], d, h);
            && StatAt(s.stats, d, h).hits <= |RowsIn(s.log, d, h)|
            && (StatAt(s.stats, d, h).hits == |RowsIn(s.log, d, h)| <==> missed == [])
            && (StatAt(s.stats, d, h) == StatFor(s.log, d, h) <==> missed == [])
  {
    StatsAreOfCoveredLog(states, steps, i);
    PrefixExactIff(states[i].log, CoveredIn(states[i], d, h), d, h);
  }

  // ---- Closed hours ----

  lemma {:induction false} ClockNeverBack(states: seq<State>, steps: seq<Step>, i: nat, j: nat)
    requires IsRun(states, steps) && i <= j < |states|
    ensures states[i].clock <= states[j].clock
    decreases j
  {
    if i == j {
    } else {
      ClockNeverBack(states, steps, i, j - 1);
    }
  }

  lemma {:induction false} OutsideHour(log: seq<Row>, d: Str, h: int)
    requires forall i :: 0 <= i < |log| ==> !InHour(log[i], h)
    ensures RowsIn(log, d, h) == []
  {
    if log == [] {
    } else {
      OutsideHour(log[..|log| - 1], d, h);
    }
  }

  /** Nothing is added to an hour that has ended. */
  lemma StepKeepsRows(s: State, step: Step, d: Str, h: int)
    requires Enabled(s, step) && s.clock >= (h + 1) * HOUR
    ensures RowsIn(Do(s, step).log, d, h) == RowsIn(s.log, d, h)
  {
    if step.Insert? {
      RowsOfConcat(s.log, Stamped(step.entries, s.clock), d, h);
      OutsideHour(Stamped(step.entries, s.clock), d, h);
    }
  }

  /** The figures of hour h are those of the whole log, for every domain. */
  ghost predicate Exact(s: State, h: int) {
    forall d :: StatAt(s.stats, d, h) == StatFor(s.log, d, h)
  }

  /** A transaction for hour h that is about to store a figure whose query missed rows. */
  ghost predicate Stale(s: State, step: Step, h: int) {
    && step.Commit? && step.n in s.workers && s.workers[step.n].Queried?
    && var w := s.workers[step.n];
       w.todo != [] && w.todo[0] == h && w.seen <= |s.log| &&
       exists d :: d in w.found && RowsIn(s.log[w.seen..], d, h) != []
  }

  /** After a transaction a figure is exact exactly when its query missed nothing, or it was so and is left alone. */
  lemma CommitExactIff(s: State, n: Node, d: Str, h: int)
    requires Inv(s) && Enabled(s, Commit(n))
    ensures var t, w := Do(s, Commit(n)), s.workers[n];
            StatAt(t.stats, d, h) == StatFor(t.log, d, h) <==>
            if h == w.todo[0] && d in w.found then w.seen <= |s.log| && RowsIn(s.log[w.seen..], d, h) == []
            else StatAt(s.stats, d, h) == StatFor(s.log, d, h)
  {
    var w := s.workers[n];
    assert WorkerOk(s, w);
    if h == w.todo[0] && d in w.found {
      PrefixExactIff(s.log, w.seen, d, h);
    }
  }

  /** A closed hour that is exact stays so in one step exactly when the step is no stale transaction for it. */
  lemma StepKeepsExactIff(s: State, step: Step, h: int)
    requires Inv(s) && Enabled(s, step) && s.clock >= (h + 1) * HOUR && Exact(s, h)
    ensures Exact(Do(s, step), h) <==> !Stale(s, step, h)
  {
    var t := Do(s, step);
    if step.Commit? {
      assert WorkerOk(s, s.workers[step.n]);
      forall d { CommitExactIff(s, step.n, d, h); }
    } else {
      forall d ensures StatAt(t.stats, d, h) == StatFor(t.log, d, h) {
        StepKeepsRows(s, step, d, h);
      }
    }
  }

  lemma {:induction false} ClosedHourFrozen(states: seq<State>, steps: seq<Step>, i: nat, j: nat, d: Str, h: int)
    requires IsRun(states, steps) && i <= j < |states| && states[i].clock >= (h + 1) * HOUR
    ensures RowsIn(states[j].log, d, h) == RowsIn(states[i].log, d, h)
    decreases j
  {
    if i == j {
    } else {
      ClosedHourFrozen(states, steps, i, j - 1, d, h);
      ClockNeverBack(states, steps, i, j - 1);
      StepKeepsRows(states[j - 1], steps[j - 1], d, h);
    }
  }

  lemma RunStepExactIff(states: seq<State>, steps: seq<Step>, k: nat, h: int)
    requires IsRun(states, steps) && k < |steps| && states[k].clock >= (h + 1) * HOUR && Exact(states[k], h)
    ensures Exact(states[k + 1], h) <==> !Stale(states[k], steps[k], h)
  {
    StatsAreOfCoveredLog(states, steps, k);
    StepKeepsExactIff(states[k], steps[k], h);
  }

  lemma {:induction false} UnspoiltStaysExact(states: seq<State>, steps: seq<Step>, i: nat, j: nat, h: int)
    requires IsRun(states, steps) && i <= j < |states|
    requires states[i].clock >= (h + 1) * HOUR && Exact(states[i], h)
    requires forall k :: i <= k < j ==> !Stale(states[k], steps[k], h)
    ensures Exact(states[j], h)
    decreases j
  {
    if i == j {
    } else {
      UnspoiltStaysExact(states, steps, i, j - 1, h);
      ClockNeverBack(states, steps, i, j - 1);
      RunStepExactIff(states, steps, j - 1, h);
    }
  }

  /** An exact closed hour stays exact exactly as long as no stale transaction for it commits. */
  lemma ClosedHourStaysExactIff(states: seq<State>, steps: seq<Step>, i: nat, j: nat, h: int)
    requires IsRun(states, steps) && i <= j < |states|
    requires states[i].clock >= (h + 1) * HOUR && Exact(states[i], h)
    ensures (forall k :: i <= k <= j ==> Exact(states[k], h)) <==>
            (forall k :: i <= k < j ==> !Stale(states[k], steps[k], h))
  {
    if forall k :: i <= k <= j ==> Exact(states[k], h) {
      forall k | i <= k < j ensures !Stale(states[k], steps[k], h) {
        ClockNeverBack(states, steps, i, k);
        RunStepExactIff(states, steps, k, h);
      }
    } else if forall k :: i <= k < j ==> !Stale(states[k], steps[k], h) {
      var k :| i <= k <= j && !Exact(states[k], h);
      UnspoiltStaysExact(states, steps, i, k, h);
      assert false;
    }
  }

  /** Between two states in which a closed hour is exact, its figures are the same. */
  lemma ExactFiguresAgree(states: seq<State>, steps: seq<Step>, i: nat, j: nat, d: Str, h: int)
    requires IsRun(states, steps) && i <= j < |states|
    requires states[i].clock >= (h + 1) * HOUR && Exact(states[i], h) && Exact(states[j], h)
    ensures StatAt(states[j].stats, d, h) == StatAt(states[i].stats, d, h)
  {
    ClosedHourFrozen(states, steps, i, j, d, h);
    assert StatAt(states[i].stats, d, h) == StatFor(states[i].log, d, h);
    assert StatAt(states[j].stats, d, h) == StatFor(states[j].log, d, h);
  }

  // ---- What makes a closed hour exact ----

  /** Step i commits the rollup of a worker's previous hour, with everything the query should deliver. */
  ghost predicate Succeeds(states: seq<State>, steps: seq<Step>, i: int) {
    && 0 <= i < |steps| < |states| && steps[i].Commit? && steps[i].n in states[i].workers
    && var w := states[i].workers[steps[i].n];
       w.Queried? && |w.todo| == 2 && w.seen <= |states[i].log| &&
       w.found.Keys == DomainsIn(states[i].log[..w.seen], w.todo[0])
  }

  /** When the rollup that step i commits was started. */
  ghost function StartOf(states: seq<State>, steps: seq<Step>, i: int): int
    requires Succeeds(states, steps, i)
  {
    states[i].workers[steps[i].n].now
  }

  /** A query made after the hour has closed has read all its rows. */
  lemma LateQuerySeesAll(s: State, w: Worker, d: Str, h: int)
    requires WorkerOk(s, w) && w.Queried? && w.at >= (h + 1) * HOUR
    ensures RowsIn(s.log[w.seen..], d, h) == []
  {
    forall i | 0 <= i < |s.log| - w.seen ensures !InHour(s.log[w.seen..][i], h) {
      assert s.log[w.seen..][i] == s.log[w.seen + i];
    }
    OutsideHour(s.log[w.seen..], d, h);
  }

  /** A figure is exact when the domain has no rows in the hour: there is none, or it was made from none. */
  lemma NoRowsIsExact(s: State, d: Str, h: int)
    requires Inv(s) && RowsIn(s.log, d, h) == []
    ensures StatAt(s.stats, d, h) == StatFor(s.log, d, h)
  {
    var n := CoveredIn(s, d, h);
    assert s.log == s.log[..n] + s.log[n..];
    RowsOfConcat(s.log[..n], s.log[n..], d, h);
  }

  /** A complete late query makes every figure exact. */
  lemma LateCommitExact(s: State, n: Node, d: Str, h: int)
    requires Inv(s) && Enabled(s, Commit(n))
    requires s.workers[n].at >= (h + 1) * HOUR && s.workers[n].todo[0] == h && s.workers[n].seen <= |s.log|
    requires s.workers[n].found.Keys == DomainsIn(s.log[..s.workers[n].seen], h)
    ensures StatAt(Do(s, Commit(n)).stats, d, h) == StatFor(Do(s, Commit(n)).log, d, h)
  {
    var w := s.workers[n];
    assert WorkerOk(s, w);
    LateQuerySeesAll(s, w, d, h);
    CommitExactIff(s, n, d, h);
    if d !in w.found {
      NoRows(s.log[..w.seen], d, h);
      assert s.log == s.log[..w.seen] + s.log[w.seen..];
      RowsOfConcat(s.log[..w.seen], s.log[w.seen..], d, h);
      NoRowsIsExact(s, d, h);
    }
  }

  /** A rollup started in the hour after h makes h exact. */
  lemma CommitMakesExact(states: seq<State>, steps: seq<Step>, i: nat, h: int)
    requires IsRun(states, steps) && Succeeds(states, steps, i)
    requires (h + 1) * HOUR <= StartOf(states, steps, i) < (h + 2) * HOUR
    ensures Exact(states[i + 1], h) && states[i].clock >= (h + 1) * HOUR
  {
    var s, n, t := states[i], steps[i].n, states[i + 1];
    StatsAreOfCoveredLog(states, steps, i);
    assert WorkerOk(s, s.workers[n]);
    assert s.workers[n].todo[0] == HourOf(s.workers[n].now - HOUR) == h;
    forall d ensures StatAt(t.stats, d, h) == StatFor(t.log, d, h) {
      LateCommitExact(s, n, d, h);
    }
  }

  /** A transaction for hour h after its end, with a query from before its end. */
  ghost predicate Straddles(s: State, step: Step, h: int) {
    && step.Commit? && step.n in s.workers && s.workers[step.n].Queried?
    && var w := s.workers[step.n];
       w.todo != [] && w.todo[0] == h && w.at < (h + 1) * HOUR <= s.clock
  }

  /** Only a rollup that straddles the end of the hour can be stale once the hour has closed. */
  lemma StaleStraddles(s: State, step: Step, h: int)
    requires Inv(s) && s.clock >= (h + 1) * HOUR && Stale(s, step, h)
    ensures Straddles(s, step, h)
  {
    var w := s.workers[step.n];
    assert WorkerOk(s, w);
    if w.at >= (h + 1) * HOUR {
      forall d { LateQuerySeesAll(s, w, d, h); }
      assert false;
    }
  }

  // ---- Cadence ----

  /** Up to state j, a successful rollup is followed by one started later, but within an hour. */
  ghost predicate Hourly(states: seq<State>, steps: seq<Step>, j: nat) {
    |steps| < |states| && j < |states| &&
    forall i :: 0 <= i < j && Succeeds(states, steps, i) ==>
      || states[j].clock - StartOf(states, steps, i) <= HOUR
      || exists k :: 0 <= k < j && Succeeds(states, steps, k) &&
                     0 < StartOf(states, steps, k) - StartOf(states, steps, i) <= HOUR
  }

  /** Some successful rollup was started before the hour after h had ended. */
  ghost predicate StartedFor(states: seq<State>, steps: seq<Step>, j: nat, h: int) {
    exists i :: 0 <= i < j && Succeeds(states, steps, i) && StartOf(states, steps, i) < (h + 2) * HOUR
  }

  /** Step k commits a complete rollup of hour h that was started in the hour after it. */
  ghost predicate LateSuccess(states: seq<State>, steps: seq<Step>, k: int, h: int) {
    Succeeds(states, steps, k) && (h + 1) * HOUR <= StartOf(states, steps, k) < (h + 2) * HOUR
  }

  lemma {:induction false} RollInTime(states: seq<State>, steps: seq<Step>, i: nat, j: nat, h: int) returns (k: nat)
    requires Hourly(states, steps, j) && states[j].clock >= (h + 2) * HOUR
    requires i < j && Succeeds(states, steps, i) && StartOf(states, steps, i) < (h + 2) * HOUR
    ensures k < j && LateSuccess(states, steps, k, h)
    decreases (h + 2) * HOUR - StartOf(states, steps, i)
  {
    if StartOf(states, steps, i) >= (h + 1) * HOUR {
      k := i;
    } else {
      var next :| 0 <= next < j && Succeeds(states, steps, next) &&
                  0 < StartOf(states, steps, next) - StartOf(states, steps, i) <= HOUR;
      k := RollInTime(states, steps, next, j, h);
    }
  }

  lemma {:induction false} LastLateSuccess(states: seq<State>, steps: seq<Step>, k: nat, j: nat, h: int)
    returns (last: nat)
    requires k < j && LateSuccess(states, steps, k, h)
    ensures last < j && LateSuccess(states, steps, last, h)
    ensures forall m :: last < m < j ==> !LateSuccess(states, steps, m, h)
    decreases j - k
  {
    if m :| k < m < j && LateSuccess(states, steps, m, h) {
      last := LastLateSuccess(states, steps, m, j, h);
    } else {
      last := k;
    }
  }

  /** A rollup of h that straddles its end and commits after a late success is followed by another late success. */
  ghost predicate Repaired(states: seq<State>, steps: seq<Step>, j: nat, h: int) {
    |states| == |steps| + 1 && j < |states| &&
    forall k, l :: 0 <= k < l < j && LateSuccess(states, steps, k, h) && Straddles(states[l], steps[l], h) ==>
      exists m :: l < m < j && LateSuccess(states, steps, m, h)
  }

  /** After the last late success nothing straddles, so nothing is stale. */
  lemma NothingStaleAfter(states: seq<State>, steps: seq<Step>, k: nat, j: nat, h: int)
    requires IsRun(states, steps) && k < j && Repaired(states, steps, j, h) && LateSuccess(states, steps, k, h)
    requires forall m :: k < m < j ==> !LateSuccess(states, steps, m, h)
    ensures forall l :: k < l < j ==> !Stale(states[l], steps[l], h)
  {
    CommitMakesExact(states, steps, k, h);
    forall l | k < l < j ensures !Stale(states[l], steps[l], h) {
      StatsAreOfCoveredLog(states, steps, l);
      ClockNeverBack(states, steps, k, l);
      if Stale(states[l], steps[l], h) {
        StaleStraddles(states[l], steps[l], h);
      }
    }
  }

  /**
   * With rollups that succeed at least hourly, by any nodes and overlapping, every hour whose
   * following hour has ended is exact, if what a straddling rollup may have spoilt is repaired.
   */
  lemma HourlyRollupsAreExact(states: seq<State>, steps: seq<Step>, j: nat, h: int)
    requires IsRun(states, steps) && Hourly(states, steps, j) && StartedFor(states, steps, j, h)
    requires states[j].clock >= (h + 2) * HOUR && Repaired(states, steps, j, h)
    ensures Exact(states[j], h)
  {
    var i :| 0 <= i < j && Succeeds(states, steps, i) && StartOf(states, steps, i) < (h + 2) * HOUR;
    var first := RollInTime(states, steps, i, j, h);
    var k := LastLateSuccess(states, steps, first, j, h);
    CommitMakesExact(states, steps, k, h);
    ClockNeverBack(states, steps, k, k + 1);
    NothingStaleAfter(states, steps, k, j, h);
    UnspoiltStaysExact(states, steps, k + 1, j, h);
  }

  // ---- A single node ----

  ghost predicate OnlyCommits(steps: seq<Step>, j: nat, n: Node) {
    j <= |steps| && forall l :: 0 <= l < j && steps[l].Commit? ==> steps[l].n == n
  }

  /** The worker will look at the log at time t or later. */
  predicate LooksFrom(w: Worker, t: int) {
    w == Idle || w.now >= t
  }

  lemma StepKeepsLooking(s: State, step: Step, n: Node, t: int)
    requires Enabled(s, step) && n in s.workers && LooksFrom(s.workers[n], t) && s.clock >= t
    ensures n in Do(s, step).workers && LooksFrom(Do(s, step).workers[n], t)
  {
  }

  lemma StartsLate(states: seq<State>, steps: seq<Step>, k: nat, l: nat, h: int)
    requires IsRun(states, steps) && k < l < |states| && LateSuccess(states, steps, k, h)
    ensures states[l].clock >= (h + 1) * HOUR
  {
    CommitMakesExact(states, steps, k, h);
    ClockNeverBack(states, steps, k, l);
  }

  /** After a late success by n, its worker looks at the log only after the end of the hour. */
  lemma {:induction false} LooksLater(states: seq<State>, steps: seq<Step>, k: nat, l: nat, h: int)
    requires IsRun(states, steps) && k < l < |states| && LateSuccess(states, steps, k, h)
    ensures var n := steps[k].n; n in states[l].workers && LooksFrom(states[l].workers[n], (h + 1) * HOUR)
    decreases l
  {
    if l == k + 1 {
    } else {
      LooksLater(states, steps, k, l - 1, h);
      StartsLate(states, steps, k, l - 1, h);
      StepKeepsLooking(states[l - 1], steps[l - 1], steps[k].n, (h + 1) * HOUR);
    }
  }

  /** If one node makes all the commits, its straddling rollups come before its late ones. */
  lemma OneNodeIsRepaired(states: seq<State>, steps: seq<Step>, j: nat, n: Node, h: int)
    requires IsRun(states, steps) && OnlyCommits(steps, j, n)
    ensures Repaired(states, steps, j, h)
  {
    forall k, l | 0 <= k < l < j && LateSuccess(states, steps, k, h)
      ensures !Straddles(states[l], steps[l], h)
    {
      if steps[l].Commit? {
        LooksLater(states, steps, k, l, h);
        StatsAreOfCoveredLog(states, steps, l);
        assert WorkerOk(states[l], states[l].workers[n]);
      }
    }
  }

  /** With a single node whose rollups succeed at least hourly, every such hour is exact. */
  lemma OneNodeIsExact(states: seq<State>, steps: seq<Step>, j: nat, n: Node, h: int)
    requires IsRun(states, steps) && Hourly(states, steps, j) && StartedFor(states, steps, j, h)
    requires states[j].clock >= (h + 2) * HOUR && OnlyCommits(steps, j, n)
    ensures Exact(states[j], h)
  {
    OneNodeIsRepaired(states, steps, j, n, h);
    HourlyRollupsAreExact(states, steps, j, h);
  }

  // ---- A rollup that straddles the end of its hour ----

  const SITE: Str := [97]
  const HIT := LogEntry(SITE, [], [], 301, [], [], [], [])

  const ONE_ROW := [Row(HIT, 0)]
  const TWO_ROWS := [Row(HIT, 0), Row(HIT, 0)]

  ghost function Figures(log: seq<Row>): map<Str, Stat> {
    map[SITE := StatFor(log, SITE, 0)]
  }

  function Two(a: Worker, b: Worker): map<Node, Worker> {
    map[0 := a, 1 := b]
  }

  ghost function Early(): Worker {
    Queried(0, [0], Figures(ONE_ROW), 0, 1)
  }

  ghost function Late(): Worker {
    Queried(HOUR, [0, 1], Figures(TWO_ROWS), HOUR, 2)
  }

  const START := State([], map[], 0, Two(Idle, Idle), map[])

  ghost predicate Moves(s: State, step: Step, t: State) {
    Enabled(s, step) && Do(s, step) == t
  }

  lemma Extend(states: seq<State>, steps: seq<Step>, step: Step, t: State)
    requires IsRun(states, steps) && Moves(states[|steps|], step, t)
    ensures IsRun(states + [t], steps + [step])
  {
  }

  lemma LogIs(log: seq<Row>)
    requires log == ONE_ROW || log == TWO_ROWS
    ensures DomainsIn(log, 0) == {SITE} && IsQuery(Figures(log), log, 0) && Figures(log).Keys == {SITE}
  {
    assert log[0] in log && InHour(log[0], 0);
  }

  /** Node 0 queries hour 0 before the last row of the hour is inserted. */
  lemma EarlyQuery() returns (states: seq<State>, steps: seq<Step>)
    ensures IsRun(states, steps) && |steps| == 4
    ensures states[4] == START.(log := ONE_ROW, workers := Two(Early(), Idle))
  {
    LogIs(ONE_ROW);
    assert Stamped([HIT], 0) == ONE_ROW;
    var s := START.(log := ONE_ROW);
    assert HourOf(-HOUR) == -1 && HourOf(0) == 0;
    var ready, second := Two(Ready(0, [-1, 0]), Idle), Two(Ready(0, [0]), Idle);
    states, steps := [START], [];
    Extend(states, steps, Insert([HIT]), s);
    states, steps := states + [s], steps + [Insert([HIT])];
    Extend(states, steps, Begin(0), s.(workers := ready));
    states, steps := states + [s.(workers := ready)], steps + [Begin(0)];
    assert [-1, 0][1..] == [0];
    Extend(states, steps, Fail(0), s.(workers := second));
    states, steps := states + [s.(workers := second)], steps + [Fail(0)];
    Extend(states, steps, Query(0, Figures(ONE_ROW)), s.(workers := Two(Early(), Idle)));
    states, steps := states + [s.(workers := Two(Early(), Idle))], steps + [Query(0, Figures(ONE_ROW))];
  }

  /** Then the row arrives, the hour ends, and node 1 queries it. */
  lemma LateQuery() returns (states: seq<State>, steps: seq<Step>)
    ensures IsRun(states, steps) && |steps| == 8
    ensures states[8] == START.(log := TWO_ROWS, clock := HOUR, workers := Two(Early(), Late()))
  {
    states, steps := EarlyQuery();
    LogIs(TWO_ROWS);
    assert ONE_ROW + Stamped([HIT], 0) == TWO_ROWS;
    assert HourOf(HOUR - HOUR) == 0 && HourOf(HOUR) == 1;
    var s := START.(log := TWO_ROWS, workers := Two(Early(), Idle));
    var u := s.(clock := HOUR);
    Extend(states, steps, Insert([HIT]), s);
    states, steps := states + [s], steps + [Insert([HIT])];
    Extend(states, steps, Advance(HOUR), u);
    states, steps := states + [u], steps + [Advance(HOUR)];
    Extend(states, steps, Begin(1), u.(workers := Two(Early(), Ready(HOUR, [0, 1]))));
    states, steps := states + [u.(workers := Two(Early(), Ready(HOUR, [0, 1])))], steps + [Begin(1)];
    Extend(states, steps, Query(1, Figures(TWO_ROWS)), u.(workers := Two(Early(), Late())));
    states, steps := states + [u.(workers := Two(Early(), Late()))], steps + [Query(1, Figures(TWO_ROWS))];
  }

  /** Node 1 commits, and the closed hour is exact. */
  lemma LateCommit() returns (states: seq<State>, steps: seq<Step>)
    ensures IsRun(states, steps) && |steps| == 9 && Exact(states[9], 0)
    ensures states[9].log == TWO_ROWS && states[9].clock == HOUR
    ensures states[9].workers.Keys == {0, 1} && states[9].workers[0] == Early()
  {
    states, steps := LateQuery();
    LogIs(TWO_ROWS);
    var t := Do(states[8], Commit(1));
    Extend(states, steps, Commit(1), t);
    states, steps := states + [t], steps + [Commit(1)];
    assert TWO_ROWS[..2] == TWO_ROWS;
    CommitMakesExact(states, steps, 8, 0);
  }

  lemma EarlyIsStale(t: State)
    requires t.log == TWO_ROWS && 0 in t.workers && t.workers[0] == Early()
    ensures Enabled(t, Commit(0)) && Stale(t, Commit(0), 0)
  {
    assert TWO_ROWS[1..] == ONE_ROW;
    assert SITE in Early().found;
    assert RowsIn(ONE_ROW, SITE, 0) == RowsIn(ONE_ROW[..0], SITE, 0) + ONE_ROW;
  }

  /** Then node 0 commits its older count, and the hour is exact no more. */
  lemma OverlapLosesExactHour() returns (states: seq<State>, steps: seq<Step>)
    ensures IsRun(states, steps) && |steps| == 10
    ensures states[9].clock >= HOUR && Exact(states[9], 0) && !Exact(states[10], 0)
  {
    states, steps := LateCommit();
    var t := states[9];
    EarlyIsStale(t);
    StatsAreOfCoveredLog(states, steps, 9);
    StepKeepsExactIff(t, Commit(0), 0);
    Extend(states, steps, Commit(0), Do(t, Commit(0)));
    states, steps := states + [Do(t, Commit(0))], steps + [Commit(0)];
  }

  // ---- The summary ----

  /** SUM(hit_count) for domain d over the buckets a, ..., b - 1. */
  function SumHits(stats: Stats, d: Str, a: int, b: int): nat
    decreases b - a
  {
    if a >= b then 0 else SumHits(stats, d, a, b - 1) + StatAt(stats, d, b - 1).hits
  }

  /** The number of rows for d in the time span from lo up to hi. */
  function CountSpan(log: seq<Row>, d: Str, lo: int, hi: int): nat {
    if log == [] then 0
    else
      var row := log[|log| - 1];
      CountSpan(log[..|log| - 1], d, lo, hi) + if row.entry.domain == d && lo <= row.time < hi then 1 else 0
  }

  lemma {:induction false} SpanSplits(log: seq<Row>, d: Str, a: int, b: int)
    requires a < b
    ensures CountSpan(log, d, a * HOUR, b * HOUR) ==
            CountSpan(log, d, a * HOUR, (b - 1) * HOUR) + |RowsIn(log, d, b - 1)|
  {
    if log == [] {
    } else {
      SpanSplits(log[..|log| - 1], d, a, b);
    }
  }

  lemma {:induction false} EmptySpan(log: seq<Row>, d: Str, lo: int, hi: int)
    requires lo >= hi
    ensures CountSpan(log, d, lo, hi) == 0
  {
    if log == [] {
    } else {
      EmptySpan(log[..|log| - 1], d, lo, hi);
    }
  }

  /** In any run, the summary from an hour on never exceeds the log, and equals it when the hours are exact. */
  lemma {:induction false} SummaryAgainstLog(states: seq<State>, steps: seq<Step>, j: nat, d: Str, a: int, b: int)
    requires IsRun(states, steps) && j < |states|
    ensures SumHits(states[j].stats, d, a, b) <= CountSpan(states[j].log, d, a * HOUR, b * HOUR)
    ensures (forall h :: a <= h < b ==> Exact(states[j], h)) ==>
              SumHits(states[j].stats, d, a, b) == CountSpan(states[j].log, d, a * HOUR, b * HOUR)
    decreases b - a
  {
    if a >= b {
      EmptySpan(states[j].log, d, a * HOUR, b * HOUR);
    } else {
      SummaryAgainstLog(states, steps, j, d, a, b - 1);
      SpanSplits(states[j].log, d, a, b);
      HitsExactIff(states, steps, j, d, b - 1);
      if Exact(states[j], b - 1) {
        assert StatAt(states[j].stats, d, b - 1) == StatFor(states[j].log, d, b - 1);
      }
    }
  }

  /** Under the same conditions, the summary of closed hours is the number of rows logged in them. */
  lemma SummaryConservation(states: seq<State>, steps: seq<Step>, j: nat, d: Str, a: int, b: int)
    requires IsRun(states, steps) && Hourly(states, steps, j) && StartedFor(states, steps, j, a)
    requires states[j].clock >= (b + 1) * HOUR
    requires forall h :: a <= h < b ==> Repaired(states, steps, j, h)
    ensures SumHits(states[j].stats, d, a, b) == CountSpan(states[j].log, d, a * HOUR, b * HOUR)
  {
    forall h | a <= h < b ensures Exact(states[j], h) {
      HourlyRollupsAreExact(states, steps, j, h);
    }
    SummaryAgainstLog(states, steps, j, d, a, b);
  }

  /** So it is with a single node, whatever its rollups straddle. */
  lemma OneNodeSummary(states: seq<State>, steps: seq<Step>, j: nat, n: Node, d: Str, a: int, b: int)
    requires IsRun(states, steps) && Hourly(states, steps, j) && StartedFor(states, steps, j, a)
    requires states[j].clock >= (b + 1) * HOUR && OnlyCommits(steps, j, n)
    ensures SumHits(states[j].stats, d, a, b) == CountSpan(states[j].log, d, a * HOUR, b * HOUR)
  {
    forall h | a <= h < b ensures Repaired(states, steps, j, h) {
      OneNodeIsRepaired(states, steps, j, n, h);
    }
    SummaryConservation(states, steps, j, d, a, b);
  }
}
