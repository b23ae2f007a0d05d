/** Hit accounting: the bounded channel of log entries and the batch writer that empties it. */
module Hits {
  import opened Text

  const BATCH_SIZE := 100

  datatype LogEntry = LogEntry(
    domain: Str, path: Str, query: Str, status: int,
    targetUrl: Str, clientIp: Str, userAgent: Str, referer: Str)

  // ---- The writer as a state machine ----

  datatype Mode = Running | Draining | Exited

  /** A batch handed to the database, and whether its insert succeeded. */
  datatype Batch = Batch(entries: seq<LogEntry>, inserted: bool)

  /** accepted, batches, offered and dropped record the history; the rest is the machine. */
  datatype Pipe = Pipe(
    capacity: nat, mode: Mode, channel: seq<LogEntry>, batch: seq<LogEntry>, log: seq<LogEntry>,
    accepted: seq<LogEntry>, batches: seq<Batch>, offered: nat, dropped: nat)

  /** ok says whether the insert succeeds, if the event flushes. */
  datatype Event =
    | Send(entry: LogEntry)
    | Receive(ok: bool)
    | Tick(ok: bool)
    | Stop
    | DrainOne
    | DrainEnd(ok: bool)

  function Initial(capacity: nat): Pipe {
    Pipe(capacity, Running, [], [], [], [], [], 0, 0)
  }

  /** The select statements: when each arm may be taken. Senders may send at any time. */
  predicate Enabled(s: Pipe, ev: Event) {
    match ev
    case Send(_) => true
    case Receive(_) => s.mode == Running && s.channel != []
    case Tick(_) => s.mode == Running
    case Stop => s.mode == Running
    case DrainOne => s.mode == Draining && s.channel != []
    case DrainEnd(_) => s.mode == Draining && s.channel == []
  }

  /** A failed insert loses the batch. */
  function Flush(s: Pipe, ok: bool): Pipe {
    if s.batch == [] then s
    else s.(log := if ok then s.log + s.batch else s.log,
            batches := s.batches + [Batch(s.batch, ok)],
            batch := [])
  }

  function Take(s: Pipe): Pipe
    requires s.channel != []
  {
    s.(batch := s.batch + [s.channel[0]], channel := s.channel[1..])
  }

  /** A send to a full channel drops the entry instead of blocking the request. */
  function Offer(s: Pipe, e: LogEntry): Pipe {
    if |s.channel| < s.capacity then
      s.(channel := s.channel + [e], accepted := s.accepted + [e], offered := s.offered + 1)
    else
      s.(offered := s.offered + 1, dropped := s.dropped + 1)
  }

  function Step(s: Pipe, ev: Event): Pipe
    requires Enabled(s, ev)
  {
    match ev
    case Send(e) => Offer(s, e)
    case Receive(ok) => if |s.batch| + 1 >= BATCH_SIZE then Flush(Take(s), ok) else Take(s)
    case Tick(ok) => Flush(s, ok)
    case Stop => s.(mode := Draining)
    case DrainOne => Take(s)
    case DrainEnd(ok) => Flush(s, ok).(mode := Exited)
  }

  ghost predicate IsRun(states: seq<Pipe>, events: seq<Event>) {
    && |states| == |events| + 1
    && forall i :: 0 <= i < |events| ==> Enabled(states[i], events[i]) && states[i + 1] == Step(states[i], events[i])
  }

  // ---- Conservation ----

  function Handed(bs: seq<Batch>): seq<LogEntry> {
    if bs == [] then [] else Handed(bs[..|bs| - 1]) + bs[|bs| - 1].entries
  }

  function Inserted(bs: seq<Batch>): seq<LogEntry> {
    if bs == [] then []
    else Inserted(bs[..|bs| - 1]) + if bs[|bs| - 1].inserted then bs[|bs| - 1].entries else []
  }

  /** Every entry accepted is, in order, in a batch handed over, in the current batch, or in the channel. */
  ghost predicate Conserved(s: Pipe) {
    && s.accepted == Handed(s.batches) + s.batch + s.channel
    && s.log == Inserted(s.batches)
    && s.offered == |s.accepted| + s.dropped
    && |s.channel| <= s.capacity
    && (s.mode == Running ==> |s.batch| < BATCH_SIZE)
    && (s.mode == Exited ==> s.batch == [])
  }

  lemma FlushConserves(s: Pipe, ok: bool)
    requires s.accepted == Handed(s.batches) + s.batch + s.channel && s.log == Inserted(s.batches)
    ensures var t := Flush(s, ok);
            t.accepted == Handed(t.batches) + t.batch + t.channel && t.log == Inserted(t.batches)
  {
    var t := Flush(s, ok);
    if s.batch != [] {
      assert t.batches[..|t.batches| - 1] == s.batches;
      assert Handed(t.batches) + t.batch + t.channel == s.accepted;
    }
  }

  lemma TakeConserves(s: Pipe)
    requires s.channel != [] && s.accepted == Handed(s.batches) + s.batch + s.channel
    ensures Take(s).accepted == Handed(Take(s).batches) + Take(s).batch + Take(s).channel
  {
    assert s.channel == [s.channel[0]] + s.channel[1..];
  }

  lemma SendConserves(s: Pipe, e: LogEntry)
    requires Conserved(s)
    ensures Conserved(Offer(s, e))
  {
    assert Handed(s.batches) + s.batch + (s.channel + [e]) == Handed(s.batches) + s.batch + s.channel + [e];
  }

  lemma ReceiveConserves(s: Pipe, ok: bool)
    requires Conserved(s) && Enabled(s, Receive(ok))
    ensures Conserved(Step(s, Receive(ok)))
  {
    TakeConserves(s);
    FlushConserves(Take(s), ok);
  }

  lemma StepConserves(s: Pipe, ev: Event)
    requires Conserved(s) && Enabled(s, ev)
    ensures Conserved(Step(s, ev))
  {
    match ev
    case Send(e) => SendConserves(s, e);
    case Receive(ok) => ReceiveConserves(s, ok);
    case Tick(ok) => FlushConserves(s, ok);
    case Stop =>
    case DrainOne => TakeConserves(s);
    case DrainEnd(ok) => FlushConserves(s, ok);
  }

  /** In every state of every run, hits are conserved. */
  lemma {:induction false} HitsAreConserved(states: seq<Pipe>, events: seq<Event>, i: nat)
    requires IsRun(states, events) && i < |states|
    requires states[0] == Initial(states[0].capacity)
    ensures Conserved(states[i])
  {
    if i == 0 {
    } else {
      HitsAreConserved(states, events, i - 1);
      StepConserves(states[i - 1], events[i - 1]);
    }
  }

  // ---- What each event does ----

  /** An entry is accepted when there is room for it in the channel, and dropped otherwise. */
  lemma SendMeans(s: Pipe, e: LogEntry)
    ensures var t := Step(s, Send(e));
            && t.channel == (if |s.channel| < s.capacity then s.channel + [e] else s.channel)
            && t.accepted == (if |s.channel| < s.capacity then s.accepted + [e] else s.accepted)
            && t.offered == s.offered + 1
            && t.dropped == (if |s.channel| < s.capacity then s.dropped else s.dropped + 1)
            && t.batch == s.batch && t.log == s.log && t.mode == s.mode
  {
  }

  /** The 100th entry of a batch sends it to the database, and nothing less does; a failed insert loses it. */
  lemma ReceiveMeans(s: Pipe, ok: bool)
    requires Enabled(s, Receive(ok))
    ensures var t, full := Step(s, Receive(ok)), s.batch + [s.channel[0]];
            && t.channel == s.channel[1..] && t.accepted == s.accepted && t.mode == s.mode
            && t.batch == (if |full| < 100 then full else [])
            && t.log == (if |full| >= 100 && ok then s.log + full else s.log)
  {
  }

  /** A tick, like the end of the drain, sends what there is; a failed insert loses it. */
  lemma TickMeans(s: Pipe, ok: bool)
    ensures Enabled(s, Tick(ok)) ==>
              var t := Step(s, Tick(ok));
              && t.batch == [] && t.log == (if ok then s.log + s.batch else s.log)
              && t.channel == s.channel && t.accepted == s.accepted && t.mode == Running
    ensures Enabled(s, DrainEnd(ok)) ==>
              var t := Step(s, DrainEnd(ok));
              && t.batch == [] && t.log == (if ok then s.log + s.batch else s.log)
              && t.channel == s.channel == [] && t.accepted == s.accepted && t.mode == Exited
  {
  }

  lemma StopMeans(s: Pipe)
    ensures Enabled(s, Stop) ==> Step(s, Stop) == s.(mode := Draining)
    ensures Enabled(s, DrainOne) ==>
              Step(s, DrainOne) == s.(batch := s.batch + [s.channel[0]], channel := s.channel[1..])
  {
  }

  // ---- What is lost ----

  /** The event sends a batch to the database, which does not insert it. */
  predicate Loses(s: Pipe, ev: Event) {
    match ev
    case Receive(ok) => !ok && |s.batch| + 1 >= 100
    case Tick(ok) => !ok && s.batch != []
    case DrainEnd(ok) => !ok && s.batch != []
    case _ => false
  }

  /** How many accepted entries are nowhere any more. */
  function Lost(s: Pipe): int {
    |s.accepted| - |s.log| - |s.batch| - |s.channel|
  }

  lemma StepLoses(s: Pipe, ev: Event)
    requires Enabled(s, ev)
    ensures if Loses(s, ev) then Lost(Step(s, ev)) > Lost(s) else Lost(Step(s, ev)) == Lost(s)
  {
    match ev
    case Send(e) => SendMeans(s, e);
    case Receive(ok) => ReceiveMeans(s, ok);
    case Tick(ok) => TickMeans(s, ok);
    case Stop => StopMeans(s);
    case DrainOne => StopMeans(s);
    case DrainEnd(ok) => TickMeans(s, ok);
  }

  lemma JoinRest(log: seq<LogEntry>, batch: seq<LogEntry>, channel: seq<LogEntry>)
    requires channel != []
    ensures log + batch + channel == log + (batch + [channel[0]]) + channel[1..]
  {
    assert channel == [channel[0]] + channel[1..];
  }

  lemma StepKeeps(s: Pipe, ev: Event)
    requires Enabled(s, ev) && s.accepted == s.log + s.batch + s.channel && !Loses(s, ev)
    ensures var t := Step(s, ev); t.accepted == t.log + t.batch + t.channel
  {
    match ev
    case Send(e) =>
      SendMeans(s, e);
      assert s.log + s.batch + (s.channel + [e]) == s.log + s.batch + s.channel + [e];
    case Receive(ok) =>
      ReceiveMeans(s, ok);
      JoinRest(s.log, s.batch, s.channel);
    case Tick(ok) => TickMeans(s, ok);
    case Stop => StopMeans(s);
    case DrainOne =>
      StopMeans(s);
      JoinRest(s.log, s.batch, s.channel);
    case DrainEnd(ok) => TickMeans(s, ok);
  }

  lemma {:induction false} LostForGood(states: seq<Pipe>, events: seq<Event>, i: nat)
    requires IsRun(states, events) && states[0] == Initial(states[0].capacity) && i < |states|
    ensures (forall k :: 0 <= k < i ==> !Loses(states[k], events[k])) ==>
              states[i].accepted == states[i].log + states[i].batch + states[i].channel
    ensures Lost(states[i]) >= 0
    ensures (exists k :: 0 <= k < i && Loses(states[k], events[k])) ==> Lost(states[i]) > 0
  {
    if i == 0 {
    } else {
      LostForGood(states, events, i - 1);
      StepLoses(states[i - 1], events[i - 1]);
      if forall k :: 0 <= k < i ==> !Loses(states[k], events[k]) {
        StepKeeps(states[i - 1], events[i - 1]);
      }
    }
  }

  /**
   * In every state of every run, what was accepted is, in order, in the log, in the current batch or
   * in the channel, exactly if no insert of a batch has failed.
   */
  lemma NothingLostIff(states: seq<Pipe>, events: seq<Event>, i: nat)
    requires IsRun(states, events) && states[0] == Initial(states[0].capacity) && i < |states|
    ensures states[i].accepted == states[i].log + states[i].batch + states[i].channel <==>
            forall k :: 0 <= k < i ==> !Loses(states[k], events[k])
  {
    LostForGood(states, events, i);
  }

  /** So if every insert succeeds, nothing is lost in any state. */
  lemma AllOkLosesNothing(states: seq<Pipe>, events: seq<Event>, i: nat)
    requires IsRun(states, events) && states[0] == Initial(states[0].capacity) && i < |states|
    requires forall k :: 0 <= k < i ==> events[k] !in {Receive(false), Tick(false), DrainEnd(false)}
    ensures states[i].accepted == states[i].log + states[i].batch + states[i].channel
  {
    forall k | 0 <= k < i ensures !Loses(states[k], events[k]) {
    }
    NothingLostIff(states, events, i);
  }

  /** After the writer has exited, the channel holds exactly what was accepted since. */
  lemma {:induction false} LeftBehind(states: seq<Pipe>, events: seq<Event>, i: nat, j: nat)
    requires IsRun(states, events) && i < j < |states| && events[i].DrainEnd?
    ensures states[j].mode == Exited && states[j].batch == [] && states[j].batches == states[i + 1].batches
    ensures states[j].accepted == states[i + 1].accepted + states[j].channel
    decreases j
  {
    if j == i + 1 {
    } else {
      LeftBehind(states, events, i, j - 1);
      assert Enabled(states[j - 1], events[j - 1]);
    }
  }

  lemma {:induction false} NoSendsKeepAccepted(states: seq<Pipe>, events: seq<Event>, i: nat, j: nat)
    requires IsRun(states, events) && i <= j < |states|
    requires forall k :: i <= k < j ==> !events[k].Send?
    ensures states[j].accepted == states[i].accepted
    decreases j
  {
    if i == j {
    } else {
      NoSendsKeepAccepted(states, events, i, j - 1);
    }
  }

  /** With no send after Stop, everything ever accepted has been handed to the database when the writer has exited. */
  lemma NothingLeftBehind(states: seq<Pipe>, events: seq<Event>, stop: nat, end: nat, j: nat)
    requires IsRun(states, events) && states[0] == Initial(states[0].capacity)
    requires stop < end < j < |states| && events[stop] == Stop && events[end].DrainEnd?
    requires forall k :: stop <= k < j ==> !events[k].Send?
    ensures states[j].channel == [] && states[j].batch == []
    ensures Handed(states[j].batches) == states[j].accepted == states[stop].accepted
    ensures (forall b :: b in states[j].batches ==> b.inserted) ==> states[j].log == states[j].accepted
    ensures states[j].log == states[j].accepted <==> forall k :: 0 <= k < j ==> !Loses(states[k], events[k])
  {
    LeftBehind(states, events, end, j);
    NoSendsKeepAccepted(states, events, end + 1, j);
    NoSendsKeepAccepted(states, events, stop, j);
    HitsAreConserved(states, events, j);
    assert |states[j].accepted| == |states[end + 1].accepted| + |states[j].channel|;
    NothingLostIff(states, events, j);
    assert states[j].log + [] + [] == states[j].log;
    if forall b :: b in states[j].batches ==> b.inserted {
      AllInserted(states[j].batches);
    }
  }

  lemma {:induction false} AllInserted(bs: seq<Batch>)
    requires forall b :: b in bs ==> b.inserted
    ensures Inserted(bs) == Handed(bs)
  {
    if bs == [] {
    } else {
      assert bs[|bs| - 1] in bs;
      AllInserted(bs[..|bs| - 1]);
    }
  }

  /** Draining in one go: what the drain loop amounts to when nothing is sent meanwhile. */
  function Drained(s: Pipe, ok: bool): Pipe {
    Flush(s.(batch := s.batch + s.channel, channel := []), ok).(mode := Exited)
  }

  /** It is one of the runs of the machine: Stop, one DrainOne for each waiting entry, DrainEnd. */
  lemma {:induction false} DrainedIsRun(s: Pipe, ok: bool) returns (states: seq<Pipe>, events: seq<Event>)
    requires s.mode == Draining
    ensures IsRun(states, events) && |events| == |s.channel| + 1
    ensures states[0] == s && states[|events|] == Drained(s, ok)
    ensures forall k :: 0 <= k < |events| ==> !events[k].Send?
    decreases |s.channel|
  {
    if s.channel == [] {
      assert s.batch + s.channel == s.batch;
      states, events := [s, Step(s, DrainEnd(ok))], [DrainEnd(ok)];
    } else {
      var rest, tail := DrainedIsRun(Take(s), ok);
      assert s.batch + s.channel == Take(s).batch + Take(s).channel;
      states, events := [s] + rest, [DrainOne] + tail;
    }
  }

  // ---- The channel and the writer themselves ----

  class LogChannel {
    const capacity: nat
    var items: seq<LogEntry>
    ghost var accepted: seq<LogEntry>
    ghost var offered: nat
    ghost var dropped: nat

    constructor (capacity: nat)
      ensures this.capacity == capacity && items == [] && accepted == [] && offered == 0 && dropped == 0
    {
      this.capacity := capacity;
      items, accepted, offered, dropped := [], [], 0, 0;
    }

    /** select { case ch <- e: default: } */
    method TrySend(e: LogEntry)
      modifies this
      ensures items == if |old(items)| < capacity then old(items) + [e] else old(items)
      ensures accepted == if |old(items)| < capacity then old(accepted) + [e] else old(accepted)
      ensures offered == old(offered) + 1
      ensures dropped == if |old(items)| < capacity then old(dropped) else old(dropped) + 1
    {
      offered := offered + 1;
      if |items| < capacity {
        items := items + [e];
        accepted := accepted + [e];
      } else {
        dropped := dropped + 1;
      }
    }

    method Take() returns (e: LogEntry)
      requires items != []
      modifies this`items
      ensures e == old(items)[0] && items == old(items)[1..]
    {
      e := items[0];
      items := items[1..];
    }
  }

  class Pipeline {
    const logCh: LogChannel
    var batch: seq<LogEntry>
    var log: seq<LogEntry>
    var mode: Mode
    ghost var batches: seq<Batch>

    ghost function State(): Pipe
      reads this, logCh
    {
      Pipe(logCh.capacity, mode, logCh.items, batch, log, logCh.accepted, batches, logCh.offered, logCh.dropped)
    }

    constructor (bufferSize: nat)
      ensures fresh(logCh) && State() == Initial(bufferSize)
    {
      logCh := new LogChannel(bufferSize);
      batch, log, mode, batches := [], [], Running, [];
    }

    /** Hands the batch to the database, which inserts all of it or nothing. */
    method FlushBatch(ok: bool)
      modifies this
      ensures log == (if ok then old(log) + old(batch) else old(log)) && batch == [] && mode == old(mode)
      ensures State() == Flush(old(State()), ok)
    {
      if batch == [] {
        return;
      }
      if ok {
        log := log + batch;
      }
      batches := batches + [Batch(batch, ok)];
      batch := [];
    }

    method OnEntry(ok: bool)
      requires mode == Running && logCh.items != []
      modifies this, logCh
      ensures logCh.items == old(logCh.items)[1..]
      ensures var full := old(batch) + [old(logCh.items)[0]];
              && batch == (if |full| < 100 then full else [])
              && log == (if |full| >= 100 && ok then old(log) + full else old(log))
      ensures State() == Step(old(State()), Receive(ok))
    {
      var entry := logCh.Take();
      batch := batch + [entry];
      if |batch| >= BATCH_SIZE {
        FlushBatch(ok);
      }
    }

    method OnTick(ok: bool)
      requires mode == Running
      modifies this
      ensures log == (if ok then old(log) + old(batch) else old(log)) && batch == []
      ensures State() == Step(old(State()), Tick(ok))
    {
      FlushBatch(ok);
    }

    /** The done arm: drains the channel, flushes once, and exits. */
    method OnDone(ok: bool)
      requires mode == Running
      modifies this, logCh
      ensures log == (if ok then old(log) + old(batch) + old(logCh.items) else old(log))
      ensures batch == [] && logCh.items == [] && mode == Exited
      ensures State() == Drained(Step(old(State()), Stop), ok)
    {
      mode := Draining;
      while logCh.items != []
        invariant mode == Draining && batch + logCh.items == old(batch) + old(logCh.items)
        invariant log == old(log) && batches == old(batches)
        invariant logCh.accepted == old(logCh.accepted)
        invariant logCh.offered == old(logCh.offered) && logCh.dropped == old(logCh.dropped)
        decreases |logCh.items|
      {
        var entry := logCh.Take();
        batch := batch + [entry];
      }
      assert batch == batch + logCh.items;
      FlushBatch(ok);
      mode := Exited;
    }
  }
}
