/** Convergence, quiescence, and exactly when they hold. */
module Convergence {
  import opened Text
  import opened Tables
  import opened Import
  import opened Export
  import opened Cache
  import opened Replication

  /** The step does not end a poll of node n without a reload. */
  predicate Unharmed(step: Step, n: NodeId) {
    step != Abort(n) && step != ReloadFails(n) && !(step.Restart? && step.n == n)
  }

  /** Node n begins a poll at step h, which has completed without error or restart of n by state j. */
  ghost predicate Completed(states: seq<State>, steps: seq<Step>, h: nat, j: nat, n: NodeId) {
    && h < j < |states| && |states| == |steps| + 1
    && steps[h] == Head(n)
    && (forall k :: h <= k < j ==> Unharmed(steps[k], n))
    && n in states[j].nodes && states[j].nodes[n].poll == Idle
  }

  /** From state i to state j nothing is published, and every node completes a poll. */
  ghost predicate Settled(states: seq<State>, steps: seq<Step>, i: nat, j: nat) {
    && i <= j < |states| && |states| == |steps| + 1
    && (forall k :: i <= k < j ==> !steps[k].Mutate?)
    && (forall n :: n in states[j].nodes ==> exists h :: i <= h && Completed(states, steps, h, j, n))
  }

  /** All that was published under the current tag fits in a snapshot. */
  ghost predicate CurrentReplicable(s: State) {
    s.current.Some? && forall p :: p in s.published && p.tag == s.current.value.tag ==> Replicable(p.content)
  }

  /** Every region's store, and every node's cache, is what was published last. */
  ghost predicate Converged(s: State) {
    s.current.Some? &&
    forall n :: n in s.nodes ==>
      && s.nodes[n].region in s.stores && s.stores[s.nodes[n].region] == s.current.value.content
      && IsView(s.nodes[n].cache, s.current.value.content)
  }

  ghost predicate CatchingUp(s: State, n: NodeId) {
    s.current.Some? && n in s.nodes &&
    match s.nodes[n].poll
    case Idle => s.nodes[n].lastTag == s.current.value.tag
    case Headed(t) => t == s.current.value.tag
    case Fetched(t, _) => t == s.current.value.tag
  }

  lemma CatchingUpStep(d: Setting, s: State, step: Step, n: NodeId)
    requires Enabled(d, s, step) && !step.Mutate? && Unharmed(step, n)
    requires step == Head(n) || CatchingUp(s, n)
    ensures CatchingUp(Do(d, s, step), n) && Do(d, s, step).current == s.current
  {
  }

  /** A poll that begins after the last publication and completes leaves the node with the current tag. */
  lemma {:induction false} PollCatchesUp(d: Setting, states: seq<State>, steps: seq<Step>, h: nat, j: nat, n: NodeId)
    requires IsRun(d, states, steps) && h < j < |states| && steps[h] == Head(n)
    requires forall k :: h <= k < j ==> !steps[k].Mutate? && Unharmed(steps[k], n)
    ensures CatchingUp(states[j], n) && states[j].current == states[h].current
    decreases j
  {
    if h == j - 1 {
    } else {
      PollCatchesUp(d, states, steps, h, j - 1, n);
    }
    CatchingUpStep(d, states[j - 1], steps[j - 1], n);
  }

  /** When things have settled, every cache and every store reflects the current object. */
  lemma SettledReflects(d: Setting, states: seq<State>, steps: seq<Step>, i: nat, j: nat, n: NodeId)
    requires Sound(d) && IsRun(d, states, steps) && Settled(states, steps, i, j) && n in states[j].nodes
    ensures var s := states[j];
            && s.current.Some? && s.nodes[n].region in s.stores
            && (exists p :: p in s.published && p.tag == s.current.value.tag && Reflects(s.nodes[n].cache, p))
            && (exists p :: p in s.published && p.tag == s.current.value.tag && Brings(p, s.stores[s.nodes[n].region]))
  {
    var s := states[j];
    AllCaughtUp(d, states, steps, i, j);
    InvAlways(d, states, steps, j);
    assert NodeOk(d, s, s.nodes[n]) && ValidPublication(s.current.value);
    TagSoundness(d, states, steps, j, n);
    var r := s.nodes[n].region;
    assert WriterOk(d, s, r);
    var w := s.nodes[s.writer[r]];
    var p :| p in s.published && p.tag == w.lastTag && (Obsolete(d, s, p) || Brings(p, s.stores[r]));
    assert p.tag == s.current.value.tag;
    assert !Obsolete(d, s, p);
  }

  lemma AllCaughtUp(d: Setting, states: seq<State>, steps: seq<Step>, i: nat, j: nat)
    requires Sound(d) && IsRun(d, states, steps) && Settled(states, steps, i, j)
    ensures states[j].nodes.Keys != {} ==> states[j].current.Some? && states[j].current.value in states[j].published
    ensures forall n :: n in states[j].nodes ==> states[j].nodes[n].lastTag == states[j].current.value.tag
  {
    forall n | n in states[j].nodes
      ensures states[j].current.Some? && states[j].nodes[n].lastTag == states[j].current.value.tag
    {
      var h :| i <= h && Completed(states, steps, h, j, n);
      PollCatchesUp(d, states, steps, h, j, n);
    }
    InvAlways(d, states, steps, j);
  }

  /** Once every node has completed a poll after the last publication, everything equals what was published. */
  lemma EverythingConverges(d: Setting, states: seq<State>, steps: seq<Step>, i: nat, j: nat)
    requires Sound(d) && IsRun(d, states, steps) && Settled(states, steps, i, j)
    requires CurrentReplicable(states[j])
    ensures Converged(states[j])
  {
    var s := states[j];
    InvAlways(d, states, steps, j);
    var cur := s.current.value;
    forall p | p in s.published && p.tag == cur.tag ensures p.content == Imported(p.body) == cur.content {
      assert ValidPublication(p) && ValidPublication(cur);
      RoundTripIsIdentityIff(p.content, p.body);
      RoundTripIsIdentityIff(cur.content, cur.body);
      assert p.body == cur.body;
    }
    forall n | n in s.nodes
      ensures s.nodes[n].region in s.stores && s.stores[s.nodes[n].region] == cur.content
      ensures IsView(s.nodes[n].cache, cur.content)
    {
      SettledReflects(d, states, steps, i, j, n);
    }
  }

  // ---- Quiescence ----

  /** How many imports node n may still make before it holds the current tag. */
  ghost function Pending(s: State, n: NodeId): nat
    requires s.current.Some? && n in s.nodes
  {
    match s.nodes[n].poll
    case Idle => if s.nodes[n].lastTag == s.current.value.tag then 0 else 1
    case Headed(t) => if t == s.current.value.tag then 1 else 2
    case Fetched(t, _) => if t == s.current.value.tag then 1 else 2
  }

  /** Steps of n that commit an import, whether the reload after it succeeds or not. */
  function Imports(steps: seq<Step>, n: NodeId): nat {
    if steps == [] then 0
    else Imports(steps[..|steps| - 1], n) + if IsImport(steps[|steps| - 1], n) then 1 else 0
  }

  predicate IsImport(step: Step, n: NodeId) {
    (step.Apply? || step.ReloadFails?) && step.n == n
  }

  /** Imports of n whose reload failed. */
  function FailedReloads(steps: seq<Step>, n: NodeId): nat {
    if steps == [] then 0
    else FailedReloads(steps[..|steps| - 1], n) + if steps[|steps| - 1] == ReloadFails(n) then 1 else 0
  }

  /** Nothing is published, and node n does not restart. */
  predicate Quiet(step: Step, n: NodeId) {
    !step.Mutate? && !(step.Restart? && step.n == n)
  }

  /** Polls never change the object; each import by n whose reload succeeds uses up one of those pending. */
  lemma QuietStep(d: Setting, s: State, step: Step, n: NodeId)
    requires Enabled(d, s, step) && Quiet(step, n) && s.current.Some? && n in s.nodes
    ensures var t := Do(d, s, step);
            && t.current == s.current && t.published == s.published && n in t.nodes
            && Pending(t, n) + (if IsImport(step, n) then 1 else 0) <=
               Pending(s, n) + (if step == ReloadFails(n) then 1 else 0)
            && (Pending(s, n) == 0 ==> t.nodes[n] == s.nodes[n] && (step.n == n ==> step == Head(n) && t == s))
  {
  }

  lemma ImportsStep(steps: seq<Step>, i: nat, j: nat, n: NodeId)
    requires i < j <= |steps|
    ensures Imports(steps[i..j], n) == Imports(steps[i..j - 1], n) + if IsImport(steps[j - 1], n) then 1 else 0
    ensures FailedReloads(steps[i..j], n) ==
            FailedReloads(steps[i..j - 1], n) + if steps[j - 1] == ReloadFails(n) then 1 else 0
  {
    assert steps[i..j][..j - 1 - i] == steps[i..j - 1];
  }

  /** After the last publication each node imports at most twice, and once more for each failed reload. */
  lemma {:induction false} AtMostTwoImports(d: Setting, states: seq<State>, steps: seq<Step>, i: nat, j: nat, n: NodeId)
    requires IsRun(d, states, steps) && i <= j < |states|
    requires forall k :: i <= k < j ==> Quiet(steps[k], n)
    requires states[i].current.Some? && n in states[i].nodes
    ensures states[j].current == states[i].current && n in states[j].nodes
    ensures Imports(steps[i..j], n) + Pending(states[j], n) <= Pending(states[i], n) + FailedReloads(steps[i..j], n)
    ensures Imports(steps[i..j], n) <= 2 + FailedReloads(steps[i..j], n)
    decreases j
  {
    if i == j {
    } else {
      AtMostTwoImports(d, states, steps, i, j - 1, n);
      QuietStep(d, states[j - 1], steps[j - 1], n);
      ImportsStep(steps, i, j, n);
    }
  }

  /** Once nothing is pending, the node stays as it is, and each of its polls is a HEAD that changes nothing. */
  lemma {:induction false} PollsAreIdle(d: Setting, states: seq<State>, steps: seq<Step>, i: nat, j: nat, n: NodeId)
    requires IsRun(d, states, steps) && i <= j < |states|
    requires forall k :: i <= k < j ==> Quiet(steps[k], n)
    requires states[i].current.Some? && n in states[i].nodes && Pending(states[i], n) == 0
    ensures states[j].current == states[i].current
    ensures n in states[j].nodes && states[j].nodes[n] == states[i].nodes[n]
    ensures forall k :: i <= k < j && steps[k].n == n ==> steps[k] == Head(n) && states[k + 1] == states[k]
    decreases j
  {
    if i == j {
    } else {
      PollsAreIdle(d, states, steps, i, j - 1, n);
      QuietStep(d, states[j - 1], steps[j - 1], n);
    }
  }

  /** Two imports without a failed reload, or one completed poll, leave nothing pending. */
  lemma NothingPending(d: Setting, states: seq<State>, steps: seq<Step>, i: nat, j: nat, n: NodeId)
    requires IsRun(d, states, steps) && i <= j < |states|
    requires forall k :: i <= k < j ==> Quiet(steps[k], n)
    requires states[i].current.Some? && n in states[i].nodes
    requires Imports(steps[i..j], n) >= 2 + FailedReloads(steps[i..j], n) ||
             exists h :: i <= h && Completed(states, steps, h, j, n)
    ensures states[j].current.Some? && n in states[j].nodes && Pending(states[j], n) == 0
  {
    AtMostTwoImports(d, states, steps, i, j, n);
    if h :| i <= h && Completed(states, steps, h, j, n) {
      PollCatchesUp(d, states, steps, h, j, n);
    }
  }

  // ---- Content that does not fit ----

  /** Bodies on their way into a store have been published. */
  ghost predicate Sourced(s: State) {
    && (s.current.Some? ==> s.current.value in s.published)
    && (forall p :: p in s.published ==> ValidPublication(p))
    && (forall n :: n in s.nodes && s.nodes[n].poll.Fetched? ==>
          exists p :: p in s.published && p.body == s.nodes[n].poll.body)
  }

  lemma StepKeepsSourced(d: Setting, s: State, step: Step)
    requires Sourced(s) && Enabled(d, s, step)
    ensures Sourced(Do(d, s, step))
  {
    var t := Do(d, s, step);
    assert forall p :: p in s.published ==> p in t.published;
    forall m | m in t.nodes && t.nodes[m].poll.Fetched?
      ensures exists p :: p in t.published && p.body == t.nodes[m].poll.body
    {
      if m == step.n && step.Get? {
        assert s.current.value in t.published;
      } else {
        var p :| p in s.published && p.body == s.nodes[m].poll.body;
        assert p in t.published;
      }
    }
  }

  lemma {:induction false} AlwaysSourced(d: Setting, states: seq<State>, steps: seq<Step>, i: nat)
    requires IsRun(d, states, steps) && i < |states|
    ensures Sourced(states[i])
  {
    if i == 0 {
    } else {
      AlwaysSourced(d, states, steps, i - 1);
      StepKeepsSourced(d, states[i - 1], steps[i - 1]);
    }
  }

  /** Whatever was published, importing it gives a replicable content. */
  lemma ImportIsReplicable(p: Publication)
    requires ValidPublication(p)
    ensures Replicable(Imported(p.body))
  {
    RoundTrip(p.content, p.body);
    CutSize(p.content);
    NormalHasNoZero(Cut(p.content, EXPORT_LIMIT));
  }

  /** An import leaves a replicable content in the store of its region. */
  lemma ImportStores(d: Setting, s: State, step: Step)
    requires Sourced(s) && Enabled(d, s, step) && IsImport(step, step.n)
    ensures var t, r := Do(d, s, step), s.nodes[step.n].region; r in t.stores && Replicable(t.stores[r])
  {
    var p :| p in s.published && p.body == s.nodes[step.n].poll.body;
    ImportIsReplicable(p);
  }

  /** Regions and nodes stay, and without a mutation a replicable store stays replicable. */
  lemma StepKeepsReplicable(d: Setting, s: State, step: Step, n: NodeId)
    requires Sourced(s) && Enabled(d, s, step) && !step.Mutate? && n in s.nodes
    requires s.nodes[n].region in s.stores && Replicable(s.stores[s.nodes[n].region])
    ensures var t, r := Do(d, s, step), s.nodes[n].region;
            n in t.nodes && t.nodes[n].region == r && r in t.stores && Replicable(t.stores[r])
  {
    if IsImport(step, step.n) {
      ImportStores(d, s, step);
    }
  }

  lemma {:induction false} StaysReplicable(d: Setting, states: seq<State>, steps: seq<Step>, l: nat, j: nat)
    requires IsRun(d, states, steps) && l < j < |states| && IsImport(steps[l], steps[l].n)
    requires forall k :: l <= k < j ==> !steps[k].Mutate?
    ensures var s, n := states[j], steps[l].n;
            n in s.nodes && s.nodes[n].region in s.stores && Replicable(s.stores[s.nodes[n].region])
    decreases j
  {
    AlwaysSourced(d, states, steps, j - 1);
    if j == l + 1 {
      ImportStores(d, states[l], steps[l]);
    } else {
      StaysReplicable(d, states, steps, l, j - 1);
      StepKeepsReplicable(d, states[j - 1], steps[j - 1], steps[l].n);
    }
  }

  /** In any setting: if something was imported after the last publication, only replicable content converges. */
  lemma ConvergedIsReplicable(d: Setting, states: seq<State>, steps: seq<Step>, l: nat, j: nat)
    requires IsRun(d, states, steps) && l < j < |states| && IsImport(steps[l], steps[l].n)
    requires (forall k :: l <= k < j ==> !steps[k].Mutate?) && Converged(states[j])
    ensures Replicable(states[j].current.value.content)
  {
    StaysReplicable(d, states, steps, l, j);
  }

  /**
   * With fresh tags, once every node has completed a poll after the last publication and some node
   * has imported, everything equals what was published if and only if that is replicable.
   */
  lemma ConvergesIffReplicable(d: Setting, states: seq<State>, steps: seq<Step>, i: nat, l: nat, j: nat)
    requires Sound(d) && d.freshTags && IsRun(d, states, steps) && Settled(states, steps, i, j)
    requires i <= l < j && IsImport(steps[l], steps[l].n) && states[j].current.Some?
    ensures Converged(states[j]) <==> Replicable(states[j].current.value.content)
  {
    if Converged(states[j]) {
      ConvergedIsReplicable(d, states, steps, l, j);
    }
    if Replicable(states[j].current.value.content) {
      InvAlways(d, states, steps, j);
      EverythingConverges(d, states, steps, i, j);
    }
  }

  /** Since p was published by m: no other node holds its tag, the stores are as they were, and m serves it. */
  ghost predicate OnlyPublisher(s: State, p: Publication, m: NodeId, stores: map<Region, Content>) {
    && s.current == Some(p) && s.stores == stores
    && (forall n :: n in s.nodes && n != m ==> s.nodes[n].lastTag != p.tag)
    && m in s.nodes && s.nodes[m].region in stores
    && stores[s.nodes[m].region] == p.content && IsView(s.nodes[m].cache, p.content)
  }

  lemma FreshTagIsHeldByPublisher(d: Setting, s: State, step: Step)
    requires d.freshTags && Inv(d, s) && Enabled(d, s, step) && step.Mutate?
    ensures OnlyPublisher(Do(d, s, step), step.p, step.n, Do(d, s, step).stores)
  {
    var t := Do(d, s, step);
    forall n | n in t.nodes && n != step.n ensures t.nodes[n].lastTag != step.p.tag {
      assert NodeOk(d, s, s.nodes[n]);
    }
  }

  lemma StepKeepsOnlyPublisher(d: Setting, s: State, step: Step, p: Publication, m: NodeId,
                               stores: map<Region, Content>)
    requires OnlyPublisher(s, p, m, stores) && Enabled(d, s, step) && p.tag != []
    requires !step.Mutate? && !IsImport(step, step.n)
    ensures OnlyPublisher(Do(d, s, step), p, m, stores)
  {
  }

  lemma {:induction false} StaysOnlyPublisher(d: Setting, states: seq<State>, steps: seq<Step>, i: nat, j: nat)
    requires d.freshTags && Sound(d) && IsRun(d, states, steps) && 0 < i <= j < |states| && steps[i - 1].Mutate?
    requires forall k :: i <= k < j ==> !steps[k].Mutate? && !IsImport(steps[k], steps[k].n)
    ensures OnlyPublisher(states[j], steps[i - 1].p, steps[i - 1].n, states[i].stores)
    decreases j
  {
    if i == j {
      InvAlways(d, states, steps, i - 1);
      FreshTagIsHeldByPublisher(d, states[i - 1], steps[i - 1]);
    } else {
      StaysOnlyPublisher(d, states, steps, i, j - 1);
      assert Enabled(d, states[i - 1], steps[i - 1]) && ValidPublication(steps[i - 1].p);
      StepKeepsOnlyPublisher(d, states[j - 1], steps[j - 1], steps[i - 1].p, steps[i - 1].n, states[i].stores);
    }
  }

  /**
   * With fresh tags, from the last publication on: once every node has completed a poll, everything
   * equals what was published if and only if that is replicable or nothing was imported. (In the
   * latter case the publisher is the only node.)
   */
  lemma ConvergesExactlyIf(d: Setting, states: seq<State>, steps: seq<Step>, i: nat, j: nat)
    requires Sound(d) && d.freshTags && IsRun(d, states, steps) && Settled(states, steps, i, j)
    requires i > 0 && steps[i - 1].Mutate?
    ensures states[j].current == Some(steps[i - 1].p)
    ensures Converged(states[j]) <==>
            Replicable(steps[i - 1].p.content) || forall l :: i <= l < j ==> !IsImport(steps[l], steps[l].n)
  {
    SameCurrent(d, states, steps, i, j);
    if l :| i <= l < j && IsImport(steps[l], steps[l].n) {
      ConvergesIffReplicable(d, states, steps, i, l, j);
    } else {
      StaysOnlyPublisher(d, states, steps, i, j);
      AllCaughtUp(d, states, steps, i, j);
      assert forall n :: n in states[j].nodes ==> n == steps[i - 1].n;
    }
  }

  lemma {:induction false} SameCurrent(d: Setting, states: seq<State>, steps: seq<Step>, i: nat, j: nat)
    requires IsRun(d, states, steps) && 0 < i <= j < |states| && steps[i - 1].Mutate?
    requires forall k :: i <= k < j ==> !steps[k].Mutate?
    ensures states[j].current == Some(steps[i - 1].p)
    decreases j
  {
    if i == j {
      assert states[i] == Do(d, states[i - 1], steps[i - 1]);
    } else {
      SameCurrent(d, states, steps, i, j - 1);
      assert states[j] == Do(d, states[j - 1], steps[j - 1]);
    }
  }

  // ---- What a region-mate's poll does to a store that does not fit ----

  /**
   * Node n publishes content; another node m of the same region then polls. The store they share
   * ends up cut to the first EXPORT_LIMIT domains: it keeps what n wrote exactly when that is replicable.
   */
  lemma MatePollCutsSharedStore(d: Setting, s: State, n: NodeId, m: NodeId, p: Publication,
                                cache: RuleCache, mateCache: RuleCache)
    requires n != m && m in s.nodes && s.nodes[m].poll == Idle && s.nodes[m].lastTag != p.tag
    requires Enabled(d, s, Mutate(n, p, cache)) && s.nodes[m].region == s.nodes[n].region
    requires IsView(mateCache, Imported(p.body))
    ensures var r := s.nodes[n].region;
            var published := Do(d, s, Mutate(n, p, cache));
            && Enabled(d, published, Head(m)) && var headed := Do(d, published, Head(m));
            && Enabled(d, headed, Get(m)) && var fetched := Do(d, headed, Get(m));
            && Enabled(d, fetched, Apply(m, mateCache)) && var t := Do(d, fetched, Apply(m, mateCache));
            && published.stores[r] == p.content
            && t.stores[r] == Normal(Cut(p.content, EXPORT_LIMIT))
            && (t.stores[r] == published.stores[r] <==> Replicable(p.content))
            && t.nodes[n].lastTag == p.tag
  {
    RoundTrip(p.content, p.body);
    RoundTripIsIdentityIff(p.content, p.body);
  }
}
