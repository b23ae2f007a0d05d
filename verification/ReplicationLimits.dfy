/** Runs that do not converge, one for each way a setting can be unsound, and the resulting equivalence. */
module Limits {
  import opened Text
  import opened Names
  import opened Tables
  import opened Import
  import opened Export
  import opened Sorting
  import opened Matching
  import opened Cache
  import opened Replication
  import opened Convergence

  ghost predicate AlwaysConverges(d: Setting) {
    forall states, steps, i, j ::
      IsRun(d, states, steps) && Settled(states, steps, i, j) && CurrentReplicable(states[j]) ==> Converged(states[j])
  }

  // ---- Two publications: one domain, and nothing at all ----

  const NAME: Str := [97]
  const ONE := Content(map[NAME := Header([117], 301, true)], map[])
  const ONE_BODY := [ImportEntry(NAME, [117], 301, Some(true), [])]
  const ONE_CACHE: RuleCache := map[NAME := DomainEntry([117], 301, [])]
  const PUB_ONE := Publication([1], ONE_BODY, ONE)
  const PUB_NONE := Publication([2], [], EMPTY)

  lemma OneIsPublishable()
    ensures ValidPublication(PUB_ONE) && Replicable(ONE) && IsView(ONE_CACHE, ONE) && Imported(ONE_BODY) == ONE
  {
    var names := EntryNames(ONE_BODY);
    assert names == [NAME];
    assert Elements(names) == {NAME} by { assert NAME == names[0]; }
    assert ONE.domains.Keys == {NAME};
    assert |ONE.domains| == |ONE.domains.Keys| == 1;
    FirstSize({NAME}, EXPORT_LIMIT);
    FirstSize({NAME}, CACHE_LIMIT);
    assert ExportsEntry(ONE, ONE_BODY[0]);
    assert IsExport(ONE, ONE_BODY);
    RoundTripIsIdentityIff(ONE, ONE_BODY);
    assert IsRuleList([], ONE, NAME);
  }

  lemma NoneIsPublishable()
    ensures ValidPublication(PUB_NONE) && Replicable(EMPTY) && IsView(map[], EMPTY) && Imported([]) == EMPTY
  {
    FirstSize({}, EXPORT_LIMIT);
    assert EMPTY.domains.Keys == {};
    assert EntryNames([]) == [];
    assert Elements(EntryNames([])) == {};
    FirstSize({}, CACHE_LIMIT);
  }

  // ---- Two regions of one node each; node n is in region n ----

  datatype Pair<T> = Pair(a: T, b: T) {
    function At(n: nat): T { if n == 0 then a else b }
    function Set(n: nat, x: T): Pair<T> { if n == 0 then Pair(x, b) else Pair(a, x) }
    function ToMap(): map<nat, T> { map[0 := a, 1 := b] }
  }

  lemma SetIsUpdate<T>(p: Pair<T>, n: nat, x: T)
    requires n < 2
    ensures p.Set(n, x).ToMap() == p.ToMap()[n := x] && p.ToMap()[n] == p.At(n)
  {
  }

  datatype World = World(current: Option<Publication>, stores: Pair<Content>, nodes: Pair<Node>,
                         writer: map<Region, NodeId>, published: set<Publication>)
  {
    predicate Ok() { nodes.a.region == 0 && nodes.b.region == 1 }
    function S(): State { State(current, stores.ToMap(), nodes.ToMap(), writer, published) }

    function Mutated(n: nat, p: Publication, cache: RuleCache): World {
      World(Some(p), stores.Set(n, p.content), nodes.Set(n, nodes.At(n).(lastTag := p.tag, cache := cache)),
            writer[n := n], published + {p})
    }

    function Polled(n: nat, poll: Poll): World {
      this.(nodes := nodes.Set(n, nodes.At(n).(poll := poll)))
    }

    function Stored(n: nat, c: Content): World {
      this.(stores := stores.Set(n, c), writer := writer[n := n])
    }
  }

  ghost predicate Follows(d: Setting, s: State, step: Step, t: State) {
    Enabled(d, s, step) && t == Do(d, s, step)
  }

  lemma MutateFollows(d: Setting, w: World, n: nat, p: Publication, cache: RuleCache)
    requires n < 2 && w.Ok() && ValidPublication(p) && TagAllowed(d, w.S(), p) && IsView(cache, p.content)
    ensures Follows(d, w.S(), Mutate(n, p, cache), w.Mutated(n, p, cache).S())
  {
    SetIsUpdate(w.stores, n, p.content);
    SetIsUpdate(w.nodes, n, w.nodes.At(n).(lastTag := p.tag, cache := cache));
  }

  lemma HeadFollows(d: Setting, w: World, n: nat)
    requires n < 2 && w.Ok() && w.nodes.At(n).poll == Idle && w.current.Some?
    ensures w.nodes.At(n).lastTag == w.current.value.tag ==> Follows(d, w.S(), Head(n), w.S())
    ensures w.nodes.At(n).lastTag != w.current.value.tag ==>
              Follows(d, w.S(), Head(n), w.Polled(n, Headed(w.current.value.tag)).S())
  {
    if w.nodes.At(n).lastTag != w.current.value.tag {
      SetIsUpdate(w.nodes, n, w.nodes.At(n).(poll := Headed(w.current.value.tag)));
    }
  }

  lemma GetFollows(d: Setting, w: World, n: nat)
    requires n < 2 && w.Ok() && w.nodes.At(n).poll.Headed? && w.current.Some?
    requires d.atomicPolls ==> w.nodes.At(n).poll.tag == w.current.value.tag
    ensures Follows(d, w.S(), Get(n), w.Polled(n, Fetched(w.nodes.At(n).poll.tag, w.current.value.body)).S())
  {
    SetIsUpdate(w.nodes, n, w.nodes.At(n).(poll := Fetched(w.nodes.At(n).poll.tag, w.current.value.body)));
  }

  lemma ApplyFollows(d: Setting, w: World, n: nat, cache: RuleCache)
    requires n < 2 && w.Ok() && w.nodes.At(n).poll.Fetched? && IsView(cache, Imported(w.nodes.At(n).poll.body))
    ensures var node := w.nodes.At(n);
            Follows(d, w.S(), Apply(n, cache),
                    w.Stored(n, Imported(node.poll.body))
                      .(nodes := w.nodes.Set(n, Node(n, node.poll.tag, cache, Idle))).S())
  {
    SetIsUpdate(w.stores, n, Imported(w.nodes.At(n).poll.body));
    SetIsUpdate(w.nodes, n, Node(n, w.nodes.At(n).poll.tag, cache, Idle));
  }

  lemma ReloadFailsFollows(d: Setting, w: World, n: nat)
    requires n < 2 && w.Ok() && w.nodes.At(n).poll.Fetched? && w.current.Some? && d.reloadFaults != Never
    requires d.reloadFaults == WhenOutdated ==> w.current.value.tag != w.nodes.At(n).lastTag
    ensures Follows(d, w.S(), ReloadFails(n), w.Stored(n, Imported(w.nodes.At(n).poll.body)).Polled(n, Idle).S())
  {
    SetIsUpdate(w.stores, n, Imported(w.nodes.At(n).poll.body));
    SetIsUpdate(w.nodes, n, w.nodes.At(n).(poll := Idle));
  }

  const START := World(None, Pair(EMPTY, EMPTY), Pair(Node(0, [], map[], Idle), Node(1, [], map[], Idle)), map[], {})

  lemma ExtendRun(d: Setting, states: seq<State>, steps: seq<Step>, step: Step, v: State)
    requires IsRun(d, states, steps) && Follows(d, states[|steps|], step, v)
    ensures IsRun(d, states + [v], steps + [step])
  {
  }

  lemma Extend(d: Setting, states: seq<State>, steps: seq<Step>, w: World, step: Step, v: World)
    requires IsRun(d, states, steps) && states[|steps|] == w.S() && Follows(d, w.S(), step, v.S())
    ensures IsRun(d, states + [v.S()], steps + [step]) && (states + [v.S()])[|steps| + 1] == v.S()
  {
    ExtendRun(d, states, steps, step, v.S());
  }

  /** When both nodes are idle with the current tag, their next polls change nothing, and the run has settled. */
  lemma SettleByHeads(d: Setting, states: seq<State>, steps: seq<Step>, w: World)
    returns (states': seq<State>, steps': seq<Step>)
    requires IsRun(d, states, steps) && states[|steps|] == w.S() && w.Ok() && w.current.Some?
    requires w.nodes.a.poll == Idle && w.nodes.a.lastTag == w.current.value.tag
    requires w.nodes.b.poll == Idle && w.nodes.b.lastTag == w.current.value.tag
    ensures IsRun(d, states', steps') && |steps'| == |steps| + 2 && states'[|steps'|] == w.S()
    ensures Settled(states', steps', |steps|, |steps'|)
  {
    HeadFollows(d, w, 0);
    HeadFollows(d, w, 1);
    Extend(d, states, steps, w, Head(0), w);
    Extend(d, states + [w.S()], steps + [Head(0)], w, Head(1), w);
    states', steps' := states + [w.S()] + [w.S()], steps + [Head(0)] + [Head(1)];
    assert Completed(states', steps', |steps|, |steps'|, 0);
    assert Completed(states', steps', |steps| + 1, |steps'|, 1);
  }

  /** What a run that settled without converging looks like. */
  ghost predicate Diverges(d: Setting, states: seq<State>, steps: seq<Step>, i: nat, j: nat) {
    IsRun(d, states, steps) && Settled(states, steps, i, j) && CurrentReplicable(states[j]) && !Converged(states[j])
  }

  lemma StartsRun(d: Setting)
    ensures IsRun(d, [START.S()], [])
  {
  }

  /** Region 1 does not hold what was published last. */
  lemma EndsApart(w: World)
    requires w.Ok() && w.published <= {PUB_ONE, PUB_NONE}
    requires (w.current == Some(PUB_ONE) && w.stores.b == EMPTY) || (w.current == Some(PUB_NONE) && w.stores.b == ONE)
    ensures CurrentReplicable(w.S()) && !Converged(w.S())
  {
    OneIsPublishable();
    NoneIsPublishable();
    assert NAME in ONE.domains && NAME !in EMPTY.domains;
    assert w.S().nodes[1].region == 1 && w.S().stores[1] == w.stores.b;
  }

  // ---- Content-derived tags, and a publication between HEAD and GET ----

  const TORN1 := START.Mutated(0, PUB_ONE, ONE_CACHE)
  const TORN2 := TORN1.Polled(1, Headed([1]))
  const TORN3 := TORN2.Mutated(0, PUB_NONE, map[])
  const TORN4 := TORN3.Polled(1, Fetched([1], []))
  const TORN5 := TORN4.Stored(1, EMPTY).(nodes := TORN4.nodes.Set(1, Node(1, [1], map[], Idle)))
  const TORN6 := TORN5.Mutated(0, PUB_ONE, ONE_CACHE)

  lemma TornPollBegins(d: Setting) returns (states: seq<State>, steps: seq<Step>)
    requires !d.freshTags && !d.atomicPolls
    ensures IsRun(d, states, steps) && |steps| == 3 && states[3] == TORN3.S()
  {
    OneIsPublishable();
    NoneIsPublishable();
    MutateFollows(d, START, 0, PUB_ONE, ONE_CACHE);
    HeadFollows(d, TORN1, 1);
    MutateFollows(d, TORN2, 0, PUB_NONE, map[]);
    StartsRun(d);
    states, steps := [START.S()], [];
    Extend(d, states, steps, START, Mutate(0, PUB_ONE, ONE_CACHE), TORN1);
    states, steps := states + [TORN1.S()], steps + [Mutate(0, PUB_ONE, ONE_CACHE)];
    Extend(d, states, steps, TORN1, Head(1), TORN2);
    states, steps := states + [TORN2.S()], steps + [Head(1)];
    Extend(d, states, steps, TORN2, Mutate(0, PUB_NONE, map[]), TORN3);
    states, steps := states + [TORN3.S()], steps + [Mutate(0, PUB_NONE, map[])];
  }

  lemma TornPollEnds(d: Setting) returns (states: seq<State>, steps: seq<Step>)
    requires !d.freshTags && !d.atomicPolls
    ensures IsRun(d, states, steps) && |steps| == 6 && states[6] == TORN6.S()
  {
    states, steps := TornPollBegins(d);
    OneIsPublishable();
    NoneIsPublishable();
    GetFollows(d, TORN3, 1);
    ApplyFollows(d, TORN4, 1, map[]);
    MutateFollows(d, TORN5, 0, PUB_ONE, ONE_CACHE);
    Extend(d, states, steps, TORN3, Get(1), TORN4);
    states, steps := states + [TORN4.S()], steps + [Get(1)];
    Extend(d, states, steps, TORN4, Apply(1, map[]), TORN5);
    states, steps := states + [TORN5.S()], steps + [Apply(1, map[])];
    Extend(d, states, steps, TORN5, Mutate(0, PUB_ONE, ONE_CACHE), TORN6);
    states, steps := states + [TORN6.S()], steps + [Mutate(0, PUB_ONE, ONE_CACHE)];
  }

  /** The tag read before comes back with the old body, and hides that a newer body was imported. */
  lemma TagComesBack(d: Setting) returns (states: seq<State>, steps: seq<Step>)
    requires !d.freshTags && !d.atomicPolls
    ensures Diverges(d, states, steps, 6, 8)
  {
    var prefix, first := TornPollEnds(d);
    states, steps := SettleByHeads(d, prefix, first, TORN6);
    EndsApart(TORN6);
  }

  // ---- Content-derived tags, and a reload that fails ----

  const STALE1 := START.Mutated(1, PUB_ONE, ONE_CACHE)
  const STALE2 := STALE1.Mutated(0, PUB_NONE, map[])
  const STALE3 := STALE2.Polled(1, Headed([2]))
  const STALE4 := STALE3.Polled(1, Fetched([2], []))
  const STALE5 := STALE4.Stored(1, EMPTY).Polled(1, Idle)
  const STALE6 := STALE5.Mutated(0, PUB_ONE, ONE_CACHE)

  lemma StaleStoreBegins(d: Setting) returns (states: seq<State>, steps: seq<Step>)
    requires !d.freshTags
    ensures IsRun(d, states, steps) && |steps| == 3 && states[3] == STALE3.S()
  {
    OneIsPublishable();
    NoneIsPublishable();
    MutateFollows(d, START, 1, PUB_ONE, ONE_CACHE);
    MutateFollows(d, STALE1, 0, PUB_NONE, map[]);
    HeadFollows(d, STALE2, 1);
    StartsRun(d);
    states, steps := [START.S()], [];
    Extend(d, states, steps, START, Mutate(1, PUB_ONE, ONE_CACHE), STALE1);
    states, steps := states + [STALE1.S()], steps + [Mutate(1, PUB_ONE, ONE_CACHE)];
    Extend(d, states, steps, STALE1, Mutate(0, PUB_NONE, map[]), STALE2);
    states, steps := states + [STALE2.S()], steps + [Mutate(0, PUB_NONE, map[])];
    Extend(d, states, steps, STALE2, Head(1), STALE3);
    states, steps := states + [STALE3.S()], steps + [Head(1)];
  }

  lemma StaleStoreEnds(d: Setting) returns (states: seq<State>, steps: seq<Step>)
    requires !d.freshTags && d.reloadFaults == WhenOutdated
    ensures IsRun(d, states, steps) && |steps| == 6 && states[6] == STALE6.S()
  {
    states, steps := StaleStoreBegins(d);
    OneIsPublishable();
    NoneIsPublishable();
    GetFollows(d, STALE3, 1);
    ReloadFailsFollows(d, STALE4, 1);
    MutateFollows(d, STALE5, 0, PUB_ONE, ONE_CACHE);
    Extend(d, states, steps, STALE3, Get(1), STALE4);
    states, steps := states + [STALE4.S()], steps + [Get(1)];
    Extend(d, states, steps, STALE4, ReloadFails(1), STALE5);
    states, steps := states + [STALE5.S()], steps + [ReloadFails(1)];
    Extend(d, states, steps, STALE5, Mutate(0, PUB_ONE, ONE_CACHE), STALE6);
    states, steps := states + [STALE6.S()], steps + [Mutate(0, PUB_ONE, ONE_CACHE)];
  }

  /** A node that imported a newer body but could not reload still holds the old tag when that comes back. */
  lemma FailedReloadHides(d: Setting) returns (states: seq<State>, steps: seq<Step>)
    requires !d.freshTags && d.reloadFaults == WhenOutdated
    ensures Diverges(d, states, steps, 6, 8)
  {
    var prefix, first := StaleStoreEnds(d);
    states, steps := SettleByHeads(d, prefix, first, STALE6);
    EndsApart(STALE6);
  }

  // ---- A reload that fails after the node itself has published ----

  const LOST1 := START.Mutated(0, PUB_ONE, ONE_CACHE)
  const LOST2 := LOST1.Polled(1, Headed([1]))
  const LOST3 := LOST2.Polled(1, Fetched([1], ONE_BODY))
  const LOST4 := LOST3.Mutated(1, PUB_NONE, map[])
  const LOST5 := LOST4.Stored(1, ONE).Polled(1, Idle)
  const LOST6 := LOST5.Polled(0, Headed([2]))
  const LOST7 := LOST6.Polled(0, Fetched([2], []))
  const LOST8 := LOST7.Stored(0, EMPTY).(nodes := LOST7.nodes.Set(0, Node(0, [2], map[], Idle)))

  lemma LostUpdateBegins(d: Setting) returns (states: seq<State>, steps: seq<Step>)
    ensures IsRun(d, states, steps) && |steps| == 3 && states[3] == LOST3.S()
  {
    OneIsPublishable();
    MutateFollows(d, START, 0, PUB_ONE, ONE_CACHE);
    HeadFollows(d, LOST1, 1);
    GetFollows(d, LOST2, 1);
    StartsRun(d);
    states, steps := [START.S()], [];
    Extend(d, states, steps, START, Mutate(0, PUB_ONE, ONE_CACHE), LOST1);
    states, steps := states + [LOST1.S()], steps + [Mutate(0, PUB_ONE, ONE_CACHE)];
    Extend(d, states, steps, LOST1, Head(1), LOST2);
    states, steps := states + [LOST2.S()], steps + [Head(1)];
    Extend(d, states, steps, LOST2, Get(1), LOST3);
    states, steps := states + [LOST3.S()], steps + [Get(1)];
  }

  lemma LostUpdateHappens(d: Setting) returns (states: seq<State>, steps: seq<Step>)
    requires d.reloadFaults == Anytime
    ensures IsRun(d, states, steps) && |steps| == 5 && states[5] == LOST5.S()
  {
    states, steps := LostUpdateBegins(d);
    OneIsPublishable();
    NoneIsPublishable();
    MutateFollows(d, LOST3, 1, PUB_NONE, map[]);
    ReloadFailsFollows(d, LOST4, 1);
    Extend(d, states, steps, LOST3, Mutate(1, PUB_NONE, map[]), LOST4);
    states, steps := states + [LOST4.S()], steps + [Mutate(1, PUB_NONE, map[])];
    Extend(d, states, steps, LOST4, ReloadFails(1), LOST5);
    states, steps := states + [LOST5.S()], steps + [ReloadFails(1)];
  }

  lemma OtherNodePolls(d: Setting) returns (states: seq<State>, steps: seq<Step>)
    requires d.reloadFaults == Anytime
    ensures IsRun(d, states, steps) && |steps| == 8 && states[8] == LOST8.S()
  {
    states, steps := LostUpdateHappens(d);
    NoneIsPublishable();
    HeadFollows(d, LOST5, 0);
    GetFollows(d, LOST6, 0);
    ApplyFollows(d, LOST7, 0, map[]);
    Extend(d, states, steps, LOST5, Head(0), LOST6);
    states, steps := states + [LOST6.S()], steps + [Head(0)];
    Extend(d, states, steps, LOST6, Get(0), LOST7);
    states, steps := states + [LOST7.S()], steps + [Get(0)];
    Extend(d, states, steps, LOST7, Apply(0, map[]), LOST8);
    states, steps := states + [LOST8.S()], steps + [Apply(0, map[])];
  }

  /** The node holds the tag it published with, over a store that its late import has overwritten. */
  lemma PublisherLosesUpdate(d: Setting) returns (states: seq<State>, steps: seq<Step>)
    requires d.reloadFaults == Anytime
    ensures Diverges(d, states, steps, 8, 10)
  {
    var prefix, first := OtherNodePolls(d);
    states, steps := SettleByHeads(d, prefix, first, LOST8);
    EndsApart(LOST8);
  }

  // ---- Exactly the sound settings converge ----

  lemma ConvergesIffSound(d: Setting)
    ensures AlwaysConverges(d) <==> Sound(d)
  {
    if Sound(d) {
      forall states, steps, i, j
        | IsRun(d, states, steps) && Settled(states, steps, i, j) && CurrentReplicable(states[j])
        ensures Converged(states[j])
      {
        EverythingConverges(d, states, steps, i, j);
      }
    } else if d.reloadFaults == Anytime {
      var states, steps := PublisherLosesUpdate(d);
      assert Diverges(d, states, steps, 8, 10);
    } else if !d.atomicPolls {
      var states, steps := TagComesBack(d);
      assert Diverges(d, states, steps, 6, 8);
    } else {
      var states, steps := FailedReloadHides(d);
      assert Diverges(d, states, steps, 6, 8);
    }
  }
}
