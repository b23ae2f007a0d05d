/**
 * Replication across regions as a transition system. Several nodes share one store per region.
 * A mutation writes the store, reloads the mutating node and publishes a snapshot, in one step.
 * A poll is three steps, HEAD, GET and import-with-reload, and any other step may come between.
 */
module Replication {
  import opened Text
  import opened Tables
  import opened Import
  import opened Export
  import opened Cache

  type NodeId = nat
  type Region = nat
  type Tag = Str

  /** A published object. content, of which body is the export, is history: no node can see it. */
  datatype Publication = Publication(tag: Tag, body: seq<ImportEntry>, content: Content)

  datatype Poll = Idle | Headed(tag: Tag) | Fetched(tag: Tag, body: seq<ImportEntry>)

  datatype Node = Node(region: Region, lastTag: Tag, cache: RuleCache, poll: Poll)

  /** writer (who last wrote each region's store) and published (all objects so far) are history. */
  datatype State = State(
    current: Option<Publication>, stores: map<Region, Content>, nodes: map<NodeId, Node>,
    writer: map<Region, NodeId>, published: set<Publication>)

  /**
   * When a reload may fail after the import it follows has been committed. WhenOutdated: only at a
   * node that does not hold the tag of the current object, be it that it has not published since
   * its GET, or that another node has published after it.
   */
  datatype ReloadFaults = Never | WhenOutdated | Anytime

  /**
   * What is assumed of the surroundings. freshTags: object storage never repeats a tag; otherwise a
   * tag may come back, with the same body. atomicPolls: the object does not change between HEAD and GET.
   */
  datatype Setting = Setting(freshTags: bool, atomicPolls: bool, reloadFaults: ReloadFaults)

  /** tag, content, body: what is written and published. cache: what the reload loads. */
  datatype Step =
    | Mutate(n: NodeId, p: Publication, cache: RuleCache)
    | Head(n: NodeId)
    | Get(n: NodeId)
    | Apply(n: NodeId, cache: RuleCache)
    | Abort(n: NodeId)
    | ReloadFails(n: NodeId)
    | Restart(n: NodeId, cache: RuleCache)

  // ---- Transitions ----

  ghost predicate ValidPublication(p: Publication) {
    p.tag != [] && p.content.WellFormed() && IsExport(p.content, p.body)
  }

  ghost predicate TagAllowed(d: Setting, s: State, p: Publication) {
    forall q :: q in s.published && q.tag == p.tag ==> !d.freshTags && q.body == p.body
  }

  ghost predicate Enabled(d: Setting, s: State, step: Step) {
    step.n in s.nodes && s.nodes[step.n].region in s.stores &&
    var node := s.nodes[step.n];
    match step
    case Mutate(_, p, cache) => ValidPublication(p) && TagAllowed(d, s, p) && IsView(cache, p.content)
    case Head(_) => node.poll == Idle && s.current.Some?
    case Get(_) => node.poll.Headed? && s.current.Some? && (d.atomicPolls ==> s.current.value.tag == node.poll.tag)
    case Apply(_, cache) => node.poll.Fetched? && IsView(cache, Imported(node.poll.body))
    case Abort(_) => node.poll != Idle
    case ReloadFails(_) =>
      node.poll.Fetched? && s.current.Some? && d.reloadFaults != Never &&
      (d.reloadFaults == WhenOutdated ==> s.current.value.tag != node.lastTag)
    case Restart(_, cache) => IsView(cache, s.stores[node.region])
  }

  function WithNode(s: State, n: NodeId, node: Node): State {
    s.(nodes := s.nodes[n := node])
  }

  function WithStore(s: State, n: NodeId, r: Region, c: Content): State {
    s.(stores := s.stores[r := c], writer := s.writer[r := n])
  }

  ghost function Do(d: Setting, s: State, step: Step): State
    requires Enabled(d, s, step)
  {
    var n, node := step.n, s.nodes[step.n];
    match step
    case Mutate(_, p, cache) =>
      WithNode(WithStore(s, n, node.region, p.content), n, node.(lastTag := p.tag, cache := cache))
        .(current := Some(p), published := s.published + {p})
    case Head(_) =>
      if s.current.value.tag == node.lastTag then s
      else WithNode(s, n, node.(poll := Headed(s.current.value.tag)))
    case Get(_) => WithNode(s, n, node.(poll := Fetched(node.poll.tag, s.current.value.body)))
    case Apply(_, cache) =>
      WithNode(WithStore(s, n, node.region, Imported(node.poll.body)), n,
               node.(lastTag := node.poll.tag, cache := cache, poll := Idle))
    case Abort(_) => WithNode(s, n, node.(poll := Idle))
    case ReloadFails(_) =>
      WithNode(WithStore(s, n, node.region, Imported(node.poll.body)), n, node.(poll := Idle))
    case Restart(_, cache) => WithNode(s, n, node.(lastTag := [], cache := cache, poll := Idle))
  }

  ghost predicate Init(s: State) {
    && (match s.current case None => s.published == {} case Some(p) => ValidPublication(p) && s.published == {p})
    && s.writer == map[]
    && (forall n :: n in s.nodes ==>
          s.nodes[n].region in s.stores && s.nodes[n].lastTag == [] && s.nodes[n].poll == Idle)
  }

  ghost predicate IsRun(d: Setting, states: seq<State>, steps: seq<Step>) {
    && |states| == |steps| + 1
    && Init(states[0])
    && forall i :: 0 <= i < |steps| ==> Enabled(d, states[i], steps[i]) && states[i + 1] == Do(d, states[i], steps[i])
  }

  // ---- The invariant ----

  /** The settings in which the protocol is right. */
  predicate Sound(d: Setting) {
    (d.freshTags && d.reloadFaults != Anytime) || (d.atomicPolls && d.reloadFaults == Never)
  }

  /** With fresh tags, an object that has been replaced never becomes current again. */
  ghost predicate Obsolete(d: Setting, s: State, p: Publication) {
    d.freshTags && s.current != Some(p)
  }

  ghost predicate FetchedFor(d: Setting, s: State, tag: Tag, body: seq<ImportEntry>) {
    exists p :: p in s.published && p.tag == tag && (Obsolete(d, s, p) || p.body == body)
  }

  /** c is what p brings: the content it was exported from, or what importing it gives. */
  ghost predicate Brings(p: Publication, c: Content) {
    c == p.content || c == Imported(p.body)
  }

  ghost predicate StoreFor(d: Setting, s: State, tag: Tag, c: Content) {
    exists p :: p in s.published && p.tag == tag && (Obsolete(d, s, p) || Brings(p, c))
  }

  ghost predicate Reflects(cache: RuleCache, p: Publication) {
    IsView(cache, p.content) || IsView(cache, Imported(p.body))
  }

  ghost predicate CacheFor(d: Setting, s: State, tag: Tag, cache: RuleCache) {
    exists p :: p in s.published && p.tag == tag && (Obsolete(d, s, p) || Reflects(cache, p))
  }

  ghost predicate PublishedOk(d: Setting, s: State) {
    && (s.current.Some? ==> s.current.value in s.published)
    && (forall p :: p in s.published ==> ValidPublication(p))
    && (forall p, q :: p in s.published && q in s.published && p.tag == q.tag ==>
          p.body == q.body && (d.freshTags ==> p == q))
  }

  ghost predicate PollOk(d: Setting, s: State, poll: Poll) {
    match poll
    case Idle => true
    case Headed(t) => exists p :: p in s.published && p.tag == t
    case Fetched(t, b) => FetchedFor(d, s, t, b)
  }

  ghost predicate NodeOk(d: Setting, s: State, node: Node) {
    && node.region in s.stores
    && PollOk(d, s, node.poll)
    && (node.lastTag != [] ==> CacheFor(d, s, node.lastTag, node.cache) && node.region in s.writer)
  }

  /** The last writer of a region's store holds the tag it wrote with. */
  ghost predicate WriterOk(d: Setting, s: State, r: Region)
    requires r in s.writer
  {
    s.writer[r] in s.nodes && r in s.stores &&
    var w := s.nodes[s.writer[r]];
    w.region == r && (w.lastTag != [] ==> StoreFor(d, s, w.lastTag, s.stores[r]))
  }

  ghost predicate Inv(d: Setting, s: State) {
    && PublishedOk(d, s)
    && (forall n :: n in s.nodes ==> NodeOk(d, s, s.nodes[n]))
    && (forall r :: r in s.writer ==> WriterOk(d, s, r))
  }

  /** Facts about published objects survive a new publication. */
  lemma PublishKeeps(d: Setting, s: State, t: State, p: Publication)
    requires PublishedOk(d, s) && TagAllowed(d, s, p)
    requires t.current == Some(p) && t.published == s.published + {p}
    ensures forall tag, b :: FetchedFor(d, s, tag, b) ==> FetchedFor(d, t, tag, b)
    ensures forall tag, c :: StoreFor(d, s, tag, c) ==> StoreFor(d, t, tag, c)
    ensures forall tag, c :: CacheFor(d, s, tag, c) ==> CacheFor(d, t, tag, c)
  {
    forall q | q in s.published ensures q in t.published && (d.freshTags ==> Obsolete(d, t, q)) {
    }
  }

  lemma SameObjectKeeps(d: Setting, s: State, t: State)
    requires t.current == s.current && t.published == s.published
    ensures PublishedOk(d, s) ==> PublishedOk(d, t)
    ensures forall tag, b :: FetchedFor(d, s, tag, b) ==> FetchedFor(d, t, tag, b)
    ensures forall tag, c :: StoreFor(d, s, tag, c) ==> StoreFor(d, t, tag, c)
    ensures forall tag, c :: CacheFor(d, s, tag, c) ==> CacheFor(d, t, tag, c)
  {
  }

  lemma MutateKeepsInv(d: Setting, s: State, n: NodeId, p: Publication, cache: RuleCache)
    requires Inv(d, s) && Enabled(d, s, Mutate(n, p, cache))
    ensures Inv(d, Do(d, s, Mutate(n, p, cache)))
  {
    var t := Do(d, s, Mutate(n, p, cache));
    PublishKeeps(d, s, t, p);
    assert p in t.published;
    assert StoreFor(d, t, p.tag, p.content) && CacheFor(d, t, p.tag, cache);
    forall m | m in t.nodes ensures NodeOk(d, t, t.nodes[m]) {
      assert NodeOk(d, s, s.nodes[m]);
      assert PollOk(d, t, s.nodes[m].poll);
    }
    forall r | r in t.writer ensures WriterOk(d, t, r) {
      if r != s.nodes[n].region { assert WriterOk(d, s, r); }
    }
  }

  /** Polls and restarts: the object stays, one node changes, and perhaps its region's store. */
  lemma OtherKeepsInv(d: Setting, s: State, step: Step)
    requires Sound(d) && Inv(d, s) && Enabled(d, s, step) && !step.Mutate?
    ensures Inv(d, Do(d, s, step))
  {
    var t := Do(d, s, step);
    var n := step.n;
    SameObjectKeeps(d, s, t);
    assert NodeOk(d, s, s.nodes[n]);
    ChangedNodeOk(d, s, step);
    forall m | m in t.nodes ensures NodeOk(d, t, t.nodes[m]) {
      if m != n {
        assert NodeOk(d, s, s.nodes[m]);
        assert PollOk(d, t, s.nodes[m].poll);
      }
    }
    forall r | r in t.writer ensures WriterOk(d, t, r) {
      if r in s.writer { assert WriterOk(d, s, r); }
    }
  }

  lemma ChangedNodeOk(d: Setting, s: State, step: Step)
    requires Sound(d) && Inv(d, s) && Enabled(d, s, step) && !step.Mutate?
    ensures var t := Do(d, s, step);
            NodeOk(d, t, t.nodes[step.n]) &&
            (step.Apply? || step.ReloadFails? ==> WriterOk(d, t, t.nodes[step.n].region))
  {
    var t := Do(d, s, step);
    var n, node := step.n, s.nodes[step.n];
    SameObjectKeeps(d, s, t);
    assert NodeOk(d, s, node);
    match step
    case Head(_) =>
      assert s.current.value in s.published;
    case Get(_) =>
      var p :| p in s.published && p.tag == node.poll.tag;
      assert FetchedFor(d, s, node.poll.tag, s.current.value.body) by {
        if d.atomicPolls { assert s.current.value in s.published; }
        else { assert Obsolete(d, s, p) || p.body == s.current.value.body; }
      }
    case Apply(_, cache) =>
      var p :| p in s.published && p.tag == node.poll.tag && (Obsolete(d, s, p) || p.body == node.poll.body);
      assert p in t.published && (Obsolete(d, t, p) || (Reflects(cache, p) && Brings(p, Imported(node.poll.body))));
    case Abort(_) =>
    case ReloadFails(_) =>
      if node.lastTag != [] {
        var p :| p in s.published && p.tag == node.lastTag && (Obsolete(d, s, p) || Reflects(node.cache, p));
        assert Obsolete(d, t, p);
      }
    case Restart(_, cache) =>
  }

  lemma InitInv(d: Setting, s: State)
    requires Init(s)
    ensures Inv(d, s)
  {
  }

  /** The invariant holds in every state of every run of a sound setting. */
  lemma {:induction false} InvAlways(d: Setting, states: seq<State>, steps: seq<Step>, i: nat)
    requires Sound(d) && IsRun(d, states, steps) && i < |states|
    ensures Inv(d, states[i])
  {
    if i == 0 {
      InitInv(d, states[0]);
    } else {
      InvAlways(d, states, steps, i - 1);
      var s, step := states[i - 1], steps[i - 1];
      assert Enabled(d, s, step) && states[i] == Do(d, s, step);
      if step.Mutate? {
        MutateKeepsInv(d, s, step.n, step.p, step.cache);
      } else {
        OtherKeepsInv(d, s, step);
      }
    }
  }

  /** In every reachable state, a node whose tag is the current one serves the current object. */
  lemma TagSoundness(d: Setting, states: seq<State>, steps: seq<Step>, i: nat, n: NodeId)
    requires Sound(d) && IsRun(d, states, steps) && i < |states| && n in states[i].nodes
    requires states[i].current.Some? && states[i].nodes[n].lastTag == states[i].current.value.tag
    ensures exists p :: p in states[i].published && p.tag == states[i].current.value.tag &&
                        p.body == states[i].current.value.body && Reflects(states[i].nodes[n].cache, p)
    ensures d.freshTags ==> Reflects(states[i].nodes[n].cache, states[i].current.value)
  {
    InvAlways(d, states, steps, i);
    var s := states[i];
    assert NodeOk(d, s, s.nodes[n]) && ValidPublication(s.current.value);
    var p :| p in s.published && p.tag == s.nodes[n].lastTag && (Obsolete(d, s, p) || Reflects(s.nodes[n].cache, p));
    assert s.current.value in s.published;
  }
}
