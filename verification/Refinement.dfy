/** The sync loop and the handlers of one node take steps of the replication protocol. */
module Refinement {
  import opened Text
  import opened Tables
  import opened Import
  import opened Cache
  import opened Syncers
  import opened Replication

  /** In s, node n of region r is at this point of a poll, and otherwise as x says. */
  ghost predicate Mirrors(s: State, n: NodeId, r: Region, x: NodeState, poll: Poll) {
    && n in s.nodes && s.nodes[n] == Node(r, x.tag, x.cache, poll)
    && r in s.stores && s.stores[r] == x.content
  }

  /** HEAD: nothing happens if the tag is known; otherwise the poll goes on with the tag it read. */
  lemma HeadTakesStep(d: Setting, s: State, n: NodeId, r: Region, x: NodeState)
    requires Mirrors(s, n, r, x, Idle) && s.current.Some?
    ensures Enabled(d, s, Head(n)) && var t, tag := Do(d, s, Head(n)), s.current.value.tag;
            if tag == x.tag then t == s else t.current == s.current && Mirrors(t, n, r, x, Headed(tag))
  {
  }

  /** GET: the poll goes on with the body it read, or it is given up. */
  lemma GetTakesStep(d: Setting, s: State, n: NodeId, r: Region, x: NodeState, tag: Tag)
    requires Mirrors(s, n, r, x, Headed(tag)) && s.current.Some? && (d.atomicPolls ==> s.current.value.tag == tag)
    ensures Enabled(d, s, Get(n)) && Mirrors(Do(d, s, Get(n)), n, r, x, Fetched(tag, s.current.value.body))
    ensures Enabled(d, s, Abort(n)) && Mirrors(Do(d, s, Abort(n)), n, r, x, Idle)
  {
  }

  /**
   * The import with its reload, for whatever the node and its region's store are by then: other
   * nodes may have written the store, and the node itself may have published.
   */
  lemma ImportTakesStep(d: Setting, s: State, n: NodeId, r: Region, tag: Tag, body: seq<ImportEntry>,
                        before: NodeState, after: NodeState, faults: Faults, ok: bool)
    requires Mirrors(s, n, r, before, Fetched(tag, body))
    requires ImportResult(before, tag, body, faults, ok, after)
    requires IsViewExcept(after.cache, after.loaded, after.missing)
    requires faults.database.Complete() && faults.unreadable == {}
    requires faults.listFails ==> Enabled(d, s, ReloadFails(n))
    ensures if ok then
              Enabled(d, s, Apply(n, after.cache)) && Mirrors(Do(d, s, Apply(n, after.cache)), n, r, after, Idle)
            else
              || (Enabled(d, s, Abort(n)) && Mirrors(Do(d, s, Abort(n)), n, r, after, Idle))
              || (Enabled(d, s, ReloadFails(n)) && Mirrors(Do(d, s, ReloadFails(n)), n, r, after, Idle))
  {
  }

  /** What another node's step does in the meantime: it may change the region's store, but not this node's entry. */
  ghost predicate OthersActed(s: State, u: State, n: NodeId) {
    n in s.nodes && n in u.nodes && u.nodes[n] == s.nodes[n] && s.nodes[n].region in u.stores
  }

  /**
   * A poll of the sync loop, from its HEAD in state s to its last step in state w, the GET being in
   * state u: no step if the HEAD fails, HEAD alone if the tag is known, HEAD and giving up if the GET
   * fails, and otherwise HEAD, GET and what the import comes to. before is the node with the store
   * as the last step finds it.
   */
  lemma PollTakesSteps(d: Setting, s: State, u: State, w: State, n: NodeId, r: Region, head: Option<Option<Str>>,
                       got: Option<seq<ImportEntry>>, first: NodeState, before: NodeState, after: NodeState,
                       faults: Faults, ok: bool)
    requires Mirrors(s, n, r, first, Idle) && s.current.Some? && u.current.Some?
    requires head == None || head == Some(Some(s.current.value.tag))
    requires got == None || got == Some(u.current.value.body)
    requires before == first.(tables := before.tables, content := before.content)
    requires head == None || s.current.value.tag == first.tag ==> before == first
    requires head.Some? && s.current.value.tag != first.tag ==>
               && OthersActed(Do(d, s, Head(n)), u, n) && (d.atomicPolls ==> u.current == s.current)
               && (got.Some? ==> OthersActed(Do(d, u, Get(n)), w, n))
               && (got.None? ==> OthersActed(u, w, n))
               && w.stores[r] == before.content
    requires PollResult(before, head, got, faults, ok, after)
    requires IsViewExcept(after.cache, after.loaded, after.missing)
    requires faults.database.Complete() && faults.unreadable == {}
    requires faults.listFails ==> d.reloadFaults == Anytime && w.current.Some?
    ensures if head == None || s.current.value.tag == first.tag then
              after == first && (head.Some? ==> Enabled(d, s, Head(n)) && Do(d, s, Head(n)) == s)
            else if ok then
              Enabled(d, w, Apply(n, after.cache)) && Mirrors(Do(d, w, Apply(n, after.cache)), n, r, after, Idle)
            else
              || (Enabled(d, w, Abort(n)) && Mirrors(Do(d, w, Abort(n)), n, r, after, Idle))
              || (Enabled(d, w, ReloadFails(n)) && Mirrors(Do(d, w, ReloadFails(n)), n, r, after, Idle))
  {
    HeadTakesStep(d, s, n, r, first);
    if head.Some? && s.current.value.tag != first.tag {
      var tag := s.current.value.tag;
      GetTakesStep(d, u, n, r, before.(content := u.stores[r]), tag);
      if got.Some? {
        ImportTakesStep(d, w, n, r, tag, got.value, before, after, faults, ok);
      }
    }
  }

  /**
   * What a mutating handler leaves behind, when its reload and upload succeed, is what a Mutate step
   * with its publication leaves behind, whatever point the node's poll has reached.
   */
  lemma HandlerTakesStep(h: Handler, d: Setting, s: State, n: NodeId, r: Region, before: NodeState, poll: Poll,
                         tag: Tag, body: seq<ImportEntry>)
    requires h.Valid() && h.syncer != null && h.Followed(tag, body)
    requires Mirrors(s, n, r, before, poll)
    requires tag != [] && TagAllowed(d, s, Publication(tag, body, h.store.content))
    ensures var step := Mutate(n, Publication(tag, body, h.store.content), h.engine.domains);
            Enabled(d, s, step) && Mirrors(Do(d, s, step), n, r, h.syncer.Now(), poll)
  {
    ContentWellFormed(h.store.tables, h.store.content);
  }
}
