/** The sync loop and the admin handlers of one node, over its store and its engine. */
module Syncers {
  import opened Text
  import opened Tables
  import opened Import
  import opened Export
  import opened Transactions
  import opened Stores
  import opened Cache
  import opened Engines

  /** What fails during a poll: in the import, and among the reads of the reload. */
  datatype Faults = Faults(database: DatabaseFaults, listFails: bool, unreadable: set<Str>)

  /** What a node holds: its tag, its store, and its engine with what it was loaded from. */
  datatype NodeState = NodeState(
    tag: Str, tables: Tables, content: Content, cache: RuleCache, loaded: Content, missing: set<Str>)

  /** The store is what a replacing import that succeeds leaves: the entries, if it could read all rows. */
  ghost predicate StoreReplaced(before: Content, entries: seq<ImportEntry>, faults: DatabaseFaults, after: Content) {
    exists rules, names :: Replaced(before, entries, faults, after, rules, names)
  }

  /**
   * What a poll makes of a node. Unless the tag is new and both requests succeed, nothing changes;
   * unless the import succeeds, neither; and the tag is recorded only after a reload, together with
   * the content it came for.
   */
  ghost predicate PollResult(before: NodeState, head: Option<Option<Str>>, got: Option<seq<ImportEntry>>,
                             faults: Faults, ok: bool, after: NodeState)
  {
    var etag := if head.Some? && head.value.Some? then head.value.value else [];
    if head.None? then !ok && after == before
    else if etag == before.tag then ok && after == before
    else if got.None? then !ok && after == before
    else ImportResult(before, etag, got.value, faults, ok, after)
  }

  /** What an import with its reload makes of a node. */
  ghost predicate ImportResult(before: NodeState, etag: Str, entries: seq<ImportEntry>, faults: Faults,
                               ok: bool, after: NodeState)
  {
    if ok then
      && StoreReplaced(before.content, entries, faults.database, after.content)
      && after.tag == etag && !faults.listFails
      && after.loaded == after.content && after.missing == faults.unreadable
    else
      || (faults.database.statements != {} && after == before)
      || (faults.listFails && StoreReplaced(before.content, entries, faults.database, after.content) &&
          after == before.(tables := after.tables, content := after.content))
  }

  class Syncer {
    const store: Store
    const engine: Engine
    var lastETag: Str

    ghost predicate Valid() reads this, store, engine {
      engine.store == store && store.Valid() && engine.Valid()
    }

    constructor (store: Store, engine: Engine)
      requires engine.store == store && store.Valid() && engine.Valid()
      ensures Valid() && lastETag == [] && this.store == store && this.engine == engine
    {
      this.store, this.engine, lastETag := store, engine, [];
    }

    /**
     * Uploads a snapshot and records the tag it got. put is what the upload returns: None for an
     * error, otherwise the tag, if the answer carries one.
     */
    method Publish(put: Option<Option<Str>>) returns (r: Outcome, body: seq<ImportEntry>)
      requires Valid()
      modifies this
      ensures Valid() && IsExport(store.content, body)
      ensures r.Ok? <==> put.Some?
      ensures lastETag == if put.Some? && put.value.Some? then put.value.value else old(lastETag)
    {
      body := store.ExportAll();
      match put
      case None => return Err, body;
      case Some(tag) =>
        if tag.Some? {
          lastETag := tag.value;
        }
        return Ok, body;
    }

    ghost function Now(): NodeState reads this, store, engine {
      NodeState(lastETag, store.tables, store.content, engine.domains, engine.loaded, engine.missing)
    }

    /** One poll. head and got are what the two requests return, each from the object as it is then. */
    method Poll(head: Option<Option<Str>>, got: Option<seq<ImportEntry>>, faults: Faults) returns (r: Outcome)
      requires Valid()
      modifies this, store, engine
      ensures Valid() && Evolves(old(store.tables), store.tables)
      ensures PollResult(old(Now()), head, got, faults, r.Ok?, Now())
    {
      if head.None? {
        return Err;
      }
      var etag := if head.value.Some? then head.value.value else [];
      if etag == lastETag {
        return Ok;
      }
      if got.None? {
        return Err;
      }
      ghost var rules, names;
      r, rules, names := store.BulkImportReplace(got.value, faults.database);
      if r.Err? {
        return;
      }
      r := engine.Reload(faults.listFails, faults.unreadable);
      if r.Err? {
        return;
      }
      lastETag := etag;
    }
  }

  datatype Reply = BadRequest | Conflict | ServerError | Done

  /** What goes wrong after the store has changed: among the reads of the reload, and in the upload. */
  datatype Tail = Tail(listFails: bool, unreadable: set<Str>, put: Option<Option<Str>>)

  /** The admin API of a control node: each mutating handler writes, reloads, then publishes. */
  class Handler {
    const store: Store
    const engine: Engine
    const syncer: Syncer?

    ghost predicate Valid()
      reads this, store, engine, syncer
    {
      && engine.store == store && store.Valid() && engine.Valid()
      && (syncer != null ==> syncer.store == store && syncer.engine == engine && syncer.Valid())
    }

    constructor (store: Store, engine: Engine, syncer: Syncer?)
      requires engine.store == store && store.Valid() && engine.Valid()
      requires syncer != null ==> syncer.store == store && syncer.engine == engine
      ensures Valid() && this.store == store && this.engine == engine && this.syncer == syncer
    {
      this.store, this.engine, this.syncer := store, engine, syncer;
    }

    /** Serving, tag and snapshot all follow the store: a Mutate step of the replication protocol. */
    ghost predicate Followed(tag: Str, body: seq<ImportEntry>)
      reads this, store, engine, syncer
    {
      && IsView(engine.domains, store.content)
      && (syncer != null ==> IsExport(store.content, body) && syncer.lastETag == tag)
    }

    ghost function Tag(): Str reads this, syncer {
      if syncer == null then [] else syncer.lastETag
    }

    ghost function Serving(): (RuleCache, Content, set<Str>) reads this, engine {
      (engine.domains, engine.loaded, engine.missing)
    }

    /**
     * What the common tail leaves, given what was served and tagged before it: errors of the reload
     * and of the upload are ignored, and then the old cache or the old tag stays.
     */
    ghost predicate Tailed(tail: Tail, serving: (RuleCache, Content, set<Str>), tag: Str, body: seq<ImportEntry>)
      reads this, store, engine, syncer
    {
      && (if tail.listFails then Serving() == serving
          else engine.loaded == store.content && engine.missing == tail.unreadable)
      && (syncer != null ==>
            && IsExport(store.content, body)
            && syncer.lastETag == if tail.put.Some? && tail.put.value.Some? then tail.put.value.value else tag)
      && (!tail.listFails && tail.unreadable == {} && tail.put.Some? && tail.put.value.Some? ==>
            Followed(tail.put.value.value, body))
    }

    /** The common tail of the mutating handlers: reload, then publish. */
    method ReloadAndPublish(tail: Tail) returns (body: seq<ImportEntry>)
      requires Valid()
      modifies engine, syncer
      ensures Valid() && Tailed(tail, old(Serving()), old(Tag()), body)
    {
      var r := engine.Reload(tail.listFails, tail.unreadable);
      body := [];
      if syncer != null {
        r, body := syncer.Publish(tail.put);
      }
    }

    /** Nothing was reloaded or published. */
    twostate predicate Untouched() reads this, store, engine, syncer {
      Serving() == old(Serving()) && Tag() == old(Tag())
    }

    /**
     * Refuses an empty name or URL and a taken name; status 0 becomes 301; always created enabled.
     * When the new row cannot be read back the domain is stored, but neither loaded nor published.
     */
    method CreateDomain(name: Str, url: Str, status: int, fault: CreateFault, tail: Tail)
      returns (r: Reply, body: seq<ImportEntry>)
      requires Valid()
      modifies store, engine, syncer
      ensures Valid()
      ensures r == if name == [] || url == [] then BadRequest
                   else if fault == InsertFails then ServerError
                   else if name in old(store.content.domains) then Conflict
                   else if fault == ReadBackFails then ServerError
                   else Done
      ensures store.content ==
              if r == Done || (r == ServerError && fault == ReadBackFails)
              then old(store.content).PutHeader(name, Header(url, if status == 0 then 301 else status, true))
              else old(store.content)
      ensures if r == Done then Tailed(tail, old(Serving()), old(Tag()), body) else Untouched()
    {
      body := [];
      if name == [] || url == [] {
        return BadRequest, body;
      }
      var created := store.CreateDomain(name, Header(url, StatusOrDefault(status), true), fault);
      match created
      case Taken => return Conflict, body;
      case Failed => return ServerError, body;
      case Created =>
        body := ReloadAndPublish(tail);
        return Done, body;
    }

    /** Takes the columns as they come: a status of 0 is stored as 0. */
    method UpdateDomain(name: Str, h: Header, fails: bool, tail: Tail) returns (r: Reply, body: seq<ImportEntry>)
      requires Valid()
      modifies store, engine, syncer
      ensures Valid() && r == if fails then ServerError else Done
      ensures store.content ==
              if r == Done && name in old(store.content.domains) then old(store.content).PutHeader(name, h)
              else old(store.content)
      ensures if r == Done then Tailed(tail, old(Serving()), old(Tag()), body) else Untouched()
    {
      body := [];
      var outcome := store.UpdateDomain(name, h, fails);
      if outcome.Err? {
        return ServerError, body;
      }
      body := ReloadAndPublish(tail);
      return Done, body;
    }

    /** Removes the domain with its rules. */
    method DeleteDomain(name: Str, fails: bool, tail: Tail) returns (r: Reply, body: seq<ImportEntry>)
      requires Valid()
      modifies store, engine, syncer
      ensures Valid() && r == if fails then ServerError else Done
      ensures store.content == if r == Done then old(store.content).DropDomain(name) else old(store.content)
      ensures if r == Done then Tailed(tail, old(Serving()), old(Tag()), body) else Untouched()
    {
      body := [];
      var outcome := store.DeleteDomain(name, fails);
      if outcome.Err? {
        return ServerError, body;
      }
      body := ReloadAndPublish(tail);
      return Done, body;
    }

    /** Imports without replacing; when the import fails nothing is reloaded or published. */
    method BulkImport(entries: seq<ImportEntry>, faults: set<nat>, tail: Tail)
      returns (r: Reply, count: nat, body: seq<ImportEntry>)
      requires Valid()
      modifies store, engine, syncer
      ensures Valid()
      ensures r == if Clear(faults, 0, UpsertCount(entries) + 2) then Done else ServerError
      ensures r == Done ==> store.content == KeepEntries(old(store.content), entries) && count == |entries|
      ensures r == ServerError ==> store.content == old(store.content)
      ensures if r == Done then Tailed(tail, old(Serving()), old(Tag()), body) else Untouched()
    {
      body := [];
      var outcome;
      outcome, count := store.BulkImport(entries, faults);
      if outcome.Err? {
        return ServerError, count, body;
      }
      body := ReloadAndPublish(tail);
      return Done, count, body;
    }
  }
}
