/**
  The replication bundle's virtual-delete trigger. A delete under replication
  is never physical: the trigger's first phase (OnDelete) stages the replication
  history of the document about to be deleted, and its second phase
  (AfterDelete) overwrites the key with an empty tombstone ("delete marker")
  that carries the staged history, the local storage id as its source and a
  fresh version id.

  The pure functions on `State` are the specification; the class
  `VirtualDeleteTrigger` is the imperative model and is proved against them.
 */
module ReplicationTriggers {
  import opened Wrappers

  /** One entry of a replication history: the version and source of a superseded revision. */
  datatype HistEntry = HistEntry(version: int, source: string)

  /**
    The replication fields of a document's metadata, typed:
    Raven-Delete-Marker, Raven-Replication-History, Raven-Replication-Source
    and Raven-Replication-Version. `history` is None when the field is absent
    or null.
   */
  datatype Metadata = Metadata(deleteMarker: bool, history: Option<seq<HistEntry>>, source: string, version: int)

  /** A document body: a JSON object, as property name to rendered value. */
  type Body = map<string, string>

  datatype Doc = Doc(body: Body, metadata: Metadata)

  /** The document store the trigger reads and overwrites. */
  type Store = map<string, Doc>

  /** Everything the trigger reads or changes: the store, the staging slot, the version generator. */
  datatype State = State(store: Store, staged: Option<seq<HistEntry>>, nextId: int)

  /** The history a document carries, the empty history when it has none. */
  function HistoryOf(d: Doc): seq<HistEntry>
  {
    GetOr(d.metadata.history, [])
  }

  /** The entry that records document `d` itself once it is superseded. */
  function EntryOf(d: Doc): HistEntry
  {
    HistEntry(d.metadata.version, d.metadata.source)
  }

  predicate IsTombstone(d: Doc)
  {
    d.body == map[] && d.metadata.deleteMarker
  }

  /**
    The staging slot after OnDelete(key): unchanged when there is no document,
    otherwise the document's history with the document's own version and
    source appended.
   */
  function StageFor(store: Store, key: string, slot: Option<seq<HistEntry>>): (r: Option<seq<HistEntry>>)
    ensures key !in store ==> r == slot
    ensures key in store ==> r.Some? && |r.value| == |HistoryOf(store[key])| + 1
    ensures key in store ==> HistoryOf(store[key]) <= r.value && r.value[|r.value| - 1] == EntryOf(store[key])
  {
    if key !in store then slot else Some(HistoryOf(store[key]) + [EntryOf(store[key])])
  }

  /** The tombstone AfterDelete writes: empty body and exactly the four replication fields. */
  function Tombstone(staged: Option<seq<HistEntry>>, localId: string, id: int): Doc
  {
    Doc(map[], Metadata(true, staged, localId, id))
  }

  /** The first phase: only the staging slot can change. */
  function OnDeleteSpec(s: State, key: string): (r: State)
    ensures r.store == s.store && r.nextId == s.nextId
    ensures key !in s.store ==> r == s
    ensures key in s.store ==> r.staged == Some(HistoryOf(s.store[key]) + [EntryOf(s.store[key])])
  {
    s.(staged := StageFor(s.store, key, s.staged))
  }

  /** The second phase: one id drawn, the key overwritten by a tombstone, the slot cleared. */
  function AfterDeleteSpec(s: State, key: string, localId: string): (r: State)
    ensures key in r.store && IsTombstone(r.store[key])
    ensures r.store[key].metadata == Metadata(true, s.staged, localId, s.nextId)
    ensures r.store.Keys == s.store.Keys + {key}
    ensures forall k :: k in s.store && k != key ==> r.store[k] == s.store[k]
    ensures r.staged == None && r.nextId == s.nextId + 1
  {
    State(s.store[key := Tombstone(s.staged, localId, s.nextId)], None, s.nextId + 1)
  }

  /** One logical delete as the host runs it: OnDelete, then AfterDelete on the same key. */
  function DeleteSpec(s: State, key: string, localId: string): (r: State)
    ensures key in r.store && IsTombstone(r.store[key])
    ensures r.store[key].metadata.source == localId && r.store[key].metadata.version == s.nextId
    ensures key !in s.store ==> r.store[key].metadata.history == s.staged
    ensures key in s.store ==> HistoryOf(r.store[key]) == HistoryOf(s.store[key]) + [EntryOf(s.store[key])]
    ensures r.store.Keys == s.store.Keys + {key}
    ensures forall k :: k in s.store && k != key ==> r.store[k] == s.store[k]
    ensures r.staged == None && r.nextId == s.nextId + 1
  {
    AfterDeleteSpec(OnDeleteSpec(s, key), key, localId)
  }

  /** Every entry of `h` whose source is `localId` has a version below `bound`. */
  predicate EntriesBelow(h: seq<HistEntry>, localId: string, bound: int)
  {
    forall i :: 0 <= i < |h| && h[i].source == localId ==> h[i].version < bound
  }

  /** Document `d` and its whole history are below `bound` wherever they were authored locally. */
  predicate DocBelow(d: Doc, localId: string, bound: int)
  {
    (d.metadata.source == localId ==> d.metadata.version < bound) && EntriesBelow(HistoryOf(d), localId, bound)
  }

  /**
    Every version this node has issued, in the store or in the staging slot,
    lies below the generator's next id.
   */
  predicate LocalVersionsBelow(s: State, localId: string)
  {
    (forall k :: k in s.store ==> DocBelow(s.store[k], localId, s.nextId))
    && (s.staged.Some? ==> EntriesBelow(s.staged.value, localId, s.nextId))
  }

  /**
    The trigger. `deletedHistory` is the staging slot (one slot for the one
    sequential delete in flight), `nextId` the state of the version generator,
    `localId` the storage id of this node.
   */
  class VirtualDeleteTrigger {
    var store: Store
    var deletedHistory: Option<seq<HistEntry>>
    var nextId: int
    const localId: string

    /**
      The staging slot starts empty. The generator starts above every version
      this node has already issued into the store, which establishes Valid.
     */
    constructor (store0: Store, localId0: string, firstId: int)
      requires LocalVersionsBelow(State(store0, None, firstId), localId0)
      ensures Valid()
      ensures store == store0 && deletedHistory == None && nextId == firstId && localId == localId0
    {
      store := store0;
      deletedHistory := None;
      nextId := firstId;
      localId := localId0;
    }

    function View(): State
      reads this
    {
      State(store, deletedHistory, nextId)
    }

    ghost predicate Valid()
      reads this
    {
      LocalVersionsBelow(View(), localId)
    }

    /** The version generator: each call returns a new id, above every earlier one. */
    method NextId() returns (id: int)
      modifies this`nextId
      ensures id == old(nextId) && nextId == id + 1
      ensures old(Valid()) ==> Valid()
    {
      id := nextId;
      nextId := nextId + 1;
    }

    method OnDelete(key: string)
      modifies this`deletedHistory
      ensures store == old(store) && nextId == old(nextId)
      ensures key !in store ==> deletedHistory == old(deletedHistory)
      ensures key in store ==> deletedHistory == Some(HistoryOf(store[key]) + [EntryOf(store[key])])
      ensures View() == OnDeleteSpec(old(View()), key)
      ensures old(Valid()) ==> Valid()
    {
      if key !in store {
        return;
      }
      var document := store[key];
      deletedHistory := Some(GetOr(document.metadata.history, []));
      deletedHistory := Some(deletedHistory.value + [EntryOf(document)]);
    }

    method AfterDelete(key: string)
      modifies this`store, this`deletedHistory, this`nextId
      ensures store == old(store)[key := Tombstone(old(deletedHistory), localId, old(nextId))]
      ensures IsTombstone(store[key]) && store[key].metadata.history == old(deletedHistory)
      ensures forall k :: k in old(store) && k != key ==> k in store && store[k] == old(store)[k]
      ensures deletedHistory == None && nextId == old(nextId) + 1
      ensures View() == AfterDeleteSpec(old(View()), key, localId)
      ensures old(Valid()) ==> Valid()
      ensures old(Valid()) ==> forall k :: k in old(store) ==> DocBelow(old(store)[k], localId, store[key].metadata.version)
    {
      var id := NextId();
      var metadata := Metadata(true, deletedHistory, localId, id);
      deletedHistory := None;
      store := store[key := Doc(map[], metadata)];
    }
  }
}
