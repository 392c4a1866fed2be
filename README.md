# Virtual-delete trigger of the replication bundle, in Dafny

A replicated database cannot physically delete a document: then nothing would
be left to replicate the delete with. The replication bundle's
`VirtualDeleteTrigger` therefore turns every delete into the write of a
tombstone ("delete marker"), in two phases:

- `OnDelete(key)` reads the document at `key` with triggers disabled. If there
  is none it returns and touches nothing. Otherwise it stages, in a per-thread
  slot, the document's replication history (or an empty history) with one
  entry appended: the document's own replication version and source.
- `AfterDelete(key)` builds metadata with the delete marker set, the staged
  history (null when nothing was staged), the local storage id as source and a
  version drawn from the replication hi/lo generator. It clears the slot and
  puts an empty document with that metadata at `key`.

The model has three modules:

- `Wrappers`: `Option`, and `GetOr` for C#'s `??`.
- `ReplicationTriggers`: the replication metadata as typed records
  (`HistEntry`, `Metadata`, `Doc`); the trigger's whole state as a value
  (`State`: store, staging slot, next version id); the specification of each
  phase as pure functions (`OnDeleteSpec`, `AfterDeleteSpec`, and their
  composition `DeleteSpec`); and the class `VirtualDeleteTrigger`, with fields
  `store`, `deletedHistory`, `nextId` and `localId`. Its methods `OnDelete`,
  `AfterDelete` and `NextId` change those fields. `OnDelete` and
  `AfterDelete` are proved to leave exactly the state that `OnDeleteSpec` and
  `AfterDeleteSpec` give. `NextId`'s contract states the counter step
  directly: it returns the current id and advances the counter by one.
  `Valid()` is the invariant that every version this node has issued, in the
  store or in the slot, is below `nextId`. The constructor establishes it when
  the first id lies above every local version already in the store. Both
  phases preserve it, and `AfterDelete` states what it buys: the new
  tombstone's version is above every local version in the old store.
- `ReplicationProperties`: the host's call sequence (`DeleteDocument`), and
  lemmas about several deletes. These cover a second delete of a tombstone, a
  stale staging slot, version freshness, any sequence of deletes, and many
  deletes of one key.

When there is no document, `OnDelete` returns before it touches the slot
(`VirtualDeleteTrigger.cs:41-42`). So nothing resets the slot at the start of
a delete. `StaleStagingCarriesOver` states the consequence: a slot value left
behind by an earlier delete whose second phase never ran becomes the history
of the next tombstone written for a missing key.

## Model

| member | source | states |
|---|---|---|
| ReplicationTriggers.StageFor | Bundles/Raven.Bundles.Replication/Triggers/VirtualDeleteTrigger.cs:40-50 | with no document the slot keeps its old value; otherwise one entry longer than the document's history (empty if absent), which it extends, with the document's version and source as the last entry |
| ReplicationTriggers.OnDeleteSpec | Bundles/Raven.Bundles.Replication/Triggers/VirtualDeleteTrigger.cs:36-52 | the first phase never changes the store or the generator; on a missing key it changes nothing at all; otherwise the slot holds the old history plus the document's own entry |
| ReplicationTriggers.AfterDeleteSpec | Bundles/Raven.Bundles.Replication/Triggers/VirtualDeleteTrigger.cs:54-69 | the key holds an empty-body tombstone whose metadata is exactly delete marker, staged history, local id, drawn id; no other key changes and none disappears; the slot is empty; exactly one id is drawn |
| ReplicationTriggers.DeleteSpec | Bundles/Raven.Bundles.Replication/Triggers/VirtualDeleteTrigger.cs:36-69 | one logical delete leaves a tombstone with the local source and the drawn version; its history is the old document's plus that document's entry, or the slot's value when there was no document; other keys are untouched |
| ReplicationTriggers.VirtualDeleteTrigger.constructor | Bundles/Raven.Bundles.Replication/Triggers/VirtualDeleteTrigger.cs:23 | the staging slot starts empty; when the first id lies above every local version in the initial store, Valid holds |
| ReplicationTriggers.VirtualDeleteTrigger.NextId | Bundles/Raven.Bundles.Replication/Triggers/VirtualDeleteTrigger.cs:63 | returns the generator's current id and advances it by one, so every later id is larger |
| ReplicationTriggers.VirtualDeleteTrigger.OnDelete | Bundles/Raven.Bundles.Replication/Triggers/VirtualDeleteTrigger.cs:36-52 | changes only the slot; on a missing key the slot keeps its old value; otherwise it holds the document's history plus its version and source; the new state is that of OnDeleteSpec; preserves Valid |
| ReplicationTriggers.VirtualDeleteTrigger.AfterDelete | Bundles/Raven.Bundles.Replication/Triggers/VirtualDeleteTrigger.cs:54-69 | the store is the old store with the key overwritten by the tombstone built from the old slot, the local id and the drawn id; the slot is cleared; the generator advanced by one; the new state is that of AfterDeleteSpec; preserves Valid, and under Valid the tombstone's version is above every local version of the old store |
| ReplicationProperties.DeleteDocument | Bundles/Raven.Bundles.Replication/Triggers/VirtualDeleteTrigger.cs:36-69 | OnDelete followed by AfterDelete on one key has exactly the effect of DeleteSpec and preserves Valid |
| ReplicationProperties.RedeleteExtendsHistory | Bundles/Raven.Bundles.Replication/Triggers/VirtualDeleteTrigger.cs:40-67 | deleting a tombstone writes a tombstone whose history extends the old one by exactly one entry, the old tombstone's version and source |
| ReplicationProperties.StaleStagingCarriesOver | Bundles/Raven.Bundles.Replication/Triggers/VirtualDeleteTrigger.cs:41-61 | on a missing key the tombstone's history is whatever the slot held before the delete |
| ReplicationProperties.DeleteMissingKey | Bundles/Raven.Bundles.Replication/Triggers/VirtualDeleteTrigger.cs:41-67 | with an empty slot, deleting a missing key still writes a tombstone with no history and the drawn id, and consumes one id |
| ReplicationProperties.DeleteIssuesFreshVersion | Bundles/Raven.Bundles.Replication/Triggers/VirtualDeleteTrigger.cs:58-67 | if every local version is below the next id, a delete keeps that invariant, and the new tombstone's version is above every local version in the old store |
| ReplicationProperties.DeleteRunKeepsHistories | Bundles/Raven.Bundles.Replication/Triggers/VirtualDeleteTrigger.cs:36-69 | for any sequence of deletes, no key leaves the store, every old history is a prefix of the new one, every deleted key holds a tombstone, keys not deleted are unchanged, and one id is drawn per delete |
| ReplicationProperties.DeleteRunKeepsVersionsBelow | Bundles/Raven.Bundles.Replication/Triggers/VirtualDeleteTrigger.cs:58-67 | any sequence of deletes preserves the invariant that every local version is below the next id |
| ReplicationProperties.RepeatedDeleteHistory | Bundles/Raven.Bundles.Replication/Triggers/VirtualDeleteTrigger.cs:40-67 | after n deletes of one key, the key holds a tombstone with the latest id, and its history is what the first delete staged followed by the entries of the n-1 tombstones written in between, oldest first |

## Left out

- The replication hi/lo generator's internals (batch reservation, persistence of the counter, refill under concurrent callers) are not part of this model. `NextId` is a counter field, so monotonicity is proved for one trigger instance only, not across nodes or restarts.
- Lazy creation of the generator in the database's extension state (line 29) is host plumbing and is left out.
- The staging slot is a `ThreadLocal`. The model has a single slot for one sequential delete, so per-thread isolation is not modelled.
- Disabling triggers around the read and the write (lines 38 and 56) is left out. The store's `Get` and `Put` (lines 40 and 67) are direct map lookup and map update, and no trigger is invoked recursively.
- Transactions, commit, abort and the null etag passed to put (line 67) belong to the storage engine and are left out. So is the failure of the generator or the store.
- Plugin ordering (`ExportMetadata("Order", 10000)`, line 20) is host configuration and is left out.
- JSON metadata is a typed record with four fields. A tombstone's metadata is exactly these four, as in the source, which builds a fresh metadata object. The model assumes every stored document carries a replication version and source. In the source a missing field would be copied into the history entry as a JSON null.
- The source stages the document's own history array and then appends to it, so that array object is mutated in place (lines 43-45). The model uses immutable sequences, so this aliasing is not captured.
- The storage id is a string parameter (`localId`); the GUID formatting of line 62 is left out.
- Version ids are unbounded integers. The 64-bit range of the source's `long` is not modelled.
