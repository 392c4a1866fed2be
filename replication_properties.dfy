/**
  Properties of the virtual-delete trigger that relate several calls: what a
  delete does to a key that already holds a tombstone, what a stale staging
  slot leads to, that versions issued by this node stay fresh, and what any
  sequence of deletes does to the store.
 */
module ReplicationProperties {
  import opened Wrappers
  import opened ReplicationTriggers

  /**
    The host's delete pipeline: OnDelete, the suppressed physical delete,
    then AfterDelete on the same key. The two method contracts compose to
    the specification of one logical delete.
   */
  method DeleteDocument(t: VirtualDeleteTrigger, key: string)
    modifies t
    ensures t.View() == DeleteSpec(old(t.View()), key, t.localId)
    ensures old(t.Valid()) ==> t.Valid()
  {
    t.OnDelete(key);
    t.AfterDelete(key);
  }

  /**
    Deleting a key that already holds a tombstone writes a new tombstone whose
    history is the old one's with the old tombstone's version and source
    appended: a delete never shortens a history and never revives a document.
   */
  lemma RedeleteExtendsHistory(s: State, key: string, localId: string)
    requires key in s.store && IsTombstone(s.store[key])
    ensures var r := DeleteSpec(s, key, localId);
      IsTombstone(r.store[key])
      && |HistoryOf(r.store[key])| == |HistoryOf(s.store[key])| + 1
      && HistoryOf(s.store[key]) <= HistoryOf(r.store[key])
      && HistoryOf(r.store[key])[|HistoryOf(s.store[key])|] == EntryOf(s.store[key])
  {
  }

  /**
    OnDelete on a missing key leaves the staging slot as it was, so a value
    left behind by an earlier delete whose second phase never ran ends up as
    the history of the new tombstone.
   */
  lemma StaleStagingCarriesOver(s: State, key: string, localId: string, h: seq<HistEntry>)
    requires key !in s.store && s.staged == Some(h)
    ensures DeleteSpec(s, key, localId).store[key].metadata.history == Some(h)
  {
  }

  /** With an empty slot, deleting a missing key still writes a tombstone, with no history, and draws an id. */
  lemma DeleteMissingKey(s: State, key: string, localId: string)
    requires key !in s.store && s.staged == None
    ensures var r := DeleteSpec(s, key, localId);
      key in r.store && IsTombstone(r.store[key])
      && r.store[key].metadata == Metadata(true, None, localId, s.nextId)
      && r.nextId == s.nextId + 1
  {
  }

  /**
    When every version this node issued lies below the generator's next id,
    one delete keeps that so, and the tombstone's version is above every
    local version found anywhere in the old store.
   */
  lemma DeleteIssuesFreshVersion(s: State, key: string, localId: string)
    requires LocalVersionsBelow(s, localId)
    ensures var r := DeleteSpec(s, key, localId);
      LocalVersionsBelow(r, localId)
      && forall k :: k in s.store ==> DocBelow(s.store[k], localId, r.store[key].metadata.version)
  {
  }

  /** The state after the deletes of `keys`, one after another. */
  function DeleteRun(s: State, keys: seq<string>, localId: string): State
    decreases |keys|
  {
    if keys == [] then s else DeleteRun(DeleteSpec(s, keys[0], localId), keys[1..], localId)
  }

  /**
    Whatever keys are deleted, in whatever order: no key leaves the store,
    every history is preserved as a prefix, every deleted key holds a
    tombstone, keys not deleted are untouched, and one id is drawn per delete.
   */
  lemma {:induction false} DeleteRunKeepsHistories(s: State, keys: seq<string>, localId: string)
    ensures var r := DeleteRun(s, keys, localId);
      (forall k :: k in r.store <==> k in s.store || k in keys)
      && (forall k :: k in s.store ==> k in r.store && HistoryOf(s.store[k]) <= HistoryOf(r.store[k]))
      && (forall k :: k in s.store && k !in keys ==> r.store[k] == s.store[k])
      && (forall k :: k in keys ==> k in r.store && IsTombstone(r.store[k]))
      && r.nextId == s.nextId + |keys|
      && r.staged == (if keys == [] then s.staged else None)
    decreases |keys|
  {
    if keys != [] {
      var s1 := DeleteSpec(s, keys[0], localId);
      DeleteRunKeepsHistories(s1, keys[1..], localId);
      var r := DeleteRun(s, keys, localId);
      assert r == DeleteRun(s1, keys[1..], localId);
      forall k | k in keys
        ensures k == keys[0] || k in keys[1..]
      {
        if k != keys[0] {
          var i :| 0 <= i < |keys| && keys[i] == k;
          assert keys[1..][i - 1] == k;
        }
      }
    }
  }

  /** Sequences of deletes keep every version this node issued below the generator's next id. */
  lemma {:induction false} DeleteRunKeepsVersionsBelow(s: State, keys: seq<string>, localId: string)
    requires LocalVersionsBelow(s, localId)
    ensures LocalVersionsBelow(DeleteRun(s, keys, localId), localId)
    decreases |keys|
  {
    if keys != [] {
      DeleteIssuesFreshVersion(s, keys[0], localId);
      DeleteRunKeepsVersionsBelow(DeleteSpec(s, keys[0], localId), keys[1..], localId);
    }
  }

  /** The state after `n` deletes of the same key. */
  function DeleteTimes(s: State, key: string, localId: string, n: nat): State
  {
    if n == 0 then s else DeleteSpec(DeleteTimes(s, key, localId, n - 1), key, localId)
  }

  /** The entries of the tombstones this node writes with ids `start`, `start + 1`, … */
  function Issued(start: int, m: nat, localId: string): seq<HistEntry>
  {
    seq(m, i => HistEntry(start + i, localId))
  }

  lemma IssuedSnoc(start: int, m: nat, localId: string)
    ensures Issued(start, m + 1, localId) == Issued(start, m, localId) + [HistEntry(start + m, localId)]
  {
  }

  /**
    After `n` deletes of one key the key holds a tombstone with the latest id,
    and its history is what the first delete staged followed by the entries
    of the `n - 1` tombstones written in between, oldest first.
   */
  lemma {:induction false} RepeatedDeleteHistory(s: State, key: string, localId: string, n: nat)
    requires n >= 1
    ensures var r := DeleteTimes(s, key, localId, n);
      key in r.store && IsTombstone(r.store[key])
      && r.store[key].metadata.source == localId
      && r.store[key].metadata.version == s.nextId + n - 1
      && r.nextId == s.nextId + n
      && HistoryOf(r.store[key]) == GetOr(StageFor(s.store, key, s.staged), []) + Issued(s.nextId, n - 1, localId)
  {
    if n == 1 {
      assert DeleteTimes(s, key, localId, 0) == s;
      assert Issued(s.nextId, 0, localId) == [];
    } else {
      RepeatedDeleteHistory(s, key, localId, n - 1);
      IssuedSnoc(s.nextId, n - 2, localId);
    }
  }
}
