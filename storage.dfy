/**
 The storage plugin's two classes. `Store` owns the open database, modelled as
 the live map it holds, and writes straight to it. `Snapshot` is a session
 that reads from the map frozen when it was created and buffers its writes in
 a batch that reaches the live map only on `Commit`.
 */
module Storage {
  import opened Wrappers
  import opened OrderedIndex
  import opened WriteBatch
  import Helper

  class Store {
    /** The database's current contents. */
    var data: map<Key, Value>

    /** Opens the database at a path; `existing` is what is stored there
        (empty for a database created on open). */
    constructor (existing: map<Key, Value>)
      ensures data == existing
    {
      data := existing;
    }

    method Delete(key: Key)
      modifies this
      ensures key !in data
      ensures data == old(data) - {key}
    {
      data := data - {key};
    }

    /** Iterates over the live map as it is at the call. */
    method Seek(prefix: Key, direction: SeekDirection := Forward) returns (entries: seq<(Key, Value)>)
      ensures Helper.IsSeekResult(data, prefix, direction, entries)
    {
      entries := Helper.Seek(data, prefix, direction);
    }

    /** A session whose view is the map as it is now, with an empty batch. */
    method GetSnapshot() returns (snapshot: Snapshot)
      ensures fresh(snapshot)
      ensures snapshot.db == this && snapshot.view == data
      ensures snapshot.batch == [] && !snapshot.disposed
    {
      snapshot := new Snapshot(this);
    }

    method Put(key: Key, value: Value)
      modifies this
      ensures key in data && data[key] == value
      ensures data == old(data)[key := value]
    {
      data := data[key := value];
    }

    /** A put acknowledged only after a durable flush; on the map it is `Put`. */
    method PutSync(key: Key, value: Value)
      modifies this
      ensures key in data && data[key] == value
      ensures data == old(data)[key := value]
    {
      data := data[key := value];
    }

    method Contains(key: Key) returns (found: bool)
      ensures found <==> key in data
    {
      found := key in data;
    }

    /** The stored value, or none (a null array) for a missing key. */
    method TryGet(key: Key) returns (value: Option<Value>)
      ensures value.Some? <==> key in data
      ensures value.Some? ==> value.value == data[key]
    {
      value := Lookup(data, key);
    }
  }

  class Snapshot {
    /** The database the session was taken from and commits to. */
    const db: Store
    /** The engine snapshot: the map frozen at construction. */
    const view: map<Key, Value>
    /** The write batch, in call order. */
    var batch: seq<BatchOp>
    /** Set once the engine snapshot has been released. */
    var disposed: bool

    constructor (db: Store)
      ensures this.db == db && view == db.data
      ensures batch == [] && !disposed
    {
      this.db := db;
      view := db.data;
      batch := [];
      disposed := false;
    }

    /** Applies the whole batch, in order, to the live map. The batch is kept. */
    method Commit()
      modifies db
      ensures db.data == Apply(old(db.data), batch)
    {
      db.data := Apply(db.data, batch);
    }

    method Delete(key: Key)
      modifies this`batch
      ensures batch == old(batch) + [BatchOp.Delete(key)]
      ensures db.data == old(db.data)
    {
      batch := batch + [BatchOp.Delete(key)];
    }

    /** Releases the engine snapshot; nothing is committed. */
    method Dispose()
      modifies this`disposed
      ensures disposed
      ensures db.data == old(db.data) && batch == old(batch)
    {
      disposed := true;
    }

    /** Iterates over the frozen view; buffered writes are not seen. */
    method Seek(prefix: Key, direction: SeekDirection := Forward) returns (entries: seq<(Key, Value)>)
      requires !disposed
      ensures Helper.IsSeekResult(view, prefix, direction, entries)
    {
      entries := Helper.Seek(view, prefix, direction);
    }

    method Put(key: Key, value: Value)
      modifies this`batch
      ensures batch == old(batch) + [BatchOp.Put(key, value)]
      ensures db.data == old(db.data)
    {
      batch := batch + [BatchOp.Put(key, value)];
    }

    method Contains(key: Key) returns (found: bool)
      requires !disposed
      ensures found <==> key in view
    {
      found := key in view;
    }

    method TryGet(key: Key) returns (value: Option<Value>)
      requires !disposed
      ensures value.Some? <==> key in view
      ensures value.Some? ==> value.value == view[key]
    {
      value := Lookup(view, key);
    }
  }

  // Sessions as callers use them.

  /** After `Put(k, v)` the store finds `v` under `k`; after `Delete(k)` it
      finds nothing. */
  method PutThenDelete(store: Store, key: Key, value: Value)
    returns (afterPut: Option<Value>, hadIt: bool, afterDelete: Option<Value>, hasIt: bool)
    modifies store
    ensures afterPut == Some(value) && hadIt
    ensures afterDelete == None && !hasIt
    ensures store.data == old(store.data) - {key}
  {
    store.Put(key, value);
    afterPut := store.TryGet(key);
    hadIt := store.Contains(key);
    store.Delete(key);
    afterDelete := store.TryGet(key);
    hasIt := store.Contains(key);
  }

  /** A snapshot answers from the map as it was when taken, whatever is
      written through the store afterwards, while the store sees the write. */
  method SnapshotIgnoresLaterWrites(store: Store, key: Key, value: Value, other: Key)
    returns (seen: Option<Value>, live: Option<Value>, seenOther: bool, entries: seq<(Key, Value)>)
    modifies store
    ensures seen == Lookup(old(store.data), key)
    ensures live == Some(value)
    ensures seenOther <==> other in old(store.data)
    ensures Helper.IsSeekResult(old(store.data), key, Forward, entries)
  {
    var snapshot := store.GetSnapshot();
    store.Delete(other);
    store.Put(key, value);
    seen := snapshot.TryGet(key);
    seenOther := snapshot.Contains(other);
    entries := snapshot.Seek(key, Forward);
    live := store.TryGet(key);
  }

  /** A session's reads do not see its own buffered writes, and the store
      does not see them until `Commit`; then the last write on a key wins. */
  method CommitLastWriteWins(store: Store, a: Key, b: Key, one: Value, two: Value)
    returns (seenBefore: Option<Value>, liveBefore: Option<Value>, liveA: Option<Value>, liveB: Option<Value>)
    requires a != b
    modifies store
    ensures seenBefore == Lookup(old(store.data), a)
    ensures liveBefore == Lookup(old(store.data), a)
    ensures liveA == Some(two) && liveB == None
    ensures forall k :: k != a && k != b ==> Lookup(store.data, k) == Lookup(old(store.data), k)
  {
    var snapshot := store.GetSnapshot();
    snapshot.Put(a, one);
    snapshot.Delete(b);
    snapshot.Put(a, two);
    seenBefore := snapshot.TryGet(a);
    liveBefore := store.TryGet(a);
    snapshot.Commit();
    assert snapshot.batch == [BatchOp.Put(a, one), BatchOp.Delete(b), BatchOp.Put(a, two)];
    BatchExample(old(store.data), a, b, one, two);
    liveA := store.TryGet(a);
    liveB := store.TryGet(b);
  }

  /** Committing the same session twice in a row leaves the map as one commit
      did. */
  method CommitTwice(snapshot: Snapshot)
    modifies snapshot.db
    ensures snapshot.db.data == Apply(old(snapshot.db.data), snapshot.batch)
  {
    snapshot.Commit();
    snapshot.Commit();
    ApplyTwice(old(snapshot.db.data), snapshot.batch);
  }

  /** The batch is kept after `Commit`, so a second commit replays it over any
      write made to the store in between: a session's `Put(k, v)` committed
      again restores `v` under `k` after the store wrote `w` there. */
  method RecommitOverwrites(store: Store, key: Key, v: Value, w: Value)
    returns (between: Option<Value>, after: Option<Value>)
    modifies store
    ensures between == Some(w)
    ensures after == Some(v)
  {
    var snapshot := store.GetSnapshot();
    snapshot.Put(key, v);
    snapshot.Commit();
    store.Put(key, w);
    between := store.TryGet(key);
    snapshot.Commit();
    assert snapshot.batch == [BatchOp.Put(key, v)];
    after := store.TryGet(key);
  }

  /** Nothing a session buffered reaches the store without `Commit`, and
      disposing the session does not commit. */
  method DisposeDiscards(store: Store, key: Key, value: Value)
    modifies store
    ensures store.data == old(store.data)
  {
    var snapshot := store.GetSnapshot();
    snapshot.Put(key, value);
    snapshot.Delete(key);
    snapshot.Dispose();
  }
}
