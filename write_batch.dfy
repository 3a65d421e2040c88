/**
 A LevelDB write batch: an ordered list of put and delete operations that the
 engine applies to the map in call order, as one unit.
 */
module WriteBatch {
  import opened Wrappers
  import opened OrderedIndex

  datatype BatchOp = Put(key: Key, value: Value) | Delete(key: Key)

  /** The effect of one operation on the map. */
  function Step(m: map<Key, Value>, op: BatchOp): (r: map<Key, Value>)
    ensures Lookup(r, op.key) == Outcome(op)
    ensures forall k :: k != op.key ==> Lookup(r, k) == Lookup(m, k)
  {
    match op
    case Put(k, v) => m[k := v]
    case Delete(k) => m - {k}
  }

  /** `DB.Write(batch)`: the operations applied one after another, first to last. */
  function Apply(m: map<Key, Value>, ops: seq<BatchOp>): (r: map<Key, Value>)
    ensures forall k :: (forall op :: op in ops ==> op.key != k) ==> Lookup(r, k) == Lookup(m, k)
    decreases |ops|
  {
    if ops == [] then m else Apply(Step(m, ops[0]), ops[1..])
  }

  /** The last operation of `ops` on key `k`, found by searching from the end. */
  function LastOp(ops: seq<BatchOp>, k: Key): (r: Option<BatchOp>)
    ensures r.Some? ==> r.value in ops && r.value.key == k
    ensures r.Some? ==>
      exists i :: 0 <= i < |ops| && ops[i] == r.value && forall j :: i < j < |ops| ==> ops[j].key != k
    ensures r.None? ==> forall op :: op in ops ==> op.key != k
  {
    if ops == [] then None
    else if ops[|ops| - 1].key == k then Some(ops[|ops| - 1])
    else
      var r := LastOp(ops[..|ops| - 1], k);
      assert forall op :: op in ops ==> op in ops[..|ops| - 1] || op == ops[|ops| - 1];
      r
  }

  /** What a lookup finds right after `op` ran on its key. */
  function Outcome(op: BatchOp): Option<Value>
  {
    match op
    case Put(_, v) => Some(v)
    case Delete(_) => None
  }

  /** Applying a batch extended by one operation is applying that operation
      after the rest. */
  lemma {:induction false} ApplySnoc(m: map<Key, Value>, ops: seq<BatchOp>, op: BatchOp)
    ensures Apply(m, ops + [op]) == Step(Apply(m, ops), op)
    decreases |ops|
  {
    if ops == [] {
      assert ops + [op] == [op];
    } else {
      assert (ops + [op])[1..] == ops[1..] + [op];
      ApplySnoc(Step(m, ops[0]), ops[1..], op);
    }
  }

  /** Last write wins: after a batch, each key holds what the last operation
      on it left, and a key the batch never touches keeps its old value. */
  lemma {:induction false} LastWriteWins(m: map<Key, Value>, ops: seq<BatchOp>, k: Key)
    ensures Lookup(Apply(m, ops), k) ==
      match LastOp(ops, k)
      case None => Lookup(m, k)
      case Some(op) => Outcome(op)
    decreases |ops|
  {
    if ops != [] {
      var init, last := ops[..|ops| - 1], ops[|ops| - 1];
      assert ops == init + [last];
      ApplySnoc(m, init, last);
      LastWriteWins(m, init, k);
    }
  }

  lemma LookupExtensional(a: map<Key, Value>, b: map<Key, Value>)
    requires forall k :: Lookup(a, k) == Lookup(b, k)
    ensures a == b
  {
    assert a.Keys == b.Keys by {
      forall k ensures k in a <==> k in b {
        assert Lookup(a, k).Some? <==> Lookup(b, k).Some?;
      }
    }
    forall k | k in a ensures a[k] == b[k] {
      assert Lookup(a, k) == Lookup(b, k);
    }
  }

  /** Applying a batch a second time, straight after the first application,
      leaves the map as the first application did. */
  lemma ApplyTwice(m: map<Key, Value>, ops: seq<BatchOp>)
    ensures Apply(Apply(m, ops), ops) == Apply(m, ops)
  {
    var once := Apply(m, ops);
    forall k ensures Lookup(Apply(once, ops), k) == Lookup(once, k) {
      LastWriteWins(once, ops, k);
      LastWriteWins(m, ops, k);
    }
    LookupExtensional(Apply(once, ops), once);
  }

  /** put(A, 1), delete(B), put(A, 2) leaves A holding 2 and B absent, and
      every other key as it was. */
  lemma BatchExample(m: map<Key, Value>, a: Key, b: Key, one: Value, two: Value)
    requires a != b
    ensures Lookup(Apply(m, [Put(a, one), Delete(b), Put(a, two)]), a) == Some(two)
    ensures Lookup(Apply(m, [Put(a, one), Delete(b), Put(a, two)]), b) == None
    ensures forall k :: k != a && k != b ==>
      Lookup(Apply(m, [Put(a, one), Delete(b), Put(a, two)]), k) == Lookup(m, k)
  {
    var ops := [Put(a, one), Delete(b), Put(a, two)];
    LastWriteWins(m, ops, a);
    assert ops[..2] == [Put(a, one), Delete(b)];
    LastWriteWins(m, ops, b);
    forall k | k != a && k != b ensures Lookup(Apply(m, ops), k) == Lookup(m, k) {
      LastWriteWins(m, ops, k);
    }
  }
}
