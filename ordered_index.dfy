/**
 The engine as the helpers see it: an ordered map from keys to values, read
 through a cursor over its keys in comparator order. A LevelDB iterator is
 modelled as an index into the ascending sequence of the view's keys; the
 index is valid while it lies inside that sequence.
 */
module OrderedIndex {
  import opened ByteOrder
  import opened Wrappers

  type Key = seq<byte>
  type Value = seq<byte>

  /** `SeekDirection`: which way a seek walks the keys. */
  datatype SeekDirection = Forward | Backward

  /** The engine's point lookup: the stored value, or none for a missing key. */
  function Lookup(m: map<Key, Value>, k: Key): Option<Value>
  {
    if k in m then Some(m[k]) else None
  }

  /** `a` comes before `b` when walking in direction `dir`. */
  predicate Precedes(dir: SeekDirection, a: Key, b: Key)
  {
    if dir == Forward then Less(a, b) else Less(b, a)
  }

  /** Strictly ordered: every earlier key precedes every later one. */
  ghost predicate Ordered(ks: seq<Key>, dir: SeekDirection)
  {
    forall i, j :: 0 <= i < j < |ks| ==> Precedes(dir, ks[i], ks[j])
  }

  lemma PrecedesTransitive(dir: SeekDirection, a: Key, b: Key, c: Key)
    requires Precedes(dir, a, b) && Precedes(dir, b, c)
    ensures Precedes(dir, a, c)
  {
    if dir == Forward {
      LessTransitive(a, b, c);
    } else {
      LessTransitive(c, b, a);
    }
  }

  lemma PrecedesIrreflexive(dir: SeekDirection, a: Key)
    ensures !Precedes(dir, a, a)
  {
    LessIrreflexive(a);
  }

  /** In an ordered sequence the head precedes every other element, so the
      tail holds exactly the elements other than the head. */
  lemma OrderedTail(ks: seq<Key>, dir: SeekDirection)
    requires Ordered(ks, dir) && ks != []
    ensures forall x :: x in ks ==> x == ks[0] || Precedes(dir, ks[0], x)
    ensures forall x :: x in ks[1..] <==> x in ks && x != ks[0]
  {
    forall x | x in ks ensures x == ks[0] || Precedes(dir, ks[0], x) {
      var i :| 0 <= i < |ks| && ks[i] == x;
    }
    forall x | x in ks[1..] ensures x != ks[0] {
      var i :| 1 <= i < |ks| && ks[i] == x;
      PrecedesIrreflexive(dir, ks[0]);
    }
    forall x | x in ks && x != ks[0] ensures x in ks[1..] {
      var i :| 0 <= i < |ks| && ks[i] == x;
      assert ks[1..][i - 1] == x;
    }
  }

  /** An ordered sequence is determined by its set of elements: two strictly
      ordered sequences with the same elements are equal. So a seek result
      that is ordered and holds exactly the selected keys is the only one. */
  lemma {:induction false} OrderedUnique(a: seq<Key>, b: seq<Key>, dir: SeekDirection)
    requires Ordered(a, dir) && Ordered(b, dir)
    requires forall x :: x in a <==> x in b
    ensures a == b
    decreases |a|
  {
    assert b != [] ==> b[0] in a;
    if a != [] {
      assert a[0] in a;
      assert b != [];
      OrderedTail(a, dir);
      OrderedTail(b, dir);
      if a[0] != b[0] {
        assert a[0] in b && b[0] in a;
        PrecedesTransitive(dir, a[0], b[0], a[0]);
        PrecedesIrreflexive(dir, a[0]);
        assert false;
      }
      assert Ordered(a[1..], dir) && Ordered(b[1..], dir);
      OrderedUnique(a[1..], b[1..], dir);
      assert a == [a[0]] + a[1..];
      assert b == [b[0]] + b[1..];
    }
  }

  /** Inserts `k` into an ascending key sequence, keeping it ascending and
      dropping nothing; a key already present is not duplicated. */
  function Insert(s: seq<Key>, k: Key): (r: seq<Key>)
    requires Ordered(s, Forward)
    ensures Ordered(r, Forward)
    ensures forall x :: x in r <==> x in s || x == k
  {
    if s == [] then [k]
    else if Less(k, s[0]) then
      OrderedTail(s, Forward);
      assert forall x :: x in s ==> Less(k, x) by {
        forall x | x in s ensures Less(k, x) {
          if x != s[0] { LessTransitive(k, s[0], x); }
        }
      }
      ConsOrdered(k, s);
      [k] + s
    else if k == s[0] then s
    else
      LessTotal(k, s[0]);
      OrderedTail(s, Forward);
      var rest := Insert(s[1..], k);
      ConsOrdered(s[0], rest);
      [s[0]] + rest
  }

  lemma ConsOrdered(h: Key, t: seq<Key>)
    requires Ordered(t, Forward)
    requires forall x :: x in t ==> Less(h, x)
    ensures Ordered([h] + t, Forward)
  {
  }

  /** The keys of a view in ascending order: what the engine's iterator walks. */
  method SortKeys(view: map<Key, Value>) returns (keys: seq<Key>)
    ensures Ordered(keys, Forward)
    ensures forall k :: k in keys <==> k in view
  {
    keys := [];
    var rest := view.Keys;
    while rest != {}
      invariant rest <= view.Keys
      invariant Ordered(keys, Forward)
      invariant forall k :: k in keys <==> k in view && k !in rest
      decreases |rest|
    {
      var k :| k in rest;
      keys := Insert(keys, k);
      rest := rest - {k};
    }
  }

  /** `it.Seek(target)`: the position of the first key that does not sort
      before `target`, or `|keys|` (an invalid cursor) when there is none. */
  function SeekIndex(keys: seq<Key>, target: Key): (i: nat)
    ensures i <= |keys|
    ensures forall j :: 0 <= j < i ==> Less(keys[j], target)
    ensures i < |keys| ==> !Less(keys[i], target)
  {
    if keys == [] || !Less(keys[0], target) then 0
    else 1 + SeekIndex(keys[1..], target)
  }

  /** On ascending keys the seek position splits them: everything before it
      sorts before `target`, everything from it on does not. */
  lemma SeekSplit(keys: seq<Key>, target: Key)
    requires Ordered(keys, Forward)
    ensures forall j :: 0 <= j < |keys| ==>
      (SeekIndex(keys, target) <= j <==> !Less(keys[j], target))
  {
    var s := SeekIndex(keys, target);
    forall j | s < j < |keys| ensures !Less(keys[j], target) {
      if Less(keys[j], target) {
        LessTransitive(keys[s], keys[j], target);
      }
    }
  }
}
