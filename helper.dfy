/**
 The iteration helpers of `src/LevelDBStore/Helper.cs`: a directional seek from a
 prefix and an inclusive range scan, both walking an engine cursor over one
 fixed view of the map. A call returns the whole sequence of (key, value)
 pairs it would yield. `Seek`'s two callers, the storage classes, pass
 `(k, v) => (k, v)` as the result selector; `FindRange` has no caller in the
 storage classes, and the model fixes its selector to the same identity
 pairing. So the pairs themselves are the result.
 */
module Helper {
  import opened ByteOrder
  import opened OrderedIndex

  function KeysOf(out: seq<(Key, Value)>): seq<Key>
  {
    seq(|out|, i requires 0 <= i < |out| => out[i].0)
  }

  lemma FirstKeyListed(out: seq<(Key, Value)>)
    ensures out != [] ==> out[0].0 in KeysOf(out)
  {
    if out != [] {
      assert KeysOf(out)[0] == out[0].0;
    }
  }

  /** The keys a forward seek from `prefix` selects: those not before it. */
  ghost function AtOrAfter(view: map<Key, Value>, prefix: Key): set<Key>
  {
    set k | k in view && !Less(k, prefix)
  }

  /** The keys a backward seek from `prefix` selects: those not after it. */
  ghost function AtOrBefore(view: map<Key, Value>, prefix: Key): set<Key>
  {
    set k | k in view && !Less(prefix, k)
  }

  /** The keys of the inclusive range `[start, end]`. */
  ghost function Within(view: map<Key, Value>, start: Key, end: Key): set<Key>
  {
    set k | k in view && !Less(k, start) && !Less(end, k)
  }

  /** `out` lists exactly the `selected` keys, each once, strictly ordered in
      direction `dir`, each paired with the value `view` stores for it. */
  ghost predicate Enumerates(out: seq<(Key, Value)>, view: map<Key, Value>, selected: set<Key>, dir: SeekDirection)
  {
    && (forall i :: 0 <= i < |out| ==> out[i].0 in view && view[out[i].0] == out[i].1)
    && Ordered(KeysOf(out), dir)
    && (forall k :: k in KeysOf(out) <==> k in selected)
  }

  ghost predicate IsSeekResult(view: map<Key, Value>, prefix: Key, direction: SeekDirection, out: seq<(Key, Value)>)
  {
    if direction == Forward then Enumerates(out, view, AtOrAfter(view, prefix), Forward)
    else Enumerates(out, view, AtOrBefore(view, prefix), Backward)
  }

  ghost predicate IsRangeResult(view: map<Key, Value>, start: Key, end: Key, out: seq<(Key, Value)>)
  {
    Enumerates(out, view, Within(view, start, end), Forward)
  }

  /** `Seek`: forward, the keys >= `prefix` ascending; backward (seek for
      previous), the keys <= `prefix` descending. */
  method Seek(view: map<Key, Value>, prefix: Key, direction: SeekDirection) returns (out: seq<(Key, Value)>)
    ensures IsSeekResult(view, prefix, direction, out)
  {
    var keys := SortKeys(view);
    out := [];
    var s := SeekIndex(keys, prefix);
    SeekSplit(keys, prefix);
    if direction == Forward {
      var pos := s;
      while pos < |keys|
        invariant s <= pos <= |keys|
        invariant |out| == pos - s
        invariant forall i :: 0 <= i < |out| ==> out[i] == (keys[s + i], view[keys[s + i]])
      {
        out := out + [(keys[pos], view[keys[pos]])];
        pos := pos + 1;
      }
      AscendingRun(view, keys, s, |keys|, out, AtOrAfter(view, prefix));
    } else {
      var pos: int := s;
      if pos == |keys| {
        pos := |keys| - 1;
      } else if Compare(keys[pos], prefix) > 0 {
        pos := pos - 1;
      }
      ghost var top := pos;
      SeekForPrevSplit(view, keys, prefix, s, top);
      while 0 <= pos < |keys|
        invariant -1 <= pos <= top < |keys|
        invariant |out| == top - pos
        invariant forall i :: 0 <= i < |out| ==> out[i] == (keys[top - i], view[keys[top - i]])
        decreases pos + 1
      {
        out := out + [(keys[pos], view[keys[pos]])];
        pos := pos - 1;
      }
      DescendingRun(view, keys, top, out, AtOrBefore(view, prefix));
    }
  }

  /** `FindRange`: the keys k with `start` <= k <= `end`, ascending. */
  method FindRange(view: map<Key, Value>, start: Key, end: Key) returns (out: seq<(Key, Value)>)
    ensures IsRangeResult(view, start, end, out)
  {
    var keys := SortKeys(view);
    out := [];
    var s := SeekIndex(keys, start);
    SeekSplit(keys, start);
    var pos := s;
    while pos < |keys|
      invariant s <= pos <= |keys|
      invariant |out| == pos - s
      invariant forall i :: 0 <= i < |out| ==> out[i] == (keys[s + i], view[keys[s + i]])
      invariant forall j :: s <= j < pos ==> !Less(end, keys[j])
    {
      var key := keys[pos];
      if Compare(key, end) > 0 {
        break;
      }
      CompareAntisymmetric(key, end);
      out := out + [(key, view[key])];
      pos := pos + 1;
    }
    assert pos < |keys| ==> Compare(keys[pos], end) > 0;
    RangeSplit(view, keys, start, end, s, pos);
    AscendingRun(view, keys, s, pos, out, Within(view, start, end));
  }

  /** Where the backward walk starts, the keys split: those at or before the
      start position are exactly those not after `prefix`. */
  lemma SeekForPrevSplit(view: map<Key, Value>, keys: seq<Key>, prefix: Key, s: nat, top: int)
    requires Ordered(keys, Forward)
    requires forall k :: k in keys <==> k in view
    requires s == SeekIndex(keys, prefix)
    requires top == if s == |keys| then |keys| - 1
                    else if Compare(keys[s], prefix) > 0 then s - 1
                    else s
    ensures -1 <= top < |keys|
    ensures forall j :: 0 <= j < |keys| ==> (j <= top <==> keys[j] in AtOrBefore(view, prefix))
  {
    SeekSplit(keys, prefix);
    forall j | 0 <= j < |keys| ensures j <= top <==> !Less(prefix, keys[j]) {
      LessAsymmetric(keys[j], prefix);
      if s < |keys| {
        CompareAntisymmetric(keys[s], prefix);
        if Compare(keys[s], prefix) > 0 {
          if s < j { LessTransitive(prefix, keys[s], keys[j]); }
        } else {
          CompareZeroIffEqual(keys[s], prefix);
          if s == j { LessIrreflexive(prefix); }
        }
      }
    }
  }

  /** Where the range scan stops, the keys split: those between the seek
      position and the stop position are exactly those in `[start, end]`. */
  lemma RangeSplit(view: map<Key, Value>, keys: seq<Key>, start: Key, end: Key, s: nat, stop: nat)
    requires Ordered(keys, Forward)
    requires forall k :: k in keys <==> k in view
    requires s == SeekIndex(keys, start) <= stop <= |keys|
    requires forall j :: s <= j < stop ==> !Less(end, keys[j])
    requires stop < |keys| ==> Compare(keys[stop], end) > 0
    ensures forall j :: 0 <= j < |keys| ==> (s <= j < stop <==> keys[j] in Within(view, start, end))
  {
    SeekSplit(keys, start);
    if stop < |keys| {
      CompareAntisymmetric(keys[stop], end);
      forall j | stop < j < |keys| ensures Less(end, keys[j]) {
        LessTransitive(end, keys[stop], keys[j]);
      }
    }
  }

  /** A run `keys[lo..hi]` of the ascending key sequence, paired with its
      values, enumerates the keys selected by that run. */
  lemma AscendingRun(view: map<Key, Value>, keys: seq<Key>, lo: nat, hi: nat, out: seq<(Key, Value)>, selected: set<Key>)
    requires Ordered(keys, Forward)
    requires forall k :: k in keys <==> k in view
    requires lo <= hi <= |keys| && |out| == hi - lo
    requires forall i :: 0 <= i < |out| ==> out[i] == (keys[lo + i], view[keys[lo + i]])
    requires forall j :: 0 <= j < |keys| ==> (lo <= j < hi <==> keys[j] in selected)
    requires forall k :: k in selected ==> k in view
    ensures Enumerates(out, view, selected, Forward)
  {
    var ks := KeysOf(out);
    assert forall i :: 0 <= i < |out| ==> ks[i] == keys[lo + i];
    forall k ensures k in ks <==> k in selected {
      if k in ks {
        var i :| 0 <= i < |ks| && ks[i] == k;
        assert keys[lo + i] == k;
      }
      if k in selected {
        var j :| 0 <= j < |keys| && keys[j] == k;
        assert ks[j - lo] == k;
      }
    }
  }

  /** The prefix `keys[..top + 1]` walked from `top` down to 0, paired with its
      values, enumerates in descending order the keys it selects. */
  lemma DescendingRun(view: map<Key, Value>, keys: seq<Key>, top: int, out: seq<(Key, Value)>, selected: set<Key>)
    requires Ordered(keys, Forward)
    requires forall k :: k in keys <==> k in view
    requires -1 <= top < |keys| && |out| == top + 1
    requires forall i :: 0 <= i < |out| ==> out[i] == (keys[top - i], view[keys[top - i]])
    requires forall j :: 0 <= j < |keys| ==> (j <= top <==> keys[j] in selected)
    requires forall k :: k in selected ==> k in view
    ensures Enumerates(out, view, selected, Backward)
  {
    var ks := KeysOf(out);
    assert forall i :: 0 <= i < |out| ==> ks[i] == keys[top - i];
    forall k ensures k in ks <==> k in selected {
      if k in ks {
        var i :| 0 <= i < |ks| && ks[i] == k;
        assert keys[top - i] == k;
      }
      if k in selected {
        var j :| 0 <= j < |keys| && keys[j] == k;
        assert ks[top - j] == k;
      }
    }
  }

  /** The contracts of `Seek` pin its output down completely: two results that
      meet them are the same sequence. */
  lemma SeekResultUnique(view: map<Key, Value>, prefix: Key, direction: SeekDirection, a: seq<(Key, Value)>, b: seq<(Key, Value)>)
    requires IsSeekResult(view, prefix, direction, a) && IsSeekResult(view, prefix, direction, b)
    ensures a == b
  {
    OrderedUnique(KeysOf(a), KeysOf(b), direction);
    assert |a| == |KeysOf(a)| == |KeysOf(b)| == |b|;
    forall i | 0 <= i < |a| ensures a[i] == b[i] {
      assert a[i].0 == KeysOf(a)[i] == KeysOf(b)[i] == b[i].0;
    }
  }

  /** Likewise for `FindRange`. */
  lemma RangeResultUnique(view: map<Key, Value>, start: Key, end: Key, a: seq<(Key, Value)>, b: seq<(Key, Value)>)
    requires IsRangeResult(view, start, end, a) && IsRangeResult(view, start, end, b)
    ensures a == b
  {
    OrderedUnique(KeysOf(a), KeysOf(b), Forward);
    assert |a| == |KeysOf(a)| == |KeysOf(b)| == |b|;
    forall i | 0 <= i < |a| ensures a[i] == b[i] {
      assert a[i].0 == KeysOf(a)[i] == KeysOf(b)[i] == b[i].0;
    }
  }

  /** A backward seek from a stored key yields that key first: the cursor
      steps back only when the found key is strictly greater. */
  lemma BackwardIncludesPrefix(view: map<Key, Value>, prefix: Key, out: seq<(Key, Value)>)
    requires IsSeekResult(view, prefix, Backward, out)
    requires prefix in view
    ensures |out| > 0 && out[0] == (prefix, view[prefix])
  {
    LessIrreflexive(prefix);
    assert prefix in AtOrBefore(view, prefix);
    var ks := KeysOf(out);
    var i :| 0 <= i < |ks| && ks[i] == prefix;
    assert ks[0] in ks;
    assert i > 0 ==> Precedes(Backward, ks[0], ks[i]);
  }

  /** When every key sorts before `prefix`, a backward seek starts from the
      overall last key and yields all of them. */
  lemma BackwardFromLast(view: map<Key, Value>, prefix: Key, out: seq<(Key, Value)>)
    requires IsSeekResult(view, prefix, Backward, out)
    requires forall k :: k in view ==> Less(k, prefix)
    requires view != map[]
    ensures |out| > 0
    ensures forall k :: k in view ==> k == out[0].0 || Less(k, out[0].0)
    ensures forall k :: k in view <==> k in KeysOf(out)
  {
    var ks := KeysOf(out);
    forall k | k in view ensures k in AtOrBefore(view, prefix) {
      LessAsymmetric(k, prefix);
    }
    var k0 :| k0 in view;
    assert k0 in ks;
    OrderedTail(ks, Backward);
  }

  /** When every key sorts after `prefix`, a backward seek yields nothing. */
  lemma BackwardEmpty(view: map<Key, Value>, prefix: Key, out: seq<(Key, Value)>)
    requires IsSeekResult(view, prefix, Backward, out)
    requires forall k :: k in view ==> Less(prefix, k)
    ensures out == []
  {
    FirstKeyListed(out);
    if out != [] {
      assert false;
    }
  }

  /** A range whose end sorts before its start is empty. */
  lemma FindRangeEmpty(view: map<Key, Value>, start: Key, end: Key, out: seq<(Key, Value)>)
    requires IsRangeResult(view, start, end, out)
    requires Less(end, start)
    ensures out == []
  {
    if out != [] {
      var k := KeysOf(out)[0];
      assert k in KeysOf(out);
      LessTotal(k, start);
      if Less(start, k) {
        LessTransitive(end, start, k);
      }
      assert false;
    }
  }

  /** The range is inclusive at both ends: `start` and `end` are yielded when
      stored and in order. */
  lemma FindRangeInclusive(view: map<Key, Value>, start: Key, end: Key, out: seq<(Key, Value)>)
    requires IsRangeResult(view, start, end, out)
    requires !Less(end, start)
    ensures start in view ==> start in KeysOf(out)
    ensures end in view ==> end in KeysOf(out)
  {
    LessIrreflexive(start);
    LessIrreflexive(end);
    assert start in view ==> start in Within(view, start, end);
    assert end in view ==> end in Within(view, start, end);
  }

  // Examples over one-byte and two-byte keys: 'a' is 97, 'b' is 98.

  /** Forward `Seek("aa")` over {"a", "ab", "b"} yields "ab" then "b". */
  lemma ForwardSeekExample(x: Value, y: Value, z: Value, out: seq<(Key, Value)>)
    requires IsSeekResult(map[[97] := x, [97, 98] := y, [98] := z], [97, 97], Forward, out)
    ensures out == [([97, 98], y), ([98], z)]
  {
    var view := map[[97] := x, [97, 98] := y, [98] := z];
    var expected := [([97, 98], y), ([98], z)];
    assert Less([97], [97, 97]) && !Less([97, 98], [97, 97]) && !Less([98], [97, 97]);
    assert Less([97, 98], [98]);
    assert AtOrAfter(view, [97, 97]) == {[97, 98], [98]};
    assert KeysOf(expected) == [[97, 98], [98]];
    SeekResultUnique(view, [97, 97], Forward, out, expected);
  }

  /** Backward `Seek("ab")` over {"a", "ab", "b"} yields "ab" then "a". */
  lemma BackwardSeekExample(x: Value, y: Value, z: Value, out: seq<(Key, Value)>)
    requires IsSeekResult(map[[97] := x, [97, 98] := y, [98] := z], [97, 98], Backward, out)
    ensures out == [([97, 98], y), ([97], x)]
  {
    var view := map[[97] := x, [97, 98] := y, [98] := z];
    var expected := [([97, 98], y), ([97], x)];
    assert !Less([97, 98], [97]) && !Less([97, 98], [97, 98]) && Less([97, 98], [98]);
    assert Less([97], [97, 98]);
    assert AtOrBefore(view, [97, 98]) == {[97, 98], [97]};
    assert KeysOf(expected) == [[97, 98], [97]];
    SeekResultUnique(view, [97, 98], Backward, out, expected);
  }

  /** `FindRange("a", "ab")` over {"a", "aa", "ab", "b"} yields "a", "aa", "ab". */
  lemma FindRangeExample(w: Value, x: Value, y: Value, z: Value, out: seq<(Key, Value)>)
    requires IsRangeResult(map[[97] := w, [97, 97] := x, [97, 98] := y, [98] := z], [97], [97, 98], out)
    ensures out == [([97], w), ([97, 97], x), ([97, 98], y)]
  {
    var view := map[[97] := w, [97, 97] := x, [97, 98] := y, [98] := z];
    var expected := [([97], w), ([97, 97], x), ([97, 98], y)];
    assert !Less([97], [97]) && !Less([97, 97], [97]) && !Less([97, 98], [97]) && !Less([98], [97]);
    assert !Less([97, 98], [97]) && !Less([97, 98], [97, 97]) && !Less([97, 98], [97, 98]) && Less([97, 98], [98]);
    assert Less([97], [97, 97]) && Less([97], [97, 98]) && Less([97, 97], [97, 98]);
    assert Within(view, [97], [97, 98]) == {[97], [97, 97], [97, 98]};
    assert KeysOf(expected) == [[97], [97, 97], [97, 98]];
    RangeResultUnique(view, [97], [97, 98], out, expected);
  }
}
