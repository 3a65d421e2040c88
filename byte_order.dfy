/**
 The order on keys. The store opens LevelDB without a custom comparator, so keys
 are ordered by the engine's default bytewise comparator, and the seek helpers
 compare keys with `SequenceCompareTo` on byte spans. Both are the same
 lexicographic order in which a proper prefix sorts first.
 */
module ByteOrder {

  newtype byte = x: int | 0 <= x < 256

  /** `SequenceCompareTo` on two byte spans: the difference of the first pair of
      bytes that differ, or, when one span is a prefix of the other, the
      difference of the lengths. Only the sign is ever inspected by callers. */
  function Compare(a: seq<byte>, b: seq<byte>): (r: int)
    ensures a == b ==> r == 0
    decreases |a|
  {
    if |a| == 0 || |b| == 0 then |a| - |b|
    else if a[0] != b[0] then a[0] as int - b[0] as int
    else Compare(a[1..], b[1..])
  }

  /** `a` sorts strictly before `b`. */
  predicate Less(a: seq<byte>, b: seq<byte>)
  {
    Compare(a, b) < 0
  }

  /** Swapping the arguments negates the comparison, so `Compare(a, b) > 0`
      means exactly that `b` sorts before `a`. */
  lemma {:induction false} CompareAntisymmetric(a: seq<byte>, b: seq<byte>)
    ensures Compare(a, b) == -Compare(b, a)
    decreases |a|
  {
    if |a| == 0 || |b| == 0 {
    } else if a[0] != b[0] {
    } else {
      CompareAntisymmetric(a[1..], b[1..]);
    }
  }

  /** The first differing byte decides: when `a` and `b` agree on their first
      `i` bytes and differ at byte `i`, the comparison is the difference of
      those two bytes. */
  lemma {:induction false} CompareFirstDifference(a: seq<byte>, b: seq<byte>, i: nat)
    requires i < |a| && i < |b| && a[..i] == b[..i] && a[i] != b[i]
    ensures Compare(a, b) == a[i] as int - b[i] as int
    decreases i
  {
    if i > 0 {
      assert a[0] == a[..i][0] == b[..i][0] == b[0];
      assert a[1..][..i - 1] == a[..i][1..] == b[..i][1..] == b[1..][..i - 1];
      CompareFirstDifference(a[1..], b[1..], i - 1);
    }
  }

  /** The comparison is zero exactly on equal keys. */
  lemma {:induction false} CompareZeroIffEqual(a: seq<byte>, b: seq<byte>)
    ensures Compare(a, b) == 0 <==> a == b
    decreases |a|
  {
    if |a| == 0 || |b| == 0 {
    } else if a[0] != b[0] {
    } else {
      CompareZeroIffEqual(a[1..], b[1..]);
      assert a == [a[0]] + a[1..];
      assert b == [b[0]] + b[1..];
    }
  }

  lemma LessIrreflexive(a: seq<byte>)
    ensures !Less(a, a)
  {
    CompareZeroIffEqual(a, a);
  }

  lemma LessAsymmetric(a: seq<byte>, b: seq<byte>)
    ensures Less(a, b) ==> !Less(b, a)
  {
    CompareAntisymmetric(a, b);
  }

  /** Any two distinct keys are ordered one way or the other. */
  lemma LessTotal(a: seq<byte>, b: seq<byte>)
    ensures a == b || Less(a, b) || Less(b, a)
  {
    CompareAntisymmetric(a, b);
    CompareZeroIffEqual(a, b);
  }

  lemma {:induction false} LessTransitive(a: seq<byte>, b: seq<byte>, c: seq<byte>)
    requires Less(a, b) && Less(b, c)
    ensures Less(a, c)
    decreases |a|
  {
    if |a| == 0 || |b| == 0 || |c| == 0 {
    } else if a[0] != b[0] || b[0] != c[0] {
    } else {
      LessTransitive(a[1..], b[1..], c[1..]);
    }
  }

  /** A proper prefix sorts before every key it is a prefix of. */
  lemma {:induction false} ProperPrefixFirst(a: seq<byte>, b: seq<byte>)
    requires |a| < |b| && a == b[..|a|]
    ensures Less(a, b)
    decreases |a|
  {
    if |a| != 0 {
      assert a[0] == b[0];
      assert a[1..] == b[1..][..|a| - 1];
      ProperPrefixFirst(a[1..], b[1..]);
    }
  }
}
