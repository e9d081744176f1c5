/** Byte strings and the order Go's `bytes.Compare` puts on them. */
module Bytes {

  /** Go's `byte` (uint8). */
  type byte = x: int | 0 <= x < 0x100

  /** Region keys are raw byte strings; the empty key is the lowest one. */
  type Key = seq<byte>

  /** `Less(a, b)` holds exactly when `bytes.Compare(a, b) < 0`: lexicographic order
      on bytes, where a proper prefix sorts before every extension of it. */
  predicate Less(a: Key, b: Key)
    decreases |a|
  {
    if |b| == 0 then false
    else if |a| == 0 then true
    else if a[0] != b[0] then a[0] < b[0]
    else Less(a[1..], b[1..])
  }

  /** `bytes.Compare(a, b) <= 0`. */
  predicate LessEq(a: Key, b: Key) {
    a == b || Less(a, b)
  }

  lemma {:induction false} LessIrreflexive(a: Key)
    ensures !Less(a, a)
  {
    if |a| > 0 {
      LessIrreflexive(a[1..]);
    }
  }

  lemma {:induction false} LessAsymmetric(a: Key, b: Key)
    requires Less(a, b)
    ensures !Less(b, a)
  {
    if |a| > 0 && a[0] == b[0] {
      LessAsymmetric(a[1..], b[1..]);
    }
  }

  lemma {:induction false} LessTransitive(a: Key, b: Key, c: Key)
    requires Less(a, b) && Less(b, c)
    ensures Less(a, c)
  {
    if |a| > 0 && a[0] == b[0] && b[0] == c[0] {
      LessTransitive(a[1..], b[1..], c[1..]);
    }
  }

  /** Any two keys compare: `bytes.Compare` is a total order. */
  lemma {:induction false} LessTotal(a: Key, b: Key)
    ensures a == b || Less(a, b) || Less(b, a)
  {
    if |a| > 0 && |b| > 0 && a[0] == b[0] {
      LessTotal(a[1..], b[1..]);
      if a[1..] == b[1..] {
        assert a == [a[0]] + a[1..] && b == [b[0]] + b[1..];
      }
    }
  }

  /** `bytes.Compare(a, b) >= 0` is the same as `bytes.Compare(b, a) <= 0`. */
  lemma {:induction false} NotLessIsGreaterEq(a: Key, b: Key)
    ensures !Less(a, b) <==> LessEq(b, a)
  {
    LessTotal(a, b);
    if LessEq(b, a) && Less(a, b) {
      if a == b {
        LessIrreflexive(a);
      } else {
        LessAsymmetric(a, b);
      }
    }
  }

  lemma {:induction false} LessEqLessTransitive(a: Key, b: Key, c: Key)
    requires LessEq(a, b) && Less(b, c)
    ensures Less(a, c)
  {
    if a != b {
      LessTransitive(a, b, c);
    }
  }

  lemma {:induction false} LessLessEqTransitive(a: Key, b: Key, c: Key)
    requires Less(a, b) && LessEq(b, c)
    ensures Less(a, c)
  {
    if b != c {
      LessTransitive(a, b, c);
    }
  }

  lemma {:induction false} LessEqTransitive(a: Key, b: Key, c: Key)
    requires LessEq(a, b) && LessEq(b, c)
    ensures LessEq(a, c)
  {
    if a != b && b != c {
      LessTransitive(a, b, c);
    }
  }
}
