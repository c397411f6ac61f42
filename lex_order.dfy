/**
 * Python's ordering of `str` values: lexicographic by code point, where a
 * proper prefix sorts before the longer string. This is the order `sorted`
 * uses on string keys.
 */
module LexOrder {

  /** `a < b` on Python strings. */
  predicate StrLess(a: string, b: string)
    decreases |a|
  {
    if a == [] then b != []
    else if b == [] then false
    else if a[0] != b[0] then a[0] < b[0]
    else StrLess(a[1..], b[1..])
  }

  /** The usual closed form of the order: `a` is a proper prefix of `b`, or
      `a` and `b` agree up to a first position where `a` has the smaller code point. */
  predicate DiffersFirstBelow(a: string, b: string, k: nat)
  {
    k < |a| && k < |b| && a[..k] == b[..k] && a[k] < b[k]
  }

  lemma {:induction false} StrLessClosedForm(a: string, b: string)
    ensures StrLess(a, b) <==> (a < b || exists k: nat :: DiffersFirstBelow(a, b, k))
    decreases |a|
  {
    if a == [] || b == [] {
      if b == [] {
        forall k: nat ensures !DiffersFirstBelow(a, b, k) {}
      }
    } else if a[0] != b[0] {
      if a[0] < b[0] {
        assert DiffersFirstBelow(a, b, 0);
      }
    } else {
      StrLessClosedForm(a[1..], b[1..]);
      assert a == [a[0]] + a[1..] && b == [b[0]] + b[1..];
      if a[1..] < b[1..] {
        assert a < b;
      }
      if a < b {
        assert a[1..] < b[1..];
      }
      forall k: nat | DiffersFirstBelow(a[1..], b[1..], k) ensures DiffersFirstBelow(a, b, k + 1) {
        assert a[..k + 1] == [a[0]] + a[1..][..k];
        assert b[..k + 1] == [b[0]] + b[1..][..k];
      }
      forall k: nat | DiffersFirstBelow(a, b, k) ensures k > 0 && DiffersFirstBelow(a[1..], b[1..], k - 1) {
        assert a[1..][..k - 1] == a[..k][1..];
        assert b[1..][..k - 1] == b[..k][1..];
      }
    }
  }

  lemma {:induction false} StrLessIrreflexive(a: string)
    ensures !StrLess(a, a)
    decreases |a|
  {
    if a != [] { StrLessIrreflexive(a[1..]); }
  }

  lemma {:induction false} StrLessTransitive(a: string, b: string, c: string)
    requires StrLess(a, b) && StrLess(b, c)
    ensures StrLess(a, c)
    decreases |a|
  {
    if a != [] && a[0] == b[0] && b[0] == c[0] {
      StrLessTransitive(a[1..], b[1..], c[1..]);
    }
  }

  /** Any two different strings are ordered one way or the other. */
  lemma {:induction false} StrLessTotal(a: string, b: string)
    requires a != b
    ensures StrLess(a, b) || StrLess(b, a)
    decreases |a|
  {
    if a != [] && b != [] && a[0] == b[0] {
      assert a == [a[0]] + a[1..] && b == [b[0]] + b[1..];
      StrLessTotal(a[1..], b[1..]);
    }
  }

  lemma {:induction false} StrLessAsymmetric(a: string, b: string)
    ensures !(StrLess(a, b) && StrLess(b, a))
  {
    if StrLess(a, b) && StrLess(b, a) {
      StrLessTransitive(a, b, a);
      StrLessIrreflexive(a);
    }
  }
}
