// Lexicographic order on strings, and prefixes under it.
module Strings {
  import opened Sorting

  predicate StrLess(a: string, b: string) {
    if b == "" then false
    else if a == "" then true
    else a[0] < b[0] || (a[0] == b[0] && StrLess(a[1..], b[1..]))
  }

  // The strings agree before position k, where a is less or ends.
  ghost predicate DifferAt(a: string, b: string, k: nat) {
    k <= |a| && k < |b| && a[..k] == b[..k] && (k < |a| ==> a[k] < b[k])
  }

  // The first difference decides; a string comes before its extensions.
  lemma {:induction false} FirstDifferenceDecides(a: string, b: string)
    ensures StrLess(a, b) <==> exists k: nat :: DifferAt(a, b, k)
  {
    if a == "" || b == "" {
      assert b != "" && a == "" ==> DifferAt(a, b, 0);
    } else if a[0] != b[0] {
      assert a[0] < b[0] ==> DifferAt(a, b, 0);
      assert forall k: nat :: 0 < k <= |a| && k <= |b| ==> a[..k][0] == a[0] && b[..k][0] == b[0];
    } else {
      FirstDifferenceDecides(a[1..], b[1..]);
      if k: nat :| DifferAt(a[1..], b[1..], k) {
        assert a[..k + 1] == [a[0]] + a[1..][..k] && b[..k + 1] == [b[0]] + b[1..][..k];
        assert DifferAt(a, b, k + 1);
      }
      if k: nat :| DifferAt(a, b, k) {
        assert k > 0 ==> a[1..][..k - 1] == a[..k][1..] && b[1..][..k - 1] == b[..k][1..];
        assert DifferAt(a[1..], b[1..], k - 1);
      }
    }
  }

  lemma {:induction false} StrLessIrreflexive(a: string)
    ensures !StrLess(a, a)
  {
    if a != "" {
      StrLessIrreflexive(a[1..]);
    }
  }

  lemma {:induction false} StrLessTransitive(a: string, b: string, c: string)
    requires StrLess(a, b) && StrLess(b, c)
    ensures StrLess(a, c)
  {
    if a != "" && a[0] == b[0] == c[0] {
      StrLessTransitive(a[1..], b[1..], c[1..]);
    }
  }

  lemma {:induction false} StrLessTotal(a: string, b: string)
    requires a != b
    ensures StrLess(a, b) || StrLess(b, a)
  {
    if a != "" && b != "" && a[0] == b[0] {
      assert a == [a[0]] + a[1..] && b == [b[0]] + b[1..];
      StrLessTotal(a[1..], b[1..]);
    }
  }

  lemma StrLessIsOrder()
    ensures StrictOrder(StrLess)
  {
    forall a { StrLessIrreflexive(a); }
    forall a, b, c | StrLess(a, b) && StrLess(b, c) { StrLessTransitive(a, b, c); }
    forall a, b | a != b { StrLessTotal(a, b); }
  }

  // Strings with a common prefix are contiguous in the order.
  lemma {:induction false} PrefixSandwich(p: string, a: string, b: string)
    requires p == a || StrLess(p, a)
    requires a == b || StrLess(a, b)
    requires p <= b
    ensures p <= a
  {
    if p != "" {
      if p != a && a != b {
        PrefixSandwich(p[1..], a[1..], b[1..]);
        assert p == [p[0]] + p[1..] && a == [a[0]] + a[1..];
      }
    }
  }

  // A proper prefix sorts first.
  lemma {:induction false} PrefixIsLess(p: string, a: string)
    requires p < a
    ensures StrLess(p, a)
  {
    if p != "" {
      PrefixIsLess(p[1..], a[1..]);
    }
  }
}
