/**
 * Display orderings. A `Meta.ordering` declaration makes the database return
 * rows sorted by a list of fields; here each declaration becomes a comparator
 * `before(a, b)` ("a may be listed before b") and a listing is in that order
 * when every neighbouring pair is.
 */
module Ordering {

  /** Every neighbouring pair of `xs` is in order. */
  predicate Sorted<K>(xs: seq<K>, before: (K, K) -> bool) {
    forall i :: 0 < i < |xs| ==> before(xs[i - 1], xs[i])
  }

  ghost predicate Transitive<K(!new)>(before: (K, K) -> bool) {
    forall a, b, c :: before(a, b) && before(b, c) ==> before(a, c)
  }

  ghost predicate Total<K(!new)>(before: (K, K) -> bool) {
    forall a, b :: before(a, b) || before(b, a)
  }

  /** Any finite collection can be listed in this order, and the order is consistent. */
  ghost predicate TotalPreorder<K(!new)>(before: (K, K) -> bool) {
    Total(before) && Transitive(before)
  }

  /** Under a transitive comparator, a sorted listing has every pair in order, not only neighbours. */
  lemma {:induction false} SortedPairwise<K(!new)>(xs: seq<K>, before: (K, K) -> bool)
    requires Transitive(before)
    requires Sorted(xs, before)
    ensures forall i, j :: 0 <= i < j < |xs| ==> before(xs[i], xs[j])
  {
    if |xs| > 1 {
      var n := |xs| - 1;
      var init := xs[..n];
      assert Sorted(init, before) by {
        forall i | 0 < i < |init| ensures before(init[i - 1], init[i]) {
          assert init[i - 1] == xs[i - 1] && init[i] == xs[i];
        }
      }
      SortedPairwise(init, before);
      forall i, j | 0 <= i < j < |xs| ensures before(xs[i], xs[j]) {
        if j < n {
          assert init[i] == xs[i] && init[j] == xs[j];
        } else if i < n - 1 {
          assert init[i] == xs[i] && init[n - 1] == xs[n - 1];
          assert before(xs[i], xs[n - 1]) && before(xs[n - 1], xs[n]);
        }
      }
    }
  }

  /**
   * Strings in code-point lexicographic order: a proper prefix first,
   * otherwise decided by the first differing character.
   */
  predicate StringBefore(a: string, b: string) {
    a == [] || (b != [] && (a[0] < b[0] || (a[0] == b[0] && StringBefore(a[1..], b[1..]))))
  }

  lemma {:induction false} StringBeforeTotal(a: string, b: string)
    ensures StringBefore(a, b) || StringBefore(b, a)
  {
    if a != [] && b != [] && a[0] == b[0] {
      StringBeforeTotal(a[1..], b[1..]);
    }
  }

  lemma {:induction false} StringBeforeTransitive(a: string, b: string, c: string)
    requires StringBefore(a, b) && StringBefore(b, c)
    ensures StringBefore(a, c)
  {
    if a != [] && a[0] == b[0] && b[0] == c[0] {
      StringBeforeTransitive(a[1..], b[1..], c[1..]);
    }
  }

  lemma {:induction false} StringBeforeAntisymmetric(a: string, b: string)
    requires StringBefore(a, b) && StringBefore(b, a)
    ensures a == b
  {
    if a != [] {
      StringBeforeAntisymmetric(a[1..], b[1..]);
      assert a == [a[0]] + a[1..] && b == [b[0]] + b[1..];
    }
  }

  /** The string order is a total order: total, transitive and antisymmetric. */
  lemma StringOrderIsTotal()
    ensures TotalPreorder(StringBefore)
    ensures forall a, b :: StringBefore(a, b) && StringBefore(b, a) ==> a == b
  {
    forall a, b ensures StringBefore(a, b) || StringBefore(b, a) {
      StringBeforeTotal(a, b);
    }
    forall a, b, c | StringBefore(a, b) && StringBefore(b, c) ensures StringBefore(a, c) {
      StringBeforeTransitive(a, b, c);
    }
    forall a, b | StringBefore(a, b) && StringBefore(b, a) ensures a == b {
      StringBeforeAntisymmetric(a, b);
    }
  }
}
