/**
 * lib/array.ts: `elementsEqual`, the comparison the reconciler uses to decide
 * whether a webhook's event list already matches the configured one.
 */
module Arrays {

  /** The elements of `s` as a set: JavaScript's `new Set(s)`. */
  function Elements<T(==)>(s: seq<T>): set<T>
  {
    set x | x in s
  }

  /**
   * `elementsEqual(a, b)`: the sets built from `a` and `b` have the same size,
   * and every element of `a` is in the set built from `b`.
   */
  function ElementsEqual<T(==)>(a: seq<T>, b: seq<T>): bool
  {
    var bs := Elements(b);
    |Elements(a)| == |bs| && forall i :: 0 <= i < |a| ==> a[i] in bs
  }

  /** A subset with as many elements as its superset is the superset. */
  lemma SubsetOfSameSize<T>(x: set<T>, y: set<T>)
    requires x <= y && |x| == |y|
    ensures x == y
  {
    var rest := y - x;
    assert y == x + rest;
    assert x * rest == {};
    assert |rest| == 0;
  }

  /**
   * `elementsEqual` is exactly set equality, although it only checks the
   * inclusion of `a` in `b`: the size check supplies the other direction.
   * In particular, sets of different sizes are never equal.
   */
  lemma ElementsEqualIsSetEquality<T>(a: seq<T>, b: seq<T>)
    ensures ElementsEqual(a, b) <==> Elements(a) == Elements(b)
    ensures |Elements(a)| != |Elements(b)| ==> !ElementsEqual(a, b)
  {
    if ElementsEqual(a, b) {
      assert Elements(a) <= Elements(b) by {
        forall x | x in Elements(a) ensures x in Elements(b) {
          var i :| 0 <= i < |a| && a[i] == x;
        }
      }
      SubsetOfSameSize(Elements(a), Elements(b));
    }
  }

  /** `elementsEqual` is an equivalence: reflexive, symmetric and transitive. */
  lemma ElementsEqualIsEquivalence<T>(a: seq<T>, b: seq<T>, c: seq<T>)
    ensures ElementsEqual(a, a)
    ensures ElementsEqual(a, b) == ElementsEqual(b, a)
    ensures ElementsEqual(a, b) && ElementsEqual(b, c) ==> ElementsEqual(a, c)
  {
    ElementsEqualIsSetEquality(a, a);
    ElementsEqualIsSetEquality(a, b);
    ElementsEqualIsSetEquality(b, a);
    ElementsEqualIsSetEquality(b, c);
    ElementsEqualIsSetEquality(a, c);
  }

  /**
   * Only the set of elements matters: replacing either argument by a sequence
   * with the same elements, in any order and with any repetitions, does not
   * change the result.
   */
  lemma ElementsEqualIgnoresOrderAndDuplicates<T>(a: seq<T>, a': seq<T>, b: seq<T>)
    requires Elements(a) == Elements(a')
    ensures ElementsEqual(a, b) == ElementsEqual(a', b)
    ensures ElementsEqual(b, a) == ElementsEqual(b, a')
  {
    ElementsEqualIsSetEquality(a, b);
    ElementsEqualIsSetEquality(a', b);
    ElementsEqualIsSetEquality(b, a);
    ElementsEqualIsSetEquality(b, a');
  }

  /** A permutation of a sequence is `elementsEqual` to it. */
  lemma PermutationIsElementsEqual<T>(a: seq<T>, a': seq<T>)
    requires multiset(a) == multiset(a')
    ensures ElementsEqual(a, a')
  {
    forall x ensures x in Elements(a) <==> x in Elements(a') {
      assert x in a <==> x in multiset(a);
      assert x in a' <==> x in multiset(a');
    }
    ElementsEqualIsSetEquality(a, a');
  }

  /** Repeating an element anywhere in a sequence keeps it `elementsEqual` to the original. */
  lemma DuplicateIsElementsEqual<T>(a: seq<T>, i: nat, k: nat)
    requires i < |a| && k <= |a|
    ensures ElementsEqual(a, a[..k] + [a[i]] + a[k..])
  {
    var a' := a[..k] + [a[i]] + a[k..];
    assert a == a[..k] + a[k..];
    forall x ensures x in Elements(a) <==> x in Elements(a') {
      assert x in a <==> x in a[..k] || x in a[k..];
    }
    ElementsEqualIsSetEquality(a, a');
  }

  /** The event lists `[x, y]` and `[y, x, x]` compare equal. */
  lemma ElementsEqualExample<T>(x: T, y: T)
    ensures ElementsEqual([x, y], [y, x, x])
  {
    assert Elements([x, y]) == Elements([y, x, x]) by {
      assert Elements([x, y]) == {x, y};
      assert Elements([y, x, x]) == {x, y};
    }
    ElementsEqualIsSetEquality([x, y], [y, x, x]);
  }
}
