/**
 * The order `std::map<std::string, ...>` keeps its keys in: `std::string::operator<`, which
 * compares character by character and puts a proper prefix first.
 */
module Ordering {
  /** `a < b` for two strings. */
  predicate LexLess(a: string, b: string)
  {
    if a == [] then b != []
    else b != [] && (a[0] < b[0] || (a[0] == b[0] && LexLess(a[1..], b[1..])))
  }

  lemma {:induction false} LexIrreflexive(a: string)
    ensures !LexLess(a, a)
  {
    if a != [] {
      LexIrreflexive(a[1..]);
    }
  }

  lemma {:induction false} LexTransitive(a: string, b: string, c: string)
    requires LexLess(a, b) && LexLess(b, c)
    ensures LexLess(a, c)
  {
    if a != [] && a[0] == b[0] && b[0] == c[0] {
      LexTransitive(a[1..], b[1..], c[1..]);
    }
  }

  /** Any two different strings are ordered one way or the other. */
  lemma {:induction false} LexTotal(a: string, b: string)
    requires a != b
    ensures LexLess(a, b) || LexLess(b, a)
  {
    if a != [] && b != [] && a[0] == b[0] {
      assert a == [a[0]] + a[1..] && b == [b[0]] + b[1..];
      LexTotal(a[1..], b[1..]);
    }
  }

  /** `k` is the smallest key of `keys`. */
  predicate IsLeast(k: string, keys: set<string>)
  {
    k in keys && forall x | x in keys && x != k :: LexLess(k, x)
  }

  /** Every non-empty finite set of keys has a smallest one. */
  lemma {:induction false} LeastExists(keys: set<string>)
    requires keys != {}
    ensures exists k :: IsLeast(k, keys)
    decreases |keys|
  {
    var x :| x in keys;
    var rest := keys - {x};
    if rest == {} {
      assert keys == {x};
      assert IsLeast(x, keys);
    } else {
      LeastExists(rest);
      var y :| IsLeast(y, rest);
      LexTotal(x, y);
      if LexLess(x, y) {
        forall z | z in keys && z != x
          ensures LexLess(x, z)
        {
          if z != y {
            LexTransitive(x, y, z);
          }
        }
        assert IsLeast(x, keys);
      } else {
        assert IsLeast(y, keys);
      }
    }
  }

  /** The smallest key is unique. */
  lemma LeastUnique(keys: set<string>, a: string, b: string)
    requires IsLeast(a, keys) && IsLeast(b, keys)
    ensures a == b
  {
    if a != b {
      LexTransitive(a, b, a);
      LexIrreflexive(a);
    }
  }

  /** The keys of a `std::map<std::string, ...>` in iteration order, smallest first. */
  function SortedKeys(keys: set<string>): (r: seq<string>)
    ensures forall k | k in r :: k in keys
    decreases |keys|
  {
    if keys == {} then []
    else
      LeastExists(keys);
      forall a, b | IsLeast(a, keys) && IsLeast(b, keys)
        ensures a == b
      {
        LeastUnique(keys, a, b);
      }
      var k :| IsLeast(k, keys);
      [k] + SortedKeys(keys - {k})
  }

  /** Iteration visits every key exactly once, in strictly increasing order. */
  lemma {:induction false} SortedKeysSpec(keys: set<string>)
    ensures |SortedKeys(keys)| == |keys|
    ensures forall k :: k in SortedKeys(keys) <==> k in keys
    ensures forall i, j | 0 <= i < j < |SortedKeys(keys)| :: LexLess(SortedKeys(keys)[i], SortedKeys(keys)[j])
    decreases |keys|
  {
    if keys != {} {
      var r := SortedKeys(keys);
      var k := r[0];
      var rest := keys - {k};
      assert IsLeast(k, keys) && r == [k] + SortedKeys(rest);
      SortedKeysSpec(rest);
      forall i, j | 0 <= i < j < |r|
        ensures LexLess(r[i], r[j])
      {
        if i > 0 {
          assert r[i] == SortedKeys(rest)[i - 1] && r[j] == SortedKeys(rest)[j - 1];
        } else {
          assert r[j] in rest;
        }
      }
    }
  }
}
