/**
 * The `dumpapptitle.txt` cache as both programs load it: lines are turned into `(id, title)`
 * pairs and stored one after another, so a later line for the same id replaces an earlier one.
 */
module Cache {
  /** `mapping[appId] = appTitle` for every pair, in order, starting from `m`. */
  function Assign<K, V>(pairs: seq<(K, V)>, m: map<K, V>): map<K, V>
  {
    if pairs == [] then m
    else
      var last := pairs[|pairs| - 1];
      Assign(pairs[..|pairs| - 1], m)[last.0 := last.1]
  }

  /** A key no pair names keeps whatever `m` held for it. */
  lemma {:induction false} AssignUntouched<K, V>(pairs: seq<(K, V)>, m: map<K, V>, k: K)
    requires forall i | 0 <= i < |pairs| :: pairs[i].0 != k
    ensures k in Assign(pairs, m) <==> k in m
    ensures k in m ==> Assign(pairs, m)[k] == m[k]
  {
    if pairs != [] {
      AssignUntouched(pairs[..|pairs| - 1], m, k);
    }
  }

  /** The last pair naming a key decides its value. */
  lemma {:induction false} AssignLastWins<K, V>(pairs: seq<(K, V)>, m: map<K, V>, i: nat)
    requires i < |pairs|
    requires forall j | i < j < |pairs| :: pairs[j].0 != pairs[i].0
    ensures pairs[i].0 in Assign(pairs, m) && Assign(pairs, m)[pairs[i].0] == pairs[i].1
  {
    if i < |pairs| - 1 {
      AssignLastWins(pairs[..|pairs| - 1], m, i);
    }
  }

  /** The pairs a writer produces when it lists the keys `order` of `m`. */
  function Listing<K, V>(order: seq<K>, m: map<K, V>): (r: seq<(K, V)>)
    requires forall k | k in order :: k in m
    ensures |r| == |order|
    ensures forall i | 0 <= i < |order| :: r[i] == (order[i], m[order[i]])
  {
    seq(|order|, i requires 0 <= i < |order| => (order[i], m[order[i]]))
  }

  /** Loading a listing into an empty map gives back `m` restricted to the listed keys. */
  lemma {:induction false} AssignListing<K, V>(order: seq<K>, m: map<K, V>)
    requires forall k | k in order :: k in m
    ensures Assign(Listing(order, m), map[]) == map k | k in m && k in order :: m[k]
  {
    if order != [] {
      var n := |order| - 1;
      var prev := order[..n];
      assert Listing(order, m)[..n] == Listing(prev, m);
      AssignListing(prev, m);
      var last := order[n];
      assert forall k :: k in order <==> k in prev || k == last by {
        assert order == prev + [last];
      }
    }
  }

  /** A listing of exactly the keys of `m`, loaded into an empty map, is `m` itself. */
  lemma ListingRoundTrip<K, V>(order: seq<K>, m: map<K, V>)
    requires forall k | k in order :: k in m
    requires forall k | k in m :: k in order
    ensures Assign(Listing(order, m), map[]) == m
  {
    AssignListing(order, m);
  }
}
