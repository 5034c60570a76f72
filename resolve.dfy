/**
 * The app-id resolution loop both programs run between reading and writing the title cache:
 * every app id of the scanned files that the cache does not know is looked up once, and the
 * titles found are added to the cache.
 */
module Resolve {
  /** What one lookup of an app id produced. `Fault` is an exception that ends the program. */
  datatype Reply = Found(title: string) | NotFound | Fault

  /**
   * The app ids the loop looks up, in the order it looks them up: each id of `ids` that is not
   * `known`, at its first occurrence.
   */
  function Pending<K>(ids: seq<K>, known: set<K>): seq<K>
  {
    if ids == [] then []
    else
      var p := Pending(ids[..|ids| - 1], known);
      var k := ids[|ids| - 1];
      if k in known || k in p then p else p + [k]
  }

  /**
   * No app id is looked up twice, none that is already known is looked up, and every unknown
   * id of the scan is looked up.
   */
  lemma {:induction false} PendingSpec<K>(ids: seq<K>, known: set<K>)
    ensures var p := Pending(ids, known);
            && (forall i, j | 0 <= i < j < |p| :: p[i] != p[j])
            && (forall k | k in p :: k in ids && k !in known)
            && (forall k | k in ids && k !in known :: k in p)
  {
    if ids != [] {
      var prev := ids[..|ids| - 1];
      PendingSpec(prev, known);
      assert forall x | x in ids :: x in prev || x == ids[|ids| - 1];
    }
  }

  lemma {:induction false} PendingPrefix<K>(ids: seq<K>, known: set<K>, i: nat)
    requires i <= |ids|
    ensures Pending(ids[..i], known) <= Pending(ids, known)
    decreases |ids| - i
  {
    if i < |ids| {
      PendingPrefix(ids, known, i + 1);
      assert ids[..i + 1][..i] == ids[..i];
    } else {
      assert ids[..i] == ids;
    }
  }

  lemma PendingStep<K>(ids: seq<K>, known: set<K>, i: nat)
    requires i < |ids|
    ensures var p := Pending(ids[..i], known);
            Pending(ids[..i + 1], known) == if ids[i] in known || ids[i] in p then p else p + [ids[i]]
  {
    assert ids[..i + 1][..i] == ids[..i];
  }

  /** The titles the lookups of `queried` found. */
  function Learned<K>(queried: seq<K>, lookup: K -> Reply): map<K, string>
  {
    map k | k in queried && lookup(k).Found? :: lookup(k).title
  }

  lemma LearnedStep<K>(queried: seq<K>, k: K, lookup: K -> Reply)
    ensures Learned(queried + [k], lookup) ==
            if lookup(k).Found? then Learned(queried, lookup)[k := lookup(k).title]
            else Learned(queried, lookup)
  {
  }

  lemma UnionUpdate<K, V>(a: map<K, V>, b: map<K, V>, k: K, v: V)
    ensures a + b[k := v] == (a + b)[k := v]
  {
  }

  /** The state of the resolution loop after it has handled `ids[..i]`. */
  ghost predicate Resolving<K>(ids: seq<K>, m0: map<K, string>, lookup: K -> Reply, i: nat,
                                m: map<K, string>, queried: seq<K>, searched: set<K>)
  {
    && i <= |ids|
    && queried == Pending(ids[..i], m0.Keys)
    && (forall k | k in searched :: k in queried)
    && (forall j | 0 <= j < |queried| :: queried[j] in searched)
    && (forall j | 0 <= j < |queried| :: !lookup(queried[j]).Fault?)
    && m == m0 + Learned(queried, lookup)
  }

  /** An id that is cached or was already searched is passed over. */
  lemma SkipStep<K>(ids: seq<K>, m0: map<K, string>, lookup: K -> Reply, i: nat,
                    m: map<K, string>, queried: seq<K>, searched: set<K>)
    requires Resolving(ids, m0, lookup, i, m, queried, searched) && i < |ids|
    requires ids[i] in m || ids[i] in searched
    ensures Resolving(ids, m0, lookup, i + 1, m, queried, searched)
  {
    PendingStep(ids, m0.Keys, i);
  }

  /** An id that is neither cached nor searched is looked up once and recorded. */
  lemma LookupStep<K>(ids: seq<K>, m0: map<K, string>, lookup: K -> Reply, i: nat,
                      m: map<K, string>, queried: seq<K>, searched: set<K>)
    requires Resolving(ids, m0, lookup, i, m, queried, searched) && i < |ids|
    requires ids[i] !in m && ids[i] !in searched
    ensures Pending(ids[..i + 1], m0.Keys) == queried + [ids[i]]
    ensures !lookup(ids[i]).Fault? ==>
      Resolving(ids, m0, lookup, i + 1,
                if lookup(ids[i]).Found? then m[ids[i] := lookup(ids[i]).title] else m,
                queried + [ids[i]], searched + {ids[i]})
  {
    var id := ids[i];
    PendingStep(ids, m0.Keys, i);
    LearnedStep(queried, id, lookup);
    if lookup(id).Found? {
      UnionUpdate(m0, Learned(queried, lookup), id, lookup(id).title);
    }
  }

  /**
   * The loop over the scanned app ids, keeping the cache `m` and the set of ids already searched.
   * `queried` lists the lookups in the order they were made; `faulted` is set when a lookup threw.
   */
  method ResolveTitles<K>(ids: seq<K>, m0: map<K, string>, lookup: K -> Reply)
    returns (m: map<K, string>, queried: seq<K>, faulted: bool)
    ensures !faulted ==> queried == Pending(ids, m0.Keys)
    ensures faulted ==> queried <= Pending(ids, m0.Keys) && |queried| > 0
                        && lookup(queried[|queried| - 1]).Fault?
    ensures forall i | 0 <= i < |queried| - 1 :: !lookup(queried[i]).Fault?
    ensures faulted <==> exists k | k in Pending(ids, m0.Keys) :: lookup(k).Fault?
    ensures m == m0 + Learned(queried, lookup)
  {
    m, queried, faulted := m0, [], false;
    var searched: set<K> := {};
    var i := 0;
    while i < |ids|
      invariant Resolving(ids, m0, lookup, i, m, queried, searched)
    {
      var id := ids[i];
      if id in m || id in searched {
        assert Resolving(ids, m0, lookup, i + 1, m, queried, searched) by {
          SkipStep(ids, m0, lookup, i, m, queried, searched);
        }
      } else {
        var reply := lookup(id);
        if reply.Fault? {
          assert queried + [id] <= Pending(ids, m0.Keys)
                 && m == m0 + Learned(queried + [id], lookup) by {
            LookupStep(ids, m0, lookup, i, m, queried, searched);
            PendingPrefix(ids, m0.Keys, i + 1);
            LearnedStep(queried, id, lookup);
          }
          assert id in Pending(ids, m0.Keys) by {
            assert (queried + [id])[|queried|] == id;
          }
          queried := queried + [id];
          faulted := true;
          return;
        }
        var m' := if reply.Found? then m[id := reply.title] else m;
        assert Resolving(ids, m0, lookup, i + 1, m', queried + [id], searched + {id}) by {
          LookupStep(ids, m0, lookup, i, m, queried, searched);
        }
        m, queried, searched := m', queried + [id], searched + {id};
      }
      i := i + 1;
    }
    assert ids[..i] == ids;
  }

  /**
   * What the loop guarantees about the cache: an id already cached is never looked up and keeps
   * its title, each other id is looked up at most once, and the cache gains an entry only for a
   * lookup that found a title.
   */
  lemma ResolvedCache<K>(ids: seq<K>, m0: map<K, string>, lookup: K -> Reply, queried: seq<K>)
    requires queried <= Pending(ids, m0.Keys)
    ensures forall k | k in queried :: k !in m0 && k in ids
    ensures forall i, j | 0 <= i < j < |queried| :: queried[i] != queried[j]
    ensures var m := m0 + Learned(queried, lookup);
            && (forall k | k in m0 :: k in m && m[k] == m0[k])
            && (forall k | k in m && k !in m0 :: k in queried && lookup(k) == Found(m[k]))
  {
    var p := Pending(ids, m0.Keys);
    PendingSpec(ids, m0.Keys);
    assert forall k | k in queried :: k in p by {
      forall k | k in queried ensures k in p {
        var j :| 0 <= j < |queried| && queried[j] == k;
        assert p[j] == k;
      }
    }
    forall i, j | 0 <= i < j < |queried| ensures queried[i] != queried[j] {
      assert queried[i] == p[i] && queried[j] == p[j];
    }
  }
}
