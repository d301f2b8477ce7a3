/**
 * Go visits the keys of a map in an unspecified order. An iteration over a
 * map is modelled by the sequence of keys it visited: an enumeration of the
 * key set. Results that concatenate per-key lists are described over such an
 * enumeration, and the multiset of their elements is shown not to depend on it.
 */
module Enumeration {

  /** No key is visited twice. */
  ghost predicate Distinct<K>(ks: seq<K>) {
    forall i, j :: 0 <= i < j < |ks| ==> ks[i] != ks[j]
  }

  /** `ks` visits every element of `s` exactly once and nothing else. */
  ghost predicate Enumerates<K(!new)>(ks: seq<K>, s: set<K>) {
    Distinct(ks) && forall k :: k in ks <==> k in s
  }

  /**
   * Loop bookkeeping for an iteration over `all`: `done` lists the keys
   * visited so far, once each, and `remaining` holds the ones still to visit.
   */
  ghost predicate Visited<K(!new)>(done: seq<K>, all: set<K>, remaining: set<K>) {
    remaining <= all && Distinct(done) && forall k :: k in done <==> k in all && k !in remaining
  }

  lemma VisitedStep<K(!new)>(done: seq<K>, all: set<K>, remaining: set<K>, k: K)
    requires Visited(done, all, remaining) && k in remaining
    ensures Visited(done + [k], all, remaining - {k})
  {
    var done' := done + [k];
    forall i, j | 0 <= i < j < |done'| ensures done'[i] != done'[j] {
      if j == |done| {
        assert done'[i] == done[i];
      } else {
        assert done'[i] == done[i] && done'[j] == done[j];
      }
    }
  }

  lemma VisitedAll<K(!new)>(done: seq<K>, all: set<K>)
    requires Visited(done, all, {})
    ensures Enumerates(done, all)
  {
  }

  /** An element held by the lists of two different keys is in the pool at least twice. */
  lemma PoolHoldsBoth<K, T>(m: map<K, seq<T>>, k: K, k': K, x: T)
    requires k in m && k' in m && k != k' && x in m[k] && x in m[k']
    ensures Pool(m)[x] >= 2
  {
    var rest := m - {k};
    PoolRemove(m, k);
    PoolRemove(rest, k');
    assert rest[k'] == m[k'];
    assert multiset(m[k])[x] >= 1 && multiset(rest[k'])[x] >= 1;
  }

  /** A sequence without repetitions has as many distinct elements as positions. */
  lemma {:induction false} DistinctCard<K>(ks: seq<K>)
    requires Distinct(ks)
    ensures |set x | x in ks| == |ks|
    decreases |ks|
  {
    if ks != [] {
      var init := ks[..|ks| - 1];
      var last := ks[|ks| - 1];
      assert Distinct(init) by {
        forall i, j | 0 <= i < j < |init| ensures init[i] != init[j] {
          assert init[i] == ks[i] && init[j] == ks[j];
        }
      }
      DistinctCard(init);
      assert last !in init by {
        forall i | 0 <= i < |init| ensures init[i] != last {
          assert init[i] == ks[i];
        }
      }
      assert ks == init + [last];
      assert (set x | x in ks) == (set x | x in init) + {last};
    }
  }

  /** The only enumeration of a one-element set is that element alone. */
  lemma EnumeratesSingleton<K(!new)>(ks: seq<K>, k: K)
    requires Enumerates(ks, {k})
    ensures ks == [k]
  {
    DistinctCard(ks);
    assert (set x | x in ks) == {k};
    assert ks[0] in ks;
  }

  /** The list stored under `k`, or the empty list when `k` is not a key (Go's nil slice). */
  function Entry<K, T>(m: map<K, seq<T>>, k: K): seq<T> {
    if k in m then m[k] else []
  }

  /** The lists of `m` under the keys `ks`, concatenated in the order of `ks`. */
  function ConcatOver<K, T>(m: map<K, seq<T>>, ks: seq<K>): seq<T>
    decreases |ks|
  {
    if ks == [] then [] else ConcatOver(m, ks[..|ks| - 1]) + Entry(m, ks[|ks| - 1])
  }

  /** Every element of every list of `m`, with multiplicity. */
  ghost function Pool<K, T>(m: map<K, seq<T>>): multiset<T>
    decreases |m|
  {
    if |m| == 0 then multiset{}
    else
      var k :| k in m;
      assert (m - {k}).Keys == m.Keys - {k};
      multiset(m[k]) + Pool(m - {k})
  }

  lemma ConcatOverSingle<K, T>(m: map<K, seq<T>>, k: K)
    ensures ConcatOver(m, [k]) == Entry(m, k)
  {
    assert [k][..0] == [];
  }

  lemma ConcatOverAppend<K, T>(m: map<K, seq<T>>, ks: seq<K>, k: K)
    ensures ConcatOver(m, ks + [k]) == ConcatOver(m, ks) + Entry(m, k)
  {
    assert (ks + [k])[..|ks|] == ks;
  }

  /** Removing a key the enumeration never visits changes nothing. */
  lemma {:induction false} ConcatOverWithout<K, T>(m: map<K, seq<T>>, ks: seq<K>, k: K)
    requires k !in ks
    ensures ConcatOver(m - {k}, ks) == ConcatOver(m, ks)
    decreases |ks|
  {
    if ks != [] {
      ConcatOverWithout(m, ks[..|ks| - 1], k);
    }
  }

  lemma RemoveKey<K, V>(m: map<K, V>, k: K)
    requires k in m
    ensures (m - {k}).Keys == m.Keys - {k} && |m - {k}| == |m| - 1
  {
    assert (m - {k}).Keys == m.Keys - {k};
  }

  /** Removing two keys does not depend on the order of removal. */
  lemma RemoveBoth<K, T>(m: map<K, T>, j: K, k: K)
    ensures m - {j} - {k} == m - {k} - {j}
  {
    assert (m - {j} - {k}).Keys == (m - {k} - {j}).Keys;
  }

  /** The pool can be taken apart at any key. */
  lemma {:induction false} PoolRemove<K, T>(m: map<K, seq<T>>, k: K)
    requires k in m
    ensures Pool(m) == multiset(m[k]) + Pool(m - {k})
    decreases |m|
  {
    var j :| j in m && Pool(m) == multiset(m[j]) + Pool(m - {j});
    if j != k {
      var mj, mk := m - {j}, m - {k};
      RemoveKey(m, j);
      RemoveKey(m, k);
      assert k in mj && mj[k] == m[k];
      assert j in mk && mk[j] == m[j];
      PoolRemove(mj, k);
      PoolRemove(mk, j);
      RemoveBoth(m, j, k);
    }
  }

  /** An enumeration without its last key enumerates the set without that key, which it does not repeat. */
  lemma EnumeratesInit<K(!new)>(ks: seq<K>, s: set<K>)
    requires Enumerates(ks, s) && ks != []
    ensures ks[|ks| - 1] !in ks[..|ks| - 1]
    ensures Enumerates(ks[..|ks| - 1], s - {ks[|ks| - 1]})
  {
    var last, init := ks[|ks| - 1], ks[..|ks| - 1];
    assert last !in init by {
      forall i | 0 <= i < |init| ensures init[i] != last {
        assert init[i] == ks[i];
      }
    }
    assert Distinct(init) by {
      forall i, j | 0 <= i < j < |init| ensures init[i] != init[j] {
        assert init[i] == ks[i] && init[j] == ks[j];
      }
    }
    forall k ensures k in init <==> k in s - {last} {
      if k in ks && k != last {
        var i :| 0 <= i < |ks| && ks[i] == k;
        assert i < |ks| - 1 && init[i] == k;
      }
    }
  }

  /** Whatever the order of the visit, the concatenation holds exactly the pool. */
  lemma {:induction false} ConcatOverIsPool<K(!new), T>(m: map<K, seq<T>>, ks: seq<K>)
    requires Enumerates(ks, m.Keys)
    ensures multiset(ConcatOver(m, ks)) == Pool(m)
    decreases |ks|
  {
    if ks == [] {
      assert m.Keys == {};
      assert |m| == 0;
    } else {
      var last := ks[|ks| - 1];
      var init := ks[..|ks| - 1];
      var rest := m - {last};
      EnumeratesInit(ks, m.Keys);
      assert rest.Keys == m.Keys - {last};
      ConcatOverWithout(m, init, last);
      ConcatOverIsPool(rest, init);
      PoolRemove(m, last);
    }
  }

  /** An element is in the pool exactly when some list of `m` holds it. */
  lemma {:induction false} PoolMembers<K, T>(m: map<K, seq<T>>, x: T)
    ensures x in Pool(m) <==> exists k :: k in m && x in m[k]
    decreases |m|
  {
    if |m| != 0 {
      var k :| k in m;
      PoolRemove(m, k);
      assert (m - {k}).Keys == m.Keys - {k};
      PoolMembers(m - {k}, x);
      if x in Pool(m - {k}) {
        var k' :| k' in m - {k} && x in (m - {k})[k'];
        assert k' in m && x in m[k'];
      }
      forall k' | k' in m && x in m[k'] ensures x in Pool(m) {
        if k' != k {
          assert k' in m - {k} && (m - {k})[k'] == m[k'];
        }
      }
    }
  }

  /**
   * The concatenation over any enumeration of the keys holds an element exactly
   * when some list of `m` does, and is as long as all lists together.
   */
  lemma ConcatOverMembers<K(!new), T>(m: map<K, seq<T>>, ks: seq<K>, x: T)
    requires Enumerates(ks, m.Keys)
    ensures x in ConcatOver(m, ks) <==> exists k :: k in m && x in m[k]
    ensures |ConcatOver(m, ks)| == |Pool(m)|
  {
    ConcatOverIsPool(m, ks);
    PoolMembers(m, x);
    assert x in ConcatOver(m, ks) <==> x in multiset(ConcatOver(m, ks));
  }

  // ---------------------------------------------------------------------------
  // Concatenating the lists the elements of a sequence give
  // ---------------------------------------------------------------------------

  /** The lists `f` gives for the elements of `xs`, concatenated in order. */
  function FlatMap<A, B>(f: A -> seq<B>, xs: seq<A>): seq<B>
    decreases |xs|
  {
    if xs == [] then [] else FlatMap(f, xs[..|xs| - 1]) + f(xs[|xs| - 1])
  }

  lemma FlatMapStep<A, B>(f: A -> seq<B>, xs: seq<A>, i: nat)
    requires i < |xs|
    ensures FlatMap(f, xs[..i + 1]) == FlatMap(f, xs[..i]) + f(xs[i])
  {
    assert xs[..i + 1][..i] == xs[..i];
  }

  lemma {:induction false} FlatMapAppend<A, B>(f: A -> seq<B>, xs: seq<A>, ys: seq<A>)
    ensures FlatMap(f, xs + ys) == FlatMap(f, xs) + FlatMap(f, ys)
    decreases |ys|
  {
    if ys == [] {
      assert xs + ys == xs;
    } else {
      var init := ys[..|ys| - 1];
      assert (xs + ys)[..|xs + ys| - 1] == xs + init;
      assert (xs + ys)[|xs + ys| - 1] == ys[|ys| - 1];
      FlatMapAppend(f, xs, init);
    }
  }

  lemma {:induction false} FlatMapMembers<A, B>(f: A -> seq<B>, xs: seq<A>, y: B)
    ensures y in FlatMap(f, xs) <==> exists i :: 0 <= i < |xs| && y in f(xs[i])
    decreases |xs|
  {
    if xs != [] {
      var init := xs[..|xs| - 1];
      FlatMapMembers(f, init, y);
      if y in FlatMap(f, init) {
        var i :| 0 <= i < |init| && y in f(init[i]);
        assert xs[i] == init[i];
      }
      forall i | 0 <= i < |xs| && y in f(xs[i]) ensures y in FlatMap(f, xs) {
        if i < |init| {
          assert init[i] == xs[i];
        }
      }
    }
  }

  /** When every element gives one value, the result is those values in order. */
  lemma {:induction false} FlatMapOfSingles<A, B>(f: A -> seq<B>, xs: seq<A>, ys: seq<B>)
    requires |xs| == |ys|
    requires forall i :: 0 <= i < |xs| ==> f(xs[i]) == [ys[i]]
    ensures FlatMap(f, xs) == ys
    decreases |xs|
  {
    if xs != [] {
      var n := |xs| - 1;
      FlatMapOfSingles(f, xs[..n], ys[..n]);
      assert ys == ys[..n] + [ys[n]];
    }
  }

  /** When every element gives nothing, the result is empty. */
  lemma {:induction false} FlatMapOfEmpties<A, B>(f: A -> seq<B>, xs: seq<A>)
    requires forall i :: 0 <= i < |xs| ==> f(xs[i]) == []
    ensures FlatMap(f, xs) == []
    decreases |xs|
  {
    if xs != [] {
      FlatMapOfEmpties(f, xs[..|xs| - 1]);
    }
  }
}
