/**
  The per-key counters both services keep in a `Map<String, AtomicLong>`,
  updated with `computeIfAbsent(key, k -> new AtomicLong(0)).incrementAndGet()`.
 */
module Counters {

  /** The value a snapshot reports for k; an absent key reads as zero. */
  function Get(m: map<string, nat>, k: string): nat {
    if k in m then m[k] else 0
  }

  /** `computeIfAbsent(k, ...).incrementAndGet()`: k is present afterwards, its
      count is one more, every other key is untouched. */
  function Bump(m: map<string, nat>, k: string): (r: map<string, nat>)
    ensures r.Keys == m.Keys + {k}
    ensures Get(r, k) == Get(m, k) + 1
    ensures forall k' :: k' != k ==> Get(r, k') == Get(m, k')
  {
    m[k := Get(m, k) + 1]
  }

  /** The counters after bumping each key of ks in turn, starting from an empty map. */
  function CountsOf(ks: seq<string>): map<string, nat> {
    if ks == [] then map[] else Bump(CountsOf(ks[..|ks| - 1]), ks[|ks| - 1])
  }

  /** The counters hold exactly the multiset of the keys bumped: a key is
      present iff it was bumped, and its count is how often it was. */
  lemma {:induction false} CountsOfIsMultiset(ks: seq<string>)
    ensures forall k :: Get(CountsOf(ks), k) == multiset(ks)[k]
    ensures forall k :: k in CountsOf(ks) <==> k in ks
  {
    if ks != [] {
      var init, last := ks[..|ks| - 1], ks[|ks| - 1];
      CountsOfIsMultiset(init);
      assert ks == init + [last];
      assert multiset(ks) == multiset(init) + multiset{last};
    }
  }

  /** The sum of all counts in a map. */
  ghost function MapSum(m: map<string, nat>): nat
    decreases |m.Keys|
  {
    if m.Keys == {} then 0 else var k := Pick(m); m[k] + MapSum(Without(m, k))
  }

  /** Some key of a non-empty map. */
  ghost function Pick(m: map<string, nat>): (k: string)
    requires m.Keys != {}
    ensures k in m
  {
    var k :| k in m.Keys; k
  }

  /** m with key k taken out. */
  function Without(m: map<string, nat>, k: string): (r: map<string, nat>)
    ensures r.Keys == m.Keys - {k}
    ensures forall k' :: k' in r ==> r[k'] == m[k']
    ensures k in m ==> |r.Keys| == |m.Keys| - 1
  {
    map k' | k' in m.Keys - {k} :: m[k']
  }

  /** The sum does not depend on which key is taken out first. */
  lemma {:induction false} MapSumRemove(m: map<string, nat>, k: string)
    requires k in m
    ensures MapSum(m) == m[k] + MapSum(Without(m, k))
    decreases |m.Keys|
  {
    var j := Pick(m);
    assert MapSum(m) == m[j] + MapSum(Without(m, j));
    if j != k {
      var mj, mk := Without(m, j), Without(m, k);
      MapSumRemove(mj, k);
      MapSumRemove(mk, j);
      assert Without(mj, k) == Without(mk, j);
    }
  }

  /** One increment raises the sum by exactly one. */
  lemma MapSumBump(m: map<string, nat>, k: string)
    ensures MapSum(Bump(m, k)) == MapSum(m) + 1
  {
    var r := Bump(m, k);
    MapSumRemove(r, k);
    if k in m {
      MapSumRemove(m, k);
      assert Without(r, k) == Without(m, k);
    } else {
      assert Without(r, k) == m;
    }
  }

  /** The counts sum to the number of keys bumped. */
  lemma {:induction false} MapSumCountsOf(ks: seq<string>)
    ensures MapSum(CountsOf(ks)) == |ks|
  {
    if ks != [] {
      MapSumCountsOf(ks[..|ks| - 1]);
      MapSumBump(CountsOf(ks[..|ks| - 1]), ks[|ks| - 1]);
    }
  }
}
