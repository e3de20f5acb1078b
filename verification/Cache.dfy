/** The search's memory of the (linearized set, state) pairs it has seen: a map from the hash of the
    set to the entries with that hash. What it means is a plain set of pairs. */
module Cache {
  import opened Linearizability
  import Bitset

  /** A hash as a map key. */
  datatype Key = Key(hash: bv64)

  datatype CacheEntry<S> = CacheEntry(linearized: array<bv64>, state: S)

  ghost function PairOf<S>(e: CacheEntry<S>): (set<int>, S)
    reads e.linearized
  {
    (Bitset.Members(e.linearized[..]), e.state)
  }

  /** The buckets with one more entry in the bucket `key`, which may be new. */
  function Appended<K, V>(m: map<K, seq<V>>, key: K, v: V): map<K, seq<V>> {
    m[key := (if key in m then m[key] else []) + [v]]
  }

  /** What was in a bucket stays where it was, and only the new entry is added. */
  lemma AppendedIs<K, V>(m: map<K, seq<V>>, key: K, v: V)
    ensures var t := Appended(m, key, v);
      && (forall h, k :: h in m && 0 <= k < |m[h]| ==> h in t && k < |t[h]| && t[h][k] == m[h][k])
      && key in t && t[key] != [] && t[key][|t[key]| - 1] == v
      && (forall h, k :: h in t && 0 <= k < |t[h]| ==>
           (h == key && t[h][k] == v) || (h in m && k < |m[h]| && t[h][k] == m[h][k]))
  {
  }

  class Buckets<S> {
    var buckets: map<Key, seq<CacheEntry<S>>>
    ghost const words: nat
    ghost var pairs: set<(set<int>, S)>
    ghost var Repr: set<array<bv64>>

    ghost predicate Valid()
      reads this, Repr
    {
      && (forall a :: a in Repr ==> a.Length == words)
      && (forall h, k :: h in buckets && 0 <= k < |buckets[h]| ==> Filed(h, buckets[h][k]))
      && (forall pr :: pr in pairs ==> Found(pr))
    }

    /** The entry is in the bucket of its hash and means one of the pairs. */
    ghost predicate Filed(h: Key, e: CacheEntry<S>)
      reads this, Repr
    {
      && e.linearized in Repr
      && h == Key(Bitset.HashOf(e.linearized[..]))
      && PairOf(e) in pairs
    }

    /** Some entry means the pair. */
    ghost predicate Found(pr: (set<int>, S))
      reads this, Repr
    {
      exists h, k :: h in buckets && 0 <= k < |buckets[h]| && Means(buckets[h][k], pr)
    }

    ghost predicate Means(e: CacheEntry<S>, pr: (set<int>, S))
      reads this, Repr
    {
      e.linearized in Repr && PairOf(e) == pr
    }

    constructor (ghost words: nat)
      ensures Valid() && pairs == {} && Repr == {} && this.words == words
    {
      this.words := words;
      buckets := map[];
      pairs := {};
      Repr := {};
    }

    /** `cacheContains`: whether a pair with the same set and an equal state has been added. */
    method Contains<I, O>(model: Model<S, I, O>, entry: CacheEntry<S>) returns (found: bool)
      requires Valid() && entry.linearized.Length == words
      ensures found <==>
        exists pr :: pr in pairs && pr.0 == Bitset.Members(entry.linearized[..]) && model.equal(entry.state, pr.1)
    {
      hide Bitset.Members, Bitset.HashOf;
      var word := Bitset.Hash(entry.linearized);
      var hash := Key(word);
      if hash in buckets {
        var bucket := buckets[hash];
        for k := 0 to |bucket|
          invariant forall j :: 0 <= j < k ==> !Matches(model, entry, bucket[j])
        {
          var elem := bucket[k];
          assert Filed(hash, elem);
          var same := Bitset.Equals(entry.linearized, elem.linearized);
          if same && model.equal(entry.state, elem.state) {
            assert PairOf(elem) in pairs;
            return true;
          }
        }
      }
      forall pr | pr in pairs && pr.0 == Bitset.Members(entry.linearized[..])
        ensures !model.equal(entry.state, pr.1)
      {
        assert Found(pr);
        var h, k :| h in buckets && 0 <= k < |buckets[h]| && Means(buckets[h][k], pr);
        var elem := buckets[h][k];
        assert Filed(h, elem);
        Bitset.EqualSetsHashEqually(entry.linearized[..], elem.linearized[..]);
        assert h == hash && !Matches(model, entry, elem);
      }
      return false;
    }

    ghost predicate Matches<I, O>(model: Model<S, I, O>, entry: CacheEntry<S>, elem: CacheEntry<S>)
      reads entry.linearized, elem.linearized
    {
      && Bitset.Members(entry.linearized[..]) == Bitset.Members(elem.linearized[..])
      && model.equal(entry.state, elem.state)
    }

    /** Appends an entry to the bucket of its hash. */
    method Add(hash: bv64, entry: CacheEntry<S>)
      requires Valid() && entry.linearized.Length == words && hash == Bitset.HashOf(entry.linearized[..])
      modifies this
      ensures Valid() && Repr == old(Repr) + {entry.linearized}
      ensures pairs == old(pairs) + {PairOf(entry)}
    {
      hide Bitset.Members, Bitset.HashOf, Appended;
      ghost var before := buckets;
      var key := Key(hash);
      AppendedIs(buckets, key, entry);
      buckets := Appended(buckets, key, entry);
      pairs := pairs + {PairOf(entry)};
      Repr := Repr + {entry.linearized};
      forall pr | pr in pairs
        ensures Found(pr)
      {
        if pr == PairOf(entry) {
          assert Means(buckets[key][|buckets[key]| - 1], pr);
        } else {
          assert old(Found(pr));
          var h, k :| h in before && 0 <= k < |before[h]| && old(Means(before[h][k], pr));
          assert Means(buckets[h][k], pr);
        }
      }
      forall h, k | h in buckets && 0 <= k < |buckets[h]|
        ensures Filed(h, buckets[h][k])
      {
        if h in before && k < |before[h]| {
          assert old(Filed(h, before[h][k]));
        }
      }
    }
  }
}
