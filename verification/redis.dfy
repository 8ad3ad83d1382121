/**
 * The fast store as the persistence job sees it: named sorted sets with optional
 * time-to-live, and the four commands the job issues against them.
 */
module Redis {
  import opened SortedSet

  /**
   * Keys of the fast store. The RedisHelper naming functions (getNormalSetName,
   * getUnionSetName, getOffendersMapName, getEmptySetName) are not part of this model; the
   * constructors stand for them, so distinct arguments give distinct keys.
   */
  datatype Key =
    | NormalSet(rule: string, second: int)  // per-second counter bucket of a rule
    | UnionSet(rule: string, time: int)     // union bucket built at a tick for durable persistence
    | OffendersMap(rule: string)            // a rule's offender set, scored by reject time
    | EmptySet                              // the set named by EMPTY_SET, normally absent

  /** The whole fast store: the sorted sets and the time-to-live, in seconds, of some keys. */
  datatype Store = Store(zsets: map<Key, ZSet>, ttl: map<Key, int>)

  /** Redis never keeps an empty sorted set, and only an existing key carries a time-to-live. */
  ghost predicate Valid(s: Store)
  {
    (forall k :: k in s.zsets ==> s.zsets[k] != map[]) && s.ttl.Keys <= s.zsets.Keys
  }

  /** The set at a key; a missing key reads as the empty set. */
  function Get(s: Store, k: Key): ZSet
  {
    if k in s.zsets then s.zsets[k] else map[]
  }

  /** The sets at a list of keys, in order. */
  function GetAll(s: Store, keys: seq<Key>): (zs: seq<ZSet>)
    ensures |zs| == |keys|
    ensures forall i :: 0 <= i < |keys| ==> zs[i] == Get(s, keys[i])
  {
    seq(|keys|, i requires 0 <= i < |keys| => Get(s, keys[i]))
  }

  /** The key and its time-to-live are deleted. */
  function Delete(s: Store, k: Key): Store
  {
    Store(s.zsets - {k}, s.ttl - {k})
  }

  /**
   * ZUNIONSTORE dest n keys...: dest is overwritten, losing its time-to-live, with the sum
   * union of the sets at keys; an empty result deletes dest.
   */
  function ZUnionStore(s: Store, dest: Key, keys: seq<Key>): Store
  {
    var u := Union(GetAll(s, keys));
    if u == map[] then Delete(s, dest) else Store(s.zsets[dest := u], s.ttl - {dest})
  }

  /** EXPIRE key seconds: sets the time-to-live of an existing key; a non-positive one deletes it. */
  function KeyExpire(s: Store, k: Key, seconds: int): Store
  {
    if k !in s.zsets then s
    else if seconds <= 0 then Delete(s, k)
    else Store(s.zsets, s.ttl[k := seconds])
  }

  /** ZREMRANGEBYSCORE key lo hi; a set left empty is deleted, otherwise its time-to-live stays. */
  function ZRemRangeByScore(s: Store, k: Key, lo: int, hi: int): Store
  {
    var z := RemoveRangeByScore(Get(s, k), lo, hi);
    if z == map[] then Delete(s, k) else Store(s.zsets[k := z], s.ttl)
  }

  /** Two stores agree on a key: same set, same time-to-live. */
  ghost predicate SameAt(s: Store, t: Store, k: Key)
  {
    Get(s, k) == Get(t, k) && (k in s.ttl <==> k in t.ttl) && (k in s.ttl ==> s.ttl[k] == t.ttl[k])
  }

  lemma SameAtTransitive(s: Store, t: Store, u: Store, k: Key)
    requires SameAt(s, t, k) && SameAt(t, u, k)
    ensures SameAt(s, u, k)
  {
  }

  /**
   * ZUNIONSTORE leaves at dest the sum union of the listed sets, with no time-to-live (dest is
   * absent when the union is empty), keeps the store valid and touches no other key.
   */
  lemma ZUnionStoreEffect(s: Store, dest: Key, keys: seq<Key>)
    requires Valid(s)
    ensures var r := ZUnionStore(s, dest, keys);
      Valid(r) && Get(r, dest) == Union(GetAll(s, keys)) && dest !in r.ttl &&
      (dest in r.zsets <==> Union(GetAll(s, keys)) != map[]) &&
      forall k :: k != dest ==> SameAt(r, s, k)
  {
    var u := Union(GetAll(s, keys));
    var r := ZUnionStore(s, dest, keys);
    if u == map[] {
      assert r == Delete(s, dest);
      forall k | k != dest ensures SameAt(r, s, k) {
        assert Get(r, k) == Get(s, k);
      }
    } else {
      assert r == Store(s.zsets[dest := u], s.ttl - {dest});
      forall k | k != dest ensures SameAt(r, s, k) {
        assert Get(r, k) == Get(s, k);
      }
    }
  }

  /**
   * EXPIRE keeps the store valid and touches no other key; with a positive time it sets that
   * time on an existing key and leaves the sets as they were.
   */
  lemma KeyExpireEffect(s: Store, k: Key, seconds: int)
    requires Valid(s)
    ensures var r := KeyExpire(s, k, seconds);
      Valid(r) && (forall k' :: k' != k ==> SameAt(r, s, k')) &&
      (seconds > 0 ==> r.zsets == s.zsets && (k in s.zsets ==> k in r.ttl && r.ttl[k] == seconds))
  {
  }

  /**
   * ZREMRANGEBYSCORE keeps exactly the members scored outside [lo, hi], keeps the store valid
   * and touches no other key.
   */
  lemma ZRemRangeByScoreEffect(s: Store, k: Key, lo: int, hi: int)
    requires Valid(s)
    ensures var r := ZRemRangeByScore(s, k, lo, hi);
      Valid(r) &&
      (forall m :: m in Get(r, k) <==> m in Get(s, k) && (Get(s, k)[m] < lo || hi < Get(s, k)[m])) &&
      (forall m :: m in Get(r, k) ==> Get(r, k)[m] == Get(s, k)[m]) &&
      forall k' :: k' != k ==> SameAt(r, s, k')
  {
    RemoveRangeByScoreKeeps(Get(s, k), lo, hi);
  }

  /** The client the job talks to; its methods are the commands, applied to the store in place. */
  class RedisStore {
    var zsets: map<Key, ZSet>
    var ttl: map<Key, int>

    function State(): Store
      reads this
    {
      Store(zsets, ttl)
    }

    constructor ()
      ensures State() == Store(map[], map[])
    {
      zsets, ttl := map[], map[];
    }

    /** unionAndStore(key, otherKeys, destKey): returns the number of members stored at destKey. */
    method UnionAndStore(key: Key, otherKeys: seq<Key>, destKey: Key) returns (count: int)
      modifies this
      ensures State() == ZUnionStore(old(State()), destKey, [key] + otherKeys)
      ensures count == |Get(State(), destKey)|
    {
      var u := Union(GetAll(State(), [key] + otherKeys));
      count := |u|;
      if u == map[] {
        zsets, ttl := zsets - {destKey}, ttl - {destKey};
      } else {
        zsets, ttl := zsets[destKey := u], ttl - {destKey};
      }
    }

    method Expire(k: Key, seconds: int)
      modifies this
      ensures State() == KeyExpire(old(State()), k, seconds)
    {
      var s := KeyExpire(State(), k, seconds);
      zsets, ttl := s.zsets, s.ttl;
    }

    /**
     * rangeWithScores(k, start, -1): the tail, from position start, of the set read in
     * ascending score order; the order among equal scores is the store's own.
     */
    method RangeWithScores(k: Key, start: int) returns (r: seq<Entry>, ghost listing: seq<Entry>)
      ensures IsRanking(listing, Get(State(), k))
      ensures r == RangeFrom(listing, start)
    {
      RankingExists(Get(State(), k));
      var all: seq<Entry> :| IsRanking(all, Get(State(), k));
      listing := all;
      r := RangeFrom(all, start);
    }

    method RemoveRangeByScore(k: Key, lo: int, hi: int)
      modifies this
      ensures State() == ZRemRangeByScore(old(State()), k, lo, hi)
    {
      var s := ZRemRangeByScore(State(), k, lo, hi);
      zsets, ttl := s.zsets, s.ttl;
    }
  }
}
