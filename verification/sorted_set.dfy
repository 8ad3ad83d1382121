/**
 * The sorted-set commands the persistence job issues, with the semantics Redis gives them:
 * ZUNIONSTORE with the default SUM aggregation, ZRANGE ... WITHSCORES over ascending score
 * order, and ZREMRANGEBYSCORE with both bounds inclusive. Scores are integers.
 */
module SortedSet {

  /** A sorted set: each member mapped to its score. */
  type ZSet = map<string, int>

  /** One (member, score) tuple of a ranged read. */
  datatype Entry = Entry(member: string, score: int)

  function Max(a: int, b: int): int { if a >= b then a else b }

  function Min(a: int, b: int): int { if a <= b then a else b }

  /** The score of a member, an absent member counting as 0 (that is what SUM adds for it). */
  function Score(z: ZSet, m: string): int { if m in z then z[m] else 0 }

  /** Pointwise sum of two sets over the union of their members. */
  function AddScores(a: ZSet, b: ZSet): (r: ZSet)
    ensures r.Keys == a.Keys + b.Keys
    ensures forall m :: Score(r, m) == Score(a, m) + Score(b, m)
  {
    map m | m in a.Keys + b.Keys :: Score(a, m) + Score(b, m)
  }

  /** ZUNIONSTORE ... AGGREGATE SUM of the given sets. */
  function Union(zs: seq<ZSet>): ZSet
  {
    if zs == [] then map[] else AddScores(zs[0], Union(zs[1..]))
  }

  /** Reference definition: the sum of one member's scores over a list of sets. */
  function SumScores(zs: seq<ZSet>, m: string): int
  {
    if zs == [] then 0 else Score(zs[0], m) + SumScores(zs[1..], m)
  }

  /** The member occurs in at least one of the sets. */
  ghost predicate InSome(zs: seq<ZSet>, m: string)
  {
    exists j :: 0 <= j < |zs| && m in zs[j]
  }

  /** The union holds exactly the members of the inputs, each scored with the sum of its scores. */
  lemma {:induction false} UnionScores(zs: seq<ZSet>, m: string)
    ensures m in Union(zs) <==> InSome(zs, m)
    ensures Score(Union(zs), m) == SumScores(zs, m)
  {
    if zs != [] {
      UnionScores(zs[1..], m);
      if InSome(zs[1..], m) {
        var j :| 0 <= j < |zs[1..]| && m in zs[1..][j];
        assert m in zs[j + 1];
      }
      if InSome(zs, m) && m !in zs[0] {
        var j :| 0 <= j < |zs| && m in zs[j];
        assert m in zs[1..][j - 1];
      }
    }
  }

  /** Every member of any of the sets. */
  function AllMembers(zs: seq<ZSet>): set<string>
  {
    set j, m | 0 <= j < |zs| && m in zs[j] :: m
  }

  /** The union's cardinality, which ZUNIONSTORE returns, is the number of distinct members. */
  lemma UnionCardinality(zs: seq<ZSet>)
    ensures Union(zs).Keys == AllMembers(zs)
    ensures |Union(zs)| == |AllMembers(zs)|
  {
    forall m ensures m in Union(zs) <==> m in AllMembers(zs) {
      UnionScores(zs, m);
    }
  }

  /** A set that is empty adds nothing to a union, wherever it stands first. */
  lemma EmptySetAddsNothing(zs: seq<ZSet>)
    ensures Union([map[]] + zs) == Union(zs)
  {
    assert ([map[]] + zs)[1..] == zs;
    var u := Union(zs);
    assert AddScores(map[], u) == u by {
      forall m | m in u ensures Score(u, m) == u[m] { }
    }
  }

  /**
   * A ranked read of a whole set: every member exactly once, with its score, in ascending
   * score order. The order among equal scores is the store's and is left open.
   */
  predicate IsRanking(r: seq<Entry>, z: ZSet)
  {
    (forall i :: 0 <= i < |r| ==> r[i].member in z && r[i].score == z[r[i].member]) &&
    (forall i, j :: 0 <= i < j < |r| ==> r[i].member != r[j].member) &&
    (forall m :: m in z ==> exists i :: 0 <= i < |r| && r[i].member == m) &&
    (forall i, j :: 0 <= i < j < |r| ==> r[i].score <= r[j].score)
  }

  /** A non-empty set has a member of least score. */
  lemma {:induction false} LeastMemberExists(z: ZSet)
    requires z != map[]
    ensures exists m :: m in z && forall m' :: m' in z ==> z[m] <= z[m']
    decreases |z|
  {
    var k :| k in z;
    var rest := z - {k};
    if rest == map[] {
      forall m' | m' in z ensures z[k] <= z[m'] {
        assert m' == k || m' in rest;
      }
    } else {
      assert |rest| == |z| - 1;
      LeastMemberExists(rest);
      var m :| m in rest && forall m' :: m' in rest ==> rest[m] <= rest[m'];
      LeastOfTwo(z, k, m);
    }
  }

  lemma LeastOfTwo(z: ZSet, k: string, m: string)
    requires k in z && m in z - {k}
    requires forall m' :: m' in z - {k} ==> z[m] <= z[m']
    ensures exists l :: l in z && forall m' :: m' in z ==> z[l] <= z[m']
  {
    var least := if z[k] < z[m] then k else m;
    forall m' | m' in z ensures z[least] <= z[m'] {
      if m' != k { assert m' in z - {k}; }
    }
  }

  /** Every set has a ranked read, so the store can always answer ZRANGE. */
  lemma {:induction false} RankingExists(z: ZSet)
    ensures exists r :: IsRanking(r, z)
    decreases |z|
  {
    if z == map[] {
      assert IsRanking([], z);
    } else {
      LeastMemberExists(z);
      var m :| m in z && forall m' :: m' in z ==> z[m] <= z[m'];
      var rest := z - {m};
      assert |rest| < |z|;
      RankingExists(rest);
      var r': seq<Entry> :| IsRanking(r', rest);
      var r := [Entry(m, z[m])] + r';
      RankingCons(m, z, r');
      assert IsRanking(r, z);
    }
  }

  /** A least member followed by a ranked read of the others is a ranked read of the whole. */
  lemma RankingCons(m: string, z: ZSet, r': seq<Entry>)
    requires m in z && forall m' :: m' in z ==> z[m] <= z[m']
    requires IsRanking(r', z - {m})
    ensures IsRanking([Entry(m, z[m])] + r', z)
  {
    ConsEntriesOrdered(m, z, r');
    ConsListsAll(m, z, r');
  }

  lemma ConsEntriesOrdered(m: string, z: ZSet, r': seq<Entry>)
    requires m in z && forall m' :: m' in z ==> z[m] <= z[m']
    requires IsRanking(r', z - {m})
    ensures var r := [Entry(m, z[m])] + r';
      (forall i :: 0 <= i < |r| ==> r[i].member in z && r[i].score == z[r[i].member]) &&
      (forall i, j :: 0 <= i < j < |r| ==> r[i].member != r[j].member && r[i].score <= r[j].score)
  {
    var r := [Entry(m, z[m])] + r';
    forall i | 0 <= i < |r| ensures r[i].member in z && r[i].score == z[r[i].member]
    {
      if i > 0 { assert r[i] == r'[i - 1]; }
    }
    forall i, j | 0 <= i < j < |r| ensures r[i].member != r[j].member && r[i].score <= r[j].score
    {
      assert r[j] == r'[j - 1];
      if i > 0 { assert r[i] == r'[i - 1]; }
    }
  }

  lemma ConsListsAll(m: string, z: ZSet, r': seq<Entry>)
    requires m in z
    requires IsRanking(r', z - {m})
    ensures var r := [Entry(m, z[m])] + r';
      forall m' :: m' in z ==> exists i :: 0 <= i < |r| && r[i].member == m'
  {
    var r := [Entry(m, z[m])] + r';
    forall m' | m' in z ensures exists i :: 0 <= i < |r| && r[i].member == m'
    {
      if m' == m {
        assert r[0].member == m';
      } else {
        assert m' in z - {m};
        var i :| 0 <= i < |r'| && r'[i].member == m';
        assert r[i + 1].member == m';
      }
    }
  }

  /** A ranked read has exactly as many entries as the set has members. */
  lemma {:induction false} RankingLength(r: seq<Entry>, z: ZSet)
    requires IsRanking(r, z)
    ensures |r| == |z|
  {
    if r == [] {
      assert z == map[];
    } else {
      var rest := z - {r[0].member};
      RankingTail(r, z);
      RankingLength(r[1..], rest);
      assert |rest| == |z| - 1;
    }
  }

  /** Dropping the first entry of a ranked read leaves a ranked read of the other members. */
  lemma RankingTail(r: seq<Entry>, z: ZSet)
    requires IsRanking(r, z) && r != []
    ensures IsRanking(r[1..], z - {r[0].member})
  {
    TailEntriesOrdered(r, z);
    TailListsAll(r, z);
  }

  lemma TailEntriesOrdered(r: seq<Entry>, z: ZSet)
    requires IsRanking(r, z) && r != []
    ensures var rest, r' := z - {r[0].member}, r[1..];
      (forall i :: 0 <= i < |r'| ==> r'[i].member in rest && r'[i].score == rest[r'[i].member]) &&
      (forall i, j :: 0 <= i < j < |r'| ==> r'[i].member != r'[j].member && r'[i].score <= r'[j].score)
  {
    var rest := z - {r[0].member};
    var r' := r[1..];
    forall i | 0 <= i < |r'| ensures r'[i].member in rest && r'[i].score == rest[r'[i].member]
    {
      assert r'[i] == r[i + 1];
    }
    forall i, j | 0 <= i < j < |r'| ensures r'[i].member != r'[j].member && r'[i].score <= r'[j].score
    {
      assert r'[i] == r[i + 1] && r'[j] == r[j + 1];
    }
  }

  lemma TailListsAll(r: seq<Entry>, z: ZSet)
    requires IsRanking(r, z) && r != []
    ensures var rest, r' := z - {r[0].member}, r[1..];
      forall m' :: m' in rest ==> exists i :: 0 <= i < |r'| && r'[i].member == m'
  {
    var rest := z - {r[0].member};
    var r' := r[1..];
    forall m' | m' in rest ensures exists i :: 0 <= i < |r'| && r'[i].member == m'
    {
      var i :| 0 <= i < |r| && r[i].member == m';
      assert i != 0;
      assert r'[i - 1].member == m';
    }
  }

  /**
   * ZRANGE key start -1: the entries of a ranked read from position start to the end; a
   * negative start counts from the end. The result is a suffix of the read.
   */
  function RangeFrom(r: seq<Entry>, start: int): (res: seq<Entry>)
    ensures |res| == if start >= 0 then Max(0, |r| - start) else Min(|r|, -start)
    ensures res == r[|r| - |res|..]
  {
    var from := if start < 0 then Max(0, |r| + start) else start;
    if from >= |r| then [] else r[from..]
  }

  /** ZREMRANGEBYSCORE key lo hi: drop the members whose score lies in [lo, hi]. */
  function RemoveRangeByScore(z: ZSet, lo: int, hi: int): ZSet
  {
    map m | m in z && !(lo <= z[m] <= hi) :: z[m]
  }

  /**
   * The length of the longest prefix of a read whose entries all score at most hi; the entry
   * after it, if any, scores above hi.
   */
  function LeadingAtMost(r: seq<Entry>, hi: int): (k: nat)
    ensures k <= |r|
    ensures forall i :: 0 <= i < k ==> r[i].score <= hi
    ensures k < |r| ==> r[k].score > hi
  {
    if r == [] || r[0].score > hi then 0
    else
      var k := LeadingAtMost(r[1..], hi);
      assert forall i :: 1 <= i < k + 1 ==> r[i] == r[1..][i - 1];
      k + 1
  }

  /**
   * When no score lies below lo, ZREMRANGEBYSCORE lo hi drops a prefix of any ranked read:
   * what stays is ranked by the read from position LeadingAtMost(r, hi) on.
   */
  lemma RemoveRangeByScoreDropsPrefix(r: seq<Entry>, z: ZSet, lo: int, hi: int)
    requires IsRanking(r, z)
    requires forall m :: m in z ==> lo <= z[m]
    ensures IsRanking(r[LeadingAtMost(r, hi)..], RemoveRangeByScore(z, lo, hi))
  {
    var k := LeadingAtMost(r, hi);
    SuffixScoresAbove(r, z, hi);
    SuffixIsKept(r, z, lo, hi, k);
    KeptIsInSuffix(r, z, lo, hi, k);
  }

  /** In a ranked read, every entry from LeadingAtMost(r, hi) on scores above hi. */
  lemma SuffixScoresAbove(r: seq<Entry>, z: ZSet, hi: int)
    requires IsRanking(r, z)
    ensures forall i :: LeadingAtMost(r, hi) <= i < |r| ==> r[i].score > hi
  {
    var k := LeadingAtMost(r, hi);
    forall i | k <= i < |r| ensures r[i].score > hi {
      assert r[k].score <= r[i].score;
    }
  }

  /** The entries from position k on, all scored above hi, are kept, ordered and distinct. */
  lemma SuffixIsKept(r: seq<Entry>, z: ZSet, lo: int, hi: int, k: nat)
    requires IsRanking(r, z) && k <= |r|
    requires forall i :: k <= i < |r| ==> r[i].score > hi
    ensures var t, kept := r[k..], RemoveRangeByScore(z, lo, hi);
      (forall i :: 0 <= i < |t| ==> t[i].member in kept && t[i].score == kept[t[i].member]) &&
      (forall i, j :: 0 <= i < j < |t| ==> t[i].member != t[j].member && t[i].score <= t[j].score)
  {
    var t := r[k..];
    forall i | 0 <= i < |t| ensures t[i] == r[k + i] { }
  }

  /** Every kept member is listed from position k on, the entries before k scoring in [lo, hi]. */
  lemma KeptIsInSuffix(r: seq<Entry>, z: ZSet, lo: int, hi: int, k: nat)
    requires IsRanking(r, z) && k <= |r|
    requires forall m :: m in z ==> lo <= z[m]
    requires forall i :: 0 <= i < k ==> r[i].score <= hi
    ensures var t := r[k..];
      forall m :: m in RemoveRangeByScore(z, lo, hi) ==> exists i :: 0 <= i < |t| && t[i].member == m
  {
    var t := r[k..];
    forall m | m in RemoveRangeByScore(z, lo, hi) ensures exists i :: 0 <= i < |t| && t[i].member == m {
      var i :| 0 <= i < |r| && r[i].member == m;
      assert i >= k;
      assert t[i - k].member == m;
    }
  }

  /** The members kept are exactly those scored outside [lo, hi], with unchanged scores. */
  lemma RemoveRangeByScoreKeeps(z: ZSet, lo: int, hi: int)
    ensures forall m :: m in RemoveRangeByScore(z, lo, hi) <==> m in z && (z[m] < lo || hi < z[m])
    ensures forall m :: m in RemoveRangeByScore(z, lo, hi) ==> RemoveRangeByScore(z, lo, hi)[m] == z[m]
  {
  }

  /** Removing the same score range again removes nothing more. */
  lemma RemoveRangeByScoreIdempotent(z: ZSet, lo: int, hi: int)
    ensures RemoveRangeByScore(RemoveRangeByScore(z, lo, hi), lo, hi) == RemoveRangeByScore(z, lo, hi)
  {
  }
}
