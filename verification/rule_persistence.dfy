/**
 * The periodic persistence job of the decision engine (RulePersistence). On every tick, for
 * every rule, it unions the per-second buckets of the rule's statistic window into one union
 * bucket and persists the entries ranked above the top-N cutoff, then persists the offenders
 * not yet recorded and prunes the offenders whose reject time has passed.
 */
module PersistenceJob {
  import opened Wrappers
  import opened SortedSet
  import opened Redis
  import opened Mongo

  /** LimitTimesRule, reduced to what the job reads. */
  datatype Rule = Rule(name: string, statisticSpan: int)

  // ----- the statistic window -------------------------------------------------------------

  /** The per-second bucket keys of a rule's window at now, oldest first. */
  function WindowKeys(rule: Rule, now: int): seq<Key>
  {
    seq(Max(0, rule.statisticSpan), i => NormalSet(rule.name, now - (rule.statisticSpan - i)))
  }

  /**
   * The window has statisticSpan keys (none for a span of 0 or less), all of the rule, in
   * strictly increasing seconds, covering exactly the seconds now - span .. now - 1.
   */
  lemma WindowIsTrailingSpan(rule: Rule, now: int)
    ensures |WindowKeys(rule, now)| == Max(0, rule.statisticSpan)
    ensures forall k :: k in WindowKeys(rule, now) ==> k == NormalSet(rule.name, k.second)
    ensures forall t :: NormalSet(rule.name, t) in WindowKeys(rule, now) <==> now - rule.statisticSpan <= t < now
    ensures forall i, j :: 0 <= i < j < |WindowKeys(rule, now)| ==> WindowKeys(rule, now)[i].second < WindowKeys(rule, now)[j].second
  {
    var w := WindowKeys(rule, now);
    forall t | now - rule.statisticSpan <= t < now ensures NormalSet(rule.name, t) in w {
      assert w[t - (now - rule.statisticSpan)] == NormalSet(rule.name, t);
    }
  }

  // ----- persistUnionSample: the union step ----------------------------------------------

  /** The union the job computes for a rule: the EMPTY_SET key followed by the window's buckets. */
  function WindowUnion(s: Store, rule: Rule, now: int): ZSet
  {
    Union(GetAll(s, [EmptySet] + WindowKeys(rule, now)))
  }

  /** The fast-store effect of the union step: ZUNIONSTORE into the union bucket, then EXPIRE. */
  function UnionStep(s: Store, rule: Rule, now: int, expireSeconds: int): Store
  {
    var dest := UnionSet(rule.name, now);
    KeyExpire(ZUnionStore(s, dest, [EmptySet] + WindowKeys(rule, now)), dest, expireSeconds)
  }

  /**
   * After the union step the union bucket holds the window's union, carrying the configured
   * time-to-live exactly when the union is not empty (an empty union leaves no key); the store
   * stays valid and no other key changes.
   */
  lemma UnionStepEffect(s: Store, rule: Rule, now: int, expireSeconds: int)
    requires Valid(s) && expireSeconds > 0
    ensures var r := UnionStep(s, rule, now, expireSeconds);
      var dest := UnionSet(rule.name, now);
      Valid(r) && Get(r, dest) == WindowUnion(s, rule, now) &&
      (dest in r.ttl <==> WindowUnion(s, rule, now) != map[]) &&
      (dest in r.ttl ==> r.ttl[dest] == expireSeconds) &&
      forall k :: k != dest ==> SameAt(r, s, k)
  {
    var dest := UnionSet(rule.name, now);
    var u := ZUnionStore(s, dest, [EmptySet] + WindowKeys(rule, now));
    ZUnionStoreEffect(s, dest, [EmptySet] + WindowKeys(rule, now));
    KeyExpireEffect(u, dest, expireSeconds);
    forall k | k != dest ensures SameAt(KeyExpire(u, dest, expireSeconds), s, k) {
      SameAtTransitive(KeyExpire(u, dest, expireSeconds), u, s, k);
    }
  }

  /**
   * With the EMPTY_SET key empty, a member is in the union exactly when some bucket of the
   * window holds it, scored with the sum of its scores over the window (an absent bucket
   * counting as empty); the union's cardinality is the number of distinct members.
   */
  lemma WindowUnionSums(s: Store, rule: Rule, now: int, m: string)
    requires Get(s, EmptySet) == map[]
    ensures m in WindowUnion(s, rule, now) <==> InSome(GetAll(s, WindowKeys(rule, now)), m)
    ensures Score(WindowUnion(s, rule, now), m) == SumScores(GetAll(s, WindowKeys(rule, now)), m)
    ensures |WindowUnion(s, rule, now)| == |AllMembers(GetAll(s, WindowKeys(rule, now)))|
  {
    var w := WindowKeys(rule, now);
    assert GetAll(s, [EmptySet] + w) == [map[]] + GetAll(s, w);
    EmptySetAddsNothing(GetAll(s, w));
    UnionScores(GetAll(s, w), m);
    UnionCardinality(GetAll(s, w));
  }

  // ----- persistUnionSample: the sample records ------------------------------------------

  /**
   * The records persistUnionSample builds for union entries, one per entry, in order: the rule
   * name is copied from the fresh record itself and so stays unset (None).
   */
  function SampleRecordsAsWritten(es: seq<Entry>, now: int): seq<MongoSample>
  {
    seq(|es|, i requires 0 <= i < |es| => MongoSample(None, es[i].member, es[i].score, now))
  }

  /** The stored rule name is None whatever the rule: the written record never names its rule. */
  lemma SampleRuleNameIsUnset(rule: Rule, es: seq<Entry>, now: int)
    requires es != []
    ensures SampleRecordsAsWritten(es, now)[0].ruleName != Some(rule.name)
    ensures forall r :: r in SampleRecordsAsWritten(es, now) ==> r.ruleName == None
  {
  }

  /** The records for union entries as evidently intended: one per entry, in order, naming the rule. */
  function SampleRecords(rule: Rule, es: seq<Entry>, now: int): seq<MongoSample>
  {
    seq(|es|, i requires 0 <= i < |es| => MongoSample(Some(rule.name), es[i].member, es[i].score, now))
  }

  /** The intended records name their rule and agree with the written ones on every other field. */
  lemma SamplesNameTheirRule(rule: Rule, es: seq<Entry>, now: int)
    ensures |SampleRecords(rule, es, now)| == |SampleRecordsAsWritten(es, now)| == |es|
    ensures forall i :: 0 <= i < |es| ==>
      SampleRecords(rule, es, now)[i].ruleName == Some(rule.name) &&
      SampleRecords(rule, es, now)[i] == SampleRecordsAsWritten(es, now)[i].(ruleName := Some(rule.name))
  {
  }

  lemma SampleRecordsSnoc(es: seq<Entry>, e: Entry, now: int)
    ensures SampleRecordsAsWritten(es + [e], now) ==
      SampleRecordsAsWritten(es, now) + [MongoSample(None, e.member, e.score, now)]
  {
    var l := SampleRecordsAsWritten(es + [e], now);
    var r := SampleRecordsAsWritten(es, now) + [MongoSample(None, e.member, e.score, now)];
    assert |l| == |r|;
    forall i | 0 <= i < |l| ensures l[i] == r[i] {
      if i < |es| { assert (es + [e])[i] == es[i]; }
    }
  }

  /**
   * The records persisted from a ranked read of a union of K members with cutoff topN are
   * the entries at positions topN .. K - 1, in that order: max(0, K - topN) of them, none when
   * K <= topN, each with its rule name unset and carrying the member's union score and the
   * tick time, and each scored at least as high as every skipped entry.
   */
  lemma PersistedSamplesAreTail(ranked: seq<Entry>, z: ZSet, topN: int, now: int)
    requires IsRanking(ranked, z) && topN >= 0
    ensures var recs := SampleRecordsAsWritten(RangeFrom(ranked, topN), now);
      |recs| == Max(0, |z| - topN) && (|z| <= topN ==> recs == []) &&
      (forall i :: 0 <= i < |recs| ==>
         topN + i < |ranked| && recs[i].sample == ranked[topN + i].member &&
         recs[i].ruleName == None &&
         recs[i].sample in z && recs[i].count == z[recs[i].sample] && recs[i].time == now) &&
      (forall i, j :: 0 <= i < |recs| && 0 <= j < topN ==> ranked[j].score <= recs[i].count)
  {
    RankingLength(ranked, z);
    var tail := RangeFrom(ranked, topN);
    forall i | 0 <= i < |tail| ensures tail[i] == ranked[topN + i] {
      assert tail == ranked[|ranked| - |tail|..];
    }
  }

  /**
   * Rule "login-fail" with a 3-second span, the buckets at T-3, T-2 and T-1 each holding
   * userA with 2 and a cutoff of 0: the union is {userA: 6} and the one persisted record is
   * (null, userA, 6, T); the intended record would be (login-fail, userA, 6, T).
   */
  lemma LoginFailWindowScenario(s: Store, t: int, ranked: seq<Entry>)
    requires Get(s, EmptySet) == map[]
    requires Get(s, NormalSet("login-fail", t - 3)) == map["userA" := 2]
    requires Get(s, NormalSet("login-fail", t - 2)) == map["userA" := 2]
    requires Get(s, NormalSet("login-fail", t - 1)) == map["userA" := 2]
    requires IsRanking(ranked, WindowUnion(s, Rule("login-fail", 3), t))
    ensures WindowUnion(s, Rule("login-fail", 3), t) == map["userA" := 6]
    ensures SampleRecordsAsWritten(RangeFrom(ranked, 0), t) == [MongoSample(None, "userA", 6, t)]
    ensures SampleRecords(Rule("login-fail", 3), RangeFrom(ranked, 0), t) == [MongoSample(Some("login-fail"), "userA", 6, t)]
  {
    ScenarioWindowUnion(s, t);
    RankingOfOne(ranked, "userA", 6);
    assert RangeFrom(ranked, 0) == [Entry("userA", 6)];
  }

  /** The scenario's window union, read from the store. */
  lemma ScenarioWindowUnion(s: Store, t: int)
    requires Get(s, EmptySet) == map[]
    requires Get(s, NormalSet("login-fail", t - 3)) == map["userA" := 2]
    requires Get(s, NormalSet("login-fail", t - 2)) == map["userA" := 2]
    requires Get(s, NormalSet("login-fail", t - 1)) == map["userA" := 2]
    ensures WindowUnion(s, Rule("login-fail", 3), t) == map["userA" := 6]
  {
    var a: ZSet := map["userA" := 2];
    var w := WindowKeys(Rule("login-fail", 3), t);
    assert w == [NormalSet("login-fail", t - 3), NormalSet("login-fail", t - 2), NormalSet("login-fail", t - 1)];
    assert GetAll(s, [EmptySet] + w) == [map[], a, a, a];
    ScenarioUnion();
  }

  /** The scenario's union: the empty EMPTY_SET key and three buckets holding userA with 2. */
  lemma ScenarioUnion()
    ensures Union([map[], map["userA" := 2], map["userA" := 2], map["userA" := 2]]) == map["userA" := 6]
  {
  }

  /** The one ranked read of a one-member set. */
  lemma RankingOfOne(r: seq<Entry>, m: string, x: int)
    requires IsRanking(r, map[m := x])
    ensures r == [Entry(m, x)]
  {
    RankingLength(r, map[m := x]);
    assert r[0].member in map[m := x];
  }

  // ----- persistOffender: the offender records ------------------------------------------

  /**
   * The records the offender loop queues: in blacklist order, each entry whose
   * (rule, sample, reject time) is not yet recorded, stamped with now.
   */
  function NewOffenders(bl: seq<Entry>, durable: seq<Offender>, ruleName: string, now: int): seq<Offender>
  {
    if bl == [] then []
    else
      var e := bl[|bl| - 1];
      var queued := NewOffenders(bl[..|bl| - 1], durable, ruleName, now);
      if Recorded(durable, ruleName, e.member, e.score) then queued
      else queued + [Offender(ruleName, e.member, e.score, now)]
  }

  /**
   * A record is queued exactly when it is the candidate of some blacklist entry that has no
   * durable record yet, stamped with now.
   */
  lemma {:induction false} NewOffendersExact(bl: seq<Entry>, durable: seq<Offender>, ruleName: string, now: int)
    ensures forall o :: o in NewOffenders(bl, durable, ruleName, now) <==>
      exists i :: 0 <= i < |bl| && !Recorded(durable, ruleName, bl[i].member, bl[i].score) &&
        o == Offender(ruleName, bl[i].member, bl[i].score, now)
  {
    if bl != [] {
      var n := |bl| - 1;
      NewOffendersExact(bl[..n], durable, ruleName, now);
      forall o ensures o in NewOffenders(bl, durable, ruleName, now) <==>
        exists i :: 0 <= i < |bl| && !Recorded(durable, ruleName, bl[i].member, bl[i].score) &&
          o == Offender(ruleName, bl[i].member, bl[i].score, now)
      {
        if o in NewOffenders(bl[..n], durable, ruleName, now) {
          var i :| 0 <= i < n && !Recorded(durable, ruleName, bl[..n][i].member, bl[..n][i].score) &&
            o == Offender(ruleName, bl[..n][i].member, bl[..n][i].score, now);
          assert bl[..n][i] == bl[i];
        }
        if exists i :: 0 <= i < |bl| && !Recorded(durable, ruleName, bl[i].member, bl[i].score) &&
             o == Offender(ruleName, bl[i].member, bl[i].score, now)
        {
          var i :| 0 <= i < |bl| && !Recorded(durable, ruleName, bl[i].member, bl[i].score) &&
            o == Offender(ruleName, bl[i].member, bl[i].score, now);
          if i < n {
            assert bl[..n][i] == bl[i];
          }
        }
      }
    }
  }

  /** The positions in the blacklist of the entries the offender loop queues, in increasing order. */
  function QueuedPositions(bl: seq<Entry>, durable: seq<Offender>, ruleName: string): (ps: seq<nat>)
    ensures forall p :: 0 <= p < |ps| ==> ps[p] < |bl| && !Recorded(durable, ruleName, bl[ps[p]].member, bl[ps[p]].score)
    ensures forall p, q :: 0 <= p < q < |ps| ==> ps[p] < ps[q]
  {
    if bl == [] then []
    else
      var n := |bl| - 1;
      var before := QueuedPositions(bl[..n], durable, ruleName);
      assert forall p :: 0 <= p < |before| ==> bl[..n][before[p]] == bl[before[p]];
      if Recorded(durable, ruleName, bl[n].member, bl[n].score) then before else before + [n]
  }

  /**
   * The queued records keep the blacklist's order: the p-th one is the candidate of the entry
   * at the p-th queued position.
   */
  lemma {:induction false} NewOffendersKeepOrder(bl: seq<Entry>, durable: seq<Offender>, ruleName: string, now: int)
    ensures |NewOffenders(bl, durable, ruleName, now)| == |QueuedPositions(bl, durable, ruleName)|
    ensures forall p :: 0 <= p < |QueuedPositions(bl, durable, ruleName)| ==>
      var i := QueuedPositions(bl, durable, ruleName)[p];
      NewOffenders(bl, durable, ruleName, now)[p] == Offender(ruleName, bl[i].member, bl[i].score, now)
  {
    if bl != [] {
      var n := |bl| - 1;
      NewOffendersKeepOrder(bl[..n], durable, ruleName, now);
      var ps := QueuedPositions(bl[..n], durable, ruleName);
      forall p | 0 <= p < |ps| ensures bl[..n][ps[p]] == bl[ps[p]] { }
    }
  }

  /**
   * After the queued records are saved every blacklist entry is recorded, and every queued
   * record is new: no record with its triple existed before.
   */
  lemma AfterSaveAllRecorded(bl: seq<Entry>, durable: seq<Offender>, ruleName: string, now: int)
    ensures forall i :: 0 <= i < |bl| ==>
      Recorded(durable + NewOffenders(bl, durable, ruleName, now), ruleName, bl[i].member, bl[i].score)
    ensures forall o :: o in NewOffenders(bl, durable, ruleName, now) ==>
      o.ruleName == ruleName && o.addTime == now && !Recorded(durable, o.ruleName, o.sample, o.rejectTime)
  {
    NewOffendersExact(bl, durable, ruleName, now);
    var d := durable + NewOffenders(bl, durable, ruleName, now);
    forall i | 0 <= i < |bl| ensures Recorded(d, ruleName, bl[i].member, bl[i].score) {
      if Recorded(durable, ruleName, bl[i].member, bl[i].score) {
        var j :| 0 <= j < |durable| && Matches(durable[j], ruleName, bl[i].member, bl[i].score);
        assert d[j] == durable[j];
      } else {
        var o := Offender(ruleName, bl[i].member, bl[i].score, now);
        assert o in NewOffenders(bl, durable, ruleName, now);
        var j :| 0 <= j < |NewOffenders(bl, durable, ruleName, now)| && NewOffenders(bl, durable, ruleName, now)[j] == o;
        assert d[|durable| + j] == o;
      }
    }
  }

  /** Queued records have pairwise distinct samples when the blacklist's members are distinct. */
  lemma {:induction false} NewOffendersDistinct(bl: seq<Entry>, durable: seq<Offender>, ruleName: string, now: int)
    requires forall i, j :: 0 <= i < j < |bl| ==> bl[i].member != bl[j].member
    ensures forall i, j :: 0 <= i < j < |NewOffenders(bl, durable, ruleName, now)| ==>
      NewOffenders(bl, durable, ruleName, now)[i].sample != NewOffenders(bl, durable, ruleName, now)[j].sample
  {
    if bl != [] {
      var n := |bl| - 1;
      var queued := NewOffenders(bl[..n], durable, ruleName, now);
      NewOffendersDistinct(bl[..n], durable, ruleName, now);
      NewOffendersExact(bl[..n], durable, ruleName, now);
      forall i | 0 <= i < |queued| ensures queued[i].sample != bl[n].member {
        assert queued[i] in queued;
        var k :| 0 <= k < n && queued[i] == Offender(ruleName, bl[..n][k].member, bl[..n][k].score, now);
        assert bl[..n][k] == bl[k];
      }
    }
  }

  /**
   * Saving the queued records keeps at most one durable record per (rule, sample, reject time),
   * given a blacklist whose members are distinct.
   */
  lemma NewOffendersKeepUnique(bl: seq<Entry>, durable: seq<Offender>, ruleName: string, now: int)
    requires UniqueTriples(durable)
    requires forall i, j :: 0 <= i < j < |bl| ==> bl[i].member != bl[j].member
    ensures UniqueTriples(durable + NewOffenders(bl, durable, ruleName, now))
  {
    var q := NewOffenders(bl, durable, ruleName, now);
    var d := durable + q;
    AfterSaveAllRecorded(bl, durable, ruleName, now);
    NewOffendersDistinct(bl, durable, ruleName, now);
    forall i, j | 0 <= i < j < |d| ensures !Matches(d[j], d[i].ruleName, d[i].sample, d[i].rejectTime) {
      if j >= |durable| {
        var o := d[j];
        assert o == q[j - |durable|];
        assert o in q;
        if i >= |durable| {
          assert d[i] == q[i - |durable|];
        }
      }
    }
  }

  /**
   * Reconciling again, with a blacklist holding only entries of the first one and no other
   * durable change in between, queues nothing.
   */
  lemma {:induction false} ReconcileIsIdempotent(bl: seq<Entry>, bl2: seq<Entry>, durable: seq<Offender>,
                                                  ruleName: string, now: int, now2: int)
    requires forall e :: e in bl2 ==> e in bl
    ensures NewOffenders(bl2, durable + NewOffenders(bl, durable, ruleName, now), ruleName, now2) == []
  {
    if bl2 != [] {
      var n := |bl2| - 1;
      forall e | e in bl2[..n] ensures e in bl { assert e in bl2; }
      ReconcileIsIdempotent(bl, bl2[..n], durable, ruleName, now, now2);
      assert bl2[n] in bl2;
      var i :| 0 <= i < |bl| && bl[i] == bl2[n];
      AfterSaveAllRecorded(bl, durable, ruleName, now);
    }
  }

  /**
   * The second of two reconciliations queues nothing when the second blacklist is a ranked
   * read of a part of the first set, scores unchanged (the first one pruned, say).
   */
  lemma SecondReconcileAppendsNothing(z: ZSet, z2: ZSet, bl: seq<Entry>, bl2: seq<Entry>, durable: seq<Offender>,
                                      ruleName: string, now: int, now2: int)
    requires IsRanking(bl, z) && IsRanking(bl2, z2)
    requires forall m :: m in z2 ==> m in z && z2[m] == z[m]
    ensures NewOffenders(bl2, durable + NewOffenders(bl, durable, ruleName, now), ruleName, now2) == []
  {
    forall e | e in bl2 ensures e in bl {
      var m := e.member;
      assert m in z;
      var i :| 0 <= i < |bl| && bl[i].member == m;
      assert bl[i] == e;
    }
    ReconcileIsIdempotent(bl, bl2, durable, ruleName, now, now2);
  }

  // ----- persistOffender: the prune -----------------------------------------------------

  /** The fast-store effect of the prune: ZREMRANGEBYSCORE on the offender set over [0, cutoff]. */
  function OffenderStep(s: Store, rule: Rule, cutoff: int): Store
  {
    ZRemRangeByScore(s, OffendersMap(rule.name), 0, cutoff)
  }

  /**
   * The prune keeps exactly the offenders scored above the cutoff or below 0, with their
   * scores; the store stays valid and no other key changes. Pruning again with the same
   * cutoff changes nothing.
   */
  lemma PruneKeepsUnexpired(s: Store, rule: Rule, cutoff: int)
    requires Valid(s)
    ensures var r := OffenderStep(s, rule, cutoff); var k := OffendersMap(rule.name);
      Valid(r) &&
      (forall m :: m in Get(r, k) <==> m in Get(s, k) && (Get(s, k)[m] < 0 || cutoff < Get(s, k)[m])) &&
      (forall m :: m in Get(r, k) ==> Get(r, k)[m] == Get(s, k)[m]) &&
      (forall k' :: k' != k ==> SameAt(r, s, k')) &&
      OffenderStep(r, rule, cutoff) == r
  {
    var k := OffendersMap(rule.name);
    ZRemRangeByScoreEffect(s, k, 0, cutoff);
    var r := OffenderStep(s, rule, cutoff);
    RemoveRangeByScoreIdempotent(Get(s, k), 0, cutoff);
    if RemoveRangeByScore(Get(s, k), 0, cutoff) == map[] {
      assert Get(r, k) == map[];
      assert OffenderStep(r, rule, cutoff) == Delete(r, k);
    } else {
      assert OffenderStep(r, rule, cutoff).zsets == r.zsets;
    }
  }

  /**
   * With reject times that are not negative, the prune drops a prefix of the blacklist read
   * before it: the offenders left are ranked by the blacklist from the first entry scored
   * above the cutoff on.
   */
  lemma PruneDropsBlacklistPrefix(s: Store, rule: Rule, cutoff: int, bl: seq<Entry>)
    requires IsRanking(bl, Get(s, OffendersMap(rule.name)))
    requires forall m :: m in Get(s, OffendersMap(rule.name)) ==> 0 <= Get(s, OffendersMap(rule.name))[m]
    ensures IsRanking(bl[LeadingAtMost(bl, cutoff)..], Get(OffenderStep(s, rule, cutoff), OffendersMap(rule.name)))
  {
    OffenderStepReads(s, rule, cutoff);
    RemoveRangeByScoreDropsPrefix(bl, Get(s, OffendersMap(rule.name)), 0, cutoff);
  }

  /**
   * Blacklist {userB: T-10, userC: T+100} for "login-fail", reconciled at T: records for userB
   * and for userC are queued, each unless already present, and only userC stays in the set.
   */
  lemma LoginFailOffenderScenario(s: Store, t: int, bl: seq<Entry>, durable: seq<Offender>)
    requires t >= 10
    requires Get(s, OffendersMap("login-fail")) == map["userB" := t - 10, "userC" := t + 100]
    requires IsRanking(bl, Get(s, OffendersMap("login-fail")))
    ensures NewOffenders(bl, durable, "login-fail", t) ==
      (if Recorded(durable, "login-fail", "userB", t - 10) then [] else [Offender("login-fail", "userB", t - 10, t)]) +
      (if Recorded(durable, "login-fail", "userC", t + 100) then [] else [Offender("login-fail", "userC", t + 100, t)])
    ensures Get(OffenderStep(s, Rule("login-fail", 3), t), OffendersMap("login-fail")) == map["userC" := t + 100]
  {
    assert "userB" != "userC" by {
      assert "userB"[4] != "userC"[4];
    }
    RankingOfTwo(bl, "userB", t - 10, "userC", t + 100);
    NewOffendersOfTwo(Entry("userB", t - 10), Entry("userC", t + 100), durable, "login-fail", t);
    OffenderStepReads(s, Rule("login-fail", 3), t);
    PruneOfTwo("userB", t - 10, "userC", t + 100, t);
  }

  /** After the prune, the offender set is the old one less the members scored in [0, cutoff]. */
  lemma OffenderStepReads(s: Store, rule: Rule, cutoff: int)
    ensures Get(OffenderStep(s, rule, cutoff), OffendersMap(rule.name)) ==
      RemoveRangeByScore(Get(s, OffendersMap(rule.name)), 0, cutoff)
  {
  }

  /** Pruning [0, cutoff] from a two-member set drops the member inside and keeps the one above. */
  lemma PruneOfTwo(a: string, x: int, b: string, y: int, cutoff: int)
    requires a != b && 0 <= x <= cutoff < y
    ensures RemoveRangeByScore(map[a := x, b := y], 0, cutoff) == map[b := y]
  {
    assert RemoveRangeByScore(map[a := x, b := y], 0, cutoff).Keys == {b};
  }

  /** The one ranked read of a two-member set whose first member scores lower. */
  lemma RankingOfTwo(bl: seq<Entry>, a: string, x: int, b: string, y: int)
    requires a != b && x < y
    requires IsRanking(bl, map[a := x, b := y])
    ensures bl == [Entry(a, x), Entry(b, y)]
  {
    var z := map[a := x, b := y];
    RankingLength(bl, z);
    assert |z| == 2 by {
      assert z.Keys == {a, b};
    }
    assert bl[0].member in z && bl[1].member in z;
    assert bl[0].member == a && bl[1].member == b;
  }

  /** The records queued for a two-entry blacklist. */
  lemma NewOffendersOfTwo(e: Entry, f: Entry, durable: seq<Offender>, ruleName: string, now: int)
    ensures NewOffenders([e, f], durable, ruleName, now) ==
      (if Recorded(durable, ruleName, e.member, e.score) then [] else [Offender(ruleName, e.member, e.score, now)]) +
      (if Recorded(durable, ruleName, f.member, f.score) then [] else [Offender(ruleName, f.member, f.score, now)])
  {
    var ef := [e, f];
    assert ef[..|ef| - 1] == [e] && ef[|ef| - 1] == f;
    assert [e][..0] == [];
    assert NewOffenders([e], durable, ruleName, now) ==
      if Recorded(durable, ruleName, e.member, e.score) then [] else [Offender(ruleName, e.member, e.score, now)];
  }

  // ----- execute: a whole tick -----------------------------------------------------------

  /** The fast store after the first n rules of a tick: each rule's union step, then its prune. */
  function TickStore(s: Store, rules: seq<Rule>, now: int, cutoffs: seq<int>, expireSeconds: int, n: nat): Store
    requires |cutoffs| == |rules| && n <= |rules|
  {
    if n == 0 then s
    else
      OffenderStep(UnionStep(TickStore(s, rules, now, cutoffs, expireSeconds, n - 1), rules[n - 1], now, expireSeconds),
                   rules[n - 1], cutoffs[n - 1])
  }

  /** The fast store rule i's ranked reads see: after the earlier rules and after its own union step. */
  function ReadState(s: Store, rules: seq<Rule>, now: int, cutoffs: seq<int>, expireSeconds: int, i: nat): Store
    requires |cutoffs| == |rules| && i < |rules|
  {
    UnionStep(TickStore(s, rules, now, cutoffs, expireSeconds, i), rules[i], now, expireSeconds)
  }

  /** The fast stores the first n rules of a tick read, one per rule. */
  function ReadStates(s: Store, rules: seq<Rule>, now: int, cutoffs: seq<int>, expireSeconds: int, n: nat): (r: seq<Store>)
    requires |cutoffs| == |rules| && n <= |rules|
    ensures |r| == n
  {
    if n == 0 then [] else ReadStates(s, rules, now, cutoffs, expireSeconds, n - 1) + [ReadState(s, rules, now, cutoffs, expireSeconds, n - 1)]
  }

  /** Rule i reads the store left by the rules before it, after its own union step. */
  lemma {:induction false} ReadStatesAt(s: Store, rules: seq<Rule>, now: int, cutoffs: seq<int>, expireSeconds: int, n: nat, i: nat)
    requires |cutoffs| == |rules| && i < n <= |rules|
    ensures ReadStates(s, rules, now, cutoffs, expireSeconds, n)[i] == ReadState(s, rules, now, cutoffs, expireSeconds, i)
  {
    var before := ReadStates(s, rules, now, cutoffs, expireSeconds, n - 1);
    var last := ReadState(s, rules, now, cutoffs, expireSeconds, n - 1);
    assert ReadStates(s, rules, now, cutoffs, expireSeconds, n) == before + [last];
    if i == n - 1 {
      assert (before + [last])[n - 1] == last;
    } else {
      ReadStatesAt(s, rules, now, cutoffs, expireSeconds, n - 1, i);
      assert (before + [last])[i] == before[i];
    }
  }

  /**
   * The first n rules of a tick write only their union buckets at now and their offender
   * sets: every other key, the per-second buckets and the EMPTY_SET key among them, keeps its
   * set and its time-to-live.
   */
  lemma {:induction false} TickTouchesOnlyRuleKeys(s: Store, rules: seq<Rule>, now: int, cutoffs: seq<int>,
                                                    expireSeconds: int, n: nat, k: Key)
    requires |cutoffs| == |rules| && n <= |rules|
    requires k !in RuleKeys(rules, now, n)
    ensures SameAt(TickStore(s, rules, now, cutoffs, expireSeconds, n), s, k)
  {
    if n > 0 {
      TickTouchesOnlyRuleKeys(s, rules, now, cutoffs, expireSeconds, n - 1, k);
      TickStepFrame(s, rules, now, cutoffs, expireSeconds, n, k);
    }
  }

  /** The keys the first n rules of a tick write: their union buckets at now and their offender sets. */
  function RuleKeys(rules: seq<Rule>, now: int, n: nat): set<Key>
    requires n <= |rules|
  {
    if n == 0 then {} else RuleKeys(rules, now, n - 1) + {UnionSet(rules[n - 1].name, now), OffendersMap(rules[n - 1].name)}
  }

  /** A key is written by the first n rules exactly when it is one of their union buckets or offender sets. */
  lemma {:induction false} RuleKeysAre(rules: seq<Rule>, now: int, n: nat, k: Key)
    requires n <= |rules|
    ensures k in RuleKeys(rules, now, n) <==>
      exists i :: 0 <= i < n && (k == UnionSet(rules[i].name, now) || k == OffendersMap(rules[i].name))
  {
    if n > 0 {
      RuleKeysAre(rules, now, n - 1, k);
    }
  }

  /** Rule n - 1 of a tick leaves a key it does not own as the rules before it left it. */
  lemma TickStepFrame(s: Store, rules: seq<Rule>, now: int, cutoffs: seq<int>, expireSeconds: int, n: nat, k: Key)
    requires |cutoffs| == |rules| && 0 < n <= |rules|
    requires k != UnionSet(rules[n - 1].name, now) && k != OffendersMap(rules[n - 1].name)
    requires SameAt(TickStore(s, rules, now, cutoffs, expireSeconds, n - 1), s, k)
    ensures SameAt(TickStore(s, rules, now, cutoffs, expireSeconds, n), s, k)
  {
    var before := TickStore(s, rules, now, cutoffs, expireSeconds, n - 1);
    RuleStepFrame(before, rules[n - 1], now, expireSeconds, cutoffs[n - 1], k);
    SameAtTransitive(TickStore(s, rules, now, cutoffs, expireSeconds, n), before, s, k);
  }

  /** One rule's union step and prune touch neither its union bucket at now nor its offender set. */
  lemma RuleStepFrame(s: Store, rule: Rule, now: int, expireSeconds: int, cutoff: int, k: Key)
    requires k != UnionSet(rule.name, now) && k != OffendersMap(rule.name)
    ensures SameAt(OffenderStep(UnionStep(s, rule, now, expireSeconds), rule, cutoff), s, k)
  {
    var mid := UnionStep(s, rule, now, expireSeconds);
    UnionStepFrame(s, rule, now, expireSeconds, k);
    OffenderStepFrame(mid, rule, cutoff, k);
    SameAtTransitive(OffenderStep(mid, rule, cutoff), mid, s, k);
  }

  /** The union step touches no key but the rule's union bucket at now. */
  lemma UnionStepFrame(s: Store, rule: Rule, now: int, expireSeconds: int, k: Key)
    requires k != UnionSet(rule.name, now)
    ensures SameAt(UnionStep(s, rule, now, expireSeconds), s, k)
  {
    var dest := UnionSet(rule.name, now);
    var u := ZUnionStore(s, dest, [EmptySet] + WindowKeys(rule, now));
    assert SameAt(u, s, k);
  }

  /** The prune touches no key but the rule's offender set. */
  lemma OffenderStepFrame(s: Store, rule: Rule, cutoff: int, k: Key)
    requires k != OffendersMap(rule.name)
    ensures SameAt(OffenderStep(s, rule, cutoff), s, k)
  {
  }

  /** A tick keeps the fast store valid. */
  lemma {:induction false} TickKeepsValid(s: Store, rules: seq<Rule>, now: int, cutoffs: seq<int>, expireSeconds: int, n: nat)
    requires |cutoffs| == |rules| && n <= |rules| && Valid(s)
    ensures Valid(TickStore(s, rules, now, cutoffs, expireSeconds, n))
  {
    if n > 0 {
      var before := TickStore(s, rules, now, cutoffs, expireSeconds, n - 1);
      TickKeepsValid(s, rules, now, cutoffs, expireSeconds, n - 1);
      var rule := rules[n - 1];
      var dest := UnionSet(rule.name, now);
      ZUnionStoreEffect(before, dest, [EmptySet] + WindowKeys(rule, now));
      KeyExpireEffect(ZUnionStore(before, dest, [EmptySet] + WindowKeys(rule, now)), dest, expireSeconds);
      ZRemRangeByScoreEffect(UnionStep(before, rule, now, expireSeconds), OffendersMap(rule.name), 0, cutoffs[n - 1]);
    }
  }

  /** The sample records a tick appends, rule after rule. */
  function TickSamples(rankings: seq<seq<Entry>>, topN: int, now: int): seq<MongoSample>
  {
    if rankings == [] then []
    else
      var n := |rankings| - 1;
      TickSamples(rankings[..n], topN, now) + SampleRecordsAsWritten(RangeFrom(rankings[n], topN), now)
  }

  /**
   * The offender collection after the rules with a blacklist so far: each rule's queued records
   * saved in turn, every rule checking against what the earlier ones saved.
   */
  function TickOffenders(durable: seq<Offender>, blackLists: seq<seq<Entry>>, rules: seq<Rule>, now: int): seq<Offender>
    requires |blackLists| <= |rules|
  {
    if blackLists == [] then durable
    else
      var n := |blackLists| - 1;
      var before := TickOffenders(durable, blackLists[..n], rules, now);
      before + NewOffenders(blackLists[n], before, rules[n].name, now)
  }

  /**
   * Rule j of a tick took rankings[j] as the ranked read of its union bucket and blackLists[j]
   * as that of its offender set, both from the store readStates[j]; stated rule after rule
   * (RankedReadsAt gives it for any one rule).
   */
  ghost predicate RankedReads(rules: seq<Rule>, now: int, readStates: seq<Store>,
                              rankings: seq<seq<Entry>>, blackLists: seq<seq<Entry>>)
    decreases |readStates|
  {
    |rankings| == |readStates| && |blackLists| == |readStates| && |readStates| <= |rules| &&
    (readStates != [] ==>
      var n := |readStates| - 1;
      RankedReads(rules, now, readStates[..n], rankings[..n], blackLists[..n]) &&
      IsRanking(rankings[n], Get(readStates[n], UnionSet(rules[n].name, now))) &&
      IsRanking(blackLists[n], Get(readStates[n], OffendersMap(rules[n].name))))
  }

  /** The reads of rule j, for any rule of the tick. */
  lemma {:induction false} RankedReadsAt(rules: seq<Rule>, now: int, readStates: seq<Store>,
                                         rankings: seq<seq<Entry>>, blackLists: seq<seq<Entry>>, j: nat)
    requires RankedReads(rules, now, readStates, rankings, blackLists) && j < |readStates|
    ensures j < |rules| && |rankings| == |blackLists| == |readStates|
    ensures IsRanking(rankings[j], Get(readStates[j], UnionSet(rules[j].name, now)))
    ensures IsRanking(blackLists[j], Get(readStates[j], OffendersMap(rules[j].name)))
    decreases |readStates|
  {
    var n := |readStates| - 1;
    if j < n {
      RankedReadsAt(rules, now, readStates[..n], rankings[..n], blackLists[..n], j);
      assert readStates[..n][j] == readStates[j] && rankings[..n][j] == rankings[j] && blackLists[..n][j] == blackLists[j];
    }
  }

  /** The reads of one more rule extend the reads of the rules before it. */
  lemma RankedReadsSnoc(rules: seq<Rule>, now: int, readStates: seq<Store>, rankings: seq<seq<Entry>>,
                        blackLists: seq<seq<Entry>>, mid: Store, ranked: seq<Entry>, blackList: seq<Entry>)
    requires RankedReads(rules, now, readStates, rankings, blackLists) && |readStates| < |rules|
    requires IsRanking(ranked, Get(mid, UnionSet(rules[|readStates|].name, now)))
    requires IsRanking(blackList, Get(mid, OffendersMap(rules[|readStates|].name)))
    ensures RankedReads(rules, now, readStates + [mid], rankings + [ranked], blackLists + [blackList])
  {
    var n := |readStates|;
    assert (readStates + [mid])[..n] == readStates;
    assert (rankings + [ranked])[..n] == rankings;
    assert (blackLists + [blackList])[..n] == blackLists;
  }

  lemma AppendAssociates<T>(a: seq<T>, b: seq<T>, c: seq<T>)
    ensures a + b + c == a + (b + c)
  {
  }

  /** One more rule of a tick: its union step, then its prune, reading the store between the two. */
  lemma TickStoreStep(s: Store, rules: seq<Rule>, now: int, cutoffs: seq<int>, expireSeconds: int, i: nat,
                      mid: Store, after: Store)
    requires |cutoffs| == |rules| && i < |rules|
    requires mid == UnionStep(TickStore(s, rules, now, cutoffs, expireSeconds, i), rules[i], now, expireSeconds)
    requires after == OffenderStep(mid, rules[i], cutoffs[i])
    ensures ReadStates(s, rules, now, cutoffs, expireSeconds, i + 1) == ReadStates(s, rules, now, cutoffs, expireSeconds, i) + [mid]
    ensures TickStore(s, rules, now, cutoffs, expireSeconds, i + 1) == after
  {
  }

  /** One more rule's sample records. */
  lemma TickSamplesSnoc(rankings: seq<seq<Entry>>, ranked: seq<Entry>, topN: int, now: int)
    ensures TickSamples(rankings + [ranked], topN, now) ==
      TickSamples(rankings, topN, now) + SampleRecordsAsWritten(RangeFrom(ranked, topN), now)
  {
    assert (rankings + [ranked])[..|rankings|] == rankings;
  }

  /** One more rule's offender records, checked against everything saved before them. */
  lemma TickOffendersSnoc(durable: seq<Offender>, blackLists: seq<seq<Entry>>, blackList: seq<Entry>,
                          rules: seq<Rule>, now: int)
    requires |blackLists| < |rules|
    ensures TickOffenders(durable, blackLists + [blackList], rules, now) ==
      TickOffenders(durable, blackLists, rules, now) +
      NewOffenders(blackList, TickOffenders(durable, blackLists, rules, now), rules[|blackLists|].name, now)
  {
    assert (blackLists + [blackList])[..|blackLists|] == blackLists;
  }

  /** No two entries of a read list the same member. */
  predicate DistinctMembers(bl: seq<Entry>)
  {
    forall i, j :: 0 <= i < j < |bl| ==> bl[i].member != bl[j].member
  }

  /**
   * Saving, rule after rule, the records queued for blacklists that each list a member at most
   * once keeps at most one durable record per (rule, sample, reject time).
   */
  lemma {:induction false} TickOffendersKeepUnique(durable: seq<Offender>, blackLists: seq<seq<Entry>>,
                                                   rules: seq<Rule>, now: int)
    requires |blackLists| <= |rules| && UniqueTriples(durable)
    requires forall j :: 0 <= j < |blackLists| ==> DistinctMembers(blackLists[j])
    ensures UniqueTriples(TickOffenders(durable, blackLists, rules, now))
  {
    if blackLists != [] {
      var n := |blackLists| - 1;
      forall j | 0 <= j < n ensures DistinctMembers(blackLists[..n][j]) {
        assert blackLists[..n][j] == blackLists[j];
      }
      TickOffendersKeepUnique(durable, blackLists[..n], rules, now);
      NewOffendersKeepUnique(blackLists[n], TickOffenders(durable, blackLists[..n], rules, now), rules[n].name, now);
    }
  }

  /** A whole tick keeps at most one durable offender record per (rule, sample, reject time). */
  lemma TickKeepsOffendersUnique(rules: seq<Rule>, now: int, readStates: seq<Store>, rankings: seq<seq<Entry>>,
                                 blackLists: seq<seq<Entry>>, durable: seq<Offender>)
    requires RankedReads(rules, now, readStates, rankings, blackLists) && UniqueTriples(durable)
    ensures UniqueTriples(TickOffenders(durable, blackLists, rules, now))
  {
    forall j | 0 <= j < |blackLists| ensures DistinctMembers(blackLists[j]) {
      RankedReadsAt(rules, now, readStates, rankings, blackLists, j);
    }
    TickOffendersKeepUnique(durable, blackLists, rules, now);
  }

  /** Everything one more rule adds to a tick, in the terms of the loop of Execute. */
  lemma TickExtends(s: Store, rules: seq<Rule>, now: int, cutoffs: seq<int>, expireSeconds: int, topN: int, i: nat,
                    readStates: seq<Store>, rankings: seq<seq<Entry>>, blackLists: seq<seq<Entry>>,
                    mid: Store, after: Store, ranked: seq<Entry>, blackList: seq<Entry>,
                    samples: seq<MongoSample>, offenders: seq<Offender>)
    requires |cutoffs| == |rules| && i < |rules|
    requires readStates == ReadStates(s, rules, now, cutoffs, expireSeconds, i)
    requires RankedReads(rules, now, readStates, rankings, blackLists)
    requires mid == UnionStep(TickStore(s, rules, now, cutoffs, expireSeconds, i), rules[i], now, expireSeconds)
    requires after == OffenderStep(mid, rules[i], cutoffs[i])
    requires IsRanking(ranked, Get(mid, UnionSet(rules[i].name, now)))
    requires IsRanking(blackList, Get(mid, OffendersMap(rules[i].name)))
    ensures TickStore(s, rules, now, cutoffs, expireSeconds, i + 1) == after
    ensures ReadStates(s, rules, now, cutoffs, expireSeconds, i + 1) == readStates + [mid]
    ensures RankedReads(rules, now, readStates + [mid], rankings + [ranked], blackLists + [blackList])
    ensures samples + TickSamples(rankings + [ranked], topN, now) ==
      samples + TickSamples(rankings, topN, now) + SampleRecordsAsWritten(RangeFrom(ranked, topN), now)
    ensures TickOffenders(offenders, blackLists + [blackList], rules, now) ==
      TickOffenders(offenders, blackLists, rules, now) +
      NewOffenders(blackList, TickOffenders(offenders, blackLists, rules, now), rules[i].name, now)
  {
    TickStoreStep(s, rules, now, cutoffs, expireSeconds, i, mid, after);
    RankedReadsSnoc(rules, now, readStates, rankings, blackLists, mid, ranked, blackList);
    TickSamplesSnoc(rankings, ranked, topN, now);
    AppendAssociates(samples, TickSamples(rankings, topN, now), SampleRecordsAsWritten(RangeFrom(ranked, topN), now));
    TickOffendersSnoc(offenders, blackLists, blackList, rules, now);
  }

  /** The job, holding the stores it works on and its configuration. */
  class RulePersistence {
    const redis: RedisStore
    const sampleRepository: MongoSampleRepository
    const offenderRepository: OffenderRepository
    /** BizProps.getPresistToMongoTopN(): how many lowest-ranked union entries are not persisted. */
    const presistToMongoTopN: int
    /** UNION_FOR_MONGO_PERSISTENCE_EXPIRE_TIME, in seconds. */
    const unionExpireSeconds: int

    constructor (redis: RedisStore, sampleRepository: MongoSampleRepository, offenderRepository: OffenderRepository,
                 presistToMongoTopN: int, unionExpireSeconds: int)
      ensures this.redis == redis && this.sampleRepository == sampleRepository
      ensures this.offenderRepository == offenderRepository
      ensures this.presistToMongoTopN == presistToMongoTopN && this.unionExpireSeconds == unionExpireSeconds
    {
      this.redis := redis;
      this.sampleRepository := sampleRepository;
      this.offenderRepository := offenderRepository;
      this.presistToMongoTopN := presistToMongoTopN;
      this.unionExpireSeconds := unionExpireSeconds;
    }

    /**
     * One tick: every rule of the snapshot, in order, with the one shared now; the union step
     * before the offender step for each rule. cutoffs[i] is the clock read by rule i's prune.
     * rankings[i] and blackLists[i] are the store's ranked reads for rule i.
     */
    method Execute(rules: seq<Rule>, now: int, cutoffs: seq<int>)
        returns (ghost readStates: seq<Store>, ghost rankings: seq<seq<Entry>>, ghost blackLists: seq<seq<Entry>>)
      requires |cutoffs| == |rules|
      modifies redis, sampleRepository, offenderRepository
      ensures redis.State() == TickStore(old(redis.State()), rules, now, cutoffs, unionExpireSeconds, |rules|)
      ensures readStates == ReadStates(old(redis.State()), rules, now, cutoffs, unionExpireSeconds, |rules|)
      ensures RankedReads(rules, now, readStates, rankings, blackLists)
      ensures sampleRepository.records ==
        old(sampleRepository.records) + TickSamples(rankings, presistToMongoTopN, now)
      ensures offenderRepository.records ==
        TickOffenders(old(offenderRepository.records), blackLists, rules, now)
    {
      ghost var s0, samples0, offenders0 := redis.State(), sampleRepository.records, offenderRepository.records;
      readStates, rankings, blackLists := [], [], [];
      for i := 0 to |rules|
        invariant redis.State() == TickStore(s0, rules, now, cutoffs, unionExpireSeconds, i)
        invariant readStates == ReadStates(s0, rules, now, cutoffs, unionExpireSeconds, i)
        invariant |rankings| == i && |blackLists| == i
        invariant RankedReads(rules, now, readStates, rankings, blackLists)
        invariant sampleRepository.records ==
          samples0 + TickSamples(rankings, presistToMongoTopN, now)
        invariant offenderRepository.records ==
          TickOffenders(offenders0, blackLists, rules, now)
      {
        ghost var ranked, mid, blackList := PersistRule(rules, now, cutoffs, i, s0, samples0, offenders0, readStates, rankings, blackLists);
        readStates := readStates + [mid];
        rankings := rankings + [ranked];
        blackLists := blackLists + [blackList];
      }
    }

    /**
     * The body of the loop in execute, for rule i of a tick: persistUnionSample, then
     * persistOffender. It extends the tick's store, reads and both collections by that rule.
     */
    method PersistRule(rules: seq<Rule>, now: int, cutoffs: seq<int>, i: nat, ghost s0: Store,
                       ghost samples0: seq<MongoSample>, ghost offenders0: seq<Offender>,
                       ghost readStates: seq<Store>, ghost rankings: seq<seq<Entry>>, ghost blackLists: seq<seq<Entry>>)
        returns (ghost ranked: seq<Entry>, ghost mid: Store, ghost blackList: seq<Entry>)
      requires |cutoffs| == |rules| && i < |rules|
      requires redis.State() == TickStore(s0, rules, now, cutoffs, unionExpireSeconds, i)
      requires readStates == ReadStates(s0, rules, now, cutoffs, unionExpireSeconds, i)
      requires RankedReads(rules, now, readStates, rankings, blackLists)
      requires sampleRepository.records == samples0 + TickSamples(rankings, presistToMongoTopN, now)
      requires offenderRepository.records == TickOffenders(offenders0, blackLists, rules, now)
      modifies redis, sampleRepository, offenderRepository
      ensures redis.State() == TickStore(s0, rules, now, cutoffs, unionExpireSeconds, i + 1)
      ensures readStates + [mid] == ReadStates(s0, rules, now, cutoffs, unionExpireSeconds, i + 1)
      ensures RankedReads(rules, now, readStates + [mid], rankings + [ranked], blackLists + [blackList])
      ensures sampleRepository.records == samples0 + TickSamples(rankings + [ranked], presistToMongoTopN, now)
      ensures offenderRepository.records == TickOffenders(offenders0, blackLists + [blackList], rules, now)
    {
      ranked := PersistUnionSample(rules[i], now);
      mid := redis.State();
      blackList := PersistOffender(rules[i], now, cutoffs[i]);
      TickExtends(s0, rules, now, cutoffs, unionExpireSeconds, presistToMongoTopN, i, readStates, rankings, blackLists,
                  mid, redis.State(), ranked, blackList, samples0, offenders0);
    }

    /**
     * Union the rule's window into the union bucket at now, give it its time-to-live, and
     * append one record per union entry from position topN on of the ascending ranked read.
     */
    method PersistUnionSample(rule: Rule, now: int) returns (ghost ranked: seq<Entry>)
      modifies redis, sampleRepository
      ensures redis.State() == UnionStep(old(redis.State()), rule, now, unionExpireSeconds)
      ensures IsRanking(ranked, Get(redis.State(), UnionSet(rule.name, now)))
      ensures sampleRepository.records ==
        old(sampleRepository.records) + SampleRecordsAsWritten(RangeFrom(ranked, presistToMongoTopN), now)
    {
      ghost var s0 := redis.State();
      var currentBucket := UnionSet(rule.name, now);
      var timeBuckets := GetAllTimeBucket(rule, now);
      var count := redis.UnionAndStore(EmptySet, timeBuckets, currentBucket);
      redis.Expire(currentBucket, unionExpireSeconds);
      assert redis.State() == UnionStep(s0, rule, now, unionExpireSeconds);

      var sampleUnion;
      sampleUnion, ranked := redis.RangeWithScores(currentBucket, presistToMongoTopN);
      if |sampleUnion| > 0 {
        var mongoSamples := ToMongoSamples(sampleUnion, now);
        sampleRepository.Save(mongoSamples);
      }
    }

    /**
     * Append a record, stamped now, for every offender of the rule whose (rule, sample, reject
     * time) has none yet; then delete the offenders scored in [0, cutoff].
     */
    method PersistOffender(rule: Rule, now: int, cutoff: int) returns (ghost blackList: seq<Entry>)
      modifies redis, offenderRepository
      ensures IsRanking(blackList, Get(old(redis.State()), OffendersMap(rule.name)))
      ensures offenderRepository.records ==
        old(offenderRepository.records) + NewOffenders(blackList, old(offenderRepository.records), rule.name, now)
      ensures redis.State() == OffenderStep(old(redis.State()), rule, cutoff)
      ensures UniqueTriples(old(offenderRepository.records)) ==> UniqueTriples(offenderRepository.records)
    {
      var key := OffendersMap(rule.name);
      var tuples;
      tuples, blackList := redis.RangeWithScores(key, 0);
      if |tuples| > 0 {
        var offenderPos := QueueNewOffenders(rule, tuples, now);
        offenderRepository.Save(offenderPos);
      }
      if UniqueTriples(old(offenderRepository.records)) {
        NewOffendersKeepUnique(blackList, old(offenderRepository.records), rule.name, now);
      }
      redis.RemoveRangeByScore(key, 0, cutoff);
    }

    /**
     * The record-building loop of persistUnionSample: one sample record per union entry, in
     * order. The rule name is set from the fresh record's own, so it stays unset.
     */
    method ToMongoSamples(sampleUnion: seq<Entry>, now: int) returns (mongoSamples: seq<MongoSample>)
      ensures mongoSamples == SampleRecordsAsWritten(sampleUnion, now)
    {
      mongoSamples := [];
      for i := 0 to |sampleUnion|
        invariant mongoSamples == SampleRecordsAsWritten(sampleUnion[..i], now)
      {
        var sample := sampleUnion[i];
        var msp := MongoSample(None, "", 0, 0);
        msp := msp.(ruleName := msp.ruleName);
        msp := msp.(sample := sample.member, count := sample.score, time := now);
        assert sampleUnion[..i + 1] == sampleUnion[..i] + [sample];
        SampleRecordsSnoc(sampleUnion[..i], sample, now);
        mongoSamples := mongoSamples + [msp];
      }
      assert sampleUnion[..|sampleUnion|] == sampleUnion;
    }

    /**
     * The probe loop of persistOffender: probe the offender collection for each blacklist entry and
     * queue, stamped now, the ones it has no record of.
     */
    method QueueNewOffenders(rule: Rule, blackList: seq<Entry>, now: int) returns (offenderPos: seq<Offender>)
      ensures offenderPos == NewOffenders(blackList, offenderRepository.records, rule.name, now)
    {
      offenderPos := [];
      for i := 0 to |blackList|
        invariant offenderPos == NewOffenders(blackList[..i], offenderRepository.records, rule.name, now)
      {
        var typeTuple := blackList[i];
        var result := offenderRepository.FindOne(rule.name, typeTuple.member, typeTuple.score);
        assert blackList[..i + 1][..i] == blackList[..i];
        if result == None {
          offenderPos := offenderPos + [Offender(rule.name, typeTuple.member, typeTuple.score, now)];
        }
      }
      assert blackList[..|blackList|] == blackList;
    }

    /** The per-second bucket keys of the rule's window at now, oldest first. */
    method GetAllTimeBucket(rule: Rule, now: int) returns (timeBuckets: seq<Key>)
      ensures timeBuckets == WindowKeys(rule, now)
    {
      timeBuckets := [];
      var second := rule.statisticSpan;
      while second >= 1
        invariant second <= rule.statisticSpan
        invariant rule.statisticSpan >= 0 ==> second >= 0
        invariant timeBuckets == WindowKeys(rule, now)[..Max(0, rule.statisticSpan) - Max(0, second)]
      {
        timeBuckets := timeBuckets + [NormalSet(rule.name, now - second)];
        second := second - 1;
      }
    }
  }
}
