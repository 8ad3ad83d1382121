# Rule persistence job, modelled in Dafny

The decision engine of a rate-limiting gateway counts, for each rule, the samples it sees
every second. It keeps these counts in per-second sorted sets in Redis. `RulePersistence` is
the periodic job that carries these counts over to MongoDB. On every tick it takes one `now`
and goes through every rule, in order. For each rule it does two things:

- **Sample persistence (`persistUnionSample`).** It unions, with SUM, the `EMPTY_SET` key and
  the rule's per-second buckets for the `statisticSpan` seconds before `now`. The result goes
  into a union bucket named after the rule and `now`, which gets a time-to-live. The job then
  reads that bucket in ascending score order, skips the first `presistToMongoTopN` entries and
  appends one sample record per remaining entry. As written, those records never get a
  rule name (see Findings).
- **Offender persistence (`persistOffender`).** It reads the rule's offender set in ascending
  score order. It appends a record stamped with `now` for every offender whose
  (rule, sample, reject time) has no record yet. It then deletes from the set every offender
  scored between 0 and the current time.

The model has five files:

- `sorted_set.dfy` (module `SortedSet`): the Redis sorted-set commands the job uses.
  - ZUNIONSTORE with SUM.
  - ZRANGE over ascending score order, with a negative start counting from the end.
  - ZREMRANGEBYSCORE with inclusive bounds.
- `redis.dfy` (module `Redis`): the fast store.
  - Its keys, its sets and their time-to-live.
  - The client class `RedisStore`, whose methods change the store in place.
- `mongo.dfy` (module `Mongo`): the two durable collections as append-only sequences, and the
  query by example.
- `rule_persistence.dfy` (module `PersistenceJob`): the job as a class with a method for each
  of its Java methods. It also holds the specification functions those methods are proved
  against and the lemmas about them.
- `wrappers.dfy`: `Option`, which stands for a Java reference that may be null.

A tick is specified as a fold over the rules:

- `TickStore` is the fast store after the first n rules.
- `TickSamples` and `TickOffenders` are the two collections after those rules.
- `RankedReads` records which ranked read each rule took, and from which store.

## Model

Source paths are relative to the repository root.

| member | source | states |
|---|---|---|
| PersistenceJob.RulePersistence.Execute | src/main/java/com/ymatou/doorgod/decisionengine/service/job/RulePersistence.java:50-55 | One tick goes through every rule in order with one shared now, each rule's union step before its offender step. The fast store ends as the fold of both steps over all rules. Each rule reads the store left by the rules before it plus its own union step. The sample collection gains each rule's records in rule order, each with its rule name unset as persistUnionSample writes it. The offender collection gains each rule's new offenders, checked against everything saved before them. |
| PersistenceJob.RulePersistence.PersistRule | src/main/java/com/ymatou/doorgod/decisionengine/service/job/RulePersistence.java:53-54 | One iteration of the tick's loop: persistUnionSample then persistOffender for rule i extends the store fold, the reads and both collections by exactly that rule, its sample records carrying no rule name. |
| PersistenceJob.TickTouchesOnlyRuleKeys | src/main/java/com/ymatou/doorgod/decisionengine/service/job/RulePersistence.java:50-55 | A tick changes only the rules' union buckets at now and their offender sets. Every other key keeps its set and its time-to-live, including the per-second buckets and EMPTY_SET. |
| PersistenceJob.RuleKeysAre | src/main/java/com/ymatou/doorgod/decisionengine/service/job/RulePersistence.java:50-55 | The keys a tick may write are exactly the union bucket at now and the offender set of each rule processed. |
| PersistenceJob.TickKeepsValid | src/main/java/com/ymatou/doorgod/decisionengine/service/job/RulePersistence.java:50-55 | After any prefix of a tick the fast store still holds no empty set, and no time-to-live on a missing key. |
| PersistenceJob.ReadStatesAt | src/main/java/com/ymatou/doorgod/decisionengine/service/job/RulePersistence.java:50-55 | Rule i reads the store left by rules 0 .. i-1, after its own union step. |
| PersistenceJob.RankedReadsAt | src/main/java/com/ymatou/doorgod/decisionengine/service/job/RulePersistence.java:50-55 | For every rule j of the tick, its sample read is a ranked read of its union bucket, and its blacklist one of its offender set, both in the store rule j saw. |
| PersistenceJob.TickKeepsOffendersUnique | src/main/java/com/ymatou/doorgod/decisionengine/service/job/RulePersistence.java:50-55 | A whole tick keeps at most one durable offender record per (rule, sample, reject time). |
| PersistenceJob.TickOffendersKeepUnique | src/main/java/com/ymatou/doorgod/decisionengine/service/job/RulePersistence.java:106-124 | Saving rule after rule the records queued from blacklists without repeated members keeps the offender triples unique. |
| PersistenceJob.RulePersistence.PersistUnionSample | src/main/java/com/ymatou/doorgod/decisionengine/service/job/RulePersistence.java:65-94 | The store becomes the union step's result. The ranked read is a ranked read of the new union bucket. The sample collection gains exactly the records, as written, for the read's entries from position topN on: member, score and now, with the rule name left unset. |
| PersistenceJob.RulePersistence.GetAllTimeBucket | src/main/java/com/ymatou/doorgod/decisionengine/service/job/RulePersistence.java:133-139 | The countdown loop returns exactly the window's keys, oldest first. |
| PersistenceJob.WindowIsTrailingSpan | src/main/java/com/ymatou/doorgod/decisionengine/service/job/RulePersistence.java:133-139 | The window has max(0, statisticSpan) keys, all of the rule, in strictly increasing seconds. Second t is in it exactly when now - span <= t < now, so now itself is excluded. |
| PersistenceJob.UnionStepEffect | src/main/java/com/ymatou/doorgod/decisionengine/service/job/RulePersistence.java:70-75 | After ZUNIONSTORE and EXPIRE, the union bucket holds the union of EMPTY_SET and the window, whatever it held before. It carries the configured time-to-live exactly when that union is not empty. The store stays valid and no other key changes. |
| PersistenceJob.WindowUnionSums | src/main/java/com/ymatou/doorgod/decisionengine/service/job/RulePersistence.java:70-73 | With EMPTY_SET empty, a member is in the union exactly when some window bucket holds it. Its score is the sum over the window, an absent bucket counting as empty. The union's size is the number of distinct members. |
| Redis.RedisStore.UnionAndStore | src/main/java/com/ymatou/doorgod/decisionengine/service/job/RulePersistence.java:72-73 | The store becomes ZUNIONSTORE's result, and the returned count is the cardinality of the destination. |
| Redis.RedisStore.Expire | src/main/java/com/ymatou/doorgod/decisionengine/service/job/RulePersistence.java:74-75 | The store becomes EXPIRE's result. |
| Redis.ZUnionStoreEffect | src/main/java/com/ymatou/doorgod/decisionengine/service/job/RulePersistence.java:72-73 | The destination holds the sum union and has no time-to-live, and is absent exactly when the union is empty. The store stays valid and no other key changes. |
| Redis.KeyExpireEffect | src/main/java/com/ymatou/doorgod/decisionengine/service/job/RulePersistence.java:74-75 | EXPIRE keeps the store valid and touches no other key. With a positive time it sets that time on an existing key and changes no set. |
| SortedSet.UnionScores | src/main/java/com/ymatou/doorgod/decisionengine/service/job/RulePersistence.java:72-73 | A member is in the SUM union exactly when it is in some input, with the sum of its scores as its score. |
| SortedSet.UnionCardinality | src/main/java/com/ymatou/doorgod/decisionengine/service/job/RulePersistence.java:72-73 | The union's members are all the inputs' members, so the count ZUNIONSTORE returns is the number of distinct members. |
| SortedSet.EmptySetAddsNothing | src/main/java/com/ymatou/doorgod/decisionengine/service/job/RulePersistence.java:72 | An empty first set, such as EMPTY_SET, does not change the union. |
| Redis.RedisStore.RangeWithScores | src/main/java/com/ymatou/doorgod/decisionengine/service/job/RulePersistence.java:79-80 | The result is the tail, from position start, of a ranked read of the set: every member once, with its score, in ascending score order. |
| SortedSet.RangeFrom | src/main/java/com/ymatou/doorgod/decisionengine/service/job/RulePersistence.java:79-80 | ZRANGE start -1 gives a suffix of the read, of length max(0, n - start) for start >= 0 and min(n, -start) for a negative start. |
| SortedSet.RankingExists | src/main/java/com/ymatou/doorgod/decisionengine/service/job/RulePersistence.java:79-80 | Every sorted set has a ranked read. |
| SortedSet.RankingLength | src/main/java/com/ymatou/doorgod/decisionengine/service/job/RulePersistence.java:79-80 | A ranked read has exactly as many entries as the set has members. |
| PersistenceJob.PersistedSamplesAreTail | src/main/java/com/ymatou/doorgod/decisionengine/service/job/RulePersistence.java:79-92 | The persisted records are the entries at positions topN .. K-1 in order, max(0, K - topN) of them and none when K <= topN. Each carries the member, its union score and now, with its rule name unset. Each scores at least as high as every skipped entry. |
| PersistenceJob.RulePersistence.ToMongoSamples | src/main/java/com/ymatou/doorgod/decisionengine/service/job/RulePersistence.java:82-90 | The loop builds one record per entry, in order, with the entry's member and score and the time now; the rule name, copied from the fresh record itself, stays unset. |
| Mongo.MongoSampleRepository.Save | src/main/java/com/ymatou/doorgod/decisionengine/service/job/RulePersistence.java:91 | The batch is appended after the existing records. |
| PersistenceJob.SampleRuleNameIsUnset | src/main/java/com/ymatou/doorgod/decisionengine/service/job/RulePersistence.java:84-85 | As written, every sample record's rule name stays null, so it never names the rule it was built for. |
| PersistenceJob.SamplesNameTheirRule | src/main/java/com/ymatou/doorgod/decisionengine/service/job/RulePersistence.java:84-85 | The corrected records name their rule and agree with the written ones on every other field. |
| PersistenceJob.LoginFailWindowScenario | src/main/java/com/ymatou/doorgod/decisionengine/service/job/RulePersistence.java:70-92 | Take rule "login-fail" with span 3, buckets T-3, T-2 and T-1 each holding userA with 2, and topN 0. The union is {userA: 6} and the one record persisted is (null, userA, 6, T), where the intended record is (login-fail, userA, 6, T). |
| PersistenceJob.RulePersistence.PersistOffender | src/main/java/com/ymatou/doorgod/decisionengine/service/job/RulePersistence.java:102-131 | The blacklist is a ranked read of the offender set. The collection gains exactly the new offenders, and the existing records stay as they were. The prune runs whether the blacklist was empty or not. Unique triples stay unique. |
| PersistenceJob.RulePersistence.QueueNewOffenders | src/main/java/com/ymatou/doorgod/decisionengine/service/job/RulePersistence.java:110-123 | The probe loop queues exactly the records the reference definition of new offenders gives. |
| PersistenceJob.NewOffendersExact | src/main/java/com/ymatou/doorgod/decisionengine/service/job/RulePersistence.java:110-123 | A record is queued exactly when it is (rule, member, score, now) for a blacklist entry whose triple has no durable record. |
| PersistenceJob.QueuedPositions | src/main/java/com/ymatou/doorgod/decisionengine/service/job/RulePersistence.java:110-123 | The positions of the queued entries are strictly increasing, and each names an entry with no durable record. |
| PersistenceJob.NewOffendersKeepOrder | src/main/java/com/ymatou/doorgod/decisionengine/service/job/RulePersistence.java:110-123 | The queued records follow the blacklist's order: the p-th one is built from the entry at the p-th queued position. |
| PersistenceJob.AfterSaveAllRecorded | src/main/java/com/ymatou/doorgod/decisionengine/service/job/RulePersistence.java:116-124 | After the save every blacklist entry is recorded. Every saved record names the rule, is stamped now and had no earlier match. |
| PersistenceJob.NewOffendersDistinct | src/main/java/com/ymatou/doorgod/decisionengine/service/job/RulePersistence.java:110-123 | Entries with distinct members give queued records with distinct samples. |
| PersistenceJob.NewOffendersKeepUnique | src/main/java/com/ymatou/doorgod/decisionengine/service/job/RulePersistence.java:116-124 | Saving the queued records keeps at most one durable record per (rule, sample, reject time). |
| PersistenceJob.ReconcileIsIdempotent | src/main/java/com/ymatou/doorgod/decisionengine/service/job/RulePersistence.java:116-124 | Reconcile again with no durable change in between, and entries drawn only from the first blacklist. Nothing is queued. |
| PersistenceJob.SecondReconcileAppendsNothing | src/main/java/com/ymatou/doorgod/decisionengine/service/job/RulePersistence.java:116-124 | The same holds when the second blacklist is a ranked read of a part of the first set with unchanged scores, for example after the prune. |
| Mongo.FindFirst | src/main/java/com/ymatou/doorgod/decisionengine/service/job/RulePersistence.java:117-118 | Query by example finds a record exactly when one matches the probe's rule name, sample and reject time, and what it finds matches. |
| Mongo.OffenderRepository.FindOne | src/main/java/com/ymatou/doorgod/decisionengine/service/job/RulePersistence.java:117-119 | The result is null exactly when no durable record matches the probe. |
| Mongo.OffenderRepository.Save | src/main/java/com/ymatou/doorgod/decisionengine/service/job/RulePersistence.java:124 | The batch is appended after the existing records. |
| PersistenceJob.PruneKeepsUnexpired | src/main/java/com/ymatou/doorgod/decisionengine/service/job/RulePersistence.java:127-129 | The prune keeps exactly the offenders scored below 0 or above the cutoff, with their scores. The store stays valid, no other key changes, and pruning again changes nothing. |
| Redis.RedisStore.RemoveRangeByScore | src/main/java/com/ymatou/doorgod/decisionengine/service/job/RulePersistence.java:128-129 | The store becomes ZREMRANGEBYSCORE's result. |
| Redis.ZRemRangeByScoreEffect | src/main/java/com/ymatou/doorgod/decisionengine/service/job/RulePersistence.java:128-129 | Exactly the members scored outside [lo, hi] are kept, with their scores. The store stays valid and no other key changes. |
| SortedSet.RemoveRangeByScoreDropsPrefix | src/main/java/com/ymatou/doorgod/decisionengine/service/job/RulePersistence.java:128-129 | When no score lies below lo, the members ZREMRANGEBYSCORE keeps are ranked by a suffix of any ranked read: the read from its first entry scored above hi on. |
| PersistenceJob.PruneDropsBlacklistPrefix | src/main/java/com/ymatou/doorgod/decisionengine/service/job/RulePersistence.java:106-129 | With reject times that are not negative, the prune leaves exactly the offenders ranked by the blacklist read before it, from its first entry scored above the cutoff on: it drops a prefix of the blacklist. |
| SortedSet.RemoveRangeByScoreIdempotent | src/main/java/com/ymatou/doorgod/decisionengine/service/job/RulePersistence.java:128-129 | Removing the same range twice is removing it once. |
| PersistenceJob.LoginFailOffenderScenario | src/main/java/com/ymatou/doorgod/decisionengine/service/job/RulePersistence.java:106-129 | Take blacklist {userB: T-10, userC: T+100} for "login-fail" at T. Records for userB then userC are queued, each unless already recorded, and only userC stays in the set. |

## Left out

- Spring bean lookup, the Quartz job plumbing and logging are left out: they are framework glue. The count at line 93 and the size at line 130 are only logged.
- The Redis and MongoDB clients, the network, failures and retries are left out. The stores are in-memory state held by `RedisStore`, `MongoSampleRepository` and `OffenderRepository`.
- The clock is not modelled. `now` and the prune cutoffs are parameters of `Execute`, one cutoff per rule, because line 129 reads the clock afresh for every rule. Times are integers in place of formatted `yyyyMMddHHmmss` strings. The string-to-Double conversion of the cutoff is not modelled.
- Scores are integers, not doubles. Line 114 truncates the reject time to a whole number, and the model's scores already are whole numbers.
- The key naming of `RedisHelper` is not part of this model. The constructors of `Redis.Key` stand for it, so distinct rules or seconds always give distinct keys.
- The order among members with equal scores is the store's own. The model leaves it open: any ranked read may come back.
- The values of `presistToMongoTopN` and `UNION_FOR_MONGO_PERSISTENCE_EXPIRE_TIME` live in files that are not part of this model. They are fields of `RulePersistence` set by its constructor.
- The rule registry `RuleHolder.rules` is not part of this model. `Execute` takes the snapshot it iterates as a sequence.
- `findOne`'s exception when several records match the probe is not modelled: `FindOne` returns one matching record.
- The null checks on the range results and the possible null dereference of `blackList` at line 130 are left out, because the range calls always return a set, possibly empty.
- Concurrency and overlapping ticks are left out; the model is sequential.
- PersistenceJob.UnionStepEffect: requires a positive time-to-live, because EXPIRE with zero or less deletes the key. The configured constant is taken to be positive.

## Findings

The job's methods model the code as written, so the sample records they persist carry no
rule name (`SampleRecordsAsWritten`). The evidently intended records are `SampleRecords`, and
`SamplesNameTheirRule` proves they differ from the written ones only in the rule name.

| source | as written | input that shows it | evidently intended | confidence | as-written member | corrected member |
|---|---|---|---|---|---|---|
| src/main/java/com/ymatou/doorgod/decisionengine/service/job/RulePersistence.java:84-85 | The rule name of a new sample record is set from that same record's own, still unset, rule name, so it stays null. | Any rule whose union bucket has more than presistToMongoTopN members: each record it persists has a null rule name. | The record names the rule being processed, `rule.getName()`, as the offender records do at line 112. | not executed | PersistenceJob.SampleRuleNameIsUnset | PersistenceJob.SamplesNameTheirRule |
