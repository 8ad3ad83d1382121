/**
 * The durable store: the sample collection (MongoSampleRepository) and the offender
 * collection (OffenderRepository), each an append-only sequence of records.
 */
module Mongo {
  import opened Wrappers

  /** MongoSamplePo. A rule name of None is a field left null. */
  datatype MongoSample = MongoSample(ruleName: Option<string>, sample: string, count: int, time: int)

  /** OffenderPo. rejectTime is the offender's score truncated to a whole number. */
  datatype Offender = Offender(ruleName: string, sample: string, rejectTime: int, addTime: int)

  /**
   * Query by example with a probe whose addTime is unset: a record matches when the three
   * fields the probe sets are equal.
   */
  predicate Matches(o: Offender, ruleName: string, sample: string, rejectTime: int)
  {
    o.ruleName == ruleName && o.sample == sample && o.rejectTime == rejectTime
  }

  /** Some record matches the probe (ruleName, sample, rejectTime). */
  predicate Recorded(rs: seq<Offender>, ruleName: string, sample: string, rejectTime: int)
  {
    exists i :: 0 <= i < |rs| && Matches(rs[i], ruleName, sample, rejectTime)
  }

  /** findOne(example): a matching record, or None (null) when there is none. */
  function FindFirst(rs: seq<Offender>, ruleName: string, sample: string, rejectTime: int): (r: Option<Offender>)
    ensures r.Some? <==> Recorded(rs, ruleName, sample, rejectTime)
    ensures r.Some? ==> r.value in rs && Matches(r.value, ruleName, sample, rejectTime)
  {
    if rs == [] then None
    else if Matches(rs[0], ruleName, sample, rejectTime) then Some(rs[0])
    else
      var r := FindFirst(rs[1..], ruleName, sample, rejectTime);
      assert Recorded(rs, ruleName, sample, rejectTime) ==> Recorded(rs[1..], ruleName, sample, rejectTime) by {
        if Recorded(rs, ruleName, sample, rejectTime) {
          var i :| 0 <= i < |rs| && Matches(rs[i], ruleName, sample, rejectTime);
          assert rs[1..][i - 1] == rs[i];
        }
      }
      assert Recorded(rs[1..], ruleName, sample, rejectTime) ==> Recorded(rs, ruleName, sample, rejectTime) by {
        if Recorded(rs[1..], ruleName, sample, rejectTime) {
          var i :| 0 <= i < |rs| - 1 && Matches(rs[1..][i], ruleName, sample, rejectTime);
          assert rs[i + 1] == rs[1..][i];
        }
      }
      r
  }

  /** At most one durable record per (ruleName, sample, rejectTime). */
  ghost predicate UniqueTriples(rs: seq<Offender>)
  {
    forall i, j :: 0 <= i < j < |rs| ==> !Matches(rs[j], rs[i].ruleName, rs[i].sample, rs[i].rejectTime)
  }

  class MongoSampleRepository {
    var records: seq<MongoSample>

    constructor ()
      ensures records == []
    {
      records := [];
    }

    /** save(list): appends the batch. */
    method Save(batch: seq<MongoSample>)
      modifies this
      ensures records == old(records) + batch
    {
      records := records + batch;
    }
  }

  class OffenderRepository {
    var records: seq<Offender>

    constructor ()
      ensures records == []
    {
      records := [];
    }

    /** findOne(Example.of(probe)) for a probe with ruleName, sample and rejectTime set. */
    method FindOne(ruleName: string, sample: string, rejectTime: int) returns (r: Option<Offender>)
      ensures r.Some? <==> Recorded(records, ruleName, sample, rejectTime)
      ensures r.Some? ==> r.value in records && Matches(r.value, ruleName, sample, rejectTime)
    {
      r := FindFirst(records, ruleName, sample, rejectTime);
    }

    /** save(list): appends the batch. */
    method Save(batch: seq<Offender>)
      modifies this
      ensures records == old(records) + batch
    {
      records := records + batch;
    }
  }
}
