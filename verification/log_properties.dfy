/** Properties of `log` that relate several calls or several states. */
module LogProperties {
  import opened Wrappers
  import opened Seqs
  import opened MetricLog

  /** Logging a key at a step its list already reaches replaces that one
      entry and keeps the length. */
  lemma OverwriteInPlace<V>(logs: Logs<V>, data: Data<V>, step: nat, key: string)
    requires logs.Valid()
    requires Distinct(Keys(data))
    requires key in Keys(data)
    requires step < |SeriesOf(logs, key)|
    ensures |SeriesOf(Log(logs, data, Some(step)), key)| == |SeriesOf(logs, key)|
    ensures SeriesOf(Log(logs, data, Some(step)), key) == SeriesOf(logs, key)[step := DataValue(data, key)]
  {
    var before := SeriesOf(logs, key);
    var after := SeriesOf(Log(logs, data, Some(step)), key);
    assert WrittenAt(before, after, step, DataValue(data, key));
    assert |after| == |before|;
    forall i | 0 <= i < |after|
      ensures after[i] == before[step := DataValue(data, key)][i]
    {
    }
  }

  /** A key order already holding every key of the batch gains nothing. */
  lemma FreshOfKnown(keys: seq<string>, existing: seq<string>)
    requires forall k :: k in keys ==> k in existing
    ensures Fresh(keys, existing) == []
  {
    FreshMembers(keys, existing);
  }

  /** Logging the same batch at the same explicit step twice gives the
      same store as logging it once. */
  lemma LogIdempotent<V>(logs: Logs<V>, data: Data<V>, step: nat)
    requires logs.Valid()
    requires Distinct(Keys(data))
    ensures Log(Log(logs, data, Some(step)), data, Some(step)) == Log(logs, data, Some(step))
  {
    var once := LogData(logs, data, step);
    var twice := LogData(once, data, step);
    assert twice.order == once.order by {
      FreshOfKnown(Keys(data), once.order);
    }
    forall k
      ensures SeriesOf(twice, k) == SeriesOf(once, k)
    {
      if k in Keys(data) {
        WriteAtTwice(SeriesOf(logs, k), step, DataValue(data, k));
      }
    }
    EqualBySeries(twice, once);
  }

  /** The lengths after a batch: a written key reaches past `step`, every
      other key keeps its length. */
  lemma LengthsAfterLog<V>(logs: Logs<V>, data: Data<V>, step: nat)
    requires logs.Valid()
    requires Distinct(Keys(data))
    ensures forall k :: k in Keys(data) ==>
              |SeriesOf(LogData(logs, data, step), k)| == Max(|SeriesOf(logs, k)|, step + 1)
    ensures forall k :: k !in Keys(data) ==>
              |SeriesOf(LogData(logs, data, step), k)| == |SeriesOf(logs, k)|
  {
    var r := LogData(logs, data, step);
    forall k | k in Keys(data)
      ensures |SeriesOf(r, k)| == Max(|SeriesOf(logs, k)|, step + 1)
    {
      var v := DataValue(data, k);
      assert WrittenAt(SeriesOf(logs, k), WriteAt(SeriesOf(logs, k), step, v), step, v);
    }
  }

  /** Every metric's list has length `n`: all metrics logged in lockstep. */
  ghost predicate Lockstep<V>(logs: Logs<V>, n: nat) {
    forall k :: k in logs.series ==> |logs.series[k]| == n
  }

  /** The implicit step is the next unused slot only while metrics move in
      lockstep: then it is their common length `n`, the batch's keys reach
      length n + 1 and the others stay at n; a batch naming every metric
      restores the lockstep at n + 1. */
  lemma ImplicitStepInLockstep<V>(logs: Logs<V>, data: Data<V>, n: nat)
    requires logs.Valid()
    requires Distinct(Keys(data))
    requires Lockstep(logs, n)
    requires |logs.order| > 0
    ensures ResolveStep(logs, None) == n
    ensures forall k :: k in Keys(data) ==> |SeriesOf(Log(logs, data, None), k)| == n + 1
    ensures forall k :: k in logs.series && k !in Keys(data) ==> |SeriesOf(Log(logs, data, None), k)| == n
    ensures (forall k :: k in logs.order ==> k in Keys(data)) ==> Lockstep(Log(logs, data, None), n + 1)
  {
    assert ResolveStep(logs, None) == n by {
      assert logs.order[0] in logs.series;
    }
    var r := LogData(logs, data, n);
    assert Log(logs, data, None) == r;
    LockstepAfterLog(logs, data, n);
  }

  /** The lockstep part of ImplicitStepInLockstep, at an explicit step. */
  lemma LockstepAfterLog<V>(logs: Logs<V>, data: Data<V>, n: nat)
    requires logs.Valid()
    requires Distinct(Keys(data))
    requires Lockstep(logs, n)
    ensures forall k :: k in Keys(data) ==> |SeriesOf(LogData(logs, data, n), k)| == n + 1
    ensures forall k :: k in logs.series && k !in Keys(data) ==> |SeriesOf(LogData(logs, data, n), k)| == n
    ensures (forall k :: k in logs.order ==> k in Keys(data)) ==> Lockstep(LogData(logs, data, n), n + 1)
  {
    var r := LogData(logs, data, n);
    LengthsAfterLog(logs, data, n);
    LockstepKept(logs, r, Keys(data), n);
  }

  lemma LockstepKept<V>(logs: Logs<V>, r: Logs<V>, keys: seq<string>, n: nat)
    requires Lockstep(logs, n)
    requires forall k :: k in r.series <==> k in logs.series || k in keys
    requires forall k :: k in keys ==> |SeriesOf(r, k)| == Max(|SeriesOf(logs, k)|, n + 1)
    requires forall k :: k !in keys ==> |SeriesOf(r, k)| == |SeriesOf(logs, k)|
    ensures forall k :: k in keys ==> |SeriesOf(r, k)| == n + 1
    ensures forall k :: k in logs.series && k !in keys ==> |SeriesOf(r, k)| == n
    ensures (forall k :: k in logs.series ==> k in keys) ==> Lockstep(r, n + 1)
  {
    forall k | k in keys
      ensures |SeriesOf(r, k)| == n + 1
    {
      assert |SeriesOf(logs, k)| <= n;
    }
    if forall k :: k in logs.series ==> k in keys {
      forall k | k in r.series
        ensures |r.series[k]| == n + 1
      {
        assert SeriesOf(r, k) == r.series[k];
      }
    }
  }

  /** With no metrics yet, the implicit step is 0. */
  lemma ImplicitStepOfEmpty<V>(logs: Logs<V>)
    requires logs.Valid()
    requires |logs.order| == 0
    ensures ResolveStep(logs, None) == 0
  {
  }
}
