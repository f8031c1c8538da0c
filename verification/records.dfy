/** The pure part of `upload_to_wandb`: the number of steps and the partial
    record sent for each step. */
module Records {
  import opened Wrappers
  import opened Seqs
  import opened MetricLog

  /** The longest list among the metrics named in `keys`. */
  function MaxLength<V>(keys: seq<string>, series: map<string, Series<V>>): (n: nat)
    requires forall k :: k in keys ==> k in series
    ensures forall k :: k in keys ==> |series[k]| <= n
    ensures |keys| > 0 ==> exists k :: k in keys && |series[k]| == n
  {
    if |keys| == 0 then 0
    else
      var rest := MaxLength(keys[1..], series);
      assert forall k :: k in keys ==> k == keys[0] || k in keys[1..];
      Max(|series[keys[0]]|, rest)
  }

  /** `num_steps`: the length of the longest metric list. Taking the
      maximum over no metrics raises, so uploading an empty store fails
      before any step is sent. */
  function NumSteps<V>(logs: Logs<V>): (r: Result<nat, Error>)
    requires logs.Valid()
    ensures r.Failure? <==> |logs.order| == 0
    ensures r.Success? ==> forall k :: k in logs.series ==> |logs.series[k]| <= r.value
    ensures r.Success? ==> exists k :: k in logs.series && |logs.series[k]| == r.value
  {
    if |logs.order| == 0 then Failure(MaxOfEmpty)
    else Success(MaxLength(logs.order, logs.series))
  }

  /** The dict sent for one step, as name-value pairs in dict order. */
  type Record<V> = seq<(string, V)>

  /** Whether `key` has a non-None value at `step`. */
  predicate PresentAt<V>(logs: Logs<V>, key: string, step: nat) {
    key in logs.series && step < |logs.series[key]| && logs.series[key][step].Some?
  }

  /** The comprehension `{key: logs[key][step] for key in keys if ...}`. */
  function RecordOver<V>(logs: Logs<V>, keys: seq<string>, step: nat): (r: Record<V>)
    requires Distinct(keys)
    ensures Distinct(Keys(r))
    ensures forall k :: k in Keys(r) <==> k in keys && PresentAt(logs, k, step)
    ensures forall i :: 0 <= i < |r| ==> PresentAt(logs, r[i].0, step) && logs.series[r[i].0][step] == Some(r[i].1)
  {
    if |keys| == 0 then []
    else
      var k := keys[0];
      var rest := RecordOver(logs, keys[1..], step);
      assert forall x :: x in keys <==> x == k || x in keys[1..];
      assert k !in keys[1..];
      if PresentAt(logs, k, step) then
        assert Keys([(k, logs.series[k][step].value)] + rest) == [k] + Keys(rest);
        [(k, logs.series[k][step].value)] + rest
      else rest
  }

  /** The partial record of one step: a metric is in it exactly when its
      list reaches the step and holds a value there, and then with that
      value. Absent metrics are left out, never filled in. */
  function StepRecord<V>(logs: Logs<V>, step: nat): (r: Record<V>)
    requires logs.Valid()
    ensures Distinct(Keys(r))
    ensures forall k :: k in Keys(r) <==> PresentAt(logs, k, step)
    ensures forall i :: 0 <= i < |r| ==> PresentAt(logs, r[i].0, step) && logs.series[r[i].0][step] == Some(r[i].1)
  {
    RecordOver(logs, logs.order, step)
  }

  /** One `wandb.log(log_data, step=step)` call. */
  datatype Event<V> = Event(step: nat, record: Record<V>)

  function EventsUpTo<V>(logs: Logs<V>, n: nat): (es: seq<Event<V>>)
    requires logs.Valid()
    ensures |es| == n
    ensures forall i :: 0 <= i < n ==> es[i] == Event(i, StepRecord(logs, i))
  {
    if n == 0 then [] else EventsUpTo(logs, n - 1) + [Event(n - 1, StepRecord(logs, n - 1))]
  }

  /** The calls `upload_to_wandb` makes between `init` and `finish`: one per
      step from 0 up to the longest list, in increasing step order. */
  function Upload<V>(logs: Logs<V>): (r: Result<seq<Event<V>>, Error>)
    requires logs.Valid()
    ensures r.Failure? <==> |logs.order| == 0
    ensures r.Success? ==> NumSteps(logs).Success? && |r.value| == NumSteps(logs).value
    ensures r.Success? ==> forall i :: 0 <= i < |r.value| ==> r.value[i].step == i
  {
    match NumSteps(logs)
    case Failure(e) => Failure(e)
    case Success(n) => Success(EventsUpTo(logs, n))
  }

  /** The value a record carries for `key`, None when it leaves it out. */
  function Lookup<V>(r: Record<V>, key: string): Option<V> {
    if |r| == 0 then None
    else if r[0].0 == key then Some(r[0].1)
    else Lookup(r[1..], key)
  }

  lemma {:induction false} LookupFinds<V>(r: Record<V>, key: string)
    requires Distinct(Keys(r))
    ensures key !in Keys(r) ==> Lookup(r, key) == None
    ensures forall i :: 0 <= i < |r| && r[i].0 == key ==> Lookup(r, key) == Some(r[i].1)
  {
    if |r| > 0 {
      assert Keys(r) == [r[0].0] + Keys(r[1..]);
      LookupFinds(r[1..], key);
      forall i | 0 < i < |r|
        ensures r[i].0 != r[0].0
      {
        assert Keys(r)[i] == r[i].0;
      }
    }
  }

  /** The uploaded events lose nothing: every entry of every metric list is
      exactly what the event of its step carries for that metric (None when
      the record leaves the metric out), and no event carries a metric at a
      step its list does not reach. */
  lemma UploadLosesNothing<V>(logs: Logs<V>, key: string)
    requires logs.Valid()
    requires key in logs.series
    ensures Upload(logs).Success?
    ensures |logs.series[key]| <= |Upload(logs).value|
    ensures forall j :: 0 <= j < |logs.series[key]| ==>
              Lookup(Upload(logs).value[j].record, key) == logs.series[key][j]
    ensures forall j :: |logs.series[key]| <= j < |Upload(logs).value| ==>
              Lookup(Upload(logs).value[j].record, key) == None
  {
    var es := Upload(logs).value;
    forall j | 0 <= j < |es|
      ensures Lookup(es[j].record, key) == if j < |logs.series[key]| then logs.series[key][j] else None
    {
      var r := StepRecord(logs, j);
      assert es[j].record == r;
      LookupFinds(r, key);
      if PresentAt(logs, key, j) {
        var i :| 0 <= i < |r| && Keys(r)[i] == key;
      }
    }
  }
}
