/** The in-memory metric store of `JSONLogger` and its `log` operation:
    a dict from metric name to a step-indexed list whose gaps hold None. */
module MetricLog {
  import opened Wrappers
  import opened Seqs

  /** One metric's history: index i holds what was logged at step i,
      None where nothing was. */
  type Series<V> = seq<Option<V>>

  /** The `logs` dict. `order` is the dict's insertion order, `series`
      its contents. */
  datatype Logs<V> = Logs(order: seq<string>, series: map<string, Series<V>>) {

    /** What a Python dict guarantees: each key is listed once, and the
        listed keys are exactly the stored ones. */
    ghost predicate Valid() {
      && Distinct(order)
      && (forall k :: k in series <==> k in order)
    }
  }

  /** The store a fresh logger starts from when nothing is on disk. */
  function Empty<V>(): (r: Logs<V>)
    ensures r.Valid() && |r.order| == 0
  {
    Logs([], map[])
  }

  /** The series of `key`, or the empty list a new key starts from. */
  function SeriesOf<V>(logs: Logs<V>, key: string): Series<V> {
    if key in logs.series then logs.series[key] else []
  }

  /** The dict passed to one `log` call, in its iteration order. A value may
      be None when the caller logs None explicitly. */
  type Data<V> = seq<(string, Option<V>)>

  /** The value `data` holds for `key`. */
  function DataValue<V>(data: Data<V>, key: string): (v: Option<V>)
    requires key in Keys(data)
    ensures (key, v) in data
  {
    if data[0].0 == key then data[0].1 else DataValue(data[1..], key)
  }

  /** The keys of `keys` not in `existing`, in order: the keys a batch adds
      to the end of the dict. */
  function Fresh(keys: seq<string>, existing: seq<string>): seq<string> {
    if |keys| == 0 then []
    else (if keys[0] in existing then [] else [keys[0]]) + Fresh(keys[1..], existing)
  }

  lemma {:induction false} FreshMembers(keys: seq<string>, existing: seq<string>)
    ensures forall x :: x in Fresh(keys, existing) <==> x in keys && x !in existing
  {
    if |keys| > 0 {
      FreshMembers(keys[1..], existing);
      assert keys == [keys[0]] + keys[1..];
    }
  }

  lemma {:induction false} FreshIgnoresOthers(keys: seq<string>, existing: seq<string>, x: string)
    requires x !in keys
    ensures Fresh(keys, existing + [x]) == Fresh(keys, existing)
  {
    if |keys| > 0 {
      FreshIgnoresOthers(keys[1..], existing, x);
    }
  }

  /** How the key order grows when a batch is processed one key at a time. */
  lemma FreshStep(before: seq<string>, next: seq<string>, after: seq<string>, key: string, rest: seq<string>)
    requires next == if key in before then before else before + [key]
    requires after == next + Fresh(rest, next)
    requires key !in rest
    ensures after == before + Fresh([key] + rest, before)
  {
    assert ([key] + rest)[1..] == rest;
    if key !in before {
      FreshIgnoresOthers(rest, before, key);
    }
  }

  /** The sparse write rule: `after` is `before` padded with None up to
      `step` and holding `v` at `step`; nothing else differs. */
  ghost predicate WrittenAt<V>(before: Series<V>, after: Series<V>, step: nat, v: Option<V>) {
    && |after| == Max(|before|, step + 1)
    && after[step] == v
    && forall i :: 0 <= i < |after| && i != step ==>
         after[i] == (if i < |before| then before[i] else None)
  }

  /** Pads with None when the list is too short, then overwrites `step`. */
  function WriteAt<V>(before: Series<V>, step: nat, v: Option<V>): (after: Series<V>)
    ensures WrittenAt(before, after, step, v)
  {
    var padded := if |before| <= step then before + seq(step - |before| + 1, _ => None) else before;
    padded[step := v]
  }

  /** Past the end of the list, a write appends absent markers for the
      skipped steps and then the value. */
  lemma WriteAtPadsWithAbsent<V>(before: Series<V>, step: nat, v: Option<V>)
    requires |before| <= step
    ensures WriteAt(before, step, v) == before + seq(step - |before|, _ => None) + [v]
  {
    var after := WriteAt(before, step, v);
    var expected := before + seq(step - |before|, _ => None) + [v];
    assert |after| == |expected|;
    forall i | 0 <= i < |after|
      ensures after[i] == expected[i]
    {
    }
  }

  /** Within the list, a write replaces one entry and keeps the length. */
  lemma WriteAtOverwrites<V>(before: Series<V>, step: nat, v: Option<V>)
    requires step < |before|
    ensures WriteAt(before, step, v) == before[step := v]
  {
    var after := WriteAt(before, step, v);
    assert |after| == |before|;
    forall i | 0 <= i < |after|
      ensures after[i] == before[step := v][i]
    {
    }
  }

  /** Writing the same value at the same step a second time changes nothing. */
  lemma WrittenTwice<V>(s0: Series<V>, s1: Series<V>, s2: Series<V>, step: nat, v: Option<V>)
    requires WrittenAt(s0, s1, step, v)
    requires WrittenAt(s1, s2, step, v)
    ensures s2 == s1
  {
    assert |s2| == |s1|;
    forall i | 0 <= i < |s2|
      ensures s2[i] == s1[i]
    {
    }
  }

  lemma WriteAtTwice<V>(s: Series<V>, step: nat, v: Option<V>)
    ensures WriteAt(WriteAt(s, step, v), step, v) == WriteAt(s, step, v)
  {
    WrittenTwice(s, WriteAt(s, step, v), WriteAt(WriteAt(s, step, v), step, v), step, v);
  }

  /** Two stores with the same key order and the same lists are equal. */
  lemma EqualBySeries<V>(a: Logs<V>, b: Logs<V>)
    requires a.Valid() && b.Valid()
    requires a.order == b.order
    requires forall k :: SeriesOf(a, k) == SeriesOf(b, k)
    ensures a == b
  {
    assert forall k :: k in a.series <==> k in b.series;
    forall k | k in a.series
      ensures a.series[k] == b.series[k]
    {
      assert SeriesOf(a, k) == SeriesOf(b, k);
    }
    assert a.series == b.series;
  }

  /** One iteration of the loop in `log`: create the key if new, pad, set. */
  function LogEntry<V>(logs: Logs<V>, key: string, v: Option<V>, step: nat): (r: Logs<V>)
    requires logs.Valid()
    ensures r.Valid()
    ensures r.order == if key in logs.order then logs.order else logs.order + [key]
    ensures forall k :: k in r.series <==> k in logs.series || k == key
    ensures SeriesOf(r, key) == WriteAt(SeriesOf(logs, key), step, v)
    ensures forall k :: k != key ==> SeriesOf(r, k) == SeriesOf(logs, k)
  {
    var updated := WriteAt(SeriesOf(logs, key), step, v);
    if key in logs.series then
      Logs(logs.order, logs.series[key := updated])
    else
      DistinctAppend(logs.order, key);
      Logs(logs.order + [key], logs.series[key := updated])
  }

  /** The loop of `log` over the batch at one step. Every key of the batch
      ends up present and written at `step`; new keys go to the end of the
      dict in batch order; every other metric is untouched. */
  function LogData<V>(logs: Logs<V>, data: Data<V>, step: nat): (r: Logs<V>)
    requires logs.Valid()
    requires Distinct(Keys(data))
    ensures r.Valid()
    ensures r.order == logs.order + Fresh(Keys(data), logs.order)
    ensures forall k :: k in r.series <==> k in logs.series || k in Keys(data)
    ensures forall k :: k in Keys(data) ==>
              SeriesOf(r, k) == WriteAt(SeriesOf(logs, k), step, DataValue(data, k))
    ensures forall k :: k !in Keys(data) ==> SeriesOf(r, k) == SeriesOf(logs, k)
    decreases |data|
  {
    if |data| == 0 then logs
    else
      var key := data[0].0;
      var next := LogEntry(logs, key, data[0].1, step);
      var rest := data[1..];
      assert Keys(data) == [key] + Keys(rest);
      assert key !in Keys(rest);
      var r := LogData(next, rest, step);
      FreshStep(logs.order, next.order, r.order, key, Keys(rest));
      LogDataStep(logs, next, r, data, step);
      r
  }

  /** The inductive step of LogData: the first entry of the batch, then
      the rest of it. */
  lemma LogDataStep<V>(logs: Logs<V>, next: Logs<V>, r: Logs<V>, data: Data<V>, step: nat)
    requires |data| > 0
    requires Keys(data) == [data[0].0] + Keys(data[1..])
    requires data[0].0 !in Keys(data[1..])
    requires forall k :: k in next.series <==> k in logs.series || k == data[0].0
    requires SeriesOf(next, data[0].0) == WriteAt(SeriesOf(logs, data[0].0), step, data[0].1)
    requires forall k :: k != data[0].0 ==> SeriesOf(next, k) == SeriesOf(logs, k)
    requires forall k :: k in r.series <==> k in next.series || k in Keys(data[1..])
    requires forall k :: k in Keys(data[1..]) ==>
               SeriesOf(r, k) == WriteAt(SeriesOf(next, k), step, DataValue(data[1..], k))
    requires forall k :: k !in Keys(data[1..]) ==> SeriesOf(r, k) == SeriesOf(next, k)
    ensures forall k :: k in r.series <==> k in logs.series || k in Keys(data)
    ensures forall k :: k in Keys(data) ==>
              SeriesOf(r, k) == WriteAt(SeriesOf(logs, k), step, DataValue(data, k))
    ensures forall k :: k !in Keys(data) ==> SeriesOf(r, k) == SeriesOf(logs, k)
  {
  }

  /** The step a `log` call writes at: the one given, otherwise the length
      of the first-inserted metric's list, or 0 for an empty store. */
  function ResolveStep<V>(logs: Logs<V>, step: Option<nat>): (s: nat)
    requires logs.Valid()
    ensures step.Some? ==> s == step.value
    ensures step.None? && |logs.order| == 0 ==> s == 0
    ensures step.None? && |logs.order| > 0 ==> s == |SeriesOf(logs, logs.order[0])|
  {
    match step
    case Some(s) => s
    case None => if |logs.order| == 0 then 0 else |logs.series[logs.order[0]]|
  }

  /** `log(data, step)` without its file writes. */
  function Log<V>(logs: Logs<V>, data: Data<V>, step: Option<nat>): (r: Logs<V>)
    requires logs.Valid()
    requires Distinct(Keys(data))
    ensures r.Valid()
    ensures r.order == logs.order + Fresh(Keys(data), logs.order)
    ensures |logs.order| > 0 ==> r.order[0] == logs.order[0]
    ensures forall k :: k in r.series <==> k in logs.series || k in Keys(data)
    ensures forall k :: k in Keys(data) ==>
              SeriesOf(r, k) == WriteAt(SeriesOf(logs, k), ResolveStep(logs, step), DataValue(data, k))
    ensures forall k :: k !in Keys(data) ==> SeriesOf(r, k) == SeriesOf(logs, k)
  {
    LogData(logs, data, ResolveStep(logs, step))
  }
}
