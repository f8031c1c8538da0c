/** Sequences of `log` calls replayed from an empty store, and what a
    metric's list holds after a history whose calls all give their step. */
module History {
  import opened Wrappers
  import opened Seqs
  import opened MetricLog

  /** One `log(data, step)` call; `step` is None when the caller leaves it
      out. */
  datatype Call<V> = Call(data: Data<V>, step: Option<nat>)

  /** Every batch is a dict, so its keys are distinct. */
  ghost predicate WellFormed<V>(h: seq<Call<V>>) {
    forall i :: 0 <= i < |h| ==> Distinct(Keys(h[i].data))
  }

  /** Every call of `h` gives its step explicitly. */
  predicate Explicit<V>(h: seq<Call<V>>) {
    forall i :: 0 <= i < |h| ==> h[i].step.Some?
  }

  /** The store after running the calls of `h` in order on a fresh logger. */
  function Replay<V>(h: seq<Call<V>>): (r: Logs<V>)
    requires WellFormed(h)
    ensures r.Valid()
  {
    if |h| == 0 then Empty()
    else
      var c := h[|h| - 1];
      Log(Replay(h[..|h| - 1]), c.data, c.step)
  }

  /** Replaying a non-empty history is one more `log` call on the replay of
      all but its last call. */
  lemma ReplayLast<V>(h: seq<Call<V>>)
    requires WellFormed(h)
    requires |h| > 0
    ensures Replay(h) == Log(Replay(h[..|h| - 1]), h[|h| - 1].data, h[|h| - 1].step)
  {
  }

  predicate Writes<V>(c: Call<V>, key: string, step: nat) {
    key in Keys(c.data) && c.step == Some(step)
  }

  /** What the last call writing `key` at `step` wrote; None when no call
      of `h` wrote there. */
  function LastWrite<V>(h: seq<Call<V>>, key: string, step: nat): (v: Option<V>)
    ensures (forall i :: 0 <= i < |h| ==> !Writes(h[i], key, step)) ==> v == None
  {
    if |h| == 0 then None
    else if Writes(h[|h| - 1], key, step) then DataValue(h[|h| - 1].data, key)
    else LastWrite(h[..|h| - 1], key, step)
  }

  /** One past the highest explicit step at which some call of `h` wrote
      `key`, 0 when none did. */
  function Extent<V>(h: seq<Call<V>>, key: string): (n: nat)
    ensures forall i, s: nat :: 0 <= i < |h| && Writes(h[i], key, s) ==> s < n
    ensures n > 0 ==> exists i :: 0 <= i < |h| && Writes(h[i], key, n - 1)
  {
    if |h| == 0 then 0
    else
      var c := h[|h| - 1];
      var prev := Extent(h[..|h| - 1], key);
      if key in Keys(c.data) && c.step.Some? then Max(prev, c.step.value + 1) else prev
  }

  /** After any history of explicit-step calls, a metric's list is exactly
      as long as its highest written step plus one, and each entry is the
      value last written there. */
  lemma {:induction false} ReplayReadsLastWrite<V>(h: seq<Call<V>>, key: string)
    requires WellFormed(h)
    requires Explicit(h)
    ensures |SeriesOf(Replay(h), key)| == Extent(h, key)
    ensures forall j :: 0 <= j < Extent(h, key) ==> SeriesOf(Replay(h), key)[j] == LastWrite(h, key, j)
  {
    if |h| > 0 {
      var init := h[..|h| - 1];
      var c := h[|h| - 1];
      assert WellFormed(init) && Explicit(init) by {
        forall i | 0 <= i < |init|
          ensures Distinct(Keys(init[i].data)) && init[i].step.Some?
        {
          assert init[i] == h[i];
        }
      }
      ReplayReadsLastWrite(init, key);
      var prev := Replay(init);
      assert Replay(h) == Log(prev, c.data, c.step);
      OneMoreCall(h, key, SeriesOf(prev, key), SeriesOf(Replay(h), key));
    }
  }

  /** The inductive step of ReplayReadsLastWrite: one more call either
      writes the key at its step or leaves the key's list alone. */
  lemma OneMoreCall<V>(h: seq<Call<V>>, key: string, before: Series<V>, after: Series<V>)
    requires |h| > 0
    requires h[|h| - 1].step.Some?
    requires |before| == Extent(h[..|h| - 1], key)
    requires forall j :: 0 <= j < |before| ==> before[j] == LastWrite(h[..|h| - 1], key, j)
    requires var c := h[|h| - 1];
      key in Keys(c.data) ==> after == WriteAt(before, c.step.value, DataValue(c.data, key))
    requires key !in Keys(h[|h| - 1].data) ==> after == before
    ensures |after| == Extent(h, key)
    ensures forall j :: 0 <= j < |after| ==> after[j] == LastWrite(h, key, j)
  {
    var init := h[..|h| - 1];
    var c := h[|h| - 1];
    if key in Keys(c.data) {
      var v := DataValue(c.data, key);
      assert WrittenAt(before, after, c.step.value, v);
      forall j | 0 <= j < |after|
        ensures after[j] == LastWrite(h, key, j)
      {
        if j != c.step.value && j >= |before| {
          forall i | 0 <= i < |init|
            ensures !Writes(init[i], key, j)
          {
          }
        }
      }
    }
  }

  /** A step never written for a metric, but below its list's length
      because a later step was written, reads as absent: never a zero or
      any other default. */
  lemma NeverWrittenReadsAbsent<V>(h: seq<Call<V>>, key: string, j: nat)
    requires WellFormed(h)
    requires Explicit(h)
    requires j < |SeriesOf(Replay(h), key)|
    requires forall i :: 0 <= i < |h| ==> !Writes(h[i], key, j)
    ensures SeriesOf(Replay(h), key)[j] == None
  {
    ReplayReadsLastWrite(h, key);
  }
}
