/** The points `show` plots for one metric: its non-absent entries, as a
    list of steps and a list of values. */
module Points {
  import opened Wrappers
  import opened MetricLog

  /** `valid_steps`: the steps whose entry is not None, in increasing order;
      every such step is listed. */
  function ValidSteps<V>(values: Series<V>): (steps: seq<nat>)
    ensures forall i :: 0 <= i < |steps| ==> steps[i] < |values| && values[steps[i]].Some?
    ensures forall i, j :: 0 <= i < j < |steps| ==> steps[i] < steps[j]
    ensures forall j :: 0 <= j < |values| && values[j].Some? ==> j in steps
  {
    if |values| == 0 then []
    else
      var last := |values| - 1;
      ValidSteps(values[..last]) + (if values[last].Some? then [last] else [])
  }

  /** `valid_values`: the non-None entries in order, each paired with the
      step at the same position of `valid_steps`. */
  function ValidValues<V>(values: Series<V>): (vals: seq<V>)
    ensures |vals| == |ValidSteps(values)|
    ensures forall i :: 0 <= i < |vals| ==> values[ValidSteps(values)[i]] == Some(vals[i])
  {
    if |values| == 0 then []
    else
      var last := |values| - 1;
      ValidValues(values[..last]) + (if values[last].Some? then [values[last].value] else [])
  }

  /** A metric with no logged value yields an empty plot, not an error. */
  lemma NoValuesNoPoints<V>(values: Series<V>)
    requires forall j :: 0 <= j < |values| ==> values[j].None?
    ensures ValidSteps(values) == [] && ValidValues(values) == []
  {
  }
}
