/** Concrete runs of the logger with integer metric values. */
module Scenarios {
  import opened Wrappers
  import opened Seqs
  import opened MetricLog
  import opened Categories
  import opened Records
  import opened History

  /** Logging "a" = 5 at step 3 on an empty store pads steps 0 to 2 with
      None, never with 0. */
  lemma SparseExtension()
    ensures SeriesOf(Log(Empty<int>(), [("a", Some(5))], Some(3)), "a") == [None, None, None, Some(5)]
  {
    var r := Log(Empty<int>(), [("a", Some(5))], Some(3));
    assert Keys([("a", Some(5))]) == ["a"];
    var s := SeriesOf(r, "a");
    assert WrittenAt([], s, 3, Some(5));
    assert s == [None, None, None, Some(5)];
  }

  /** Logging "a" at step 2 twice keeps the second value and the length. */
  lemma OverwriteSameStep()
    ensures var once := Log(Empty<int>(), [("a", Some(1))], Some(2));
            SeriesOf(Log(once, [("a", Some(2))], Some(2)), "a") == [None, None, Some(2)]
  {
    var once := Log(Empty<int>(), [("a", Some(1))], Some(2));
    var twice := Log(once, [("a", Some(2))], Some(2));
    assert Keys([("a", Some(1))]) == ["a"];
    assert Keys([("a", Some(2))]) == ["a"];
    assert WrittenAt([], SeriesOf(once, "a"), 2, Some(1));
    assert SeriesOf(once, "a") == [None, None, Some(1)];
    assert WrittenAt(SeriesOf(once, "a"), SeriesOf(twice, "a"), 2, Some(2));
    assert SeriesOf(twice, "a") == [None, None, Some(2)];
  }

  /** A one-key batch is one iteration of the loop in `log`. */
  lemma LogOneKey<V>(logs: Logs<V>, key: string, v: Option<V>, step: nat)
    requires logs.Valid()
    ensures Log(logs, [(key, v)], Some(step)) == LogEntry(logs, key, v, step)
  {
    var data := [(key, v)];
    assert data[1..] == [];
    var next := LogEntry(logs, key, v, step);
    assert LogData(next, [], step) == next;
    assert LogData(logs, data, step) == LogData(next, data[1..], step);
  }

  /** The store after "loss" = 7 at step 0 and then "eval/acc" = 9 at step 1. */
  function LossEval(): (r: Logs<int>)
    ensures r.Valid()
  {
    Logs(["loss", "eval/acc"], map["loss" := [Some(7)], "eval/acc" := [None, Some(9)]])
  }

  lemma LossAndEvalStore()
    ensures Log(Log(Empty<int>(), [("loss", Some(7))], Some(0)), [("eval/acc", Some(9))], Some(1)) == LossEval()
  {
    var none0: Series<int> := seq(0, _ => None);
    var none1: Series<int> := seq(1, _ => None);
    assert none0 == [] && none1 == [None];
    WriteAtPadsWithAbsent([], 0, Some(7));
    assert WriteAt([], 0, Some(7)) == [Some(7)];
    WriteAtPadsWithAbsent([], 1, Some(9));
    assert WriteAt([], 1, Some(9)) == [None, Some(9)];
    LogOneKey(Empty<int>(), "loss", Some(7), 0);
    var first := LogEntry(Empty<int>(), "loss", Some(7), 0);
    assert first == Logs(["loss"], map["loss" := [Some(7)]]);
    LogOneKey(first, "eval/acc", Some(9), 1);
    var second := LogEntry(first, "eval/acc", Some(9), 1);
    assert second == Logs(["loss", "eval/acc"], first.series["eval/acc" := [None, Some(9)]]);
  }

  lemma LossAndEvalCategories()
    ensures Category("loss") == NoCategory
    ensures Category("eval/acc") == "eval"
  {
    assert '/' !in "loss";
    assert "eval/acc" == "eval" + "/" + "acc";
    BeforeSlashOf("eval", "acc");
  }

  /** "loss" has no '/' and goes to row "no_category"; "eval/acc" goes to
      row "eval". */
  lemma LossAndEvalGroups()
    ensures Group(["loss", "eval/acc"]) == [("no_category", ["loss"]), ("eval", ["eval/acc"])]
  {
    LossAndEvalCategories();
    GroupAppend([], "loss");
    GroupAppend(["loss"], "eval/acc");
  }

  /** The record of step 0 carries only "loss", the one of step 1 only
      "eval/acc": a metric absent at a step is left out of its record. */
  lemma LossAndEvalRecords()
    ensures StepRecord(LossEval(), 0) == [("loss", 7)]
    ensures StepRecord(LossEval(), 1) == [("eval/acc", 9)]
  {
    var logs := LossEval();
    assert ["loss", "eval/acc"][1..] == ["eval/acc"];
    assert PresentAt(logs, "loss", 0) && !PresentAt(logs, "eval/acc", 0);
    assert !PresentAt(logs, "loss", 1) && PresentAt(logs, "eval/acc", 1);
  }

  /** The implicit step follows the first-inserted metric only. With "a"
      at length 1 and "b" at length 2, logging "b" without a step writes at
      step 1 and overwrites b's value there instead of appending. */
  lemma ImplicitStepOverwritesLaggingMetric()
    ensures var logs := Logs(["a", "b"], map["a" := [Some(1)], "b" := [Some(1), Some(2)]]);
            SeriesOf(Log(logs, [("b", Some(3))], None), "b") == [Some(1), Some(3)]
  {
    var logs := Logs(["a", "b"], map["a" := [Some(1)], "b" := [Some(1), Some(2)]]);
    assert ResolveStep(logs, None) == 1;
    LogOneKey(logs, "b", Some(3), 1);
    assert WriteAt([Some(1), Some(2)], 1, Some(3)) == [Some(1), Some(3)];
  }

  /** A step-less call on a fresh logger writes at step 0. */
  lemma FirstImplicitCall()
    ensures Replay([Call([("a", Some(1))], None)]) == Logs(["a"], map["a" := [Some(1)]])
  {
    var h: seq<Call<int>> := [Call([("a", Some(1))], None)];
    assert Keys(h[0].data) == ["a"];
    ReplayLast(h);
    assert h[..0] == [];
    LogOneKey(Empty<int>(), "a", Some(1), 0);
    assert WriteAt([], 0, Some(1)) == [Some(1)];
  }

  /** A history of two step-less calls appends: the first lands at step 0
      of the empty store, the second at step 1. */
  lemma ImplicitHistoryAppends()
    ensures SeriesOf(Replay([Call([("a", Some(1))], None), Call([("a", Some(2))], None)]), "a") == [Some(1), Some(2)]
  {
    var c1: Call<int> := Call([("a", Some(1))], None);
    var c2: Call<int> := Call([("a", Some(2))], None);
    assert Keys(c1.data) == ["a"] && Keys(c2.data) == ["a"];
    FirstImplicitCall();
    var first := Logs(["a"], map["a" := [Some(1)]]);
    var h := [c1, c2];
    ReplayLast(h);
    assert h[..1] == [c1];
    LogOneKey(first, "a", Some(2), 1);
    assert WriteAt([Some(1)], 1, Some(2)) == [Some(1), Some(2)];
  }

  /** Category names are only text: a metric literally prefixed
      "no_category/" shares the row of the metrics without '/', and a name
      starting with '/' lands in a row named by the empty string. */
  lemma CategoryEdgeCases()
    ensures Category("no_category/x") == Category("loss")
    ensures Category("/x") == ""
  {
    assert '/' !in "loss";
    assert "no_category/x" == NoCategory + "/" + "x";
    BeforeSlashOf(NoCategory, "x");
    assert "/x" == "" + "/" + "x";
    BeforeSlashOf("", "x");
  }
}
