/** Measure alignment (`merge_perf_pure` in Data_Merge_Final.py): a
    performance's note table and the score's note table of the same piece are
    cut into measures, and every measure present in both becomes one sample
    whose `x` describes the performed notes and whose `y` the score notes,
    both relative to the start of the performed measure. The tables are the
    rows the note normaliser writes; the time-signature column is not read. */
module MeasureMerge {
  import opened Common
  import opened NoteNormalizer

  /** A performed note: name, onset after the measure start, length, and the
      length of the measure. */
  datatype PerfTuple = PerfTuple(note: string, relOnset: real, duration: real, measureDur: real)

  /** A score note: name, onset and offset after the performed measure start. */
  datatype ScoreTuple = ScoreTuple(note: string, relOnset: real, relOffset: real)

  /** One training sample: the performance table it came from, the measure,
      and the two note lists. */
  datatype Sample = Sample(perfCsv: string, measure: int, x: seq<PerfTuple>, y: seq<ScoreTuple>)

  /** The measure column of a table, in row order. */
  function MeasureColumn(rows: seq<NoteRecord>): (ms: seq<int>)
    ensures |ms| == |rows|
    ensures forall i :: 0 <= i < |rows| ==> ms[i] == rows[i].measure
  {
    seq(|rows|, i requires 0 <= i < |rows| => rows[i].measure)
  }

  /** The performance measures that the score also has, with repeats. */
  function SharedMeasures(perf: seq<NoteRecord>, score: seq<NoteRecord>): seq<int> {
    if perf == [] then []
    else
      var m := perf[|perf| - 1].measure;
      SharedMeasures(perf[..|perf| - 1], score) + if m in MeasureColumn(score) then [m] else []
  }

  /** The measures both tables have, ascending: the sorted intersection of
      their measure sets. */
  function CommonMeasures(perf: seq<NoteRecord>, score: seq<NoteRecord>): (ms: seq<int>)
    ensures forall i, j :: 0 <= i < j < |ms| ==> ms[i] < ms[j]
  {
    SortedDistinct(SharedMeasures(perf, score))
  }

  /** `df[df['measure'] == m]`: the rows of measure `m`, in row order. */
  function Section(rows: seq<NoteRecord>, m: int): (sec: seq<NoteRecord>)
    ensures forall r :: r in sec ==> r in rows && r.measure == m
  {
    if rows == [] then []
    else
      var last := rows[|rows| - 1];
      Section(rows[..|rows| - 1], m) + if last.measure == m then [last] else []
  }

  /** The `x` list of a performed measure whose first row starts at `ms` and
      ends at `me`. */
  function PerfFeatures(sec: seq<NoteRecord>, ms: real, me: real): (x: seq<PerfTuple>)
    ensures |x| == |sec|
  {
    seq(|sec|, j requires 0 <= j < |sec| =>
      PerfTuple(sec[j].note, sec[j].onset - ms, sec[j].offset - sec[j].onset, me - ms))
  }

  /** The `y` list of a score measure, against the performed measure start `ms`. */
  function ScoreFeatures(sec: seq<NoteRecord>, ms: real): (y: seq<ScoreTuple>)
    ensures |y| == |sec|
  {
    seq(|sec|, j requires 0 <= j < |sec| =>
      ScoreTuple(sec[j].note, sec[j].onset - ms, sec[j].offset - ms))
  }

  /** The sample of measure `m`, as a value; the performed section must not be
      empty, since its first row gives the measure's span. */
  function SampleOf(perfCsv: string, perf: seq<NoteRecord>, score: seq<NoteRecord>, m: int): Sample
    requires Section(perf, m) != []
  {
    var first := Section(perf, m)[0];
    Sample(perfCsv, m,
      PerfFeatures(Section(perf, m), first.measureStart, first.measureEnd),
      ScoreFeatures(Section(score, m), first.measureStart))
  }

  /** A measure is in a table's section exactly when some row has it. */
  lemma {:induction false} SectionMembers(rows: seq<NoteRecord>, m: int)
    ensures Section(rows, m) != [] <==> m in MeasureColumn(rows)
    ensures forall i :: 0 <= i < |rows| && rows[i].measure == m ==> rows[i] in Section(rows, m)
  {
    if rows != [] {
      var init := rows[..|rows| - 1];
      SectionMembers(init, m);
      assert forall i :: 0 <= i < |init| ==> init[i] == rows[i];
      assert m in MeasureColumn(rows) <==> m in MeasureColumn(init) || rows[|rows| - 1].measure == m by {
        if m in MeasureColumn(rows) {
          var i :| 0 <= i < |rows| && MeasureColumn(rows)[i] == m;
          if i < |init| {
            assert MeasureColumn(init)[i] == m;
          }
        }
        if m in MeasureColumn(init) {
          var i :| 0 <= i < |init| && MeasureColumn(init)[i] == m;
          assert MeasureColumn(rows)[i] == m;
        }
      }
    }
  }

  /** A measure is shared exactly when both tables have it. */
  lemma {:induction false} SharedMeasuresMembers(perf: seq<NoteRecord>, score: seq<NoteRecord>, m: int)
    ensures m in SharedMeasures(perf, score) <==> m in MeasureColumn(perf) && m in MeasureColumn(score)
  {
    if perf != [] {
      var init := perf[..|perf| - 1];
      SharedMeasuresMembers(init, score, m);
      SectionMembers(perf, m);
      SectionMembers(init, m);
      assert Section(perf, m) != [] <==> Section(init, m) != [] || perf[|perf| - 1].measure == m;
    }
  }

  /** The emitted measures are exactly those both tables have, and every one
      has performed rows, so the first-row lookup always succeeds. */
  lemma CommonMeasuresMembers(perf: seq<NoteRecord>, score: seq<NoteRecord>, m: int)
    ensures m in CommonMeasures(perf, score) <==> m in MeasureColumn(perf) && m in MeasureColumn(score)
    ensures m in CommonMeasures(perf, score) ==> Section(perf, m) != [] && Section(score, m) != []
  {
    SharedMeasuresMembers(perf, score, m);
    SectionMembers(perf, m);
    SectionMembers(score, m);
  }

  /** The loop that builds `x`: one tuple per performed row, in row order. */
  method PerfRows(perfSec: seq<NoteRecord>, measureStart: real, measureEnd: real)
    returns (xList: seq<PerfTuple>)
    ensures xList == PerfFeatures(perfSec, measureStart, measureEnd)
  {
    var measureDur := measureEnd - measureStart;
    xList := [];
    for j := 0 to |perfSec|
      invariant |xList| == j
      invariant forall k :: 0 <= k < j ==> xList[k] == PerfFeatures(perfSec, measureStart, measureEnd)[k]
    {
      var row := perfSec[j];
      var relOnset := row.onset - measureStart;
      var duration := row.offset - row.onset;
      xList := xList + [PerfTuple(row.note, relOnset, duration, measureDur)];
    }
  }

  /** The loop that builds `y`: one tuple per score row, in row order. */
  method ScoreRows(pureSec: seq<NoteRecord>, measureStart: real) returns (yList: seq<ScoreTuple>)
    ensures yList == ScoreFeatures(pureSec, measureStart)
  {
    yList := [];
    for j := 0 to |pureSec|
      invariant |yList| == j
      invariant forall k :: 0 <= k < j ==> yList[k] == ScoreFeatures(pureSec, measureStart)[k]
    {
      var row := pureSec[j];
      var relOnset := row.onset - measureStart;
      var relOffset := row.offset - measureStart;
      yList := yList + [ScoreTuple(row.note, relOnset, relOffset)];
    }
  }

  /** `merge_perf_pure`: with no score table beside the performance table
      there are no samples; otherwise one sample per common measure, in
      ascending measure order, built row by row. */
  method MergePerfPure(perfCsv: string, perf: seq<NoteRecord>, score: Option<seq<NoteRecord>>)
    returns (records: seq<Sample>)
    ensures score.None? ==> records == []
    ensures score.Some? ==>
      var ms := CommonMeasures(perf, score.value);
      && |records| == |ms|
      && forall i :: 0 <= i < |ms| ==>
        Section(perf, ms[i]) != [] && records[i] == SampleOf(perfCsv, perf, score.value, ms[i])
  {
    if score.None? {
      return [];
    }
    var pure := score.value;
    var measures := CommonMeasures(perf, pure);
    records := [];
    var i := 0;
    while i < |measures|
      invariant 0 <= i <= |measures|
      invariant |records| == i
      invariant forall k :: 0 <= k < i ==>
        Section(perf, measures[k]) != [] && records[k] == SampleOf(perfCsv, perf, pure, measures[k])
    {
      var m := measures[i];
      CommonMeasuresMembers(perf, pure, m);
      var perfSec := Section(perf, m);
      var pureSec := Section(pure, m);
      var measureStart := perfSec[0].measureStart;
      var measureEnd := perfSec[0].measureEnd;
      var xList := PerfRows(perfSec, measureStart, measureEnd);
      var yList := ScoreRows(pureSec, measureStart);
      records := records + [Sample(perfCsv, m, xList, yList)];
      i := i + 1;
    }
  }

  /** A performance with measures 1, 2, 3, 5 and a score with measures 1, 3,
      4 share measures 1 and 3, which become the samples, in that order. */
  lemma ExampleCommonMeasures(note: string)
    ensures var row := (m: int) => NoteRecord(m, note, 0.0, 0.0, 0.0, 0.0);
      CommonMeasures([row(1), row(2), row(3), row(5)], [row(1), row(3), row(4)]) == [1, 3]
  {
    var row := (m: int) => NoteRecord(m, note, 0.0, 0.0, 0.0, 0.0);
    var perf := [row(1), row(2), row(3), row(5)];
    var score := [row(1), row(3), row(4)];
    assert MeasureColumn(perf) == [1, 2, 3, 5];
    assert MeasureColumn(score) == [1, 3, 4];
    forall x ensures x in CommonMeasures(perf, score) <==> x in [1, 3] {
      CommonMeasuresMembers(perf, score, x);
    }
    AscendingUnique(CommonMeasures(perf, score), [1, 3]);
  }
}
