/** Time signatures in Data_Prep_3.py: the per-measure change points of a
    score, the normalised duration a signature gives a measure, the table of
    normalised durations by measure number (`sig_map`), and the signature
    label of a measure (`get_sig` inside `assign_time_signature`). */
module TimeSignatures {
  import opened Common

  /** A time signature: `beats` beats of unit `beatType`. The source writes it
      as the text "beats/beatType" of two integers and reads it back the same
      way, so the pair is kept. */
  datatype Sig = Sig(beats: int, beatType: int)

  /** The signature a measure has when no change point precedes it. */
  const CommonTime: Sig := Sig(4, 4)

  /** A measure number of the score and the signature declared in it. */
  datatype ChangePoint = ChangePoint(measure: int, sig: Sig)

  function MeasureKey(p: ChangePoint): real { p.measure as real }

  function Measures(ps: seq<ChangePoint>): set<int> {
    set p | p in ps :: p.measure
  }

  /** Measure numbers strictly increase along `ps`. */
  ghost predicate StrictlyAscending(ps: seq<ChangePoint>) {
    forall i, j :: 0 <= i < j < |ps| ==> ps[i].measure < ps[j].measure
  }

  /** The position of the first change point for measure `m`, in document order. */
  function FirstIndex(ps: seq<ChangePoint>, m: int): (i: nat)
    requires m in Measures(ps)
    ensures i < |ps| && ps[i].measure == m
    ensures forall j :: 0 <= j < i ==> ps[j].measure != m
  {
    if ps[0].measure == m then 0
    else
      assert m in Measures(ps[1..]) by {
        var p :| p in ps && p.measure == m;
        assert p in ps[1..] by {
          assert ps == [ps[0]] + ps[1..];
        }
      }
      1 + FirstIndex(ps[1..], m)
  }

  /** A change point that no earlier one shares a measure with is the first for its measure. */
  lemma FirstIndexAt(ps: seq<ChangePoint>, i: nat)
    requires i < |ps|
    requires forall j :: 0 <= j < i ==> ps[j].measure != ps[i].measure
    ensures ps[i].measure in Measures(ps)
    ensures FirstIndex(ps, ps[i].measure) == i
  {
    assert ps[i] in ps;
  }

  /** What the first-occurrence dictionary holds after the first `i` change
      points: their measures as keys, and as items (in insertion order) the
      first change point of each measure. */
  ghost predicate FirstOccurrences(points: seq<ChangePoint>, i: nat, unique: map<int, Sig>, items: seq<ChangePoint>)
    requires i <= |points|
  {
    && unique.Keys == Measures(points[..i]) == Measures(items)
    && (forall p :: p in items ==> p.measure in unique && unique[p.measure] == p.sig)
    && (forall p :: p in items ==> p.measure in Measures(points) && p == points[FirstIndex(points, p.measure)])
    && NoDuplicates(items)
  }

  /** A change point whose measure is already a key leaves the dictionary as it is. */
  lemma FirstOccurrencesKeep(points: seq<ChangePoint>, i: nat, unique: map<int, Sig>, items: seq<ChangePoint>)
    requires i < |points| && FirstOccurrences(points, i, unique, items)
    requires points[i].measure in unique
    ensures FirstOccurrences(points, i + 1, unique, items)
  {
    assert points[..i + 1] == points[..i] + [points[i]];
  }

  /** A change point with a new measure is the first for it, and is added. */
  lemma FirstOccurrencesAdd(points: seq<ChangePoint>, i: nat, unique: map<int, Sig>, items: seq<ChangePoint>)
    requires i < |points| && FirstOccurrences(points, i, unique, items)
    requires points[i].measure !in unique
    ensures FirstOccurrences(points, i + 1, unique[points[i].measure := points[i].sig], items + [points[i]])
  {
    var m := points[i].measure;
    assert points[..i + 1] == points[..i] + [points[i]];
    forall j | 0 <= j < i ensures points[j].measure != m {
      assert points[j] in points[..i];
    }
    FirstIndexAt(points, i);
  }

  /** Keeps the first change point seen for each measure number (a dictionary
      filled in document order) and sorts the survivors by measure number. */
  method DedupChangePoints(points: seq<ChangePoint>) returns (sortedPoints: seq<ChangePoint>)
    ensures StrictlyAscending(sortedPoints)
    ensures Measures(sortedPoints) == Measures(points)
    ensures forall p :: p in sortedPoints ==>
      p.measure in Measures(points) && p == points[FirstIndex(points, p.measure)]
  {
    var unique: map<int, Sig> := map[];
    var items: seq<ChangePoint> := [];  // the dictionary's items, in insertion order
    var i := 0;
    while i < |points|
      invariant 0 <= i <= |points|
      invariant FirstOccurrences(points, i, unique, items)
    {
      var m, sig := points[i].measure, points[i].sig;
      if m !in unique {
        FirstOccurrencesAdd(points, i, unique, items);
        unique := unique[m := sig];
        items := items + [points[i]];
      } else {
        FirstOccurrencesKeep(points, i, unique, items);
      }
      i := i + 1;
    }
    assert points[..i] == points;
    sortedPoints := SortBy(items, MeasureKey);
    SortedDistinctMeasures(items, sortedPoints);
  }

  /** Sorting change points with pairwise distinct measures by measure makes
      the measures strictly increase. */
  lemma SortedDistinctMeasures(items: seq<ChangePoint>, sorted: seq<ChangePoint>)
    requires multiset(items) == multiset(sorted)
    requires SortedBy(sorted, MeasureKey) && NoDuplicates(items)
    requires forall p, q :: p in items && q in items && p.measure == q.measure ==> p == q
    ensures StrictlyAscending(sorted)
    ensures forall p :: p in sorted <==> p in items
  {
    PermutationKeepsNoDuplicates(items, sorted);
    SameElements(items, sorted);
    forall a, b | 0 <= a < b < |sorted|
      ensures sorted[a].measure < sorted[b].measure
    {
      assert MeasureKey(sorted[a]) <= MeasureKey(sorted[b]);
      assert sorted[a] in items && sorted[b] in items;
    }
  }

  /** `sig_to_duration`: the length in seconds of a measure of signature `ts`
      at the reference tempo of 120 beats per minute, quarter-note beats. An
      absent signature, or a zero beat unit (a division by zero the source
      catches), counts as 4/4. */
  function SigToDuration(ts: Option<Sig>): (d: real)
    ensures ts.None? || ts.value.beatType == 0 ==> d == 2.0
    ensures ts.Some? && ts.value.beatType != 0 ==>
      d * ts.value.beatType as real == 2.0 * ts.value.beats as real
  {
    match ts
    case None => 2.0
    case Some(s) =>
      if s.beatType == 0 then 2.0
      else
        var b, t := s.beats as real, s.beatType as real;
        assert (60.0 / 120.0) * b * (4.0 / t) * t == 2.0 * b;
        (60.0 / 120.0) * b * (4.0 / t)
  }

  /** 4/4 lasts 2.0 normalised seconds and 3/4 lasts 1.5. */
  lemma NormalizedDurations()
    ensures SigToDuration(Some(CommonTime)) == 2.0
    ensures SigToDuration(Some(Sig(3, 4))) == 1.5
    ensures SigToDuration(Some(Sig(6, 8))) == 1.5
  {
  }

  /** Scanning `ts` from its last change point backwards, the first one whose
      measure is at or before `k` (the reversed scan that fills `sig_map`). */
  function LastAtOrBefore(ts: seq<ChangePoint>, k: int): (r: Option<ChangePoint>)
    ensures r.Some? ==> r.value in ts && r.value.measure <= k
    ensures r.None? <==> forall p :: p in ts ==> k < p.measure
  {
    if ts == [] then None
    else if ts[|ts| - 1].measure <= k then Some(ts[|ts| - 1])
    else
      assert ts == ts[..|ts| - 1] + [ts[|ts| - 1]];
      LastAtOrBefore(ts[..|ts| - 1], k)
  }

  /** The signature that governs the duration of measure `k`: that of the
      change point found by the reversed scan, or 4/4 when none is found. */
  function EffectiveSig(ts: seq<ChangePoint>, k: int): Sig {
    match LastAtOrBefore(ts, k)
    case Some(p) => p.sig
    case None => CommonTime
  }

  /** On change points sorted by measure, the reversed scan finds the one with
      the greatest measure at or before `k`. */
  lemma {:induction false} LastAtOrBeforeIsGreatest(ts: seq<ChangePoint>, k: int)
    requires StrictlyAscending(ts)
    requires LastAtOrBefore(ts, k).Some?
    ensures forall j :: 0 <= j < |ts| && ts[j].measure <= k ==>
      ts[j].measure <= LastAtOrBefore(ts, k).value.measure
  {
    var n := |ts| - 1;
    if ts[n].measure > k {
      var init := ts[..n];
      assert forall j :: 0 <= j < n ==> init[j] == ts[j];
      assert StrictlyAscending(init);
      assert LastAtOrBefore(ts, k) == LastAtOrBefore(init, k);
      LastAtOrBeforeIsGreatest(init, k);
    } else {
      assert forall j :: 0 <= j < n ==> ts[j].measure < ts[n].measure;
    }
  }

  /** Fills `sig_map`: for every measure number 1..n, the normalised duration
      of its signature. The scan result carries over from one measure to the
      next; it only ever matters while no change point has been reached, and
      then it is still 4/4. */
  method BuildSigMap(n: nat, ts: seq<ChangePoint>) returns (sigMap: map<int, real>)
    ensures sigMap == SigDurations(n, ts)
  {
    sigMap := map[];
    var lastSig := CommonTime;
    var i := 0;
    while i < n
      invariant 0 <= i <= n
      invariant forall k :: k in sigMap <==> 1 <= k <= i
      invariant forall k :: 1 <= k <= i ==> sigMap[k] == SigToDuration(Some(EffectiveSig(ts, k)))
      invariant LastAtOrBefore(ts, i).None? ==> lastSig == CommonTime
    {
      var measureNum := i + 1;
      var j := |ts|;
      assert ts[..j] == ts;
      while j > 0
        invariant 0 <= j <= |ts|
        invariant LastAtOrBefore(ts, measureNum) == LastAtOrBefore(ts[..j], measureNum)
        invariant LastAtOrBefore(ts, i).None? ==> lastSig == CommonTime
      {
        assert ts[..j][..j - 1] == ts[..j - 1];
        if measureNum >= ts[j - 1].measure {
          lastSig := ts[j - 1].sig;
          break;
        }
        j := j - 1;
      }
      assert lastSig == EffectiveSig(ts, measureNum);
      sigMap := sigMap[measureNum := SigToDuration(Some(lastSig))];
      i := i + 1;
    }
  }

  /** The table `sig_map` holds after its loop: measures 1..n, each mapped to
      the normalised duration of its effective signature. */
  function SigDurations(n: nat, ts: seq<ChangePoint>): map<int, real> {
    map k | 1 <= k <= n :: SigToDuration(Some(EffectiveSig(ts, k)))
  }

  /** Length of the longest prefix of `ts` whose measures are all at or before `m`. */
  function PrefixAtOrBefore(ts: seq<ChangePoint>, m: int): (k: nat)
    ensures k <= |ts|
    ensures forall j :: 0 <= j < k ==> ts[j].measure <= m
    ensures k < |ts| ==> m < ts[k].measure
  {
    if ts == [] || m < ts[0].measure then 0
    else 1 + PrefixAtOrBefore(ts[1..], m)
  }

  /** The label `get_sig` gives measure `m`: the signature of the last change
      point in the leading run whose measures are at or before `m`, or the
      first change point's when that run is empty. */
  function LabelSig(ts: seq<ChangePoint>, m: int): Sig
    requires ts != []
  {
    var k := PrefixAtOrBefore(ts, m);
    if k == 0 then ts[0].sig else ts[k - 1].sig
  }

  /** `get_sig`: walks the change points in order, taking each whose measure
      is at or before `m`, and stops at the first that is not. */
  method GetSig(ts: seq<ChangePoint>, m: int) returns (sig: Sig)
    requires ts != []
    ensures sig == LabelSig(ts, m)
  {
    sig := ts[0].sig;
    var i := 0;
    while i < |ts|
      invariant 0 <= i <= |ts|
      invariant forall j :: 0 <= j < i ==> ts[j].measure <= m
      invariant sig == if i == 0 then ts[0].sig else ts[i - 1].sig
    {
      if m >= ts[i].measure {
        sig := ts[i].sig;
      } else {
        break;
      }
      i := i + 1;
    }
    assert PrefixAtOrBefore(ts, m) == i;
  }

  /** The leading run is the only prefix whose measures are at or before `m`
      and that stops at a later measure or at the end. */
  lemma PrefixAtOrBeforeUnique(ts: seq<ChangePoint>, m: int, k: nat)
    requires k <= |ts|
    requires forall j :: 0 <= j < k ==> ts[j].measure <= m
    requires k < |ts| ==> m < ts[k].measure
    ensures PrefixAtOrBefore(ts, m) == k
  {
    var p := PrefixAtOrBefore(ts, m);
    var q := if p < k then p else k;
    assert q < |ts| ==> (q < p <==> ts[q].measure <= m);
    assert q < |ts| ==> (q < k <==> ts[q].measure <= m);
  }

  /** On sorted change points the reversed scan stops exactly where the
      leading run of `get_sig` ends. */
  lemma {:induction false} LastAtOrBeforeEndsRun(ts: seq<ChangePoint>, m: int)
    requires StrictlyAscending(ts)
    ensures var k := PrefixAtOrBefore(ts, m);
      LastAtOrBefore(ts, m) == if k == 0 then None else Some(ts[k - 1])
  {
    if ts != [] {
      var n := |ts| - 1;
      if ts[n].measure <= m {
        assert forall j :: 0 <= j < n ==> ts[j].measure < ts[n].measure;
        PrefixAtOrBeforeUnique(ts, m, |ts|);
      } else {
        var init := ts[..n];
        assert StrictlyAscending(init) by {
          assert forall j :: 0 <= j < n ==> init[j] == ts[j];
        }
        LastAtOrBeforeEndsRun(init, m);
        EndsRunStep(ts, m);
      }
    }
  }

  /** The step of `LastAtOrBeforeEndsRun` when the last change point is past
      `m`: dropping it changes neither the scan nor the leading run. */
  lemma EndsRunStep(ts: seq<ChangePoint>, m: int)
    requires ts != [] && m < ts[|ts| - 1].measure
    requires var init := ts[..|ts| - 1]; var k := PrefixAtOrBefore(init, m);
      LastAtOrBefore(init, m) == if k == 0 then None else Some(init[k - 1])
    ensures var k := PrefixAtOrBefore(ts, m);
      LastAtOrBefore(ts, m) == if k == 0 then None else Some(ts[k - 1])
  {
    var n := |ts| - 1;
    var init := ts[..n];
    var k := PrefixAtOrBefore(init, m);
    assert forall j :: 0 <= j < k ==> ts[j].measure <= m by {
      assert forall j :: 0 <= j < k ==> init[j] == ts[j];
    }
    assert k < |ts| ==> m < ts[k].measure by {
      assert k < n ==> init[k] == ts[k];
    }
    PrefixAtOrBeforeUnique(ts, m, k);
    assert k > 0 ==> init[k - 1] == ts[k - 1];
  }

  /** The two signature lookups of the source agree from the first change
      point on: a measure's label is the signature its duration was computed
      from. Before the first change point they part: the label falls back to
      the first change point's signature, the duration to 4/4. */
  lemma LabelAgreesWithDuration(ts: seq<ChangePoint>, m: int)
    requires ts != [] && StrictlyAscending(ts)
    ensures ts[0].measure <= m ==> LabelSig(ts, m) == EffectiveSig(ts, m)
    ensures m < ts[0].measure ==> LabelSig(ts, m) == ts[0].sig && EffectiveSig(ts, m) == CommonTime
  {
    LastAtOrBeforeEndsRun(ts, m);
  }
}
