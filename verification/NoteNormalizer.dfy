/** The note normaliser (`extract_notes` and `assign_time_signature` in
    Data_Prep_3.py). Every note of every instrument is placed in the measure
    whose downbeat is the last one at or before its onset; its onset and offset
    are rescaled from that measure's real length to the measure's normalised
    length and shifted by the normalised lengths of all earlier measures. A
    measure of zero real length stops the whole file (the source divides by
    it). MIDI decoding and `note_number_to_name` are outside the model: notes
    arrive decoded, and the pitch naming is the parameter `name`. */
module NoteNormalizer {
  import opened Common
  import opened Downbeats
  import opened TimeSignatures

  /** A decoded MIDI note: pitch number, start and end in seconds. */
  datatype Note = Note(pitch: int, start: real, end: real)

  /** One row of the per-file note table. */
  datatype NoteRecord = NoteRecord(
    measure: int,
    note: string,
    onset: real,
    offset: real,
    measureStart: real,
    measureEnd: real)

  /** A row of the note table with its time-signature label. */
  datatype LabelledRecord = LabelledRecord(rec: NoteRecord, timeSignature: Option<Sig>)

  /** Why a file yields no table: a note fell in a measure of zero real
      length (numbered from 1), or no note was placed at all (an empty table
      has no onset column to sort by). */
  datatype Error = ZeroMeasureDuration(measure: int) | NoNotes

  function OnsetKey(r: NoteRecord): real { r.onset }

  /** The real end of every measure: the next downbeat, and for the last
      measure the last downbeat plus the last interval (zero when there is a
      single downbeat). */
  function EndTimes(d: seq<real>): (e: seq<real>)
    requires |d| >= 1
    ensures |e| == |d|
    ensures forall i :: 0 <= i < |d| - 1 ==> e[i] == d[i + 1]
    ensures e[|d| - 1] == if |d| == 1 then d[0] else d[|d| - 1] + (d[|d| - 1] - d[|d| - 2])
  {
    var lastInterval := if |d| >= 2 then d[|d| - 1] - d[|d| - 2] else 0.0;
    d[1..] + [d[|d| - 1] + lastInterval]
  }

  /** The real length of measure `idx + 1`. */
  function Width(d: seq<real>, idx: nat): real
    requires idx < |d|
  {
    EndTimes(d)[idx] - d[idx]
  }

  /** How many downbeats are at or before `t`. */
  function CountAtMost(d: seq<real>, t: real): (c: nat)
    ensures c <= |d|
  {
    if d == [] then 0
    else CountAtMost(d[..|d| - 1], t) + if d[|d| - 1] <= t then 1 else 0
  }

  /** On sorted downbeats the count splits them: those before it are at or
      before `t`, those after it are later. */
  lemma {:induction false} CountAtMostSplits(d: seq<real>, t: real)
    requires SortedBy(d, Id)
    ensures forall i :: 0 <= i < CountAtMost(d, t) ==> d[i] <= t
    ensures forall i :: CountAtMost(d, t) <= i < |d| ==> t < d[i]
  {
    if d != [] {
      var n := |d| - 1;
      var init := d[..n];
      assert forall i :: 0 <= i < n ==> init[i] == d[i];
      assert SortedBy(init, Id);
      CountAtMostSplits(init, t);
      if d[n] <= t {
        assert forall i :: 0 <= i < n ==> Id(d[i]) <= Id(d[n]);
      }
    }
  }

  /** `bisect.bisect_right`: the insertion point after every element at or
      before `x`, found by halving. */
  method BisectRight(a: seq<real>, x: real) returns (lo: nat)
    requires SortedBy(a, Id)
    ensures lo <= |a|
    ensures forall i :: 0 <= i < lo ==> a[i] <= x
    ensures forall i :: lo <= i < |a| ==> x < a[i]
    ensures lo == CountAtMost(a, x)
  {
    lo := 0;
    var hi := |a|;
    while lo < hi
      invariant 0 <= lo <= hi <= |a|
      invariant forall i :: 0 <= i < lo ==> a[i] <= x
      invariant forall i :: hi <= i < |a| ==> x < a[i]
    {
      var mid := (lo + hi) / 2;
      if x < a[mid] {
        assert forall i :: mid <= i < |a| ==> Id(a[mid]) <= Id(a[i]);
        hi := mid;
      } else {
        assert forall i :: 0 <= i <= mid ==> Id(a[i]) <= Id(a[mid]);
        lo := mid + 1;
      }
    }
    CountAtMostSplits(a, x);
    SplitPointUnique(a, x, lo, CountAtMost(a, x));
  }

  /** Only one position splits a sequence into elements at or before `x` and
      elements after it. */
  lemma SplitPointUnique(a: seq<real>, x: real, p: nat, q: nat)
    requires p <= |a| && q <= |a|
    requires forall i :: 0 <= i < p ==> a[i] <= x
    requires forall i :: p <= i < |a| ==> x < a[i]
    requires forall i :: 0 <= i < q ==> a[i] <= x
    requires forall i :: q <= i < |a| ==> x < a[i]
    ensures p == q
  {
    var m := if p < q then p else q;
    assert m < |a| ==> (m < p <==> a[m] <= x);
    assert m < |a| ==> (m < q <==> a[m] <= x);
  }

  /** The note's measure, found by bisection, is never past the end-time list:
      the source's second bound check cannot fire. */
  lemma LookupGuardNeverFires(d: seq<real>, t: real)
    requires |d| >= 1
    ensures CountAtMost(d, t) - 1 < |EndTimes(d)|
  {
  }

  /** Measure containment: a note is dropped exactly when its onset is before
      the first downbeat; otherwise its measure starts at or before the onset,
      and either is the last measure or the next downbeat is later. A note
      past the synthetic end of the last measure stays in the last measure. */
  lemma MeasureContainment(d: seq<real>, t: real)
    requires SortedBy(d, Id) && |d| >= 1
    ensures CountAtMost(d, t) == 0 <==> t < d[0]
    ensures var c := CountAtMost(d, t);
      c > 0 ==> d[c - 1] <= t && (c == |d| || t < d[c])
    ensures t >= EndTimes(d)[|d| - 1] ==> CountAtMost(d, t) == |d|
  {
    CountAtMostSplits(d, t);
    if |d| >= 2 {
      assert Id(d[|d| - 2]) <= Id(d[|d| - 1]);
    }
  }

  /** Since the downbeat list always holds 0.0, a note starting at or after
      time zero is never dropped. */
  lemma NonNegativeOnsetLands(lines: seq<Line>, parse: string -> Option<real>, n: Note)
    requires n.start >= 0.0
    ensures Lands(DownbeatTimes(lines, parse), n)
  {
    DownbeatTimesContents(lines, parse);
    MeasureContainment(DownbeatTimes(lines, parse), n.start);
  }

  /** `sig_map.get(k, 2.0)`. */
  function Lookup(durations: map<int, real>, k: int): real {
    if k in durations then durations[k] else 2.0
  }

  /** The normalised start of measure `k`: the normalised lengths of
      measures 1 .. k-1, summed. */
  function MeasureStart(durations: map<int, real>, k: int): real
    decreases k
  {
    if k <= 1 then 0.0 else MeasureStart(durations, k - 1) + Lookup(durations, k - 1)
  }

  /** A time `t` in a real span starting at `start` and `width` long, taken
      relative to the span and stretched to a span `len` long. */
  function Rescale(t: real, start: real, width: real, len: real): real
    requires width != 0.0
  {
    (t - start) / width * len
  }

  /** The record of note `n` placed in measure `idx + 1`. */
  function Place(d: seq<real>, durations: map<int, real>, name: int -> string, n: Note, idx: nat): NoteRecord
    requires idx < |d| && Width(d, idx) != 0.0
  {
    var realStart := d[idx];
    var realDuration := Width(d, idx);
    var normDuration := Lookup(durations, idx + 1);
    var measureStart := MeasureStart(durations, idx + 1);
    NoteRecord(
      idx + 1,
      name(n.pitch),
      Rescale(n.start, realStart, realDuration, normDuration) + measureStart,
      Rescale(n.end, realStart, realDuration, normDuration) + measureStart,
      measureStart,
      measureStart + normDuration)
  }

  /** The note lands in a measure (its onset is not before the first downbeat). */
  predicate Lands(d: seq<real>, n: Note) {
    CountAtMost(d, n.start) > 0
  }

  /** The note lands in a measure of zero real length. */
  predicate HitsEmptyMeasure(d: seq<real>, n: Note) {
    Lands(d, n) && Width(d, CountAtMost(d, n.start) - 1) == 0.0
  }

  /** The notes that land in a measure, in input order. */
  function Kept(d: seq<real>, notes: seq<Note>): (ks: seq<Note>)
    ensures forall n :: n in ks ==> n in notes && Lands(d, n)
  {
    if notes == [] then []
    else
      var n := notes[|notes| - 1];
      Kept(d, notes[..|notes| - 1]) + if Lands(d, n) then [n] else []
  }

  /** A note is kept exactly when it is one of the input notes and lands in
      a measure: no landing note is lost. */
  lemma {:induction false} KeptMembers(d: seq<real>, notes: seq<Note>, n: Note)
    ensures n in Kept(d, notes) <==> n in notes && Lands(d, n)
  {
    if notes != [] {
      var init := notes[..|notes| - 1];
      var last := notes[|notes| - 1];
      KeptMembers(d, init, n);
      assert notes == init + [last];
    }
  }

  /** What happens to one note: it lands before the first downbeat and is
      dropped, it lands in a measure of zero real length, or it is placed. */
  datatype NoteOutcome = Dropped | Placed(rec: NoteRecord) | InEmptyMeasure(measure: int)

  /** The outcome of one note, as a value. */
  function Outcome(d: seq<real>, durations: map<int, real>, name: int -> string, n: Note): (o: NoteOutcome)
    requires |d| >= 1
    ensures o.Dropped? <==> !Lands(d, n)
    ensures o.InEmptyMeasure? <==> HitsEmptyMeasure(d, n)
  {
    var c := CountAtMost(d, n.start);
    if c == 0 then Dropped
    else if Width(d, c - 1) == 0.0 then InEmptyMeasure(c)
    else Placed(Place(d, durations, name, n, c - 1))
  }

  /** Bisection never picks an inner measure of zero real length (a repeated
      downbeat): the division by zero happens exactly for a note starting at
      or after the last downbeat when there is a single downbeat or the last
      two coincide. */
  lemma EmptyMeasureIsLast(d: seq<real>, n: Note)
    requires SortedBy(d, Id) && |d| >= 1
    ensures HitsEmptyMeasure(d, n) <==>
      d[|d| - 1] <= n.start && (|d| == 1 || d[|d| - 2] == d[|d| - 1])
  {
    var c := CountAtMost(d, n.start);
    MeasureContainment(d, n.start);
    CountAtMostSplits(d, n.start);
    if c == |d| {
      assert d[|d| - 1] <= n.start;
    } else if c > 0 {
      assert d[c - 1] <= n.start < d[c];
      assert Width(d, c - 1) > 0.0;
    }
  }

  /** No note lands in a measure of zero real length. */
  ghost predicate NoneEmpty(d: seq<real>, notes: seq<Note>) {
    forall k :: 0 <= k < |notes| ==> !HitsEmptyMeasure(d, notes[k])
  }

  /** The records of the placed notes, in input order. */
  function Placements(d: seq<real>, durations: map<int, real>, name: int -> string, notes: seq<Note>): seq<NoteRecord>
    requires |d| >= 1
  {
    if notes == [] then []
    else
      var o := Outcome(d, durations, name, notes[|notes| - 1]);
      Placements(d, durations, name, notes[..|notes| - 1]) + if o.Placed? then [o.rec] else []
  }

  /** When no note lands in an empty measure, there is exactly one record
      per kept note, and it is that note placed in its measure. */
  lemma {:induction false} PlacementsOfKept(d: seq<real>, durations: map<int, real>, name: int -> string, notes: seq<Note>)
    requires |d| >= 1
    requires NoneEmpty(d, notes)
    ensures var ks := Kept(d, notes); var rs := Placements(d, durations, name, notes);
      && |rs| == |ks|
      && forall k :: 0 <= k < |ks| ==>
        && Lands(d, ks[k]) && !HitsEmptyMeasure(d, ks[k])
        && rs[k] == Place(d, durations, name, ks[k], CountAtMost(d, ks[k].start) - 1)
  {
    if notes != [] {
      var init := notes[..|notes| - 1];
      assert forall k :: 0 <= k < |init| ==> init[k] == notes[k];
      PlacementsOfKept(d, durations, name, init);
      var ks := Kept(d, notes);
      assert forall k :: 0 <= k < |ks| ==> ks[k] in notes;
    }
  }

  /** The notes of all instruments, instrument by instrument. */
  function Flatten(instruments: seq<seq<Note>>): seq<Note> {
    if instruments == [] then []
    else Flatten(instruments[..|instruments| - 1]) + instruments[|instruments| - 1]
  }

  lemma {:induction false} FlattenHas(instruments: seq<seq<Note>>, i: nat, n: Note)
    requires i < |instruments| && n in instruments[i]
    ensures n in Flatten(instruments)
  {
    var last := |instruments| - 1;
    if i < last {
      assert instruments[..last][i] == instruments[i];
      FlattenHas(instruments[..last], i, n);
    }
  }

  /** A note of instrument `i` in an empty measure is one of all the notes. */
  lemma FlattenNotEmpty(d: seq<real>, instruments: seq<seq<Note>>, i: nat)
    requires i < |instruments| && !NoneEmpty(d, instruments[i])
    ensures !NoneEmpty(d, Flatten(instruments))
  {
    var k :| 0 <= k < |instruments[i]| && HitsEmptyMeasure(d, instruments[i][k]);
    FlattenHas(instruments, i, instruments[i][k]);
  }

  /** The body of the note loop of `extract_notes`: find the note's measure by
      bisection, skip it when there is none, fail on a measure of zero real
      length, and otherwise rescale its onset and offset into the measure's
      normalised span. */
  method NormalizeNote(
    downbeats: seq<real>, endTimes: seq<real>, sigMap: map<int, real>,
    name: int -> string, note: Note)
    returns (outcome: NoteOutcome)
    requires SortedBy(downbeats, Id) && |downbeats| >= 1
    requires endTimes == EndTimes(downbeats)
    ensures outcome == Outcome(downbeats, sigMap, name, note)
  {
    var onset, offset := note.start, note.end;
    var pos := BisectRight(downbeats, onset);
    var idx := pos as int - 1;
    if idx < 0 || idx >= |endTimes| {
      return Dropped;
    }
    var realStart, realEnd := downbeats[idx], endTimes[idx];
    var realDuration := realEnd - realStart;
    assert realDuration == Width(downbeats, idx);
    if realDuration == 0.0 {
      return InEmptyMeasure(idx + 1);
    }
    var normDuration := Lookup(sigMap, idx + 1);
    var normOnset := (onset - realStart) / realDuration * normDuration;
    var normOffset := (offset - realStart) / realDuration * normDuration;
    assert normOnset == Rescale(onset, realStart, realDuration, normDuration);
    assert normOffset == Rescale(offset, realStart, realDuration, normDuration);
    var measureNum := idx + 1;
    var measureStart := MeasureStart(sigMap, measureNum);
    var measureEnd := measureStart + normDuration;
    var rec := NoteRecord(measureNum, name(note.pitch), normOnset + measureStart,
                          normOffset + measureStart, measureStart, measureEnd);
    assert rec == Place(downbeats, sigMap, name, note, idx);
    outcome := Placed(rec);
  }

  /** The records of `a + b` are those of `a` followed by those of `b`. */
  lemma {:induction false} PlacementsAppend(d: seq<real>, durations: map<int, real>, name: int -> string, a: seq<Note>, b: seq<Note>)
    requires |d| >= 1
    ensures Placements(d, durations, name, a + b)
      == Placements(d, durations, name, a) + Placements(d, durations, name, b)
  {
    if b != [] {
      var b' := b[..|b| - 1];
      assert (a + b)[..|a + b| - 1] == a + b';
      PlacementsAppend(d, durations, name, a, b');
    } else {
      assert a + b == a;
    }
  }

  /** One more note: its record, if placed, follows those of the notes
      before it, and it keeps or breaks "no empty measure". */
  lemma PlacementsStep(d: seq<real>, durations: map<int, real>, name: int -> string, notes: seq<Note>, j: nat)
    requires |d| >= 1 && j < |notes|
    ensures var o := Outcome(d, durations, name, notes[j]);
      Placements(d, durations, name, notes[..j + 1])
        == Placements(d, durations, name, notes[..j]) + if o.Placed? then [o.rec] else []
    ensures NoneEmpty(d, notes[..j]) && !HitsEmptyMeasure(d, notes[j]) ==> NoneEmpty(d, notes[..j + 1])
    ensures HitsEmptyMeasure(d, notes[j]) ==> !NoneEmpty(d, notes)
  {
    assert notes[..j + 1][..j] == notes[..j];
  }

  /** The inner loop of `extract_notes`: the notes of one instrument, in
      order, stopping at the first that lands in a measure of zero real length. */
  method PlaceNotes(
    downbeats: seq<real>, endTimes: seq<real>, sigMap: map<int, real>,
    name: int -> string, notes: seq<Note>)
    returns (result: Result<seq<NoteRecord>, Error>)
    requires SortedBy(downbeats, Id) && |downbeats| >= 1
    requires endTimes == EndTimes(downbeats)
    ensures result.Failure? <==> !NoneEmpty(downbeats, notes)
    ensures result.Failure? ==> result.error.ZeroMeasureDuration?
    ensures result.Success? ==> result.value == Placements(downbeats, sigMap, name, notes)
  {
    var records: seq<NoteRecord> := [];
    var j := 0;
    while j < |notes|
      invariant 0 <= j <= |notes|
      invariant NoneEmpty(downbeats, notes[..j])
      invariant records == Placements(downbeats, sigMap, name, notes[..j])
    {
      var note := notes[j];
      var outcome := NormalizeNote(downbeats, endTimes, sigMap, name, note);
      PlacementsStep(downbeats, sigMap, name, notes, j);
      if outcome.InEmptyMeasure? {
        return Failure(ZeroMeasureDuration(outcome.measure));
      }
      if outcome.Placed? {
        records := records + [outcome.rec];
      }
      j := j + 1;
    }
    assert notes[..j] == notes;
    result := Success(records);
  }

  /** `extract_notes`: loads the downbeats, derives the end times and the
      duration table, places every note of every instrument and sorts the
      records by onset. A note in a measure of zero real length makes the
      whole file fail, and so does a file in which no note is placed. */
  method ExtractNotes(
    lines: seq<Line>, parse: string -> Option<real>, ts: seq<ChangePoint>,
    instruments: seq<seq<Note>>, name: int -> string)
    returns (result: Result<seq<NoteRecord>, Error>)
    ensures var d := DownbeatTimes(lines, parse);
      !NoneEmpty(d, Flatten(instruments)) ==>
        result.Failure? && result.error.ZeroMeasureDuration?
    ensures var d := DownbeatTimes(lines, parse);
      var placed := Placements(d, SigDurations(|d|, ts), name, Flatten(instruments));
      NoneEmpty(d, Flatten(instruments)) && placed == [] ==> result == Failure(NoNotes)
    ensures var d := DownbeatTimes(lines, parse);
      var placed := Placements(d, SigDurations(|d|, ts), name, Flatten(instruments));
      NoneEmpty(d, Flatten(instruments)) && placed != [] ==>
        && result.Success?
        && SortedBy(result.value, OnsetKey)
        && multiset(result.value) == multiset(placed)
  {
    var downbeats := LoadDownbeats(lines, parse);
    var endTimes := EndTimes(downbeats);
    var sigMap := BuildSigMap(|downbeats|, ts);
    var records: seq<NoteRecord> := [];
    var i := 0;
    while i < |instruments|
      invariant 0 <= i <= |instruments|
      invariant NoneEmpty(downbeats, Flatten(instruments[..i]))
      invariant records == Placements(downbeats, sigMap, name, Flatten(instruments[..i]))
    {
      var placed := PlaceNotes(downbeats, endTimes, sigMap, name, instruments[i]);
      assert instruments[..i + 1][..i] == instruments[..i];
      if placed.Failure? {
        FlattenNotEmpty(downbeats, instruments, i);
        return Failure(placed.error);
      }
      PlacementsAppend(downbeats, sigMap, name, Flatten(instruments[..i]), instruments[i]);
      records := records + placed.value;
      i := i + 1;
    }
    assert instruments[..i] == instruments;
    if records == [] {
      return Failure(NoNotes);
    }
    result := Success(SortBy(records, OnsetKey));
  }

  /** `assign_time_signature`: with no change points every row is labelled
      with no signature; otherwise each row gets the label `get_sig` gives its
      measure. The rows themselves are unchanged. */
  method AssignTimeSignature(rows: seq<NoteRecord>, ts: seq<ChangePoint>)
    returns (labelled: seq<LabelledRecord>)
    ensures |labelled| == |rows|
    ensures forall i :: 0 <= i < |rows| ==> labelled[i].rec == rows[i]
    ensures ts == [] ==> forall i :: 0 <= i < |rows| ==> labelled[i].timeSignature == None
    ensures ts != [] ==> forall i :: 0 <= i < |rows| ==>
      labelled[i].timeSignature == Some(LabelSig(ts, rows[i].measure))
  {
    if ts == [] {
      labelled := seq(|rows|, i requires 0 <= i < |rows| => LabelledRecord(rows[i], None));
      return;
    }
    labelled := [];
    var i := 0;
    while i < |rows|
      invariant 0 <= i <= |rows|
      invariant |labelled| == i
      invariant forall k :: 0 <= k < i ==>
        labelled[k] == LabelledRecord(rows[k], Some(LabelSig(ts, rows[k].measure)))
    {
      var sig := GetSig(ts, rows[i].measure);
      labelled := labelled + [LabelledRecord(rows[i], Some(sig))];
      i := i + 1;
    }
  }

  /** Measure starts never decrease when no measure has a negative length. */
  lemma {:induction false} MeasureStartMonotone(durations: map<int, real>, j: int, k: int)
    requires forall m :: m in durations ==> durations[m] >= 0.0
    requires j <= k
    ensures MeasureStart(durations, j) <= MeasureStart(durations, k)
    decreases k - j
  {
    if j < k {
      MeasureStartMonotone(durations, j, k - 1);
    }
  }

  /** Under 4/4 throughout, measure `k` starts at 2(k-1) normalised seconds. */
  lemma {:induction false} MeasureStartUniform(durations: map<int, real>, k: int)
    requires forall m :: 1 <= m < k ==> Lookup(durations, m) == 2.0
    ensures k >= 1 ==> MeasureStart(durations, k) == 2.0 * (k - 1) as real
    decreases k
  {
    if k > 1 {
      MeasureStartUniform(durations, k - 1);
    }
  }

  /** With positive signatures every duration in the table is positive. */
  lemma SigDurationsPositive(n: nat, ts: seq<ChangePoint>)
    requires forall p :: p in ts ==> p.sig.beats > 0 && p.sig.beatType > 0
    ensures forall k :: k in SigDurations(n, ts) ==> SigDurations(n, ts)[k] > 0.0
  {
    forall k | k in SigDurations(n, ts) ensures SigDurations(n, ts)[k] > 0.0 {
      var s := EffectiveSig(ts, k);
      assert s.beats > 0 && s.beatType > 0;
      var d := SigToDuration(Some(s));
      assert d * s.beatType as real > 0.0;
    }
  }

  /** Rescaling keeps the order of times. */
  lemma RescaleMonotone(t: real, u: real, start: real, w: real, len: real)
    requires w > 0.0 && len >= 0.0 && t <= u
    ensures Rescale(t, start, w, len) <= Rescale(u, start, w, len)
  {
    var a, b := t - start, u - start;
    assert a / w <= b / w;
    assert b / w * len - a / w * len == (b / w - a / w) * len;
  }

  /** A time inside the real span lands inside the stretched span. */
  lemma RescaleInside(t: real, start: real, w: real, len: real)
    requires w > 0.0 && len > 0.0 && start <= t < start + w
    ensures 0.0 <= Rescale(t, start, w, len) < len
  {
    var a := t - start;
    assert 0.0 <= a / w < w / w;
    assert w / w == 1.0;
    assert len - a / w * len == (1.0 - a / w) * len;
    assert (1.0 - a / w) * len > 0.0;
  }

  /** On sorted downbeats no measure has a negative real length. */
  lemma WidthNonNegative(d: seq<real>, idx: nat)
    requires SortedBy(d, Id) && idx < |d|
    ensures Width(d, idx) >= 0.0
  {
    if idx + 1 < |d| {
      assert Id(d[idx]) <= Id(d[idx + 1]);
    } else if idx >= 1 {
      assert Id(d[idx - 1]) <= Id(d[idx]);
    }
  }

  /** A record placed in measure `idx + 1` carries that measure and the
      note's name, and its span starts where the earlier measures end and
      ends where the next measure starts. */
  lemma PlaceSpan(d: seq<real>, durations: map<int, real>, name: int -> string, n: Note, idx: nat)
    requires idx < |d| && Width(d, idx) != 0.0
    ensures var r := Place(d, durations, name, n, idx);
      && r.measure == idx + 1
      && r.note == name(n.pitch)
      && r.measureStart == MeasureStart(durations, idx + 1)
      && r.measureEnd == MeasureStart(durations, idx + 2)
  {
  }

  /** A note starting inside the real span of its measure starts inside the
      measure's normalised span. */
  lemma PlaceOnsetInside(d: seq<real>, durations: map<int, real>, name: int -> string, n: Note, idx: nat)
    requires SortedBy(d, Id) && idx < |d| && Width(d, idx) != 0.0
    requires Lookup(durations, idx + 1) > 0.0
    requires d[idx] <= n.start < EndTimes(d)[idx]
    ensures var r := Place(d, durations, name, n, idx);
      r.measureStart <= r.onset < r.measureEnd
  {
    WidthNonNegative(d, idx);
    RescaleInside(n.start, d[idx], Width(d, idx), Lookup(durations, idx + 1));
  }

  /** A note that does not end before it starts gets an offset not before
      its onset. */
  lemma PlaceKeepsOrder(d: seq<real>, durations: map<int, real>, name: int -> string, n: Note, idx: nat)
    requires SortedBy(d, Id) && idx < |d| && Width(d, idx) != 0.0
    requires Lookup(durations, idx + 1) >= 0.0
    requires n.start <= n.end
    ensures var r := Place(d, durations, name, n, idx);
      r.onset <= r.offset
  {
    WidthNonNegative(d, idx);
    RescaleMonotone(n.start, n.end, d[idx], Width(d, idx), Lookup(durations, idx + 1));
  }

  /** A placed note is placed in the measure bisection finds for it, which
      starts at or before its onset. */
  lemma PlacedInItsMeasure(d: seq<real>, durations: map<int, real>, name: int -> string, n: Note)
    requires SortedBy(d, Id) && |d| >= 1
    requires Outcome(d, durations, name, n).Placed?
    ensures var c := CountAtMost(d, n.start);
      && 1 <= c <= |d| && d[c - 1] <= n.start
      && Width(d, c - 1) != 0.0
      && Outcome(d, durations, name, n).rec == Place(d, durations, name, n, c - 1)
  {
    MeasureContainment(d, n.start);
  }

  /** Consecutive measures tile the normalised time line. */
  lemma MeasuresTile(durations: map<int, real>, k: int)
    requires k >= 1
    ensures MeasureStart(durations, k) + Lookup(durations, k) == MeasureStart(durations, k + 1)
  {
  }

  /** A note half-way through the second of two 4/4 measures of two real
      seconds each stays half-way through it. */
  lemma ExampleCommonTime(name: int -> string)
    ensures Outcome([0.0, 2.0, 4.0], SigDurations(3, []), name, Note(60, 2.5, 3.0))
      == Placed(NoteRecord(2, name(60), 2.5, 3.0, 2.0, 4.0))
  {
    var d := [0.0, 2.0, 4.0];
    assert CountAtMost(d, 2.5) == 2 by {
      assert d[..2] == [0.0, 2.0] && d[..2][..1] == [0.0] && d[..2][..1][..0] == [];
    }
    assert SigToDuration(Some(CommonTime)) == 2.0;
    assert Lookup(SigDurations(3, []), 1) == 2.0;
    assert Lookup(SigDurations(3, []), 2) == 2.0;
  }

  /** Under 3/4 from the first measure, a note at the middle of the second
      measure sits at 1.5 + 0.75 normalised seconds. */
  lemma ExampleThreeFour(name: int -> string)
    ensures Outcome([0.0, 2.0, 4.0], SigDurations(3, [ChangePoint(1, Sig(3, 4))]), name, Note(60, 3.0, 4.0))
      == Placed(NoteRecord(2, name(60), 2.25, 3.0, 1.5, 3.0))
  {
    var d := [0.0, 2.0, 4.0];
    var ts := [ChangePoint(1, Sig(3, 4))];
    assert CountAtMost(d, 3.0) == 2 by {
      assert d[..2] == [0.0, 2.0] && d[..2][..1] == [0.0] && d[..2][..1][..0] == [];
    }
    assert EffectiveSig(ts, 1) == Sig(3, 4) && EffectiveSig(ts, 2) == Sig(3, 4);
    assert SigToDuration(Some(Sig(3, 4))) == 1.5;
    assert Lookup(SigDurations(3, ts), 1) == 1.5;
    assert Lookup(SigDurations(3, ts), 2) == 1.5;
  }
}
