# Measure normalisation and alignment for MIR-lab, in Dafny

This project models the core of a MIDI preprocessing pipeline for
performance-to-score learning (`Data_Prep_3.py` and `Data_Merge_Final.py`).

- **Normalising a performance.** The pipeline reads beat annotations into a
  list of downbeat times. It resolves the score's time signatures into a
  normalised length per measure, at 120 beats per minute. It then maps every
  MIDI note into "normalised time": the note is placed in the measure whose
  downbeat is the last one at or before its onset, its position inside the
  measure is rescaled to the measure's normalised length, and the result is
  shifted by the normalised lengths of all earlier measures. Every row is
  then labelled with a time signature.
- **Aligning and splitting.** The pipeline pairs a performance's note table
  with the score's note table of the same piece, measure by measure. It
  discovers the pieces of the corpus, and splits them into train, test and
  validation sets. A fixed list of pieces is forced into the test set.

Modules:

- `Common`: Option and Result, a stable sort by a real key, and the
  ascending set of a list of integers (`sorted(set(...))`).
- `Downbeats`: `load_downbeats`.
- `TimeSignatures`:
  - change-point dedup;
  - `sig_to_duration`;
  - the duration table `sig_map`;
  - the label lookup `get_sig`.
- `NoteNormalizer`:
  - `extract_notes`: end times, `bisect_right`, placement and the final sort;
  - `assign_time_signature`.
- `MeasureMerge`: `merge_perf_pure`.
- `Partition`:
  - piece discovery;
  - the forced-test, 50/40/10 partition;
  - flattening the pieces into file lists.

Each loop of the source is a method that is either proved equal to a
specification function or characterised by the properties it promises. For
example, the change-point dedup is specified by strict ascent and
first-occurrence, and the note extraction by "sorted by onset and a
permutation of the placed records". The properties are proved about those
functions.

Where the code and its description differ, the model follows the code:

- **Notes past the last measure are kept.** A note starting at or after the
  synthetic end of the last measure is not dropped. It stays in the last
  measure (`NoteNormalizer.MeasureContainment`), because the
  `idx >= len(end_times)` guard can never fire
  (`NoteNormalizer.LookupGuardNeverFires`).
- **A single downbeat fails the whole file.** The degenerate last measure of
  a single-downbeat file has real length 0. Any note in it makes the division
  fail, so the file yields no table. The same happens when the last two
  downbeats coincide, and only then (`NoteNormalizer.EmptyMeasureIsLast`).
- **The downbeat list can start before 0.0.** It holds 0.0, but a negative
  annotated timestamp sorts before it (`Downbeats.DownbeatTimesContents`).
- **An empty note table is an error.** When no note is placed, the note table
  is empty and has no `onset` column to sort by. The model returns the error
  `NoNotes` there.
- **The split is 50/40/10.** The closing comment of `Data_Merge_Final.py`
  (lines 133-137) describes an 80/10/10 split. The code splits 50/40/10
  (`Partition.ExampleSplitSizes`).
- **Forced pieces are matched by normalised name.** Pieces are dropped from
  the remaining list by their normalised name (lines 50-51), but the forced
  names themselves go into test (line 59). A piece whose normalised name is
  forced but whose own name is not on the forced list would land in no list
  at all (`Partition.ExampleUnlistedForcedName`). `Partition.EachPieceOnce` and `Partition.EachFileOnce` therefore
  assume that a piece is forced exactly when its normalised name is forced.
  This holds in the program, because `os.path.relpath` returns normalised
  paths and the fixed forced list is written in normalised form.
- **Labels before the first change point differ.** For measures before the
  first change point, the signature label is that of the first change point,
  while the duration uses 4/4 (`TimeSignatures.LabelAgreesWithDuration`).

## Model

| member | source | states |
|---|---|---|
| Common.SortBy | Data_Prep_3.py:26 | the sorted list is a permutation of the input (same multiset, same length) and is ascending by the key; the same sort models the change-point sort by measure (Data_Prep_3.py:54) and the sort of the note table by onset (Data_Prep_3.py:120) |
| Common.SortedDistinct | Data_Merge_Final.py:92 | the result is strictly ascending and holds exactly the members of the input |
| Common.AscendingUnique | Data_Merge_Final.py:92 | two strictly ascending lists with the same members are equal: the sorted intersection is determined by its members |
| Downbeats.DownbeatTimes | Data_Prep_3.py:17-26 | the returned downbeat list is ascending and never empty |
| Downbeats.LoadDownbeats | Data_Prep_3.py:12-26 | the line loop followed by the sort returns exactly 0.0 plus the timestamp of every contributing line, sorted |
| Downbeats.DownbeatTimesContents | Data_Prep_3.py:17-26 | the list is sorted, starts at or before 0.0, contains 0.0, has length 1 plus the number of collected timestamps, and as a multiset is 0.0 plus those timestamps (duplicates kept) |
| Downbeats.StampsMembership | Data_Prep_3.py:19-25 | a timestamp is collected exactly when some line has at least three fields, "db" in the third and a first field that parses to it; no other line adds one |
| Downbeats.ContributingLinesMembers | Data_Prep_3.py:21-23 | an index is a contributing line exactly when that line passes the field filter and its first field parses |
| Downbeats.StampsCount | Data_Prep_3.py:21-25 | exactly one timestamp per contributing line |
| TimeSignatures.FirstIndex | Data_Prep_3.py:50-53 | the position found holds measure m and no earlier change point has measure m |
| TimeSignatures.FirstIndexAt | Data_Prep_3.py:51-53 | a change point with no earlier point of the same measure is the first one for its measure |
| TimeSignatures.DedupChangePoints | Data_Prep_3.py:50-55 | the result's measures strictly increase, its measure set is the input's, and each kept change point is the first one in document order for its measure |
| TimeSignatures.SigToDuration | Data_Prep_3.py:72-79 | no signature or a zero beat unit gives 2.0; otherwise duration times beat unit equals 2 times beats, i.e. 0.5 * beats * 4 / beat unit |
| TimeSignatures.NormalizedDurations | Data_Prep_3.py:77 | 4/4 lasts 2.0, 3/4 lasts 1.5 and 6/8 lasts 1.5 normalised seconds |
| TimeSignatures.LastAtOrBefore | Data_Prep_3.py:85-88 | the reversed scan finds a change point of the list at or before measure k, and finds none exactly when every change point is after k |
| TimeSignatures.LastAtOrBeforeIsGreatest | Data_Prep_3.py:85-88 | on change points sorted by measure, the one found has the greatest measure at or before k |
| TimeSignatures.BuildSigMap | Data_Prep_3.py:81-89 | the table has keys exactly 1..n and maps each to the duration of the last change point at or before it, or of 4/4 when none precedes it; the carried-over signature never changes that |
| TimeSignatures.PrefixAtOrBefore | Data_Prep_3.py:136-140 | the leading run of change points at or before m, and the point after it (if any) is later than m |
| TimeSignatures.GetSig | Data_Prep_3.py:133-141 | the early-exit loop returns the signature of the last point of that leading run, or the first point's signature when the run is empty |
| TimeSignatures.PrefixAtOrBeforeUnique | Data_Prep_3.py:136-140 | the leading run is the only prefix at or before m that ends at a later point or at the end |
| TimeSignatures.LastAtOrBeforeEndsRun | Data_Prep_3.py:85-88 | on sorted change points, the reversed scan of `sig_map` stops at the last point of the leading run `get_sig` walks |
| TimeSignatures.LabelAgreesWithDuration | Data_Prep_3.py:133-141 | from the first change point on, a measure's label is the signature its duration came from; before it the label is the first point's signature while the duration uses 4/4 |
| NoteNormalizer.EndTimes | Data_Prep_3.py:67-69 | same length as the downbeats; each end is the next downbeat; the last is the last downbeat plus the last interval, or the only downbeat itself |
| NoteNormalizer.CountAtMostSplits | Data_Prep_3.py:95 | on sorted downbeats, the downbeats before the count are at or before t and those after it are later |
| NoteNormalizer.BisectRight | Data_Prep_3.py:95 | the halving search returns the position after every element at or before x and before every later one, which is the count of elements at or before x |
| NoteNormalizer.SplitPointUnique | Data_Prep_3.py:95 | only one position splits a list into elements at or before x and later elements |
| NoteNormalizer.LookupGuardNeverFires | Data_Prep_3.py:96 | the measure index is always below the number of end times: the second guard never skips a note |
| NoteNormalizer.MeasureContainment | Data_Prep_3.py:95-97 | a note is dropped exactly when its onset is before the first downbeat; otherwise its downbeat is at or before the onset and it is the last measure or the next downbeat is later; a note past the synthetic end stays in the last measure |
| NoteNormalizer.NonNegativeOnsetLands | Data_Prep_3.py:17 | because 0.0 is always a downbeat, no note with a non-negative onset is dropped |
| NoteNormalizer.EmptyMeasureIsLast | Data_Prep_3.py:98-102 | the division by a zero real length happens exactly for a note at or after the last downbeat when there is one downbeat or the last two coincide |
| NoteNormalizer.Kept | Data_Prep_3.py:95-97 | the kept notes are input notes that land in a measure |
| NoteNormalizer.KeptMembers | Data_Prep_3.py:95-97 | a note is kept exactly when it is an input note that lands in a measure: every note the guard does not skip is kept |
| NoteNormalizer.Outcome | Data_Prep_3.py:94-118 | one note is dropped exactly when it does not land, and hits an empty measure exactly when its measure has zero real length |
| NoteNormalizer.NormalizeNote | Data_Prep_3.py:94-118 | the loop body (bisection, guards, rescaling and the record) gives the outcome of the note |
| NoteNormalizer.PlacementsOfKept | Data_Prep_3.py:92-118 | with no empty measure hit, there is one record per kept note, in order, each the note placed in the measure bisection found |
| NoteNormalizer.PlacementsAppend | Data_Prep_3.py:92-93 | the records of two note lists in a row are the records of the first followed by those of the second |
| NoteNormalizer.PlaceNotes | Data_Prep_3.py:93-118 | one instrument's notes fail exactly when one hits a measure of zero real length (a ZeroMeasureDuration error); otherwise the records are those of the placed notes, in order |
| NoteNormalizer.ExtractNotes | Data_Prep_3.py:58-120 | a note in an empty measure fails the file; no placed note gives NoNotes; otherwise the table is sorted by onset and is a permutation of the placed records of all instruments |
| NoteNormalizer.AssignTimeSignature | Data_Prep_3.py:122-144 | rows are unchanged and in order; with no change points every label is empty, otherwise each row carries the `get_sig` label of its measure |
| NoteNormalizer.MeasureStartMonotone | Data_Prep_3.py:108 | with no negative durations, measure starts never decrease |
| NoteNormalizer.MeasureStartUniform | Data_Prep_3.py:108 | under 4/4 throughout, measure k starts at 2(k-1) |
| NoteNormalizer.SigDurationsPositive | Data_Prep_3.py:81-89 | with positive signatures every duration in the table is positive |
| NoteNormalizer.RescaleMonotone | Data_Prep_3.py:102-105 | rescaling into a measure keeps the order of times |
| NoteNormalizer.RescaleInside | Data_Prep_3.py:102-104 | a time inside the real measure lands inside [0, normalised length) |
| NoteNormalizer.WidthNonNegative | Data_Prep_3.py:98-99 | on sorted downbeats no real measure length is negative |
| NoteNormalizer.PlaceSpan | Data_Prep_3.py:107-117 | a record placed in measure k carries k and the note name; its span starts at the sum of the earlier durations and ends where measure k+1 starts |
| NoteNormalizer.PlaceOnsetInside | Data_Prep_3.py:101-114 | an onset inside its real measure gives a normalised onset in [measure start, measure end) |
| NoteNormalizer.PlaceKeepsOrder | Data_Prep_3.py:102-115 | a note that does not end before it starts gets an offset not before its onset |
| NoteNormalizer.PlacedInItsMeasure | Data_Prep_3.py:95-118 | a placed note's record is the note placed in the measure bisection found, whose downbeat is at or before the onset |
| NoteNormalizer.MeasuresTile | Data_Prep_3.py:108-109 | measure k's end equals measure k+1's start |
| NoteNormalizer.ExampleCommonTime | Data_Prep_3.py:67-118 | downbeats 0, 2, 4 under 4/4: a note from 2.5 to 3.0 gives measure 2, onset 2.5, offset 3.0, span 2.0 to 4.0 |
| NoteNormalizer.ExampleThreeFour | Data_Prep_3.py:72-118 | the same downbeats under 3/4: a note from 3.0 to 4.0 gives measure 2, onset 2.25, offset 3.0, span 1.5 to 3.0 |
| MeasureMerge.CommonMeasures | Data_Merge_Final.py:92 | the common measures are strictly ascending |
| MeasureMerge.Section | Data_Merge_Final.py:95-96 | a section holds only rows of the table with measure m |
| MeasureMerge.SectionMembers | Data_Merge_Final.py:95-96 | a section is non-empty exactly when the table has the measure, and holds every row of that measure |
| MeasureMerge.SharedMeasuresMembers | Data_Merge_Final.py:92 | a measure is shared exactly when both tables have it |
| MeasureMerge.CommonMeasuresMembers | Data_Merge_Final.py:92-99 | the emitted measures are exactly those both tables have, and each has performed and score rows, so the first-row lookup succeeds |
| MeasureMerge.PerfRows | Data_Merge_Final.py:103-107 | one tuple per performed row, in row order: note, onset minus measure start, offset minus onset, measure length |
| MeasureMerge.ScoreRows | Data_Merge_Final.py:110-114 | one tuple per score row, in row order: note, onset and offset minus the performed measure start |
| MeasureMerge.MergePerfPure | Data_Merge_Final.py:81-123 | no score table gives no samples; otherwise one sample per common measure, ascending, built from that measure's sections with the first performed row's span |
| MeasureMerge.ExampleCommonMeasures | Data_Merge_Final.py:92 | performed measures 1, 2, 3, 5 and score measures 1, 3, 4 give exactly the measures 1 and 3, in that order |
| Partition.PerfFiles | Data_Merge_Final.py:25-27 | a directory's collected files are exactly its `.csv` files other than the score table |
| Partition.FilesOfMembers | Data_Merge_Final.py:22-27 | a file is collected for a piece exactly when it is a performance table of a directory of that piece that holds `midi_score.csv` |
| Partition.FilesOfPiece | Data_Merge_Final.py:24-27 | every file collected for a piece lies in that piece's directory |
| Partition.AppendPerfFiles | Data_Merge_Final.py:25-27 | the inner loop appends a directory's performance tables to its piece only, keeping every key non-empty and listed once |
| Partition.DiscoverPieces | Data_Merge_Final.py:20-30 | a piece is a key exactly when some file was collected for it, its list is those files in walk order, and the key list holds each key once |
| Partition.Remaining | Data_Merge_Final.py:50-51 | a piece remains exactly when it is in the shuffled list and its normalised name is not a forced one |
| Partition.RemainingNoDuplicates | Data_Merge_Final.py:51 | filtering keeps a duplicate-free piece list duplicate-free |
| Partition.PartitionPieces | Data_Merge_Final.py:54-60 | train has floor(n*0.5) pieces, test has the forced pieces plus floor(n*0.4), validation the rest |
| Partition.PortionsFit | Data_Merge_Final.py:54-56 | both portions are non-negative and together at most n |
| Partition.ExampleSplitSizes | Data_Merge_Final.py:54-56 | ten remaining pieces split 5/4/1 and seven split 3/2/2 |
| Partition.PartitionShape | Data_Merge_Final.py:58-60 | the three lists are the slices [0, nTrain), the forced list followed by [nTrain, nTrain+nTest), and [nTrain+nTest, n) of the remaining pieces |
| Partition.PartitionSlices | Data_Merge_Final.py:58-60 | test starts with the forced pieces, and train, the rest of test and validation concatenate to the remaining pieces |
| Partition.ForcedOnlyInTest | Data_Merge_Final.py:50-60 | a piece whose normalised name is forced is in neither train nor validation, whatever the shuffle |
| Partition.EachPieceOnce | Data_Merge_Final.py:50-60 | on a duplicate-free shuffled list, each piece is in exactly one of the three lists, provided the piece is on the forced list exactly when its normalised name is a forced one |
| Partition.ExampleUnlistedForcedName | Data_Merge_Final.py:50-59 | a piece "a/" normalising to the forced name "a" is in none of the three lists, so the condition of `EachPieceOnce` is needed |
| Partition.ListsDisjoint | Data_Merge_Final.py:50-60 | on a duplicate-free shuffled list the train, test and validation lists are pairwise disjoint |
| Partition.PieceFilesMembers | Data_Merge_Final.py:63-65 | a file is listed exactly when a listed piece that was discovered has it; undiscovered pieces add nothing |
| Partition.PieceFilesOfPiece | Data_Merge_Final.py:63-65 | a discovered piece's file is listed exactly when the piece is listed |
| Partition.EachFileOnce | Data_Merge_Final.py:20-65 | every file of a discovered, shuffled piece lands in exactly one of the train, test and validation file lists, under the same condition on forced names |

## Left out

- File and console I/O are not modelled: reading annotation files, MusicXML parsing (`ET.parse`), MIDI decoding (`pretty_midi`), CSV reading and writing, `json.dumps`, `print` and `os.makedirs`. Annotation lines arrive split into fields, change points as (measure, beats, beat unit) triples, and notes as (pitch, start, end) per instrument.
- `float(...)` on an annotation field is the parameter `parse`, and `note_number_to_name` is the parameter `name`.
- Signatures are modelled as integer pairs. The source builds the text "beats/beat_type" from two integers and parses it back, so the only malformed case that reaches `sig_to_duration` is a zero beat unit. The XML half of `extract_time_signatures` (lines 34-47) is not part of this model.
- Times are exact reals. Floating-point rounding and `round(..., 5)` are not modelled; every property is stated on unrounded values.
- `NoteNormalizer.ExtractNotes`: states that the table is sorted by onset and is a permutation of the placed records, not the order among equal onsets, because the pandas default sort is not stable.
- Exceptions other than the division by a zero measure length and the sort of an empty table are not modelled. Examples: unreadable files, a missing `beats` element. Catching per file in `main` (lines 147-182) is orchestration, and is left out with the rest of `main`.
- `os.walk` is modelled as its output: a list of (piece, file names) directories in walk order. `os.path.relpath` and `os.path.join` are the pair of piece and file name. `os.path.normpath` is the parameter `norm`.
- `random.seed` and `random.shuffle` are not modelled: the partition starts from the shuffled piece list.
- `int(n * 0.5)` and `int(n * 0.4)` are the exact floors. They agree with the double computation for any realistic n, since n*0.4 is never within rounding distance of an integer it does not equal.
- `write_list` (lines 67-79) and the batch loop that concatenates and writes the merged tables (lines 126-131) are left out: they only format and write what the model computes.
- `MeasureMerge.MergePerfPure` takes the two tables as the note rows the normaliser produces. The `time_signature` column is not read by the merge, so it is absent. The existence check of the score file is the `Option` of the score table.
