/** Piece discovery and the piece-level train/test/validation split of
    Data_Merge_Final.py. Directories come as (piece, file names) pairs in walk
    order, the piece being the directory's path relative to the feature root;
    a file's path is the pair of its piece and its name. Shuffling is outside
    the model: the partition starts from the already shuffled piece list.
    Path normalisation is the parameter `norm`. */
module Partition {
  import opened Common

  /** A walked directory: its piece name and the names of its files. */
  datatype Dir = Dir(piece: string, files: seq<string>)

  /** The path of file `name` in the directory of `piece`. */
  datatype FilePath = FilePath(piece: string, name: string)

  /** The three piece lists of the split. */
  datatype Split = Split(train: seq<string>, test: seq<string>, val: seq<string>)

  /** The score table every piece directory holds. */
  const ScoreTable: string := "midi_score.csv"

  const CsvSuffix: string := ".csv"

  /** Fraction of the remaining pieces used for training, and for testing;
      validation gets the rest. */
  const TrainSplit: real := 0.5
  const TestSplit: real := 0.4

  predicate EndsWith(s: string, suffix: string) {
    |suffix| <= |s| && s[|s| - |suffix|..] == suffix
  }

  /** A performance table: a `.csv` file other than the score table. */
  predicate IsPerformanceCsv(name: string) {
    EndsWith(name, CsvSuffix) && name != ScoreTable
  }

  /** The performance tables among a directory's file names, in listing order. */
  function PerfFiles(piece: string, files: seq<string>): (fs: seq<FilePath>)
    ensures forall f :: f in fs <==> f.piece == piece && f.name in files && IsPerformanceCsv(f.name)
  {
    if files == [] then []
    else
      var init := files[..|files| - 1];
      var name := files[|files| - 1];
      assert forall n :: n in files <==> n in init || n == name by {
        assert files == init + [name];
      }
      PerfFiles(piece, init) + if IsPerformanceCsv(name) then [FilePath(piece, name)] else []
  }

  /** What one directory adds to the files of piece `p`. */
  function DirFiles(d: Dir, p: string): seq<FilePath> {
    if d.piece == p && ScoreTable in d.files then PerfFiles(p, d.files) else []
  }

  /** The files collected for `p`: the performance tables of every directory
      of piece `p` that holds a score table, in walk order. */
  function FilesOf(dirs: seq<Dir>, p: string): seq<FilePath> {
    if dirs == [] then []
    else FilesOf(dirs[..|dirs| - 1], p) + DirFiles(dirs[|dirs| - 1], p)
  }

  /** A file is collected for `p` exactly when it is a performance table of a
      directory of `p` that holds a score table. */
  lemma {:induction false} FilesOfMembers(dirs: seq<Dir>, p: string, f: FilePath)
    ensures f in FilesOf(dirs, p) <==>
      f.piece == p && IsPerformanceCsv(f.name) &&
      exists i :: 0 <= i < |dirs| && dirs[i].piece == p && ScoreTable in dirs[i].files && f.name in dirs[i].files
  {
    if dirs != [] {
      var n := |dirs| - 1;
      var init := dirs[..n];
      FilesOfMembers(init, p, f);
      assert forall i :: 0 <= i < n ==> init[i] == dirs[i];
      if f.piece == p && IsPerformanceCsv(f.name) &&
        exists i :: 0 <= i < |dirs| && dirs[i].piece == p && ScoreTable in dirs[i].files && f.name in dirs[i].files
      {
        var i :| 0 <= i < |dirs| && dirs[i].piece == p && ScoreTable in dirs[i].files && f.name in dirs[i].files;
        if i == n {
          assert f in DirFiles(dirs[n], p);
        }
      }
    }
  }

  /** Every collected file belongs to the piece it was collected for. */
  lemma FilesOfPiece(dirs: seq<Dir>, p: string)
    ensures forall f :: f in FilesOf(dirs, p) ==> f.piece == p
  {
    forall f | f in FilesOf(dirs, p) ensures f.piece == p {
      FilesOfMembers(dirs, p, f);
    }
  }

  /** The list a dictionary with a list default holds for `p`. */
  function Get(m: map<string, seq<FilePath>>, p: string): seq<FilePath> {
    if p in m then m[p] else []
  }

  /** The shape of the piece dictionary: every key has a file (keys are made
      by appending), and the key list holds each key once, in no other
      entries. */
  ghost predicate WellFormed(m: map<string, seq<FilePath>>, keys: seq<string>) {
    && (forall p :: p in m ==> m[p] != [])
    && (forall p :: p in keys <==> p in m)
    && NoDuplicates(keys)
  }

  /** `m2` is `m` with `added` appended to the list of `piece` and nothing
      else changed. */
  ghost predicate AppendedTo(m2: map<string, seq<FilePath>>, m: map<string, seq<FilePath>>, piece: string, added: seq<FilePath>) {
    forall p :: Get(m2, p) == Get(m, p) + if p == piece then added else []
  }

  /** One append to a dictionary with a list default keeps its shape. */
  lemma AppendKeepsShape(cur: map<string, seq<FilePath>>, keys: seq<string>, piece: string, f: FilePath)
    requires WellFormed(cur, keys)
    ensures WellFormed(cur[piece := Get(cur, piece) + [f]], if piece in cur then keys else keys + [piece])
  {
    if piece !in cur {
      var keys2 := keys + [piece];
      forall i, j | 0 <= i < j < |keys2| ensures keys2[i] != keys2[j] {
        if j == |keys| {
          assert keys2[i] == keys[i];
        } else {
          assert keys2[i] == keys[i] && keys2[j] == keys[j];
        }
      }
    }
  }

  /** One append extends what was appended so far by one file. */
  lemma AppendExtends(cur: map<string, seq<FilePath>>, m: map<string, seq<FilePath>>,
                      piece: string, done: seq<FilePath>, f: FilePath)
    requires AppendedTo(cur, m, piece, done)
    ensures AppendedTo(cur[piece := Get(cur, piece) + [f]], m, piece, done + [f])
  {
    var cur2 := cur[piece := Get(cur, piece) + [f]];
    forall p ensures Get(cur2, p) == Get(m, p) + if p == piece then done + [f] else [] {
      assert Get(cur, p) == Get(m, p) + if p == piece then done else [];
    }
  }

  /** The inner loop of the walk: append each performance table of one
      directory to its piece's list, creating the key on the first one. */
  method AppendPerfFiles(m: map<string, seq<FilePath>>, keys: seq<string>, piece: string, files: seq<string>)
    returns (m': map<string, seq<FilePath>>, keys': seq<string>)
    requires WellFormed(m, keys)
    ensures WellFormed(m', keys')
    ensures AppendedTo(m', m, piece, PerfFiles(piece, files))
  {
    m', keys' := m, keys;
    for j := 0 to |files|
      invariant WellFormed(m', keys')
      invariant AppendedTo(m', m, piece, PerfFiles(piece, files[..j]))
    {
      var f := files[j];
      assert files[..j + 1][..j] == files[..j];
      ghost var done := PerfFiles(piece, files[..j]);
      if EndsWith(f, CsvSuffix) && f != ScoreTable {
        AppendKeepsShape(m', keys', piece, FilePath(piece, f));
        AppendExtends(m', m, piece, done, FilePath(piece, f));
        if piece !in m' {
          keys' := keys' + [piece];
        }
        m' := m'[piece := Get(m', piece) + [FilePath(piece, f)]];
        assert PerfFiles(piece, files[..j + 1]) == done + [FilePath(piece, f)];
      } else {
        assert PerfFiles(piece, files[..j + 1]) == done;
      }
    }
    assert files[..|files|] == files;
  }

  /** The piece discovery walk: for every directory holding the score table,
      append each of its performance tables to the list of its piece. A piece
      key is created by its first appended file, so a directory with a score
      table but no performance table adds no piece. Returns the dictionary
      and its keys in insertion order. */
  method DiscoverPieces(dirs: seq<Dir>) returns (pieceToFiles: map<string, seq<FilePath>>, allPieces: seq<string>)
    ensures forall p :: p in pieceToFiles <==> FilesOf(dirs, p) != []
    ensures forall p :: p in pieceToFiles ==> pieceToFiles[p] == FilesOf(dirs, p)
    ensures forall p :: p in allPieces <==> p in pieceToFiles
    ensures NoDuplicates(allPieces)
  {
    pieceToFiles := map[];
    allPieces := [];
    for i := 0 to |dirs|
      invariant WellFormed(pieceToFiles, allPieces)
      invariant forall p :: Get(pieceToFiles, p) == FilesOf(dirs[..i], p)
    {
      var d := dirs[i];
      assert dirs[..i + 1][..i] == dirs[..i];
      ghost var before := pieceToFiles;
      if ScoreTable in d.files {
        pieceToFiles, allPieces := AppendPerfFiles(pieceToFiles, allPieces, d.piece, d.files);
      }
      forall p ensures Get(pieceToFiles, p) == FilesOf(dirs[..i + 1], p) {
        assert FilesOf(dirs[..i + 1], p) == FilesOf(dirs[..i], p) + DirFiles(d, p);
        assert Get(before, p) == FilesOf(dirs[..i], p);
      }
    }
    assert dirs[..|dirs|] == dirs;
    forall p ensures p in pieceToFiles <==> FilesOf(dirs, p) != [] {
      assert Get(pieceToFiles, p) == FilesOf(dirs, p);
    }
  }

  /** The normalised names of the forced test pieces. */
  function NormalizedForced(forced: seq<string>, norm: string -> string): set<string> {
    set p | p in forced :: norm(p)
  }

  /** The shuffled pieces whose normalised name is not a forced one, in
      shuffled order. */
  function Remaining(shuffled: seq<string>, nf: set<string>, norm: string -> string): (r: seq<string>)
    ensures forall p :: p in r <==> p in shuffled && norm(p) !in nf
  {
    if shuffled == [] then []
    else
      var p := shuffled[|shuffled| - 1];
      var init := shuffled[..|shuffled| - 1];
      assert forall q :: q in shuffled <==> q in init || q == p by {
        assert shuffled == init + [p];
      }
      Remaining(init, nf, norm) + if norm(p) !in nf then [p] else []
  }

  /** `int(n * x)` for a non-negative count and fraction. */
  function Portion(n: nat, x: real): int {
    (n as real * x).Floor
  }

  /** The split: the first half of the remaining pieces train, the forced
      pieces and the next four tenths test, the rest validation. */
  function PartitionPieces(shuffled: seq<string>, forced: seq<string>, norm: string -> string): (s: Split)
    ensures var r := Remaining(shuffled, NormalizedForced(forced, norm), norm);
      && |s.train| == Portion(|r|, TrainSplit)
      && |s.test| == |forced| + Portion(|r|, TestSplit)
      && |s.val| == |r| - Portion(|r|, TrainSplit) - Portion(|r|, TestSplit)
  {
    var remaining := Remaining(shuffled, NormalizedForced(forced, norm), norm);
    var n := |remaining|;
    var nTrain := Portion(n, TrainSplit);
    var nTest := Portion(n, TestSplit);
    PortionsFit(n);
    Split(remaining[..nTrain], forced + remaining[nTrain..nTrain + nTest], remaining[nTrain + nTest..])
  }

  /** The train and test sizes are non-negative and together at most n. */
  lemma PortionsFit(n: nat)
    ensures 0 <= Portion(n, TrainSplit) && 0 <= Portion(n, TestSplit)
    ensures Portion(n, TrainSplit) + Portion(n, TestSplit) <= n
  {
    var a, b := n as real * TrainSplit, n as real * TestSplit;
    assert a.Floor as real <= a && b.Floor as real <= b;
    assert (a.Floor + b.Floor) as real <= n as real;
  }

  /** The forced pieces come first in the test list, and the pieces after
      them, the train list and the validation list are consecutive slices
      that together make up the remaining pieces. */
  lemma PartitionSlices(shuffled: seq<string>, forced: seq<string>, norm: string -> string)
    ensures var s := PartitionPieces(shuffled, forced, norm);
      var r := Remaining(shuffled, NormalizedForced(forced, norm), norm);
      && s.test[..|forced|] == forced
      && s.train + s.test[|forced|..] + s.val == r
  {
    var s := PartitionPieces(shuffled, forced, norm);
    var r := Remaining(shuffled, NormalizedForced(forced, norm), norm);
    var nTrain, nTest := Portion(|r|, TrainSplit), Portion(|r|, TestSplit);
    PortionsFit(|r|);
    assert s.test[|forced|..] == r[nTrain..nTrain + nTest];
    assert r == r[..nTrain] + r[nTrain..nTrain + nTest] + r[nTrain + nTest..];
  }

  /** A piece whose normalised name is a forced one is in neither the train
      nor the validation list, whatever the shuffle. */
  lemma ForcedOnlyInTest(shuffled: seq<string>, forced: seq<string>, norm: string -> string, p: string)
    requires norm(p) in NormalizedForced(forced, norm)
    ensures var s := PartitionPieces(shuffled, forced, norm);
      p !in s.train && p !in s.val
  {
    var r := Remaining(shuffled, NormalizedForced(forced, norm), norm);
    PartitionShape(shuffled, forced, norm);
    assert p !in r;
    assert forall a, b :: 0 <= a <= b <= |r| ==> p !in r[a..b];
    assert r[..Portion(|r|, TrainSplit)] == r[0..Portion(|r|, TrainSplit)];
  }

  /** Ten remaining pieces split 5/4/1 and seven split 3/2/2: half train, two
      fifths test, the rest validation. */
  lemma ExampleSplitSizes()
    ensures Portion(10, TrainSplit) == 5 && Portion(10, TestSplit) == 4
    ensures Portion(7, TrainSplit) == 3 && Portion(7, TestSplit) == 2
  {
    assert (10 as real * TrainSplit) == 5.0;
    assert (10 as real * TestSplit) == 4.0;
    assert (7 as real * TrainSplit) == 3.5;
    assert (7 as real * TestSplit) == 2.8;
  }

  /** Filtering keeps a duplicate-free list duplicate-free. */
  lemma {:induction false} RemainingNoDuplicates(shuffled: seq<string>, nf: set<string>, norm: string -> string)
    requires NoDuplicates(shuffled)
    ensures NoDuplicates(Remaining(shuffled, nf, norm))
  {
    if shuffled != [] {
      var init := shuffled[..|shuffled| - 1];
      var p := shuffled[|shuffled| - 1];
      assert NoDuplicates(init) by {
        assert forall i :: 0 <= i < |init| ==> init[i] == shuffled[i];
      }
      RemainingNoDuplicates(init, nf, norm);
      assert p !in init by {
        assert forall i :: 0 <= i < |init| ==> init[i] == shuffled[i];
      }
      var r := Remaining(init, nf, norm);
      assert p !in r;
    }
  }

  /** In a duplicate-free list an element at index `i` is in a slice exactly
      when `i` is in its range. */
  lemma SliceHas(r: seq<string>, i: nat, lo: nat, hi: nat)
    requires NoDuplicates(r) && i < |r| && lo <= hi <= |r|
    ensures r[i] in r[lo..hi] <==> lo <= i < hi
  {
    if r[i] in r[lo..hi] {
      var k :| 0 <= k < hi - lo && r[lo..hi][k] == r[i];
      assert r[lo + k] == r[i];
    }
    if lo <= i < hi {
      assert r[lo..hi][i - lo] == r[i];
    }
  }

  /** The three lists as slices of the remaining pieces. */
  lemma PartitionShape(shuffled: seq<string>, forced: seq<string>, norm: string -> string)
    ensures var s := PartitionPieces(shuffled, forced, norm);
      var r := Remaining(shuffled, NormalizedForced(forced, norm), norm);
      var nTrain, nTest := Portion(|r|, TrainSplit), Portion(|r|, TestSplit);
      && 0 <= nTrain && 0 <= nTest && nTrain + nTest <= |r|
      && s.train == r[..nTrain]
      && s.test == forced + r[nTrain..nTrain + nTest]
      && s.val == r[nTrain + nTest..]
  {
    PortionsFit(|Remaining(shuffled, NormalizedForced(forced, norm), norm)|);
  }

  /** A piece of a duplicate-free list is in exactly one of three consecutive
      slices that cover it. */
  lemma InOneSlice(r: seq<string>, p: string, a: nat, b: nat)
    requires NoDuplicates(r) && p in r && a <= b <= |r|
    ensures var x, y, z := r[..a], r[a..b], r[b..];
      || (p in x && p !in y && p !in z)
      || (p !in x && p in y && p !in z)
      || (p !in x && p !in y && p in z)
  {
    var i :| 0 <= i < |r| && r[i] == p;
    SliceHas(r, i, 0, a);
    SliceHas(r, i, a, b);
    SliceHas(r, i, b, |r|);
    assert r[..a] == r[0..a] && r[b..] == r[b..|r|];
  }

  /** On a duplicate-free shuffled list, each piece lands in exactly one of
      the three lists, provided a piece is forced exactly when its
      normalised name is a forced one. */
  lemma EachPieceOnce(shuffled: seq<string>, forced: seq<string>, norm: string -> string, p: string)
    requires NoDuplicates(shuffled) && p in shuffled
    requires p in forced <==> norm(p) in NormalizedForced(forced, norm)
    ensures var s := PartitionPieces(shuffled, forced, norm);
      || (p in s.train && p !in s.test && p !in s.val)
      || (p !in s.train && p in s.test && p !in s.val)
      || (p !in s.train && p !in s.test && p in s.val)
  {
    var nf := NormalizedForced(forced, norm);
    var r := Remaining(shuffled, nf, norm);
    var nTrain, nTest := Portion(|r|, TrainSplit), Portion(|r|, TestSplit);
    PartitionShape(shuffled, forced, norm);
    if norm(p) in nf {
      assert p !in r;
      assert p !in r[..nTrain] && p !in r[nTrain..nTrain + nTest] && p !in r[nTrain + nTest..];
    } else {
      RemainingNoDuplicates(shuffled, nf, norm);
      InOneSlice(r, p, nTrain, nTrain + nTest);
    }
  }

  /** Why `EachPieceOnce` needs its condition on forced names: a piece that
      is not itself on the forced list but normalises to a forced name is
      dropped from the remaining pieces and never added to test. */
  lemma ExampleUnlistedForcedName(norm: string -> string)
    requires norm("a/") == "a" && norm("a") == "a"
    ensures var s := PartitionPieces(["a/"], ["a"], norm);
      "a/" !in s.train && "a/" !in s.test && "a/" !in s.val
  {
    var s := PartitionPieces(["a/"], ["a"], norm);
    assert "a" in ["a"];
    ForcedOnlyInTest(["a/"], ["a"], norm, "a/");
    PartitionShape(["a/"], ["a"], norm);
    assert Remaining(["a/"], NormalizedForced(["a"], norm), norm) == [];
    assert "a/" != "a";
  }

  /** On a duplicate-free shuffled list the three lists are pairwise
      disjoint: the forced pieces are never remaining pieces, and the
      remaining pieces are cut into consecutive slices. */
  lemma ListsDisjoint(shuffled: seq<string>, forced: seq<string>, norm: string -> string)
    requires NoDuplicates(shuffled)
    ensures var s := PartitionPieces(shuffled, forced, norm);
      forall p :: !(p in s.train && p in s.test) && !(p in s.train && p in s.val) && !(p in s.test && p in s.val)
  {
    var s := PartitionPieces(shuffled, forced, norm);
    var nf := NormalizedForced(forced, norm);
    var r := Remaining(shuffled, nf, norm);
    var nTrain, nTest := Portion(|r|, TrainSplit), Portion(|r|, TestSplit);
    PartitionShape(shuffled, forced, norm);
    RemainingNoDuplicates(shuffled, nf, norm);
    forall p ensures !(p in s.train && p in s.test) && !(p in s.train && p in s.val) && !(p in s.test && p in s.val) {
      if norm(p) in nf {
        ForcedOnlyInTest(shuffled, forced, norm, p);
      } else if p in r {
        assert p !in forced;
        InOneSlice(r, p, nTrain, nTrain + nTest);
      } else {
        assert forall a, b :: 0 <= a <= b <= |r| ==> p !in r[a..b];
        assert r[..nTrain] == r[0..nTrain];
      }
    }
  }

  /** `chain.from_iterable(piece_to_files[p] for p in pieces if p in
      piece_to_files)`: the files of the listed pieces, piece by piece,
      skipping pieces that were never discovered. */
  function PieceFiles(pieces: seq<string>, pieceToFiles: map<string, seq<FilePath>>): seq<FilePath> {
    if pieces == [] then []
    else
      var p := pieces[|pieces| - 1];
      PieceFiles(pieces[..|pieces| - 1], pieceToFiles) + if p in pieceToFiles then pieceToFiles[p] else []
  }

  /** A file is listed exactly when it belongs to a listed, discovered piece. */
  lemma {:induction false} PieceFilesMembers(pieces: seq<string>, pieceToFiles: map<string, seq<FilePath>>, f: FilePath)
    ensures f in PieceFiles(pieces, pieceToFiles) <==>
      exists p :: p in pieces && p in pieceToFiles && f in pieceToFiles[p]
  {
    if pieces != [] {
      var init := pieces[..|pieces| - 1];
      var last := pieces[|pieces| - 1];
      PieceFilesMembers(init, pieceToFiles, f);
      assert forall p :: p in pieces <==> p in init || p == last by {
        assert pieces == init + [last];
      }
    }
  }

  /** When every piece's files carry that piece, a piece's file is listed
      exactly when the piece is listed: with `EachPieceOnce`, every
      discovered file lands in exactly one of the three file lists. */
  lemma PieceFilesOfPiece(pieces: seq<string>, pieceToFiles: map<string, seq<FilePath>>, p: string, f: FilePath)
    requires forall q :: q in pieceToFiles ==> forall g :: g in pieceToFiles[q] ==> g.piece == q
    requires p in pieceToFiles && f in pieceToFiles[p]
    ensures f in PieceFiles(pieces, pieceToFiles) <==> p in pieces
  {
    PieceFilesMembers(pieces, pieceToFiles, f);
  }

  /** The three file lists of the split. */
  function SplitFiles(s: Split, pieceToFiles: map<string, seq<FilePath>>): (fs: (seq<FilePath>, seq<FilePath>, seq<FilePath>))
  {
    (PieceFiles(s.train, pieceToFiles), PieceFiles(s.test, pieceToFiles), PieceFiles(s.val, pieceToFiles))
  }

  /** Every file discovered for a piece of the shuffled list lands in exactly
      one of the train, test and validation file lists. */
  lemma EachFileOnce(dirs: seq<Dir>, pieceToFiles: map<string, seq<FilePath>>, shuffled: seq<string>,
                     forced: seq<string>, norm: string -> string, p: string, f: FilePath)
    requires forall q :: q in pieceToFiles ==> pieceToFiles[q] == FilesOf(dirs, q)
    requires NoDuplicates(shuffled) && p in shuffled
    requires p in forced <==> norm(p) in NormalizedForced(forced, norm)
    requires p in pieceToFiles && f in pieceToFiles[p]
    ensures var fs := SplitFiles(PartitionPieces(shuffled, forced, norm), pieceToFiles);
      || (f in fs.0 && f !in fs.1 && f !in fs.2)
      || (f !in fs.0 && f in fs.1 && f !in fs.2)
      || (f !in fs.0 && f !in fs.1 && f in fs.2)
  {
    forall q | q in pieceToFiles ensures forall g :: g in pieceToFiles[q] ==> g.piece == q {
      FilesOfPiece(dirs, q);
    }
    var s := PartitionPieces(shuffled, forced, norm);
    EachPieceOnce(shuffled, forced, norm, p);
    PieceFilesOfPiece(s.train, pieceToFiles, p, f);
    PieceFilesOfPiece(s.test, pieceToFiles, p, f);
    PieceFilesOfPiece(s.val, pieceToFiles, p, f);
  }
}
