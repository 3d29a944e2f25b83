/** The downbeat loader (`load_downbeats` in Data_Prep_3.py): beat-annotation
    lines become the ascending list of measure-start times, which always holds
    0.0. Lines come already split into whitespace-separated fields; parsing
    the first field as a float is the parameter `parse`. */
module Downbeats {
  import opened Common

  /** One annotation line, split into its whitespace-separated fields. */
  datatype Line = Line(parts: seq<string>)

  /** `t` occurs in `s` as a contiguous piece (Python's `t in s` on strings). */
  predicate Contains(s: string, t: string)
    decreases |s|
  {
    t <= s || (|s| > 0 && Contains(s[1..], t))
  }

  /** The label marker that makes an annotation a downbeat. */
  const DownbeatMarker: string := "db"

  /** At least three fields, and the third contains the downbeat marker. */
  predicate IsDownbeatLine(line: Line) {
    |line.parts| >= 3 && Contains(line.parts[2], DownbeatMarker)
  }

  /** A downbeat line whose first field parses as a number adds a timestamp. */
  predicate Contributes(line: Line, parse: string -> Option<real>) {
    IsDownbeatLine(line) && parse(line.parts[0]).Some?
  }

  /** The timestamps the contributing lines add, in file order. */
  function Stamps(lines: seq<Line>, parse: string -> Option<real>): seq<real>
  {
    if lines == [] then []
    else
      var last := lines[|lines| - 1];
      Stamps(lines[..|lines| - 1], parse)
        + (if Contributes(last, parse) then [parse(last.parts[0]).value] else [])
  }

  /** What the loader returns, as a value: 0.0 and the stamps, sorted. */
  function DownbeatTimes(lines: seq<Line>, parse: string -> Option<real>): (d: seq<real>)
    ensures SortedBy(d, Id) && |d| >= 1
  {
    SortBy([0.0] + Stamps(lines, parse), Id)
  }

  /** Reads the annotation lines one at a time, collecting the timestamps of
      downbeat lines after an initial 0.0, and sorts them. */
  method LoadDownbeats(lines: seq<Line>, parse: string -> Option<real>) returns (downbeats: seq<real>)
    ensures downbeats == DownbeatTimes(lines, parse)
  {
    var times := [0.0];
    for i := 0 to |lines|
      invariant times == [0.0] + Stamps(lines[..i], parse)
    {
      var parts := lines[i].parts;
      if |parts| >= 3 && Contains(parts[2], DownbeatMarker) {
        match parse(parts[0])
        case Some(t) =>
          times := times + [t];
        case None =>
      }
      assert lines[..i + 1][..i] == lines[..i];
    }
    assert lines[..|lines|] == lines;
    downbeats := SortBy(times, Id);
  }

  /** The downbeat list is sorted, holds 0.0, and holds exactly 0.0 and the
      collected timestamps, duplicates included. */
  lemma DownbeatTimesContents(lines: seq<Line>, parse: string -> Option<real>)
    ensures var d := DownbeatTimes(lines, parse);
      && SortedBy(d, Id)
      && d[0] <= 0.0
      && 0.0 in d
      && |d| == 1 + |Stamps(lines, parse)|
      && multiset(d) == multiset{0.0} + multiset(Stamps(lines, parse))
  {
    var d := DownbeatTimes(lines, parse);
    assert 0.0 in multiset([0.0] + Stamps(lines, parse));
    assert 0.0 in d;
    var k :| 0 <= k < |d| && d[k] == 0.0;
    assert Id(d[0]) <= Id(d[k]) || k == 0;
  }

  /** A timestamp is collected exactly when some contributing line carries it:
      no other line adds one. */
  lemma {:induction false} StampsMembership(lines: seq<Line>, parse: string -> Option<real>, t: real)
    ensures t in Stamps(lines, parse) <==>
      exists i :: 0 <= i < |lines| && Contributes(lines[i], parse) && parse(lines[i].parts[0]).value == t
  {
    if lines != [] {
      var init := lines[..|lines| - 1];
      StampsMembership(init, parse, t);
      if t in Stamps(lines, parse) && t !in Stamps(init, parse) {
        assert Contributes(lines[|lines| - 1], parse);
      }
      if exists i :: 0 <= i < |lines| && Contributes(lines[i], parse) && parse(lines[i].parts[0]).value == t {
        var i :| 0 <= i < |lines| && Contributes(lines[i], parse) && parse(lines[i].parts[0]).value == t;
        if i < |lines| - 1 {
          assert init[i] == lines[i];
        }
      }
    }
  }

  /** The indices of the contributing lines. */
  function ContributingLines(lines: seq<Line>, parse: string -> Option<real>): (ix: set<nat>)
    ensures forall i :: i in ix ==> i < |lines|
  {
    if lines == [] then {}
    else
      var n := |lines| - 1;
      ContributingLines(lines[..n], parse) + if Contributes(lines[n], parse) then {n} else {}
  }

  /** An index is collected exactly when its line contributes. */
  lemma {:induction false} ContributingLinesMembers(lines: seq<Line>, parse: string -> Option<real>, i: nat)
    ensures i in ContributingLines(lines, parse) <==> i < |lines| && Contributes(lines[i], parse)
  {
    if lines != [] && i < |lines| - 1 {
      var init := lines[..|lines| - 1];
      ContributingLinesMembers(init, parse, i);
      assert init[i] == lines[i];
    }
  }

  /** One timestamp per contributing line, duplicates kept. */
  lemma {:induction false} StampsCount(lines: seq<Line>, parse: string -> Option<real>)
    ensures |Stamps(lines, parse)| == |ContributingLines(lines, parse)|
  {
    if lines != [] {
      var n := |lines| - 1;
      StampsCount(lines[..n], parse);
      assert n !in ContributingLines(lines[..n], parse);
    }
  }
}
