/** Reading the receipt: scanlines that are solidly one of the wanted colours,
  * cut into maximal runs, and a greedy matcher over the runs, against the plain
  * statement that the bands are on the screen in order. */
module Bands {
  import opened Options
  import opened Pixels

  datatype Run = Run(rgb: Rgb, first: nat, rows: nat) {
    function End(): nat { first + rows }
  }

  type Lines = seq<Option<Rgb>>

  // ---- maximal runs --------------------------------------------------------------

  /** The run lies on the lines, all of its colour. */
  predicate Within(lines: Lines, r: Run)
  {
    r.rows > 0 && r.End() <= |lines| && forall y | r.first <= y < r.End() :: lines[y] == Some(r.rgb)
  }

  /** `runs` cuts `lines` into its maximal runs of one colour. */
  ghost predicate Segmented(lines: Lines, runs: seq<Run>)
  {
    && (forall i | 0 <= i < |runs| :: Within(lines, runs[i]))
    && (forall i, j | 0 <= i < j < |runs| :: runs[i].End() <= runs[j].first)
    && (forall i | 0 < i < |runs| :: runs[i - 1].End() == runs[i].first ==> runs[i - 1].rgb != runs[i].rgb)
    && (forall y | 0 <= y < |lines| && lines[y].Some? :: Covered(runs, y))
  }

  ghost predicate Covered(runs: seq<Run>, y: nat)
  {
    exists i :: 0 <= i < |runs| && runs[i].first <= y < runs[i].End()
  }

  /** The second loop of `solid_row_runs`. */
  method CutRuns(lines: Lines) returns (runs: seq<Run>)
    ensures Segmented(lines, runs)
  {
    runs := [];
    NoLines();
    hide Segmented;
    assert lines[..0] == [];
    for y := 0 to |lines|
      invariant Segmented(lines[..y], runs)
    {
      var n := |runs|;
      assert lines[..y + 1] == lines[..y] + [lines[y]];
      if lines[y].None? {
        SkipLine(lines[..y], runs);
      } else {
        var rgb := lines[y].value;
        if n > 0 && runs[n - 1].rgb == rgb && runs[n - 1].End() == y {
          ExtendRun(lines[..y], runs, rgb);
          runs := runs[..n - 1] + [runs[n - 1].(rows := runs[n - 1].rows + 1)];
        } else {
          StartRun(lines[..y], runs, rgb);
          runs := runs + [Run(rgb, y, 1)];
        }
      }
    }
    assert lines[..|lines|] == lines;
  }

  lemma NoLines()
    ensures Segmented([], [])
  {
  }

  lemma SkipLine(lines: Lines, runs: seq<Run>)
    requires Segmented(lines, runs)
    ensures Segmented(lines + [None], runs)
  {
  }

  lemma ExtendRun(lines: Lines, runs: seq<Run>, rgb: Rgb)
    requires Segmented(lines, runs) && runs != []
    requires var last := runs[|runs| - 1]; last.rgb == rgb && last.End() == |lines|
    ensures var last := runs[|runs| - 1];
            Segmented(lines + [Some(rgb)], runs[..|runs| - 1] + [last.(rows := last.rows + 1)])
  {
    var n, all := |runs| - 1, lines + [Some(rgb)];
    var longer := runs[..n] + [runs[n].(rows := runs[n].rows + 1)];
    assert forall i | 0 <= i < n :: longer[i] == runs[i];
    forall i | 0 <= i < n ensures Within(all, longer[i]) {
      WithinMore(lines, Some(rgb), runs[i]);
    }
    OneMoreLine(lines, runs[n]);
    assert longer[n].first == runs[n].first && longer[n].rgb == runs[n].rgb && longer[n].End() == |all|;
    forall y: nat | y < |all| && all[y].Some? ensures Covered(longer, y) {
      if y < |lines| {
        CoveredLonger(runs, longer, y);
      } else {
        assert longer[n].first <= y < longer[n].End();
      }
    }
  }

  lemma WithinMore(lines: Lines, line: Option<Rgb>, r: Run)
    requires Within(lines, r)
    ensures Within(lines + [line], r)
  {
  }

  lemma OneMoreLine(lines: Lines, r: Run)
    requires Within(lines, r) && r.End() == |lines|
    ensures Within(lines + [Some(r.rgb)], r.(rows := r.rows + 1))
  {
  }

  lemma OneLine(lines: Lines, rgb: Rgb)
    ensures Within(lines + [Some(rgb)], Run(rgb, |lines|, 1))
  {
  }

  lemma CoveredLonger(runs: seq<Run>, more: seq<Run>, y: nat)
    requires Covered(runs, y) && |runs| <= |more|
    requires forall i | 0 <= i < |runs| :: more[i].first == runs[i].first && more[i].rows >= runs[i].rows
    ensures Covered(more, y)
  {
  }

  lemma StartRun(lines: Lines, runs: seq<Run>, rgb: Rgb)
    requires Segmented(lines, runs)
    requires runs != [] ==> runs[|runs| - 1].rgb != rgb || runs[|runs| - 1].End() != |lines|
    ensures Segmented(lines + [Some(rgb)], runs + [Run(rgb, |lines|, 1)])
  {
    var n, all, more := |runs|, lines + [Some(rgb)], runs + [Run(rgb, |lines|, 1)];
    assert forall i | 0 <= i < n :: more[i] == runs[i];
    forall i | 0 <= i < n ensures Within(all, more[i]) {
      WithinMore(lines, Some(rgb), runs[i]);
    }
    hide Within;
    assert Within(all, more[n]) by {
      OneLine(lines, rgb);
    }
    forall y: nat | y < |all| && all[y].Some? ensures Covered(more, y) {
      if y < |lines| {
        CoveredLonger(runs, more, y);
      } else {
        assert more[n].first <= y < more[n].End();
      }
    }
  }

  // ---- what the bands on the screen mean ---------------------------------------------

  /** `m` consecutive lines from `a`, all of colour `c`. */
  predicate Block(lines: Lines, a: nat, m: nat, c: Rgb)
  {
    a + m <= |lines| && forall y | a <= y < a + m :: lines[y] == Some(c)
  }

  /** The bands lie at `starts`, in order and apart. */
  ghost predicate Placed(lines: Lines, expected: seq<Rgb>, m: nat, starts: seq<nat>)
  {
    && |starts| == |expected|
    && (forall i | 0 <= i < |starts| :: Block(lines, starts[i], m, expected[i]))
    && (forall i | 0 < i < |starts| :: starts[i - 1] + m <= starts[i])
  }

  /** The bands can be placed from line `from` on. */
  ghost predicate Feasible(lines: Lines, expected: seq<Rgb>, m: nat, from: nat)
    decreases |expected|
  {
    expected == [] || exists a: nat :: from <= a && Block(lines, a, m, expected[0]) && Feasible(lines, expected[1..], m, a + m)
  }

  lemma {:induction false} FeasibleGivesPlaces(lines: Lines, expected: seq<Rgb>, m: nat, from: nat) returns (starts: seq<nat>)
    requires Feasible(lines, expected, m, from)
    ensures Placed(lines, expected, m, starts) && (starts != [] ==> starts[0] >= from)
    decreases |expected|
  {
    if expected == [] {
      starts := [];
    } else {
      var a: nat :| from <= a && Block(lines, a, m, expected[0]) && Feasible(lines, expected[1..], m, a + m);
      var rest := FeasibleGivesPlaces(lines, expected[1..], m, a + m);
      starts := [a] + rest;
    }
  }

  lemma {:induction false} PlacesGiveFeasible(lines: Lines, expected: seq<Rgb>, m: nat, from: nat, starts: seq<nat>)
    requires Placed(lines, expected, m, starts) && (starts != [] ==> starts[0] >= from)
    ensures Feasible(lines, expected, m, from)
    decreases |expected|
  {
    if expected != [] {
      PlacesGiveFeasible(lines, expected[1..], m, starts[0] + m, starts[1..]);
    }
  }

  lemma FeasibleIffPlaced(lines: Lines, expected: seq<Rgb>, m: nat)
    ensures Feasible(lines, expected, m, 0) <==> exists starts :: Placed(lines, expected, m, starts)
  {
    if Feasible(lines, expected, m, 0) {
      var starts := FeasibleGivesPlaces(lines, expected, m, 0);
    }
    forall starts | Placed(lines, expected, m, starts) ensures Feasible(lines, expected, m, 0) {
      PlacesGiveFeasible(lines, expected, m, 0, starts);
    }
  }

  /** Starting earlier never hurts: the exchange that makes greedy optimal. */
  lemma EarlierIsFeasible(lines: Lines, expected: seq<Rgb>, m: nat, early: nat, late: nat)
    requires early <= late && Feasible(lines, expected, m, late)
    ensures Feasible(lines, expected, m, early)
  {
  }

  /** If a block can start right here, taking it loses nothing. */
  lemma TakeHere(lines: Lines, expected: seq<Rgb>, m: nat, from: nat)
    requires expected != [] && Block(lines, from, m, expected[0])
    ensures Feasible(lines, expected, m, from) <==> Feasible(lines, expected[1..], m, from + m)
  {
    if Feasible(lines, expected, m, from) {
      var a: nat :| from <= a && Block(lines, a, m, expected[0]) && Feasible(lines, expected[1..], m, a + m);
      EarlierIsFeasible(lines, expected[1..], m, from + m, a + m);
    }
  }

  /** If no block starts before `to`, nothing is lost by moving there. */
  lemma MoveOn(lines: Lines, expected: seq<Rgb>, m: nat, from: nat, to: nat)
    requires expected != [] && from <= to
    requires forall a: nat | from <= a < to :: !Block(lines, a, m, expected[0])
    ensures Feasible(lines, expected, m, from) <==> Feasible(lines, expected, m, to)
  {
    if Feasible(lines, expected, m, to) {
      EarlierIsFeasible(lines, expected, m, from, to);
    }
  }

  /** With nowhere left to start, nothing can be placed. */
  lemma Exhausted(lines: Lines, expected: seq<Rgb>, m: nat, from: nat)
    requires expected != [] && forall a: nat | from <= a :: !Block(lines, a, m, expected[0])
    ensures !Feasible(lines, expected, m, from)
  {
  }

  /** For a height of zero or less the rows no longer matter: the wanted colours
    * must follow one another among the runs, from run `from` on. */
  ghost predicate InOrder(runs: seq<Run>, expected: seq<Rgb>, from: nat)
    decreases |expected|
  {
    expected == [] || exists i :: from <= i < |runs| && runs[i].rgb == expected[0] && InOrder(runs, expected[1..], i)
  }

  lemma EarlierIsInOrder(runs: seq<Run>, expected: seq<Rgb>, early: nat, late: nat)
    requires early <= late && InOrder(runs, expected, late)
    ensures InOrder(runs, expected, early)
  {
  }

  lemma TakeRun(runs: seq<Run>, expected: seq<Rgb>, from: nat)
    requires expected != [] && from < |runs|
    ensures runs[from].rgb == expected[0] ==> (InOrder(runs, expected, from) <==> InOrder(runs, expected[1..], from))
    ensures runs[from].rgb != expected[0] ==> (InOrder(runs, expected, from) <==> InOrder(runs, expected, from + 1))
  {
    if InOrder(runs, expected, from) {
      var i :| from <= i < |runs| && runs[i].rgb == expected[0] && InOrder(runs, expected[1..], i);
      EarlierIsInOrder(runs, expected[1..], from, i);
    }
    if InOrder(runs, expected, from + 1) {
      EarlierIsInOrder(runs, expected, from, from + 1);
    }
  }

  // ---- the greedy matcher ---------------------------------------------------------------

  /** Where the matcher stands: past everything it has used. */
  function Cursor(runs: seq<Run>, index: int, left: int): int
    requires -1 <= index < |runs|
  {
    if index < 0 then 0 else runs[index].End() - left
  }

  /** A run stops only where its colour does. */
  lemma RunIsMaximal(lines: Lines, runs: seq<Run>, i: nat)
    requires Segmented(lines, runs) && i < |runs| && runs[i].End() < |lines|
    ensures lines[runs[i].End()] != Some(runs[i].rgb)
  {
    var e := runs[i].End();
    assert forall j | 0 <= j < i :: runs[j].End() <= runs[i].first;
    assert forall j | i + 1 < j < |runs| :: runs[i + 1].End() <= runs[j].first;
    if lines[e].Some? {
      assert Covered(runs, e);
      var j :| 0 <= j < |runs| && runs[j].first <= e < runs[j].End();
      assert j == i + 1;
      assert lines[e] == Some(runs[j].rgb);
    }
  }

  /** A block of at least one line lies within one run. */
  lemma BlockInRun(lines: Lines, runs: seq<Run>, a: nat, m: nat, c: Rgb, i: nat)
    requires Segmented(lines, runs) && m > 0 && Block(lines, a, m, c)
    requires i < |runs| && runs[i].first <= a < runs[i].End()
    ensures runs[i].rgb == c && a + m <= runs[i].End()
  {
    assert lines[a] == Some(runs[i].rgb);
    if runs[i].End() < |lines| {
      RunIsMaximal(lines, runs, i);
    }
  }

  /** Where the current run will not do, no wanted block starts before the next. */
  lemma NoBlockBeforeNext(lines: Lines, runs: seq<Run>, index: int, left: int, m: nat, c: Rgb, a: nat)
    requires Segmented(lines, runs) && m > 0 && -1 <= index < |runs|
    requires index >= 0 ==> 0 <= left <= runs[index].rows && !(left >= m && runs[index].rgb == c)
    requires Cursor(runs, index, left) <= a && (index + 1 < |runs| ==> a < runs[index + 1].first)
    ensures !Block(lines, a, m, c)
  {
    assert forall j | 0 <= j < index :: runs[j].End() <= runs[index].first;
    assert forall j | index + 1 < j < |runs| :: runs[index + 1].End() <= runs[j].first;
    if Block(lines, a, m, c) {
      assert lines[a] == Some(c) && Covered(runs, a);
      var i :| 0 <= i < |runs| && runs[i].first <= a < runs[i].End();
      assert i == index;
      BlockInRun(lines, runs, a, m, c, i);
    }
  }

  /** What is still to be decided, with the matcher at run `index`, `left` rows of it unused. */
  ghost predicate Open(lines: Lines, runs: seq<Run>, rest: seq<Rgb>, m: int, index: int, left: int)
    requires -1 <= index < |runs|
  {
    if m > 0 then
      (index >= 0 ==> 0 <= left <= runs[index].rows) && Cursor(runs, index, left) >= 0
      && Feasible(lines, rest, m, Cursor(runs, index, left))
    else InOrder(runs, rest, if index < 0 then 0 else index)
  }

  ghost predicate Sensible(runs: seq<Run>, m: int, index: int, left: int)
    requires -1 <= index < |runs|
  {
    index >= 0 ==> if m > 0 then 0 <= left <= runs[index].rows else left >= 0
  }

  /** Using `m` rows of the current run for the wanted colour decides nothing wrongly. */
  lemma Take(lines: Lines, runs: seq<Run>, rest: seq<Rgb>, m: int, index: int, left: int)
    requires Segmented(lines, runs) && 0 <= index < |runs| && Sensible(runs, m, index, left)
    requires rest != [] && left >= m && runs[index].rgb == rest[0]
    ensures Open(lines, runs, rest, m, index, left) <==> Open(lines, runs, rest[1..], m, index, left - m)
  {
    if m > 0 {
      TakeHere(lines, rest, m, Cursor(runs, index, left));
    } else {
      TakeRun(runs, rest, index);
    }
  }

  /** Nor does moving to the next run when the current one will not do. */
  lemma Skip(lines: Lines, runs: seq<Run>, rest: seq<Rgb>, m: int, index: int, left: int)
    requires Segmented(lines, runs) && -1 <= index < |runs| && Sensible(runs, m, index, left)
    requires rest != [] && (index >= 0 ==> !(left >= m && runs[index].rgb == rest[0]))
    ensures index + 1 < |runs| ==>
              (Open(lines, runs, rest, m, index, left) <==> Open(lines, runs, rest, m, index + 1, runs[index + 1].rows))
    ensures index + 1 == |runs| ==> !Open(lines, runs, rest, m, index, left)
  {
    if m > 0 {
      var at := Cursor(runs, index, left);
      forall a: nat | at <= a && (index + 1 < |runs| ==> a < runs[index + 1].first) ensures !Block(lines, a, m, rest[0]) {
        NoBlockBeforeNext(lines, runs, index, left, m, rest[0], a);
      }
      if index + 1 < |runs| {
        MoveOn(lines, rest, m, at, runs[index + 1].first);
      } else {
        Exhausted(lines, rest, m, at);
      }
    } else if 0 <= index {
      TakeRun(runs, rest, index);
    }
  }

  /** `match_bands`: for a positive height the greedy walk succeeds exactly when the
    * bands can be placed in order, without overlap, anywhere on the lines. */
  method MatchBands(runs: seq<Run>, expected: seq<Rgb>, m: int, ghost lines: Lines) returns (found: bool)
    requires Segmented(lines, runs)
    ensures m > 0 ==> (found <==> exists starts :: Placed(lines, expected, m, starts))
    ensures m <= 0 ==> (found <==> InOrder(runs, expected, 0))
  {
    hide Segmented, Open, Placed, Cursor;
    var index, left := -1, 0;
    Outset(lines, runs, expected, m);
    ghost var answer := Open(lines, runs, expected, m, -1, 0);
    assert expected[0..] == expected;
    for k := 0 to |expected|
      invariant -1 <= index < |runs| && Sensible(runs, m, index, left)
      invariant answer <==> Open(lines, runs, expected[k..], m, index, left)
    {
      assert expected[k..][1..] == expected[k + 1..];
      while !(index >= 0 && left >= m && runs[index].rgb == expected[k])
        invariant -1 <= index < |runs| && Sensible(runs, m, index, left)
        invariant answer <==> Open(lines, runs, expected[k..], m, index, left)
        decreases |runs| - index
      {
        Skip(lines, runs, expected[k..], m, index, left);
        index := index + 1;
        if index >= |runs| {
          return false;
        }
        left := runs[index].rows;
      }
      Take(lines, runs, expected[k..], m, index, left);
      left := left - m;
    }
    Done(lines, runs, expected[|expected|..], m, index, left);
    return true;
  }

  lemma Outset(lines: Lines, runs: seq<Run>, expected: seq<Rgb>, m: int)
    ensures m > 0 ==> (Open(lines, runs, expected, m, -1, 0) <==> exists starts :: Placed(lines, expected, m, starts))
    ensures m <= 0 ==> (Open(lines, runs, expected, m, -1, 0) <==> InOrder(runs, expected, 0))
  {
    if m > 0 {
      FeasibleIffPlaced(lines, expected, m);
    }
  }

  lemma Done(lines: Lines, runs: seq<Run>, rest: seq<Rgb>, m: int, index: int, left: int)
    requires -1 <= index < |runs| && Sensible(runs, m, index, left) && rest == []
    ensures Open(lines, runs, rest, m, index, left)
  {
  }
}
