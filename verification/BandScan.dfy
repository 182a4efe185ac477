/** Finding the bands on a capture: which scanlines count as solid, and exactly when
  * reading them back through one colour per line loses nothing. */
module BandScan {
  import opened Bytes
  import opened Options
  import opened Pixels
  import opened Bands

  // ---- solid scanlines ---------------------------------------------------------------

  /** `int(width * SOLID_ROW_SHARE)` with a share of nine tenths. */
  function Need(width: nat): (n: nat)
    ensures 10 * n <= 9 * width < 10 * (n + 1)
  {
    9 * width / 10
  }

  /** The pixels of line `y` that show colour `c`. */
  ghost function Shown(f: Frame, y: nat, c: Rgb): set<nat>
    requires f.Valid() && y < f.height
  {
    set x: nat | x < f.width && Matches(f, x, y, c)
  }

  ghost predicate Solid(f: Frame, y: nat, c: Rgb)
  {
    f.Valid() && y < f.height && |Shown(f, y, c)| >= Need(f.width)
  }

  /** Counting the mask counts the pixels. */
  lemma HitsAreShown(f: Frame, y: nat, c: Rgb)
    requires f.Valid() && y < f.height
    ensures Hits(MatchRows(f, c)[y]) == |Shown(f, y, c)|
  {
    hide MatchRows;
    var row := MatchRows(f, c)[y];
    HitsIsSize(row);
    forall x: nat | x < f.width ensures row[x] == 255 <==> Matches(f, x, y, c) {
      MatchRowsIsPixelTest(f, c, x, y);
    }
    assert (set x | 0 <= x < |row| && row[x] == 255) == Shown(f, y, c);
  }

  /** The colour a line is filed under: the first of `colours` it is solid in. */
  ghost function Filed(f: Frame, colours: seq<Rgb>, y: nat): (c: Option<Rgb>)
    ensures c.Some? ==> c.value in colours && Solid(f, y, c.value)
    ensures c.None? ==> forall i | 0 <= i < |colours| :: !Solid(f, y, colours[i])
  {
    if colours == [] then None
    else if Solid(f, y, colours[0]) then Some(colours[0])
    else Filed(f, colours[1..], y)
  }

  ghost function FiledLines(f: Frame, colours: seq<Rgb>): (lines: Lines)
    ensures |lines| == f.height
  {
    seq(f.height, (y: nat) => Filed(f, colours, y))
  }

  lemma {:induction false} FiledMore(f: Frame, colours: seq<Rgb>, c: Rgb, y: nat)
    ensures Filed(f, colours + [c], y)
         == if Filed(f, colours, y).None? && c !in colours && Solid(f, y, c) then Some(c) else Filed(f, colours, y)
  {
    if colours != [] {
      assert (colours + [c])[1..] == colours[1..] + [c];
      FiledMore(f, colours[1..], c, y);
    }
  }

  /** The inner loop: file the lines still open that are solid in `c`. */
  method FileUnder(f: Frame, c: Rgb, perRow: array<Option<Rgb>>)
    requires f.Valid() && perRow.Length == f.height
    modifies perRow
    ensures forall y | 0 <= y < f.height ::
              perRow[y] == if old(perRow[y]).None? && Solid(f, y, c) then Some(c) else old(perRow[y])
  {
    hide MatchRows, Hits;
    var need := Need(f.width);
    var rows := MatchRows(f, c);
    for y := 0 to f.height
      invariant forall i | 0 <= i < y ::
                  perRow[i] == if old(perRow[i]).None? && Solid(f, i, c) then Some(c) else old(perRow[i])
      invariant forall i | y <= i < f.height :: perRow[i] == old(perRow[i])
    {
      HitsAreShown(f, y, c);
      if perRow[y].None? && Hits(rows[y]) >= need {
        perRow[y] := Some(c);
      }
    }
  }

  /** `solid_row_runs`: the maximal runs of the lines, each line under its first colour. */
  method SolidRowRuns(f: Frame, colours: seq<Rgb>) returns (runs: seq<Run>)
    requires f.Valid()
    ensures Segmented(FiledLines(f, colours), runs)
  {
    hide Segmented, Solid, Filed;
    var perRow := new Option<Rgb>[f.height](_ => None);
    var seen: set<Rgb> := {};
    assert forall y | 0 <= y < f.height :: Filed(f, colours[..0], y) == None by {
      NothingFiled(f);
    }
    for k := 0 to |colours|
      invariant seen == set i | 0 <= i < k :: colours[i]
      invariant forall y | 0 <= y < f.height :: perRow[y] == Filed(f, colours[..k], y)
    {
      var c := colours[k];
      assert colours[..k + 1] == colours[..k] + [c];
      assert c in seen <==> c in colours[..k];
      forall y | 0 <= y < f.height {
        FiledMore(f, colours[..k], c, y);
      }
      if c !in seen {
        seen := seen + {c};
        FileUnder(f, c, perRow);
      }
    }
    assert colours[..|colours|] == colours;
    assert perRow[..] == FiledLines(f, colours);
    runs := CutRuns(perRow[..]);
  }

  lemma NothingFiled(f: Frame)
    ensures forall y: nat :: Filed(f, [], y) == None
  {
  }

  // ---- what the reading means on the screen ----------------------------------------------

  /** The bands are on the screen at `starts`: in order, apart, each line solid in its colour. */
  ghost predicate PaintedAt(f: Frame, expected: seq<Rgb>, m: nat, starts: seq<nat>)
  {
    && |starts| == |expected|
    && (forall i | 0 <= i < |starts| :: starts[i] + m <= f.height)
    && (forall i, y: nat | 0 <= i < |starts| && starts[i] <= y < starts[i] + m :: Solid(f, y, expected[i]))
    && (forall i | 0 < i < |starts| :: starts[i - 1] + m <= starts[i])
  }

  ghost predicate Painted(f: Frame, expected: seq<Rgb>, m: nat)
  {
    exists starts :: PaintedAt(f, expected, m, starts)
  }

  /** What the reader looks for instead: the bands on the filed lines. */
  ghost predicate Readable(f: Frame, expected: seq<Rgb>, m: nat)
  {
    exists starts :: Placed(FiledLines(f, expected), expected, m, starts)
  }

  /** The two halves of the demo's frame check, one after the other. */
  method ReadBands(f: Frame, expected: seq<Rgb>, m: int) returns (found: bool)
    requires f.Valid()
    ensures m > 0 ==> (found <==> Readable(f, expected, m))
    ensures m > 0 && Distinguishable(f.width, expected) ==> (found <==> Painted(f, expected, m))
  {
    var runs := SolidRowRuns(f, expected);
    found := MatchBands(runs, expected, m, FiledLines(f, expected));
    if m > 0 && Distinguishable(f.width, expected) {
      ReadableIffPainted(f, expected, m);
    }
  }

  predicate Alike(c: Rgb, d: Rgb)
  {
    c.r / 16 == d.r / 16 && c.g / 16 == d.g / 16 && c.b / 16 == d.b / 16
  }

  /** Any two wanted colours are one colour, or differ in some channel's top four bits
    * on a capture at least three pixels wide. */
  predicate Distinguishable(width: nat, expected: seq<Rgb>)
  {
    forall i, j | 0 <= i < |expected| && 0 <= j < |expected| ::
      expected[i] == expected[j] || (width >= 3 && !Alike(expected[i], expected[j]))
  }

  /** No pixel shows two unlike colours. */
  lemma ShownApart(f: Frame, y: nat, c: Rgb, d: Rgb)
    requires f.Valid() && y < f.height && !Alike(c, d)
    ensures |Shown(f, y, c)| + |Shown(f, y, d)| <= f.width
  {
    var both := Shown(f, y, c) + Shown(f, y, d);
    assert Shown(f, y, c) !! Shown(f, y, d);
    assert |both| == |Shown(f, y, c)| + |Shown(f, y, d)|;
    SubsetIsSmaller(both, Below(f.width));
  }

  /** A line of three or more pixels is solid in at most one of two unlike colours. */
  lemma SolidOnce(f: Frame, y: nat, c: Rgb, d: Rgb)
    ensures f.width >= 3 && Solid(f, y, c) && Solid(f, y, d) ==> Alike(c, d)
  {
    if f.Valid() && y < f.height && !Alike(c, d) {
      ShownApart(f, y, c, d);
    }
  }

  function Below(n: nat): (s: set<nat>)
    ensures |s| == n && forall x: nat :: x in s <==> x < n
  {
    if n == 0 then {} else Below(n - 1) + {n - 1}
  }

  lemma SubsetIsSmaller(s: set<nat>, t: set<nat>)
    requires s <= t
    ensures |s| <= |t|
  {
    assert t == s + (t - s);
  }

  lemma FiledIffSolid(f: Frame, expected: seq<Rgb>, y: nat, c: Rgb)
    requires Distinguishable(f.width, expected) && c in expected
    ensures Filed(f, expected, y) == Some(c) <==> Solid(f, y, c)
  {
    if Solid(f, y, c) {
      var d := Filed(f, expected, y).value;
      if d != c {
        SolidOnce(f, y, c, d);
      }
    }
  }

  lemma ReadableIffPainted(f: Frame, expected: seq<Rgb>, m: nat)
    requires Distinguishable(f.width, expected)
    ensures Readable(f, expected, m) <==> Painted(f, expected, m)
  {
    forall starts: seq<nat> ensures Placed(FiledLines(f, expected), expected, m, starts) <==> PaintedAt(f, expected, m, starts) {
      PlacedIffPainted(f, expected, m, starts);
    }
  }

  lemma BlockIffSolid(f: Frame, expected: seq<Rgb>, m: nat, a: nat, c: Rgb)
    requires Distinguishable(f.width, expected) && c in expected && a + m <= f.height
    ensures Block(FiledLines(f, expected), a, m, c) <==> forall y: nat | a <= y < a + m :: Solid(f, y, c)
  {
    hide Distinguishable, Solid, Filed;
    var lines := FiledLines(f, expected);
    forall y: nat | a <= y < a + m ensures lines[y] == Some(c) <==> Solid(f, y, c) {
      FiledIffSolid(f, expected, y, c);
    }
    if forall y: nat | a <= y < a + m :: Solid(f, y, c) {
      forall y | a <= y < a + m ensures lines[y] == Some(c) {
        assert Solid(f, y, c);
      }
    }
  }

  lemma PlacedIffPainted(f: Frame, expected: seq<Rgb>, m: nat, starts: seq<nat>)
    requires Distinguishable(f.width, expected)
    ensures Placed(FiledLines(f, expected), expected, m, starts) <==> PaintedAt(f, expected, m, starts)
  {
    hide Distinguishable, Solid, FiledLines;
    var lines := FiledLines(f, expected);
    forall i, a: nat | 0 <= i < |expected| && a + m <= f.height
      ensures Block(lines, a, m, expected[i]) <==> forall y: nat | a <= y < a + m :: Solid(f, y, expected[i])
    {
      BlockIffSolid(f, expected, m, a, expected[i]);
    }
  }

  // ---- where the reading must fail ---------------------------------------------------------

  /** `a` occurs in `colours` before any `b`. */
  predicate Before(colours: seq<Rgb>, a: Rgb, b: Rgb)
  {
    colours != [] && colours[0] != b && (colours[0] == a || Before(colours[1..], a, b))
  }

  lemma {:induction false} OneComesFirst(colours: seq<Rgb>, a: Rgb, b: Rgb)
    requires a != b && a in colours && b in colours
    ensures Before(colours, a, b) || Before(colours, b, a)
  {
    if colours[0] != a && colours[0] != b {
      assert forall c | c in colours :: c == colours[0] || c in colours[1..];
      OneComesFirst(colours[1..], a, b);
    }
  }

  /** A line solid in both is filed under the one that comes first. */
  lemma {:induction false} NeverFiled(f: Frame, colours: seq<Rgb>, a: Rgb, b: Rgb, y: nat)
    requires Before(colours, a, b) && (Solid(f, y, b) ==> Solid(f, y, a))
    ensures Filed(f, colours, y) != Some(b)
  {
    if colours[0] != a && !Solid(f, y, colours[0]) {
      NeverFiled(f, colours[1..], a, b, y);
    }
  }

  /** A wanted colour no line is filed under is never found. */
  lemma MissingColour(f: Frame, expected: seq<Rgb>, m: nat, k: nat)
    requires m > 0 && k < |expected| && forall y: nat | y < f.height :: Filed(f, expected, y) != Some(expected[k])
    ensures !Readable(f, expected, m)
  {
    var lines := FiledLines(f, expected);
    forall a: nat ensures !Block(lines, a, m, expected[k]) {
      assert a < |lines| ==> lines[a] != Some(expected[k]);
    }
    forall starts: seq<nat> ensures !Placed(lines, expected, m, starts) {
      assert k < |starts| ==> !Block(lines, starts[k], m, expected[k]);
    }
  }

  /** The lines an app that paints the bands as asked would show, `m` to a band. */
  function Stripes(expected: seq<Rgb>, m: nat): (lines: Lines)
    ensures |lines| == |expected| * m
    ensures forall y | 0 <= y < |lines| :: lines[y].Some? && lines[y].value in expected
  {
    if expected == [] then []
    else
      assert |expected| * m == m + |expected[1..]| * m;
      seq(m, _ => Some(expected[0])) + Stripes(expected[1..], m)
  }

  lemma {:induction false} StripesFit(expected: seq<Rgb>, m: nat, above: Lines)
    ensures Feasible(above + Stripes(expected, m), expected, m, |above|)
    decreases |expected|
  {
    if expected != [] {
      var band := seq(m, _ => Some(expected[0]));
      var lines := above + Stripes(expected, m);
      StripesFit(expected[1..], m, above + band);
      assert lines == (above + band) + Stripes(expected[1..], m);
      assert Block(lines, |above|, m, expected[0]);
    }
  }

  /** One scanline: its colour throughout, except that on a capture of one or two pixels
    * every pixel after the first shows `other`. */
  function Scanline(width: nat, c: Rgb, other: Rgb): (bs: seq<Byte>)
    ensures |bs| == 4 * width
  {
    seq(4 * width, i requires 0 <= i < 4 * width => Ink(if i < 4 || width >= 3 then c else other, i % 4))
  }

  function Ink(c: Rgb, channel: nat): Byte
  {
    if channel == 0 then c.b else if channel == 1 then c.g else if channel == 2 then c.r else 0
  }

  function Sheet(width: nat, lines: Lines, other: Rgb): (bs: seq<Byte>)
    requires forall y | 0 <= y < |lines| :: lines[y].Some?
    ensures |bs| == 4 * width * |lines|
  {
    if lines == [] then []
    else
      var n := |lines| - 1;
      assert 4 * width * |lines| == 4 * width * n + 4 * width;
      Sheet(width, lines[..n], other) + Scanline(width, lines[n].value, other)
  }

  lemma {:induction false} SheetAt(width: nat, lines: Lines, other: Rgb, y: nat, k: nat)
    requires (forall i | 0 <= i < |lines| :: lines[i].Some?) && y < |lines| && k < 4 * width
    ensures 0 <= y * (4 * width) + k < |Sheet(width, lines, other)|
    ensures Sheet(width, lines, other)[y * (4 * width) + k] == Scanline(width, lines[y].value, other)[k]
    decreases |lines|
  {
    hide Scanline;
    var n, w := |lines| - 1, 4 * width;
    if y < n {
      RowInside(w, n, y);
      SheetAt(width, lines[..n], other, y, k);
      SheetGrows(width, lines, other, y * w + k);
    } else {
      SheetEnds(width, lines, other, k);
    }
  }

  lemma SheetGrows(width: nat, lines: Lines, other: Rgb, i: nat)
    requires lines != [] && forall y | 0 <= y < |lines| :: lines[y].Some?
    requires i < |Sheet(width, lines[..|lines| - 1], other)|
    ensures i < |Sheet(width, lines, other)|
    ensures Sheet(width, lines, other)[i] == Sheet(width, lines[..|lines| - 1], other)[i]
  {
  }

  lemma SheetEnds(width: nat, lines: Lines, other: Rgb, k: nat)
    requires lines != [] && (forall y | 0 <= y < |lines| :: lines[y].Some?) && k < 4 * width
    ensures var n := |lines| - 1; 0 <= n * (4 * width) + k < |Sheet(width, lines, other)|
    ensures var n := |lines| - 1;
            Sheet(width, lines, other)[n * (4 * width) + k] == Scanline(width, lines[n].value, other)[k]
  {
    hide Scanline;
    var n := |lines| - 1;
    var head := Sheet(width, lines[..n], other);
    assert |head| == n * (4 * width);
    assert Sheet(width, lines, other) == head + Scanline(width, lines[n].value, other);
  }

  function Canvas(width: nat, lines: Lines, other: Rgb): (f: Frame)
    requires width > 0 && lines != [] && forall y | 0 <= y < |lines| :: lines[y].Some?
    ensures f.Valid() && f.width == width && f.height == |lines|
  {
    Frame(Sheet(width, lines, other), width, |lines|, 4 * width)
  }

  /** The pixel at `(x, y)` shows what was painted there. */
  lemma CanvasShows(width: nat, lines: Lines, other: Rgb, x: nat, y: nat, c: Rgb)
    requires width > 0 && (forall i | 0 <= i < |lines| :: lines[i].Some?) && x < width && y < |lines|
    requires c == if x == 0 || width >= 3 then lines[y].value else other
    ensures forall d :: Alike(c, d) ==> Matches(Canvas(width, lines, other), x, y, d)
  {
    hide Sheet;
    SheetAt(width, lines, other, y, 4 * x);
    SheetAt(width, lines, other, y, 4 * x + 1);
    SheetAt(width, lines, other, y, 4 * x + 2);
  }

  /** Every line of the canvas is solid in its own colour, and on a capture of one or
    * two pixels in `other` as well. */
  lemma CanvasSolid(width: nat, lines: Lines, other: Rgb, y: nat)
    requires width > 0 && (forall i | 0 <= i < |lines| :: lines[i].Some?) && y < |lines|
    ensures Solid(Canvas(width, lines, other), y, lines[y].value)
    ensures width <= 2 ==> Solid(Canvas(width, lines, other), y, other)
  {
    hide Canvas, Matches;
    var f, c := Canvas(width, lines, other), lines[y].value;
    forall x: nat | x < width && (x == 0 || width >= 3) ensures x in Shown(f, y, c) {
      CanvasShows(width, lines, other, x, y, c);
    }
    if width <= 2 {
      SubsetIsSmaller({0}, Shown(f, y, c));
      if width == 2 {
        CanvasShows(width, lines, other, 1, y, other);
        SubsetIsSmaller({1}, Shown(f, y, other));
      }
    } else {
      SubsetIsSmaller(Below(width), Shown(f, y, c));
    }
  }

  lemma {:induction false} CanvasPainted(width: nat, expected: seq<Rgb>, m: nat, other: Rgb)
    requires width > 0 && m > 0 && expected != []
    ensures Stripes(expected, m) != [] && Painted(Canvas(width, Stripes(expected, m), other), expected, m)
  {
    var lines := Stripes(expected, m);
    assert |lines| >= 1 * m;
    var f := Canvas(width, lines, other);
    StripesFit(expected, m, []);
    assert [] + lines == lines;
    var starts := FeasibleGivesPlaces(lines, expected, m, 0);
    hide Canvas, Solid;
    forall i, y: nat | 0 <= i < |starts| && starts[i] <= y < starts[i] + m ensures Solid(f, y, expected[i]) {
      assert Block(lines, starts[i], m, expected[i]);
      CanvasSolid(width, lines, other, y);
    }
    assert PaintedAt(f, expected, m, starts);
  }

  /** On that screen one of two confusable wanted colours is filed nowhere. */
  lemma CanvasUnreadable(width: nat, expected: seq<Rgb>, m: nat, i: nat, j: nat)
    requires width > 0 && m > 0 && i < |expected| && j < |expected| && expected[i] != expected[j]
    requires width <= 2 || Alike(expected[i], expected[j])
    ensures Stripes(expected, m) != [] && !Readable(Canvas(width, Stripes(expected, m), expected[0]), expected, m)
  {
    var lines := Stripes(expected, m);
    CanvasPainted(width, expected, m, expected[0]);
    var f := Canvas(width, lines, expected[0]);
    hide Canvas, Stripes, Readable, Filed, Solid;
    var a, b := expected[0], if expected[i] == expected[0] then j else i;
    if width <= 2 {
      assert Before(expected, a, expected[b]);
      forall y: nat | y < f.height ensures Filed(f, expected, y) != Some(expected[b]) {
        CanvasSolid(width, lines, a, y);
        NeverFiled(f, expected, a, expected[b], y);
      }
      MissingColour(f, expected, m, b);
    } else {
      OneComesFirst(expected, expected[i], expected[j]);
      var first, late := if Before(expected, expected[i], expected[j]) then i else j, if Before(expected, expected[i], expected[j]) then j else i;
      forall y: nat | y < f.height ensures Filed(f, expected, y) != Some(expected[late]) {
        AlikeTogether(f, y, expected[first], expected[late]);
        NeverFiled(f, expected, expected[first], expected[late], y);
      }
      MissingColour(f, expected, m, late);
    }
  }

  lemma AlikeTogether(f: Frame, y: nat, c: Rgb, d: Rgb)
    requires Alike(c, d)
    ensures Solid(f, y, c) <==> Solid(f, y, d)
  {
    if f.Valid() && y < f.height {
      assert Shown(f, y, c) == Shown(f, y, d);
    }
  }

  /** Exactly when the reading can be trusted: on every capture of this width it finds the
    * bands if and only if they are there, precisely when the wanted colours can be told
    * apart at that width. */
  lemma ReadingExact(width: nat, expected: seq<Rgb>, m: nat)
    requires width > 0 && m > 0
    ensures (forall f: Frame | f.Valid() && f.width == width :: Readable(f, expected, m) <==> Painted(f, expected, m))
       <==> Distinguishable(width, expected)
  {
    hide Readable, Painted;
    if Distinguishable(width, expected) {
      forall f: Frame | f.Valid() && f.width == width ensures Readable(f, expected, m) <==> Painted(f, expected, m) {
        ReadableIffPainted(f, expected, m);
      }
    } else {
      var i, j :| 0 <= i < |expected| && 0 <= j < |expected|
                  && !(expected[i] == expected[j] || (width >= 3 && !Alike(expected[i], expected[j])));
      CanvasPainted(width, expected, m, expected[0]);
      CanvasUnreadable(width, expected, m, i, j);
    }
  }
}
