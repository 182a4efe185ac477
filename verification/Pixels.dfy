/** The demo agent's pixel test: three colour planes turned into match masks and
  * AND-ed as one big integer, against the plain per-pixel comparison; and the
  * bounding box of a marker colour. */
module Pixels {
  import opened Bytes
  import opened Bits
  import opened Options

  datatype Rgb = Rgb(r: Byte, g: Byte, b: Byte)

  /** A capture: `stride * height` bytes, four to a pixel in the order B, G, R, X. */
  datatype Frame = Frame(raw: seq<Byte>, width: nat, height: nat, stride: nat) {
    predicate Valid()
    {
      width > 0 && height > 0 && stride >= 4 * width && |raw| == stride * height
    }
  }

  // ---- the plain test --------------------------------------------------------

  lemma PixelInside(f: Frame, x: nat, y: nat)
    requires f.Valid() && x < f.width && y < f.height
    ensures y * f.stride + 4 * x + 3 < |f.raw|
  {
    assert (y + 1) * f.stride <= f.height * f.stride;
    assert (y + 1) * f.stride == y * f.stride + f.stride;
  }

  /** Channel `c` of a pixel: 0 is blue, 1 green, 2 red. */
  function Channel(f: Frame, x: nat, y: nat, c: nat): Byte
    requires f.Valid() && x < f.width && y < f.height && c < 4
  {
    PixelInside(f, x, y);
    f.raw[y * f.stride + 4 * x + c]
  }

  /** The pixel and the colour agree in the top four bits of every channel. */
  predicate Matches(f: Frame, x: nat, y: nat, rgb: Rgb)
    requires f.Valid() && x < f.width && y < f.height
  {
    && Channel(f, x, y, 2) / 16 == rgb.r / 16
    && Channel(f, x, y, 1) / 16 == rgb.g / 16
    && Channel(f, x, y, 0) / 16 == rgb.b / 16
  }

  // ---- the big-integer test ----------------------------------------------------

  /** Rows `0..n` of the capture without their stride padding. */
  function PackedRows(f: Frame, n: nat): (bs: seq<Byte>)
    requires f.Valid() && n <= f.height
    ensures |bs| == 4 * f.width * n
  {
    if n == 0 then []
    else
      PixelInside(f, f.width - 1, n - 1);
      var start := (n - 1) * f.stride;
      assert 4 * f.width * n == 4 * f.width * (n - 1) + 4 * f.width;
      PackedRows(f, n - 1) + f.raw[start..start + 4 * f.width]
  }

  /** `_packed` */
  function Packed(f: Frame): (bs: seq<Byte>)
    requires f.Valid()
    ensures |bs| == 4 * (f.width * f.height)
  {
    if f.stride == 4 * f.width then f.raw else PackedRows(f, f.height)
  }

  /** `packed[offset::4]` */
  function Plane(packed: seq<Byte>, offset: nat): (p: seq<Byte>)
    requires offset < 4 && |packed| % 4 == 0
    ensures |p| == |packed| / 4
  {
    seq(|packed| / 4, i requires 0 <= i < |packed| / 4 => packed[4 * i + offset])
  }

  /** The two table lookups: keep the top nibble, then 0xFF where it is the
    * wanted one. */
  function Mask(plane: seq<Byte>, channel: Byte): (m: seq<Byte>)
    ensures |m| == |plane|
  {
    seq(|plane|, i requires 0 <= i < |plane| => if And(plane[i], 0xF0) == And(channel, 0xF0) then 0xFF else 0)
  }

  /** `int.from_bytes(s, "big")` */
  function FromBytes(s: seq<Byte>): nat
  {
    if s == [] then 0 else 256 * FromBytes(s[..|s| - 1]) + s[|s| - 1]
  }

  /** `n.to_bytes(len, "big")` for an `n` that fits. */
  function ToBytes(n: nat, len: nat): (s: seq<Byte>)
    ensures |s| == len
  {
    if len == 0 then [] else ToBytes(n / 256, len - 1) + [n % 256]
  }

  function Combined(f: Frame, rgb: Rgb): (s: seq<Byte>)
    requires f.Valid()
    ensures |s| == f.width * f.height
  {
    var p := Packed(f);
    var red, green, blue := Mask(Plane(p, 2), rgb.r), Mask(Plane(p, 1), rgb.g), Mask(Plane(p, 0), rgb.b);
    ToBytes(And(And(FromBytes(red), FromBytes(green)), FromBytes(blue)), |red|)
  }

  lemma RowInside(w: nat, h: nat, y: nat)
    requires y < h
    ensures y * w + w <= w * h
  {
    assert (y + 1) * w <= h * w;
  }

  /** Row `y` of a table `w` wide and `h` high, stored row after row. */
  function Row(table: seq<Byte>, w: nat, h: nat, y: nat): (row: seq<Byte>)
    requires |table| == w * h && y < h
    ensures |row| == w
  {
    RowInside(w, h, y);
    table[y * w..y * w + w]
  }

  /** `_match_rows` */
  function MatchRows(f: Frame, rgb: Rgb): (rows: seq<seq<Byte>>)
    requires f.Valid()
    ensures |rows| == f.height && forall y | 0 <= y < f.height :: |rows[y]| == f.width
  {
    var c := Combined(f, rgb);
    seq(f.height, y requires 0 <= y < f.height => Row(c, f.width, f.height, y))
  }

  // ---- bytes of a big AND ---------------------------------------------------------

  function BytewiseAnd(s: seq<Byte>, t: seq<Byte>): (r: seq<Byte>)
    requires |s| == |t|
    ensures |r| == |s|
  {
    seq(|s|, i requires 0 <= i < |s| => AndByte(s[i], t[i]))
  }

  function AndByte(a: Byte, b: Byte): (r: Byte)
  {
    AndBelow(a, b);
    And(a, b)
  }

  lemma {:induction false} AndOfBytes(s: seq<Byte>, t: seq<Byte>)
    requires |s| == |t|
    ensures And(FromBytes(s), FromBytes(t)) == FromBytes(BytewiseAnd(s, t))
    decreases |s|
  {
    if s != [] {
      var n := |s| - 1;
      AndOfBytes(s[..n], t[..n]);
      assert Pow2(4) == 16 && Pow2(8) == 256;
      AndSplit(8, FromBytes(s[..n]), s[n], FromBytes(t[..n]), t[n]);
      assert BytewiseAnd(s, t)[..n] == BytewiseAnd(s[..n], t[..n]);
    }
  }

  lemma {:induction false} ToBytesOfFromBytes(s: seq<Byte>)
    ensures ToBytes(FromBytes(s), |s|) == s
    decreases |s|
  {
    if s != [] {
      var n := |s| - 1;
      DivMod256(s[n], FromBytes(s[..n]));
      ToBytesOfFromBytes(s[..n]);
      assert s == s[..n] + [s[n]];
    }
  }

  lemma TopNibble(b: Byte)
    ensures And(b, 0xF0) == 16 * (b / 16)
  {
    assert Pow2(4) == 16;
    AndHighMask(4, b / 16, b % 16, 15);
    AndLowMask(4, b / 16);
  }

  lemma AndFlags(a: Byte, b: Byte)
    requires (a == 0 || a == 255) && (b == 0 || b == 255)
    ensures AndByte(a, b) == if a == 255 && b == 255 then 255 else 0
  {
  }

  // ---- where a pixel lands -----------------------------------------------------------

  lemma {:induction false} PackedRowsAt(f: Frame, n: nat, y: nat, k: nat)
    requires f.Valid() && y < n <= f.height && k < 4 * f.width
    ensures 0 <= y * (4 * f.width) + k < |PackedRows(f, n)|
    ensures 0 <= y * f.stride + k < |f.raw| && PackedRows(f, n)[y * (4 * f.width) + k] == f.raw[y * f.stride + k]
    decreases n
  {
    var w := 4 * f.width;
    RowInside(w, n, y);
    RowInside(f.stride, f.height, y);
    assert |PackedRows(f, n)| == w * n;
    if y < n - 1 {
      RowInside(w, n - 1, y);
      PackedRowsAt(f, n - 1, y, k);
    } else {
      LastRow(f, n, k);
    }
  }

  lemma LastRow(f: Frame, n: nat, k: nat)
    requires f.Valid() && 0 < n <= f.height && k < 4 * f.width
    ensures var i, j := (n - 1) * (4 * f.width) + k, (n - 1) * f.stride + k;
            0 <= i < |PackedRows(f, n)| && 0 <= j < |f.raw| && PackedRows(f, n)[i] == f.raw[j]
  {
    var w := 4 * f.width;
    RowInside(w, n, n - 1);
    RowInside(f.stride, f.height, n - 1);
    var head, start := PackedRows(f, n - 1), (n - 1) * f.stride;
    assert |head| == w * (n - 1) == (n - 1) * w;
    assert PackedRows(f, n) == head + f.raw[start..start + w];
  }

  /** Pixel `(x, y)` is number `y * width + x` of the packed capture. */
  lemma PackedAt(f: Frame, x: nat, y: nat, c: nat)
    requires f.Valid() && x < f.width && y < f.height && c < 4
    ensures 0 <= 4 * (y * f.width + x) + c < |Packed(f)|
    ensures Packed(f)[4 * (y * f.width + x) + c] == Channel(f, x, y, c)
  {
    hide Packed;
    Regroup(y, f.width, x, c);
    PackedIndex(f, y, 4 * x + c);
  }

  lemma PackedIndex(f: Frame, y: nat, k: nat)
    requires f.Valid() && y < f.height && k < 4 * f.width
    ensures 0 <= y * (4 * f.width) + k < |Packed(f)| && 0 <= y * f.stride + k < |f.raw|
    ensures Packed(f)[y * (4 * f.width) + k] == f.raw[y * f.stride + k]
  {
    hide PackedRows;
    if f.stride == 4 * f.width {
      RowInside(f.stride, f.height, y);
    } else {
      PackedRowsAt(f, f.height, y, k);
    }
  }

  lemma Regroup(y: nat, w: nat, x: nat, c: nat)
    ensures 4 * (y * w + x) + c == y * (4 * w) + (4 * x + c)
  {
  }

  /** A combined byte is 0xFF where all three planes match, and else 0x00. */
  lemma CombinedAt(f: Frame, rgb: Rgb, i: nat)
    requires f.Valid() && i < f.width * f.height
    ensures var p := Packed(f);
            && 4 * i + 3 < |p|
            && Combined(f, rgb)[i] == if p[4 * i + 2] / 16 == rgb.r / 16 && p[4 * i + 1] / 16 == rgb.g / 16
                                         && p[4 * i] / 16 == rgb.b / 16 then 255 else 0
  {
    hide And;
    var p := Packed(f);
    var red, green, blue := Mask(Plane(p, 2), rgb.r), Mask(Plane(p, 1), rgb.g), Mask(Plane(p, 0), rgb.b);
    var two := BytewiseAnd(red, green);
    AndOfBytes(red, green);
    AndOfBytes(two, blue);
    ToBytesOfFromBytes(BytewiseAnd(two, blue));
    TopNibble(p[4 * i + 2]);
    TopNibble(p[4 * i + 1]);
    TopNibble(p[4 * i]);
    TopNibble(rgb.r);
    TopNibble(rgb.g);
    TopNibble(rgb.b);
    AndFlags(red[i], green[i]);
    AndFlags(two[i], blue[i]);
  }

  /** The big-integer mask is the per-pixel test, for every frame and colour. */
  lemma MatchRowsIsPixelTest(f: Frame, rgb: Rgb, x: nat, y: nat)
    requires f.Valid() && x < f.width && y < f.height
    ensures MatchRows(f, rgb)[y][x] == if Matches(f, x, y, rgb) then 255 else 0
  {
    hide Combined, Packed;
    RowInside(f.width, f.height, y);
    var i := y * f.width + x;
    CombinedAt(f, rgb, i);
    PackedAt(f, x, y, 2);
    PackedAt(f, x, y, 1);
    PackedAt(f, x, y, 0);
  }

  // ---- locating a marker ------------------------------------------------------------

  /** `row.count(0xFF)` */
  function Hits(row: seq<Byte>): (n: nat)
    ensures n <= |row|
    ensures n == 0 <==> 255 !in row
  {
    if row == [] then 0 else Hits(row[..|row| - 1]) + (if row[|row| - 1] == 255 then 1 else 0)
  }

  /** Counting is cardinality. */
  lemma {:induction false} HitsIsSize(row: seq<Byte>)
    ensures Hits(row) == |set x | 0 <= x < |row| && row[x] == 255|
  {
    if row != [] {
      var n := |row| - 1;
      HitsIsSize(row[..n]);
      var before, all := set x | 0 <= x < n && row[..n][x] == 255, set x | 0 <= x < |row| && row[x] == 255;
      assert all == if row[n] == 255 then before + {n} else before;
    }
  }

  /** `row.find(b"\xff")` */
  function FirstHit(row: seq<Byte>): (x: nat)
    requires 255 in row
    ensures x < |row| && row[x] == 255 && forall i | 0 <= i < x :: row[i] != 255
  {
    if row[0] == 255 then 0
    else
      assert row == [row[0]] + row[1..];
      1 + FirstHit(row[1..])
  }

  /** `row.rfind(b"\xff")` */
  function LastHit(row: seq<Byte>): (x: nat)
    requires 255 in row
    ensures x < |row| && row[x] == 255 && forall i | x < i < |row| :: row[i] != 255
  {
    var n := |row| - 1;
    if row[n] == 255 then n
    else
      assert row == row[..n] + [row[n]];
      LastHit(row[..n])
  }

  datatype Box = Box(x0: nat, y0: nat, x1: nat, y1: nat)

  datatype Marker = Marker(box: Box, count: nat)

  function TotalHits(rows: seq<seq<Byte>>): nat
  {
    if rows == [] then 0 else TotalHits(rows[..|rows| - 1]) + Hits(rows[|rows| - 1])
  }

  predicate HitAt(rows: seq<seq<Byte>>, x: nat, y: nat)
  {
    y < |rows| && x < |rows[y]| && rows[y][x] == 255
  }

  /** The box holds every hit and each of its sides touches one. */
  ghost predicate Tight(rows: seq<seq<Byte>>, box: Box)
  {
    && (forall x: nat, y: nat | HitAt(rows, x, y) :: box.x0 <= x < box.x1 && box.y0 <= y < box.y1)
    && (exists x: nat, y: nat :: HitAt(rows, x, y) && x == box.x0)
    && (exists x: nat, y: nat :: HitAt(rows, x, y) && x + 1 == box.x1)
    && (exists x: nat, y: nat :: HitAt(rows, x, y) && y == box.y0)
    && (exists x: nat, y: nat :: HitAt(rows, x, y) && y + 1 == box.y1)
  }

  /** The pixels of a frame that match. */
  ghost function Matching(f: Frame, rgb: Rgb): set<(nat, nat)>
    requires f.Valid()
  {
    set x: nat, y: nat | x < f.width && y < f.height && Matches(f, x, y, rgb) :: (x, y)
  }

  /** The smallest box around a set of pixels: they are all inside, and each of
    * its four sides touches one. */
  ghost predicate Bounds(box: Box, pixels: set<(nat, nat)>)
  {
    && (forall p | p in pixels :: box.x0 <= p.0 < box.x1 && box.y0 <= p.1 < box.y1)
    && (exists p :: p in pixels && p.0 == box.x0)
    && (exists p :: p in pixels && p.0 + 1 == box.x1)
    && (exists p :: p in pixels && p.1 == box.y0)
    && (exists p :: p in pixels && p.1 + 1 == box.y1)
  }

  ghost function HitSet(rows: seq<seq<Byte>>): (s: set<(nat, nat)>)
    ensures forall x: nat, y: nat :: (x, y) in s <==> HitAt(rows, x, y)
  {
    if rows == [] then {}
    else
      var n := |rows| - 1;
      HitSet(rows[..n]) + RowSet(rows[n], n)
  }

  ghost function RowSet(row: seq<Byte>, y: nat): (s: set<(nat, nat)>)
    ensures forall x: nat, z: nat :: (x, z) in s <==> z == y && x < |row| && row[x] == 255
    ensures |s| == Hits(row)
  {
    if row == [] then {}
    else
      var n := |row| - 1;
      if row[n] == 255 then RowSet(row[..n], y) + {(n, y)} else RowSet(row[..n], y)
  }

  /** The count over all rows is the number of positions hit. */
  lemma {:induction false} TotalIsSize(rows: seq<seq<Byte>>)
    ensures TotalHits(rows) == |HitSet(rows)|
  {
    if rows != [] {
      var n := |rows| - 1;
      TotalIsSize(rows[..n]);
      assert HitSet(rows[..n]) !! RowSet(rows[n], n) by {
        forall p | p in HitSet(rows[..n]) ensures p !in RowSet(rows[n], n) {
          assert p == (p.0, p.1);
        }
      }
    }
  }

  /** The positions hit are the pixels that match. */
  lemma HitsAreMatching(f: Frame, rgb: Rgb)
    requires f.Valid()
    ensures HitSet(MatchRows(f, rgb)) == Matching(f, rgb)
  {
    hide MatchRows, Matches, HitSet;
    var rows := MatchRows(f, rgb);
    forall x: nat, y: nat ensures (x, y) in HitSet(rows) <==> (x, y) in Matching(f, rgb) {
      if x < f.width && y < f.height {
        MatchRowsIsPixelTest(f, rgb, x, y);
      }
    }
    forall p: (nat, nat) ensures p in HitSet(rows) <==> p in Matching(f, rgb) {
      assert p == (p.0, p.1);
    }
  }

  /** So a box tight around the hits bounds the pixels. */
  lemma TightThenBounds(rows: seq<seq<Byte>>, box: Box)
    requires Tight(rows, box)
    ensures Bounds(box, HitSet(rows))
  {
    hide HitSet, HitAt;
    forall p | p in HitSet(rows) ensures box.x0 <= p.0 < box.x1 && box.y0 <= p.1 < box.y1 {
      assert p == (p.0, p.1);
    }
    var a: nat, b: nat :| HitAt(rows, a, b) && a == box.x0;
    assert (a, b) in HitSet(rows);
    var c: nat, d: nat :| HitAt(rows, c, d) && c + 1 == box.x1;
    assert (c, d) in HitSet(rows);
    var e: nat, g: nat :| HitAt(rows, e, g) && g == box.y0;
    assert (e, g) in HitSet(rows);
    var h: nat, i: nat :| HitAt(rows, h, i) && i + 1 == box.y1;
    assert (h, i) in HitSet(rows);
  }

  /** The box grown by one row. */
  function Grow(box: Option<Box>, row: seq<Byte>, y: nat): (r: Option<Box>)
  {
    if 255 !in row then box
    else
      var first, last := FirstHit(row), LastHit(row);
      match box
      case None => Some(Box(first, y, last + 1, y + 1))
      case Some(b) => Some(Box(if first < b.x0 then first else b.x0, b.y0, if last + 1 > b.x1 then last + 1 else b.x1, y + 1))
  }

  ghost predicate Located(rows: seq<seq<Byte>>, box: Option<Box>)
  {
    match box
    case None => forall x: nat, y: nat :: !HitAt(rows, x, y)
    case Some(b) => Tight(rows, b)
  }

  lemma GrowLocates(rows: seq<seq<Byte>>, row: seq<Byte>, box: Option<Box>)
    requires Located(rows, box)
    ensures Located(rows + [row], Grow(box, row, |rows|))
  {
    var all, n := rows + [row], |rows|;
    forall x: nat, y: nat ensures HitAt(all, x, y) <==> HitAt(rows, x, y) || (y == n && x < |row| && row[x] == 255) {
    }
    if 255 in row {
      var first, last := FirstHit(row), LastHit(row);
      assert HitAt(all, first, n) && HitAt(all, last, n);
      var g := Grow(box, row, n).value;
      forall x: nat, y: nat | HitAt(all, x, y) ensures g.x0 <= x < g.x1 && g.y0 <= y < g.y1 {
        assert y != n ==> HitAt(rows, x, y);
      }
      if box.Some? {
        SidesStay(rows, row, box.value);
      }
    } else if box.Some? {
      SidesStay(rows, row, box.value);
    }
  }

  /** Hits that touch the box's sides are still there with one more row. */
  lemma SidesStay(rows: seq<seq<Byte>>, row: seq<Byte>, b: Box)
    requires Tight(rows, b)
    ensures exists x: nat, y: nat :: HitAt(rows + [row], x, y) && x == b.x0
    ensures exists x: nat, y: nat :: HitAt(rows + [row], x, y) && x + 1 == b.x1
    ensures exists x: nat, y: nat :: HitAt(rows + [row], x, y) && y == b.y0
    ensures exists x: nat, y: nat :: HitAt(rows + [row], x, y) && y + 1 == b.y1
  {
    forall x: nat, y: nat | HitAt(rows, x, y) ensures HitAt(rows + [row], x, y) {
    }
  }

  /** `locate_marker`: the tight bounding box and the number of the pixels that
    * match, or nothing when none does. */
  method LocateMarker(f: Frame, rgb: Rgb) returns (r: Option<Marker>)
    requires f.Valid()
    ensures r.None? <==> forall x, y | 0 <= x < f.width && 0 <= y < f.height :: !Matches(f, x, y, rgb)
    ensures r.Some? ==> Bounds(r.value.box, Matching(f, rgb)) && r.value.count == |Matching(f, rgb)| > 0
  {
    hide MatchRows, Tight, Grow, Matches;
    var rows := MatchRows(f, rgb);
    var count := 0;
    var box: Option<Box> := None;
    for y := 0 to f.height
      invariant count == TotalHits(rows[..y]) && (count == 0 <==> box.None?)
      invariant Located(rows[..y], box)
    {
      var hits := Hits(rows[y]);
      assert rows[..y + 1] == rows[..y] + [rows[y]];
      GrowLocates(rows[..y], rows[y], box);
      if hits == 0 {
        GrowKeeps(box, rows[y], y);
        continue;
      }
      count := count + hits;
      box := Widen(box, rows[y], y);
    }
    assert rows[..f.height] == rows;
    forall x, y | 0 <= x < f.width && 0 <= y < f.height ensures Matches(f, x, y, rgb) <==> HitAt(rows, x, y) {
      MatchRowsIsPixelTest(f, rgb, x, y);
    }
    if count == 0 {
      return None;
    }
    SomeHit(rows, box.value);
    HitsAreMatching(f, rgb);
    TotalIsSize(rows);
    TightThenBounds(rows, box.value);
    return Some(Marker(box.value, count));
  }

  lemma GrowKeeps(box: Option<Box>, row: seq<Byte>, y: nat)
    requires 255 !in row
    ensures Grow(box, row, y) == box
  {
  }

  lemma SomeHit(rows: seq<seq<Byte>>, b: Box)
    requires Tight(rows, b)
    ensures exists x: nat, y: nat :: HitAt(rows, x, y)
  {
  }

  /** The body of the loop on a row that has hits. */
  method Widen(box: Option<Box>, row: seq<Byte>, y: nat) returns (r: Option<Box>)
    requires 255 in row
    ensures r == Grow(box, row, y) && r.Some?
  {
    var first, last := FirstHit(row), LastHit(row);
    if box.None? {
      return Some(Box(first, y, last + 1, y + 1));
    }
    var b := box.value;
    var x0 := if first < b.x0 then first else b.x0;
    var x1 := if last + 1 > b.x1 then last + 1 else b.x1;
    return Some(Box(x0, b.y0, x1, y + 1));
  }
}
