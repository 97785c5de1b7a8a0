/**
  The Deep Zoom tile pyramid the tiling script produces: level sizes halving
  from the full image down to one pixel, each level cut into 256-pixel tiles
  that overlap their neighbours by one pixel, and the `.dzi` descriptor.
  The commands the script hands to ffmpeg are modelled as values: one
  `Scale` per level followed by that level's `Crop`s, in loop order.
 */
module DeepZoom {
  import opened JsString
  import opened Options

  /** `TILE_SIZE`. */
  const TileSize: nat := 256
  /** `OVERLAP`. */
  const Overlap: nat := 1

  function Pow2(k: nat): (r: nat)
    ensures r >= 1
  {
    if k == 0 then 1 else 2 * Pow2(k - 1)
  }

  lemma {:induction false} Pow2Monotone(j: nat, k: nat)
    requires j <= k
    ensures Pow2(j) <= Pow2(k)
    decreases k
  {
    if j < k {
      Pow2Monotone(j, k - 1);
    }
  }

  /** `Math.ceil(a / b)` for a non-negative numerator and positive
      denominator: the least r with r * b >= a. */
  function CeilDiv(a: nat, b: nat): (r: nat)
    requires b > 0
    ensures r * b >= a
    ensures r > 0 ==> (r - 1) * b < a
  {
    var q := (a + b - 1) / b;
    assert a + b - 1 == q * b + (a + b - 1) % b;
    assert (q - 1) * b == q * b - b;
    q
  }

  /** No smaller multiple covers a. */
  lemma CeilDivLeast(a: nat, b: nat, r: nat)
    requires b > 0 && r * b >= a
    ensures CeilDiv(a, b) <= r
  {
  }

  /** A larger divisor gives a smaller or equal quotient. */
  lemma CeilDivAntitone(a: nat, b: nat, c: nat)
    requires 0 < b <= c
    ensures CeilDiv(a, c) <= CeilDiv(a, b)
  {
    var q := CeilDiv(a, b);
    assert q * c >= q * b by {
      assert q * c == q * b + q * (c - b);
    }
    CeilDivLeast(a, c, q);
  }

  /** `levelSize(original, level, maxLevel)`: the extent of the image at a
      level, halved `maxLevel - level` times and rounded up, never 0. */
  function LevelSize(original: nat, level: nat, maxLevel: nat): (r: nat)
    requires level <= maxLevel
    ensures r >= 1
  {
    Max(1, CeilDiv(original, Pow2(maxLevel - level)))
  }

  /** The top level is the image at its own size. */
  lemma LevelSizeAtTop(original: nat, maxLevel: nat)
    requires original >= 1
    ensures LevelSize(original, maxLevel, maxLevel) == original
  {
    assert Pow2(0) == 1;
  }

  /** No level is larger than the image. */
  lemma LevelSizeBounded(original: nat, level: nat, maxLevel: nat)
    requires original >= 1 && level <= maxLevel
    ensures LevelSize(original, level, maxLevel) <= original
  {
    var f := Pow2(maxLevel - level);
    assert original * f >= original by {
      assert original * f == original + original * (f - 1);
    }
    CeilDivLeast(original, f, original);
  }

  /** Sizes do not shrink from one level to the next. */
  lemma LevelSizeMonotone(original: nat, level: nat, maxLevel: nat)
    requires level < maxLevel
    ensures LevelSize(original, level, maxLevel) <= LevelSize(original, level + 1, maxLevel)
  {
    Pow2Monotone(maxLevel - (level + 1), maxLevel - level);
    CeilDivAntitone(original, Pow2(maxLevel - (level + 1)), Pow2(maxLevel - level));
  }

  /** `maxLevel`: the smallest k with 2^k >= n, the integer reading of
      `Math.ceil(Math.log2(n))`. */
  function CeilLog2(n: nat): (k: nat)
    requires n >= 1
    ensures Pow2(k) >= n
    ensures k > 0 ==> Pow2(k - 1) < n
    decreases n
  {
    if n == 1 then 0
    else
      var h := CeilDiv(n, 2);
      var k' := CeilLog2(h);
      assert k' > 0 ==> Pow2(k' - 1) < h;
      1 + k'
  }

  /** The number of the top level for an image. */
  function MaxLevel(width: nat, height: nat): (m: nat)
    requires width >= 1 && height >= 1
  {
    CeilLog2(Max(width, height))
  }

  /** Level 0 is a single pixel, and the top level is the full image. */
  lemma LevelZeroIsOnePixel(width: nat, height: nat)
    requires width >= 1 && height >= 1
    ensures var m := MaxLevel(width, height);
      && LevelSize(width, 0, m) == 1 && LevelSize(height, 0, m) == 1
      && LevelSize(width, m, m) == width && LevelSize(height, m, m) == height
  {
    var m := MaxLevel(width, height);
    CeilDivLeast(width, Pow2(m), 1);
    CeilDivLeast(height, Pow2(m), 1);
    LevelSizeAtTop(width, m);
    LevelSizeAtTop(height, m);
  }

  /** `Math.ceil(extent / TILE_SIZE)`: the columns (or rows) of a level. */
  function TileCount(extent: nat): (n: nat)
  {
    CeilDiv(extent, TileSize)
  }

  /** An interval of pixels along one axis. */
  datatype Span = Span(start: int, size: int)

  /** The pixels tile `i` owns along an axis: `coreW` (or `coreH`) pixels
      from `i * TILE_SIZE`. */
  function CoreSpan(extent: nat, i: nat): Span
  {
    Span(i * TileSize, Min(TileSize, extent - i * TileSize))
  }

  /** The pixels tile `i` is cut from: the core widened by the overlap on
      every side that has a neighbour. */
  function CropSpan(extent: nat, i: nat): Span
  {
    var core := CoreSpan(extent, i);
    var lead := if i == 0 then 0 else Overlap;
    var trail := if i == TileCount(extent) - 1 then 0 else Overlap;
    Span(core.start - lead, core.size + lead + trail)
  }

  /** Every core is 1 to 256 pixels wide; all but the last are full, and
      the last ends at the edge of the level, so consecutive cores meet. */
  lemma CoreSizes(extent: nat, i: nat)
    requires extent >= 1 && i < TileCount(extent)
    ensures 1 <= CoreSpan(extent, i).size <= TileSize
    ensures i < TileCount(extent) - 1 ==> CoreSpan(extent, i).size == TileSize
    ensures i == TileCount(extent) - 1 ==> CoreSpan(extent, i).start + CoreSpan(extent, i).size == extent
  {
    var n := TileCount(extent);
    assert i * TileSize <= (n - 1) * TileSize by {
      assert (n - 1) * TileSize == i * TileSize + (n - 1 - i) * TileSize;
    }
    if i < n - 1 {
      assert (i + 1) * TileSize <= (n - 1) * TileSize by {
        assert (n - 1) * TileSize == (i + 1) * TileSize + (n - 2 - i) * TileSize;
      }
    } else {
      assert n * TileSize == i * TileSize + TileSize;
    }
  }

  /** The cores tile the level exactly: each pixel along the axis lies in
      the core of exactly one tile. */
  lemma CoresPartition(extent: nat, x: nat)
    requires x < extent
    ensures var i := x / TileSize;
      && i < TileCount(extent)
      && CoreSpan(extent, i).start <= x < CoreSpan(extent, i).start + CoreSpan(extent, i).size
    ensures forall j: nat | j < TileCount(extent) && CoreSpan(extent, j).start <= x < CoreSpan(extent, j).start + CoreSpan(extent, j).size ::
      j == x / TileSize
  {
    var i := x / TileSize;
    var n := TileCount(extent);
    assert i * TileSize <= x < i * TileSize + TileSize;
    forall j: nat | j < n && CoreSpan(extent, j).start <= x < CoreSpan(extent, j).start + CoreSpan(extent, j).size
      ensures j == i
    {
      CoreSizes(extent, j);
    }
  }

  /** The overlap is 0 on the border of the level and 1 inside it, and the
      crop covers the core and stays inside the level. */
  lemma CropInside(extent: nat, i: nat)
    requires extent >= 1 && i < TileCount(extent)
    ensures var core := CoreSpan(extent, i);
      var crop := CropSpan(extent, i);
      && crop.start == core.start - (if i == 0 then 0 else 1)
      && crop.start + crop.size == core.start + core.size + (if i == TileCount(extent) - 1 then 0 else 1)
      && 0 <= crop.start && crop.start + crop.size <= extent
  {
    CoreSizes(extent, i);
    var n := TileCount(extent);
    if i < n - 1 {
      assert (i + 1) * TileSize < extent by {
        assert (n - 1) * TileSize == (i + 1) * TileSize + (n - 2 - i) * TileSize;
      }
    }
  }

  /** A crop rectangle `crop=w:h:x:y`. */
  datatype Rect = Rect(x: int, y: int, w: int, h: int)

  /** What the script asks ffmpeg for: the image scaled to a level, or one
      tile of it cut out and written as `<level>/<col>_<row>.jpg`. */
  datatype Command =
    | Scale(level: nat, width: nat, height: nat)
    | Crop(level: nat, col: nat, row: nat, rect: Rect)

  /** The crop command of the tile at (col, row) of a level. */
  function TileCommand(level: nat, levelWidth: nat, levelHeight: nat, col: nat, row: nat): Command
  {
    var x := CropSpan(levelWidth, col);
    var y := CropSpan(levelHeight, row);
    Crop(level, col, row, Rect(x.start, y.start, x.size, y.size))
  }

  /** The tiles of one row, left to right. */
  function RowCommands(level: nat, levelWidth: nat, levelHeight: nat, row: nat): (cs: seq<Command>)
    ensures |cs| == TileCount(levelWidth)
  {
    seq(TileCount(levelWidth), col requires 0 <= col => TileCommand(level, levelWidth, levelHeight, col, row))
  }

  /** The tiles of the first `rows` rows, row by row. */
  function GridCommands(level: nat, levelWidth: nat, levelHeight: nat, rows: nat): seq<Command>
  {
    if rows == 0 then []
    else GridCommands(level, levelWidth, levelHeight, rows - 1) + RowCommands(level, levelWidth, levelHeight, rows - 1)
  }

  /** A level: its scaling, then its tiles. */
  function LevelCommands(width: nat, height: nat, maxLevel: nat, level: nat): seq<Command>
    requires level <= maxLevel
  {
    var w := LevelSize(width, level, maxLevel);
    var h := LevelSize(height, level, maxLevel);
    [Scale(level, w, h)] + GridCommands(level, w, h, TileCount(h))
  }

  /** The first `levels` levels, from level 0 up. */
  function PyramidCommands(width: nat, height: nat, maxLevel: nat, levels: nat): seq<Command>
    requires levels <= maxLevel + 1
  {
    if levels == 0 then []
    else PyramidCommands(width, height, maxLevel, levels - 1) + LevelCommands(width, height, maxLevel, levels - 1)
  }

  /** The grid holds rows × columns tiles. */
  lemma {:induction false} GridLength(level: nat, levelWidth: nat, levelHeight: nat, rows: nat)
    ensures |GridCommands(level, levelWidth, levelHeight, rows)| == rows * TileCount(levelWidth)
    decreases rows
  {
    if rows > 0 {
      GridLength(level, levelWidth, levelHeight, rows - 1);
      RowStart(rows - 1, TileCount(levelWidth), 0);
    }
  }

  /** Row by row: the tile at (col, row) is in position row * columns + col. */
  lemma {:induction false} GridShape(level: nat, levelWidth: nat, levelHeight: nat, rows: nat, row: nat, col: nat)
    requires row < rows && col < TileCount(levelWidth)
    ensures |GridCommands(level, levelWidth, levelHeight, rows)| == rows * TileCount(levelWidth)
    ensures row * TileCount(levelWidth) + col < |GridCommands(level, levelWidth, levelHeight, rows)|
    ensures GridCommands(level, levelWidth, levelHeight, rows)[row * TileCount(levelWidth) + col]
      == TileCommand(level, levelWidth, levelHeight, col, row)
    decreases rows
  {
    var n := TileCount(levelWidth);
    var before := GridCommands(level, levelWidth, levelHeight, rows - 1);
    var last := RowCommands(level, levelWidth, levelHeight, rows - 1);
    GridLength(level, levelWidth, levelHeight, rows - 1);
    GridLength(level, levelWidth, levelHeight, rows);
    RowStart(rows - 1, n, 0);
    if row < rows - 1 {
      GridShape(level, levelWidth, levelHeight, rows - 1, row, col);
    } else {
      assert row * n + col == |before| + col;
    }
  }

  /** Position `row * n + col` lies in row `row` of a grid `n` wide. */
  lemma RowStart(row: nat, n: nat, col: nat)
    requires col < n || (col == 0)
    ensures row * n + col < (row + 1) * n || n == 0
    ensures (row + 1) * n == row * n + n
  {
  }

  /** Every tile of a level is cut from inside the scaled image. */
  lemma TilesInside(level: nat, levelWidth: nat, levelHeight: nat, col: nat, row: nat)
    requires levelWidth >= 1 && levelHeight >= 1
    requires col < TileCount(levelWidth) && row < TileCount(levelHeight)
    ensures var r := TileCommand(level, levelWidth, levelHeight, col, row).rect;
      && 0 <= r.x && r.x + r.w <= levelWidth
      && 0 <= r.y && r.y + r.h <= levelHeight
  {
    CropInside(levelWidth, col);
    CropInside(levelHeight, row);
  }

  /** The inner loop of the tiling script: the tiles of one row, left to
      right, each with its core widened by the overlap. */
  method CutRow(level: nat, levelWidth: nat, levelHeight: nat, row: nat) returns (commands: seq<Command>)
    ensures commands == RowCommands(level, levelWidth, levelHeight, row)
  {
    var columns: int := CeilDiv(levelWidth, TileSize);
    var rows: int := CeilDiv(levelHeight, TileSize);
    commands := [];
    var col := 0;
    while col < columns
      invariant col <= columns
      invariant commands == RowCommands(level, levelWidth, levelHeight, row)[..col]
    {
      var coreW := Min(TileSize, levelWidth - col * TileSize);
      var coreH := Min(TileSize, levelHeight - row * TileSize);
      var leftOverlap := if col == 0 then 0 else Overlap;
      var rightOverlap := if col == columns - 1 then 0 else Overlap;
      var topOverlap := if row == 0 then 0 else Overlap;
      var bottomOverlap := if row == rows - 1 then 0 else Overlap;
      var cropX := col * TileSize - leftOverlap;
      var cropY := row * TileSize - topOverlap;
      var cropW := coreW + leftOverlap + rightOverlap;
      var cropH := coreH + topOverlap + bottomOverlap;
      assert Crop(level, col, row, Rect(cropX, cropY, cropW, cropH))
        == RowCommands(level, levelWidth, levelHeight, row)[col];
      commands := commands + [Crop(level, col, row, Rect(cropX, cropY, cropW, cropH))];
      assert RowCommands(level, levelWidth, levelHeight, row)[..col + 1]
        == RowCommands(level, levelWidth, levelHeight, row)[..col] + [RowCommands(level, levelWidth, levelHeight, row)[col]];
      col := col + 1;
    }
    assert RowCommands(level, levelWidth, levelHeight, row)[..col] == RowCommands(level, levelWidth, levelHeight, row);
  }

  /** One pass of the level loop: scale the image to the level's size,
      then cut its rows of tiles from top to bottom. */
  method CutLevel(width: nat, height: nat, maxLevel: nat, level: nat) returns (commands: seq<Command>)
    requires level <= maxLevel
    ensures commands == LevelCommands(width, height, maxLevel, level)
  {
    var levelWidth := LevelSize(width, level, maxLevel);
    var levelHeight := LevelSize(height, level, maxLevel);
    commands := [Scale(level, levelWidth, levelHeight)];
    var rows := CeilDiv(levelHeight, TileSize);
    var row := 0;
    while row < rows
      invariant row <= rows
      invariant commands == [Scale(level, levelWidth, levelHeight)] + GridCommands(level, levelWidth, levelHeight, row)
    {
      var tiles := CutRow(level, levelWidth, levelHeight, row);
      commands := commands + tiles;
      row := row + 1;
    }
  }

  /** The main loop of the tiling script: every level from 0 to
      `maxLevel`, smallest first. */
  method TilePyramid(width: nat, height: nat) returns (commands: seq<Command>)
    requires width >= 1 && height >= 1
    ensures var m := MaxLevel(width, height);
      commands == PyramidCommands(width, height, m, m + 1)
  {
    var maxLevel := CeilLog2(Max(width, height));
    commands := [];
    var level := 0;
    while level <= maxLevel
      invariant level <= maxLevel + 1
      invariant commands == PyramidCommands(width, height, maxLevel, level)
    {
      var levelCommands := CutLevel(width, height, maxLevel, level);
      commands := commands + levelCommands;
      level := level + 1;
    }
  }

  /** Each level contributes one scaling and rows × columns tiles. */
  lemma LevelTileCount(width: nat, height: nat, maxLevel: nat, level: nat)
    requires level <= maxLevel
    ensures var w := LevelSize(width, level, maxLevel);
      var h := LevelSize(height, level, maxLevel);
      |LevelCommands(width, height, maxLevel, level)| == 1 + TileCount(h) * TileCount(w)
  {
    var w := LevelSize(width, level, maxLevel);
    var h := LevelSize(height, level, maxLevel);
    GridLength(level, w, h, TileCount(h));
  }

  /** `${col}_${row}.jpg` under the level's directory `String(level)`. */
  function TilePath(level: nat, col: nat, row: nat): string
  {
    NatToString(level) + ("/" + (NatToString(col) + ("_" + (NatToString(row) + ".jpg"))))
  }

  /** Reading a tile path back into its level, column and row. */
  function ParseTilePath(path: string): (r: Option<(nat, nat, nat)>)
  {
    var (level, rest) := ReadNat(path);
    if |rest| == 0 || rest[0] != '/' then None
    else
      var (col, rest') := ReadNat(rest[1..]);
      if |rest'| == 0 || rest'[0] != '_' then None
      else
        var (row, tail) := ReadNat(rest'[1..]);
        if tail == ".jpg" then Some((level, col, row)) else None
  }

  /** The tile path names the tile it was made for. */
  lemma ParseTilePathRoundTrip(level: nat, col: nat, row: nat)
    ensures ParseTilePath(TilePath(level, col, row)) == Some((level, col, row))
  {
    var r := NatToString(row) + ".jpg";
    var c := NatToString(col) + ("_" + r);
    ReadNatOfRendered(level, "/" + c);
    assert ("/" + c)[1..] == c;
    ReadNatOfRendered(col, "_" + r);
    assert ("_" + r)[1..] == r;
    ReadNatOfRendered(row, ".jpg");
  }

  /** So no two tiles of the pyramid are written to the same file. */
  lemma TilePathsDistinct(level: nat, col: nat, row: nat, level': nat, col': nat, row': nat)
    requires TilePath(level, col, row) == TilePath(level', col', row')
    ensures level == level' && col == col' && row == row'
  {
    ParseTilePathRoundTrip(level, col, row);
    ParseTilePathRoundTrip(level', col', row');
  }

  const DziHead: string := "<?xml version=\"1.0\" encoding=\"UTF-8\"?>\n<Image TileSize=\""
  const DziFormat: string := "\" Format=\"jpg\" xmlns=\"http://schemas.microsoft.com/deepzoom/2008\">\n  <Size Width=\""
  const DziMid: string := "\" Height=\""
  const DziTail: string := "\"/>\n</Image>\n"

  /** The fixed part of every descriptor, up to the width. */
  const DziHeader: string :=
    DziHead + NatToString(TileSize) + "\" Overlap=\"" + NatToString(Overlap) + DziFormat

  /** `createDziXml(width, height)`. */
  function CreateDziXml(width: nat, height: nat): string
  {
    DziHeader + (NatToString(width) + (DziMid + (NatToString(height) + DziTail)))
  }

  /** The header records tile size 256, overlap 1, JPEG tiles and the Deep
      Zoom 2008 namespace. */
  lemma DziHeaderRendered()
    ensures DziHeader == DziHead + "256" + "\" Overlap=\"" + "1" + DziFormat
  {
    NatToString256();
    assert NatToString(1) == "1";
  }

  lemma NatToString256()
    ensures NatToString(256) == "256"
  {
    assert 256 / 10 == 25 && 256 % 10 == 6 && 25 / 10 == 2 && 25 % 10 == 5;
    assert NatToString(2) == "2";
    assert NatToString(25) == NatToString(2) + [DigitChar(5)];
    assert NatToString(256) == NatToString(25) + [DigitChar(6)];
  }

  /** Reading the image size back from a descriptor. */
  function ParseDzi(xml: string): (r: Option<(nat, nat)>)
  {
    if !StartsWith(xml, DziHeader) then None
    else
      var (width, rest) := ReadNat(xml[|DziHeader|..]);
      if !StartsWith(rest, DziMid) then None
      else
        var (height, tail) := ReadNat(rest[|DziMid|..]);
        if tail == DziTail then Some((width, height)) else None
  }

  /** The descriptor starts with the fixed header and records the image's
      original width and height, which read back exactly. */
  lemma DziRoundTrip(width: nat, height: nat)
    ensures StartsWith(CreateDziXml(width, height), DziHeader)
    ensures ParseDzi(CreateDziXml(width, height)) == Some((width, height))
  {
    var xml := CreateDziXml(width, height);
    var afterHeight := NatToString(height) + DziTail;
    var afterWidth := NatToString(width) + (DziMid + afterHeight);
    assert xml[..|DziHeader|] == DziHeader;
    assert xml[|DziHeader|..] == afterWidth;
    ReadNatOfRendered(width, DziMid + afterHeight);
    assert (DziMid + afterHeight)[..|DziMid|] == DziMid;
    assert (DziMid + afterHeight)[|DziMid|..] == afterHeight;
    ReadNatOfRendered(height, DziTail);
  }
}
