// The framebuffer server: a seqlock reader that scans tiles into a private copy and keeps a pending
// set of changed tiles across torn passes, against a GUI that rewrites the frame at any moment.
module Monitor {
  import opened Words

  const TILE_W := 64
  const TILE_H := 32
  const TORN_RETRIES := 10

  type Pixel = Word
  type Frame = seq<seq<Pixel>>

  predicate Sized(f: Frame, width: nat, height: nat) {
    |f| == height && forall y | 0 <= y < height :: |f[y]| == width
  }

  // The mapped file. The GUI makes `seq` odd, copies the frame row by row, and makes it even; the
  // counter is kept unbounded here and reduced where it is loaded.
  class Shared {
    const width: nat
    const height: nat
    var counter: nat
    var pixels: Frame
    var drawing: Frame                      // the frame being presented
    var rows: nat                           // rows of it already copied
    ghost var presented: map<nat, Frame>    // the frame of every even counter value so far

    ghost predicate Valid()
      reads this
    {
      && width > 0 && height > 0
      && Sized(pixels, width, height) && Sized(drawing, width, height) && rows <= height
      && (forall k | k in presented :: k <= counter && Sized(presented[k], width, height))
      && (counter % 2 == 0 ==> counter in presented && presented[counter] == pixels)
      && (counter % 2 == 1 ==> forall y | 0 <= y < rows :: pixels[y] == drawing[y])
    }

    // What other steps of the GUI keep: frames once presented, and a whole frame while even.
    twostate predicate Later()
      reads this
    {
      && old(counter) <= counter
      && (forall k | k in old(presented) :: k in presented && presented[k] == old(presented)[k])
      && (counter == old(counter) && counter % 2 == 0 ==> pixels == old(pixels))
    }

    // One step of the GUI, chosen freely: begin a frame, leave a row half-copied, finish a row, end it.
    method Step()
      requires Valid()
      modifies this
      ensures Valid() && Later() && counter <= old(counter) + 1
    {
      if counter % 2 == 0 {
        var next: Frame := *;
        if Sized(next, width, height) {
          drawing, rows, counter := next, 0, counter + 1;
        }
      } else if rows < height {
        var row: seq<Pixel> := *;
        var finish: bool := *;
        if finish {
          pixels, rows := pixels[rows := drawing[rows]], rows + 1;
        } else if |row| == width {
          pixels := pixels[rows := row];
        }
      } else {
        assert pixels == drawing;
        counter := counter + 1;
        presented := presented[counter := pixels];
      }
    }

    // Presenting a frame without interruption: the steps in order.
    method PresentFrame(next: Frame)
      requires Valid() && counter % 2 == 0 && Sized(next, width, height)
      modifies this
      ensures Valid() && Later() && counter == old(counter) + 2 && pixels == next
      ensures counter in presented && presented[counter] == next
    {
      drawing, rows, counter := next, 0, counter + 1;
      while rows < height
        invariant Valid() && counter == old(counter) + 1 && rows <= height && drawing == next
        invariant presented == old(presented)
        decreases height - rows
      {
        pixels, rows := pixels[rows := drawing[rows]], rows + 1;
      }
      assert pixels == drawing;
      counter := counter + 1;
      presented := presented[counter := pixels];
    }

    // Any number of steps, up to a given counter value.
    method Interfere(limit: nat)
      requires Valid() && counter <= limit
      modifies this
      ensures Valid() && Later() && counter <= limit
    {
      var k :| 0 <= k;
      while k > 0
        invariant Valid() && Later() && counter <= limit
      {
        if counter < limit { Step(); }
        k := k - 1;
      }
    }
  }

  // Reads pixels one at a time; the GUI may run before every one of them.
  method Span(sh: Shared, y: nat, lo: nat, hi: nat, limit: nat) returns (s: seq<Pixel>)
    requires sh.Valid() && sh.counter <= limit && y < sh.height && lo <= hi <= sh.width
    modifies sh
    ensures sh.Valid() && sh.Later() && sh.counter <= limit && |s| == hi - lo
    ensures sh.counter == old(sh.counter) && sh.counter % 2 == 0 ==> s == sh.pixels[y][lo..hi]
  {
    s := [];
    for x := lo to hi
      invariant sh.Valid() && sh.Later() && sh.counter <= limit && |s| == x - lo
      invariant sh.counter == old(sh.counter) && sh.counter % 2 == 0 ==> s == sh.pixels[y][lo..x]
    {
      sh.Interfere(limit);
      s := s + [sh.pixels[y][x]];
    }
  }

  // The monitor process: the copy it serves from, the pending tiles, and what the clients have.
  class Reader {
    const width: nat
    const height: nat
    const cols: nat
    const rows: nat
    const copy: array2<Pixel>
    const dirty: array2<bool>
    const view: array2<Pixel>
    var served: bool
    var servedSeq: Word
    var retry: nat
    ghost var servedAt: nat     // the unbounded counter behind servedSeq

    ghost predicate Shape()
    {
      && width > 0 && height > 0
      && cols == (width + TILE_W - 1) / TILE_W && rows == (height + TILE_H - 1) / TILE_H
      && copy.Length0 == view.Length0 == height && copy.Length1 == view.Length1 == width
      && dirty.Length0 == rows && dirty.Length1 == cols
      && copy != view
    }

    // Copy and view differ only inside flagged tiles.
    ghost predicate Pending()
      requires Shape()
      reads copy, dirty, view
    {
      forall y, x | 0 <= y < height && 0 <= x < width && copy[y, x] != view[y, x] :: dirty[y / TILE_H, x / TILE_W]
    }

    // A changed pixel has its tile flagged, and no flag is lost.
    twostate predicate Flags()
      requires Shape()
      reads copy, dirty
    {
      && (forall y, x | 0 <= y < height && 0 <= x < width && copy[y, x] != old(copy[y, x]) ::
            dirty[y / TILE_H, x / TILE_W])
      && (forall r, c | 0 <= r < rows && 0 <= c < cols && old(dirty[r, c]) :: dirty[r, c])
    }

    // No other flag moves.
    twostate predicate OnlyFlags(y: nat, tile: nat)
      requires Shape() && y < height && tile < cols
      reads dirty
    {
      forall r, c | 0 <= r < rows && 0 <= c < cols && (r != y / TILE_H || c != tile) :: dirty[r, c] == old(dirty[r, c])
    }

    // Some pixel of the tile has changed.
    twostate predicate Changed(r: nat, c: nat)
      requires Shape()
      reads copy
    {
      exists y, x | 0 <= y < height && 0 <= x < width && y / TILE_H == r && x / TILE_W == c ::
        copy[y, x] != old(copy[y, x])
    }

    // Every new flag stands for a changed pixel.
    twostate predicate Earned()
      requires Shape()
      reads copy, dirty
    {
      forall r, c | 0 <= r < rows && 0 <= c < cols && dirty[r, c] && !old(dirty[r, c]) :: Changed(r, c)
    }

    function CopyRow(y: nat, lo: nat, hi: nat): seq<Pixel>
      requires Shape() && y < height && lo <= hi <= width
      reads copy
    {
      seq(hi - lo, k requires 0 <= k < hi - lo reads copy => copy[y, lo + k])
    }

    function TileEnd(tile: nat): nat { if width - tile * TILE_W < TILE_W then width else tile * TILE_W + TILE_W }

    // memcpy of one row of a tile, and its flag.
    method TakeTile(y: nat, tile: nat, s: seq<Pixel>)
      requires Shape() && y < height && tile < cols && |s| == TileEnd(tile) - tile * TILE_W
      modifies copy, dirty
      ensures Flags() && OnlyFlags(y, tile)
      ensures forall a, b | 0 <= a < height && 0 <= b < width && (a != y || b / TILE_W != tile) ::
        copy[a, b] == old(copy[a, b])
      ensures CopyRow(y, tile * TILE_W, TileEnd(tile)) == s
    {
      var lo := tile * TILE_W;
      forall k | 0 <= k < |s| { copy[y, lo + k] := s[k]; }
      dirty[y / TILE_H, tile] := true;
    }

    // One tile of a row: compare, and if it differs copy it (reading it again) and flag it.
    method ScanTile(sh: Shared, y: nat, tile: nat, limit: nat)
      requires Shape() && sh.Valid() && sh.width == width && sh.height == height && sh.counter <= limit
      requires y < height && tile < cols
      modifies sh, copy, dirty
      ensures sh.Valid() && sh.Later() && sh.counter <= limit
      ensures Flags()
      ensures forall a, b | 0 <= a < height && 0 <= b < width && (a != y || b / TILE_W != tile) ::
        copy[a, b] == old(copy[a, b])
      ensures sh.counter == old(sh.counter) && sh.counter % 2 == 0 ==>
        CopyRow(y, tile * TILE_W, TileEnd(tile)) == sh.pixels[y][tile * TILE_W..TileEnd(tile)]
      ensures OnlyFlags(y, tile)
      ensures sh.counter == old(sh.counter) && sh.counter % 2 == 0 ==> Earned()
    {
      var lo, hi := tile * TILE_W, TileEnd(tile);
      var seen := Span(sh, y, lo, hi, limit);
      if seen != CopyRow(y, lo, hi) {
        ghost var was := CopyRow(y, lo, hi);
        var again := Span(sh, y, lo, hi, limit);
        TakeTile(y, tile, again);
        if again != was {
          var k :| 0 <= k < |was| && again[k] != was[k];
          assert CopyRow(y, lo, hi)[k] == copy[y, lo + k] && was[k] == old(copy[y, lo + k]);
          assert Changed(y / TILE_H, tile);
        }
      }
    }

    lemma RowOf(y: nat, tile: nat, row: seq<Pixel>)
      requires Shape() && y < height && tile < cols && |row| == width
      requires CopyRow(y, tile * TILE_W, TileEnd(tile)) == row[tile * TILE_W..TileEnd(tile)]
      ensures forall x | 0 <= x < width && x / TILE_W == tile :: copy[y, x] == row[x]
    {
      var lo := tile * TILE_W;
      forall x | 0 <= x < width && x / TILE_W == tile ensures copy[y, x] == row[x] {
        assert CopyRow(y, lo, TileEnd(tile))[x - lo] == copy[y, x];
      }
    }

    method ScanRow(sh: Shared, y: nat, limit: nat)
      requires Shape() && sh.Valid() && sh.width == width && sh.height == height && sh.counter <= limit && y < height
      modifies sh, copy, dirty
      ensures sh.Valid() && sh.Later() && sh.counter <= limit
      ensures Flags()
      ensures forall a, b | 0 <= a < height && 0 <= b < width && a != y :: copy[a, b] == old(copy[a, b])
      ensures sh.counter == old(sh.counter) && sh.counter % 2 == 0 ==>
        forall x | 0 <= x < width :: copy[y, x] == sh.pixels[y][x]
      ensures sh.counter == old(sh.counter) && sh.counter % 2 == 0 ==> Earned()
    {
      var seen := Span(sh, y, 0, width, limit);
      if seen == CopyRow(y, 0, width) {
        assert forall x | 0 <= x < width :: copy[y, x] == CopyRow(y, 0, width)[x];
        return;
      }
      for tile := 0 to cols
        invariant sh.Valid() && sh.Later() && sh.counter <= limit
        invariant Flags()
        invariant forall a, b | 0 <= a < height && 0 <= b < width && a != y :: copy[a, b] == old(copy[a, b])
        invariant sh.counter == old(sh.counter) && sh.counter % 2 == 0 ==>
          forall x | 0 <= x < width && x / TILE_W < tile :: copy[y, x] == sh.pixels[y][x]
        invariant sh.counter == old(sh.counter) && sh.counter % 2 == 0 ==> Earned()
        invariant forall x | 0 <= x < width && x / TILE_W >= tile :: copy[y, x] == old(copy[y, x])
      {
        label tile:
        ScanTile(sh, y, tile, limit);
        if sh.counter == old(sh.counter) && sh.counter % 2 == 0 {
          forall r, c | 0 <= r < rows && 0 <= c < cols && dirty[r, c] && !old(dirty[r, c]) ensures Changed(r, c) {
            if old@tile(dirty[r, c]) {
              var a, b :| 0 <= a < height && 0 <= b < width && a / TILE_H == r && b / TILE_W == c &&
                          old@tile(copy[a, b]) != old(copy[a, b]);
              assert copy[a, b] == old@tile(copy[a, b]);
            } else {
              var a, b :| 0 <= a < height && 0 <= b < width && a / TILE_H == r && b / TILE_W == c &&
                          copy[a, b] != old@tile(copy[a, b]);
              assert old@tile(copy[a, b]) == old(copy[a, b]);
            }
          }
        }
        if sh.counter == old(sh.counter) && sh.counter % 2 == 0 { RowOf(y, tile, sh.pixels[y]); }
      }
    }

    // One pass over the frame.
    method Scan(sh: Shared, limit: nat)
      requires Shape() && sh.Valid() && sh.width == width && sh.height == height && sh.counter <= limit
      modifies sh, copy, dirty
      ensures sh.Valid() && sh.Later() && sh.counter <= limit
      ensures Flags()
      ensures sh.counter == old(sh.counter) && sh.counter % 2 == 0 ==>
        forall y, x | 0 <= y < height && 0 <= x < width :: copy[y, x] == sh.pixels[y][x]
      ensures sh.counter == old(sh.counter) && sh.counter % 2 == 0 ==> Earned()
    {
      for y := 0 to height
        invariant sh.Valid() && sh.Later() && sh.counter <= limit
        invariant Flags()
        invariant sh.counter == old(sh.counter) && sh.counter % 2 == 0 ==>
          forall a, x | 0 <= a < y && 0 <= x < width :: copy[a, x] == sh.pixels[a][x]
        invariant sh.counter == old(sh.counter) && sh.counter % 2 == 0 ==> Earned()
        invariant forall a, x | y <= a < height && 0 <= x < width :: copy[a, x] == old(copy[a, x])
      {
        label row:
        ScanRow(sh, y, limit);
        if sh.counter == old(sh.counter) && sh.counter % 2 == 0 {
          forall r, c | 0 <= r < rows && 0 <= c < cols && dirty[r, c] && !old(dirty[r, c]) ensures Changed(r, c) {
            if old@row(dirty[r, c]) {
              var a, b :| 0 <= a < height && 0 <= b < width && a / TILE_H == r && b / TILE_W == c &&
                          old@row(copy[a, b]) != old(copy[a, b]);
              assert copy[a, b] == old@row(copy[a, b]);
            } else {
              var a, b :| 0 <= a < height && 0 <= b < width && a / TILE_H == r && b / TILE_W == c &&
                          copy[a, b] != old@row(copy[a, b]);
              assert old@row(copy[a, b]) == old(copy[a, b]);
            }
          }
        }
      }
    }

    ghost function RowFlags(row: nat): (f: seq<bool>)
      requires Shape() && row < rows
      reads dirty
      ensures |f| == cols
    {
      seq(cols, c requires 0 <= c < cols reads dirty => dirty[row, c])
    }

    // rfbMarkRectAsModified: the clients get these pixels of the copy.
    method Mark(r: Rect)
      requires Shape() && r.x1 <= r.x2 <= width && r.y1 <= r.y2 <= height
      modifies view
      ensures forall y, x | 0 <= y < height && 0 <= x < width ::
        view[y, x] == if r.Has(x, y) then copy[y, x] else old(view[y, x])
    {
      forall y, x | r.y1 <= y < r.y2 && r.x1 <= x < r.x2 { view[y, x] := copy[y, x]; }
    }

    function RectOf(run: Run): Rect {
      Rect(run.start * TILE_W, run.row * TILE_H,
           if run.stop * TILE_W < width then run.stop * TILE_W else width,
           if (run.row + 1) * TILE_H < height then (run.row + 1) * TILE_H else height)
    }

    // A run's rectangle holds exactly the pixels of its tiles.
    lemma RectHas(run: Run, x: nat, y: nat)
      requires Shape() && run.row < rows && run.start < run.stop <= cols && x < width && y < height
      ensures RectOf(run).Has(x, y) <==> y / 32 == run.row && run.start <= x / 64 < run.stop
      ensures RectOf(run).x1 < RectOf(run).x2 <= width && RectOf(run).y1 < RectOf(run).y2 <= height
    { }

    method MarkRun(run: Run)
      requires Shape() && run.row < rows && run.start < run.stop <= cols
      modifies view
      ensures forall y, x | 0 <= y < height && 0 <= x < width ::
        view[y, x] ==
        if y / TILE_H == run.row && run.start <= x / TILE_W < run.stop then copy[y, x] else old(view[y, x])
    {
      forall x: nat, y: nat | x < width && y < height
        ensures RectOf(run).Has(x, y) <==> y / TILE_H == run.row && run.start <= x / TILE_W < run.stop
      {
        RectHas(run, x, y);
      }
      RectHas(run, run.start * TILE_W, run.row * TILE_H);
      Mark(RectOf(run));
    }

    // Clears the flags of one horizontal run and says where it stops.
    method ClearRun(row: nat, start: nat) returns (stop: nat)
      requires Shape() && row < rows && start < cols && dirty[row, start]
      modifies dirty
      ensures start < stop <= cols && (stop < cols ==> !old(dirty[row, stop]))
      ensures forall c | start <= c < stop :: old(dirty[row, c])
      ensures forall r, c | 0 <= r < rows && 0 <= c < cols ::
        dirty[r, c] == (!(r == row && start <= c < stop) && old(dirty[r, c]))
    {
      stop := start;
      while stop < cols && dirty[row, stop]
        invariant start <= stop <= cols && (stop == start ==> dirty[row, start])
        invariant forall c | start <= c < stop :: old(dirty[row, c])
        invariant forall r, c | 0 <= r < rows && 0 <= c < cols ::
          dirty[r, c] == (!(r == row && start <= c < stop) && old(dirty[r, c]))
      {
        dirty[row, stop] := false;
        stop := stop + 1;
      }
    }

    // Marks each horizontal run of flagged tiles of one tile row, and clears the flags.
    method FlushRow(row: nat) returns (runs: seq<Run>, tiles: nat)
      requires Shape() && row < rows
      modifies dirty, view
      ensures Runs(runs, row, old(RowFlags(row)), cols) && tiles == Count(old(RowFlags(row)))
      ensures forall r, c | 0 <= r < rows && 0 <= c < cols :: dirty[r, c] == (r != row && old(dirty[r, c]))
      ensures forall y, x | 0 <= y < height && 0 <= x < width ::
        view[y, x] == if y / TILE_H == row && old(dirty[row, x / TILE_W]) then copy[y, x] else old(view[y, x])
    {
      hide Runs, Count;
      ghost var was := RowFlags(row);
      runs, tiles := [], 0;
      NoRuns(row, was);
      var col := 0;
      while col < cols
        invariant col <= cols && Runs(runs, row, was, col) && tiles == Count(was[..col])
        invariant Gap(runs, was, col)
        invariant forall r, c | 0 <= r < rows && 0 <= c < cols ::
          dirty[r, c] == ((r != row || c >= col) && old(dirty[r, c]))
        invariant forall y, x | 0 <= y < height && 0 <= x < width ::
          view[y, x] == if y / TILE_H == row && x / TILE_W < col && was[x / TILE_W] then copy[y, x] else old(view[y, x])
      {
        var start := col;
        if !dirty[row, col] {
          SkipFlag(runs, row, was, col);
          col := col + 1;
          continue;
        }
        col := ClearRun(row, start);
        tiles := tiles + (col - start);
        AddRun(runs, row, was, start, col);
        MarkRun(Run(row, start, col));
        runs := runs + [Run(row, start, col)];
      }
      assert was[..col] == was;
    }

    ghost function AllFlags(): (f: seq<seq<bool>>)
      requires Shape()
      reads dirty
      ensures |f| == rows && forall r | 0 <= r < rows :: f[r] == RowFlags(r)
    {
      seq(rows, r requires 0 <= r < rows reads dirty => RowFlags(r))
    }

    // Every flagged tile goes out in one of the returned rectangles, and the flags are cleared.
    method Flush() returns (rects: seq<Rect>, tiles: nat)
      requires Shape()
      modifies dirty, view
      ensures Partition(rects, old(AllFlags())) && tiles == Total(old(AllFlags()))
      ensures forall r, c | 0 <= r < rows && 0 <= c < cols :: !dirty[r, c]
      ensures forall y, x | 0 <= y < height && 0 <= x < width ::
        view[y, x] == if old(dirty[y / TILE_H, x / TILE_W]) then copy[y, x] else old(view[y, x])
    {
      hide Runs, Partition, Total;
      ghost var was := AllFlags();
      ghost var all: seq<Run> := [];
      rects, tiles := [], 0;
      NoRows(was);
      for row := 0 to rows
        invariant AllRuns(all, was, row) && tiles == Total(was[..row])
        invariant |rects| == |all| && forall k | 0 <= k < |all| :: rects[k] == RectOf(all[k])
        invariant forall r, c | 0 <= r < rows && 0 <= c < cols :: dirty[r, c] == (r >= row && old(dirty[r, c]))
        invariant forall y, x | 0 <= y < height && 0 <= x < width ::
          view[y, x] == if y / TILE_H < row && old(dirty[y / TILE_H, x / TILE_W]) then copy[y, x] else old(view[y, x])
      {
        assert RowFlags(row) == was[row];
        var runs, n := FlushRow(row);
        AddRow(all, runs, was, row);
        all, tiles := all + runs, tiles + n;
        rects := rects + seq(|runs|, k requires 0 <= k < |runs| => RectOf(runs[k]));
      }
      assert was[..rows] == was;
      TilesToPixels(all, rects, was);
    }

    // Disjoint, inside the screen, and together exactly the pixels of the flagged tiles.
    ghost predicate Partition(rects: seq<Rect>, flags: seq<seq<bool>>)
      requires Shape() && |flags| == rows && forall r | 0 <= r < rows :: |flags[r]| == cols
    {
      && (forall k | 0 <= k < |rects| :: rects[k].x1 < rects[k].x2 <= width && rects[k].y1 < rects[k].y2 <= height)
      && (forall i, j, x: nat, y: nat | 0 <= i < j < |rects| :: !(rects[i].Has(x, y) && rects[j].Has(x, y)))
      && (forall x: nat, y: nat | x < width && y < height ::
            flags[y / TILE_H][x / TILE_W] <==> exists k :: 0 <= k < |rects| && rects[k].Has(x, y))
    }

    lemma TilesToPixels(all: seq<Run>, rects: seq<Rect>, flags: seq<seq<bool>>)
      requires Shape() && |flags| == rows && (forall r | 0 <= r < rows :: |flags[r]| == cols)
      requires AllRuns(all, flags, rows)
      requires |rects| == |all| && forall k | 0 <= k < |all| :: rects[k] == RectOf(all[k])
      ensures Partition(rects, flags)
    {
      forall k | 0 <= k < |rects|
        ensures rects[k].x1 < rects[k].x2 <= width && rects[k].y1 < rects[k].y2 <= height
      {
        RectHas(all[k], 0, 0);
      }
      forall k, x: nat, y: nat | 0 <= k < |rects| && rects[k].Has(x, y)
        ensures y / TILE_H == all[k].row && all[k].start <= x / TILE_W < all[k].stop
      {
        RectHas(all[k], x, y);
      }
      forall x: nat, y: nat | x < width && y < height
        ensures flags[y / TILE_H][x / TILE_W] <==> exists k :: 0 <= k < |rects| && rects[k].Has(x, y)
      {
        var r, c := y / TILE_H, x / TILE_W;
        if flags[r][c] {
          var k :| 0 <= k < |all| && all[k].row == r && all[k].start <= c < all[k].stop;
          RectHas(all[k], x, y);
        }
      }
    }

    ghost predicate Shows(f: Frame)
      requires Shape()
      reads view
    {
      Sized(f, width, height) && forall y, x | 0 <= y < height && 0 <= x < width :: view[y, x] == f[y][x]
    }

    // The clients have exactly one frame the GUI presented (or still the blank first one), and the
    // copy differs from it only inside flagged tiles.
    ghost predicate Valid(sh: Shared)
      reads this, copy, dirty, view, sh
    {
      && Shape() && sh.Valid() && sh.width == width && sh.height == height && Pending()
      && (if served then
            servedAt in sh.presented && Shows(sh.presented[servedAt]) && servedSeq == servedAt % M32
          else Shows(seq(height, y => seq(width, x => 0))))
    }

    constructor (sh: Shared)
      requires sh.Valid()
      ensures Valid(sh) && !served && retry == 0
      ensures fresh(copy) && fresh(dirty) && fresh(view)
    {
      width, height := sh.width, sh.height;
      cols, rows := (sh.width + TILE_W - 1) / TILE_W, (sh.height + TILE_H - 1) / TILE_H;
      copy := new Pixel[sh.height, sh.width]((y, x) => 0);
      view := new Pixel[sh.height, sh.width]((y, x) => 0);
      dirty := new bool[(sh.height + TILE_H - 1) / TILE_H, (sh.width + TILE_W - 1) / TILE_W]((r, c) => false);
      served, servedSeq, retry, servedAt := false, 0, 0, 0;
    }

    ghost predicate Copied(f: Frame)
      requires Shape()
      reads copy
    {
      Sized(f, width, height) && forall y, x | 0 <= y < height && 0 <= x < width :: copy[y, x] == f[y][x]
    }

    // A scan between two loads of the counter; a torn one leaves its changed tiles pending.
    method ScanBetween(sh: Shared, seqBefore: Word) returns (whole: bool)
      requires Valid(sh) && sh.counter % 2 == 0 && seqBefore == sh.counter % M32
      modifies sh, copy, dirty
      ensures Valid(sh) && sh.Later()
      ensures whole ==> sh.counter == old(sh.counter) && Copied(sh.pixels)
      ensures sh.counter == old(sh.counter) ==> whole
    {
      ghost var start := sh.counter;
      var limit := sh.counter + M32 - 1;
      Scan(sh, limit);
      assert Pending();
      sh.Interfere(limit);
      SameCounter(start, sh.counter);
      whole := sh.counter % M32 == seqBefore;
    }

    // A whole frame is in: everything pending goes out.
    method Present(sh: Shared, seqBefore: Word)
      requires Valid(sh) && sh.counter % 2 == 0 && seqBefore == sh.counter % M32 && Copied(sh.pixels)
      modifies `served, `servedSeq, `servedAt, dirty, view
      ensures Valid(sh) && served && servedAt == sh.counter && Shows(sh.pixels)
    {
      var rects, tiles := Flush();
      served, servedSeq, servedAt := true, seqBefore, sh.counter;
    }

    // One turn of the main loop on a memory framebuffer. The counter may move by less than 2^32
    // during one scan; between turns it may move by any amount.
    method Tick(sh: Shared, watching: bool) returns (pass: Pass)
      requires Valid(sh)
      modifies this, sh, copy, dirty, view
      ensures Valid(sh) && sh.Later()
      ensures pass.Whole? ==> served && servedAt == sh.counter && Shows(sh.pixels) && retry == 0
      ensures !pass.Whole? ==> served == old(served) && servedAt == old(servedAt) && unchanged(view)
      ensures pass.Idle? <==> !watching
      ensures (watching && sh.counter == old(sh.counter) ==>
        && (pass.Torn? <==> sh.counter % 2 == 1)
        && (pass.Skipped? <==>
              sh.counter % 2 == 0 && old(served) && old(retry) == 0 && sh.counter % M32 == old(servedSeq)))
      ensures pass.Torn? ==> retry == if old(retry) > 10 then old(retry) else old(retry) + 1
      ensures pass.Skipped? ==> served && retry == old(retry) == 0 && sh.counter % M32 == servedAt % M32
      ensures pass.Skipped? && sh.counter < servedAt + M32 ==> Shows(sh.pixels)
    {
      hide Shared.Valid, Sized;
      if !watching { return Idle; }
      var room :| 0 <= room;
      sh.Interfere(sh.counter + room);
      assert Valid(sh) by { PresentedBefore(sh); }
      var seqBefore := sh.counter % M32;
      SameParity(sh.counter);
      var whole := seqBefore % 2 == 0;
      if whole && served && seqBefore == servedSeq && retry == 0 {
        PresentedBefore(sh);
        SameCounter(servedAt, sh.counter);
        return Skipped;
      }
      if whole { whole := ScanBetween(sh, seqBefore); }
      retry := if whole then 0 else if retry > TORN_RETRIES then retry else retry + 1;
      if !whole { return Torn; }
      Present(sh, seqBefore);
      pass := Whole;
    }
  }

  lemma PresentedBefore(sh: Shared)
    requires sh.Valid()
    ensures forall k | k in sh.presented :: k <= sh.counter
    ensures sh.counter % 2 == 0 ==> sh.counter in sh.presented && sh.presented[sh.counter] == sh.pixels
  { }

  datatype Pass = Idle | Skipped | Torn | Whole

  lemma SameParity(n: nat)
    ensures n % M32 % 2 == n % 2
  { }

  // Two loads that agree saw the same counter, if it moved by less than a full turn.
  lemma SameCounter(a: nat, b: nat)
    ensures a <= b < a + M32 && a % M32 == b % M32 ==> a == b
  { }

  datatype Rect = Rect(x1: nat, y1: nat, x2: nat, y2: nat) {
    predicate Has(x: nat, y: nat) { x1 <= x < x2 && y1 <= y < y2 }
  }

  // Tiles start..stop of a tile row.
  datatype Run = Run(row: nat, start: nat, stop: nat)

  function Count(f: seq<bool>): nat { if f == [] then 0 else Count(f[..|f| - 1]) + if f[|f| - 1] then 1 else 0 }

  // The maximal runs of set flags among the first n, left to right.
  ghost predicate Runs(runs: seq<Run>, row: nat, f: seq<bool>, n: nat)
    requires n <= |f|
  {
    && (forall k | 0 <= k < |runs| :: runs[k].row == row && runs[k].start < runs[k].stop <= n)
    && (forall k, c | 0 <= k < |runs| && runs[k].start <= c < runs[k].stop :: f[c])
    && (forall i, j | 0 <= i < j < |runs| :: runs[i].stop < runs[j].start)
    && (forall c | 0 <= c < n && f[c] :: exists k :: 0 <= k < |runs| && runs[k].start <= c < runs[k].stop)
  }

  // The next run cannot start where the last one stopped.
  ghost predicate Gap(runs: seq<Run>, f: seq<bool>, n: nat)
    requires n <= |f|
  {
    runs == [] || runs[|runs| - 1].stop < n || n == |f| || !f[n]
  }

  lemma NoRuns(row: nat, f: seq<bool>)
    ensures Runs([], row, f, 0) && Count(f[..0]) == 0
  { }

  lemma SkipFlag(runs: seq<Run>, row: nat, f: seq<bool>, n: nat)
    requires n < |f| && Runs(runs, row, f, n) && !f[n]
    ensures Runs(runs, row, f, n + 1) && Gap(runs, f, n + 1) && Count(f[..n + 1]) == Count(f[..n])
  {
    assert f[..n + 1][..n] == f[..n];
  }

  lemma AddRun(runs: seq<Run>, row: nat, f: seq<bool>, start: nat, stop: nat)
    requires start < stop <= |f| && Runs(runs, row, f, start) && Gap(runs, f, start)
    requires (forall c | start <= c < stop :: f[c]) && (stop == |f| || !f[stop])
    ensures Runs(runs + [Run(row, start, stop)], row, f, stop) && Gap(runs + [Run(row, start, stop)], f, stop)
    ensures Count(f[..stop]) == Count(f[..start]) + stop - start
  {
    hide Count;
    CountRun(f, start, stop);
    var r := runs + [Run(row, start, stop)];
    forall c | 0 <= c < stop && f[c] ensures exists k :: 0 <= k < |r| && r[k].start <= c < r[k].stop {
      if c < start {
        var k :| 0 <= k < |runs| && runs[k].start <= c < runs[k].stop;
        assert r[k] == runs[k];
      } else {
        assert r[|runs|].start <= c < r[|runs|].stop;
      }
    }
  }

  lemma {:induction false} CountRun(f: seq<bool>, start: nat, stop: nat)
    requires start <= stop <= |f| && forall c | start <= c < stop :: f[c]
    ensures Count(f[..stop]) == Count(f[..start]) + stop - start
  {
    if start < stop {
      CountRun(f, start, stop - 1);
      assert f[..stop][..stop - 1] == f[..stop - 1];
    }
  }

  function Total(f: seq<seq<bool>>): nat { if f == [] then 0 else Total(f[..|f| - 1]) + Count(f[|f| - 1]) }

  // The runs of the first n tile rows, as tiles.
  ghost predicate AllRuns(all: seq<Run>, flags: seq<seq<bool>>, n: nat)
    requires n <= |flags|
  {
    && (forall k | 0 <= k < |all| :: all[k].row < n && all[k].start < all[k].stop <= |flags[all[k].row]|)
    && (forall k, c | 0 <= k < |all| && all[k].start <= c < all[k].stop :: flags[all[k].row][c])
    && (forall i, j | 0 <= i < j < |all| :: all[i].row != all[j].row || all[i].stop <= all[j].start)
    && (forall r, c | 0 <= r < n && 0 <= c < |flags[r]| && flags[r][c] ::
          exists k :: 0 <= k < |all| && all[k].row == r && all[k].start <= c < all[k].stop)
  }

  lemma NoRows(flags: seq<seq<bool>>)
    ensures AllRuns([], flags, 0) && Total(flags[..0]) == 0
  { }

  lemma TotalNext(flags: seq<seq<bool>>, row: nat)
    requires row < |flags|
    ensures Total(flags[..row + 1]) == Total(flags[..row]) + Count(flags[row])
  {
    assert flags[..row + 1][..row] == flags[..row];
  }

  lemma AddRow(all: seq<Run>, runs: seq<Run>, flags: seq<seq<bool>>, row: nat)
    requires row < |flags| && AllRuns(all, flags, row) && Runs(runs, row, flags[row], |flags[row]|)
    ensures AllRuns(all + runs, flags, row + 1)
    ensures Total(flags[..row + 1]) == Total(flags[..row]) + Count(flags[row])
  {
    hide Count, Total;
    TotalNext(flags, row);
    var both := all + runs;
    forall r, c | 0 <= r < row + 1 && 0 <= c < |flags[r]| && flags[r][c]
      ensures exists k :: 0 <= k < |both| && both[k].row == r && both[k].start <= c < both[k].stop
    {
      if r < row {
        var k :| 0 <= k < |all| && all[k].row == r && all[k].start <= c < all[k].stop;
        assert both[k] == all[k];
      } else {
        var k :| 0 <= k < |runs| && runs[k].start <= c < runs[k].stop;
        assert both[|all| + k] == runs[k];
      }
    }
  }
}
