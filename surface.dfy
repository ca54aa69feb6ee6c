// White-surface detection on one camera frame: the whiteness mask, the
// 4-connected flood fill, the 10-pixel seed scan for the largest region,
// the 3-pixel sampled fallback, and the final choice of box.

module SurfaceDetection {
  import opened Types
  import opened RealFacts

  /** A pixel position: column `x`, row `y`. */
  datatype Cell = Cell(x: int, y: int)

  /** Inclusive pixel extremes of a set of cells. */
  datatype PixelBounds = PixelBounds(minX: int, maxX: int, minY: int, maxY: int)

  /** One flood-filled region: its normalised box, its pixel extremes and its pixel count. */
  datatype Fill = Fill(box: BoundingBox, bounds: PixelBounds, area: nat)

  /** 4-neighbourhood. */
  predicate Adjacent(a: Cell, b: Cell)
  {
    || (a.y == b.y && (b.x == a.x + 1 || b.x == a.x - 1))
    || (a.x == b.x && (b.y == a.y + 1 || b.y == a.y - 1))
  }

  /** A non-empty walk through `region` in 4-neighbour steps. */
  ghost predicate IsPath(p: seq<Cell>, region: set<Cell>)
  {
    && |p| > 0
    && (forall i :: 0 <= i < |p| ==> p[i] in region)
    && (forall i :: 0 <= i < |p| - 1 ==> Adjacent(p[i], p[i + 1]))
  }

  ghost predicate Reachable(region: set<Cell>, a: Cell, b: Cell)
  {
    exists p :: IsPath(p, region) && p[0] == a && p[|p| - 1] == b
  }

  /** The 4-connected component of `seed` inside `region`. */
  ghost function Component(region: set<Cell>, seed: Cell): set<Cell>
  {
    set c | c in region && Reachable(region, seed, c)
  }

  predicate SameShape(a: array2<bool>, b: array2<bool>)
  {
    a.Length0 == b.Length0 && a.Length1 == b.Length1
  }

  /** The white cells not yet visited (arrays are indexed [row, column]). */
  ghost function OpenCells(mask: array2<bool>, visited: array2<bool>): set<Cell>
    requires SameShape(mask, visited)
    reads mask, visited
  {
    set x: int, y: int | 0 <= x < mask.Length1 && 0 <= y < mask.Length0 && mask[y, x] && !visited[y, x] :: Cell(x, y)
  }

  /** The white cells of a mask. */
  ghost function WhiteCells(mask: array2<bool>): set<Cell>
    reads mask
  {
    set x: int, y: int | 0 <= x < mask.Length1 && 0 <= y < mask.Length0 && mask[y, x] :: Cell(x, y)
  }

  /** Every cell of a `width` by `height` frame. */
  ghost function FrameCells(width: int, height: int): set<Cell>
  {
    set x: int, y: int | 0 <= x < width && 0 <= y < height :: Cell(x, y)
  }

  /** Every cell of `cells` lies within the bounds. */
  ghost predicate Encloses(b: PixelBounds, cells: set<Cell>)
  {
    forall c {:trigger c in cells} :: c in cells ==> b.minX <= c.x <= b.maxX && b.minY <= c.y <= b.maxY
  }

  /** Each of the four bounds is reached by some cell of `cells`. */
  ghost predicate Tight(b: PixelBounds, cells: set<Cell>)
  {
    && (exists c {:trigger c in cells} :: c in cells && c.x == b.minX)
    && (exists c {:trigger c in cells} :: c in cells && c.x == b.maxX)
    && (exists c {:trigger c in cells} :: c in cells && c.y == b.minY)
    && (exists c {:trigger c in cells} :: c in cells && c.y == b.maxY)
  }

  /** The bounds as a box normalised to the frame; a one-pixel-wide region has width 0. */
  function NormalizedBox(b: PixelBounds, width: int, height: int): (r: BoundingBox)
    requires width > 0 && height > 0
    ensures r.x * width as real == b.minX as real && r.y * height as real == b.minY as real
    ensures r.width * width as real == (b.maxX - b.minX) as real && r.height * height as real == (b.maxY - b.minY) as real
  {
    BoundingBox(b.minX as real / width as real, b.minY as real / height as real,
                (b.maxX - b.minX) as real / width as real, (b.maxY - b.minY) as real / height as real)
  }

  /** The bounds grown to take in one more cell. */
  function Extend(b: PixelBounds, c: Cell): PixelBounds
  {
    PixelBounds(Min(b.minX, c.x), Max(b.maxX, c.x), Min(b.minY, c.y), Max(b.maxY, c.y))
  }

  /** Growing tight enclosing bounds by a cell gives tight enclosing bounds of the larger set. */
  lemma ExtendKeepsBounds(b: PixelBounds, cells: set<Cell>, c: Cell)
    requires Encloses(b, cells) && Tight(b, cells)
    ensures Encloses(Extend(b, c), cells + {c}) && Tight(Extend(b, c), cells + {c})
  {
    var e := Extend(b, c);
    var lo :| lo in cells && lo.x == b.minX;
    var hi :| hi in cells && hi.x == b.maxX;
    var top :| top in cells && top.y == b.minY;
    var bot :| bot in cells && bot.y == b.maxY;
    assert lo in cells + {c} && hi in cells + {c} && top in cells + {c} && bot in cells + {c};
    if c.x < b.minX { assert c.x == e.minX; } else { assert lo.x == e.minX; }
    if c.x > b.maxX { assert c.x == e.maxX; } else { assert hi.x == e.maxX; }
    if c.y < b.minY { assert c.y == e.minY; } else { assert top.y == e.minY; }
    if c.y > b.maxY { assert c.y == e.maxY; } else { assert bot.y == e.maxY; }
  }

  function Min(a: int, b: int): int { if a <= b then a else b }
  function Max(a: int, b: int): int { if a >= b then a else b }

  predicate InFrame(c: Cell, width: int, height: int)
  {
    0 <= c.x < width && 0 <= c.y < height
  }

  /** Membership in OpenCells, spelled out. */
  lemma OpenCellsMembers(mask: array2<bool>, visited: array2<bool>)
    requires SameShape(mask, visited)
    ensures forall c {:trigger c in OpenCells(mask, visited)} :: c in OpenCells(mask, visited) <==>
      InFrame(c, mask.Length1, mask.Length0) && mask[c.y, c.x] && !visited[c.y, c.x]
  {
    forall c | InFrame(c, mask.Length1, mask.Length0) && mask[c.y, c.x] && !visited[c.y, c.x]
      ensures c in OpenCells(mask, visited)
    {
      assert c == Cell(c.x, c.y);
    }
  }

  /** Membership in WhiteCells, spelled out. */
  lemma WhiteCellsMembers(mask: array2<bool>)
    ensures forall c {:trigger c in WhiteCells(mask)} :: c in WhiteCells(mask) <==>
      InFrame(c, mask.Length1, mask.Length0) && mask[c.y, c.x]
  {
    forall c | InFrame(c, mask.Length1, mask.Length0) && mask[c.y, c.x]
      ensures c in WhiteCells(mask)
    {
      assert c == Cell(c.x, c.y);
    }
  }

  /**
   * Two tight enclosing bounds of the same cells are the same bounds, so a
   * region determines the extremes the fill reports for it.
   */
  lemma TightBoundsUnique(a: PixelBounds, b: PixelBounds, cells: set<Cell>)
    requires Encloses(a, cells) && Tight(a, cells) && Encloses(b, cells) && Tight(b, cells)
    ensures a == b
  {
    var a0 :| a0 in cells && a0.x == a.minX;
    var a1 :| a1 in cells && a1.x == a.maxX;
    var a2 :| a2 in cells && a2.y == a.minY;
    var a3 :| a3 in cells && a3.y == a.maxY;
    var b0 :| b0 in cells && b0.x == b.minX;
    var b1 :| b1 in cells && b1.x == b.maxX;
    var b2 :| b2 in cells && b2.y == b.minY;
    var b3 :| b3 in cells && b3.y == b.maxY;
    assert a.minX <= b0.x && b.minX <= a0.x;
    assert a.maxX >= b1.x && b.maxX >= a1.x;
    assert a.minY <= b2.y && b.minY <= a2.y;
    assert a.maxY >= b3.y && b.maxY >= a3.y;
  }

  /**
   * The frontier invariant of the fill: every neighbour of a marked cell is
   * marked, outside the region, or still pending on the stack.
   */
  ghost predicate Closed(marked: set<Cell>, region: set<Cell>, pending: seq<Cell>)
  {
    forall m, n {:trigger Adjacent(m, n)} :: m in marked && Adjacent(m, n) ==> n in marked || n !in region || n in pending
  }

  /** Every pending cell is the seed or a neighbour of a marked cell (`parent` names which). */
  ghost predicate Justified(stack: seq<Cell>, parent: seq<Cell>, marked: set<Cell>, seed: Cell)
  {
    |parent| == |stack| &&
    forall i :: 0 <= i < |stack| ==> stack[i] == seed || (parent[i] in marked && Adjacent(parent[i], stack[i]))
  }

  /** Every marked cell has a recorded path from the seed through the region. */
  ghost predicate Witnessed(paths: map<Cell, seq<Cell>>, marked: set<Cell>, region: set<Cell>, seed: Cell)
  {
    forall c {:trigger paths[c]} {:trigger c in paths} :: c in marked ==>
      c in paths && IsPath(paths[c], region) && paths[c][0] == seed && paths[c][|paths[c]| - 1] == c
  }

  function Neighbours(c: Cell): seq<Cell>
  {
    [Cell(c.x + 1, c.y), Cell(c.x - 1, c.y), Cell(c.x, c.y + 1), Cell(c.x, c.y - 1)]
  }

  /** Dropping a popped cell that is marked or outside the region keeps the frontier closed. */
  lemma DiscardKeepsClosed(marked: set<Cell>, region: set<Cell>, stack: seq<Cell>, c: Cell)
    requires Closed(marked, region, stack + [c])
    requires c in marked || c !in region
    ensures Closed(marked, region, stack)
  {
    forall m, n | m in marked && Adjacent(m, n) && n !in marked && n in region
      ensures n in stack
    {
      assert n in stack + [c];
    }
  }

  /** Marking a popped cell and pushing its neighbours keeps the frontier closed. */
  lemma MarkKeepsClosed(marked: set<Cell>, region: set<Cell>, stack: seq<Cell>, c: Cell)
    requires Closed(marked, region, stack + [c])
    ensures Closed(marked + {c}, region, stack + Neighbours(c))
  {
    forall m, n | m in marked + {c} && Adjacent(m, n) && n !in marked + {c} && n in region
      ensures n in stack + Neighbours(c)
    {
      if m == c {
        assert n in Neighbours(c);
      } else {
        assert n in stack + [c];
      }
    }
  }

  /** Pushing the neighbours of a newly marked cell keeps every pending cell justified. */
  lemma MarkKeepsJustified(stack: seq<Cell>, parent: seq<Cell>, marked: set<Cell>, seed: Cell, c: Cell)
    requires Justified(stack, parent, marked, seed)
    ensures Justified(stack + Neighbours(c), parent + [c, c, c, c], marked + {c}, seed)
  {
  }

  /** Popping the top of the stack keeps the rest justified, and the top is the seed or next to a marked cell. */
  lemma PopKeepsJustified(stack: seq<Cell>, parent: seq<Cell>, marked: set<Cell>, seed: Cell)
    requires Justified(stack, parent, marked, seed) && |stack| > 0
    ensures Justified(stack[..|stack| - 1], parent[..|parent| - 1], marked, seed)
    ensures var c, from := stack[|stack| - 1], parent[|parent| - 1];
      c == seed || (from in marked && Adjacent(from, c))
  {
  }

  /** The recorded path for a newly marked cell: the seed alone, or its neighbour's path extended by it. */
  ghost function NewPath(paths: map<Cell, seq<Cell>>, seed: Cell, from: Cell, c: Cell): seq<Cell>
  {
    if c == seed || from !in paths then [c] else paths[from] + [c]
  }

  /** Marking a region cell next to a marked cell (or the seed) keeps every marked cell witnessed. */
  lemma MarkKeepsWitnessed(paths: map<Cell, seq<Cell>>, marked: set<Cell>, region: set<Cell>, seed: Cell, from: Cell, c: Cell)
    requires Witnessed(paths, marked, region, seed)
    requires c in region && seed in region
    requires c == seed || (from in marked && Adjacent(from, c))
    ensures Witnessed(paths[c := NewPath(paths, seed, from, c)], marked + {c}, region, seed)
  {
    var path := NewPath(paths, seed, from, c);
    if c != seed {
      var q := paths[from];
      assert IsPath(q, region) && q[|q| - 1] == from;
      assert path[|path| - 2] == from;
    }
    assert IsPath(path, region);
  }

  /** A closed set that holds the start of a path through the region holds its end. */
  lemma {:induction false} ClosedSetHoldsPath(marked: set<Cell>, region: set<Cell>, p: seq<Cell>)
    requires Closed(marked, region, [])
    requires IsPath(p, region) && p[0] in marked
    ensures p[|p| - 1] in marked
    decreases |p|
  {
    if |p| > 1 {
      var q := p[..|p| - 1];
      assert IsPath(q, region);
      ClosedSetHoldsPath(marked, region, q);
      assert Adjacent(p[|p| - 2], p[|p| - 1]);
    }
  }

  /** Once nothing is pending, the marked cells with recorded paths are exactly the seed's component. */
  lemma MarkedIsComponent(marked: set<Cell>, region: set<Cell>, paths: map<Cell, seq<Cell>>, seed: Cell)
    requires marked <= region && seed in marked
    requires Closed(marked, region, []) && Witnessed(paths, marked, region, seed)
    ensures marked == Component(region, seed)
  {
    forall m | m in marked ensures m in Component(region, seed) {
      assert m in paths ==> IsPath(paths[m], region);
      assert Reachable(region, seed, m);
    }
    forall m | m in Component(region, seed) ensures m in marked {
      var p :| IsPath(p, region) && p[0] == seed && p[|p| - 1] == m;
      ClosedSetHoldsPath(marked, region, p);
    }
  }

  /**
   * The fill's loop invariant over its ghost record: the marked cells are
   * region cells reached from the seed, the frontier is closed up to the
   * stack, and the bounds and count describe the marked cells (the seed's
   * bounds stand in before anything is marked).
   */
  ghost predicate FillInv(region: set<Cell>, seed: Cell, marked: set<Cell>, stack: seq<Cell>, parent: seq<Cell>,
                          paths: map<Cell, seq<Cell>>, b: PixelBounds, area: int)
  {
    && seed in region && marked <= region && area == |marked|
    && (seed in marked || (marked == {} && stack == [seed]))
    && Justified(stack, parent, marked, seed)
    && Witnessed(paths, marked, region, seed)
    && Closed(marked, region, stack)
    && Encloses(b, marked + {seed}) && Tight(b, marked + {seed})
  }

  lemma InitFill(region: set<Cell>, seed: Cell)
    requires seed in region
    ensures FillInv(region, seed, {}, [seed], [seed], map[], PixelBounds(seed.x, seed.x, seed.y, seed.y), 0)
  {
    assert seed in {} + {seed};
  }

  /** Dropping a popped cell that is already marked or outside the region. */
  lemma DiscardStep(region: set<Cell>, seed: Cell, marked: set<Cell>, stack: seq<Cell>, parent: seq<Cell>,
                    paths: map<Cell, seq<Cell>>, b: PixelBounds, area: int)
    requires FillInv(region, seed, marked, stack, parent, paths, b, area) && |stack| > 0
    requires stack[|stack| - 1] in marked || stack[|stack| - 1] !in region
    ensures FillInv(region, seed, marked, stack[..|stack| - 1], parent[..|parent| - 1], paths, b, area)
  {
    var c := stack[|stack| - 1];
    assert stack == stack[..|stack| - 1] + [c];
    PopKeepsJustified(stack, parent, marked, seed);
    DiscardKeepsClosed(marked, region, stack[..|stack| - 1], c);
  }

  /** Marking a popped region cell and pushing its four neighbours. */
  lemma MarkStep(region: set<Cell>, seed: Cell, marked: set<Cell>, stack: seq<Cell>, parent: seq<Cell>,
                 paths: map<Cell, seq<Cell>>, b: PixelBounds, area: int)
    requires FillInv(region, seed, marked, stack, parent, paths, b, area) && |stack| > 0
    requires stack[|stack| - 1] in region && stack[|stack| - 1] !in marked
    ensures var c, from := stack[|stack| - 1], parent[|parent| - 1];
      && FillInv(region, seed, marked + {c}, stack[..|stack| - 1] + Neighbours(c), parent[..|parent| - 1] + [c, c, c, c],
                 paths[c := NewPath(paths, seed, from, c)], Extend(b, c), area + 1)
      && region - (marked + {c}) < region - marked
  {
    var c, from := stack[|stack| - 1], parent[|parent| - 1];
    var rest := stack[..|stack| - 1];
    assert stack == rest + [c];
    PopKeepsJustified(stack, parent, marked, seed);
    MarkKeepsClosed(marked, region, rest, c);
    MarkKeepsJustified(rest, parent[..|parent| - 1], marked, seed, c);
    MarkKeepsWitnessed(paths, marked, region, seed, from, c);
    ExtendKeepsBounds(b, marked + {seed}, c);
    assert marked + {seed} + {c} == marked + {c} + {seed};
    assert seed in marked + {c} by {
      if seed !in marked { assert stack == [seed] && c == seed; }
    }
    assert |marked + {c}| == |marked| + 1;
    assert c in region - marked && c !in region - (marked + {c});
  }

  /** With nothing pending, the record describes exactly the seed's component. */
  lemma FinishFill(region: set<Cell>, seed: Cell, marked: set<Cell>, parent: seq<Cell>,
                   paths: map<Cell, seq<Cell>>, b: PixelBounds, area: int)
    requires FillInv(region, seed, marked, [], parent, paths, b, area)
    ensures marked == Component(region, seed) && area == |marked| && seed in marked
    ensures Encloses(b, marked) && Tight(b, marked)
  {
    MarkedIsComponent(marked, region, paths, seed);
    assert marked + {seed} == marked;
  }

  /** Pixel bounds that lie inside a `width` by `height` frame, minimum before maximum. */
  predicate BoundsInFrame(b: PixelBounds, width: int, height: int)
  {
    0 <= b.minX <= b.maxX < width && 0 <= b.minY <= b.maxY < height
  }

  /** Tight enclosing bounds of cells inside the frame lie inside the frame. */
  lemma TightInFrame(b: PixelBounds, cells: set<Cell>, width: int, height: int)
    requires Encloses(b, cells) && Tight(b, cells)
    requires forall c :: c in cells ==> InFrame(c, width, height)
    ensures BoundsInFrame(b, width, height)
  {
    var lo :| lo in cells && lo.x == b.minX;
    var hi :| hi in cells && hi.x == b.maxX;
    var top :| top in cells && top.y == b.minY;
    var bot :| bot in cells && bot.y == b.maxY;
    assert InFrame(lo, width, height) && InFrame(hi, width, height);
    assert InFrame(top, width, height) && InFrame(bot, width, height);
  }

  /** Sets one cell's visited flag and leaves every other flag alone. */
  method Visit(visited: array2<bool>, c: Cell)
    requires InFrame(c, visited.Length1, visited.Length0)
    modifies visited
    ensures forall y, x {:trigger visited[y, x]} :: 0 <= y < visited.Length0 && 0 <= x < visited.Length1 ==>
      visited[y, x] == (old(visited[y, x]) || Cell(x, y) == c)
  {
    visited[c.y, c.x] := true;
  }

  /**
   * The fill's stack loop from a seed known to be open: pops a cell, drops
   * it when it is off the frame, visited or not white, and otherwise marks
   * it, grows the bounds and pushes its four neighbours.
   */
  method Spread(mask: array2<bool>, visited: array2<bool>, seed: Cell, ghost region: set<Cell>)
    returns (bounds: PixelBounds, area: nat, ghost comp: set<Cell>)
    requires mask != visited && SameShape(mask, visited)
    requires forall c {:trigger c in region} :: c in region <==>
      InFrame(c, visited.Length1, visited.Length0) && mask[c.y, c.x] && !visited[c.y, c.x]
    requires seed in region
    modifies visited
    ensures comp == Component(region, seed) && area == |comp| && seed in comp
    ensures Encloses(bounds, comp) && Tight(bounds, comp)
    ensures forall y, x {:trigger visited[y, x]} :: 0 <= y < visited.Length0 && 0 <= x < visited.Length1 ==>
      visited[y, x] == (old(visited[y, x]) || Cell(x, y) in comp)
  {
    var width, height := visited.Length1, visited.Length0;
    var stack := [seed];
    ghost var parent := [seed];
    var minX, maxX, minY, maxY := seed.x, seed.x, seed.y, seed.y;
    area := 0;
    ghost var marked: set<Cell> := {};
    ghost var paths: map<Cell, seq<Cell>> := map[];
    InitFill(region, seed);

    while |stack| > 0
      invariant forall y, x {:trigger visited[y, x]} :: 0 <= y < height && 0 <= x < width ==>
                  visited[y, x] == (old(visited[y, x]) || Cell(x, y) in marked)
      invariant FillInv(region, seed, marked, stack, parent, paths, PixelBounds(minX, maxX, minY, maxY), area)
      decreases region - marked, |stack|
    {
      var c := stack[|stack| - 1];
      if c.x < 0 || c.x >= width || c.y < 0 || c.y >= height || visited[c.y, c.x] || !mask[c.y, c.x] {
        // off the frame, already visited, or not white: dropped
        DiscardStep(region, seed, marked, stack, parent, paths, PixelBounds(minX, maxX, minY, maxY), area);
        stack := stack[..|stack| - 1];
        parent := parent[..|parent| - 1];
        continue;
      }
      MarkStep(region, seed, marked, stack, parent, paths, PixelBounds(minX, maxX, minY, maxY), area);
      ghost var from := parent[|parent| - 1];
      stack := stack[..|stack| - 1];
      parent := parent[..|parent| - 1];

      ghost var before := marked;
      Visit(visited, c);
      forall y, x | 0 <= y < height && 0 <= x < width
        ensures visited[y, x] == (old(visited[y, x]) || Cell(x, y) in before + {c})
      {
      }
      area := area + 1;
      minX := Min(minX, c.x);
      maxX := Max(maxX, c.x);
      minY := Min(minY, c.y);
      maxY := Max(maxY, c.y);
      paths := paths[c := NewPath(paths, seed, from, c)];
      marked := marked + {c};
      stack := stack + Neighbours(c);
      parent := parent + [c, c, c, c];
    }

    FinishFill(region, seed, marked, parent, paths, PixelBounds(minX, maxX, minY, maxY), area);
    bounds, comp := PixelBounds(minX, maxX, minY, maxY), marked;
  }

  /**
   * Flood fill from (startX, startY) over white, unvisited cells with an
   * explicit stack. Nothing happens when the start is off the frame,
   * visited or not white. Otherwise exactly the start's 4-connected
   * component of the open cells becomes visited, and the result reports its
   * pixel count and its tight pixel bounds.
   */
  method FloodFill(mask: array2<bool>, visited: array2<bool>, startX: int, startY: int) returns (result: Option<Fill>)
    requires mask != visited && SameShape(mask, visited)
    modifies visited
    ensures var seed, region := Cell(startX, startY), old(OpenCells(mask, visited));
      && (seed !in region ==> result.None? && unchanged(visited))
      && (seed in region ==>
            var comp := Component(region, seed);
            && result.Some?
            && result.value.area == |comp| && result.value.area >= 1
            && BoundsInFrame(result.value.bounds, mask.Length1, mask.Length0)
            && Encloses(result.value.bounds, comp) && Tight(result.value.bounds, comp)
            && result.value.box == NormalizedBox(result.value.bounds, mask.Length1, mask.Length0)
            && (forall y, x {:trigger visited[y, x]} :: 0 <= y < visited.Length0 && 0 <= x < visited.Length1 ==>
                  visited[y, x] == (old(visited[y, x]) || Cell(x, y) in comp)))
  {
    var width, height := visited.Length1, visited.Length0;
    var seed := Cell(startX, startY);
    ghost var region := OpenCells(mask, visited);
    OpenCellsMembers(mask, visited);
    if startX < 0 || startX >= width || startY < 0 || startY >= height {
      return None;
    }
    if visited[startY, startX] || !mask[startY, startX] {
      return None;
    }

    ghost var comp;
    var bounds, area;
    bounds, area, comp := Spread(mask, visited, seed, region);
    forall c | c in comp ensures InFrame(c, width, height) {
      assert c in region;
    }
    TightInFrame(bounds, comp, width, height);
    result := Some(Fill(NormalizedBox(bounds, width, height), bounds, area));
  }

  /** Normalising in-frame bounds gives a box with non-negative sides inside the unit square. */
  lemma NormalizedBoxInUnitSquare(b: PixelBounds, width: int, height: int)
    requires width > 0 && height > 0 && BoundsInFrame(b, width, height)
    ensures var box := NormalizedBox(b, width, height);
      box.width >= 0.0 && box.height >= 0.0 && InUnitSquare(box)
  {
    AxisInUnit(b.minX, b.maxX, width);
    AxisInUnit(b.minY, b.maxY, height);
  }

  lemma AxisInUnit(lo: int, hi: int, size: int)
    requires 0 <= lo <= hi < size
    ensures 0.0 <= lo as real / size as real && 0.0 <= (hi - lo) as real / size as real
    ensures lo as real / size as real + (hi - lo) as real / size as real <= 1.0
  {
    var w := size as real;
    UnitInterval(lo as real, w);
    UnitInterval((hi - lo) as real, w);
    UnitInterval(hi as real, w);
    assert lo as real / w + (hi - lo) as real / w == hi as real / w;
  }

  // ---------------------------------------------------------------- mask

  /**
   * A pixel is white when its luminance or its channel average reaches the
   * threshold. The luminance weights sum to one, so whiteness sits between
   * the channels: all three at the threshold make a white pixel, and a
   * white pixel has some channel at the threshold.
   */
  function IsWhite(r: int, g: int, b: int, threshold: real): (white: bool)
    ensures r as real >= threshold && g as real >= threshold && b as real >= threshold ==> white
    ensures white ==> r as real >= threshold || g as real >= threshold || b as real >= threshold
  {
    || 0.299 * r as real + 0.587 * g as real + 0.114 * b as real >= threshold
    || (r + g + b) as real / 3.0 >= threshold
  }

  /** The first channel of pixel (x, y) in row-major RGBA data and the two after it are inside the data. */
  lemma PixelIndexInRange(width: int, height: int, x: int, y: int)
    requires 0 <= x < width && 0 <= y < height
    ensures 0 <= (y * width + x) * 4 && (y * width + x) * 4 + 3 < width * height * 4
  {
    assert y * width + x < (y + 1) * width;
    assert (y + 1) * width <= height * width by {
      assert height * width - (y + 1) * width == (height - (y + 1)) * width;
    }
  }

  /** Whiteness of pixel (x, y) of an RGBA frame. */
  predicate PixelWhite(data: seq<int>, width: int, height: int, x: int, y: int, threshold: real)
    requires |data| == width * height * 4 && 0 <= x < width && 0 <= y < height
  {
    PixelIndexInRange(width, height, x, y);
    var i := (y * width + x) * 4;
    IsWhite(data[i], data[i + 1], data[i + 2], threshold)
  }

  /** Classifies every pixel of the frame, row by row. */
  method BuildMask(data: seq<int>, width: nat, height: nat, threshold: real) returns (mask: array2<bool>)
    requires |data| == width * height * 4
    ensures fresh(mask) && mask.Length0 == height && mask.Length1 == width
    ensures forall y, x {:trigger mask[y, x]} :: 0 <= y < height && 0 <= x < width ==>
      mask[y, x] == PixelWhite(data, width, height, x, y, threshold)
  {
    mask := new bool[height, width];
    var y := 0;
    while y < height
      invariant 0 <= y <= height
      invariant forall j, i {:trigger mask[j, i]} :: 0 <= j < y && 0 <= i < width ==>
        mask[j, i] == PixelWhite(data, width, height, i, j, threshold)
    {
      var x := 0;
      while x < width
        invariant 0 <= x <= width
        invariant forall j, i {:trigger mask[j, i]} :: 0 <= j < height && 0 <= i < width && (j < y || (j == y && i < x)) ==>
          mask[j, i] == PixelWhite(data, width, height, i, j, threshold)
      {
        PixelIndexInRange(width, height, x, y);
        var idx := (y * width + x) * 4;
        mask[y, x] := IsWhite(data[idx], data[idx + 1], data[idx + 2], threshold);
        x := x + 1;
      }
      y := y + 1;
    }
  }

  // ---------------------------------------------------------------- seed scan

  // The seed scan visits every 10th pixel of every 10th row; the fallback
  // samples every 3rd pixel of every 3rd row. The spacings are written as
  // literals so that the solver treats `%` by them as linear.

  /** A lattice point of the given spacing. */
  predicate OnLattice(c: Cell, step: int)
    requires step > 0
  {
    c.x % step == 0 && c.y % step == 0
  }

  /** Row-major scan order: `c` comes before position (x, y). */
  predicate Before(c: Cell, x: int, y: int)
  {
    c.y < y || (c.y == y && c.x < x)
  }

  /** Between two consecutive lattice lines there is no lattice line. */
  lemma LatticeGap(a: int, x: int, step: int)
    requires step > 0 && a % step == 0 && x % step == 0 && x <= a < x + step
    ensures a == x
  {
    var k := a / step - x / step;
    assert a - x == k * step;
    StepMultiple(k, step);
  }

  /** The lattice end of a side is a lattice line at or past the side's edge, by less than one spacing. */
  lemma LatticeEndBounds(size: int)
    requires size >= 0
    ensures LatticeEnd(size) % 10 == 0 && size <= LatticeEnd(size) < size + 10
  {
  }

  /** The lattice line after `a` is at or before any later lattice line `b`. */
  lemma NextLatticeLine(a: int, b: int)
    requires a % 10 == 0 && b % 10 == 0 && a < b
    ensures a + 10 <= b
  {
    if b < a + 10 {
      LatticeGap(b, a, 10);
    }
  }

  lemma StepMultiple(k: int, step: int)
    requires step > 0
    ensures k >= 1 ==> k * step >= step
    ensures k <= -1 ==> k * step <= -step
  {
    if k >= 1 {
      assert k * step == (k - 1) * step + step;
    }
    if k <= -1 {
      assert k * step == (k + 1) * step - step;
    }
  }

  /** Some lattice point of the frame is white. */
  ghost predicate SomeWhiteOnLattice(mask: array2<bool>, step: int)
    requires step > 0
    reads mask
  {
    exists c :: InFrame(c, mask.Length1, mask.Length0) && OnLattice(c, step) && mask[c.y, c.x]
  }

  /** The running best of the scan: its area and its box, if any. */
  datatype Largest = Largest(area: int, box: Option<BoundingBox>)

  /** A fill replaces the running best only when strictly larger. */
  function Keep(best: Largest, f: Fill): (r: Largest)
    ensures r.area >= best.area && r.area >= f.area
    ensures r == best || r == Largest(f.area, Some(f.box))
  {
    if f.area > best.area then Largest(f.area, Some(f.box)) else best
  }

  /** The running best after a sequence of fills, starting from area 0 and no box. */
  function Best(fills: seq<Fill>): (r: Largest)
    ensures r.area >= 0 && forall i :: 0 <= i < |fills| ==> fills[i].area <= r.area
  {
    if |fills| == 0 then Largest(0, None) else Keep(Best(fills[..|fills| - 1]), fills[|fills| - 1])
  }

  /** `fills[i]` has positive area, none is larger, and every earlier one is strictly smaller. */
  predicate FirstLargest(fills: seq<Fill>, i: int)
  {
    && 0 <= i < |fills| && fills[i].area > 0
    && (forall j :: 0 <= j < |fills| ==> fills[j].area <= fills[i].area)
    && (forall j :: 0 <= j < i ==> fills[j].area < fills[i].area)
  }

  /**
   * The scan keeps the first of the largest fills: there is no box exactly
   * when no fill has positive area, and otherwise the box and area are
   * those of the first fill of greatest area.
   */
  lemma {:induction false} BestIsFirstLargest(fills: seq<Fill>)
    ensures Best(fills).box.None? <==> forall i :: 0 <= i < |fills| ==> fills[i].area <= 0
    ensures Best(fills).box.None? ==> Best(fills).area == 0
    ensures Best(fills).box.Some? ==>
      exists i :: FirstLargest(fills, i) && Best(fills) == Largest(fills[i].area, Some(fills[i].box))
  {
    if |fills| > 0 {
      var init, f := fills[..|fills| - 1], fills[|fills| - 1];
      BestIsFirstLargest(init);
      assert forall j :: 0 <= j < |init| ==> init[j] == fills[j];
      if Best(init).box.Some? {
        var i :| FirstLargest(init, i) && Best(init) == Largest(init[i].area, Some(init[i].box));
        if f.area > Best(init).area {
          assert FirstLargest(fills, |fills| - 1);
        } else {
          assert FirstLargest(fills, i);
        }
      } else if f.area > 0 {
        assert FirstLargest(fills, |fills| - 1);
      }
    }
  }

  /** What the scan knows of each fill it made: non-empty, framed, normalised. */
  predicate GoodFill(f: Fill, width: int, height: int)
  {
    width > 0 && height > 0 && f.area >= 1 && BoundsInFrame(f.bounds, width, height)
    && f.box == NormalizedBox(f.bounds, width, height)
  }

  /** Some cell of a non-empty set, the same one each time. */
  ghost function Pick(cells: set<Cell>): Cell
    requires cells != {}
  {
    var c :| c in cells; c
  }

  /** The pixel extremes of a set of cells, taken in one cell at a time; empty bounds for no cells. */
  ghost function BoundsOf(cells: set<Cell>): PixelBounds
    decreases |cells|
  {
    if cells == {} then PixelBounds(0, -1, 0, -1)
    else if cells == {Pick(cells)} then PixelBounds(Pick(cells).x, Pick(cells).x, Pick(cells).y, Pick(cells).y)
    else Extend(BoundsOf(cells - {Pick(cells)}), Pick(cells))
  }

  /** BoundsOf gives the tight enclosing bounds of a non-empty set. */
  lemma {:induction false} BoundsOfIsTight(cells: set<Cell>)
    requires cells != {}
    ensures Encloses(BoundsOf(cells), cells) && Tight(BoundsOf(cells), cells)
    decreases |cells|
  {
    var c := Pick(cells);
    if cells != {c} {
      var rest := cells - {c};
      BoundsOfIsTight(rest);
      ExtendKeepsBounds(BoundsOf(rest), rest, c);
      assert rest + {c} == cells;
    }
  }

  /** Any tight enclosing bounds of a set are its BoundsOf. */
  lemma TightIsBoundsOf(b: PixelBounds, cells: set<Cell>)
    requires Encloses(b, cells) && Tight(b, cells)
    ensures b == BoundsOf(cells)
  {
    var c :| c in cells && c.x == b.minX;
    BoundsOfIsTight(cells);
    TightBoundsUnique(b, BoundsOf(cells), cells);
  }

  /** What a fill of `region` reports: its normalised box, its pixel extremes and its pixel count. */
  ghost function ReportOf(region: set<Cell>, width: int, height: int): Fill
    requires width > 0 && height > 0
  {
    Fill(NormalizedBox(BoundsOf(region), width, height), BoundsOf(region), |region|)
  }

  /** The reports of a sequence of regions, in order. */
  ghost function Reports(regions: seq<set<Cell>>, width: int, height: int): seq<Fill>
    requires width > 0 && height > 0
    decreases |regions|
  {
    if |regions| == 0 then []
    else Reports(regions[..|regions| - 1], width, height) + [ReportOf(regions[|regions| - 1], width, height)]
  }

  /** The first lattice line at or past the edge of a frame side of `size` pixels. */
  function LatticeEnd(size: int): int
  {
    10 * ((size + 9) / 10)
  }

  /** The 10-pixel lattice points of every lattice row above row `y`, in row-major order. */
  function RowsBefore(y: int, width: int): seq<Cell>
    decreases if y < 0 then 0 else y, 0
  {
    if y <= 0 then [] else SeedsBefore(LatticeEnd(width), y - 10, width)
  }

  /** The 10-pixel lattice points that come before (x, y) in row-major order. */
  function SeedsBefore(x: int, y: int, width: int): seq<Cell>
    decreases if y < 0 then 0 else y, 1, if x < 0 then 0 else x
  {
    if x <= 0 then RowsBefore(y, width) else SeedsBefore(x - 10, y, width) + [Cell(x - 10, y)]
  }

  /** The seeds of the scan: every 10-pixel lattice point of the frame, in row-major order. */
  function LatticeSeeds(width: int, height: int): seq<Cell>
  {
    SeedsBefore(0, LatticeEnd(height), width)
  }

  /** Where the scan stands: the white cells no fill has reached, and the regions filled so far. */
  datatype ScanState = ScanState(open: set<Cell>, regions: seq<set<Cell>>)

  /** One seed offered: if still open, its 4-connected component of the open cells is recorded and closed. */
  ghost function ScanStep(s: ScanState, seed: Cell): ScanState
  {
    if seed in s.open then ScanState(s.open - Component(s.open, seed), s.regions + [Component(s.open, seed)])
    else s
  }

  /** The scan as a reference: the seeds offered in order, starting with every white cell open. */
  ghost function Scan(white: set<Cell>, seeds: seq<Cell>): ScanState
    decreases |seeds|
  {
    if |seeds| == 0 then ScanState(white, [])
    else ScanStep(Scan(white, seeds[..|seeds| - 1]), seeds[|seeds| - 1])
  }

  /** A seed lies in its own component, and the component stays inside its region. */
  lemma ComponentOfSeed(region: set<Cell>, seed: Cell)
    requires seed in region
    ensures seed in Component(region, seed) && Component(region, seed) <= region
  {
    assert IsPath([seed], region);
  }

  /** The regions are non-empty white cells that are no longer open, and the open cells are white. */
  ghost predicate RegionsClosed(white: set<Cell>, s: ScanState)
  {
    && s.open <= white
    && (forall i :: 0 <= i < |s.regions| ==> s.regions[i] != {} && s.regions[i] <= white && s.regions[i] !! s.open)
  }

  /** No two regions share a cell. */
  ghost predicate RegionsDisjoint(s: ScanState)
  {
    forall i, j :: 0 <= i < j < |s.regions| ==> s.regions[i] !! s.regions[j]
  }

  /** A white cell that is no longer open belongs to some region. */
  ghost predicate ClosedCovered(white: set<Cell>, s: ScanState)
  {
    forall c :: c in white && c !in s.open ==> exists i :: 0 <= i < |s.regions| && c in s.regions[i]
  }

  /** The regions and the open cells partition the white cells. */
  ghost predicate Partitioned(white: set<Cell>, s: ScanState)
  {
    RegionsClosed(white, s) && RegionsDisjoint(s) && ClosedCovered(white, s)
  }

  lemma CloseKeepsClosed(white: set<Cell>, s: ScanState, comp: set<Cell>)
    requires RegionsClosed(white, s) && comp != {} && comp <= s.open
    ensures RegionsClosed(white, ScanState(s.open - comp, s.regions + [comp]))
  {
    var t := ScanState(s.open - comp, s.regions + [comp]);
    forall i | 0 <= i < |t.regions|
      ensures t.regions[i] != {} && t.regions[i] <= white && t.regions[i] !! t.open
    {
      if i < |s.regions| {
        assert t.regions[i] == s.regions[i];
      }
    }
  }

  lemma CloseKeepsDisjoint(white: set<Cell>, s: ScanState, comp: set<Cell>)
    requires RegionsClosed(white, s) && RegionsDisjoint(s) && comp <= s.open
    ensures RegionsDisjoint(ScanState(s.open - comp, s.regions + [comp]))
  {
    var t := ScanState(s.open - comp, s.regions + [comp]);
    forall i, j | 0 <= i < j < |t.regions|
      ensures t.regions[i] !! t.regions[j]
    {
      assert t.regions[i] == s.regions[i];
    }
  }

  lemma CloseKeepsCovered(white: set<Cell>, s: ScanState, comp: set<Cell>)
    requires ClosedCovered(white, s)
    ensures ClosedCovered(white, ScanState(s.open - comp, s.regions + [comp]))
  {
    var t := ScanState(s.open - comp, s.regions + [comp]);
    forall c | c in white && c !in t.open
      ensures exists i :: 0 <= i < |t.regions| && c in t.regions[i]
    {
      if c in s.open {
        assert c in t.regions[|s.regions|];
      } else {
        var i :| 0 <= i < |s.regions| && c in s.regions[i];
        assert c in t.regions[i];
      }
    }
  }

  lemma StepKeepsPartition(white: set<Cell>, s: ScanState, seed: Cell)
    requires Partitioned(white, s)
    ensures Partitioned(white, ScanStep(s, seed))
  {
    if seed in s.open {
      ComponentOfSeed(s.open, seed);
      var comp := Component(s.open, seed);
      CloseKeepsClosed(white, s, comp);
      CloseKeepsDisjoint(white, s, comp);
      CloseKeepsCovered(white, s, comp);
    }
  }

  /**
   * Each white pixel is counted in at most one region of the scan: the
   * regions are non-empty, white and pairwise disjoint, and a white cell is
   * still open exactly when no region holds it.
   */
  lemma {:induction false} ScanPartitions(white: set<Cell>, seeds: seq<Cell>)
    ensures Partitioned(white, Scan(white, seeds))
    decreases |seeds|
  {
    if |seeds| > 0 {
      ScanPartitions(white, seeds[..|seeds| - 1]);
      StepKeepsPartition(white, Scan(white, seeds[..|seeds| - 1]), seeds[|seeds| - 1]);
    }
  }

  /** The arrays agree with the reference scan after `seeds`: open cells are unvisited white cells, and `fills` reports the regions. */
  ghost predicate ScanAt(mask: array2<bool>, visited: array2<bool>, seeds: seq<Cell>, fills: seq<Fill>)
    requires SameShape(mask, visited)
    reads mask, visited
  {
    var s := Scan(WhiteCells(mask), seeds);
    && s.open == OpenCells(mask, visited)
    && (mask.Length1 > 0 && mask.Length0 > 0 ==> fills == Reports(s.regions, mask.Length1, mask.Length0))
  }

  /**
   * A white, unvisited point seeds a flood fill whose region is recorded
   * and offered to the running best; any other point changes nothing.
   * Either way the arrays keep agreeing with the reference scan, one seed
   * further on.
   */
  method FillSeed(mask: array2<bool>, visited: array2<bool>, x: int, y: int, best: Largest,
                 ghost fills: seq<Fill>, ghost seeds: seq<Cell>)
    returns (best': Largest, ghost fills': seq<Fill>)
    requires mask != visited && SameShape(mask, visited) && InFrame(Cell(x, y), mask.Length1, mask.Length0)
    requires best == Best(fills)
    requires ScanAt(mask, visited, seeds, fills)
    modifies visited
    ensures best' == Best(fills')
    ensures ScanAt(mask, visited, seeds + [Cell(x, y)], fills')
    ensures forall f :: f in fills' ==> f in fills || GoodFill(f, mask.Length1, mask.Length0)
    ensures old(!visited[y, x]) && mask[y, x] ==> |fills'| == |fills| + 1
    ensures !(old(!visited[y, x]) && mask[y, x]) ==> fills' == fills && best' == best && unchanged(visited)
  {
    best', fills' := best, fills;
    ghost var seed := Cell(x, y);
    ghost var s := Scan(WhiteCells(mask), seeds);
    assert (seeds + [seed])[..|seeds|] == seeds;
    OpenCellsMembers(mask, visited);
    if !visited[y, x] && mask[y, x] {
      ghost var before := OpenCells(mask, visited);
      assert seed in before;
      var result := FloodFill(mask, visited, x, y);
      ghost var comp := Component(before, seed);
      OpenCellsMembers(mask, visited);
      forall c
        ensures c in OpenCells(mask, visited) <==> c in before - comp
      {
        if InFrame(c, mask.Length1, mask.Length0) {
          assert Cell(c.x, c.y) == c;
        }
      }
      assert OpenCells(mask, visited) == before - comp;
      assert Scan(WhiteCells(mask), seeds + [seed]) == ScanState(before - comp, s.regions + [comp]);
      TightIsBoundsOf(result.value.bounds, comp);
      assert result.value == ReportOf(comp, mask.Length1, mask.Length0);
      assert (s.regions + [comp])[..|s.regions|] == s.regions;
      fills' := fills + [result.value];
      assert fills'[..|fills'| - 1] == fills;
      if result.value.area > best.area {
        best' := Largest(result.value.area, Some(result.value.box));
      }
    } else {
      assert seed !in s.open;
      assert Scan(WhiteCells(mask), seeds + [seed]) == s;
    }
  }

  /** Before any fill: nothing is visited and no lattice point before (x, y) is white. */
  ghost predicate NothingFound(mask: array2<bool>, visited: array2<bool>, x: int, y: int)
    reads mask, visited
  {
    && (forall j, i {:trigger visited[j, i]} :: 0 <= j < visited.Length0 && 0 <= i < visited.Length1 ==> !visited[j, i])
    && (forall c {:trigger mask[c.y, c.x]} ::
          InFrame(c, mask.Length1, mask.Length0) && OnLattice(c, 10) && Before(c, x, y) ==> !mask[c.y, c.x])
  }

  /** What the scan keeps true when it reaches (x, y). */
  ghost predicate Scanning(mask: array2<bool>, visited: array2<bool>, best: Largest, fills: seq<Fill>, x: int, y: int)
    requires SameShape(mask, visited)
    reads mask, visited
  {
    && ScanAt(mask, visited, SeedsBefore(x, y, mask.Length1), fills)
    && best == Best(fills)
    && (forall f :: f in fills ==> GoodFill(f, mask.Length1, mask.Length0))
    && (|fills| > 0 ==> SomeWhiteOnLattice(mask, 10))
    && (|fills| == 0 ==> NothingFound(mask, visited, x, y))
  }

  /** An empty-handed scan passes a lattice point that is not white. */
  lemma NothingFoundStep(mask: array2<bool>, visited: array2<bool>, x: int, y: int)
    requires NothingFound(mask, visited, x, y) && x % 10 == 0
    requires InFrame(Cell(x, y), mask.Length1, mask.Length0) ==> !mask[y, x]
    ensures NothingFound(mask, visited, x + 10, y)
  {
    forall c | InFrame(c, mask.Length1, mask.Length0) && OnLattice(c, 10) && Before(c, x + 10, y)
      ensures !mask[c.y, c.x]
    {
      if !Before(c, x, y) {
        LatticeGap(c.x, x, 10);
      }
    }
  }

  /** An empty-handed scan past the end of a lattice row goes on at the next lattice row. */
  lemma NothingFoundRow(mask: array2<bool>, visited: array2<bool>, x: int, y: int)
    requires NothingFound(mask, visited, x, y) && x >= mask.Length1 && y % 10 == 0
    ensures NothingFound(mask, visited, 0, y + 10)
  {
    forall c | InFrame(c, mask.Length1, mask.Length0) && OnLattice(c, 10) && Before(c, 0, y + 10)
      ensures Before(c, x, y)
    {
      if c.y > y {
        LatticeGap(c.y, y, 10);
      }
    }
  }

  /** Past the end of a lattice row, the scan stands at the start of the next one. */
  lemma NextRow(mask: array2<bool>, visited: array2<bool>, best: Largest, fills: seq<Fill>, x: int, y: int)
    requires SameShape(mask, visited) && Scanning(mask, visited, best, fills, x, y)
    requires x == LatticeEnd(mask.Length1) && y % 10 == 0 && y >= 0
    ensures Scanning(mask, visited, best, fills, 0, y + 10)
  {
    assert RowsBefore(y + 10, mask.Length1) == SeedsBefore(x, y, mask.Length1);
    assert SeedsBefore(0, y + 10, mask.Length1) == SeedsBefore(x, y, mask.Length1);
    if |fills| == 0 {
      NothingFoundRow(mask, visited, x, y);
    }
  }

  /** One lattice point of the scan, keeping what the scan knows between seeds. */
  method TrySeed(mask: array2<bool>, visited: array2<bool>, x: int, y: int, best: Largest, ghost fills: seq<Fill>)
    returns (best': Largest, ghost fills': seq<Fill>)
    requires mask != visited && SameShape(mask, visited) && InFrame(Cell(x, y), mask.Length1, mask.Length0)
    requires x % 10 == 0 && y % 10 == 0
    requires Scanning(mask, visited, best, fills, x, y)
    modifies visited
    ensures Scanning(mask, visited, best', fills', x + 10, y)
  {
    ghost var wasEmpty := |fills| == 0;
    best', fills' := FillSeed(mask, visited, x, y, best, fills, SeedsBefore(x, y, mask.Length1));
    assert SeedsBefore(x + 10, y, mask.Length1) == SeedsBefore(x, y, mask.Length1) + [Cell(x, y)];
    if |fills'| == 0 {
      NothingFoundStep(mask, visited, x, y);
    } else if wasEmpty {
      assert OnLattice(Cell(x, y), 10) && InFrame(Cell(x, y), mask.Length1, mask.Length0) && mask[y, x];
    }
  }

  /** One row of the seed scan: every 10th pixel of row `y`, left to right. */
  method ScanRow(mask: array2<bool>, visited: array2<bool>, y: int, best: Largest, ghost fills: seq<Fill>)
    returns (best': Largest, ghost fills': seq<Fill>)
    requires mask != visited && SameShape(mask, visited) && 0 <= y < mask.Length0 && y % 10 == 0
    requires Scanning(mask, visited, best, fills, 0, y)
    modifies visited
    ensures Scanning(mask, visited, best', fills', 0, y + 10)
  {
    var width := mask.Length1;
    best', fills' := best, fills;
    var x := 0;
    LatticeEndBounds(width);
    while x < width
      invariant 0 <= x <= LatticeEnd(width) && x % 10 == 0
      invariant Scanning(mask, visited, best', fills', x, y)
    {
      assert InFrame(Cell(x, y), width, mask.Length0);
      best', fills' := TrySeed(mask, visited, x, y, best', fills');
      NextLatticeLine(x, LatticeEnd(width));
      x := x + 10;
    }
    LatticeGap(LatticeEnd(width), x, 10);
    NextRow(mask, visited, best', fills', x, y);
  }

  /** A fresh visited array of the mask's shape, all clear: the scan stands at the origin with nothing found. */
  method Unvisited(mask: array2<bool>) returns (visited: array2<bool>)
    ensures fresh(visited) && SameShape(mask, visited)
    ensures Scanning(mask, visited, Largest(0, None), [], 0, 0)
  {
    visited := new bool[mask.Length0, mask.Length1]((_, _) => false);
    OpenCellsMembers(mask, visited);
    WhiteCellsMembers(mask);
    assert OpenCells(mask, visited) == WhiteCells(mask);
  }

  /** Past the last lattice row, what the scan knows is what ScanSeeds promises. */
  lemma ScanFinish(mask: array2<bool>, visited: array2<bool>, best: Largest, fills: seq<Fill>, y: int)
    requires SameShape(mask, visited) && Scanning(mask, visited, best, fills, 0, y)
    requires y == LatticeEnd(mask.Length0)
    ensures best == Best(fills)
    ensures mask.Length1 > 0 && mask.Length0 > 0 ==>
      fills == Reports(Scan(WhiteCells(mask), LatticeSeeds(mask.Length1, mask.Length0)).regions, mask.Length1, mask.Length0)
    ensures forall i :: 0 <= i < |fills| ==> GoodFill(fills[i], mask.Length1, mask.Length0)
    ensures best.box.Some? <==> SomeWhiteOnLattice(mask, 10)
    ensures best.box.Some? ==> best.box.value.width >= 0.0 && best.box.value.height >= 0.0 && InUnitSquare(best.box.value)
  {
    FoundBox(mask, visited, best, fills, y);
  }

  /** The box half of ScanFinish: found exactly when a lattice point is white, and then in the unit square. */
  lemma FoundBox(mask: array2<bool>, visited: array2<bool>, best: Largest, fills: seq<Fill>, y: int)
    requires best == Best(fills)
    requires forall f :: f in fills ==> GoodFill(f, mask.Length1, mask.Length0)
    requires |fills| > 0 ==> SomeWhiteOnLattice(mask, 10)
    requires |fills| == 0 ==> NothingFound(mask, visited, 0, y)
    requires y == LatticeEnd(mask.Length0)
    ensures best.box.Some? <==> SomeWhiteOnLattice(mask, 10)
    ensures best.box.Some? ==> best.box.value.width >= 0.0 && best.box.value.height >= 0.0 && InUnitSquare(best.box.value)
  {
    if |fills| == 0 && SomeWhiteOnLattice(mask, 10) {
      var c :| InFrame(c, mask.Length1, mask.Length0) && OnLattice(c, 10) && mask[c.y, c.x];
      LatticeEndBounds(mask.Length0);
      assert Before(c, 0, y);
    }
    if |fills| > 0 {
      assert fills[0] in fills;
    }
    BestIsFirstLargest(fills);
    if best.box.Some? {
      var i :| FirstLargest(fills, i) && best == Largest(fills[i].area, Some(fills[i].box));
      assert fills[i] in fills;
      NormalizedBoxInUnitSquare(fills[i].bounds, mask.Length1, mask.Length0);
    }
  }

  /**
   * Flood fills from every white, still unvisited point of the 10-pixel
   * lattice, row by row, over a fresh visited array, keeping the first
   * largest region. The fills are those of the reference scan over the
   * mask's white cells, seed for seed. There is a box exactly when some
   * lattice point is white, and then it has non-negative sides and lies in
   * the unit square.
   */
  method ScanSeeds(mask: array2<bool>) returns (best: Largest, ghost fills: seq<Fill>)
    ensures best == Best(fills)
    ensures mask.Length1 > 0 && mask.Length0 > 0 ==>
      fills == Reports(Scan(WhiteCells(mask), LatticeSeeds(mask.Length1, mask.Length0)).regions, mask.Length1, mask.Length0)
    ensures forall i :: 0 <= i < |fills| ==> GoodFill(fills[i], mask.Length1, mask.Length0)
    ensures best.box.Some? <==> SomeWhiteOnLattice(mask, 10)
    ensures best.box.Some? ==> best.box.value.width >= 0.0 && best.box.value.height >= 0.0 && InUnitSquare(best.box.value)
  {
    var visited := Unvisited(mask);
    best, fills := ScanRows(mask, visited);
    ScanFinish(mask, visited, best, fills, LatticeEnd(mask.Length0));
  }

  /** Every lattice row of the seed scan, top to bottom, from a clear visited array. */
  method ScanRows(mask: array2<bool>, visited: array2<bool>) returns (best: Largest, ghost fills: seq<Fill>)
    requires mask != visited && SameShape(mask, visited)
    requires Scanning(mask, visited, Largest(0, None), [], 0, 0)
    modifies visited
    ensures Scanning(mask, visited, best, fills, 0, LatticeEnd(mask.Length0))
  {
    var height := mask.Length0;
    best, fills := Largest(0, None), [];
    var y := 0;
    LatticeEndBounds(height);
    while y < height
      invariant 0 <= y <= LatticeEnd(height) && y % 10 == 0
      invariant Scanning(mask, visited, best, fills, 0, y)
    {
      best, fills := ScanRow(mask, visited, y, best, fills);
      NextLatticeLine(y, LatticeEnd(height));
      y := y + 10;
    }
    LatticeGap(LatticeEnd(height), y, 10);
  }

  // ---------------------------------------------------------------- fallback

  /** The white cells that lie on the 3-pixel lattice. */
  ghost function Samples(white: set<Cell>): set<Cell>
  {
    set c | c in white && OnLattice(c, 3)
  }

  /** What the sampling pass reports for a set of white cells: nothing, or the bounds of the samples. */
  ghost function SampledBounds(white: set<Cell>): Option<PixelBounds>
  {
    if Samples(white) == {} then None else Some(BoundsOf(Samples(white)))
  }

  /** The white points of the 3-pixel lattice of a mask. */
  ghost function WhiteSamples(mask: array2<bool>): set<Cell>
    reads mask
  {
    Samples(WhiteCells(mask))
  }

  lemma WhiteSamplesMembers(mask: array2<bool>)
    ensures forall c {:trigger c in WhiteSamples(mask)} :: c in WhiteSamples(mask) <==>
      InFrame(c, mask.Length1, mask.Length0) && OnLattice(c, 3) && mask[c.y, c.x]
  {
    WhiteCellsMembers(mask);
  }

  /**
   * The sampling pass's invariant at position (x, y): `seen` holds the
   * white samples scanned so far, `found` says whether there are any, and
   * `b` is then their tight bounds and otherwise the initial sentinel
   * (width, 0, height, 0).
   */
  ghost predicate SampleInv(mask: array2<bool>, seen: set<Cell>, found: bool, b: PixelBounds, x: int, y: int)
    reads mask
  {
    && (forall c {:trigger c in seen} :: c in seen <==>
          InFrame(c, mask.Length1, mask.Length0) && OnLattice(c, 3) && mask[c.y, c.x] && Before(c, x, y))
    && (found <==> seen != {})
    && (found ==> Encloses(b, seen) && Tight(b, seen))
    && (!found ==> b == PixelBounds(mask.Length1, 0, mask.Length0, 0))
  }

  /** Scanning one sample point keeps the invariant, three columns further on. */
  lemma SampleOne(mask: array2<bool>, seen: set<Cell>, found: bool, b: PixelBounds, x: int, y: int)
    requires SampleInv(mask, seen, found, b, x, y)
    requires InFrame(Cell(x, y), mask.Length1, mask.Length0) && x % 3 == 0 && y % 3 == 0
    ensures var white := mask[y, x];
      SampleInv(mask, if white then seen + {Cell(x, y)} else seen, found || white,
                if white then Extend(b, Cell(x, y)) else b, x + 3, y)
  {
    var c0 := Cell(x, y);
    var seen' := if mask[y, x] then seen + {c0} else seen;
    if mask[y, x] && found {
      ExtendKeepsBounds(b, seen, c0);
    } else if mask[y, x] {
      assert seen' == {c0};
    }
    forall c | InFrame(c, mask.Length1, mask.Length0) && OnLattice(c, 3) && mask[c.y, c.x] && Before(c, x + 3, y)
      ensures c in seen'
    {
      if !Before(c, x, y) {
        LatticeGap(c.x, x, 3);
      }
    }
  }

  /** Past the end of a row, the invariant holds at the start of the next sampled row. */
  lemma SampleRowDone(mask: array2<bool>, seen: set<Cell>, found: bool, b: PixelBounds, x: int, y: int)
    requires SampleInv(mask, seen, found, b, x, y) && x >= mask.Length1 && y % 3 == 0
    ensures SampleInv(mask, seen, found, b, 0, y + 3)
  {
    forall c | InFrame(c, mask.Length1, mask.Length0) && OnLattice(c, 3) && Before(c, 0, y + 3)
      ensures Before(c, x, y)
    {
      if c.y > y {
        LatticeGap(c.y, y, 3);
      }
    }
  }

  /** Past the last row, `seen` is every white sample. */
  lemma SampleDone(mask: array2<bool>, seen: set<Cell>, found: bool, b: PixelBounds, y: int)
    requires SampleInv(mask, seen, found, b, 0, y) && y >= mask.Length0
    ensures seen == WhiteSamples(mask)
    ensures found <==> SomeWhiteOnLattice(mask, 3)
  {
    WhiteSamplesMembers(mask);
    if SomeWhiteOnLattice(mask, 3) {
      var c :| InFrame(c, mask.Length1, mask.Length0) && OnLattice(c, 3) && mask[c.y, c.x];
      assert c in seen;
    }
    if found {
      var c :| c in seen;
      assert InFrame(c, mask.Length1, mask.Length0) && OnLattice(c, 3) && mask[c.y, c.x];
    }
  }

  /**
   * The fallback's sampling pass over every 3rd pixel of every 3rd row:
   * nothing when no sampled pixel is white, and otherwise the tight pixel
   * bounds of the white samples.
   */
  method SampleWhiteBounds(mask: array2<bool>) returns (sampled: Option<PixelBounds>)
    ensures sampled.None? <==> !SomeWhiteOnLattice(mask, 3)
    ensures sampled.Some? ==> Encloses(sampled.value, WhiteSamples(mask)) && Tight(sampled.value, WhiteSamples(mask))
    ensures sampled.Some? ==> BoundsInFrame(sampled.value, mask.Length1, mask.Length0)
    ensures sampled == SampledBounds(WhiteCells(mask))
  {
    var width, height := mask.Length1, mask.Length0;
    var minX, maxX, minY, maxY := width, 0, height, 0;
    var foundWhite := false;
    ghost var seen: set<Cell> := {};
    var y := 0;
    ghost var row := 0;
    while y < height
      invariant y == 3 * row && 0 <= row
      invariant SampleInv(mask, seen, foundWhite, PixelBounds(minX, maxX, minY, maxY), 0, y)
    {
      var x := 0;
      ghost var col := 0;
      while x < width
        invariant x == 3 * col && 0 <= col && 0 <= y < height
        invariant SampleInv(mask, seen, foundWhite, PixelBounds(minX, maxX, minY, maxY), x, y)
      {
        SampleOne(mask, seen, foundWhite, PixelBounds(minX, maxX, minY, maxY), x, y);
        if mask[y, x] {
          foundWhite := true;
          minX := Min(minX, x);
          maxX := Max(maxX, x);
          minY := Min(minY, y);
          maxY := Max(maxY, y);
          seen := seen + {Cell(x, y)};
        }
        x, col := x + 3, col + 1;
      }
      SampleRowDone(mask, seen, foundWhite, PixelBounds(minX, maxX, minY, maxY), x, y);
      y, row := y + 3, row + 1;
    }
    SampleDone(mask, seen, foundWhite, PixelBounds(minX, maxX, minY, maxY), y);
    if foundWhite {
      sampled := Some(PixelBounds(minX, maxX, minY, maxY));
      WhiteSamplesMembers(mask);
      TightInFrame(sampled.value, seen, width, height);
      TightIsBoundsOf(sampled.value, seen);
    } else {
      sampled := None;
    }
  }

  // ---------------------------------------------------------------- choice

  /** A detection must cover at least this fraction of the frame. */
  const MinSurfaceArea: real := 0.01
  /** The fallback's box must be wider and taller than this fraction. */
  const FallbackMinSide: real := 0.03
  /** Margin added on each side of the fallback's box. */
  const Padding: real := 0.02

  function Area(b: BoundingBox): real
  {
    b.width * b.height
  }

  /** The fallback's box: the sampled bounds normalised, grown by the padding, clamped at 0 and 1. */
  function PaddedBox(b: PixelBounds, width: int, height: int): (r: BoundingBox)
    requires width > 0 && height > 0
    ensures 0.0 <= r.x && 0.0 <= r.y && r.width <= 1.0 && r.height <= 1.0
    ensures r.width > NormalizedBox(b, width, height).width || r.width == 1.0
    ensures r.height > NormalizedBox(b, width, height).height || r.height == 1.0
    ensures var box := NormalizedBox(b, width, height);
      && r.x >= box.x - Padding && (r.x == 0.0 || r.x == box.x - Padding)
      && r.y >= box.y - Padding && (r.y == 0.0 || r.y == box.y - Padding)
      && r.width <= box.width + 2.0 * Padding && (r.width == 1.0 || r.width == box.width + 2.0 * Padding)
      && r.height <= box.height + 2.0 * Padding && (r.height == 1.0 || r.height == box.height + 2.0 * Padding)
  {
    var box := NormalizedBox(b, width, height);
    BoundingBox(RealMax(0.0, box.x - Padding), RealMax(0.0, box.y - Padding),
                RealMin(1.0, box.width + 2.0 * Padding), RealMin(1.0, box.height + 2.0 * Padding))
  }

  /**
   * The padded box starts at or after the frame's origin, has sides in
   * (0, 1], and covers the sampled box it was grown from.
   */
  lemma PaddedBoxCovers(b: PixelBounds, width: int, height: int)
    requires width > 0 && height > 0 && BoundsInFrame(b, width, height)
    ensures var box, p := NormalizedBox(b, width, height), PaddedBox(b, width, height);
      && 0.0 <= p.x && 0.0 <= p.y
      && 0.0 < p.width <= 1.0 && 0.0 < p.height <= 1.0
      && p.x <= box.x && box.x + box.width <= p.x + p.width
      && p.y <= box.y && box.y + box.height <= p.y + p.height
  {
    AxisInUnit(b.minX, b.maxX, width);
    AxisInUnit(b.minY, b.maxY, height);
  }

  /** The fallback succeeds when some sample is white and the sampled box is over 3% wide and tall. */
  function Fallback(sampled: Option<PixelBounds>, width: int, height: int): (r: Option<BoundingBox>)
    requires sampled.Some? ==> width > 0 && height > 0
    ensures r.Some? <==>
      && sampled.Some?
      && NormalizedBox(sampled.value, width, height).width > FallbackMinSide
      && NormalizedBox(sampled.value, width, height).height > FallbackMinSide
    ensures r.Some? ==> r.value.width > FallbackMinSide && r.value.height > FallbackMinSide && 0.0 <= r.value.x && 0.0 <= r.value.y
    ensures r.Some? ==> r.value == PaddedBox(sampled.value, width, height)
  {
    if sampled.None? then None
    else
      var box := NormalizedBox(sampled.value, width, height);
      if box.width > FallbackMinSide && box.height > FallbackMinSide then Some(PaddedBox(sampled.value, width, height)) else None
  }

  /**
   * The final decision. The scan's box stands unless it is missing or
   * covers less than a tenth of `minSize`; then a successful fallback
   * replaces it (a failed one leaves it). Whatever stands is returned only
   * when it covers at least 1% of the frame.
   */
  function ChooseSurface(flood: Option<BoundingBox>, sampled: Option<PixelBounds>, width: int, height: int, minSize: real): (r: Option<BoundingBox>)
    requires sampled.Some? ==> width > 0 && height > 0
    ensures r.Some? ==> Area(r.value) >= MinSurfaceArea && (r == flood || r == Fallback(sampled, width, height))
    ensures flood.None? && sampled.None? ==> r.None?
    ensures flood.Some? && Area(flood.value) >= minSize * 0.1 ==>
      r == (if Area(flood.value) >= MinSurfaceArea then flood else None)
    ensures (flood.None? || Area(flood.value) < minSize * 0.1) && Fallback(sampled, width, height).Some? ==>
      var fallback := Fallback(sampled, width, height);
      r == (if Area(fallback.value) >= MinSurfaceArea then fallback else None)
    ensures (flood.None? || Area(flood.value) < minSize * 0.1) && Fallback(sampled, width, height).None? ==>
      r == (if flood.Some? && Area(flood.value) >= MinSurfaceArea then flood else None)
  {
    var candidate :=
      if flood.None? || Area(flood.value) < minSize * 0.1 then
        var fallback := Fallback(sampled, width, height);
        if fallback.Some? then fallback else flood
      else flood;
    if candidate.Some? && Area(candidate.value) >= MinSurfaceArea then candidate else None
  }

  /** Non-negative sides whose product reaches the minimum area are both positive. */
  lemma MinAreaHasArea(b: BoundingBox)
    requires b.width >= 0.0 && b.height >= 0.0 && Area(b) >= MinSurfaceArea
    ensures HasArea(b)
  {
  }

  /**
   * A detection always has room inside it, covers at least 1% of the frame,
   * starts inside the frame and has sides of at most the frame's size,
   * given a scan box in the unit square and sampled bounds in the frame.
   */
  lemma ChooseSurfaceSound(flood: Option<BoundingBox>, sampled: Option<PixelBounds>, width: int, height: int, minSize: real)
    requires width > 0 && height > 0
    requires flood.Some? ==> flood.value.width >= 0.0 && flood.value.height >= 0.0 && InUnitSquare(flood.value)
    requires sampled.Some? ==> BoundsInFrame(sampled.value, width, height)
    ensures var r := ChooseSurface(flood, sampled, width, height, minSize);
      r.Some? ==>
        && HasArea(r.value) && Area(r.value) >= MinSurfaceArea
        && 0.0 <= r.value.x && 0.0 <= r.value.y && r.value.width <= 1.0 && r.value.height <= 1.0
  {
    var r := ChooseSurface(flood, sampled, width, height, minSize);
    if r.Some? {
      if sampled.Some? {
        PaddedBoxCovers(sampled.value, width, height);
      }
      MinAreaHasArea(r.value);
    }
  }

  /** The white pixels of an RGBA frame, as cells. */
  ghost function WhitePixels(data: seq<int>, width: int, height: int, threshold: real): set<Cell>
    requires |data| == width * height * 4
  {
    set x: int, y: int | 0 <= x < width && 0 <= y < height && PixelWhite(data, width, height, x, y, threshold) :: Cell(x, y)
  }

  /** When every pixel is white, the white pixels are the whole frame. */
  lemma AllWhitePixels(data: seq<int>, width: int, height: int, threshold: real)
    requires |data| == width * height * 4
    requires forall y, x :: 0 <= y < height && 0 <= x < width ==> PixelWhite(data, width, height, x, y, threshold)
    ensures WhitePixels(data, width, height, threshold) == FrameCells(width, height)
  {
    FrameCellsMembers(width, height);
    forall c | c in FrameCells(width, height)
      ensures c in WhitePixels(data, width, height, threshold)
    {
      assert c == Cell(c.x, c.y);
    }
  }

  /** The mask BuildMask returns holds the frame's white pixels. */
  lemma MaskHoldsWhitePixels(mask: array2<bool>, data: seq<int>, width: nat, height: nat, threshold: real)
    requires |data| == width * height * 4 && mask.Length0 == height && mask.Length1 == width
    requires forall y, x {:trigger mask[y, x]} :: 0 <= y < height && 0 <= x < width ==>
      mask[y, x] == PixelWhite(data, width, height, x, y, threshold)
    ensures WhiteCells(mask) == WhitePixels(data, width, height, threshold)
  {
    WhiteCellsMembers(mask);
    forall c | c in WhitePixels(data, width, height, threshold)
      ensures c in WhiteCells(mask)
    {
      assert mask[c.y, c.x];
    }
  }

  /**
   * The detection as a function of the frame's white cells: the first
   * largest region of the reference scan over the 10-pixel lattice, the
   * bounds of the white samples of the 3-pixel lattice, and the choice
   * between them.
   */
  ghost function Detection(white: set<Cell>, width: int, height: int, minSize: real): Option<BoundingBox>
    requires width > 0 && height > 0
  {
    var flood := Best(Reports(Scan(white, LatticeSeeds(width, height)).regions, width, height)).box;
    ChooseSurface(flood, SampledBounds(white), width, height, minSize)
  }

  /**
   * Surface detection on one RGBA frame: classify pixels, scan the 10-pixel
   * lattice for the largest white region, sample the 3-pixel lattice for
   * the fallback, and decide. A frame without a white pixel yields nothing.
   */
  method DetectSurface(data: seq<int>, width: nat, height: nat, whiteThreshold: real, minSize: real)
    returns (surface: Option<BoundingBox>)
    requires |data| == width * height * 4
    ensures surface.Some? ==> HasArea(surface.value) && Area(surface.value) >= MinSurfaceArea
    ensures surface.Some? ==>
      0.0 <= surface.value.x && 0.0 <= surface.value.y && surface.value.width <= 1.0 && surface.value.height <= 1.0
    ensures (forall y, x :: 0 <= y < height && 0 <= x < width ==> !PixelWhite(data, width, height, x, y, whiteThreshold)) ==>
      surface.None?
    ensures width > 0 && height > 0 ==>
      surface == Detection(WhitePixels(data, width, height, whiteThreshold), width, height, minSize)
    ensures width == 0 || height == 0 ==> surface.None?
    ensures (&& width >= 2 && height >= 2 && minSize <= 2.5
             && forall y, x :: 0 <= y < height && 0 <= x < width ==> PixelWhite(data, width, height, x, y, whiteThreshold))
      ==> surface == Some(BoundingBox(0.0, 0.0, (width - 1) as real / width as real, (height - 1) as real / height as real))
  {
    var mask := BuildMask(data, width, height, whiteThreshold);
    var best, fills := ScanSeeds(mask);
    var sampled := SampleWhiteBounds(mask);
    surface := ChooseSurface(best.box, sampled, width, height, minSize);
    if width > 0 && height > 0 {
      ChooseSurfaceSound(best.box, sampled, width, height, minSize);
      MaskHoldsWhitePixels(mask, data, width, height, whiteThreshold);
      if width >= 2 && height >= 2 && minSize <= 2.5 &&
        forall y, x :: 0 <= y < height && 0 <= x < width ==> PixelWhite(data, width, height, x, y, whiteThreshold)
      {
        AllWhitePixels(data, width, height, whiteThreshold);
        FullFrameDetected(width, height, minSize);
      }
    }
  }

  // ---------------------------------------------------------------- a fully white frame

  lemma FrameCellsMembers(width: int, height: int)
    ensures forall c {:trigger c in FrameCells(width, height)} :: c in FrameCells(width, height) <==> InFrame(c, width, height)
  {
    forall c | InFrame(c, width, height)
      ensures c in FrameCells(width, height)
    {
      assert c == Cell(c.x, c.y);
    }
  }

  /** A whole frame is one 4-connected region: every cell is reached from the corner along its top row and down its column. */
  lemma FrameConnected(width: int, height: int)
    requires width > 0 && height > 0
    ensures Component(FrameCells(width, height), Cell(0, 0)) == FrameCells(width, height)
  {
    var frame := FrameCells(width, height);
    FrameCellsMembers(width, height);
    forall c | c in frame
      ensures Reachable(frame, Cell(0, 0), c)
    {
      var p := seq(c.x + c.y + 1, i requires 0 <= i <= c.x + c.y => if i <= c.x then Cell(i, 0) else Cell(c.x, i - c.x));
      assert forall i :: 0 <= i < |p| ==> p[i] in frame;
      assert IsPath(p, frame);
      assert p[|p| - 1] == c;
    }
  }

  /** The scan's first seed is the frame's corner. */
  lemma {:induction false} FirstSeed(x: int, y: int, width: int)
    requires width > 0 && x >= 0 && y >= 0 && x % 10 == 0 && y % 10 == 0 && (x > 0 || y > 0)
    ensures |SeedsBefore(x, y, width)| > 0 && SeedsBefore(x, y, width)[0] == Cell(0, 0)
    decreases y, x
  {
    if x == 0 {
      assert LatticeEnd(width) >= 10;
      FirstSeed(LatticeEnd(width), y - 10, width);
    } else if x - 10 > 0 || y > 0 {
      FirstSeed(x - 10, y, width);
    } else {
      assert SeedsBefore(x - 10, y, width) == [];
    }
  }

  /** Once a seed has closed every open cell, the later seeds change nothing. */
  lemma {:induction false} ScanOfEmptied(white: set<Cell>, seeds: seq<Cell>)
    requires |seeds| >= 1 && Scan(white, seeds[..1]).open == {}
    ensures Scan(white, seeds) == Scan(white, seeds[..1])
    decreases |seeds|
  {
    if |seeds| > 1 {
      var init := seeds[..|seeds| - 1];
      assert init[..1] == seeds[..1];
      ScanOfEmptied(white, init);
    }
  }

  /** A fraction (n - 1) / n is at least one half once n is at least 2. */
  lemma HalfOrMore(n: int)
    requires n >= 2
    ensures 0.5 <= (n - 1) as real / n as real < 1.0
  {
    var q := (n - 1) as real / n as real;
    DivCancel((n - 1) as real, n as real);
    if q < 0.5 {
      MulStrict(q, 0.5, n as real);
    }
    if q >= 1.0 {
      MulMonotone(1.0, q, n as real);
    }
  }

  /** Over a whole frame the scan makes a single region: the frame itself. */
  lemma FullFrameScan(width: int, height: int)
    requires width > 0 && height > 0
    ensures Scan(FrameCells(width, height), LatticeSeeds(width, height)).regions == [FrameCells(width, height)]
  {
    var frame := FrameCells(width, height);
    var seeds := LatticeSeeds(width, height);
    assert LatticeEnd(height) >= 10;
    FirstSeed(0, LatticeEnd(height), width);
    FrameConnected(width, height);
    FrameCellsMembers(width, height);
    assert seeds[..1] == [Cell(0, 0)];
    assert [Cell(0, 0)][..0] == [];
    assert Scan(frame, seeds[..1]) == ScanState({}, [frame]);
    ScanOfEmptied(frame, seeds);
  }

  /** The single region of a whole frame is reported with the frame's corners as its bounds. */
  lemma FullFrameBest(width: int, height: int)
    requires width > 0 && height > 0
    ensures Best(Reports([FrameCells(width, height)], width, height)).box ==
      Some(NormalizedBox(PixelBounds(0, width - 1, 0, height - 1), width, height))
  {
    var frame := FrameCells(width, height);
    var bounds := PixelBounds(0, width - 1, 0, height - 1);
    FrameCellsMembers(width, height);
    assert Cell(0, 0) in frame && Cell(width - 1, height - 1) in frame;
    TightIsBoundsOf(bounds, frame);
    assert [frame][..0] == [];
    var fills := [ReportOf(frame, width, height)];
    assert Reports([frame], width, height) == fills;
    assert fills[..0] == [];
  }

  /**
   * A frame of at least 2 by 2 pixels that is white everywhere is detected
   * as a box from the corner that spans all but the last pixel of each
   * side, whenever a tenth of `minSize` is at most a quarter of the frame.
   */
  lemma FullFrameDetected(width: int, height: int, minSize: real)
    requires width >= 2 && height >= 2 && minSize <= 2.5
    ensures Detection(FrameCells(width, height), width, height, minSize) ==
      Some(BoundingBox(0.0, 0.0, (width - 1) as real / width as real, (height - 1) as real / height as real))
  {
    var frame := FrameCells(width, height);
    FullFrameScan(width, height);
    FullFrameBest(width, height);
    var box := NormalizedBox(PixelBounds(0, width - 1, 0, height - 1), width, height);
    var flood := Best(Reports(Scan(frame, LatticeSeeds(width, height)).regions, width, height)).box;
    assert flood == Some(box);
    FullFrameArea(width, height);
    assert ChooseSurface(flood, SampledBounds(frame), width, height, minSize) == flood;
  }

  /** The whole frame's box covers at least a quarter of the frame. */
  lemma FullFrameArea(width: int, height: int)
    requires width >= 2 && height >= 2
    ensures var box := NormalizedBox(PixelBounds(0, width - 1, 0, height - 1), width, height);
      && box == BoundingBox(0.0, 0.0, (width - 1) as real / width as real, (height - 1) as real / height as real)
      && Area(box) >= 0.25
  {
    var box := NormalizedBox(PixelBounds(0, width - 1, 0, height - 1), width, height);
    HalfOrMore(width);
    HalfOrMore(height);
    MulMonotone(0.5, box.width, 0.5);
    MulMonotone(0.5, box.height, box.width);
  }
}
