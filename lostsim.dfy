/**
 * The deterministic bookkeeping of the search simulation: cells of a square
 * world keep an opaque value packing the tick at which the cell was last
 * seen with its x and y position; viewing a place stamps the clamped square
 * window around it with fresh ticks; a wanderer walks one step at a time
 * toward a target cell.  Every random choice of the simulation (shuffles,
 * coin flips, the cell a pick returns) is a parameter here.
 */
module LostSim {

  /** Bits per coordinate in an opaque value. */
  const PositionBits: int := 10
  /** 1 << PositionBits: coordinates range over 0 .. PositionRange - 1. */
  const PositionRange: int := 0x400
  /** (1 << PositionBits) - 1. */
  const PositionMask: int := 0x3ff
  /** 1 << (2 * PositionBits): the weight of the tick in an opaque value. */
  const TickUnit: int := 0x10_0000
  /** Ticks below 2^43 keep the shifted tick inside a signed 64-bit long. */
  const TickLimit: int := 0x800_0000_0000
  /** 2^63: every signed 64-bit long is below this. */
  const LongLimit: int := 0x8000_0000_0000_0000

  function Max(a: int, b: int): int { if a >= b then a else b }
  function Min(a: int, b: int): int { if a <= b then a else b }
  function Abs(a: int): int { if a < 0 then -a else a }

  // ---------------------------------------------------------------------
  // Opaque cell values

  /** (t << 20) + (y << 10) + x: a non-negative long whose low bits are x and whose top bits are t. */
  function EncodeOpaque(x: int, y: int, t: int): (value: int)
    ensures 0 <= x < PositionRange && 0 <= y < PositionRange && 0 <= t < TickLimit ==>
              0 <= value < LongLimit && value % 0x400 == x && value / 0x10_0000 == t
  {
    var value := t * 0x10_0000 + y * 0x400 + x;
    assert value == (t * 0x400 + y) * 0x400 + x && value == t * 0x10_0000 + (y * 0x400 + x);
    value
  }

  /** value & PositionMask; for every long this is the Euclidean remainder. */
  function DecodeX(value: int): (x: int)
    ensures 0 <= x <= PositionMask
  {
    value % 0x400
  }

  /** (value >> 10) & PositionMask; >> on a long is division rounding down. */
  function DecodeY(value: int): (y: int)
    ensures 0 <= y <= PositionMask
  {
    (value / 0x400) % 0x400
  }

  /** value >> 20: the tick part of an opaque value. */
  function TickOf(value: int): int
  {
    value / 0x10_0000
  }

  /** Positions and tick come back out of an encoded value, and it fits a long. */
  lemma DecodeEncode(x: int, y: int, t: int)
    requires 0 <= x < PositionRange && 0 <= y < PositionRange && 0 <= t < TickLimit
    ensures DecodeX(EncodeOpaque(x, y, t)) == x
    ensures DecodeY(EncodeOpaque(x, y, t)) == y
    ensures TickOf(EncodeOpaque(x, y, t)) == t
    ensures 0 <= EncodeOpaque(x, y, t) < LongLimit
  {
    var o := EncodeOpaque(x, y, t);
    assert o == (t * 0x400 + y) * 0x400 + x;
    assert o / 0x400 == t * 0x400 + y;
    assert o == t * 0x10_0000 + (y * 0x400 + x);
  }

  /** Every non-negative long is the encoding of its decoded parts. */
  lemma EncodeDecode(value: int)
    requires 0 <= value < LongLimit
    ensures 0 <= TickOf(value) < TickLimit
    ensures EncodeOpaque(DecodeX(value), DecodeY(value), TickOf(value)) == value
  {
    var q := value / 0x400;
    assert value == q * 0x400 + DecodeX(value);
    assert q == (q / 0x400) * 0x400 + DecodeY(value);
    assert value / 0x10_0000 == q / 0x400;
  }

  /** An older tick always encodes to a smaller value, whatever the positions. */
  lemma EncodeOrdersByTick(x1: int, y1: int, t1: int, x2: int, y2: int, t2: int)
    requires 0 <= x1 < PositionRange && 0 <= y1 < PositionRange
    requires 0 <= x2 < PositionRange && 0 <= y2 < PositionRange
    requires t1 < t2
    ensures EncodeOpaque(x1, y1, t1) < EncodeOpaque(x2, y2, t2)
  {
    assert y1 * 0x400 + x1 < 0x10_0000;
    assert t1 * 0x10_0000 + 0x10_0000 <= t2 * 0x10_0000;
  }

  /** value is a non-negative opaque value for cell (x, y) whose tick lies in lo .. hi. */
  predicate Stamp(value: int, x: int, y: int, lo: int, hi: int)
  {
    && 0 <= value
    && DecodeX(value) == x && DecodeY(value) == y
    && lo <= TickOf(value) <= hi
  }

  lemma EncodedStamp(x: int, y: int, t: int)
    requires 0 <= x < PositionRange && 0 <= y < PositionRange && 0 <= t < TickLimit
    ensures Stamp(EncodeOpaque(x, y, t), x, y, t, t)
  {
    DecodeEncode(x, y, t);
  }

  // ---------------------------------------------------------------------
  // Arithmetic of the row-major cell index y * n + x

  lemma MulLeft(a: int, b: int, n: int)
    requires a <= b && 0 <= n
    ensures a * n <= b * n
  {
    assert b * n - a * n == (b - a) * n;
  }

  /** q * n + r with 0 <= r < n divides back into q and r. */
  lemma DivModUnique(n: int, q: int, r: int)
    requires 0 <= r < n
    ensures (q * n + r) / n == q && (q * n + r) % n == r
  {
    var k := q * n + r;
    var d := k / n;
    assert k == d * n + k % n;
    if d > q {
      MulLeft(q + 1, d, n);
    } else if d < q {
      MulLeft(d + 1, q, n);
    }
  }

  lemma CellIndex(n: int, x: int, y: int)
    requires 0 <= x < n && 0 <= y < n
    ensures 0 <= y * n + x < n * n
    ensures (y * n + x) % n == x && (y * n + x) / n == y
  {
    MulLeft(0, y, n);
    MulLeft(y, n - 1, n);
    assert (n - 1) * n + n == n * n;
    DivModUnique(n, y, x);
  }

  lemma CellOf(n: int, k: int)
    requires 0 <= n && 0 <= k < n * n
    ensures n > 0
    ensures 0 <= k % n < n && 0 <= k / n < n
    ensures k == (k / n) * n + k % n
  {
    assert k == (k / n) * n + k % n;
    if k / n >= n {
      MulLeft(n, k / n, n);
    }
    if k / n < 0 {
      MulLeft(k / n, -1, n);
    }
  }

  /** Place (row, col) of a row-major walk over a grid at most side wide and high. */
  lemma GridSlot(row: int, col: int, w: int, side: int)
    requires 0 <= row < side && 0 <= col < w <= side
    ensures 0 <= row * w + col < side * side
  {
    MulLeft(0, row, w);
    MulLeft(row, side - 1, w);
    assert (side - 1) * w + w == side * w;
    MulLeft(w, side, side);
    assert w * side == side * w;
  }

  /** Cell k of an n by n world starts with its own position and tick t. */
  lemma InitialCell(n: int, k: int, t: int)
    requires 0 <= n <= PositionRange && 0 <= k < n * n && 1 <= t <= n * n
    ensures (CellOf(n, k); Stamp(EncodeOpaque(k % n, k / n, t), k % n, k / n, 1, n * n))
    ensures (CellOf(n, k); TickOf(EncodeOpaque(k % n, k / n, t)) == t)
  {
    CellOf(n, k);
    MulLeft(n, PositionRange, n);
    MulLeft(n, PositionRange, PositionRange);
    EncodedStamp(k % n, k / n, t);
  }

  /** s is an ordering of 1 .. m. */
  predicate IsPermutationOfOneTo(s: seq<int>, m: int)
  {
    && |s| == m
    && (forall i :: 0 <= i < |s| ==> 1 <= s[i] <= m)
    && (forall i, j :: 0 <= i < j < |s| ==> s[i] != s[j])
  }

  /** The only ordering of 1 .. 1 is [1]. */
  lemma PermutationOfOne(s: seq<int>, t: seq<int>)
    requires IsPermutationOfOneTo(s, 1) && IsPermutationOfOneTo(t, 1)
    ensures s == t
  {
  }

  /** The sequence 1, 2, ..., m. */
  function OneTo(m: nat): (s: seq<int>)
    ensures IsPermutationOfOneTo(s, m)
    ensures forall i :: 0 <= i < |s| ==> s[i] == i + 1
  {
    seq(m, i => i + 1)
  }

  /** Number of cells in a full view window. */
  function ViewArea(viewSize: int): int
  {
    (2 * viewSize + 1) * (2 * viewSize + 1)
  }

  // ---------------------------------------------------------------------
  // The world

  class World {
    const worldSize: int
    const viewSize: int
    const lastViewedTick: array<int>
    var currentTick: int
    var randomizeView: seq<int>

    /**
     * Each cell's value carries the cell's own position and a tick between
     * 1 and currentTick; randomizeView orders 1 .. (2 viewSize + 1)^2.
     */
    ghost predicate Valid()
      reads this, lastViewedTick
    {
      && 0 <= worldSize <= PositionRange
      && 0 <= viewSize
      && 0 <= currentTick
      && lastViewedTick.Length == worldSize * worldSize
      && IsPermutationOfOneTo(randomizeView, ViewArea(viewSize))
      && forall k :: 0 <= k < lastViewedTick.Length ==> CellMatches(k)
    }

    /** Cell k's value decodes to the cell's position and a tick in 1 .. currentTick. */
    ghost predicate CellMatches(k: int)
      reads this, lastViewedTick
      requires 0 <= worldSize && 0 <= k < lastViewedTick.Length == worldSize * worldSize
    {
      CellOf(worldSize, k);
      Stamp(lastViewedTick[k], k % worldSize, k / worldSize, 1, currentTick)
    }

    /** The ticks currently stored, cell by cell. */
    ghost function StoredTicks(): (s: seq<int>)
      reads this, lastViewedTick
      ensures |s| == lastViewedTick.Length
      ensures forall k :: 0 <= k < |s| ==> s[k] == TickOf(lastViewedTick[k])
    {
      seq(lastViewedTick.Length, k reads this, lastViewedTick requires 0 <= k < lastViewedTick.Length => TickOf(lastViewedTick[k]))
    }

    /** Cell (i, j) lies in the window view(x, y) stamps, clamped to the world. */
    predicate InWindow(x: int, y: int, i: int, j: int)
    {
      && Max(x - viewSize, 0) <= i <= Min(x + viewSize, worldSize - 1)
      && Max(y - viewSize, 0) <= j <= Min(y + viewSize, worldSize - 1)
    }

    /** Number of window columns of view(x, y). */
    function WindowWidth(x: int): int
    {
      Max(Min(x + viewSize, worldSize - 1) - Max(x - viewSize, 0) + 1, 0)
    }

    /** Position of cell (i, j) in the row-major walk over the window of view(x, y). */
    function Slot(x: int, y: int, i: int, j: int): int
    {
      (j - Max(y - viewSize, 0)) * WindowWidth(x) + (i - Max(x - viewSize, 0))
    }

    /** Every window cell has its own entry of randomizeView. */
    lemma SlotInRange(x: int, y: int, i: int, j: int)
      requires 0 <= viewSize
      requires InWindow(x, y, i, j)
      ensures 0 <= Slot(x, y, i, j) < ViewArea(viewSize)
    {
      var row := j - Max(y - viewSize, 0);
      var col := i - Max(x - viewSize, 0);
      assert Slot(x, y, i, j) == row * WindowWidth(x) + col;
      GridSlot(row, col, WindowWidth(x), 2 * viewSize + 1);
    }

    constructor (worldSize: int, viewSize: int, shuffledTicks: seq<int>)
      requires 0 <= worldSize <= PositionRange && 0 <= viewSize
      requires IsPermutationOfOneTo(shuffledTicks, worldSize * worldSize)
      ensures Valid() && fresh(lastViewedTick)
      ensures this.worldSize == worldSize && this.viewSize == viewSize
      ensures currentTick == worldSize * worldSize
      ensures forall k :: 0 <= k < lastViewedTick.Length ==>
                lastViewedTick[k] == EncodeOpaque(k % worldSize, k / worldSize, shuffledTicks[k])
      ensures StoredTicks() == shuffledTicks
      ensures IsPermutationOfOneTo(StoredTicks(), worldSize * worldSize)
      ensures randomizeView == OneTo(ViewArea(viewSize))
    {
      this.worldSize := worldSize;
      this.viewSize := viewSize;
      lastViewedTick := new int[worldSize * worldSize];
      currentTick := worldSize * worldSize;
      new;
      InitializeLastViewedTicks(shuffledTicks);
      InitializeRandomizeView();
      forall k | 0 <= k < lastViewedTick.Length
        ensures CellMatches(k) && StoredTicks()[k] == shuffledTicks[k]
      {
        InitialCell(worldSize, k, shuffledTicks[k]);
      }
      assert StoredTicks() == shuffledTicks;
    }

    /** Cell y * n + x gets position (x, y) and the next tick of the shuffled list. */
    method InitializeLastViewedTicks(shuffledTicks: seq<int>)
      requires 0 <= worldSize <= PositionRange
      requires lastViewedTick.Length == worldSize * worldSize
      requires IsPermutationOfOneTo(shuffledTicks, worldSize * worldSize)
      modifies lastViewedTick
      ensures forall k :: 0 <= k < lastViewedTick.Length ==>
                lastViewedTick[k] == EncodeOpaque(k % worldSize, k / worldSize, shuffledTicks[k])
    {
      var i := 0;
      for y := 0 to worldSize
        invariant i == y * worldSize && i <= lastViewedTick.Length
        invariant forall k :: 0 <= k < i ==>
                    lastViewedTick[k] == EncodeOpaque(k % worldSize, k / worldSize, shuffledTicks[k])
      {
        for x := 0 to worldSize
          invariant i == y * worldSize + x && i <= lastViewedTick.Length
          invariant forall k :: 0 <= k < i ==>
                      lastViewedTick[k] == EncodeOpaque(k % worldSize, k / worldSize, shuffledTicks[k])
        {
          CellIndex(worldSize, x, y);
          assert i % worldSize == x && i / worldSize == y && i < lastViewedTick.Length;
          lastViewedTick[y * worldSize + x] := EncodeOpaque(x, y, shuffledTicks[i]);
          assert lastViewedTick[i] == EncodeOpaque(i % worldSize, i / worldSize, shuffledTicks[i]);
          i := i + 1;
        }
        assert y * worldSize + worldSize == (y + 1) * worldSize;
        MulLeft(y + 1, worldSize, worldSize);
      }
    }

    /** randomizeView becomes 1, 2, ..., (2 viewSize + 1)^2. */
    method InitializeRandomizeView()
      requires 0 <= viewSize
      modifies this`randomizeView
      ensures randomizeView == OneTo(ViewArea(viewSize))
    {
      var size := (2 * viewSize + 1) * (2 * viewSize + 1);
      randomizeView := [];
      for i := 0 to size
        invariant |randomizeView| == i
        invariant forall k :: 0 <= k < i ==> randomizeView[k] == k + 1
      {
        randomizeView := randomizeView + [i + 1];
      }
      assert randomizeView == OneTo(size);
    }

    /**
     * Stamps every cell of the clamped window around (x, y) with a fresh tick
     * currentTick + p, p taken from the shuffled order in row-major window
     * order, and then advances currentTick past all of them.
     */
    method View(x: int, y: int, shuffled: seq<int>)
      requires Valid()
      requires IsPermutationOfOneTo(shuffled, |randomizeView|)
      requires currentTick + |randomizeView| < TickLimit
      modifies this`currentTick, this`randomizeView, lastViewedTick
      ensures Valid()
      ensures randomizeView == shuffled
      ensures currentTick == old(currentTick) + ViewArea(viewSize)
      ensures forall i, j :: InWindow(x, y, i, j) ==> 0 <= Slot(x, y, i, j) < |randomizeView|
      ensures forall k :: 0 <= k < lastViewedTick.Length && !InWindow(x, y, k % worldSize, k / worldSize) ==>
                lastViewedTick[k] == old(lastViewedTick[k])
      ensures forall k :: 0 <= k < lastViewedTick.Length && InWindow(x, y, k % worldSize, k / worldSize) ==>
                lastViewedTick[k] == EncodeOpaque(k % worldSize, k / worldSize,
                                                  old(currentTick) + randomizeView[Slot(x, y, k % worldSize, k / worldSize)])
      ensures forall k :: 0 <= k < lastViewedTick.Length && InWindow(x, y, k % worldSize, k / worldSize) ==>
                old(currentTick) < TickOf(lastViewedTick[k]) <= currentTick
    {
      if viewSize > 0 {
        randomizeView := shuffled;
      } else {
        PermutationOfOne(shuffled, randomizeView);
      }
      forall i, j | InWindow(x, y, i, j) ensures 0 <= Slot(x, y, i, j) < |randomizeView| {
        SlotInRange(x, y, i, j);
      }
      ghost var start := currentTick;
      StampWindow(x, y);
      currentTick := currentTick + |randomizeView|;
      forall k | 0 <= k < lastViewedTick.Length
        ensures CellMatches(k)
        ensures InWindow(x, y, k % worldSize, k / worldSize) ==>
                  lastViewedTick[k] == EncodeOpaque(k % worldSize, k / worldSize,
                                                    start + randomizeView[Slot(x, y, k % worldSize, k / worldSize)])
        ensures !InWindow(x, y, k % worldSize, k / worldSize) ==> lastViewedTick[k] == old(lastViewedTick[k])
        ensures InWindow(x, y, k % worldSize, k / worldSize) ==> start < TickOf(lastViewedTick[k]) <= currentTick
      {
        assert old(CellMatches(k));
        ViewedCell(x, y, k, worldSize, 0, old(lastViewedTick[k]), start, randomizeView);
      }
    }

    /**
     * The two nested loops of view(x, y): walks the clamped window row by row
     * and stamps cell (i, j) with currentTick plus the randomizeView entry of
     * its place in the walk.
     */
    method StampWindow(x: int, y: int)
      requires 0 <= worldSize && lastViewedTick.Length == worldSize * worldSize
      requires forall i, j :: InWindow(x, y, i, j) ==> 0 <= Slot(x, y, i, j) < |randomizeView|
      modifies lastViewedTick
      ensures forall k :: 0 <= k < lastViewedTick.Length ==>
                lastViewedTick[k] == ViewedSoFar(x, y, k, worldSize, 0, old(lastViewedTick[k]), currentTick, randomizeView)
    {
      var jmin := Max(y - viewSize, 0);
      var imin := Max(x - viewSize, 0);
      var jmax := Min(y + viewSize, worldSize - 1);
      var imax := Min(x + viewSize, worldSize - 1);
      var j, v := jmin, 0;
      while j <= jmax
        invariant jmin <= j <= Max(jmax + 1, jmin)
        invariant v == (j - jmin) * WindowWidth(x)
        invariant forall k :: 0 <= k < lastViewedTick.Length ==>
                    lastViewedTick[k] == ViewedSoFar(x, y, k, j, imin, old(lastViewedTick[k]), currentTick, randomizeView)
      {
        var i := imin;
        while i <= imax
          invariant imin <= i <= Max(imax + 1, imin)
          invariant v == (j - jmin) * WindowWidth(x) + (i - imin)
          invariant forall k :: 0 <= k < lastViewedTick.Length ==>
                      lastViewedTick[k] == ViewedSoFar(x, y, k, j, i, old(lastViewedTick[k]), currentTick, randomizeView)
        {
          assert InWindow(x, y, i, j) && Slot(x, y, i, j) == v;
          var p := randomizeView[v];
          CellIndex(worldSize, i, j);
          lastViewedTick[j * worldSize + i] := EncodeOpaque(i, j, currentTick + p);
          forall k | 0 <= k < lastViewedTick.Length
            ensures lastViewedTick[k] == ViewedSoFar(x, y, k, j, i + 1, old(lastViewedTick[k]), currentTick, randomizeView)
          {
            WalkStep(x, y, k, j, i, old(lastViewedTick[k]), currentTick, randomizeView);
          }
          i, v := i + 1, v + 1;
        }
        forall k | 0 <= k < lastViewedTick.Length
          ensures lastViewedTick[k] == ViewedSoFar(x, y, k, j + 1, imin, old(lastViewedTick[k]), currentTick, randomizeView)
        {
          RowDone(x, y, k, j, i, imin, old(lastViewedTick[k]), currentTick, randomizeView);
        }
        assert (j - jmin) * WindowWidth(x) + WindowWidth(x) == (j + 1 - jmin) * WindowWidth(x);
        j := j + 1;
      }
      forall k | 0 <= k < lastViewedTick.Length
        ensures lastViewedTick[k] == ViewedSoFar(x, y, k, worldSize, 0, old(lastViewedTick[k]), currentTick, randomizeView)
      {
        PastWindow(x, y, k, j, imin, worldSize, 0, old(lastViewedTick[k]), currentTick, randomizeView);
      }
    }

    /** Past the window's last row, how far the walk went no longer matters. */
    lemma PastWindow(x: int, y: int, k: int, j: int, i: int, j': int, i': int, earlier: int, start: int, order: seq<int>)
      requires 0 <= worldSize && 0 <= k < worldSize * worldSize
      requires forall a, b :: InWindow(x, y, a, b) ==> 0 <= Slot(x, y, a, b) < |order|
      requires j > Min(y + viewSize, worldSize - 1) && j' > Min(y + viewSize, worldSize - 1)
      ensures ViewedSoFar(x, y, k, j, i, earlier, start, order) == ViewedSoFar(x, y, k, j', i', earlier, start, order)
    {
      CellOf(worldSize, k);
    }

    /** Once the walk has passed the window's last row, each cell is stamped or kept. */
    lemma ViewedCell(x: int, y: int, k: int, j: int, i: int, earlier: int, start: int, order: seq<int>)
      requires 0 <= worldSize <= PositionRange && 0 <= viewSize && 0 <= k < worldSize * worldSize
      requires IsPermutationOfOneTo(order, ViewArea(viewSize))
      requires forall a, b :: InWindow(x, y, a, b) ==> 0 <= Slot(x, y, a, b) < |order|
      requires 0 <= start && start + |order| < TickLimit
      requires j > Min(y + viewSize, worldSize - 1)
      requires (CellOf(worldSize, k); Stamp(earlier, k % worldSize, k / worldSize, 1, start))
      ensures (CellOf(worldSize, k); Stamp(ViewedSoFar(x, y, k, j, i, earlier, start, order), k % worldSize, k / worldSize, 1, start + |order|))
      ensures InWindow(x, y, k % worldSize, k / worldSize) ==>
                (&& ViewedSoFar(x, y, k, j, i, earlier, start, order)
                    == EncodeOpaque(k % worldSize, k / worldSize, start + order[Slot(x, y, k % worldSize, k / worldSize)])
                 && start < TickOf(ViewedSoFar(x, y, k, j, i, earlier, start, order)))
      ensures !InWindow(x, y, k % worldSize, k / worldSize) ==> ViewedSoFar(x, y, k, j, i, earlier, start, order) == earlier
    {
      CellOf(worldSize, k);
      if InWindow(x, y, k % worldSize, k / worldSize) {
        var t := start + order[Slot(x, y, k % worldSize, k / worldSize)];
        EncodedStamp(k % worldSize, k / worldSize, t);
      }
    }

    /** One step of the walk stamps cell j * worldSize + i and no other. */
    lemma WalkStep(x: int, y: int, k: int, j: int, i: int, earlier: int, start: int, order: seq<int>)
      requires 0 <= worldSize && 0 <= k < worldSize * worldSize
      requires forall a, b :: InWindow(x, y, a, b) ==> 0 <= Slot(x, y, a, b) < |order|
      requires InWindow(x, y, i, j) && 0 <= i < worldSize && 0 <= j < worldSize
      ensures ViewedSoFar(x, y, k, j, i + 1, earlier, start, order)
           == if k == j * worldSize + i
              then EncodeOpaque(i, j, start + order[Slot(x, y, i, j)])
              else ViewedSoFar(x, y, k, j, i, earlier, start, order)
    {
      CellOf(worldSize, k);
      CellIndex(worldSize, i, j);
      var cx, cy := k % worldSize, k / worldSize;
      if k == j * worldSize + i {
        assert cx == i && cy == j;
        assert InWindow(x, y, cx, cy);
      } else {
        assert !(cy == j && cx == i);
        assert (cy < j || (cy == j && cx < i + 1)) == (cy < j || (cy == j && cx < i));
      }
    }

    /** Once the walk has passed the window's last column, it moves on to the next row. */
    lemma RowDone(x: int, y: int, k: int, j: int, i: int, i': int, earlier: int, start: int, order: seq<int>)
      requires 0 <= worldSize && 0 <= k < worldSize * worldSize
      requires forall a, b :: InWindow(x, y, a, b) ==> 0 <= Slot(x, y, a, b) < |order|
      requires i > Min(x + viewSize, worldSize - 1) && i' <= Max(x - viewSize, 0)
      ensures ViewedSoFar(x, y, k, j + 1, i', earlier, start, order) == ViewedSoFar(x, y, k, j, i, earlier, start, order)
    {
      CellOf(worldSize, k);
    }

    /**
     * The value of cell k once the walk over the window of view(x, y) has
     * reached row j, column i: cells walked over are stamped, the rest still
     * hold their earlier value.
     */
    ghost function ViewedSoFar(x: int, y: int, k: int, j: int, i: int, earlier: int, start: int, order: seq<int>): int
      requires 0 <= worldSize && 0 <= k < worldSize * worldSize
      requires forall a, b :: InWindow(x, y, a, b) ==> 0 <= Slot(x, y, a, b) < |order|
    {
      CellOf(worldSize, k);
      var cx, cy := k % worldSize, k / worldSize;
      if InWindow(x, y, cx, cy) && (cy < j || (cy == j && cx < i))
      then EncodeOpaque(cx, cy, start + order[Slot(x, y, cx, cy)])
      else earlier
    }
  }

  /** Every cell keeps its own position: decodeX(lastViewedTick[y * n + x]) == x. */
  lemma CellPosition(w: World, x: int, y: int)
    requires w.Valid()
    requires 0 <= x < w.worldSize && 0 <= y < w.worldSize
    ensures 0 <= y * w.worldSize + x < w.lastViewedTick.Length
    ensures DecodeX(w.lastViewedTick[y * w.worldSize + x]) == x
    ensures DecodeY(w.lastViewedTick[y * w.worldSize + x]) == y
  {
    CellIndex(w.worldSize, x, y);
    assert w.CellMatches(y * w.worldSize + x);
  }

  /** Offsets (dx, dy) lie in the square of half-width r. */
  predicate InSquare(dx: int, dy: int, r: int)
  {
    Abs(dx) <= r && Abs(dy) <= r
  }

  // ---------------------------------------------------------------------
  // Wanderers

  function Distance(x1: int, y1: int, x2: int, y2: int): nat
  {
    Abs(x1 - x2) + Abs(y1 - y2)
  }

  /**
   * A walker in its own world.  The random cells pickYoung and pickOld
   * return, the shuffles of each view and the coin of each step are
   * parameters: youngCell, oldCell, viewOrder and coin.
   */
  class Wanderer {
    const world: World
    var currentX: int
    var currentY: int
    var targetX: int
    var targetY: int

    ghost predicate Valid()
      reads this, world, world.lastViewedTick
    {
      && world.Valid()
      && 0 <= targetX < world.worldSize && 0 <= targetY < world.worldSize
    }

    constructor (worldSize: int, viewSize: int, shuffledTicks: seq<int>,
                 youngCell: int, viewOrder: seq<int>, oldCell: int)
      requires 0 <= worldSize <= PositionRange && 0 <= viewSize
      requires IsPermutationOfOneTo(shuffledTicks, worldSize * worldSize)
      requires 0 <= youngCell < worldSize * worldSize && 0 <= oldCell < worldSize * worldSize
      requires IsPermutationOfOneTo(viewOrder, ViewArea(viewSize))
      requires worldSize * worldSize + ViewArea(viewSize) < TickLimit
      ensures Valid() && fresh(world) && fresh(world.lastViewedTick)
      ensures world.worldSize == worldSize && world.viewSize == viewSize
      ensures currentX == youngCell % worldSize && currentY == youngCell / worldSize
      ensures targetX == oldCell % worldSize && targetY == oldCell / worldSize
      ensures world.currentTick == worldSize * worldSize + ViewArea(viewSize)
      ensures world.randomizeView == viewOrder
      ensures forall i, j :: world.InWindow(currentX, currentY, i, j) ==> 0 <= world.Slot(currentX, currentY, i, j) < |viewOrder|
      ensures forall k :: 0 <= k < world.lastViewedTick.Length && !world.InWindow(currentX, currentY, k % worldSize, k / worldSize) ==>
                world.lastViewedTick[k] == EncodeOpaque(k % worldSize, k / worldSize, shuffledTicks[k])
      ensures forall k :: 0 <= k < world.lastViewedTick.Length && world.InWindow(currentX, currentY, k % worldSize, k / worldSize) ==>
                world.lastViewedTick[k]
                == EncodeOpaque(k % worldSize, k / worldSize,
                                worldSize * worldSize + viewOrder[world.Slot(currentX, currentY, k % worldSize, k / worldSize)])
    {
      world := new World(worldSize, viewSize, shuffledTicks);
      new;
      PickCurrent(youngCell, viewOrder);
      PickTarget(oldCell);
    }

    /** Moves to the cell pickYoung chose and views around it. */
    method PickCurrent(youngCell: int, viewOrder: seq<int>)
      requires world.Valid()
      requires 0 <= youngCell < world.lastViewedTick.Length
      requires IsPermutationOfOneTo(viewOrder, |world.randomizeView|)
      requires world.currentTick + |world.randomizeView| < TickLimit
      modifies this, world, world.lastViewedTick
      ensures world.Valid()
      ensures currentX == youngCell % world.worldSize && currentY == youngCell / world.worldSize
      ensures targetX == old(targetX) && targetY == old(targetY)
      ensures world.randomizeView == viewOrder
      ensures world.currentTick == old(world.currentTick) + |viewOrder|
      ensures forall k ::
                (0 <= k < world.lastViewedTick.Length
                 && world.InWindow(currentX, currentY, k % world.worldSize, k / world.worldSize)) ==>
                old(world.currentTick) < TickOf(world.lastViewedTick[k])
      ensures forall i, j :: world.InWindow(currentX, currentY, i, j) ==> 0 <= world.Slot(currentX, currentY, i, j) < |viewOrder|
      ensures forall k :: 0 <= k < world.lastViewedTick.Length
                          && !world.InWindow(currentX, currentY, k % world.worldSize, k / world.worldSize) ==>
                world.lastViewedTick[k] == old(world.lastViewedTick[k])
      ensures forall k :: 0 <= k < world.lastViewedTick.Length
                          && world.InWindow(currentX, currentY, k % world.worldSize, k / world.worldSize) ==>
                world.lastViewedTick[k]
                == EncodeOpaque(k % world.worldSize, k / world.worldSize,
                                old(world.currentTick) + viewOrder[world.Slot(currentX, currentY, k % world.worldSize, k / world.worldSize)])
    {
      assert world.CellMatches(youngCell);
      var value := world.lastViewedTick[youngCell];
      currentX := DecodeX(value);
      currentY := DecodeY(value);
      world.View(currentX, currentY, viewOrder);
    }

    /** Aims at the cell pickOld chose. */
    method PickTarget(oldCell: int)
      requires world.Valid()
      requires 0 <= oldCell < world.lastViewedTick.Length
      modifies this
      ensures Valid()
      ensures targetX == oldCell % world.worldSize && targetY == oldCell / world.worldSize
      ensures currentX == old(currentX) && currentY == old(currentY)
    {
      assert world.CellMatches(oldCell);
      var value := world.lastViewedTick[oldCell];
      ghost var w := world.worldSize;
      assert DecodeX(value) == oldCell % w && DecodeY(value) == oldCell / w;
      CellOf(w, oldCell);
      targetX := DecodeX(value);
      targetY := DecodeY(value);
    }

    /**
     * One step: a new target once the old one is reached, then one cell
     * along x or along y toward the target (the coin decides when both
     * differ), then a view around the new position.
     */
    method Tick(oldCell: int, coin: bool, viewOrder: seq<int>)
      requires Valid()
      requires currentX == targetX && currentY == targetY ==> 0 <= oldCell < world.lastViewedTick.Length
      requires IsPermutationOfOneTo(viewOrder, |world.randomizeView|)
      requires world.currentTick + |world.randomizeView| < TickLimit
      modifies this, world, world.lastViewedTick
      ensures Valid()
      ensures old(currentX == targetX && currentY == targetY) ==>
                targetX == oldCell % world.worldSize && targetY == oldCell / world.worldSize
      ensures !old(currentX == targetX && currentY == targetY) ==>
                targetX == old(targetX) && targetY == old(targetY)
      ensures Distance(old(currentX), old(currentY), targetX, targetY) > 0 ==>
                && Distance(currentX, currentY, targetX, targetY) == Distance(old(currentX), old(currentY), targetX, targetY) - 1
                && Distance(currentX, currentY, old(currentX), old(currentY)) == 1
      ensures Distance(old(currentX), old(currentY), targetX, targetY) > 0 ==>
                (old(currentX) != targetX && old(currentY) != targetY ==> (coin <==> currentX != old(currentX)))
      ensures Distance(old(currentX), old(currentY), targetX, targetY) > 0
              && 0 <= old(currentX) < world.worldSize && 0 <= old(currentY) < world.worldSize ==>
                0 <= currentX < world.worldSize && 0 <= currentY < world.worldSize
      ensures Distance(old(currentX), old(currentY), targetX, targetY) == 0 ==>
                currentX == old(currentX) && currentY == old(currentY) + 1
      ensures world.randomizeView == viewOrder
      ensures world.currentTick == old(world.currentTick) + |viewOrder|
      ensures forall k ::
                (0 <= k < world.lastViewedTick.Length
                 && world.InWindow(currentX, currentY, k % world.worldSize, k / world.worldSize)) ==>
                old(world.currentTick) < TickOf(world.lastViewedTick[k])
      ensures forall i, j :: world.InWindow(currentX, currentY, i, j) ==> 0 <= world.Slot(currentX, currentY, i, j) < |viewOrder|
      ensures forall k :: 0 <= k < world.lastViewedTick.Length
                          && !world.InWindow(currentX, currentY, k % world.worldSize, k / world.worldSize) ==>
                world.lastViewedTick[k] == old(world.lastViewedTick[k])
      ensures forall k :: 0 <= k < world.lastViewedTick.Length
                          && world.InWindow(currentX, currentY, k % world.worldSize, k / world.worldSize) ==>
                world.lastViewedTick[k]
                == EncodeOpaque(k % world.worldSize, k / world.worldSize,
                                old(world.currentTick) + viewOrder[world.Slot(currentX, currentY, k % world.worldSize, k / world.worldSize)])
    {
      if currentX == targetX && currentY == targetY {
        PickTarget(oldCell);
      }
      Move(coin);
      world.View(currentX, currentY, viewOrder);
    }

    /**
     * The walk of one tick: one cell along x or along y toward the target,
     * the coin deciding when both differ; standing on the target, y + 1.
     */
    method Move(coin: bool)
      modifies this`currentX, this`currentY
      ensures Distance(old(currentX), old(currentY), targetX, targetY) > 0 ==>
                && Distance(currentX, currentY, targetX, targetY) == Distance(old(currentX), old(currentY), targetX, targetY) - 1
                && Distance(currentX, currentY, old(currentX), old(currentY)) == 1
      ensures Distance(old(currentX), old(currentY), targetX, targetY) > 0 ==>
                (old(currentX) != targetX && old(currentY) != targetY ==> (coin <==> currentX != old(currentX)))
      ensures Distance(old(currentX), old(currentY), targetX, targetY) > 0 ==>
                && Min(old(currentX), targetX) <= currentX <= Max(old(currentX), targetX)
                && Min(old(currentY), targetY) <= currentY <= Max(old(currentY), targetY)
      ensures Distance(old(currentX), old(currentY), targetX, targetY) == 0 ==>
                currentX == old(currentX) && currentY == old(currentY) + 1
    {
      var dx := targetX - currentX;
      var dy := targetY - currentY;
      var moveX: bool;
      if dx != 0 && dy != 0 {
        moveX := coin;
      } else {
        moveX := dx != 0;
      }
      if moveX {
        if dx < 0 {
          currentX := currentX - 1;
        } else {
          currentX := currentX + 1;
        }
      } else {
        if dy < 0 {
          currentY := currentY - 1;
        } else {
          currentY := currentY + 1;
        }
      }
    }
  }

  // ---------------------------------------------------------------------
  // Finding the tourist

  /** The test isFound applies to the offsets dx, dy between seeker and tourist. */
  predicate FoundAsWritten(dx: int, dy: int, radius: int)
  {
    -radius <= dx && dx <= radius && -radius <= dy && dy < radius
  }

  /** The seeker finds the tourist: as written, the row dy == radius is left out. */
  function IsFound(seeker: Wanderer, tourist: Wanderer, radius: int): (found: bool)
    reads seeker, tourist
    ensures found <==> InSquare(seeker.currentX - tourist.currentX, seeker.currentY - tourist.currentY, radius)
                       && seeker.currentY - tourist.currentY != radius
  {
    FoundAsWritten(seeker.currentX - tourist.currentX, seeker.currentY - tourist.currentY, radius)
  }

  /** The seeker finds the tourist exactly when the tourist stands in the seeker's square. */
  function IsFoundCorrected(seeker: Wanderer, tourist: Wanderer, radius: int): (found: bool)
    reads seeker, tourist
    ensures found <==> InSquare(seeker.currentX - tourist.currentX, seeker.currentY - tourist.currentY, radius)
  {
    var dx := seeker.currentX - tourist.currentX;
    var dy := seeker.currentY - tourist.currentY;
    -radius <= dx && dx <= radius && -radius <= dy && dy <= radius
  }

  /** As written, a tourist on the square's edge row is in view but not found. */
  lemma FoundAsWrittenMissesEdgeRow(radius: int)
    requires radius >= 0
    ensures InSquare(0, radius, radius)
    ensures !FoundAsWritten(0, radius, radius)
  {
  }

  /** As written, a radius of 0 never finds anyone, not even on the same cell. */
  lemma FoundAsWrittenRadiusZero(dx: int, dy: int)
    ensures InSquare(0, 0, 0)
    ensures !FoundAsWritten(dx, dy, 0)
  {
  }

  /** As written, finding is not symmetric between seeker and tourist. */
  lemma FoundAsWrittenAsymmetric(radius: int)
    requires radius >= 1
    ensures FoundAsWritten(0, -radius, radius) && !FoundAsWritten(0, radius, radius)
  {
  }

  /** Corrected, it does not matter which of the two is the seeker. */
  lemma IsFoundCorrectedSymmetric(seeker: Wanderer, tourist: Wanderer, radius: int)
    ensures IsFoundCorrected(seeker, tourist, radius) == IsFoundCorrected(tourist, seeker, radius)
  {
  }

  /** The test as written accepts only offsets in the square, and misses exactly its edge row dy == radius. */
  lemma FoundAsWrittenWithinSquare(dx: int, dy: int, radius: int)
    ensures FoundAsWritten(dx, dy, radius) ==> InSquare(dx, dy, radius)
    ensures InSquare(dx, dy, radius) && !FoundAsWritten(dx, dy, radius) <==> InSquare(dx, dy, radius) && dy == radius
  {
  }

  /**
   * Corrected, with radius viewSize, a tourist in the seeker's world is
   * found exactly when its cell is one view(x, y) at the seeker stamps.
   */
  lemma FoundExactlyInView(w: World, sx: int, sy: int, tx: int, ty: int)
    requires 0 <= tx < w.worldSize && 0 <= ty < w.worldSize
    ensures InSquare(sx - tx, sy - ty, w.viewSize) <==> w.InWindow(sx, sy, tx, ty)
  {
  }
}
