/**
 * Where each grid cell lives on the physical strand.
 *
 * WrappedDisplay.setup lays the rows of the grid onto a serpentine-wired strand:
 * even rows run forward, odd rows run backward. It uses the number of ROWS as the
 * width of a row, so the layout is a bijection only on square grids.
 * SimulatorDisplay.setup numbers the cells in list order. Display.pixel_at also uses
 * the number of rows as the row width.
 */
module Layout {
  import opened Wrappers

  /** Strand slot of grid cell (r, c) as WrappedDisplay.setup computes it. */
  function SerpentineId(rows: nat, r: nat, c: nat): (id: int)
    ensures r % 2 == 0 ==> id == RowMajor(rows, r, c)
    ensures r % 2 != 0 && c < rows ==> id == RowMajor(rows, r, rows - 1 - c)
    ensures c < rows ==> r * rows <= id < (r + 1) * rows
  {
    if r % 2 != 0 then (r + 1) * rows - c - 1 else r * rows + c
  }

  /** List position of cell (r, c) when rows of `width` cells are laid one after another. */
  function RowMajor(width: nat, r: nat, c: nat): nat
  {
    r * width + c
  }

  /** The ids of row r, in column order. */
  function SerpentineRow(rows: nat, cols: nat, r: nat): (ids: seq<int>)
    ensures |ids| == cols
    ensures forall c :: 0 <= c < cols ==> ids[c] == SerpentineId(rows, r, c)
  {
    seq(cols, c requires 0 <= c => SerpentineId(rows, r, c))
  }

  /** The ids of the first k rows, in the order setup appends them. */
  function SerpentineRows(rows: nat, cols: nat, k: nat): (ids: seq<int>)
    ensures |ids| == k * cols
  {
    if k == 0 then [] else SerpentineRows(rows, cols, k - 1) + SerpentineRow(rows, cols, k - 1)
  }

  /** The id of every pixel of WrappedDisplay.setup(rows, cols), in list order. */
  function SerpentineLayout(rows: nat, cols: nat): (ids: seq<int>)
    ensures |ids| == rows * cols
  {
    SerpentineRows(rows, cols, rows)
  }

  /** The id of every pixel of SimulatorDisplay.setup(rows, cols), in list order. */
  function LinearLayout(rows: nat, cols: nat): (ids: seq<int>)
    ensures |ids| == rows * cols
    ensures forall i :: 0 <= i < |ids| ==> ids[i] == i
  {
    seq(rows * cols, i => i)
  }

  /**
   * Python's `lst[i]` on a list of length `len`: a negative index counts from the end,
   * and anything else outside the list raises IndexError (None).
   */
  function PyIndex(len: nat, i: int): (slot: Option<nat>)
    ensures slot.Some? <==> -(len as int) <= i < len
    ensures slot.Some? ==> slot.value < len && (if i >= 0 then slot.value == i else slot.value == len + i)
  {
    if 0 <= i < len then Some(i) else if -(len as int) <= i < 0 then Some(len + i) else None
  }

  /** Multiplying by a natural number keeps the order. */
  lemma {:induction false} MulMono(a: nat, b: nat, n: nat)
    requires a <= b
    ensures a * n <= b * n
  {
    if a < b {
      MulMono(a, b - 1, n);
      assert b * n == (b - 1) * n + n;
    }
  }

  /** A row that starts before n*n is one of the first n rows. */
  lemma RowBelow(r: nat, m: nat, n: nat)
    requires r * n + m < n * n
    ensures r < n
  {
    if r >= n {
      MulMono(n, r, n);
      assert false;
    }
  }

  /** The last cell of row r < n comes before slot n*n. */
  lemma RowFits(r: nat, c: nat, n: nat)
    requires r < n && c < n
    ensures r * n + c < (r + 1) * n <= n * n
  {
    MulMono(r + 1, n, n);
    assert (r + 1) * n == r * n + n;
  }

  /** Quotient and remainder are unique. */
  lemma DivModUnique(x: nat, q: nat, m: nat, n: nat)
    requires 0 <= m < n && x == q * n + m
    ensures x / n == q && x % n == m
  {
    var q', m' := x / n, x % n;
    assert x == q' * n + m';
    if q' < q {
      MulMono(q' + 1, q, n);
      assert false;
    } else if q' > q {
      MulMono(q + 1, q', n);
      assert false;
    }
  }

  /** Position r * cols + c of the list built by setup holds the id of cell (r, c). */
  lemma {:induction false} SerpentineRowsAt(rows: nat, cols: nat, k: nat, r: nat, c: nat)
    requires r < k && c < cols
    ensures RowMajor(cols, r, c) < k * cols
    ensures SerpentineRows(rows, cols, k)[RowMajor(cols, r, c)] == SerpentineId(rows, r, c)
  {
    var prefix := SerpentineRows(rows, cols, k - 1);
    assert |prefix| == (k - 1) * cols;
    if r < k - 1 {
      SerpentineRowsAt(rows, cols, k - 1, r, c);
    } else {
      assert RowMajor(cols, r, c) == |prefix| + c;
    }
  }

  /** WrappedDisplay.setup: the pixel at list position r * cols + c has id SerpentineId(rows, r, c). */
  lemma SerpentineLayoutAt(rows: nat, cols: nat, r: nat, c: nat)
    requires r < rows && c < cols
    ensures RowMajor(cols, r, c) < |SerpentineLayout(rows, cols)|
    ensures SerpentineLayout(rows, cols)[RowMajor(cols, r, c)] == SerpentineId(rows, r, c)
    ensures r % 2 == 0 ==> SerpentineLayout(rows, cols)[RowMajor(cols, r, c)] == r * rows + c
    ensures r % 2 != 0 ==> SerpentineLayout(rows, cols)[RowMajor(cols, r, c)] == (r + 1) * rows - c - 1
  {
    SerpentineRowsAt(rows, cols, rows, r, c);
  }

  /** The cell whose LED is strand slot `id` on an n-by-n serpentine grid. */
  function CellOfSlot(n: nat, id: nat): (cell: (nat, nat))
    requires n > 0
  {
    var r := id / n;
    (r, if r % 2 != 0 then n - 1 - id % n else id % n)
  }

  /** On a square grid every cell of row r lands inside the r-th block of n slots. */
  lemma SerpentineSlotInRow(n: nat, r: nat, c: nat)
    requires r < n && c < n
    ensures r * n <= SerpentineId(n, r, c) < (r + 1) * n
    ensures 0 <= SerpentineId(n, r, c) < n * n
  {
    RowFits(r, c, n);
    RowFits(r, n - 1 - c, n);
  }

  /** Serpentine slot, then back to the cell: the identity on a square grid. */
  lemma SerpentineCellRoundTrip(n: nat, r: nat, c: nat)
    requires r < n && c < n
    ensures CellOfSlot(n, SerpentineId(n, r, c) as nat) == (r, c)
  {
    SerpentineSlotInRow(n, r, c);
    var id := SerpentineId(n, r, c) as nat;
    if r % 2 != 0 {
      assert id == r * n + (n - 1 - c);
      DivModUnique(id, r, n - 1 - c, n);
    } else {
      DivModUnique(id, r, c, n);
    }
  }

  /** Cell of a slot, then back to the slot: every slot 0 .. n*n-1 is the LED of some cell. */
  lemma SerpentineSlotRoundTrip(n: nat, id: nat)
    requires id < n * n
    ensures n > 0
    ensures CellOfSlot(n, id).0 < n && CellOfSlot(n, id).1 < n
    ensures SerpentineId(n, CellOfSlot(n, id).0, CellOfSlot(n, id).1) == id
  {
    RowBelow(id / n, id % n, n);
  }

  /** The pixel at list position i of an n-by-n serpentine setup lights the LED of cell (i / n, i % n). */
  lemma SerpentineLayoutSlot(n: nat, i: nat)
    requires i < n * n
    ensures n > 0
    ensures 0 <= SerpentineLayout(n, n)[i] < n * n
    ensures CellOfSlot(n, SerpentineLayout(n, n)[i] as nat) == (i / n, i % n)
  {
    var r, c := i / n, i % n;
    DivModUnique(i, r, c, n);
    RowBelow(r, c, n);
    SerpentineLayoutAt(n, n, r, c);
    SerpentineSlotInRow(n, r, c);
    SerpentineCellRoundTrip(n, r, c);
  }

  /** Two list positions of an n-by-n serpentine setup never share a strand slot. */
  lemma SerpentineLayoutInjective(n: nat, i: nat, j: nat)
    requires i < j < n * n
    ensures SerpentineLayout(n, n)[i] != SerpentineLayout(n, n)[j]
  {
    SerpentineLayoutSlot(n, i);
    SerpentineLayoutSlot(n, j);
    if SerpentineLayout(n, n)[i] == SerpentineLayout(n, n)[j] {
      SameDivMod(i, j, n);
      assert false;
    }
  }

  /** A number is determined by its quotient and remainder. */
  lemma SameDivMod(x: nat, y: nat, n: nat)
    requires n > 0 && x / n == y / n && x % n == y % n
    ensures x == y
  {
  }

  /** Every strand slot below n*n is named by some pixel of an n-by-n serpentine setup. */
  lemma SerpentineLayoutCovers(n: nat, id: nat)
    requires id < n * n
    ensures id in SerpentineLayout(n, n)
  {
    SerpentineSlotRoundTrip(n, id);
    var (r, c) := CellOfSlot(n, id);
    SerpentineLayoutAt(n, n, r, c);
    assert SerpentineLayout(n, n)[RowMajor(n, r, c)] == id;
  }

  /**
   * The ids are a permutation of the strand slots 0 .. |ids|-1: each id is a slot,
   * no two pixels share one, and every slot belongs to some pixel.
   */
  predicate IsSlotPermutation(ids: seq<int>)
  {
    (forall i :: 0 <= i < |ids| ==> 0 <= ids[i] < |ids|) &&
    (forall i, j :: 0 <= i < j < |ids| ==> ids[i] != ids[j]) &&
    (forall s :: 0 <= s < |ids| ==> s in ids)
  }

  /** On an n-by-n grid the ids WrappedDisplay.setup hands out use every LED slot exactly once. */
  lemma SerpentinePermutation(n: nat)
    ensures IsSlotPermutation(SerpentineLayout(n, n))
  {
    forall i | 0 <= i < n * n
      ensures 0 <= SerpentineLayout(n, n)[i] < n * n
    {
      SerpentineLayoutSlot(n, i);
    }
    forall i, j | 0 <= i < j < n * n
      ensures SerpentineLayout(n, n)[i] != SerpentineLayout(n, n)[j]
    {
      SerpentineLayoutInjective(n, i, j);
    }
    forall id | 0 <= id < n * n
      ensures id in SerpentineLayout(n, n)
    {
      SerpentineLayoutCovers(n, id);
    }
  }

  /** SimulatorDisplay.setup numbers the pixels 0 .. rows*cols-1 in list order: every slot once. */
  lemma LinearPermutation(rows: nat, cols: nat)
    ensures IsSlotPermutation(LinearLayout(rows, cols))
  {
    var ids := LinearLayout(rows, cols);
    forall s | 0 <= s < |ids|
      ensures s in ids
    {
      assert ids[s] == s;
    }
  }

  /**
   * On a grid that is not square the as-written layout is not a permutation:
   * for 2 rows of 3 the second row reuses slots 1 and 2, and slots 4 and 5 are never named.
   */
  lemma SerpentineNonSquareCollides()
    ensures SerpentineLayout(2, 3) == [0, 1, 2, 3, 2, 1]
  {
  }

  /** Two cells of rows of `width` cells never share a list position. */
  lemma RowMajorUnique(width: nat, r: nat, c: nat, r': nat, c': nat)
    requires c < width && c' < width && RowMajor(width, r, c) == RowMajor(width, r', c')
    ensures r == r' && c == c'
  {
    DivModUnique(RowMajor(width, r, c), r, c, width);
    DivModUnique(RowMajor(width, r', c'), r', c', width);
  }

  /** The end of row r is the start of row r + 1, and row `rows` starts at rows * width. */
  lemma RowMajorNextRow(width: nat, r: nat)
    ensures RowMajor(width, r, width) == RowMajor(width, r + 1, 0)
    ensures RowMajor(width, r, 0) == r * width
  {
    assert (r + 1) * width == r * width + width;
  }

  /** A cell of a rows-by-width grid has a list position below rows * width. */
  lemma RowMajorBelow(width: nat, rows: nat, r: nat, c: nat)
    requires r < rows && c < width
    ensures RowMajor(width, r, c) < rows * width
  {
    MulMono(r + 1, rows, width);
    assert (r + 1) * width == r * width + width;
  }

  /** pixel_at(row, column) on an n-by-n grid names the row-major list position, always in range. */
  lemma PixelIndexSquare(n: nat, r: nat, c: nat)
    requires r < n && c < n
    ensures PyIndex(n * n, RowMajor(n, r, c)) == Some(RowMajor(n, r, c))
  {
    RowFits(r, c, n);
  }
}
