/**
 * The display framework: pixels, the strand buffer they are shown in, and the grid
 * display that owns both.
 *
 * Pixel and SimulatorPixel differ only in how they render, and WrappedDisplay and
 * SimulatorDisplay only in how they lay pixels onto the strand; a `Platform` tag on
 * each object selects the variant.
 */
module Framework {
  import opened Wrappers
  import Layout
  import Color

  /** Hardware: WrappedDisplay with Pixel. Simulator: SimulatorDisplay with SimulatorPixel. */
  datatype Platform = Hardware | Simulator

  /**
   * What a strand slot holds. The hardware strand stores packed colour words; the
   * simulator's list starts as integer zeros and receives the `#rrggbb` strings that
   * SimulatorPixel.render returns.
   */
  datatype LedValue = Packed(word: nat) | Css(text: string)

  /** What a pixel with no colour renders to. */
  function Blank(kind: Platform): LedValue
  {
    match kind
    case Hardware => Packed(0)
    case Simulator => Css("#000000")
  }

  class Pixel {
    const kind: Platform
    const id: int
    var red: nat
    var green: nat
    var blue: nat
    var white: nat
    var brightness: nat

    /** A new pixel is at full brightness with every channel off, so it renders blank. */
    constructor (kind: Platform, idx: int)
      ensures this.kind == kind && id == idx
      ensures brightness == 255 && red == 0 && green == 0 && blue == 0 && white == 0
      ensures Render() == Blank(kind)
    {
      this.kind := kind;
      id := idx;
      brightness := 255;
      new;
      Clear();
    }

    function Render(): (v: LedValue)
      reads this
      ensures kind == Hardware ==> v.Packed?
      ensures kind == Simulator ==> v.Css? && |v.text| >= 7 && v.text[0] == '#'
      ensures red == 0 && green == 0 && blue == 0 && white == 0 ==> v == Blank(kind)
    {
      match kind
      case Hardware => Packed(Color.Pack(white, red, green, blue, brightness))
      case Simulator => Css(Color.HexColor(red, green, blue, brightness))
    }

    /** Turns every channel off; the brightness is kept, and the pixel now renders blank. */
    method Clear()
      modifies this
      ensures red == 0 && green == 0 && blue == 0 && white == 0
      ensures brightness == old(brightness)
      ensures Render() == Blank(kind)
    {
      red := 0;
      green := 0;
      blue := 0;
      white := 0;
      Color.HexColorBlack(brightness);
    }
  }

  /** The strand's LED data: SimulatorStrand's list, or the data buffer of the hardware strand. */
  class Strand {
    const ledData: array<LedValue>

    /** `[0] * size`. */
    constructor (size: nat)
      ensures fresh(ledData) && ledData.Length == size
      ensures forall s :: 0 <= s < size ==> ledData[s] == Packed(0)
    {
      ledData := new LedValue[size](_ => Packed(0));
    }

    /** Sends the buffer to the LEDs; the buffer itself is left as it is. */
    method Show()
      ensures ledData[..] == old(ledData[..])
    {
    }
  }

  /** The id of every pixel setup creates, in list order. */
  function LayoutOf(platform: Platform, rows: nat, cols: nat): (ids: seq<int>)
    ensures |ids| == rows * cols
  {
    match platform
    case Hardware => Layout.SerpentineLayout(rows, cols)
    case Simulator => Layout.LinearLayout(rows, cols)
  }

  /** The simulator always, and the serpentine wiring on a square grid, use every LED slot once. */
  lemma LayoutIsPermutation(platform: Platform, rows: nat, cols: nat)
    requires platform == Simulator || rows == cols
    ensures Layout.IsSlotPermutation(LayoutOf(platform, rows, cols))
  {
    match platform
    case Hardware => Layout.SerpentinePermutation(rows);
    case Simulator => Layout.LinearPermutation(rows, cols);
  }

  /** Pixels whose fields are those of a new pixel. */
  ghost predicate IsNew(p: Pixel)
    reads p
  {
    p.brightness == 255 && p.red == 0 && p.green == 0 && p.blue == 0 && p.white == 0
  }

  /** WrappedDisplay.setup: one new pixel per cell, row after row, odd rows wired backward. */
  method WrappedSetup(rows: nat, cols: nat) returns (pixels: seq<Pixel>)
    ensures |pixels| == rows * cols
    ensures forall i :: 0 <= i < |pixels| ==>
      fresh(pixels[i]) && IsNew(pixels[i]) && pixels[i].kind == Hardware
      && pixels[i].id == Layout.SerpentineLayout(rows, cols)[i]
    ensures forall i, j :: 0 <= i < j < |pixels| ==> pixels[i] != pixels[j]
  {
    pixels := [];
    ghost var ids: seq<int> := [];
    var r := 0;
    while r < rows
      invariant r <= rows
      invariant ids == Layout.SerpentineRows(rows, cols, r) && |pixels| == |ids|
      invariant forall i :: 0 <= i < |pixels| ==>
        fresh(pixels[i]) && IsNew(pixels[i]) && pixels[i].kind == Hardware && pixels[i].id == ids[i]
      invariant forall i, j :: 0 <= i < j < |pixels| ==> pixels[i] != pixels[j]
    {
      var isReversed := r % 2 != 0;
      ghost var row := Layout.SerpentineRow(rows, cols, r);
      var c := 0;
      while c < cols
        invariant c <= cols
        invariant ids == Layout.SerpentineRows(rows, cols, r) + row[..c] && |pixels| == |ids|
        invariant forall i :: 0 <= i < |pixels| ==>
          fresh(pixels[i]) && IsNew(pixels[i]) && pixels[i].kind == Hardware && pixels[i].id == ids[i]
        invariant forall i, j :: 0 <= i < j < |pixels| ==> pixels[i] != pixels[j]
      {
        var idx := if isReversed then (r + 1) * rows - c - 1 else r * rows + c;
        var p := new Pixel(Hardware, idx);
        pixels := pixels + [p];
        assert row[..c + 1] == row[..c] + [idx];
        ids := ids + [idx];
        c := c + 1;
      }
      assert row[..cols] == row;
      r := r + 1;
    }
  }

  /** SimulatorDisplay.setup: `[SimulatorPixel(idx) for idx in range(rows * cols)]`. */
  method SimulatorSetup(rows: nat, cols: nat) returns (pixels: seq<Pixel>)
    ensures |pixels| == rows * cols
    ensures forall i :: 0 <= i < |pixels| ==>
      fresh(pixels[i]) && IsNew(pixels[i]) && pixels[i].kind == Simulator && pixels[i].id == i
    ensures forall i, j :: 0 <= i < j < |pixels| ==> pixels[i] != pixels[j]
  {
    pixels := [];
    var idx := 0;
    while idx < rows * cols
      invariant idx <= rows * cols && |pixels| == idx
      invariant forall i :: 0 <= i < |pixels| ==>
        fresh(pixels[i]) && IsNew(pixels[i]) && pixels[i].kind == Simulator && pixels[i].id == i
      invariant forall i, j :: 0 <= i < j < |pixels| ==> pixels[i] != pixels[j]
    {
      var p := new Pixel(Simulator, idx);
      pixels := pixels + [p];
      idx := idx + 1;
    }
  }

  /**
   * The strand buffer after `for pixel in pixels: _led_data[pixel.id] = pixel.render()`
   * has run over the first n pixels, given each pixel's (id, rendered value) in list
   * order, and whether it got that far. A subscript outside the list raises IndexError:
   * the flag is then false and the later pixels are not written.
   */
  function ShowWrites<T>(buf: seq<T>, writes: seq<(int, T)>, n: nat): (r: (seq<T>, bool))
    requires n <= |writes|
    ensures |r.0| == |buf|
  {
    if n == 0 then (buf, true)
    else
      var prefix := ShowWrites(buf, writes, n - 1);
      if !prefix.1 then prefix
      else match Layout.PyIndex(|buf|, writes[n - 1].0)
        case None => (prefix.0, false)
        case Some(slot) => (prefix.0[slot := writes[n - 1].1], true)
  }

  /** The loop gets past n pixels exactly when each of their ids is a valid subscript of the buffer. */
  lemma {:induction false} ShowWritesCompletes<T>(buf: seq<T>, writes: seq<(int, T)>, n: nat)
    requires n <= |writes|
    ensures ShowWrites(buf, writes, n).1 <==>
      forall k :: 0 <= k < n ==> Layout.PyIndex(|buf|, writes[k].0).Some?
  {
    if n > 0 {
      ShowWritesCompletes(buf, writes, n - 1);
    }
  }

  /** A slot that no pixel id names keeps its old value, whether or not the loop ran to the end. */
  lemma {:induction false} ShowWritesUntouched<T>(buf: seq<T>, writes: seq<(int, T)>, n: nat, s: nat)
    requires n <= |writes| && s < |buf|
    requires forall k :: 0 <= k < n ==> Layout.PyIndex(|buf|, writes[k].0) != Some(s)
    ensures ShowWrites(buf, writes, n).0[s] == buf[s]
  {
    if n > 0 {
      ShowWritesUntouched(buf, writes, n - 1, s);
    }
  }

  /**
   * When the ids name distinct slots of the buffer, the loop runs to the end and each
   * slot holds the value rendered for the pixel that names it.
   */
  lemma {:induction false} ShowWritesDistinct<T>(buf: seq<T>, writes: seq<(int, T)>, n: nat)
    requires n <= |writes|
    requires forall k :: 0 <= k < n ==> 0 <= writes[k].0 < |buf|
    requires forall j, k :: 0 <= j < k < n ==> writes[j].0 != writes[k].0
    ensures ShowWrites(buf, writes, n).1
    ensures forall k :: 0 <= k < n ==> ShowWrites(buf, writes, n).0[writes[k].0] == writes[k].1
  {
    if n > 0 {
      ShowWritesDistinct(buf, writes, n - 1);
    }
  }

  /** When every pixel renders the same value and the loop runs to the end, every named slot holds it. */
  lemma {:induction false} ShowWritesUniform<T>(buf: seq<T>, writes: seq<(int, T)>, n: nat, v: T)
    requires n <= |writes|
    requires forall k :: 0 <= k < n ==> writes[k].1 == v
    requires ShowWrites(buf, writes, n).1
    ensures forall k :: 0 <= k < n ==>
      Layout.PyIndex(|buf|, writes[k].0).Some? &&
      ShowWrites(buf, writes, n).0[Layout.PyIndex(|buf|, writes[k].0).value] == v
  {
    if n > 0 {
      ShowWritesUniform(buf, writes, n - 1, v);
    }
  }

  /** When the ids use every slot once and each named slot holds v, the whole buffer holds v. */
  lemma CoveredSlots<T>(buf: seq<T>, ids: seq<int>, v: T)
    requires Layout.IsSlotPermutation(ids) && |ids| == |buf|
    requires forall k :: 0 <= k < |ids| ==> buf[ids[k]] == v
    ensures forall s :: 0 <= s < |buf| ==> buf[s] == v
  {
    forall s | 0 <= s < |buf|
      ensures buf[s] == v
    {
      assert s in ids;
      var k :| 0 <= k < |ids| && ids[k] == s;
    }
  }

  /** Once a subscript has failed, the later pixels change nothing. */
  lemma {:induction false} ShowWritesFailed<T>(buf: seq<T>, writes: seq<(int, T)>, n: nat, m: nat)
    requires n <= m <= |writes| && !ShowWrites(buf, writes, n).1
    ensures ShowWrites(buf, writes, m) == ShowWrites(buf, writes, n)
  {
    if m > n {
      ShowWritesFailed(buf, writes, n, m - 1);
    }
  }

  class Display {
    const platform: Platform
    const initialBrightness: nat
    const pixels: seq<Pixel>
    const count: nat
    const numRows: nat
    const numCols: nat
    const strand: Strand

    /** One pixel per cell and one strand slot per pixel. */
    ghost predicate Sized()
    {
      |pixels| == count == numRows * numCols && strand.ledData.Length == count
    }

    /** The pixel list, the strand and the ids fixed when the display was made. */
    ghost predicate Valid()
    {
      Sized() &&
      (forall i, j :: 0 <= i < j < |pixels| ==> pixels[i] != pixels[j]) &&
      (forall i :: 0 <= i < |pixels| ==> pixels[i].kind == platform) &&
      forall i :: 0 <= i < |pixels| ==> pixels[i].id == LayoutOf(platform, numRows, numCols)[i]
    }

    /** Each pixel's id and what it renders to now, in list order. */
    ghost function Frame(): (w: seq<(int, LedValue)>)
      reads pixels
      ensures |w| == |pixels|
      ensures forall i :: 0 <= i < |pixels| ==> w[i] == (pixels[i].id, pixels[i].Render())
    {
      seq(|pixels|, i reads pixels requires 0 <= i < |pixels| => (pixels[i].id, pixels[i].Render()))
    }

    /** The frame once every pixel is cleared: each pixel's id with the blank rendering. */
    ghost function BlankFrame(): (w: seq<(int, LedValue)>)
      ensures |w| == |pixels|
      ensures forall i :: 0 <= i < |pixels| ==> w[i] == (pixels[i].id, Blank(platform))
    {
      seq(|pixels|, i requires 0 <= i < |pixels| => (pixels[i].id, Blank(platform)))
    }

    /**
     * Display.__init__ with the setup of WrappedDisplay or SimulatorDisplay: rows * cols
     * new pixels, all at the initial brightness, and a strand buffer of as many zeros.
     */
    constructor (platform: Platform, rows: nat, cols: nat, initialBrightness: nat := 255)
      ensures Valid()
      ensures this.platform == platform && numRows == rows && numCols == cols && count == rows * cols
      ensures this.initialBrightness == initialBrightness
      ensures fresh(strand) && fresh(strand.ledData)
      ensures forall i :: 0 <= i < |pixels| ==> fresh(pixels[i])
      ensures forall i :: 0 <= i < |pixels| ==>
        pixels[i].brightness == initialBrightness &&
        pixels[i].red == 0 && pixels[i].green == 0 && pixels[i].blue == 0 && pixels[i].white == 0
      ensures forall s :: 0 <= s < strand.ledData.Length ==> strand.ledData[s] == Packed(0)
    {
      this.platform := platform;
      this.initialBrightness := initialBrightness;
      var ps: seq<Pixel>;
      match platform {
        case Hardware =>
          ps := WrappedSetup(rows, cols);
        case Simulator =>
          ps := SimulatorSetup(rows, cols);
      }
      pixels := ps;
      count := |ps|;
      numRows := rows;
      numCols := cols;
      var i := 0;
      while i < |ps|
        invariant i <= |ps|
        invariant forall k :: 0 <= k < |ps| ==>
          fresh(ps[k]) && ps[k].red == 0 && ps[k].green == 0 && ps[k].blue == 0 && ps[k].white == 0
        invariant forall k :: 0 <= k < i ==> ps[k].brightness == initialBrightness
      {
        ps[i].brightness := initialBrightness;
        i := i + 1;
      }
      strand := new Strand(rows * cols);
    }

    /** Sets the colour and brightness of every pixel; white and the ids are untouched. */
    method Fill(red: nat, green: nat, blue: nat, brightness: nat := 255)
      requires Valid()
      modifies pixels
      ensures forall i :: 0 <= i < |pixels| ==>
        pixels[i].red == red && pixels[i].green == green && pixels[i].blue == blue &&
        pixels[i].brightness == brightness && pixels[i].white == old(pixels[i].white)
    {
      var i := 0;
      while i < |pixels|
        invariant i <= |pixels|
        invariant forall k :: 0 <= k < i ==>
          pixels[k].red == red && pixels[k].green == green && pixels[k].blue == blue &&
          pixels[k].brightness == brightness
        invariant forall k :: 0 <= k < |pixels| ==> pixels[k].white == old(pixels[k].white)
      {
        var p := pixels[i];
        p.red := red;
        p.green := green;
        p.blue := blue;
        p.brightness := brightness;
        i := i + 1;
      }
    }

    /**
     * `pixels[row * num_rows + column]`, with Python's negative subscripts; None stands
     * for the IndexError raised outside the list.
     */
    function PixelAt(row: int, column: int): (p: Option<Pixel>)
      requires Valid()
      ensures p.Some? <==> -(count as int) <= row * numRows + column < count
      ensures 0 <= row * numRows + column < count ==> p == Some(pixels[row * numRows + column])
      ensures -(count as int) <= row * numRows + column < 0 ==>
        p == Some(pixels[count as int + (row * numRows + column)])
      ensures p.Some? ==> p.value in pixels
    {
      match Layout.PyIndex(|pixels|, row * numRows + column)
      case None => None
      case Some(i) => Some(pixels[i])
    }

    /**
     * Writes every pixel's rendering into the strand buffer at the slot its id names,
     * in list order, then shows the strand: the buffer becomes ShowWrites of the frame,
     * whose consequences ShowFillsLayout and the ShowWrites lemmas state.
     */
    method Show() returns (ok: bool)
      requires Sized()
      modifies strand.ledData
      ensures (strand.ledData[..], ok) == ShowWrites(old(strand.ledData[..]), Frame(), |pixels|)
    {
      ghost var before := strand.ledData[..];
      ghost var frame := Frame();
      var i := 0;
      while i < |pixels|
        invariant i <= |pixels|
        invariant (strand.ledData[..], true) == ShowWrites(before, frame, i)
      {
        var p := pixels[i];
        var slot := Layout.PyIndex(strand.ledData.Length, p.id);
        assert frame[i] == (p.id, p.Render());
        if slot.None? {
          ShowWritesFailed(before, frame, i + 1, |pixels|);
          return false;
        }
        strand.ledData[slot.value] := p.Render();
        i := i + 1;
      }
      strand.Show();
      ok := true;
    }

    /** The loop of clear: every pixel loses its colour and keeps its brightness. */
    method ClearPixels()
      requires Valid()
      modifies pixels
      ensures forall i :: 0 <= i < |pixels| ==>
        pixels[i].red == 0 && pixels[i].green == 0 && pixels[i].blue == 0 && pixels[i].white == 0 &&
        pixels[i].brightness == old(pixels[i].brightness) && pixels[i].Render() == Blank(platform)
    {
      var i := 0;
      while i < |pixels|
        invariant i <= |pixels|
        invariant forall k :: 0 <= k < i ==>
          pixels[k].red == 0 && pixels[k].green == 0 && pixels[k].blue == 0 && pixels[k].white == 0 &&
          pixels[k].Render() == Blank(platform)
        invariant forall k :: 0 <= k < |pixels| ==> pixels[k].brightness == old(pixels[k].brightness)
      {
        pixels[i].Clear();
        i := i + 1;
      }
    }

    /**
     * Clears every pixel and shows the result. Each slot a pixel id names then holds
     * the blank rendering, on any grid; ShowBlanksStrand says when that is every slot.
     */
    method Clear() returns (ok: bool)
      requires Valid()
      modifies pixels, strand.ledData
      ensures forall i :: 0 <= i < |pixels| ==>
        pixels[i].red == 0 && pixels[i].green == 0 && pixels[i].blue == 0 && pixels[i].white == 0 &&
        pixels[i].brightness == old(pixels[i].brightness) && pixels[i].Render() == Blank(platform)
      ensures (strand.ledData[..], ok) == ShowWrites(old(strand.ledData[..]), BlankFrame(), |pixels|)
      ensures ok ==> forall i :: 0 <= i < |pixels| ==>
        Layout.PyIndex(count, pixels[i].id).Some? &&
        strand.ledData[Layout.PyIndex(count, pixels[i].id).value] == Blank(platform)
    {
      ghost var before := strand.ledData[..];
      ClearPixels();
      assert Frame() == BlankFrame();
      ok := Show();
      if ok {
        ShowWritesUniform(before, BlankFrame(), |pixels|, Blank(platform));
      }
    }

    /** `cells` lists cells in row-major order, each with its coordinates and what pixel_at returns for it. */
    ghost predicate YieldedInOrder(cells: seq<(int, int, Pixel)>)
      requires Valid()
    {
      forall r, c :: 0 <= r < numRows && 0 <= c < numCols && Layout.RowMajor(numCols, r, c) < |cells| ==>
        cells[Layout.RowMajor(numCols, r, c)].0 == r && cells[Layout.RowMajor(numCols, r, c)].1 == c &&
        PixelAt(r, c) == Some(cells[Layout.RowMajor(numCols, r, c)].2)
    }

    /** pixel_at succeeds on every cell that comes before (row, col) in row-major order. */
    ghost predicate FoundBefore(row: nat, col: nat)
      requires Valid()
    {
      forall r, c :: 0 <= r < numRows && 0 <= c < numCols && (r < row || (r == row && c < col)) ==>
        PixelAt(r, c).Some?
    }

    /** Yielding cell (row, col) next keeps the list in row-major order. */
    lemma YieldStep(cells: seq<(int, int, Pixel)>, row: nat, col: nat, p: Pixel)
      requires Valid() && YieldedInOrder(cells)
      requires row < numRows && col < numCols && |cells| == Layout.RowMajor(numCols, row, col)
      requires PixelAt(row, col) == Some(p)
      ensures YieldedInOrder(cells + [(row, col, p)])
    {
      forall r, c | 0 <= r < numRows && 0 <= c < numCols && Layout.RowMajor(numCols, r, c) == |cells|
        ensures r == row && c == col
      {
        Layout.RowMajorUnique(numCols, r, c, row, col);
      }
    }

    /**
     * `itergrid`: (row, column, pixel_at(row, column)) for every cell in row-major order.
     * The generator stops with IndexError at the first cell whose subscript falls outside
     * the list; `cells` is what it yielded before that.
     */
    method IterGrid() returns (cells: seq<(int, int, Pixel)>, ok: bool)
      requires Valid()
      ensures ok <==> |cells| == numRows * numCols
      ensures |cells| <= numRows * numCols
      ensures forall r, c :: 0 <= r < numRows && 0 <= c < numCols && Layout.RowMajor(numCols, r, c) < |cells| ==>
        cells[Layout.RowMajor(numCols, r, c)].0 == r && cells[Layout.RowMajor(numCols, r, c)].1 == c &&
        PixelAt(r, c) == Some(cells[Layout.RowMajor(numCols, r, c)].2)
      ensures ok <==> forall r, c :: 0 <= r < numRows && 0 <= c < numCols ==> PixelAt(r, c).Some?
      ensures !ok ==>
        exists r, c :: 0 <= r < numRows && 0 <= c < numCols && Layout.RowMajor(numCols, r, c) == |cells| && PixelAt(r, c).None?
    {
      cells := [];
      var row := 0;
      while row < numRows
        invariant row <= numRows && |cells| == Layout.RowMajor(numCols, row, 0)
        invariant YieldedInOrder(cells) && FoundBefore(row, 0)
      {
        var col := 0;
        while col < numCols
          invariant col <= numCols && |cells| == Layout.RowMajor(numCols, row, col)
          invariant YieldedInOrder(cells) && FoundBefore(row, col)
        {
          var p := PixelAt(row, col);
          Layout.RowMajorBelow(numCols, numRows, row, col);
          if p.None? {
            return cells, false;
          }
          YieldStep(cells, row, col, p.value);
          cells := cells + [(row, col, p.value)];
          col := col + 1;
        }
        Layout.RowMajorNextRow(numCols, row);
        row := row + 1;
      }
      Layout.RowMajorNextRow(numCols, numRows);
      ok := true;
    }
  }

  /**
   * On the simulator, and on a square hardware grid, the show loop never fails and
   * every pixel's slot ends up holding its rendering.
   */
  lemma ShowFillsLayout(d: Display, buf: seq<LedValue>)
    requires d.Valid() && |buf| == d.count
    requires Layout.IsSlotPermutation(LayoutOf(d.platform, d.numRows, d.numCols))
    ensures ShowWrites(buf, d.Frame(), |d.pixels|).1
    ensures forall i :: 0 <= i < |d.pixels| ==>
      ShowWrites(buf, d.Frame(), |d.pixels|).0[d.pixels[i].id] == d.pixels[i].Render()
  {
    ShowWritesDistinct(buf, d.Frame(), |d.pixels|);
  }

  /**
   * Showing a cleared display on the simulator or on a square hardware grid completes
   * and leaves every slot of the strand blank.
   */
  lemma ShowBlanksStrand(d: Display, buf: seq<LedValue>)
    requires d.Valid() && |buf| == d.count
    requires Layout.IsSlotPermutation(LayoutOf(d.platform, d.numRows, d.numCols))
    ensures ShowWrites(buf, d.BlankFrame(), |d.pixels|).1
    ensures forall s :: 0 <= s < d.count ==> ShowWrites(buf, d.BlankFrame(), |d.pixels|).0[s] == Blank(d.platform)
  {
    ShowWritesDistinct(buf, d.BlankFrame(), |d.pixels|);
    CoveredSlots(ShowWrites(buf, d.BlankFrame(), |d.pixels|).0, LayoutOf(d.platform, d.numRows, d.numCols), Blank(d.platform));
  }

  /**
   * On the 2-by-3 hardware grid, showing a cleared display completes, blanks slots 0 to 3,
   * and leaves slots 4 and 5, which no pixel names, as they were.
   */
  lemma ShowBlanksNonSquare(d: Display, buf: seq<LedValue>)
    requires d.Valid() && d.platform == Hardware && d.numRows == 2 && d.numCols == 3 && |buf| == 6
    ensures ShowWrites(buf, d.BlankFrame(), 6).1
    ensures forall s :: 0 <= s < 4 ==> ShowWrites(buf, d.BlankFrame(), 6).0[s] == Packed(0)
    ensures ShowWrites(buf, d.BlankFrame(), 6).0[4..] == buf[4..]
  {
    Layout.SerpentineNonSquareCollides();
    var w := d.BlankFrame();
    ShowWritesCompletes(buf, w, 6);
    ShowWritesUniform(buf, w, 6, Packed(0));
    assert w[0].0 == 0 && w[1].0 == 1 && w[2].0 == 2 && w[3].0 == 3;
    ShowWritesUntouched(buf, w, 6, 4);
    ShowWritesUntouched(buf, w, 6, 5);
  }

  /**
   * pixel_at on a square grid is the row-major element, always in range; on the
   * hardware display its id is the serpentine slot of the cell.
   */
  lemma PixelAtRowMajor(d: Display, row: nat, column: nat)
    requires d.Valid() && d.numRows == d.numCols && row < d.numRows && column < d.numCols
    ensures Layout.RowMajor(d.numCols, row, column) < d.count
    ensures d.PixelAt(row, column) == Some(d.pixels[Layout.RowMajor(d.numCols, row, column)])
    ensures d.platform == Hardware ==>
      d.PixelAt(row, column).value.id == Layout.SerpentineId(d.numRows, row, column)
    ensures d.platform == Simulator ==>
      d.PixelAt(row, column).value.id == Layout.RowMajor(d.numCols, row, column)
  {
    Layout.PixelIndexSquare(d.numRows, row, column);
    if d.platform == Hardware {
      Layout.SerpentineLayoutAt(d.numRows, d.numCols, row, column);
    }
  }
}
