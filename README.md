# neopixels, modelled in Dafny

neopixels drives a grid of addressable RGBW LEDs, wired as one serpentine strand, from a
Raspberry Pi. It also has a desktop simulator that draws the same grid in a window. This
project models the logic between the pixel grid and the strand buffer:

- **Layout** (`layout.dfy`). `WrappedDisplay.setup` gives each grid cell a slot on the
  serpentine strand: even rows run forward and odd rows run backward. `SimulatorDisplay.setup`
  numbers the cells in list order. `pixel_at` subscripts the pixel list the way Python does,
  including negative subscripts.
- **Colour** (`color.dfy`). `Pixel.render` scales white, red, green and blue by
  brightness/255 and packs them into one 32-bit word, one byte per channel.
  `SimulatorPixel.render` formats the scaled red, green and blue as a `#rrggbb` string.
- **Framework** (`framework.dfy`). Pixels, the strand's LED data and the display are
  classes whose fields change in place. Construction, `fill`, `show`, `clear` and
  `itergrid` are loops with invariants; `pixel_at` is a function. Each is proved against a specification: the
  buffer after `show` is a fold over the pixels' (id, rendering) pairs, and that fold's
  properties are proved as lemmas.
- **Simulator** (`simulator.dfy`). The demo animation's ping-pong brightness counter, the
  animation's `update` on a display, and the rule by which the app's generator picks the
  animation for each tick.

Subclass dispatch (`Pixel`/`SimulatorPixel`, `WrappedDisplay`/`SimulatorDisplay`) is a
`Platform` tag on each pixel and display. The hardware strand holds packed words. The
simulator's strand starts as integer zeros, and `show` stores `#rrggbb` strings in it. So
a slot holds a `LedValue`, which is either of the two.

Both `setup` and `pixel_at` use the row count where a row width belongs. The model keeps
that as written:

- On a square grid the serpentine ids are a permutation of the strand's slots
  (`Layout.SerpentinePermutation`), and `pixel_at` is the row-major element
  (`Framework.PixelAtRowMajor`).
- On a 2×3 grid two pairs of cells share a slot: slots 1 and 2 are each named twice, and
  slots 4 and 5 are never named (`Layout.SerpentineNonSquareCollides`).
- `show` is specified for every grid shape. When an id falls outside the buffer, the
  IndexError is modelled as `ok == false`.

## Model

| member | source | states |
|---|---|---|
| Layout.SerpentineId | framework.py:92-95 | an even row's cells take the row-major slots r*rows+c; an odd row runs backward, so cell c takes the slot of column rows-1-c; every cell of row r with c < rows lands in the r-th block of rows slots |
| Layout.SerpentineLayoutAt | framework.py:87-98 | the pixel at list position r*cols+c has id r*rows+c on even rows and (r+1)*rows-c-1 on odd rows |
| Layout.SerpentineLayout | framework.py:87-98 | setup yields rows*cols ids |
| Layout.SerpentineSlotRoundTrip | framework.py:89-96 | on an n×n grid every strand slot below n*n is the serpentine slot of some in-range cell |
| Layout.SerpentineCellRoundTrip | framework.py:89-96 | on an n×n grid the cell can be recovered from its serpentine slot |
| Layout.SerpentineLayoutInjective | framework.py:89-96 | on an n×n grid no two pixels share a slot |
| Layout.SerpentineLayoutCovers | framework.py:89-96 | on an n×n grid every slot below n*n is some pixel's id |
| Layout.SerpentinePermutation | framework.py:89-96 | on an n×n grid the ids are in range, distinct and cover every slot: each LED is used exactly once |
| Layout.SerpentineNonSquareCollides | framework.py:93-95 | on a 2-row, 3-column grid the ids are [0,1,2,3,2,1], so slots 1 and 2 are each named twice |
| Layout.LinearLayout | simulator.py:25-26 | the simulator's setup yields rows*cols ids and the pixel at list position i has id i |
| Layout.LinearPermutation | simulator.py:25-26 | the simulator's ids use every slot exactly once, whatever the grid shape |
| Layout.PyIndex | framework.py:67 | a list subscript succeeds exactly when -len <= i < len; a negative subscript counts from the end |
| Layout.PixelIndexSquare | framework.py:66-67 | on an n×n grid the subscript of an in-range cell is in range and not wrapped |
| Color.Scale | framework.py:108-113 | a scaled channel never exceeds the raw channel; it is the channel at brightness 255 and 0 at brightness 0 |
| Color.BitOr | framework.py:110-113 | the OR of two naturals is at least each of them and at most their sum |
| Color.Pack | framework.py:107-114 | the packed word is at least each shifted scaled channel and at most their sum |
| Color.PackFields | framework.py:107-114 | with channels and brightness below 256 the word is below 2^32 and equals the sum of the shifted scaled channels; each byte field holds its scaled channel, which is at most the raw channel, for white, red, green and blue alike |
| Color.PackFullBrightness | framework.py:107-114 | at brightness 255 the word is the bitwise OR of white<<24, red<<16, green<<8 and blue, and unpacking it gives back the four channels |
| Color.PackZeroBrightness | framework.py:107-114 | at brightness 0 the word is 0 |
| Color.Hex | simulator.py:35 | `format(n, 'x')`: at least one lowercase hex digit, and exactly one when n < 16 |
| Color.Hex02 | simulator.py:35 | `format(n, '02x')`: lowercase hex digits only |
| Color.HexColor | simulator.py:30-35 | the simulator's rendering starts with '#' and is at least 7 characters long |
| Color.HexRoundTrip | simulator.py:35 | reading the lowercase hex digits of n gives back n |
| Color.Hex02Byte | simulator.py:35 | a value below 256 formats as exactly two hex digits, which read back as the value |
| Color.HexColorDecodes | simulator.py:30-35 | the simulator's rendering is '#' and six lowercase hex digits whose pairs read back as the scaled red, green and blue; white does not appear |
| Color.HexColorBlack | simulator.py:30-35 | a simulator pixel with no colour renders as "#000000" at any brightness |
| Framework.Pixel.constructor | framework.py:102-105 | a new pixel has the given id, brightness 255 and every channel 0, so it renders blank |
| Framework.Pixel.Render | framework.py:107-114 | a hardware pixel renders as a packed word and a simulator pixel as a '#' colour string of at least 7 characters; a pixel with no colour renders blank (simulator.py:30-35 for the simulator's branch) |
| Framework.Pixel.Clear | framework.py:116-120 | red, green, blue and white become 0; brightness and id are kept; the pixel renders blank |
| Framework.Strand.constructor | simulator.py:9-10 | the strand's LED data is a new buffer of rows*cols zeros |
| Framework.Strand.Show | simulator.py:12-13 | showing the simulator strand leaves its buffer as it was |
| Framework.LayoutIsPermutation | framework.py:89-96 | the simulator's layout, and the serpentine layout on a square grid, use every strand slot exactly once |
| Framework.WrappedSetup | framework.py:87-98 | setup returns rows*cols distinct new pixels whose ids follow the serpentine layout in list order |
| Framework.SimulatorSetup | simulator.py:25-26 | setup returns rows*cols distinct new simulator pixels with ids 0, 1, 2, ... in list order |
| Framework.Display.constructor | framework.py:23-40 | count is rows*cols; every pixel has the initial brightness and no colour; the strand buffer has count zero slots |
| Framework.Display.Fill | framework.py:59-64 | every pixel gets the given red, green, blue and brightness; white and id are kept |
| Framework.Display.PixelAt | framework.py:66-67 | pixel_at returns the pixel at subscript row*num_rows+column, following Python's rules: a subscript i in 0..count-1 gives pixels[i], one in -count..-1 gives pixels[count+i], and any other fails |
| Framework.PixelAtRowMajor | framework.py:66-67 | on a square grid an in-range cell gives the row-major pixel; its id is the cell's serpentine slot on hardware and its row-major index on the simulator |
| Framework.ShowWrites | framework.py:70-71 | the loop's writes, pixel by pixel with IndexError ending it, never change the buffer's length |
| Framework.ShowWritesCompletes | framework.py:70-71 | the loop gets past n pixels exactly when each of their ids is a valid subscript of the buffer |
| Framework.ShowWritesUntouched | framework.py:70-71 | a slot no pixel's id names keeps its old value |
| Framework.ShowWritesDistinct | framework.py:70-71 | when the ids are distinct and in range, the loop completes and each pixel's slot holds its rendering |
| Framework.ShowWritesUniform | framework.py:70-71 | when every pixel renders the same value and the loop completes, every named slot holds that value |
| Framework.ShowWritesFailed | framework.py:70-71 | after an IndexError the pixels after it change nothing |
| Framework.Display.Show | framework.py:69-72 | the new buffer and the completion flag are the write fold over every pixel's (id, rendering) pair in list order; nothing else changes |
| Framework.ShowFillsLayout | framework.py:69-71 | on the simulator, and on a square hardware grid, show never fails and every pixel's slot holds its rendering |
| Framework.Display.ClearPixels | framework.py:75-76 | every pixel loses its colour, keeps its brightness and renders blank |
| Framework.Display.Clear | framework.py:74-78 | every pixel loses its colour and keeps its brightness; the buffer and the completion flag are the write fold of every pixel's (id, blank rendering) pair, on any grid; when show completes, each slot a pixel id names holds the blank rendering |
| Framework.ShowBlanksStrand | framework.py:74-78 | after clearing, on the simulator and on a square hardware grid, show completes and every slot of the strand is blank |
| Framework.ShowBlanksNonSquare | framework.py:74-78 | after clearing a 2-row, 3-column hardware grid, show completes, slots 0 to 3 are blank and slots 4 and 5 keep their old values |
| Framework.Display.IterGrid | framework.py:80-83 | the cells come in row-major order, each with its row, column and pixel_at result; all rows*cols are yielded exactly when pixel_at succeeds on every cell, and otherwise the first failing cell ends the generator |
| Simulator.Step | simulator.py:49-58 | brightness moves by exactly 10 in the current direction, unless it would reach 255 going up or 0 going down; then it is clamped there and the direction turns, which is the only time it does; it never leaves 0..255 |
| Simulator.Run | simulator.py:49-58 | repeated updates from a brightness within 0..255 stay within 0..255 |
| Simulator.RunStaysOnCycle | simulator.py:39-58 | from a new animation, brightness stays within 0..255 after any number of updates |
| Simulator.RunRising | simulator.py:49-53 | the first 25 updates raise the brightness by 10 each |
| Simulator.RunFalling | simulator.py:49-58 | update 26 clamps to 255 and turns; the next 25 each lower the brightness by 10 |
| Simulator.PulsePeriod | simulator.py:39-58 | after 26 updates the counter is at 255 going down; after 52 it is back at the start state |
| Simulator.Animation.constructor | simulator.py:39-41 | a new animation starts at brightness 0, increasing |
| Simulator.Animation.IsDone | simulator.py:60-61 | the demo animation is never done |
| Simulator.Animation.Update | simulator.py:43-58 | every pixel other than (0,0) loses its colour and keeps its brightness; pixel (0,0) gets blue 255 and the counter's brightness from before the call; the counter takes one step; when the clear's show or pixel_at fails, the counter is unchanged; on every grid the strand is the write fold of the cleared frame and the call succeeds exactly when that fold completes and the display is not empty; on the simulator and on a square grid the strand is left blank, and the call fails exactly when the display is empty |
| Simulator.Animation.Advance | simulator.py:49-58 | the counter's new state is one Step of its old state |
| Simulator.Scheduler.constructor | simulator.py:102-104 | the generator starts at the first animation |
| Simulator.Scheduler.Next | simulator.py:102-106 | the yielded animation is not done; every animation passed over, in list order with wrap-around, is done; the generator stays on the current animation while it is not done |

## Left out

- Color.Scale: `render` computes `int(channel * (brightness / 255))` in floating point; the model uses the integer floor of `channel * brightness / 255`, which is an approximation of the float truncation.
- Channel and brightness values are natural numbers; negative values, which Python would accept, are not modelled.
- `Display.setup_strand` and the native `Adafruit_NeoPixel` strand (construction, `begin()`, `show()` sending the signal) are foreign hardware code. The hardware strand's LED data is modelled as the same buffer as the simulator's, starting as zeros.
- The abstract `Display.setup` and base `Animation` methods only raise, so they are not modelled.
- The Tk window in `App.__init__` and `App.tick` (canvas, ovals, colour updates, the `after` timer, `datetime` deltas) is GUI and clock I/O. Simulator.Animation.Update takes no `delta`, because the demo animation ignores it.
- main.py is a hardware driving loop built on `random` and `time.sleep`. It is I/O and randomness, not logic.
- Simulator.Scheduler.Next: takes what each animation's `is_done()` answers now as a list of flags, and keeps only the generator's position, not the animation list. It requires one animation that is not done, because otherwise the generator spins forever without yielding.
- Framework.Display.Show: the hardware `strand.show()` call after the loop is modelled as leaving the buffer unchanged. Sending data to the LEDs is not modelled.
- A display's pixel list, its count and dimensions, and each pixel's id are never reassigned by the source, so they are constants in the model.
