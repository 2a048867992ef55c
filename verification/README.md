# Verified model of the alarm-clock firmware

The firmware drives a small OLED panel and a colour display, talks Bluetooth Low Energy, keeps time with a
DS3231 clock chip and plays two MP3 tracks. This project models the algorithms of those parts and proves what
they are for. `dafny verify dfyconfig.toml` checks everything.

One module per part:

- `Machine`, `Geometry`: the C integer types, counting loops in int16, shared arithmetic; points of the plane.
- `Ssd1306`: the page-packed one-bit buffer, its four rotations, and the masked fast lines against one pixel
  at a time. Coordinates are int16 and wrap as in C, so the agreement is stated with its exact limit.
- `Circle`, `Line`, `Triangle`, `Fills`: the integer rasterisers, as the sequence of pixels and line segments
  they write, and the fills on top of the SSD1306 columns.
- `TextLayout`: drawing and measuring text, with the classic font and with custom fonts.
- `DmaFill`, `PingPong`: the DMA branches of the SPI display driver: cache, chains of descriptors, and the CPU
  and the DMA engine as interleaved steps.
- `Characteristic`: a BLE characteristic as a state machine over GATT events, with long reads and prepared writes.
- `Uuid`, `Advertising`: UUID identity, the advertising payload and its parser.
- `Base64`, `StreamSearch`, `Calendar`, `Tracks`, `SharedCounter`: what the names say.

Code that changes fields or arrays is a class or a method over arrays whose contract gives the new state through
a function; the theorems are lemmas about that function. Where a promise of the original fails at an edge, the
module has the exact condition as an equivalence and a concrete case: `HClippedWraps`, `PensAgreeExactly`,
`TextEscapesBox`, `FillRectExactly`, `FillRectOn`, `WriteLineExactly`, `FillTriangleExactly`, `RowsExactly`,
`Spitft.WriteColor`, `TwoDescriptorsExactly`, `SafeExactly`, `LongReadDelivers`, `OffsetWithinValue`, `AllSeenExactly`,
`LastWins`, `FindsFirstExactly`, `StopsExactly`, `DriverCountExactly`, `ResumeExactly`, `OverlapLosesUpdate`.

The intent of the source disagrees with its code in these places, where the model follows the code. The parser is
documented to end at a zero length byte or after 31 bytes, but it also ends after a record without data, because it
tests the length it has already decremented. Service data that consists of a UUID alone should replace the service data
of a device, but only replaces the UUID and leaves the old data. `findUntil` is said to
end at its target or its terminator, but reads over occurrences of either that begin within a failed match.
`writePixels` is said to fit the allocated descriptors,
but a small screen has one only. A long read is meant to end with a short response, but the 16-bit read offset wraps
on a value that prepared writes have made longer. `date2days` is used as a count of days, but adds the leap day only
in February. `unixtime` therefore is not the inverse of `setDateTime(uint32_t)` in leap years.

Inputs from outside are parameters: the bytes of a stream before the read times out, the BLE events with their
MTU and the platform's attribute limit, the recordings, the order in which tasks run.

## Model

| member | source | states |
|---|---|---|
| Ssd1306.Display.constructor | components/Adafruit_SSD1306/Adafruit_SSD1306.cpp:461-461 | A fresh panel has one byte for every eight rows of every column, all zero, and rotation 0 |
| Ssd1306.EnoughPages | components/Adafruit_SSD1306/Adafruit_SSD1306.cpp:461-461 | The pages allocated hold all rows, and no page is spare |
| Ssd1306.Display.SetRotation | components/Adafruit_GFX_Library/Adafruit_GFX.cpp:1251-1265 | The rotation becomes its argument modulo 4; nothing else changes |
| Ssd1306.RotationTurns | components/Adafruit_SSD1306/Adafruit_SSD1306.cpp:612-630 | Each rotation turns the one before by a quarter: its right is the old down, its down the old left, its first corner the old upper right one; rotation 0 is the panel itself |
| Ssd1306.Display.DrawPixel | components/Adafruit_SSD1306/Adafruit_SSD1306.cpp:610-639 | The buffer becomes `PixelDrawn` of the old one, for every int16 position on or off the screen, rotation and colour, with the index in range |
| Ssd1306.PixelPaints | components/Adafruit_SSD1306/Adafruit_SSD1306.cpp:610-639 | Drawing a pixel paints exactly the one physical pixel it maps to, if any, and leaves every other bit of the buffer alone |
| Ssd1306.PixelShows | components/Adafruit_SSD1306/Adafruit_SSD1306.cpp:610-639 | A painted position shows white, black, or the opposite of what it showed, and no other position of the screen changes |
| Ssd1306.Display.GetPixel | components/Adafruit_SSD1306/Adafruit_SSD1306.cpp:893-913 | True exactly when the position is on the screen and the bit of its physical pixel is set |
| Ssd1306.IdxInjective | components/Adafruit_SSD1306/Adafruit_SSD1306.cpp:629-635 | Different columns and pages live in different bytes of the buffer |
| Ssd1306.BufferExtensional | components/Adafruit_SSD1306/Adafruit_SSD1306.cpp:461-461 | A buffer is determined by its pixels, padding rows included |
| Ssd1306.PaintedUnique | components/Adafruit_SSD1306/Adafruit_SSD1306.cpp:668-880 | Painting two rectangles that agree on the screen gives the same buffer, bit for bit |
| Ssd1306.PremaskBits | components/Adafruit_SSD1306/Adafruit_SSD1306.cpp:811-813 | Entry mod of the first table masks exactly the top mod rows of a byte |
| Ssd1306.PostmaskBits | components/Adafruit_SSD1306/Adafruit_SSD1306.cpp:862-864 | Entry mod of the second table masks exactly the bottom mod rows |
| Ssd1306.Display.DrawFastHLineInternal | components/Adafruit_SSD1306/Adafruit_SSD1306.cpp:700-736 | Paints exactly the clipped physical row, in all three colours, however far the line reaches outside |
| Ssd1306.Display.DrawFastVLineInternal | components/Adafruit_SSD1306/Adafruit_SSD1306.cpp:786-880 | Paints exactly the clipped physical column |
| Ssd1306.Display.DrawColumn | components/Adafruit_SSD1306/Adafruit_SSD1306.cpp:800-877 | The masked first byte, the whole bytes and the masked last byte together paint exactly h rows of one column |
| Ssd1306.HPixelsPaint | components/Adafruit_SSD1306/Adafruit_SSD1306.cpp:610-639 | Drawing n pixels in a row, one at a time, paints exactly their area, each pixel once |
| Ssd1306.VPixelsPaint | components/Adafruit_SSD1306/Adafruit_SSD1306.cpp:610-639 | The same for a column |
| Ssd1306.HClippedAt | components/Adafruit_SSD1306/Adafruit_SSD1306.cpp:668-710 | Rotating first and clipping then selects the same screen pixels as the line itself, unless a coordinate wraps in int16 |
| Ssd1306.HClippedWraps | components/Adafruit_SSD1306/Adafruit_SSD1306.cpp:680-706 | A wrap only happens for negative widths, and then paints at least one pixel that the empty line does not have |
| Ssd1306.VClippedWraps | components/Adafruit_SSD1306/Adafruit_SSD1306.cpp:759-793 | The same for columns |
| Ssd1306.Display.DrawFastHLine | components/Adafruit_SSD1306/Adafruit_SSD1306.cpp:668-698 | The fast row leaves the same buffer as drawPixel once per pixel, for every int16 argument, rotation and colour, exactly up to the int16 wrap: where a coordinate wraps, an INVERSE line differs |
| Ssd1306.Display.DrawFastVLine | components/Adafruit_SSD1306/Adafruit_SSD1306.cpp:754-784 | The same for the fast column |
| Circle.MidpointIsRoundedRoot | components/Adafruit_GFX_Library/Adafruit_GFX.cpp:345-382 | Every y the midpoint iteration reaches is the rounded square root of r^2 - x^2, by the two bounds x^2 + y^2 - y < r^2 <= x^2 + y^2 + y |
| Circle.NearestRoot | components/Adafruit_GFX_Library/Adafruit_GFX.cpp:345-494 | Those bounds say that y is less than half a unit from the exact root, by squares of the halves |
| Circle.StepKeepsRoot | components/Adafruit_GFX_Library/Adafruit_GFX.cpp:362-370 | One iteration keeps those bounds, for the decision the variable f makes |
| Circle.MidpointInt16 | components/Adafruit_GFX_Library/Adafruit_GFX.cpp:345-382 | f, ddF_x and ddF_y stay in int16 for radii up to 16383 |
| Circle.DrawCircle | components/Adafruit_GFX_Library/Adafruit_GFX.cpp:345-382 | For r >= 1 the pixels written are exactly those whose larger offset is the rounded root for the smaller one; for r <= 0 the four poles |
| Circle.OutlineInDisc | components/Adafruit_GFX_Library/Adafruit_GFX.cpp:345-494 | Every outline pixel lies in the filled disc |
| Circle.SteepColumn | components/Adafruit_GFX_Library/Adafruit_GFX.cpp:472-486 | The height of a column near the centre is the midpoint y |
| Circle.FlatColumn | components/Adafruit_GFX_Library/Adafruit_GFX.cpp:487-492 | When y drops, the column at the old y reaches up to the current x |
| Circle.FillCircleHelper | components/Adafruit_GFX_Library/Adafruit_GFX.cpp:459-494 | Draws each column of the chosen halves once, each with its full height plus delta |
| Circle.FillCircle | components/Adafruit_GFX_Library/Adafruit_GFX.cpp:439-445 | For r >= 1 each column x0-r..x0+r is drawn exactly once and the pixels covered are exactly the disc |
| Fills.FillRect | components/Adafruit_GFX_Library/Adafruit_GFX.cpp:291-298 | Each column of the rectangle once, with the full height; nothing for w <= 0. In unbounded integers; `FillRectExactly` and `FillRectOn` are the int16 form |
| Fills.FillRectExactly | components/Adafruit_GFX_Library/Adafruit_GFX.cpp:294-296 | In int16 the loop ends if and only if w <= 0 or x + w <= 32767, and then its counter takes exactly the columns of the rectangle |
| Fills.FillRectHangs | components/Adafruit_GFX_Library/Adafruit_GFX.cpp:294-296 | The failing input: a rectangle of one column at x = 32767 is never finished |
| Fills.FillRoundRect | components/Adafruit_GFX_Library/Adafruit_GFX.cpp:556-567 | Each column of the rectangle once, and the lines cover exactly the rounded rectangle, given in closed form, and stay inside it, for every clipped radius that is not negative; `FillRoundRectOn` is the int16 form |
| Fills.ClippedRadiusIs | components/Adafruit_GFX_Library/Adafruit_GFX.cpp:558-559 | The radius used is the smaller of the given one and half the shorter side, rounded toward zero |
| Fills.DrawTrace | components/Adafruit_GFX_Library/Adafruit_GFX.cpp:200-206 | Sending the columns to the SSD1306 override, each argument as an int16, renders them one after another unless a negative height wraps there, and in INVERSE toggles each pixel once per column the override clips to it, wrapped or not |
| Fills.InverseToggles | components/Adafruit_SSD1306/Adafruit_SSD1306.cpp:754-880 | An INVERSE rendering toggles a pixel once for each column segment that covers it |
| Fills.InverseTwice | components/Adafruit_SSD1306/Adafruit_SSD1306.cpp:754-880 | Rendering any columns twice in INVERSE restores the whole buffer |
| Fills.PaintsOnce | components/Adafruit_SSD1306/Adafruit_SSD1306.cpp:754-880 | When no column is drawn twice, each covered pixel on the screen is painted exactly once, in any colour |
| Fills.FillCircleOn | components/Adafruit_GFX_Library/Adafruit_GFX.cpp:439-494 | For every int16 centre and every radius from 0 to 16383: the panel shows exactly the pixels of the disc that are on the screen painted, each once, and nothing else changed, although columns and rows off the screen wrap |
| Fills.FillRectOn | components/Adafruit_GFX_Library/Adafruit_GFX.cpp:291-298 | For all int16 arguments on which the loop ends: exactly the pixels of the rectangle on the screen are painted, each once, unless it has a visible column where a negative height wraps in the column routine; in INVERSE, if and only if it has none |
| Fills.FillRoundRectOn | components/Adafruit_GFX_Library/Adafruit_GFX.cpp:556-567 | The same equivalence for the rounded rectangle, whose coordinates may wrap; a negative radius fills the wider rectangle that int16 gives |
| Fills.RoundRectArguments | components/Adafruit_GFX_Library/Adafruit_GFX.cpp:558-566 | The int16 arguments of the three calls and the columns and rows they draw are those of the unbounded ones, narrowed |
| Fills.TracePaints | components/Adafruit_GFX_Library/Adafruit_GFX.cpp:200-206 | Any columns drawn once each, not more than 2^16 apart and wrapping only off the screen, are painted exactly and once |
| Fills.PaintedTwice | components/Adafruit_SSD1306/Adafruit_SSD1306.cpp:754-880 | Filling the same positions a second time in INVERSE restores the whole buffer, padding rows included |
| Line.WriteLine | components/Adafruit_GFX_Library/Adafruit_GFX.cpp:128-169 | Writes exactly the pixels of the normalised run, in order, for any two end points, in unbounded integers; `WriteLineExactly` says on which int16 arguments the source does the same |
| Line.WriteLineExactly | components/Adafruit_GFX_Library/Adafruit_GFX.cpp:128-169 | For all int16 end points: the loop ends if and only if the larger major coordinate is below 32767, and it ends with the exact pixels if and only if, besides, the span is at most 32767 |
| Line.WriteLineFails | components/Adafruit_GFX_Library/Adafruit_GFX.cpp:144-168 | The failing inputs: one pixel at 32767 is never finished, and a level line of 32769 pixels leaves its row with the second one |
| Line.MinorStep | components/Adafruit_GFX_Library/Adafruit_GFX.cpp:163-167 | The err updates compute the rounded quotient i * dy / dx without dividing |
| Line.ErrInRange | components/Adafruit_GFX_Library/Adafruit_GFX.cpp:148-167 | After i steps with minor offset k, err = dx/2 - i*dy + k*dx is in [0, dx), so -dx < 2*(i*dy - k*dx) <= dx |
| Line.ErrInt16 | components/Adafruit_GFX_Library/Adafruit_GFX.cpp:148-167 | err stays in int16 when dx does |
| Line.MajorOnce | components/Adafruit_GFX_Library/Adafruit_GFX.cpp:128-169 | One pixel for each major coordinate, in increasing order, max(|dx|, |dy|) + 1 in all |
| Line.EndpointsHit | components/Adafruit_GFX_Library/Adafruit_GFX.cpp:128-169 | The first and the last pixel are the two end points, first the one with the smaller major coordinate |
| Line.TiesTowardStart | components/Adafruit_GFX_Library/Adafruit_GFX.cpp:148-167 | Every pixel is the nearest one to the line in its column or row, and of two equally near ones the one toward the first pixel |
| Line.EndpointOrder | components/Adafruit_GFX_Library/Adafruit_GFX.cpp:128-169 | Swapping the end points gives the same pixels in the same order |
| Line.PixelNearLine | components/Adafruit_GFX_Library/Adafruit_GFX.cpp:128-169 | Every pixel is within half a minor unit of the line through the end points, stated with the cross product |
| Triangle.FillTriangle | components/Adafruit_GFX_Library/Adafruit_GFX.cpp:600-678 | Draws exactly the row list of the sorted triangle; the two accumulators equal the longhand products at every row and no divisor is zero. In unbounded integers; `FillTriangleExactly`, `RowsExactly` and `FlatFitsExactly` say when the source does the same in int16 |
| Triangle.FillTriangleExactly | components/Adafruit_GFX_Library/Adafruit_GFX.cpp:617-676 | For all int16 vertices: a divisor is zero if and only if the two upper vertices are at y = -32768 and the lower one is not; otherwise the loops end if and only if all vertices are on one scanline, or the middle one has y > -32768 and the lowest y < 32767 |
| Triangle.FillTriangleFails | components/Adafruit_GFX_Library/Adafruit_GFX.cpp:645-650 | The failing inputs: a level edge on the first scanline divides by zero, a vertex on the last one is never passed |
| Triangle.UpperFits | components/Adafruit_GFX_Library/Adafruit_GFX.cpp:645-659 | In int16 and int32, where the loops end and the differences fit, a row of the upper loop is the row of the exact triangle if and only if its width fits int16 |
| Triangle.LowerFits | components/Adafruit_GFX_Library/Adafruit_GFX.cpp:663-676 | The same for the lower loop |
| Triangle.MiddleWidest | components/Adafruit_GFX_Library/Adafruit_GFX.cpp:645-676 | No row is too wide for int16 unless the row at the middle vertex is, truncation included, for heights up to 32767 |
| Triangle.RowsExactly | components/Adafruit_GFX_Library/Adafruit_GFX.cpp:627-676 | A triangle whose loops end and whose differences fit is drawn exactly in int16, in every row, if and only if the width of the row at its middle vertex is at most 32767 |
| Triangle.WidthMatters | components/Adafruit_GFX_Library/Adafruit_GFX.cpp:645-676 | A triangle that spans 32768 columns and is drawn exactly, and the failing input, whose middle row has 32768 pixels |
| Triangle.FlatFitsExactly | components/Adafruit_GFX_Library/Adafruit_GFX.cpp:617-626 | The single row of a flat triangle survives int16 if and only if its width fits |
| Triangle.UpperRows | components/Adafruit_GFX_Library/Adafruit_GFX.cpp:645-659 | The first loop draws the rows down to the middle vertex, that row included exactly when the bottom is flat; in unbounded integers, where the last row before the middle one exists (`FillTriangleExactly` for int16) |
| Triangle.ScanlinesOnce | components/Adafruit_GFX_Library/Adafruit_GFX.cpp:600-678 | Every scanline from the lowest to the highest y is drawn exactly once, in order |
| Triangle.EdgeCrossing | components/Adafruit_GFX_Library/Adafruit_GFX.cpp:649-650 | The truncated quotient is less than one unit away from the edge and never outside its two ends |
| Triangle.CrossesUnique | components/Adafruit_GFX_Library/Adafruit_GFX.cpp:649-650 | A crossing is the one integer less than a unit away from the exact one on the side of the edge's upper end |
| Triangle.FilledExactly | components/Adafruit_GFX_Library/Adafruit_GFX.cpp:645-676 | A pixel of a row is filled if and only if it lies on or between the two crossings of the row, the edges named as the two loops use them |
| Triangle.FilledRows | components/Adafruit_GFX_Library/Adafruit_GFX.cpp:617-676 | Nothing is filled outside the rows of the triangle; a triangle on one row fills from its first to its last vertex |
| Triangle.InsideBoundingBox | components/Adafruit_GFX_Library/Adafruit_GFX.cpp:600-678 | Every span is non-empty and inside the bounding box of the vertices |
| Triangle.VerticesCovered | components/Adafruit_GFX_Library/Adafruit_GFX.cpp:600-678 | All three vertices are covered |
| Triangle.VertexOrderIrrelevant | components/Adafruit_GFX_Library/Adafruit_GFX.cpp:605-614 | The six orders of the vertices draw the same rows |
| Triangle.ProductsInt32 | components/Adafruit_GFX_Library/Adafruit_GFX.cpp:635-668 | The accumulators fit int32 for int16 coordinate differences |
| TextLayout.DrawClassic | components/Adafruit_GFX_Library/Adafruit_GFX.cpp:1078-1109 | For a character on the screen, a pixel is in an ink rectangle if and only if bit (py - y) / sy of column (px - x) / sx of its five bytes is set, least significant bit on top and with the index shifted from 176 on; with an opaque background all other pixels of the 6 by 8 units are background; nothing when wholly off the screen |
| TextLayout.DrawCustom | components/Adafruit_GFX_Library/Adafruit_GFX.cpp:1111-1170 | A pixel is in a rectangle if and only if bit yy * width + xx of the glyph's bitmap is set, most significant bit first, for its column xx and row yy; there is no background, and no byte outside the bitmap is read |
| TextLayout.TopBit | components/Adafruit_GFX_Library/Adafruit_GFX.cpp:1156-1167 | The register shifted left shows the bits of its byte from the most significant on |
| TextLayout.CharDotsInside | components/Adafruit_GFX_Library/Adafruit_GFX.cpp:1075-1172 | A character never draws outside the cell that charBounds measures for it |
| TextLayout.WrapsExactly | components/Adafruit_GFX_Library/Adafruit_GFX.cpp:1189-1212 | A character goes to the start of the next line if and only if wrapping is on and its cell sticks out on the right; drawing leaves empty cells where they are |
| TextLayout.ControlCharacters | components/Adafruit_GFX_Library/Adafruit_GFX.cpp:1179-1221 | Newline goes to the start of the next line, return and characters outside the font go nowhere, measured or drawn |
| TextLayout.PenWithoutWrap | components/Adafruit_GFX_Library/Adafruit_GFX.cpp:1179-1221 | Without wrapping a line moves the pen by the sum of its character widths |
| TextLayout.ClassicGrid | components/Adafruit_GFX_Library/Adafruit_GFX.cpp:1189-1195 | With wrapping, character n of a classic text from the left edge stands in column n % cols and line n / cols, where cols is how many cells the display holds |
| TextLayout.Text.Write | components/Adafruit_GFX_Library/Adafruit_GFX.cpp:1179-1221 | Moves the cursor as `DrawnPen` and draws the character where `DrawnAt` puts it |
| TextLayout.CharBounds | components/Adafruit_GFX_Library/Adafruit_GFX.cpp:1302-1358 | Moves the pen as `MeasuredPen` and stretches the extent by exactly the character's cell |
| TextLayout.GetTextBounds | components/Adafruit_GFX_Library/Adafruit_GFX.cpp:1372-1393 | Reports the box of the extent over all cells |
| TextLayout.ExtentTight | components/Adafruit_GFX_Library/Adafruit_GFX.cpp:1380-1392 | Each side of the extent is its starting value or touches a cell |
| TextLayout.TextBoxTight | components/Adafruit_GFX_Library/Adafruit_GFX.cpp:1372-1393 | Each side of the reported box touches a measured cell or is the display edge that the search starts from; an empty box is where the text begins |
| TextLayout.PensAgreeExactly | components/Adafruit_GFX_Library/Adafruit_GFX.cpp:1179-1358 | Measuring moves the pen exactly as drawing moves the cursor, after every prefix, if and only if no blank glyph stands where it would be wrapped |
| TextLayout.StylesAgreeExactly | components/Adafruit_GFX_Library/Adafruit_GFX.cpp:1179-1358 | The pens agree on every string from every position if and only if wrapping is off or no glyph is blank; with the classic font always |
| TextLayout.BlankWrapDiffers | components/Adafruit_GFX_Library/Adafruit_GFX.cpp:1199-1210 | On a display ten pixels wide, with the font and style of `NARROW`, a blank at (11, 0) takes the measured pen to (4, 8) and the drawn one to (15, 0) |
| TextLayout.TextEscapesBox | components/Adafruit_GFX_Library/Adafruit_GFX.cpp:1372-1393 | With that font a text of three characters at (11, 0) draws pixel (7, 8), while getTextBounds reports columns 0 to 6 |
| TextLayout.WriteString | components/Adafruit_GFX_Library/Adafruit_GFX.cpp:1179-1221 | A string of writes draws the concatenation of its characters, each where the cursor stands then |
| TextLayout.TextStaysInBox | components/Adafruit_GFX_Library/Adafruit_GFX.cpp:1372-1393 | Every rectangle that drawing a string writes is inside the box getTextBounds reports for it, given that condition |
| TextLayout.NoBlankWrapStays | components/Adafruit_GFX_Library/Adafruit_GFX.cpp:1372-1393 | With wrapping off, or without blank glyphs as in the classic font, every string stays inside its box, from every position |
| DmaFill.Spitft.constructor | components/Adafruit_GFX_Library/Adafruit_SPITFT.cpp:657-683 | For every screen whose longer side is below 32767: the buffer holds two scanlines, a multiple of four words, and the descriptors suffice for a full screen in chunks of it |
| DmaFill.BufferLengthExactly | components/Adafruit_GFX_Library/Adafruit_SPITFT.cpp:661-663 | The 16-bit buffer length is zero, which the next statement divides by, exactly for a longer side of 32767; it is at most 32767 otherwise exactly up to 16382 |
| DmaFill.ChunksExact | components/Adafruit_GFX_Library/Adafruit_SPITFT.cpp:1145-1153 | The computed number of descriptors is exactly the number of non-empty chunks |
| DmaFill.ChunkCountMonotone | components/Adafruit_GFX_Library/Adafruit_SPITFT.cpp:1141-1145 | Fewer pixels in larger chunks never need more descriptors than were allocated |
| DmaFill.Spitft.BuildChain | components/Adafruit_GFX_Library/Adafruit_SPITFT.cpp:1146-1154 | The loop builds the finished chain, ended properly; with chunks of at most 32767 pixels no byte count is truncated by its 16-bit register |
| DmaFill.ChainSends | components/Adafruit_GFX_Library/Adafruit_SPITFT.cpp:1145-1154 | Walking a chain from any descriptor on sends exactly what the chunks before it left |
| DmaFill.Spitft.FillCache | components/Adafruit_GFX_Library/Adafruit_SPITFT.cpp:1161-1181 | Afterwards the cache holds enough pixels of the colour, and still every cached word is the swapped last colour |
| DmaFill.CachedSends | components/Adafruit_GFX_Library/Adafruit_SPITFT.cpp:1183-1193 | A chain over the cache, in chunks of at most 32767 pixels, sends len copies of the high and low byte |
| DmaFill.LongChunkLoses | components/Adafruit_GFX_Library/Adafruit_SPITFT.cpp:1184-1190 | A chain whose chunks are longer than 32767 pixels sends fewer bytes than it was built for |
| DmaFill.Spitft.RoomForScreen | components/Adafruit_GFX_Library/Adafruit_SPITFT.cpp:1141-1145 | With a buffer of at most 32767 pixels the allocated descriptors suffice for chunks of 32767, for any run up to a full screen |
| DmaFill.Spitft.WriteColor | components/Adafruit_GFX_Library/Adafruit_SPITFT.cpp:1106-1224 | Keeps the cache invariant, and sends exactly len copies of (hi, lo), whatever was sent before, if and only if the two bytes are equal or a chunk is at most 32767 pixels |
| DmaFill.WriteColorFails | components/Adafruit_GFX_Library/Adafruit_SPITFT.cpp:1166-1210 | The failing input: filling a screen of 20000 by 2 pixels with 0x1234 |
| DmaFill.TwoDescriptorsExactly | components/Adafruit_GFX_Library/Adafruit_SPITFT.cpp:675-676 | A second descriptor is allocated if and only if the screen has more pixels than the buffer; all little-endian writes of up to a screen have the descriptors they alternate between if and only if, otherwise, the screen fits half the buffer |
| DmaFill.EveryHalfExactly | components/Adafruit_GFX_Library/Adafruit_SPITFT.cpp:997-1027 | A write has every descriptor it alternates between if and only if it is empty, there are two, or there is one and a single span |
| DmaFill.ScreenLacksDescriptor | components/Adafruit_GFX_Library/Adafruit_SPITFT.cpp:675-676 | The failing input: a screen of 10 by 2 pixels has one descriptor, and writing it whole needs two |
| DmaFill.Spitft.WritePixels | components/Adafruit_GFX_Library/Adafruit_SPITFT.cpp:977-1069 | Sends the pixels in order, swapped unless big-endian, and forgets the cache, whenever the descriptors it uses exist |
| DmaFill.HighByteFirst | components/Adafruit_GFX_Library/Adafruit_SPITFT.cpp:977-1224 | Swapped or repeated pixels go out high byte first, unswapped ones in the order of memory |
| DmaFill.Spitft.WriteSwapped | components/Adafruit_GFX_Library/Adafruit_SPITFT.cpp:997-1027 | The alternating halves together send all pixels byte-swapped, in order |
| PingPong.RunKeepsInv | components/Adafruit_GFX_Library/Adafruit_SPITFT.cpp:988-1027 | In every interleaving of the CPU and the DMA engine that starts safely, the engine owns the other half and the bytes sent and pending are the pixels launched so far |
| PingPong.SafeExactly | components/Adafruit_GFX_Library/Adafruit_SPITFT.cpp:998-1022 | No interleaving writes the half or the descriptor being read, if and only if no transfer out of the first half is in flight on entry |
| PingPong.SentInOrder | components/Adafruit_GFX_Library/Adafruit_SPITFT.cpp:988-1063 | On return the bytes sent and pending are those of before followed by all pixels, swapped, in order; nothing is pending after a blocking call |
| PingPong.NoDeadlock | components/Adafruit_GFX_Library/Adafruit_SPITFT.cpp:1017-1059 | Until the call has returned and the engine is idle, some step changes the state |
| PingPong.StepsEnd | components/Adafruit_GFX_Library/Adafruit_SPITFT.cpp:997-1069 | Every step other than waiting decreases a well-founded order of pixels left, CPU and engine: the call and its transfers end in every interleaving |
| PingPong.Overlaps | components/Adafruit_GFX_Library/Adafruit_SPITFT.cpp:997-1069 | The CPU fills the next half while the engine still reads the other, and a call that is not blocking returns meanwhile |
| Characteristic.BLEValue.AddPart | components/BLE/BLEValue.cpp:43-46 | Appends to the queue and changes nothing else |
| Characteristic.BLEValue.Commit | components/BLE/BLEValue.cpp:65-74 | The value becomes the queue unless that is empty; the queue is emptied and the read offset reset |
| Characteristic.BLEValue.Cancel | components/BLE/BLEValue.cpp:52-56 | Empties the queue, resets the read offset and keeps the value |
| Characteristic.BLEValue.SetValue | components/BLE/BLEValue.cpp:134-136 | Replaces the value and keeps the queue and the read offset |
| Characteristic.BLECharacteristic.AnswerRead | components/BLE/BLECharacteristic.cpp:364-409 | The reply and the new read offset for a first and for a follow-on read, at any MTU and in uint16 and size_t arithmetic |
| Characteristic.ChunkFits | components/BLE/BLECharacteristic.cpp:364-409 | No reply to a read carries as many bytes as the MTU, or more than 512 |
| Characteristic.FirstReadAnswered | components/BLE/BLECharacteristic.cpp:389-409 | A first read sends value[..min(|value|, mtu - 1, 512)], and sets the read offset to that length if it is all that fits, and leaves it otherwise |
| Characteristic.FollowOnAnswered | components/BLE/BLECharacteristic.cpp:372-388 | A follow-on read sends as much of the rest; a full reply moves the offset on modulo 2^16, a shorter one resets it; beyond the value it is a full reply of other memory |
| Characteristic.WhenAnswered | components/BLE/BLECharacteristic.cpp:232-409 | A write is answered if and only if it is for this handle and asks for it, with its own offset and data; an execute or cancel always; a read if and only if it is for this handle and asks for it |
| Characteristic.OffsetMoves | components/BLE/BLECharacteristic.cpp:232-409 | Only answered reads move the read offset anywhere but to 0 |
| Characteristic.BLECharacteristic.HandleEvent | components/BLE/BLECharacteristic.cpp:205-428 | One event changes the stored value, the queue and the offset, and is answered, as the abstract step says, for every event and handle; a value that an onRead or onWrite callback sets is an event next to the callback's own |
| Characteristic.BLECharacteristic.SetValue | components/BLE/BLECharacteristic.cpp:663-673 | Takes a value of up to the attribute limit and refuses a longer one |
| Characteristic.QueueSinceFlush | components/BLE/BLECharacteristic.cpp:232-291 | After any history the queue holds the parts prepared since the last execute or cancel, in arrival order |
| Characteristic.ExecuteAndCancel | components/BLE/BLECharacteristic.cpp:232-240 | After any history, execute sets the value to those parts and resets queue and read offset, or changes nothing when there are none; cancel keeps the value and resets both |
| Characteristic.ValueOfHistory | components/BLE/BLECharacteristic.cpp:232-291 | After any history the value is the last accepted one of a plain write or of the application, or what the last execute with anything queued found queued, whichever came later |
| Characteristic.LongReadDelivers | components/BLE/BLECharacteristic.cpp:337-409 | With m = min(mtu - 1, 512), a read and follow-on reads have ended with a short reply and delivered the whole value, in |value| / m + 1 replies, if and only if there were |value| / m follow-on reads and the last one starts below 2^16, whatever events that leave the value alone come between; past that bound the replies that end short are never the value |
| Characteristic.LongReadsExactly | components/BLE/BLECharacteristic.cpp:372-388 | The same for follow-on reads from any read offset on, and the rest of the value |
| Characteristic.LongReadEndless | components/BLE/BLECharacteristic.cpp:285-388 | The failing input: after 129 prepared writes of 512 bytes and an execute, reads in parts of 512 bytes never end with a short reply |
| Characteristic.OffsetWithinValue | components/BLE/BLECharacteristic.cpp:282-409 | Over any whole history the read offset never leaves the value if and only if no accepted plain write, or value set by the application, is shorter than what has been read when it arrives |
| Characteristic.OverreadExactly | components/BLE/BLECharacteristic.cpp:375-379 | At no point of a history could a read be answered from outside the value, if and only if the history contains no such write |
| Characteristic.PlainWriteDisturbs | components/BLE/BLEValue.cpp:134-136 | A history of three events that leaves the offset at 22 and a value of one byte |
| Uuid.Memrcpy | components/BLE/BLEUUID.cpp:42-51 | The target holds the source reversed |
| Uuid.BLEUUID.FromBytes | components/BLE/BLEUUID.cpp:128-140 | Sixteen bytes in either order, stored least significant first |
| Uuid.BLEUUID.To128 | components/BLE/BLEUUID.cpp:298-343 | Widens in place to the 128-bit form `Full` |
| Uuid.LittleEndian | components/BLE/BLEAdvertising.cpp:276-276 | Numbers survive being taken apart into little-endian bytes |
| Uuid.PaddedIsFixed | components/BLE/BLEUUID.cpp:371-388 | The shortest hexadecimal form padded with zeros is the fixed-width form, for every number that fits |
| Uuid.TextRoundTrip | components/BLE/BLEUUID.cpp:88-112 | Reading the text of a 128-bit UUID, dashes included, gives its sixteen bytes back |
| Uuid.TextIsFull | components/BLE/BLEUUID.cpp:358-408 | All three widths print as their 128-bit form does |
| Uuid.StandardText | components/BLE/BLEUUID.cpp:358-400 | The text is lower case, most significant byte first, in the Bluetooth base UUID |
| Uuid.DigitsRead | components/BLE/BLEUUID.cpp:89-96 | Hexadecimal digits are read in both cases, and no other character is one |
| Uuid.PrintedReadsBack | components/BLE/BLEUUID.cpp:71-118 | A set UUID of any width, printed and read back, is its 128-bit form |
| Uuid.FullInjective | components/BLE/BLEUUID.cpp:235-243 | At one width, equal 128-bit forms come from equal values |
| Uuid.EqualsIsFull | components/BLE/BLEUUID.cpp:225-244 | Two UUIDs of any widths are equal exactly when both are set and their 128-bit forms are the same |
| Advertising.BLEAdvertisementData.AddData | components/BLE/BLEAdvertising.cpp:257-262 | Appends the whole record, or nothing when 31 bytes would be exceeded |
| Advertising.BLEAdvertisementData.SetAppearance | components/BLE/BLEAdvertising.cpp:272-277 | Adds the length-type-value record of its argument, or nothing |
| Advertising.BLEAdvertisementData.SetCompleteServices | components/BLE/BLEAdvertising.cpp:284-314 | The same, by the width of the UUID; nothing for an unset one |
| Advertising.BLEAdvertisementData.SetPartialServices | components/BLE/BLEAdvertising.cpp:370-400 | The same with the partial types |
| Advertising.BLEAdvertisementData.SetFlags | components/BLE/BLEAdvertising.cpp:328-334 | Adds the flags record, or nothing |
| Advertising.BLEAdvertisementData.SetManufacturerData | components/BLE/BLEAdvertising.cpp:342-349 | Adds the data with a length byte that counts type and data, or nothing |
| Advertising.BLEAdvertisementData.SetName | components/BLE/BLEAdvertising.cpp:356-363 | The same for the complete name |
| Advertising.BLEAdvertisementData.SetShortName | components/BLE/BLEAdvertising.cpp:445-452 | The same for the short name |
| Advertising.BLEAdvertisementData.SetServiceData | components/BLE/BLEAdvertising.cpp:408-438 | The same for the UUID, at its width, followed by the data |
| Advertising.PayloadIsRecords | components/BLE/BLEAdvertising.cpp:257-452 | After any run of setters the payload is the concatenation of the accepted records, each well formed, and at most 31 bytes |
| Advertising.OnTheWire | components/BLE/BLEAdvertising.cpp:257-452 | The length, type and data bytes of every setter, written out: complete lists have types 3, 5, 7 and partial ones 2, 4, 6, the short name 8 |
| Advertising.BLEAdvertisedDevice.HandleRecord | components/BLE/BLEAdvertisedDevice.cpp:254-350 | What the switch does to the fields for each record type; `RecordRead` says what that means |
| Advertising.RecordRead | components/BLE/BLEAdvertisedDevice.cpp:254-350 | A record tells exactly what its type is about, as its bytes spell it out, and leaves every other field as it was |
| Advertising.AllLearned | components/BLE/BLEAdvertisedDevice.cpp:232-359 | After any readable records each field holds what the last record about it said and is known if there was one or it was known before; services are those of all list records, in order |
| Advertising.BLEAdvertisedDevice.ParseAdvertisement | components/BLE/BLEAdvertisedDevice.cpp:232-359 | On the zero-padded form of any readable records the parser terminates, stays inside the 31 bytes and handles exactly the records up to the first without data; each field then holds what the last of them about it said |
| Advertising.HandleOfAd | components/BLE/BLEAdvertisedDevice.cpp:254-350 | Reading the record of a setter has the effect the setter is meant to have, if and only if it is not service data without data for a device that holds some |
| Advertising.AdvertisementRoundTrip | components/BLE/BLEAdvertisedDevice.cpp:232-359 | Any run of setters gives a payload the parser may be called on; parsing it has the meant effect of the accepted setters up to the first without data, if and only if the last service data among them has data or none was held or set before |
| Advertising.Advertise | components/BLE/BLEAdvertisedDevice.cpp:232-359 | The same on the code: setters, padding and parser, one after another, on any device |
| Advertising.EmptyServiceDataStale | components/BLE/BLEAdvertisedDevice.cpp:307-318 | Two service-data setters, the second with a UUID only, leave its UUID with the data of the first |
| Advertising.AllSeenExactly | components/BLE/BLEAdvertisedDevice.cpp:355-357 | Nothing is lost exactly when no setter but the last has empty data |
| Advertising.EmptyNameHidesFlags | components/BLE/BLEAdvertisedDevice.cpp:244-357 | An empty name hides the flags record behind it |
| Advertising.LastWins | components/BLE/BLEAdvertisedDevice.cpp:371-472 | A device that has read a run knows the last setter it sees of each field, and every service, if and only if that setter is not service data without data after some was held or set |
| Advertising.ServicesInOrder | components/BLE/BLEAdvertisedDevice.cpp:448-452 | The services a device learns are those of the setters it sees, in the order in which they were set |
| Advertising.BLEAdvertisedDevice.IsAdvertisingService | components/BLE/BLEAdvertisedDevice.cpp:139-145 | True exactly when the UUID is set and has the 128-bit form of a service of the device |
| Advertising.AdvertisesExactly | components/BLE/BLEAdvertisedDevice.cpp:139-145 | A device that has read a run answers for exactly the services of the setters it sees, in whatever width they are asked for |
| Base64.LookupLetter | components/BLE/GeneralUtils.cpp:149-156 | Looking a letter of the alphabet up gives its number, and no letter is the padding character |
| Base64.StandardAlphabet | components/BLE/GeneralUtils.cpp:26-29 | The letters and the padding character are those of RFC 4648 |
| Base64.LookupExactly | components/BLE/GeneralUtils.cpp:149-156 | Exactly the letters are looked up, everything else gives 255 |
| Base64.A3ToA4 | components/BLE/GeneralUtils.cpp:40-45 | The masks and shifts give the four 6-bit groups of the 24-bit group |
| Base64.A4ToA3 | components/BLE/GeneralUtils.cpp:48-52 | The three bytes of four looked-up characters, truncated to eight bits |
| Base64.TripleBack | components/BLE/GeneralUtils.cpp:40-52 | Splitting and joining gives the bytes back, with one or two groups missing as well |
| Base64.LengthOfGroups | components/BLE/GeneralUtils.cpp:30-32 | Four characters for each group of three bytes begun |
| Base64.Base64Encode | components/BLE/GeneralUtils.cpp:60-97 | Returns true, writes exactly the allocated characters, and they are the padded encoding of the input |
| Base64.QuadValue | components/BLE/GeneralUtils.cpp:40-45 | The four letters are the digits in base 64 of the three bytes as one number |
| Base64.StandardVectors | components/BLE/GeneralUtils.cpp:60-97 | The test vectors of RFC 4648 |
| Base64.DecodedLength | components/BLE/GeneralUtils.cpp:138-146 | Three quarters of the length less the trailing padding, for inputs that are not all padding |
| Base64.Base64Decode | components/BLE/GeneralUtils.cpp:164-213 | On every input that stays in bounds: the decoding of the characters before the padding, and true exactly when it fills the computed length |
| Base64.DecodedUnpadded | components/BLE/GeneralUtils.cpp:60-213 | Decoding undoes encoding |
| Base64.Base64RoundTrip | components/BLE/GeneralUtils.cpp:60-213 | The encoding of any non-empty string is in bounds for the decoder, which returns true and the original bytes, filling exactly the computed length |
| Base64.InBoundsExactly | components/BLE/GeneralUtils.cpp:138-146 | The decoder may be called on an encoding exactly when the original is not empty |
| StreamSearch.Stream.TimedRead | components/ESP_lib_arduino/Stream.cpp:31-42 | The next character, or -1 when nothing arrives any more |
| StreamSearch.Stream.FindUntil | components/ESP_lib_arduino/Stream.cpp:111-142 | The answer and the characters consumed are those of the abstract scan; a null target is found at once |
| StreamSearch.ScanSound | components/ESP_lib_arduino/Stream.cpp:120-140 | A successful search has just read the target, a terminated one has just read the terminator |
| StreamSearch.ScanComplete | components/ESP_lib_arduino/Stream.cpp:120-140 | With or without a terminator, for a restartable target no occurrence ends before the search does |
| StreamSearch.FindsFirstExactly | components/ESP_lib_arduino/Stream.cpp:111-142 | Without a terminator the search stops right behind the first occurrence in every NUL-free stream, if and only if wherever a matched part ends in a shorter matched part both continue with the same character |
| StreamSearch.BorderLost | components/ESP_lib_arduino/Stream.cpp:122-124 | Any target without that property has a stream in which its only occurrence is missed |
| StreamSearch.DistinctFirst | components/ESP_lib_arduino/Stream.cpp:122-126 | A target whose first character does not recur has the property |
| StreamSearch.AabInAaab | components/ESP_lib_arduino/Stream.cpp:122-126 | aab is missed in aaab |
| StreamSearch.StopsExactly | components/ESP_lib_arduino/Stream.cpp:132-138 | No search, for any target in any NUL-free stream, reads past an occurrence of the terminator, if and only if all characters of the terminator are equal |
| StreamSearch.TerminatorLost | components/ESP_lib_arduino/Stream.cpp:132-138 | Any other terminator has a stream in which its only occurrence is read over |
| StreamSearch.FirstOfBoth | components/ESP_lib_arduino/Stream.cpp:111-142 | For a restartable target and such a terminator the search stops where the first of the two ends, and succeeds if and only if the target occurs with no terminator ending before it |
| StreamSearch.NulStops | components/ESP_lib_arduino/Stream.cpp:120-120 | A NUL ends the search, right behind it |
| StreamSearch.AbInAab | components/ESP_lib_arduino/Stream.cpp:132-138 | The terminator ab is read over in aab, and found in cab |
| Calendar.Breakdown | components/DS3231/DS3231.cpp:110-134 | The year and month loops end with the valid date whose day count is the given number, for every number |
| Calendar.MonthLoop | components/DS3231/DS3231.cpp:121-132 | The month and the day within it, for every day of a year |
| Calendar.CountInjective | components/DS3231/DS3231.cpp:93-137 | Different valid dates have different day counts |
| Calendar.Date2Days | components/DS3231/DS3231.cpp:1079-1093 | The loop adds up `DriverCount`, modulo 2^16 |
| Calendar.DriverCountExactly | components/DS3231/DS3231.cpp:1079-1093 | It equals the day count in common years and in January, and only there; it is one too large in a leap-year February and one too small from March on |
| Calendar.BcdRoundTrip | components/DS3231/DS3231.cpp:928-934 | The BCD conversions are inverse exactly below 160 |
| Calendar.BcdIs | components/DS3231/DS3231.cpp:928-934 | Two decimal digits are the two hexadecimal digits of the register |
| Calendar.DS3231.SetDateTime | components/DS3231/DS3231.cpp:93-137 | Stores in the registers a valid date with the day count of the time, its weekday, and its hour, minute and second |
| Calendar.EpochIs | components/DS3231/DS3231.cpp:93-94 | The count starts at midnight of 1 January 2000, 10957 days after the Unix epoch, one hour east of Greenwich |
| Calendar.DS3231.GetDateTime | components/DS3231/DS3231.cpp:401-437 | Reads the registers back |
| Calendar.RegistersReadBack | components/DS3231/DS3231.cpp:928-934 | Every date that a 32-bit time can give, with its weekday, survives the registers |
| Calendar.RegisterLayout | components/DS3231/DS3231.cpp:66-73 | Register 0 holds the seconds, then minutes, hours, weekday, day, month and year, a digit in each half |
| Calendar.DS3231.Unixtime | components/DS3231/DS3231.cpp:1095-1103 | The seconds of the driver's day count and the time of day, modulo 2^32 |
| Calendar.ElapsedFitsExactly | components/DS3231/DS3231.cpp:1048-1051 | The signed long of time2long holds these seconds if and only if, with the error of the day count, fewer than 2^31 have passed since 2000 |
| Calendar.UnixtimeOffBy | components/DS3231/DS3231.cpp:1095-1103 | The time comes back with whole days of error, given exactly, and unchanged exactly in common years and in January |
| Calendar.SetThenUnixtime | components/DS3231/DS3231.cpp:93-137 | Setting the clock, reading it and computing the Unix time: the composition of the above, for every 32-bit time, with the weekday right until February 2100 |
| Calendar.DowFollowsCount | components/DS3231/DS3231.cpp:1115-1127 | The weekday follows the day count exactly until the end of February 2100, and runs one behind it from then on |
| Tracks.Player.ReadCb | main/play_mp3.c:52-64 | Delivers the next bytes of the loaded track and advances the position; done exactly at its end |
| Tracks.Player.StartMusic | main/play_mp3.c:75-90 | Loads the track at position 0 |
| Tracks.Player.PauseMusicPlaying | main/play_mp3.c:92-102 | Saves the position of the playing track and pauses |
| Tracks.Player.ResumeMusic | main/play_mp3.c:104-132 | Loads the other track where it was left; nothing happens for the playing one, which stays paused |
| Tracks.RunKeepsInv | main/play_mp3.c:52-132 | Every legal run keeps the invariant that each track has delivered exactly its bytes up to where it goes on |
| Tracks.TracksGapFree | main/play_mp3.c:52-132 | From the start of the ring on, both tracks are delivered without gap or repetition, the position stays in the track, and the state names the track being read |
| Tracks.ResumeExactly | main/play_mp3.c:104-132 | Switching keeps this exactly when the position of the current track has been saved |
| Tracks.StaleResumeRepeats | main/play_mp3.c:104-132 | Switching without a pause makes a track repeat bytes |
| Tracks.ReadDelivers | main/play_mp3.c:52-64 | A read while nothing is paused is legal and delivers exactly the next n bytes of the loaded track, or what is left of it |
| Tracks.StartPlays | main/play_mp3.c:75-90 | Starting a track makes it play from its first byte, from any state |
| Tracks.ResumePlays | main/play_mp3.c:104-132 | Switching to the other track makes it play, from where it was left |
| Tracks.PauseStops | main/play_mp3.c:92-132 | A pause stops all reads; resuming the same track does not undo it, switching to the other one does |
| Tracks.EveryTrackFinishes | main/play_mp3.c:52-132 | From every reachable state some legal run delivers the whole of either track |
| SharedCounter.ExecKeepsInv | main/main.cpp:204-250 | Every interleaving at single loads and stores keeps the invariant |
| SharedCounter.CounterBounds | main/main.cpp:204-250 | buffer_status is always in [-1, 5], at least 0 while the decrement task is outside its update block, at most 4 while the button task is outside its, and completion needs 21 counted presses |
| SharedCounter.BlockSaturates | main/main.cpp:207-222 | An update block without interference is a saturating step |
| SharedCounter.SerialSaturates | main/main.cpp:207-222 | Blocks that do not overlap make a saturating counter on 0..4 that counts every press |
| SharedCounter.ControlCompletes | main/main.cpp:228-250 | In any state, the control task completes within three turns if and only if more than 20 presses are counted, and waits while the counter is 0 |
| SharedCounter.SerialCompletes | main/main.cpp:204-250 | Undisturbed updates lead it to completion if and only if they contain 21 presses and leave the counter above 0 |
| SharedCounter.TwentyOnePresses | main/main.cpp:204-250 | n presses alone complete it if and only if n is at least 21 |
| SharedCounter.OverlapLosesUpdate | main/main.cpp:207-222 | Overlapping blocks lose a press or a decrement |

## Left out

- Ssd1306.Display.constructor: allocation failure, the splash screen and the transfer to the panel are not modelled; colours other than BLACK, WHITE and INVERSE are not either, since whole bytes and masked bytes treat them differently.
- Circle.FillCircle: centre and radius are unbounded integers; the int16 limits of the decision variables are proved in `MidpointInt16`, those of the coordinates in `FillCircleOn`.
- Fills.FillCircleOn: negative radii, and radii above 16383, whose decision variables overflow, are not modelled; below, `InFilledCircle` gives radius 0 the one pixel it draws.
- Fills.FillRectOn: rectangles whose loop never ends (`FillRectExactly`) are outside its precondition.
- Triangle.RowsExactly: triangles higher than 32767 rows, or with a used x difference outside int16, are not covered; some of them are still drawn exactly, such as narrow ones of two rows, whose edges are only evaluated at their ends.
- TextLayout.CharBounds: pens are unbounded integers; characters are unsigned, as on the target.
- TextLayout.TextStaysInBox: the condition is sufficient; a text with a wrapped blank can still stay in its box, when what follows the blank happens to be measured as wide as it is drawn.
- DmaFill.Spitft.constructor: allocation failure is not modelled.
- DmaFill.Spitft.WriteColor: runs longer than a screen, and runs of equal bytes or big-endian pixels that need more descriptors than were allocated, write behind the descriptor list; a non-blocking transfer still running on entry is treated by `PingPong` for the pixel branch only.
- PingPong.SafeExactly: the CPU and the engine interleave at statements and bytes; reordering by the processor is not modelled.
- Characteristic.BLECharacteristic.HandleEvent: notification is not modelled; what the onRead and onWrite callbacks set appears as `Set` events next to theirs.
- Uuid.PrintedReadsBack: a 36-character string that does not match the format leaves indeterminate bytes in the source; the model has no value for it. Binary strings of 2 and 4 characters and `fromString` are not modelled.
- Advertising.BLEAdvertisedDevice.ParseAdvertisement: payloads that are not the padded form of readable records, where the source reads beyond a record, are outside its precondition.
- Base64.Base64Decode: inputs on which the source reads in front of its input or writes behind its output are outside its precondition `InBounds`.
- Tracks.Player.ReadCb: `start_ring_alarm`, which moves the position without naming the track, and the audio pipeline are not modelled; the pipeline is a paused flag.
- SharedCounter.CounterBounds: the tasks are a state machine of their loads and stores, not loops over shared variables; delays and priorities only choose the interleaving, and the press count is unbounded.
- Calendar.DS3231.Unixtime: from 2^31 seconds on the signed long of the source overflows, which C leaves undefined; the model wraps.
- Calendar.DS3231.SetDateTime: bus transfers and the register pointer byte are not modelled; alarms, formatting and the other setters are not either.
- Generic lines, bitmaps, rounded outlines and canvases of the graphics library: same rasterisers, or one loop around a pixel.
- SPI, I2C, pin and timer set-up, sockets, storage, tables, logging: foreign calls or data.
