# Verified models of an Arduino library collection

The collection holds drivers and, between them, several self-contained algorithms and data structures.
This project models those and proves what their clients rely on:

- **Stash** (`StashModel`, `StashSafety`, `StashStreams`, `StashRuns`, `Stash`): byte streams stored in
  64-byte pages of an Ethernet chip's memory, with a bitmap of free pages, linked page chains, a write-back
  buffer and a read buffer. The classes `Store` and `Stash` rewrite arrays in place; each method is tied to an
  operation on memory values, and the invariant, whole-run and round-trip theorems are about those.
- **Template formatter** (`TemplateText`, `Template`, `CStrings`): `prepare`, `length`, `extract` and `cleanup`,
  which record a format on scratch page 0 and expand it lazily, window by window.
- **Display** (`Display`): the SSD1306 frame buffer; line blitters that write eight rows at a time under masks,
  proved equal to drawing pixel by pixel under every rotation and clipping.
- **Rasterisers** (`Graphics`, `Circle`, `Line`, `Triangle`): midpoint circle, Bresenham line, scanline triangle.
- **NDEF and Mifare Classic** (`Ndef`, `NdefMessage`, `TagLayout`, `MifareClassic`): record codec, TLV wrapping and
  the walk over a card's data blocks.
- **Calendar and alarms** (`Calendar`, `Alarms`): `breakTime`/`makeTime` on all 32-bit times, and a table of six alarms.
- **Checksums** (`Checksum`): three ones'-complement implementations (RFC 1071, sections 1 and 2) and the incremental
  ICMP update (RFC 1624, section 3).
- **URL codec** (`UrlCodec`): encoding, and decoding in place.

`Machine` and `Bits` hold integer widths and bit facts. `dafny verify dfyconfig.toml` checks everything.

## Findings

Where the code does not do what its description suggests, the model follows the code and the exact condition is proved.

- `length()` counts stash bytes in 16 bits, `extract` stops an inserted stash at its first zero byte. The
  length is right exactly if the text is shorter than 65536 and the bytes cut at zeros are a multiple of 65536
  (`TemplateText.RecordedLengthIsExact`, `ZeroByteIsCounted`, `LongTextOverflows`, `ZerosMakeUpForTheOverflow`).
- The circle's last octant point, one column past the diagonal, is not the nearest row exactly when
  r^2 = 2x^2 - 3x + 2 for some x of at least 2, first at r = 2 (`Circle.NearestIffNoOvershoot`).
- NDEF records are written type, payload, id and read type, id, payload, so ids survive only when they commute with
  the payload (`Ndef.RoundTripIsExactIff`, `Ndef.IdIsMoved`). Payload lengths are written in 16 bits, type and id
  lengths in 8 (`Ndef.OnlyExpressibleRecordsKeepShape`, `Ndef.LongTypeIsLost`).
  Encoding an empty message cannot be undone (`Ndef.EmptyMessageIsMisread`). Nothing else goes wrong with a whole
  message (`Ndef.MessageIsExactIff`).
- A daily or weekly alarm whose value leads the clock by more than its period skips earlier occurrences
  (`Alarms.DailyNextOccurrence`, `Alarms.WeeklyNextOccurrence`, `Alarms.OccurrenceIsSkipped`).
- The ICMP echo reply loses a carry for one pattern of request checksums (`Checksum.EchoReplyVerifies`, `Checksum.CarryIsLost`).
- `fetchByte` trusts a read buffer that puts have made stale, so `size()` of an unsaved stash, which
  `stashTest.ino` prints, is 0 exactly while its only page sits in the read buffer alone
  (`StashStreams.FetchReadsLogical`, `SizeCounts`, `UnsavedSizeIsLost`). All other reads are right under the protocol
  of `StashRuns.Allowed`: no opening or getting between the puts of a stash and its save.
- `mifareclassic_WriteDataBlock` takes any reply for success, so `MifareClassic::write` reports success for blocks the
  card refused; the message is then read back exactly if each refused block already held its part
  (`TagLayout.WriteIsReadBackIff`, `TagLayout.RefusalGoesUnnoticed`). On a 4K card whose sector 0 opens with the NDEF
  key it also reports success for messages of any length (`TagLayout.OpenCardAlwaysAnswers`). From the 215th block on
  it may overwrite blocks 1 to 3, and from the 232nd on the trailers of sectors 4, 8, ..., 28, where keys are kept;
  for each the exact condition is proved, and all other trailers are safe at any length
  (`TagLayout.WriteSparesSectorZeroIff`, `WriteSparesTrailerIff`, `WriteSparesTheOthers`, `TrailerIsOverwritten`,
  `SectorZeroIsOverwritten`).
- `urlDecode` of a string that ends in a cut escape goes on decoding behind the terminator
  (`UrlCodec.StopsAtTheTerminatorIff`, `UrlCodec.CutEscapeReadsOn`).

## Model

| member | source | states |
|---|---|---|
| `StashRuns.RoundTrip` | _libraries/ethercard/EtherCard.cpp:72-133 | from every reachable state with enough free pages, create, put of every byte, save and open give a handle from which get returns exactly those bytes and then 0, and size is their number, across all page boundaries |
| `StashRuns.EveryRunIsSafe` | _libraries/ethercard/EtherCard.cpp:21-133 | start-up state and every state any allowed sequence of operations reaches: free pages and the chains of live stashes partition pages 1..55, chains are acyclic and disjoint, no buffer a reader trusts is stale |
| `StashRuns.StepKeepsInv` | _libraries/ethercard/EtherCard.cpp:47-133 | each of create, put, save, open, get, the scratch-page accesses and release keeps that invariant |
| `StashRuns.RunsKeepStreamsApart` | _libraries/ethercard/EtherCard.cpp:72-129 | over any run the pages of a stash hold what they held before followed by exactly the bytes put into it, whatever is done to other stashes in between |
| `StashRuns.PutAllAppends` | _libraries/ethercard/EtherCard.cpp:104-117 | a run of puts that fits in the free pages appends all its bytes and never indexes outside the write buffer |
| `StashSafety.LoadKeepsLogical` | _libraries/ethercard/EtherCard.cpp:47-61 | moving either buffer never changes the logical page store (chip with the write buffer laid over it), and the write buffer then holds the logical page |
| `StashSafety.WriteLogical` | _libraries/ethercard/EtherCard.cpp:104-117 | a store into the write buffer changes one byte of one logical page |
| `StashSafety.CreateKeepsInv` | _libraries/ethercard/EtherCard.cpp:72-80 | create takes one free page for an empty stash and disturbs no other |
| `StashSafety.CreateWithoutFreePage` | _libraries/ethercard/EtherCard.cpp:72-80 | with no page free, create returns 0 and only scribbles on page 0 |
| `StashSafety.PutKeepsInv` | _libraries/ethercard/EtherCard.cpp:104-117 | put appends one byte to its stash, taking a free page exactly when byte 62 fills the last page, and disturbs no other stash |
| `StashStreams.SaveKeepsInv` | _libraries/ethercard/EtherCard.cpp:90-95 | save writes the header through, forgets a stale read buffer and makes the stash safe to open |
| `StashStreams.OpenReads` | _libraries/ethercard/EtherCard.cpp:82-88 | opening a saved stash gives the handle at its first byte and moves only the read buffer |
| `StashStreams.GetReads` | _libraries/ethercard/EtherCard.cpp:119-129 | each get returns the next byte, 0 for ever after the last, following the page chain |
| `StashStreams.StepCursor` | _libraries/ethercard/EtherCard.h:69-81 | where byte number n of a stash sits: page and offset, byte 62 being data in every page but the last |
| `StashStreams.SizeCounts` | _libraries/ethercard/EtherCard.cpp:131-133 | size is the number of bytes of any live stash, saved or not, if and only if it is not outdated (unsaved, one page, held by the read buffer but not by the write buffer) or is empty; an outdated one has size 0 |
| `StashStreams.UnsavedSizeIsLost` | _libraries/ethercard/EtherCard.cpp:131-133 | create, put a byte, load another page into the write buffer: size falls from 1 to 0, from every state with a free page |
| `StashStreams.ChainIsShort` | _libraries/ethercard/EtherCard.h:56-60 | a chain has at most 55 pages, so the one-byte page count never wraps |
| `StashStreams.FetchReadsLogical` | _libraries/ethercard/EtherCard.cpp:36-40 | the one fetch there is, of the last page's tail, reads the logical store if and only if the stash is not outdated or is empty; the outdated value is the header size |
| `StashStreams.LoadForReading` | _libraries/ethercard/EtherCard.cpp:47-61 | loading a page of a saved stash for reading yields its logical bytes |
| `StashStreams.ReleaseKeepsInv` | _libraries/ethercard/EtherCard.cpp:97-102 | with none of the stash's pages in the write buffer, the chip's links are the chain and release frees exactly that chain |
| `StashStreams.StashInBytes` | _libraries/ethercard/EtherCard.h:54-78 | in numbers: byte n at byte (n+3)%63 of page (n+3)/63; byte 63 links the next page, byte 62 of the last counts its bytes; a saved stash starts with its further pages, first page and last page |
| `StashModel.LeastFrom` | _libraries/ethercard/EtherCard.cpp:21-30 | the allocator's answer is the least free page, 0 only when there is none |
| `Stash.Store.CopyOut` | _libraries/ethercard/enc28j60.cpp:464-470 | a page goes to bytes 0x1200 + 64 * page on if it is one of the 56 and nowhere otherwise; every other byte of the chip is unchanged |
| `Stash.Store.CopyIn` | _libraries/ethercard/enc28j60.cpp:472-478 | a page comes from the chip if it is one of the 56, otherwise the buffer keeps its bytes |
| `Stash.Store.PeekIn` | _libraries/ethercard/enc28j60.cpp:480-488 | one byte of a page on the chip, 0 beyond the last page |
| `Stash.Store.AllocBlock` | _libraries/ethercard/EtherCard.cpp:21-30 | scanning the bitmap byte by byte and bit by bit takes the least free page out of it |
| `Stash.Store.FreeBlock` | _libraries/ethercard/EtherCard.cpp:32-34 | puts one page back into the bitmap |
| `Stash.Store.FetchByte` | _libraries/ethercard/EtherCard.cpp:36-40 | write buffer, then read buffer, then chip |
| `Stash.Store.InitMap` | _libraries/ethercard/EtherCard.cpp:42-45 | frees pages 1 to last-1 |
| `Stash.Store.Load` | _libraries/ethercard/EtherCard.cpp:47-61 | the in-place buffer switch performs the value-level one of which the lemmas speak; packet memory below the scratch pages is never touched |
| `Stash.Store.constructor` | _libraries/ethercard/EtherCard.cpp:18-19 | static storage: bitmap empty before initMap(56), both buffers zeroed |
| `Stash.Store.StartUp` | _libraries/ethercard/EtherCard.cpp:42-45 | zeroed storage and initMap(56): pages 1 to 55 free, both buffers blank and tagged 0 |
| `Stash.Stash.Create` | _libraries/ethercard/EtherCard.cpp:72-80 | the object and the shared storage after create |
| `Stash.Stash.Open` | _libraries/ethercard/EtherCard.cpp:82-88 | the object and the shared storage after open |
| `Stash.Stash.Save` | _libraries/ethercard/EtherCard.cpp:90-95 | the shared storage after save |
| `Stash.Stash.Release` | _libraries/ethercard/EtherCard.cpp:97-102 | following `next` on the chip frees the linked pages and clears `first` |
| `Stash.Stash.Put` | _libraries/ethercard/EtherCard.cpp:104-117 | the object and the shared storage after put |
| `Stash.Stash.Extend` | _libraries/ethercard/EtherCard.cpp:111-116 | the page put links behind a full one |
| `Stash.Stash.Get` | _libraries/ethercard/EtherCard.cpp:119-129 | the object, the shared storage and the byte returned by get |
| `Stash.Stash.Size` | _libraries/ethercard/EtherCard.cpp:131-133 | size from the header's count and the last page's tail, in 16 bits |
| `TemplateText.DecimalReadsBack` | _libraries/ethercard/EtherCard.cpp:135-141 | the digits written for a number denote that number |
| `TemplateText.DecimalHasDigits` | _libraries/ethercard/EtherCard.cpp:135-141 | they are characters 48 to 57, the first not 48 unless the number is 0 |
| `TemplateText.ArgumentText` | _libraries/ethercard/EtherCard.cpp:206-243 | in character codes: 68 prints a number, 83, 70 and 69 a string of RAM, flash and EEPROM, 72 a stash up to its first zero, any other nothing |
| `TemplateText.ExpandsCharacters` | _libraries/ethercard/EtherCard.cpp:200-224 | character 36 and the one behind it stand for the next argument, any other character for itself |
| `TemplateText.UpToZeroCuts` | _libraries/ethercard/EtherCard.cpp:241-244 | what a stash expands to is everything before its first zero byte |
| `TemplateText.MeasureIsExact` | _libraries/ethercard/EtherCard.cpp:143-187 | the measured length, before it is cut to 16 bits, is the length of the expansion plus the stash bytes from a first zero on, which are none if and only if every inserted stash is free of zero bytes |
| `TemplateText.RecordedLengthIsExact` | _libraries/ethercard/EtherCard.cpp:143-192 | what length returns, the measure in 16 bits, is the length of the text if and only if that is below 65536 and a multiple of 65536 stash bytes is cut at zeros; below 65536 measured, if and only if every stash is zero-free; for zero-free stashes, if and only if the measure is below 65536 |
| `TemplateText.ZeroByteIsCounted` | _libraries/ethercard/EtherCard.cpp:143-192 | a saved stash holding one zero byte is counted and not emitted |
| `TemplateText.LongTextOverflows` | _libraries/ethercard/EtherCard.cpp:143-192 | a 2200-character flash string inserted 30 times records 464 for a text of 66000 |
| `TemplateText.ZerosMakeUpForTheOverflow` | _libraries/ethercard/EtherCard.cpp:143-192 | a stash of 2300 zeros inserted 28 times and one of 568 twice measure 65536, and the recorded 0 is right for the empty text |
| `TemplateText.WindowsJoin` | _libraries/ethercard/EtherCard.cpp:194-250 | consecutive windows concatenate, and one window of the full length is the whole text |
| `TemplateText.WrappedWindowIsEmpty` | _libraries/ethercard/EtherCard.cpp:200-200 | a window whose end is past 65535 comes out empty |
| `Template.Wtoa` | _libraries/ethercard/EtherCard.cpp:135-141 | writes the decimal digits and a terminator, touching nothing before them |
| `Template.Prepare` | _libraries/ethercard/EtherCard.cpp:143-187 | scratch page 0 holds total length (16 bits), format and every argument; all stashes are intact |
| `Template.PreparedBytes` | _libraries/ethercard/EtherCard.cpp:143-187 | in bytes: length, format and arguments from byte 0 on, low bytes first |
| `Template.RecordArgs` | _libraries/ethercard/EtherCard.cpp:150-186 | the recording loop: every argument in its word, the running length in word 0 |
| `Template.Length` | _libraries/ethercard/EtherCard.cpp:189-192 | returns the recorded length |
| `Template.NextByte` | _libraries/ethercard/EtherCard.cpp:228-241 | one character of the argument being expanded, 0 exactly when it is used up |
| `Template.NextOfFormat` | _libraries/ethercard/EtherCard.cpp:203-227 | a literal, the start of an argument or the end of the format, with the text still to come accounted for |
| `Template.NextOfArg` | _libraries/ethercard/EtherCard.cpp:228-248 | the next character of the open argument, or a return to the format |
| `Template.Next` | _libraries/ethercard/EtherCard.cpp:200-249 | one turn of the emitting loop makes progress in a lexicographic measure, so extract terminates |
| `Template.Emit` | _libraries/ethercard/EtherCard.cpp:200-249 | the emitting loop writes the window of the text still to come, and ends |
| `Template.Extract` | _libraries/ethercard/EtherCard.cpp:194-250 | emits exactly the requested window of the expansion and leaves every stash and all free pages alone |
| `Template.ReleaseSeveral` | _libraries/ethercard/EtherCard.cpp:252-268 | releasing several stashes, even one named twice, frees exactly their chains and keeps every other stash |
| `Template.Cleanup` | _libraries/ethercard/EtherCard.cpp:252-268 | frees exactly the chains of the stashes the template inserts and keeps the invariant for all others |
| `Template.InsertedAreNeeded` | _libraries/ethercard/EtherCard.cpp:252-268 | the stashes freed are exactly those without which the format and its arguments do not make sense |
| `Template.ReleaseInserted` | _libraries/ethercard/EtherCard.cpp:256-267 | the loop of cleanup releases the stashes of the format, in order |
| `Template.TcpDatafill` | _libraries/ethercard/tcpip.cpp:581-593 | length, extract, cleanup and terminator: the packet gets the text up to the recorded length, which is the text's if and only if that is below 65536 and a multiple of 65536 bytes is cut; a text whose measure is below 65536 arrives whole; the rest of the packet is unchanged and exactly its stashes are freed |
| `Template.SendTemplate` | _libraries/ethercard/tcpip.cpp:581-593 | the same from prepare on: what was prepared is what is sent |
| `Display.Screen.DrawFastHLine` | _libraries/Adafruit_SSD1306-master/Adafruit_SSD1306.cpp:556-623 | for every rotation, position and length the frame ends as if drawPixel had been called once per pixel |
| `Display.Screen.DrawFastVLine` | _libraries/Adafruit_SSD1306-master/Adafruit_SSD1306.cpp:625-771 | the same for the eight-rows-at-a-time vertical blitter |
| `Display.Screen.DrawPixel` | _libraries/Adafruit_SSD1306-master/Adafruit_SSD1306.cpp:106-134 | clips, rotates and sets, clears or flips one bit |
| `Display.Screen.DrawFastHLineInternal` | _libraries/Adafruit_SSD1306-master/Adafruit_SSD1306.cpp:590-623 | clipping and one mask per column paint exactly the box of the line |
| `Display.Screen.DrawFastVLineInternal` | _libraries/Adafruit_SSD1306-master/Adafruit_SSD1306.cpp:659-771 | first partial byte, whole bytes and last partial byte paint exactly the box of the line |
| `Display.Screen.StoreFirst` | _libraries/Adafruit_SSD1306-master/Adafruit_SSD1306.cpp:697-720 | the first byte paints rows from y to the end of the byte, or h rows if fewer |
| `Display.Screen.StoreByte` | _libraries/Adafruit_SSD1306-master/Adafruit_SSD1306.cpp:726-753 | a whole byte is inverted or overwritten as eight pixels would be |
| `Display.Screen.StoreLast` | _libraries/Adafruit_SSD1306-master/Adafruit_SSD1306.cpp:755-769 | the last byte paints its h topmost rows |
| `Display.DrawPixelPaints` | _libraries/Adafruit_SSD1306-master/Adafruit_SSD1306.cpp:106-134 | drawPixel changes the one physical pixel the rotation maps to, and nothing if that is off the screen |
| `Display.SlowHLinePaints` | _libraries/Adafruit_SSD1306-master/Adafruit_SSD1306.cpp:106-134 | a row of drawPixel calls paints the line's physical box and no other bit, whatever lies off the screen |
| `Display.SlowVLinePaints` | _libraries/Adafruit_SSD1306-master/Adafruit_SSD1306.cpp:106-134 | the same for a column |
| `Display.HLinePixels` | _libraries/Adafruit_SSD1306-master/Adafruit_SSD1306.cpp:106-134 | in every rotation a horizontal line changes exactly the logical pixels of its row from x to x + w - 1 |
| `Display.VLinePixels` | _libraries/Adafruit_SSD1306-master/Adafruit_SSD1306.cpp:106-134 | and a vertical one those of its column from y to y + h - 1 |
| `Display.PixelInNumbers` | _libraries/Adafruit_SSD1306-master/Adafruit_SSD1306.cpp:126-133 | pixel (x, y) is bit y % 8, from the lowest, of byte x + 128 * (y / 8) |
| `Display.LitInNumbers` | _libraries/Adafruit_SSD1306-master/Adafruit_SSD1306.cpp:126-133 | it is lit when that bit is set |
| `Display.ColoursInNumbers` | _libraries/Adafruit_SSD1306-master/Adafruit_SSD1306.h:38-40 | colour 0 clears, 1 sets, 2 inverts, any other leaves alone |
| `Display.RotationsTurn` | _libraries/Adafruit_SSD1306-master/Adafruit_SSD1306.cpp:110-124 | where the logical origin lies and which way one step right and one step down go, in each of the four rotations |
| `Display.ScreenInNumbers` | _libraries/Adafruit_SSD1306-master/Adafruit_SSD1306.cpp:106-108 | 128 by 64 logical pixels fall on the screen, 64 by 128 when turned by one quarter or three |
| `Display.PaintNextByte` | _libraries/Adafruit_SSD1306-master/Adafruit_SSD1306.cpp:697-769 | storing masked bytes down a column extends the painted box by the masked rows |
| `Display.FirstMaskBits` | _libraries/Adafruit_SSD1306-master/Adafruit_SSD1306.cpp:702-708 | the premask cut short by h selects exactly the first h rows from 8-mod on |
| `Display.PremaskBits` | _libraries/Adafruit_SSD1306-master/Adafruit_SSD1306.cpp:703-763 | every entry of both mask tables |
| `Display.SameFrame` | _libraries/Adafruit_SSD1306-master/Adafruit_SSD1306.cpp:106-134 | a frame buffer is determined by its pixels, so equal pixels mean equal bytes |
| `Bits.MaskIsShift` | _libraries/Adafruit_SSD1306-master/Adafruit_SSD1306.cpp:128-133 | the mask of row y is 1 << (y & 7) |
| `Circle.DrawCircle` | _libraries/Adafruit-GFX-Library-master/Adafruit_GFX.cpp:55-87 | plots the exact octant mirrored eightfold around the four axis points; no 16-bit variable overflows for -16384 < r <= 16384 |
| `Circle.CirclePoints` | _libraries/Adafruit-GFX-Library-master/Adafruit_GFX.cpp:55-87 | a pixel is plotted if and only if its distances from the centre are (0, r), (r, 0) or an octant point in either order; four and eight per octant point are plotted |
| `Circle.MirroredPoints` | _libraries/Adafruit-GFX-Library-master/Adafruit_GFX.cpp:78-85 | the eightfold mirroring reaches exactly the pixels at those distances |
| `Circle.AxisPointsAre` | _libraries/Adafruit-GFX-Library-master/Adafruit_GFX.cpp:61-64 | exactly the points at distance r on the two axes |
| `Circle.Advance` | _libraries/Adafruit-GFX-Library-master/Adafruit_GFX.cpp:66-76 | one turn of the recurrence keeps f = (x+1)^2 + y^2 - y - r^2 and chooses the row the exact midpoint rule chooses |
| `Circle.OctantIsNear` | _libraries/Adafruit-GFX-Library-master/Adafruit_GFX.cpp:55-87 | every plotted octant point has y^2 - y <= r^2 - x^2 <= y^2 + y |
| `Circle.OctantIsConnected` | _libraries/Adafruit-GFX-Library-master/Adafruit_GFX.cpp:66-87 | one octant point for each column from 1 on, the row falling by at most one, until the diagonal is reached and not before |
| `Circle.NearestToTheDiagonal` | _libraries/Adafruit-GFX-Library-master/Adafruit_GFX.cpp:55-87 | up to the diagonal every plotted point is strictly the nearest row to the true circle |
| `Circle.NearestIffNoOvershoot` | _libraries/Adafruit-GFX-Library-master/Adafruit_GFX.cpp:66-76 | the whole plot is nearest-row if and only if r^2 is not 2x^2 - 3x + 2 for an x of at least 2 |
| `Circle.RadiusTwoOvershoots` | _libraries/Adafruit-GFX-Library-master/Adafruit_GFX.cpp:66-76 | radius 2 is such a case: it plots (2, 1) |
| `Line.DrawLine` | _libraries/Adafruit-GFX-Library-master/Adafruit_GFX.cpp:163-202 | the error-driven loop plots the rounded line, max(|dx|,|dy|)+1 pixels in order along the major axis |
| `Line.LineInNumbers` | _libraries/Adafruit-GFX-Library-master/Adafruit_GFX.cpp:163-202 | pixel k lies k steps along the longer axis from its lesser end, and on the other axis at the nearest whole step, halves toward that end, in the right direction |
| `Line.PlotRun` | _libraries/Adafruit-GFX-Library-master/Adafruit_GFX.cpp:187-201 | the plotting loop after both swaps |
| `Line.HalfPixel` | _libraries/Adafruit-GFX-Library-master/Adafruit_GFX.cpp:177-201 | the error term stays in [0, dx) and the plotted row is within half a pixel |
| `Line.MinorRounds` | _libraries/Adafruit-GFX-Library-master/Adafruit_GFX.cpp:177-201 | the row after k steps is the only one within half a pixel, halves rounded down |
| `Line.MinorStep` | _libraries/Adafruit-GFX-Library-master/Adafruit_GFX.cpp:195-199 | the minor axis moves exactly when the error term would go negative |
| `Line.LineReachesBothEnds` | _libraries/Adafruit-GFX-Library-master/Adafruit_GFX.cpp:163-202 | both end points are plotted and the pixel count is max(|dx|,|dy|)+1 |
| `Line.LineIsConnected` | _libraries/Adafruit-GFX-Library-master/Adafruit_GFX.cpp:163-202 | neighbouring pixels touch |
| `Line.LineIsAccurate` | _libraries/Adafruit-GFX-Library-master/Adafruit_GFX.cpp:163-202 | no pixel is further than half a pixel from the ideal line |
| `Line.LineIsSymmetric` | _libraries/Adafruit-GFX-Library-master/Adafruit_GFX.cpp:163-175 | exchanging the end points plots the same pixels |
| `Triangle.FillTriangle` | _libraries/Adafruit-GFX-Library-master/Adafruit_GFX.cpp:274-350 | incremental sums give one span per row equal to the longhand crossings, for any vertex order |
| `Triangle.FillUpper` | _libraries/Adafruit-GFX-Library-master/Adafruit_GFX.cpp:318-332 | rows down to the middle vertex, including its row only for a flat bottom; no division by zero |
| `Triangle.FillLower` | _libraries/Adafruit-GFX-Library-master/Adafruit_GFX.cpp:336-349 | rows from the middle vertex to the bottom one |
| `Triangle.FillFlat` | _libraries/Adafruit-GFX-Library-master/Adafruit_GFX.cpp:290-299 | all vertices on one row: one span over their extent |
| `Triangle.SortSorts` | _libraries/Adafruit-GFX-Library-master/Adafruit_GFX.cpp:281-288 | the three swaps order the vertices by row and keep them |
| `Triangle.OneSpanPerRow` | _libraries/Adafruit-GFX-Library-master/Adafruit_GFX.cpp:274-350 | exactly one non-empty span for each row from top to bottom, inside the bounding box |
| `Triangle.SpansFollowTheEdges` | _libraries/Adafruit-GFX-Library-master/Adafruit_GFX.cpp:318-349 | the two ends of each span are where the long edge and the short edge of its row cross that row, less than one unit off and rounded toward the edge's upper vertex |
| `Triangle.OneColumnOnEdge` | _libraries/Adafruit-GFX-Library-master/Adafruit_GFX.cpp:322-346 | there is only one such column |
| `Triangle.VerticesCovered` | _libraries/Adafruit-GFX-Library-master/Adafruit_GFX.cpp:274-350 | every vertex is inside the span of its row |
| `Triangle.Interpolates` | _libraries/Adafruit-GFX-Library-master/Adafruit_GFX.cpp:322-346 | a truncated crossing stays between the ends, reaches both and is less than one unit off |
| `Triangle.StartSums` | _libraries/Adafruit-GFX-Library-master/Adafruit_GFX.cpp:336-337 | the 16-bit products the lower loop starts from are exact wherever that loop runs |
| `Ndef.RoundTripIsExactIff` | _libraries/NDEF/NdefRecord.cpp:139-209 | parsing an encoded message of one to four expressible records gives the message back if and only if id + payload = payload + id in every record, in particular when ids are empty |
| `Ndef.MessageIsExactIff` | _libraries/NDEF/NdefMessage.cpp:8-146 | a message of up to four records, encoded and parsed, comes back as it was if and only if it is not empty, every record is expressible and every id commutes with its payload |
| `Ndef.RestIsLost` | _libraries/NDEF/NdefMessage.cpp:24-79 | whatever bytes follow, the parser does not get past the first inexpressible record with the message intact |
| `Ndef.MessageRoundTrip` | _libraries/NDEF/NdefMessage.cpp:8-79 | such a message is parsed back record by record, whatever bytes follow it, if and only if it is not empty |
| `Ndef.EmptyMessageIsMisread` | _libraries/NDEF/NdefMessage.cpp:24-31 | the parser always reads one record, so an empty message is never read as empty |
| `Ndef.RecordRoundTrip` | _libraries/NDEF/NdefMessage.cpp:24-76 | an encoded record followed by any bytes is parsed to its type, TNF, lengths and bytes, stopping right behind it |
| `Ndef.RereadMovesTheId` | _libraries/NDEF/NdefRecord.cpp:170-180 | written payload before id, read id before payload: shape is kept and id + payload of the result is payload + id of the original; exact if and only if those commute |
| `Ndef.IdIsMoved` | _libraries/NDEF/NdefRecord.cpp:170-180 | payload [1] with id [2] is read back as payload [2] with id [1] |
| `Ndef.OnlyExpressibleRecordsKeepShape` | _libraries/NDEF/NdefRecord.cpp:139-181 | TNF, type and lengths survive if and only if TNF < 8, type and id have at most 255 bytes and the payload at most 65535 |
| `Ndef.LongTypeIsLost` | _libraries/NDEF/NdefRecord.cpp:147-148 | a type of 256 bytes is read back as none, whatever the rest of the record |
| `Ndef.HeaderSaysIt` | _libraries/NDEF/NdefRecord.cpp:183-209 | the begin, end, short and id flags and the TNF are recovered from the header byte, and the chunk flag is clear |
| `Ndef.HeaderInNumbers` | _libraries/NDEF/NdefRecord.cpp:183-209 | TNF plus 128 if first, 64 if last, 16 for at most 255 bytes of payload, 8 for an id |
| `Ndef.EncodedBytes` | _libraries/NDEF/NdefRecord.cpp:139-181 | every byte of an encoded record: header, type length, payload length in one byte or 0, 0, high, low, id length, then type, payload, id |
| `Ndef.ParsedBytes` | _libraries/NDEF/NdefMessage.cpp:24-76 | the parser's reading: 64 marks the last record, 16 a one-byte length, 8 an id; the type, then the id, then the payload |
| `Ndef.BigEndianBytes` | _libraries/NDEF/NdefMessage.cpp:47-53 | four length bytes, the highest first |
| `Ndef.FourRecordsAreKept` | _libraries/NDEF/NdefMessage.cpp:148-162 | up to four records are kept, a fifth is dropped |
| `Ndef.EncodeHasSize` | _libraries/NDEF/NdefMessage.cpp:123-146 | encoding writes exactly as many bytes as the sum of the records' encoded sizes |
| `NdefMessage.NdefRecord.GetEncodedSize` | _libraries/NDEF/NdefRecord.cpp:117-137 | is the length of what encode writes, for a first, middle or last record |
| `NdefMessage.NdefRecord.GetTnfByte` | _libraries/NDEF/NdefRecord.cpp:183-209 | TNF with the flags set one after the other |
| `NdefMessage.NdefRecord.EncodeHead` | _libraries/NDEF/NdefRecord.cpp:143-168 | flags and lengths, short or long form |
| `NdefMessage.NdefRecord.Encode` | _libraries/NDEF/NdefRecord.cpp:139-181 | writes the record through an advancing pointer, exactly its encoded size and nothing else |
| `NdefMessage.NdefRecord.SetType` | _libraries/NDEF/NdefRecord.cpp:250-260 | replaces the type, keeping the other fields |
| `NdefMessage.NdefRecord.SetPayload` | _libraries/NDEF/NdefRecord.cpp:268-278 | replaces the payload, keeping the other fields |
| `NdefMessage.NdefRecord.SetId` | _libraries/NDEF/NdefRecord.cpp:293-303 | replaces the id, keeping the other fields |
| `NdefMessage.NdefMessage.ReadSizes` | _libraries/NDEF/NdefMessage.cpp:27-61 | the flag and length fields of one record, up to its type |
| `NdefMessage.NdefMessage.ReadRecord` | _libraries/NDEF/NdefMessage.cpp:27-72 | one turn of the parser's loop fills a record as the byte layout says |
| `NdefMessage.NdefMessage.ParseRecord` | _libraries/NDEF/NdefMessage.cpp:24-77 | one turn of the loop adds the record it reads |
| `NdefMessage.NdefMessage.Parse` | _libraries/NDEF/NdefMessage.cpp:18-79 | the parser's loop computes the specified records and stops at the record marked last |
| `NdefMessage.NdefMessage.Decode` | _libraries/NDEF/NdefMessage.cpp:8-79 | the decoding constructor |
| `NdefMessage.NdefMessage.GetEncodedSize` | _libraries/NDEF/NdefMessage.cpp:123-131 | is the length of the encoded message |
| `NdefMessage.NdefMessage.Encode` | _libraries/NDEF/NdefMessage.cpp:134-146 | writes the message, exactly its encoded size and nothing else |
| `NdefMessage.NdefMessage.AddRecord` | _libraries/NDEF/NdefMessage.cpp:148-162 | appends up to four records and refuses more |
| `TagLayout.WriteIsReadBackIff` | _libraries/NDEF/MifareClassic.cpp:328-405 | on a card that can be read along the walk, a written message is read back if and only if each of its blocks was stored, or was refused while already holding the same bytes |
| `TagLayout.TagRoundTrip` | _libraries/NDEF/MifareClassic.cpp:18-405 | every message of up to four records the card stores is handed to the parser; it comes back as it was if and only if it is not empty, its records are expressible and ids commute with payloads |
| `TagLayout.WrittenMessageIsRead` | _libraries/NDEF/MifareClassic.cpp:18-405 | without refusals the reader hands exactly the written message and its length to the parser |
| `TagLayout.RefusalGoesUnnoticed` | _libraries/NDEF/MifareClassic.cpp:377-389 | a blank card that refuses block 4: every reply arrives, so writing reports success, and the message is not there |
| `TagLayout.ReadsBackIffHeld` | _libraries/NDEF/MifareClassic.cpp:105-187 | a card hands a message to the parser if and only if the blocks of its walk hold its TLV |
| `TagLayout.AcceptedIsStored` | _libraries/NDEF/MifareClassic.cpp:364-402 | without refusals every block is stored, whether or not a refusal would end the session |
| `TagLayout.FitsIff` | _libraries/NDEF/MifareClassic.cpp:105-127 | a working 1K or 4K card stores and returns a message if and only if it has at most 715 or 3403 bytes |
| `TagLayout.HealthyWriteIff` | _libraries/NDEF/MifareClassic.cpp:364-404 | on such a card whose sector 0 has another key, writing reports success if and only if the message has at most that many bytes |
| `TagLayout.OpenCardAlwaysAnswers` | _libraries/NDEF/MifareClassic.cpp:364-404 | on a 4K card that opens everywhere with the NDEF key, writing reports success for every length |
| `TagLayout.AnswersEnd` | _libraries/NDEF/MifareClassic.cpp:367-375 | a card whose sector 0 does not open answers at most 213 blocks |
| `TagLayout.CardEnds` | _libraries/NDEF/MifareClassic.cpp:63-100 | reading along the walk never gets past 217 blocks |
| `TagLayout.CommandsDiffer` | _libraries/PN532/PN532.cpp:387-495 | block numbers are one byte: the first 213 positions name the data blocks, the next four are sent as 0 to 3 |
| `TagLayout.WalkClosedForm` | _libraries/NDEF/MifareClassic.cpp:391-400 | the k-th visited block, through the change from sectors of four to sectors of sixteen |
| `TagLayout.WalkIsSafe` | _libraries/NDEF/MifareClassic.cpp:364-402 | by the driver's numbering no visited block is in sector 0 or a trailer, and each is visited once |
| `TagLayout.WalkIsComplete` | _libraries/NDEF/MifareClassic.cpp:364-402 | every other block from 4 on is visited |
| `TagLayout.WalkIncreases` | _libraries/NDEF/MifareClassic.cpp:364-402 | block numbers strictly increase along the walk |
| `TagLayout.SectorIsEnteredFirst` | _libraries/NDEF/MifareClassic.cpp:367-375 | the walk enters each sector through its first block, where the driver authenticates |
| `TagLayout.FirstBlockStarts` | _libraries/PN532/PN532.cpp:345-352 | IsFirstBlock holds exactly where the sector changes |
| `TagLayout.TrailerEnds` | _libraries/PN532/PN532.cpp:359-366 | IsTrailerBlock holds exactly before the sector changes |
| `TagLayout.WriteSparesTheRest` | _libraries/NDEF/MifareClassic.cpp:364-402 | sector 0 and every trailer keep their content through the commands for up to 214 blocks, refused or not |
| `TagLayout.WriteSparesIff` | _libraries/NDEF/MifareClassic.cpp:364-402 | any block of any card survives the commands for every buffer of m blocks if and only if none of those commands stores into it |
| `TagLayout.WriteSparesExposedIff` | _libraries/NDEF/MifareClassic.cpp:364-402 | the same as a condition on card and length, for all blocks the driver means to skip that its one-byte numbers nevertheless reach: 1 to 3 and the last blocks of sectors 4, 8, ..., 28 |
| `TagLayout.WriteSparesSectorZeroIff` | _libraries/NDEF/MifareClassic.cpp:364-402 | each of blocks 1 to 3 survives the commands for every buffer of m blocks if and only if m is at most 213 plus its number, or the card refuses it, or a refusal ends the session |
| `TagLayout.WriteSparesTrailerIff` | _libraries/NDEF/MifareClassic.cpp:364-402 | the trailer of sector 4i, for i from 1 to 7, survives if and only if m is at most 216 + 15i, or the card refuses it, or a refusal ends the session and the card refuses a block of that sector |
| `TagLayout.WriteSparesTheOthers` | _libraries/NDEF/MifareClassic.cpp:364-402 | block 0 and every other trailer survive a write of any length |
| `TagLayout.TrailerIsOverwritten` | _libraries/NDEF/MifareClassic.cpp:364-404 | a 4K card open everywhere answers all of 232 blocks, and block 19, a trailer, then holds message bytes, even if a refusal ends the session |
| `TagLayout.SectorZeroIsOverwritten` | _libraries/NDEF/MifareClassic.cpp:364-404 | such a card that refuses block 1 and goes on answers all of 217 blocks, and block 3, the trailer of sector 0, then holds message bytes |
| `TagLayout.LastStoreWins` | _libraries/NDEF/MifareClassic.cpp:364-402 | a block some command stored into holds what the last such command carried, for any length |
| `TagLayout.NoStoreKeeps` | _libraries/NDEF/MifareClassic.cpp:364-402 | a block no command stored into is as before |
| `TagLayout.WrittenBlocks` | _libraries/NDEF/MifareClassic.cpp:364-402 | up to 217 blocks no command overwrites another's: a block holds its part of the buffer exactly if that was stored |
| `TagLayout.GatherIs` | _libraries/NDEF/MifareClassic.cpp:63-100 | what is collected along the walk is a given buffer if and only if each block holds its part of it |
| `TagLayout.TlvReadsBack` | _libraries/NDEF/MifareClassic.cpp:132-187 | the first block of a wrapped message leads back to its start and length, short or long form |
| `TagLayout.TlvInNumbers` | _libraries/NDEF/MifareClassic.cpp:334-357 | 3, the length (one byte, or 255 and two, high first), the message, 254, zeros to the end of a block |
| `TagLayout.LengthInNumbers` | _libraries/NDEF/MifareClassic.cpp:132-187 | behind zeros the first byte must be 3, and the length is read as it is written |
| `TagLayout.HeadIsForced` | _libraries/NDEF/MifareClassic.cpp:132-187 | only the message's own TLV head leads to that start and length |
| `MifareClassic.MifareClassic.Write` | _libraries/NDEF/MifareClassic.cpp:328-405 | returns true if and only if every first block on the walk authenticates and no reply is missing; the resulting card, stored block by stored block; and after true, the message is read back if and only if every block was stored or already held its part |
| `MifareClassic.MifareClassic.WriteThenRead` | _libraries/NDEF/MifareClassic.cpp:18-405 | writing a message to a card that stores and reads its blocks, reading the card and decoding gives the reread records, the same message if and only if ids commute |
| `MifareClassic.MifareClassic.WriteBlocks` | _libraries/NDEF/MifareClassic.cpp:364-404 | the writing loop: stops at the first block without an answer, goes on past refusals |
| `MifareClassic.MifareClassic.WriteBlock` | _libraries/NDEF/MifareClassic.cpp:367-389 | authenticates at a first block, then writes; succeeds exactly when an answer comes, stores exactly when the card does |
| `MifareClassic.MifareClassic.WrapTlv` | _libraries/NDEF/MifareClassic.cpp:334-357 | TLV header, message, terminator and zero padding |
| `MifareClassic.MifareClassic.Read` | _libraries/NDEF/MifareClassic.cpp:18-103 | what is handed to the parser is fixed by the card's content when all blocks can be read; the three early exits, and when the length field is looked for behind the 16 bytes read |
| `MifareClassic.MifareClassic.ReadBlocks` | _libraries/NDEF/MifareClassic.cpp:63-100 | the reading loop collects the blocks of the walk |
| `MifareClassic.GetBufferSize` | _libraries/NDEF/MifareClassic.cpp:105-127 | the least multiple of 16 that holds header, message and terminator |
| `MifareClassic.GetNdefStartIndex` | _libraries/NDEF/MifareClassic.cpp:132-153 | skips null TLVs to the message TLV; -1 for all zeros, -2 for another TLV |
| `MifareClassic.DecodeTlvOf` | _libraries/NDEF/MifareClassic.cpp:163-187 | length and start, one-byte or three-byte length |
| `MifareClassic.Card.AuthenticateBlock` | _libraries/PN532/PN532.cpp:387-421 | succeeds on a good status byte: the sector of the number's low byte is then open, otherwise none |
| `MifareClassic.Card.ReadDataBlock` | _libraries/PN532/PN532.cpp:436-465 | succeeds on a good status byte, with a block of the open sector |
| `MifareClassic.Card.WriteDataBlock` | _libraries/PN532/PN532.cpp:479-495 | succeeds on any reply; the block is stored only if the card does not refuse it |
| `Calendar.BreakThenMake` | _libraries/Time/Time.cpp:151-233 | makeTime after breakTime is the identity on every 32-bit time |
| `Calendar.MakeThenBreak` | _libraries/Time/Time.cpp:151-233 | breakTime after makeTime is the identity on every valid date in range, up to the weekday, which comes out right |
| `Calendar.BreakTime` | _libraries/Time/Time.cpp:151-202 | fields are a valid date denoting the input, year at most 136, weekday of the day number |
| `Calendar.FindYear` | _libraries/Time/Time.cpp:171-178 | the year loop ends at the year that contains the day |
| `Calendar.FindMonth` | _libraries/Time/Time.cpp:180-201 | the month loop always leaves by its break, at the month that contains the day |
| `Calendar.MakeTime` | _libraries/Time/Time.cpp:204-233 | the seconds of the date modulo 2^32, for any field values with month at most 13 |
| `Calendar.SecondsAreUnique` | _libraries/Time/Time.cpp:204-233 | two valid dates with the same second count have the same fields |
| `Calendar.YearStartIsGregorian` | _libraries/Time/Time.cpp:147-147 | adding LEAP_YEAR days year by year is the Gregorian day count |
| `Calendar.MonthStartIsGregorian` | _libraries/Time/Time.cpp:149-149 | the month table sums to the Gregorian month starts, 153 days in five months from March on |
| `Calendar.SecondsAreGregorian` | _libraries/Time/Time.cpp:204-233 | the second count of a date is 86400 times its Gregorian day number plus its time of day |
| `Calendar.WeekdaysRotate` | _libraries/Time/Time.cpp:169-169 | the weekday advances by one a day modulo 7; 1 January 2000 is a Saturday |
| `Alarms.PreviousSundayIsSunday` | _libraries/Time/Time.h:79-88 | previousSunday is the last Sunday midnight not after t, from the first Sunday of 1970 on, and wraps before it |
| `Alarms.WeeksBeginOnSunday` | _libraries/Time/Time.h:82-82 | the alarm library's day of the week is the calendar's; 4 January 1970 was a Sunday |
| `Alarms.DailyNextOccurrence` | _libraries/TimeAlarms/TimeAlarms.cpp:64-76 | a daily alarm is set strictly in the future; it is the least matching time if and only if the value exceeds the time of day by at most a day |
| `Alarms.OccurrenceIsSkipped` | _libraries/TimeAlarms/TimeAlarms.cpp:64-76 | at every midnight from which alarms can be created on, one created for 48 o'clock is set two days ahead, past a matching time one day ahead |
| `Alarms.WeeklyNextOccurrence` | _libraries/TimeAlarms/TimeAlarms.cpp:77-88 | the same for weekly alarms, counted from Sunday midnight |
| `Alarms.TimerComesRound` | _libraries/TimeAlarms/TimeAlarms.cpp:91-94 | a due repeating timer is due again exactly from its value later on |
| `Alarms.TimerRunsItsValue` | _libraries/TimeAlarms/TimeAlarms.cpp:170-192 | a timer created, enabled or written is due exactly from its value later on, and never with value 0 |
| `Alarms.ExplicitAlarmWaits` | _libraries/TimeAlarms/TimeAlarms.cpp:58-63 | an explicit alarm is due from its value on; one still pending keeps its time whatever is written |
| `Alarms.DailyAlarmWaits` | _libraries/TimeAlarms/TimeAlarms.cpp:64-76 | a daily alarm created for a time of day is due from the next time the clock shows it |
| `Alarms.WeeklyAlarmWaits` | _libraries/TimeAlarms/TimeAlarms.cpp:77-88 | the same for weekly alarms |
| `Alarms.AlarmComesRound` | _libraries/TimeAlarms/TimeAlarms.cpp:294-315 | a due repeating alarm falls due again at the next time that matches |
| `Alarms.NeverDue` | _libraries/TimeAlarms/TimeAlarms.cpp:170-222 | a disabled or freed slot is never due, nor one without value or handler |
| `Alarms.OnlyWhatIsAsked` | _libraries/TimeAlarms/TimeAlarms.cpp:170-353 | creating, writing and disabling set the fields they are for, the others stay; a slot that is not due is passed over |
| `Alarms.ServicedIsFuture` | _libraries/TimeAlarms/TimeAlarms.cpp:294-315 | a due one-shot ends freed, a due repeating alarm ends with its trigger in the future |
| `Alarms.PassSettles` | _libraries/TimeAlarms/TimeAlarms.cpp:294-315 | one pass runs exactly the handlers of the due slots, each once and in slot order; afterwards no slot is due |
| `Alarms.SlotsStayOk` | _libraries/TimeAlarms/TimeAlarms.cpp:170-222 | enable, disable, write, free, servicing and creation keep a slot consistent |
| `Alarms.AfterStaysOk` | _libraries/TimeAlarms/TimeAlarms.cpp:170-353 | every operation on the table keeps every slot consistent |
| `Alarms.EveryRunIsOk` | _libraries/TimeAlarms/TimeAlarms.cpp:106-353 | over all runs enabled slots are allocated with non-zero value and handler, unallocated ones have value and trigger 0 |
| `Alarms.TimeAlarms.UpdateNextTrigger` | _libraries/TimeAlarms/TimeAlarms.cpp:53-101 | one slot's new trigger, the rest of the table unchanged |
| `Alarms.TimeAlarms.Enable` | _libraries/TimeAlarms/TimeAlarms.cpp:170-176 | enables a slot that has a value and a handler, and refreshes its trigger |
| `Alarms.TimeAlarms.Disable` | _libraries/TimeAlarms/TimeAlarms.cpp:178-182 | clears the enabled flag of an allocated slot |
| `Alarms.TimeAlarms.Write` | _libraries/TimeAlarms/TimeAlarms.cpp:185-192 | new value, then enable |
| `Alarms.TimeAlarms.Free` | _libraries/TimeAlarms/TimeAlarms.cpp:212-222 | blanks an allocated slot |
| `Alarms.TimeAlarms.Create` | _libraries/TimeAlarms/TimeAlarms.cpp:334-353 | takes the first free slot unless the clock is unset; the invalid id otherwise |
| `Alarms.CreateNeedsTheClock` | _libraries/TimeAlarms/TimeAlarms.cpp:334-353 | alarms, not timers, are refused before 31449600 seconds; otherwise the first free slot is taken |
| `Alarms.TimeAlarms.ServiceSlot` | _libraries/TimeAlarms/TimeAlarms.cpp:301-311 | frees or re-arms a due slot, then runs the handler it had |
| `Alarms.TimeAlarms.ServiceAlarms` | _libraries/TimeAlarms/TimeAlarms.cpp:294-315 | a whole pass over the table |
| `Checksum.FillChecksum` | _libraries/ethercard/tcpip.cpp:72-88 | stores the folded complement, and the segment then verifies with its pseudo-header if the field was zeroed at an even offset |
| `Checksum.FilledVerifies` | _libraries/ethercard/tcpip.cpp:72-88 | whatever the data, storing the complement of the sum makes a segment verify |
| `Checksum.WorkedExample` | _libraries/ethercard/tcpip.cpp:72-88 | the worked example of RFC 1071, section 3; a last odd byte counts as the high one |
| `Checksum.PseudoHeaderInNumbers` | _libraries/ethercard/tcpip.cpp:74-75 | 17 for UDP, 6 for TCP, and the length less 8 |
| `Checksum.Sum32` | _libraries/ethercard/tcpip.cpp:76-82 | the 32-bit running sum is exact and cannot overflow |
| `Checksum.Fold` | _libraries/ethercard/tcpip.cpp:83-84 | the folding loop computes the ones'-complement representative of the sum |
| `Checksum.EtherShieldChecksum` | _libraries/etherShield/ip_arp_udp_tcp.c:56-94 | the second implementation computes the same complement, segments shorter than the subtracted 8 bytes wrapping in 16 bits |
| `Checksum.Chksum` | _libraries/UIPEthernet/UIPEthernet.cpp:346-374 | the 16-bit end-around-carry sum equals folding the 32-bit sum at the end, for every byte string and initial sum |
| `Checksum.AddWord` | _libraries/UIPEthernet/UIPEthernet.cpp:355-359 | one end-around-carry addition |
| `Checksum.UpperLayerChksum` | _libraries/UIPEthernet/UIPEthernet.cpp:395-463 | header and payload summed apart give the checksum of the whole segment, in network byte order |
| `Checksum.Htons` | _libraries/UIPEthernet/utility/util.h:4-4 | exchanges the two bytes of a word |
| `Checksum.FoldedAdds` | _libraries/etherShield/ip_arp_udp_tcp.c:78-93 | sums may be folded at any point |
| `Checksum.WordSumSplits` | _libraries/UIPEthernet/UIPEthernet.cpp:395-463 | splitting at any even offset composes |
| `Checksum.OneWordErrorDetected` | _libraries/ethercard/tcpip.cpp:72-88 | a change of one aligned word goes unnoticed if and only if it exchanges the two representations of zero |
| `Checksum.EchoReplyVerifies` | _libraries/ethercard/tcpip.cpp:189-196 | for every verifying echo request the edited reply verifies if and only if not (high checksum byte > 0xF7 and low byte 0xFF) |
| `Checksum.ReplyFields` | _libraries/ethercard/tcpip.cpp:189-196 | type 0, 8 added to the high checksum byte, a carry to the low one, every other byte as it was |
| `Checksum.CarryIsLost` | _libraries/ethercard/tcpip.cpp:189-196 | a six-byte request that verifies and whose reply does not |
| `Checksum.EditIcmp` | _libraries/ethercard/tcpip.cpp:189-196 | the in-place edit: type, checksum byte, caught carry |
| `Checksum.MakeEchoReply` | _libraries/ethercard/tcpip.cpp:189-196 | MAC and IP addresses exchanged, IP header verifies with flags 0x40 and lifetime 64, ICMP edited, every other byte unchanged |
| `Checksum.FillIpHeaderChecksum` | _libraries/ethercard/tcpip.cpp:132-139 | after filling, the IP header verifies and only flags, lifetime and checksum changed |
| `Checksum.SwapAddresses` | _libraries/ethercard/tcpip.cpp:141-146 | MAC and IP addresses exchanged, the rest of the packet unchanged |
| `UrlCodec.DecodeUndoesEncode` | _libraries/ethercard/webutil.cpp:79-149 | decoding undoes encoding for every string; the encoding is URL-safe and at most three times as long |
| `UrlCodec.EncodeIsInjective` | _libraries/ethercard/webutil.cpp:128-149 | different strings have different encodings |
| `UrlCodec.EncodedByteInNumbers` | _libraries/ethercard/webutil.cpp:128-149 | letters and digits stand for themselves, 43 for a space, 37 and two lower-case digits for any other character |
| `UrlCodec.DecodesCharacters` | _libraries/ethercard/webutil.cpp:94-108 | 43 is a space, 37 takes two digits of either case, any other character stands for itself |
| `UrlCodec.DecodingStep` | _libraries/ethercard/webutil.cpp:94-108 | in place, the write position never passes the read position, so no character is overwritten before it is read |
| `UrlCodec.UrlDecode` | _libraries/ethercard/webutil.cpp:94-108 | the buffer ends as the decoded string, a terminator and what it held behind that, for every buffer in which the decoder comes to a zero at all |
| `UrlCodec.StopsAtTheTerminatorIff` | _libraries/ethercard/webutil.cpp:94-108 | the decoder stops at its string's terminator, with what the string stands for, if and only if every percent sign has two characters after it; otherwise it goes on behind the terminator |
| `UrlCodec.CutEscapeReadsOn` | _libraries/ethercard/webutil.cpp:94-108 | a string of one percent sign, with 41 behind its terminator, is decoded to two characters |
| `UrlCodec.UrlEncode` | _libraries/ethercard/webutil.cpp:128-149 | the output buffer ends as the encoded string and a terminator, the rest of it unchanged |
| `UrlCodec.EncodeAndDecode` | _libraries/ethercard/webutil.cpp:94-149 | encoding into a buffer and decoding it in place leaves the original string and a terminator there |
| `UrlCodec.Int2H` | _libraries/ethercard/webutil.cpp:112-124 | two lower-case digits and a terminator |
| `UrlCodec.HexValueReads` | _libraries/ethercard/webutil.cpp:79-91 | the number whose digit the character is, in either case; 0 exactly for the digit 0 and for no digit |

## Left out

- Registers, SPI, I2C, delays and interrupts: the chip and the card are arrays, commands are reads and writes that succeed or fail.
- Stash put with no page free when one is needed: allocation returns 0 and the stream continues on scratch page 0; excluded by what `StashRuns.Allowed` requires.
- Reading a stash between its puts and its save, saving twice, and release while a page of the stash is in the write buffer: outside the protocol of `StashRuns.Allowed`.
- Stash::freeCount: a bit count over the bitmap, easy.
- Template formats that end in a lone `$`, or with more than 30 arguments: `prepare` then reads or writes outside its page; `TemplateText.ArgsOk` and `Template.MAX_ARGS` exclude them. `emit_p`, the second formatter, is not modelled.
- Display.Screen.DrawFastVLine: requires one of the three colours; for any other the blitter stores zero bytes where drawPixel draws nothing.
- Display.Screen.DrawFastVLineInternal: the source's two copies of the whole-byte loop, for inverse and for black or white, are one loop that decides per byte.
- Coordinates whose sums leave 16 bits: excluded by what the line, circle and triangle methods require; what the source then does depends on the compiler.
- Fonts, bitmaps, text, rounded shapes and display start-up.
- The parser reading beyond the memory it is given: `Ndef.Decode` is `None` there, and the four length bytes of a long record are read in the order written. A payload length of 2^31 or more never fits in memory and counts as such a read.
- The malloc ownership of record fields, message copying and `operator=`, text, URI and MIME record builders.
- MifareClassic.Card.ReadDataBlock: faults are fixed per block; a card that fails now and then is not modelled.
- MifareClassic.Card.WriteDataBlock: a missing reply means the card did not get the command; a reply lost after the card stored the block is not modelled.
- MifareClassic.MifareClassic.Read: what the driver finds when it looks for the length field behind the 16 bytes of block 4 is not modelled, the result is `Beyond`; the bytes of blocks that cannot be read are left open.
- Formatting cards, MifareUltralight, and the older copies of the NDEF library.
- The cached clock of Time.cpp, its getters and setters, and synchronisation.
- Handlers that call back into the alarm API while a pass runs, and moving a pending alarm with write or enable, whose trigger is then kept.
- Alarms.DailyNextOccurrence: requires that the new trigger does not wrap past 32 bits, as the library assumes.
- Alarms.WeeklyNextOccurrence: requires that too, and a time after the first Sunday of 1970.
- Checksum.UpperLayerChksum: the chip's packet memory is not modelled, header and payload are byte strings; machines are little-endian, as the library is configured.
- Checksum.EtherShieldChecksum: `int` has 16 bits, as on the microcontrollers the library is for.
- UrlCodec.UrlDecode: requires that the decoder comes to a zero inside the buffer, as every string whose percent signs are followed by two characters does; what lies outside the buffer is not modelled.
- Letters and digits are the ASCII ones; other locales of isalnum are not modelled.
