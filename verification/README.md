# Elegoo Neptune thumbnail encoder and G-code hook, in Dafny

This project models the two operations of the Elegoo Neptune 2 Cura plugin
(`files/plugins/Installer.py`) that put preview thumbnails into sliced G-code:

- `create_snapshot` turns a bitmap into a text frame. Each pixel is packed
  to 16-bit RGB565, rendered with `"{:04x}"` and byte-swapped to
  little-endian order. Each row of pixels ends with `"\rM10086 ;"` and the
  frame ends with one `"\r"`.
- `add_snapshot_to_gcode` is the hook that runs before G-code is written.
  It walks every program of every build plate in `gcode_dict`. When a
  program contains `;gimage`, the hook prepends `";;gimage:"` plus the
  200x200 frame to the first program of plate 0. When it contains
  `;simage`, the hook prepends `";simage:"` plus the 100x100 frame there.

Modules, in dependency order:

| file | module | contents |
|---|---|---|
| `wrappers.dfy` | `Wrappers` | `Option` |
| `bits.dfy` | `Bits` | Python's `>>`, `<<` and `\|` on non-negative integers, tied to division, multiplication and addition |
| `rgb565.dfy` | `Rgb565` | pixels and the RGB565 packing |
| `hex.dfy` | `Hex` | `"{:04x}"`, and `HexValue`, which parses hex text back to a number |
| `text.dfy` | `Text` | substring containment (Python's `in`) |
| `snapshot.dfy` | `Snapshot` | the frame encoder, its layout and read-back |
| `injection.dfy` | `Injection` | the hook, an independent reference for its result, and its error behaviour |

How the hook is modelled:

- `gcode_dict` is a sequence of `Plate(number, programs)` in insertion
  order, which is the order `items()` yields.
- A scene without the attribute is `None`.
- The loop is a function over the dict as state. Each program's text is
  read from the current dict when the loop reaches it. So a block written
  into `gcode_dict[0][0]` is seen when the loop later reaches plate 0,
  just as the Python list object would show it.
- `gcode_dict[0][0]` raises `KeyError` when there is no plate 0 and
  `IndexError` when plate 0's list is empty. Either exception ends the
  hook early.

Behaviour the model reproduces and proves:

- Every tagged program adds its own block, so several tagged programs give
  several thumbnails.
- A program holding both tags puts the small block in front of the large
  one at `gcode_dict[0][0]` (`Injection.BothTagsOrder`).
- A block written at `gcode_dict[0][0]` carries its own tag in its header:
  `";;gimage:"` contains `;gimage` and `";simage:"` contains `;simage`.
  When the loop reaches plate 0 after another plate has asked for a
  thumbnail, plate 0's first program asks again. In the dict
  `{1: [";gimage"], 0: ["G28"]}` the large block lands twice
  (`Injection.SelfFeedback`). In `{1: [";simage"], 0: ["G28"]}` the small
  block lands twice and the large one never (`Injection.SimageFeedback`).
  In general, when plate 0's first program is read, it holds the headers
  of every block written so far. So it adds one more large block if any
  large block is already there, and one more small block if any small
  one is. Two `;gimage` programs on plate 1 thus give three large blocks.
  `Injection.AddSnapshotWithTarget` gives the exact result for any dict.

Two facts about the code worth keeping in mind:

- Each row terminator is nine characters, so a W x H frame has
  `4*W*H + 9*H + 1` characters, counting the final `"\r"`.
- The large block's header is `";;gimage:"`, with two semicolons
  (line 178).

## Model

| member | source | states |
|---|---|---|
| Rgb565.Pack | files/plugins/Installer.py:143 | the packed value of a pixel is below 2^16 |
| Rgb565.PackMatchesShifts | files/plugins/Installer.py:143 | the expression `(r >> 3 << 11) \| (g >> 2 << 5) \| (b >> 3)` on unbounded integers equals the arithmetic packing |
| Rgb565.PackFields | files/plugins/Installer.py:143 | bits 11-15 of the packed value are red's top 5 bits, bits 5-10 green's top 6, bits 0-4 blue's top 5, and nothing is set above bit 15 |
| Rgb565.PackEqualIff | files/plugins/Installer.py:143 | two pixels pack alike exactly when they agree on the bits RGB565 keeps (both directions) |
| Rgb565.PackExtremes | files/plugins/Installer.py:143 | white packs to 0xffff and black to 0 |
| Hex.Format04x | files/plugins/Installer.py:146 | `"{:04x}"` output is at least four characters; `Hex.Format04xRoundTrip` and `Hex.Format04xDigits` carry its value and exact digits |
| Hex.ToHexRoundTrip | files/plugins/Installer.py:146 | the shortest hex rendering is lowercase hex text, parses back to the number, and has no leading zero unless the number is 0 |
| Hex.Format04xRoundTrip | files/plugins/Installer.py:146 | `"{:04x}"` output is lowercase hex text that parses back to the number, and is exactly four characters iff the number is below 2^16 |
| Hex.Format04xDigits | files/plugins/Installer.py:146 | below 2^16 the output is the four nibbles, most significant first |
| Hex.HexValueDefinedIff | files/plugins/Installer.py:146 | text parses as hex iff every character is a lowercase hex digit |
| Hex.HexValueInjective | files/plugins/Installer.py:146 | equal-length hex texts with the same value are the same text, so a four-digit rendering is unique |
| Snapshot.SwapBytes | files/plugins/Installer.py:149 | `hex[2:4] + hex[0:2]` keeps four-character text four characters long; `Snapshot.SwapBytesInvolution` shows it is undone by itself |
| Snapshot.EncodePixel | files/plugins/Installer.py:143-149 | every pixel is written as exactly four characters; `Snapshot.EncodePixelLittleEndian` and `Snapshot.DecodeEncodePixel` carry what they mean |
| Snapshot.SwapBytesInvolution | files/plugins/Installer.py:149 | swapping `hex[2:4] + hex[0:2]` twice restores four-character text |
| Snapshot.EncodePixelLittleEndian | files/plugins/Installer.py:143-149 | a pixel's four characters are hex: the first two are the packed value's low byte, the last two its high byte |
| Snapshot.DecodeEncodePixel | files/plugins/Installer.py:143-149 | un-swapping and parsing a pixel's four characters gives its packed value back |
| Snapshot.EncodeWhite | files/plugins/Installer.py:143-149 | any pixel with all kept bits set, white included, is written "ffff" |
| Snapshot.EncodeBlack | files/plugins/Installer.py:143-149 | any pixel with all kept bits clear, black included, is written "0000" |
| Snapshot.Frame | files/plugins/Installer.py:133-161 | the frame is never empty and ends with '\r'; its length and layout are in `Snapshot.FrameLength`, `Snapshot.FrameRowLayout` and `Snapshot.FramePixelAt` |
| Snapshot.EncodePixelAsWritten | files/plugins/Installer.py:140-152 | the loop body (shift-and-or, format, slice-and-swap) produces the pixel's encoding |
| Snapshot.EncodeRowAsWritten | files/plugins/Installer.py:137-152 | the inner loop emits the row's pixel encodings left to right, four characters each |
| Snapshot.CreateSnapshot | files/plugins/Installer.py:124-161 | the loops produce the frame of the bitmap, `4*W*H + 9*H + 1` characters long |
| Snapshot.FrameLength | files/plugins/Installer.py:133-158 | a W x H frame has `4*W*H + 9*H + 1` characters |
| Snapshot.FrameRowLayout | files/plugins/Installer.py:136-155 | row y starts at offset `y*(4W+9)`; its 4W pixel characters come first, then "\rM10086 ;" |
| Snapshot.FramePixelAt | files/plugins/Installer.py:136-152 | pixel (x, y) is the four characters at offset `y*(4W+9) + 4x` |
| Snapshot.FramePixelDecodes | files/plugins/Installer.py:136-152 | the four characters at a pixel's offset decode to that pixel's packed value, so the frame can be read back |
| Snapshot.FrameEnd | files/plugins/Installer.py:157-158 | the frame ends with one '\r' right after the last row's terminator |
| Snapshot.SinglePixelFrame | files/plugins/Installer.py:136-158 | a 1x1 frame is the pixel's four characters, then "\rM10086 ;\r" |
| Snapshot.SingleWhiteFrame | files/plugins/Installer.py:136-158 | a lone white pixel gives "ffff\rM10086 ;\r" |
| Snapshot.SingleBlackFrame | files/plugins/Installer.py:136-158 | a lone black pixel gives "0000\rM10086 ;\r" |
| Snapshot.FrameAvoids | files/plugins/Installer.py:143-158 | a frame contains only hex digits, '\r', 'M', ' ' and ';' |
| Injection.FindPlate | files/plugins/Installer.py:182 | dict lookup finds the first plate with the number, or reports that none has it |
| Injection.Prepend | files/plugins/Installer.py:182 | `gcode_dict[0][0] = text + gcode_dict[0][0]` succeeds iff plate 0 has a first program; otherwise it raises KeyError (no plate 0) or IndexError (empty list) and leaves the dict unchanged |
| Injection.HasTargetSameShape | files/plugins/Installer.py:182 | writing program texts never changes whether or where `gcode_dict[0][0]` exists |
| Injection.VisitProgram | files/plugins/Installer.py:176-191 | the loop body keeps every plate and every list length; the blocks it writes are given by `Injection.AddSnapshotWithTarget` |
| Injection.VisitPrograms | files/plugins/Installer.py:173-191 | the inner loop keeps every plate and every list length; see `Injection.AddSnapshotWithTarget` and `Injection.AddSnapshotRaisesIff` |
| Injection.VisitPlates | files/plugins/Installer.py:172-191 | the outer loop keeps every plate and every list length; see `Injection.AddSnapshotWithTarget` and `Injection.AddSnapshotRaisesIff` |
| Injection.AddSnapshotToGcode | files/plugins/Installer.py:164-191 | a missing or empty `gcode_dict` is left alone without error; otherwise the plates and list lengths are unchanged |
| Injection.AddSnapshotWithTarget | files/plugins/Installer.py:172-191 | with a `gcode_dict[0][0]`, nothing is raised and only that program changes: it gains exactly the blocks of the reference `RefPlates`, one per tag in each program's text as read at its turn |
| Injection.AddSnapshotRaisesIff | files/plugins/Installer.py:172-191 | the hook raises iff some program is tagged and there is no `gcode_dict[0][0]`; then it raises KeyError or IndexError and the dict is unchanged |
| Injection.AddSnapshotUntagged | files/plugins/Installer.py:172-191 | without any tag the dict is unchanged and nothing is raised, whether or not plate 0 exists |
| Injection.AddSnapshotOnlyPrepends | files/plugins/Installer.py:179-191 | every program other than `gcode_dict[0][0]` is unchanged, and that one only gains text in front |
| Injection.AddSnapshotKeepsTags | files/plugins/Installer.py:179-191 | any substring a program held before the hook, its tags included, is still there after it |
| Injection.FrameCarriesNoTag | files/plugins/Installer.py:176-187 | a frame never contains ";gimage" or ";simage" |
| Injection.GimageHeaderIsTagged | files/plugins/Installer.py:176-178 | the large block's header ";;gimage:" itself contains ";gimage" |
| Injection.BothTagsOrder | files/plugins/Installer.py:176-191 | a plate-0 program holding both tags becomes ";simage:" small frame, ";;gimage:" large frame, then its text |
| Injection.SelfFeedback | files/plugins/Installer.py:172-182 | for the dict `{1: [";gimage"], 0: ["G28"]}`, plate 0's first program becomes the large block twice, then "G28", and nothing is raised |
| Injection.SimageFeedback | files/plugins/Installer.py:172-191 | for the dict `{1: [";simage"], 0: ["G28"]}`, plate 0's first program becomes the small block twice, then "G28" (no large block), and nothing is raised |
| Injection.SimageHeaderBlocksGimage | files/plugins/Installer.py:176-187 | the small block's header followed by text without 'g' never contains ";gimage" |

## Left out

- `installFiles` (lines 34-122) copies resource files and shows a message. It is file-system I/O with no logic to prove.
- `__init__` (lines 24-32) registers menu items and connects the hook to the host's write event. This is host wiring.
- The renderer call `Snapshot.snapshot` (line 127) belongs to the host application.
  - In `CreateSnapshot`, the bitmap is an input.
  - In `AddSnapshotToGcode`, the finished large and small frames are the parameters `big` and `small`.
  - The source renders a frame afresh for each tagged program. The model assumes every render of a size gives the same frame.
  - The requested sizes (200x200 and 100x100) therefore do not appear.
- `Logger.log` (line 168) is a side effect only.
- The alpha channel of `pixelColor` is never read by the source, so it is not modelled.
- `pixelColor` outside the image is not modelled: `CreateSnapshot` requires every row to be `width` pixels long, as a rendered image always is.
- The commented-out tag removal (lines 180 and 189) is not part of the running code.
- `gcode_dict` is a sequence, so it can hold the same plate number twice, which a Python dict cannot. Lookup then takes the first such plate.
- Exceptions other than the `KeyError` and `IndexError` of `gcode_dict[0][0]` are not modelled. An example is a program that is not a string.
- The `output_device` argument of the hook is never used.
