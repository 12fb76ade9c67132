# Verified models of the GIF decoder and of six form-level algorithms

This project models, in Dafny, the algorithmic parts of MySQL Workbench that sit inside its user interface code, and
proves what they are for. Most of it is about the GIF decoder of the tree-view control library.

## What is modelled

**The GIF decoder** (`ext/Aga.Controls/GifDecoder.cs`), from bytes to frames, in layers:

- `BitStrings`: bytes, the bit operators the decoder uses, and bit strings written least significant bit first.
- `Lzw`: variable-width LZW as Appendix F of GIF89a describes it. A table of strings, the code widths, and a decoder
  over a bit string that knows nothing of arrays, masks or stacks. `Why` says how decoding ended.
- `LzwEncoder`: what it means for a code sequence to transmit pixels (`Encodes`: any choice of matching strings, any
  placement of clear codes, one end code), and a greedy encoder that clears wherever a policy tells it to and always
  when the table is full.
- `DeferredClear`: transmissions that also use Appendix F's deferred clear, data codes sent while the table stays full.
  The decoder stops at the first such code, so these come out right exactly when the pixels wanted were sent before it.
- `LzwTables`, `CodeReader`, `GifDecoding`: the decoder as written, a class whose methods update `prefix`, `suffix`,
  `pixelStack`, `pixels`, `block` and the reader's fields in place, with the loops of the original. They are proved
  against `Lzw`, whatever those arrays held before.
- `SubBlocks`, `ByteStreams`: data sub-blocks (sections 15 and 16 of GIF89a) in a stream that may cut its reads short.
- `Interlace`, `FrameCopy`: the pass counter against Appendix E of GIF89a, and the clipped copy into the screen.
- `GifFile`, `GifRoundTrip`: files as byte strings built from headers, extensions and images (sections 17 to 27 of
  GIF89a), the frames they stand for, and the way from an encoder's pixels to screen positions.
- `FileContents`: which frames and which loop count a whole file yields, and exactly when stale bytes in the block buffer
  spoil the loop count.
- `GifSample`: one small file byte by byte, with what reading it gives.
- `DecoderLimits`: inputs on which the decoder departs from GIF89a: data sizes below 2, a first code that is no root
  code, blocks that are cut off, image data that runs out. Each has the exact condition and an input or step behind it.

The main chain of results: `InterpretCode` refines one dictionary step, `DecodePixels` and `DecodeImageData` refine the
whole dictionary decoder, `DecoderInvertsEncoder` shows that decoder inverts every conforming encoder, `DecodeSent` puts
the two together for the array decoder, `ReadFile` reads a whole file into the frames that its items stand for,
`TransmittedPixelShown` says which transmitted pixel each screen position shows, `ReadSentFile` says it of every frame
of a file, and `ShownFromBytes` puts it in terms of the file's bytes.

**Six algorithms in forms and panels**, without their widgets:

- `UserTypeEditors`: the user-defined-type editor, edits kept apart from the catalog and committed on OK. The catalog,
  its types and the editor are classes. `TypeHistory` says what becomes of each row and each type over any run of
  edits. `ArgumentList`: the parser and printer of type arguments.
- `SnippetFile`: the shell's snippet file, with the bounded line buffer of the loader. `SnippetText`: the collapsing of
  control characters in snippet descriptions.
- `ClassTrees`: the class hierarchy built by recursion over a flat list.
- `ConnectionEditors`, `FreshNames`: the server instance editor's parallel lists and the numbering of new names.
- `CollapseStates`: saving and restoring which sidebar sections are collapsed.

`Sequences` and `Strings` hold what several of these share.

## How to read the model

- Fixed-width integers are mathematical integers. Pixel counts are limited to 31 bits by a precondition; all other
  values of the decoder stay small (codes below 4096, at most 19 buffered bits). Colours are signed 32-bit values.
- The stream is a byte string with a policy that says how many bytes each read delivers, at least one while there are any.
- Parameters stand for what the model does not contain: the screen each frame starts from (`starting`), the text that
  dialogs return, the order of the class list.
- Ghost parameters of the reading methods (`items`, `im`, `chunks`, `h`) name what stands in the stream. They make the
  contracts readable and have no effect on what a method does.
- Where the decoder and GIF89a disagree the decoder is followed. Results about that are in `DecoderLimits`,
  `DeferredClear` and `Interlace.InterlaceCorrectIff`. The block buffer keeps stale bytes behind short blocks, and the
  loop count and the NETSCAPE test can pick them up; `FileContents.NetscapeCountIff`, `FileContents.LooksNetscapeIff` and
  `FileContents.FileCountIff` say exactly when that matters.

## Model

| member | source | states |
|---|---|---|
| LzwEncoder.DecoderInvertsEncoder | ext/Aga.Controls/GifDecoder.cs:418-501 | From any table state, the decoder run over the packed codes of any conforming encoder delivers the pending and then the transmitted pixels, up to the number asked for; with fewer it ends with the end code. Trailing bits do not matter. |
| LzwEncoder.StepInverts | ext/Aga.Controls/GifDecoder.cs:448-494 | One data code: the decoder, one entry behind the encoder, ends up with the entry the encoder has just offered and with the string the encoder meant, also when the code is that very entry (code == available). |
| LzwEncoder.Transmitted | ext/Aga.Controls/GifDecoder.cs:420-494 | Reading one code of a transmission consumes a prefix of the pixels and leaves a transmission of the rest for the decoder's new table; only the end code stops it, and only when no pixels are left. |
| LzwEncoder.GreedyEncodes | ext/Aga.Controls/GifDecoder.cs:369-508 | The longest-match encoder of Appendix F, with clear codes at any places, is a conforming encoder for all pixels below 2^data size. |
| LzwEncoder.RoundTrip | ext/Aga.Controls/GifDecoder.cs:369-508 | Encoding, packing into bytes and decoding gives the pixels back, followed by zeros when more pixels were asked for. |
| LzwEncoder.AnyEncoderRoundTrip | ext/Aga.Controls/GifDecoder.cs:369-508 | The same for every conforming encoder and any bytes after the data. |
| LzwEncoder.Longest | ext/Aga.Controls/GifDecoder.cs:448-494 | The encoder's choice is a known string that matches, and no known string that matches is longer. |
| LzwEncoder.CodeFits | ext/Aga.Controls/GifDecoder.cs:437-448 | Every code that may be sent fits the current code width. |
| DeferredClear.DecoderUntilDeferred | ext/Aga.Controls/GifDecoder.cs:481-482 | Of any transmission, deferred clears or not, the decoder delivers exactly the pixels sent before the first data code with a full table, and says that this is why it stopped. |
| DeferredClear.DeliveredIff | ext/Aga.Controls/GifDecoder.cs:481-482 | The first pixels wanted come out if and only if they are sent before that code. |
| DeferredClear.DeferredPixelsIff | ext/Aga.Controls/GifDecoder.cs:481-506 | The whole image comes out if and only if every pixel sent too late is 0, because missing pixels become 0. |
| DeferredClear.OnesComeOutIff | ext/Aga.Controls/GifDecoder.cs:481-482 | A concrete family: n pixels of value 1, one code each, come out if and only if n is at most 4095 - clear. |
| DeferredClear.EncodesIff | ext/Aga.Controls/GifDecoder.cs:481-482 | The transmissions of the round trip are exactly those without a deferred clear. |
| Lzw.RunLength | ext/Aga.Controls/GifDecoder.cs:418-506 | The decoder never delivers more pixels than asked for, and exactly that many when it says the image is filled. |
| LzwTables.AddEntry | ext/Aga.Controls/GifDecoder.cs:481-494 | Storing (old code, first symbol) at index available turns arrays that represent a table into arrays that represent the table with one more string, whatever is in the unused part. |
| LzwTables.Unlink | ext/Aga.Controls/GifDecoder.cs:471-476 | For a live entry c the link prefix[c] is below c and is itself a live entry or root, never the clear or end code; the string of c is that link's string and suffix[c]. |
| LzwTables.GrowthTest | ext/Aga.Controls/GifDecoder.cs:486-492 | The mask test (available & mask) == 0 grows the width exactly when the least width that fits the next free code grows, capped at 12, and adding available to the mask gives the mask of the new width. |
| Lzw.WidthFits | ext/Aga.Controls/GifDecoder.cs:403-404 | Below 12 bits the next free code is less than 2^width. |
| Lzw.WidthIsLeast | ext/Aga.Controls/GifDecoder.cs:403-404 | No smaller width would do. |
| LzwTables.Unwind | ext/Aga.Controls/GifDecoder.cs:465-476 | Unwinding ends at a root code with the string's symbols on the stack in reverse, the first one apart; the stack, with that first symbol, needs at most available - clear, so at most 4096, places. |
| LzwTables.AddString | ext/Aga.Controls/GifDecoder.cs:465-494 | A data code after another: stops exactly when 4096 entries are in use; otherwise the arrays and variables mirror the grown table and the stack holds the code's string. |
| LzwTables.InterpretCode | ext/Aga.Controls/GifDecoder.cs:443-494 | One pass through the interpretation of a code does what the dictionary decoder's step does, in all cases: unknown code, end, clear, first code, full table, data code. |
| CodeReader.TakeCode | ext/Aga.Controls/GifDecoder.cs:437-441 | Masking and shifting the accumulator takes the next code off the front of the bits still to come. |
| CodeReader.LoadByte | ext/Aga.Controls/GifDecoder.cs:432-435 | Adding a byte shifted by the number of buffered bits appends its eight bits. |
| CodeReader.ProgressCodes | ext/Aga.Controls/GifDecoder.cs:418-501 | What has been stored, what is pending and what the remaining bits will give together stay the final result when a code is read. |
| CodeReader.CodesAreFields | ext/Aga.Controls/GifDecoder.cs:418-501 | With all data bytes read as one little-endian number N, over a whole run and from any state, every code the decoder reads is N / 2^o mod 2^w, where w is the width of the moment and o the sum of the widths before. |
| CodeReader.PixelsAreOfNumber | ext/Aga.Controls/GifDecoder.cs:414-506 | So the decoded pixels are those of the decoder that works on N and the running offset. |
| CodeReader.CodeIsField | ext/Aga.Controls/GifDecoder.cs:432-441 | A stretch of w bits at bit offset o is N / 2^o mod 2^w. |
| BitStrings.MaskTakesLowBits | ext/Aga.Controls/GifDecoder.cs:439 | Masking with 2^w - 1 is the value of the first w bits. |
| BitStrings.ShiftDropsLowBits | ext/Aga.Controls/GifDecoder.cs:440 | Shifting right by w is the value of the bits after them. |
| BitStrings.PackBytesKeepsBits | ext/Aga.Controls/GifDecoder.cs:432-435 | Bits packed into bytes come out again as a prefix of the bytes' bits. |
| BitStrings.BitsAreLittleEndian | ext/Aga.Controls/GifDecoder.cs:432-435 | The value of all bits is the little-endian number of the bytes. |
| GifDecoding.GifDecoder.ReadBlock | ext/Aga.Controls/GifDecoder.cs:552-579 | Under every sequence of short reads the buffer holds exactly the next block over what was in it, and the stream stands after the block. |
| GifDecoding.GifDecoder.Skip | ext/Aga.Controls/GifDecoder.cs:854-860 | From anywhere in a complete chain it stops just after the terminator, with the chain's blocks laid over each other in the buffer; after an earlier error it reads one block only. |
| GifDecoding.GifDecoder.DecodePixels | ext/Aga.Controls/GifDecoder.cs:414-501 | The loop stores what the dictionary decoder delivers for the chain's bytes, whatever the arrays held; it ends (pixels to go, bits to go, bytes to go, in this order), the accumulator never holds more than 19 bits, and the chain's end is still ahead unless the data ran out. |
| GifDecoding.GifDecoder.DecodeImageData | ext/Aga.Controls/GifDecoder.cs:369-508 | After it the first iw*ih pixels are the decoded ones padded with zeros, with working arrays made once and reused. |
| GifDecoding.GifDecoder.DecodeAndSkip | ext/Aga.Controls/GifDecoder.cs:764-765 | Decoding and skipping, whatever ended the decoding, lands just after the image's terminator if and only if the data did not run out before the pixels, or nothing follows in the stream; otherwise it lands after the chain that follows. |
| SubBlocks.FramedChain | ext/Aga.Controls/GifDecoder.cs:552-579 | Sub-blocks written one after the other with a terminator are a complete chain with the sub-blocks' bytes as payload, ending just after the terminator. |
| GifRoundTrip.ImageRoundTrip | ext/Aga.Controls/GifDecoder.cs:369-508 | An image block whose sub-blocks, cut anyhow, carry one transmitted pixel for each position decodes to exactly those pixels, for data sizes 2 to 11. |
| GifRoundTrip.GreedyImageRoundTrip | ext/Aga.Controls/GifDecoder.cs:369-508 | The same for the greedy encoder, for all pixels below 2^data size and data sizes 2 to 8. |
| GifRoundTrip.DecodeSent | ext/Aga.Controls/GifDecoder.cs:369-508 | The array decoder, on a stream that carries what any conforming encoder sent in any sub-blocks, ends with exactly the sent pixels in its pixel array and just after the terminator, whatever its arrays held. |
| GifRoundTrip.DecodeGreedy | ext/Aga.Controls/GifDecoder.cs:369-508 | The same for the greedy encoder with clears anywhere and its bytes cut into sub-blocks of any size from 1 to 255. |
| GifRoundTrip.CutFlattens | ext/Aga.Controls/GifDecoder.cs:552-579 | Cutting bytes into sub-blocks of at most any size from 1 to 255 loses nothing. |
| GifRoundTrip.TransmittedFrame | ext/Aga.Controls/GifDecoder.cs:725-787 | Such an image is a complete one, and its frame is the transmitted pixels copied over the starting screen. |
| GifRoundTrip.ReadSentFile | ext/Aga.Controls/GifDecoder.cs:340-362 | Reading a file whose images were each sent by a conforming encoder gives one frame for each image, and every position of every frame shows the pixel sent for it, or what was there. |
| GifRoundTrip.SentFileShown | ext/Aga.Controls/GifDecoder.cs:251-304 | The frames such items stand for show what was sent, each with the colour table and transparency in effect at its image. |
| GifRoundTrip.TransmittedPixelShown | ext/Aga.Controls/GifDecoder.cs:251-304 | At every height: a position that a pixel was sent for shows that pixel's entry of the colour table, or stays as it was if the entry is 0 or the pixel is the transparent one; every other position stays as it was. |
| GifRoundTrip.ReachedInside | ext/Aga.Controls/GifDecoder.cs:251-304 | Those positions are the image's rectangle, except for interlaced images of height 2 to 4. |
| GifRoundTrip.ShownFromBytes | ext/Aga.Controls/GifDecoder.cs:251-304 | The same from the file's bytes alone: red, green and blue of the screen are the pixel's three bytes in the local or the header's table, alpha is 255, transparency and delay are those of the last graphic control before the image. |
| Interlace.InterlaceOrder | ext/Aga.Controls/GifDecoder.cs:251-280 | Outside heights 2 to 4 step i fills the row Appendix E puts i-th, and the pass counter stays within 4. |
| Interlace.InterlaceCorrectIff | ext/Aga.Controls/GifDecoder.cs:258-280 | The decoder's order is that of Appendix E exactly for heights other than 2, 3 and 4, because it takes at most one pass step per row. |
| Interlace.RowArrives | ext/Aga.Controls/GifDecoder.cs:258-280 | Appendix E's order has every row of the image at the step computed for it. |
| Interlace.StepInverts | ext/Aga.Controls/GifDecoder.cs:258-280 | And each step's row is one of the image's, with that step: the order is a bijection. |
| Interlace.RowsDistinct | ext/Aga.Controls/GifDecoder.cs:251-280 | No two steps of the decoder fill the same row, at any height. |
| Interlace.SmallHeights | ext/Aga.Controls/GifDecoder.cs:258-280 | The rows the decoder fills for heights 2, 3 and 4; row 4 is not one of the image's. |
| Interlace.StepForFills | ext/Aga.Controls/GifDecoder.cs:251-280 | For every height and row the one step that fills it, or that none does. |
| Interlace.SixteenRows | ext/Aga.Controls/GifDecoder.cs:258-280 | The order of Appendix E for 16 rows, written out. |
| FrameCopy.CopyLines | ext/Aga.Controls/GifDecoder.cs:251-304 | The row loop over a rectangle that may overhang the screen leaves at every screen position the last non-zero colour brought to it, or what was there; all indices stay in range. |
| FrameCopy.CopyLine | ext/Aga.Controls/GifDecoder.cs:281-302 | One source row, clipped at the screen's right edge; nothing outside it changes. |
| FrameCopy.ScreenShows | ext/Aga.Controls/GifDecoder.cs:281-302 | After the loop, at every height: a position whose line step k filled shows the table entry of the source pixel k * iw + x - ix if that is not 0; any other position is as it was. |
| FrameCopy.ImageBrings | ext/Aga.Controls/GifDecoder.cs:251-304 | At every height: in the image's columns a line is brought the source row of the one step that fills it, and nothing elsewhere. |
| FrameCopy.ShowsComposed | ext/Aga.Controls/GifDecoder.cs:251-304 | The pointwise statement determines the whole screen. |
| GifDecoding.GifDecoder.ReadColorTable | ext/Aga.Controls/GifDecoder.cs:587-616 | A table that arrives in one read becomes 256 entries: alpha 255 and red, green and blue from the three bytes of each colour, 0 for missing ones; a short read is a format error and no table. |
| GifFile.ColoursUnpacked | ext/Aga.Controls/GifDecoder.cs:604-612 | Which byte of the table is which part of which entry. |
| GifFile.ActiveColour | ext/Aga.Controls/GifDecoder.cs:740-753 | The entry in use for a pixel value is 0 for the transparent one, and otherwise the local table's or the global one's. |
| GifDecoding.GifDecoder.ReadGlobalTable | ext/Aga.Controls/GifDecoder.cs:716-720 | The global table unpacks the header's bytes, and the background colour is its entry at the background index; without the flag both stay. |
| GifDecoding.GifDecoder.ReadLSD | ext/Aga.Controls/GifDecoder.cs:788-809 | Width, height, table flag, table size, background index and aspect ratio are those of the seven bytes. |
| GifDecoding.GifDecoder.ReadGraphicControlExt | ext/Aga.Controls/GifDecoder.cs:683-695 | Transparency is the lowest bit of the second byte, disposal its bits 2 to 4 with 0 read as 1, the delay ten times the little-endian number after it, the transparent index the fifth byte; nothing else changes. |
| FileContents.ControlInEffect | ext/Aga.Controls/GifDecoder.cs:623-678 | At every item of a file disposal, transparency, delay and transparent index are those of the last graphic control before it, or what they were at the start. |
| FileContents.BackgroundColour | ext/Aga.Controls/GifDecoder.cs:745-749 | The background colour is 0 from the first image on that has no table of its own while the background index is the transparent one, and unchanged before. |
| GifDecoding.GifDecoder.ReadNetscapeExt | ext/Aga.Controls/GifDecoder.cs:813-826 | For any chain of sub-blocks, short ones included, the count is taken from the buffer whenever it starts with 1, stale bytes and the look at the terminator included. |
| FileContents.NetscapeCountIff | ext/Aga.Controls/GifDecoder.cs:813-826 | A NETSCAPE extension sets the count of its last loop sub-block, or keeps the old count when it has none, if and only if the last sub-block that starts with 1 has three bytes, or its stale bytes happen to show the count there was before it. The condition needs only the sub-blocks and the old count. |
| FileContents.ShortLoopBlock | ext/Aga.Controls/GifDecoder.cs:813-826 | A concrete failure: a loop sub-block of one byte sets the count to the letters E and T of the name. |
| FileContents.LooksNetscapeIff | ext/Aga.Controls/GifDecoder.cs:646-652 | An application extension is taken for NETSCAPE's if and only if its first eleven bytes are the name, or it is shorter, the name starts with it, and stale bytes supply the rest. |
| FileContents.StaleNetscape | ext/Aga.Controls/GifDecoder.cs:645-657 | A concrete failure: an extension with an empty first block after a NETSCAPE one sets the count. |
| FileContents.LeavesRightIff | ext/Aga.Controls/GifDecoder.cs:645-657 | Any one item leaves the count it is meant to if and only if it is no application extension, or NETSCAPE's and as above, or one that is not taken for NETSCAPE's, or has no sub-block that starts with 1, or whose last one shows the old count. |
| FileContents.BufferAfterAll | ext/Aga.Controls/GifDecoder.cs:552-579 | After any items the buffer holds all blocks read so far, each over those before, names, image data and skipped chains included. |
| FileContents.OverlaidByte | ext/Aga.Controls/GifDecoder.cs:552-579 | So byte j of it is that of the last block with more than j bytes. |
| FileContents.FileCountIff | ext/Aga.Controls/GifDecoder.cs:623-678 | For a whole file the loop count is the one meant, after each item, if and only if every item meets the condition of LeavesRightIff on the blocks before it. |
| FileContents.FileCount | ext/Aga.Controls/GifDecoder.cs:623-678 | For any file at all the loop count is what the last item sets that is taken for NETSCAPE's and has a sub-block starting with 1; without one it stays. |
| FileContents.RegularCount | ext/Aga.Controls/GifDecoder.cs:623-678 | When names have eleven bytes and NETSCAPE's loop sub-blocks at least three, the file's loop count is that of the last loop sub-block of all, whatever the buffer held. |
| FileContents.FrameCount | ext/Aga.Controls/GifDecoder.cs:623-678 | There are as many frames as images. |
| FileContents.FrameAt | ext/Aga.Controls/GifDecoder.cs:623-678 | The frame of each image stands at its place among the images and is made with what all items before it left set. |
| GifDecoding.GifDecoder.ReadApplication | ext/Aga.Controls/GifDecoder.cs:645-657 | An application extension with a first block of any size counts as NETSCAPE's when the buffer's first eleven bytes say so, and is skipped otherwise. |
| GifDecoding.GifDecoder.ReadDescriptor | ext/Aga.Controls/GifDecoder.cs:727-738 | The image rectangle and the interlace flag are those of the nine bytes. |
| GifDecoding.GifDecoder.DecodeAll | ext/Aga.Controls/GifDecoder.cs:764-765 | For complete data and data that runs out alike: the pixels are the decoded ones padded with zeros, and the stream stands after all that was read and skipped, whose blocks are in the buffer. |
| GifDecoding.GifDecoder.ReadImage | ext/Aga.Controls/GifDecoder.cs:725-787 | An image adds exactly its frame, also when its data runs out, leaves the stream after its terminator or after the chain skipped then, and the global colour table as it was before its transparent entry was cleared. An image without any colour table is a format error after its descriptor and adds nothing. |
| GifDecoding.GifDecoder.ReadContents | ext/Aga.Controls/GifDecoder.cs:623-678 | For every sequence of extensions of any kind, zero bytes and images, those whose data runs out included, the frames are those the items stand for, in order, with each extension in effect for the images after it, and the loop count and buffer are as the items leave them; the stream stands just after the trailer with status OK, or just after the byte that is no introducer, or the descriptor of an image without any colour table, with a format error and all frames before it kept. |
| GifDecoding.GifDecoder.ReadHeader | ext/Aga.Controls/GifDecoder.cs:701-720 | A GIF signature, screen descriptor and global table set the decoder's fields; any other signature is a format error after six bytes. |
| GifDecoding.GifDecoder.ReadFile | ext/Aga.Controls/GifDecoder.cs:340-362 | A whole file: status, frames, loop count and the global colour table are what the header and the items say, and frameCount is the number of images; in a regular file the loop count is that of the last loop sub-block; without a GIF signature there is a format error and no frame. |
| GifSample.ReadSample | ext/Aga.Controls/GifDecoder.cs:340-362 | A whole file byte by byte: two frames with these colours, delays and one transparent pixel, loop count 263, status 0 after 83 bytes. |
| GifFile.NextItem | ext/Aga.Controls/GifDecoder.cs:627-677 | The next byte decides which kind of item follows, and no byte of one kind is read as another. |
| GifFile.FieldsOfByte | ext/Aga.Controls/GifDecoder.cs:685-692 | The flag and field masks are the bits GIF89a assigns: low bit, three low bits, bits 2 to 4, bit 6, bit 7. |
| DecoderLimits.WidthsExact | ext/Aga.Controls/GifDecoder.cs:401-404 | After any number of additions from a clear the width is the least that fits and the mask is 2^width - 1, for data sizes 2 to 11. |
| DecoderLimits.MaskExactIff | ext/Aga.Controls/GifDecoder.cs:486-492 | The mask is right after every number of additions exactly for data sizes of at least 2. |
| DecoderLimits.FirstCodeUnwindsIff | ext/Aga.Controls/GifDecoder.cs:459-494 | For every first code f that reaches line 448 without being the clear or end code, unwinding the entry it leads to ends if and only if f is a root code, f < clear. |
| DecoderLimits.FirstThenRoot | ext/Aga.Controls/GifDecoder.cs:448-494 | The decoder's own steps for a first code f and a root code after it store f as the prefix of clear + 2, so that entry can be unwound exactly when the dictionary decoder accepts f. |
| DecoderLimits.BadFirstIff | ext/Aga.Controls/GifDecoder.cs:443-448 | The only first code that passes the tests without being a root code is the next free one, clear + 2. |
| DecoderLimits.BlockFillsIff | ext/Aga.Controls/GifDecoder.cs:559-567 | On every stream, the block reader's loop has all bytes of a block after some number of reads if and only if the stream holds them, and then as many reads as bytes are enough; otherwise the loop, which waits for -1, does not end. |
| DecoderLimits.SkipsTooFar | ext/Aga.Controls/GifDecoder.cs:764-765 | A concrete image whose data runs out, followed by a zero byte: skipping takes that byte for a terminator. |
| SubBlocks.FramedBuffer | ext/Aga.Controls/GifDecoder.cs:552-579 | Reading a framed chain leaves its sub-blocks in the buffer, each over the one before. |
| UserTypeEditors.EditKeepsStep | frontend/common/user_defined_type_editor.cpp:310-360 | Every add, delete, rename or redefinition keeps as many rows as types, kept types first and in catalog order, and every type in use present. |
| UserTypeEditors.RunKeepsStep | frontend/common/user_defined_type_editor.cpp:310-360 | So does every run of edits. |
| UserTypeEditors.KeptAfterDelete | frontend/common/user_defined_type_editor.cpp:344-360 | Deleting a row takes exactly its type out of what will be kept in the catalog. |
| UserTypeEditors.KeptIsValid | frontend/common/user_defined_type_editor.cpp:364-413 | What remains after the deleted types are taken out are the types of the rows, in order, with distinct ids, every used one among them. |
| UserTypeEditors.UserDefinedTypeEditor.IsTypeUsed | frontend/common/user_defined_type_editor.cpp:326-340 | True exactly when some column of some table of some schema has the type. |
| UserTypeEditors.UserDefinedTypeEditor.AddClicked | frontend/common/user_defined_type_editor.cpp:310-319 | One more row "usertype", "INT(11)" at the end, for no type yet. |
| UserTypeEditors.UserDefinedTypeEditor.DeleteClicked | frontend/common/user_defined_type_editor.cpp:344-360 | Takes out the row and the type at the same place, or nothing when a column uses the type. |
| UserTypeEditors.LegalNameIff | frontend/common/user_defined_type_editor.cpp:381-389 | Legal names are the non-empty ones of digits, letters, underscores and spaces. |
| UserTypeEditors.SameNameIff | frontend/common/user_defined_type_editor.cpp:440 | Names are compared letter by letter, where an upper and a lower case letter 32 apart count as equal. |
| UserTypeEditors.UserDefinedTypeEditor.CheckNames | frontend/common/user_defined_type_editor.cpp:374-408 | Accepts exactly the row lists with legal and pairwise different names; otherwise names the first row at fault and whether its name is illegal or taken. |
| UserTypeEditors.UserDefinedTypeEditor.RemoveMissing | library/grt/src/grtpp_util.cpp:906-911 | Removing from the end to the start leaves exactly the items that are not missing, in order. |
| UserTypeEditors.UserDefinedTypeEditor.OkClicked | frontend/common/user_defined_type_editor.cpp:374-466 | Accepted exactly when the names are in order; then the catalog's list is the rows in order, a row of an existing type still that object and the others new, ids distinct, and every column's type listed. Each entry's server type is looked up anew exactly when its definition changed, so if all of them matched their definitions and no server type is unnamed they still do. A refused OK changes nothing. |
| UserTypeEditors.WrittenResolves | frontend/common/user_defined_type_editor.cpp:430-453 | Writing a row to an entry whose server type matches its definition gives one that does again; so does writing to a new entry when no server type is unnamed. |
| UserTypeEditors.UserDefinedTypeEditor.FindType | frontend/common/user_defined_type_editor.cpp:439-445 | The first server type of that name, ignoring the case of ASCII letters, or none. |
| TypeHistory.RowHistory | frontend/common/user_defined_type_editor.cpp:310-360 | Over any run of edits a row that is not deleted keeps its type, and its name, definition and flags are each what the last edit of that field at the row's place of the moment set, or what they were. |
| TypeHistory.RowOrigin | frontend/common/user_defined_type_editor.cpp:310-360 | Every row at the end was there at the start or was added by one of the edits as "usertype", "INT(11)". |
| TypeHistory.PlacesKeepOrder | frontend/common/user_defined_type_editor.cpp:310-360 | Rows keep their order. |
| TypeHistory.UntouchedKept | frontend/common/user_defined_type_editor.cpp:374-466 | After OK an entry whose row no edit was made to is exactly as it was. |
| TypeHistory.EditTypes | frontend/common/user_defined_type_editor.cpp:157-466 | A whole dialog, opened on the catalog, any run of edits, then OK: entries of deleted rows are no longer listed, every other one stands at its row's place with what its row was last given and its server type unless the definition is another one, and new rows are new entries; a refused OK changes nothing. |
| ArgumentList.ParseArguments | frontend/common/user_defined_type_editor.cpp:496-512 | The in-place stripping and unquoting of the parts gives the list of the pure parser. |
| ArgumentList.PrintArguments | frontend/common/user_defined_type_editor.cpp:514-526 | Prints the quoted strings joined by comma and space. |
| ArgumentList.PartMeans | frontend/common/user_defined_type_editor.cpp:501-508 | A part stands for what is left without the white space around it, and without its quotes if it starts with one. |
| ArgumentList.ArgumentRoundTripIff | frontend/common/user_defined_type_editor.cpp:495-525 | Printing a list and parsing the text gives the list back exactly when none of its strings holds a comma or a NUL; quotes, outer spaces and empty strings are kept. |
| ArgumentList.ParsedIsStable | frontend/common/user_defined_type_editor.cpp:495-525 | For any text, what was parsed from it survives printing and parsing. |
| SnippetFile.GRTShellWindow.SaveSnippets | frontend/common/grt_shell_window.cpp:835-857 | Writes the user's scripts, indented and separated by blank lines, and nothing unless they are loaded, none is being shown and the file can be opened. |
| SnippetFile.SavedText | frontend/common/grt_shell_window.cpp:843-855 | In the file each line of a script follows a space, and an empty line separates scripts. |
| SnippetFile.SavedSample | frontend/common/grt_shell_window.cpp:843-855 | Two scripts and the file they give, character by character. |
| SnippetFile.GRTShellWindow.LoadSnippetsFrom | frontend/common/grt_shell_window.cpp:859-885 | Appends the rows that the nested bounded reads find in the file. |
| SnippetFile.GRTShellWindow.RefreshSnippets | frontend/common/grt_shell_window.cpp:887-896 | The rows are the global file's and then the user file's, with the boundary remembered. |
| SnippetFile.SnippetRoundTripIff | frontend/common/grt_shell_window.cpp:835-885 | Loading what was saved gives the same scripts exactly when none has a NUL, a first line over 4093 or a later line over 4092 bytes; each row is then named after its script's first line. |
| SnippetFile.BlockRead | frontend/common/grt_shell_window.cpp:863-882 | A fitting script is read back from its block, blank and trailing lines included; the next line that does not start with a space is dropped, the blank one or any other, and reading stands after it. |
| SnippetFile.BlockMisread | frontend/common/grt_shell_window.cpp:863-882 | Any other script is read back as something else, whatever follows it. |
| SnippetFile.ReplaceString | library/base/string_utilities.cpp:836-855 | Replacing a one-character text joins the stretches between its occurrences with the replacement. |
| SnippetText.Compress | frontend/common/snippet_list.cpp:111-135 | Marking control characters, merging pairs of marks until none is left and replacing the marks ends, and equals one pass over the text. |
| SnippetText.MaximalRunIsOneSpace | frontend/common/snippet_list.cpp:111-135 | Each maximal run of characters 1 to 31, wherever it stands, becomes one space. |
| SnippetText.PlainKept | frontend/common/snippet_list.cpp:111-135 | Text without such characters is kept. |
| SnippetText.NothingLeft | frontend/common/snippet_list.cpp:111-135 | No such character is left, so compressing again changes nothing. |
| ClassTrees.Tree.ScanSubclasses | frontend/common/grt_shell_window.cpp:1683-1703 | The recursion ends and adds, below the given row, the subtree of its class: each row under its parent's, each parent's listed children all there and in list order. |
| ClassTrees.Tree.RefreshByHierarchy | frontend/common/grt_shell_window.cpp:1561-1574 | The cleared tree, whatever it held, ends up as the subtree of the root. |
| ClassTrees.TreeIsHierarchy | frontend/common/grt_shell_window.cpp:1683-1711 | The rows of the finished tree are exactly the proper descendants of the root, each once, each under its own parent, siblings in list order. |
| ClassTrees.NotOnChain | frontend/common/grt_shell_window.cpp:1683-1703 | When the root is not its own ancestor the recursion never meets a class it is inside. |
| ClassTrees.RowsDiffer | frontend/common/grt_shell_window.cpp:1683-1703 | No class gets two rows. |
| FreshNames.TakenAtMost | frontend/common/server_instance_editor.cpp:777-792 | n names take at most n of the numbered candidates, which are all different. |
| FreshNames.NumberOfDecimal | frontend/common/server_instance_editor.cpp:787 | A printed number reads back as itself, so different numbers print differently. |
| FreshNames.DecimalDigits | frontend/common/server_instance_editor.cpp:787 | It consists of digits, without leading zeros. |
| FreshNames.DecimalSample | frontend/common/server_instance_editor.cpp:787 | Three numbers as printed. |
| FreshNames.FirstFreeNameIff | frontend/common/server_instance_editor.cpp:777-792 | A name is the first free candidate exactly when nobody has it and it is the plain name, or the prefix with a number such that the plain name and all smaller numbers are taken. |
| FreshNames.SuggestName | library/grt/src/grtpp_util.h:117-132 | The suggestion is the first free candidate, found within n + 1 searches of n names, or n + 2 when numbering starts at once, since that tries number 1 twice. |
| ConnectionEditors.ServerInstanceEditor.NewName | frontend/common/server_instance_editor.cpp:777-792 | The loop ends within n + 1 scans of n connections with the first of the candidates that none of them has. |
| ConnectionEditors.ServerInstanceEditor.SelectedInstance | frontend/common/server_instance_editor.cpp:625-637 | The first instance of the connection, or none when it has none. |
| ConnectionEditors.ServerInstanceEditor.constructor | frontend/common/server_instance_editor.cpp:124-136 | Instances without a connection are dropped and all others kept in order. |
| ConnectionEditors.ServerInstanceEditor.AddInstance | frontend/common/server_instance_editor.cpp:777-810 | One more connection at the end under a name no row has, shown and selected; nothing else changes. |
| ConnectionEditors.ServerInstanceEditor.DeleteInstance | frontend/common/server_instance_editor.cpp:812-833 | Removes the selected connection, its row and all and only its instances. |
| ConnectionEditors.ServerInstanceEditor.DuplicateInstance | frontend/common/server_instance_editor.cpp:835-871 | Appends a copy of the connection under a free name, and a copy of its instance attached to the copy if it has one. |
| ConnectionEditors.ServerInstanceEditor.ReorderInstance | frontend/common/server_instance_editor.cpp:873-895 | Swaps the selected connection with its neighbour in the list and on screen, or does nothing at the ends. |
| ConnectionEditors.ServerInstanceEditor.NameChanged | frontend/common/server_instance_editor.cpp:922-941 | Renames the connection, its row and the instance shown for it, and no other; no field but their names changes. |
| ConnectionEditors.ServerInstanceEditor.Run | frontend/common/server_instance_editor.cpp:777-941 | Over any run of new, delete, duplicate, move, rename and select, row i shows connection i's name, and instances that were attached to listed connections still are. |
| ConnectionEditors.NotOfConcat | frontend/common/server_instance_editor.cpp:820-823 | Leaving out a connection's instances keeps the order of the others. |
| ConnectionEditors.MovedByOneSwaps | library/grt/src/grtpp_value.cpp:293-306 | Taking an element out and putting it back one place on swaps two neighbours, also at the end of the list. |
| CollapseStates.SimpleSidebar.GetCollapseStates | frontend/common/advanced_sidebar.cpp:1066-1074 | The text is the comma-joined entries of all sections in order. |
| CollapseStates.SimpleSidebar.SetCollapseStates | frontend/common/advanced_sidebar.cpp:1043-1062 | Applies the entries in turn, passing over malformed and unknown ones. |
| CollapseStates.EntryMeans | frontend/common/advanced_sidebar.cpp:1043-1062 | In any entry what is before the last '=' names the first section of that name, which is collapsed exactly when what follows is not zero; without '=' or such a section nothing changes. |
| CollapseStates.NumberRead | frontend/common/advanced_sidebar.cpp:1055 | A text counts as not zero exactly when, after white space and a sign, it starts with a number other than 0 that fits 32 bits. |
| CollapseStates.NothingRead | frontend/common/advanced_sidebar.cpp:1055 | A text without a digit in that place counts as zero. |
| CollapseStates.EntryApplies | frontend/common/advanced_sidebar.cpp:1043-1062 | A saved entry, even with '=' in the name, sets the flag of the section it names and no other. |
| CollapseStates.StatesRestored | frontend/common/advanced_sidebar.cpp:1043-1074 | After any number of saved entries each section has its namesake's saved flag if that entry was applied, and its own otherwise, in a sidebar of any order and state. |
| CollapseStates.CollapseRoundTrip | frontend/common/advanced_sidebar.cpp:1043-1074 | With distinct, comma-free names the saved text restores every section's flag. |
| Strings.SplitString | library/base/string_utilities.cpp:245-268 | The splitting loop yields the stretches between separators, and nothing for the empty text. |
| Strings.PartsOfJoin | library/base/string_utilities.cpp:245-268 | Splitting what was joined with single separators gives the parts back. |

## Left out

- Frame disposal, background reuse and conversion of bitmaps (`ext/Aga.Controls/GifDecoder.cs`, lines 162 to 249 and 305):
  the screen a frame starts from is the parameter `starting`, and ResetFrame's bookkeeping for it is not modelled.
- GifDecoding.GifDecoder.DecodeImageData: data sizes outside 2 to 11 and streams whose first code after a clear is not a
  root code are excluded; `DecoderLimits` shows what goes wrong there.
- GifDecoding.GifDecoder.DecodeAndSkip: when the data ran out, what follows must be a complete chain of blocks, since the
  original does not end otherwise.
- GifDecoding.GifDecoder.ReadBlock: incomplete blocks are excluded, since the original loop does not end on them.
- GifDecoding.GifDecoder.ReadContents: truncated descriptors and colour tables, and colour tables that arrive in more than one
  read, are excluded. So is an image without any colour table while transparency is on, since the original then fails on a
  null reference; an image whose data runs out needs a complete chain of blocks after it.
- GifDecoding.GifDecoder.ReadHeader: truncated screen descriptors and signatures are excluded.
- GifDecoding.GifDecoder.ReadGraphicControlExt: the fields stay in effect for all later images, as in the original; section 23 of
  GIF89a limits them to one.
- Stream exceptions, closing the stream, and the decoder's public accessors.
- `prefix` holds integers instead of 16-bit ones; the values stored are below 4096.
- UserTypeEditors.UserDefinedTypeEditor.OkClicked: does not model undo recording, log messages and notifications, or
  letters beyond ASCII in names; it assumes the catalog is not changed elsewhere while the dialog is open.
- UserTypeEditors.UserDefinedTypeEditor.AddClicked: does not model that showing the new row may rewrite its definition from the type selector.
- Drag-reordering of rows in the type editor, which does not reorder the types behind them.
- SnippetFile.ReplaceString: the search text is one character, the only use made of it here.
- SnippetFile.GRTShellWindow.LoadSnippetsFrom: line-end translation of text-mode files is not modelled.
- SnippetText.Compress: the shortening of the text to a pixel width afterwards is not modelled.
- ClassTrees.Tree.ScanSubclasses: the member rows of each class and the sorting of the list before the scan are not modelled.
- ConnectionEditors.ServerInstanceEditor.NameChanged: the group dialog for names with a slash and the trimming of the entry are
  parameters; the other entry fields are not modelled.
- ConnectionEditors.ServerInstanceEditor.AddInstance: the driver, and whether it knows the useSSL parameter, are parameters.
- FreshNames.SuggestName: names are compared as they are, without Unicode normalisation; numbers do not overflow.
- CollapseStates.SimpleSidebar.SetCollapseStates: names with NUL characters, repainting and layout are not modelled.
- All widgets, painting, layout, hit testing, dialogs and signals, and sidebar selections after entries are removed.
- The debugger bridge, wizards, preferences, plugin installation and generated accessors, which hold no algorithm of this kind.
