/** The GIF decoder of the tree-view control library: its block reader and its table-and-stack LZW decoder. */
module GifDecoding {
  import opened BitStrings
  import opened ByteStreams
  import opened SubBlocks
  import opened Lzw
  import opened LzwTables
  import opened CodeReader
  import opened FrameCopy
  import opened GifFile
  import opened FileContents

  /** One short read into a partly filled block. */
  lemma OverlayMore(first: seq<byte>, buffer: seq<byte>, d: seq<byte>, start: nat, n: nat, k: nat)
    requires n + k <= |buffer| == |first| && start + n + k <= |d|
    requires buffer[..n] == d[start..start + n] && buffer[n..n + k] == d[start + n..start + n + k]
    requires buffer[n + k..] == first[n..][k..]
    ensures buffer == Overlay(first, d[start..start + n + k])
  {
    assert buffer == buffer[..n] + buffer[n..n + k] + buffer[n + k..];
    assert d[start..start + n + k] == d[start..start + n] + d[start + n..start + n + k];
    assert first[n..][k..] == first[n + k..];
  }

  /** A partly filled block, before and after k more bytes. */
  lemma OverlaySteps(first: seq<byte>, before: seq<byte>, buffer: seq<byte>, d: seq<byte>, start: nat, n: nat, k: nat)
    requires n + k <= |buffer| == |first| && start + n + k <= |d|
    requires before == Overlay(first, d[start..start + n])
    requires buffer[..n] == before[..n] && buffer[n + k..] == before[n + k..]
    requires buffer[n..n + k] == d[start + n..start + n + k]
    ensures buffer == Overlay(first, d[start..start + n + k])
  {
    assert before[..n] == d[start..start + n] && before[n..] == first[n..];
    assert before[n + k..] == before[n..][k..];
    OverlayMore(first, buffer, d, start, n, k);
  }

  lemma DropFirst<T>(a: seq<T>, b: seq<T>)
    requires a != []
    ensures (a + b)[0] == a[0] && (a + b)[1..] == a[1..] + b
  {
  }

  lemma NothingGot(policy: (nat, nat) -> nat, p: nat, n: nat, left: nat, buffer: seq<byte>, d: seq<byte>)
    requires p <= |d|
    ensures Got(policy, p, n, left, 0) == 0 && buffer == Overlay(buffer, d[p..p])
  {
  }

  lemma GotNext(policy: (nat, nat) -> nat, p: nat, n: nat, left: nat, k: nat)
    ensures var got := Got(policy, p, n, left, k);
            Got(policy, p, n, left, k + 1) == got + ShortRead(policy(p + got, n - got), n - got, left - got)
  {
  }

  /** One block of a chain. */
  lemma ChainStep(d: seq<byte>, p: nat, buffer: seq<byte>)
    requires p <= |d| && Complete(d, p)
    ensures BlockFits(d, p) && (AtChainEnd(d, p) <==> BlockAt(d, p) == [])
    ensures var q, after := AfterBlock(d, p), Overlay(buffer, BlockAt(d, p));
            if AtChainEnd(d, p) then AfterChain(d, p, buffer) == (q, after) && Payload(d, p) == []
            else p < q && Complete(d, q) && AfterChain(d, p, buffer) == AfterChain(d, q, after) &&
                 Payload(d, p) == BlockAt(d, p) + Payload(d, q)
  {
    assert Overlay(buffer, []) == buffer;
  }

  lemma OverlayFront(buffer: seq<byte>, c: seq<byte>)
    requires |c| <= |buffer|
    ensures Overlay(buffer, c)[0..|c|] == c && Overlay(buffer, c)[..|c|] == c
  {
  }

  const STATUS_OK := 0
  const STATUS_FORMAT_ERROR := 1

  class GifDecoder {
    const inStream: ByteStream
    const block: array<byte>
    var blockSize: int
    var status: int

    var width: int
    var height: int
    var gctFlag: bool
    var gctSize: nat
    var pixelAspect: int
    var gct: array?<int>
    var act: array?<int>
    var bgIndex: int
    var bgColor: int
    var ix: int
    var iy: int
    var iw: int
    var ih: int
    var interlace: bool

    var dispose: int
    var transparency: bool
    var delay: int
    var transIndex: int
    var loopCount: int

    var prefix: array?<int>
    var suffix: array?<byte>
    var pixelStack: array?<byte>
    var pixels: array?<byte>

    var frames: seq<Frame>
    var frameCount: int
    /** The screen contents each frame starts from, left open here. */
    const starting: (nat, nat) -> int

    ghost predicate StreamOk()
      reads inStream
    {
      inStream.Valid() && block.Length == 256
    }

    /** Sizes of the arrays, and which of them must not be the same. */
    ghost predicate ArraysOk()
      reads this`prefix, this`suffix, this`pixelStack, this`pixels, this`gct, this`frames, this`frameCount
    {
      && (prefix != null ==> prefix.Length == MAX_STACK_SIZE && prefix != gct)
      && (suffix != null ==> suffix.Length == MAX_STACK_SIZE && suffix != block)
      && (pixelStack != null ==> pixelStack.Length == MAX_STACK_SIZE + 1 && pixelStack != block && pixelStack != suffix)
      && (pixels != null ==> pixels != block && pixels != suffix && pixels != pixelStack)
      && (gct != null ==> gct.Length == 256)
      && frameCount == |frames|
    }

    ghost predicate Valid()
      reads this`prefix, this`suffix, this`pixelStack, this`pixels, this`gct, this`frames, this`frameCount, inStream
    {
      StreamOk() && ArraysOk()
    }

    lemma ValidParts()
      requires Valid()
      ensures StreamOk() && ArraysOk()
    {
    }

    constructor (stream: ByteStream, starting: (nat, nat) -> int)
      requires stream.Valid()
      ensures Valid() && inStream == stream && fresh(block)
      ensures status == STATUS_OK && frames == [] && gct == null
      ensures prefix == null && suffix == null && pixelStack == null && pixels == null
      ensures !transparency && loopCount == 1 && transIndex == 0
    {
      inStream, block, this.starting := stream, new byte[256](_ => 0), starting;
      blockSize, status := 0, STATUS_OK;
      width, height, bgIndex, bgColor, ix, iy, iw, ih, interlace := 0, 0, 0, 0, 0, 0, 0, 0, false;
      gctFlag, gctSize, pixelAspect := false, 0, 0;
      gct, act, prefix, suffix, pixelStack, pixels := null, null, null, null, null, null;
      dispose, transparency, delay, transIndex, loopCount := 0, false, 0, 0, 1;
      frames, frameCount := [], 0;
    }

    predicate Error()
      reads this`status
    {
      status != STATUS_OK
    }

    method Read() returns (b: int)
      requires StreamOk()
      modifies inStream
      ensures StreamOk()
      ensures old(inStream.pos) == |inStream.data| ==> b == -1 && inStream.pos == old(inStream.pos)
      ensures old(inStream.pos) < |inStream.data| ==>
                b == inStream.data[old(inStream.pos)] && inStream.pos == old(inStream.pos) + 1
    {
      b := inStream.ReadByte();
    }

    /**
     * Delivers exactly the bytes of the next block, however the stream cuts its reads; the rest of the buffer
     * stays.
     */
    method ReadBlock() returns (n: nat)
      requires StreamOk() && BlockFits(inStream.data, inStream.pos)
      modifies this`blockSize, this`status, inStream, block
      ensures StreamOk() && status == old(status)
      ensures inStream.pos == AfterBlock(inStream.data, old(inStream.pos))
      ensures blockSize == if old(inStream.pos) == |inStream.data| then -1 else inStream.data[old(inStream.pos)]
      ensures n == if blockSize > 0 then blockSize else 0
      ensures n == |BlockAt(inStream.data, old(inStream.pos))|
      ensures block[..] == Overlay(old(block[..]), BlockAt(inStream.data, old(inStream.pos)))
    {
      blockSize := Read();
      n := 0;
      if blockSize > 0 {
        ghost var start, first, k := inStream.pos, block[..], 0;
        NothingGot(inStream.policy, start, blockSize, |inStream.data| - start, first, inStream.data);
        n, k := Fill(start, first);
        ReadingDone(start, first, n, k);
        status := if n < blockSize then STATUS_FORMAT_ERROR else status;
      }
    }

    /** After k reads the block that starts at `start` has n bytes in the buffer, over what was there first. */
    ghost predicate Reading(start: nat, first: seq<byte>, n: nat, k: nat)
      reads this`blockSize, inStream, block
    {
      && StreamOk() && |first| == 256 && 0 < blockSize < 256 && n <= blockSize
      && start + blockSize <= |inStream.data| && inStream.pos == start + n
      && n == Got(inStream.policy, start, blockSize, |inStream.data| - start, k)
      && block[..] == Overlay(first, inStream.data[start..start + n])
    }

    /** The reading loop. */
    method Fill(ghost start: nat, ghost first: seq<byte>) returns (n: nat, ghost k: nat)
      requires Reading(start, first, 0, 0)
      modifies inStream, block
      ensures n == blockSize && Reading(start, first, n, k)
    {
      assert 0 < blockSize;
      hide *;
      n, k := 0, 0;
      var count: int := 0;
      while n < blockSize
        invariant n <= blockSize && Reading(start, first, n, k)
        decreases blockSize - n
      {
        count := ReadMore(n, blockSize - n, start, first, k);
        if count == -1 { break; }
        n := n + count;
        k := k + 1;
      }
    }

    lemma ReadingDone(start: nat, first: seq<byte>, n: nat, k: nat)
      requires Reading(start, first, n, k)
      ensures StreamOk() && inStream.pos == start + n
      ensures block[..] == Overlay(first, inStream.data[start..inStream.pos])
    {
    }

    /** One read into the buffer, behind the n bytes it has. */
    method ReadMore(n: nat, size: nat, ghost start: nat, ghost first: seq<byte>, ghost k: nat) returns (count: nat)
      requires Reading(start, first, n, k) && n + size == blockSize && size > 0
      modifies inStream, block
      ensures 1 <= count <= size && Reading(start, first, n + count, k + 1)
    {
      hide Overlay, Got, ShortRead;
      ghost var before := block[..];
      GotNext(inStream.policy, start, blockSize, |inStream.data| - start, k);
      count := inStream.Read(block, n, size);
      OverlaySteps(first, before, block[..], inStream.data, start, n, count);
    }

    /** Reads blocks up to and including the next empty one; after an error it reads just one block. */
    method Skip()
      requires StreamOk() && Complete(inStream.data, inStream.pos)
      modifies this`blockSize, this`status, inStream, block
      ensures StreamOk() && status == old(status)
      ensures !Error() ==> (inStream.pos, block[..]) == AfterChain(inStream.data, old(inStream.pos), old(block[..]))
      ensures !Error() ==> inStream.pos == ChainEnd(inStream.data, old(inStream.pos))
      ensures Error() ==> inStream.pos == AfterBlock(inStream.data, old(inStream.pos))
    {
      ghost var end := AfterChain(inStream.data, inStream.pos, block[..]);
      ChainStep(inStream.data, inStream.pos, block[..]);
      hide AfterChain, Complete, ChainEnd, Overlay;
      var n := ReadBlock();
      while blockSize > 0 && !Error()
        invariant StreamOk() && status == old(status)
        invariant Error() ==> inStream.pos == AfterBlock(inStream.data, old(inStream.pos))
        invariant !Error() && blockSize <= 0 ==> (inStream.pos, block[..]) == end
        invariant !Error() && blockSize > 0 ==>
                    Complete(inStream.data, inStream.pos) && AfterChain(inStream.data, inStream.pos, block[..]) == end
        decreases |inStream.data| - inStream.pos, blockSize
      {
        ChainStep(inStream.data, inStream.pos, block[..]);
        n := ReadBlock();
      }
    }

    /**
     * The bytes still to come are the ones left in the block and those of the chain's rest, which ends as `end`
     * says.
     */
    ghost predicate Ahead(count: nat, bi: nat, unread: seq<byte>, end: (nat, seq<byte>))
      reads inStream, block
    {
      && StreamOk() && Complete(inStream.data, inStream.pos) && bi + count <= 256
      && unread == block[bi..bi + count] + Payload(inStream.data, inStream.pos)
      && AfterChain(inStream.data, inStream.pos, block[..]) == end
    }

    lemma AllAhead()
      requires StreamOk() && Complete(inStream.data, inStream.pos)
      ensures inStream.pos <= |inStream.data|
      ensures Ahead(0, 0, Payload(inStream.data, inStream.pos), AfterChain(inStream.data, inStream.pos, block[..]))
    {
    }

    lemma ChainAhead(count: nat, bi: nat, unread: seq<byte>, end: (nat, seq<byte>))
      requires Ahead(count, bi, unread, end)
      ensures StreamOk() && Complete(inStream.data, inStream.pos)
      ensures AfterChain(inStream.data, inStream.pos, block[..]) == end
    {
    }

    /** Reads the next block once the current one is used up. */
    method Refill(count0: nat, bi0: nat, ghost unread: seq<byte>, ghost end: (nat, seq<byte>))
      returns (count: nat, bi: nat)
      requires Ahead(count0, bi0, unread, end)
      modifies this`blockSize, this`status, inStream, block
      ensures StreamOk() && status == old(status)
      ensures (count > 0) == (unread != [])
      ensures count > 0 ==> Ahead(count, bi, unread, end)
      ensures count == 0 ==> (inStream.pos, block[..]) == end
    {
      count, bi := count0, bi0;
      if count == 0 {
        ChainStep(inStream.data, inStream.pos, block[..]);
        OverlayFront(block[..], BlockAt(inStream.data, inStream.pos));
        hide AfterChain, Complete, Payload, Overlay;
        count := ReadBlock();
        if count <= 0 { return; }
        bi := 0;
      }
    }

    /** Loads one more byte into the accumulator, if there is one. */
    method LoadMore(datum0: nat, bits0: nat, count0: nat, bi0: nat, ghost buffer: seq<bool>, ghost unread: seq<byte>,
                    ghost end: (nat, seq<byte>))
      returns (datum: nat, bits: nat, count: nat, bi: nat, more: bool)
      requires Ahead(count0, bi0, unread, end) && |buffer| == bits0 && Value(buffer) == datum0
      modifies this`blockSize, this`status, inStream, block
      ensures StreamOk() && status == old(status)
      ensures more == (unread != [])
      ensures more ==>
                && bits == bits0 + 8
                && datum == Value(buffer + ToBits(unread[0], 8))
                && buffer + ToBits(unread[0], 8) + Bits(unread[1..]) == buffer + Bits(unread)
                && Ahead(count, bi, unread[1..], end)
      ensures !more ==> (inStream.pos, block[..]) == end
    {
      hide Complete, Payload, AfterChain, Value, Shl, ToBits, Bits;
      datum, bits := datum0, bits0;
      count, bi := Refill(count0, bi0, unread, end);
      more := count > 0;
      if !more { return; }
      DropFirst(block[bi..bi + count], Payload(inStream.data, inStream.pos));
      LoadByte(buffer, block[bi], unread[1..]);
      assert unread == [block[bi]] + unread[1..];
      datum := datum + Shl(block[bi], bits);
      bits := bits + 8;
      bi := bi + 1;
      count := count - 1;
    }

    /**
     * The decoding loop. It stores what the dictionary decoder delivers, whatever the arrays held before. Unless
     * the data ran out, what is left of the chain is still complete.
     */
    method DecodePixels(ds: nat, npix: nat, pixels: array<byte>, prefix: array<int>, suffix: array<byte>,
                        pixelStack: array<byte>, v0: LoopVars, ghost total: Result) returns (i: nat)
      requires StreamOk() && Complete(inStream.data, inStream.pos)
      requires 2 <= ds <= 11 && Mirrors(ds, FRESH, prefix[..], suffix[..], v0)
      requires npix <= pixels.Length && pixelStack.Length == MAX_STACK_SIZE + 1
      requires pixels != suffix && pixels != pixelStack && pixelStack != suffix
      requires block != suffix && block != pixelStack && block != pixels
      requires total == Run(ds, [], Bits(Payload(inStream.data, inStream.pos)), FRESH, npix)
      requires total.why != BadFirst
      modifies this`blockSize, this`status, inStream, block, pixels, prefix, suffix, pixelStack
      ensures StreamOk() && status == old(status)
      ensures i <= npix && pixels[..i] == total.out
      ensures if total.why == OutOfData
              then (inStream.pos, block[..]) == old(AfterChain(inStream.data, inStream.pos, block[..]))
              else Complete(inStream.data, inStream.pos) &&
                   AfterChain(inStream.data, inStream.pos, block[..]) ==
                   old(AfterChain(inStream.data, inStream.pos, block[..]))
    {
      hide Complete, Payload, AfterChain, Bits, ToBits, Value, And, Shr, Run, Mirrors, Holds, Progress, Step, Sound;
      hide CodeWidth, Pow2, Ahead, StreamOk;
      var datum: nat, bits: nat, count: nat, bi: nat, top: nat, v := 0, 0, 0, 0, 0, v0;
      i := 0;
      ghost var t, buffer: seq<bool>, pending: seq<byte> := FRESH, [], [];
      AllAhead();
      ghost var unread := Payload(inStream.data, inStream.pos);
      ghost var end := AfterChain(inStream.data, inStream.pos, block[..]);
      MirrorsWidth(ds, t, prefix[..], suffix[..], v0);
      ProgressStarts(ds, Bits(unread), npix);
      NothingHeld(pixelStack[..]);
      EmptyBuffer(Bits(unread));
      while i < npix
        invariant Ahead(count, bi, unread, end) && status == old(status)
        invariant |buffer| == bits <= 19 && Value(buffer) == datum
        invariant Mirrors(ds, t, prefix[..], suffix[..], v)
        invariant Holds(pixelStack[..], top, pending)
        invariant i <= npix && Progress(ds, total, pixels[..i], pending, buffer + Bits(unread), t, npix)
        decreases npix - i, 8 * |unread| + bits, |unread|
      {
        HoldsPops(pixelStack[..], top, pending);
        MirrorsWidth(ds, t, prefix[..], suffix[..], v);
        if top == 0 {
          if bits < v.codeSize {
            var more;
            datum, bits, count, bi, more := LoadMore(datum, bits, count, bi, buffer, unread, end);
            if !more {
              ProgressEnds(ds, total, pixels[..i], pending, buffer + Bits(unread), t, npix);
              break;
            }
            buffer, unread := buffer + ToBits(unread[0], 8), unread[1..];
            continue;
          }
          TakeCode(buffer, Bits(unread), v.codeSize);
          ProgressCodes(ds, total, pixels[..i], buffer + Bits(unread), t, npix);
          var code := And(datum, v.codeMask);
          datum := Shr(datum, v.codeSize);
          bits := bits - v.codeSize;
          buffer := buffer[v.codeSize..];
          var stop;
          ghost var a := Step(ds, t, code);
          stop, top, v := InterpretCode(ds, t, prefix, suffix, pixelStack, code, v);
          if stop {
            ChainAhead(count, bi, unread, end);
            break;
          }
          t, pending := a.table, a.symbols;
          continue;
        }
        ProgressPops(ds, total, pixels[..i], pending, buffer + Bits(unread), t, npix);
        top := top - 1;
        Append(pixels, i, pixelStack[top]);
        i := i + 1;
        pending := pending[1..];
      }
      if i == npix {
        ChainAhead(count, bi, unread, end);
        ProgressEnds(ds, total, pixels[..i], pending, buffer + Bits(unread), t, npix);
      }
    }

    /** Decodes the data of the current image, whatever the working arrays held before. */
    method DecodeImageData()
      requires Valid() && 0 <= iw && 0 <= ih && Area(iw, ih) < 0x8000_0000
      requires inStream.pos < |inStream.data| && 2 <= inStream.data[inStream.pos] <= 11
      requires Complete(inStream.data, inStream.pos + 1)
      requires DecodingOutcome() != BadFirst
      modifies this`blockSize, this`status, this`pixels, this`prefix, this`suffix, this`pixelStack
      modifies inStream, block, pixels, prefix, suffix, pixelStack
      ensures Valid() && status == old(status)
      ensures pixels != null && pixels != block && Area(iw, ih) <= pixels.Length
      ensures pixels[..Area(iw, ih)] == old(DecodedPixels())
      ensures if old(DecodingOutcome()) == OutOfData
              then (inStream.pos, block[..]) == old(AfterData())
              else Complete(inStream.data, inStream.pos) &&
                   AfterChain(inStream.data, inStream.pos, block[..]) == old(AfterData())
      ensures (pixels == old(pixels) || fresh(pixels)) && (prefix == old(prefix) || fresh(prefix))
      ensures (suffix == old(suffix) || fresh(suffix)) && (pixelStack == old(pixelStack) || fresh(pixelStack))
    {
      hide Complete, DecodedPixels, DecodingOutcome, AfterData, AfterChain;
      var npix := iw * ih;
      Allocate(npix);
      DecodeAllocated(npix);
    }

    method DecodeAllocated(npix: nat)
      requires Valid() && npix == Area(iw, ih)
      requires pixels != null && npix <= pixels.Length && prefix != null && suffix != null && pixelStack != null
      requires inStream.pos < |inStream.data| && 2 <= inStream.data[inStream.pos] <= 11
      requires Complete(inStream.data, inStream.pos + 1)
      requires DecodingOutcome() != BadFirst
      modifies this`blockSize, this`status, inStream, block, pixels, prefix, suffix, pixelStack
      ensures StreamOk() && status == old(status)
      ensures pixels[..npix] == old(DecodedPixels())
      ensures if old(DecodingOutcome()) == OutOfData
              then (inStream.pos, block[..]) == old(AfterData())
              else Complete(inStream.data, inStream.pos) &&
                   AfterChain(inStream.data, inStream.pos, block[..]) == old(AfterData())
    {
      hide Complete, Payload, AfterChain, Bits, Run, Pixels, ZeroPadded, Mirrors;
      ghost var bits := Bits(Payload(inStream.data, inStream.pos + 1));
      var ds := Read();
      var v := StartTables(ds, prefix, suffix);
      ghost var total := Run(ds, [], bits, FRESH, npix);
      var i := DecodePixels(ds, npix, pixels, prefix, suffix, pixelStack, v, total);
      PixelsOf(ds, bits, npix, total);
      ClearMissing(pixels, i, npix);
    }

    /** Where the sub-blocks of the image data end, and what the buffer holds when all have been read. */
    ghost function AfterData(): (r: (nat, seq<byte>))
      reads inStream, block
      requires StreamOk() && inStream.pos < |inStream.data| && Complete(inStream.data, inStream.pos + 1)
      ensures r.0 == ChainEnd(inStream.data, inStream.pos + 1)
    {
      AfterChain(inStream.data, inStream.pos + 1, block[..])
    }

    ghost function DecodingOutcome(): Why
      reads this`iw, this`ih, inStream
      requires StreamOk() && 0 <= Area(iw, ih) && inStream.pos < |inStream.data| &&
               Complete(inStream.data, inStream.pos + 1)
    {
      Run(inStream.data[inStream.pos], [], Bits(Payload(inStream.data, inStream.pos + 1)), FRESH, Area(iw, ih)).why
    }

    ghost function DecodedPixels(): seq<byte>
      reads this`iw, this`ih, inStream
      requires StreamOk() && 0 <= Area(iw, ih) && inStream.pos < |inStream.data| &&
               Complete(inStream.data, inStream.pos + 1)
    {
      Pixels(inStream.data[inStream.pos], Bits(Payload(inStream.data, inStream.pos + 1)), Area(iw, ih))
    }

    /** Working arrays are made once and kept, with whatever they hold; pixels are remade when too few. */
    method Allocate(npix: nat)
      requires Valid()
      modifies this`pixels, this`prefix, this`suffix, this`pixelStack
      ensures Valid()
      ensures pixels != null && npix <= pixels.Length && prefix != null && suffix != null && pixelStack != null
      ensures (pixels == old(pixels) || fresh(pixels)) && (prefix == old(prefix) || fresh(prefix))
      ensures (suffix == old(suffix) || fresh(suffix)) && (pixelStack == old(pixelStack) || fresh(pixelStack))
    {
      if pixels == null || pixels.Length < npix {
        pixels := new byte[npix];
      }
      if prefix == null {
        prefix := new int[MAX_STACK_SIZE];
      }
      if suffix == null {
        suffix := new byte[MAX_STACK_SIZE];
      }
      if pixelStack == null {
        pixelStack := new byte[MAX_STACK_SIZE + 1];
      }
    }

    /** Two bytes, low byte first; at the end of the data the result is negative. */
    method ReadShort() returns (n: int)
      requires StreamOk()
      modifies inStream
      ensures StreamOk()
      ensures old(inStream.pos) + 2 <= |inStream.data| ==>
                && inStream.pos == old(inStream.pos) + 2
                && n == (inStream.data[old(inStream.pos)] as int) + 256 * (inStream.data[old(inStream.pos) + 1] as int)
    {
      var low := Read();
      var high := Read();
      n := if low < 0 then -1 else low + 256 * high;
    }

    /** One read for the whole table; a short one is a format error and yields no table. */
    method ReadColorTable(ncolors: nat) returns (tab: array?<int>)
      requires StreamOk() && ncolors <= 256
      modifies this`status, inStream
      ensures StreamOk()
      ensures var n, p := 3 * ncolors, old(inStream.pos);
              var k := ShortRead(inStream.policy(p, n), n, |inStream.data| - p);
              && inStream.pos == p + k
              && if k < n then tab == null && status == STATUS_FORMAT_ERROR
                 else tab != null && fresh(tab) && tab.Length == 256 && status == old(status)
                      && tab[..] == Colours(inStream.data[p..p + n])
                      && Unpacked(tab[..], inStream.data[p..p + n])
    {
      var nbytes := 3 * ncolors;
      tab := null;
      var c := new byte[nbytes];
      var n := inStream.Read(c, 0, nbytes);
      if n < nbytes {
        status := STATUS_FORMAT_ERROR;
      } else {
        hide Colours, Unpacked;
        tab := UnpackColors(c, ncolors);
        ColoursUnpacked(c[..]);
      }
    }

    ghost function CurrentMeta(): Meta
      reads this`dispose, this`transparency, this`delay, this`transIndex, this`bgColor
    {
      Meta(dispose, transparency, delay, transIndex, bgColor)
    }

    ghost function CurrentLoops(): Loops
      reads this`loopCount, block
    {
      Loops(loopCount, block[..])
    }

    lemma LoopsParts()
      requires block.Length == 256
      ensures CurrentLoops().count == loopCount && |CurrentLoops().buffer| == 256
    {
    }

    /** The fields the header sets, apart from the colour table's contents. */
    ghost predicate OnScreen(env: Env)
      reads this`width, this`height, this`bgIndex
    {
      width == env.width && height == env.height && bgIndex == env.bgIndex && starting == env.starting
    }

    ghost predicate TableIs(t: seq<int>)
      reads this`gct, gct
    {
      if gct == null then t == [] else gct[..] == t
    }

    method ReadGraphicControlExt(ghost c: Item, ghost env: Env)
      requires StreamOk() && c.GraphicControl?
      requires Carries(inStream.data, inStream.pos, ControlBytes(c))
      modifies this`dispose, this`transparency, this`delay, this`transIndex, inStream
      ensures StreamOk()
      ensures inStream.pos == old(inStream.pos) + 6
      ensures CurrentMeta() == MetaAfter(old(CurrentMeta()), c, env) && 0 <= transIndex < 256
      ensures var p := old(inStream.pos);
              && p + 6 <= |inStream.data| && c.packed == inStream.data[p + 1] && c.transIndex == inStream.data[p + 4]
              && c.delay == (inStream.data[p + 2] as int) + 256 * (inStream.data[p + 3] as int)
      ensures (transparency <==> c.packed % 2 == 1) && transIndex == c.transIndex && delay == 10 * c.delay
      ensures dispose == if c.packed / 4 % 8 == 0 then 1 else c.packed / 4 % 8
      ensures bgColor == old(bgColor)
    {
      ControlFields(c, inStream.data, inStream.pos);
      FieldsOfByte(c.packed);
      hide Carries, And, Shr;
      var _ := Read();
      var packed := Read();
      dispose := Shr(And(packed, 0x1c), 2);
      if dispose == 0 {
        dispose := 1;
      }
      transparency := And(packed, 1) != 0;
      var hundredths := ReadShort();
      delay := hundredths * 10;
      transIndex := Read();
      var _ := Read();
    }

    /** Reads the next sub-block and takes the loop count from the buffer if it starts with 1. */
    method ReadLoopBlock(ghost chunks: seq<Chunk>)
      requires StreamOk() && Carries(inStream.data, inStream.pos, Framed(chunks))
      modifies this`blockSize, this`status, this`loopCount, inStream, block
      ensures StreamOk() && status == old(status) && blockSize == if chunks == [] then 0 else |chunks[0]|
      ensures if chunks == [] then
                && inStream.pos == old(inStream.pos) + |Framed(chunks)|
                && CurrentLoops() == LoopsRead(old(CurrentLoops()), chunks)
              else
                && Carries(inStream.data, inStream.pos, Framed(chunks[1..]))
                && inStream.pos + |Framed(chunks[1..])| == old(inStream.pos) + |Framed(chunks)|
                && LoopsRead(CurrentLoops(), chunks[1..]) == LoopsRead(old(CurrentLoops()), chunks)
    {
      FramedFirst(inStream.data, inStream.pos, chunks);
      LoopsStep(CurrentLoops(), chunks);
      hide Carries, Framed, Overlay, LoopsRead, Seen;
      var n := ReadBlock();
      TakeCount();
    }

    method TakeCount()
      requires StreamOk()
      modifies this`loopCount
      ensures CurrentLoops() == Seen(old(CurrentLoops()))
    {
      if block[0] == 1 {
        var b1: int, b2: int := block[1], block[2];
        loopCount := b2 * 256 + b1;
      }
    }

    /** Reads a chain of sub-blocks up to its terminator, for which the stale buffer is looked at once more. */
    method ReadNetscapeExt(ghost chunks: seq<Chunk>)
      requires StreamOk() && status == STATUS_OK
      requires Carries(inStream.data, inStream.pos, Framed(chunks))
      modifies this`blockSize, this`status, this`loopCount, inStream, block
      ensures StreamOk() && status == STATUS_OK
      ensures inStream.pos == old(inStream.pos) + |Framed(chunks)|
      ensures CurrentLoops() == LoopsRead(old(CurrentLoops()), chunks)
    {
      hide Carries, Framed, LoopsRead, CurrentLoops, StreamOk;
      ghost var rest, end, loops := chunks, inStream.pos + |Framed(chunks)|, LoopsRead(CurrentLoops(), chunks);
      ReadLoopBlock(rest);
      while blockSize > 0 && !Error()
        invariant StreamOk() && status == STATUS_OK && blockSize == if rest == [] then 0 else |rest[0]|
        invariant if rest == [] then inStream.pos == end && CurrentLoops() == loops
                  else Carries(inStream.data, inStream.pos, Framed(rest[1..]))
                       && inStream.pos + |Framed(rest[1..])| == end && LoopsRead(CurrentLoops(), rest[1..]) == loops
        decreases |rest|
      {
        rest := rest[1..];
        ReadLoopBlock(rest);
      }
    }

    ghost predicate Describes(im: Image)
      reads this`ix, this`iy, this`iw, this`ih, this`interlace
    {
      ix == im.ix && iy == im.iy && iw == im.iw && ih == im.ih && interlace == (im.packed / 64 % 2 == 1)
    }

    lemma Described(im: Image)
      requires Describes(im)
      ensures iw == im.iw && ih == im.ih
    {
    }

    lemma ReadyTable(im: Image, env: Env, save: int)
      requires ActReady(im, env, save) && HasColours(im, env)
      ensures act != null
    {
    }

    method ReadDescriptor(ghost im: Image) returns (packed: byte)
      requires StreamOk() && Carries(inStream.data, inStream.pos, HeadBytes(im))
      modifies this`ix, this`iy, this`iw, this`ih, this`interlace, inStream
      ensures StreamOk() && inStream.pos == old(inStream.pos) + 9
      ensures Describes(im) && packed == im.packed
      ensures var d, p := inStream.data, old(inStream.pos);
              && p + 9 <= |d| && ix == (d[p] as int) + 256 * (d[p + 1] as int)
              && iy == (d[p + 2] as int) + 256 * (d[p + 3] as int)
              && iw == (d[p + 4] as int) + 256 * (d[p + 5] as int)
              && ih == (d[p + 6] as int) + 256 * (d[p + 7] as int)
              && packed == d[p + 8] && (interlace <==> d[p + 8] / 64 % 2 == 1)
    {
      HeadFields(im, inStream.data, inStream.pos);
      FieldsOfByte(im.packed);
      hide Carries, HeadBytes, And, Shr;
      ix := ReadShort();
      iy := ReadShort();
      iw := ReadShort();
      ih := ReadShort();
      packed := Read();
      interlace := And(packed, 0x40) != 0;
    }

    /** The active table is the image's: its own one, freshly read, or the global one. */
    ghost predicate TableChosen(im: Image, env: Env)
      reads this`act, this`gct, act
    {
      if HasColours(im, env) then
        && act != null && act.Length == 256 && act[..] == LocalOrGlobal(im, env)
        && (act == gct ==> LocalOrGlobal(im, env) == env.gct)
      else act == null
    }

    /** Reads the local colour table or falls back to the global one. */
    method ChooseTable(packed: byte, ghost im: Image, ghost env: Env)
      requires StreamOk() && packed == im.packed && Carries(inStream.data, inStream.pos, im.table)
      requires inStream.pos >= 9 && TableWhole(im, inStream.pos - 9, inStream.policy)
      requires TableShaped(im) && OnScreen(env) && TableIs(env.gct) && (gct != null ==> gct.Length == 256)
      modifies this`act, this`bgColor, this`status, inStream
      ensures StreamOk() && status == old(status) && inStream.pos == old(inStream.pos) + |im.table|
      ensures TableChosen(im, env) && (act == gct || fresh(act))
      ensures bgColor == if im.packed < 128 && bgIndex == transIndex then 0 else old(bgColor)
      ensures CurrentMeta() == MetaAfter(old(CurrentMeta()), Picture(im), env)
    {
      FieldsOfByte(packed);
      LocalSize(packed);
      hide And, Shl, Shr, Colours;
      var lctFlag := And(packed, 0x80) != 0;
      var lctSize := Shl(2, And(packed, 7));
      if lctFlag {
        act := ReadColorTable(lctSize);
      } else {
        act := gct;
        if bgIndex == transIndex {
          bgColor := 0;
        }
      }
    }

    /**
     * Decodes the image data and skips what is left of it, whatever ends the decoding. That leads just after the
     * image's terminator, unless the data ran out first and something follows: then the next chain is skipped too.
     */
    method DecodeAndSkip(ghost im: Image)
      requires Valid() && status == STATUS_OK && iw == im.iw && ih == im.ih && Area(im.iw, im.ih) < 0x8000_0000
      requires Carries(inStream.data, inStream.pos, [im.dataSize] + Framed(im.chunks)) && 2 <= im.dataSize <= 11
      requires Outcome(im) != BadFirst
      requires Outcome(im) == OutOfData ==> Complete(inStream.data, inStream.pos + 1 + |Framed(im.chunks)|)
      modifies this`blockSize, this`status, this`pixels, this`prefix, this`suffix, this`pixelStack
      modifies inStream, block, pixels, prefix, suffix, pixelStack
      ensures Valid() && status == STATUS_OK
      ensures inStream.pos ==
              AfterSkip(inStream.data, old(inStream.pos) + 1 + |Framed(im.chunks)|, Outcome(im) == OutOfData)
      ensures var end := old(inStream.pos) + 1 + |Framed(im.chunks)|;
              inStream.pos == end <==> Outcome(im) != OutOfData || end == |inStream.data|
      ensures Outcome(im) != OutOfData ==> block[..] == Overlays(old(block[..]), im.chunks)
      ensures Outcome(im) == OutOfData ==>
                (inStream.pos, block[..]) == AfterChain(inStream.data, old(inStream.pos) + 1 + |Framed(im.chunks)|,
                                                        Overlays(old(block[..]), im.chunks))
      ensures PixelsAre(im)
      ensures (pixels == old(pixels) || fresh(pixels)) && (prefix == old(prefix) || fresh(prefix))
      ensures (suffix == old(suffix) || fresh(suffix)) && (pixelStack == old(pixelStack) || fresh(pixelStack))
    {
      hide *;
      ValidParts();
      ghost var end, buffer, px := DataMeans(im);
      DecodeAndSkipTo(end, buffer, Outcome(im), px);
      PixelsDecoded(im, px);
    }

    /** Decodes and skips all of an image's data, with the chain that is skipped too when the data runs out. */
    method DecodeAll(ghost im: Image)
      requires Valid() && status == STATUS_OK && iw == im.iw && ih == im.ih && Area(im.iw, im.ih) < 0x8000_0000
      requires Carries(inStream.data, inStream.pos, DataBytes(im)) && 2 <= im.dataSize <= 11
      requires Outcome(im) != BadFirst
      modifies this`blockSize, this`status, this`pixels, this`prefix, this`suffix, this`pixelStack
      modifies inStream, block, pixels, prefix, suffix, pixelStack
      ensures Valid() && status == STATUS_OK && inStream.pos == old(inStream.pos) + |DataBytes(im)|
      ensures block[..] == Overlays(old(block[..]), BlocksRead(im))
      ensures PixelsAre(im)
      ensures (pixels == old(pixels) || fresh(pixels)) && (prefix == old(prefix) || fresh(prefix))
      ensures (suffix == old(suffix) || fresh(suffix)) && (pixelStack == old(pixelStack) || fresh(pixelStack))
    {
      hide *;
      AllData(inStream.data, inStream.pos, im, block[..]);
      DecodeAndSkip(im);
    }

    /** The same for any image data that ends at `end`, leaves the buffer as given, and decodes to px. */
    method DecodeAndSkipTo(ghost end: nat, ghost buffer: seq<byte>, ghost why: Why, ghost px: seq<byte>)
      requires Valid() && status == STATUS_OK && 0 <= iw && 0 <= ih && Area(iw, ih) < 0x8000_0000
      requires inStream.pos < |inStream.data| && 2 <= inStream.data[inStream.pos] <= 11
      requires Complete(inStream.data, inStream.pos + 1) && DecodingOutcome() == why != BadFirst
      requires DecodedPixels() == px && AfterData() == (end, buffer)
      requires end <= |inStream.data| && (why == OutOfData ==> Complete(inStream.data, end))
      modifies this`blockSize, this`status, this`pixels, this`prefix, this`suffix, this`pixelStack
      modifies inStream, block, pixels, prefix, suffix, pixelStack
      ensures Valid() && status == STATUS_OK
      ensures inStream.pos == AfterSkip(inStream.data, end, why == OutOfData)
      ensures if why == OutOfData then (inStream.pos, block[..]) == AfterChain(inStream.data, end, buffer)
              else block[..] == buffer
      ensures pixels != null && Area(iw, ih) <= pixels.Length && pixels[..Area(iw, ih)] == px
      ensures (pixels == old(pixels) || fresh(pixels)) && (prefix == old(prefix) || fresh(prefix))
      ensures (suffix == old(suffix) || fresh(suffix)) && (pixelStack == old(pixelStack) || fresh(pixelStack))
    {
      hide Complete, ChainEnd, AfterChain, ArraysOk, DecodingOutcome, DecodedPixels, AfterData;
      DecodeImageData();
      SkipRest(end, buffer, why == OutOfData);
    }

    /**
     * Skips what is left of a chain that ends at `end` with the buffer as given; if it is over already, skips what
     * follows it.
     */
    method SkipRest(ghost end: nat, ghost buffer: seq<byte>, ghost over: bool)
      requires StreamOk() && status == STATUS_OK
      requires if over then (inStream.pos, block[..]) == (end, buffer) && Complete(inStream.data, end)
               else Complete(inStream.data, inStream.pos) &&
                    AfterChain(inStream.data, inStream.pos, block[..]) == (end, buffer)
      modifies this`blockSize, this`status, inStream, block
      ensures StreamOk() && status == STATUS_OK && end <= |inStream.data|
      ensures inStream.pos == AfterSkip(inStream.data, end, over)
      ensures if over then (inStream.pos, block[..]) == AfterChain(inStream.data, end, buffer) else block[..] == buffer
    {
      hide Complete, ChainEnd, AfterChain;
      Skip();
    }

    /** The image's pixels are in the pixel array. */
    ghost predicate PixelsAre(im: Image)
      reads this`iw, this`ih, this`pixels, pixels
    {
      && 0 <= Area(iw, ih) && pixels != null && Area(iw, ih) <= pixels.Length
      && pixels[..Area(iw, ih)] == Pixels(im.dataSize, Bits(Flatten(im.chunks)), Area(iw, ih))
    }

    lemma PixelsHeld(im: Image)
      requires PixelsAre(im)
      ensures pixels != null && 0 <= Area(iw, ih) <= pixels.Length
      ensures pixels[..Area(iw, ih)] == Pixels(im.dataSize, Bits(Flatten(im.chunks)), Area(iw, ih))
    {
    }

    lemma PixelsDecoded(im: Image, px: seq<byte>)
      requires 0 <= Area(iw, ih) && pixels != null && Area(iw, ih) <= pixels.Length
      requires pixels[..Area(iw, ih)] == px == Pixels(im.dataSize, Bits(Flatten(im.chunks)), Area(iw, ih))
      ensures PixelsAre(im)
    {
    }

    /** What the decoder's fields and the stream say about the image data, in terms of the image. */
    lemma DataMeans(im: Image) returns (end: nat, buffer: seq<byte>, px: seq<byte>)
      requires StreamOk() && iw == im.iw && ih == im.ih
      requires Carries(inStream.data, inStream.pos, [im.dataSize] + Framed(im.chunks))
      ensures inStream.pos < |inStream.data| && inStream.data[inStream.pos] == im.dataSize
      ensures Complete(inStream.data, inStream.pos + 1)
      ensures 0 <= iw && 0 <= ih && 0 <= Area(iw, ih) == Area(im.iw, im.ih) && DecodingOutcome() == Outcome(im)
      ensures DecodedPixels() == px == Pixels(im.dataSize, Bits(Flatten(im.chunks)), Area(iw, ih))
      ensures AfterData() == (end, buffer)
      ensures end == inStream.pos + 1 + |Framed(im.chunks)| <= |inStream.data|
      ensures buffer == Overlays(block[..], im.chunks)
      ensures Complete(inStream.data, end) ==>
                (AfterSkip(inStream.data, end, Outcome(im) == OutOfData) == end <==>
                 Outcome(im) != OutOfData || end == |inStream.data|)
      ensures AfterSkip(inStream.data, end, false) == end
    {
      hide Carries, Complete, Payload, ChainEnd, AfterChain, Bits, Run, Pixels, Framed, Flatten, Overlays;
      DataParts(inStream.data, inStream.pos, im, block[..]);
      end, buffer := inStream.pos + 1 + |Framed(im.chunks)|, Overlays(block[..], im.chunks);
      px := DecodedPixels();
    }

    /** Copies the image into the screen the frame starts from. */
    method SetPixels(n: nat) returns (screen: seq<int>)
      requires 0 <= width && 0 <= height && 0 <= ix && 0 <= iy && 0 <= iw && 0 <= ih
      requires act != null && act.Length == 256 && pixels != null && Area(iw, ih) <= pixels.Length
      ensures screen == Composed(Geometry(width, height, ix, iy, iw, ih, interlace), pixels[..Area(iw, ih)], act[..],
                                 seq(3 * width * height, j requires 0 <= j => starting(n, j)))
    {
      hide Shows, Composed;
      var g := Geometry(width, height, ix, iy, iw, ih, interlace);
      var dest := new int[3 * width * height](j requires 0 <= j => starting(n, j));
      ghost var was := dest[..];
      assert was == seq(3 * width * height, j requires 0 <= j => starting(n, j));
      assert width * height <= 3 * width * height;
      CopyLines(g, dest, pixels, act);
      ShowsComposed(g, pixels[..], act[..], was, dest[..]);
      ComposedPrefix(g, pixels[..], act[..], was);
      screen := dest[..];
      assert pixels[..][..iw * ih] == pixels[..Area(iw, ih)];
    }

    /**
     * Reads a complete image: one more frame, the stream just after the image's terminator, and the colour table
     * as it was before its transparent entry was cleared.
     */
    method ReadImage(ghost im: Image, ghost env: Env)
      requires Valid() && status == STATUS_OK && OnScreen(env) && TableIs(env.gct) && 0 <= transIndex < 256
      requires if HasColours(im, env)
               then Carries(inStream.data, inStream.pos, ImageBytes(im)) && ImageOk(im, env) &&
                    TableWhole(im, inStream.pos, inStream.policy)
               else Carries(inStream.data, inStream.pos, HeadBytes(im)) && im.table == [] && !transparency
      modifies this, inStream, block, pixels, prefix, suffix, pixelStack, gct
      ensures Valid() && gct == old(gct) && transIndex == old(transIndex)
      ensures OnScreen(env) && TableIs(env.gct)
      ensures CurrentMeta() == MetaAfter(old(CurrentMeta()), Picture(im), env)
      ensures if HasColours(im, env) then
                && status == STATUS_OK && inStream.pos == old(inStream.pos) + |ImageBytes(im)|
                && CurrentLoops() == LoopsAfter(old(CurrentLoops()), Picture(im))
                && frames == old(frames) + [FrameOf(old(CurrentMeta()), im, env, |old(frames)|)]
              else
                && status == STATUS_FORMAT_ERROR && inStream.pos == old(inStream.pos) + 9
                && CurrentLoops() == old(CurrentLoops()) && frames == old(frames)
      ensures (pixels == old(pixels) || fresh(pixels)) && (prefix == old(prefix) || fresh(prefix))
      ensures (suffix == old(suffix) || fresh(suffix)) && (pixelStack == old(pixelStack) || fresh(pixelStack))
    {
      hide *;
      StatusesDiffer();
      ImageStarts(inStream.data, inStream.pos, im, env, inStream.policy);
      if HasColours(im, env) {
        FrameIgnoresBackground(CurrentMeta(), im, env, |frames|);
      }
      var save := BeginImage(im, env);
      if status == STATUS_OK {
        FinishImage(im, env, save);
      }
    }

    /** The image data, the new frame, and the colour table back as it was. */
    method FinishImage(ghost im: Image, ghost env: Env, save: int)
      requires Valid() && status == STATUS_OK && OnScreen(env) && Describes(im) && ActReady(im, env, save)
      requires act == gct || TableIs(env.gct)
      requires (prefix != null ==> act != prefix) && (gct != null ==> gct != prefix)
      requires Carries(inStream.data, inStream.pos, DataBytes(im)) && ImageOk(im, env)
      modifies this`blockSize, this`status, this`pixels, this`prefix, this`suffix, this`pixelStack
      modifies this`frames, this`frameCount, inStream, block, pixels, prefix, suffix, pixelStack, act
      ensures Valid() && status == STATUS_OK && TableIs(env.gct)
      ensures inStream.pos == old(inStream.pos) + |DataBytes(im)|
      ensures frames == old(frames) + [FrameOf(CurrentMeta(), im, env, |old(frames)|)]
      ensures CurrentLoops() == LoopsAfter(old(CurrentLoops()), Picture(im))
      ensures (pixels == old(pixels) || fresh(pixels)) && (prefix == old(prefix) || fresh(prefix))
      ensures (suffix == old(suffix) || fresh(suffix)) && (pixelStack == old(pixelStack) || fresh(pixelStack))
    {
      ImageOkParts(im, env);
      ReadyTable(im, env, save);
      hide Carries, DataBytes, ArraysOk, StreamOk, ImageOk, FrameOf, OnScreen, Describes, TableIs, CurrentMeta;
      hide ActReady;
      AddFrame(im, env, save);
      if !Error() {
        RestoreTransparent(save, im, env);
      }
    }

    /** Descriptor and colour table, with the transparent colour taken out and saved. */
    method BeginImage(ghost im: Image, ghost env: Env) returns (save: int)
      requires Valid() && status == STATUS_OK && OnScreen(env) && TableIs(env.gct) && 0 <= transIndex < 256
      requires Carries(inStream.data, inStream.pos, HeadBytes(im)) && Carries(inStream.data, inStream.pos + 9, im.table)
      requires TableShaped(im) && TableWhole(im, inStream.pos, inStream.policy)
      requires HasColours(im, env) || !transparency
      modifies this`ix, this`iy, this`iw, this`ih, this`interlace, this`act, this`bgColor, this`status, inStream, gct
      ensures status == if HasColours(im, env) then STATUS_OK else STATUS_FORMAT_ERROR
      ensures Valid() && inStream.pos == old(inStream.pos) + 9 + |im.table|
      ensures OnScreen(env) && Describes(im) && ActReady(im, env, save)
      ensures CurrentMeta() == MetaAfter(old(CurrentMeta()), Picture(im), env)
      ensures act == gct || (fresh(act) && TableIs(env.gct))
      ensures act != null <==> HasColours(im, env)
      ensures act != null && prefix != null ==> act != prefix
      ensures gct != null ==> gct != prefix
    {
      hide Carries, HeadBytes, ImageOk, TableWhole, OnScreen, TableIs, Describes, MetaAfter, CurrentMeta;
      hide TableChosen, ActReady, ArraysOk, StreamOk;
      var packed := ReadDescriptor(im);
      save := PrepareTable(packed, im, env);
      status := if act == null then STATUS_FORMAT_ERROR else status;
    }

    method PrepareTable(packed: byte, ghost im: Image, ghost env: Env) returns (save: int)
      requires Valid() && packed == im.packed && Carries(inStream.data, inStream.pos, im.table)
      requires inStream.pos >= 9 && TableWhole(im, inStream.pos - 9, inStream.policy)
      requires TableShaped(im) && OnScreen(env) && TableIs(env.gct) && 0 <= transIndex < 256
      requires HasColours(im, env) || !transparency
      modifies this`act, this`bgColor, this`status, inStream, gct
      ensures StreamOk() && status == old(status) && inStream.pos == old(inStream.pos) + |im.table|
      ensures ActReady(im, env, save) && CurrentMeta() == MetaAfter(old(CurrentMeta()), Picture(im), env)
      ensures act == gct || (fresh(act) && TableIs(env.gct))
      ensures act != null <==> HasColours(im, env)
      ensures act != null && prefix != null ==> act != prefix
      ensures gct != null ==> gct != prefix
    {
      assert (gct != null ==> gct.Length == 256) && (prefix != null ==> prefix != gct);
      hide Carries, ImageOk, TableWhole, OnScreen, TableIs, MetaAfter, CurrentMeta, ActReady, StreamOk;
      ChooseTable(packed, im, env);
      save := ClearTransparent(im, env);
    }

    /** The active table lacks its transparent colour, which is saved. */
    ghost predicate ActReady(im: Image, env: Env, save: int)
      reads this`act, this`gct, this`transparency, this`transIndex, act
    {
      && 0 <= transIndex < 256
      && if HasColours(im, env) then
           && act != null && act.Length == 256
           && (act == gct ==> LocalOrGlobal(im, env) == env.gct)
           && act[..] == WithoutTransparent(LocalOrGlobal(im, env), transparency, transIndex)
           && (transparency ==> save == LocalOrGlobal(im, env)[transIndex])
         else act == null
    }

    /** Decodes the image data and appends the frame. */
    method AddFrame(ghost im: Image, ghost env: Env, ghost save: int)
      requires Valid() && status == STATUS_OK && OnScreen(env) && Describes(im) && ActReady(im, env, save)
      requires act != prefix
      requires Carries(inStream.data, inStream.pos, DataBytes(im)) && ImageOk(im, env)
      modifies this`blockSize, this`status, this`pixels, this`prefix, this`suffix, this`pixelStack
      modifies this`frames, this`frameCount, inStream, block, pixels, prefix, suffix, pixelStack
      ensures Valid() && status == STATUS_OK && ActReady(im, env, save)
      ensures act != gct && old(TableIs(env.gct)) ==> TableIs(env.gct)
      ensures inStream.pos == old(inStream.pos) + |DataBytes(im)|
      ensures frames == old(frames) + [FrameOf(CurrentMeta(), im, env, |old(frames)|)]
      ensures CurrentLoops() == LoopsAfter(old(CurrentLoops()), Picture(im))
      ensures (pixels == old(pixels) || fresh(pixels)) && (prefix == old(prefix) || fresh(prefix))
      ensures (suffix == old(suffix) || fresh(suffix)) && (pixelStack == old(pixelStack) || fresh(pixelStack))
    {
      hide Carries, DataBytes, BlocksRead, FrameOf, Outcome, Overlays, PixelsAre;
      hide ImageOk, ActReady, OnScreen, Describes, TableIs, CurrentMeta, StreamOk, Run;
      Described(im);
      ImageOkParts(im, env);
      ReadyTable(im, env, save);
      DecodeAll(im);
      StoreFrame(im, env, save);
    }

    method StoreFrame(ghost im: Image, ghost env: Env, ghost save: int)
      requires OnScreen(env) && Describes(im) && ActReady(im, env, save) && ImageOk(im, env)
      requires PixelsAre(im) && frameCount == |frames|
      modifies this`frames, this`frameCount
      ensures frames == old(frames) + [FrameOf(CurrentMeta(), im, env, |old(frames)|)] && frameCount == |frames|
    {
      hide Composed, Pixels, Bits, Flatten, LocalOrGlobal, WithoutTransparent, Outcome;
      frameCount := frameCount + 1;
      var image := SetPixels(|frames|);
      frames := frames + [Frame(image, delay)];
    }

    method ClearTransparent(ghost im: Image, ghost env: Env) returns (save: int)
      requires TableChosen(im, env) && 0 <= transIndex < 256 && (HasColours(im, env) || !transparency)
      modifies act
      ensures ActReady(im, env, save)
    {
      save := 0;
      if transparency {
        save := act[transIndex];
        act[transIndex] := 0;
      }
    }

    method RestoreTransparent(save: int, ghost im: Image, ghost env: Env)
      requires ActReady(im, env, save) && HasColours(im, env)
      modifies act
      ensures act == gct ==> TableIs(env.gct)
    {
      if transparency {
        act[transIndex] := save;
      }
    }

    /** An application extension: the NETSCAPE one sets the loop count, others are skipped. */
    method ReadApplication(ghost name: Name, ghost chunks: seq<Chunk>)
      requires StreamOk() && status == STATUS_OK
      requires Carries(inStream.data, inStream.pos, [|name|] + name + Framed(chunks))
      modifies this`blockSize, this`status, this`loopCount, inStream, block
      ensures StreamOk() && status == STATUS_OK
      ensures inStream.pos == old(inStream.pos) + 1 + |name| + |Framed(chunks)|
      ensures CurrentLoops() == LoopsAfter(old(CurrentLoops()), Application(name, chunks))
    {
      ApplicationParts(inStream.data, inStream.pos, name, chunks);
      hide Carries, Framed, Overlay, Overlays, LoopsRead;
      var n := ReadBlock();
      ReadNamed(chunks);
    }

    /** The sub-blocks of an application extension whose name is in the buffer. */
    method ReadNamed(ghost chunks: seq<Chunk>)
      requires StreamOk() && status == STATUS_OK && Carries(inStream.data, inStream.pos, Framed(chunks))
      modifies this`blockSize, this`status, this`loopCount, inStream, block
      ensures StreamOk() && status == STATUS_OK
      ensures inStream.pos == old(inStream.pos) + |Framed(chunks)|
      ensures CurrentLoops() == if NETSCAPE <= old(block[..]) then LoopsRead(old(CurrentLoops()), chunks)
                                else Loops(old(loopCount), Overlays(old(block[..]), chunks))
    {
      FramedBuffer(inStream.data, inStream.pos, chunks, block[..]);
      hide Carries, Framed, Complete, ChainEnd, AfterChain, Overlays, LoopsRead;
      var app := block[..11];
      assert app == NETSCAPE <==> NETSCAPE <= block[..];
      if app == NETSCAPE {
        ReadNetscapeExt(chunks);
      } else {
        Skip();
      }
    }

    method ReadExtension(ghost item: Item, ghost env: Env)
      requires StreamOk() && status == STATUS_OK && Introducer(item) == 0x21 && ItemOk(item, env)
      requires Carries(inStream.data, inStream.pos, Body(item)) && 0 <= transIndex < 256
      modifies this`blockSize, this`status, this`loopCount, this`dispose, this`transparency, this`delay, this`transIndex
      modifies inStream, block
      ensures StreamOk() && status == STATUS_OK && 0 <= transIndex < 256
      ensures inStream.pos == old(inStream.pos) + |Body(item)|
      ensures CurrentMeta() == MetaAfter(old(CurrentMeta()), item, env)
      ensures CurrentLoops() == LoopsAfter(old(CurrentLoops()), item)
    {
      hide Carries, Framed, Complete, ChainEnd, AfterChain, ControlBytes, Overlay, Overlays, LoopsRead;
      hide Body, Introducer, MetaAfter, LoopsAfter, ItemOk;
      ExtensionParts(inStream.data, inStream.pos, item, block[..]);
      ExtensionEffects(item, CurrentMeta(), CurrentLoops(), env);
      var code := Read();
      if code == 0xf9 {
        ReadGraphicControlExt(item, env);
      } else if code == 0xff {
        ReadApplication(item.name, item.chunks);
      } else {
        Skip();
      }
    }

    /** Between two elements: arrays in order and nothing of the header changed. */
    ghost predicate Settled(env: Env)
      reads this`prefix, this`suffix, this`pixelStack, this`pixels, this`gct, this`frames, this`frameCount
      reads this`width, this`height, this`bgIndex, this`transIndex, gct
    {
      ArraysOk() && OnScreen(env) && TableIs(env.gct) && 0 <= transIndex < 256
    }

    /** An image, or the tableless one that ends the items. */
    method ReadPicture(ghost items: seq<Item>, ghost env: Env, ghost end: nat)
      requires StreamOk() && status == STATUS_OK && Settled(env)
      requires if items != []
               then InBody(items, env, inStream.data, inStream.pos, end, inStream.policy) && items[0].Picture?
               else Tableless(env, inStream.data, end) && inStream.pos == end + 1 && !transparency
      modifies this, inStream, block, pixels, prefix, suffix, pixelStack, gct
      ensures StreamOk() && Settled(env) && gct == old(gct)
      ensures if items != [] then
                && status == STATUS_OK && ItemsAt(items[1..], env, inStream.data, inStream.pos, end, inStream.policy)
                && CurrentMeta() == MetaAfter(old(CurrentMeta()), items[0], env)
                && CurrentLoops() == LoopsAfter(old(CurrentLoops()), items[0]) && ItemOk(items[0], env)
                && frames == old(frames) + FrameOfItem(old(CurrentMeta()), items[0], env, |old(frames)|)
              else
                && status == STATUS_FORMAT_ERROR && inStream.pos == AfterEnd(inStream.data, end)
                && CurrentMeta() == MetaAtEnd(old(CurrentMeta()), env, inStream.data, end)
                && CurrentLoops() == old(CurrentLoops()) && frames == old(frames)
      ensures (pixels == old(pixels) || fresh(pixels)) && (prefix == old(prefix) || fresh(prefix))
      ensures (suffix == old(suffix) || fresh(suffix)) && (pixelStack == old(pixelStack) || fresh(pixelStack))
    {
      hide Carries, ItemsAt, ArraysOk, OnScreen, TableIs, CurrentMeta, ImageOk, TableWhole, FrameOf, ImageBytes;
      hide StreamOk, CurrentLoops, LoopsAfter, HasColours, HeadBytes, HeadAt, Tableless, MetaAfter, MetaAtEnd, AfterEnd;
      ghost var im := PictureAt(items, env, inStream.data, inStream.pos, end, inStream.policy, CurrentMeta());
      ReadImage(im, env);
    }

    method ReadOther(ghost items: seq<Item>, ghost env: Env, ghost end: nat)
      requires StreamOk() && status == STATUS_OK && Settled(env)
      requires InBody(items, env, inStream.data, inStream.pos, end, inStream.policy) && Introducer(items[0]) == 0x21
      modifies this`blockSize, this`status, this`loopCount, this`dispose, this`transparency, this`delay, this`transIndex
      modifies inStream, block
      ensures StreamOk() && status == STATUS_OK && Settled(env)
      ensures ItemsAt(items[1..], env, inStream.data, inStream.pos, end, inStream.policy)
      ensures CurrentMeta() == MetaAfter(old(CurrentMeta()), items[0], env)
      ensures CurrentLoops() == LoopsAfter(old(CurrentLoops()), items[0])
    {
      hide Carries, ItemsAt, ArraysOk, OnScreen, TableIs, CurrentMeta, TableWhole, Body, MetaAfter, StreamOk, ItemOk;
      hide Introducer, CurrentLoops, LoopsAfter;
      ReadExtension(items[0], env);
    }

    /** One element of the file: its introducer decides. */
    method ReadElement(ghost items: seq<Item>, ghost env: Env, ghost end: nat) returns (done: bool)
      requires StreamOk() && status == STATUS_OK && Settled(env)
      requires ItemsAt(items, env, inStream.data, inStream.pos, end, inStream.policy)
      requires items == [] && Tableless(env, inStream.data, end) ==> !transparency
      modifies this, inStream, block, pixels, prefix, suffix, pixelStack, gct
      ensures StreamOk() && Settled(env) && gct == old(gct)
      ensures if items == [] then
                && inStream.pos == AfterEnd(inStream.data, end) && done == EndsWell(inStream.data, end)
                && status == (if done then STATUS_OK else STATUS_FORMAT_ERROR)
                && CurrentMeta() == MetaAtEnd(old(CurrentMeta()), env, inStream.data, end)
                && frames == old(frames) && CurrentLoops() == old(CurrentLoops())
              else
                && !done && status == STATUS_OK && ItemOk(items[0], env)
                && ItemsAt(items[1..], env, inStream.data, inStream.pos, end, inStream.policy)
                && CurrentMeta() == MetaAfter(old(CurrentMeta()), items[0], env)
                && CurrentLoops() == LoopsAfter(old(CurrentLoops()), items[0])
                && frames == old(frames) + FrameOfItem(old(CurrentMeta()), items[0], env, |old(frames)|)
      ensures (pixels == old(pixels) || fresh(pixels)) && (prefix == old(prefix) || fresh(prefix))
      ensures (suffix == old(suffix) || fresh(suffix)) && (pixelStack == old(pixelStack) || fresh(pixelStack))
    {
      hide ItemsAt, InBody, Settled, CurrentMeta, ItemOk, Introducer, MetaAfter, FrameOfItem, Body, StreamOk;
      hide CurrentLoops, LoopsAfter, Ends, Tableless, MetaAtEnd, AfterEnd;
      EndParts(env, inStream.data, end, CurrentMeta());
      NextItem(items, env, inStream.data, inStream.pos, end, inStream.policy);
      if items != [] { ItemKinds(items[0], CurrentMeta(), CurrentLoops(), env, |frames|); }
      var code := Read();
      done := false;
      if code == 0x2C {
        ReadPicture(items, env, end);
      } else if code == 0x21 {
        ReadOther(items, env, end);
      } else if code == 0x3b {
        done := true;
      } else if code == 0x00 {
        PaddingRead(items, env, inStream.data, inStream.pos, end, inStream.policy);
      } else {
        status := STATUS_FORMAT_ERROR;
      }
    }

    /** What there is and what the remaining items will make of it. */
    ghost function Yielding(items: seq<Item>, env: Env, end: nat): Yield
      requires ItemsOk(items, env)
      reads this`frames, this`dispose, this`transparency, this`delay, this`transIndex, this`loopCount, this`bgColor,
            block
    {
      Yielded(frames, CurrentMeta(), CurrentLoops(), items, env, inStream.data, end)
    }

    /** One element, as seen by the loop: what the whole file yields does not change. */
    method NextElement(ghost items: seq<Item>, ghost env: Env, ghost end: nat) returns (done: bool)
      requires StreamOk() && status == STATUS_OK && Settled(env) && ItemsOk(items, env)
      requires Standing(items, env, inStream.data, inStream.pos, end, inStream.policy, false, false)
      requires Tableless(env, inStream.data, end) ==> !Yielding(items, env, end).meta.transparency
      modifies this, inStream, block, pixels, prefix, suffix, pixelStack, gct
      ensures StreamOk() && Settled(env) && gct == old(gct) && ItemsOk(Tail(items), env)
      ensures status == STATUS_OK || status == STATUS_FORMAT_ERROR
      ensures items == [] <==> done || status != STATUS_OK
      ensures Standing(Tail(items), env, inStream.data, inStream.pos, end, inStream.policy, done, status != STATUS_OK)
      ensures Yielding(Tail(items), env, end) == old(Yielding(items, env, end))
      ensures items == [] ==> CurrentMeta() == MetaAtEnd(CurrentMeta(), env, inStream.data, end)
      ensures (pixels == old(pixels) || fresh(pixels)) && (prefix == old(prefix) || fresh(prefix))
      ensures (suffix == old(suffix) || fresh(suffix)) && (pixelStack == old(pixelStack) || fresh(pixelStack))
    {
      YieldStep(frames, CurrentMeta(), CurrentLoops(), items, env, inStream.data, end);
      YieldEnds(frames, CurrentMeta(), CurrentLoops(), env, inStream.data, end);
      assert items == [] ==> Yielding(items, env, end).meta.transparency == transparency;
      hide ItemsAt, ItemOk, ItemsOk, Settled, CurrentMeta, CurrentLoops, Yielded, FrameOfItem, MetaAfter, LoopsAfter;
      hide StreamOk, EndsWell, AfterEnd, Tableless, MetaAtEnd;
      done := ReadElement(items, env, end);
    }

    /**
     * Reads the elements of the file up to its trailer: every image becomes a frame, extensions take effect on the
     * images after them, and the global colour table is in the end what it was. Anything else in place of an
     * introducer, or the end of the data, is a format error; the frames before it are kept.
     */
    method ReadContents(ghost items: seq<Item>, ghost env: Env, ghost end: nat)
      requires StreamOk() && status == STATUS_OK && Settled(env)
      requires ItemsAt(items, env, inStream.data, inStream.pos, end, inStream.policy)
      requires Tableless(env, inStream.data, end) ==> !MetaAfterAll(CurrentMeta(), items, env).transparency
      modifies this, inStream, block, pixels, prefix, suffix, pixelStack, gct
      ensures StreamOk() && Settled(env)
      ensures inStream.pos == AfterEnd(inStream.data, end)
      ensures status == if EndsWell(inStream.data, end) then STATUS_OK else STATUS_FORMAT_ERROR
      ensures ItemsOk(items, env) && frames == old(frames) + Frames(old(CurrentMeta()), items, env, |old(frames)|)
      ensures CurrentMeta() == MetaAtEnd(MetaAfterAll(old(CurrentMeta()), items, env), env, inStream.data, end)
      ensures CurrentLoops() == LoopsAfterAll(old(CurrentLoops()), items)
    {
      hide ItemsAt, Settled, ItemsOk, CurrentMeta, CurrentLoops, Frames, MetaAfterAll, LoopsAfterAll, StreamOk;
      hide EndsWell, AfterEnd, Tableless, MetaAtEnd;
      ItemsAtOk(items, env, inStream.data, inStream.pos, end, inStream.policy);
      YieldMeta(frames, CurrentMeta(), CurrentLoops(), items, env, inStream.data, end);
      ReadElements(items, env, end);
      YieldEnds(frames, CurrentMeta(), CurrentLoops(), env, inStream.data, end);
    }

    method ReadElements(ghost items: seq<Item>, ghost env: Env, ghost end: nat)
      requires StreamOk() && status == STATUS_OK && Settled(env) && ItemsOk(items, env)
      requires Standing(items, env, inStream.data, inStream.pos, end, inStream.policy, false, false)
      requires Tableless(env, inStream.data, end) ==> !Yielding(items, env, end).meta.transparency
      modifies this, inStream, block, pixels, prefix, suffix, pixelStack, gct
      ensures StreamOk() && Settled(env) && ItemsOk([], env)
      ensures status == STATUS_OK || status == STATUS_FORMAT_ERROR
      ensures Standing([], env, inStream.data, inStream.pos, end, inStream.policy, status == STATUS_OK,
              status != STATUS_OK)
      ensures Yielding([], env, end) == old(Yielding(items, env, end))
      ensures CurrentMeta() == MetaAtEnd(CurrentMeta(), env, inStream.data, end)
    {
      hide Standing, ItemsOk, Settled, Yielding, StreamOk, Tableless, CurrentMeta, MetaAtEnd;
      var done := false;
      ghost var rest := items;
      while !(done || Error())
        invariant StreamOk() && Settled(env) && gct == old(gct) && ItemsOk(rest, env)
        invariant status == STATUS_OK || status == STATUS_FORMAT_ERROR
        invariant Standing(rest, env, inStream.data, inStream.pos, end, inStream.policy, done, status != STATUS_OK)
        invariant Yielding(rest, env, end) == old(Yielding(items, env, end))
        invariant done || Error() ==> CurrentMeta() == MetaAtEnd(CurrentMeta(), env, inStream.data, end)
        invariant (pixels == old(pixels) || fresh(pixels)) && (prefix == old(prefix) || fresh(prefix))
        invariant (suffix == old(suffix) || fresh(suffix)) && (pixelStack == old(pixelStack) || fresh(pixelStack))
        decreases |rest|, !done && status == STATUS_OK
      {
        done := NextElement(rest, env, end);
        rest := Tail(rest);
      }
      StandingOver(rest, env, inStream.data, inStream.pos, end, inStream.policy, done, status != STATUS_OK);
    }

    /** Six bytes of signature. */
    method ReadId() returns (id: seq<int>)
      requires StreamOk() && inStream.pos + 6 <= |inStream.data|
      modifies inStream
      ensures StreamOk() && inStream.pos == old(inStream.pos) + 6
      ensures |id| == 6 && forall i :: 0 <= i < 6 ==> id[i] == inStream.data[old(inStream.pos) + i]
    {
      id := [];
      for i := 0 to 6
        invariant StreamOk() && inStream.pos == old(inStream.pos) + i
        invariant |id| == i && forall j :: 0 <= j < i ==> id[j] == inStream.data[old(inStream.pos) + j]
      {
        var b := Read();
        id := id + [b];
      }
    }

    /** The logical screen descriptor. */
    method ReadLSD(ghost h: Header)
      requires StreamOk() && Carries(inStream.data, inStream.pos, ScreenBytes(h))
      modifies this`width, this`height, this`gctFlag, this`gctSize, this`bgIndex, this`pixelAspect, inStream
      ensures StreamOk() && inStream.pos == old(inStream.pos) + 7
      ensures width == h.width && height == h.height && bgIndex == h.bgIndex && pixelAspect == h.aspect
      ensures gctFlag == HasTable(h.packed) && gctSize == TableSize(h.packed) <= 256
      ensures var d, p := inStream.data, old(inStream.pos);
              && p + 7 <= |d| && width == (d[p] as int) + 256 * (d[p + 1] as int)
              && height == (d[p + 2] as int) + 256 * (d[p + 3] as int)
              && (gctFlag <==> d[p + 4] >= 128) && gctSize == [2, 4, 8, 16, 32, 64, 128, 256][d[p + 4] % 8]
              && bgIndex == d[p + 5] && pixelAspect == d[p + 6]
    {
      ScreenFields(h, inStream.data, inStream.pos);
      TableSizes(h.packed);
      FieldsOfByte(h.packed);
      LocalSize(h.packed);
      hide Carries, ScreenBytes, And, Shl, Shr;
      width := ReadShort();
      height := ReadShort();
      var packed := Read();
      gctFlag := And(packed, 0x80) != 0;
      gctSize := Shl(2, And(packed, 7));
      bgIndex := Read();
      pixelAspect := Read();
    }

    /** The global colour table, and the background colour out of it. */
    method ReadGlobalTable(ghost h: Header)
      requires Valid() && gctFlag == HasTable(h.packed) && gctSize == TableSize(h.packed) <= 256 && bgIndex == h.bgIndex
      requires gct == null && Carries(inStream.data, inStream.pos, h.table)
      requires |h.table| == if gctFlag then 3 * gctSize else 0
      requires gctFlag ==> inStream.policy(inStream.pos, |h.table|) >= |h.table|
      modifies this`gct, this`bgColor, this`status, inStream
      ensures Valid() && status == old(status) && inStream.pos == old(inStream.pos) + |h.table|
      ensures TableIs(if HasTable(h.packed) then Colours(h.table) else []) && (gct == null || fresh(gct))
      ensures CurrentMeta() == MetaAfterHeader(old(CurrentMeta()), h)
      ensures if gctFlag then gct != null && Unpacked(gct[..], h.table) && bgColor == gct[bgIndex]
              else gct == null && bgColor == old(bgColor)
    {
      hide Colours, Unpacked;
      if gctFlag {
        gct := ReadColorTable(gctSize);
        bgColor := gct[bgIndex];
      }
    }

    /** Reads the header; anything but a GIF signature is a format error. */
    method ReadHeader(ghost h: Header)
      requires Valid() && status == STATUS_OK && gct == null && 0 <= transIndex < 256
      requires HeaderAt(h, inStream.data, inStream.pos, inStream.policy)
      modifies this`width, this`height, this`gctFlag, this`gctSize, this`bgIndex, this`pixelAspect
      modifies this`gct, this`bgColor, this`status, inStream
      ensures Valid() && status == if IsGif(h) then STATUS_OK else STATUS_FORMAT_ERROR
      ensures IsGif(h) ==> inStream.pos == old(inStream.pos) + 13 + |h.table| && Settled(EnvOf(h, starting))
      ensures IsGif(h) ==> CurrentMeta() == MetaAfterHeader(old(CurrentMeta()), h)
      ensures !IsGif(h) ==> inStream.pos == old(inStream.pos) + 6 && CurrentMeta() == old(CurrentMeta())
      ensures gct == null || fresh(gct)
    {
      hide Carries, ScreenBytes, Colours, CurrentMeta, MetaAfterHeader, Settled, EnvOf, TableIs, Unpacked, HeaderAt;
      hide TableSize, HasTable;
      HeaderParts(h, inStream.data, inStream.pos, inStream.policy);
      SignatureBytes(h, inStream.data, inStream.pos);
      var id := ReadId();
      if id[..3] != [71, 73, 70] {
        status := STATUS_FORMAT_ERROR;
        return;
      }
      ReadLSD(h);
      ReadGlobalTable(h);
      SettledByHeader(h);
    }

    lemma SettledByHeader(h: Header)
      requires Valid() && 0 <= transIndex < 256 && width == h.width && height == h.height && bgIndex == h.bgIndex
      requires TableIs(if HasTable(h.packed) then Colours(h.table) else [])
      ensures Settled(EnvOf(h, starting))
    {
      hide Colours;
    }

    /** Ready for a new file; what earlier extensions set is kept. */
    method Init()
      requires Valid()
      modifies this`status, this`frames, this`frameCount, this`gct
      ensures Valid() && status == STATUS_OK && frames == [] && gct == null
    {
      status, frameCount, frames, gct := STATUS_OK, 0, [], null;
    }

    /**
     * Reads a whole file: one frame for each image, in order, and the status says whether it ended with a trailer. In a
     * regular file the loop count is that of the last loop sub-block. A file that does not start with a GIF signature
     * is a format error without frames.
     */
    method ReadFile(ghost h: Header, ghost items: seq<Item>, ghost end: nat) returns (result: int)
      requires Valid() && 0 <= transIndex < 256
      requires FileAt(h, items, EnvOf(h, starting), inStream.data, inStream.pos, end, inStream.policy)
      requires IsGif(h) && Tableless(EnvOf(h, starting), inStream.data, end) ==>
                 !MetaAfterAll(MetaAfterHeader(CurrentMeta(), h), items, EnvOf(h, starting)).transparency
      modifies this, inStream, block, pixels, prefix, suffix, pixelStack
      ensures Valid() && result == status && frameCount == |frames|
      ensures IsGif(h) ==>
                && status == (if EndsWell(inStream.data, end) then STATUS_OK else STATUS_FORMAT_ERROR)
                && inStream.pos == AfterEnd(inStream.data, end) && ItemsOk(items, EnvOf(h, starting))
                && frames == Frames(MetaAfterHeader(old(CurrentMeta()), h), items, EnvOf(h, starting), 0)
                && CurrentMeta() ==
                   MetaAtEnd(MetaAfterAll(MetaAfterHeader(old(CurrentMeta()), h), items, EnvOf(h, starting)),
                             EnvOf(h, starting), inStream.data, end)
                && CurrentLoops() == LoopsAfterAll(old(CurrentLoops()), items)
                && TableIs(EnvOf(h, starting).gct)
      ensures IsGif(h) ==> (result == 0 <==> end < |inStream.data| && inStream.data[end] == 0x3b)
      ensures result == 0 || result == 1
      ensures IsGif(h) ==> frameCount == Pictures(items)
      ensures IsGif(h) && Regular(items) ==> loopCount == PlainCounts(items, old(loopCount))
      ensures !IsGif(h) ==>
                && status == STATUS_FORMAT_ERROR && frames == [] && inStream.pos == old(inStream.pos) + 6
                && CurrentMeta() == old(CurrentMeta()) && CurrentLoops() == old(CurrentLoops())
    {
      hide ItemsAt, HeaderAt, ItemsOk, CurrentMeta, Frames, MetaAfterAll, MetaAfterHeader, EndsWell, AfterEnd, EnvOf;
      hide CurrentLoops, LoopsAfterAll, IsGif, Tableless, MetaAtEnd, Pictures, PlainCounts, Regular;
      LoopsParts();
      ghost var m, l := MetaAfterHeader(CurrentMeta(), h), CurrentLoops();
      Init();
      ReadHeader(h);
      if !Error() {
        ReadContents(items, EnvOf(h, starting), end);
        LoopsParts();
        FileYields(m, l, items, EnvOf(h, starting));
        TrailerEnds(inStream.data, end);
        status := if frameCount < 0 then STATUS_FORMAT_ERROR else status;
      }
      result := status;
    }
  }

  lemma HeaderParts(h: Header, d: seq<byte>, p: nat, policy: (nat, nat) -> nat)
    requires HeaderAt(h, d, p, policy)
    ensures |h.signature| == 6 && Carries(d, p, h.signature)
    ensures IsGif(h) ==>
              && Carries(d, p + 6, ScreenBytes(h)) && Carries(d, p + 13, h.table)
              && |h.table| == (if HasTable(h.packed) then 3 * TableSize(h.packed) else 0)
              && (HasTable(h.packed) ==> policy(p + 13, |h.table|) >= |h.table|)
  {
    hide Carries;
  }

  lemma TrailerEnds(d: seq<byte>, end: nat)
    ensures EndsWell(d, end) <==> end < |d| && d[end] == 0x3b
  {
  }

  lemma SignatureBytes(h: Header, d: seq<byte>, p: nat)
    requires |h.signature| == 6 && Carries(d, p, h.signature)
    ensures p + 6 <= |d| && forall i :: 0 <= i < 6 ==> d[p + i] == h.signature[i]
    ensures IsGif(h) <==> d[p] == 71 && d[p + 1] == 73 && d[p + 2] == 70
  {
    var s := d[p..p + 6];
    assert s == h.signature && forall i :: 0 <= i < 6 ==> s[i] == d[p + i];
  }

  lemma ScreenFields(h: Header, d: seq<byte>, p: nat)
    requires Carries(d, p, ScreenBytes(h))
    ensures p + 7 <= |d| && d[p + 4] == h.packed && d[p + 5] == h.bgIndex && d[p + 6] == h.aspect
    ensures (d[p] as int) + 256 * (d[p + 1] as int) == h.width &&
            (d[p + 2] as int) + 256 * (d[p + 3] as int) == h.height
  {
    var s := d[p..p + 7];
    assert s == ScreenBytes(h);
    assert s[0] == d[p] && s[1] == d[p + 1] && s[2] == d[p + 2] && s[3] == d[p + 3];
    assert s[4] == d[p + 4] && s[5] == d[p + 5] && s[6] == d[p + 6];
  }

  lemma PaddingRead(items: seq<Item>, env: Env, d: seq<byte>, p: nat, end: nat, policy: (nat, nat) -> nat)
    requires InBody(items, env, d, p, end, policy) && Body(items[0]) == []
    ensures ItemsAt(items[1..], env, d, p, end, policy)
  {
  }

  /** One round of the loop that reads a NETSCAPE extension. */
  lemma LoopsStep(l: Loops, chunks: seq<Chunk>)
    ensures LoopsRead(l, chunks) ==
            if chunks == [] then Seen(Loops(l.count, Overlay(l.buffer, [])))
            else LoopsRead(Seen(Loops(l.count, Overlay(l.buffer, chunks[0]))), chunks[1..])
  {
    assert Overlay(l.buffer, []) == l.buffer;
  }

  lemma ApplicationParts(d: seq<byte>, p: nat, name: Name, chunks: seq<Chunk>)
    requires Carries(d, p, [|name|] + name + Framed(chunks))
    ensures p + 1 + |name| <= |d| && BlockFits(d, p) && BlockAt(d, p) == name && AfterBlock(d, p) == p + 1 + |name|
    ensures Carries(d, p + 1 + |name|, Framed(chunks))
  {
    assert [|name|] + name + Framed(chunks) == [|name|] + (name + Framed(chunks));
    CarriesByte(d, p, |name|, name + Framed(chunks));
    CarriesParts(d, p + 1, name, Framed(chunks));
  }

  /** The image data as the decoder meets it; the last clause is for data that runs out. */
  lemma DataParts(d: seq<byte>, p: nat, im: Image, buffer: seq<byte>)
    requires Carries(d, p, [im.dataSize] + Framed(im.chunks))
    ensures p < |d| && d[p] == im.dataSize && Complete(d, p + 1) && Payload(d, p + 1) == Flatten(im.chunks)
    ensures ChainEnd(d, p + 1) == p + 1 + |Framed(im.chunks)|
    ensures AfterChain(d, p + 1, buffer) == (p + 1 + |Framed(im.chunks)|, Overlays(buffer, im.chunks))
    ensures var end := p + 1 + |Framed(im.chunks)|;
            Complete(d, end) ==> (ChainEnd(d, end) == end <==> end == |d|)
  {
    hide Complete, Payload, ChainEnd, AfterChain, Framed, Overlays;
    CarriesByte(d, p, im.dataSize, Framed(im.chunks));
    FramedChain(d, p + 1, im.chunks);
    FramedBuffer(d, p + 1, im.chunks, buffer);
    if Complete(d, ChainEnd(d, p + 1)) { SkipAfterExhaustion(d, p + 1); }
  }

  /** The data of an image and the chain behind it. */
  lemma AllData(d: seq<byte>, p: nat, im: Image, buffer: seq<byte>)
    requires Carries(d, p, DataBytes(im))
    ensures Carries(d, p, [im.dataSize] + Framed(im.chunks))
    ensures var end, named := p + 1 + |Framed(im.chunks)|, Overlays(buffer, im.chunks);
            if Outcome(im) == OutOfData then
              end <= |d| && Complete(d, end) &&
              AfterChain(d, end, named) == (p + |DataBytes(im)|, Overlays(buffer, BlocksRead(im)))
            else p + |DataBytes(im)| == end == AfterSkip(d, end, false) && BlocksRead(im) == im.chunks
  {
    hide Outcome, Framed, Carries, Complete, AfterChain, Overlays, ChainEnd;
    var data := [im.dataSize] + Framed(im.chunks);
    var rest := if Outcome(im) == OutOfData then Framed(im.rest) else [];
    CarriesParts(d, p, data, rest);
    if Outcome(im) == OutOfData {
      FramedBuffer(d, p + |data|, im.rest, Overlays(buffer, im.chunks));
      OverlaysConcat(buffer, im.chunks, im.rest);
    }
  }

  lemma ImageOkParts(im: Image, env: Env)
    requires ImageOk(im, env)
    ensures 2 <= im.dataSize <= 11 && Area(im.iw, im.ih) < 0x8000_0000
    ensures Outcome(im) != BadFirst && HasColours(im, env)
  {
    hide Outcome;
  }

  lemma ExtensionParts(d: seq<byte>, p: nat, item: Item, buffer: seq<byte>)
    requires Introducer(item) == 0x21 && Carries(d, p, Body(item))
    ensures p < |d|
    ensures item.GraphicControl? ==> d[p] == 0xf9 && Carries(d, p + 1, ControlBytes(item))
    ensures item.Application? ==>
              d[p] == 0xff && Carries(d, p + 1, [|item.name|] + item.name + Framed(item.chunks))
    ensures item.Extension? ==>
              d[p] == item.kind && Complete(d, p + 1) &&
              AfterChain(d, p + 1, buffer) == (p + 1 + |Framed(item.chunks)|, Overlays(buffer, item.chunks)) &&
              |Body(item)| == 1 + |Framed(item.chunks)|
    ensures item.GraphicControl? ==> |Body(item)| == 7
    ensures item.Application? ==> |Body(item)| == 2 + |item.name| + |Framed(item.chunks)|
    ensures item.GraphicControl? || item.Application? || item.Extension?
  {
    hide Complete, Payload, ChainEnd, AfterChain, Framed, Overlays, Carries, ControlBytes;
    match item {
      case GraphicControl(_, _, _, _, _) => CarriesByte(d, p, 0xf9, ControlBytes(item));
      case Application(name, chunks) => CarriesByte(d, p, 0xff, [|name|] + name + Framed(chunks));
      case Extension(kind, chunks) =>
        CarriesByte(d, p, kind, Framed(chunks));
        FramedBuffer(d, p + 1, chunks, buffer);
    }
  }

  lemma ExtensionEffects(item: Item, m: Meta, l: Loops, env: Env)
    ensures item.GraphicControl? ==> LoopsAfter(l, item) == l
    ensures item.Application? || item.Extension? ==> MetaAfter(m, item, env) == m
    ensures item.Extension? ==>
              LoopsAfter(l, item) == Loops(l.count, Overlays(l.buffer, item.chunks)) &&
              (ItemOk(item, env) ==> item.kind != 0xf9 && item.kind != 0xff)
  {
  }

  lemma FrameIgnoresBackground(m: Meta, im: Image, env: Env, n: nat)
    requires ImageOk(im, env)
    ensures FrameOf(MetaAfter(m, Picture(im), env), im, env, n) == FrameOf(m, im, env, n)
  {
  }

  lemma ImageParts(d: seq<byte>, p: nat, im: Image)
    requires Carries(d, p, ImageBytes(im))
    ensures Carries(d, p, HeadBytes(im))
    ensures Carries(d, p + 9, im.table)
    ensures Carries(d, p + 9 + |im.table|, DataBytes(im))
    ensures |ImageBytes(im)| == 9 + |im.table| + |DataBytes(im)|
  {
    hide Carries, HeadBytes, DataBytes;
    CarriesParts(d, p, HeadBytes(im), im.table + DataBytes(im));
    CarriesParts(d, p + 9, im.table, DataBytes(im));
  }

  /** The image that comes next: the first item, or the tableless one at the end. */
  lemma PictureAt(items: seq<Item>, env: Env, d: seq<byte>, p: nat, end: nat, policy: (nat, nat) -> nat, m: Meta)
    returns (im: Image)
    requires if items != [] then InBody(items, env, d, p, end, policy) && items[0].Picture?
             else Tableless(env, d, end) && p == end + 1
    ensures if items != [] then
              && im == items[0].image && HasColours(im, env) && Carries(d, p, ImageBytes(im)) && ImageOk(im, env)
              && TableWhole(im, p, policy) && ItemsAt(items[1..], env, d, p + |ImageBytes(im)|, end, policy)
              && ItemOk(items[0], env) && items[0] == Picture(im)
            else
              && !HasColours(im, env) && Carries(d, p, HeadBytes(im)) && im.table == []
              && p + 9 == AfterEnd(d, end) && MetaAfter(m, Picture(im), env) == MetaAtEnd(m, env, d, end)
  {
    hide Carries, ImageBytes, HeadBytes, ItemsAt, TableWhole, Outcome;
    if items != [] {
      im := items[0].image;
    } else {
      im := HeadAt(d, p);
      HeadIsThere(d, p);
    }
  }

  lemma EndParts(env: Env, d: seq<byte>, end: nat, m: Meta)
    ensures Ends(env, d, end) && end < |d| ==>
              d[end] != 0x00 && d[end] != 0x21 && (d[end] == 0x2C <==> Tableless(env, d, end))
    ensures !Tableless(env, d, end) ==> MetaAtEnd(m, env, d, end) == m
    ensures end < |d| && d[end] != 0x2C ==> AfterEnd(d, end) == end + 1
    ensures end >= |d| ==> AfterEnd(d, end) == end && !Tableless(env, d, end)
  {
  }

  /** What an image starts with, whether it has colours or not. */
  lemma ImageStarts(d: seq<byte>, p: nat, im: Image, env: Env, policy: (nat, nat) -> nat)
    requires if HasColours(im, env)
             then Carries(d, p, ImageBytes(im)) && ImageOk(im, env) && TableWhole(im, p, policy)
             else Carries(d, p, HeadBytes(im)) && im.table == []
    ensures Carries(d, p, HeadBytes(im)) && Carries(d, p + 9, im.table)
    ensures TableShaped(im) && TableWhole(im, p, policy)
    ensures HasColours(im, env) ==>
              Carries(d, p + 9 + |im.table|, DataBytes(im)) && |ImageBytes(im)| == 9 + |im.table| + |DataBytes(im)|
    ensures !HasColours(im, env) ==> im.table == []
  {
    hide HeadBytes, DataBytes, Outcome;
    if HasColours(im, env) {
      ImageParts(d, p, im);
    }
  }

  lemma StatusesDiffer()
    ensures STATUS_OK != STATUS_FORMAT_ERROR
  {
  }
  lemma LocalSize(packed: byte)
    ensures And(packed, 7) == packed % 8
    ensures Shl(2, And(packed, 7)) == TableSize(packed) <= 256
  {
    FieldsOfByte(packed);
    ShlIsProduct(2, packed % 8);
    assert Pow2(7) == 128;
    Pow2Monotone(packed % 8, 7);
  }

  lemma HeadFields(im: Image, d: seq<byte>, p: nat)
    requires Carries(d, p, HeadBytes(im))
    ensures p + 9 <= |d| && d[p + 8] == im.packed
    ensures (d[p] as int) + 256 * (d[p + 1] as int) == im.ix && (d[p + 2] as int) + 256 * (d[p + 3] as int) == im.iy
    ensures (d[p + 4] as int) + 256 * (d[p + 5] as int) == im.iw && (d[p + 6] as int) + 256 * (d[p + 7] as int) == im.ih
  {
    var h := HeadBytes(im);
    var s := d[p..p + 9];
    assert s == h;
    assert s[0] == d[p] && s[1] == d[p + 1] && s[2] == d[p + 2] && s[3] == d[p + 3] && s[4] == d[p + 4];
    assert s[5] == d[p + 5] && s[6] == d[p + 6] && s[7] == d[p + 7] && s[8] == d[p + 8];
    assert h[0] == im.ix % 256 && h[1] == im.ix / 256 && h[2] == im.iy % 256 && h[3] == im.iy / 256;
    assert h[4] == im.iw % 256 && h[5] == im.iw / 256 && h[6] == im.ih % 256 && h[7] == im.ih / 256;
  }

  lemma ControlFields(c: Item, d: seq<byte>, p: nat)
    requires c.GraphicControl? && Carries(d, p, ControlBytes(c))
    ensures p + 6 <= |d| && d[p + 1] == c.packed && d[p + 4] == c.transIndex
    ensures (d[p + 2] as int) + 256 * (d[p + 3] as int) == c.delay
  {
    var s := d[p..p + 6];
    assert s[1] == d[p + 1] && s[2] == d[p + 2] && s[3] == d[p + 3] && s[4] == d[p + 4];
  }

  /** Packs RGB triples into the first entries of a table of 256. */
  method UnpackColors(c: array<byte>, ncolors: nat) returns (tab: array<int>)
    requires ncolors <= 256 && c.Length == 3 * ncolors
    ensures fresh(tab) && tab.Length == 256 && tab[..] == Colours(c[..])
  {
    tab := new int[256](_ => 0);
    var i, j := 0, 0;
    while i < ncolors
      invariant 0 <= i <= ncolors && j == 3 * i
      invariant forall t :: 0 <= t < 256 ==> tab[t] == if t < i then Colours(c[..])[t] else 0
    {
      var r, g, b := c[j], c[j + 1], c[j + 2];
      j := j + 3;
      tab[i] := Argb(r, g, b);
      i := i + 1;
    }
  }

  /** The root codes and the first width, as after a clear. */
  method StartTables(ds: nat, prefix: array<int>, suffix: array<byte>) returns (v: LoopVars)
    requires 2 <= ds <= 11 && prefix.Length == suffix.Length == MAX_STACK_SIZE
    modifies prefix, suffix
    ensures Mirrors(ds, FRESH, prefix[..], suffix[..], v)
  {
    hide And, Shl, Pow2;
    ShlOne(ds);
    FirstWidth(ds);
    var clear := Shl(1, ds);
    var codeSize := ds + 1;
    ShlOne(codeSize);
    v := LoopVars(clear + 2, codeSize, Shl(1, codeSize) - 1, -1, 0);
    for code := 0 to clear
      invariant forall c :: 0 <= c < code ==> suffix[c] == c % 256
    {
      prefix[code] := 0;
      suffix[code] := code % 256;
    }
    RepresentsFresh(ds, prefix[..], suffix[..]);
  }

  lemma PixelsOf(ds: nat, bits: seq<bool>, npix: nat, total: Result)
    requires total == Run(ds, [], bits, FRESH, npix)
    ensures |total.out| <= npix && Pixels(ds, bits, npix) == ZeroPadded(total.out, npix)
  {
    hide Run;
    RunLength(ds, [], bits, FRESH, npix);
  }

  /** Missing pixels become zero. */
  method ClearMissing(pixels: array<byte>, from: nat, npix: nat)
    requires from <= npix <= pixels.Length
    modifies pixels
    ensures pixels[..npix] == ZeroPadded(old(pixels[..from]), npix)
  {
    for i := from to npix
      invariant pixels[..i] == ZeroPadded(old(pixels[..from]), i)
    {
      pixels[i] := 0;
    }
  }

  method Append(a: array<byte>, i: nat, x: byte)
    requires i < a.Length
    modifies a
    ensures a[..i + 1] == old(a[..i]) + [x]
  {
    a[i] := x;
  }
}