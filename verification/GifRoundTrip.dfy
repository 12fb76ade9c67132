/** What an encoder writes into an image block is what the decoder reads out of it. */
module GifRoundTrip {
  import opened BitStrings
  import opened SubBlocks
  import opened Lzw
  import opened LzwEncoder
  import opened FrameCopy
  import opened Interlace
  import opened GifFile
  import opened FileContents
  import opened GifDecoding

  /** The image's data is the transmission of the pixels by some conforming encoder, cut into sub-blocks anyhow. */
  ghost predicate Transmits(im: Image, pixels: seq<byte>, codes: seq<nat>) {
    && 2 <= im.dataSize <= 11
    && Encodes(im.dataSize, FRESH, pixels, codes)
    && Flatten(im.chunks) == PackBytes(PackFrom(im.dataSize, FRESH, codes))
  }

  /**
   * Round trip of an image block. An image whose data transmits one pixel for each of its positions is complete,
   * and its decoded pixels are the transmitted ones.
   */
  lemma ImageRoundTrip(im: Image, pixels: seq<byte>, codes: seq<nat>)
    requires Transmits(im, pixels, codes) && |pixels| == Area(im.iw, im.ih)
    ensures Outcome(im) == Filled
    ensures Pixels(im.dataSize, Bits(Flatten(im.chunks)), Area(im.iw, im.ih)) == pixels
  {
    var ds, npix := im.dataSize, Area(im.iw, im.ih);
    var bits := PackFrom(ds, FRESH, codes);
    PackBytesKeepsBits(bits);
    hide Run, Encodes, PackBytes, PackFrom, Bits, Pixels;
    DecoderInvertsEncoder(ds, [], FRESH, pixels, codes, Bits(Flatten(im.chunks)), npix);
    assert [] + pixels == pixels;
    AnyEncoderRoundTrip(ds, pixels, codes, Flatten(im.chunks), npix);
  }

  /** For the greedy encoder, clearing wherever it likes, and for every cutting of its bytes into sub-blocks. */
  lemma GreedyImageRoundTrip(im: Image, pixels: seq<byte>, clearAt: nat -> bool)
    requires 2 <= im.dataSize <= 8 && |pixels| == Area(im.iw, im.ih)
    requires forall k :: 0 <= k < |pixels| ==> pixels[k] < Pow2(im.dataSize)
    requires Flatten(im.chunks) == PackBytes(PackFrom(im.dataSize, FRESH, EncodeImage(im.dataSize, pixels, clearAt)))
    ensures Outcome(im) == Filled
    ensures Pixels(im.dataSize, Bits(Flatten(im.chunks)), Area(im.iw, im.ih)) == pixels
  {
    var codes := EncodeImage(im.dataSize, pixels, clearAt);
    GreedyEncodes(im.dataSize, FRESH, pixels, clearAt);
    assert codes[1..] == Greedy(im.dataSize, FRESH, pixels, clearAt);
    ImageRoundTrip(im, pixels, codes);
  }

  /** Such an image is a complete one, and its frame is the transmitted pixels copied over the starting screen. */
  lemma TransmittedFrame(im: Image, pixels: seq<byte>, codes: seq<nat>, m: Meta, env: Env, n: nat)
    requires Transmits(im, pixels, codes) && |pixels| == Area(im.iw, im.ih) < 0x8000_0000
    requires TableShaped(im)
    requires HasColours(im, env)
    ensures ImageOk(im, env)
    ensures FrameOf(m, im, env, n) ==
            Frame(Composed(ImageGeometry(im, env), pixels, ActiveTable(m, im, env), StartingScreen(env, n)), m.delay)
  {
    ImageRoundTrip(im, pixels, codes);
    assert 2 <= im.dataSize <= 11;
    hide Transmits, Pixels, Composed, Outcome, ActiveTable, Bits, Flatten;
  }

  /** A pixel is sent for position (x, y): one in the image's rectangle, unless it is a short interlaced one. */
  predicate Reached(im: Image, x: nat, y: nat) {
    im.ix <= x < im.ix + im.iw && im.iy <= y && StepFor(im.packed / 64 % 2 == 1, im.ih, y - im.iy) >= 0
  }

  lemma ReachedInside(im: Image, x: nat, y: nat)
    requires im.packed / 64 % 2 == 1 ==> !(2 <= im.ih <= 4)
    ensures Reached(im, x, y) <==> im.ix <= x < im.ix + im.iw && im.iy <= y < im.iy + im.ih
  {
    hide StepOf;
  }

  /** Which of the sent pixels that is: rows come in the order of Appendix E or in turn. */
  function SentFor(im: Image, x: nat, y: nat): nat
    requires Reached(im, x, y)
  {
    At(im.iw, x - im.ix, StepFor(im.packed / 64 % 2 == 1, im.ih, y - im.iy))
  }

  /**
   * Position (x, y) of frame n, f, of an image: where a pixel was sent for it, its colour, but what was there when
   * that colour is 0 or the transparent one, and everywhere else.
   */
  ghost predicate PixelShown(f: Frame, im: Image, pixels: seq<byte>, m: Meta, env: Env, n: nat, x: nat, y: nat)
    requires HasColours(im, env)
  {
    && At(env.width, x, y) < |f.image|
    && var shown, was := f.image[At(env.width, x, y)], env.starting(n, At(env.width, x, y));
       if Reached(im, x, y) then
         && SentFor(im, x, y) < |pixels|
         && var p := pixels[SentFor(im, x, y)];
            var c := if im.packed >= 128 then Colours(im.table)[p] else env.gct[p];
            shown == if c == 0 || (m.transparency && p == m.transIndex) then was else c
       else shown == was
  }

  /** From the encoder to the screen. */
  lemma TransmittedPixelShown(im: Image, pixels: seq<byte>, codes: seq<nat>, m: Meta, env: Env, n: nat, x: nat, y: nat)
    requires ImageOk(im, env) && Transmits(im, pixels, codes) && |pixels| == Area(im.iw, im.ih)
    requires x < env.width && y < env.height
    ensures PixelShown(FrameOf(m, im, env, n), im, pixels, m, env, n, x, y)
  {
    assert Transmits(im, pixels, codes) && HasColours(im, env) && TableShaped(im) && |pixels| < 0x8000_0000;
    var was := StartingScreen(env, n);
    hide *;
    TransmittedFrame(im, pixels, codes, m, env, n);
    StartsInRange(env, n, x, y);
    CopyShows(im, env, pixels, m, n, was, x, y);
  }

  /** Pixels, and the codes some encoder sends them with. */
  datatype Sent = Sent(pixels: seq<byte>, codes: seq<nat>)

  /** Each image of the items has been sent by some conforming encoder, a pixel for each of its positions. */
  ghost predicate AllSent(items: seq<Item>, sent: seq<Sent>) {
    |sent| == |items| && forall i :: 0 <= i < |items| && items[i].Picture? ==> ImageSent(items[i].image, sent[i])
  }

  ghost predicate ImageSent(im: Image, s: Sent) {
    Transmits(im, s.pixels, s.codes) && |s.pixels| == Area(im.iw, im.ih)
  }

  /** The frame of item i shows the pixels that were sent for it, with what the items before it left set. */
  ghost predicate ImageShown(frames: seq<Frame>, m: Meta, items: seq<Item>, env: Env, i: nat, pixels: seq<byte>)
    requires i < |items| && items[i].Picture?
  {
    var k, im, now := Pictures(items[..i]), items[i].image, MetaAfterAll(m, items[..i], env);
    && k < |frames| && HasColours(im, env) && frames[k].delay == now.delay
    && (forall x: nat, y: nat :: x < env.width && y < env.height ==>
          PixelShown(frames[k], im, pixels, now, env, k, x, y))
  }

  ghost predicate AllShown(frames: seq<Frame>, m: Meta, items: seq<Item>, env: Env, sent: seq<Sent>)
    requires |sent| == |items|
  {
    && |frames| == Pictures(items)
    && (forall i :: 0 <= i < |items| && items[i].Picture? ==>
          ImageShown(frames, m, items, env, i, sent[i].pixels))
  }

  /** Every frame of a file whose images have all been sent shows what was sent. */
  lemma SentFileShown(m: Meta, items: seq<Item>, env: Env, sent: seq<Sent>)
    requires ItemsOk(items, env) && AllSent(items, sent)
    ensures AllShown(Frames(m, items, env, 0), m, items, env, sent)
  {
    hide ItemsOk, ImageSent, Frames, Pictures, ImageShown;
    FrameCount(m, items, env, 0);
    forall i | 0 <= i < |items| && items[i].Picture?
      ensures ImageShown(Frames(m, items, env, 0), m, items, env, i, sent[i].pixels)
    {
      assert ImageSent(items[i].image, sent[i]);
      SentImageShown(m, items, env, i, sent[i]);
    }
  }

  /**
   * The same from bytes alone: the last graphic control before an image says which pixel value is transparent and how
   * long the frame is shown; the colour of any other pixel is its three bytes in the image's own colour table or in the
   * header's, with alpha 255, and a pixel without an entry leaves what was there.
   */
  lemma ShownFromBytes(frames: seq<Frame>, m: Meta, h: Header, items: seq<Item>, starting: (nat, nat) -> int,
                       sent: seq<Sent>, i: nat, j: int, x: nat, y: nat)
    requires |sent| == |items| && AllShown(frames, m, items, EnvOf(h, starting), sent)
    requires i < |items| && items[i].Picture? && LastControl(items, j, i) && x < h.width && y < h.height
    ensures var k, im, pixels := Pictures(items[..i]), items[i].image, sent[i].pixels;
            && k < |frames| && At(h.width, x, y) < |frames[k].image|
            && frames[k].delay == (if j >= 0 then 10 * items[j].delay else m.delay)
            && var shown, was := frames[k].image[At(h.width, x, y)], starting(k, At(h.width, x, y));
               if Reached(im, x, y) then
                 && SentFor(im, x, y) < |pixels|
                 && var p := pixels[SentFor(im, x, y)];
                    var clear := if j >= 0 then items[j].packed % 2 == 1 && p == items[j].transIndex
                                 else m.transparency && p == m.transIndex;
                    var rgb := if im.packed >= 128 then im.table else h.table;
                    if clear || 3 * p + 2 >= |rgb| then shown == was
                    else Opaque(shown, rgb[3 * p], rgb[3 * p + 1], rgb[3 * p + 2])
               else shown == was
  {
    var env, im, k := EnvOf(h, starting), items[i].image, Pictures(items[..i]);
    var now := MetaAfterAll(m, items[..i], env);
    hide Pictures, MetaAfterAll, SentFor, Colours, Opaque, At, Reached;
    ControlInEffect(m, items, env, j, i);
    assert ImageShown(frames, m, items, env, i, sent[i].pixels);
    assert PixelShown(frames[k], im, sent[i].pixels, now, env, k, x, y);
    if Reached(im, x, y) {
      ColourBytes(if im.packed >= 128 then im.table else h.table, sent[i].pixels[SentFor(im, x, y)]);
    }
  }

  lemma SentImageShown(m: Meta, items: seq<Item>, env: Env, i: nat, s: Sent)
    requires ItemsOk(items, env) && i < |items| && items[i].Picture? && ImageSent(items[i].image, s)
    ensures ImageShown(Frames(m, items, env, 0), m, items, env, i, s.pixels)
  {
    hide ItemsOk, Frames, Pictures, Transmits, ActiveTable, Outcome, MetaAfterAll, PixelShown, Composed, Pixels;
    FrameAt(m, items, env, 0, i);
    var k, im, now := Pictures(items[..i]), items[i].image, MetaAfterAll(m, items[..i], env);
    forall x: nat, y: nat | x < env.width && y < env.height
      ensures PixelShown(FrameOf(now, im, env, k), im, s.pixels, now, env, k, x, y)
    {
      TransmittedPixelShown(im, s.pixels, s.codes, now, env, k, x, y);
    }
  }

  /**
   * From the encoders to the screens of a whole file: reading a file whose images were sent by any conforming encoders
   * gives one frame for each image, and every frame shows the pixels that were sent for it.
   */
  method ReadSentFile(dec: GifDecoder, ghost h: Header, ghost items: seq<Item>, ghost end: nat, ghost sent: seq<Sent>)
    requires dec.Valid() && 0 <= dec.transIndex < 256 && |h.signature| == 6 && IsGif(h) && AllSent(items, sent)
    requires FileAt(h, items, EnvOf(h, dec.starting), dec.inStream.data, dec.inStream.pos, end, dec.inStream.policy)
    requires EndsWell(dec.inStream.data, end)
    modifies dec, dec.inStream, dec.block, dec.pixels, dec.prefix, dec.suffix, dec.pixelStack
    ensures dec.Valid() && dec.status == STATUS_OK && dec.inStream.pos == end + 1
    ensures AllShown(dec.frames, MetaAfterHeader(old(dec.CurrentMeta()), h), items, EnvOf(h, dec.starting), sent)
    ensures Regular(items) ==> dec.loopCount == PlainCounts(items, old(dec.loopCount))
  {
    assert !Tableless(EnvOf(h, dec.starting), dec.inStream.data, end) && AfterEnd(dec.inStream.data, end) == end + 1;
    hide *;
    ghost var m := MetaAfterHeader(dec.CurrentMeta(), h);
    var status := dec.ReadFile(h, items, end);
    SentFileShown(m, items, EnvOf(h, dec.starting), sent);
  }

  lemma StartsInRange(env: Env, n: nat, x: nat, y: nat)
    requires x < env.width && y < env.height
    ensures At(env.width, x, y) < env.width * env.height <= |StartingScreen(env, n)|
    ensures StartingScreen(env, n)[At(env.width, x, y)] == env.starting(n, At(env.width, x, y))
  {
    AtInRange(env.width, env.height, x, y);
    assert env.width * env.height <= 3 * env.width * env.height;
  }

  lemma CopyShows(im: Image, env: Env, pixels: seq<byte>, m: Meta, n: nat, was: seq<int>, x: nat, y: nat)
    requires |pixels| == Area(im.iw, im.ih) && HasColours(im, env)
    requires x < env.width && y < env.height && At(env.width, x, y) < env.width * env.height <= |was|
    requires was[At(env.width, x, y)] == env.starting(n, At(env.width, x, y))
    ensures var image := Composed(ImageGeometry(im, env), pixels, ActiveTable(m, im, env), was);
            PixelShown(Frame(image, m.delay), im, pixels, m, env, n, x, y)
  {
    var g, act := ImageGeometry(im, env), ActiveTable(m, im, env);
    SentBrought(im, env, pixels, act, x, y);
    hide Composed, Brought, ActiveTable, Colours, SentFor, At, Reached, ImageGeometry;
    ComposedAt(g, pixels, act, was, x, y);
    if Reached(im, x, y) { ActiveColour(m, im, env, pixels[SentFor(im, x, y)]); }
  }

  lemma SentBrought(im: Image, env: Env, pixels: seq<byte>, act: seq<int>, x: nat, y: nat)
    requires |pixels| == Area(im.iw, im.ih) && |act| == 256
    ensures var g := ImageGeometry(im, env);
            && g.width == env.width && g.height == env.height && g.iw * g.ih == Area(im.iw, im.ih)
            && if Reached(im, x, y) then
                 SentFor(im, x, y) < |pixels| && Brought(g, pixels, act, g.ih, x, y) == act[pixels[SentFor(im, x, y)]]
               else Brought(g, pixels, act, g.ih, x, y) == 0
  {
    hide Brought, StepFor;
    ImageBrings(ImageGeometry(im, env), pixels, act, x, y);
  }

  lemma ComposedAt(g: Geometry, pixels: seq<byte>, act: seq<int>, was: seq<int>, x: nat, y: nat)
    requires |pixels| >= g.iw * g.ih && |act| == 256
    requires x < g.width && y < g.height && At(g.width, x, y) < g.width * g.height <= |was|
    ensures Composed(g, pixels, act, was)[At(g.width, x, y)] ==
            Over(Brought(g, pixels, act, g.ih, x, y), was[At(g.width, x, y)])
  {
    hide Brought;
    DivModUnique(At(g.width, x, y), g.width, y, x);
  }

  /** The sub-blocks a writer cuts a byte string into when it fills each of them as far as `size` says. */
  function Cut(bytes: seq<byte>, size: nat): (chunks: seq<Chunk>)
    requires 1 <= size <= 255
    decreases |bytes|
  {
    if bytes == [] then []
    else if |bytes| <= size then [bytes]
    else [bytes[..size]] + Cut(bytes[size..], size)
  }

  lemma {:induction false} CutFlattens(bytes: seq<byte>, size: nat)
    requires 1 <= size <= 255
    ensures Flatten(Cut(bytes, size)) == bytes
    decreases |bytes|
  {
    if |bytes| > size {
      CutFlattens(bytes[size..], size);
      assert bytes == bytes[..size] + bytes[size..];
      assert Cut(bytes, size)[1..] == Cut(bytes[size..], size);
    } else if bytes != [] {
      assert Flatten([bytes]) == bytes + Flatten([bytes][1..]);
    }
  }

  /**
   * The array decoder on what an encoder sent: for any conforming encoder and any cutting into sub-blocks it ends with
   * exactly the sent pixels in its pixel array, whatever its arrays held before, and just after the image's terminator.
   */
  method DecodeSent(dec: GifDecoder, ghost im: Image, ghost pixels: seq<byte>, ghost codes: seq<nat>)
    requires dec.Valid() && dec.status == STATUS_OK && dec.iw == im.iw && dec.ih == im.ih
    requires Transmits(im, pixels, codes) && |pixels| == Area(im.iw, im.ih) < 0x8000_0000
    requires Carries(dec.inStream.data, dec.inStream.pos, [im.dataSize] + Framed(im.chunks))
    modifies dec, dec.inStream, dec.block, dec.pixels, dec.prefix, dec.suffix, dec.pixelStack
    ensures dec.Valid() && dec.status == STATUS_OK
    ensures dec.pixels != null && |pixels| <= dec.pixels.Length && dec.pixels[..|pixels|] == pixels
    ensures dec.inStream.pos == old(dec.inStream.pos) + 1 + |Framed(im.chunks)|
  {
    hide *;
    ImageRoundTrip(im, pixels, codes);
    SizeSent(im, pixels, codes);
    dec.DecodeAndSkip(im);
    dec.PixelsHeld(im);
  }

  lemma SizeSent(im: Image, pixels: seq<byte>, codes: seq<nat>)
    requires Transmits(im, pixels, codes)
    ensures 2 <= im.dataSize <= 11
  {
  }

  /** The greedy encoder of Appendix F, clearing wherever it likes, with its bytes cut into sub-blocks of any size. */
  method DecodeGreedy(dec: GifDecoder, ghost ds: nat, ghost pixels: seq<byte>, ghost clearAt: nat -> bool,
                      ghost size: nat)
    requires dec.Valid() && dec.status == STATUS_OK && 0 <= dec.iw < 0x1_0000 && 0 <= dec.ih < 0x1_0000
    requires |pixels| == Area(dec.iw, dec.ih) < 0x8000_0000
    requires 2 <= ds <= 8 && 1 <= size <= 255 && forall k :: 0 <= k < |pixels| ==> pixels[k] < Pow2(ds)
    requires Carries(dec.inStream.data, dec.inStream.pos, SentGreedily(ds, pixels, clearAt, size))
    modifies dec, dec.inStream, dec.block, dec.pixels, dec.prefix, dec.suffix, dec.pixelStack
    ensures dec.Valid() && dec.status == STATUS_OK
    ensures dec.pixels != null && |pixels| <= dec.pixels.Length && dec.pixels[..|pixels|] == pixels
    ensures dec.inStream.pos == old(dec.inStream.pos) + |SentGreedily(ds, pixels, clearAt, size)|
  {
    hide *;
    ghost var im, codes := GreedyImage(dec.iw, dec.ih, ds, pixels, clearAt, size);
    DecodeSent(dec, im, pixels, codes);
  }

  /** The image data of some pixels: the data size, and the greedy encoder's bytes in sub-blocks. */
  ghost function SentGreedily(ds: nat, pixels: seq<byte>, clearAt: nat -> bool, size: nat): seq<byte>
    requires ds <= 8 && 1 <= size <= 255 && forall k :: 0 <= k < |pixels| ==> pixels[k] < Pow2(ds)
  {
    [ds] + Framed(Cut(PackBytes(PackFrom(ds, FRESH, EncodeImage(ds, pixels, clearAt))), size))
  }

  lemma GreedyImage(iw: int, ih: int, ds: nat, pixels: seq<byte>, clearAt: nat -> bool, size: nat)
    returns (im: Image, codes: seq<nat>)
    requires 0 <= iw < 0x1_0000 && 0 <= ih < 0x1_0000 && |pixels| == Area(iw, ih)
    requires 2 <= ds <= 8 && 1 <= size <= 255 && forall k :: 0 <= k < |pixels| ==> pixels[k] < Pow2(ds)
    ensures im.iw == iw && im.ih == ih && |pixels| == Area(im.iw, im.ih) && Transmits(im, pixels, codes)
    ensures SentGreedily(ds, pixels, clearAt, size) == [im.dataSize] + Framed(im.chunks)
    ensures |SentGreedily(ds, pixels, clearAt, size)| == 1 + |Framed(im.chunks)|
  {
    codes := EncodeImage(ds, pixels, clearAt);
    var bytes := PackBytes(PackFrom(ds, FRESH, codes));
    CutFlattens(bytes, size);
    im := Image(0, 0, iw, ih, 0, [], ds, Cut(bytes, size), []);
    GreedyEncodes(ds, FRESH, pixels, clearAt);
    assert codes[1..] == Greedy(ds, FRESH, pixels, clearAt);
  }
}
