/** The blocks of a GIF file (GIF89a, sections 20 to 27) as bytes, and what reading them must yield. */
module GifFile {
  import opened Sequences
  import opened BitStrings
  import opened SubBlocks
  import opened Lzw
  import opened FrameCopy

  type short = n: nat | n < 0x1_0000

  function LowHigh(n: short): (s: seq<byte>)
    ensures |s| == 2
  {
    [n % 256, n / 256]
  }

  /**
   * An image descriptor, its local colour table and its data. When the data runs out before the pixels do, the decoder
   * skips the next chain of blocks too; rest is that chain, whatever it was meant to be.
   */
  datatype Image = Image(ix: short, iy: short, iw: short, ih: short, packed: byte, table: seq<byte>,
                         dataSize: byte, chunks: seq<Chunk>, rest: seq<Chunk>)

  /** The signature, the logical screen descriptor and the global colour table. */
  datatype Header = Header(signature: seq<byte>, width: short, height: short, packed: byte, bgIndex: byte, aspect: byte,
                           table: seq<byte>)

  /** The first block of an application extension; eleven bytes in a regular one. */
  type Name = s: seq<byte> | |s| <= 255

  datatype Item =
    | Padding
    | GraphicControl(size: byte, packed: byte, delay: short, transIndex: byte, terminator: byte)
    | Application(name: Name, chunks: seq<Chunk>)
    | Extension(kind: byte, chunks: seq<Chunk>)
    | Picture(image: Image)

  /** "NETSCAPE2.0" */
  const NETSCAPE: seq<byte> := [78, 69, 84, 83, 67, 65, 80, 69, 50, 46, 48]

  function HeadBytes(im: Image): (s: seq<byte>)
    ensures |s| == 9
  {
    LowHigh(im.ix) + LowHigh(im.iy) + LowHigh(im.iw) + LowHigh(im.ih) + [im.packed]
  }

  /** The image's data and what is skipped after it. */
  ghost function DataBytes(im: Image): seq<byte> {
    [im.dataSize] + Framed(im.chunks) + if Outcome(im) == OutOfData then Framed(im.rest) else []
  }

  /** All blocks that pass through the buffer. */
  ghost function BlocksRead(im: Image): seq<Chunk> {
    im.chunks + if Outcome(im) == OutOfData then im.rest else []
  }

  ghost function ImageBytes(im: Image): seq<byte> {
    HeadBytes(im) + (im.table + DataBytes(im))
  }

  function ControlBytes(c: Item): (s: seq<byte>)
    requires c.GraphicControl?
    ensures |s| == 6
  {
    [c.size, c.packed] + LowHigh(c.delay) + [c.transIndex, c.terminator]
  }

  /** The bytes after an item's introducer. */
  ghost function Body(item: Item): seq<byte> {
    match item
    case Padding => []
    case GraphicControl(_, _, _, _, _) => [0xf9] + ControlBytes(item)
    case Application(name, chunks) => [0xff] + ([|name|] + name + Framed(chunks))
    case Extension(kind, chunks) => [kind] + Framed(chunks)
    case Picture(image) => ImageBytes(image)
  }

  function Introducer(item: Item): byte {
    match item
    case Padding => 0x00
    case Picture(_) => 0x2C
    case _ => 0x21
  }

  ghost function Serialize(items: seq<Item>): seq<byte> {
    if items == [] then [] else [Introducer(items[0])] + Body(items[0]) + Serialize(items[1..])
  }

  /** What the extensions set. */
  datatype Meta = Meta(dispose: int, transparency: bool, delay: int, transIndex: int, bgColor: int)

  /**
   * What the header sets; gct is empty when there is no global colour table. starting gives the screen before a
   * frame.
   */
  datatype Env = Env(width: nat, height: nat, gct: seq<int>, bgIndex: int, starting: (nat, nat) -> int)

  datatype Frame = Frame(image: seq<int>, delay: int)

  function TableSize(packed: byte): nat { 2 * Pow2(packed % 8) }

  lemma TableSizes(packed: byte)
    ensures TableSize(packed) == [2, 4, 8, 16, 32, 64, 128, 256][packed % 8]
  {
    assert Pow2(0) == 1 && Pow2(1) == 2 && Pow2(2) == 4 && Pow2(3) == 8;
    assert Pow2(4) == 16 && Pow2(5) == 32 && Pow2(6) == 64 && Pow2(7) == 128;
  }

  function HasTable(packed: byte): bool { packed >= 128 }

  /** A packed colour with full alpha, as a signed 32-bit integer. */
  function Argb(r: byte, g: byte, b: byte): int { r * 0x1_0000 + g * 0x100 + b - 0x100_0000 }

  /** The 256 entries of a colour table given by RGB triples; missing ones are 0. */
  function Colours(bytes: seq<byte>): (t: seq<int>)
    ensures |t| == 256
  {
    seq(256, i requires 0 <= i < 256 =>
      if 3 * i + 2 < |bytes| then Argb(bytes[3 * i], bytes[3 * i + 1], bytes[3 * i + 2]) else 0)
  }

  /** A signed 32-bit colour with alpha 255 and these parts. */
  predicate Opaque(colour: int, r: byte, g: byte, b: byte) {
    var u := colour + 0x1_0000_0000;
    u / 0x100_0000 == 255 && u / 0x1_0000 % 256 == r && u / 0x100 % 256 == g && u % 256 == b
  }

  lemma ArgbParts(r: byte, g: byte, b: byte)
    ensures Opaque(Argb(r, g, b), r, g, b) && Argb(r, g, b) != 0
  {
    assert Argb(r, g, b) < 0;
    var u := Argb(r, g, b) + 0x1_0000_0000;
    assert u == 0x100_0000 * 255 + (0x1_0000 * r + 0x100 * g + b) == 0x1_0000 * (256 * 255 + r) + (0x100 * g + b);
    assert u == 0x100 * (256 * (256 * 255 + r) + g) + b;
    hide *;
    DivModUnique(u, 0x100_0000, 255, 0x1_0000 * r + 0x100 * g + b);
    DivModUnique(u, 0x1_0000, 256 * 255 + r, 0x100 * g + b);
    DivModUnique(256 * 255 + r, 256, 255, r);
    DivModUnique(u, 0x100, 256 * (256 * 255 + r) + g, b);
    DivModUnique(256 * (256 * 255 + r) + g, 256, 256 * 255 + r, g);
    IsOpaque(Argb(r, g, b), r, g, b);
  }

  lemma IsOpaque(colour: int, r: byte, g: byte, b: byte)
    requires var u := colour + 0x1_0000_0000;
             u / 0x100_0000 == 255 && u / 0x1_0000 % 256 == r && u / 0x100 % 256 == g && u % 256 == b
    ensures Opaque(colour, r, g, b)
  {
  }

  /** Which byte of the table each part of an entry is; alpha is 255 for all entries there are. */
  lemma ColourBytes(bytes: seq<byte>, i: nat)
    requires i < 256
    ensures if 3 * i + 2 < |bytes|
            then Opaque(Colours(bytes)[i], bytes[3 * i], bytes[3 * i + 1], bytes[3 * i + 2]) && Colours(bytes)[i] != 0
            else Colours(bytes)[i] == 0
  {
    hide Opaque, Argb;
    if 3 * i + 2 < |bytes| { ArgbParts(bytes[3 * i], bytes[3 * i + 1], bytes[3 * i + 2]); }
  }

  /** A table of 256 with the colours of the RGB triples there are, and 0 in the other entries. */
  predicate Unpacked(table: seq<int>, bytes: seq<byte>) {
    && |table| == 256
    && (forall i :: 0 <= i < 256 ==>
          if 3 * i + 2 < |bytes| then Opaque(table[i], bytes[3 * i], bytes[3 * i + 1], bytes[3 * i + 2])
          else table[i] == 0)
  }

  lemma ColoursUnpacked(bytes: seq<byte>)
    ensures Unpacked(Colours(bytes), bytes)
  {
    hide Opaque, Colours;
    forall i | 0 <= i < 256
      ensures if 3 * i + 2 < |bytes| then Opaque(Colours(bytes)[i], bytes[3 * i], bytes[3 * i + 1], bytes[3 * i + 2])
              else Colours(bytes)[i] == 0
    {
      ColourBytes(bytes, i);
    }
  }

  function MetaAfter(m: Meta, item: Item, env: Env): Meta {
    match item
    case GraphicControl(_, packed, delay, transIndex, _) =>
      var d := packed / 4 % 8;
      m.(dispose := if d == 0 then 1 else d, transparency := packed % 2 == 1, delay := delay * 10,
         transIndex := transIndex)
    case Picture(im) => if !HasTable(im.packed) && env.bgIndex == m.transIndex then m.(bgColor := 0) else m
    case _ => m
  }

  /** The loop count and the block buffer it is taken from. */
  datatype Loops = Loops(count: int, buffer: seq<byte>)

  /** A buffer that starts with 1 sets the count, whatever block it came from. */
  function Seen(l: Loops): Loops {
    if |l.buffer| >= 3 && l.buffer[0] == 1 then l.(count := (l.buffer[1] as int) + 256 * (l.buffer[2] as int)) else l
  }

  /** Reading the sub-blocks of a NETSCAPE extension; the buffer is looked at once more for the terminator. */
  function LoopsRead(l: Loops, chunks: seq<Chunk>): Loops
    decreases |chunks|
  {
    if chunks == [] then Seen(l) else LoopsRead(Seen(l.(buffer := Overlay(l.buffer, chunks[0]))), chunks[1..])
  }

  /**
   * What an item does to them. An application extension counts as NETSCAPE's when the buffer's first eleven bytes say
   * so, which includes stale bytes behind a short name.
   */
  ghost function LoopsAfter(l: Loops, item: Item): Loops {
    match item
    case Application(name, chunks) =>
      var named := l.(buffer := Overlay(l.buffer, name));
      if NETSCAPE <= named.buffer then LoopsRead(named, chunks)
      else named.(buffer := Overlays(named.buffer, chunks))
    case Extension(_, chunks) => l.(buffer := Overlays(l.buffer, chunks))
    case Picture(im) => l.(buffer := Overlays(l.buffer, BlocksRead(im)))
    case _ => l
  }

  ghost function LoopsAfterAll(l: Loops, items: seq<Item>): Loops
    decreases |items|
  {
    if items == [] then l else LoopsAfterAll(LoopsAfter(l, items[0]), items[1..])
  }

  ghost predicate ItemOk(item: Item, env: Env) {
    match item
    case Extension(kind, _) => kind != 0xf9 && kind != 0xff
    case Picture(im) => ImageOk(im, env)
    case _ => true
  }

  /** The image's own table is there. */
  predicate TableShaped(im: Image) {
    |im.table| == if HasTable(im.packed) then 3 * TableSize(im.packed) else 0
  }

  /** The image has a table of its own or the global one. */
  predicate HasColours(im: Image, env: Env) {
    |env.gct| == 256 || HasTable(im.packed)
  }

  /** An image with its table, whose first codes are root codes; its data may end early. */
  ghost predicate ImageOk(im: Image, env: Env) {
    && TableShaped(im) && HasColours(im, env) && 2 <= im.dataSize <= 11
    && Area(im.iw, im.ih) < 0x8000_0000 && Outcome(im) != BadFirst
  }

  ghost function Outcome(im: Image): Why {
    Run(im.dataSize, [], Bits(Flatten(im.chunks)), FRESH, Area(im.iw, im.ih)).why
  }

  function LocalOrGlobal(im: Image, env: Env): (t: seq<int>)
    requires HasColours(im, env)
    ensures |t| == 256
  {
    if HasTable(im.packed) then Colours(im.table) else env.gct
  }

  /** The colour table in use, with the transparent colour out. */
  function ActiveTable(m: Meta, im: Image, env: Env): (t: seq<int>)
    requires HasColours(im, env)
    ensures |t| == 256
  {
    var t := LocalOrGlobal(im, env);
    if 0 <= m.transIndex < 256 then WithoutTransparent(t, m.transparency, m.transIndex) else t
  }

  function WithoutTransparent(t: seq<int>, transparency: bool, transIndex: int): (u: seq<int>)
    requires 0 <= transIndex < |t|
    ensures |u| == |t|
  {
    if transparency then t[transIndex := 0] else t
  }

  /** Entry k: 0 for the transparent colour, otherwise that of the image's own table or of the global one. */
  lemma ActiveColour(m: Meta, im: Image, env: Env, k: byte)
    requires HasColours(im, env)
    ensures im.packed < 128 ==> |env.gct| == 256
    ensures ActiveTable(m, im, env)[k] ==
            if m.transparency && k == m.transIndex then 0
            else if im.packed >= 128 then Colours(im.table)[k] else env.gct[k]
  {
  }

  function ImageGeometry(im: Image, env: Env): Geometry {
    Geometry(env.width, env.height, im.ix, im.iy, im.iw, im.ih, im.packed / 64 % 2 == 1)
  }

  function StartingScreen(env: Env, n: nat): seq<int> {
    seq(3 * env.width * env.height, j requires 0 <= j => env.starting(n, j))
  }

  /** How many pixels an image has. */
  function Area(width: int, height: int): int {
    width * height
  }

  /** The n-th frame of the file. */
  ghost function FrameOf(m: Meta, im: Image, env: Env, n: nat): Frame
    requires ImageOk(im, env)
  {
    var pixels := Pixels(im.dataSize, Bits(Flatten(im.chunks)), Area(im.iw, im.ih));
    Frame(Composed(ImageGeometry(im, env), pixels, ActiveTable(m, im, env), StartingScreen(env, n)), m.delay)
  }

  ghost predicate ItemsOk(items: seq<Item>, env: Env) {
    forall i :: 0 <= i < |items| ==> ItemOk(items[i], env)
  }

  /** The frames of the items, the first of which is frame n. */
  ghost function Frames(m: Meta, items: seq<Item>, env: Env, n: nat): seq<Frame>
    requires ItemsOk(items, env)
    decreases |items|
  {
    if items == [] then []
    else if items[0].Picture? then
      [FrameOf(m, items[0].image, env, n)] + Frames(MetaAfter(m, items[0], env), items[1..], env, n + 1)
    else Frames(MetaAfter(m, items[0], env), items[1..], env, n)
  }

  function MetaAfterAll(m: Meta, items: seq<Item>, env: Env): Meta
    decreases |items|
  {
    if items == [] then m else MetaAfterAll(MetaAfter(m, items[0], env), items[1..], env)
  }

  function ScreenBytes(h: Header): (s: seq<byte>)
    ensures |s| == 7
  {
    LowHigh(h.width) + LowHigh(h.height) + [h.packed, h.bgIndex, h.aspect]
  }

  /** The first three letters are "GIF"; the version after them does not matter. */
  predicate IsGif(h: Header)
    requires |h.signature| == 6
  {
    h.signature[..3] == [71, 73, 70]
  }

  /** A header stands at p: six signature bytes, and if they are a GIF's, all of the rest. */
  ghost predicate HeaderAt(h: Header, d: seq<byte>, p: nat, policy: (nat, nat) -> nat) {
    && |h.signature| == 6 && Carries(d, p, h.signature)
    && (IsGif(h) ==>
          && Carries(d, p + 6, ScreenBytes(h)) && Carries(d, p + 13, h.table)
          && |h.table| == (if HasTable(h.packed) then 3 * TableSize(h.packed) else 0)
          && (HasTable(h.packed) ==> policy(p + 13, |h.table|) >= |h.table|))
  }

  function EnvOf(h: Header, starting: (nat, nat) -> int): Env {
    Env(h.width, h.height, if HasTable(h.packed) then Colours(h.table) else [], h.bgIndex, starting)
  }

  function MetaAfterHeader(m: Meta, h: Header): Meta {
    if HasTable(h.packed) then m.(bgColor := Colours(h.table)[h.bgIndex]) else m
  }

  /** A whole file: a header and then, if it is a GIF's, the items. */
  ghost predicate FileAt(h: Header, items: seq<Item>, env: Env, d: seq<byte>, p: nat, end: nat,
                         policy: (nat, nat) -> nat)
  {
    HeaderAt(h, d, p, policy) && (IsGif(h) ==> ItemsAt(items, env, d, p + 13 + |h.table|, end, policy))
  }

  /** Each local colour table of the items, written from p on, arrives in a single read. */
  ghost predicate TablesWhole(items: seq<Item>, p: nat, policy: (nat, nat) -> nat)
    decreases |items|
  {
    items == [] ||
    (&& (items[0].Picture? ==> TableWhole(items[0].image, p + 1, policy))
     && TablesWhole(items[1..], p + 1 + |Body(items[0])|, policy))
  }

  predicate TableWhole(im: Image, p: nat, policy: (nat, nat) -> nat) {
    HasTable(im.packed) ==> policy(p + 9, |im.table|) >= |im.table|
  }

  /** An image descriptor without any colour table to go with it. */
  predicate Tableless(env: Env, d: seq<byte>, end: nat) {
    end + 10 <= |d| && d[end] == 0x2C && !HasTable(d[end + 9]) && env.gct == []
  }

  /** No further item begins: the data ends, or a trailer, another byte or a tableless image follows. */
  predicate Ends(env: Env, d: seq<byte>, end: nat) {
    end < |d| ==> (d[end] != 0x00 && d[end] != 0x21 && d[end] != 0x2C) || Tableless(env, d, end)
  }

  /** What a tableless image still does before it is found to be one. */
  function MetaAtEnd(m: Meta, env: Env, d: seq<byte>, end: nat): Meta {
    if Tableless(env, d, end) && env.bgIndex == m.transIndex then m.(bgColor := 0) else m
  }

  function ShortAt(d: seq<byte>, p: nat): short
    requires p + 2 <= |d|
  {
    (d[p] as int) + 256 * (d[p + 1] as int)
  }

  /** The image whose descriptor stands at p, without table and data. */
  function HeadAt(d: seq<byte>, p: nat): Image
    requires p + 9 <= |d|
  {
    Image(ShortAt(d, p), ShortAt(d, p + 2), ShortAt(d, p + 4), ShortAt(d, p + 6), d[p + 8], [], 0, [], [])
  }

  lemma HeadIsThere(d: seq<byte>, p: nat)
    requires p + 9 <= |d|
    ensures Carries(d, p, HeadBytes(HeadAt(d, p)))
  {
    var s, h := d[p..p + 9], HeadBytes(HeadAt(d, p));
    assert s[0] == h[0] && s[1] == h[1] && s[2] == h[2] && s[3] == h[3] && s[4] == h[4];
    assert s[5] == h[5] && s[6] == h[6] && s[7] == h[7] && s[8] == h[8];
    assert s == h;
  }

  /** The items stand at p and reach up to `end`, where no further item begins. */
  ghost predicate ItemsAt(items: seq<Item>, env: Env, d: seq<byte>, p: nat, end: nat, policy: (nat, nat) -> nat) {
    && Carries(d, p, Serialize(items)) && end == p + |Serialize(items)|
    && ItemsOk(items, env) && TablesWhole(items, p, policy)
    && Ends(env, d, end)
  }

  /** The first item's introducer has been read. */
  ghost predicate InBody(items: seq<Item>, env: Env, d: seq<byte>, p: nat, end: nat, policy: (nat, nat) -> nat) {
    && items != [] && ItemOk(items[0], env) && Carries(d, p, Body(items[0]))
    && (items[0].Picture? ==> TableWhole(items[0].image, p, policy))
    && ItemsAt(items[1..], env, d, p + |Body(items[0])|, end, policy)
  }

  /** The file ends with a trailer. */
  predicate EndsWell(d: seq<byte>, end: nat) {
    end < |d| && d[end] == 0x3b
  }

  /** Where reading stops: after the byte that ended it, or after a tableless image's descriptor. */
  function AfterEnd(d: seq<byte>, end: nat): nat {
    if end >= |d| then end else if d[end] == 0x2C then end + 10 else end + 1
  }

  function Tail<T>(s: seq<T>): (t: seq<T>)
    ensures s != [] ==> |t| < |s|
  {
    if s == [] then [] else s[1..]
  }

  /** Where the reading loop is: before the items, or past the end of them all after a trailer or an error. */
  ghost predicate Standing(items: seq<Item>, env: Env, d: seq<byte>, p: nat, end: nat, policy: (nat, nat) -> nat,
                           done: bool, failed: bool)
  {
    if !done && !failed then ItemsAt(items, env, d, p, end, policy)
    else items == [] && p == AfterEnd(d, end) && done == EndsWell(d, end) && failed == !done
  }

  lemma StandingOver(items: seq<Item>, env: Env, d: seq<byte>, p: nat, end: nat, policy: (nat, nat) -> nat,
                     done: bool, failed: bool)
    requires Standing(items, env, d, p, end, policy, done, failed) && (done || failed)
    ensures items == [] && failed == !done
  {
  }

  ghost function FrameOfItem(m: Meta, item: Item, env: Env, n: nat): seq<Frame>
    requires ItemOk(item, env)
  {
    if item.Picture? then [FrameOf(m, item.image, env, n)] else []
  }

  /** What an introducer and the bytes after it say about the next item. */
  lemma NextItem(items: seq<Item>, env: Env, d: seq<byte>, p: nat, end: nat, policy: (nat, nat) -> nat)
    requires ItemsAt(items, env, d, p, end, policy)
    ensures items == [] ==> p == end <= |d| && Ends(env, d, end)
    ensures items != [] ==> p < |d| && d[p] == Introducer(items[0]) && ItemOk(items[0], env)
    ensures items != [] ==> InBody(items, env, d, p + 1, end, policy)
  {
    hide Carries, Body, Serialize, ItemsOk, ItemOk, TableWhole, TablesWhole, Introducer;
    if items == [] {
      SerializeNone();
    } else {
      var b, rest := Body(items[0]), Serialize(items[1..]);
      SerializeFirst(items);
      ItemsOkTail(items, env);
      TablesTail(items, p, policy);
      CarriesByte(d, p, Introducer(items[0]), b + rest);
      CarriesParts(d, p + 1, b, rest);
    }
  }

  lemma SerializeNone()
    ensures Serialize([]) == []
  {
  }

  lemma SerializeFirst(items: seq<Item>)
    requires items != []
    ensures Serialize(items) == [Introducer(items[0])] + (Body(items[0]) + Serialize(items[1..]))
  {
    hide Introducer, Body;
    Associates([Introducer(items[0])], Body(items[0]), Serialize(items[1..]));
  }

  lemma TablesTail(items: seq<Item>, p: nat, policy: (nat, nat) -> nat)
    requires TablesWhole(items, p, policy) && items != []
    ensures items[0].Picture? ==> TableWhole(items[0].image, p + 1, policy)
    ensures TablesWhole(items[1..], p + 1 + |Body(items[0])|, policy)
  {
    hide TableWhole, Body;
  }

  lemma ItemsOkTail(items: seq<Item>, env: Env)
    requires ItemsOk(items, env) && items != []
    ensures ItemOk(items[0], env) && ItemsOk(items[1..], env)
  {
    hide ItemOk;
  }

  /** Items without an image; a padding byte has no body and no effect. */
  lemma ItemKinds(item: Item, m: Meta, l: Loops, env: Env, n: nat)
    requires ItemOk(item, env)
    ensures Introducer(item) == 0x2C || Introducer(item) == 0x21 || Introducer(item) == 0x00
    ensures Introducer(item) == 0x2C <==> item.Picture?
    ensures !item.Picture? ==> FrameOfItem(m, item, env, n) == []
    ensures Introducer(item) == 0x00 ==> Body(item) == [] && MetaAfter(m, item, env) == m && LoopsAfter(l, item) == l
  {
    hide ImageOk, FrameOf, ImageBytes;
  }

  lemma ItemsAtOk(items: seq<Item>, env: Env, d: seq<byte>, p: nat, end: nat, policy: (nat, nat) -> nat)
    requires ItemsAt(items, env, d, p, end, policy)
    ensures ItemsOk(items, env)
  {
  }

  /** What reading yields: the frames, and what extensions have left set. */
  datatype Yield = Yield(frames: seq<Frame>, meta: Meta, loops: Loops)

  ghost function Yielded(frames: seq<Frame>, m: Meta, l: Loops, items: seq<Item>, env: Env, d: seq<byte>,
                         end: nat): Yield
    requires ItemsOk(items, env)
  {
    Yield(frames + Frames(m, items, env, |frames|), MetaAtEnd(MetaAfterAll(m, items, env), env, d, end),
          LoopsAfterAll(l, items))
  }

  lemma YieldStep(frames: seq<Frame>, m: Meta, l: Loops, items: seq<Item>, env: Env, d: seq<byte>, end: nat)
    requires ItemsOk(items, env)
    ensures items != [] ==>
              && ItemOk(items[0], env) && ItemsOk(items[1..], env)
              && Yielded(frames, m, l, items, env, d, end) ==
                 Yielded(frames + FrameOfItem(m, items[0], env, |frames|), MetaAfter(m, items[0], env),
                         LoopsAfter(l, items[0]), items[1..], env, d, end)
  {
    if items != [] {
      FramesStep(frames, m, items, env);
      hide ItemOk, FrameOfItem, MetaAfter, LoopsAfter, Frames;
    }
  }

  lemma YieldMeta(frames: seq<Frame>, m: Meta, l: Loops, items: seq<Item>, env: Env, d: seq<byte>, end: nat)
    requires ItemsOk(items, env)
    ensures var y, after := Yielded(frames, m, l, items, env, d, end), MetaAfterAll(m, items, env);
            y.meta.transparency == after.transparency && y.meta == MetaAtEnd(after, env, d, end) &&
            y.frames == frames + Frames(m, items, env, |frames|) && y.loops == LoopsAfterAll(l, items)
  {
  }

  /** At the end a tableless image changes nothing that is not accounted for already. */
  lemma YieldEnds(frames: seq<Frame>, m: Meta, l: Loops, env: Env, d: seq<byte>, end: nat)
    ensures var y := Yielded(frames, m, l, [], env, d, end);
            y == Yield(frames, MetaAtEnd(m, env, d, end), l) && y.meta.transparency == m.transparency &&
            y == Yielded(frames, MetaAtEnd(m, env, d, end), l, [], env, d, end)
  {
  }

  lemma FramesStep(frames: seq<Frame>, m: Meta, items: seq<Item>, env: Env)
    requires ItemsOk(items, env) && items != []
    ensures ItemOk(items[0], env) && ItemsOk(items[1..], env)
    ensures var f := frames + FrameOfItem(m, items[0], env, |frames|);
            frames + Frames(m, items, env, |frames|) == f + Frames(MetaAfter(m, items[0], env), items[1..], env, |f|)
  {
    hide ImageOk, FrameOf, MetaAfter;
    assert ItemOk(items[0], env);
    var own := FrameOfItem(m, items[0], env, |frames|);
    var rest := Frames(MetaAfter(m, items[0], env), items[1..], env, |frames| + |own|);
    assert Frames(m, items, env, |frames|) == own + rest;
    hide *;
    Associates(frames, own, rest);
  }

  /** The packed fields the decoder takes out of a byte. */
  lemma FieldsOfByte(x: byte)
    ensures And(x, 1) != 0 <==> x % 2 == 1
    ensures And(x, 7) == x % 8
    ensures Shr(And(x, 0x1c), 2) == x / 4 % 8
    ensures And(x, 0x40) != 0 <==> x / 64 % 2 == 1
    ensures And(x, 0x80) != 0 <==> x >= 128
  {
    hide And, Shr;
    Dispose(x);
    LowThree(x);
    BitOf(x, 0, 1);
    BitOf(x, 6, 64);
    BitOf(x, 7, 128);
  }

  lemma LowThree(x: byte)
    ensures And(x, 7) == x % 8
  {
    assert Pow2(3) == 8;
    hide And;
    LowBits(x, 3);
  }

  lemma Dispose(x: byte)
    ensures Shr(And(x, 0x1c), 2) == x / 4 % 8
  {
    assert x / 2 / 2 == x / 4;
    hide And, Shr;
    AndTwice(x, 14);
    AndTwice(x / 2, 7);
    LowThree(x / 4);
    FourTimes(x / 4 % 8);
  }

  lemma FourTimes(y: nat)
    ensures Shr(4 * y, 2) == y
  {
    assert Shr(4 * y, 2) == Shr(2 * y, 1) == Shr(y, 0);
  }

  lemma AndTwice(x: nat, m: nat)
    ensures And(x, 2 * m) == 2 * And(x / 2, m)
  {
  }

  lemma LowBits(x: byte, k: nat)
    requires k <= 8
    ensures And(x, Pow2(k) - 1) == x % Pow2(k)
  {
    assert Pow2(8) == 256;
    ValueOfByte(x, 8);
    MaskTakesLowBits(ToBits(x, 8), k);
    SplitByDivision(ToBits(x, 8), k);
  }

  lemma BitOf(x: byte, k: nat, m: nat)
    requires k <= 8 && m == Pow2(k)
    ensures And(x, m) != 0 <==> x / m % 2 == 1
  {
    assert Pow2(8) == 256;
    ValueOfByte(x, 8);
    ShiftDropsLowBits(ToBits(x, 8), k);
    SplitByDivision(ToBits(x, 8), k);
    BitByShift(x, k);
  }

  lemma {:induction false} BitByShift(x: nat, k: nat)
    ensures And(x, Pow2(k)) == 0 || Shr(x, k) % 2 == 1
    ensures Shr(x, k) % 2 == 1 ==> And(x, Pow2(k)) != 0
  {
    if k > 0 {
      AndTwice(x, Pow2(k - 1));
      BitByShift(x / 2, k - 1);
    }
  }
}
