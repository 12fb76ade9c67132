/** One small file byte by byte: a loop count, a comment, a padding byte, and an image twice, opaque and transparent. */
module GifSample {
  import opened BitStrings
  import opened SubBlocks
  import opened Lzw
  import opened LzwEncoder
  import opened FrameCopy
  import opened GifFile
  import opened FileContents
  import opened GifRoundTrip
  import opened GifDecoding

  /** "GIF89a"; two columns, one line, a table of two colours, background 1. */
  const SCREEN: seq<byte> := [71, 73, 70, 56, 57, 97, 2, 0, 1, 0, 128, 1, 0]

  const COLOURS: seq<byte> := [1, 2, 3, 255, 0, 0]

  /** "NETSCAPE2.0" and a count of 263. */
  const LOOP: seq<byte> := [33, 255, 11, 78, 69, 84, 83, 67, 65, 80, 69, 50, 46, 48, 3, 1, 7, 1, 0]

  /** A comment, and the byte after it. */
  const COMMENT: seq<byte> := [33, 254, 1, 65, 0, 0]

  /** Two pixels, 0 and 1, as the three-bit codes 4, 0, 1 and 5. */
  const IMAGE: seq<byte> := [44, 0, 0, 0, 0, 2, 0, 1, 0, 0, 2, 2, 68, 10, 0]

  /** Five hundredths of a second, pixel 1 transparent. */
  const CONTROL: seq<byte> := [33, 249, 4, 5, 5, 0, 1, 0]

  const TRAILER: seq<byte> := [59]

  const BODY: seq<byte> := LOOP + (COMMENT + (IMAGE + (CONTROL + IMAGE)))

  const FILE: seq<byte> := SCREEN + (COLOURS + (BODY + TRAILER))

  const HEADER := Header([71, 73, 70, 56, 57, 97], 2, 1, 128, 1, 0, COLOURS)

  const SQUARES: Image := Image(0, 0, 2, 1, 0, [], 2, [[68, 10]], [])

  const ITEMS: seq<Item> :=
    [Application(NETSCAPE, [[1, 7, 1]]), Extension(254, [[65]]), Padding, Picture(SQUARES),
     GraphicControl(4, 5, 5, 1, 0), Picture(SQUARES)]

  lemma SquaresEncoded()
    ensures Encodes(2, FRESH, [0, 1], [4, 0, 1, 5])
  {
    assert Pow2(2) == 4 && Clear(2) == 4;
    var t0, t1 := Table([], 0), Table([[0, 1]], 1);
    assert Known(2, [], 0) && Str(2, [], 0) == [0] && [0] + [1] == [0, 1];
    assert Offered(2, t0, 1) == [] + [Str(2, [], 0) + [1]] == [[0, 1]];
    assert Encodes(2, t1, [], [5]);
    assert [1, 5][1..] == [5] && [0, 1, 5][1..] == [1, 5] && [4, 0, 1, 5][1..] == [0, 1, 5];
    assert [1][1..] == [] && [0, 1][1..] == [1];
    assert Encodes(2, t0, [1], [1, 5]);
    assert Encodes(2, FRESH, [0, 1], [0, 1, 5]);
  }

  lemma SquaresPacked()
    ensures PackBytes(PackFrom(2, FRESH, [4, 0, 1, 5])) == [68, 10]
  {
    hide *;
    CodesPacked();
    EightBits();
    var first, last := [false, false, true, false, false, false, true, false], [false, true, false, true];
    PackTwo(first, last);
    assert first + last == [false, false, true, false, false, false, true, false, false, true, false, true];
  }

  lemma EightBits()
    ensures Value([false, false, true, false, false, false, true, false]) == 68
    ensures Value([false, true, false, true]) == 10
  {
    assert Value([true, false]) == 1;
    assert Value([false, false, true, false]) == 4;
  }

  lemma PackTwo(first: seq<bool>, last: seq<bool>)
    requires |first| == 8 && 0 < |last| <= 8
    ensures PackBytes(first + last) == [Value(first), Value(last)]
  {
    var bits := first + last;
    assert bits[..8] == first && bits[8..] == last && last[|last|..] == [];
    hide Value;
    assert PackBytes([]) == [];
  }

  lemma CodesPacked()
    ensures PackFrom(2, FRESH, [4, 0, 1, 5]) ==
            [false, false, true, false, false, false, true, false, false, true, false, true]
  {
    hide *;
    ThreeBits();
    PackCode(0, true, 4, [0, 1, 5]);
    PackCode(0, true, 0, [1, 5]);
    PackCode(0, false, 1, [5]);
    PackCode(1, false, 5, []);
    NothingPacked(2);
    assert [4] + [0, 1, 5] == [4, 0, 1, 5] && [0] + [1, 5] == [0, 1, 5] && [1] + [5] == [1, 5] && [5] + [] == [5];
    assert Pack(2, 1, false, [5]) == [true, false, true];
    assert Pack(2, 0, false, [1, 5]) == [true, false, false, true, false, true];
    FreshPacked([4, 0, 1, 5]);
  }

  lemma FreshPacked(codes: seq<nat>)
    ensures PackFrom(2, FRESH, codes) == Pack(2, 0, true, codes)
  {
  }

  lemma ThreeBits()
    ensures ToBits(4, 3) == [false, false, true] && ToBits(0, 3) == [false, false, false]
    ensures ToBits(1, 3) == [true, false, false] && ToBits(5, 3) == [true, false, true]
  {
  }

  lemma NothingPacked(entries: nat)
    ensures Pack(2, entries, false, []) == []
  {
  }

  /** A code of three bits. */
  lemma PackCode(entries: nat, cleared: bool, code: nat, rest: seq<nat>)
    requires entries <= 1
    ensures Pack(2, entries, cleared, [code] + rest) ==
            ToBits(code, 3) +
            if code == 4 then Pack(2, 0, true, rest)
            else Pack(2, if cleared then entries else entries + 1, false, rest)
  {
    assert Pow2(2) == 4 && Pow2(3) == 8;
    assert Width(3, 6 + entries) == 3;
    assert ([code] + rest)[1..] == rest;
    hide Width, ToBits, Pow2;
  }

  lemma SquaresSent()
    ensures Transmits(SQUARES, [0, 1], [4, 0, 1, 5]) && Area(SQUARES.iw, SQUARES.ih) == 2
    ensures Outcome(SQUARES) == Filled
  {
    SquaresEncoded();
    SquaresPacked();
    assert Flatten([[68, 10]]) == [68, 10] + Flatten([[68, 10]][1..]);
    hide Encodes, PackBytes, PackFrom, Outcome;
    ImageRoundTrip(SQUARES, [0, 1], [4, 0, 1, 5]);
  }

  lemma OneChunk(c: Chunk)
    ensures Framed([c]) == [|c|] + c + [0]
  {
    assert [c][1..] == [];
  }

  lemma ItemBytes(item: Item, rest: seq<Item>)
    ensures Serialize([item] + rest) == [Introducer(item)] + Body(item) + Serialize(rest)
  {
    assert ([item] + rest)[1..] == rest;
    hide Introducer, Body;
  }

  lemma BodyBytes()
    ensures Serialize(ITEMS) == BODY
  {
    var app, comment := Application(NETSCAPE, [[1, 7, 1]]), Extension(254, [[65]]);
    var picture, control := Picture(SQUARES), GraphicControl(4, 5, 5, 1, 0);
    var s1, s2, s3, s4, s5 := ITEMS[1..], ITEMS[2..], ITEMS[3..], ITEMS[4..], ITEMS[5..];
    assert ITEMS == [app] + s1 && s1 == [comment] + s2 && s2 == [Padding] + s3 && s3 == [picture] + s4;
    assert s4 == [control] + s5 && s5 == [picture] + [];
    SmallBodies();
    SquareBytes();
    hide *;
    ItemBytes(app, s1);
    ItemBytes(comment, s2);
    ItemBytes(Padding, s3);
    ItemBytes(picture, s4);
    ItemBytes(control, s5);
    ItemBytes(picture, []);
    SerializeNone();
    BodyParts(Serialize(s1), Serialize(s2), Serialize(s3), Serialize(s4), Serialize(s5));
  }

  lemma BodyParts(s1: seq<byte>, s2: seq<byte>, s3: seq<byte>, s4: seq<byte>, s5: seq<byte>)
    requires s1 == [33, 254, 1, 65, 0] + s2 && s2 == [0] + s3 && s3 == IMAGE + s4 && s4 == CONTROL + s5
    requires s5 == IMAGE + []
    ensures LOOP + s1 == BODY
  {
    assert s1 == COMMENT + s3;
  }

  lemma SmallBodies()
    ensures [Introducer(ITEMS[0])] + Body(ITEMS[0]) == LOOP
    ensures [Introducer(ITEMS[1])] + Body(ITEMS[1]) == [33, 254, 1, 65, 0]
    ensures [Introducer(Padding)] + Body(Padding) == [0]
    ensures [Introducer(ITEMS[4])] + Body(ITEMS[4]) == CONTROL
  {
    hide Body;
    LoopBody();
    CommentBody();
    ControlBody();
    PaddingBody();
  }

  lemma LoopBody()
    ensures [Introducer(ITEMS[0])] + Body(ITEMS[0]) == LOOP
  {
    LoopText();
    hide NETSCAPE, LOOP;
    NamedBody(NETSCAPE, [1, 7, 1]);
  }

  lemma NamedBody(name: Name, c: Chunk)
    ensures var item := Application(name, [c]);
            [Introducer(item)] + Body(item) == [33, 255, |name|] + name + ([|c|] + c + [0])
  {
    OneChunk(c);
    hide Framed;
  }

  lemma LoopText()
    ensures |NETSCAPE| == 11 && [33, 255, 11] + NETSCAPE + ([3] + [1, 7, 1] + [0]) == LOOP
  {
  }

  lemma CommentBody()
    ensures [Introducer(ITEMS[1])] + Body(ITEMS[1]) == [33, 254, 1, 65, 0]
  {
    OneChunk([65]);
    hide Framed;
  }

  lemma ControlBody()
    ensures [Introducer(ITEMS[4])] + Body(ITEMS[4]) == CONTROL
  {
  }

  lemma PaddingBody()
    ensures [Introducer(Padding)] + Body(Padding) == [0]
  {
  }

  lemma SquareBytes()
    ensures [Introducer(Picture(SQUARES))] + Body(Picture(SQUARES)) == IMAGE
  {
    SquareHead();
    SquareData();
    hide HeadBytes, DataBytes;
    assert [0, 0, 0, 0, 2, 0, 1, 0, 0] + ([] + [2, 2, 68, 10, 0]) == IMAGE[1..];
  }

  lemma SquareHead()
    ensures HeadBytes(SQUARES) == [0, 0, 0, 0, 2, 0, 1, 0, 0]
  {
    assert LowHigh(0) == [0, 0] && LowHigh(2) == [2, 0] && LowHigh(1) == [1, 0];
    hide LowHigh;
  }

  lemma SquareData()
    ensures DataBytes(SQUARES) == [2, 2, 68, 10, 0]
  {
    hide *;
    SquaresFilled();
    OneChunk([68, 10]);
    SquareParts();
    assert [2] + ([|[68, 10]|] + [68, 10] + [0]) + [] == [2, 2, 68, 10, 0];
  }

  lemma SquaresFilled()
    ensures Outcome(SQUARES) == Filled
  {
    hide *;
    SquaresSent();
  }

  lemma SquareParts()
    requires Outcome(SQUARES) == Filled
    ensures DataBytes(SQUARES) == [2] + Framed([[68, 10]]) + []
  {
    hide Outcome, Framed;
  }

  lemma HeaderThere(policy: (nat, nat) -> nat)
    requires policy(13, 6) >= 6
    ensures HeaderAt(HEADER, FILE, 0, policy) && IsGif(HEADER)
    ensures Carries(FILE, 19, BODY + TRAILER)
  {
    HeaderBytes();
    CarriesParts(FILE, 0, SCREEN, COLOURS + (BODY + TRAILER));
    CarriesParts(FILE, 0, HEADER.signature, ScreenBytes(HEADER));
    CarriesParts(FILE, 13, COLOURS, BODY + TRAILER);
    assert TableSize(128) == 2;
    hide Carries, ScreenBytes;
  }

  lemma HeaderBytes()
    ensures HEADER.signature + ScreenBytes(HEADER) == SCREEN && Carries(FILE, 0, FILE)
  {
    assert FILE[0..|FILE|] == FILE;
  }

  lemma {:induction false} NoTables(items: seq<Item>, p: nat, policy: (nat, nat) -> nat)
    requires forall i :: 0 <= i < |items| && items[i].Picture? ==> items[i].image.packed < 128
    ensures TablesWhole(items, p, policy)
    decreases |items|
  {
    hide Body;
    if items != [] { NoTables(items[1..], p + 1 + |Body(items[0])|, policy); }
  }

  lemma AllOk(starting: (nat, nat) -> int)
    ensures ItemsOk(ITEMS, EnvOf(HEADER, starting))
  {
    SquaresSent();
    hide Outcome, Colours;
    assert ImageOk(SQUARES, EnvOf(HEADER, starting));
    OthersOk(EnvOf(HEADER, starting));
  }

  lemma OthersOk(env: Env)
    requires ImageOk(SQUARES, env)
    ensures ItemsOk(ITEMS, env)
  {
    hide ImageOk;
  }

  /** The file is one with these items. */
  lemma SampleAt(starting: (nat, nat) -> int, policy: (nat, nat) -> nat)
    requires policy(13, 6) >= 6
    ensures FileAt(HEADER, ITEMS, EnvOf(HEADER, starting), FILE, 0, 82, policy) && IsGif(HEADER)
    ensures EndsWell(FILE, 82) && |FILE| == 83 && |HEADER.signature| == 6
  {
    assert |BODY| == 63 && |COLOURS| == 6;
    hide *;
    HeaderThere(policy);
    CarriesParts(FILE, 19, BODY, TRAILER);
    AllOk(starting);
    BodyBytes();
    NoTables(ITEMS, 19, policy);
    TrailerThere(EnvOf(HEADER, starting));
    Together(EnvOf(HEADER, starting), policy);
  }

  lemma Together(env: Env, policy: (nat, nat) -> nat)
    requires HeaderAt(HEADER, FILE, 0, policy) && Carries(FILE, 19, BODY) && Serialize(ITEMS) == BODY && |BODY| == 63
    requires ItemsOk(ITEMS, env) && TablesWhole(ITEMS, 19, policy) && Ends(env, FILE, 82)
    ensures FileAt(HEADER, ITEMS, env, FILE, 0, 82, policy)
  {
    assert |HEADER.table| == 6;
    hide HeaderAt, Carries, ItemsOk, TablesWhole, Ends, Serialize;
  }

  lemma TrailerThere(env: Env)
    ensures Ends(env, FILE, 82) && EndsWell(FILE, 82) && |FILE| == 83
  {
    assert |BODY| == 63;
    assert FILE[82] == TRAILER[0];
  }

  const SENT: seq<Sent> :=
    var none, squares := Sent([], []), Sent([0, 1], [4, 0, 1, 5]);
    [none, none, none, squares, none, squares]

  lemma AllSquaresSent()
    ensures AllSent(ITEMS, SENT)
  {
    SquaresSent();
    hide Transmits;
  }

  lemma OpaqueIs(colour: int, r: byte, g: byte, b: byte)
    requires Opaque(colour, r, g, b)
    ensures colour == r * 0x1_0000 + g * 0x100 + b - 0x100_0000
  {
    var u := colour + 0x1_0000_0000;
    assert u / 0x1_0000 == 256 * (u / 0x100_0000) + u / 0x1_0000 % 256;
    assert u / 0x100 == 256 * (u / 0x1_0000) + u / 0x100 % 256;
  }

  /** The first image shows both its colours, the second one leaves pixel 1 as it was. */
  lemma SampleShown(frames: seq<Frame>, m: Meta, starting: (nat, nat) -> int)
    requires AllShown(frames, m, ITEMS, EnvOf(HEADER, starting), SENT) && !m.transparency
    ensures |frames| == 2 && |frames[0].image| >= 2 && |frames[1].image| >= 2
    ensures frames[0].delay == m.delay && frames[0].image[..2] == [-16711165, -65536]
    ensures frames[1].delay == 50 && frames[1].image[..2] == [-16711165, starting(1, 1)]
  {
    PicturePlaces();
    ControlPlaces();
    SampleAtPixel(frames, m, starting, 3, -1, 0, 0);
    SampleAtPixel(frames, m, starting, 3, -1, 0, 1);
    SampleAtPixel(frames, m, starting, 5, 4, 1, 0);
    SampleAtPixel(frames, m, starting, 5, 4, 1, 1);
  }

  /** Pixel x of the image that is item i, with item j the last graphic control before it. */
  lemma SampleAtPixel(frames: seq<Frame>, m: Meta, starting: (nat, nat) -> int, i: nat, j: int, k: nat, x: nat)
    requires AllShown(frames, m, ITEMS, EnvOf(HEADER, starting), SENT) && x < 2
    requires (i == 3 && j == -1 && !m.transparency) || (i == 5 && j == 4)
    requires LastControl(ITEMS, j, i) && Pictures(ITEMS[..i]) == k
    ensures k < |frames| && x < |frames[k].image| && frames[k].delay == if j == 4 then 50 else m.delay
    ensures frames[k].image[x] == if x == 0 then -16711165 else if j == 4 then starting(k, 1) else -65536
  {
    hide *;
    PixelPlace(x);
    SampleShows(frames, m, starting, i, j, k, x);
    var c := frames[k].image[x];
    if x == 0 {
      OpaqueIs(c, 1, 2, 3);
    } else if i == 3 {
      OpaqueIs(c, 255, 0, 0);
    }
  }

  lemma SampleShows(frames: seq<Frame>, m: Meta, starting: (nat, nat) -> int, i: nat, j: int, k: nat, x: nat)
    requires AllShown(frames, m, ITEMS, EnvOf(HEADER, starting), SENT) && x < 2
    requires (i == 3 && j == -1 && !m.transparency) || (i == 5 && j == 4)
    requires LastControl(ITEMS, j, i) && Pictures(ITEMS[..i]) == k
    ensures k < |frames| && x < |frames[k].image| && frames[k].delay == if j == 4 then 50 else m.delay
    ensures var c := frames[k].image[x];
            if x == 0 then Opaque(c, 1, 2, 3) else if j == 4 then c == starting(k, 1) else Opaque(c, 255, 0, 0)
  {
    hide *;
    SampleFacts(i, x);
    PixelPlace(x);
    ShownFromBytes(frames, m, HEADER, ITEMS, starting, SENT, i, j, x, 0);
  }

  /** What stands where in the lists above. */
  lemma SampleFacts(i: nat, x: nat)
    requires (i == 3 || i == 5) && x < 2
    ensures |ITEMS| == 6 == |SENT| && ITEMS[i] == Picture(SQUARES) && SENT[i].pixels == [0, 1] && [0, 1][x] == x
    ensures ITEMS[4] == GraphicControl(4, 5, 5, 1, 0) && SQUARES.packed == 0
    ensures HEADER.width == 2 && HEADER.height == 1 && HEADER.table == COLOURS && |COLOURS| == 6
    ensures COLOURS[0] == 1 && COLOURS[1] == 2 && COLOURS[2] == 3 && COLOURS[3] == 255 && COLOURS[4] == 0
    ensures COLOURS[5] == 0
  {
  }

  lemma PixelPlace(x: nat)
    requires x < 2
    ensures Reached(SQUARES, x, 0) && SentFor(SQUARES, x, 0) == x && At(2, x, 0) == x
  {
  }

  lemma PicturePlaces()
    ensures Pictures(ITEMS) == 2 && Pictures(ITEMS[..3]) == 0 && Pictures(ITEMS[..5]) == 1
  {
    hide Pictures;
    PicturesLast(0);
    PicturesLast(1);
    PicturesLast(2);
    PicturesLast(3);
    PicturesLast(4);
    PicturesLast(5);
    assert ITEMS[..6] == ITEMS && ITEMS[..0] == [];
    NoPictures();
  }

  lemma NoPictures()
    ensures Pictures([]) == 0
  {
  }

  lemma PicturesLast(i: nat)
    requires i < |ITEMS|
    ensures Pictures(ITEMS[..i + 1]) == Pictures(ITEMS[..i]) + if ITEMS[i].Picture? then 1 else 0
  {
    PicturesAppend(ITEMS[..i], ITEMS[i]);
    assert ITEMS[..i + 1] == ITEMS[..i] + [ITEMS[i]];
  }

  lemma {:induction false} PicturesAppend(items: seq<Item>, item: Item)
    ensures Pictures(items + [item]) == Pictures(items) + if item.Picture? then 1 else 0
  {
    if items == [] {
      assert [] + [item] == [item] && [item][1..] == [];
    } else {
      assert (items + [item])[1..] == items[1..] + [item];
      PicturesAppend(items[1..], item);
    }
  }

  lemma ControlPlaces()
    ensures LastControl(ITEMS, -1, 3) && LastControl(ITEMS, 4, 5)
  {
  }

  lemma LoopMeant(before: int)
    ensures Regular(ITEMS) && PlainCounts(ITEMS, before) == 263
  {
    assert LoopCount([[1, 7, 1]], before) == 263 by { assert [[1, 7, 1]][1..] == []; }
    hide LoopCount;
    assert PlainCounts(ITEMS, before) == PlainCounts(ITEMS[1..], 263);
    CountKept(ITEMS[1..], 263);
  }

  lemma {:induction false} CountKept(items: seq<Item>, count: int)
    requires forall i :: 0 <= i < |items| && items[i].Application? ==> items[i].name != NETSCAPE
    ensures PlainCounts(items, count) == count
    decreases |items|
  {
    if items != [] { CountKept(items[1..], count); }
  }

  lemma OkIsZero()
    ensures STATUS_OK == 0
  {
  }

  lemma StartingMeta(dec: GifDecoder)
    ensures var m := MetaAfterHeader(dec.CurrentMeta(), HEADER);
            m.transparency == dec.transparency && m.delay == dec.delay
  {
  }

  /** Reading the file, whatever the decoder's working arrays hold. */
  method ReadSample(dec: GifDecoder)
    requires dec.Valid() && 0 <= dec.transIndex < 256 && !dec.transparency
    requires dec.inStream.data == FILE && dec.inStream.pos == 0 && dec.inStream.policy(13, 6) >= 6
    modifies dec, dec.inStream, dec.block, dec.pixels, dec.prefix, dec.suffix, dec.pixelStack
    ensures dec.status == 0 && dec.inStream.pos == 83 && dec.loopCount == 263
    ensures |dec.frames| == 2 && |dec.frames[0].image| >= 2 && |dec.frames[1].image| >= 2
    ensures dec.frames[0].delay == old(dec.delay) && dec.frames[0].image[..2] == [-16711165, -65536]
    ensures dec.frames[1].delay == 50 && dec.frames[1].image[..2] == [-16711165, dec.starting(1, 1)]
  {
    hide *;
    OkIsZero();
    SampleAt(dec.starting, dec.inStream.policy);
    AllSquaresSent();
    LoopMeant(dec.loopCount);
    ghost var m := dec.CurrentMeta();
    StartingMeta(dec);
    ReadSentFile(dec, HEADER, ITEMS, 82, SENT);
    SampleShown(dec.frames, MetaAfterHeader(m, HEADER), dec.starting);
  }
}
