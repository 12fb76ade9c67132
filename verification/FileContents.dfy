/** What a whole file yields, in plain terms: how many frames and which, and which loop count. */
module FileContents {
  import opened BitStrings
  import opened SubBlocks
  import opened GifFile

  function Pictures(items: seq<Item>): nat {
    if items == [] then 0 else (if items[0].Picture? then 1 else 0) + Pictures(items[1..])
  }

  /** As many frames as images. */
  lemma {:induction false} FrameCount(m: Meta, items: seq<Item>, env: Env, n: nat)
    requires ItemsOk(items, env)
    ensures |Frames(m, items, env, n)| == Pictures(items)
    decreases |items|
  {
    hide ItemOk, FrameOf, MetaAfter;
    if items != [] {
      assert ItemOk(items[0], env);
      FrameCount(MetaAfter(m, items[0], env), items[1..], env, if items[0].Picture? then n + 1 else n);
    }
  }

  /** The frame of each image is at its place among the images, with what the items before it left set. */
  lemma {:induction false} FrameAt(m: Meta, items: seq<Item>, env: Env, n: nat, i: nat)
    requires ItemsOk(items, env) && i < |items| && items[i].Picture?
    ensures ImageOk(items[i].image, env)
    ensures var k := Pictures(items[..i]);
            k < |Frames(m, items, env, n)| &&
            Frames(m, items, env, n)[k] == FrameOf(MetaAfterAll(m, items[..i], env), items[i].image, env, n + k)
    decreases i
  {
    hide FrameOf, MetaAfter, ImageOk;
    assert ItemOk(items[i], env) && ItemOk(items[0], env);
    if i > 0 {
      var rest, n' := items[1..], if items[0].Picture? then n + 1 else n;
      assert items[..i][0] == items[0] && items[..i][1..] == rest[..i - 1];
      FrameAt(MetaAfter(m, items[0], env), rest, env, n', i - 1);
    }
  }

  /** Item j is the last graphic control before item i; -1 says that there is none. */
  ghost predicate LastControl(items: seq<Item>, j: int, i: nat)
    requires i <= |items|
  {
    -1 <= j < i && (j >= 0 ==> items[j].GraphicControl?) && forall k :: j < k < i ==> !items[k].GraphicControl?
  }

  lemma {:induction false} MetaAllLast(m: Meta, items: seq<Item>, env: Env, i: nat)
    requires i < |items|
    ensures MetaAfterAll(m, items[..i + 1], env) == MetaAfter(MetaAfterAll(m, items[..i], env), items[i], env)
    decreases i
  {
    hide MetaAfter;
    assert items[..i + 1][0] == items[0] && items[..i + 1][1..] == items[1..][..i];
    if i > 0 {
      assert items[..i][0] == items[0] && items[..i][1..] == items[1..][..i - 1];
      MetaAllLast(MetaAfter(m, items[0], env), items[1..], env, i - 1);
    }
  }

  /** For item i the fields of the last graphic control before it are in effect, or those of the start without one. */
  lemma {:induction false} ControlInEffect(m: Meta, items: seq<Item>, env: Env, j: int, i: nat)
    requires i <= |items| && LastControl(items, j, i)
    ensures var now := MetaAfterAll(m, items[..i], env);
            if j >= 0 then
              var packed := items[j].packed;
              && (now.transparency <==> packed % 2 == 1) && now.transIndex == items[j].transIndex
              && now.delay == 10 * items[j].delay
              && now.dispose == (if packed / 4 % 8 == 0 then 1 else packed / 4 % 8)
            else
              && now.transparency == m.transparency && now.transIndex == m.transIndex
              && now.delay == m.delay && now.dispose == m.dispose
    decreases i
  {
    hide MetaAfterAll;
    if i > 0 {
      MetaAllLast(m, items, env, i - 1);
      if j < i - 1 {
        assert !items[i - 1].GraphicControl?;
        ControlInEffect(m, items, env, j, i - 1);
      }
    } else {
      NothingSet(m, items, env);
    }
  }

  lemma NothingSet(m: Meta, items: seq<Item>, env: Env)
    ensures MetaAfterAll(m, items[..0], env) == m
  {
  }

  /** Image k falls back to the global table while the background colour is the transparent one. */
  ghost predicate ClearsBackground(m: Meta, items: seq<Item>, env: Env, k: nat)
    requires k < |items|
  {
    && items[k].Picture? && items[k].image.packed < 128
    && env.bgIndex == MetaAfterAll(m, items[..k], env).transIndex
  }

  /** The background colour becomes 0 with the first such image, and does not change otherwise. */
  lemma {:induction false} BackgroundColour(m: Meta, items: seq<Item>, env: Env, i: nat)
    requires i <= |items|
    ensures MetaAfterAll(m, items[..i], env).bgColor ==
            if exists k :: 0 <= k < i && ClearsBackground(m, items, env, k) then 0 else m.bgColor
    decreases i
  {
    hide MetaAfterAll;
    if i > 0 {
      MetaAllLast(m, items, env, i - 1);
      BackgroundColour(m, items, env, i - 1);
      assert items[i - 1].Picture? ==> (HasTable(items[i - 1].image.packed) <==> items[i - 1].image.packed >= 128);
      assert ClearsBackground(m, items, env, i - 1) ==> MetaAfterAll(m, items[..i], env).bgColor == 0;
    } else {
      NothingSet(m, items, env);
    }
  }

  predicate IsLoop(c: Chunk) { c[0] == 1 && |c| >= 3 }

  function CountIn(c: Chunk): int
    requires |c| >= 3
  {
    (c[1] as int) + 256 * (c[2] as int)
  }

  /** The count a NETSCAPE extension is meant to set: that of its last loop sub-block. */
  function LoopCount(chunks: seq<Chunk>, otherwise: int): int
    decreases |chunks|
  {
    if chunks == [] then otherwise
    else LoopCount(chunks[1..], if IsLoop(chunks[0]) then CountIn(chunks[0]) else otherwise)
  }

  /** The last sub-block that starts as a loop sub-block does, or -1. */
  function LastLoop(chunks: seq<Chunk>): (i: int)
    ensures -1 <= i < |chunks| && (i >= 0 ==> chunks[i][0] == 1)
    ensures forall j :: i < j < |chunks| ==> chunks[j][0] != 1
    decreases |chunks|
  {
    if chunks == [] then -1
    else
      var i := LastLoop(chunks[1..]);
      if i >= 0 then i + 1 else if chunks[0][0] == 1 then 0 else -1
  }

  /** Byte j of the last sub-block that has one. */
  function StaleByte(chunks: seq<Chunk>, j: nat, otherwise: byte): byte
    decreases |chunks|
  {
    if chunks == [] then otherwise
    else StaleByte(chunks[1..], j, if |chunks[0]| > j then chunks[0][j] else otherwise)
  }

  /** The count the buffer shows after sub-block i of a NETSCAPE extension; 69 and 84 are the name's E and T. */
  function Shown(chunks: seq<Chunk>, i: nat): int
    requires i < |chunks|
  {
    (StaleByte(chunks[..i + 1], 1, 69) as int) + 256 * (StaleByte(chunks[..i + 1], 2, 84) as int)
  }

  /** What the decoder makes of the sub-blocks: the last that starts with 1 decides, with stale bytes if it is short. */
  lemma {:induction false} LoopsReadLast(l: Loops, chunks: seq<Chunk>)
    requires |l.buffer| == 256 && Seen(l) == l
    ensures var i := LastLoop(chunks);
            LoopsRead(l, chunks).count ==
            if i < 0 then l.count
            else (StaleByte(chunks[..i + 1], 1, l.buffer[1]) as int) +
                 256 * (StaleByte(chunks[..i + 1], 2, l.buffer[2]) as int)
    decreases |chunks|
  {
    if chunks != [] {
      var c, rest := chunks[0], chunks[1..];
      var l' := Seen(l.(buffer := Overlay(l.buffer, c)));
      LoopsReadLast(l', rest);
      var i := LastLoop(rest);
      if i >= 0 {
        assert chunks[..i + 2][0] == c && chunks[..i + 2][1..] == rest[..i + 1];
      } else if c[0] == 1 {
        assert chunks[..1] == [c] && [c][1..] == [];
      }
    }
  }

  /** What they are meant to set, in terms of the same sub-block. */
  lemma {:induction false} LoopCountLast(chunks: seq<Chunk>, count: int)
    ensures var i := LastLoop(chunks);
            LoopCount(chunks, count) ==
            if i < 0 then count else if |chunks[i]| >= 3 then CountIn(chunks[i]) else LoopCount(chunks[..i], count)
    decreases |chunks|
  {
    if chunks != [] {
      var rest := chunks[1..];
      LoopCountLast(rest, if IsLoop(chunks[0]) then CountIn(chunks[0]) else count);
      var i := LastLoop(rest);
      if i >= 0 {
        assert chunks[..i + 1][0] == chunks[0] && chunks[..i + 1][1..] == rest[..i];
      }
    }
  }

  /** A sub-block of three bytes shows its own. */
  lemma {:induction false} OwnByte(chunks: seq<Chunk>, i: nat, j: nat, otherwise: byte)
    requires i < |chunks| && j < |chunks[i]|
    ensures StaleByte(chunks[..i + 1], j, otherwise) == chunks[i][j]
    decreases i
  {
    var rest := chunks[..i + 1];
    if i == 0 {
      assert rest[1..] == [];
    } else {
      assert rest[1..] == chunks[1..][..i];
      OwnByte(chunks[1..], i - 1, j, if |chunks[0]| > j then chunks[0][j] else otherwise);
    }
  }

  /** When the decoder takes an application extension for NETSCAPE's: a short name may be completed by stale bytes. */
  predicate LooksNetscape(buffer: seq<byte>, name: Name)
    requires |buffer| == 256
  {
    if |name| >= 11 then name[..11] == NETSCAPE
    else name == NETSCAPE[..|name|] && buffer[|name|..11] == NETSCAPE[|name|..]
  }

  lemma LooksNetscapeIff(buffer: seq<byte>, name: Name)
    requires |buffer| == 256
    ensures NETSCAPE <= Overlay(buffer, name) <==> LooksNetscape(buffer, name)
  {
    var over := Overlay(buffer, name);
    if |name| >= 11 {
      assert over[..11] == name[..11];
    } else {
      assert over[..|name|] == name && over[|name|..11] == buffer[|name|..11];
      assert over[..11] == name + buffer[|name|..11];
      assert NETSCAPE == NETSCAPE[..|name|] + NETSCAPE[|name|..];
    }
  }

  /** The count after an extension that is taken for NETSCAPE's. */
  lemma LooksNetscapeCount(l: Loops, name: Name, chunks: seq<Chunk>)
    requires |l.buffer| == 256 && LooksNetscape(l.buffer, name)
    ensures var i := LastLoop(chunks);
            LoopsAfter(l, Application(name, chunks)).count == if i < 0 then l.count else Shown(chunks, i)
  {
    LooksNetscapeIff(l.buffer, name);
    var named := l.(buffer := Overlay(l.buffer, name));
    assert named.buffer[0] == 78 && named.buffer[1] == 69 && named.buffer[2] == 84;
    LoopsReadLast(named, chunks);
  }

  /** When the sub-blocks of a NETSCAPE extension set the count they are meant to. */
  predicate CountsRight(chunks: seq<Chunk>, count: int) {
    var i := LastLoop(chunks);
    i < 0 || |chunks[i]| >= 3 || Shown(chunks, i) == LoopCount(chunks[..i], count)
  }

  /**
   * A NETSCAPE extension gets the count of its last loop sub-block if and only if the last sub-block that starts with 1
   * has three bytes, or the stale bytes behind it happen to give the count there was.
   */
  lemma NetscapeCountIff(l: Loops, chunks: seq<Chunk>)
    requires |l.buffer| == 256
    ensures LoopsAfter(l, Application(NETSCAPE, chunks)).count == LoopCount(chunks, l.count) <==>
            CountsRight(chunks, l.count)
  {
    hide LoopsAfter, StaleByte, LoopCount;
    LooksNetscapeCount(l, NETSCAPE, chunks);
    LoopCountLast(chunks, l.count);
    var i := LastLoop(chunks);
    if i >= 0 && |chunks[i]| >= 3 {
      OwnByte(chunks, i, 1, 69);
      OwnByte(chunks, i, 2, 84);
    }
  }

  /** A one-byte loop sub-block shows letters of the name. */
  lemma ShortLoopBlock(l: Loops)
    requires |l.buffer| == 256
    ensures LoopsAfter(l, Application(NETSCAPE, [[1]])).count == 69 + 256 * 84
    ensures LoopCount([[1]], l.count) == l.count
  {
    var c: Chunk := [1];
    LooksNetscapeCount(l, NETSCAPE, [c]);
    assert [c][..1] == [c] && [c][1..] == [];
  }

  /** An application extension with an empty first block right after a NETSCAPE one is taken for another. */
  lemma StaleNetscape(l: Loops)
    requires |l.buffer| == 256
    ensures var items := [Application(NETSCAPE, []), Application([], [[1, 7, 0]])];
            LoopsAfterAll(l, items).count == 7 && PlainCounts(items, l.count) == l.count
  {
    var first, second := Application(NETSCAPE, []), Application([], [[1, 7, 0]]);
    var items := [first, second];
    var named := l.(buffer := Overlay(l.buffer, NETSCAPE));
    EmptyName(l, named);
    hide LoopsAfter, PlainCount;
    TwoItems(l, first, second);
    NothingMeant(l.count);
  }

  lemma EmptyName(l: Loops, named: Loops)
    requires |l.buffer| == 256 && named == l.(buffer := Overlay(l.buffer, NETSCAPE))
    ensures LoopsAfter(l, Application(NETSCAPE, [])) == named
    ensures LoopsAfter(named, Application([], [[1, 7, 0]])).count == 7
  {
    var c: Chunk := [1, 7, 0];
    assert named.buffer[0] == 78 && named.buffer[..11] == NETSCAPE && NETSCAPE[0..] == NETSCAPE;
    hide StaleByte;
    LooksNetscapeCount(named, [], [c]);
    assert [c][..1] == [c];
    OwnByte([c], 0, 1, 69);
    OwnByte([c], 0, 2, 84);
  }

  lemma TwoItems(l: Loops, a: Item, b: Item)
    ensures LoopsAfterAll(l, [a, b]) == LoopsAfter(LoopsAfter(l, a), b)
    ensures PlainCounts([a, b], l.count) == PlainCount(b, PlainCount(a, l.count))
  {
    hide LoopsAfter, PlainCount;
    var items, rest, x, n := [a, b], [b], LoopsAfter(l, a), PlainCount(a, l.count);
    assert items[1..] == rest && rest[1..] == [];
    assert LoopsAfterAll(l, items) == LoopsAfterAll(x, rest) && PlainCounts(items, l.count) == PlainCounts(rest, n);
    assert LoopsAfterAll(x, rest) == LoopsAfter(x, b) && PlainCounts(rest, n) == PlainCount(b, n);
  }

  lemma NothingMeant(count: int)
    ensures PlainCount(Application(NETSCAPE, []), count) == count
    ensures PlainCount(Application([], [[1, 7, 0]]), count) == count
  {
  }

  /** The count an item is meant to leave. */
  function PlainCount(item: Item, count: int): int {
    if item.Application? && item.name == NETSCAPE then LoopCount(item.chunks, count) else count
  }

  function PlainCounts(items: seq<Item>, count: int): int
    decreases |items|
  {
    if items == [] then count else PlainCounts(items[1..], PlainCount(items[0], count))
  }

  /** When an item leaves the count it is meant to, given the buffer and the count before it. */
  predicate LeavesRight(buffer: seq<byte>, count: int, item: Item)
    requires |buffer| == 256
  {
    item.Application? ==>
      if item.name == NETSCAPE then CountsRight(item.chunks, count)
      else
        var i := LastLoop(item.chunks);
        LooksNetscape(buffer, item.name) ==> i < 0 || Shown(item.chunks, i) == count
  }

  lemma LeavesRightIff(l: Loops, item: Item)
    requires |l.buffer| == 256
    ensures LoopsAfter(l, item).count == PlainCount(item, l.count) <==> LeavesRight(l.buffer, l.count, item)
  {
    if item.Application? {
      LooksNetscapeIff(l.buffer, item.name);
      if item.name == NETSCAPE {
        NetscapeCountIff(l, item.chunks);
      } else if LooksNetscape(l.buffer, item.name) {
        LooksNetscapeCount(l, item.name, item.chunks);
      }
    }
  }

  lemma {:induction false} BufferKept(buffer: seq<byte>, chunks: seq<Chunk>)
    requires |buffer| == 256
    ensures |Overlays(buffer, chunks)| == 256
    decreases |chunks|
  {
    if chunks != [] { BufferKept(Overlay(buffer, chunks[0]), chunks[1..]); }
  }

  /** All blocks of an item that pass through the buffer, an application extension's name among them. */
  ghost function BlocksOf(item: Item): seq<Chunk> {
    match item
    case Application(name, chunks) => (if name == [] then [] else [name]) + chunks
    case Extension(_, chunks) => chunks
    case Picture(im) => BlocksRead(im)
    case _ => []
  }

  ghost function AllBlocks(items: seq<Item>): seq<Chunk> {
    if items == [] then [] else BlocksOf(items[0]) + AllBlocks(items[1..])
  }

  lemma {:induction false} BufferRead(l: Loops, chunks: seq<Chunk>)
    requires |l.buffer| == 256
    ensures LoopsRead(l, chunks).buffer == Overlays(l.buffer, chunks)
    decreases |chunks|
  {
    if chunks != [] { BufferRead(Seen(l.(buffer := Overlay(l.buffer, chunks[0]))), chunks[1..]); }
  }

  lemma BufferAfter(l: Loops, item: Item)
    requires |l.buffer| == 256
    ensures LoopsAfter(l, item).buffer == Overlays(l.buffer, BlocksOf(item))
  {
    match item
    case Application(name, chunks) =>
      NameFirst(l.buffer, name, chunks);
      BufferRead(l.(buffer := Overlay(l.buffer, name)), chunks);
    case _ =>
  }

  lemma NameFirst(buffer: seq<byte>, name: Name, chunks: seq<Chunk>)
    requires |buffer| == 256
    ensures Overlays(buffer, (if name == [] then [] else [name]) + chunks) == Overlays(Overlay(buffer, name), chunks)
  {
    if name == [] {
      assert Overlay(buffer, name) == buffer && [] + chunks == chunks;
    } else {
      assert ([name] + chunks)[1..] == chunks;
    }
  }

  /** The buffer holds all blocks there were, each over the ones before. */
  lemma {:induction false} BufferAfterAll(l: Loops, items: seq<Item>)
    requires |l.buffer| == 256
    ensures LoopsAfterAll(l, items).buffer == Overlays(l.buffer, AllBlocks(items))
    ensures |Overlays(l.buffer, AllBlocks(items))| == 256
    decreases |items|
  {
    hide LoopsAfter, BlocksOf;
    if items != [] {
      BufferAfter(l, items[0]);
      BufferKept(l.buffer, BlocksOf(items[0]));
      BufferAfterAll(LoopsAfter(l, items[0]), items[1..]);
      OverlaysConcat(l.buffer, BlocksOf(items[0]), AllBlocks(items[1..]));
    }
  }

  /** So byte j of it is that of the last block with more than j bytes. */
  lemma {:induction false} OverlaidByte(buffer: seq<byte>, chunks: seq<Chunk>, j: nat)
    requires |buffer| == 256 && j < 256
    ensures |Overlays(buffer, chunks)| == 256
    ensures Overlays(buffer, chunks)[j] == StaleByte(chunks, j, buffer[j])
    decreases |chunks|
  {
    if chunks != [] {
      OverlaidByte(Overlay(buffer, chunks[0]), chunks[1..], j);
    }
  }

  /** The items of a file up to item k, and what item k does then. */
  lemma {:induction false} AfterAllLast(l: Loops, items: seq<Item>, k: nat)
    requires |l.buffer| == 256 && k < |items|
    ensures LoopsAfterAll(l, items[..k + 1]) == LoopsAfter(LoopsAfterAll(l, items[..k]), items[k])
    ensures PlainCounts(items[..k + 1], l.count) == PlainCount(items[k], PlainCounts(items[..k], l.count))
    decreases k
  {
    hide LoopsAfter, PlainCount;
    var rest := items[1..];
    assert items[..k + 1][0] == items[0] && items[..k + 1][1..] == rest[..k];
    if k > 0 {
      assert items[..k][0] == items[0] && items[..k][1..] == rest[..k - 1];
      BufferAfter(l, items[0]);
      BufferKept(l.buffer, BlocksOf(items[0]));
      AfterAllLast(LoopsAfter(l, items[0]), rest, k - 1);
      PlainAllLast(rest, PlainCount(items[0], l.count), k - 1);
    }
  }

  lemma {:induction false} PlainAllLast(items: seq<Item>, count: int, k: nat)
    requires k < |items|
    ensures PlainCounts(items[..k + 1], count) == PlainCount(items[k], PlainCounts(items[..k], count))
    decreases k
  {
    hide PlainCount;
    var rest := items[1..];
    assert items[..k + 1][0] == items[0] && items[..k + 1][1..] == rest[..k];
    if k > 0 {
      assert items[..k][0] == items[0] && items[..k][1..] == rest[..k - 1];
      PlainAllLast(rest, PlainCount(items[0], count), k - 1);
    }
  }

  /** After every item the count is the one meant. */
  ghost predicate RightThroughout(l: Loops, items: seq<Item>) {
    forall k :: 0 <= k <= |items| ==> RightAfter(l, items, k)
  }

  ghost predicate RightAfter(l: Loops, items: seq<Item>, k: nat)
    requires k <= |items|
  {
    LoopsAfterAll(l, items[..k]).count == PlainCounts(items[..k], l.count)
  }

  /** Item k does what it is meant to on the blocks before it and the count they are meant to give. */
  ghost predicate RightAt(l: Loops, items: seq<Item>, k: nat)
    requires k < |items|
  {
    var buffer := Overlays(l.buffer, AllBlocks(items[..k]));
    |buffer| == 256 && LeavesRight(buffer, PlainCounts(items[..k], l.count), items[k])
  }

  /** For a whole file: the loop count is the one meant, after every item, if and only if each item leaves it right. */
  lemma FileCountIff(l: Loops, items: seq<Item>)
    requires |l.buffer| == 256
    ensures RightThroughout(l, items) <==> forall k :: 0 <= k < |items| ==> RightAt(l, items, k)
  {
    if RightThroughout(l, items) {
      forall k | 0 <= k < |items| ensures RightAt(l, items, k) {
        assert RightAfter(l, items, k) && RightAfter(l, items, k + 1);
        AfterAllLast(l, items, k);
        BufferAfterAll(l, items[..k]);
        LeavesRightIff(LoopsAfterAll(l, items[..k]), items[k]);
      }
    }
    if forall k :: 0 <= k < |items| ==> RightAt(l, items, k) {
      forall k | 0 <= k <= |items| ensures RightAfter(l, items, k) {
        RightUpTo(l, items, k);
      }
    }
  }

  lemma {:induction false} RightUpTo(l: Loops, items: seq<Item>, k: nat)
    requires |l.buffer| == 256 && k <= |items|
    requires forall i :: 0 <= i < |items| ==> RightAt(l, items, i)
    ensures RightAfter(l, items, k)
  {
    if k > 0 {
      RightUpTo(l, items, k - 1);
      assert RightAt(l, items, k - 1);
      AfterAllLast(l, items, k - 1);
      BufferAfterAll(l, items[..k - 1]);
      LeavesRightIff(LoopsAfterAll(l, items[..k - 1]), items[k - 1]);
    }
  }

  /** Item k is taken for NETSCAPE's and has a sub-block that starts as a loop sub-block does. */
  ghost predicate SetsCount(buffer: seq<byte>, items: seq<Item>, k: nat)
    requires k < |items|
  {
    var before := Overlays(buffer, AllBlocks(items[..k]));
    && items[k].Application? && LastLoop(items[k].chunks) >= 0
    && |before| == 256 && LooksNetscape(before, items[k].name)
  }

  /** For any file at all: the last item that sets the count decides, by what its last such sub-block shows. */
  lemma {:induction false} FileCount(l: Loops, items: seq<Item>, last: int, n: nat)
    requires |l.buffer| == 256 && -1 <= last < n <= |items|
    requires last >= 0 ==> SetsCount(l.buffer, items, last)
    requires forall k :: last < k < n ==> !SetsCount(l.buffer, items, k)
    ensures LoopsAfterAll(l, items[..n]).count ==
            if last < 0 then l.count else Shown(items[last].chunks, LastLoop(items[last].chunks))
    decreases n
  {
    hide LoopsAfter, LastLoop, Shown, LooksNetscape, AllBlocks;
    if n > 0 {
      AfterAllLast(l, items, n - 1);
      BufferAfterAll(l, items[..n - 1]);
      SetOrKept(LoopsAfterAll(l, items[..n - 1]), items[n - 1]);
      if last < n - 1 {
        assert !SetsCount(l.buffer, items, n - 1);
        FileCount(l, items, last, n - 1);
      }
    }
  }

  lemma SetOrKept(l: Loops, item: Item)
    requires |l.buffer| == 256
    ensures LoopsAfter(l, item).count ==
            if item.Application? && LastLoop(item.chunks) >= 0 && LooksNetscape(l.buffer, item.name)
            then Shown(item.chunks, LastLoop(item.chunks)) else l.count
  {
    if item.Application? {
      LooksNetscapeIff(l.buffer, item.name);
      if LooksNetscape(l.buffer, item.name) { LooksNetscapeCount(l, item.name, item.chunks); }
    }
  }

  /** Names of eleven bytes, and loop sub-blocks of three or more. */
  ghost predicate Regular(items: seq<Item>) {
    forall i :: 0 <= i < |items| && items[i].Application? ==>
      |items[i].name| == 11 && (items[i].name == NETSCAPE ==> LoopsOk(items[i].chunks))
  }

  ghost predicate LoopsOk(chunks: seq<Chunk>) {
    forall i :: 0 <= i < |chunks| && chunks[i][0] == 1 ==> |chunks[i]| >= 3
  }

  /** In a regular file stale bytes play no part: the loop count is that of the last loop sub-block of all. */
  lemma RegularCount(l: Loops, items: seq<Item>)
    requires |l.buffer| == 256 && Regular(items)
    ensures LoopsAfterAll(l, items).count == PlainCounts(items, l.count)
  {
    forall k | 0 <= k < |items| ensures RightAt(l, items, k) {
      BufferAfterAll(l, items[..k]);
      RegularIsRight(items[k], Overlays(l.buffer, AllBlocks(items[..k])), PlainCounts(items[..k], l.count));
    }
    RightUpTo(l, items, |items|);
    assert items[..|items|] == items;
  }

  /** Both for a whole file. */
  lemma FileYields(m: Meta, l: Loops, items: seq<Item>, env: Env)
    requires ItemsOk(items, env) && |l.buffer| == 256
    ensures |Frames(m, items, env, 0)| == Pictures(items)
    ensures Regular(items) ==> LoopsAfterAll(l, items).count == PlainCounts(items, l.count)
  {
    hide *;
    FrameCount(m, items, env, 0);
    if Regular(items) { RegularCount(l, items); }
  }

  lemma RegularIsRight(item: Item, buffer: seq<byte>, count: int)
    requires item.Application? ==> |item.name| == 11 && (item.name == NETSCAPE ==> LoopsOk(item.chunks))
    requires |buffer| == 256
    ensures LeavesRight(buffer, count, item)
  {
    if item.Application? {
      assert item.name[..11] == item.name;
    }
  }
}
