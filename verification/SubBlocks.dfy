/** Chains of data sub-blocks (GIF89a, sections 15 and 16) inside a byte sequence. */
module SubBlocks {
  import opened BitStrings

  /** At p stands the end of the data, or a size byte followed by that many bytes. */
  predicate BlockFits(d: seq<byte>, p: nat)
    requires p <= |d|
  {
    p == |d| || p + 1 + d[p] <= |d|
  }

  /** The position just after the block at p. */
  function AfterBlock(d: seq<byte>, p: nat): (q: nat)
    requires p <= |d| && BlockFits(d, p)
    ensures p <= q <= |d|
  {
    if p == |d| then p else p + 1 + d[p]
  }

  /** No further block follows: the data ends here, or the block terminator stands here. */
  predicate AtChainEnd(d: seq<byte>, p: nat)
    requires p <= |d|
  {
    p == |d| || d[p] == 0
  }

  /** Every block from p up to the terminator (or the end of the data) is complete. */
  predicate Complete(d: seq<byte>, p: nat)
    requires p <= |d|
    decreases |d| - p
  {
    BlockFits(d, p) && (AtChainEnd(d, p) || Complete(d, AfterBlock(d, p)))
  }

  /** The bytes of the chain's blocks, without the size bytes. */
  function Payload(d: seq<byte>, p: nat): seq<byte>
    requires p <= |d| && Complete(d, p)
    decreases |d| - p
  {
    if AtChainEnd(d, p) then [] else d[p + 1..AfterBlock(d, p)] + Payload(d, AfterBlock(d, p))
  }

  /** The position just after the chain's terminator. */
  function ChainEnd(d: seq<byte>, p: nat): (q: nat)
    requires p <= |d| && Complete(d, p)
    ensures p <= q <= |d|
    decreases |d| - p
  {
    if AtChainEnd(d, p) then AfterBlock(d, p) else ChainEnd(d, AfterBlock(d, p))
  }

  /** The bytes of the block at p; none at the end of the data. */
  function BlockAt(d: seq<byte>, p: nat): (c: seq<byte>)
    requires p <= |d| && BlockFits(d, p)
    ensures |c| <= 255
  {
    if p == |d| then [] else d[p + 1..AfterBlock(d, p)]
  }

  /** A buffer after c was read into its front: what lies behind is stale. */
  function Overlay(buffer: seq<byte>, c: seq<byte>): (r: seq<byte>)
    ensures |c| <= |buffer| ==> |r| == |buffer|
  {
    if |c| <= |buffer| then c + buffer[|c|..] else c
  }

  function Overlays(buffer: seq<byte>, chunks: seq<Chunk>): seq<byte>
    decreases |chunks|
  {
    if chunks == [] then buffer else Overlays(Overlay(buffer, chunks[0]), chunks[1..])
  }

  lemma {:induction false} OverlaysConcat(buffer: seq<byte>, a: seq<Chunk>, b: seq<Chunk>)
    ensures Overlays(buffer, a + b) == Overlays(Overlays(buffer, a), b)
    decreases |a|
  {
    if a == [] {
      assert a + b == b;
    } else {
      assert (a + b)[1..] == a[1..] + b;
      OverlaysConcat(Overlay(buffer, a[0]), a[1..], b);
    }
  }

  /** Where reading the chain block by block ends, and what the buffer holds then. */
  function AfterChain(d: seq<byte>, p: nat, buffer: seq<byte>): (r: (nat, seq<byte>))
    requires p <= |d| && Complete(d, p)
    ensures r.0 == ChainEnd(d, p)
    decreases |d| - p
  {
    if AtChainEnd(d, p) then (AfterBlock(d, p), buffer)
    else AfterChain(d, AfterBlock(d, p), Overlay(buffer, BlockAt(d, p)))
  }

  /**
   * Where skipping ends after a chain up to `end`; with the chain over already, past the next chain, if that is
   * whole.
   */
  function AfterSkip(d: seq<byte>, end: nat, over: bool): nat {
    if over && end <= |d| && Complete(d, end) then ChainEnd(d, end) else end
  }

  /** d carries s at position p. */
  predicate Carries(d: seq<byte>, p: nat, s: seq<byte>)
    ensures Carries(d, p, s) ==> p + |s| <= |d|
  {
    p + |s| <= |d| && d[p..p + |s|] == s
  }

  /** Blocks a writer may cut a byte string into. */
  type Chunk = c: seq<byte> | 1 <= |c| <= 255 witness [0]

  function Flatten(chunks: seq<Chunk>): seq<byte> {
    if chunks == [] then [] else chunks[0] + Flatten(chunks[1..])
  }

  function Framed(chunks: seq<Chunk>): seq<byte> {
    if chunks == [] then [0] else [|chunks[0]|] + chunks[0] + Framed(chunks[1..])
  }

  lemma CarriesParts(d: seq<byte>, p: nat, a: seq<byte>, b: seq<byte>)
    ensures Carries(d, p, a + b) <==> Carries(d, p, a) && Carries(d, p + |a|, b)
  {
    if p + |a + b| <= |d| {
      var s := d[p..p + |a + b|];
      assert s[..|a|] == d[p..p + |a|] && s[|a|..] == d[p + |a|..p + |a| + |b|];
      assert s == s[..|a|] + s[|a|..];
      assert (a + b)[..|a|] == a && (a + b)[|a|..] == b;
    }
  }

  /** Reading a chain that a writer framed: its payload is what was cut up, and it ends where it was written. */
  lemma {:induction false} FramedChain(d: seq<byte>, p: nat, chunks: seq<Chunk>)
    requires Carries(d, p, Framed(chunks))
    ensures p <= |d| && Complete(d, p)
    ensures Payload(d, p) == Flatten(chunks)
    ensures ChainEnd(d, p) == p + |Framed(chunks)|
    decreases |chunks|
  {
    hide Complete, Payload, ChainEnd, Carries;
    if chunks == [] {
      Terminator(d, p);
    } else {
      var c, rest := chunks[0], Framed(chunks[1..]);
      assert Framed(chunks) == [|c|] + c + rest;
      CarriesParts(d, p, [|c|] + c, rest);
      FramedChain(d, p + 1 + |c|, chunks[1..]);
      FramedBlock(d, p, c);
    }
  }

  lemma Terminator(d: seq<byte>, p: nat)
    requires Carries(d, p, [0])
    ensures p <= |d| && Complete(d, p) && Payload(d, p) == [] && ChainEnd(d, p) == p + 1
  {
    assert d[p] == d[p..p + 1][0];
  }

  lemma FramedBlock(d: seq<byte>, p: nat, c: Chunk)
    requires Carries(d, p, [|c|] + c) && Complete(d, p + 1 + |c|)
    ensures p <= |d| && Complete(d, p)
    ensures Payload(d, p) == c + Payload(d, p + 1 + |c|)
    ensures ChainEnd(d, p) == ChainEnd(d, p + 1 + |c|)
  {
    CarriesParts(d, p, [|c|], c);
    assert d[p] == d[p..p + 1][0];
  }

  /** Reading a framed chain leaves its chunks in the buffer, each over the one before. */
  lemma {:induction false} FramedBuffer(d: seq<byte>, p: nat, chunks: seq<Chunk>, buffer: seq<byte>)
    requires Carries(d, p, Framed(chunks))
    ensures p <= |d| && Complete(d, p)
    ensures AfterChain(d, p, buffer) == (p + |Framed(chunks)|, Overlays(buffer, chunks))
    decreases |chunks|
  {
    hide Complete, Payload, ChainEnd, Carries, Framed, Overlay, BlockFits, AtChainEnd, BlockAt, AfterBlock;
    FramedChain(d, p, chunks);
    FramedFirst(d, p, chunks);
    if chunks != [] {
      FramedBuffer(d, p + 1 + |chunks[0]|, chunks[1..], Overlay(buffer, chunks[0]));
    }
  }

  /** What stands at the head of a framed chain. */
  lemma FramedFirst(d: seq<byte>, p: nat, chunks: seq<Chunk>)
    requires Carries(d, p, Framed(chunks))
    ensures p < |d| && BlockFits(d, p) && (AtChainEnd(d, p) <==> chunks == [])
    ensures if chunks == [] then AfterBlock(d, p) == p + |Framed(chunks)|
            else
              && BlockAt(d, p) == chunks[0] && AfterBlock(d, p) == p + 1 + |chunks[0]|
              && Carries(d, p + 1 + |chunks[0]|, Framed(chunks[1..]))
              && |Framed(chunks)| == 1 + |chunks[0]| + |Framed(chunks[1..])|
  {
    if chunks == [] {
      CarriesByte(d, p, 0, []);
    } else {
      var c, rest := chunks[0], Framed(chunks[1..]);
      assert Framed(chunks) == [|c|] + (c + rest);
      hide Framed, Carries;
      CarriesByte(d, p, |c|, c + rest);
      CarriesParts(d, p + 1, c, rest);
      CarriesSlice(d, p + 1, c);
    }
  }

  lemma CarriesSlice(d: seq<byte>, p: nat, s: seq<byte>)
    requires Carries(d, p, s)
    ensures p + |s| <= |d| && d[p..p + |s|] == s
  {
  }

  lemma CarriesByte(d: seq<byte>, p: nat, b: byte, rest: seq<byte>)
    ensures Carries(d, p, [b] + rest) <==> p < |d| && d[p] == b && Carries(d, p + 1, rest)
  {
    CarriesParts(d, p, [b], rest);
    if p < |d| { assert d[p..p + 1] == [d[p]]; }
  }

  /**
   * Where skipping ends when it starts past the terminator: it stays there only when nothing follows. This is where
   * image data that ran out leaves the stream.
   */
  lemma SkipAfterExhaustion(d: seq<byte>, p: nat)
    requires p <= |d| && Complete(d, p) && Complete(d, ChainEnd(d, p))
    ensures ChainEnd(d, ChainEnd(d, p)) == ChainEnd(d, p) <==> ChainEnd(d, p) == |d|
  {
    ChainAdvances(d, ChainEnd(d, p));
  }

  lemma {:induction false} ChainAdvances(d: seq<byte>, p: nat)
    requires p <= |d| && Complete(d, p)
    ensures ChainEnd(d, p) == p <==> p == |d|
    decreases |d| - p
  {
    if p < |d| && d[p] != 0 { assert AfterBlock(d, p) > p; }
  }
}
