/** Inputs on which the decoder does not do what GIF89a asks, each with the exact condition. */
module DecoderLimits {
  import opened BitStrings
  import opened ByteStreams
  import opened SubBlocks
  import opened Lzw
  import opened LzwTables

  /** The loop's variables after n entries were added since a clear; the codes and symbols do not matter here. */
  function AfterAdds(ds: nat, n: nat): LoopVars {
    if n == 0 then LoopVars(Pow2(ds) + 2, ds + 1, Pow2(ds + 1) - 1, -1, 0) else Grow(AfterAdds(ds, n - 1), 0, 0)
  }

  predicate MaskExact(v: LoopVars) { v.codeMask == Pow2(v.codeSize) - 1 }

  /** Mask and width are right: the width is the least one that fits the next free code. */
  predicate WidthExact(ds: nat, v: LoopVars) { MaskExact(v) && v.codeSize == Width(ds + 1, v.available) }

  lemma {:induction false} WidthsExact(ds: nat, n: nat)
    requires 2 <= ds <= 11 && Pow2(ds) + 2 + n <= MAX_STACK_SIZE
    ensures WidthExact(ds, AfterAdds(ds, n)) && AfterAdds(ds, n).available == Pow2(ds) + 2 + n
  {
    if n == 0 {
      StartsExact(ds);
    } else {
      assert AfterAdds(ds, n) == Grow(AfterAdds(ds, n - 1), 0, 0);
      hide *;
      WidthsExact(ds, n - 1);
      GrowExact(ds, AfterAdds(ds, n - 1));
    }
  }

  lemma StartsExact(ds: nat)
    requires 2 <= ds <= 11
    ensures WidthExact(ds, AfterAdds(ds, 0))
  {
    hide Width, Pow2;
    FirstWidth(ds);
  }

  lemma GrowExact(ds: nat, v: LoopVars)
    requires ds <= 11 && WidthExact(ds, v) && v.available < MAX_STACK_SIZE
    ensures WidthExact(ds, Grow(v, 0, 0)) && Grow(v, 0, 0).available == v.available + 1
  {
    hide And, Width, Pow2;
    GrowthTest(ds + 1, v.available);
  }

  /** With data size 0 the mask is wrong after one entry, with data size 1 after four. */
  lemma NarrowMasks()
    ensures !MaskExact(AfterAdds(0, 1)) && !MaskExact(AfterAdds(1, 4))
  {
    assert Pow2(0) == 1 && Pow2(1) == 2 && Pow2(2) == 4 && Pow2(3) == 8;
    AndSmall();
    assert AfterAdds(0, 0) == LoopVars(3, 1, 1, -1, 0);
    assert AfterAdds(0, 1) == LoopVars(4, 2, 5, 0, 0);
    assert AfterAdds(1, 0) == LoopVars(4, 2, 3, -1, 0);
    assert AfterAdds(1, 1) == LoopVars(5, 2, 3, 0, 0);
    assert AfterAdds(1, 2) == LoopVars(6, 2, 3, 0, 0);
    assert AfterAdds(1, 3) == LoopVars(7, 2, 3, 0, 0);
    assert AfterAdds(1, 4) == LoopVars(8, 3, 11, 0, 0);
  }

  lemma AndSmall()
    ensures And(4, 1) == 0 && And(5, 3) == 1 && And(6, 3) == 2 && And(7, 3) == 3 && And(8, 3) == 0
  {
  }

  /** The mask is 2^width - 1 after any number of entries exactly for data sizes of at least 2. */
  lemma MaskExactIff(ds: nat)
    requires ds <= 11
    ensures (forall n :: 0 <= n && Pow2(ds) + 2 + n <= MAX_STACK_SIZE ==> MaskExact(AfterAdds(ds, n))) <==> ds >= 2
  {
    if ds >= 2 {
      forall n | 0 <= n && Pow2(ds) + 2 + n <= MAX_STACK_SIZE
        ensures MaskExact(AfterAdds(ds, n))
      {
        WidthsExact(ds, n);
      }
    } else {
      NarrowMasks();
      assert Pow2(0) == 1 && Pow2(1) == 2;
      assert !MaskExact(AfterAdds(ds, if ds == 0 then 1 else 4));
    }
  }

  /** Following the prefix links k times from a code. */
  function Follow(prefix: seq<int>, code: int, k: nat): int
    decreases k
  {
    if k == 0 || !(0 <= code < |prefix|) then code else Follow(prefix, prefix[code], k - 1)
  }

  /**
   * The first code after a clear passes the tests for it, but is no root code, exactly when it is the next free
   * one.
   */
  lemma BadFirstIff(ds: nat, f: nat)
    requires 2 <= ds
    ensures Step(ds, FRESH, f) == Stop(BadFirst) <==> f == Clear(ds) + 2
  {
  }

  /** The loop `while (code > clear)` ends when it starts at a code. */
  ghost predicate UnwindingEnds(ds: nat, prefix: seq<int>, code: int) {
    exists k: nat :: Follow(prefix, code, k) <= Clear(ds)
  }

  lemma {:induction false} SelfLink(prefix: seq<int>, c: nat, k: nat)
    requires c < |prefix| && prefix[c] == c
    ensures Follow(prefix, c, k) == c
  {
    if k > 0 { SelfLink(prefix, c, k - 1); }
  }

  /**
   * What the next free code stands for when the first code was f: unwinding it ends if and only if f is a root code.
   * With f the next free code itself the entry is its own prefix, and the stack overflows.
   */
  lemma FirstCodeUnwindsIff(ds: nat, prefix: seq<int>, f: nat)
    requires Clear(ds) + 2 < |prefix|
    requires f <= Clear(ds) + 2 && f != Clear(ds) && f != Clear(ds) + 1
    ensures UnwindingEnds(ds, prefix[Clear(ds) + 2 := f], Clear(ds) + 2) <==> f < Clear(ds)
  {
    var c := Clear(ds) + 2;
    var links := prefix[c := f];
    if f < Clear(ds) {
      assert Follow(links, f, 0) == f;
      assert Follow(links, c, 1) == f;
    } else {
      forall k: nat ensures Follow(links, c, k) == c {
        SelfLink(links, c, k);
      }
    }
  }

  /**
   * The decoder's own steps for a first code f and then a root code r, of which unwinding has nothing to do: whatever
   * f is, it becomes the prefix of the next free code.
   */
  method FirstThenRoot(ds: nat, prefix: array<int>, suffix: array<byte>, pixelStack: array<byte>, f: nat, r: nat,
                       v0: LoopVars) returns (v: LoopVars)
    requires 2 <= ds <= 11 && Clear(ds) + 2 < prefix.Length && Mirrors(ds, FRESH, prefix[..], suffix[..], v0)
    requires pixelStack.Length == MAX_STACK_SIZE + 1 && pixelStack != suffix
    requires f <= v0.available && f != Clear(ds) && f != Clear(ds) + 1 && r < Clear(ds)
    modifies prefix, suffix, pixelStack
    ensures prefix[..] == old(prefix[..])[Clear(ds) + 2 := f]
    ensures v.available == Clear(ds) + 3 && v.oldCode == r
    ensures UnwindingEnds(ds, prefix[..], Clear(ds) + 2) <==> Step(ds, FRESH, f) != Stop(BadFirst)
  {
    FirstWidth(ds);
    FirstCodeUnwindsIff(ds, prefix[..], f);
    BadFirstIff(ds, f);
    hide UnwindingEnds, Step;
    var top, v1 := FirstCode(suffix, pixelStack, f, v0);
    v := EnterString(prefix, suffix, r, v1, suffix[r]);
  }

  /**
   * The block reader's loop, on any stream: after some number of reads it has all n bytes if and only if the stream
   * holds them, and then n reads are enough. Otherwise the loop, which waits for -1, goes on for ever.
   */
  lemma BlockFillsIff(policy: (nat, nat) -> nat, p: nat, n: nat, left: nat)
    ensures (exists k: nat :: Got(policy, p, n, left, k) == n) <==> n <= left
    ensures n <= left ==> Got(policy, p, n, left, n) == n
  {
    if n <= left {
      FillsSoon(policy, p, n, left, n);
    }
  }

  lemma {:induction false} FillsSoon(policy: (nat, nat) -> nat, p: nat, n: nat, left: nat, k: nat)
    requires n <= left
    ensures Got(policy, p, n, left, k) >= (if k <= n then k else n)
  {
    if k > 0 { FillsSoon(policy, p, n, left, k - 1); }
  }

  /**
   * A one-pixel image whose data is empty, followed by a zero byte: decoding runs out of data at the terminator, and
   * skipping then takes the zero byte behind it for a terminator too.
   */
  lemma SkipsTooFar()
    ensures var d: seq<byte> := [2, 0, 0];
            Complete(d, 1) && Complete(d, 2) && Payload(d, 1) == [] &&
            Run(d[0], [], Bits(Payload(d, 1)), FRESH, 1).why == OutOfData &&
            ChainEnd(d, 1) == 2 && AfterSkip(d, 2, true) == 3
  {
    FirstWidth(2);
  }
}
