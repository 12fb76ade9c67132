/**
 * Encoders after Appendix F of GIF89a, and the proof that the decoder of module Lzw inverts
 * every one of them: greedy or not, with clear codes at any place the table allows.
 */
module LzwEncoder {
  import opened BitStrings
  import opened Lzw

  /** The strings an encoder may use next: those sent so far, and the last one extended by the next pixel. */
  function Offered(ds: nat, t: Table, next: byte): (entries: seq<seq<byte>>)
    requires Sound(ds, t)
    ensures forall k :: 0 <= k < |entries| ==> 1 <= |entries[k]| <= k + 2
    ensures t.last != -1 ==> Known(ds, entries, t.last)
  {
    if t.last == -1 then [] else t.entries + [Str(ds, t.entries, t.last) + [next]]
  }

  /** A data code is allowed only while the decoder can still add an entry for it. */
  predicate Room(ds: nat, t: Table) {
    t.last == -1 || Available(ds, t) < MAX_STACK_SIZE
  }

  /** Code c stands for a prefix of the pixels. */
  predicate Matches(ds: nat, entries: seq<seq<byte>>, pixels: seq<byte>, c: int) {
    Known(ds, entries, c) && Str(ds, entries, c) <= pixels
  }

  /** The codes are a conforming transmission of the pixels, from table t to the end code. */
  ghost predicate Encodes(ds: nat, t: Table, pixels: seq<byte>, codes: seq<nat>)
    requires Sound(ds, t)
    decreases |codes|
  {
    && codes != []
    && var c := codes[0];
       if c == Clear(ds) + 1 then pixels == [] && |codes| == 1
       else if c == Clear(ds) then Encodes(ds, FRESH, pixels, codes[1..])
       else
         && pixels != []
         && Room(ds, t)
         && var entries := Offered(ds, t, pixels[0]);
            && Matches(ds, entries, pixels, c)
            && Encodes(ds, Table(entries, c), pixels[|Str(ds, entries, c)|..], codes[1..])
  }

  /** How many entries there are after a data code: one more, unless it is the first one or the table is full. */
  function EntriesAfter(ds: nat, entries: nat, cleared: bool): nat {
    if cleared || Clear(ds) + 2 + entries >= MAX_STACK_SIZE then entries else entries + 1
  }

  /** The codes as bits; only the number of entries and whether a code was sent since the clear matter. */
  function Pack(ds: nat, entries: nat, cleared: bool, codes: seq<nat>): seq<bool>
    decreases |codes|
  {
    if codes == [] then []
    else
      ToBits(codes[0], Width(ds + 1, Clear(ds) + 2 + entries)) +
      if codes[0] == Clear(ds) then Pack(ds, 0, true, codes[1..])
      else Pack(ds, EntriesAfter(ds, entries, cleared), false, codes[1..])
  }

  function PackFrom(ds: nat, t: Table, codes: seq<nat>): seq<bool> {
    Pack(ds, |t.entries|, t.last == -1, codes)
  }

  function PackTail(ds: nat, t: Table, codes: seq<nat>): seq<bool>
    requires codes != []
  {
    if codes[0] == Clear(ds) then Pack(ds, 0, true, codes[1..])
    else Pack(ds, EntriesAfter(ds, |t.entries|, t.last == -1), false, codes[1..])
  }

  /** A code the encoder may send fits in the current width. */
  lemma CodeFits(ds: nat, t: Table, code: nat)
    requires ds <= 11 && Sound(ds, t)
    requires code <= Available(ds, t) && (code <= Clear(ds) + 1 || code < MAX_STACK_SIZE)
    ensures code < Pow2(CodeWidth(ds, t))
  {
    var w := CodeWidth(ds, t);
    WidthFits(ds + 1, Available(ds, t));
    if w == MAX_CODE_SIZE {
      assert Pow2(12) == 4096;
      Pow2Monotone(ds, 11);
      assert Pow2(11) == 2048;
    }
  }

  /** Reading back the first packed code. */
  lemma ReadCode(bits: seq<bool>, code: nat, w: nat, rest: seq<bool>)
    requires code < Pow2(w)
    requires ToBits(code, w) + rest <= bits
    ensures |bits| >= w && Value(bits[..w]) == code && rest <= bits[w..]
  {
    ValueOfByte(code, w);
    var p := ToBits(code, w) + rest;
    assert bits[..w] == p[..w] == ToBits(code, w);
    assert rest == p[w..] <= bits[w..];
  }

  /** The result every decoder must deliver when it asks for `need` of the given pixels. */
  function Delivered(pixels: seq<byte>, need: nat): Result {
    if need <= |pixels| then Result(pixels[..need], Filled) else Result(pixels, EndCode)
  }

  /** The decoder's table step on an encoder's data code: it recovers the string and the encoder's table. */
  lemma StepInverts(ds: nat, t: Table, pixels: seq<byte>, c: nat)
    requires Sound(ds, t) && pixels != [] && Room(ds, t)
    requires c != Clear(ds) && c != Clear(ds) + 1
    requires Matches(ds, Offered(ds, t, pixels[0]), pixels, c)
    ensures Step(ds, t, c) ==
            Next(Table(Offered(ds, t, pixels[0]), c), Str(ds, Offered(ds, t, pixels[0]), c))
  {
    var entries := Offered(ds, t, pixels[0]);
    var s := Str(ds, entries, c);
    assert s[0] == pixels[0];
    if t.last != -1 {
      var lastSymbols := Str(ds, t.entries, t.last);
      if c == Available(ds, t) {
        assert s == lastSymbols + [pixels[0]];
        assert lastSymbols[0] == s[0];
      } else {
        assert s == Str(ds, t.entries, c);
      }
    }
  }

  /**
   * Decoding what any conforming encoder sent gives back the pixels, after those of the previous
   * code that are still pending.
   */
  lemma {:induction false} DecoderInvertsEncoder(ds: nat, pending: seq<byte>, t: Table, pixels: seq<byte>,
                                                 codes: seq<nat>, bits: seq<bool>, need: nat)
    requires 2 <= ds <= 11 && Sound(ds, t)
    requires Encodes(ds, t, pixels, codes)
    requires PackFrom(ds, t, codes) <= bits
    ensures Run(ds, pending, bits, t, need) == Delivered(pending + pixels, need)
    decreases |codes|
  {
    hide Step, Encodes, Sound, Value, PackFrom, Delivered;
    var t', s := Transmitted(ds, t, pixels, codes, bits);
    var w := CodeWidth(ds, t);
    if |pending| < need && codes[0] == Clear(ds) + 1 {
      DeliveredToEnd(pending, need);
    } else if |pending| < need {
      DecoderInvertsEncoder(ds, s, t', pixels[|s|..], codes[1..], bits[w..], need - |pending|);
      DeliveredInParts(pending, s, pixels, need);
    } else {
      DeliveredFromPending(pending, pixels, need);
    }
  }

  lemma DeliveredToEnd(pending: seq<byte>, need: nat)
    requires |pending| < need
    ensures Delivered(pending + [], need) == Result(pending, EndCode)
  {
  }

  lemma DeliveredFromPending(pending: seq<byte>, pixels: seq<byte>, need: nat)
    requires need <= |pending|
    ensures Delivered(pending + pixels, need) == Result(pending[..need], Filled)
  {
    assert (pending + pixels)[..need] == pending[..need];
  }

  lemma DeliveredInParts(pending: seq<byte>, s: seq<byte>, pixels: seq<byte>, need: nat)
    requires |pending| < need && s <= pixels
    ensures Prepend(pending, Delivered(s + pixels[|s|..], need - |pending|)) == Delivered(pending + pixels, need)
  {
    assert s + pixels[|s|..] == pixels;
    if need <= |pending + pixels| {
      assert (pending + pixels)[..need] == pending + pixels[..need - |pending|];
    }
  }

  /** One code of a transmission, as the decoder reads it from the bits. */
  lemma Transmitted(ds: nat, t: Table, pixels: seq<byte>, codes: seq<nat>, bits: seq<bool>)
    returns (t': Table, s: seq<byte>)
    requires ds <= 11 && Sound(ds, t)
    requires Encodes(ds, t, pixels, codes)
    requires PackFrom(ds, t, codes) <= bits
    ensures codes != []
    ensures var w := CodeWidth(ds, t);
            && |bits| >= w
            && Value(bits[..w]) == codes[0]
            && if codes[0] == Clear(ds) + 1 then Step(ds, t, codes[0]) == Stop(EndCode) && pixels == []
               else
                 && Step(ds, t, codes[0]) == Next(t', s)
                 && s <= pixels
                 && Sound(ds, t')
                 && Encodes(ds, t', pixels[|s|..], codes[1..])
                 && PackFrom(ds, t', codes[1..]) <= bits[w..]
  {
    hide Step, Encodes, Sound, PackFrom, PackTail;
    t', s := Understood(ds, t, pixels, codes);
    CodeSent(ds, t, pixels, codes);
    PackUnfolds(ds, t, codes);
    ReadCode(bits, codes[0], CodeWidth(ds, t), PackTail(ds, t, codes));
  }

  /** What one code of a transmission means to the decoder. */
  lemma Understood(ds: nat, t: Table, pixels: seq<byte>, codes: seq<nat>) returns (t': Table, s: seq<byte>)
    requires Sound(ds, t)
    requires Encodes(ds, t, pixels, codes)
    ensures codes != []
    ensures if codes[0] == Clear(ds) + 1 then Step(ds, t, codes[0]) == Stop(EndCode) && pixels == []
            else
              && Step(ds, t, codes[0]) == Next(t', s)
              && s <= pixels
              && Sound(ds, t')
              && Encodes(ds, t', pixels[|s|..], codes[1..])
              && PackTail(ds, t, codes) == PackFrom(ds, t', codes[1..])
  {
    hide Pack;
    if codes[0] == Clear(ds) + 1 {
      t', s := t, [];
    } else if codes[0] == Clear(ds) {
      t', s := FRESH, [];
      assert pixels[0..] == pixels;
    } else {
      var entries := Offered(ds, t, pixels[0]);
      t', s := Table(entries, codes[0]), Str(ds, entries, codes[0]);
      StepInverts(ds, t, pixels, codes[0]);
    }
  }

  lemma PackUnfolds(ds: nat, t: Table, codes: seq<nat>)
    requires codes != []
    ensures PackFrom(ds, t, codes) == ToBits(codes[0], CodeWidth(ds, t)) + PackTail(ds, t, codes)
  {
  }

  lemma CodeSent(ds: nat, t: Table, pixels: seq<byte>, codes: seq<nat>)
    requires ds <= 11 && Sound(ds, t)
    requires Encodes(ds, t, pixels, codes)
    ensures codes[0] < Pow2(CodeWidth(ds, t))
  {
    hide CodeWidth;
    CodeFits(ds, t, codes[0]);
  }

  /** The code of the longest string on offer that starts the pixels; among the first k entries only. */
  ghost function Longest(ds: nat, entries: seq<seq<byte>>, pixels: seq<byte>, k: nat): (c: nat)
    requires k <= |entries| && pixels != [] && pixels[0] < Clear(ds)
    ensures Matches(ds, entries, pixels, c)
    ensures c < Clear(ds) + 2 + k
    ensures forall d :: Matches(ds, entries, pixels, d) && d < Clear(ds) + 2 + k ==>
              |Str(ds, entries, d)| <= |Str(ds, entries, c)|
    decreases k
  {
    if k == 0 then pixels[0]
    else
      var best := Longest(ds, entries, pixels, k - 1);
      var c := Clear(ds) + 2 + k - 1;
      if Matches(ds, entries, pixels, c) && |Str(ds, entries, c)| > |Str(ds, entries, best)| then c else best
  }

  /**
   * The greedy encoder. It clears when the table is full, and wherever else `clearAt` asks for it
   * (given the number of pixels still to send).
   */
  ghost function Greedy(ds: nat, t: Table, pixels: seq<byte>, clearAt: nat -> bool): (codes: seq<nat>)
    requires Sound(ds, t)
    requires forall k :: 0 <= k < |pixels| ==> pixels[k] < Clear(ds)
    decreases |pixels|, t.last != -1
  {
    if pixels == [] then [Clear(ds) + 1]
    else if t.last != -1 && (!Room(ds, t) || clearAt(|pixels|)) then
      [Clear(ds)] + Greedy(ds, FRESH, pixels, clearAt)
    else
      var entries := Offered(ds, t, pixels[0]);
      var c := Longest(ds, entries, pixels, |entries|);
      [c] + Greedy(ds, Table(entries, c), pixels[|Str(ds, entries, c)|..], clearAt)
  }

  lemma {:induction false} GreedyEncodes(ds: nat, t: Table, pixels: seq<byte>, clearAt: nat -> bool)
    requires Sound(ds, t)
    requires forall k :: 0 <= k < |pixels| ==> pixels[k] < Clear(ds)
    ensures Encodes(ds, t, pixels, Greedy(ds, t, pixels, clearAt))
    decreases |pixels|, t.last != -1
  {
    var codes := Greedy(ds, t, pixels, clearAt);
    if pixels == [] {
    } else if t.last != -1 && (!Room(ds, t) || clearAt(|pixels|)) {
      GreedyEncodes(ds, FRESH, pixels, clearAt);
      assert codes[1..] == Greedy(ds, FRESH, pixels, clearAt);
    } else {
      var entries := Offered(ds, t, pixels[0]);
      var c := Longest(ds, entries, pixels, |entries|);
      var pixels' := pixels[|Str(ds, entries, c)|..];
      GreedyEncodes(ds, Table(entries, c), pixels', clearAt);
      assert codes[1..] == Greedy(ds, Table(entries, c), pixels', clearAt);
      assert c == codes[0] && c != Clear(ds) && c != Clear(ds) + 1;
    }
  }

  /** The whole code stream of an image: an initial clear, the greedy codes, the end code. */
  ghost function EncodeImage(ds: nat, pixels: seq<byte>, clearAt: nat -> bool): seq<nat>
    requires forall k :: 0 <= k < |pixels| ==> pixels[k] < Clear(ds)
  {
    [Clear(ds)] + Greedy(ds, FRESH, pixels, clearAt)
  }

  /**
   * Round trip: pixels encoded greedily, with clears at any places, packed into bytes and followed by
   * anything, decode to themselves. Asking for more pixels yields zeros after them.
   */
  lemma RoundTrip(ds: nat, pixels: seq<byte>, clearAt: nat -> bool, bytes: seq<byte>, npix: nat)
    requires 2 <= ds <= 11 && |pixels| <= npix
    requires forall k :: 0 <= k < |pixels| ==> pixels[k] < Clear(ds)
    requires PackBytes(PackFrom(ds, FRESH, EncodeImage(ds, pixels, clearAt))) <= bytes
    ensures Pixels(ds, Bits(bytes), npix) == ZeroPadded(pixels, npix)
  {
    var codes := EncodeImage(ds, pixels, clearAt);
    GreedyEncodes(ds, FRESH, pixels, clearAt);
    assert codes[1..] == Greedy(ds, FRESH, pixels, clearAt);
    AnyEncoderRoundTrip(ds, pixels, codes, bytes, npix);
  }

  /** The same for the codes of every conforming encoder. */
  lemma AnyEncoderRoundTrip(ds: nat, pixels: seq<byte>, codes: seq<nat>, bytes: seq<byte>, npix: nat)
    requires 2 <= ds <= 11 && |pixels| <= npix
    requires Encodes(ds, FRESH, pixels, codes)
    requires PackBytes(PackFrom(ds, FRESH, codes)) <= bytes
    ensures Pixels(ds, Bits(bytes), npix) == ZeroPadded(pixels, npix)
  {
    var packed := PackBytes(PackFrom(ds, FRESH, codes));
    PackBytesKeepsBits(PackFrom(ds, FRESH, codes));
    assert bytes == packed + bytes[|packed|..];
    BitsConcat(packed, bytes[|packed|..]);
    DecoderInvertsEncoder(ds, [], FRESH, pixels, codes, Bits(bytes), npix);
    assert [] + pixels == pixels;
  }
}
