/**
 * The deferred clear of Appendix F of GIF89a: an encoder may go on sending data codes while its table stays full. The
 * decoder stops at the first such code, so what it delivers, and when that is everything, can be said exactly.
 */
module DeferredClear {
  import opened BitStrings
  import opened Lzw
  import opened LzwEncoder

  /** The strings on offer: a full table is used as it is. */
  function OfferedOn(ds: nat, t: Table, next: byte): (entries: seq<seq<byte>>)
    requires Sound(ds, t)
    ensures forall k :: 0 <= k < |entries| ==> 1 <= |entries[k]| <= k + 2
    ensures t.last != -1 ==> Known(ds, entries, t.last)
  {
    if Room(ds, t) then Offered(ds, t, next) else t.entries
  }

  /** As Encodes, with data codes allowed when the table is full. */
  ghost predicate Sends(ds: nat, t: Table, pixels: seq<byte>, codes: seq<nat>)
    requires Sound(ds, t)
    decreases |codes|
  {
    && codes != []
    && var c := codes[0];
       if c == Clear(ds) + 1 then pixels == [] && |codes| == 1
       else if c == Clear(ds) then Sends(ds, FRESH, pixels, codes[1..])
       else
         && pixels != []
         && var entries := OfferedOn(ds, t, pixels[0]);
            && Matches(ds, entries, pixels, c)
            && Sends(ds, Table(entries, c), pixels[|Str(ds, entries, c)|..], codes[1..])
  }

  predicate IsData(ds: nat, c: nat) {
    c != Clear(ds) && c != Clear(ds) + 1
  }

  /** Some data code is sent with a full table. */
  ghost predicate Defers(ds: nat, t: Table, pixels: seq<byte>, codes: seq<nat>)
    requires Sound(ds, t) && Sends(ds, t, pixels, codes)
    decreases |codes|
  {
    var c := codes[0];
    if c == Clear(ds) + 1 then false
    else if c == Clear(ds) then Defers(ds, FRESH, pixels, codes[1..])
    else
      !Room(ds, t) ||
      var entries := OfferedOn(ds, t, pixels[0]);
      Defers(ds, Table(entries, c), pixels[|Str(ds, entries, c)|..], codes[1..])
  }

  /** How many pixels are sent before the first data code with a full table; all of them if there is none. */
  ghost function InTime(ds: nat, t: Table, pixels: seq<byte>, codes: seq<nat>): (n: nat)
    requires Sound(ds, t) && Sends(ds, t, pixels, codes)
    ensures n <= |pixels|
    decreases |codes|
  {
    var c := codes[0];
    if c == Clear(ds) + 1 then 0
    else if c == Clear(ds) then InTime(ds, FRESH, pixels, codes[1..])
    else if !Room(ds, t) then 0
    else
      var entries := OfferedOn(ds, t, pixels[0]);
      var n := |Str(ds, entries, c)|;
      n + InTime(ds, Table(entries, c), pixels[n..], codes[1..])
  }

  /** The transmissions of Encodes are those without a deferred clear. */
  lemma {:induction false} EncodesIff(ds: nat, t: Table, pixels: seq<byte>, codes: seq<nat>)
    requires Sound(ds, t)
    ensures Encodes(ds, t, pixels, codes) <==> Sends(ds, t, pixels, codes) && !Defers(ds, t, pixels, codes)
    decreases |codes|
  {
    if codes != [] && codes[0] != Clear(ds) + 1 {
      if codes[0] == Clear(ds) {
        EncodesIff(ds, FRESH, pixels, codes[1..]);
      } else if pixels != [] {
        var entries := OfferedOn(ds, t, pixels[0]);
        if Matches(ds, entries, pixels, codes[0]) {
          EncodesIff(ds, Table(entries, codes[0]), pixels[|Str(ds, entries, codes[0])|..], codes[1..]);
        }
      }
    }
  }

  /** What comes out: the pixels sent in time, and why no more. */
  function DeliveredInTime(pending: seq<byte>, pixels: seq<byte>, n: nat, defers: bool, need: nat): Result
    requires n <= |pixels|
  {
    if need <= |pending| + n then Result((pending + pixels[..n])[..need], Filled)
    else Result(pending + pixels[..n], if defers then TableFull else EndCode)
  }

  /** What the first code of a transmission means to the decoder. */
  lemma SentCode(ds: nat, t: Table, pixels: seq<byte>, codes: seq<nat>) returns (t': Table, s: seq<byte>)
    requires ds <= 11 && Sound(ds, t) && Available(ds, t) <= MAX_STACK_SIZE
    requires Sends(ds, t, pixels, codes)
    ensures Sound(ds, t') && Available(ds, t') <= MAX_STACK_SIZE
    ensures codes != [] && codes[0] <= Available(ds, t)
    ensures codes[0] <= Clear(ds) + 1 || codes[0] < MAX_STACK_SIZE
    ensures if IsData(ds, codes[0]) && !Room(ds, t) then
              Step(ds, t, codes[0]) == Stop(TableFull) && InTime(ds, t, pixels, codes) == 0 &&
                Defers(ds, t, pixels, codes)
            else if codes[0] == Clear(ds) + 1 then
              Step(ds, t, codes[0]) == Stop(EndCode) && pixels == [] && !Defers(ds, t, pixels, codes)
            else
              && Step(ds, t, codes[0]) == Next(t', s) && s <= pixels
              && Sends(ds, t', pixels[|s|..], codes[1..])
              && InTime(ds, t, pixels, codes) == |s| + InTime(ds, t', pixels[|s|..], codes[1..])
              && (Defers(ds, t, pixels, codes) <==> Defers(ds, t', pixels[|s|..], codes[1..]))
              && PackTail(ds, t, codes) == PackFrom(ds, t', codes[1..])
  {
    hide Pack;
    t', s := FRESH, [];
    assert Pow2(11) == 2048;
    Pow2Monotone(ds, 11);
    if codes[0] == Clear(ds) {
      assert pixels[0..] == pixels;
    } else if IsData(ds, codes[0]) && Room(ds, t) {
      var entries := Offered(ds, t, pixels[0]);
      t', s := Table(entries, codes[0]), Str(ds, entries, codes[0]);
      StepInverts(ds, t, pixels, codes[0]);
    }
  }

  lemma InTimeParts(pending: seq<byte>, s: seq<byte>, pixels: seq<byte>, n: nat, defers: bool, need: nat)
    requires |pending| < need && s <= pixels && |s| + n <= |pixels|
    ensures Prepend(pending, DeliveredInTime(s, pixels[|s|..], n, defers, need - |pending|)) ==
            DeliveredInTime(pending, pixels, |s| + n, defers, need)
  {
    var rest := s + pixels[|s|..][..n];
    assert rest == pixels[..|s| + n];
    assert pending + rest == pending + pixels[..|s| + n];
    if need <= |pending| + |rest| {
      assert (pending + rest)[..need] == pending + rest[..need - |pending|];
    }
  }

  lemma InTimeAtOnce(pending: seq<byte>, pixels: seq<byte>, n: nat, defers: bool, need: nat)
    requires n <= |pixels|
    ensures need <= |pending| ==> DeliveredInTime(pending, pixels, n, defers, need) == Result(pending[..need], Filled)
    ensures need > |pending| && n == 0 ==>
              DeliveredInTime(pending, pixels, n, defers, need) ==
                Result(pending, if defers then TableFull else EndCode)
  {
    if need <= |pending| {
      assert (pending + pixels[..n])[..need] == pending[..need];
    }
  }

  /**
   * What the decoder delivers of any transmission, deferred clears or not: the pixels sent before the first data code
   * with a full table, and then it stops there.
   */
  lemma {:induction false} DecoderUntilDeferred(ds: nat, pending: seq<byte>, t: Table, pixels: seq<byte>,
                                                codes: seq<nat>, bits: seq<bool>, need: nat)
    requires 2 <= ds <= 11 && Sound(ds, t) && Available(ds, t) <= MAX_STACK_SIZE
    requires Sends(ds, t, pixels, codes) && PackFrom(ds, t, codes) <= bits
    ensures Run(ds, pending, bits, t, need) ==
            DeliveredInTime(pending, pixels, InTime(ds, t, pixels, codes), Defers(ds, t, pixels, codes), need)
    decreases |codes|
  {
    var w := CodeWidth(ds, t);
    hide Step, Sends, Sound, Value, PackFrom, PackTail, DeliveredInTime, InTime, Defers, CodeWidth;
    var t', s := SentCode(ds, t, pixels, codes);
    CodeFits(ds, t, codes[0]);
    PackUnfolds(ds, t, codes);
    ReadCode(bits, codes[0], w, PackTail(ds, t, codes));
    InTimeAtOnce(pending, pixels, InTime(ds, t, pixels, codes), Defers(ds, t, pixels, codes), need);
    if |pending| < need && Step(ds, t, codes[0]).Next? {
      var rest := pixels[|s|..];
      DecoderUntilDeferred(ds, s, t', rest, codes[1..], bits[w..], need - |pending|);
      InTimeParts(pending, s, pixels, InTime(ds, t', rest, codes[1..]), Defers(ds, t', rest, codes[1..]), need);
    }
  }

  /** A decoder asked for the first pixels delivers exactly them if and only if they are sent in time. */
  lemma DeliveredIff(ds: nat, pixels: seq<byte>, codes: seq<nat>, bits: seq<bool>, need: nat)
    requires 2 <= ds <= 11 && need <= |pixels|
    requires Sends(ds, FRESH, pixels, codes) && PackFrom(ds, FRESH, codes) <= bits
    ensures Run(ds, [], bits, FRESH, need) == Result(pixels[..need], Filled) <==>
            need <= InTime(ds, FRESH, pixels, codes)
  {
    Pow2Monotone(ds, 11);
    assert Pow2(11) == 2048;
    var n := InTime(ds, FRESH, pixels, codes);
    DecoderUntilDeferred(ds, [], FRESH, pixels, codes, bits, need);
    assert [] + pixels[..n] == pixels[..n];
    if need <= n {
      assert pixels[..n][..need] == pixels[..need];
    }
  }

  /** The image comes out right if and only if every pixel sent too late is 0, because missing pixels become 0. */
  lemma DeferredPixelsIff(ds: nat, pixels: seq<byte>, codes: seq<nat>, bits: seq<bool>)
    requires 2 <= ds <= 11
    requires Sends(ds, FRESH, pixels, codes) && PackFrom(ds, FRESH, codes) <= bits
    ensures Pixels(ds, bits, |pixels|) == pixels <==>
            forall k :: InTime(ds, FRESH, pixels, codes) <= k < |pixels| ==> pixels[k] == 0
  {
    hide Sends, InTime, Pixels, ZeroPadded, PackFrom;
    var n := InTime(ds, FRESH, pixels, codes);
    RunFromFresh(ds, pixels, codes, bits);
    PaddedIff(pixels, n);
  }

  lemma RunFromFresh(ds: nat, pixels: seq<byte>, codes: seq<nat>, bits: seq<bool>)
    requires 2 <= ds <= 11
    requires Sends(ds, FRESH, pixels, codes) && PackFrom(ds, FRESH, codes) <= bits
    ensures Pixels(ds, bits, |pixels|) == ZeroPadded(pixels[..InTime(ds, FRESH, pixels, codes)], |pixels|)
  {
    Pow2Monotone(ds, 11);
    assert Pow2(11) == 2048;
    hide Run, Sends, InTime, Defers, PackFrom, ZeroPadded;
    var n := InTime(ds, FRESH, pixels, codes);
    DecoderUntilDeferred(ds, [], FRESH, pixels, codes, bits, |pixels|);
    assert [] + pixels[..n] == pixels[..n];
    assert pixels[..n][..n] == pixels[..n];
  }

  lemma PaddedIff(pixels: seq<byte>, n: nat)
    requires n <= |pixels|
    ensures ZeroPadded(pixels[..n], |pixels|) == pixels <==> forall k :: n <= k < |pixels| ==> pixels[k] == 0
  {
    var p := ZeroPadded(pixels[..n], |pixels|);
    assert forall k :: 0 <= k < |pixels| ==> p[k] == if k < n then pixels[k] else 0;
  }

  /** Sending every pixel by its root code. */
  function RootCodes(ds: nat, pixels: seq<byte>): (codes: seq<nat>)
    ensures codes != []
  {
    if pixels == [] then [Clear(ds) + 1] else [pixels[0]] + RootCodes(ds, pixels[1..])
  }

  /** How many data codes fit before the table is full. */
  function CodesLeft(ds: nat, t: Table): int {
    if t.last == -1 then MAX_STACK_SIZE - Clear(ds) - 1 else MAX_STACK_SIZE - Available(ds, t)
  }

  /** Such a transmission is in time for as many pixels as codes fit. */
  lemma {:induction false} RootCodesInTime(ds: nat, t: Table, pixels: seq<byte>)
    requires ds <= 11 && Sound(ds, t) && Available(ds, t) <= MAX_STACK_SIZE
    requires forall k :: 0 <= k < |pixels| ==> pixels[k] < Clear(ds)
    ensures Sends(ds, t, pixels, RootCodes(ds, pixels))
    ensures var left := CodesLeft(ds, t);
            InTime(ds, t, pixels, RootCodes(ds, pixels)) == if |pixels| <= left then |pixels| else left
    decreases |pixels|
  {
    Pow2Monotone(ds, 11);
    assert Pow2(11) == 2048;
    if pixels != [] {
      var entries := OfferedOn(ds, t, pixels[0]);
      var t' := Table(entries, pixels[0]);
      assert Str(ds, entries, pixels[0]) == [pixels[0]] <= pixels;
      assert RootCodes(ds, pixels)[1..] == RootCodes(ds, pixels[1..]);
      RootCodesInTime(ds, t', pixels[1..]);
      assert Room(ds, t) ==> CodesLeft(ds, t') == CodesLeft(ds, t) - 1;
    }
  }

  /**
   * A concrete family: after a clear, n pixels of value 1 sent one code each come out if and only if n is at most
   * 4095 - clear, the number of data codes the decoder takes between clears.
   */
  lemma OnesComeOutIff(ds: nat, n: nat, bits: seq<bool>)
    requires 2 <= ds <= 11
    requires PackFrom(ds, FRESH, RootCodes(ds, seq(n, _ => 1))) <= bits
    ensures Pixels(ds, bits, n) == seq(n, _ => 1) <==> n <= MAX_STACK_SIZE - 1 - Clear(ds)
  {
    var ones: seq<byte> := seq(n, _ => 1);
    Pow2Monotone(2, ds);
    Pow2Monotone(ds, 11);
    assert Pow2(2) == 4 && Pow2(11) == 2048;
    RootCodesInTime(ds, FRESH, ones);
    DeferredPixelsIff(ds, ones, RootCodes(ds, ones), bits);
    if n > MAX_STACK_SIZE - 1 - Clear(ds) {
      assert ones[n - 1] == 1;
    }
  }
}
