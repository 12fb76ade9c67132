/** The bit accumulator `datum` and the steps of the specification decoder that the decoding loop follows. */
module CodeReader {
  import opened Sequences
  import opened BitStrings
  import opened Lzw

  /** Adding a byte above the loaded bits keeps the bits still to come. */
  lemma LoadByte(buffer: seq<bool>, b: byte, unread: seq<byte>)
    ensures Value(buffer + ToBits(b, 8)) == Value(buffer) + Shl(b, |buffer|)
    ensures buffer + ToBits(b, 8) + Bits(unread) == buffer + Bits([b] + unread)
  {
    assert Pow2(8) == 256;
    ValueOfByte(b, 8);
    ValueConcat(buffer, ToBits(b, 8));
    assert ([b] + unread)[1..] == unread;
    Associates(buffer, ToBits(b, 8), Bits(unread));
  }

  /** Mask and shift take the next code off the bits still to come. */
  lemma TakeCode(buffer: seq<bool>, unread: seq<bool>, w: nat)
    requires w <= |buffer|
    ensures And(Value(buffer), Pow2(w) - 1) == Value((buffer + unread)[..w])
    ensures Shr(Value(buffer), w) == Value(buffer[w..])
    ensures (buffer + unread)[w..] == buffer[w..] + unread
  {
    hide *;
    MaskTakesLowBits(buffer, w);
    ShiftDropsLowBits(buffer, w);
    FrontOfConcat(buffer, unread, w);
  }

  lemma FrontOfConcat<T>(a: seq<T>, b: seq<T>, w: nat)
    requires w <= |a|
    ensures (a + b)[..w] == a[..w] && (a + b)[w..] == a[w..] + b
  {
  }

  /** Popping delivers the first pending pixel. */
  lemma PopFirst(ds: nat, pending: seq<byte>, bits: seq<bool>, t: Table, need: nat)
    requires Sound(ds, t) && pending != [] && need > 0
    ensures Run(ds, pending, bits, t, need) ==
            Prepend([pending[0]], Run(ds, pending[1..], bits, t, need - 1))
  {
    hide Step, Value, CodeWidth;
    assert pending == [pending[0]] + pending[1..];
    if need <= |pending| {
      assert pending[..need] == [pending[0]] + pending[1..][..need - 1];
    } else if CodeWidth(ds, t) <= |bits| {
      var w := CodeWidth(ds, t);
      var a := Step(ds, t, Value(bits[..w]));
      if a.Next? {
        var r := Run(ds, a.symbols, bits[w..], a.table, need - |pending|);
        assert pending + r.out == [pending[0]] + (pending[1..] + r.out);
      }
    }
  }

  /** With nothing pending the next code decides. */
  lemma RunCode(ds: nat, bits: seq<bool>, t: Table, need: nat)
    requires Sound(ds, t) && need > 0 && CodeWidth(ds, t) <= |bits|
    ensures var w := CodeWidth(ds, t);
            var a := Step(ds, t, Value(bits[..w]));
            Run(ds, [], bits, t, need) ==
            if a.Stop? then Result([], a.why) else Run(ds, a.symbols, bits[w..], a.table, need)
  {
    hide Step, Value, CodeWidth;
    var w := CodeWidth(ds, t);
    var a := Step(ds, t, Value(bits[..w]));
    if a.Next? {
      var r := Run(ds, a.symbols, bits[w..], a.table, need);
      assert [] + r.out == r.out;
    }
  }

  lemma PrependTwice(p: seq<byte>, q: seq<byte>, r: Result)
    ensures Prepend(p, Prepend(q, r)) == Prepend(p + q, r)
  {
    assert p + (q + r.out) == (p + q) + r.out;
  }

  /** The decoding loop's progress: what is stored, followed by what is still to come, is the total. */
  ghost predicate Progress(ds: nat, total: Result, stored: seq<byte>, pending: seq<byte>, bits: seq<bool>, t: Table,
                           npix: nat)
  {
    && Sound(ds, t) && |stored| <= npix
    && total == Prepend(stored, Run(ds, pending, bits, t, npix - |stored|))
  }

  lemma ProgressStarts(ds: nat, bits: seq<bool>, npix: nat)
    ensures Progress(ds, Run(ds, [], bits, FRESH, npix), [], [], bits, FRESH, npix)
  {
    var r := Run(ds, [], bits, FRESH, npix);
    assert [] + r.out == r.out;
  }

  lemma ProgressPops(ds: nat, total: Result, stored: seq<byte>, pending: seq<byte>, bits: seq<bool>, t: Table,
                     npix: nat)
    requires Progress(ds, total, stored, pending, bits, t, npix) && pending != [] && |stored| < npix
    ensures Progress(ds, total, stored + [pending[0]], pending[1..], bits, t, npix)
  {
    hide Run;
    PopFirst(ds, pending, bits, t, npix - |stored|);
    PrependTwice(stored, [pending[0]], Run(ds, pending[1..], bits, t, npix - |stored| - 1));
  }

  lemma ProgressEnds(ds: nat, total: Result, stored: seq<byte>, pending: seq<byte>, bits: seq<bool>, t: Table,
                     npix: nat)
    requires Progress(ds, total, stored, pending, bits, t, npix)
    requires |stored| == npix || (pending == [] && |bits| < CodeWidth(ds, t))
    ensures total == Result(stored, if |stored| == npix then Filled else OutOfData)
  {
  }

  lemma ProgressCodes(ds: nat, total: Result, stored: seq<byte>, bits: seq<bool>, t: Table, npix: nat)
    requires Progress(ds, total, stored, [], bits, t, npix)
    requires CodeWidth(ds, t) <= |bits| && |stored| < npix
    ensures Sound(ds, t)
    ensures var w := CodeWidth(ds, t);
            var a := Step(ds, t, Value(bits[..w]));
            if a.Stop? then total == Result(stored, a.why)
            else Progress(ds, total, stored, a.symbols, bits[w..], a.table, npix)
  {
    hide Run, Step, Value;
    RunCode(ds, bits, t, npix - |stored|);
    var a := Step(ds, t, Value(bits[..CodeWidth(ds, t)]));
    if a.Stop? { assert stored + [] == stored; }
  }

  lemma EmptyBuffer(bits: seq<bool>)
    ensures Value([]) == 0 && [] + bits == bits
  {
  }

  /** A stretch of the data's bits is a field of the data taken as one little-endian number. */
  lemma CodeIsField(payload: seq<byte>, o: nat, w: nat)
    requires o + w <= 8 * |payload|
    ensures Value(Bits(payload)[o..o + w]) == LittleEndian(payload) / Pow2(o) % Pow2(w)
  {
    BitsAreLittleEndian(payload);
    hide Bits, Value, LittleEndian;
    FieldOfNumber(Bits(payload), o, w);
  }

  /**
   * The decoder on numbers: the data is one little-endian number N, o says how many of its bits have been used, and
   * the next code is N / 2^o mod 2^w for the width w of the moment.
   */
  ghost function RunAt(ds: nat, pending: seq<byte>, payload: seq<byte>, o: nat, t: Table, need: nat): (r: Result)
    requires Sound(ds, t) && o <= 8 * |payload|
    decreases 8 * |payload| - o
  {
    if need <= |pending| then Result(pending[..need], Filled)
    else if 8 * |payload| - o < CodeWidth(ds, t) then Result(pending, OutOfData)
    else
      var w := CodeWidth(ds, t);
      match Step(ds, t, LittleEndian(payload) / Pow2(o) % Pow2(w))
      case Stop(why) => Result(pending, why)
      case Next(t', symbols) => Prepend(pending, RunAt(ds, symbols, payload, o + w, t', need - |pending|))
  }

  /** Over a whole run every code is the field of N at the running offset: the sum of the widths before it. */
  lemma {:induction false} CodesAreFields(ds: nat, pending: seq<byte>, payload: seq<byte>, o: nat, t: Table, need: nat)
    requires Sound(ds, t) && o <= 8 * |payload|
    ensures Run(ds, pending, Bits(payload)[o..], t, need) == RunAt(ds, pending, payload, o, t, need)
    decreases 8 * |payload| - o
  {
    hide Step, Value, Bits, LittleEndian, Pow2, CodeWidth, Sound;
    var bits, w := Bits(payload)[o..], CodeWidth(ds, t);
    if |pending| < need && w <= |bits| {
      assert bits[..w] == Bits(payload)[o..o + w] && bits[w..] == Bits(payload)[o + w..];
      CodeIsField(payload, o, w);
      var a := Step(ds, t, Value(bits[..w]));
      if a.Next? {
        WidthPositive(ds, t);
        CodesAreFields(ds, a.symbols, payload, o + w, a.table, need - |pending|);
      }
    }
  }

  /** So the decoded pixels are a function of N alone. */
  lemma PixelsAreOfNumber(ds: nat, payload: seq<byte>, npix: nat)
    ensures |RunAt(ds, [], payload, 0, FRESH, npix).out| <= npix
    ensures Pixels(ds, Bits(payload), npix) == ZeroPadded(RunAt(ds, [], payload, 0, FRESH, npix).out, npix)
  {
    assert Bits(payload)[0..] == Bits(payload);
    CodesAreFields(ds, [], payload, 0, FRESH, npix);
    RunLength(ds, [], Bits(payload), FRESH, npix);
  }

  lemma WidthPositive(ds: nat, t: Table)
    ensures CodeWidth(ds, t) > 0
  {
  }
}
