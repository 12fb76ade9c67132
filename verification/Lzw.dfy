/**
 * Variable-width LZW as Appendix F of GIF89a describes it: the string table, the code widths,
 * and a decoder over bit strings that knows nothing of arrays, masks or reversal stacks.
 */
module Lzw {
  import opened BitStrings

  const MAX_STACK_SIZE := 4096
  const MAX_CODE_SIZE := 12

  /** Why decoding stopped. */
  datatype Why =
    | Filled       // all requested pixels were delivered
    | EndCode      // the end-of-information code
    | UnknownCode  // a code above the next free one
    | TableFull    // a data code with 4096 entries in use
    | OutOfData    // too few bits left for a code
    | BadFirst     // the first code after a clear is not a root code

  datatype Result = Result(out: seq<byte>, why: Why)

  /** entries[k] is the string of code Clear + 2 + k; last is the previous data code or -1. */
  datatype Table = Table(entries: seq<seq<byte>>, last: int)

  datatype Action = Stop(why: Why) | Next(table: Table, symbols: seq<byte>)

  const FRESH := Table([], -1)

  function Clear(ds: nat): nat { Pow2(ds) }

  function Available(ds: nat, t: Table): nat { Clear(ds) + 2 + |t.entries| }

  predicate Known(ds: nat, entries: seq<seq<byte>>, c: int) {
    0 <= c < Clear(ds) || Clear(ds) + 2 <= c < Clear(ds) + 2 + |entries|
  }

  function Str(ds: nat, entries: seq<seq<byte>>, c: int): seq<byte>
    requires Known(ds, entries, c)
  {
    if c < Clear(ds) then [c % 256] else entries[c - Clear(ds) - 2]
  }

  /** Every entry's string is non-empty and no longer than its index allows. */
  ghost predicate Sound(ds: nat, t: Table) {
    && (forall k :: 0 <= k < |t.entries| ==> 1 <= |t.entries[k]| <= k + 2)
    && (t.last == -1 ==> t.entries == [])
    && (t.last != -1 ==> Known(ds, t.entries, t.last))
  }

  /** The least width w >= from with available < 2^w, capped at MAX_CODE_SIZE. */
  function Width(from: nat, available: nat): (w: nat)
    ensures w >= from
    ensures from <= MAX_CODE_SIZE ==> w <= MAX_CODE_SIZE
    decreases MAX_CODE_SIZE - from
  {
    if from >= MAX_CODE_SIZE || available < Pow2(from) then from else Width(from + 1, available)
  }

  /** The width is enough for the next free code, unless it is at its cap. */
  lemma {:induction false} WidthFits(from: nat, available: nat)
    ensures Width(from, available) < MAX_CODE_SIZE ==> available < Pow2(Width(from, available))
    decreases MAX_CODE_SIZE - from
  {
    if from < MAX_CODE_SIZE && Pow2(from) <= available {
      WidthFits(from + 1, available);
    }
  }

  /** The width is the least that is enough. */
  lemma {:induction false} WidthIsLeast(from: nat, available: nat, v: nat)
    requires from <= v < Width(from, available)
    ensures Pow2(v) <= available
    decreases MAX_CODE_SIZE - from
  {
    if from < v { WidthIsLeast(from + 1, available, v); }
  }

  function CodeWidth(ds: nat, t: Table): nat { Width(ds + 1, Available(ds, t)) }

  /** What one code does to the table and which string it stands for. */
  function Step(ds: nat, t: Table, code: nat): (a: Action)
    requires Sound(ds, t)
    ensures a.Next? ==> Sound(ds, a.table)
    ensures a.Stop? ==> a.why != Filled && a.why != OutOfData
  {
    if code > Available(ds, t) then Stop(UnknownCode)
    else if code == Clear(ds) + 1 then Stop(EndCode)
    else if code == Clear(ds) then Next(FRESH, [])
    else if t.last == -1 then
      if code < Clear(ds) then Next(Table([], code), [code % 256]) else Stop(BadFirst)
    else if Available(ds, t) >= MAX_STACK_SIZE then Stop(TableFull)
    else
      var oldString := Str(ds, t.entries, t.last);
      var symbols := if code == Available(ds, t) then oldString + [oldString[0]] else Str(ds, t.entries, code);
      Next(Table(t.entries + [oldString + [symbols[0]]], code), symbols)
  }

  function Prepend(p: seq<byte>, r: Result): Result { Result(p + r.out, r.why) }

  /** Delivers at most `need` pixels: first the pending ones, then those decoded from the bits with table t. */
  ghost function Run(ds: nat, pending: seq<byte>, bits: seq<bool>, t: Table, need: nat): (r: Result)
    requires Sound(ds, t)
    decreases |bits|
  {
    if need <= |pending| then Result(pending[..need], Filled)
    else if |bits| < CodeWidth(ds, t) then Result(pending, OutOfData)
    else
      var w := CodeWidth(ds, t);
      match Step(ds, t, Value(bits[..w]))
      case Stop(why) => Result(pending, why)
      case Next(t', symbols) => Prepend(pending, Run(ds, symbols, bits[w..], t', need - |pending|))
  }

  /** The decoded pixels, with missing ones set to zero. */
  ghost function Pixels(ds: nat, bits: seq<bool>, npix: nat): (p: seq<byte>)
    ensures |p| == npix
  {
    RunLength(ds, [], bits, FRESH, npix);
    ZeroPadded(Run(ds, [], bits, FRESH, npix).out, npix)
  }

  function ZeroPadded(s: seq<byte>, n: nat): (p: seq<byte>)
    requires |s| <= n
    ensures |p| == n
  {
    s + seq(n - |s|, _ => 0)
  }

  lemma {:induction false} RunLength(ds: nat, pending: seq<byte>, bits: seq<bool>, t: Table, need: nat)
    requires Sound(ds, t)
    ensures |Run(ds, pending, bits, t, need).out| <= need
    ensures Run(ds, pending, bits, t, need).why == Filled ==> |Run(ds, pending, bits, t, need).out| == need
    decreases |bits|
  {
    if |pending| < need && CodeWidth(ds, t) <= |bits| {
      var w := CodeWidth(ds, t);
      match Step(ds, t, Value(bits[..w]))
      case Stop(why) =>
      case Next(t', symbols) => RunLength(ds, symbols, bits[w..], t', need - |pending|);
    }
  }
}
