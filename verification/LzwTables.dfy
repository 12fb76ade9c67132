/** How the decoder's prefix and suffix tables and its reversal stack stand for the dictionary of module Lzw. */
module LzwTables {
  import opened BitStrings
  import opened Lzw

  /** Codes that may stand in the prefix table below c: root codes and earlier entries, never clear or end. */
  predicate Earlier(ds: nat, p: int, c: int) {
    0 <= p < Clear(ds) || Clear(ds) + 2 <= p < c
  }

  /** The arrays represent the dictionary t: each live entry is its prefix's string and one more symbol. */
  ghost predicate Represents(ds: nat, t: Table, prefix: seq<int>, suffix: seq<byte>) {
    && Sound(ds, t)
    && |prefix| == |suffix| == MAX_STACK_SIZE
    && Available(ds, t) <= MAX_STACK_SIZE
    && (forall c :: 0 <= c < Clear(ds) ==> suffix[c] == c % 256)
    && (forall c :: Clear(ds) + 2 <= c < Available(ds, t) ==> LinkOk(ds, t.entries, prefix, suffix, c))
  }

  ghost predicate LinkOk(ds: nat, entries: seq<seq<byte>>, prefix: seq<int>, suffix: seq<byte>, c: nat)
    requires Clear(ds) + 2 <= c < Clear(ds) + 2 + |entries| && c < |prefix| && c < |suffix|
  {
    && Earlier(ds, prefix[c], c)
    && entries[c - Clear(ds) - 2] == Str(ds, entries, prefix[c]) + [suffix[c]]
  }

  /** The stack's symbols in the order they are popped. */
  function Popped(stack: seq<byte>): (s: seq<byte>)
    ensures |s| == |stack|
  {
    if stack == [] then [] else [stack[|stack| - 1]] + Popped(stack[..|stack| - 1])
  }

  lemma PushPops(stack: seq<byte>, b: byte)
    ensures Popped(stack + [b]) == [b] + Popped(stack)
  {
    assert (stack + [b])[..|stack|] == stack;
  }

  /** Stale arrays become the empty dictionary once the root codes are filled in. */
  lemma RepresentsFresh(ds: nat, prefix: seq<int>, suffix: seq<byte>)
    requires Clear(ds) <= 2048 && |prefix| == |suffix| == MAX_STACK_SIZE
    requires forall c :: 0 <= c < Clear(ds) ==> suffix[c] == c % 256
    ensures Represents(ds, FRESH, prefix, suffix)
  {
  }

  /** Adding an entry for the last code's string keeps the arrays in step with the dictionary. */
  lemma AddEntry(ds: nat, t: Table, prefix: seq<int>, suffix: seq<byte>, first: byte, code: int)
    requires Represents(ds, t, prefix, suffix)
    requires t.last != -1 && Available(ds, t) < MAX_STACK_SIZE
    requires Known(ds, t.entries, code) || code == Available(ds, t)
    ensures var a := Available(ds, t);
            var t' := Table(t.entries + [Str(ds, t.entries, t.last) + [first]], code);
            Represents(ds, t', prefix[a := t.last], suffix[a := first])
  {
    var a := Available(ds, t);
    var entries := t.entries + [Str(ds, t.entries, t.last) + [first]];
    var prefix', suffix' := prefix[a := t.last], suffix[a := first];
    LengthBound(ds, t, t.last);
    assert Sound(ds, Table(entries, code));
    forall c | Clear(ds) + 2 <= c < a + 1
      ensures LinkOk(ds, entries, prefix', suffix', c)
    {
      if c < a { assert LinkOk(ds, t.entries, prefix, suffix, c); }
    }
  }

  /** Strings are short enough for the stack. */
  lemma LengthBound(ds: nat, t: Table, c: int)
    requires Sound(ds, t) && Known(ds, t.entries, c)
    ensures 1 <= |Str(ds, t.entries, c)| <= |t.entries| + 1
  {
  }

  /** One unwinding step: the last symbol of a string and the code of the string before it. */
  lemma Unlink(ds: nat, t: Table, prefix: seq<int>, suffix: seq<byte>, c: int)
    requires Represents(ds, t, prefix, suffix)
    requires Known(ds, t.entries, c) && c > Clear(ds)
    ensures c < |prefix| && c < |suffix| && prefix[c] < c && Known(ds, t.entries, prefix[c])
    ensures Str(ds, t.entries, c) == Str(ds, t.entries, prefix[c]) + [suffix[c]] && Str(ds, t.entries, prefix[c]) != []
  {
    assert LinkOk(ds, t.entries, prefix, suffix, c);
  }

  lemma {:induction false} AndBelow(x: nat, k: nat)
    requires x < Pow2(k)
    ensures And(x, Pow2(k) - 1) == x
  {
    if k > 0 {
      AndBelow(x / 2, k - 1);
      AndOddMask(x, Pow2(k - 1));
    }
  }

  lemma {:induction false} AndAtPower(k: nat)
    ensures And(Pow2(k), Pow2(k) - 1) == 0
  {
    if k > 0 {
      AndAtPower(k - 1);
      AndOddMask(Pow2(k), Pow2(k - 1));
    }
  }

  lemma {:induction false} WidthOfNext(from: nat, available: nat)
    requires from <= MAX_CODE_SIZE
    ensures var w := Width(from, available);
            Width(from, available + 1) == if w < MAX_CODE_SIZE && available + 1 == Pow2(w) then w + 1 else w
    decreases MAX_CODE_SIZE - from
  {
    if from < MAX_CODE_SIZE && Pow2(from) <= available {
      WidthOfNext(from + 1, available);
    }
  }

  /** The source's growth test finds exactly the moment when the width must grow, and keeps the mask exact. */
  lemma GrowthTest(from: nat, available: nat)
    requires from <= MAX_CODE_SIZE && available < MAX_STACK_SIZE
    ensures var w, a := Width(from, available), available + 1;
            if And(a, Pow2(w) - 1) == 0 && a < MAX_STACK_SIZE
            then Width(from, a) == w + 1 && Pow2(w) - 1 + a == Pow2(w + 1) - 1
            else Width(from, a) == w
  {
    var w, a := Width(from, available), available + 1;
    WidthFits(from, available);
    WidthOfNext(from, available);
    PowersUpTo12(w);
    hide Width, And;
    if a < Pow2(w) {
      AndBelow(a, w);
    } else {
      AndAtPower(w);
    }
  }

  lemma PowersUpTo12(w: nat)
    requires w <= MAX_CODE_SIZE
    ensures if w == MAX_CODE_SIZE then Pow2(w) == MAX_STACK_SIZE else Pow2(w) <= 2048
  {
    assert Pow2(11) == 2048;
    if w < MAX_CODE_SIZE { Pow2Monotone(w, 11); }
  }

  /** A code that stands for a string when another one was sent before it since the last clear. */
  ghost predicate DataCode(ds: nat, t: Table, code: nat) {
    Sound(ds, t) && t.last != -1 && (Known(ds, t.entries, code) || code == Available(ds, t))
  }

  /** The string of such a code; the next free code stands for the last string and its first symbol. */
  ghost function Symbols(ds: nat, t: Table, code: nat): (s: seq<byte>)
    requires DataCode(ds, t, code)
    ensures 1 <= |s| <= |t.entries| + 2
  {
    var lastSymbols := Str(ds, t.entries, t.last);
    if code == Available(ds, t) then lastSymbols + [lastSymbols[0]] else Str(ds, t.entries, code)
  }

  /** The dictionary after it: the last string and the first symbol of the new one become an entry. */
  ghost function Grown(ds: nat, t: Table, code: nat): Table
    requires DataCode(ds, t, code)
  {
    Table(t.entries + [Str(ds, t.entries, t.last) + [Symbols(ds, t, code)[0]]], code)
  }

  lemma StepOnData(ds: nat, t: Table, code: nat)
    requires Sound(ds, t) && t.last != -1
    requires code <= Available(ds, t) && code != Clear(ds) && code != Clear(ds) + 1
    ensures DataCode(ds, t, code)
    ensures Step(ds, t, code) == if Available(ds, t) >= MAX_STACK_SIZE then Stop(TableFull)
                                 else Next(Grown(ds, t, code), Symbols(ds, t, code))
  {
  }

  /** The decoding loop's variables beside its arrays. */
  datatype LoopVars = LoopVars(available: nat, codeSize: nat, codeMask: nat, oldCode: int, first: nat)

  /** The variables after an entry was added: the mask test decides whether the width grows. */
  function Grow(v: LoopVars, inCode: int, first: nat): LoopVars {
    var available := v.available + 1;
    if And(available, v.codeMask) == 0 && available < MAX_STACK_SIZE then
      LoopVars(available, v.codeSize + 1, v.codeMask + available, inCode, first)
    else LoopVars(available, v.codeSize, v.codeMask, inCode, first)
  }

  /** The arrays and the variables represent the dictionary t. */
  ghost predicate Mirrors(ds: nat, t: Table, prefix: seq<int>, suffix: seq<byte>, v: LoopVars) {
    && Represents(ds, t, prefix, suffix)
    && v.available == Available(ds, t)
    && v.codeSize == CodeWidth(ds, t)
    && v.codeMask == Pow2(v.codeSize) - 1
    && v.oldCode == t.last
    && (t.last != -1 ==> v.first % 256 == Str(ds, t.entries, t.last)[0])
  }

  /** The stack pops exactly the symbols s. */
  ghost predicate Holds(stack: seq<byte>, top: nat, s: seq<byte>) {
    top <= |stack| && Popped(stack[..top]) == s
  }

  method Push(pixelStack: array<byte>, top0: nat, b: byte, ghost s: seq<byte>) returns (top: nat)
    requires top0 < pixelStack.Length && Holds(pixelStack[..], top0, s)
    modifies pixelStack
    ensures top == top0 + 1 && Holds(pixelStack[..], top, [b] + s)
  {
    ghost var before := pixelStack[..][..top0];
    pixelStack[top0] := b;
    top := top0 + 1;
    assert pixelStack[..][..top] == before + [b];
    PushPops(before, b);
  }

  method Store<T>(a: array<T>, i: nat, x: T)
    requires i < a.Length
    modifies a
    ensures a[..] == old(a[..])[i := x]
  {
    a[i] := x;
  }

  /**
   * Follows the prefixes of a code and stacks its symbols, all but the first, so that they pop in order.
   * The stack never holds more than available - clear symbols.
   */
  method Unwind(ds: nat, ghost t: Table, prefix: array<int>, suffix: array<byte>, pixelStack: array<byte>,
                inCode: nat, v: LoopVars) returns (top: nat, first: byte)
    requires Mirrors(ds, t, prefix[..], suffix[..], v) && DataCode(ds, t, inCode)
    requires pixelStack.Length == MAX_STACK_SIZE + 1 && pixelStack != suffix
    modifies pixelStack
    ensures first == Symbols(ds, t, inCode)[0]
    ensures Holds(pixelStack[..], top, Symbols(ds, t, inCode)[1..])
    ensures top + 1 <= v.available - Clear(ds) <= MAX_STACK_SIZE
  {
    hide *;
    ghost var s := Symbols(ds, t, inCode);
    UnwindStart(ds, t, prefix[..], suffix[..], inCode, v);
    NothingHeld(pixelStack[..]);
    var code: int := inCode;
    top := 0;
    if code == v.available {
      top := Push(pixelStack, top, v.first % 256, []);
      code := v.oldCode;
    }
    assert s[|s| - top..] == if inCode == v.available then [v.first % 256] + [] else [];
    while code > Shl(1, ds)
      invariant Represents(ds, t, prefix[..], suffix[..])
      invariant Known(ds, t.entries, code) && top < |s|
      invariant Str(ds, t.entries, code) == s[..|s| - top]
      invariant Holds(pixelStack[..], top, s[|s| - top..])
      decreases code
    {
      Unlink(ds, t, prefix[..], suffix[..], code);
      SplitLast(s, |s| - top, Str(ds, t.entries, prefix[code]), suffix[code]);
      top := Push(pixelStack, top, suffix[code], s[|s| - top..]);
      code := prefix[code];
    }
    RootSymbol(ds, t, prefix[..], suffix[..], code);
    first := suffix[code];
    assert s[..|s| - top] == [first];
  }

  lemma HoldsPops(stack: seq<byte>, top: nat, s: seq<byte>)
    requires Holds(stack, top, s)
    ensures |s| == top
    ensures top > 0 ==> top <= |stack| && s[0] == stack[top - 1] && Holds(stack, top - 1, s[1..])
  {
    if top > 0 { assert stack[..top][..top - 1] == stack[..top - 1]; }
  }

  lemma MirrorsWidth(ds: nat, t: Table, prefix: seq<int>, suffix: seq<byte>, v: LoopVars)
    requires Mirrors(ds, t, prefix, suffix, v)
    ensures Sound(ds, t) && v.codeSize == CodeWidth(ds, t) >= ds + 1 && v.codeMask == Pow2(v.codeSize) - 1
    ensures ds <= 11 ==> v.codeSize <= MAX_CODE_SIZE
  {
  }

  lemma NothingHeld(stack: seq<byte>)
    ensures Holds(stack, 0, [])
  {
  }

  /** Where unwinding starts: at the code itself, or at the last code with one symbol pushed already. */
  lemma UnwindStart(ds: nat, t: Table, prefix: seq<int>, suffix: seq<byte>, code: nat, v: LoopVars)
    requires Mirrors(ds, t, prefix, suffix, v) && DataCode(ds, t, code)
    ensures |prefix| == |suffix| == MAX_STACK_SIZE && Represents(ds, t, prefix, suffix)
    ensures Shl(1, ds) == Clear(ds)
    ensures var s := Symbols(ds, t, code);
            && |s| <= v.available - Clear(ds) <= MAX_STACK_SIZE
            && if code == v.available
               then Known(ds, t.entries, v.oldCode) && s == Str(ds, t.entries, v.oldCode) + [v.first % 256] && |s| > 1
               else Known(ds, t.entries, code) && s == Str(ds, t.entries, code)
  {
    ShlOne(ds);
  }

  /** Unwinding ends at a root code, whose suffix is the string's first symbol. */
  lemma RootSymbol(ds: nat, t: Table, prefix: seq<int>, suffix: seq<byte>, c: int)
    requires Represents(ds, t, prefix, suffix) && Known(ds, t.entries, c) && c <= Shl(1, ds)
    ensures 0 <= c < |suffix| && Str(ds, t.entries, c) == [suffix[c]]
  {
    ShlOne(ds);
  }

  lemma SplitLast(s: seq<byte>, n: nat, front: seq<byte>, b: byte)
    requires n <= |s| && s[..n] == front + [b] && front != []
    ensures n >= 2 && front == s[..n - 1] && [b] + s[n..] == s[n - 1..]
  {
    assert n == |front| + 1;
    assert s[n - 1] == s[..n][n - 1] == b;
  }

  /** Adding an entry, whatever the width: arrays and variables go on mirroring the dictionary. */
  lemma MirrorsGrown(ds: nat, t: Table, prefix: seq<int>, suffix: seq<byte>, v: LoopVars, code: nat)
    requires ds <= 11 && Mirrors(ds, t, prefix, suffix, v)
    requires DataCode(ds, t, code) && v.available < MAX_STACK_SIZE
    ensures var first := Symbols(ds, t, code)[0];
            Mirrors(ds, Grown(ds, t, code), prefix[v.available := v.oldCode], suffix[v.available := first],
                    Grow(v, code, first))
  {
    hide And, Width, Pow2, Represents;
    AddEntry(ds, t, prefix, suffix, Symbols(ds, t, code)[0], code);
    GrowthTest(ds + 1, v.available);
    FirstOfGrown(ds, t, code);
  }

  lemma FirstOfGrown(ds: nat, t: Table, code: nat)
    requires DataCode(ds, t, code)
    ensures var t' := Grown(ds, t, code);
            Sound(ds, t') && Str(ds, t'.entries, code) == Symbols(ds, t, code)
  {
    LengthBound(ds, t, t.last);
  }

  /** The new table entry, and the width and mask for the next code. */
  method EnterString(prefix: array<int>, suffix: array<byte>, inCode: nat, v: LoopVars, first: byte)
    returns (v': LoopVars)
    requires v.available < prefix.Length && v.available < suffix.Length
    modifies prefix, suffix
    ensures prefix[..] == old(prefix[..])[v.available := v.oldCode]
    ensures suffix[..] == old(suffix[..])[v.available := first]
    ensures v' == Grow(v, inCode, first)
  {
    var available, codeSize, codeMask := v.available, v.codeSize, v.codeMask;
    Store(prefix, available, v.oldCode);
    Store(suffix, available, first);
    available := available + 1;
    if And(available, codeMask) == 0 && available < MAX_STACK_SIZE {
      codeSize := codeSize + 1;
      codeMask := codeMask + available;
    }
    v' := LoopVars(available, codeSize, codeMask, inCode, first);
  }

  /** The first code after a clear: its suffix is stacked, and it becomes the old code. */
  method FirstCode(suffix: array<byte>, pixelStack: array<byte>, code: nat, v: LoopVars)
    returns (top: nat, v': LoopVars)
    requires code < suffix.Length && 0 < pixelStack.Length && pixelStack != suffix
    modifies pixelStack
    ensures Holds(pixelStack[..], top, [suffix[code]])
    ensures v' == v.(oldCode := code, first := code)
  {
    NothingHeld(pixelStack[..]);
    top := Push(pixelStack, 0, suffix[code], []);
    v' := v.(oldCode := code, first := code);
  }

  /** A data code after another one: stacks its string and adds an entry for the string before it. */
  method AddString(ds: nat, ghost t: Table, prefix: array<int>, suffix: array<byte>, pixelStack: array<byte>,
                   inCode: nat, v: LoopVars) returns (stop: bool, top: nat, v': LoopVars)
    requires ds <= 11 && Mirrors(ds, t, prefix[..], suffix[..], v) && DataCode(ds, t, inCode)
    requires pixelStack.Length == MAX_STACK_SIZE + 1 && pixelStack != suffix
    modifies prefix, suffix, pixelStack
    ensures stop == (v.available >= MAX_STACK_SIZE)
    ensures !stop ==>
              && Mirrors(ds, Grown(ds, t, inCode), prefix[..], suffix[..], v')
              && Holds(pixelStack[..], top, Symbols(ds, t, inCode))
  {
    assert prefix.Length == suffix.Length == MAX_STACK_SIZE;
    hide *;
    var first: byte;
    top, first := Unwind(ds, t, prefix, suffix, pixelStack, inCode, v);
    stop, v' := v.available >= MAX_STACK_SIZE, v;
    if stop { return; }
    ghost var s := Symbols(ds, t, inCode);
    top := Push(pixelStack, top, first, s[1..]);
    assert [first] + s[1..] == s;
    MirrorsGrown(ds, t, prefix[..], suffix[..], v, inCode);
    v' := EnterString(prefix, suffix, inCode, v, first);
  }

  /**
   * Interprets one code on the arrays: stops on exactly the codes on which the dictionary decoder stops;
   * otherwise the arrays represent the dictionary's next table and the stack holds the code's symbols.
   */
  method InterpretCode(ds: nat, ghost t: Table, prefix: array<int>, suffix: array<byte>, pixelStack: array<byte>,
                       code: nat, v: LoopVars) returns (stop: bool, top: nat, v': LoopVars)
    requires 2 <= ds <= 11 && Mirrors(ds, t, prefix[..], suffix[..], v)
    requires pixelStack.Length == MAX_STACK_SIZE + 1 && pixelStack != suffix
    requires Step(ds, t, code) != Stop(BadFirst)
    modifies prefix, suffix, pixelStack
    ensures stop == Step(ds, t, code).Stop?
    ensures !stop ==> Mirrors(ds, Step(ds, t, code).table, prefix[..], suffix[..], v')
    ensures !stop ==> Holds(pixelStack[..], top, Step(ds, t, code).symbols)
  {
    var clear, endOfInformation := Shl(1, ds), Shl(1, ds) + 1;
    ShlOne(ds);
    stop, top, v' := false, 0, v;
    if code > v.available || code == endOfInformation {
      stop := true;
      return;
    }
    if code == clear {
      var codeSize := ds + 1;
      v' := v.(codeSize := codeSize, codeMask := Shl(1, codeSize) - 1, available := clear + 2, oldCode := -1);
      ShlOne(codeSize);
      FirstWidth(ds);
      RepresentsFresh(ds, prefix[..], suffix[..]);
      return;
    }
    if v.oldCode == -1 {
      top, v' := FirstCode(suffix, pixelStack, code, v);
      return;
    }
    StepOnData(ds, t, code);
    hide *;
    stop, top, v' := AddString(ds, t, prefix, suffix, pixelStack, code, v);
  }

  lemma {:induction false} ShlOne(n: nat)
    ensures Shl(1, n) == Pow2(n)
  {
    if n > 0 { ShlOne(n - 1); }
  }

  /** After a clear one bit more than the data size is enough. */
  lemma FirstWidth(ds: nat)
    requires 2 <= ds <= 11
    ensures Width(ds + 1, Clear(ds) + 2) == ds + 1
    ensures Clear(ds) <= 2048
  {
    Pow2Monotone(2, ds);
    Pow2Monotone(ds, 11);
    assert Pow2(2) == 4 && Pow2(11) == 2048;
  }
}
