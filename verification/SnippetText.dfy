/** The snippet list's one-line descriptions: runs of control characters are shown as one space. */
module SnippetText {

  const MARK: char := '\U{0001}'

  predicate Control(c: char) {
    1 <= c as int < 32
  }

  ghost predicate Plain(s: string) {
    forall i :: 0 <= i < |s| ==> s[i] as int == 0 || s[i] as int >= 32
  }

  ghost predicate AllControl(s: string) {
    forall i :: 0 <= i < |s| ==> 1 <= s[i] as int <= 31
  }

  /** One pass over the text; inRun says that the previous character was a control character. */
  function Collapse(s: string, inRun: bool := false): string {
    if s == [] then []
    else if Control(s[0]) then (if inRun then [] else " ") + Collapse(s[1..], true)
    else [s[0]] + Collapse(s[1..])
  }

  /** Whether the pass is inside a run after s. */
  function EndsInRun(s: string, inRun: bool := false): bool {
    if s == [] then inRun else Control(s[|s| - 1])
  }

  /** The next position at or after from with a control character, or the end. */
  function NextControl(s: string, from: nat): (i: nat)
    requires from <= |s|
    ensures from <= i <= |s| && (i < |s| ==> Control(s[i]))
    ensures forall j :: from <= j < i ==> !Control(s[j])
    decreases |s| - from
  {
    if from == |s| || Control(s[from]) then from else NextControl(s, from + 1)
  }

  predicate PairAt(s: string, i: nat) {
    i + 1 < |s| && s[i] == MARK && s[i + 1] == MARK
  }

  /** The first position with two marks in a row, or the end. */
  function NextPair(s: string, from: nat := 0): (i: nat)
    requires from <= |s|
    ensures from <= i <= |s| && (i < |s| ==> PairAt(s, i))
    ensures forall j :: from <= j < i ==> !PairAt(s, j)
    decreases |s| - from
  {
    if from == |s| || PairAt(s, from) then from else NextPair(s, from + 1)
  }

  /** The next position at or after from with a mark, or the end. */
  function NextMark(s: string, from: nat): (i: nat)
    requires from <= |s|
    ensures from <= i <= |s| && (i < |s| ==> s[i] == MARK)
    ensures forall j :: from <= j < i ==> s[j] != MARK
    decreases |s| - from
  {
    if from == |s| || s[from] == MARK then from else NextMark(s, from + 1)
  }

  /** The description as shown: mark, merge pairs until none is left, turn marks into spaces. */
  method Compress(description: string) returns (s: string)
    ensures s == Collapse(description)
  {
    s := MarkControls(description);
    while true
      invariant Collapse(s) == Collapse(description)
      invariant forall i :: 0 <= i < |s| && Control(s[i]) ==> s[i] == MARK
      decreases |s|
    {
      var position := NextPair(s);
      if position < |s| {
        MergePair(s, position);
        s := s[..position] + [MARK] + s[position + 2..];
      } else {
        NoPairs(s);
        s := ReplaceMarks(s);
        break;
      }
    }
  }

  method MarkControls(description: string) returns (s: string)
    ensures Collapse(s) == Collapse(description)
    ensures |s| == |description|
    ensures forall i :: 0 <= i < |s| ==> s[i] == if Control(description[i]) then MARK else description[i]
  {
    s := description;
    var next := NextControl(s, 0);
    while next < |s|
      invariant |s| == |description| && next <= |s|
      invariant next < |s| ==> Control(s[next])
      invariant Collapse(s) == Collapse(description)
      invariant forall i :: 0 <= i < next ==> s[i] == if Control(description[i]) then MARK else description[i]
      invariant forall i :: next <= i < |s| ==> s[i] == description[i]
      decreases |s| - next
    {
      MarkOne(s, next);
      s := s[next := MARK];
      next := next + 1;
      next := NextControl(s, next);
    }
  }

  method ReplaceMarks(value: string) returns (s: string)
    ensures |s| == |value| && forall i :: 0 <= i < |s| ==> s[i] == if value[i] == MARK then ' ' else value[i]
  {
    s := value;
    var next := NextMark(s, 0);
    while next < |s|
      invariant |s| == |value| && next <= |s| && (next < |s| ==> s[next] == MARK)
      invariant forall i :: 0 <= i < next ==> s[i] == if value[i] == MARK then ' ' else value[i]
      invariant forall i :: next <= i < |s| ==> s[i] == value[i]
      decreases |s| - next
    {
      s := s[..next] + " " + s[next + 1..];
      next := next + 1;
      next := NextMark(s, next);
    }
  }

  /** The pass may be cut anywhere. */
  lemma {:induction false} CollapseConcat(a: string, b: string, inRun: bool)
    ensures Collapse(a + b, inRun) == Collapse(a, inRun) + Collapse(b, EndsInRun(a, inRun))
  {
    if a == [] {
      assert a + b == b;
    } else {
      assert (a + b)[1..] == a[1..] + b;
      CollapseConcat(a[1..], b, Control(a[0]));
    }
  }

  lemma MarkOne(s: string, i: nat)
    requires i < |s| && Control(s[i])
    ensures Collapse(s[i := MARK]) == Collapse(s)
  {
    var a, b := s[..i], s[i + 1..];
    assert s == a + ([s[i]] + b) && s[i := MARK] == a + ([MARK] + b);
    CollapseConcat(a, [s[i]] + b, false);
    CollapseConcat(a, [MARK] + b, false);
    assert ([s[i]] + b)[1..] == b == ([MARK] + b)[1..];
  }

  lemma MergePair(s: string, i: nat)
    requires PairAt(s, i)
    ensures Collapse(s[..i] + [MARK] + s[i + 2..]) == Collapse(s)
  {
    var a, b := s[..i], s[i + 2..];
    assert s == a + ([MARK, MARK] + b) && a + [MARK] + b == a + ([MARK] + b);
    CollapseConcat(a, [MARK, MARK] + b, false);
    CollapseConcat(a, [MARK] + b, false);
    assert ([MARK, MARK] + b)[1..] == [MARK] + b && ([MARK] + b)[1..] == b;
  }

  /** With single marks only, the pass just replaces them. */
  lemma {:induction false} NoPairs(s: string)
    requires forall i :: 0 <= i < |s| && Control(s[i]) ==> s[i] == MARK
    requires forall i :: 0 <= i < |s| ==> !PairAt(s, i)
    ensures |Collapse(s)| == |s|
    ensures forall i :: 0 <= i < |s| ==> Collapse(s)[i] == if s[i] == MARK then ' ' else s[i]
  {
    if s != [] {
      var t := s[1..];
      assert forall i :: 0 <= i < |t| ==> (PairAt(t, i) <==> PairAt(s, i + 1));
      NoPairs(t);
      assert !PairAt(s, 0);
      if Control(s[0]) && t != [] {
        assert Collapse(t, true) == Collapse(t);
      }
    }
  }

  lemma {:induction false} PlainKept(s: string)
    requires Plain(s)
    ensures Collapse(s) == s
  {
    if s != [] {
      PlainKept(s[1..]);
    }
  }

  lemma {:induction false} RunVanishes(run: string)
    requires AllControl(run)
    ensures Collapse(run, true) == []
  {
    if run != [] {
      RunVanishes(run[1..]);
    }
  }

  lemma RunIsSpace(run: string)
    requires AllControl(run) && run != []
    ensures Collapse(run) == " "
  {
    RunVanishes(run[1..]);
  }

  /**
   * What the pass means: a maximal run of control characters anywhere in the text is one space, whatever stands
   * before and after it; and text without control characters is kept (PlainKept).
   */
  lemma MaximalRunIsOneSpace(a: string, run: string, b: string)
    requires AllControl(run) && run != []
    requires a == [] || a[|a| - 1] as int == 0 || a[|a| - 1] as int >= 32
    requires b == [] || b[0] as int == 0 || b[0] as int >= 32
    ensures Collapse(a + run + b) == Collapse(a) + " " + Collapse(b)
  {
    assert (a + run)[|a + run| - 1] == run[|run| - 1];
    assert EndsInRun(a + run) && !EndsInRun(a);
    assert Collapse(b, true) == Collapse(b);
    hide *;
    CollapseConcat(a + run, b, false);
    CollapseConcat(a, run, false);
    RunIsSpace(run);
  }

  /** Nothing but printable characters is left, so compressing again changes nothing. */
  lemma {:induction false} NothingLeft(s: string, inRun: bool)
    ensures Plain(Collapse(s, inRun)) && Collapse(Collapse(s, inRun)) == Collapse(s, inRun)
  {
    if s != [] {
      NothingLeft(s[1..], Control(s[0]));
    }
    PlainKept(Collapse(s, inRun));
  }
}
