/** The order in which the rows of an image arrive: the decoder's pass counter against Appendix E of GIF89a. */
module Interlace {
  import opened BitStrings

  /** The variables of the row loop. */
  datatype Schedule = Schedule(pass: nat, inc: nat, iline: nat)

  const START := Schedule(1, 8, 0)

  /** At most one step to the next pass. */
  function TurnPass(ih: int, s: Schedule): Schedule {
    if s.iline < ih then s
    else
      match s.pass + 1
      case 2 => Schedule(2, s.inc, 4)
      case 3 => Schedule(3, 4, 2)
      case 4 => Schedule(4, 2, 1)
      case p => s.(pass := p)
  }

  function NextSchedule(ih: int, s: Schedule): Schedule {
    var u := TurnPass(ih, s);
    u.(iline := u.iline + u.inc)
  }

  /** The loop's variables before step i. */
  function ScheduleAt(ih: int, i: nat): Schedule {
    if i == 0 then START else NextSchedule(ih, ScheduleAt(ih, i - 1))
  }

  /** The row the decoder fills in step i. */
  function Row(interlace: bool, ih: int, i: nat): nat {
    if interlace then TurnPass(ih, ScheduleAt(ih, i)).iline else i
  }

  /** Every step-th row from `from` on. */
  function Every(from: nat, step: nat, ih: int): (rows: seq<nat>)
    requires step > 0
    decreases ih - from
  {
    if from >= ih then [] else [from] + Every(from + step, step, ih)
  }

  function Pass2On(ih: int): seq<nat> { Every(4, 8, ih) + Pass3On(ih) }
  function Pass3On(ih: int): seq<nat> { Every(2, 4, ih) + Every(1, 2, ih) }

  /** The rows in the order of Appendix E. */
  function AppendixE(ih: int): seq<nat> { Every(0, 8, ih) + Pass2On(ih) }

  /** Where the four passes start in that order. */
  function Pass2Start(ih: int): nat { |Every(0, 8, ih)| }
  function Pass3Start(ih: int): nat { Pass2Start(ih) + |Every(4, 8, ih)| }
  function Pass4Start(ih: int): nat { Pass3Start(ih) + |Every(2, 4, ih)| }

  /** The step at which Appendix E sends a row. */
  function StepOf(ih: int, row: nat): nat {
    if row % 8 == 0 then row / 8
    else if row % 8 == 4 then Pass2Start(ih) + row / 8
    else if row % 4 == 2 then Pass3Start(ih) + row / 4
    else Pass4Start(ih) + row / 2
  }

  /** The rows Appendix E still has to send when the loop's variables are s. */
  function Remaining(ih: int, s: Schedule): seq<nat> {
    match s.pass
    case 1 => Every(s.iline, 8, ih) + Pass2On(ih)
    case 2 => Every(s.iline, 8, ih) + Pass3On(ih)
    case 3 => Every(s.iline, 4, ih) + Every(1, 2, ih)
    case _ => Every(s.iline, 2, ih)
  }

  predicate InPass(s: Schedule) {
    1 <= s.pass <= 4 && s.inc == match s.pass case 1 => 8 case 2 => 8 case 3 => 4 case _ => 2
  }

  lemma RemainingStep(ih: int, s: Schedule)
    requires ih >= 5 && InPass(s) && Remaining(ih, s) != []
    ensures InPass(NextSchedule(ih, s))
    ensures Remaining(ih, s) == [TurnPass(ih, s).iline] + Remaining(ih, NextSchedule(ih, s))
  {
    RemainingTurn(ih, s);
    RemainingNext(ih, TurnPass(ih, s));
  }

  /** A pass that has no rows left is followed by one that has. */
  lemma RemainingTurn(ih: int, s: Schedule)
    requires ih >= 5 && InPass(s) && Remaining(ih, s) != []
    ensures var u := TurnPass(ih, s);
            InPass(u) && u.iline < ih && Remaining(ih, s) == Remaining(ih, u)
  {
    if s.iline >= ih {
      NoneLeft(s.iline, s.inc, ih);
      hide Every;
      match s.pass
      case 1 => assert [] + Pass2On(ih) == Pass2On(ih);
      case 2 => assert [] + Pass3On(ih) == Pass3On(ih);
      case 3 => assert [] + Every(1, 2, ih) == Every(1, 2, ih);
      case _ =>
    }
  }

  lemma NoneLeft(from: nat, step: nat, ih: int)
    requires step > 0 && from >= ih
    ensures Every(from, step, ih) == []
  {
  }

  lemma RemainingNext(ih: int, u: Schedule)
    requires InPass(u) && u.iline < ih
    ensures Remaining(ih, u) == [u.iline] + Remaining(ih, u.(iline := u.iline + u.inc))
  {
    hide Pass2On, Pass3On, Every;
    EveryFirst(u.iline, u.inc, ih);
  }

  lemma EveryFirst(from: nat, step: nat, ih: int)
    requires step > 0 && from < ih
    ensures Every(from, step, ih) == [from] + Every(from + step, step, ih)
  {
  }

  lemma {:induction false} RemainingAt(ih: int, i: nat)
    requires ih >= 5 && i <= |AppendixE(ih)|
    ensures InPass(ScheduleAt(ih, i)) && Remaining(ih, ScheduleAt(ih, i)) == AppendixE(ih)[i..]
  {
    if i > 0 {
      RemainingAt(ih, i - 1);
      RemainingStep(ih, ScheduleAt(ih, i - 1));
    }
  }

  lemma {:induction false} EveryElement(from: nat, step: nat, ih: int, k: nat)
    requires step > 0
    ensures k < |Every(from, step, ih)| <==> from + k * step < ih
    ensures k < |Every(from, step, ih)| ==> Every(from, step, ih)[k] == from + k * step
    decreases k
  {
    assert k * step >= 0;
    if from < ih && k > 0 {
      EveryElement(from + step, step, ih, k - 1);
      assert k * step == step + (k - 1) * step;
    }
  }

  lemma {:induction false} EveryLength(from: nat, step: nat, ih: int)
    requires step == 8 || step == 4 || step == 2
    ensures |Every(from, step, ih)| == if from < ih then (ih - from + step - 1) / step else 0
    decreases ih - from
  {
    if from < ih { EveryLength(from + step, step, ih); }
  }

  lemma AppendixELength(ih: nat)
    ensures |AppendixE(ih)| == ih
  {
    hide Every;
    EveryLength(0, 8, ih);
    EveryLength(4, 8, ih);
    EveryLength(2, 4, ih);
    EveryLength(1, 2, ih);
    Ceilings(ih);
  }

  lemma Ceilings(n: nat)
    ensures n == (n + 7) / 8 + (n + 3) / 8 + (n + 1) / 4 + n / 2
  {
    var q, r := n / 8, n % 8;
    assert (n + 7) / 8 == q + (r + 7) / 8;
    assert (n + 3) / 8 == q + (r + 3) / 8;
    assert (n + 1) / 4 == 2 * q + (r + 1) / 4;
    assert n / 2 == 4 * q + r / 2;
  }

  /** Element k of each pass, and its place in the whole order. */
  lemma Pass1Element(ih: nat, k: nat)
    ensures k < Pass2Start(ih) <==> 8 * k < ih
    ensures 8 * k < ih ==> k < |AppendixE(ih)| && AppendixE(ih)[k] == 8 * k
  {
    hide Every;
    EveryElement(0, 8, ih, k);
  }

  lemma Pass2Element(ih: nat, k: nat)
    ensures Pass2Start(ih) + k < Pass3Start(ih) <==> 8 * k + 4 < ih
    ensures 8 * k + 4 < ih ==>
              Pass2Start(ih) + k < |AppendixE(ih)| && AppendixE(ih)[Pass2Start(ih) + k] == 8 * k + 4
  {
    hide Every;
    EveryElement(4, 8, ih, k);
  }

  lemma Pass3Element(ih: nat, k: nat)
    ensures Pass3Start(ih) + k < Pass4Start(ih) <==> 4 * k + 2 < ih
    ensures 4 * k + 2 < ih ==>
              Pass3Start(ih) + k < |AppendixE(ih)| && AppendixE(ih)[Pass3Start(ih) + k] == 4 * k + 2
  {
    hide Every;
    EveryElement(2, 4, ih, k);
  }

  lemma Pass4Element(ih: nat, k: nat)
    ensures Pass4Start(ih) + k < |AppendixE(ih)| <==> 2 * k + 1 < ih
    ensures 2 * k + 1 < ih ==> AppendixE(ih)[Pass4Start(ih) + k] == 2 * k + 1
  {
    hide Every;
    EveryElement(1, 2, ih, k);
  }

  lemma StepOfPass1(ih: int, k: nat)
    ensures StepOf(ih, 8 * k) == k
  {
    hide Every;
    DivModUnique(8 * k, 8, k, 0);
  }

  lemma StepOfPass2(ih: int, k: nat)
    ensures StepOf(ih, 8 * k + 4) == Pass2Start(ih) + k
  {
    hide Every;
    DivModUnique(8 * k + 4, 8, k, 4);
  }

  lemma StepOfPass3(ih: int, k: nat)
    ensures StepOf(ih, 4 * k + 2) == Pass3Start(ih) + k
  {
    hide Every;
    DivModUnique(4 * k + 2, 4, k, 2);
  }

  lemma StepOfPass4(ih: int, k: nat)
    ensures StepOf(ih, 2 * k + 1) == Pass4Start(ih) + k
  {
    hide Every;
    DivModUnique(2 * k + 1, 2, k, 1);
  }

  /** Every row belongs to one of the passes. */
  lemma {:induction false} PassOf(row: nat) returns (pass: nat, k: nat)
    ensures 1 <= pass <= 4
    ensures row == if pass == 1 then 8 * k else if pass == 2 then 8 * k + 4
                   else if pass == 3 then 4 * k + 2 else 2 * k + 1
  {
    if row >= 8 {
      pass, k := PassOf(row - 8);
      k := k + if pass <= 2 then 1 else if pass == 3 then 2 else 4;
    } else if row == 0 {
      pass, k := 1, 0;
    } else if row == 4 {
      pass, k := 2, 0;
    } else if row == 2 || row == 6 {
      pass, k := 3, if row == 2 then 0 else 1;
    } else {
      pass, k := 4, if row == 1 then 0 else if row == 3 then 1 else if row == 5 then 2 else 3;
    }
  }

  /** StepOf inverts Appendix E on all rows. */
  lemma RowArrives(ih: nat, row: nat)
    requires row < ih
    ensures StepOf(ih, row) < |AppendixE(ih)| && AppendixE(ih)[StepOf(ih, row)] == row
  {
    hide AppendixE, Pass2Start, Pass3Start, Pass4Start, StepOf;
    var pass, k := PassOf(row);
    match pass {
      case 1 => Pass1Element(ih, k); StepOfPass1(ih, k);
      case 2 => Pass2Element(ih, k); StepOfPass2(ih, k);
      case 3 => Pass3Element(ih, k); StepOfPass3(ih, k);
      case _ => Pass4Element(ih, k); StepOfPass4(ih, k);
    }
  }

  lemma StepInverts(ih: nat, i: nat)
    requires i < |AppendixE(ih)|
    ensures AppendixE(ih)[i] < ih && StepOf(ih, AppendixE(ih)[i]) == i
  {
    hide AppendixE, Pass2Start, Pass3Start, Pass4Start, StepOf;
    if i < Pass2Start(ih) {
      Pass1Element(ih, i);
      StepOfPass1(ih, i);
    } else if i < Pass3Start(ih) {
      Pass2Element(ih, i - Pass2Start(ih));
      StepOfPass2(ih, i - Pass2Start(ih));
    } else if i < Pass4Start(ih) {
      Pass3Element(ih, i - Pass3Start(ih));
      StepOfPass3(ih, i - Pass3Start(ih));
    } else {
      Pass4Element(ih, i - Pass4Start(ih));
      StepOfPass4(ih, i - Pass4Start(ih));
    }
  }

  /** The decoder's order is that of Appendix E for every height except 2, 3 and 4. */
  lemma InterlaceOrder(ih: nat, i: nat)
    requires i < ih && !(2 <= ih <= 4)
    ensures i < |AppendixE(ih)| && Row(true, ih, i) == AppendixE(ih)[i]
    ensures ScheduleAt(ih, i).pass <= 4
  {
    AppendixELength(ih);
    if ih >= 5 {
      RemainingAt(ih, i);
      RemainingStep(ih, ScheduleAt(ih, i));
    }
  }

  /** The rows the decoder fills in images 2, 3 or 4 rows high: row 4 lies below the image. */
  lemma SmallHeights()
    ensures Row(true, 2, 0) == 0 && Row(true, 2, 1) == 4
    ensures Row(true, 3, 0) == 0 && Row(true, 3, 1) == 4 && Row(true, 3, 2) == 2
    ensures Row(true, 4, 0) == 0 && Row(true, 4, 1) == 4 && Row(true, 4, 2) == 2 && Row(true, 4, 3) == 1
  {
    assert ScheduleAt(2, 1) == Schedule(1, 8, 8);
    assert ScheduleAt(3, 1) == Schedule(1, 8, 8) && ScheduleAt(3, 2) == Schedule(2, 8, 12);
    assert ScheduleAt(4, 1) == Schedule(1, 8, 8) && ScheduleAt(4, 2) == Schedule(2, 8, 12);
    assert ScheduleAt(4, 3) == Schedule(3, 4, 6);
  }

  /** Exactly when the interlaced rows are a rearrangement of the image's rows in the order of Appendix E. */
  lemma InterlaceCorrectIff(ih: nat)
    ensures |AppendixE(ih)| == ih
    ensures (forall i :: 0 <= i < ih ==> Row(true, ih, i) == AppendixE(ih)[i]) <==> !(2 <= ih <= 4)
  {
    AppendixELength(ih);
    if 2 <= ih <= 4 {
      SmallHeights();
      StepInverts(ih, 1);
      assert Row(true, ih, 1) != AppendixE(ih)[1];
    } else {
      forall i | 0 <= i < ih
        ensures Row(true, ih, i) == AppendixE(ih)[i]
      {
        InterlaceOrder(ih, i);
      }
    }
  }

  /** No row is filled twice, whatever the height. */
  lemma RowsDistinct(interlace: bool, ih: nat, i: nat, j: nat)
    requires i < ih && j < ih && Row(interlace, ih, i) == Row(interlace, ih, j)
    ensures i == j
  {
    if interlace && 2 <= ih <= 4 {
      SmallHeights();
    } else if interlace {
      InterlaceOrder(ih, i);
      InterlaceOrder(ih, j);
      StepInverts(ih, i);
      StepInverts(ih, j);
    }
  }

  /**
   * The step that fills a row, or -1. Every row of the image has one, that of Appendix E if it is interlaced; but at
   * heights 2 to 4 an interlaced image lacks some of its rows, and its second row is put four rows below the first.
   */
  function StepFor(interlace: bool, ih: nat, row: nat): (k: int)
    ensures -1 <= k
  {
    if interlace && 2 <= ih <= 4 then
      if row == 0 then 0 else if row == 4 then 1
      else if row == 2 && ih >= 3 then 2 else if row == 1 && ih == 4 then 3 else -1
    else if row >= ih then -1
    else if interlace then StepOf(ih, row) else row
  }

  /** At every height exactly that step fills the row. */
  lemma StepForFills(interlace: bool, ih: nat, row: nat)
    ensures var k := StepFor(interlace, ih, row);
            if k >= 0 then k < ih && Row(interlace, ih, k) == row
            else forall i :: 0 <= i < ih ==> Row(interlace, ih, i) != row
  {
    hide StepOf;
    if !interlace {
    } else if 2 <= ih <= 4 {
      hide Row;
      SmallHeights();
    } else {
      hide Row;
      RowInterlaced(ih, row);
    }
  }

  lemma RowInterlaced(ih: nat, row: nat)
    requires !(2 <= ih <= 4)
    ensures if row < ih then StepOf(ih, row) < ih && Row(true, ih, StepOf(ih, row)) == row
            else forall i :: 0 <= i < ih ==> Row(true, ih, i) != row
  {
    hide Row, StepOf, AppendixE;
    if row < ih {
      AppendixELength(ih);
      RowArrives(ih, row);
      InterlaceOrder(ih, StepOf(ih, row));
    } else {
      forall i | 0 <= i < ih ensures Row(true, ih, i) != row {
        InterlaceOrder(ih, i);
        StepInverts(ih, i);
      }
    }
  }

  /** The order for an image of 16 rows. */
  lemma SixteenRows()
    ensures AppendixE(16) == [0, 8, 4, 12, 2, 6, 10, 14, 1, 3, 5, 7, 9, 11, 13, 15]
  {
    hide Every;
    EveryTwo(0, 8);
    EveryTwo(4, 8);
    EveryTwo(2, 4);
    EveryTwo(10, 4);
    EveryTwo(1, 2);
    EveryTwo(5, 2);
    EveryTwo(9, 2);
    EveryTwo(13, 2);
    NoneLeft(16, 8, 16);
    NoneLeft(20, 8, 16);
    NoneLeft(18, 4, 16);
    NoneLeft(17, 2, 16);
  }

  lemma EveryTwo(from: nat, step: nat)
    requires step > 0 && from + step < 16
    ensures Every(from, step, 16) == [from, from + step] + Every(from + 2 * step, step, 16)
  {
  }
}
