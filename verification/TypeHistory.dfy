/** What becomes of each row of the user-defined-type editor over a run of edits, and of its type after OK. */
module TypeHistory {
  import opened Sequences
  import opened UserTypeEditors

  /** Where the row at place p stands after an edit, or -1 when the edit deletes it. */
  ghost function PlaceAfter(used: set<UserType?>, types: seq<UserType?>, e: Edit, p: nat): (q: int)
    ensures -1 <= q <= p
  {
    if e.Delete? && e.row < |types| && (types[e.row] == null || types[e.row] !in used) then
      if p == e.row then -1 else if p > e.row then p - 1 else p
    else p
  }

  /** Where the row stands after n edits that stood at place i after a of them, or -1 when it is gone. */
  ghost function Place(used: set<UserType?>, s: Session, edits: seq<Edit>, a: nat, i: nat, n: nat): (p: int)
    requires |s.rows| == |s.types| && a <= n <= |edits|
    ensures -1 <= p <= i
    decreases n
  {
    if n == a then i
    else
      var p := Place(used, s, edits, a, i, n - 1);
      if p < 0 then -1 else PlaceAfter(used, EditedBy(used, s, edits[..n - 1]).types, edits[n - 1], p)
  }

  datatype Field = Name | Definition | Flags

  function Shown(row: Row, f: Field): string {
    match f
    case Name => row.name
    case Definition => row.definition
    case Flags => row.flags
  }

  /** The edit sets this field of the row at place p. */
  predicate Sets(e: Edit, f: Field, p: int) {
    match f
    case Name => e.Rename? && e.row == p
    case Definition => e.Redefine? && e.row == p
    case Flags => e.SetFlags? && e.row == p
  }

  function Text(e: Edit): string {
    match e
    case Rename(_, name) => name
    case Redefine(_, definition) => definition
    case SetFlags(_, flags) => flags
    case _ => ""
  }

  /** Edit k is the last of the edits from a to n that sets the field of the row from place i; a - 1: none does. */
  ghost predicate LastSet(used: set<UserType?>, s: Session, edits: seq<Edit>, a: nat, i: nat, n: nat, f: Field, k: int)
    requires |s.rows| == |s.types| && a <= n <= |edits|
  {
    && a - 1 <= k < n && (k >= a ==> Sets(edits[k], f, Place(used, s, edits, a, i, k)))
    && forall l :: k < l < n ==> !Sets(edits[l], f, Place(used, s, edits, a, i, l))
  }

  lemma EditedLast(used: set<UserType?>, s: Session, edits: seq<Edit>, n: nat)
    requires |s.rows| == |s.types| && 0 < n <= |edits|
    ensures EditedBy(used, s, edits[..n]) == Edited(used, EditedBy(used, s, edits[..n - 1]), edits[n - 1])
  {
    hide Edited;
    assert edits[..n][..n - 1] == edits[..n - 1];
  }

  /** One edit, seen from the row at place p. */
  lemma EditedRow(used: set<UserType?>, s: Session, e: Edit, p: nat, f: Field)
    requires |s.rows| == |s.types| && p < |s.rows| && PlaceAfter(used, s.types, e, p) >= 0
    ensures var r, q := Edited(used, s, e), PlaceAfter(used, s.types, e, p);
            && q < |r.rows| && r.types[q] == s.types[p]
            && Shown(r.rows[q], f) == if Sets(e, f, p) then Text(e) else Shown(s.rows[p], f)
  {
  }

  /**
   * A row that is not deleted keeps its type, and each of its fields is what the last edit that found it at its place
   * said, or what it was when no edit did.
   */
  lemma {:induction false} RowHistory(used: set<UserType?>, s: Session, edits: seq<Edit>, a: nat, i: nat, n: nat,
                                      f: Field, k: int)
    requires |s.rows| == |s.types| && a <= n <= |edits| && i < |EditedBy(used, s, edits[..a]).rows|
    requires Place(used, s, edits, a, i, n) >= 0 && LastSet(used, s, edits, a, i, n, f, k)
    ensures var p, was, now := Place(used, s, edits, a, i, n), EditedBy(used, s, edits[..a]),
              EditedBy(used, s, edits[..n]);
            && p < |now.rows| && now.types[p] == was.types[i]
            && Shown(now.rows[p], f) == if k >= a then Text(edits[k]) else Shown(was.rows[i], f)
    decreases n
  {
    hide *;
    PlaceSteps(used, s, edits, a, i, n);
    LastSetSteps(used, s, edits, a, i, n, f, k);
    if n > a {
      var p := Place(used, s, edits, a, i, n - 1);
      var k' := k;
      if k == n - 1 { k' := EarlierSet(used, s, edits, a, i, n - 1, f); }
      RowHistory(used, s, edits, a, i, n - 1, f, k');
      EditedLast(used, s, edits, n);
      EditedRow(used, EditedBy(used, s, edits[..n - 1]), edits[n - 1], p, f);
    }
  }

  lemma PlaceSteps(used: set<UserType?>, s: Session, edits: seq<Edit>, a: nat, i: nat, n: nat)
    requires |s.rows| == |s.types| && a <= n <= |edits| && Place(used, s, edits, a, i, n) >= 0
    ensures if n == a then Place(used, s, edits, a, i, n) == i
            else
              var p := Place(used, s, edits, a, i, n - 1);
              p >= 0 && Place(used, s, edits, a, i, n) ==
                        PlaceAfter(used, EditedBy(used, s, edits[..n - 1]).types, edits[n - 1], p)
  {
    hide PlaceAfter;
  }

  lemma LastSetSteps(used: set<UserType?>, s: Session, edits: seq<Edit>, a: nat, i: nat, n: nat, f: Field, k: int)
    requires |s.rows| == |s.types| && a <= n <= |edits| && LastSet(used, s, edits, a, i, n, f, k)
    ensures a - 1 <= k < n
    ensures n > a ==> (k == n - 1 <==> Sets(edits[n - 1], f, Place(used, s, edits, a, i, n - 1)))
    ensures a <= k < n - 1 || k < a < n ==> LastSet(used, s, edits, a, i, n - 1, f, k)
  {
    hide Sets, Place;
  }

  lemma {:induction false} EarlierSet(used: set<UserType?>, s: Session, edits: seq<Edit>, a: nat, i: nat, n: nat,
                                      f: Field) returns (k: int)
    requires |s.rows| == |s.types| && a <= n <= |edits|
    ensures LastSet(used, s, edits, a, i, n, f, k)
    decreases n
  {
    if n == a {
      k := a - 1;
    } else if Sets(edits[n - 1], f, Place(used, s, edits, a, i, n - 1)) {
      k := n - 1;
    } else {
      k := EarlierSet(used, s, edits, a, i, n - 1, f);
    }
  }

  /** Each row at the end was there at the start, or was added by one of the edits as every new row is. */
  lemma {:induction false} RowOrigin(used: set<UserType?>, s: Session, edits: seq<Edit>, n: nat, p: nat)
    returns (a: nat, i: nat)
    requires |s.rows| == |s.types| && n <= |edits| && p < |EditedBy(used, s, edits[..n]).rows|
    ensures a <= n && Place(used, s, edits, a, i, n) == p && i < |EditedBy(used, s, edits[..a]).rows|
    ensures a > 0 ==>
              var was := EditedBy(used, s, edits[..a]);
              && edits[a - 1] == Add && i == |was.rows| - 1
              && was.rows[i] == Row("usertype", "INT(11)", "") && was.types[i] == null
    decreases n
  {
    a, i := n, p;
    if n > 0 {
      EditedLast(used, s, edits, n);
      var before, e := EditedBy(used, s, edits[..n - 1]), edits[n - 1];
      hide EditedBy, Edited, PlaceAfter;
      var q := RowBefore(used, before, e, p);
      if q == |before.rows| { return; }
      a, i := RowOrigin(used, s, edits, n - 1, q);
    }
  }

  /** Where the row at place p stood before an edit; past the end if the edit added it. */
  lemma RowBefore(used: set<UserType?>, s: Session, e: Edit, p: nat) returns (q: nat)
    requires |s.rows| == |s.types| && p < |Edited(used, s, e).rows|
    ensures var r := Edited(used, s, e);
            if q == |s.rows| then
              && e == Add && p == q == |r.rows| - 1
              && r.rows[p] == Row("usertype", "INT(11)", "") && r.types[p] == null
            else q < |s.rows| && PlaceAfter(used, s.types, e, q) == p
  {
    q := if PlaceAfter(used, s.types, e, p) == p then p else p + 1;
  }

  /** Rows keep their order. */
  lemma {:induction false} PlacesKeepOrder(used: set<UserType?>, s: Session, edits: seq<Edit>, a: nat, i: nat, j: nat,
                                           n: nat)
    requires |s.rows| == |s.types| && a <= n <= |edits| && i < j
    requires Place(used, s, edits, a, i, n) >= 0 && Place(used, s, edits, a, j, n) >= 0
    ensures Place(used, s, edits, a, i, n) < Place(used, s, edits, a, j, n)
    decreases n
  {
    if n > a { PlacesKeepOrder(used, s, edits, a, i, j, n - 1); }
  }

  /** An entry that has lost its row is none of the rows' at the end. */
  lemma GoneFor(used: set<UserType?>, s: Session, edits: seq<Edit>, i: nat)
    requires |s.rows| == |s.types| && i < |s.types| && s.types[i] != null && Distinct(s.types)
    requires Place(used, s, edits, 0, i, |edits|) < 0
    ensures s.types[i] !in EditedBy(used, s, edits).types
  {
    hide EditedBy, Edited, PlaceAfter;
    assert edits[..|edits|] == edits && edits[..0] == [];
    assert EditedBy(used, s, []) == s by { EditedNone(used, s); }
    forall p | 0 <= p < |EditedBy(used, s, edits).types|
      ensures EditedBy(used, s, edits).types[p] != s.types[i]
    {
      var a, j := RowOrigin(used, s, edits, |edits|, p);
      var k := EarlierSet(used, s, edits, a, j, |edits|, Name);
      RowHistory(used, s, edits, a, j, |edits|, Name, k);
    }
  }

  lemma EditedNone(used: set<UserType?>, s: Session)
    requires |s.rows| == |s.types|
    ensures EditedBy(used, s, []) == s
  {
  }

  lemma RowAtEnd(used: set<UserType?>, s: Session, edits: seq<Edit>, i: nat)
    requires |s.rows| == |s.types| && i < |s.types| && Place(used, s, edits, 0, i, |edits|) >= 0
    ensures var p, now := Place(used, s, edits, 0, i, |edits|), EditedBy(used, s, edits);
            && p < |now.rows| && now.types[p] == s.types[i]
            && LastRow(used, s, edits, i, s.rows[i], now.rows[p])
  {
    hide EditedBy, Edited, PlaceAfter, Sets, Shown, Text, Place;
    assert edits[..|edits|] == edits && edits[..0] == [];
    EditedNone(used, s);
    var k := EarlierSet(used, s, edits, 0, i, |edits|, Name);
    RowHistory(used, s, edits, 0, i, |edits|, Name, k);
    var row := EditedBy(used, s, edits).rows[Place(used, s, edits, 0, i, |edits|)];
    forall f, k | LastSet(used, s, edits, 0, i, |edits|, f, k)
      ensures Shown(row, f) == if k >= 0 then Text(edits[k]) else Shown(s.rows[i], f)
    {
      LastSetSteps(used, s, edits, 0, i, |edits|, f, k);
      RowHistory(used, s, edits, 0, i, |edits|, f, k);
    }
  }

  /** Each field is what it was last set to, or what it was. */
  ghost predicate LastRow(used: set<UserType?>, s: Session, edits: seq<Edit>, i: nat, was: Row, now: Row)
    requires |s.rows| == |s.types|
  {
    forall f, k :: LastSet(used, s, edits, 0, i, |edits|, f, k) ==>
      k < |edits| && Shown(now, f) == if k >= 0 then Text(edits[k]) else Shown(was, f)
  }

  /** Any run of edits. */
  method PerformAll(editor: UserDefinedTypeEditor, edits: seq<Edit>)
    requires editor.Valid()
    modifies editor
    ensures editor.Valid() && editor.State() == EditedBy(editor.catalog.Used(), old(editor.State()), edits)
  {
    hide Aligned, Covered, DistinctIds, IdsBelow, Edited;
    assert edits[..0] == [];
    for i := 0 to |edits|
      modifies editor
      invariant editor.Valid()
      invariant editor.State() == EditedBy(editor.catalog.Used(), old(editor.State()), edits[..i])
    {
      assert edits[..i + 1][..i] == edits[..i];
      editor.Perform(edits[i]);
    }
    assert edits[..|edits|] == edits;
  }

  /** An entry no edit was made to is exactly what it was. */
  lemma UntouchedKept(catalog: Catalog, validTypes: seq<SimpleDatatype>, start: Session, edits: seq<Edit>,
                      i: nat, t: UserType, was: Entry)
    requires |start.rows| == |start.types| && Finished(catalog, validTypes, start, edits, i, t, was)
    requires forall f, l :: 0 <= l < |edits| ==> !Sets(edits[l], f, Place(catalog.Used(), start, edits, 0, i, l))
    ensures t.AsEntry() == was
  {
    hide Place, Sets;
    var p := Place(catalog.Used(), start, edits, 0, i, |edits|);
    if p >= 0 {
      assert LastSet(catalog.Used(), start, edits, 0, i, |edits|, Name, -1);
      assert LastSet(catalog.Used(), start, edits, 0, i, |edits|, Definition, -1);
      assert LastSet(catalog.Used(), start, edits, 0, i, |edits|, Flags, -1);
    }
  }

  /**
   * A whole dialog: opened on the catalog, any run of edits, then OK. Once accepted, an entry whose row was deleted is
   * no longer listed, and every other one is listed at its row's place with what its row was last given, so exactly as
   * it was if no edit was made to its row. A refused OK changes nothing.
   */
  method EditTypes(catalog: Catalog, validTypes: seq<SimpleDatatype>, edits: seq<Edit>) returns (r: Outcome)
    requires catalog.Valid()
    modifies catalog, catalog.userDatatypes
    ensures var start := Session(old(RowsOf(catalog.userDatatypes)), old(catalog.userDatatypes));
            var s := EditedBy(catalog.Used(), start, edits);
            (r.Accepted? <==> NamesOk(s.rows)) &&
            (r.Accepted? ==>
               RowsOf(catalog.userDatatypes) == s.rows &&
               forall i :: 0 <= i < |s.types| ==>
                 if s.types[i] != null then catalog.userDatatypes[i] == s.types[i] else fresh(catalog.userDatatypes[i]))
    ensures r.Accepted? ==>
              var start := Session(old(RowsOf(catalog.userDatatypes)), old(catalog.userDatatypes));
              forall i :: 0 <= i < |start.types| ==>
                Finished(catalog, validTypes, start, edits, i, old(catalog.userDatatypes)[i],
                         old(catalog.userDatatypes[i].AsEntry()))
    ensures !r.Accepted? ==> unchanged(catalog) && forall t :: t in old(catalog.userDatatypes) ==> unchanged(t)
    ensures old(catalog.Resolved(validTypes)) && AllNamed(validTypes) ==> catalog.Resolved(validTypes)
    ensures catalog.Valid()
  {
    hide Aligned, Covered, DistinctIds, IdsBelow, NamesOk, EditedBy, Resolves, Place, LastRow, ActualKept, Lookup;
    hide AllNamed;
    var editor := new UserDefinedTypeEditor(catalog, validTypes);
    ghost var start := editor.State();
    PerformAll(editor, edits);
    r := Commit(editor, start, edits);
  }

  /** OK after the edits. */
  method Commit(editor: UserDefinedTypeEditor, ghost start: Session, ghost edits: seq<Edit>) returns (r: Outcome)
    requires editor.Valid() && |start.rows| == |start.types| && start.types == editor.catalog.userDatatypes
    requires start.rows == RowsOf(editor.catalog.userDatatypes)
    requires editor.State() == EditedBy(editor.catalog.Used(), start, edits)
    modifies editor.catalog, editor.catalog.userDatatypes
    ensures r.Accepted? <==> NamesOk(editor.rows)
    ensures r.Accepted? ==> RowsOf(editor.catalog.userDatatypes) == editor.rows
    ensures r.Accepted? ==>
              forall i :: 0 <= i < |editor.userTypes| ==>
                if editor.userTypes[i] != null then editor.catalog.userDatatypes[i] == editor.userTypes[i]
                else fresh(editor.catalog.userDatatypes[i])
    ensures r.Accepted? ==> forall i :: 0 <= i < |start.types| ==>
      Finished(editor.catalog, editor.validTypes, start, edits, i, old(editor.catalog.userDatatypes)[i],
               old(editor.catalog.userDatatypes[i].AsEntry()))
    ensures !r.Accepted? ==> unchanged(editor.catalog) &&
                             forall t :: t in old(editor.catalog.userDatatypes) ==> unchanged(t)
    ensures old(editor.catalog.Resolved(editor.validTypes)) && AllNamed(editor.validTypes) ==>
              editor.catalog.Resolved(editor.validTypes)
    ensures editor.catalog.Valid()
  {
    hide Aligned, Covered, DistinctIds, IdsBelow, NamesOk, EditedBy, Resolves, Place, Planned, Finished;
    AllPlanned(editor, start, edits);
    ghost var list, before := editor.catalog.userDatatypes, editor.Before();
    ghost var was := seq(|list|, i requires 0 <= i < |list| reads list => list[i].AsEntry());
    r := editor.OkClicked();
    if r.Accepted? { FinishAll(editor, start, edits, list, was, before); }
  }

  /** From the plan to what the catalog holds after OK. */
  lemma FinishAll(editor: UserDefinedTypeEditor, start: Session, edits: seq<Edit>, list: seq<UserType>,
                  was: seq<Entry>, before: seq<Entry>)
    requires |start.rows| == |start.types| == |list| == |was|
    requires |editor.rows| == |editor.userTypes| == |editor.catalog.userDatatypes| == |before|
    requires forall i :: 0 <= i < |list| ==>
      Planned(editor.catalog.Used(), start, edits, i, list[i], was[i], editor.State(), before)
    requires forall j :: 0 <= j < |editor.rows| ==>
      if editor.userTypes[j] != null then editor.catalog.userDatatypes[j] == editor.userTypes[j]
      else editor.catalog.userDatatypes[j] !in list
    requires forall j :: 0 <= j < |editor.rows| ==> editor.Holds(j, before[j])
    requires forall i :: 0 <= i < |list| && list[i] !in editor.userTypes ==> list[i].AsEntry() == was[i]
    ensures forall i :: 0 <= i < |list| ==>
      Finished(editor.catalog, editor.validTypes, start, edits, i, list[i], was[i])
  {
    hide LastRow, ActualKept, Place;
    forall i | 0 <= i < |list|
      ensures Finished(editor.catalog, editor.validTypes, start, edits, i, list[i], was[i])
    {
      var p := Place(editor.catalog.Used(), start, edits, 0, i, |edits|);
      assert Planned(editor.catalog.Used(), start, edits, i, list[i], was[i], editor.State(), before);
      if p >= 0 { editor.EntryHeld(p, before[p]); }
    }
  }

  /** Before OK: the row of entry t, from place i, is where it should be and holds what it was last given. */
  ghost predicate Planned(used: set<UserType?>, start: Session, edits: seq<Edit>, i: nat, t: UserType, was: Entry,
                          now: Session, before: seq<Entry>)
    requires |start.rows| == |start.types|
  {
    var p := Place(used, start, edits, 0, i, |edits|);
    if p < 0 then t !in now.types
    else
      && p < |now.rows| == |now.types| == |before| && now.types[p] == t && before[p] == was
      && LastRow(used, start, edits, i, was.row, now.rows[p])
  }

  lemma AllPlanned(editor: UserDefinedTypeEditor, start: Session, edits: seq<Edit>)
    requires editor.Valid() && |start.rows| == |start.types| && start.types == editor.catalog.userDatatypes
    requires start.rows == RowsOf(editor.catalog.userDatatypes)
    requires editor.State() == EditedBy(editor.catalog.Used(), start, edits)
    ensures forall i :: 0 <= i < |start.types| ==>
      var t := editor.catalog.userDatatypes[i];
      Planned(editor.catalog.Used(), start, edits, i, t, t.AsEntry(), editor.State(), editor.Before())
  {
    DifferentTypes(editor.catalog.userDatatypes);
    hide Aligned, Covered, DistinctIds, IdsBelow, EditedBy, LastRow, Place;
    var used := editor.catalog.Used();
    forall i | 0 <= i < |start.types|
      ensures var t := editor.catalog.userDatatypes[i];
              Planned(used, start, edits, i, t, t.AsEntry(), editor.State(), editor.Before())
    {
      if Place(used, start, edits, 0, i, |edits|) < 0 {
        GoneFor(used, start, edits, i);
      } else {
        RowAtEnd(used, start, edits, i);
      }
    }
  }

  lemma DifferentTypes(list: seq<UserType>)
    requires DistinctIds(list)
    ensures var types: seq<UserType?> := list; Distinct(types)
  {
  }

  /** After OK: entry t, which held `was`, is no longer listed, or it is at its row's place and holds what that says. */
  ghost predicate Finished(catalog: Catalog, validTypes: seq<SimpleDatatype>, start: Session, edits: seq<Edit>,
                           i: nat, t: UserType, was: Entry)
    requires |start.rows| == |start.types|
    reads catalog, t
  {
    var p := Place(catalog.Used(), start, edits, 0, i, |edits|);
    if p < 0 then t !in catalog.userDatatypes && t.AsEntry() == was
    else
      && p < |catalog.userDatatypes| && catalog.userDatatypes[p] == t
      && LastRow(catalog.Used(), start, edits, i, was.row, t.AsRow())
      && ActualKept(was, t.AsEntry(), validTypes)
  }
}
