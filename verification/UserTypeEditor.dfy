/** The user-defined-type editor: rows edited freely, then committed to the catalog's list in one step. */
module UserTypeEditors {
  import opened Sequences
  import opened Strings

  /** One of the server's own types. */
  class SimpleDatatype {
    const name: string

    constructor (name: string)
      ensures this.name == name
    {
      this.name := name;
    }
  }

  /** A catalog entry, updated in place; its id never changes. */
  class UserType {
    const id: nat
    var name: string
    var sqlDefinition: string
    var flags: string
    var actualType: SimpleDatatype?

    constructor (id: nat)
      ensures this.id == id && AsEntry() == BLANK
    {
      this.id, name, sqlDefinition, flags, actualType := id, "", "", "", null;
    }

    ghost function AsEntry(): Entry
      reads this
    {
      Entry(AsRow(), actualType)
    }

    ghost function AsRow(): Row
      reads this
    {
      Row(name, sqlDefinition, flags)
    }
  }

  datatype Row = Row(name: string, definition: string, flags: string)

  /** All that a catalog entry holds: what its row shows, and the server type behind its definition. */
  datatype Entry = Entry(row: Row, actual: SimpleDatatype?)

  const BLANK := Entry(Row("", "", ""), null)

  function LowerCase(c: char): char {
    if 'A' <= c <= 'Z' then c + 32 as char else c
  }

  /** Equal but for the case of ASCII letters. */
  predicate SameName(a: string, b: string) {
    |a| == |b| && forall i :: 0 <= i < |a| ==> LowerCase(a[i]) == LowerCase(b[i])
  }

  predicate LetterPair(upper: char, lower: char) {
    'A' <= upper <= 'Z' && lower as int == upper as int + 32
  }

  lemma SameNameIff(a: string, b: string)
    ensures SameName(a, b) <==>
            |a| == |b| && forall i :: 0 <= i < |a| ==> a[i] == b[i] || LetterPair(a[i], b[i]) || LetterPair(b[i], a[i])
  {
  }

  /** The definition up to its arguments. */
  function TypeName(definition: string): (name: string)
    ensures name <= definition && '(' !in name && (|name| < |definition| ==> definition[|name|] == '(')
  {
    definition[..IndexOf(definition, '(')]
  }

  /** The first type of that name, if there is one. */
  function Lookup(types: seq<SimpleDatatype>, name: string): (r: SimpleDatatype?)
    ensures r != null ==> r in types && SameName(r.name, name)
    ensures r == null <==> forall i :: 0 <= i < |types| ==> !SameName(types[i].name, name)
  {
    if types == [] then null else if SameName(types[0].name, name) then types[0] else Lookup(types[1..], name)
  }

  /** A row written to an entry; the server type is looked up anew only when the definition changes. */
  function Written(types: seq<SimpleDatatype>, was: Entry, row: Row): Entry {
    Entry(row, if was.row.definition != row.definition then Lookup(types, TypeName(row.definition)) else was.actual)
  }

  /** The server type is looked up anew only for another definition. */
  ghost predicate ActualKept(was: Entry, now: Entry, types: seq<SimpleDatatype>) {
    now.actual == if was.row.definition == now.row.definition then was.actual
                  else Lookup(types, TypeName(now.row.definition))
  }

  /** The entry's server type is the one its definition names. */
  predicate Resolves(types: seq<SimpleDatatype>, e: Entry) {
    e.actual == Lookup(types, TypeName(e.row.definition))
  }

  predicate AllNamed(types: seq<SimpleDatatype>) {
    forall i :: 0 <= i < |types| ==> types[i].name != ""
  }

  /** Writing rows keeps that so, for new entries provided that no server type is unnamed. */
  lemma WrittenResolves(types: seq<SimpleDatatype>, was: Entry, row: Row)
    requires Resolves(types, was) || (was == BLANK && AllNamed(types))
    ensures Resolves(types, Written(types, was, row))
  {
    if row.definition == "" {
      assert TypeName("") == "";
    }
  }

  /** What the editor holds: its rows and, for each, the catalog entry it stands for, or null for a new one. */
  datatype Session = Session(rows: seq<Row>, types: seq<UserType?>)

  datatype Edit =
    | Add
    | Delete(row: nat)
    | Rename(row: nat, name: string)
    | Redefine(row: nat, definition: string)
    | SetFlags(row: nat, flags: string)

  datatype Outcome = Accepted | InvalidName(name: string) | DuplicateName(name: string)

  predicate NameChar(c: char) {
    'a' <= c <= 'z' || 'A' <= c <= 'Z' || '0' <= c <= '9' || c == '_' || c == ' '
  }

  predicate LegalName(name: string) {
    name != "" && forall i :: 0 <= i < |name| ==> NameChar(name[i])
  }

  /** Digits, letters, the underscore and the space, by their ASCII codes. */
  lemma LegalNameIff(name: string)
    ensures LegalName(name) <==>
            name != "" && forall c :: c in name ==>
                            48 <= c as int <= 57 || 65 <= c as int <= 90 || 97 <= c as int <= 122 ||
                            c == '_' || c == ' '
  {
    assert forall i :: 0 <= i < |name| ==> name[i] in name;
  }

  ghost predicate NamesOk(rows: seq<Row>) {
    (forall i :: 0 <= i < |rows| ==> LegalName(rows[i].name)) &&
    forall i, j :: 0 <= i < j < |rows| ==> rows[i].name != rows[j].name
  }

  /** No entry of the editor has the item's id. */
  ghost predicate Missing(item: UserType, types: seq<UserType?>) {
    forall i :: 0 <= i < |types| ==> types[i] == null || types[i].id != item.id
  }

  /** The catalog entries the editor still has, in the catalog's order. */
  ghost function Kept(list: seq<UserType>, types: seq<UserType?>): (kept: seq<UserType>)
    ensures |kept| <= |list|
    ensures forall i :: 0 <= i < |kept| ==> kept[i] in list && !Missing(kept[i], types)
    ensures forall i :: 0 <= i < |list| && !Missing(list[i], types) ==> list[i] in kept
  {
    if list == [] then []
    else (if Missing(list[0], types) then [] else [list[0]]) + Kept(list[1..], types)
  }

  ghost predicate DistinctIds(list: seq<UserType>) {
    forall i, j :: 0 <= i < j < |list| ==> list[i].id != list[j].id
  }

  /** The entries kept come first and in catalog order, the new ones after them. */
  ghost predicate Aligned(list: seq<UserType>, types: seq<UserType?>) {
    var kept := Kept(list, types);
    |kept| <= |types| && forall i :: 0 <= i < |types| ==> types[i] == if i < |kept| then kept[i] else null
  }

  ghost predicate IdsBelow(list: seq<UserType>, n: nat) {
    forall i :: 0 <= i < |list| ==> list[i].id < n
  }

  ghost predicate Covered(used: set<UserType?>, types: seq<UserType?>) {
    forall t :: t in used && t != null ==> t in types
  }

  /** The editor's state is in step with the catalog, and every type used by a column still has its row. */
  ghost predicate InStep(list: seq<UserType>, used: set<UserType?>, s: Session) {
    |s.rows| == |s.types| && Aligned(list, s.types) && Covered(used, list) && Covered(used, s.types)
  }

  /** One edit; deleting a used type is refused, and an edit needs its row to exist. */
  ghost function Edited(used: set<UserType?>, s: Session, e: Edit): (r: Session)
    requires |s.rows| == |s.types|
    ensures |r.rows| == |r.types|
  {
    match e
    case Add => Session(s.rows + [Row("usertype", "INT(11)", "")], s.types + [null])
    case Delete(row) =>
      if row >= |s.rows| || (s.types[row] != null && s.types[row] in used) then s
      else Session(Without(s.rows, row), Without(s.types, row))
    case Rename(row, name) => if row >= |s.rows| then s else s.(rows := s.rows[row := s.rows[row].(name := name)])
    case Redefine(row, d) => if row >= |s.rows| then s else s.(rows := s.rows[row := s.rows[row].(definition := d)])
    case SetFlags(row, flags) => if row >= |s.rows| then s else s.(rows := s.rows[row := s.rows[row].(flags := flags)])
  }

  ghost function EditedBy(used: set<UserType?>, s: Session, edits: seq<Edit>): (r: Session)
    requires |s.rows| == |s.types|
    ensures |r.rows| == |r.types|
  {
    if edits == [] then s else Edited(used, EditedBy(used, s, edits[..|edits| - 1]), edits[|edits| - 1])
  }

  lemma {:induction false} AllKept(list: seq<UserType>, types: seq<UserType?>)
    requires forall t :: t in list ==> t in types
    ensures Kept(list, types) == list
  {
    if list != [] {
      assert list[0] in types;
      assert !Missing(list[0], types);
      AllKept(list[1..], types);
    }
  }

  lemma {:induction false} KeptSame(list: seq<UserType>, a: seq<UserType?>, b: seq<UserType?>)
    requires forall t :: t in list ==> (Missing(t, a) <==> Missing(t, b))
    ensures Kept(list, a) == Kept(list, b)
  {
    if list != [] {
      KeptSame(list[1..], a, b);
    }
  }

  /** Dropping one entry from what is kept. */
  lemma {:induction false} KeptWithout(list: seq<UserType>, a: seq<UserType?>, b: seq<UserType?>, gone: UserType,
                                       k: nat)
    requires DistinctIds(list) && Missing(gone, b) && k < |Kept(list, a)| && Kept(list, a)[k] == gone
    requires forall t :: t in list && t != gone ==> (Missing(t, a) <==> Missing(t, b))
    ensures Kept(list, b) == Without(Kept(list, a), k)
  {
    hide *;
    var first, rest := list[0], list[1..];
    var was := Kept(rest, a);
    KeptUnfolds(list, a);
    KeptUnfolds(list, b);
    RestDistinct(list);
    if first == gone {
      NotKept(rest, a, gone);
      GoneFirst(gone, was, Missing(first, a), k);
      KeptSame(rest, a, b);
    } else {
      var j := if Missing(first, a) then k else k - 1;
      KeptWithout(rest, a, b, gone, j);
      WithoutTail(first, was, j);
    }
  }

  lemma RestDistinct(list: seq<UserType>)
    requires DistinctIds(list) && list != []
    ensures DistinctIds(list[1..]) && list[0] in list
    ensures forall i :: 0 <= i < |list[1..]| ==> list[1..][i] in list && list[1..][i].id != list[0].id
  {
  }

  /** An entry that is not among the later ones kept is the first of them all. */
  lemma GoneFirst<T>(gone: T, was: seq<T>, missing: bool, k: nat)
    requires var kept := (if missing then [] else [gone]) + was; k < |kept| && kept[k] == gone
    requires gone !in was
    ensures !missing && k == 0 && Without([gone] + was, 0) == was
  {
  }

  lemma KeptUnfolds(list: seq<UserType>, types: seq<UserType?>)
    requires list != []
    ensures Kept(list, types) == (if Missing(list[0], types) then [] else [list[0]]) + Kept(list[1..], types)
  {
  }

  lemma NotKept(rest: seq<UserType>, types: seq<UserType?>, gone: UserType)
    requires forall i :: 0 <= i < |rest| ==> rest[i].id != gone.id
    ensures gone !in Kept(rest, types)
  {
  }

  lemma {:induction false} KeptDistinct(list: seq<UserType>, types: seq<UserType?>)
    requires DistinctIds(list)
    ensures DistinctIds(Kept(list, types))
  {
    if list != [] {
      KeptDistinct(list[1..], types);
      NotKept(list[1..], types, list[0]);
      var kept := Kept(list[1..], types);
      assert forall i :: 0 <= i < |kept| ==> kept[i] in list[1..];
    }
  }

  /** Adding a null entry, or taking out one with another id, does not make t missing or present. */
  lemma MissingUnaffected(t: UserType, types: seq<UserType?>, row: nat)
    requires row < |types| && (types[row] == null || types[row].id != t.id)
    ensures Missing(t, types) <==> Missing(t, Without(types, row))
  {
    var rest := Without(types, row);
    assert forall j :: 0 <= j < |types| && j != row ==> types[j] == rest[if j < row then j else j - 1];
  }

  lemma AddAligned(list: seq<UserType>, types: seq<UserType?>)
    requires Aligned(list, types)
    ensures Aligned(list, types + [null])
  {
    var more := types + [null];
    forall t | t in list ensures Missing(t, types) <==> Missing(t, more) {
      MissingUnaffected(t, more, |types|);
      assert Without(more, |types|) == types;
    }
    KeptSame(list, types, more);
    hide Kept, Missing;
  }

  lemma KeptAfterDelete(list: seq<UserType>, types: seq<UserType?>, row: nat)
    requires DistinctIds(list) && Aligned(list, types) && row < |types|
    ensures var kept := Kept(list, types);
            Kept(list, Without(types, row)) == if row < |kept| then Without(kept, row) else kept
  {
    var kept, rest := Kept(list, types), Without(types, row);
    assert row < |kept| ==> types[row] == kept[row] && kept[row] in list;
    forall t | t in list && (row >= |kept| || t != kept[row])
      ensures Missing(t, types) <==> Missing(t, rest)
    {
      assert row >= |kept| || t.id != kept[row].id;
      MissingUnaffected(t, types, row);
    }
    if row < |kept| {
      KeptDistinct(list, types);
      GoneIsMissing(kept, types, row);
      KeptWithout(list, types, rest, kept[row], row);
    } else {
      KeptSame(list, types, rest);
    }
  }

  lemma DeleteAligned(list: seq<UserType>, types: seq<UserType?>, row: nat)
    requires DistinctIds(list) && Aligned(list, types) && row < |types|
    ensures Aligned(list, Without(types, row))
  {
    KeptAfterDelete(list, types, row);
    WithoutBoth(Kept(list, types), types, row);
    hide Kept, Missing, Without;
  }

  lemma WithoutBoth(kept: seq<UserType>, types: seq<UserType?>, row: nat)
    requires |kept| <= |types| && row < |types|
    requires forall i :: 0 <= i < |types| ==> types[i] == if i < |kept| then kept[i] else null
    ensures var fewer, rest := if row < |kept| then Without(kept, row) else kept, Without(types, row);
            |fewer| <= |rest| && forall i :: 0 <= i < |rest| ==> rest[i] == if i < |fewer| then fewer[i] else null
  {
  }

  lemma AddCovers(used: set<UserType?>, types: seq<UserType?>)
    requires Covered(used, types)
    ensures Covered(used, types + [null])
  {
  }

  lemma DeleteCovers(used: set<UserType?>, types: seq<UserType?>, row: nat)
    requires Covered(used, types) && row < |types| && (types[row] == null || types[row] !in used)
    ensures Covered(used, Without(types, row))
  {
    forall t | t in used && t != null ensures t in Without(types, row) {
      StaysIn(types, row, t);
    }
  }

  /** Every edit keeps the editor in step with the catalog. */
  lemma EditKeepsStep(list: seq<UserType>, used: set<UserType?>, s: Session, e: Edit)
    requires DistinctIds(list) && InStep(list, used, s)
    ensures InStep(list, used, Edited(used, s, e))
  {
    hide Aligned, Covered, DistinctIds, IdsBelow;
    match e
    case Add =>
      AddAligned(list, s.types);
      AddCovers(used, s.types);
    case Delete(row) =>
      if row < |s.rows| && (s.types[row] == null || s.types[row] !in used) {
        DeleteAligned(list, s.types, row);
        DeleteCovers(used, s.types, row);
      }
    case _ =>
  }

  lemma GoneIsMissing(kept: seq<UserType>, types: seq<UserType?>, row: nat)
    requires DistinctIds(kept) && row < |kept| <= |types|
    requires forall i :: 0 <= i < |types| ==> types[i] == if i < |kept| then kept[i] else null
    ensures Missing(kept[row], Without(types, row))
  {
  }

  /** So does every run of edits. */
  lemma {:induction false} RunKeepsStep(list: seq<UserType>, used: set<UserType?>, s: Session, edits: seq<Edit>)
    requires DistinctIds(list) && InStep(list, used, s)
    ensures InStep(list, used, EditedBy(used, s, edits))
  {
    if edits != [] {
      var before := edits[..|edits| - 1];
      RunKeepsStep(list, used, s, before);
      EditKeepsStep(list, used, EditedBy(used, s, before), edits[|edits| - 1]);
    }
  }

  /** The catalog's list of types, and the columns of its schemata's tables with the type each one uses. */
  class Catalog {
    var userDatatypes: seq<UserType>
    var nextId: nat
    const columns: seq<seq<seq<UserType?>>>

    ghost function Used(): set<UserType?> {
      set i, j, k | 0 <= i < |columns| && 0 <= j < |columns[i]| && 0 <= k < |columns[i][j]| :: columns[i][j][k]
    }

    /** Every listed type's server type is the one its definition names. */
    ghost predicate Resolved(types: seq<SimpleDatatype>)
      reads this, userDatatypes
    {
      forall i :: 0 <= i < |userDatatypes| ==> Resolves(types, userDatatypes[i].AsEntry())
    }

    ghost predicate Valid()
      reads this
    {
      DistinctIds(userDatatypes) && Covered(Used(), userDatatypes) && IdsBelow(userDatatypes, nextId)
    }

    constructor (columns: seq<seq<seq<UserType?>>>, types: seq<UserType>, nextId: nat)
      ensures userDatatypes == types && this.columns == columns && this.nextId == nextId
    {
      this.columns, userDatatypes, this.nextId := columns, types, nextId;
    }
  }

  /** A freshly filled editor is in step. */
  lemma FullStep(list: seq<UserType>, used: set<UserType?>, rows: seq<Row>)
    requires Covered(used, list) && |rows| == |list|
    ensures InStep(list, used, Session(rows, list))
  {
    AllKept(list, list);
  }

  ghost function RowsOf(types: seq<UserType>): (rows: seq<Row>)
    reads types
    ensures |rows| == |types|
  {
    seq(|types|, i requires 0 <= i < |types| reads types => types[i].AsRow())
  }

  class UserDefinedTypeEditor {
    const catalog: Catalog
    const validTypes: seq<SimpleDatatype>
    var rows: seq<Row>
    var userTypes: seq<UserType?>

    ghost function State(): Session
      reads this
    {
      Session(rows, userTypes)
    }

    ghost predicate Valid()
      reads this, catalog
    {
      catalog.Valid() && InStep(catalog.userDatatypes, catalog.Used(), State())
    }

    constructor (catalog: Catalog, validTypes: seq<SimpleDatatype>)
      requires catalog.Valid()
      ensures Valid() && this.catalog == catalog && this.validTypes == validTypes
      ensures State() == Session(RowsOf(catalog.userDatatypes), catalog.userDatatypes)
    {
      this.catalog, this.validTypes, rows, userTypes := catalog, validTypes, [], [];
      new;
      Refresh();
    }

    method Refresh()
      requires catalog.Valid()
      modifies this
      ensures Valid()
      ensures State() == Session(RowsOf(catalog.userDatatypes), catalog.userDatatypes)
    {
      hide Aligned, Covered, DistinctIds, IdsBelow;
      rows, userTypes := [], [];
      var udts := catalog.userDatatypes;
      for i := 0 to |udts|
        invariant |rows| == i && forall j :: 0 <= j < i ==> rows[j] == udts[j].AsRow()
        invariant userTypes == udts[..i]
      {
        rows := rows + [Row(udts[i].name, udts[i].sqlDefinition, udts[i].flags)];
        userTypes := userTypes + [udts[i]];
      }
      assert userTypes == udts;
      FullStep(udts, catalog.Used(), rows);
    }

    method AddClicked()
      requires Valid()
      modifies this
      ensures Valid() && State() == Edited(catalog.Used(), old(State()), Add)
      ensures rows == old(rows) + [Row("usertype", "INT(11)", "")] && userTypes == old(userTypes) + [null]
    {
      hide Aligned, Covered, DistinctIds, IdsBelow;
      EditKeepsStep(catalog.userDatatypes, catalog.Used(), State(), Add);
      rows := rows + [Row("usertype", "INT(11)", "")];
      userTypes := userTypes + [null];
    }

    method IsTypeUsed(t: UserType?) returns (used: bool)
      ensures used == (t in catalog.Used())
      ensures used <==> exists i, j, k ::
                0 <= i < |catalog.columns| && 0 <= j < |catalog.columns[i]| && 0 <= k < |catalog.columns[i][j]| &&
                catalog.columns[i][j][k] == t
    {
      var columns := catalog.columns;
      for i := 0 to |columns|
        invariant forall a, b, c :: 0 <= a < i && 0 <= b < |columns[a]| && 0 <= c < |columns[a][b]| ==>
                  columns[a][b][c] != t
      {
        for j := 0 to |columns[i]|
          invariant forall b, c :: 0 <= b < j && 0 <= c < |columns[i][b]| ==> columns[i][b][c] != t
        {
          for k := 0 to |columns[i][j]|
            invariant forall c :: 0 <= c < k ==> columns[i][j][c] != t
          {
            if columns[i][j][k] == t { return true; }
          }
        }
      }
      return false;
    }

    /** Deletes the selected row, unless a column uses its type. */
    method DeleteClicked(row: nat)
      requires Valid()
      modifies this
      ensures Valid() && State() == Edited(catalog.Used(), old(State()), Delete(row))
      ensures if row < |old(rows)| && (old(userTypes)[row] == null || old(userTypes)[row] !in catalog.Used())
              then rows == Without(old(rows), row) && userTypes == Without(old(userTypes), row)
              else rows == old(rows) && userTypes == old(userTypes)
    {
      hide Aligned, Covered, DistinctIds, IdsBelow;
      EditKeepsStep(catalog.userDatatypes, catalog.Used(), State(), Delete(row));
      if row < |rows| {
        var used := IsTypeUsed(userTypes[row]);
        if userTypes[row] != null && used { return; }
        rows := Without(rows, row);
        userTypes := Without(userTypes, row);
      }
    }

    method NameChanged(row: nat, name: string)
      requires Valid()
      modifies this
      ensures Valid() && State() == Edited(catalog.Used(), old(State()), Rename(row, name))
      ensures rows == (if row < |old(rows)| then old(rows)[row := old(rows)[row].(name := name)] else old(rows))
      ensures userTypes == old(userTypes)
    {
      hide Aligned, Covered, DistinctIds, IdsBelow;
      if row < |rows| {
        rows := rows[row := rows[row].(name := name)];
      }
    }

    method DefinitionChanged(row: nat, definition: string)
      requires Valid()
      modifies this
      ensures Valid() && State() == Edited(catalog.Used(), old(State()), Redefine(row, definition))
      ensures rows ==
              if row < |old(rows)| then old(rows)[row := old(rows)[row].(definition := definition)] else old(rows)
      ensures userTypes == old(userTypes)
    {
      hide Aligned, Covered, DistinctIds, IdsBelow;
      if row < |rows| {
        rows := rows[row := rows[row].(definition := definition)];
      }
    }

    method FlagToggled(row: nat, flags: string)
      requires Valid()
      modifies this
      ensures Valid() && State() == Edited(catalog.Used(), old(State()), SetFlags(row, flags))
      ensures rows == (if row < |old(rows)| then old(rows)[row := old(rows)[row].(flags := flags)] else old(rows))
      ensures userTypes == old(userTypes)
    {
      hide Aligned, Covered, DistinctIds, IdsBelow;
      if row < |rows| {
        rows := rows[row := rows[row].(flags := flags)];
      }
    }

    method Perform(e: Edit)
      requires Valid()
      modifies this
      ensures Valid() && State() == Edited(catalog.Used(), old(State()), e)
    {
      hide Aligned, Covered, DistinctIds, IdsBelow;
      match e
      case Add => AddClicked();
      case Delete(row) => DeleteClicked(row);
      case Rename(row, name) => NameChanged(row, name);
      case Redefine(row, definition) => DefinitionChanged(row, definition);
      case SetFlags(row, flags) => FlagToggled(row, flags);
    }

    /** The first row at fault, if any: an illegal name, or a name that an earlier row has. */
    method CheckNames() returns (r: Outcome)
      ensures r.Accepted? <==> NamesOk(rows)
      ensures !r.Accepted? ==> exists i :: 0 <= i < |rows| && rows[i].name == r.name && NamesOk(rows[..i]) &&
                                           (r.InvalidName? <==> !LegalName(r.name))
    {
      var names: set<string> := {};
      for i := 0 to |rows|
        invariant NamesOk(rows[..i])
        invariant names == set j | 0 <= j < i :: rows[j].name
      {
        var name := rows[i].name;
        var ok := true;
        for j := 0 to |name|
          invariant ok && forall k :: 0 <= k < j ==> NameChar(name[k])
        {
          if !NameChar(name[j]) {
            ok := false;
            break;
          }
        }
        if name == "" || !ok {
          return InvalidName(name);
        }
        if name in names {
          return DuplicateName(name);
        }
        names := names + {name};
      }
      assert rows[..|rows|] == rows;
      return Accepted;
    }

    method IsMissing(item: UserType) returns (missing: bool)
      ensures missing == Missing(item, userTypes)
    {
      for i := 0 to |userTypes|
        invariant forall j :: 0 <= j < i ==> userTypes[j] == null || userTypes[j].id != item.id
      {
        if userTypes[i] != null && userTypes[i].id == item.id { return false; }
      }
      return true;
    }

    /** Takes the deleted types out of the catalog's list, from its end to its start. */
    method RemoveMissing()
      modifies catalog`userDatatypes
      ensures catalog.userDatatypes == Kept(old(catalog.userDatatypes), userTypes)
    {
      ghost var was := catalog.userDatatypes;
      for i := |catalog.userDatatypes| downto 0
        invariant i <= |was| && catalog.userDatatypes == was[..i] + Kept(was[i..], userTypes)
      {
        var missing := IsMissing(catalog.userDatatypes[i]);
        RemoveStep(was, userTypes, i);
        if missing {
          catalog.userDatatypes := Without(catalog.userDatatypes, i);
        }
      }
      assert was[0..] == was && was[..0] == [];
    }

    method NewType() returns (t: UserType)
      modifies catalog`nextId
      ensures fresh(t) && t.id == old(catalog.nextId) && catalog.nextId == t.id + 1 && t.AsEntry() == BLANK
    {
      t := new UserType(catalog.nextId);
      catalog.nextId := catalog.nextId + 1;
    }

    /** Row i is written to its type in place; a new row's type is made and put at the end of the list. */
    method StoreRow(i: nat)
      requires i < |rows| == |userTypes|
      modifies catalog, if userTypes[i] == null then {} else {userTypes[i]}
      ensures userTypes[i] != null ==>
                && catalog.userDatatypes == old(catalog.userDatatypes) && catalog.nextId == old(catalog.nextId)
                && userTypes[i].AsEntry() == Written(validTypes, old(userTypes[i].AsEntry()), rows[i])
      ensures userTypes[i] == null ==>
                |catalog.userDatatypes| == |old(catalog.userDatatypes)| + 1 &&
                  catalog.nextId == old(catalog.nextId) + 1 &&
                var t := catalog.userDatatypes[|old(catalog.userDatatypes)|];
                && catalog.userDatatypes == old(catalog.userDatatypes) + [t] && fresh(t) && t.id == old(catalog.nextId)
                && t.AsEntry() == Written(validTypes, BLANK, rows[i])
    {
      var t := userTypes[i];
      if userTypes[i] == null {
        t := NewType();
      }
      hide Written;
      Write(t, rows[i]);
      if userTypes[i] == null {
        catalog.userDatatypes := catalog.userDatatypes + [t];
      }
    }

    /** Each field is set only if it differs. */
    method Write(t: UserType, row: Row)
      modifies t
      ensures t.AsEntry() == Written(validTypes, old(t.AsEntry()), row)
      ensures t.name == row.name && t.sqlDefinition == row.definition && t.flags == row.flags
      ensures t.actualType == if old(t.sqlDefinition) == row.definition then old(t.actualType)
                              else Lookup(validTypes, TypeName(row.definition))
    {
      if t.name != row.name {
        t.name := row.name;
      }
      if t.sqlDefinition != row.definition {
        t.sqlDefinition := row.definition;
        var simpleType := FindType(TypeName(row.definition));
        if t.actualType != simpleType {
          t.actualType := simpleType;
        }
      }
      if t.flags != row.flags {
        t.flags := row.flags;
      }
    }

    method FindType(name: string) returns (simpleType: SimpleDatatype?)
      ensures simpleType == Lookup(validTypes, name)
      ensures simpleType != null ==>
                exists i :: 0 <= i < |validTypes| && validTypes[i] == simpleType && SameName(simpleType.name, name) &&
                            forall j :: 0 <= j < i ==> !SameName(validTypes[j].name, name)
    {
      for i := 0 to |validTypes|
        invariant Lookup(validTypes, name) == Lookup(validTypes[i..], name)
        invariant forall j :: 0 <= j < i ==> !SameName(validTypes[j].name, name)
      {
        assert validTypes[i..][1..] == validTypes[i + 1..];
        if SameName(validTypes[i].name, name) { return validTypes[i]; }
      }
      return null;
    }

    /** Writes all rows; the list holds the kept types already, and before is what the entries of the rows hold. */
    method StoreRows(ghost before: seq<Entry>)
      requires |before| == |rows| == |userTypes| && catalog.Valid() && |catalog.userDatatypes| <= |rows|
      requires forall i :: 0 <= i < |rows| ==>
        userTypes[i] == if i < |catalog.userDatatypes| then catalog.userDatatypes[i] else null
      requires forall i :: 0 <= i < |rows| ==>
               before[i] == if userTypes[i] != null then userTypes[i].AsEntry() else BLANK
      modifies catalog, catalog.userDatatypes
      ensures catalog.Valid() && |catalog.userDatatypes| == |rows| && Stored(before, |rows|)
      ensures catalog.userDatatypes[..|old(catalog.userDatatypes)|] == old(catalog.userDatatypes)
      ensures forall i :: |old(catalog.userDatatypes)| <= i < |rows| ==> fresh(catalog.userDatatypes[i])
    {
      hide DistinctIds, Covered, IdsBelow, Written, Kept, Missing, Stored, Midway;
      ghost var kept := catalog.userDatatypes;
      MidwayStarts(before);
      for i := 0 to |rows|
        invariant Midway(before, kept, i)
        invariant forall j :: |kept| <= j < |catalog.userDatatypes| ==> fresh(catalog.userDatatypes[j])
      {
        StoreNext(i, before, kept);
      }
      MidwayEnds(before, kept);
    }

    lemma MidwayStarts(before: seq<Entry>)
      requires |before| == |rows| == |userTypes| && catalog.Valid() && |catalog.userDatatypes| <= |rows|
      requires forall i :: 0 <= i < |rows| ==>
        userTypes[i] == if i < |catalog.userDatatypes| then catalog.userDatatypes[i] else null
      requires forall i :: 0 <= i < |rows| ==>
        before[i] == if userTypes[i] != null then userTypes[i].AsEntry() else BLANK
      ensures Midway(before, catalog.userDatatypes, 0)
      ensures Distinct(catalog.userDatatypes)
    {
      hide Covered, IdsBelow, Written;
    }

    lemma MidwayEnds(before: seq<Entry>, kept: seq<UserType>)
      requires Midway(before, kept, |rows|)
      ensures catalog.Valid() && |catalog.userDatatypes| == |rows| && Stored(before, |rows|)
      ensures |kept| <= |rows| && catalog.userDatatypes[..|kept|] == kept
    {
      hide DistinctIds, Covered, IdsBelow, Stored;
    }

    /** The first i rows are written, and the entries of the other kept types are as before. */
    ghost predicate Midway(before: seq<Entry>, kept: seq<UserType>, i: nat)
      reads this, catalog, catalog.userDatatypes, kept
    {
      && catalog.Valid() && |before| == |rows| == |userTypes| && i <= |rows| && |kept| <= |rows|
      && |catalog.userDatatypes| == (if i < |kept| then |kept| else i) && catalog.userDatatypes[..|kept|] == kept
      && Stored(before, i) && (forall j :: i <= j < |kept| ==> kept[j].AsEntry() == before[j])
      && (forall j :: |kept| <= j < |rows| ==> before[j] == BLANK)
      && forall j :: 0 <= j < |rows| ==> userTypes[j] == if j < |kept| then kept[j] else null
    }

    method StoreNext(i: nat, ghost before: seq<Entry>, ghost kept: seq<UserType>)
      requires Midway(before, kept, i) && i < |rows| && Distinct(kept)
      modifies catalog, kept
      ensures Midway(before, kept, i + 1)
      ensures if i < |kept| then catalog.userDatatypes == old(catalog.userDatatypes)
              else |catalog.userDatatypes| == i + 1 && catalog.userDatatypes[..i] == old(catalog.userDatatypes) &&
                   fresh(catalog.userDatatypes[i])
    {
      hide DistinctIds, Covered, IdsBelow, Written, Kept, Missing;
      ghost var was, id := catalog.userDatatypes, catalog.nextId;
      StoreRow(i);
      if i >= |kept| {
        NewTypeIsValid(was, catalog.Used(), catalog.userDatatypes[i], id);
      }
    }

    /** What the catalog holds for each row: its type's entry, or nothing yet. */
    ghost function Before(): (entries: seq<Entry>)
      reads this, set i | 0 <= i < |userTypes| && userTypes[i] != null :: userTypes[i]
      ensures |entries| == |userTypes|
    {
      seq(|userTypes|, i requires 0 <= i < |userTypes|
                         reads this, set i | 0 <= i < |userTypes| && userTypes[i] != null :: userTypes[i] =>
        if userTypes[i] != null then userTypes[i].AsEntry() else BLANK)
    }

    /**
     * OK: names are checked first, and a fault changes nothing. Otherwise the catalog's list becomes the rows in
     * order: a row that stood for a type is still that type, and a new row is a new type.
     */
    method OkClicked() returns (r: Outcome)
      requires Valid()
      modifies catalog, catalog.userDatatypes
      ensures r.Accepted? <==> NamesOk(rows)
      ensures !r.Accepted? ==> unchanged(catalog) && forall t :: t in old(catalog.userDatatypes) ==> unchanged(t)
      ensures catalog.Valid()
      ensures r.Accepted? ==> RowsOf(catalog.userDatatypes) == rows
      ensures r.Accepted? ==> Stored(old(Before()), |rows|) && |catalog.userDatatypes| == |rows|
      ensures r.Accepted? ==> forall i :: 0 <= i < |rows| ==> Holds(i, old(Before())[i])
      ensures r.Accepted? ==> forall i :: 0 <= i < |rows| ==>
        if userTypes[i] != null then catalog.userDatatypes[i] == userTypes[i] else fresh(catalog.userDatatypes[i])
      ensures forall t :: t in old(catalog.userDatatypes) && t !in userTypes ==> unchanged(t)
      ensures old(catalog.Resolved(validTypes)) && AllNamed(validTypes) ==> catalog.Resolved(validTypes)
    {
      hide Aligned, Covered, DistinctIds, IdsBelow, Written, InStep, Resolves, EntriesResolve, AllNamed, Holds;
      r := CheckNames();
      if !r.Accepted? { return; }
      hide NamesOk;
      BeforeResolves();
      ghost var before := Before();
      Commit(before);
      StoredRows(before);
      if AllNamed(validTypes) && EntriesResolve(before) {
        StoredResolves(before);
      }
    }

    /** Entry i holds what row i shows, and the server type it had unless the definition is another one now. */
    ghost predicate Holds(i: nat, was: Entry)
      requires i < |rows| && i < |catalog.userDatatypes|
      reads this, catalog, catalog.userDatatypes
    {
      var t := catalog.userDatatypes[i];
      && t.name == rows[i].name && t.sqlDefinition == rows[i].definition && t.flags == rows[i].flags
      && ActualKept(was, t.AsEntry(), validTypes)
    }

    lemma EntryHeld(i: nat, was: Entry)
      requires i < |rows| && i < |catalog.userDatatypes| && Holds(i, was)
      ensures catalog.userDatatypes[i].AsRow() == rows[i]
      ensures ActualKept(was, catalog.userDatatypes[i].AsEntry(), validTypes)
    {
    }

    /** The list becomes the rows. */
    method Commit(ghost before: seq<Entry>)
      requires Valid() && before == Before()
      modifies catalog, catalog.userDatatypes
      ensures catalog.Valid() && |catalog.userDatatypes| == |rows| && Stored(before, |rows|)
      ensures forall i :: 0 <= i < |rows| ==>
        if userTypes[i] != null then catalog.userDatatypes[i] == userTypes[i] else fresh(catalog.userDatatypes[i])
      ensures forall t :: t in old(catalog.userDatatypes) && t !in userTypes ==> unchanged(t)
    {
      hide Aligned, Covered, DistinctIds, IdsBelow, Written, Kept, Missing, Resolves, Stored;
      KeptIsValid(catalog.userDatatypes, catalog.Used(), State(), catalog.nextId);
      RemoveMissing();
      StoreRows(before);
    }

    ghost predicate EntriesResolve(entries: seq<Entry>) {
      forall i :: 0 <= i < |entries| ==> Resolves(validTypes, entries[i]) || entries[i] == BLANK
    }

    lemma BeforeResolves()
      requires Valid()
      ensures catalog.Resolved(validTypes) ==> EntriesResolve(Before())
    {
      hide Resolves;
    }

    lemma StoredResolves(before: seq<Entry>)
      requires |catalog.userDatatypes| == |rows| && Stored(before, |rows|)
      requires AllNamed(validTypes) && EntriesResolve(before)
      ensures catalog.Resolved(validTypes)
    {
      forall i | 0 <= i < |rows|
        ensures Resolves(validTypes, catalog.userDatatypes[i].AsEntry())
      {
        WrittenResolves(validTypes, before[i], rows[i]);
      }
    }

    lemma StoredRows(before: seq<Entry>)
      requires |catalog.userDatatypes| == |rows| && Stored(before, |rows|)
      ensures RowsOf(catalog.userDatatypes) == rows
      ensures forall i :: 0 <= i < |rows| ==> Holds(i, before[i])
    {
      hide Lookup, TypeName;
    }

    /** The first i types of the list are what writing the first i rows makes of the entries there were. */
    ghost predicate Stored(before: seq<Entry>, i: nat)
      reads this, catalog, catalog.userDatatypes
    {
      i <= |catalog.userDatatypes| && i <= |rows| && i <= |before| &&
      forall j :: 0 <= j < i ==> catalog.userDatatypes[j].AsEntry() == Written(validTypes, before[j], rows[j])
    }
  }

  lemma NewTypeIsValid(list: seq<UserType>, used: set<UserType?>, t: UserType, id: nat)
    requires DistinctIds(list) && Covered(used, list) && IdsBelow(list, id) && t.id == id
    ensures DistinctIds(list + [t]) && Covered(used, list + [t]) && IdsBelow(list + [t], id + 1)
  {
  }

  /** What is kept fits the editor's rows, with distinct ids, and includes every type in use. */
  lemma KeptIsValid(list: seq<UserType>, used: set<UserType?>, s: Session, id: nat)
    requires DistinctIds(list) && InStep(list, used, s) && IdsBelow(list, id)
    ensures var kept := Kept(list, s.types);
            DistinctIds(kept) && Covered(used, kept) && IdsBelow(kept, id) && |kept| <= |s.rows| &&
            (forall i :: 0 <= i < |s.types| ==> s.types[i] == if i < |kept| then kept[i] else null) &&
            forall i :: 0 <= i < |kept| ==> kept[i] in list && kept[i] in s.types
  {
    var kept := Kept(list, s.types);
    KeptDistinct(list, s.types);
    forall t | t in used && t != null ensures t in kept {
      var j :| 0 <= j < |list| && list[j] == t;
      assert !Missing(list[j], s.types);
    }
    assert forall i :: 0 <= i < |kept| ==> s.types[i] == kept[i];
  }

  lemma RemoveStep(list: seq<UserType>, types: seq<UserType?>, i: nat)
    requires i < |list|
    ensures var now := list[..i + 1] + Kept(list[i + 1..], types);
            list[..i] + Kept(list[i..], types) == if Missing(list[i], types) then Without(now, i) else now
  {
    hide *;
    KeptUnfolds(list[i..], types);
    assert list[i..][1..] == list[i + 1..] && list[..i + 1] == list[..i] + [list[i]];
    Splice(list[..i], list[i], Kept(list[i + 1..], types));
  }
}
