/** The server instance editor: two stored lists edited in place beside the list of names on screen. */
module ConnectionEditors {
  import opened FreshNames
  import opened Sequences

  class Connection {
    var name: string
    var driver: string
    var parameters: map<string, string>
    var hostIdentifier: string

    constructor ()
      ensures name == driver == hostIdentifier == "" && parameters == map[]
    {
      name, driver, parameters, hostIdentifier := "", "", map[], "";
    }
  }

  class ServerInstance {
    var name: string
    var connection: Connection?
    var loginInfo: map<string, string>
    var serverInfo: map<string, string>

    constructor ()
      ensures name == "" && connection == null && loginInfo == serverInfo == map[]
    {
      name, connection, loginInfo, serverInfo := "", null, map[], map[];
    }
  }

  ghost function NamesOf(connections: seq<Connection>): (names: seq<string>)
    reads connections
    ensures |names| == |connections|
  {
    seq(|connections|, i requires 0 <= i < |connections| reads connections => connections[i].name)
  }

  /** The instances that do not belong to a connection, in order; with null, those that belong to any. */
  ghost function NotOf(instances: seq<ServerInstance>, c: Connection?): (rest: seq<ServerInstance>)
    reads instances
    ensures |rest| <= |instances|
    ensures forall i :: 0 <= i < |rest| ==> rest[i] in instances && rest[i].connection != c
    ensures forall i :: 0 <= i < |instances| && instances[i].connection != c ==> instances[i] in rest
  {
    if instances == [] then []
    else (if instances[0].connection == c then [] else [instances[0]]) + NotOf(instances[1..], c)
  }

  /** The instance shown for a connection: the first that belongs to it. */
  ghost function FirstOf(instances: seq<ServerInstance>, c: Connection): (r: ServerInstance?)
    reads instances
    ensures r != null ==> r in instances && r.connection == c
    ensures r == null <==> forall i :: 0 <= i < |instances| ==> instances[i].connection != c
  {
    if instances == [] then null
    else if instances[0].connection == c then instances[0]
    else FirstOf(instances[1..], c)
  }

  /** Element oi taken out and put back at ni, or at the end when that is past it. */
  function Moved<T>(s: seq<T>, oi: nat, ni: nat): (r: seq<T>)
    requires oi < |s|
    ensures |r| == |s|
  {
    if oi == ni then s
    else
      var rest := Without(s, oi);
      if ni >= |rest| then rest + [s[oi]] else rest[..ni] + [s[oi]] + rest[ni..]
  }

  function Swapped<T>(s: seq<T>, i: nat, j: nat): (r: seq<T>)
    requires i < |s| && j < |s|
    ensures |r| == |s| && forall k :: 0 <= k < |s| ==> r[k] == s[if k == i then j else if k == j then i else k]
  {
    s[i := s[j]][j := s[i]]
  }

  /** Moving by one place swaps two neighbours and leaves the others where they are. */
  lemma MovedByOneSwaps<T>(s: seq<T>, i: nat, j: nat)
    requires i < |s| && j < |s| && (j == i + 1 || i == j + 1)
    ensures Moved(s, i, j) == Swapped(s, i, j)
  {
    var r, rest := Moved(s, i, j), Without(s, i);
    assert r[..j] == rest[..j] && r[j] == s[i];
    assert forall k :: j < k < |s| ==> r[k] == rest[k - 1];
    hide Moved, Without;
  }

  lemma SwapKeepsElements<T>(s: seq<T>, i: nat, j: nat)
    requires i < |s| && j < |s|
    ensures forall t :: t in s ==> t in Swapped(s, i, j)
    ensures Distinct(s) ==> Distinct(Swapped(s, i, j))
  {
    var r := Swapped(s, i, j);
    forall t | t in s ensures t in r {
      var k :| 0 <= k < |s| && s[k] == t;
      assert r[if k == i then j else if k == j then i else k] == t;
    }
  }

  datatype Action =
    | New(driver: string, ssl: bool)
    | Remove
    | Duplicate
    | Move(up: bool)
    | Rename(text: string, value: string)
    | Select(row: int)

  class ServerInstanceEditor {
    var connections: seq<Connection>
    var instances: seq<ServerInstance>
    var rows: seq<string>
    var selected: int

    /** Row i shows the name of connection i; no object is listed twice. */
    ghost predicate Valid()
      reads this, connections
    {
      rows == NamesOf(connections) && -1 <= selected < |rows| && Distinct(connections) && Distinct(instances)
    }

    /** Every instance's connection is in the list of connections. */
    ghost predicate Attached()
      reads this, instances
    {
      forall i :: 0 <= i < |instances| ==> instances[i].connection in connections
    }

    /** Opens on the stored lists; instances without a connection are dropped, and only those. */
    constructor (connections: seq<Connection>, instances: seq<ServerInstance>)
      requires Distinct(connections) && Distinct(instances)
      ensures Valid() && this.connections == connections && selected == -1
      ensures this.instances == NotOf(instances, null)
    {
      this.connections, this.instances, rows, selected := connections, instances, [], -1;
      new;
      NotOfDistinct(instances, null);
      RemoveInstancesOf(null);
      RefreshConnectionList();
    }

    method RefreshConnectionList()
      modifies this`rows
      ensures rows == NamesOf(connections)
    {
      rows := [];
      for i := 0 to |connections|
        invariant |rows| == i && forall j :: 0 <= j < i ==> rows[j] == connections[j].name
      {
        rows := rows + [connections[i].name];
      }
    }

    /** From the end of the list to its start. */
    method RemoveInstancesOf(c: Connection?)
      modifies this`instances
      ensures instances == NotOf(old(instances), c)
    {
      ghost var was := instances;
      ghost var rest := seq(|was| + 1, i requires 0 <= i <= |was| reads was => NotOf(was[i..], c));
      forall i | 0 <= i < |was| ensures RemovesTo(was, c, rest, i) {
        RemoveStep(was, c, i);
      }
      assert was[..|was|] + rest[|was|] == was && was[0..] == was && was[..0] + rest[0] == rest[0];
      hide NotOf, Without;
      for i := |instances| downto 0
        invariant i <= |was| && instances == was[..i] + rest[i]
      {
        assert RemovesTo(was, c, rest, i);
        if instances[i].connection == c {
          instances := Without(instances, i);
        }
      }
    }

    method SelectedInstance(c: Connection) returns (r: ServerInstance?)
      ensures r == FirstOf(instances, c)
      ensures r == null ==> forall i :: 0 <= i < |instances| ==> instances[i].connection != c
      ensures r != null ==> exists i :: 0 <= i < |instances| && instances[i] == r && r.connection == c &&
                                        forall j :: 0 <= j < i ==> instances[j].connection != c
    {
      for i := 0 to |instances|
        invariant FirstOf(instances, c) == FirstOf(instances[i..], c)
        invariant forall j :: 0 <= j < i ==> instances[j].connection != c
      {
        assert instances[i..][1..] == instances[i + 1..];
        if instances[i].connection == c { return instances[i]; }
      }
      return null;
    }

    /** The first of "new connection", "new connection 1" and so on that no stored connection has. */
    method NewName() returns (name: string, ghost scans: nat)
      ensures FirstFreeName(NamesOf(connections), "new connection", "new connection ", 0, name)
      ensures name !in NamesOf(connections)
      ensures scans <= |connections| + 1
    {
      ghost var m: nat := 0;
      name, scans := "new connection", 0;
      var i, dupe := 1, true;
      while dupe
        invariant m == i - 1 && scans == (if dupe then m else m + 1)
        invariant name == Candidate("new connection", "new connection ", m)
        invariant forall j :: 0 <= j < m ==> Candidate("new connection", "new connection ", j) in NamesOf(connections)
        invariant !dupe ==> name !in NamesOf(connections)
        decreases |connections| - m, if dupe then 1 else 0
      {
        dupe := false;
        for k := 0 to |connections|
          invariant !dupe && forall j :: 0 <= j < k ==> connections[j].name != name
        {
          if connections[k].name == name {
            assert NamesOf(connections)[k] == name;
            name := "new connection " + Decimal(i);
            i := i + 1;
            dupe := true;
            break;
          }
        }
        scans := scans + 1;
        if dupe {
          m := m + 1;
          TakenAtMost(NamesOf(connections), "new connection", "new connection ", 0, m);
        }
      }
      TakenAtMost(NamesOf(connections), "new connection", "new connection ", 0, m);
      assert FirstFree(NamesOf(connections), "new connection", "new connection ", 0, m);
    }

    method AddInstance(driver: string, ssl: bool)
      requires Valid()
      modifies this
      ensures Valid() && (old(Attached()) ==> Attached())
      ensures |connections| == |old(connections)| + 1 && connections[..|old(connections)|] == old(connections)
      ensures instances == old(instances) && selected == |old(rows)|
      ensures var c := connections[|old(connections)|];
              fresh(c) && rows == old(rows) + [c.name] && c.name !in old(rows) && c.driver == driver &&
              c.parameters == (if ssl then map["useSSL" := "1"] else map[]) &&
              FirstFreeName(old(rows), "new connection", "new connection ", 0, c.name)
    {
      var connection := new Connection();
      var name, _ := NewName();
      hide FirstFreeName;
      rows := rows + [name];
      selected := |rows| - 1;
      connection.name := name;
      connection.driver := driver;
      if ssl {
        connection.parameters := connection.parameters["useSSL" := "1"];
      }
      connections := connections + [connection];
    }

    /** Removes the selected connection and the instances that belong to it, and selects the row before. */
    method DeleteInstance()
      requires Valid()
      modifies this
      ensures Valid() && (old(Attached()) ==> Attached())
      ensures old(selected) < 0 ==>
                connections == old(connections) && instances == old(instances) && rows == old(rows) &&
                  selected == old(selected)
      ensures old(selected) >= 0 ==>
                connections == Without(old(connections), old(selected)) && rows == Without(old(rows), old(selected)) &&
                instances == old(NotOf(instances, connections[selected])) && selected == old(selected) - 1
    {
      var row := selected;
      if row < 0 { return; }
      var conn := connections[row];
      NotOfDistinct(instances, conn);
      DistinctWithout(connections, row);
      hide NotOf, Distinct;
      RemoveInstancesOf(conn);
      connections := Without(connections, row);
      rows := Without(rows, row);
      selected := row - 1;
    }

    /** Appends a copy of the selected connection under a new name, with a copy of its instance if it has one. */
    method DuplicateInstance()
      requires Valid()
      modifies this
      ensures Valid() && (old(Attached()) ==> Attached())
      ensures old(selected) < 0 ==>
                connections == old(connections) && instances == old(instances) && rows == old(rows) &&
                  selected == old(selected)
      ensures old(selected) >= 0 ==>
                var orig := old(connections[selected]);
                |connections| == |old(connections)| + 1 && connections[..|old(connections)|] == old(connections) &&
                var copy := connections[|old(connections)|];
                fresh(copy) && rows == old(rows) + [copy.name] && copy.name !in old(rows) && CopyOf(copy, orig) &&
                FirstFreeName(old(rows), orig.name, orig.name, 1, copy.name) &&
                selected == |old(rows)| &&
                var inst := old(FirstOf(instances, connections[selected]));
                if inst == null then instances == old(instances)
                else |instances| == |old(instances)| + 1 && instances[..|old(instances)|] == old(instances) &&
                     var added := instances[|old(instances)|];
                     fresh(added) && InstanceCopyOf(added, inst, copy)
    {
      if selected < 0 { return; }
      hide FirstFreeName, FirstOf;
      var orig := connections[selected];
      var name, _ := SuggestName(rows, orig.name, true);
      var origInst := SelectedInstance(orig);
      var copy := CopyConnection(orig, name);
      hide Attached, CopyOf, InstanceCopyOf, Valid;
      AppendConnection(copy);
      AppendCopy(origInst, copy);
      assert connections[|old(connections)|] == copy;
    }

    /** A connection goes to the end of the list, and is shown and selected. */
    method AppendConnection(c: Connection)
      requires Valid() && c !in connections
      modifies this`connections, this`rows, this`selected
      ensures Valid() && (old(Attached()) ==> Attached())
      ensures connections == old(connections) + [c] && rows == old(rows) + [c.name] && selected == |old(rows)|
    {
      connections := connections + [c];
      rows := rows + [c.name];
      selected := |rows| - 1;
    }

    method AppendCopy(origInst: ServerInstance?, copy: Connection)
      requires Valid() && copy in connections
      modifies this`instances
      ensures Valid() && (old(Attached()) ==> Attached())
      ensures if origInst == null then instances == old(instances)
              else |instances| == |old(instances)| + 1 && instances[..|old(instances)|] == old(instances) &&
                   fresh(instances[|old(instances)|]) && InstanceCopyOf(instances[|old(instances)|], origInst, copy)
    {
      if origInst != null {
        var copyInst := CopyInstance(origInst, copy);
        instances := instances + [copyInst];
      }
    }

    /** Moves the selected connection by one place, if there is a place to move to; all names are shown anew. */
    method ReorderInstance(up: bool)
      requires Valid()
      modifies this
      ensures Valid() && (old(Attached()) ==> Attached()) && instances == old(instances)
      ensures var to := if up then old(selected) - 1 else old(selected) + 1;
              if old(selected) >= 0 && 0 <= to < |old(connections)| then
                selected == to && connections == Swapped(old(connections), old(selected), to)
              else
                selected == old(selected) && connections == old(connections)
    {
      hide Moved, Swapped;
      var row := selected;
      if row < 0 { return; }
      if up {
        if row > 0 {
          MovedByOneSwaps(connections, row, row - 1);
          SwapKeepsElements(connections, row, row - 1);
          connections := Moved(connections, row, row - 1);
          selected := row - 1;
        }
      } else {
        if row < |rows| - 1 {
          MovedByOneSwaps(connections, row, row + 1);
          SwapKeepsElements(connections, row, row + 1);
          connections := Moved(connections, row, row + 1);
          selected := row + 1;
        }
      }
      ShowNames();
    }

    method ShowNames()
      requires |rows| == |connections|
      modifies this`rows
      ensures rows == NamesOf(connections)
    {
      for i := 0 to |connections|
        invariant |rows| == |connections| && forall j :: 0 <= j < i ==> rows[j] == connections[j].name
      {
        rows := rows[i := connections[i].name];
      }
    }

    /**
     * Renames the selected connection to text, on screen too, and its instance to value. No field but these objects'
     * names changes.
     */
    method NameChanged(text: string, value: string)
      requires Valid()
      modifies this`rows, connections`name, instances`name
      ensures Valid() && (old(Attached()) ==> Attached())
      ensures rows == if selected < 0 then old(rows) else old(rows)[selected := text]
      ensures forall i :: 0 <= i < |instances| ==> instances[i].connection == old(instances[i].connection)
      ensures forall i :: 0 <= i < |instances| ==>
        instances[i].name ==
          if selected >= 0 && instances[i] == old(FirstOf(instances, connections[selected])) then value
          else old(instances[i].name)
    {
      hide FirstOf;
      if selected < 0 { return; }
      var connection := connections[selected];
      var instance := SelectedInstance(connection);
      connection.name := text;
      rows := rows[selected := text];
      if instance != null {
        instance.name := value;
      }
    }

    method SelectRow(row: int)
      requires Valid()
      modifies this`selected
      ensures Valid() && (old(Attached()) ==> Attached())
      ensures selected == if -1 <= row < |rows| then row else old(selected)
    {
      if -1 <= row < |rows| {
        selected := row;
      }
    }

    method Perform(a: Action)
      requires Valid()
      modifies this, connections, instances
      ensures Valid() && (old(Attached()) ==> Attached())
      ensures forall k :: 0 <= k < |connections| ==> connections[k] in old(connections) || fresh(connections[k])
      ensures forall k :: 0 <= k < |instances| ==> instances[k] in old(instances) || fresh(instances[k])
    {
      assert -1 <= selected < |connections| == |rows|;
      hide Valid, Attached, NotOf, FirstOf, NamesOf, FirstFreeName, CopyOf, InstanceCopyOf;
      match a
      case New(driver, ssl) => AddInstance(driver, ssl);
      case Remove => DeleteInstance();
      case Duplicate => DuplicateInstance();
      case Move(up) => ReorderInstance(up);
      case Rename(text, value) => NameChanged(text, value);
      case Select(row) => SelectRow(row);
    }

    /** Any run of actions keeps the rows in step with the connections and every instance attached. */
    method Run(actions: seq<Action>)
      requires Valid()
      modifies this, connections, instances
      ensures Valid() && (old(Attached()) ==> Attached())
      ensures |rows| == |connections| && forall i :: 0 <= i < |rows| ==> rows[i] == connections[i].name
    {
      for i := 0 to |actions|
        invariant Valid() && (old(Attached()) ==> Attached())
        invariant forall k :: 0 <= k < |connections| ==> connections[k] in old(connections) || fresh(connections[k])
        invariant forall k :: 0 <= k < |instances| ==> instances[k] in old(instances) || fresh(instances[k])
      {
        Perform(actions[i]);
      }
    }
  }

  twostate predicate CopyOf(new copy: Connection, orig: Connection)
    reads copy, orig
  {
    copy.driver == old(orig.driver) && copy.parameters == old(orig.parameters) &&
      copy.hostIdentifier == old(orig.hostIdentifier)
  }

  twostate predicate InstanceCopyOf(new copy: ServerInstance, orig: ServerInstance, new c: Connection)
    reads copy, orig, c
  {
    copy.name == c.name && copy.connection == c &&
    copy.loginInfo == old(orig.loginInfo) && copy.serverInfo == old(orig.serverInfo)
  }

  method CopyConnection(orig: Connection, name: string) returns (copy: Connection)
    ensures fresh(copy) && copy.name == name && copy.driver == orig.driver && copy.parameters == orig.parameters &&
            copy.hostIdentifier == orig.hostIdentifier
  {
    copy := new Connection();
    copy.name, copy.driver := name, orig.driver;
    copy.parameters := copy.parameters + orig.parameters;
    copy.hostIdentifier := orig.hostIdentifier;
  }

  method CopyInstance(orig: ServerInstance, c: Connection) returns (copy: ServerInstance)
    ensures fresh(copy) && copy.name == c.name && copy.connection == c &&
            copy.loginInfo == orig.loginInfo && copy.serverInfo == orig.serverInfo
  {
    copy := new ServerInstance();
    copy.name, copy.connection := c.name, c;
    copy.loginInfo := copy.loginInfo + orig.loginInfo;
    copy.serverInfo := copy.serverInfo + orig.serverInfo;
  }

  lemma {:induction false} NotOfDistinct(instances: seq<ServerInstance>, c: Connection?)
    requires Distinct(instances)
    ensures Distinct(NotOf(instances, c))
  {
    if instances != [] {
      NotOfDistinct(instances[1..], c);
      assert instances[0] !in instances[1..];
    }
  }

  /** Leaving out works on any two stretches separately, so what stays keeps its order. */
  lemma {:induction false} NotOfConcat(a: seq<ServerInstance>, b: seq<ServerInstance>, c: Connection?)
    ensures NotOf(a + b, c) == NotOf(a, c) + NotOf(b, c)
  {
    if a == [] {
      assert a + b == b;
    } else {
      assert (a + b)[1..] == a[1..] + b;
      NotOfConcat(a[1..], b, c);
    }
  }

  /** Looking at item i takes the list from what its tail after i leaves to what its tail from i leaves. */
  ghost predicate RemovesTo(was: seq<ServerInstance>, c: Connection?, rest: seq<seq<ServerInstance>>, i: nat)
    requires i + 1 < |rest| == |was| + 1
    reads was
  {
    var now := was[..i + 1] + rest[i + 1];
    was[..i] + rest[i] == if was[i].connection == c then Without(now, i) else now
  }

  lemma RemoveStep(list: seq<ServerInstance>, c: Connection?, i: nat)
    requires i < |list|
    ensures var now := list[..i + 1] + NotOf(list[i + 1..], c);
            list[..i] + NotOf(list[i..], c) == if list[i].connection == c then Without(now, i) else now
  {
    var tail := NotOf(list[i + 1..], c);
    assert list[i..][1..] == list[i + 1..];
    assert NotOf(list[i..], c) == (if list[i].connection == c then [] else [list[i]]) + tail;
    hide NotOf;
    assert list[..i + 1] == list[..i] + [list[i]];
    Splice(list[..i], list[i], tail);
  }
}
