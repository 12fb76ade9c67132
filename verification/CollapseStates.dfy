/** Saving and restoring which sections of a sidebar are collapsed. */
module CollapseStates {
  import opened FreshNames
  import opened Strings
  import opened Sequences

  class SidebarSection {
    const name: string
    var expanded: bool

    constructor (name: string, expanded: bool)
      ensures this.name == name && this.expanded == expanded
    {
      this.name, this.expanded := name, expanded;
    }

    method ToggleExpand()
      modifies this
      ensures expanded == !old(expanded)
    {
      expanded := !expanded;
    }
  }

  /** One section's entry: its name, '=' and 1 when it is collapsed. */
  function Entry(name: string, expanded: bool): string {
    name + (if expanded then "=0" else "=1")
  }

  function Entries(names: seq<string>, flags: seq<bool>): (e: seq<string>)
    requires |names| == |flags|
    ensures |e| == |names|
  {
    seq(|names|, i requires 0 <= i < |names| => Entry(names[i], flags[i]))
  }

  /** The saved text. */
  function Saved(names: seq<string>, flags: seq<bool>): string
    requires |names| == |flags|
  {
    Join(Entries(names, flags), ",")
  }

  function LastIndex(s: string, c: char): (i: int)
    ensures -1 <= i < |s| && (i >= 0 ==> s[i] == c) && forall j :: i < j < |s| ==> s[j] != c
  {
    if s == [] then -1 else if s[|s| - 1] == c then |s| - 1 else LastIndex(s[..|s| - 1], c)
  }

  /** The first index of a name, or -1. */
  function Find(names: seq<string>, name: string): (i: int)
    ensures -1 <= i < |names| && (i >= 0 ==> names[i] == name)
    ensures forall j :: 0 <= j < (if i == -1 then |names| else i) ==> names[j] != name
  {
    if names == [] then -1
    else if names[0] == name then 0
    else
      var i := Find(names[1..], name);
      if i == -1 then -1 else i + 1
  }

  /** The text after '=' read as a number, as far as the decision "is it zero" goes. */
  predicate NonZero(text: string) {
    var digits := LeadingDigits(Unsigned(SkipSpace(text)));
    digits != [] && InRange(text, DigitsValue(digits)) && DigitsValue(digits) != 0
  }

  function SkipSpace(s: string): string {
    if s != [] && (s[0] == ' ' || '\t' <= s[0] <= '\r') then SkipSpace(s[1..]) else s
  }

  function Unsigned(s: string): string {
    if s != [] && (s[0] == '+' || s[0] == '-') then s[1..] else s
  }

  function LeadingDigits(s: string): string {
    if s != [] && '0' <= s[0] <= '9' then [s[0]] + LeadingDigits(s[1..]) else []
  }

  function DigitsValue(d: string): nat {
    if d == [] then 0
    else DigitsValue(d[..|d| - 1]) * 10 + (if '0' <= d[|d| - 1] <= '9' then (d[|d| - 1] - '0') as int else 0)
  }

  /** A number that does not fit a 32-bit integer is read as the default, zero. */
  predicate InRange(text: string, value: nat) {
    var s := SkipSpace(text);
    value < 0x8000_0000 || (value == 0x8000_0000 && s != [] && s[0] == '-')
  }

  /**
   * A number with white space and a sign before it and anything but a digit after it counts as "not zero" exactly when
   * it is neither zero nor too large for 32 bits.
   */
  lemma NumberRead(blank: string, sign: string, n: nat, rest: string)
    requires forall i :: 0 <= i < |blank| ==> blank[i] == ' ' || 9 <= blank[i] as int <= 13
    requires sign == "" || sign == "+" || sign == "-"
    requires rest != [] ==> !('0' <= rest[0] <= '9')
    ensures NonZero(blank + sign + Decimal(n) + rest) <==>
            0 < n < 0x8000_0000 || (n == 0x8000_0000 && sign == "-")
  {
    var d := Decimal(n);
    var s := sign + d + rest;
    hide SkipSpace, LeadingDigits, DigitsValue, Decimal, Unsigned;
    DecimalDigits(n);
    DigitsFirst(d, rest);
    DecimalValue(n);
    SignTaken(sign, d, rest);
    SpaceSkipped(blank, s);
    assert blank + sign + d + rest == blank + s;
  }

  lemma SignTaken(sign: string, d: string, rest: string)
    requires sign == "" || sign == "+" || sign == "-"
    requires d != [] && '0' <= d[0] <= '9'
    ensures var s := sign + d + rest;
            Unsigned(s) == d + rest && s[0] > ' ' && (s[0] == '-' <==> sign == "-")
  {
    var s := sign + d + rest;
    if sign == [] {
      assert s == d + rest && s[0] == d[0];
    } else {
      assert s[0] == sign[0] && s[1..] == d + rest;
    }
  }

  /** Without a digit in that place nothing is read. */
  lemma NothingRead(blank: string, sign: string, rest: string)
    requires forall i :: 0 <= i < |blank| ==> blank[i] == ' ' || 9 <= blank[i] as int <= 13
    requires sign == "" || sign == "+" || sign == "-"
    requires rest != [] ==> !('0' <= rest[0] <= '9')
    requires sign == "" && rest != [] ==> rest[0] > ' ' && rest[0] != '+' && rest[0] != '-'
    ensures !NonZero(blank + sign + rest)
  {
    var s := sign + rest;
    assert sign != [] ==> s[0] == sign[0] && s[1..] == rest;
    assert sign == [] ==> s == rest;
    SpaceSkipped(blank, s);
    assert blank + sign + rest == blank + s;
  }

  lemma {:induction false} SpaceSkipped(blank: string, s: string)
    requires forall i :: 0 <= i < |blank| ==> blank[i] == ' ' || 9 <= blank[i] as int <= 13
    requires s != [] ==> s[0] > ' '
    ensures SkipSpace(blank + s) == s
  {
    if blank == [] {
      assert blank + s == s;
    } else {
      assert (blank + s)[1..] == blank[1..] + s;
      SpaceSkipped(blank[1..], s);
    }
  }

  lemma {:induction false} DigitsFirst(d: string, rest: string)
    requires forall i :: 0 <= i < |d| ==> '0' <= d[i] <= '9'
    requires rest != [] ==> !('0' <= rest[0] <= '9')
    ensures LeadingDigits(d + rest) == d
  {
    if d == [] {
      assert d + rest == rest;
    } else {
      assert (d + rest)[1..] == d[1..] + rest;
      DigitsFirst(d[1..], rest);
    }
  }

  lemma {:induction false} DecimalValue(n: nat)
    ensures DigitsValue(Decimal(n)) == n
  {
    var d := Decimal(n);
    if n < 10 {
      assert d[..0] == [];
    } else {
      assert d[..|d| - 1] == Decimal(n / 10);
      DecimalValue(n / 10);
    }
  }

  /** The flags after one saved entry has been applied. */
  function ApplyEntry(names: seq<string>, flags: seq<bool>, entry: string): (r: seq<bool>)
    requires |names| == |flags|
    ensures |r| == |flags|
  {
    var p := LastIndex(entry, '=');
    if p < 0 then flags
    else
      var i := Find(names, entry[..p]);
      if i < 0 then flags else flags[i := !NonZero(entry[p + 1..])]
  }

  function ApplyEntries(names: seq<string>, flags: seq<bool>, entries: seq<string>): (r: seq<bool>)
    requires |names| == |flags|
    ensures |r| == |flags|
    decreases |entries|
  {
    if entries == [] then flags
    else ApplyEntry(names, ApplyEntries(names, flags, entries[..|entries| - 1]), entries[|entries| - 1])
  }

  class SimpleSidebar {
    var sections: seq<SidebarSection>

    ghost predicate Valid()
      reads this
    {
      Distinct(sections)
    }

    ghost function Names(): (names: seq<string>)
      reads this
      ensures |names| == |sections|
    {
      seq(|sections|, i requires 0 <= i < |sections| reads this => sections[i].name)
    }

    ghost function Flags(): (flags: seq<bool>)
      reads this, sections
      ensures |flags| == |sections|
    {
      seq(|sections|, i requires 0 <= i < |sections| reads this, sections => sections[i].expanded)
    }

    constructor (sections: seq<SidebarSection>)
      requires Distinct(sections)
      ensures Valid() && this.sections == sections
    {
      this.sections := sections;
    }

    method FindSection(name: string) returns (i: int)
      ensures i == Find(Names(), name)
    {
      for k := 0 to |sections|
        invariant forall j :: 0 <= j < k ==> Names()[j] != name
      {
        if sections[k].name == name {
          FindAt(Names(), name, k);
          return k;
        }
      }
      return -1;
    }

    method GetCollapseStates() returns (states: string)
      ensures states == Saved(Names(), Flags())
      ensures states == Join(seq(|sections|, i requires 0 <= i < |sections| reads this, sections =>
                                   sections[i].name + if sections[i].expanded then "=0" else "=1"), ",")
    {
      states := [];
      ghost var e := Entries(Names(), Flags());
      for i := 0 to |sections|
        invariant states == Join(e[..i], ",")
      {
        JoinAppend(e, ",", i);
        if i > 0 {
          states := states + ",";
        }
        states := states + sections[i].name + (if !sections[i].expanded then "=1" else "=0");
      }
      assert e[..|sections|] == e;
      assert e == seq(|sections|, i requires 0 <= i < |sections| reads this, sections =>
                        sections[i].name + if sections[i].expanded then "=0" else "=1");
    }

    /** One saved entry; one without '=' or with an unknown name is passed over. */
    method Restore(entry: string)
      requires Valid()
      modifies sections
      ensures Flags() == ApplyEntry(Names(), old(Flags()), entry)
    {
      var ptr := LastIndex(entry, '=');
      if ptr < 0 { return; }
      var section := FindSection(entry[..ptr]);
      if section < 0 { return; }
      if NonZero(entry[ptr + 1..]) == sections[section].expanded {
        sections[section].ToggleExpand();
      }
    }

    method SetCollapseStates(data: string)
      requires Valid()
      modifies sections
      ensures Flags() == ApplyEntries(Names(), old(Flags()), Split(data, ','))
    {
      var collapsed := SplitString(data, ',');
      for k := 0 to |collapsed|
        invariant Flags() == ApplyEntries(Names(), old(Flags()), collapsed[..k])
      {
        assert collapsed[..k + 1][..k] == collapsed[..k];
        Restore(collapsed[k]);
      }
      assert collapsed[..|collapsed|] == collapsed;
    }
  }

  lemma FindAt(names: seq<string>, name: string, k: nat)
    requires k < |names| && names[k] == name && forall j :: 0 <= j < k ==> names[j] != name
    ensures Find(names, name) == k
  {
    var i := Find(names, name);
  }

  /** Any entry: what is after the last '=' decides for the first section named by what is before it. */
  lemma EntryMeans(names: seq<string>, flags: seq<bool>, name: string, text: string)
    requires |names| == |flags| && '=' !in text
    ensures ApplyEntry(names, flags, text) == flags
    ensures ApplyEntry(names, flags, name + "=" + text) ==
            if Find(names, name) < 0 then flags else flags[Find(names, name) := !NonZero(text)]
  {
    var e := name + "=" + text;
    var p := LastIndex(e, '=');
    assert e[|name|] == '=';
    assert forall j :: |name| < j < |e| ==> e[j] == text[j - |name| - 1] && e[j] != '=';
    assert p == |name| && e[..p] == name && e[p + 1..] == text;
    hide NonZero, Find;
  }

  /** A saved entry sets the flag of the section it names and no other. */
  lemma EntryApplies(names: seq<string>, flags: seq<bool>, name: string, expanded: bool)
    requires |names| == |flags|
    ensures ApplyEntry(names, flags, name + if expanded then "=0" else "=1") ==
            if Find(names, name) < 0 then flags else flags[Find(names, name) := expanded]
  {
    var e := Entry(name, expanded);
    var p := LastIndex(e, '=');
    assert e[|name|] == '=' && e[|name| + 1] != '=';
    assert p == |name| && e[..p] == name;
    var digit := e[p + 1..];
    assert digit == if expanded then "0" else "1";
    assert LeadingDigits(digit)[1..] == [] && LeadingDigits(digit) == digit && digit[..0] == [];
    assert DigitsValue(digit) == if expanded then 0 else 1;
  }

  lemma FindDistinct(names: seq<string>, name: string, k: nat)
    requires Distinct(names) && k < |names|
    ensures Find(names, name) == k <==> names[k] == name
  {
    if names[k] == name {
      FindAt(names, name, k);
    }
  }

  /** A saved entry decides section j exactly when it bears its name. */
  lemma EntryDecides(names: seq<string>, flags: seq<bool>, name: string, expanded: bool, j: nat)
    requires |names| == |flags| && Distinct(names) && j < |names|
    ensures ApplyEntry(names, flags, Entry(name, expanded))[j] == if names[j] == name then expanded else flags[j]
  {
    assert Entry(name, expanded) == name + if expanded then "=0" else "=1";
    hide ApplyEntry, Entry;
    EntryApplies(names, flags, name, expanded);
    FindDistinct(names, name, j);
  }

  lemma ApplyLast(names: seq<string>, flags: seq<bool>, e: seq<string>, n: nat)
    requires |names| == |flags| && 0 < n <= |e|
    ensures ApplyEntries(names, flags, e[..n]) == ApplyEntry(names, ApplyEntries(names, flags, e[..n - 1]), e[n - 1])
  {
    hide ApplyEntry;
    assert e[..n][..n - 1] == e[..n - 1];
  }

  /**
   * Round trip: the text saved from one sidebar, applied to any sidebar in any state, gives each of its sections
   * that has a namesake in the saved one the namesake's flag, and leaves the others alone.
   */
  lemma {:induction false} StatesRestored(names: seq<string>, flags: seq<bool>, n: nat, names': seq<string>,
                                          flags': seq<bool>, j: nat)
    requires |names| == |flags| && |names'| == |flags'| && n <= |names| && j < |names'|
    requires Distinct(names) && Distinct(names')
    ensures var i := Find(names, names'[j]);
            ApplyEntries(names', flags', Entries(names, flags)[..n])[j] == if 0 <= i < n then flags[i] else flags'[j]
  {
    if n > 0 {
      var e := Entries(names, flags);
      assert e[n - 1] == Entry(names[n - 1], flags[n - 1]);
      hide *;
      StatesRestored(names, flags, n - 1, names', flags', j);
      ApplyLast(names', flags', e, n);
      EntryDecides(names', ApplyEntries(names', flags', e[..n - 1]), names[n - 1], flags[n - 1], j);
      FindDistinct(names, names'[j], n - 1);
    }
  }

  /** With comma-free names the saved text splits into its entries again, so saving and restoring is exact. */
  lemma CollapseRoundTrip(names: seq<string>, flags: seq<bool>, names': seq<string>, flags': seq<bool>)
    requires |names| == |flags| && |names'| == |flags'| && Distinct(names) && Distinct(names')
    requires forall i :: 0 <= i < |names| ==> Free(names[i], ',')
    ensures var r := ApplyEntries(names', flags', Split(Saved(names, flags), ','));
            forall j :: 0 <= j < |names'| ==>
              r[j] == var i := Find(names, names'[j]); if i >= 0 then flags[i] else flags'[j]
  {
    var e := Entries(names, flags);
    SavedSplits(names, flags);
    forall j | 0 <= j < |names'|
      ensures ApplyEntries(names', flags', e)[j] ==
              var i := Find(names, names'[j]); if i >= 0 then flags[i] else flags'[j]
    {
      StatesRestored(names, flags, |names|, names', flags', j);
      assert e[..|names|] == e;
    }
  }

  lemma SavedSplits(names: seq<string>, flags: seq<bool>)
    requires |names| == |flags|
    requires forall i :: 0 <= i < |names| ==> Free(names[i], ',')
    ensures Split(Saved(names, flags), ',') == Entries(names, flags)
  {
    var e := Entries(names, flags);
    if names != [] {
      PartsOfJoin(e, ',');
      JoinNotEmpty(e);
    }
  }
}
