/** The argument list of a user-defined type: quoted strings separated by commas, parsed and printed. */
module ArgumentList {
  import opened Strings

  /** White space in the sense of GLib's g_ascii_isspace. */
  predicate IsSpace(c: char) {
    c == ' ' || c == '\t' || c == '\n' || c == '\U{000C}' || c == '\r'
  }

  function StripLeft(s: string): string {
    if s != [] && IsSpace(s[0]) then StripLeft(s[1..]) else s
  }

  function StripRight(s: string): string {
    if s != [] && IsSpace(s[|s| - 1]) then StripRight(s[..|s| - 1]) else s
  }

  function Strip(s: string): string { StripLeft(StripRight(s)) }

  /** Takes the quotes off a part that starts with one; a closing quote may be missing. */
  function Unquote(s: string): string {
    if s != [] && s[0] == '\'' then
      var t := s[1..];
      if t != [] && t[|t| - 1] == '\'' then t[..|t| - 1] else t
    else s
  }

  function Quote(s: string): string { "'" + s + "'" }

  function ParseParts(parts: seq<string>): (list: seq<string>)
    ensures |list| == |parts|
  {
    seq(|parts|, i requires 0 <= i < |parts| => Unquote(Strip(parts[i])))
  }

  /** The list behind an argument text, which is read as a C string. */
  function Parsed(args: string): seq<string> { ParseParts(Split(CString(args), ',')) }

  function Quoted(list: seq<string>): (q: seq<string>)
    ensures |q| == |list|
  {
    seq(|list|, i requires 0 <= i < |list| => Quote(list[i]))
  }

  /** The argument text of a list. */
  function Printed(list: seq<string>): string { Join(Quoted(list), ", ") }

  method ParseArguments(args: string) returns (list: seq<string>)
    ensures list == Parsed(args)
    ensures var parts := Split(CString(args), ',');
            |list| == |parts| && forall i :: 0 <= i < |list| ==> list[i] == Unquote(Strip(parts[i]))
  {
    list := [];
    var parts := SplitString(CString(args), ',');
    for i := 0 to |parts|
      invariant list == ParseParts(parts)[..i]
    {
      var p := Strip(parts[i]);
      if p != [] && p[0] == '\'' {
        p := p[1..];
        if p != [] && p[|p| - 1] == '\'' {
          p := p[..|p| - 1];
        }
      }
      list := list + [p];
    }
  }

  method PrintArguments(list: seq<string>) returns (args: string)
    ensures args == Printed(list)
    ensures args == Join(seq(|list|, i requires 0 <= i < |list| => "'" + list[i] + "'"), ", ")
  {
    args := [];
    ghost var q := Quoted(list);
    for i := 0 to |list|
      invariant args == Join(q[..i], ", ")
      invariant i > 0 ==> args != []
    {
      JoinAppend(q, ", ", i);
      if args != [] {
        args := args + ", ";
      }
      args := args + "'" + list[i] + "'";
    }
    assert q[..|list|] == q;
    assert q == seq(|list|, i requires 0 <= i < |list| => "'" + list[i] + "'");
  }

  predicate Blank(s: string) {
    forall i :: 0 <= i < |s| ==> s[i] == ' ' || 9 <= s[i] as int <= 10 || 12 <= s[i] as int <= 13
  }

  /** What a part stands for: what is left without white space around it, and without quotes if it starts with one. */
  lemma PartMeans(before: string, core: string, after: string)
    requires Blank(before) && Blank(after)
    requires core != [] ==> !Blank([core[0]]) && !Blank([core[|core| - 1]])
    ensures Unquote(Strip(before + core + after)) ==
            if core == [] || core[0] != '\'' then core
            else if |core| >= 2 && core[|core| - 1] == '\'' then core[1..|core| - 1]
            else core[1..]
  {
    StripAfter(before + core, after);
    if core == [] {
      assert before + core == before;
      StripAfter([], before);
      assert [] + before == before;
    } else {
      var s := before + core;
      assert s[|s| - 1] == core[|core| - 1] && !IsSpace(s[|s| - 1]) by { assert Blank([' ']); }
      StripBefore(before, core);
    }
  }

  lemma {:induction false} StripAfter(s: string, after: string)
    requires Blank(after)
    ensures StripRight(s + after) == StripRight(s)
  {
    if after == [] {
      assert s + after == s;
    } else {
      var n := |after| - 1;
      assert (s + after)[..|s| + n] == s + after[..n];
      StripAfter(s, after[..n]);
    }
  }

  lemma {:induction false} StripBefore(before: string, s: string)
    requires Blank(before) && (s != [] ==> !Blank([s[0]]))
    ensures StripLeft(before + s) == s
  {
    if before == [] {
      assert before + s == s;
    } else {
      assert (before + s)[1..] == before[1..] + s;
      StripBefore(before[1..], s);
    }
  }

  /** A printed text is its quoted strings joined by plain commas, with a space before all but the first. */
  function Spaced(q: seq<string>): (s: seq<string>)
    ensures |s| == |q|
  {
    seq(|q|, i requires 0 <= i < |q| => if i == 0 then q[0] else " " + q[i])
  }

  lemma {:induction false} JoinSpaced(q: seq<string>)
    ensures Join(q, ", ") == Join(Spaced(q), ",")
  {
    if |q| > 1 {
      JoinSpaced(q[1..]);
      var s, t := Spaced(q), Spaced(q[1..]);
      assert s[1..] == [" " + q[1]] + t[1..];
      JoinPrefix(" ", q[1], t[1..]);
      assert t == [q[1]] + t[1..];
    }
  }

  lemma JoinPrefix(a: string, first: string, rest: seq<string>)
    ensures Join([a + first] + rest, ",") == a + Join([first] + rest, ",")
  {
    assert ([a + first] + rest)[1..] == rest && ([first] + rest)[1..] == rest;
  }

  lemma QuotedIsKept(s: string, spaced: bool)
    ensures Unquote(Strip((if spaced then " " else "") + Quote(s))) == s
  {
    var q := Quote(s);
    var p := (if spaced then " " else "") + q;
    assert p[|p| - 1] == '\'' && !IsSpace('\'');
    assert StripRight(p) == p;
    if spaced {
      assert p[1..] == q;
    } else {
      assert p == q;
    }
    assert q[0] == '\'' && StripLeft(q) == q;
    assert q[1..] == s + "'";
  }

  ghost predicate AllFree(list: seq<string>, c: char) {
    forall i :: 0 <= i < |list| ==> Free(list[i], c)
  }

  lemma PrintedIsFree(list: seq<string>)
    requires AllFree(list, NUL)
    ensures Free(Printed(list), NUL) && CString(Printed(list)) == Printed(list)
  {
    JoinIsFree(Quoted(list), ", ", NUL);
  }

  /** Nothing parsed ever holds a NUL or a comma. */
  lemma ParsedIsFree(args: string)
    ensures AllFree(Parsed(args), NUL) && AllFree(Parsed(args), ',')
  {
    var parts := Split(CString(args), ',');
    PartsAreFree(CString(args), ',', NUL);
    JoinOfParts(CString(args), ',');
    forall i | 0 <= i < |parts|
      ensures Free(Parsed(args)[i], NUL) && Free(Parsed(args)[i], ',')
    {
      StripFree(parts[i], NUL);
      StripFree(parts[i], ',');
    }
  }

  /** Comma-free strings without NUL, quotes and spaces included, come back as they were. */
  lemma CommaFreeRoundTrip(list: seq<string>)
    requires AllFree(list, ',') && AllFree(list, NUL)
    ensures Parsed(Printed(list)) == list
  {
    PrintedIsFree(list);
    if list != [] {
      var q := Quoted(list);
      var s := Spaced(q);
      JoinSpaced(q);
      PartsOfJoin(s, ',');
      assert Printed(list) != [] by { JoinNotEmpty(s); }
      forall i | 0 <= i < |list|
        ensures ParseParts(s)[i] == list[i]
      {
        QuotedIsKept(list[i], i > 0);
        assert i == 0 ==> "" + q[0] == q[0];
      }
    }
  }

  /** Round trip: printing and parsing gives the list back exactly when none of its strings holds a comma or a NUL. */
  lemma ArgumentRoundTripIff(list: seq<string>)
    ensures Parsed(Printed(list)) == list <==> AllFree(list, ',') && AllFree(list, NUL)
  {
    if AllFree(list, ',') && AllFree(list, NUL) {
      CommaFreeRoundTrip(list);
    } else {
      ParsedIsFree(Printed(list));
    }
  }

  /** Whatever a user typed, printing what was parsed from it and parsing again changes nothing. */
  lemma ParsedIsStable(args: string)
    ensures Parsed(Printed(Parsed(args))) == Parsed(args)
  {
    ParsedIsFree(args);
    CommaFreeRoundTrip(Parsed(args));
  }

  lemma StripFree(s: string, c: char)
    requires Free(s, c)
    ensures Free(Unquote(Strip(s)), c)
  {
    StripRightFree(s, c);
    StripLeftFree(StripRight(s), c);
  }

  lemma {:induction false} StripLeftFree(s: string, c: char)
    requires Free(s, c)
    ensures Free(StripLeft(s), c)
  {
    if s != [] && IsSpace(s[0]) { StripLeftFree(s[1..], c); }
  }

  lemma {:induction false} StripRightFree(s: string, c: char)
    requires Free(s, c)
    ensures Free(StripRight(s), c)
  {
    if s != [] && IsSpace(s[|s| - 1]) { StripRightFree(s[..|s| - 1], c); }
  }
}
