/** The scripting shell's snippet file: saving, loading with a bounded line buffer, and when the two are inverse. */
module SnippetFile {
  import opened Strings
  import opened Sequences

  /** A row of the snippet list: the text shown and the script behind it. */
  datatype Snippet = Snippet(name: string, script: string)

  /** How much one bounded read takes: to the newline, the limit or the end of the file, whichever comes first. */
  function LineLength(file: string, limit: nat): (n: nat)
    ensures n <= |file| && n <= limit && (file != [] && limit > 0 ==> n > 0)
  {
    var i := IndexOf(file, '\n');
    var n := if i < |file| then i + 1 else i;
    if n <= limit then n else limit
  }

  function Line(file: string, limit: nat): string {
    file[..LineLength(file, limit)]
  }

  function After(file: string, limit: nat): (rest: string)
    ensures file == Line(file, limit) + rest
    ensures file != [] && limit > 0 ==> |rest| < |file|
  {
    file[LineLength(file, limit)..]
  }

  const FIRST := 4095
  const NEXT := 4094

  /** The lines that continue a script, and what is left after the line that does not. */
  function Continued(file: string, script: string): (r: (string, string))
    ensures |r.1| <= |file| && (Free(script, NUL) ==> Free(r.0, NUL))
    decreases |file|
  {
    var l := Line(file, NEXT);
    if file == [] then (script, [])
    else if l[0] == ' ' then Continued(After(file, NEXT), script + CString(l[1..]))
    else (script, After(file, NEXT))
  }

  function NameOf(l: string): string
    requires l != []
  {
    var p := IndexOf(CString(l), '\n');
    if 0 < p < |CString(l)| then CString(l[1..p]) else CString(l[1..])
  }

  /** Drops the line break that saving added. */
  function DropLast(script: string): string {
    if script == [] then [] else script[..|script| - 1]
  }

  /** The snippets in a file. */
  function Load(file: string): seq<Snippet>
    decreases |file|
  {
    if file == [] then []
    else
      var l := Line(file, FIRST);
      var (script, rest) := Continued(After(file, FIRST), CString(l[1..]));
      [Snippet(NameOf(l), DropLast(script))] + Load(rest)
  }

  function Block(script: string): string {
    " " + Join(Parts(script, '\n'), "\n ") + "\n"
  }

  function Blocks(scripts: seq<string>): seq<string> {
    seq(|scripts|, i requires 0 <= i < |scripts| => Block(scripts[i]))
  }

  /** The file written for some scripts. */
  function Save(scripts: seq<string>): string {
    Join(Blocks(scripts), "\n")
  }

  function Scripts(nodes: seq<Snippet>): seq<string> {
    seq(|nodes|, i requires 0 <= i < |nodes| => nodes[i].script)
  }

  class InputFile {
    const text: string
    var pos: nat

    ghost predicate Valid()
      reads this
    {
      pos <= |text|
    }

    ghost function Rest(): string
      requires Valid()
      reads this
    {
      text[pos..]
    }

    constructor (text: string)
      ensures Valid() && Rest() == text
    {
      this.text, pos := text, 0;
    }

    method Fgets(size: nat) returns (ok: bool, line: string)
      requires Valid() && size > 1
      modifies this`pos
      ensures Valid()
      ensures ok == (old(Rest()) != [])
      ensures line == Line(old(Rest()), size - 1) && Rest() == After(old(Rest()), size - 1)
    {
      line := Line(text[pos..], size - 1);
      assert text[pos + |line|..] == text[pos..][|line|..];
      pos := pos + |line|;
      ok := line != [];
    }
  }

  class GRTShellWindow {
    var nodes: seq<Snippet>
    var globalSnippetCount: nat
    var userSnippetsLoaded: bool
    var snippetClicked: bool

    constructor ()
      ensures nodes == [] && globalSnippetCount == 0 && !userSnippetsLoaded && !snippetClicked
    {
      nodes, globalSnippetCount, userSnippetsLoaded, snippetClicked := [], 0, false, false;
    }

    /**
     * Writes the user's snippets, unless the file cannot be opened; and none before they have been loaded or while one
     * is being shown.
     */
    method SaveSnippets(canOpen: bool) returns (written: bool, file: string)
      requires globalSnippetCount <= |nodes|
      ensures written <==> userSnippetsLoaded && !snippetClicked && canOpen
      ensures written ==> file == Save(Scripts(nodes[globalSnippetCount..]))
    {
      written, file := false, [];
      if !userSnippetsLoaded || snippetClicked { return; }
      if !canOpen { return; }
      written := true;
      ghost var scripts := Scripts(nodes[globalSnippetCount..]);
      var c := |nodes|;
      for i := globalSnippetCount to c
        invariant file == Save(scripts[..i - globalSnippetCount])
      {
        SaveNext(scripts, i - globalSnippetCount);
        if i > globalSnippetCount {
          file := file + "\n";
        }
        var text := ReplaceString(nodes[i].script, '\n', "\n ");
        file := file + " " + text + "\n";
      }
      assert scripts[..|scripts|] == scripts;
    }

    /** Appends the snippets of a file; a file that cannot be opened adds nothing. */
    method LoadSnippetsFrom(f: InputFile?)
      requires f != null ==> f.Valid()
      modifies this`nodes, (if f == null then {} else {f})`pos
      ensures nodes == old(nodes) + (if f == null then [] else Load(old(f.Rest())))
    {
      if f != null {
        ReadSnippets(f);
      }
    }

    method ReadSnippets(f: InputFile)
      requires f.Valid()
      modifies this`nodes, f`pos
      ensures nodes == old(nodes) + Load(old(f.Rest()))
    {
      assert Load([]) == [];
      ghost var all := nodes + Load(f.Rest());
      hide Load, Continued, Line, After, NameOf, CString, DropLast;
      var ok, line := f.Fgets(4096);
      while ok
        invariant f.Valid()
        invariant ok ==> line != [] && line == Line(line + f.Rest(), FIRST)
        invariant nodes + (if ok then Load(line + f.Rest()) else []) == all
        decreases if ok then |line| + |f.Rest()| else 0
      {
        LoadStep(nodes, line, f.Rest());
        var name := NameOf(line);
        var script := ReadScript(f, CString(line[1..]));
        script := DropLast(script);
        nodes := nodes + [Snippet(name, script)];
        ok, line := f.Fgets(4096);
      }
    }

    method RefreshSnippets(globals: InputFile?, users: InputFile?)
      requires (globals != null ==> globals.Valid()) && (users != null ==> users.Valid()) && globals != users
      modifies this, (if globals == null then {} else {globals})`pos, (if users == null then {} else {users})`pos
      ensures nodes == (if globals == null then [] else Load(old(globals.Rest()))) +
              (if users == null then [] else Load(old(users.Rest())))
      ensures globalSnippetCount == |if globals == null then [] else Load(old(globals.Rest()))|
      ensures userSnippetsLoaded && snippetClicked == old(snippetClicked)
    {
      hide Load;
      nodes := [];
      LoadSnippetsFrom(globals);
      globalSnippetCount := |nodes|;
      LoadSnippetsFrom(users);
      userSnippetsLoaded := true;
    }
  }

  lemma LoadStep(nodes: seq<Snippet>, line: string, rest: string)
    requires line != [] && line == Line(line + rest, FIRST)
    ensures var c := Continued(rest, CString(line[1..]));
            nodes + Load(line + rest) == (nodes + [Snippet(NameOf(line), DropLast(c.0))]) + Load(c.1)
  {
    assert After(line + rest, FIRST) == rest;
  }

  /** The lines after the first, while they start with a space. */
  method ReadScript(f: InputFile, start: string) returns (script: string)
    requires f.Valid()
    modifies f`pos
    ensures f.Valid() && (script, f.Rest()) == Continued(old(f.Rest()), start)
    ensures |f.Rest()| <= |old(f.Rest())|
  {
    script := start;
    var ok, line := f.Fgets(4095);
    while ok && line[0] == ' '
      invariant f.Valid() && ok == (line != [])
      invariant ok ==> line == Line(line + f.Rest(), NEXT)
      invariant !ok ==> f.Rest() == []
      invariant Continued(line + f.Rest(), script) == Continued(old(f.Rest()), start)
      invariant |line| + |f.Rest()| <= |old(f.Rest())|
      decreases |line| + |f.Rest()|
    {
      script := script + CString(line[1..]);
      ok, line := f.Fgets(4095);
    }
  }

  /** The replacement loop, for a search text of one character. */
  method ReplaceString(s: string, from: char, to: string) returns (res: string)
    ensures res == Join(Parts(s, from), to)
  {
    res := [];
    var ss := s;
    var p := IndexOf(ss, from);
    ghost var all := Join(Parts(s, from), to);
    assert res + all == all;
    hide *;
    while p < |ss|
      invariant p == IndexOf(ss, from) && res + Join(Parts(ss, from), to) == all
      decreases |ss|
    {
      ReplaceStep(res, ss, from, to);
      res := if p > 0 then res + ss[..p] + to else res + to;
      ss := ss[p + 1..];
      p := IndexOf(ss, from);
    }
    JoinStep(ss, from, to);
    res := res + ss;
  }

  lemma ReplaceStep(res: string, s: string, from: char, to: string)
    requires IndexOf(s, from) < |s|
    ensures var p := IndexOf(s, from);
            res + Join(Parts(s, from), to) == (if p > 0 then res + s[..p] + to else res + to) +
              Join(Parts(s[p + 1..], from), to)
  {
    var p := IndexOf(s, from);
    JoinStep(s, from, to);
    hide *;
    Associates(res, s[..p] + to, Join(Parts(s[p + 1..], from), to));
    Associates(res, s[..p], to);
    assert p == 0 ==> s[..p] + to == to;
  }

  lemma JoinStep(s: string, from: char, to: string)
    ensures var p := IndexOf(s, from);
            Join(Parts(s, from), to) == if p < |s| then s[..p] + to + Join(Parts(s[p + 1..], from), to) else s
  {
    hide Parts, IndexOf;
    var p := IndexOf(s, from);
    if p < |s| {
      FirstUnfolds(s, from);
      var rest := Parts(s[p + 1..], from);
      assert ([s[..p]] + rest)[1..] == rest;
    } else {
      LastPart(s, from);
    }
  }

  lemma SaveNext(scripts: seq<string>, n: nat)
    requires n < |scripts|
    ensures Save(scripts[..n + 1]) == Save(scripts[..n]) + (if n > 0 then "\n" else "") + Block(scripts[n])
  {
    var b := Blocks(scripts);
    assert Blocks(scripts[..n + 1]) == b[..n + 1] && Blocks(scripts[..n]) == b[..n];
    JoinAppend(b, "\n", n);
  }

  /** A script survives when it has no NUL and each of its lines, with the space and the break, fits the buffer. */
  ghost predicate Fits(script: string) {
    var lines := Parts(script, '\n');
    Free(script, NUL) && |lines[0]| <= 4093 && forall i :: 1 <= i < |lines| ==> |lines[i]| <= 4092
  }

  ghost predicate Whole(lines: seq<string>) {
    forall i :: 0 <= i < |lines| ==> Free(lines[i], '\n')
  }

  /** The lines of a script as they stand in the file. */
  function Written(lines: seq<string>): string {
    if lines == [] then [] else " " + lines[0] + "\n" + Written(lines[1..])
  }

  /** The lines of a script, each with its line break. */
  function Ended(lines: seq<string>): string {
    if lines == [] then [] else lines[0] + "\n" + Ended(lines[1..])
  }

  /** What may follow a block: nothing, or a line that does not start with a space, the blank one saving writes say. */
  ghost predicate Separates(tail: string) {
    tail == [] || tail[0] != ' '
  }

  /** That line is dropped, whatever it holds, as far as one read takes it. */
  function Beyond(tail: string): string {
    After(tail, NEXT)
  }

  /** The text of a file: each line of a script with a space before it, and an empty line between scripts. */
  lemma SavedText(scripts: seq<string>)
    requires scripts != []
    ensures Save(scripts) == Written(Parts(scripts[0], '\n')) + if |scripts| == 1 then "" else "\n" + Save(scripts[1..])
  {
    BlockIsWritten(Parts(scripts[0], '\n'));
    hide Parts;
    SaveUnfolds(scripts);
    hide Save;
    if |scripts| > 1 { Associates(Block(scripts[0]), "\n", Save(scripts[1..])); }
  }

  lemma SavedSample()
    ensures Save(["a\nb", "c"]) == " a\n b\n\n c\n"
  {
    var scripts := ["a\nb", "c"];
    assert scripts[1..] == ["c"] && "a" + ['\n'] + "b" == "a\nb";
    hide *;
    SavedText(scripts);
    SavedText(scripts[1..]);
    FirstPart("a", '\n', "b");
    OneLine("b");
    OneLine("c");
    WrittenFirst("a", ["b"]);
  }

  lemma OneLine(l: string)
    requires Free(l, '\n')
    ensures Parts(l, '\n') == [l] && Written([l]) == " " + l + "\n"
  {
    assert Written([l][1..]) == [];
  }

  lemma WrittenFirst(l: string, rest: seq<string>)
    ensures Written([l] + rest) == " " + l + "\n" + Written(rest)
  {
    assert ([l] + rest)[1..] == rest;
  }

  lemma {:induction false} BlockIsWritten(lines: seq<string>)
    requires lines != []
    ensures " " + Join(lines, "\n ") + "\n" == Written(lines)
    ensures Ended(lines) == Join(lines, "\n") + "\n"
  {
    if |lines| > 1 {
      var rest := lines[1..];
      BlockIsWritten(rest);
      calc {
        " " + Join(lines, "\n ") + "\n";
        " " + (lines[0] + "\n " + Join(rest, "\n ")) + "\n";
        " " + lines[0] + "\n" + (" " + Join(rest, "\n ") + "\n");
      }
    }
  }

  lemma WholeLine(x: string, tail: string, limit: nat)
    requires Free(x, '\n') && |x| < limit
    ensures Line(x + "\n" + tail, limit) == x + "\n" && After(x + "\n" + tail, limit) == tail
  {
    var f := x + "\n" + tail;
    assert f[|x|] == '\n';
    IndexUnique(f, '\n', |x|);
  }

  lemma CutLine(x: string, tail: string, limit: nat)
    requires Free(x, '\n') && |x| >= limit
    ensures Line(x + tail, limit) == x[..limit] && After(x + tail, limit) == x[limit..] + tail
  {
    var f := x + tail;
    var i := IndexOf(f, '\n');
    assert forall j :: 0 <= j < |x| ==> f[j] == x[j];
    assert i >= |x|;
  }

  lemma ContinuedEnds(tail: string, script: string)
    requires Separates(tail)
    ensures Continued(tail, script) == (script, Beyond(tail))
  {
  }

  lemma ContinuedStep(l: string, tail: string, script: string)
    requires Free(l, '\n') && |l| + 2 <= NEXT
    ensures Continued(" " + l + "\n" + tail, script) == Continued(tail, script + CString(l + "\n"))
  {
    WholeLine(" " + l, tail, NEXT);
    assert (" " + l + "\n")[1..] == l + "\n";
  }

  lemma ContinuedOnce(x: string, after: string, script: string)
    requires Free(x, '\n')
    ensures Continued(x + "\n" + after, script).0 ==
            if (x + "\n")[0] != ' ' then script
            else if |x| < NEXT then Continued(after, script + CString((x + "\n")[1..])).0
            else Continued(x[NEXT..] + "\n" + after, script + CString(x[..NEXT][1..])).0
  {
    if |x| < NEXT {
      WholeLine(x, after, NEXT);
    } else {
      assert x + "\n" + after == x + ("\n" + after);
      CutLine(x, "\n" + after, NEXT);
      assert x[NEXT..] + ("\n" + after) == x[NEXT..] + "\n" + after;
    }
  }

  /** Lines that fit are read back exactly, and reading stops past the blank line. */
  lemma {:induction false} ContinuedExact(lines: seq<string>, tail: string, script: string)
    requires Whole(lines) && Separates(tail)
    requires forall i :: 0 <= i < |lines| ==> |lines[i]| + 2 <= NEXT && Free(lines[i], NUL)
    ensures Continued(Written(lines) + tail, script) == (script + Ended(lines), Beyond(tail))
  {
    if lines == [] {
      ContinuedEnds(tail, script);
      assert Written(lines) + tail == tail && script + Ended(lines) == script;
    } else {
      var l, rest := lines[0], lines[1..];
      assert Written(lines) + tail == " " + l + "\n" + (Written(rest) + tail);
      assert Ended(lines) == l + "\n" + Ended(rest);
      hide *;
      ContinuedStep(l, Written(rest) + tail, script);
      assert CString(l + "\n") == l + "\n";
      ContinuedExact(rest, tail, script + (l + "\n"));
      Associates(script, l + "\n", Ended(rest));
    }
  }

  /** A read that starts inside a line loses at least one character of it. */
  lemma {:induction false} CutAtMost(x: string, lines: seq<string>, tail: string, script: string)
    requires Free(x, '\n') && Whole(lines) && Separates(tail)
    ensures |Continued(x + "\n" + (Written(lines) + tail), script).0| <= |script| + |x| + |Ended(lines)|
    decreases |lines|, |x|
  {
    var after := Written(lines) + tail;
    assert lines == [] ==> after == tail;
    assert lines != [] ==> after == (" " + lines[0]) + "\n" + (Written(lines[1..]) + tail);
    assert |Ended(lines)| == if lines == [] then 0 else |lines[0]| + 1 + |Ended(lines[1..])|;
    assert lines != [] ==> Free(" " + lines[0], '\n') && Whole(lines[1..]);
    var taken := script + CString((if |x| < NEXT then x + "\n" else x[..NEXT])[1..]);
    ContinuedOnce(x, after, script);
    hide Continued, Line, After, LineLength, Written, Ended, IndexOf;
    if (x + "\n")[0] == ' ' {
      if |x| >= NEXT {
        CutAtMost(x[NEXT..], lines, tail, taken);
      } else if lines == [] {
        ContinuedEnds(tail, taken);
      } else {
        CutAtMost(" " + lines[0], lines[1..], tail, taken);
      }
    }
  }

  /** A line that does not fit makes the script read shorter than the one written. */
  lemma {:induction false} ContinuedShorter(lines: seq<string>, k: nat, tail: string, script: string)
    requires Whole(lines) && Separates(tail) && k < |lines| && |lines[k]| + 2 > NEXT
    ensures |Continued(Written(lines) + tail, script).0| < |script| + |Ended(lines)|
  {
    hide Continued, Line, After, LineLength, Written, Ended, IndexOf;
    var l, rest := lines[0], lines[1..];
    var after := Written(rest) + tail;
    FirstWritten(lines, tail);
    ContinuedOnce(" " + l, after, script);
    if |l| + 2 <= NEXT {
      assert (" " + l + "\n")[1..] == l + "\n";
      ContinuedShorter(rest, k - 1, tail, script + CString(l + "\n"));
    } else {
      var x := " " + l;
      CutAtMost(x[NEXT..], rest, tail, script + CString(x[..NEXT][1..]));
    }
  }

  lemma FirstWritten(lines: seq<string>, tail: string)
    requires lines != []
    ensures Written(lines) + tail == " " + lines[0] + "\n" + (Written(lines[1..]) + tail)
    ensures |Ended(lines)| == |lines[0]| + 1 + |Ended(lines[1..])|
  {
  }

  lemma {:induction false} LineInside(lines: seq<string>, k: nat)
    requires k < |lines|
    ensures |lines[k]| < |Ended(lines)|
  {
    if k > 0 {
      LineInside(lines[1..], k - 1);
    }
  }

  lemma BlockShape(script: string, tail: string)
    ensures var lines := Parts(script, '\n');
            Whole(lines) && |Ended(lines)| == |script| + 1 && Ended(lines) == script + "\n" &&
            Block(script) + tail == " " + lines[0] + "\n" + (Written(lines[1..]) + tail)
  {
    var lines := Parts(script, '\n');
    BlockIsWritten(lines);
    JoinOfParts(script, '\n');
    FirstWritten(lines, tail);
  }

  lemma NameOfLine(l: string)
    requires Free(l, NUL) && Free(l, '\n')
    ensures NameOf(" " + l + "\n") == l
  {
    var line := " " + l + "\n";
    assert CString(line) == line;
    assert line[|l| + 1] == '\n' && line[1..|l| + 1] == l;
    IndexUnique(line, '\n', |l| + 1);
  }

  lemma FirstLineWhole(l: string, after: string)
    requires Free(l, '\n') && |l| + 2 <= FIRST
    ensures var c := Continued(after, CString(l + "\n"));
            Load(" " + l + "\n" + after) == [Snippet(NameOf(" " + l + "\n"), DropLast(c.0))] + Load(c.1)
  {
    WholeLine(" " + l, after, FIRST);
    assert (" " + l + "\n")[1..] == l + "\n";
  }

  /** A script that fits is read back whole, named after its first line, and leaves the next block to be read. */
  lemma BlockRead(script: string, tail: string)
    requires Fits(script) && Separates(tail)
    ensures Load(Block(script) + tail) == [Snippet(Parts(script, '\n')[0], script)] + Load(Beyond(tail))
  {
    var lines := Parts(script, '\n');
    var l, rest := lines[0], lines[1..];
    PartsAreFree(script, '\n', NUL);
    BlockShape(script, tail);
    assert Ended(lines) == l + "\n" + Ended(rest);
    assert CString(l + "\n") == l + "\n";
    assert DropLast(script + "\n") == script;
    hide Load, Continued, Line, After, LineLength, Written, Ended, IndexOf, Block, Parts, NameOf, DropLast, CString;
    FirstLineWhole(l, Written(rest) + tail);
    ContinuedExact(rest, tail, l + "\n");
    NameOfLine(l);
  }

  /** Any other script is read back as something else. */
  lemma BlockMisread(script: string, tail: string)
    requires !Fits(script) && Separates(tail)
    ensures var nodes := Load(Block(script) + tail); nodes != [] && nodes[0].script != script
  {
    var f := Block(script) + tail;
    var taken := Continued(After(f, FIRST), CString(Line(f, FIRST)[1..])).0;
    assert Load(f)[0].script == DropLast(taken);
    assert Free(taken, NUL);
    if Free(script, NUL) {
      TakenShorter(script, tail);
    } else {
      assert Free(DropLast(taken), NUL);
    }
  }

  lemma TakenShorter(script: string, tail: string)
    requires !Fits(script) && Free(script, NUL) && Separates(tail)
    ensures var f := Block(script) + tail;
            |Continued(After(f, FIRST), CString(Line(f, FIRST)[1..])).0| <= |script| && script != []
  {
    var lines := Parts(script, '\n');
    var l, rest := lines[0], lines[1..];
    var after := Written(rest) + tail;
    BlockShape(script, tail);
    FirstWritten(lines, tail);
    assert Whole(rest) && Free(" " + l, '\n');
    var k :| 0 <= k < |lines| && |lines[k]| + 2 > (if k == 0 then FIRST else NEXT);
    LineInside(lines, k);
    assert forall j :: 1 <= j < |lines| ==> rest[j - 1] == lines[j];
    hide *;
    if |l| + 2 <= FIRST {
      FirstFits(l, rest, k - 1, tail);
    } else {
      FirstCut(l, rest, tail);
    }
  }

  lemma FirstFits(l: string, rest: seq<string>, k: nat, tail: string)
    requires Free(l, '\n') && |l| + 2 <= FIRST && Whole(rest) && Separates(tail)
    requires k < |rest| && |rest[k]| + 2 > NEXT
    ensures var f := " " + l + "\n" + (Written(rest) + tail);
            |Continued(After(f, FIRST), CString(Line(f, FIRST)[1..])).0| <= |l| + |Ended(rest)|
  {
    hide Continued, Line, After, LineLength, Written, Ended, IndexOf;
    WholeLine(" " + l, Written(rest) + tail, FIRST);
    assert (" " + l + "\n")[1..] == l + "\n";
    ContinuedShorter(rest, k, tail, CString(l + "\n"));
  }

  lemma FirstCut(l: string, rest: seq<string>, tail: string)
    requires Free(l, '\n') && |l| + 2 > FIRST && Whole(rest) && Separates(tail)
    ensures var f := " " + l + "\n" + (Written(rest) + tail);
            |Continued(After(f, FIRST), CString(Line(f, FIRST)[1..])).0| <= |l| + |Ended(rest)|
  {
    hide Continued, Line, After, LineLength, Written, Ended, IndexOf;
    var x, after := " " + l, Written(rest) + tail;
    assert x + "\n" + after == x + ("\n" + after);
    CutLine(x, "\n" + after, FIRST);
    assert x[FIRST..] + ("\n" + after) == x[FIRST..] + "\n" + after;
    CutAtMost(x[FIRST..], rest, tail, CString(x[..FIRST][1..]));
  }

  /** The rows a list of scripts should come back as. */
  function Named(scripts: seq<string>): seq<Snippet> {
    seq(|scripts|, i requires 0 <= i < |scripts| => Snippet(Parts(scripts[i], '\n')[0], scripts[i]))
  }

  ghost predicate AllFit(scripts: seq<string>) {
    forall i :: 0 <= i < |scripts| ==> Fits(scripts[i])
  }

  lemma SaveUnfolds(scripts: seq<string>)
    requires scripts != []
    ensures Save(scripts) == if |scripts| == 1 then Block(scripts[0]) else Block(scripts[0]) + "\n" + Save(scripts[1..])
  {
    var b := Blocks(scripts);
    assert b[1..] == Blocks(scripts[1..]);
    hide Block;
  }

  /** The first block, and what follows it. */
  lemma SaveFirst(scripts: seq<string>) returns (tail: string)
    requires scripts != []
    ensures Separates(tail) && Beyond(tail) == Save(scripts[1..]) && Save(scripts) == Block(scripts[0]) + tail
  {
    var rest := Save(scripts[1..]);
    assert |scripts| == 1 ==> rest == [];
    tail := if |scripts| == 1 then [] else "\n" + rest;
    if |scripts| > 1 { WholeLine("", rest, NEXT); }
    assert "" + "\n" + rest == "\n" + rest && Separates(tail) && Beyond(tail) == rest;
    SaveUnfolds(scripts);
    hide *;
    Associates(Block(scripts[0]), "\n", rest);
  }

  lemma RowsFirst(scripts: seq<string>, nodes: seq<Snippet>)
    requires scripts != []
    ensures var node := Snippet(Parts(scripts[0], '\n')[0], scripts[0]);
            Named(scripts) == [node] + Named(scripts[1..]) &&
            (Scripts([node] + nodes) == scripts <==> Scripts(nodes) == scripts[1..])
  {
    var node := Snippet(Parts(scripts[0], '\n')[0], scripts[0]);
    assert Scripts([node] + nodes) == [node.script] + Scripts(nodes);
    assert scripts == [scripts[0]] + scripts[1..];
  }

  /**
   * Saving and loading are inverse exactly when every script fits the line buffer; then each row is named after the
   * first line of its script.
   */
  lemma {:induction false} SnippetRoundTripIff(scripts: seq<string>)
    ensures AllFit(scripts) ==> Load(Save(scripts)) == Named(scripts)
    ensures Scripts(Load(Save(scripts))) == scripts <==> AllFit(scripts)
  {
    if scripts != [] {
      var tail := SaveFirst(scripts);
      assert AllFit(scripts) <==> Fits(scripts[0]) && AllFit(scripts[1..]);
      var nodes := Load(Save(scripts));
      assert nodes != [] && nodes[0].script != scripts[0] ==> Scripts(nodes)[0] != scripts[0];
      hide *;
      SnippetRoundTripIff(scripts[1..]);
      if Fits(scripts[0]) {
        BlockRead(scripts[0], tail);
        RowsFirst(scripts, Load(Save(scripts[1..])));
      } else {
        BlockMisread(scripts[0], tail);
      }
    }
  }
}
