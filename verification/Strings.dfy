/** Splitting and joining of strings, as in base/string_utilities. */
module Strings {
  import opened Sequences

  const NUL: char := '\U{0000}'

  /** The position of the first c from the start, or the length. */
  function IndexOf(s: string, c: char): (i: nat)
    ensures i <= |s| && (forall j :: 0 <= j < i ==> s[j] != c) && (i < |s| ==> s[i] == c)
  {
    if s == [] || s[0] == c then 0 else 1 + IndexOf(s[1..], c)
  }

  /** The stretches between the separators; always one more than there are separators. */
  function Parts(s: string, c: char): (parts: seq<string>)
    ensures parts != []
    decreases |s|
  {
    var i := IndexOf(s, c);
    if i == |s| then [s] else [s[..i]] + Parts(s[i + 1..], c)
  }

  /** As Parts, but the empty string has none. */
  function Split(s: string, c: char): seq<string> {
    if s == [] then [] else Parts(s, c)
  }

  function Join(parts: seq<string>, separator: string): string {
    if parts == [] then []
    else if |parts| == 1 then parts[0]
    else parts[0] + separator + Join(parts[1..], separator)
  }

  predicate Free(s: string, c: char) {
    forall j :: 0 <= j < |s| ==> s[j] != c
  }

  /** A buffer as a C string: up to its first NUL. */
  function CString(s: string): (r: string)
    ensures r <= s && Free(r, NUL) && (|r| < |s| ==> s[|r|] == NUL) && (Free(s, NUL) ==> r == s)
  {
    s[..IndexOf(s, NUL)]
  }

  lemma FirstPart(a: string, c: char, b: string)
    requires Free(a, c)
    ensures Parts(a + [c] + b, c) == [a] + Parts(b, c)
  {
    var s := a + [c] + b;
    IndexUnique(s, c, |a|);
    assert s[..|a|] == a && s[|a| + 1..] == b;
  }

  lemma IndexUnique(s: string, c: char, i: nat)
    requires i < |s| && s[i] == c && forall j :: 0 <= j < i ==> s[j] != c
    ensures IndexOf(s, c) == i
  {
    var k := IndexOf(s, c);
  }

  /** Splitting what was joined with single separators gives the parts back. */
  lemma {:induction false} PartsOfJoin(parts: seq<string>, c: char)
    requires parts != [] && forall i :: 0 <= i < |parts| ==> Free(parts[i], c)
    ensures Parts(Join(parts, [c]), c) == parts
  {
    if |parts| > 1 {
      PartsOfJoin(parts[1..], c);
      FirstPart(parts[0], c, Join(parts[1..], [c]));
      assert parts == [parts[0]] + parts[1..];
    }
  }

  lemma {:induction false} JoinAppend(parts: seq<string>, separator: string, n: nat)
    requires n < |parts|
    ensures Join(parts[..n + 1], separator) == Join(parts[..n], separator) + (if n > 0 then separator else "") +
            parts[n]
  {
    if n > 0 {
      var a, b := parts[..n + 1], parts[..n];
      assert a[1..] == parts[1..][..n] && b[1..] == parts[1..][..n - 1];
      JoinAppend(parts[1..], separator, n - 1);
      assert parts[1..][..n - 1 + 1] == parts[1..][..n];
    }
  }

  lemma JoinNotEmpty(parts: seq<string>)
    requires parts != [] && parts[0] != []
    ensures Join(parts, ",") != []
  {
  }

  /** Joining what was split gives the text back, and no part holds the separator. */
  lemma {:induction false} JoinOfParts(s: string, c: char)
    ensures Join(Parts(s, c), [c]) == s && forall i :: 0 <= i < |Parts(s, c)| ==> Free(Parts(s, c)[i], c)
    decreases |s|
  {
    var i := IndexOf(s, c);
    if i < |s| {
      var rest := s[i + 1..];
      JoinOfParts(rest, c);
      assert Parts(s, c)[1..] == Parts(rest, c);
      assert s == s[..i] + [c] + rest;
    }
  }

  lemma {:induction false} PartsAreFree(s: string, c: char, d: char)
    requires Free(s, d)
    ensures forall i :: 0 <= i < |Parts(s, c)| ==> Free(Parts(s, c)[i], d)
    decreases |s|
  {
    var i := IndexOf(s, c);
    if i < |s| {
      PartsAreFree(s[i + 1..], c, d);
    }
  }

  lemma {:induction false} JoinIsFree(parts: seq<string>, separator: string, d: char)
    requires Free(separator, d) && forall i :: 0 <= i < |parts| ==> Free(parts[i], d)
    ensures Free(Join(parts, separator), d)
  {
    if |parts| > 1 {
      JoinIsFree(parts[1..], separator, d);
    }
  }

  lemma FirstUnfolds(s: string, c: char)
    requires IndexOf(s, c) < |s|
    ensures Parts(s, c) == [s[..IndexOf(s, c)]] + Parts(s[IndexOf(s, c) + 1..], c)
  {
  }

  lemma NextPart(parts: seq<string>, s: string, c: char)
    requires IndexOf(s, c) < |s|
    ensures parts + Parts(s, c) == (parts + [s[..IndexOf(s, c)]]) + Parts(s[IndexOf(s, c) + 1..], c)
  {
    hide *;
    FirstUnfolds(s, c);
    Associates(parts, [s[..IndexOf(s, c)]], Parts(s[IndexOf(s, c) + 1..], c));
  }

  lemma SplitIsParts(s: string, c: char)
    requires s != []
    ensures Split(s, c) == Parts(s, c) == [] + Parts(s, c)
  {
  }

  lemma LastPart(s: string, c: char)
    requires IndexOf(s, c) == |s|
    ensures Parts(s, c) == [s]
  {
  }

  /** The splitting loop. */
  method SplitString(s: string, c: char) returns (parts: seq<string>)
    ensures parts == Split(s, c)
    ensures if s == [] then parts == []
            else Join(parts, [c]) == s && forall i :: 0 <= i < |parts| ==> c !in parts[i]
  {
    parts := [];
    if s == [] { return; }
    JoinOfParts(s, c);
    hide *;
    var ss := s;
    ghost var all := Parts(s, c);
    SplitIsParts(s, c);
    var p := IndexOf(ss, c);
    while ss != [] && p != |ss|
      invariant p == IndexOf(ss, c) && parts + Parts(ss, c) == all
      decreases |ss|
    {
      NextPart(parts, ss, c);
      parts := parts + [ss[..p]];
      ss := ss[p + 1..];
      p := IndexOf(ss, c);
    }
    LastPart(ss, c);
    parts := parts + [ss];
  }
}
