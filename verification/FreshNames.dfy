/** Numbering a name until nobody has it: candidates are all different, so n names rule out at most n of them. */
module FreshNames {

  function Digit(n: nat): char
    requires n < 10
  {
    '0' + n as char
  }

  /** A number as printed with %i. */
  function Decimal(n: nat): (s: string)
    ensures s != []
  {
    if n < 10 then [Digit(n)] else Decimal(n / 10) + [Digit(n % 10)]
  }

  function Number(s: string): int {
    if s == [] then 0 else Number(s[..|s| - 1]) * 10 + (s[|s| - 1] as int - '0' as int)
  }

  /** Candidate k: the plain name, then the prefix with 1, 2, and so on. */
  function Candidate(plain: string, prefix: string, k: nat): string {
    if k == 0 then plain else prefix + Decimal(k)
  }

  /** m is the first candidate from k on that no name in the list equals. */
  ghost predicate FirstFree(names: seq<string>, plain: string, prefix: string, k: nat, m: nat) {
    k <= m && Candidate(plain, prefix, m) !in names &&
    forall j :: k <= j < m ==> Candidate(plain, prefix, j) in names
  }

  /** The name is that candidate. */
  ghost predicate FirstFreeName(names: seq<string>, plain: string, prefix: string, k: nat, name: string) {
    exists m :: FirstFree(names, plain, prefix, k, m) && name == Candidate(plain, prefix, m)
  }

  lemma {:induction false} NumberOfDecimal(n: nat)
    ensures Number(Decimal(n)) == n
  {
    if n >= 10 {
      NumberOfDecimal(n / 10);
      var s := Decimal(n);
      assert s[..|s| - 1] == Decimal(n / 10);
    } else {
      assert Decimal(n)[..0] == [];
    }
  }

  /** Digits only, without leading zeros. */
  lemma {:induction false} DecimalDigits(n: nat)
    ensures forall i :: 0 <= i < |Decimal(n)| ==> '0' <= Decimal(n)[i] <= '9'
    ensures n > 0 ==> Decimal(n)[0] != '0'
  {
    if n >= 10 { DecimalDigits(n / 10); }
  }

  lemma DecimalSample()
    ensures Decimal(102) == "102" && Decimal(9) == "9" && Decimal(48) == "48"
  {
    assert Decimal(1) == "1" && Decimal(10) == "10" && Decimal(4) == "4";
  }

  /** The name is the prefix with number m, and the names before it are taken, from number k on. */
  ghost predicate Numbered(names: seq<string>, plain: string, prefix: string, k: nat, m: nat, name: string) {
    && 0 < m && k <= m && name == prefix + Decimal(m) && (k == 0 ==> plain in names)
    && forall j: nat :: k <= j < m && j > 0 ==> prefix + Decimal(j) in names
  }

  /** A free name: the plain one, if it may be used at all, or else the prefix with the least number that is free. */
  lemma FirstFreeNameIff(names: seq<string>, plain: string, prefix: string, k: nat, name: string)
    ensures FirstFreeName(names, plain, prefix, k, name) <==>
            name !in names && ((k == 0 && name == plain) || exists m :: Numbered(names, plain, prefix, k, m, name))
  {
    if FirstFreeName(names, plain, prefix, k, name) {
      var m: nat :| FirstFree(names, plain, prefix, k, m) && name == Candidate(plain, prefix, m);
      if m > 0 {
        forall j: nat | k <= j < m ensures if j > 0 then prefix + Decimal(j) in names else plain in names {
          assert Candidate(plain, prefix, j) in names;
        }
        assert Numbered(names, plain, prefix, k, m, name);
      }
    }
    if name !in names && k == 0 && name == plain {
      assert FirstFree(names, plain, prefix, 0, 0);
    }
    if m: nat :| name !in names && Numbered(names, plain, prefix, k, m, name) {
      forall j | k <= j < m ensures Candidate(plain, prefix, j) in names {
        assert j > 0 ==> prefix + Decimal(j) in names;
      }
      assert FirstFree(names, plain, prefix, k, m);
    }
  }

  lemma CandidatesDiffer(plain: string, prefix: string, j: nat, k: nat)
    requires |plain| <= |prefix| && j != k
    ensures Candidate(plain, prefix, j) != Candidate(plain, prefix, k)
  {
    NumberOfDecimal(j);
    NumberOfDecimal(k);
    var a, b := prefix + Decimal(j), prefix + Decimal(k);
    assert a[|prefix|..] == Decimal(j) && b[|prefix|..] == Decimal(k);
  }

  ghost function Candidates(plain: string, prefix: string, k: nat, m: nat): set<string> {
    set j | k <= j < m :: Candidate(plain, prefix, j)
  }

  lemma {:induction false} CountCandidates(plain: string, prefix: string, k: nat, m: nat)
    requires |plain| <= |prefix| && k <= m
    ensures |Candidates(plain, prefix, k, m)| == m - k
  {
    if k < m {
      CountCandidates(plain, prefix, k, m - 1);
      var c := Candidate(plain, prefix, m - 1);
      forall j | k <= j < m - 1 ensures Candidate(plain, prefix, j) != c {
        CandidatesDiffer(plain, prefix, j, m - 1);
      }
      assert Candidates(plain, prefix, k, m) == Candidates(plain, prefix, k, m - 1) + {c};
    }
  }

  lemma {:induction false} DistinctAtMost(names: seq<string>)
    ensures |set x | x in names| <= |names|
  {
    if names != [] {
      DistinctAtMost(names[1..]);
      assert (set x | x in names) == (set x | x in names[1..]) + {names[0]};
    }
  }

  /** Pigeonhole: n names take at most n candidates. */
  lemma TakenAtMost(names: seq<string>, plain: string, prefix: string, k: nat, m: nat)
    requires |plain| <= |prefix| && k <= m
    requires forall j :: k <= j < m ==> Candidate(plain, prefix, j) in names
    ensures m - k <= |names|
  {
    CountCandidates(plain, prefix, k, m);
    DistinctAtMost(names);
    var all := set x | x in names;
    assert Candidates(plain, prefix, k, m) <= all;
    SubsetSize(Candidates(plain, prefix, k, m), all);
  }

  lemma {:induction false} SubsetSize(a: set<string>, b: set<string>)
    requires a <= b
    ensures |a| <= |b|
  {
    if x :| x in a {
      SubsetSize(a - {x}, b - {x});
    }
  }

  /** The suggested name, and how often the list was searched. */
  method SuggestName(names: seq<string>, prefix: string, serial: bool) returns (name: string, ghost scans: nat)
    ensures FirstFreeName(names, prefix, prefix, if serial then 1 else 0, name)
    ensures name !in names
    ensures scans <= |names| + if serial then 2 else 1
  {
    ghost var first: nat := if serial then 1 else 0;
    var x := 1;
    name := prefix + if serial then Decimal(x) else "";
    ghost var m: nat := first;
    scans := 1;
    assert prefix + "" == prefix;
    while name in names
      invariant first <= m && (x == m + 1 || (x == 1 && m == 1)) && scans <= m - first + if serial then 2 else 1
      invariant (x == 1 && m == 1) ==> scans == 1
      invariant name == Candidate(prefix, prefix, m)
      invariant forall j :: first <= j < m ==> Candidate(prefix, prefix, j) in names
      decreases |names| + 1 - (m - first), if x == m + 1 then 0 else 1
    {
      TakenAtMost(names, prefix, prefix, first, m);
      scans := scans + 1;
      m := x;
      name := prefix + Decimal(x);
      x := x + 1;
    }
    TakenAtMost(names, prefix, prefix, first, m);
    assert FirstFree(names, prefix, prefix, first, m);
  }
}
