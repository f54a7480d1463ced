/** Paths as the names of their nodes, from the top; the root is one empty name. And their sort orders. */
module Paths {
  type Path = p: seq<string> | p != [] witness [""]

  const ROOT: Path := [""]

  /** The path above, for paths that have one. */
  function Parent(p: Path): Path
    requires |p| > 1
  {
    p[..|p| - 1]
  }

  /** strcmp < 0, byte by byte. */
  predicate StrLess(a: string, b: string) {
    b != "" && (a == "" || a[0] < b[0] || (a[0] == b[0] && StrLess(a[1..], b[1..])))
  }

  /** The one that ends, or has the smaller character, comes first where two strings part. */
  lemma StrLessIs(a: string, b: string)
    ensures StrLess(a, b) <==> exists n: nat :: PartAt(a, b, n) && (n == |a| || a[n] < b[n])
  {
    if StrLess(a, b) {
      var n := WhereTheyPart(a, b);
    }
    forall n: nat | PartAt(a, b, n) && (n == |a| || a[n] < b[n])
      ensures StrLess(a, b)
    {
      LessWhereTheyPart(a, b, n);
    }
  }

  lemma {:induction false} WhereTheyPart(a: string, b: string) returns (n: nat)
    requires StrLess(a, b)
    ensures PartAt(a, b, n) && (n == |a| || a[n] < b[n])
  {
    n := 0;
    if a != "" && a[0] == b[0] {
      n := WhereTheyPart(a[1..], b[1..]);
      assert a[..n + 1] == [a[0]] + a[1..][..n] && b[..n + 1] == [b[0]] + b[1..][..n];
      n := n + 1;
    }
  }

  lemma {:induction false} LessWhereTheyPart(a: string, b: string, n: nat)
    requires PartAt(a, b, n) && (n == |a| || a[n] < b[n])
    ensures StrLess(a, b)
  {
    if n > 0 {
      assert a[0] == a[..n][0] == b[..n][0] == b[0];
      assert a[1..][..n - 1] == a[..n][1..] && b[1..][..n - 1] == b[..n][1..];
      LessWhereTheyPart(a[1..], b[1..], n - 1);
    }
  }

  predicate PartAt(a: string, b: string, n: nat) {
    n <= |a| && n < |b| && a[..n] == b[..n]
  }

  lemma {:induction false} StrTrichotomy(a: string, b: string)
    ensures !(StrLess(a, b) && StrLess(b, a)) && !StrLess(a, a)
    ensures StrLess(a, b) || StrLess(b, a) || a == b
  {
    if a != "" {
      StrTrichotomy(a[1..], a[1..]);
    }
    if a != "" && b != "" && a[0] == b[0] {
      StrTrichotomy(a[1..], b[1..]);
      assert a == [a[0]] + a[1..] && b == [b[0]] + b[1..];
    }
  }

  lemma {:induction false} StrTransitive(a: string, b: string, c: string)
    requires StrLess(a, b) && StrLess(b, c)
    ensures StrLess(a, c)
  {
    if a != "" && a[0] == b[0] == c[0] {
      StrTransitive(a[1..], b[1..], c[1..]);
    }
  }

  // ---------------------------------------------------------------- the program's comparisons

  datatype Answer = NoAnswer | LessThan | GreaterThan

  /** Compares from the top node down, by recursion from the bottom up. */
  function CompareSameLength(a: seq<string>, b: seq<string>): Answer
    requires |a| == |b|
  {
    if a == b then NoAnswer
    else
      var n := |a| - 1;
      match CompareSameLength(a[..n], b[..n])
      case NoAnswer => if a[n] == b[n] then NoAnswer else if StrLess(a[n], b[n]) then LessThan else GreaterThan
      case rc => rc
  }

  predicate DepthFirstLess(a: Path, b: Path) {
    if a == b then false
    else if |a| > |b| then true
    else if |a| < |b| then false
    else CompareSameLength(a, b) == LessThan
  }

  predicate TarSortLess(a: Path, b: Path) {
    if a == b then false
    else
      var d := if |a| < |b| then |a| else |b|;
      if a[..d] == b[..d] then |a| < |b| else CompareSameLength(a[..d], b[..d]) == LessThan
  }

  // ---------------------------------------------------------------- what they mean

  /** The order of words, letter by letter, with names for letters. */
  predicate NamesLess(a: seq<string>, b: seq<string>) {
    b != [] && (a == [] || StrLess(a[0], b[0]) || (a[0] == b[0] && NamesLess(a[1..], b[1..])))
  }

  /** Nodes at the end decide only between paths that are equal up to there. */
  lemma {:induction false} LastNodesDecide(a: seq<string>, b: seq<string>, x: string, y: string)
    requires |a| == |b|
    ensures NamesLess(a + [x], b + [y]) <==> NamesLess(a, b) || (a == b && StrLess(x, y))
  {
    if a != [] {
      LastNodesDecide(a[1..], b[1..], x, y);
      assert (a + [x])[1..] == a[1..] + [x] && (b + [y])[1..] == b[1..] + [y];
      assert a == [a[0]] + a[1..] && b == [b[0]] + b[1..];
    } else {
      StrTrichotomy(x, y);
      assert ([] + [x])[1..] == [] && ([] + [y])[1..] == [];
    }
  }

  lemma {:induction false} CompareIsNamesLess(a: seq<string>, b: seq<string>)
    requires |a| == |b|
    ensures CompareSameLength(a, b) == LessThan <==> NamesLess(a, b)
    ensures CompareSameLength(a, b) == NoAnswer <==> a == b
    ensures CompareSameLength(a, b) == GreaterThan <==> NamesLess(b, a)
  {
    if a == b {
      NamesTrichotomy(a, a);
    } else {
      var n := |a| - 1;
      CompareIsNamesLess(a[..n], b[..n]);
      assert a == a[..n] + [a[n]] && b == b[..n] + [b[n]];
      LastNodesDecide(a[..n], b[..n], a[n], b[n]);
      LastNodesDecide(b[..n], a[..n], b[n], a[n]);
      StrTrichotomy(a[n], b[n]);
      NamesTrichotomy(a[..n], b[..n]);
    }
  }

  lemma {:induction false} NamesTrichotomy(a: seq<string>, b: seq<string>)
    ensures !(NamesLess(a, b) && NamesLess(b, a)) && !NamesLess(a, a)
    ensures NamesLess(a, b) || NamesLess(b, a) || a == b
  {
    if a != [] {
      StrTrichotomy(a[0], a[0]);
      NamesTrichotomy(a[1..], a[1..]);
    }
    if a != [] && b != [] {
      StrTrichotomy(a[0], b[0]);
      if a[0] == b[0] {
        NamesTrichotomy(a[1..], b[1..]);
        assert a == [a[0]] + a[1..] && b == [b[0]] + b[1..];
      }
    }
  }

  lemma {:induction false} NamesTransitive(a: seq<string>, b: seq<string>, c: seq<string>)
    requires NamesLess(a, b) && NamesLess(b, c)
    ensures NamesLess(a, c)
  {
    if a != [] {
      if StrLess(a[0], b[0]) && StrLess(b[0], c[0]) {
        StrTransitive(a[0], b[0], c[0]);
      } else if a[0] == b[0] == c[0] && !StrLess(a[0], c[0]) {
        StrTrichotomy(a[0], a[0]);
        NamesTransitive(a[1..], b[1..], c[1..]);
      }
    }
  }

  /** Cutting two different paths to a common length does not change which comes first. */
  lemma {:induction false} CutDecides(a: seq<string>, b: seq<string>, d: nat)
    requires d <= |a| && d <= |b| && a[..d] != b[..d]
    ensures NamesLess(a, b) <==> NamesLess(a[..d], b[..d])
  {
    StrTrichotomy(a[0], b[0]);
    if a[0] == b[0] {
      assert a[..d] == [a[0]] + a[1..][..d - 1] && b[..d] == [b[0]] + b[1..][..d - 1];
      CutDecides(a[1..], b[1..], d - 1);
    }
  }

  lemma {:induction false} PrefixComesFirst(a: seq<string>, b: seq<string>)
    requires a <= b
    ensures NamesLess(a, b) <==> a != b
  {
    if a != [] {
      StrTrichotomy(a[0], b[0]);
      PrefixComesFirst(a[1..], b[1..]);
      assert a == [a[0]] + a[1..] && b == [b[0]] + b[1..];
    }
  }

  /** The tar order is the order of words over the names of the nodes: a directory comes right before what is in it. */
  lemma TarSortIsNamesLess(a: Path, b: Path)
    ensures TarSortLess(a, b) <==> NamesLess(a, b)
  {
    var d := if |a| < |b| then |a| else |b|;
    if a == b {
      NamesTrichotomy(a, b);
    } else if a[..d] == b[..d] {
      if |a| < |b| {
        PrefixComesFirst(a, b);
      } else {
        assert a[..d] == b;
        PrefixComesFirst(b, a);
        NamesTrichotomy(a, b);
      }
    } else {
      CutDecides(a, b, d);
      CompareIsNamesLess(a[..d], b[..d]);
    }
  }

  /** The depth-first order: the deeper path first, and the order of words among paths as deep. */
  lemma DepthFirstIs(a: Path, b: Path)
    ensures DepthFirstLess(a, b) <==> |a| > |b| || (|a| == |b| && NamesLess(a, b))
  {
    if |a| == |b| {
      CompareIsNamesLess(a, b);
    }
  }

  /** Both orders are strict and total. */
  lemma TarSortIsTotal(a: Path, b: Path, c: Path)
    ensures !TarSortLess(a, a) && (TarSortLess(a, b) || TarSortLess(b, a) || a == b)
    ensures TarSortLess(a, b) && TarSortLess(b, c) ==> TarSortLess(a, c)
  {
    hide TarSortLess, NamesLess;
    TarSortIsNamesLess(a, a);
    TarSortIsNamesLess(a, b);
    TarSortIsNamesLess(b, a);
    TarSortIsNamesLess(b, c);
    TarSortIsNamesLess(a, c);
    NamesTrichotomy(a, b);
    if NamesLess(a, b) && NamesLess(b, c) {
      NamesTransitive(a, b, c);
    }
  }

  lemma DepthFirstIsTotal(a: Path, b: Path, c: Path)
    ensures !DepthFirstLess(a, a) && (DepthFirstLess(a, b) || DepthFirstLess(b, a) || a == b)
    ensures DepthFirstLess(a, b) && DepthFirstLess(b, c) ==> DepthFirstLess(a, c)
  {
    hide DepthFirstLess, NamesLess;
    DepthFirstIs(a, a);
    DepthFirstIs(a, b);
    DepthFirstIs(b, a);
    DepthFirstIs(b, c);
    DepthFirstIs(a, c);
    NamesTrichotomy(a, b);
    if NamesLess(a, b) && NamesLess(b, c) {
      NamesTransitive(a, b, c);
    }
  }

  // ---------------------------------------------------------------- stretches of paths

  /** The nodes from a depth on; the root when there are none. */
  method Subpath(p: Path, from: nat) returns (r: Path)
    ensures r == Beyond(p, from)
  {
    var rs: seq<string> := [];
    for i := 0 to |p|
      invariant rs == if i <= from then [] else p[from..i]
    {
      if i >= from {
        rs := rs + [p[i]];
      }
    }
    r := if rs == [] then ROOT else rs;
  }

  function Beyond(p: Path, from: nat): Path {
    if from < |p| then p[from..] else ROOT
  }

  /** The nodes two paths have in common, from the top; a relative and an absolute path may have none. */
  method CommonPrefix(a: Path, b: Path) returns (c: seq<string>)
    ensures c == Common(a, b)
  {
    var i := 0;
    while i < |a| && i < |b| && a[i] == b[i]
      invariant i <= |a| && i <= |b| && a[..i] == b[..i]
    {
      i := i + 1;
    }
    c := a[..i];
    CommonIs(a, b, c);
  }

  function Common(a: seq<string>, b: seq<string>): (c: seq<string>)
    ensures c <= a && c <= b
  {
    if a == [] || b == [] || a[0] != b[0] then [] else [a[0]] + Common(a[1..], b[1..])
  }

  lemma {:induction false} CommonIs(a: seq<string>, b: seq<string>, c: seq<string>)
    requires c <= a && c <= b && (|c| == |a| || |c| == |b| || a[|c|] != b[|c|])
    ensures Common(a, b) == c
  {
    if c != [] {
      CommonIs(a[1..], b[1..], c[1..]);
      assert c == [c[0]] + c[1..];
    }
  }

  /** What is a prefix of two paths is a prefix of what they have in common. */
  lemma {:induction false} CommonIsLongest(a: seq<string>, b: seq<string>, p: seq<string>)
    ensures p <= Common(a, b) <==> p <= a && p <= b
  {
    if p != [] && p <= a && p <= b {
      CommonIsLongest(a[1..], b[1..], p[1..]);
      assert p == [p[0]] + p[1..];
      assert Common(a, b)[..|p|] == [a[0]] + Common(a[1..], b[1..])[..|p| - 1];
    }
  }
}
