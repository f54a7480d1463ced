/** Numbers as text, and searching in text, the way the C library does it. */
module Texts {
  import opened Blocks

  const LONG_MAX: nat := 0x7fff_ffff_ffff_ffff

  function Digit(d: nat): char
    requires d < 16
  {
    if d < 10 then '0' + d as char else 'a' + (d - 10) as char
  }

  lemma DigitIs(d: nat)
    requires d < 16
    ensures Digit(d) == "0123456789abcdef"[d]
  {
  }

  function DigitValue(c: char): nat {
    if '0' <= c <= '9' then (c - '0') as nat
    else if 'a' <= c <= 'f' then (c - 'a') as nat + 10
    else if 'A' <= c <= 'F' then (c - 'A') as nat + 10
    else 0
  }

  predicate IsDigit(c: char) {
    '0' <= c <= '9'
  }

  predicate IsHexDigit(c: char) {
    IsDigit(c) || 'a' <= c <= 'f' || 'A' <= c <= 'F'
  }

  predicate DigitsOnly(s: string) {
    forall c :: c in s ==> IsDigit(c)
  }

  predicate HexDigitsOnly(s: string) {
    forall c :: c in s ==> IsHexDigit(c)
  }

  datatype Radix = Dec | Hex {
    function Base(): nat {
      match this
      case Dec => 10
      case Hex => 16
    }

    function Times(v: nat): nat {
      match this
      case Dec => 10 * v
      case Hex => 16 * v
    }

    function Quotient(v: nat): (q: nat)
      ensures q <= v && (v > 0 ==> q < v)
    {
      match this
      case Dec => v / 10
      case Hex => v / 16
    }

    function Remainder(v: nat): (r: nat)
      ensures r < 16 && (Dec? ==> r < 10) && v == Times(Quotient(v)) + r
    {
      match this
      case Dec => v % 10
      case Hex => v % 16
    }
  }

  /** %u, %zu and %x. */
  function Printed(v: nat, radix: Radix): (s: string)
    ensures s != "" && HexDigitsOnly(s) && (radix == Dec ==> DigitsOnly(s))
    decreases v
  {
    if v < radix.Base() then [Digit(v)] else Printed(radix.Quotient(v), radix) + [Digit(radix.Remainder(v))]
  }

  /** The same with at least width digits. */
  function Padded(v: nat, radix: Radix, width: nat): (s: string)
    ensures |s| >= width && s != "" && HexDigitsOnly(s) && (radix == Dec ==> DigitsOnly(s))
  {
    var p := Printed(v, radix);
    if |p| >= width then p else seq(width - |p|, _ => '0') + p
  }

  function ValueOf(s: string, radix: Radix): nat {
    if s == "" then 0 else radix.Times(ValueOf(s[..|s| - 1], radix)) + DigitValue(s[|s| - 1])
  }

  /** strtol on text of digits only: values out of range become the largest there is. */
  function Strtol(s: string, radix: Radix): (v: nat)
    ensures v <= LONG_MAX
  {
    Min(ValueOf(s, radix), LONG_MAX)
  }

  lemma {:induction false} ValueOfPrinted(v: nat, radix: Radix)
    ensures ValueOf(Printed(v, radix), radix) == v
    decreases v
  {
    if v >= radix.Base() {
      ValueOfPrinted(radix.Quotient(v), radix);
      hide Radix.Quotient, Radix.Remainder, Radix.Times, DigitValue, Digit;
      ValueOfOneMore(Printed(radix.Quotient(v), radix), radix.Remainder(v), radix);
    } else {
      ValueOfOneMore("", v, radix);
    }
  }

  lemma ValueOfOneMore(s: string, d: nat, radix: Radix)
    requires d < 16
    ensures ValueOf(s + [Digit(d)], radix) == radix.Times(ValueOf(s, radix)) + d
  {
    var t := s + [Digit(d)];
    assert t[..|s|] == s && t[|t| - 1] == Digit(d);
    DigitValueOfDigit(d);
    hide Digit, DigitValue, Radix.Times;
  }

  lemma DigitValueOfDigit(d: nat)
    requires d < 16
    ensures DigitValue(Digit(d)) == d
  {
  }

  lemma {:induction false} ValueOfZeros(n: nat, s: string, radix: Radix)
    ensures ValueOf(seq(n, _ => '0') + s, radix) == ValueOf(s, radix)
    decreases |s| + n
  {
    var t := seq(n, _ => '0') + s;
    if s != "" {
      ValueOfZeros(n, s[..|s| - 1], radix);
      assert t[..|t| - 1] == seq(n, _ => '0') + s[..|s| - 1];
    } else if n > 0 {
      ValueOfZeros(n - 1, "", radix);
      assert t[..|t| - 1] == seq(n - 1, _ => '0') + "";
    }
  }

  lemma ValueOfPadded(v: nat, radix: Radix, width: nat)
    ensures ValueOf(Padded(v, radix, width), radix) == v
  {
    var p := Printed(v, radix);
    ValueOfPrinted(v, radix);
    if |p| < width {
      ValueOfZeros(width - |p|, p, radix);
    }
  }

  lemma PrintedNext(v: nat, d: nat)
    requires v > 0 && d < 10
    ensures Printed(10 * v + d, Dec) == Printed(v, Dec) + [Digit(d)]
  {
  }

  function Power(radix: Radix, k: nat): (p: nat)
    ensures p >= 1
  {
    if k == 0 then 1 else radix.Times(Power(radix, k - 1))
  }

  /** v has at most k digits exactly when it is below the radix to the power k. */
  lemma {:induction false} PrintedLength(v: nat, radix: Radix, k: nat)
    requires k >= 1
    ensures |Printed(v, radix)| <= k <==> v < Power(radix, k)
  {
    if v < radix.Base() {
      assert Power(radix, k) == radix.Times(Power(radix, k - 1));
    } else if k == 1 {
      assert Power(radix, 1) == radix.Times(Power(radix, 0));
    } else {
      PrintedLength(radix.Quotient(v), radix, k - 1);
    }
  }

  lemma PaddedLength(v: nat, radix: Radix, width: nat)
    requires width >= 1
    ensures |Padded(v, radix, width)| == width <==> v < Power(radix, width)
  {
    PrintedLength(v, radix, width);
  }

  lemma PaddedReads(v: nat, width: nat)
    requires 0 < width && v < Power(Dec, width)
    ensures |Padded(v, Dec, width)| == width && ValueOf(Padded(v, Dec, width), Dec) == v
  {
    PrintedLength(v, Dec, width);
    ValueOfPadded(v, Dec, width);
  }

  // ---------------------------------------------------------------- searching

  /** string::find: the first place of c from a position on, or the length of the text. */
  function Find(s: string, c: char, from: nat): (at: nat)
    ensures at <= |s| && (at < |s| ==> from <= at && s[at] == c)
    decreases |s| - from
  {
    if from >= |s| then |s| else if s[from] == c then from else Find(s, c, from + 1)
  }

  lemma {:induction false} FindIs(s: string, c: char, from: nat, at: nat)
    requires from <= at < |s| && s[at] == c && forall i :: from <= i < at ==> s[i] != c
    ensures Find(s, c, from) == at
    decreases at - from
  {
    if from < at {
      FindIs(s, c, from + 1, at);
    }
  }

  lemma {:induction false} FindSkips(s: string, c: char, from: nat)
    ensures forall i :: from <= i < Find(s, c, from) ==> s[i] != c
    decreases |s| - from
  {
    if from < |s| && s[from] != c {
      FindSkips(s, c, from + 1);
    }
  }

  lemma {:induction false} FindsNone(s: string, c: char, from: nat)
    requires forall i :: from <= i < |s| ==> s[i] != c
    ensures Find(s, c, from) == |s|
    decreases |s| - from
  {
    if from < |s| {
      FindsNone(s, c, from + 1);
    }
  }

  /** A search that succeeds in the beginning of a text finds the same place in the whole text. */
  lemma {:induction false} FindInPrefix(s: string, n: nat, c: char, from: nat)
    requires n <= |s| && Find(s[..n], c, from) < n
    ensures Find(s, c, from) == Find(s[..n], c, from)
    decreases n - from
  {
    if s[from] != c {
      FindInPrefix(s, n, c, from + 1);
    }
  }

  // ---------------------------------------------------------------- fields between separators

  /** The texts, each followed by its separator, and the last one alone. */
  function Joined(texts: seq<string>, seps: string): string
    requires |texts| == |seps| + 1
  {
    if seps == "" then texts[0] else texts[0] + [seps[0]] + Joined(texts[1..], seps[1..])
  }

  datatype Fields = NoFields | Fields(texts: seq<string>)

  /**
   Field by field, up to the next of the separators; the first search starts skip characters into
   its field. The last field is the rest of the text.
   */
  function SplitFields(s: string, at: nat, skip: nat, seps: string): (f: Fields)
    requires at <= |s|
    ensures f.Fields? ==> |f.texts| == |seps| + 1
    decreases |seps|
  {
    if seps == "" then Fields([s[at..]])
    else
      var p := Find(s, seps[0], at + skip);
      if p == |s| then NoFields
      else
        match SplitFields(s, p + 1, 0, seps[1..])
        case NoFields => NoFields
        case Fields(rest) => Fields([s[at..p]] + rest)
  }

  /** Fields that do not hold their separators are found again. */
  lemma {:induction false} SplitOfJoined(front: string, texts: seq<string>, seps: string, skip: nat)
    requires |texts| == |seps| + 1 && (forall i :: 0 <= i < |seps| ==> seps[i] !in texts[i])
    requires seps != "" ==> skip <= |texts[0]|
    ensures SplitFields(front + Joined(texts, seps), |front|, skip, seps) == Fields(texts)
    decreases |seps|
  {
    hide *;
    if seps == "" {
      SplitLast(front, texts, skip);
    } else {
      assert seps[0] !in texts[0];
      var s, p := front + Joined(texts, seps), |front| + |texts[0]|;
      var after := FirstJoined(front, texts, seps);
      NoneBehind(texts, seps);
      SplitOfJoined(after, texts[1..], seps[1..], 0);
      FindSeparator(s, front, texts[0], seps[0], |front| + skip);
      SplitFirst(s, |front|, skip, seps, p, texts);
    }
  }

  lemma SplitLast(front: string, texts: seq<string>, skip: nat)
    requires |texts| == 1
    ensures SplitFields(front + Joined(texts, ""), |front|, skip, "") == Fields(texts)
  {
    var s := front + Joined(texts, "");
    assert s[|front|..] == texts[0] && texts == [texts[0]];
  }

  lemma NoneBehind(texts: seq<string>, seps: string)
    requires |texts| == |seps| + 1 && seps != "" && forall i :: 0 <= i < |seps| ==> seps[i] !in texts[i]
    ensures forall i :: 0 <= i < |seps[1..]| ==> seps[1..][i] !in texts[1..][i]
  {
    forall i | 0 <= i < |seps[1..]|
      ensures seps[1..][i] !in texts[1..][i]
    {
      assert seps[1..][i] == seps[i + 1] && texts[1..][i] == texts[i + 1];
    }
  }

  lemma SplitFirst(s: string, at: nat, skip: nat, seps: string, p: nat, texts: seq<string>)
    requires at <= p < |s| && seps != "" && Find(s, seps[0], at + skip) == p && texts != [] && s[at..p] == texts[0]
    requires SplitFields(s, p + 1, 0, seps[1..]) == Fields(texts[1..])
    ensures SplitFields(s, at, skip, seps) == Fields(texts)
  {
    hide Find;
    assert texts == [texts[0]] + texts[1..];
  }

  lemma FirstJoined(front: string, texts: seq<string>, seps: string) returns (after: string)
    requires |texts| == |seps| + 1 && seps != ""
    ensures after == front + texts[0] + [seps[0]] && |after| == |front| + |texts[0]| + 1
    ensures front + Joined(texts, seps) == after + Joined(texts[1..], seps[1..])
    ensures after <= front + Joined(texts, seps)
  {
    after := front + texts[0] + [seps[0]];
  }

  lemma {:induction false} NotInJoined(c: char, texts: seq<string>, seps: string)
    requires |texts| == |seps| + 1 && c !in seps && forall i :: 0 <= i < |texts| ==> c !in texts[i]
    ensures c !in Joined(texts, seps)
  {
    if seps != "" {
      NotInJoined(c, texts[1..], seps[1..]);
    }
  }

  /** The last of the texts is the end of them all. */
  lemma {:induction false} JoinedEnds(texts: seq<string>, seps: string)
    requires |texts| == |seps| + 1
    ensures |texts[|seps|]| <= |Joined(texts, seps)|
    ensures Joined(texts, seps)[|Joined(texts, seps)| - |texts[|seps|]|..] == texts[|seps|]
  {
    if seps != "" {
      JoinedEnds(texts[1..], seps[1..]);
    }
  }

  lemma FindSeparator(s: string, front: string, text: string, sep: char, from: nat)
    requires front + text + [sep] <= s && sep !in text && |front| <= from <= |front| + |text|
    ensures Find(s, sep, from) == |front| + |text| < |s| && s[|front|..|front| + |text|] == text
  {
    var p := |front| + |text|;
    var t := front + text + [sep];
    assert s[p] == t[p] == sep;
    forall i | from <= i < p ensures s[i] != sep {
      assert s[i] == t[i] == text[i - |front|];
    }
    FindIs(s, sep, from, p);
    assert s[..p] == t[..p];
  }

  /** A text cut short still splits in the same fields, if it splits at all, and only the last one is shorter. */
  lemma {:induction false} SplitOfCut(s: string, n: nat, at: nat, skip: nat, seps: string)
    requires at <= n < |s|
    ensures var cut, whole := SplitFields(s[..n], at, skip, seps), SplitFields(s, at, skip, seps);
      cut.Fields? ==> whole.Fields? && |cut.texts[|seps|]| < |whole.texts[|seps|]|
    decreases |seps|
  {
    hide *;
    if seps == "" {
      CutLast(s, n, at, skip);
    } else {
      var p := Find(s[..n], seps[0], at + skip);
      if p < n {
        FindInPrefix(s, n, seps[0], at + skip);
        SplitOfCut(s, n, p + 1, 0, seps[1..]);
        SplitStep(s[..n], at, skip, seps, p);
        SplitStep(s, at, skip, seps, p);
      } else {
        NotSplit(s[..n], at, skip, seps);
      }
    }
  }

  lemma CutLast(s: string, n: nat, at: nat, skip: nat)
    requires at <= n < |s|
    ensures SplitFields(s[..n], at, skip, "") == Fields([s[..n][at..]])
    ensures SplitFields(s, at, skip, "") == Fields([s[at..]])
  {
  }

  lemma NotSplit(s: string, at: nat, skip: nat, seps: string)
    requires at <= |s| && seps != "" && Find(s, seps[0], at + skip) == |s|
    ensures SplitFields(s, at, skip, seps) == NoFields
  {
  }

  lemma SplitStep(s: string, at: nat, skip: nat, seps: string, p: nat)
    requires at <= |s| && seps != "" && Find(s, seps[0], at + skip) == p < |s|
    ensures var f, rest := SplitFields(s, at, skip, seps), SplitFields(s, p + 1, 0, seps[1..]);
      f.Fields? == rest.Fields? && (f.Fields? ==> f.texts[|seps|] == rest.texts[|seps| - 1])
  {
    hide Find;
  }

  /** One past the last slash. */
  function AfterSlash(s: string): (at: nat)
    ensures at <= |s| && (forall i :: at <= i < |s| ==> s[i] != '/') && (at > 0 ==> s[at - 1] == '/')
  {
    if s == "" then 0 else if s[|s| - 1] == '/' then |s| else AfterSlash(s[..|s| - 1])
  }

  lemma AfterSlashIs(dir: string, name: string)
    requires '/' !in name && (dir == "" || dir[|dir| - 1] == '/')
    ensures AfterSlash(dir + name) == |dir|
  {
    var s := dir + name;
    var at := AfterSlash(s);
    assert dir != "" ==> s[|dir| - 1] == '/';
    assert forall i :: |dir| <= i < |s| ==> s[i] in name;
  }
}
