/**
 The lines of an index file, one for each entry of a storage directory: cooked when the backup is
 stored, eaten when it is restored.
 */
module IndexLines {
  import opened Blocks
  import opened Permissions

  const NUL := '\0'

  // ---------------------------------------------------------------- eating up to a delimiter

  /** Where a delimiter is found, and everything up to the end otherwise. */
  datatype Delimiter = Char(c: char) | End

  datatype Bite = Bite(text: string, next: nat, eof: bool, err: bool)

  /** How many characters are eaten: up to the delimiter, the end, or as many as allowed. */
  function Span(v: string, i: nat, c: Delimiter, max: nat): (n: nat)
    requires i <= |v|
    ensures n <= max && i + n <= |v|
    ensures n < max && i + n < |v| ==> c == Char(v[i + n])
    ensures forall k :: i <= k < i + n ==> c != Char(v[k])
    decreases max
  {
    if max == 0 || i == |v| || c == Char(v[i]) then 0 else 1 + Span(v, i + 1, c, max - 1)
  }

  lemma SpanStep(v: string, i: nat, c: Delimiter, max: nat)
    requires i <= |v|
    ensures Span(v, i, c, max) == if max == 0 || i == |v| || c == Char(v[i]) then 0 else 1 + Span(v, i + 1, c, max - 1)
  {
  }

  /** The text up to the delimiter. The character after it is skipped, whatever it is. */
  function Eat(v: string, i: nat, c: Delimiter, max: nat): (b: Bite)
    requires i <= |v|
    ensures i <= b.next <= |v|
  {
    var end := i + Span(v, i, c, max);
    var next := if end < |v| then end + 1 else end;
    Bite(v[i..end], next, next == |v|, c.Char? && (end == |v| || v[end] != c.c))
  }

  method EatTo(v: string, i: nat, c: Delimiter, max: nat) returns (s: string, next: nat, eof: bool, err: bool)
    requires i <= |v|
    ensures Bite(s, next, eof, err) == Eat(v, i, c, max)
  {
    s, next := "", i;
    eof, err := false, false;
    var left := max;
    hide Span;
    while left > 0 && next < |v| && c != Char(v[next])
      invariant i <= next <= |v| && s == v[i..next] && next - i + left == max
      invariant Span(v, i, c, max) == next - i + Span(v, next, c, left)
    {
      SpanStep(v, next, c, left);
      s, next, left := s + [v[next]], next + 1, left - 1;
    }
    SpanStep(v, next, c, left);
    if c.Char? && (next == |v| || v[next] != c.c) {
      err := true;
    }
    if next < |v| {
      next := next + 1;
    }
    if next == |v| {
      eof := true;
    }
  }

  lemma {:induction false} SpanIs(v: string, i: nat, field: string, c: char, max: nat)
    requires i + |field| < |v| && v[i..i + |field|] == field && v[i + |field|] == c && c !in field
    ensures Span(v, i, Char(c), max) == Min(|field|, max)
    decreases max
  {
    if max > 0 && field != "" {
      assert v[i] == v[i..i + |field|][0] == field[0];
      assert v[i + 1..i + 1 + |field[1..]|] == field[1..];
      SpanIs(v, i + 1, field[1..], c, max - 1);
    }
  }

  /** A field is eaten whole when it is no longer than allowed, and is an error otherwise. */
  lemma EatField(v: string, i: nat, field: string, c: char, max: nat)
    requires i + |field| < |v| && v[i..i + |field|] == field && v[i + |field|] == c && c !in field
    ensures var b := Eat(v, i, Char(c), max);
      if |field| <= max then b == Bite(field, i + |field| + 1, i + |field| + 1 == |v|, false) else b.err
  {
    SpanIs(v, i, field, c, max);
    if max < |field| {
      assert v[i + max] == v[i..i + |field|][max] == field[max];
    }
  }

  // ---------------------------------------------------------------- the fields of a line

  datatype EatenFields = NotEaten | EatenFields(fields: seq<string>, next: nat)

  /** Field after field; the text may end with the last one, not before. */
  function EatFields(v: string, i: nat, maxes: seq<nat>): (r: EatenFields)
    requires i <= |v|
    ensures r.EatenFields? ==> |r.fields| == |maxes| && r.next <= |v|
    decreases |maxes|
  {
    if maxes == [] then EatenFields([], i)
    else
      var b := Eat(v, i, Char(NUL), maxes[0]);
      if b.err || (b.eof && |maxes| > 1) then NotEaten
      else
        match EatFields(v, b.next, maxes[1..])
        case NotEaten => NotEaten
        case EatenFields(rest, next) => EatenFields([b.text] + rest, next)
  }

  function Line(fields: seq<string>): string {
    if fields == [] then "" else fields[0] + [NUL] + Line(fields[1..])
  }

  predicate WithinLimits(fields: seq<string>, maxes: seq<nat>)
    requires |fields| == |maxes|
  {
    forall k :: 0 <= k < |fields| ==> |fields[k]| <= maxes[k]
  }

  /** The fields of a line are eaten again, up to the next line, exactly when each is within its limit. */
  lemma {:induction false} EatLine(front: string, fields: seq<string>, maxes: seq<nat>, rest: string)
    requires |fields| == |maxes| && forall k :: 0 <= k < |fields| ==> NUL !in fields[k]
    ensures EatFields(front + Line(fields) + rest, |front|, maxes)
         == if WithinLimits(fields, maxes) then EatenFields(fields, |front| + |Line(fields)|) else NotEaten
    decreases |fields|
  {
    hide *;
    if fields == [] {
      EatNothing(front, rest);
    } else {
      var after := FirstOfLine(front, fields, rest);
      WithinOneMore(fields, maxes);
      EatFirst(front + Line(fields) + rest, |front|, fields[0], maxes, |after|);
      if |fields[0]| <= maxes[0] {
        NoNulBehind(fields);
        EatLine(after, fields[1..], maxes[1..], rest);
        assert fields == [fields[0]] + fields[1..];
      }
    }
  }

  lemma EatNothing(front: string, rest: string)
    ensures WithinLimits([], []) && Line([]) == ""
    ensures EatFields(front + Line([]) + rest, |front|, []) == EatenFields([], |front|)
  {
    assert front + Line([]) + rest == front + rest;
  }

  lemma NoNulBehind(fields: seq<string>)
    requires fields != [] && forall k :: 0 <= k < |fields| ==> NUL !in fields[k]
    ensures forall k :: 0 <= k < |fields[1..]| ==> NUL !in fields[1..][k]
  {
    forall k | 0 <= k < |fields[1..]|
      ensures NUL !in fields[1..][k]
    {
      assert fields[1..][k] == fields[k + 1];
    }
  }

  lemma EatFirst(v: string, i: nat, field: string, maxes: seq<nat>, next: nat)
    requires i + |field| < |v| && v[i..i + |field|] == field && v[i + |field|] == NUL && NUL !in field
    requires maxes != [] && next == i + |field| + 1 && (|maxes| > 1 ==> next < |v|)
    ensures EatFields(v, i, maxes)
         == if |field| > maxes[0] then NotEaten
            else
              match EatFields(v, next, maxes[1..])
              case NotEaten => NotEaten
              case EatenFields(rest, end) => EatenFields([field] + rest, end)
  {
    hide Eat;
    EatField(v, i, field, NUL, maxes[0]);
  }

  lemma WithinOneMore(fields: seq<string>, maxes: seq<nat>)
    requires |fields| == |maxes| > 0
    ensures WithinLimits(fields, maxes) <==> |fields[0]| <= maxes[0] && WithinLimits(fields[1..], maxes[1..])
  {
    if WithinLimits(fields[1..], maxes[1..]) {
      assert forall k :: 1 <= k < |fields| ==> fields[k] == fields[1..][k - 1] && maxes[k] == maxes[1..][k - 1];
    }
  }

  lemma FirstOfLine(front: string, fields: seq<string>, rest: string) returns (after: string)
    requires fields != []
    ensures var v := front + Line(fields) + rest; var n := |front| + |fields[0]|;
      && v == after + Line(fields[1..]) + rest && |after| == n + 1 <= |v|
      && v[|front|..n] == fields[0] && v[n] == NUL
      && |front| + |Line(fields)| == |after| + |Line(fields[1..])|
      && (|fields| > 1 ==> |after| < |v|)
  {
    after := front + fields[0] + [NUL];
    var v := front + Line(fields) + rest;
    assert v == after + Line(fields[1..]) + rest;
    assert v[..|after|] == after;
    assert v[|front| + |fields[0]|] == after[|front| + |fields[0]|];
  }
}
