/**
 Grouping the entries of a storage directory into tars, so that a change to one entry does not spill
 over into other tars: an entry's tar depends on its size class, and within that on a hash of its path.
 */
module Grouping {
  import opened Blocks

  datatype EntryKind = Directory | HardLink | Content

  /** An entry of a storage directory: its size in blocks, and the hash of its path in the tar. */
  datatype Entry = Entry(kind: EntryKind, size: nat, hash: nat)

  datatype SizeClass = SmallFile | MediumFile | LargeFile

  datatype Slot = Taz | Small(tar: nat) | Medium(tar: nat) | Large(hash: nat)

  /** How many small and medium tars there are, and the sizes from which on entries are medium and large. */
  datatype Plan = Plan(nst: nat, nmt: nat, smallcomp: nat, mediumcomp: nat) {
    /** There is a tar for every class that an entry can be in. */
    predicate Valid() {
      nst > 0 && (smallcomp < mediumcomp ==> nmt > 0)
    }

    function ClassOf(size: nat): SizeClass {
      if size < smallcomp then SmallFile else if size < mediumcomp then MediumFile else LargeFile
    }

    function SlotOf(e: Entry): Slot
      requires Valid()
    {
      if e.kind != Content then Taz
      else
        match ClassOf(e.size)
        case SmallFile => Small(e.hash % nst)
        case MediumFile => Medium(e.hash % nmt)
        case LargeFile => Large(e.hash)
    }
  }

  function Sum(es: seq<Entry>): nat {
    if es == [] then 0 else Sum(es[..|es| - 1]) + es[|es| - 1].size
  }

  // ---------------------------------------------------------------- how many tars

  function PowerOfTwo(k: nat): (n: nat)
    ensures n > 0
  {
    if k == 0 then 1 else 2 * PowerOfTwo(k - 1)
  }

  /** The least power of two that is enough tars of some size. */
  ghost predicate IsLeast(n: nat, amount: nat, total: nat) {
    && (exists k :: n == PowerOfTwo(k))
    && total <= amount * n
    && (forall k :: total <= amount * PowerOfTwo(k) ==> n <= PowerOfTwo(k))
  }

  lemma {:induction false} PowersGrow(j: nat, k: nat)
    requires j <= k
    ensures PowerOfTwo(j) <= PowerOfTwo(k)
  {
    if j < k {
      PowersGrow(j, k - 1);
    }
  }

  lemma LeastIfHalfIsNot(k: nat, amount: nat, total: nat)
    requires total <= amount * PowerOfTwo(k) && (k > 0 ==> amount * PowerOfTwo(k - 1) < total)
    ensures IsLeast(PowerOfTwo(k), amount, total)
  {
    forall j: nat | total <= amount * PowerOfTwo(j)
      ensures PowerOfTwo(k) <= PowerOfTwo(j)
    {
      if j < k {
        PowersGrow(j, k - 1);
        Grows(amount, PowerOfTwo(j), PowerOfTwo(k - 1));
        assert false;
      }
      PowersGrow(k, j);
    }
  }

  lemma Grows(a: nat, x: nat, y: nat)
    requires x <= y
    ensures a * x <= a * y
  {
  }

  lemma Doubles(a: nat, x: nat)
    ensures a * (2 * x) == 2 * (a * x)
  {
  }

  /** The size asked for after k turns of the loop, doubled in 64 bits. */
  function Doubled(amount: nat, k: nat): nat {
    if k == 0 then amount else ToSize(Doubled(amount, k - 1) * 2)
  }

  /** The turn the loop stops at. */
  ghost predicate StopsAt(amount: nat, total: nat, k: nat) {
    total <= Doubled(amount, k) && forall j: nat :: j < k ==> Doubled(amount, j) < total
  }

  /** Some doubling is enough. */
  ghost predicate Stops(amount: nat, total: nat) {
    exists k: nat :: total <= Doubled(amount, k)
  }

  ghost predicate IsFirst(n: nat, amount: nat, total: nat) {
    exists k: nat :: n == PowerOfTwo(k) && StopsAt(amount, total, k)
  }

  /** Returns exactly for the sizes with a doubling that is enough: the loop has no other way out. */
  method FindNumTarsFromSize(amount: nat, total: nat) returns (n: nat)
    requires amount < SIZE_LIMIT && total < SIZE_LIMIT && Stops(amount, total)
    ensures IsFirst(n, amount, total)
    ensures total <= SIZE_LIMIT / 2 ==> IsLeast(n, amount, total)
  {
    n := 1;
    var a := amount;
    ghost var k := 0;
    ghost var enough: nat :| total <= Doubled(amount, enough);
    PowersStart();
    DoubledStart(amount);
    hide PowerOfTwo, Doubled, IsLeast, Stops, ToSize;
    while a < total
      invariant n == PowerOfTwo(k) && a == Doubled(amount, k)
      invariant forall j: nat :: j < k ==> Doubled(amount, j) < total
      decreases enough - k
    {
      EnoughInTime(amount, total, k, enough);
      DoubledNext(amount, k);
      PowerNext(k);
      ToSizeIs(a * 2);
      a := ToSize(a * 2);
      n := ToSize(n * 2);
      k := k + 1;
    }
    if total <= SIZE_LIMIT / 2 {
      FirstIsLeast(amount, total, k);
    }
  }

  /** The doublings are the multiples by powers of two, modulo 2^64. */
  lemma {:induction false} DoubledIs(amount: nat, k: nat)
    requires amount < SIZE_LIMIT
    ensures Doubled(amount, k) == ToSize(amount * PowerOfTwo(k))
  {
    hide *;
    PowersStart();
    if k == 0 {
      DoubledStart(amount);
      ToSizeIs(amount);
    } else {
      DoubledIs(amount, k - 1);
      DoubledNext(amount, k - 1);
      PowerNext(k - 1);
      TwiceMultiple(amount, PowerOfTwo(k - 1));
    }
  }

  lemma PowersStart()
    ensures PowerOfTwo(0) == 1
  {
  }

  lemma PowerNext(k: nat)
    ensures PowerOfTwo(k + 1) == 2 * PowerOfTwo(k)
  {
  }

  lemma DoubledStart(amount: nat)
    ensures Doubled(amount, 0) == amount
  {
  }

  lemma ToSizeIs(x: nat)
    ensures ToSize(x) == x % 0x1_0000_0000_0000_0000
  {
  }

  lemma TwiceMultiple(amount: nat, p: nat)
    ensures ToSize(amount * (2 * p)) == ToSize(amount * p) * 2 % 0x1_0000_0000_0000_0000
  {
    hide *;
    Doubles(amount, p);
    ToSizeIs(amount * p);
    ToSizeIs(amount * (2 * p));
    TwiceModulo(amount * p);
  }

  lemma TwiceModulo(x: nat)
    ensures 2 * x % 0x1_0000_0000_0000_0000 == x % 0x1_0000_0000_0000_0000 * 2 % 0x1_0000_0000_0000_0000
  {
    var m := 0x1_0000_0000_0000_0000;
    var q, r := x / m, x % m;
    if 2 * r < m {
      DivIs(2 * x, m, 2 * q, 2 * r);
    } else {
      DivIs(2 * x, m, 2 * q + 1, 2 * r - m);
    }
  }

  /** Which sizes the loop stops for: some power of two times the tar size reaches the total, modulo 2^64. */
  lemma StopsIf(amount: nat, total: nat)
    requires amount < SIZE_LIMIT
    ensures Stops(amount, total) <==> exists k: nat :: total <= ToSize(amount * PowerOfTwo(k))
  {
    if Stops(amount, total) {
      var k: nat :| total <= Doubled(amount, k);
      DoubledIs(amount, k);
      assert total <= ToSize(amount * PowerOfTwo(k));
    }
    if exists k: nat :: total <= ToSize(amount * PowerOfTwo(k)) {
      var k: nat :| total <= ToSize(amount * PowerOfTwo(k));
      DoubledIs(amount, k);
    }
  }

  lemma {:induction false} PowersAdd(j: nat, k: nat)
    ensures PowerOfTwo(j + k) == PowerOfTwo(j) * PowerOfTwo(k)
  {
    if k > 0 {
      PowersAdd(j, k - 1);
      Doubles(PowerOfTwo(j), PowerOfTwo(k - 1));
    }
  }

  lemma PowersUpTo64()
    ensures PowerOfTwo(40) == 0x100_0000_0000
    ensures PowerOfTwo(63) == SIZE_LIMIT / 2 && PowerOfTwo(64) == SIZE_LIMIT
  {
    assert PowerOfTwo(8) == 0x100;
    assert PowerOfTwo(64) == 2 * PowerOfTwo(63);
    hide PowerOfTwo;
    PowersAdd(8, 8);
    PowersAdd(16, 16);
    PowersAdd(32, 8);
    PowersAdd(32, 32);
  }

  /** After 64 doublings nothing is left. */
  lemma NothingLeft(amount: nat, k: nat)
    requires amount < SIZE_LIMIT && k >= 64
    ensures Doubled(amount, k) == 0
  {
    hide PowerOfTwo, Doubled;
    DoubledIs(amount, k);
    PowersUpTo64();
    PowersAdd(64, k - 64);
    var q := PowerOfTwo(k - 64);
    assert amount * (SIZE_LIMIT * q) == amount * q * SIZE_LIMIT + 0;
    DivIs(amount * PowerOfTwo(k), SIZE_LIMIT, amount * q, 0);
  }

  /** The turn a size is enough at comes before the number of tars wraps around. */
  lemma EnoughInTime(amount: nat, total: nat, k: nat, enough: nat)
    requires amount < SIZE_LIMIT && total <= Doubled(amount, enough) && Doubled(amount, k) < total
    requires forall j: nat :: j < k ==> Doubled(amount, j) < total
    ensures k < enough <= 63 && PowerOfTwo(k + 1) < SIZE_LIMIT
  {
    hide PowerOfTwo, Doubled;
    if enough >= 64 {
      NothingLeft(amount, enough);
    }
    assert !(enough < k) && enough != k;
    PowersUpTo64();
    PowersGrow(k + 1, 63);
  }

  /** Up to 2^63, nothing is lost before the loop stops. */
  lemma {:induction false} NoneLost(amount: nat, total: nat, k: nat)
    requires amount < SIZE_LIMIT && total <= SIZE_LIMIT / 2 && forall j: nat :: j < k ==> Doubled(amount, j) < total
    ensures Doubled(amount, k) == amount * PowerOfTwo(k)
  {
    if k > 0 {
      NoneLost(amount, total, k - 1);
      Doubles(amount, PowerOfTwo(k - 1));
    }
  }

  lemma FirstIsLeast(amount: nat, total: nat, k: nat)
    requires amount < SIZE_LIMIT && total <= SIZE_LIMIT / 2 && StopsAt(amount, total, k)
    ensures IsLeast(PowerOfTwo(k), amount, total)
  {
    NoneLost(amount, total, k);
    if k > 0 {
      NoneLost(amount, total, k - 1);
    }
    LeastIfHalfIsNot(k, amount, total);
  }

  /** The loop stops for totals up to 2^63 and tars that are not empty, and for nothing at all. */
  lemma SmallTotalsStop(amount: nat, total: nat)
    requires amount < SIZE_LIMIT && total <= SIZE_LIMIT / 2 && (amount > 0 || total == 0)
    ensures Stops(amount, total)
  {
    if total == 0 {
      assert total <= Doubled(amount, 0);
    } else {
      Climbs(amount, total, 63);
      PowersUpTo64();
    }
  }

  lemma {:induction false} Climbs(amount: nat, total: nat, k: nat)
    requires 0 < amount < SIZE_LIMIT && total <= SIZE_LIMIT / 2
    ensures Stops(amount, total) || Doubled(amount, k) >= PowerOfTwo(k)
  {
    if k > 0 {
      Climbs(amount, total, k - 1);
    }
  }

  /** For tars of 10M, the loop stops for up to 2^40 times as much, which is more than 2^63. */
  lemma TenMegabytes(total: nat)
    ensures Stops(10 * 1024 * 1024, total) <==> total <= 0xA000_0000_0000_0000
  {
    var amount := 10 * 1024 * 1024;
    PowersUpTo64();
    hide PowerOfTwo, Doubled;
    NoneLostBelow(amount, 40);
    assert Doubled(amount, 40) == 0xA000_0000_0000_0000;
    forall k: nat
      ensures Doubled(amount, k) <= 0xA000_0000_0000_0000
    {
      if k <= 40 {
        PowersGrow(k, 40);
        Grows(amount, PowerOfTwo(k), PowerOfTwo(40));
        NoneLostBelow(amount, k);
      } else {
        AfterForty(k);
      }
    }
  }

  lemma {:induction false} NoneLostBelow(amount: nat, k: nat)
    requires amount * PowerOfTwo(k) < SIZE_LIMIT
    ensures Doubled(amount, k) == amount * PowerOfTwo(k)
  {
    if k > 0 {
      Doubles(amount, PowerOfTwo(k - 1));
      NoneLostBelow(amount, k - 1);
    }
  }

  lemma {:induction false} AfterForty(k: nat)
    requires k > 40 && Doubled(10 * 1024 * 1024, 40) == 0xA000_0000_0000_0000
    ensures Doubled(10 * 1024 * 1024, k)
         == if k == 41 then 0x4000_0000_0000_0000 else if k == 42 then 0x8000_0000_0000_0000 else 0
  {
    hide *;
    DoubledNext(10 * 1024 * 1024, k - 1);
    if k > 41 {
      AfterForty(k - 1);
    }
  }

  lemma DoubledNext(amount: nat, k: nat)
    ensures Doubled(amount, k + 1) == Doubled(amount, k) * 2 % 0x1_0000_0000_0000_0000
  {
  }

  /** With tars of no size, the loop stops for nothing only. */
  lemma EmptyTars(total: nat)
    ensures Stops(0, total) <==> total == 0
  {
    forall k: nat
      ensures Doubled(0, k) == 0
    {
      NothingDoubled(k);
    }
    assert total == 0 ==> total <= Doubled(0, 0);
  }

  lemma {:induction false} NothingDoubled(k: nat)
    ensures Doubled(0, k) == 0
  {
    if k > 0 {
      NothingDoubled(k - 1);
    }
  }

  /** The sizes of the entries in a size class, summed up. */
  function SumIn(es: seq<Entry>, from: nat, to: nat): nat {
    if es == [] then 0
    else
      var e := es[|es| - 1];
      SumIn(es[..|es| - 1], from, to) + if from <= e.size < to then e.size else 0
  }

  /** No class of sizes exceeds the sum of all. */
  lemma {:induction false} SumInIs(es: seq<Entry>, a: nat, b: nat)
    requires a <= b
    ensures SumIn(es, 0, a) + SumIn(es, a, b) <= Sum(es)
  {
    if es != [] {
      SumInIs(es[..|es| - 1], a, b);
    }
  }

  /**
   What the numbers of tars are for: small and medium entries get as many tars as their sizes ask for,
   unless one of the two classes fits into one tar. Then they share as many as the greater one asks for.
   */
  ghost predicate IsPlan(es: seq<Entry>, target: nat, plan: Plan) {
    var small, medium := SumIn(es, 0, target / 100), SumIn(es, target / 100, target);
    if small <= target || medium <= target then
      && plan.smallcomp == plan.mediumcomp == target && plan.nmt == 0
      && IsLeast(plan.nst, target, if small < medium then medium else small)
    else
      && plan.smallcomp == target / 100 && plan.mediumcomp == target
      && IsLeast(plan.nst, target, small) && IsLeast(plan.nmt, target, medium)
  }

  /** The same for totals of any size, with the numbers of tars at which doubling stops. */
  ghost predicate IsFirstPlan(es: seq<Entry>, target: nat, plan: Plan) {
    var small, medium := SumIn(es, 0, target / 100), SumIn(es, target / 100, target);
    if small <= target || medium <= target then
      && plan.smallcomp == plan.mediumcomp == target && plan.nmt == 0
      && IsFirst(plan.nst, target, if small < medium then medium else small)
    else
      && plan.smallcomp == target / 100 && plan.mediumcomp == target
      && IsFirst(plan.nst, target, small) && IsFirst(plan.nmt, target, medium)
  }

  lemma OneIsFirst(n: nat, amount: nat, total: nat)
    requires IsFirst(n, amount, total)
    ensures n > 0 && (n == 1 <==> total <= amount)
  {
    var k: nat :| n == PowerOfTwo(k) && StopsAt(amount, total, k);
    assert Doubled(amount, 0) == amount;
  }

  lemma OneIsLeast(n: nat, amount: nat, total: nat)
    requires IsLeast(n, amount, total)
    ensures n > 0 && (n == 1 <==> total <= amount)
  {
    if total <= amount {
      assert PowerOfTwo(0) == 1 && total <= amount * PowerOfTwo(0);
    }
  }

  lemma NoSums()
    ensures Sum([]) == 0 && forall from, to :: SumIn([], from, to) == 0
  {
  }

  lemma SumInStep(es: seq<Entry>, i: nat, from: nat, to: nat)
    requires i < |es|
    ensures SumIn(es[..i + 1], from, to) == SumIn(es[..i], from, to) + if from <= es[i].size < to then es[i].size else 0
  {
    assert es[..i + 1][..i] == es[..i];
  }

  lemma SumStep(es: seq<Entry>, i: nat)
    requires i < |es|
    ensures Sum(es[..i + 1]) == Sum(es[..i]) + es[i].size
  {
    assert es[..i + 1][..i] == es[..i];
  }

  method CalculateNumTars(es: seq<Entry>, target: nat) returns (plan: Plan, sfs: nat, mfs: nat, lfs: nat)
    requires target < SIZE_LIMIT && Sum(es) < SIZE_LIMIT
    requires Stops(target, SumIn(es, 0, target / 100)) && Stops(target, SumIn(es, target / 100, target))
    ensures plan.Valid() && IsFirstPlan(es, target, plan)
    ensures Sum(es) <= SIZE_LIMIT / 2 ==> IsPlan(es, target, plan)
    ensures sfs == SumIn(es, 0, plan.smallcomp) && mfs == SumIn(es, plan.smallcomp, plan.mediumcomp)
    ensures sfs + mfs + lfs == Sum(es)
  {
    hide SumIn, Sum, IsLeast, IsFirst, Stops;
    var small, medium, large := 0, 0, 0;
    var smallSize, mediumSize := target / 100, target;
    NoSums();
    assert es[..0] == [];
    for i := 0 to |es|
      invariant small == SumIn(es[..i], 0, smallSize) && medium == SumIn(es[..i], smallSize, mediumSize)
      invariant small + medium + large == Sum(es[..i])
    {
      var entry := es[i];
      SumInStep(es, i, 0, smallSize);
      SumInStep(es, i, smallSize, mediumSize);
      SumStep(es, i);
      if entry.size < smallSize {
        small := small + entry.size;
      } else if entry.size < mediumSize {
        medium := medium + entry.size;
      } else {
        large := large + entry.size;
      }
    }
    assert es[..|es|] == es;
    SumInIs(es, smallSize, mediumSize);
    var nst := FindNumTarsFromSize(target, small);
    var nmt := FindNumTarsFromSize(target, medium);
    OneIsFirst(nst, target, small);
    OneIsFirst(nmt, target, medium);
    plan, sfs, mfs, lfs := Plan(nst, nmt, smallSize, mediumSize), small, medium, large;
    if small <= target || medium <= target {
      plan, sfs, mfs := Plan(nst + nmt - 1, 0, mediumSize, mediumSize), small + medium, 0;
      SumInAdds(es, smallSize, mediumSize);
      if Sum(es) <= SIZE_LIMIT / 2 {
        LeastOfOne(target, small, medium, nst, nmt);
      }
    }
  }

  /** Entries of up to 2^63 can always be counted into tars, whatever the size of these. */
  lemma SumsStop(es: seq<Entry>, target: nat)
    requires target < SIZE_LIMIT && Sum(es) <= SIZE_LIMIT / 2
    ensures Stops(target, SumIn(es, 0, target / 100)) && Stops(target, SumIn(es, target / 100, target))
  {
    SumInIs(es, target / 100, target);
    SumInAdds(es, 0, 0);
    hide SumIn, Sum, Stops;
    SmallTotalsStop(target, SumIn(es, 0, target / 100));
    SmallTotalsStop(target, SumIn(es, target / 100, target));
  }

  lemma {:induction false} SumInAdds(es: seq<Entry>, a: nat, b: nat)
    requires a <= b
    ensures SumIn(es, 0, b) == SumIn(es, 0, a) + SumIn(es, a, b) && SumIn(es, b, b) == 0
  {
    if es != [] {
      SumInAdds(es[..|es| - 1], a, b);
    }
  }

  /** If one of two numbers of tars is one, then leaving one out leaves enough for the greater size. */
  lemma LeastOfOne(target: nat, small: nat, medium: nat, nst: nat, nmt: nat)
    requires IsLeast(nst, target, small) && IsLeast(nmt, target, medium) && (small <= target || medium <= target)
    ensures IsLeast(nst + nmt - 1, target, if small < medium then medium else small)
  {
    OneIsLeast(nst, target, small);
    OneIsLeast(nmt, target, medium);
  }

  /**
   The tars have room for all small and medium entries; where the two classes share them, up to one
   tar's size is lacking.
   */
  lemma TarsHaveRoom(es: seq<Entry>, target: nat, plan: Plan)
    requires target > 0 && IsPlan(es, target, plan)
    ensures plan.Valid()
    ensures SumIn(es, 0, target) <= target * plan.nst + if plan.nmt == 0 then target else target * plan.nmt
  {
    var small, medium := SumIn(es, 0, target / 100), SumIn(es, target / 100, target);
    SumInAdds(es, target / 100, target);
    hide SumIn, IsLeast;
    if small <= target || medium <= target {
      OneIsLeast(plan.nst, target, if small < medium then medium else small);
      LeastIsEnough(plan.nst, target, if small < medium then medium else small);
    } else {
      OneIsLeast(plan.nst, target, small);
      OneIsLeast(plan.nmt, target, medium);
      LeastIsEnough(plan.nst, target, small);
      LeastIsEnough(plan.nmt, target, medium);
    }
  }

  lemma LeastIsEnough(n: nat, amount: nat, total: nat)
    requires IsLeast(n, amount, total)
    ensures total <= amount * n
  {
  }

  /** 128 of something in tars of 10 make 16 tars: 8 tars would have room for 80 only. */
  lemma SixteenNotEight()
    ensures IsLeast(16, 10, 128) && !IsLeast(8, 10, 128)
  {
    assert PowerOfTwo(4) == 16 && PowerOfTwo(3) == 8;
    LeastIfHalfIsNot(4, 10, 128);
  }

  // ---------------------------------------------------------------- which tar

  /** The entries that go into a tar, in their order. */
  function Only(plan: Plan, es: seq<Entry>, slot: Slot): seq<Entry>
    requires plan.Valid()
  {
    if es == [] then []
    else
      var e := es[|es| - 1];
      Only(plan, es[..|es| - 1], slot) + if plan.SlotOf(e) == slot then [e] else []
  }

  function OfKind(es: seq<Entry>, kind: EntryKind): seq<Entry> {
    if es == [] then []
    else
      var e := es[|es| - 1];
      OfKind(es[..|es| - 1], kind) + if e.kind == kind then [e] else []
  }

  lemma OnlyStep(plan: Plan, es: seq<Entry>, i: nat, slot: Slot)
    requires plan.Valid() && i < |es|
    ensures Only(plan, es[..i + 1], slot)
         == Only(plan, es[..i], slot) + if plan.SlotOf(es[i]) == slot then [es[i]] else []
  {
    assert es[..i + 1][..i] == es[..i];
  }

  lemma OfKindStep(es: seq<Entry>, i: nat, kind: EntryKind)
    requires i < |es|
    ensures OfKind(es[..i + 1], kind) == OfKind(es[..i], kind) + if es[i].kind == kind then [es[i]] else []
  {
    assert es[..i + 1][..i] == es[..i];
  }

  lemma CountStep(s: seq<Entry>, x: Entry, e: Entry)
    ensures multiset(s + [x])[e] == multiset(s)[e] + if x == e then 1 else 0
  {
    assert multiset(s + [x]) == multiset(s) + multiset([x]);
  }

  /** Every entry is in one tar, as often as it is there at all, and in no other. */
  lemma {:induction false} EntriesAreInOneTar(plan: Plan, es: seq<Entry>, slot: Slot, e: Entry)
    requires plan.Valid()
    ensures multiset(Only(plan, es, slot))[e] == if plan.SlotOf(e) == slot then multiset(es)[e] else 0
  {
    hide *;
    if es != [] {
      var n := |es| - 1;
      EntriesAreInOneTar(plan, es[..n], slot, e);
      assert es[..n + 1] == es && es == es[..n] + [es[n]];
      OnlyStep(plan, es, n, slot);
      CountStep(es[..n], es[n], e);
      CountStep(Only(plan, es[..n], slot), es[n], e);
    } else {
      NoneOfNone(plan, slot);
    }
  }

  /**
   Which entries a tar holds: what has no content of its own is in the directory tar; a file goes by its size, and if
   it is small or medium, into the tar at its hash modulo the number of such tars; large files of one hash share one.
   */
  lemma SlotsHold(plan: Plan, es: seq<Entry>, e: Entry, k: nat)
    requires plan.Valid() && e in es
    ensures e in Only(plan, es, Taz) <==> e.kind != Content
    ensures e in Only(plan, es, Small(k)) <==> e.kind == Content && e.size < plan.smallcomp && k == e.hash % plan.nst
    ensures e in Only(plan, es, Medium(k)) <==>
              e.kind == Content && plan.smallcomp <= e.size < plan.mediumcomp && k == e.hash % plan.nmt
    ensures e in Only(plan, es, Large(k)) <==>
              e.kind == Content && plan.smallcomp <= e.size && plan.mediumcomp <= e.size && k == e.hash
  {
    hide Only;
    EntriesAreInOneTar(plan, es, Taz, e);
    EntriesAreInOneTar(plan, es, Small(k), e);
    EntriesAreInOneTar(plan, es, Medium(k), e);
    EntriesAreInOneTar(plan, es, Large(k), e);
  }

  lemma NoneOfNone(plan: Plan, slot: Slot)
    requires plan.Valid()
    ensures Only(plan, [], slot) == []
  {
  }

  lemma NotContent(plan: Plan, e: Entry)
    requires plan.Valid()
    ensures plan.SlotOf(e) == Taz <==> e.kind != Content
  {
  }

  /** The tar of directories and hard links: hard links first. */
  lemma {:induction false} TazHasTheRest(plan: Plan, es: seq<Entry>)
    requires plan.Valid()
    ensures multiset(OfKind(es, HardLink) + OfKind(es, Directory)) == multiset(Only(plan, es, Taz))
  {
    if es != [] {
      var n := |es| - 1;
      TazHasTheRest(plan, es[..n]);
      assert es[..n + 1] == es;
      NotContent(plan, es[n]);
      hide *;
      OnlyStep(plan, es, n, Taz);
      OfKindStep(es, n, HardLink);
      OfKindStep(es, n, Directory);
    }
  }

  /** A change of one entry reaches the tar it was in and the tar it gets into; all others stay as they are. */
  lemma {:induction false} OthersStay(plan: Plan, front: seq<Entry>, e: seq<Entry>, f: seq<Entry>, back: seq<Entry>,
                                      slot: Slot)
    requires plan.Valid() && (forall x :: x in e ==> plan.SlotOf(x) != slot)
    requires (forall x :: x in f ==> plan.SlotOf(x) != slot)
    ensures Only(plan, front + e + back, slot) == Only(plan, front + f + back, slot)
    decreases |back|, |e|, |f|
  {
    hide *;
    if back != [] {
      var n := |back| - 1;
      assert front + e + back == (front + e + back[..n]) + [back[n]];
      assert front + f + back == (front + f + back[..n]) + [back[n]];
      OnlyLast(plan, front + e + back[..n], back[n], slot);
      OnlyLast(plan, front + f + back[..n], back[n], slot);
      OthersStay(plan, front, e, f, back[..n], slot);
    } else if e != [] {
      var n := |e| - 1;
      assert front + e + back == (front + e[..n] + back) + [e[n]];
      OnlyLast(plan, front + e[..n] + back, e[n], slot);
      OthersStay(plan, front, e[..n], f, back, slot);
    } else if f != [] {
      var n := |f| - 1;
      assert front + f + back == (front + f[..n] + back) + [f[n]];
      OnlyLast(plan, front + f[..n] + back, f[n], slot);
      OthersStay(plan, front, e, f[..n], back, slot);
    }
  }

  lemma OnlyLast(plan: Plan, es: seq<Entry>, e: Entry, slot: Slot)
    requires plan.Valid()
    ensures Only(plan, es + [e], slot)
         == if plan.SlotOf(e) == slot then Only(plan, es, slot) + [e] else Only(plan, es, slot)
  {
    hide Plan.SlotOf;
    assert (es + [e])[..|es|] == es;
  }

  /** A file that stays in its size class stays in its tar. */
  lemma ResizedStays(plan: Plan, e: Entry, size: nat)
    requires plan.Valid() && e.kind == Content
    ensures plan.SlotOf(e) == plan.SlotOf(e.(size := size)) <==> plan.ClassOf(e.size) == plan.ClassOf(size)
  {
  }

  /** No avalanche: resizing one file within its class leaves all other tars with the entries they had. */
  lemma ResizingStaysInTar(plan: Plan, es: seq<Entry>, i: nat, size: nat, slot: Slot)
    requires plan.Valid() && i < |es| && plan.ClassOf(es[i].size) == plan.ClassOf(size) && slot != plan.SlotOf(es[i])
    ensures Only(plan, es[i := es[i].(size := size)], slot) == Only(plan, es, slot)
  {
    assert plan.SlotOf(es[i].(size := size)) == plan.SlotOf(es[i]);
    hide Plan.SlotOf;
    var f := es[i].(size := size);
    assert es == es[..i] + [es[i]] + es[i + 1..];
    assert es[i := f] == es[..i] + [f] + es[i + 1..];
    OthersStay(plan, es[..i], [es[i]], [f], es[i + 1..], slot);
  }

  // ---------------------------------------------------------------- sizes

  /** The sizes of some tars, summed up. */
  ghost function SumOver(plan: Plan, es: seq<Entry>, slots: set<Slot>): nat
    requires plan.Valid()
  {
    if slots == {} then 0
    else
      var slot :| slot in slots;
      Sum(Only(plan, es, slot)) + SumOver(plan, es, slots - {slot})
  }

  function AllOf(plan: Plan, es: seq<Entry>, slots: set<Slot>): nat
    requires plan.Valid()
  {
    if es == [] then 0
    else
      var e := es[|es| - 1];
      AllOf(plan, es[..|es| - 1], slots) + if plan.SlotOf(e) in slots then e.size else 0
  }

  lemma {:induction false} AllOfSplits(plan: Plan, es: seq<Entry>, slots: set<Slot>, slot: Slot)
    requires plan.Valid() && slot in slots
    ensures AllOf(plan, es, slots) == Sum(Only(plan, es, slot)) + AllOf(plan, es, slots - {slot})
  {
    if es != [] {
      var n := |es| - 1;
      AllOfSplits(plan, es[..n], slots, slot);
      hide Plan.SlotOf;
      if plan.SlotOf(es[n]) == slot {
        var o := Only(plan, es[..n], slot);
        assert Only(plan, es, slot) == o + [es[n]] && (o + [es[n]])[..|o|] == o;
      } else {
        assert Only(plan, es, slot) == Only(plan, es[..n], slot);
      }
    }
  }

  lemma {:induction false} SumOverIsAllOf(plan: Plan, es: seq<Entry>, slots: set<Slot>)
    requires plan.Valid()
    ensures SumOver(plan, es, slots) == AllOf(plan, es, slots)
    decreases slots
  {
    if slots == {} {
      NoneIsNothing(plan, es);
    } else {
      var slot :| slot in slots
        && SumOver(plan, es, slots) == Sum(Only(plan, es, slot)) + SumOver(plan, es, slots - {slot});
      SumOverIsAllOf(plan, es, slots - {slot});
      AllOfSplits(plan, es, slots, slot);
    }
  }

  lemma {:induction false} NoneIsNothing(plan: Plan, es: seq<Entry>)
    requires plan.Valid()
    ensures AllOf(plan, es, {}) == 0
  {
    if es != [] {
      NoneIsNothing(plan, es[..|es| - 1]);
    }
  }

  /** The tars' sizes add up to those of the entries. */
  lemma {:induction false} SizesAddUp(plan: Plan, es: seq<Entry>, slots: set<Slot>)
    requires plan.Valid() && forall e :: e in es ==> plan.SlotOf(e) in slots
    ensures SumOver(plan, es, slots) == Sum(es)
  {
    SumOverIsAllOf(plan, es, slots);
    hide Plan.SlotOf;
    AllIsSum(plan, es, slots);
  }

  lemma {:induction false} AllIsSum(plan: Plan, es: seq<Entry>, slots: set<Slot>)
    requires plan.Valid() && forall e :: e in es ==> plan.SlotOf(e) in slots
    ensures AllOf(plan, es, slots) == Sum(es)
  {
    if es != [] {
      AllIsSum(plan, es[..|es| - 1], slots);
    }
  }

  // ---------------------------------------------------------------- grouping

  /** A storage directory's tars, as the entries added to them. */
  class Tars {
    var taz: seq<Entry>
    var hardLinks: seq<Entry>
    var small: map<nat, seq<Entry>>
    var medium: map<nat, seq<Entry>>
    var large: map<nat, seq<Entry>>

    constructor ()
      ensures taz == hardLinks == [] && small == medium == large == map[]
    {
      taz, hardLinks, small, medium, large := [], [], map[], map[], map[];
    }

    /** Every tar has the entries that go into it, and there are tars for all entries. */
    ghost predicate Grouped(plan: Plan, es: seq<Entry>)
      reads this
    {
      && plan.Valid() && hardLinks == OfKind(es, HardLink) && taz == OfKind(es, Directory)
      && SmallAre(plan, es, small) && MediumAre(plan, es, medium) && LargeAre(plan, es, large)
    }

    method CreateTars(plan: Plan)
      requires plan.Valid() && taz == hardLinks == [] && small == medium == large == map[]
      modifies `small, `medium
      ensures Grouped(plan, [])
    {
      for i := 0 to plan.nst
        invariant forall k :: k in small <==> 0 <= k < i
        invariant forall k :: k in small ==> small[k] == []
        invariant medium == map[]
      {
        small := small[i := []];
      }
      for i := 0 to plan.nmt
        invariant forall k :: k in small <==> 0 <= k < plan.nst
        invariant forall k :: k in small ==> small[k] == []
        invariant forall k :: k in medium <==> 0 <= k < i
        invariant forall k :: k in medium ==> medium[k] == []
      {
        medium := medium[i := []];
      }
    }

    /** Adds the entries to the tars; no modulus is taken by zero, and no tar is missing. */
    method Group(plan: Plan, es: seq<Entry>)
      requires Grouped(plan, [])
      modifies this
      ensures Grouped(plan, es)
    {
      hide Only, OfKind;
      assert es[..0] == [];
      for i := 0 to |es|
        invariant Grouped(plan, es[..i])
      {
        AddEntry(plan, es, i);
      }
      assert es[..|es|] == es;
    }

    /** Groups the entries, and puts the hard links before the directories. */
    method GroupFiles(plan: Plan, es: seq<Entry>)
      requires plan.Valid() && taz == hardLinks == [] && small == medium == large == map[]
      modifies this
      ensures SmallAre(plan, es, small) && MediumAre(plan, es, medium) && LargeAre(plan, es, large)
      ensures taz == OfKind(es, HardLink) + OfKind(es, Directory)
    {
      CreateTars(plan);
      Group(plan, es);
      taz, hardLinks := hardLinks + taz, [];
    }

    method AddEntry(plan: Plan, es: seq<Entry>, i: nat)
      requires i < |es| && Grouped(plan, es[..i])
      modifies this
      ensures Grouped(plan, es[..i + 1])
    {
      hide Only, OfKind, SmallAre, MediumAre, LargeAre;
      var entry := es[i];
      SmallStep(plan, es, i, small);
      MediumStep(plan, es, i, medium);
      LargeStep(plan, es, i, large);
      OfKindStep(es, i, HardLink);
      OfKindStep(es, i, Directory);
      if entry.kind == Directory {
        taz := taz + [entry];
      } else if entry.kind == HardLink {
        hardLinks := hardLinks + [entry];
      } else if entry.size < plan.smallcomp {
        var o := entry.hash % plan.nst;
        small := small[o := small[o] + [entry]];
      } else if entry.size < plan.mediumcomp {
        var o := entry.hash % plan.nmt;
        medium := medium[o := medium[o] + [entry]];
      } else {
        if entry.hash !in large {
          large := large[entry.hash := []];
        }
        large := large[entry.hash := large[entry.hash] + [entry]];
        assert old(large)[entry.hash := []][entry.hash := [] + [entry]] == old(large)[entry.hash := [] + [entry]];
      }
    }
  }

  ghost predicate SmallAre(plan: Plan, es: seq<Entry>, small: map<nat, seq<Entry>>)
    requires plan.Valid()
  {
    && (forall k :: k in small <==> 0 <= k < plan.nst)
    && (forall k :: k in small ==> small[k] == Only(plan, es, Small(k)))
  }

  ghost predicate MediumAre(plan: Plan, es: seq<Entry>, medium: map<nat, seq<Entry>>)
    requires plan.Valid()
  {
    && (forall k :: k in medium <==> 0 <= k < plan.nmt)
    && (forall k :: k in medium ==> medium[k] == Only(plan, es, Medium(k)))
  }

  /** Large tars are there for the hashes that large entries have. */
  ghost predicate LargeAre(plan: Plan, es: seq<Entry>, large: map<nat, seq<Entry>>)
    requires plan.Valid()
  {
    && (forall h :: h in large <==> exists e :: e in es && plan.SlotOf(e) == Large(h))
    && (forall h :: h in large ==> large[h] == Only(plan, es, Large(h)))
  }

  lemma SmallStep(plan: Plan, es: seq<Entry>, i: nat, small: map<nat, seq<Entry>>)
    requires plan.Valid() && i < |es| && SmallAre(plan, es[..i], small)
    ensures
      var slot := plan.SlotOf(es[i]);
      if slot.Small? then
        slot.tar in small && SmallAre(plan, es[..i + 1], small[slot.tar := small[slot.tar] + [es[i]]])
      else SmallAre(plan, es[..i + 1], small)
  {
    Steps(plan, es, i);
    InRange(plan, es[i]);
    hide Only, Plan.SlotOf;
  }

  lemma MediumStep(plan: Plan, es: seq<Entry>, i: nat, medium: map<nat, seq<Entry>>)
    requires plan.Valid() && i < |es| && MediumAre(plan, es[..i], medium)
    ensures
      var slot := plan.SlotOf(es[i]);
      if slot.Medium? then
        slot.tar in medium && MediumAre(plan, es[..i + 1], medium[slot.tar := medium[slot.tar] + [es[i]]])
      else MediumAre(plan, es[..i + 1], medium)
  {
    Steps(plan, es, i);
    InRange(plan, es[i]);
    hide Only, Plan.SlotOf;
  }

  lemma LargeStep(plan: Plan, es: seq<Entry>, i: nat, large: map<nat, seq<Entry>>)
    requires plan.Valid() && i < |es| && LargeAre(plan, es[..i], large)
    ensures
      var slot := plan.SlotOf(es[i]);
      if slot.Large? then
        LargeAre(plan, es[..i + 1], large[slot.hash := (if slot.hash in large then large[slot.hash] else []) + [es[i]]])
      else LargeAre(plan, es[..i + 1], large)
  {
    Steps(plan, es, i);
    var slot := plan.SlotOf(es[i]);
    if slot.Large? && slot.hash !in large {
      NoneYet(plan, es[..i], slot.hash);
    }
    hide Only, Plan.SlotOf;
  }

  lemma InRange(plan: Plan, e: Entry)
    requires plan.Valid()
    ensures plan.SlotOf(e).Small? ==> plan.SlotOf(e).tar < plan.nst
    ensures plan.SlotOf(e).Medium? ==> plan.SlotOf(e).tar < plan.nmt
  {
  }

  lemma Steps(plan: Plan, es: seq<Entry>, i: nat)
    requires plan.Valid() && i < |es|
    ensures forall slot ::
      Only(plan, es[..i + 1], slot) == Only(plan, es[..i], slot) + if plan.SlotOf(es[i]) == slot then [es[i]] else []
    ensures forall kind ::
      OfKind(es[..i + 1], kind) == OfKind(es[..i], kind) + if es[i].kind == kind then [es[i]] else []
    ensures es[..i + 1] == es[..i] + [es[i]]
  {
    hide Only, OfKind, Plan.SlotOf;
    forall slot
      ensures Only(plan, es[..i + 1], slot)
           == Only(plan, es[..i], slot) + if plan.SlotOf(es[i]) == slot then [es[i]] else []
    {
      OnlyStep(plan, es, i, slot);
    }
    forall kind
      ensures OfKind(es[..i + 1], kind) == OfKind(es[..i], kind) + if es[i].kind == kind then [es[i]] else []
    {
      OfKindStep(es, i, kind);
    }
  }

  lemma {:induction false} NoneYet(plan: Plan, es: seq<Entry>, h: nat)
    requires plan.Valid() && !exists e :: e in es && plan.SlotOf(e) == Large(h)
    ensures Only(plan, es, Large(h)) == []
  {
    hide Plan.SlotOf;
    if es != [] {
      NoneYet(plan, es[..|es| - 1], h);
    }
  }
}
