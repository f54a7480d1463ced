/** Comparing keep rules by what they leave of any storage. */
module KeepRules {
  import opened Blocks
  import opened Calendar
  import opened Pruning

  // ---------------------------------------------------------------- when one rule keeps less than another

  /** The program's comparison is right whenever it says yes. */
  lemma SubsetOfKeepsLess(k1: Keep, k2: Keep, now: nat, ps: set<nat>)
    requires k1.SubsetOf(k2) && NoneAfter(now, ps)
    ensures Survivors(k1, now, ps) <= Survivors(k2, now, ps)
  {
    hide Age, IsTop, IsLatest;
  }

  /** The comparison is by windows: every one of them is no longer. */
  lemma SubsetOfIs(k1: Keep, k2: Keep)
    ensures k1.SubsetOf(k2) <==> k1.all <= k2.all && forall l: Level :: k1.Window(l) <= k2.Window(l)
  {
    assert k1.daily == k1.Window(Daily) && k1.weekly == k1.Window(Weekly) && k1.monthly == k1.Window(Monthly);
  }

  function Max(a: nat, b: nat): nat {
    if a > b then a else b
  }

  /** The comparison window by window, where a window of whole days does the work of one of weeks or months. */
  predicate KeepsLess(k1: Keep, k2: Keep) {
    && k1.all <= k2.all
    && k1.daily <= Max(k2.daily, k2.all)
    && k1.weekly <= Max(k2.weekly, Max(k2.daily, k2.all))
    && k1.monthly <= Max(k2.monthly, Max(k2.daily, k2.all))
  }

  lemma SameDaySameBuckets(now: nat, p: nat, q: nat)
    requires p <= now && q <= now && WeeksInOrder(now) && Bucket(Daily, p) == Bucket(Daily, q)
    ensures Bucket(Weekly, p) == Bucket(Weekly, q) && Bucket(Monthly, p) == Bucket(Monthly, q)
  {
    hide MonthIdentifier;
    WeekOfDay(p);
    WeekOfDay(q);
  }

  lemma WeekOfDay(p: nat)
    requires WeeksInOrder(p)
    ensures ToWeeks(p) == (ToDays(p) + 3) / 7
  {
    var day, rest := p / 86_400_000_000_000, p % 86_400_000_000_000;
    var week, weekday := (day + 3) / 7, (day + 3) % 7;
    assert p + 259_200_000_000_000 == week * 604_800_000_000_000 + (weekday * 86_400_000_000_000 + rest);
  }

  /** The last point of a week or a month is the last point of its day. */
  lemma TopOfDay(now: nat, l: Level, ps: set<nat>, p: nat)
    requires NoneAfter(now, ps) && WeeksInOrder(now) && IsTop(l, ps, p)
    ensures IsTop(Daily, ps, p)
  {
    hide Bucket;
    forall q | q in ps && Bucket(Daily, q) == Bucket(Daily, p)
      ensures q <= p
    {
      SameDaySameBuckets(now, p, q);
    }
  }

  /** A rule that passes the comparison keeps less of every storage. */
  lemma KeepsLessIsSound(k1: Keep, k2: Keep, now: nat, ps: set<nat>)
    requires KeepsLess(k1, k2) && NoneAfter(now, ps) && WeeksInOrder(now)
    ensures Survivors(k1, now, ps) <= Survivors(k2, now, ps)
  {
    hide Age, IsTop, IsLatest;
    forall p | p in Survivors(k1, now, ps)
      ensures p in Survivors(k2, now, ps)
    {
      if TopInWindow(k1, now, Weekly, ps, p) { TopOfDay(now, Weekly, ps, p); }
      if TopInWindow(k1, now, Monthly, ps, p) { TopOfDay(now, Monthly, ps, p); }
    }
  }

  /** Windows of up to 500 years; the clock itself ends after 584. */
  predicate Expressible(k: Keep) {
    k.all <= 15_768_000_000 && k.daily <= 15_768_000_000 && k.weekly <= 15_768_000_000 && k.monthly <= 15_768_000_000
  }

  /** Two points a nanosecond apart that share the buckets of some levels only. */
  lemma Neighbours(level: int) returns (p: nat)
    requires 0 <= level <= 3
    ensures p < 2_678_400_000_000_000
    ensures level == 0 ==> forall l :: Bucket(l, p) == Bucket(l, p + 1)
    ensures level == 1 ==> forall l :: Bucket(l, p) == Bucket(l, p + 1) <==> l != Daily
    ensures level == 2 ==> forall l :: Bucket(l, p) == Bucket(l, p + 1) <==> l == Monthly
    ensures level == 3 ==> forall l :: Bucket(l, p) == Bucket(l, p + 1) <==> l == Weekly
  {
    hide *;
    if level == 0 {
      p := 0;
      BucketsAre(0, 0, 0);
      BucketsAre(1, 0, 0);
    } else if level == 1 {
      p := 431_999_999_999_999;
      BucketsAre(431_999_999_999_999, 4, 1);
      BucketsAre(432_000_000_000_000, 5, 1);
    } else if level == 2 {
      p := 950_399_999_999_999;
      BucketsAre(950_399_999_999_999, 10, 1);
      BucketsAre(950_400_000_000_000, 11, 2);
    } else {
      p := 2_678_399_999_999_999;
      BucketsAre(2_678_399_999_999_999, 30, 4);
      BucketsAre(2_678_400_000_000_000, 31, 4);
    }
  }

  lemma BucketsAre(p: nat, day: nat, week: nat)
    requires day < 59 && day * 86_400_000_000_000 <= p < (day + 1) * 86_400_000_000_000
    requires week * 604_800_000_000_000 <= p + 259_200_000_000_000 < (week + 1) * 604_800_000_000_000
    ensures forall l ::
      Bucket(l, p) == if l == Daily then day else if l == Weekly then week else if day < 31 then 197001 else 197002
  {
    DivIs(p, 86_400_000_000_000, day, p - day * 86_400_000_000_000);
    DivIs(p + 259_200_000_000_000, 604_800_000_000_000, week, p + 259_200_000_000_000 - week * 604_800_000_000_000);
    hide MonthIdentifier;
    FirstMonths(day);
  }

  lemma FirstMonths(day: nat)
    requires day < 59
    ensures MonthIdentifier(day) == if day < 31 then 197001 else 197002
  {
    assert DaysBeforeYear(369) == 134774 && YearLength(369) == 365;
    YearIsUnique(day + 135080, 369);
    assert MonthOfYear(day + 306) == if day < 31 then 10 else 11;
    hide YearLength, DaysBeforeYear, YearOfEra, MonthIdentifier, MonthOfYear;
    MonthIdentifierIs(day, 4, day + 135080);
  }

  /** A rule that fails the comparison keeps more of some storage. */
  lemma KeepsLessIsComplete(k1: Keep, k2: Keep) returns (now: nat, ps: set<nat>)
    requires !KeepsLess(k1, k2) && Expressible(k2)
    ensures NoneAfter(now, ps) && WeeksInOrder(now)
    ensures !(Survivors(k1, now, ps) <= Survivors(k2, now, ps))
  {
    hide Bucket;
    var level := if k1.all > k2.all then 0 else if k1.daily > Max(k2.daily, k2.all) then 1
      else if k1.weekly > Max(k2.weekly, Max(k2.daily, k2.all)) then 2 else 3;
    var age := if level == 0 then k2.all else if level == 1 then Max(k2.daily, k2.all)
      else if level == 2 then Max(k2.weekly, Max(k2.daily, k2.all)) else Max(k2.monthly, Max(k2.daily, k2.all));
    var p := Neighbours(level);
    now, ps := p + age * 1_000_000_000 + 1, {p, p + 1};
    assert Age(now, p) == age;
    assert p in Survivors(k1, now, ps);
    assert p !in Survivors(k2, now, ps);
  }

  /** The comparison is exact; the program's own is not, it also says no to rules that keep less. */
  lemma KeepsLessIsExact(k1: Keep, k2: Keep)
    requires Expressible(k2)
    ensures KeepsLess(k1, k2) <==> forall now, ps ::
      NoneAfter(now, ps) && WeeksInOrder(now) ==> Survivors(k1, now, ps) <= Survivors(k2, now, ps)
    ensures k1.SubsetOf(k2) ==> KeepsLess(k1, k2)
    ensures KeepsLess(Keep(0, 1, 0, 0), Keep(1, 0, 0, 0)) && !Keep(0, 1, 0, 0).SubsetOf(Keep(1, 0, 0, 0))
  {
    hide Survivors;
    if KeepsLess(k1, k2) {
      forall now, ps: set<nat> | NoneAfter(now, ps) && WeeksInOrder(now)
        ensures Survivors(k1, now, ps) <= Survivors(k2, now, ps)
      {
        KeepsLessIsSound(k1, k2, now, ps);
      }
    } else {
      var now, ps := KeepsLessIsComplete(k1, k2);
    }
  }
}
