/**
 Which points in time a prune keeps. The pruner streams points oldest first and remembers the last
 one of every day, week and month; what it keeps is stated here without the streaming.
 */
module Pruning {
  import opened Calendar

  datatype Level = Daily | Weekly | Monthly

  /** Window lengths in seconds back from now. */
  datatype Keep = Keep(all: nat, daily: nat, weekly: nat, monthly: nat) {
    function Window(l: Level): nat {
      match l
      case Daily => daily
      case Weekly => weekly
      case Monthly => monthly
    }

    /** The program's test whether pruning with this rule keeps a subset of what pruning with k keeps. */
    predicate SubsetOf(k: Keep) {
      all <= k.all && daily <= k.daily && weekly <= k.weekly && monthly <= k.monthly
    }
  }

  /** Times for which the week number does not wrap around in 64 bits. */
  predicate WeeksInOrder(now: nat) {
    now + 259_200_000_000_000 < 0x1_0000_0000_0000_0000
  }

  function Bucket(l: Level, p: nat): nat {
    match l
    case Daily => ToDays(p)
    case Weekly => ToWeeks(p)
    case Monthly => ToMonthIdentifier(p)
  }

  /** Whole seconds since p. */
  function Age(now: nat, p: nat): nat
    requires p <= now
  {
    (now - p) / 1_000_000_000
  }

  // ---------------------------------------------------------------- the declarative meaning

  ghost predicate NoneAfter(now: nat, ps: set<nat>) {
    forall p :: p in ps ==> p <= now
  }

  predicate IsLatest(ps: set<nat>, p: nat) {
    p in ps && forall q :: q in ps ==> q <= p
  }

  predicate IsTop(l: Level, ps: set<nat>, p: nat) {
    p in ps && forall q :: q in ps && Bucket(l, q) == Bucket(l, p) ==> q <= p
  }

  predicate TopInWindow(keep: Keep, now: nat, l: Level, ps: set<nat>, p: nat)
    requires p <= now
  {
    IsTop(l, ps, p) && Age(now, p) < keep.Window(l)
  }

  /** A point is kept when it is the latest, or recent enough, or the last of its day, week or month in that window. */
  predicate Kept(keep: Keep, now: nat, ps: set<nat>, p: nat)
    requires p <= now
  {
    p in ps && (
      || IsLatest(ps, p)
      || Age(now, p) < keep.all
      || TopInWindow(keep, now, Daily, ps, p)
      || TopInWindow(keep, now, Weekly, ps, p)
      || TopInWindow(keep, now, Monthly, ps, p))
  }

  function Survivors(keep: Keep, now: nat, ps: set<nat>): set<nat>
    requires NoneAfter(now, ps)
  {
    set p | p in ps && Kept(keep, now, ps, p)
  }

  // ---------------------------------------------------------------- the streaming pruner

  /** m maps every bucket that has a point in the window to its last point, and nothing else. */
  ghost predicate HoldsTops(m: map<nat, nat>, keep: Keep, now: nat, l: Level, ps: set<nat>)
    requires NoneAfter(now, ps)
  {
    && (forall b :: b in m ==> m[b] in ps && Bucket(l, m[b]) == b && TopInWindow(keep, now, l, ps, m[b]))
    && (forall p :: p in ps && Age(now, p) < keep.Window(l) ==> Bucket(l, p) in m)
  }

  ghost predicate HoldsRecent(all: set<nat>, keep: Keep, now: nat, ps: set<nat>)
    requires NoneAfter(now, ps)
  {
    forall p :: p in all <==> p in ps && Age(now, p) < keep.all
  }

  /** What the pruner remembers of the points it has seen. */
  datatype Memory = Memory(latest: nat, all: set<nat>, daily: map<nat, nat>, weekly: map<nat, nat>,
                           monthly: map<nat, nat>)

  ghost predicate Summarizes(memory: Memory, keep: Keep, now: nat, ps: set<nat>) {
    && NoneAfter(now, ps)
    && (ps != {} ==> IsLatest(ps, memory.latest))
    && HoldsRecent(memory.all, keep, now, ps)
    && HoldsTops(memory.daily, keep, now, Daily, ps)
    && HoldsTops(memory.weekly, keep, now, Weekly, ps)
    && HoldsTops(memory.monthly, keep, now, Monthly, ps)
  }

  class Prune {
    const now: nat
    const keep: Keep
    var prev: nat
    var points: map<nat, bool>
    var latest: nat
    var all: set<nat>
    var dailyMax: map<nat, nat>
    var weeklyMax: map<nat, nat>
    var monthlyMax: map<nat, nat>

    ghost predicate Valid()
      reads this
    {
      && Summarizes(Memory(latest, all, dailyMax, weeklyMax, monthlyMax), keep, now, points.Keys)
      && forall p :: p in points ==> p <= prev
    }

    constructor (now: nat, keep: Keep)
      ensures Valid() && points == map[] && prev == 0 && this.now == now && this.keep == keep
    {
      this.now, this.keep := now, keep;
      prev, points, latest, all := 0, map[], 0, {};
      dailyMax, weeklyMax, monthlyMax := map[], map[], map[];
    }

    method AddPointInTime(p: nat)
      requires Valid() && prev <= p <= now
      modifies this
      ensures Valid() && points == old(points)[p := false] && prev == p
    {
      hide Bucket, Summarizes, Age;
      ghost var seen := points.Keys;
      ghost var memory := Memory(latest, all, dailyMax, weeklyMax, monthlyMax);
      AfterAdding(memory, keep, now, seen, p);
      prev := p;
      points := points[p := false];
      Record(p);
      assert points.Keys == seen + {p};
    }

    method Record(p: nat)
      requires p <= now
      modifies `latest, `all, `dailyMax, `weeklyMax, `monthlyMax
      ensures Memory(latest, all, dailyMax, weeklyMax, monthlyMax)
           == Remember(old(Memory(latest, all, dailyMax, weeklyMax, monthlyMax)), keep, now, p)
    {
      hide Bucket;
      var diff := (now - p) / 1_000_000_000;
      latest := p;
      if diff < keep.all {
        all := all + {p};
      }
      if diff < keep.daily {
        dailyMax := dailyMax[Bucket(Daily, p) := p];
      }
      if diff < keep.weekly {
        weeklyMax := weeklyMax[Bucket(Weekly, p) := p];
      }
      if diff < keep.monthly {
        monthlyMax := monthlyMax[Bucket(Monthly, p) := p];
      }
    }

    /** The decision for every point added, kept or not. A point marked once stays marked. */
    method Decide() returns (result: map<nat, bool>)
      requires Valid() && points != map[]
      modifies `points
      ensures result == points && result.Keys == old(points.Keys)
      ensures NoneAfter(now, result.Keys)
      ensures forall p :: p in result ==> (result[p] <==> old(points[p]) || p in Survivors(keep, now, result.Keys))
    {
      MarkedAreKept(points.Keys, keep, now, Memory(latest, all, dailyMax, weeklyMax, monthlyMax));
      ghost var kept := Survivors(keep, now, points.Keys);
      hide *;
      Mark({latest});
      Mark(all);
      Mark(dailyMax.Values);
      Mark(weeklyMax.Values);
      Mark(monthlyMax.Values);
      result := points;
    }

    /** Meant to be the last point of the last week that keeps one; it is always the latest point of all. */
    method MostRecentWeeklyBackup() returns (w: nat)
      requires Valid() && points != map[] && WeeksInOrder(now)
      ensures w == latest
    {
      hide Bucket, WeeksInOrder, NoneAfter;
      w := LastValue(weeklyMax);
      if weeklyMax != map[] {
        ghost var b :| IsLatest(weeklyMax.Keys, b) && w == weeklyMax[b];
        LastWeekIsLatest(weeklyMax, keep, now, points.Keys, latest, b);
      }
      if w == 0 {
        w := latest;
      }
    }

    method Mark(ps: set<nat>)
      requires ps <= points.Keys
      modifies `points
      ensures points.Keys == old(points.Keys)
      ensures forall p :: p in points ==> points[p] == (p in ps || old(points[p]))
    {
      var todo := ps;
      while todo != {}
        invariant todo <= ps && points.Keys == old(points.Keys)
        invariant forall p :: p in points ==> points[p] == (p in ps - todo || old(points[p]))
        decreases |todo|
      {
        var p :| p in todo;
        points := points[p := true];
        todo := todo - {p};
      }
    }
  }

  /** A point not older than any other is the last of its bucket; every other bucket stays as it was. */
  lemma TopsAfterAdding(m: map<nat, nat>, keep: Keep, now: nat, l: Level, ps: set<nat>, p: nat)
    requires NoneAfter(now, ps) && HoldsTops(m, keep, now, l, ps)
    requires p <= now && forall q :: q in ps ==> q <= p
    ensures NoneAfter(now, ps + {p})
    ensures HoldsTops(if Age(now, p) < keep.Window(l) then m[Bucket(l, p) := p] else m, keep, now, l, ps + {p})
  {
    hide Bucket;
  }

  /** The remembered points are exactly the last ones of their buckets that lie in the window. */
  lemma RememberedIsTop(m: map<nat, nat>, keep: Keep, now: nat, l: Level, ps: set<nat>, p: nat)
    requires NoneAfter(now, ps) && HoldsTops(m, keep, now, l, ps)
    ensures p in m.Values <==> p in ps && p <= now && TopInWindow(keep, now, l, ps, p)
  {
    hide Bucket;
    if p in ps && TopInWindow(keep, now, l, ps, p) {
      assert m[Bucket(l, p)] in ps;
      assert m[Bucket(l, p)] == p;
    }
  }

  lemma MarkedAreKept(ps: set<nat>, keep: Keep, now: nat, memory: Memory)
    requires Summarizes(memory, keep, now, ps) && ps != {}
    ensures NoneAfter(now, ps)
    ensures {memory.latest} + memory.all + memory.daily.Values + memory.weekly.Values + memory.monthly.Values
         == Survivors(keep, now, ps)
  {
    hide HoldsTops, TopInWindow, Age, Bucket, IsLatest, IsTop;
    ghost var marked :=
      {memory.latest} + memory.all + memory.daily.Values + memory.weekly.Values + memory.monthly.Values;
    forall p
      ensures p in marked <==> p in Survivors(keep, now, ps)
    {
      RememberedIsTop(memory.daily, keep, now, Daily, ps, p);
      RememberedIsTop(memory.weekly, keep, now, Weekly, ps, p);
      RememberedIsTop(memory.monthly, keep, now, Monthly, ps, p);
      LatestIsOne(ps, memory.latest, p);
    }
  }

  lemma LatestIsOne(ps: set<nat>, latest: nat, p: nat)
    requires IsLatest(ps, latest)
    ensures IsLatest(ps, p) <==> p == latest
    ensures latest in ps
  {
  }

  function Remember(memory: Memory, keep: Keep, now: nat, p: nat): Memory
    requires p <= now
  {
    Memory(
      p,
      if Age(now, p) < keep.all then memory.all + {p} else memory.all,
      if Age(now, p) < keep.daily then memory.daily[Bucket(Daily, p) := p] else memory.daily,
      if Age(now, p) < keep.weekly then memory.weekly[Bucket(Weekly, p) := p] else memory.weekly,
      if Age(now, p) < keep.monthly then memory.monthly[Bucket(Monthly, p) := p] else memory.monthly)
  }

  lemma RecentAfterAdding(all: set<nat>, keep: Keep, now: nat, ps: set<nat>, p: nat)
    requires NoneAfter(now, ps) && HoldsRecent(all, keep, now, ps) && p <= now
    ensures NoneAfter(now, ps + {p})
    ensures HoldsRecent(if Age(now, p) < keep.all then all + {p} else all, keep, now, ps + {p})
  {
  }

  lemma AfterAdding(memory: Memory, keep: Keep, now: nat, ps: set<nat>, p: nat)
    requires Summarizes(memory, keep, now, ps) && p <= now && forall q :: q in ps ==> q <= p
    ensures Summarizes(Remember(memory, keep, now, p), keep, now, ps + {p})
  {
    hide Bucket, HoldsTops, HoldsRecent, Age;
    TopsAfterAdding(memory.daily, keep, now, Daily, ps, p);
    TopsAfterAdding(memory.weekly, keep, now, Weekly, ps, p);
    TopsAfterAdding(memory.monthly, keep, now, Monthly, ps, p);
    RecentAfterAdding(memory.all, keep, now, ps, p);
  }

  predicate IsFirst(keys: set<nat>, b: nat) {
    b in keys && forall c :: c in keys ==> b <= c
  }

  lemma {:induction false} FirstKey(keys: set<nat>) returns (b: nat)
    requires keys != {}
    ensures IsFirst(keys, b)
  {
    var a :| a in keys;
    if keys == {a} {
      b := a;
    } else {
      var c := FirstKey(keys - {a});
      b := if c < a then c else a;
      assert forall d :: d in keys ==> d == a || d in keys - {a};
    }
  }

  /** The value a walk over the map in the order of its keys ends with. */
  method LastValue(m: map<nat, nat>) returns (w: nat)
    ensures if m == map[] then w == 0 else exists b :: IsLatest(m.Keys, b) && w == m[b]
  {
    w := 0;
    var todo := m.Keys;
    ghost var last := 0;
    while todo != {}
      invariant todo <= m.Keys
      invariant if todo == m.Keys then w == 0
        else last in m && w == m[last] && forall c :: c in m ==> (c in todo <==> last < c)
      decreases |todo|
    {
      ghost var first := FirstKey(todo);
      var b :| IsFirst(todo, b);
      assert IsFirst(todo, b);
      w, last := m[b], b;
      todo := todo - {b};
    }
  }

  lemma WeeksAscend(now: nat, p: nat, q: nat)
    requires p <= q <= now && WeeksInOrder(now)
    ensures ToWeeks(p) <= ToWeeks(q)
  {
  }

  /** The last week remembered, if any, is remembered for the latest point. */
  lemma LastWeekIsLatest(m: map<nat, nat>, keep: Keep, now: nat, ps: set<nat>, latest: nat, b: nat)
    requires NoneAfter(now, ps) && HoldsTops(m, keep, now, Weekly, ps) && IsLatest(ps, latest) && WeeksInOrder(now)
    requires IsLatest(m.Keys, b)
    ensures m[b] == latest
  {
    hide ToWeeks;
    WeeksAscend(now, m[b], latest);
    assert Age(now, latest) <= Age(now, m[b]);
    assert Bucket(Weekly, latest) in m.Keys;
  }
}
