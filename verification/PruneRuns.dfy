/**
 What pruning does over time: pruning again changes nothing, pruning often or seldom comes to the
 same in the end, and when one keep rule keeps less than another.
 */
module PruneRuns {
  import opened Pruning

  // ---------------------------------------------------------------- pruning in between

  /** A point that is kept now, with more points behind it, was kept before. */
  lemma KeptFades(keep: Keep, before: nat, now: nat, ps: set<nat>, later: set<nat>, p: nat)
    requires p in ps && p <= before <= now && ps <= later
    requires Kept(keep, now, later, p)
    ensures Kept(keep, before, ps, p)
  {
    hide Bucket;
    assert Age(before, p) <= Age(now, p);
  }

  /** The last point of p's bucket. */
  lemma LastOfBucket(l: Level, ps: set<nat>, p: nat) returns (t: nat)
    requires p in ps
    ensures IsTop(l, ps, t) && Bucket(l, t) == Bucket(l, p) && p <= t
  {
    hide Bucket;
    var same := set q | q in ps && Bucket(l, q) == Bucket(l, p);
    assert p in same;
    t := LastOf(same);
    assert forall q :: q in ps && Bucket(l, q) == Bucket(l, p) ==> q in same;
  }

  lemma {:induction false} LastOf(ps: set<nat>) returns (t: nat)
    requires ps != {}
    ensures IsLatest(ps, t)
  {
    var q :| q in ps;
    if ps == {q} {
      t := q;
    } else {
      var r := LastOf(ps - {q});
      t := if q > r then q else r;
      assert forall x :: x in ps ==> x == q || x in ps - {q};
    }
  }

  /** Being the last of a bucket is the same thing among all points and among any that hold the survivors. */
  lemma SameTops(keep: Keep, now: nat, all: set<nat>, current: set<nat>, l: Level, p: nat)
    requires NoneAfter(now, all) && Survivors(keep, now, all) <= current <= all && p in current
    ensures TopInWindow(keep, now, l, current, p) <==> TopInWindow(keep, now, l, all, p)
  {
    hide Bucket;
    if TopInWindow(keep, now, l, current, p) {
      var t := LastOfBucket(l, all, p);
      assert Age(now, t) <= Age(now, p);
      assert t in Survivors(keep, now, all);
    }
  }

  lemma SameLatest(keep: Keep, now: nat, all: set<nat>, current: set<nat>, p: nat)
    requires NoneAfter(now, all) && Survivors(keep, now, all) <= current <= all && p in current
    ensures IsLatest(current, p) <==> IsLatest(all, p)
  {
    hide Bucket, Age, IsTop;
    var t := LastOf(all);
    assert t in Survivors(keep, now, all);
  }

  /** Dropping only points that a prune would drop anyway does not change what that prune keeps. */
  lemma Sandwich(keep: Keep, now: nat, all: set<nat>, current: set<nat>)
    requires NoneAfter(now, all) && Survivors(keep, now, all) <= current <= all
    ensures NoneAfter(now, current) && Survivors(keep, now, current) == Survivors(keep, now, all)
  {
    hide TopInWindow, IsLatest, Age;
    forall p | p in current
      ensures Kept(keep, now, current, p) <==> Kept(keep, now, all, p)
    {
      SameLatest(keep, now, all, current, p);
      SameTops(keep, now, all, current, Daily, p);
      SameTops(keep, now, all, current, Weekly, p);
      SameTops(keep, now, all, current, Monthly, p);
    }
  }

  /** Pruning again at the same time changes nothing. */
  lemma Idempotent(keep: Keep, now: nat, ps: set<nat>)
    requires NoneAfter(now, ps)
    ensures NoneAfter(now, Survivors(keep, now, ps))
    ensures Survivors(keep, now, Survivors(keep, now, ps)) == Survivors(keep, now, ps)
  {
    Sandwich(keep, now, ps, Survivors(keep, now, ps));
  }

  // ---------------------------------------------------------------- runs

  /**
   One thing that happens to a storage at some time: a backup is stored, or the storage is pruned. The
   point of a backup is the newest time among its files. That is not the time when it is stored, it can be
   older than points stored before, and it can even lie ahead of the clock.
   */
  datatype Event = Store(time: nat, point: nat) | PruneAt(time: nat)

  /** The clock never goes back. */
  predicate Ordered(events: seq<Event>) {
    forall i, j :: 0 <= i < j < |events| ==> events[i].time <= events[j].time
  }

  function Clock(events: seq<Event>): nat {
    if events == [] then 0 else events[|events| - 1].time
  }

  /** Every point ever stored. */
  function Ever(events: seq<Event>): set<nat> {
    if events == [] then {}
    else
      var last, before := events[|events| - 1], Ever(events[..|events| - 1]);
      if last.Store? then before + {last.point} else before
  }

  /** The points in the storage after all events; a prune that finds a point from the future refuses to do anything. */
  ghost function Present(keep: Keep, events: seq<Event>): (ps: set<nat>)
    ensures ps <= Ever(events)
  {
    if events == [] then {}
    else
      var last, before := events[|events| - 1], Present(keep, events[..|events| - 1]);
      if last.Store? then before + {last.point}
      else if NoneAfter(last.time, before) then Survivors(keep, last.time, before)
      else before
  }

  /** Points ahead of the clock are never pruned. */
  lemma {:induction false} FutureIsPresent(keep: Keep, events: seq<Event>)
    requires Ordered(events)
    ensures forall p :: p in Ever(events) && p > Clock(events) ==> p in Present(keep, events)
  {
    if events != [] {
      var before, last := events[..|events| - 1], events[|events| - 1];
      FutureIsPresent(keep, before);
      assert Clock(before) <= last.time;
      hide Survivors;
    }
  }

  /** A prune refuses for a point that is there exactly if there ever was such a point. */
  lemma RefusesForEver(keep: Keep, events: seq<Event>, now: nat)
    requires Ordered(events) && Clock(events) <= now
    ensures NoneAfter(now, Present(keep, events)) <==> NoneAfter(now, Ever(events))
  {
    FutureIsPresent(keep, events);
  }

  /** What one prune, now or later, of all points ever stored would keep is always there. */
  lemma {:induction false} SurvivorsArePresent(keep: Keep, events: seq<Event>, now: nat)
    requires Ordered(events) && Clock(events) <= now && NoneAfter(now, Ever(events))
    ensures Survivors(keep, now, Ever(events)) <= Present(keep, events)
  {
    if events != [] {
      var before, last := events[..|events| - 1], events[|events| - 1];
      assert Clock(before) <= last.time;
      SurvivorsFade(keep, now, now, Ever(before), Ever(events));
      SurvivorsArePresent(keep, before, now);
      if last.PruneAt? && NoneAfter(last.time, Present(keep, before)) {
        RefusesForEver(keep, before, last.time);
        SurvivorsArePresent(keep, before, last.time);
        Sandwich(keep, last.time, Ever(before), Present(keep, before));
        SurvivorsFade(keep, last.time, now, Ever(before), Ever(events));
      }
    }
  }

  /** What is kept later, with more points behind it, was kept before. */
  lemma SurvivorsFade(keep: Keep, before: nat, now: nat, ps: set<nat>, later: set<nat>)
    requires before <= now && NoneAfter(before, ps) && NoneAfter(now, later) && ps <= later
    ensures Survivors(keep, now, later) * ps <= Survivors(keep, before, ps)
  {
    hide Kept;
    forall p | p in Survivors(keep, now, later) && p in ps
      ensures p in Survivors(keep, before, ps)
    {
      KeptFades(keep, before, now, ps, later, p);
    }
  }

  /**
   After any run of storing and pruning that ends with a prune, either the prune refuses, because a point
   from the future was stored, or the storage holds what one prune at that time of all the points ever
   stored would have left.
   */
  lemma PruningIsConfluent(keep: Keep, events: seq<Event>, now: nat)
    requires Ordered(events) && Clock(events) <= now
    ensures Ordered(events + [PruneAt(now)])
    ensures Present(keep, events + [PruneAt(now)])
         == if NoneAfter(now, Ever(events)) then Survivors(keep, now, Ever(events)) else Present(keep, events)
  {
    OrderedToTheEnd(events, PruneAt(now));
    RefusesForEver(keep, events, now);
    assert (events + [PruneAt(now)])[..|events|] == events;
    if NoneAfter(now, Ever(events)) {
      SurvivorsArePresent(keep, events, now);
      Sandwich(keep, now, Ever(events), Present(keep, events));
    }
  }

  lemma OrderedToTheEnd(events: seq<Event>, last: Event)
    requires Ordered(events) && Clock(events) <= last.time
    ensures Ordered(events + [last])
  {
    forall i | 0 <= i < |events|
      ensures events[i].time <= last.time
    {
      NotAfterClock(events, i);
    }
  }

  lemma NotAfterClock(events: seq<Event>, i: nat)
    requires Ordered(events) && i < |events|
    ensures events[i].time <= Clock(events)
  {
  }
}
