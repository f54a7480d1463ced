/**
 The point in time of a backup: index files are as new as everything that is listed in them, and the index of
 the root is named after the newest file or directory of the tree.
 */
module Points {
  import opened Paths
  import opened HardLinks
  import opened Planning
  import opened TarEntries
  import Names

  type Mtimes = map<Path, Time>

  /** The times of storage directories and everything in them are known. */
  ghost predicate Known(entries: Entries, mtimes: Mtimes) {
    && (forall d :: d in entries ==> d in mtimes)
    && (forall d, item :: d in entries && item in entries[d] ==> item.path in mtimes)
  }

  /** A storage directory, and what is in it. */
  ghost function OwnTimes(entries: Entries, mtimes: Mtimes, d: Path): set<Time>
    requires Known(entries, mtimes) && d in entries
  {
    {mtimes[d]} + set item | item in entries[d] :: mtimes[item.path]
  }

  /** A storage directory and those below it, with what is in them. */
  ghost function TimesBelow(entries: Entries, mtimes: Mtimes, s: Path): set<Time>
    requires Known(entries, mtimes)
  {
    set d, t | d in entries && s <= d && t in OwnTimes(entries, mtimes, d) :: t
  }

  /** Tars of contents are as new as what is in them, which is in the storage directory. */
  ghost predicate AreContents(tars: seq<Time>, times: set<Time>) {
    forall m :: m in tars ==> exists some :: some <= times && IsNewest(m, some)
  }

  /**
   The times of the index files, deeper storage directories first: an index gets the time of every tar and index
   in the directories from its own one downwards, and of everything in its own one.
   */
  method IndexTimes(order: seq<Path>, entries: Entries, mtimes: Mtimes, tars: map<Path, seq<Time>>)
    returns (gz: Mtimes)
    requires DeepestFirst(entries.Keys, order) && Known(entries, mtimes) && tars.Keys == entries.Keys
    requires forall d :: d in entries ==> AreContents(tars[d], OwnTimes(entries, mtimes, d))
    ensures gz.Keys == entries.Keys
    ensures forall s :: s in gz ==> IsNewest(gz[s], TimesBelow(entries, mtimes, s))
  {
    hide IsNewest, AreContents, OwnTimes, TimesBelow;
    gz := map[];
    for i := 0 to |order|
      invariant forall s :: s in gz <==> s in order[..i]
      invariant forall s :: s in gz ==> IsNewest(gz[s], TimesBelow(entries, mtimes, s))
    {
      assert order[..i + 1] == order[..i] + [order[i]];
      AllBelowAreDone(entries, order, i, gz.Keys);
      var m := IndexTime(order[i], order, entries, mtimes, tars, gz);
      gz := gz[order[i] := m];
    }
    assert order[..|order|] == order;
  }

  lemma AllBelowAreDone(entries: Entries, order: seq<Path>, i: nat, done: set<Path>)
    requires DeepestFirst(entries.Keys, order) && i < |order| && forall s :: s in done <==> s in order[..i]
    ensures order[i] in entries && forall d :: d in entries && order[i] < d ==> d in done
    ensures order[i] !in done
  {
    forall d | d in entries && order[i] < d
      ensures d in done
    {
      var j :| 0 <= j < |order| && order[j] == d;
      assert j < i;
      assert order[..i][j] == d;
    }
  }

  method IndexTime(te: Path, order: seq<Path>, entries: Entries, mtimes: Mtimes, tars: map<Path, seq<Time>>, gz: Mtimes)
    returns (m: Time)
    requires DeepestFirst(entries.Keys, order) && Known(entries, mtimes) && tars.Keys == entries.Keys && te in entries
    requires forall d :: d in entries ==> AreContents(tars[d], OwnTimes(entries, mtimes, d))
    requires gz.Keys <= entries.Keys && te !in gz && forall d :: d in entries && te < d ==> d in gz
    requires forall s :: s in gz ==> IsNewest(gz[s], TimesBelow(entries, mtimes, s))
    ensures IsNewest(m, TimesBelow(entries, mtimes, te))
  {
    hide *;
    m := EPOCH;
    ghost var seen: set<Time>, all := {}, TimesBelow(entries, mtimes, te);
    NothingNewer();
    BelowIsBelow(entries, mtimes, te, te);
    for i := 0 to |order|
      invariant IsNewest(m, seen) && seen <= all
      invariant forall d :: d in order[..i] && te < d ==> TimesBelow(entries, mtimes, d) <= seen
    {
      var ste := order[i];
      assert order[..i + 1] == order[..i] + [ste];
      if te <= ste {
        ListedIs(entries, order, i);
        BelowIsBelow(entries, mtimes, te, ste);
        ghost var own := OwnTimes(entries, mtimes, ste);
        ghost var more;
        m, more := TarTimes(m, tars[ste], seen, own);
        seen := seen + more;
        if ste in gz {
          NewestOfBoth(m, gz[ste], seen, TimesBelow(entries, mtimes, ste));
          m := Later(m, gz[ste]);
          seen := seen + TimesBelow(entries, mtimes, ste);
        }
      }
    }
    assert order[..|order|] == order;
    LaterIsNewest(m, mtimes[te], seen);
    m := Later(m, mtimes[te]);
    ghost var more;
    m, more := EntryTimes(m, entries[te], mtimes, seen + {mtimes[te]});
    Everything(order, entries, mtimes, te, seen, more);
  }

  lemma NothingNewer()
    ensures IsNewest(EPOCH, {})
  {
  }

  lemma ListedIs(entries: Entries, order: seq<Path>, i: nat)
    requires DeepestFirst(entries.Keys, order) && i < |order|
    ensures order[i] in entries
  {
  }

  lemma BelowIsBelow(entries: Entries, mtimes: Mtimes, te: Path, ste: Path)
    requires Known(entries, mtimes) && te <= ste && ste in entries
    ensures ste in mtimes && forall item :: item in entries[ste] ==> item.path in mtimes
    ensures TimesBelow(entries, mtimes, ste) <= TimesBelow(entries, mtimes, te)
    ensures OwnTimes(entries, mtimes, ste) <= TimesBelow(entries, mtimes, te)
  {
    hide OwnTimes;
  }

  method TarTimes(was: Time, tars: seq<Time>, ghost seen: set<Time>, ghost own: set<Time>)
    returns (m: Time, ghost more: set<Time>)
    requires IsNewest(was, seen) && AreContents(tars, own)
    ensures IsNewest(m, seen + more) && more <= own
  {
    hide IsNewest;
    m, more := was, {};
    assert seen + more == seen;
    for j := 0 to |tars|
      invariant IsNewest(m, seen + more) && more <= own
    {
      assert tars[j] in tars;
      ghost var some :| some <= own && IsNewest(tars[j], some);
      NewestOfBoth(m, tars[j], seen + more, some);
      m := Later(m, tars[j]);
      assert seen + more + some == seen + (more + some);
      more := more + some;
    }
  }

  method EntryTimes(was: Time, items: seq<Item>, mtimes: Mtimes, ghost before: set<Time>)
    returns (m: Time, ghost seen: set<Time>)
    requires IsNewest(was, before) && forall item :: item in items ==> item.path in mtimes
    ensures IsNewest(m, seen) && seen == before + set item | item in items :: mtimes[item.path]
  {
    hide IsNewest;
    m, seen := was, before;
    for j := 0 to |items|
      invariant IsNewest(m, seen) && seen == before + set item | item in items[..j] :: mtimes[item.path]
    {
      assert items[..j + 1] == items[..j] + [items[j]];
      LaterIsNewest(m, mtimes[items[j].path], seen);
      m := Later(m, mtimes[items[j].path]);
      seen := seen + {mtimes[items[j].path]};
    }
    assert items[..|items|] == items;
  }

  /** What is below a storage directory is its own, or below one that is further down. */
  lemma Everything(order: seq<Path>, entries: Entries, mtimes: Mtimes, te: Path, seen: set<Time>, more: set<Time>)
    requires DeepestFirst(entries.Keys, order) && Known(entries, mtimes) && te in entries
    requires forall d :: d in order && te < d ==> TimesBelow(entries, mtimes, d) <= seen
    requires seen <= TimesBelow(entries, mtimes, te)
    requires more == seen + {mtimes[te]} + set item | item in entries[te] :: mtimes[item.path]
    ensures more == TimesBelow(entries, mtimes, te)
  {
    BelowIsBelow(entries, mtimes, te, te);
    assert more == seen + OwnTimes(entries, mtimes, te);
    hide OwnTimes;
    forall t | t in TimesBelow(entries, mtimes, te)
      ensures t in more
    {
      var d :| d in entries && te <= d && t in OwnTimes(entries, mtimes, d);
      if d != te {
        BelowIsBelow(entries, mtimes, d, d);
      }
    }
  }

  // ---------------------------------------------------------------- the point of a backup

  /** The times of all files and directories of the tree. */
  function TreeTimes(files: seq<Path>, mtimes: Mtimes): set<Time>
    requires forall p :: p in files ==> p in mtimes
  {
    set p | p in files :: mtimes[p]
  }

  /** Below the root is the whole tree, wherever files have been placed. */
  lemma RootHoldsTree(files: seq<Path>, inodes: map<Path, nat>, storage: set<Path>, home: map<Path, Path>,
                      entries: Entries, link: Links, mtimes: Mtimes)
    requires AllHoused(files, storage, home) && Placement(files, inodes, storage, home, entries, link)
    requires OnlyFiles(files, entries) && ROOT in files && (forall s :: s in storage ==> s in files && s[0] == "")
    requires forall p :: p in files ==> p in mtimes
    ensures Known(entries, mtimes) && ROOT in entries
    ensures TimesBelow(entries, mtimes, ROOT) == TreeTimes(files, mtimes)
  {
    hide *;
    FilesAtHome(files, storage, home);
    PlacementGives(files, inodes, storage, home, entries, link);
    TimesAreKnown(files, entries, mtimes);
    forall p | p in files
      ensures mtimes[p] in TimesBelow(entries, mtimes, ROOT)
    {
      if p == ROOT {
        IsBelow(entries, mtimes, ROOT, ROOT);
      } else {
        PlaceInStorage(files, storage, home, inodes, p);
        var s := Place(files, inodes, storage, home, p);
        IsAmong(entries[s], p);
        IsBelow(entries, mtimes, s, p);
      }
    }
    AllInTree(files, entries, mtimes);
  }

  lemma TimesAreKnown(files: seq<Path>, entries: Entries, mtimes: Mtimes)
    requires OnlyFiles(files, entries) && forall s :: s in entries ==> s in files
    requires forall p :: p in files ==> p in mtimes
    ensures Known(entries, mtimes)
  {
  }

  lemma IsAmong(items: seq<Item>, p: Path)
    requires Times(items, p) == 1
    ensures File(p) in items
  {
  }

  lemma IsBelow(entries: Entries, mtimes: Mtimes, s: Path, p: Path)
    requires Known(entries, mtimes) && s in entries && s[0] == "" && (p == s || File(p) in entries[s])
    ensures p in mtimes && mtimes[p] in TimesBelow(entries, mtimes, ROOT)
  {
    assert ROOT <= s;
    if p != s {
      assert File(p).path in mtimes;
    }
    assert mtimes[p] in OwnTimes(entries, mtimes, s);
  }

  lemma AllInTree(files: seq<Path>, entries: Entries, mtimes: Mtimes)
    requires Known(entries, mtimes) && OnlyFiles(files, entries) && forall s :: s in entries ==> s in files
    requires forall p :: p in files ==> p in mtimes
    requires forall p :: p in files ==> mtimes[p] in TimesBelow(entries, mtimes, ROOT)
    ensures TimesBelow(entries, mtimes, ROOT) == TreeTimes(files, mtimes)
  {
  }

  /**
   The index of the root is as new as the newest file or directory of the tree, cut down to microseconds. A name
   with that time is read back with it, so that is the point in time of the backup.
   */
  lemma PointIsNewest(files: seq<Path>, inodes: map<Path, nat>, storage: set<Path>, home: map<Path, Path>,
                      entries: Entries, link: Links, mtimes: Mtimes, m: Time, t: Names.TarFileName,
                      date: Names.DateText, dir: Names.Dir)
    requires AllHoused(files, storage, home) && Placement(files, inodes, storage, home, entries, link)
    requires OnlyFiles(files, entries) && ROOT in files && (forall s :: s in storage ==> s in files && s[0] == "")
    requires (forall p :: p in files ==> p in mtimes) && Known(entries, mtimes)
    requires IsNewest(m, TimesBelow(entries, mtimes, ROOT))
    requires t.Valid() && Names.AreDates(date) && t.sec == m.sec && t.nsec == m.nsec
    ensures IsNewest(m, TreeTimes(files, mtimes))
    ensures var parsed := Names.ParseFileName(Names.FullName(t, date, dir));
      parsed.Parsed? && parsed.name.sec == m.sec && parsed.name.nsec == m.nsec
  {
    hide *;
    RootHoldsTree(files, inodes, storage, home, entries, link, mtimes);
    NewestIsWhole(m, TreeTimes(files, mtimes));
    Names.ParseOfFullName(t, date, dir);
    TimeIsReread(t, date);
  }

  lemma TimeIsReread(t: Names.TarFileName, date: Names.DateText)
    requires t.Valid() && t.nsec % 1000 == 0
    ensures Names.Reread(t, date).sec == t.sec && Names.Reread(t, date).nsec == t.nsec
  {
  }

  /** The point of a backup is that of the tree, however it is planned and whatever tars it is put into. */
  lemma PointIsOfTree(files: seq<Path>, mtimes: Mtimes, m: Time, other: Time)
    requires forall p :: p in files ==> p in mtimes
    requires IsNewest(m, TreeTimes(files, mtimes)) && IsNewest(other, TreeTimes(files, mtimes))
    ensures m == other
  {
    NewestIsOne(m, other, TreeTimes(files, mtimes));
  }
}
