/**
 A storage full of archive files that points in time share: pruning it, checking it, and what runs of
 both leave behind.
 */
module Storages {
  import opened Pruning
  import opened PruneRuns

  type File = string

  datatype StoredFile = StoredFile(name: File, size: nat)

  /** A backup: its index file, found in the storage, and the archive files the index lists. */
  datatype PointInTime = PointInTime(point: nat, filename: File, tarfiles: seq<File>) {
    function Files(): set<File> {
      {filename} + set t | t in tarfiles
    }

    ghost predicate Complete(existing: set<File>) {
      Files() <= existing
    }
  }

  function Names(files: seq<StoredFile>): set<File> {
    set f | f in files :: f.name
  }

  function Times(history: seq<PointInTime>): set<nat> {
    set p | p in history :: p.point
  }

  /** Everything some point of the history needs. */
  function Required(history: seq<PointInTime>): set<File> {
    set p, f | p in history && f in p.Files() :: f
  }

  function KeptOf(history: seq<PointInTime>, kept: set<nat>): seq<PointInTime> {
    if history == [] then []
    else (if history[0].point in kept then [history[0]] else []) + KeptOf(history[1..], kept)
  }

  /** The points whose index files are found in the storage, in the order they have in the catalog of all points. */
  function HistoryOf(catalog: seq<PointInTime>, existing: set<File>): seq<PointInTime> {
    if catalog == [] then []
    else (if catalog[0].filename in existing then [catalog[0]] else []) + HistoryOf(catalog[1..], existing)
  }

  /** Listed from the oldest to the newest. */
  ghost predicate OldToNew(history: seq<PointInTime>) {
    forall i, j :: 0 <= i < j < |history| ==> history[i].point <= history[j].point
  }

  /** The index file of a point is no archive file of any point, and no other point's index. */
  ghost predicate OwnIndexes(catalog: seq<PointInTime>) {
    && (forall p, q :: p in catalog && q in catalog && p.filename == q.filename ==> p == q)
    && (forall p, q :: p in catalog && q in catalog ==> p.filename !in q.tarfiles)
  }

  lemma {:induction false} InKept(history: seq<PointInTime>, kept: set<nat>, p: PointInTime)
    ensures p in KeptOf(history, kept) <==> p in history && p.point in kept
  {
    if history != [] {
      InKept(history[1..], kept, p);
      assert p in history <==> p == history[0] || p in history[1..];
    }
  }

  lemma {:induction false} InHistory(catalog: seq<PointInTime>, existing: set<File>, p: PointInTime)
    ensures p in HistoryOf(catalog, existing) <==> p in catalog && p.filename in existing
  {
    if catalog != [] {
      InHistory(catalog[1..], existing, p);
      assert p in catalog <==> p == catalog[0] || p in catalog[1..];
    }
  }

  // ---------------------------------------------------------------- pruning

  /** The points that survive a prune, as their index says. */
  function SurvivingPoints(history: seq<PointInTime>, keep: Keep, now: nat): seq<PointInTime>
    requires NoneAfter(now, Times(history))
  {
    KeptOf(history, Survivors(keep, now, Times(history)))
  }

  function SizeOfOthers(files: seq<StoredFile>, required: set<File>): nat {
    if files == [] then 0
    else SizeOfOthers(files[..|files| - 1], required)
         + if files[|files| - 1].name in required then 0 else files[|files| - 1].size
  }

  /**
   What the command leaves once it is told to proceed: nothing is deleted when all there is to delete is
   empty files.
   */
  function Left(history: seq<PointInTime>, existing: seq<StoredFile>, keep: Keep, now: nat): set<File>
    requires NoneAfter(now, Times(history))
  {
    var required := Required(SurvivingPoints(history, keep, now));
    if SizeOfOthers(existing, required) == 0 then Names(existing) else Names(existing) * required
  }

  /**
   The prune command: decides, gathers what the kept points need, and deletes the rest. It refuses a
   history with points from the future.
   */
  method PruneStorage(history: seq<PointInTime>, existing: seq<StoredFile>, keep: Keep, now: nat, dryrun: bool,
                      proceed: bool)
    returns (refused: bool, left: set<File>, lost: set<File>)
    requires history != [] && OldToNew(history)
    ensures refused <==> !NoneAfter(now, Times(history))
    ensures !refused ==> lost == Required(SurvivingPoints(history, keep, now)) - Names(existing)
    ensures left == if !refused && !dryrun && proceed then Left(history, existing, keep, now) else Names(existing)
  {
    hide Survivors, Required, SizeOfOthers, KeptOf, Prune.Valid, NoneAfter, Times;
    left, lost := Names(existing), {};
    var prune := new Prune(now, keep);
    refused := AddPoints(prune, history);
    if refused {
      return;
    }
    TimesOfSome(history);
    var keeps := prune.Decide();
    var required := RequiredByKept(history, keeps, Survivors(keep, now, Times(history)));
    lost := required - Names(existing);
    var toDelete, sizeRemoved := Superfluous(existing, required);
    if sizeRemoved > 0 && !dryrun && proceed {
      left := Remove(Names(existing), toDelete);
    }
  }

  lemma TimesOfSome(history: seq<PointInTime>)
    requires history != []
    ensures history[0].point in Times(history) && Times(history) != {}
  {
  }

  /** Points are added from the oldest on, until one from the future is met. */
  method AddPoints(prune: Prune, history: seq<PointInTime>) returns (refused: bool)
    requires prune.Valid() && prune.points == map[] && prune.prev == 0 && OldToNew(history)
    modifies prune
    ensures refused <==> !NoneAfter(prune.now, Times(history))
    ensures !refused ==>
      prune.Valid() && prune.points.Keys == Times(history) && forall p :: p in prune.points ==> !prune.points[p]
  {
    hide Prune.Valid;
    refused := false;
    for i := 0 to |history|
      invariant prune.Valid() && prune.points.Keys == Times(history[..i]) && NoneAfter(prune.now, Times(history[..i]))
      invariant forall p :: p in prune.points ==> !prune.points[p]
      invariant prune.prev == if i == 0 then 0 else history[i - 1].point
    {
      if history[i].point > prune.now {
        assert history[i] in history && history[i].point in Times(history);
        return true;
      }
      OneMoreTime(history, i);
      prune.AddPointInTime(history[i].point);
    }
    assert history[..|history|] == history;
  }

  lemma OneMoreTime(history: seq<PointInTime>, i: nat)
    requires i < |history|
    ensures Times(history[..i + 1]) == Times(history[..i]) + {history[i].point}
  {
    assert history[..i + 1] == history[..i] + [history[i]];
  }

  /** The files the kept points need: their archive files and their indexes. */
  method RequiredByKept(history: seq<PointInTime>, keeps: map<nat, bool>, ghost kept: set<nat>)
    returns (required: set<File>)
    requires keeps.Keys == Times(history) && forall p :: p in keeps ==> (keeps[p] <==> p in kept)
    ensures required == Required(KeptOf(history, kept))
  {
    required := {};
    assert history[..0] == [];
    for i := 0 to |history|
      invariant required == Required(KeptOf(history[..i], kept))
    {
      var p := history[i];
      assert p in history && p.point in Times(history);
      KeptOfOneMore(history, kept, i);
      if keeps[p.point] {
        required := AddFilesOf(p, required);
      }
    }
    assert history[..|history|] == history;
  }

  method AddFilesOf(p: PointInTime, files: set<File>) returns (more: set<File>)
    ensures more == files + p.Files()
  {
    more := files;
    for i := 0 to |p.tarfiles|
      invariant more == files + set t | t in p.tarfiles[..i]
    {
      more := more + {p.tarfiles[i]};
    }
    assert p.tarfiles[..|p.tarfiles|] == p.tarfiles;
    more := more + {p.filename};
  }

  lemma KeptOfOneMore(history: seq<PointInTime>, kept: set<nat>, i: nat)
    requires i < |history|
    ensures var p := history[i];
      Required(KeptOf(history[..i + 1], kept))
      == Required(KeptOf(history[..i], kept)) + if p.point in kept then p.Files() else {}
  {
    forall q
      ensures q in KeptOf(history[..i + 1], kept)
        <==> q in KeptOf(history[..i], kept) || (q == history[i] && q.point in kept)
    {
      InKept(history[..i + 1], kept, q);
      InKept(history[..i], kept, q);
      assert history[..i + 1] == history[..i] + [history[i]];
    }
  }

  /** The files nothing needs, and their size. */
  method Superfluous(existing: seq<StoredFile>, required: set<File>) returns (files: seq<File>, size: nat)
    ensures forall f :: f in files <==> f in Names(existing) - required
    ensures size == SizeOfOthers(existing, required)
  {
    files, size := [], 0;
    assert existing[..0] == [];
    hide Names;
    for i := 0 to |existing|
      invariant forall f :: f in files <==> f in Names(existing[..i]) - required
      invariant size == SizeOfOthers(existing[..i], required)
    {
      ListStep(existing, required, i);
      if existing[i].name !in required {
        files := files + [existing[i].name];
        size := size + existing[i].size;
      }
    }
    assert existing[..|existing|] == existing;
  }

  lemma ListStep(existing: seq<StoredFile>, required: set<File>, i: nat)
    requires i < |existing|
    ensures Names(existing[..i + 1]) == Names(existing[..i]) + {existing[i].name}
    ensures SizeOfOthers(existing[..i + 1], required)
         == SizeOfOthers(existing[..i], required) + if existing[i].name in required then 0 else existing[i].size
  {
    assert existing[..i + 1] == existing[..i] + [existing[i]] && existing[..i + 1][..i] == existing[..i];
  }

  method Remove(files: set<File>, toRemove: seq<File>) returns (left: set<File>)
    ensures left == files - set f | f in toRemove
  {
    left := files;
    for i := 0 to |toRemove|
      invariant left == files - set f | f in toRemove[..i]
    {
      left := left - {toRemove[i]};
    }
    assert toRemove[..|toRemove|] == toRemove;
  }

  // ---------------------------------------------------------------- what a prune leaves behind

  /** The storage after a prune that deletes. */
  function AfterPrune(history: seq<PointInTime>, existing: set<File>, keep: Keep, now: nat): set<File>
    requires NoneAfter(now, Times(history))
  {
    existing * Required(SurvivingPoints(history, keep, now))
  }

  /** A kept point loses none of the files it had: it is as complete as before. */
  lemma PruneIsSafe(history: seq<PointInTime>, existing: set<File>, keep: Keep, now: nat, p: PointInTime)
    requires NoneAfter(now, Times(history)) && p in SurvivingPoints(history, keep, now)
    ensures p.Files() - AfterPrune(history, existing, keep, now) == p.Files() - existing
    ensures p.Complete(AfterPrune(history, existing, keep, now)) <==> p.Complete(existing)
  {
    hide SurvivingPoints;
    assert p.Files() <= Required(SurvivingPoints(history, keep, now));
  }

  /** Looking at the storage again after the prune, one finds the kept points and no others. */
  lemma HistoryAfterPrune(catalog: seq<PointInTime>, existing: set<File>, keep: Keep, now: nat)
    requires OwnIndexes(catalog) && NoneAfter(now, Times(HistoryOf(catalog, existing)))
    ensures var history := HistoryOf(catalog, existing);
      HistoryOf(catalog, AfterPrune(history, existing, keep, now)) == SurvivingPoints(history, keep, now)
  {
    var history := HistoryOf(catalog, existing);
    var kept := Survivors(keep, now, Times(history));
    var left := AfterPrune(history, existing, keep, now);
    hide Survivors, Required, OwnIndexes;
    forall p | p in catalog
      ensures p.filename in left <==> p.filename in existing && p.point in kept
    {
      IndexIsKept(catalog, existing, kept, p);
    }
    FilterTwice(catalog, existing, kept, left);
  }

  lemma IndexIsKept(catalog: seq<PointInTime>, existing: set<File>, kept: set<nat>, p: PointInTime)
    requires OwnIndexes(catalog) && p in catalog
    ensures var left := existing * Required(KeptOf(HistoryOf(catalog, existing), kept));
      p.filename in left <==> p.filename in existing && p.point in kept
  {
    var survivors := KeptOf(HistoryOf(catalog, existing), kept);
    InHistory(catalog, existing, p);
    InKept(HistoryOf(catalog, existing), kept, p);
    assert p.filename in p.Files();
    if p.filename in Required(survivors) {
      var q :| q in survivors && p.filename in q.Files();
      InKept(HistoryOf(catalog, existing), kept, q);
      InHistory(catalog, existing, q);
    }
  }

  lemma KeptOfFirst(p: PointInTime, rest: seq<PointInTime>, kept: set<nat>)
    ensures KeptOf([p] + rest, kept) == (if p.point in kept then [p] else []) + KeptOf(rest, kept)
  {
    assert ([p] + rest)[1..] == rest;
  }

  lemma {:induction false} FilterTwice(catalog: seq<PointInTime>, existing: set<File>, kept: set<nat>, left: set<File>)
    requires forall p :: p in catalog ==> (p.filename in left <==> p.filename in existing && p.point in kept)
    ensures HistoryOf(catalog, left) == KeptOf(HistoryOf(catalog, existing), kept)
  {
    if catalog != [] {
      FilterTwice(catalog[1..], existing, kept, left);
      assert catalog[0] in catalog;
      KeptOfFirst(catalog[0], HistoryOf(catalog[1..], existing), kept);
      assert [] + HistoryOf(catalog[1..], existing) == HistoryOf(catalog[1..], existing);
    }
  }

  /**
   A check of the storage right after a prune finds nothing superfluous, and nothing lost that was not
   lost before.
   */
  lemma FsckAfterPrune(catalog: seq<PointInTime>, existing: set<File>, keep: Keep, now: nat)
    requires OwnIndexes(catalog) && NoneAfter(now, Times(HistoryOf(catalog, existing)))
    ensures
      var history := HistoryOf(catalog, existing);
      var left := AfterPrune(history, existing, keep, now);
      var required := Required(HistoryOf(catalog, left));
      && left - required == {}
      && required - left == required - existing
      && required <= Required(history)
  {
    hide Survivors, OwnIndexes;
    HistoryAfterPrune(catalog, existing, keep, now);
    var history := HistoryOf(catalog, existing);
    forall p | p in SurvivingPoints(history, keep, now)
      ensures p in history
    {
      InKept(history, Survivors(keep, now, Times(history)), p);
    }
  }

  lemma {:induction false} NothingOfSize(files: seq<StoredFile>, required: set<File>)
    ensures SizeOfOthers(files, required) == 0 <==> forall f :: f in files && f.name !in required ==> f.size == 0
  {
    if files != [] {
      var n := |files| - 1;
      NothingOfSize(files[..n], required);
      assert forall f :: f in files <==> f in files[..n] || f == files[n];
    }
  }

  /** The command deletes all that is not needed, unless that is empty files only. */
  lemma LeftIsAfterPrune(history: seq<PointInTime>, existing: seq<StoredFile>, keep: Keep, now: nat)
    requires NoneAfter(now, Times(history))
    ensures
      var required := Required(SurvivingPoints(history, keep, now));
      Left(history, existing, keep, now) == AfterPrune(history, Names(existing), keep, now)
      <==> SizeOfOthers(existing, required) > 0 || Names(existing) <= required
    ensures (forall f :: f in existing ==> f.size > 0) ==>
      Left(history, existing, keep, now) == AfterPrune(history, Names(existing), keep, now)
  {
    NothingOfSize(existing, Required(SurvivingPoints(history, keep, now)));
  }

  /**
   A check right after the command finds nothing superfluous, exactly if it deleted something or if there
   was nothing superfluous before it.
   */
  lemma FsckAfterCommand(catalog: seq<PointInTime>, existing: seq<StoredFile>, keep: Keep, now: nat)
    requires OwnIndexes(catalog) && NoneAfter(now, Times(HistoryOf(catalog, Names(existing))))
    ensures
      var history := HistoryOf(catalog, Names(existing));
      var left := Left(history, existing, keep, now);
      left <= Required(HistoryOf(catalog, left))
      <==> SizeOfOthers(existing, Required(SurvivingPoints(history, keep, now))) > 0
           || Names(existing) <= Required(history)
  {
    var history := HistoryOf(catalog, Names(existing));
    var left := Left(history, existing, keep, now);
    FsckAfterPrune(catalog, Names(existing), keep, now);
    hide Survivors, OwnIndexes, HistoryOf, Required, SurvivingPoints, SizeOfOthers, Names, Times;
    if SizeOfOthers(existing, Required(SurvivingPoints(history, keep, now))) > 0 {
      assert left == AfterPrune(history, Names(existing), keep, now);
      assert left - Required(HistoryOf(catalog, left)) == {};
      forall f | f in left
        ensures f in Required(HistoryOf(catalog, left))
      {
        assert f !in left - Required(HistoryOf(catalog, left));
      }
    } else {
      assert left == Names(existing);
    }
  }

  /** With no empty index files, that is to say: exactly if it deleted something or there was nothing to delete. */
  lemma FsckAfterCommandWithIndexes(catalog: seq<PointInTime>, existing: seq<StoredFile>, keep: Keep, now: nat)
    requires OwnIndexes(catalog) && NoneAfter(now, Times(HistoryOf(catalog, Names(existing))))
    requires forall p, f :: p in catalog && f in existing && f.name == p.filename ==> f.size > 0
    ensures
      var history := HistoryOf(catalog, Names(existing));
      var required := Required(SurvivingPoints(history, keep, now));
      var left := Left(history, existing, keep, now);
      left <= Required(HistoryOf(catalog, left)) <==>
        SizeOfOthers(existing, required) > 0 || Names(existing) <= required
  {
    var history := HistoryOf(catalog, Names(existing));
    var kept := Survivors(keep, now, Times(history));
    var required := Required(SurvivingPoints(history, keep, now));
    FsckAfterCommand(catalog, existing, keep, now);
    NothingOfSize(existing, required);
    hide Survivors, OwnIndexes, HistoryOf, Required;
    if SizeOfOthers(existing, required) == 0 {
      forall p | p in history
        ensures p in SurvivingPoints(history, keep, now)
      {
        InHistory(catalog, Names(existing), p);
        IndexIsKept(catalog, Names(existing), kept, p);
        InKept(history, kept, p);
      }
      SameRequired(history, kept);
    }
  }

  lemma SameRequired(history: seq<PointInTime>, kept: set<nat>)
    requires forall p :: p in history ==> p in KeptOf(history, kept)
    ensures Required(KeptOf(history, kept)) == Required(history)
  {
    forall p
      ensures p in KeptOf(history, kept) <==> p in history
    {
      InKept(history, kept, p);
    }
  }

  /** An empty file that is in the way stays there, for the check to find. */
  lemma EmptyFileStays(keep: Keep)
    ensures
      var catalog := [PointInTime(5, "index", [])];
      var existing := [StoredFile("index", 1), StoredFile("stray", 0)];
      && OwnIndexes(catalog) && HistoryOf(catalog, Names(existing)) == catalog && NoneAfter(7, Times(catalog))
      && Left(catalog, existing, keep, 7) == {"index", "stray"} && "stray" !in Required(catalog)
  {
    var p := PointInTime(5, "index", []);
    var catalog, existing := [p], [StoredFile("index", 1), StoredFile("stray", 0)];
    assert existing[0] in existing && existing[1] in existing;
    assert Names(existing) == {"index", "stray"};
    assert p in catalog && catalog[1..] == [] && Times(catalog) == {5} && p.Files() == {"index"};
    assert HistoryOf(catalog, Names(existing)) == catalog;
    assert Kept(keep, 7, {5}, 5);
    assert Survivors(keep, 7, Times(catalog)) == {5};
    assert KeptOf(catalog, {5}) == [p] + KeptOf(catalog[1..], {5}) == [p];
    assert Required([p]) == {"index"} by {
      RequiredOfOne(p);
    }
    NothingOfSize(existing, {"index"});
  }

  lemma RequiredOfOne(p: PointInTime)
    ensures Required([p]) == p.Files()
  {
    assert p in [p];
  }

  /** Pruning again at the same time deletes nothing. */
  lemma PruneTwice(catalog: seq<PointInTime>, existing: set<File>, keep: Keep, now: nat)
    requires OwnIndexes(catalog) && NoneAfter(now, Times(HistoryOf(catalog, existing)))
    ensures
      var left := AfterPrune(HistoryOf(catalog, existing), existing, keep, now);
      var again := HistoryOf(catalog, left);
      NoneAfter(now, Times(again)) && AfterPrune(again, left, keep, now) == left
  {
    var history := HistoryOf(catalog, existing);
    var kept := Survivors(keep, now, Times(history));
    HistoryAfterPrune(catalog, existing, keep, now);
    Idempotent(keep, now, Times(history));
    hide Survivors, OwnIndexes;
    TimesOfKept(history, kept);
    KeptOfKept(history, kept);
  }

  lemma TimesOfKept(history: seq<PointInTime>, kept: set<nat>)
    requires kept <= Times(history)
    ensures Times(KeptOf(history, kept)) == kept
  {
    forall t
      ensures t in Times(KeptOf(history, kept)) <==> t in kept
    {
      if t in kept {
        var p :| p in history && p.point == t;
        InKept(history, kept, p);
      } else if t in Times(KeptOf(history, kept)) {
        var p :| p in KeptOf(history, kept) && p.point == t;
        InKept(history, kept, p);
      }
    }
  }

  lemma {:induction false} KeptOfKept(history: seq<PointInTime>, kept: set<nat>)
    ensures KeptOf(KeptOf(history, kept), kept) == KeptOf(history, kept)
  {
    if history != [] {
      var rest := KeptOf(history[1..], kept);
      KeptOfKept(history[1..], kept);
      if history[0].point in kept {
        KeptOfFirst(history[0], rest, kept);
      } else {
        assert KeptOf(history, kept) == rest;
      }
    }
  }

  // ---------------------------------------------------------------- runs

  /** What happens to a storage, with what is stored. */
  datatype Happening = StoreBackup(time: nat, backup: PointInTime) | PruneStorageAt(time: nat) {
    function Event(): Event {
      match this
      case StoreBackup(time, backup) => Store(time, backup.point)
      case PruneStorageAt(time) => PruneAt(time)
    }
  }

  function EventsOf(run: seq<Happening>): (events: seq<Event>)
    ensures |events| == |run|
  {
    seq(|run|, i requires 0 <= i < |run| => run[i].Event())
  }

  /** The backups stored in a run are those of a catalog, of which every one has its own index. */
  ghost predicate RunOf(catalog: seq<PointInTime>, run: seq<Happening>) {
    && OwnIndexes(catalog) && Ordered(EventsOf(run))
    && forall h :: h in run && h.StoreBackup? ==> h.backup in catalog
  }

  /**
   The files in the storage after a run. A prune reads the history from the index files that are there,
   and refuses or deletes, see LeftIsAfterPrune: there are no empty files, for none are stored.
   */
  ghost function FilesAfter(catalog: seq<PointInTime>, keep: Keep, run: seq<Happening>): set<File> {
    if run == [] then {}
    else
      var last, files := run[|run| - 1], FilesAfter(catalog, keep, run[..|run| - 1]);
      match last
      case StoreBackup(_, backup) => files + backup.Files()
      case PruneStorageAt(now) =>
        var history := HistoryOf(catalog, files);
        if NoneAfter(now, Times(history)) then AfterPrune(history, files, keep, now) else files
  }

  lemma EventsOfOneMore(catalog: seq<PointInTime>, run: seq<Happening>)
    requires RunOf(catalog, run) && run != []
    ensures var n := |run| - 1;
      && RunOf(catalog, run[..n]) && EventsOf(run) == EventsOf(run[..n]) + [run[n].Event()]
      && EventsOf(run)[..n] == EventsOf(run[..n]) && Clock(EventsOf(run[..n])) <= run[n].time
  {
    var n := |run| - 1;
    assert EventsOf(run)[..n] == EventsOf(run[..n]);
    assert n > 0 ==> EventsOf(run)[n - 1].time <= EventsOf(run)[n].time;
  }

  /**
   At any time of a run the storage holds the files of the backups found in it, shared ones too, and no
   others, and the points found are those that are left when points alone are stored and pruned.
   */
  lemma {:induction false} StorageHoldsPresent(catalog: seq<PointInTime>, keep: Keep, run: seq<Happening>)
    requires RunOf(catalog, run)
    ensures
      var files := FilesAfter(catalog, keep, run);
      && files == Required(HistoryOf(catalog, files))
      && Times(HistoryOf(catalog, files)) == Present(keep, EventsOf(run))
  {
    if run == [] {
      NothingThere(catalog);
    } else {
      var before, last := run[..|run| - 1], run[|run| - 1];
      EventsOfOneMore(catalog, run);
      StorageHoldsPresent(catalog, keep, before);
      var files := FilesAfter(catalog, keep, before);
      hide OwnIndexes, HistoryOf, Survivors, Required, Times;
      match last
      case StoreBackup(_, backup) => OneMoreBackup(catalog, files, backup);
      case PruneStorageAt(now) =>
        if NoneAfter(now, Times(HistoryOf(catalog, files))) {
          PrunedStorage(catalog, files, keep, now);
        }
    }
  }

  lemma NothingThere(catalog: seq<PointInTime>)
    ensures HistoryOf(catalog, {}) == [] && Required([]) == {} && Times([]) == {}
  {
    if catalog != [] {
      NothingThere(catalog[1..]);
    }
  }

  lemma InHistoryWith(catalog: seq<PointInTime>, files: set<File>, b: PointInTime, p: PointInTime)
    requires OwnIndexes(catalog) && b in catalog
    ensures p in HistoryOf(catalog, files + b.Files()) <==> p in HistoryOf(catalog, files) || p == b
  {
    InHistory(catalog, files, p);
    InHistory(catalog, files + b.Files(), p);
  }

  lemma OneMoreBackup(catalog: seq<PointInTime>, files: set<File>, b: PointInTime)
    requires OwnIndexes(catalog) && b in catalog
    ensures Required(HistoryOf(catalog, files + b.Files())) == Required(HistoryOf(catalog, files)) + b.Files()
    ensures Times(HistoryOf(catalog, files + b.Files())) == Times(HistoryOf(catalog, files)) + {b.point}
  {
    hide OwnIndexes, HistoryOf;
    forall p
      ensures p in HistoryOf(catalog, files + b.Files()) <==> p in HistoryOf(catalog, files) || p == b
    {
      InHistoryWith(catalog, files, b, p);
    }
  }

  lemma PrunedStorage(catalog: seq<PointInTime>, files: set<File>, keep: Keep, now: nat)
    requires OwnIndexes(catalog) && NoneAfter(now, Times(HistoryOf(catalog, files)))
    requires files == Required(HistoryOf(catalog, files))
    ensures
      var history := HistoryOf(catalog, files);
      var left := AfterPrune(history, files, keep, now);
      && left == Required(HistoryOf(catalog, left))
      && Times(HistoryOf(catalog, left)) == Survivors(keep, now, Times(history))
  {
    var history := HistoryOf(catalog, files);
    var kept := Survivors(keep, now, Times(history));
    HistoryAfterPrune(catalog, files, keep, now);
    FsckAfterPrune(catalog, files, keep, now);
    assert kept <= Times(history);
    hide Survivors, OwnIndexes, HistoryOf, Required;
    TimesOfKept(history, kept);
  }

  /** The backups that were ever stored with one of some points. */
  ghost function StoredWith(run: seq<Happening>, points: set<nat>): set<PointInTime> {
    set h | h in run && h.StoreBackup? && h.backup.point in points :: h.backup
  }

  lemma {:induction false} StoredWithOneMore(run: seq<Happening>, points: set<nat>)
    requires run != []
    ensures var last := run[|run| - 1];
      StoredWith(run, points) == StoredWith(run[..|run| - 1], points)
        + if last.StoreBackup? && last.backup.point in points then {last.backup} else {}
  {
    assert run == run[..|run| - 1] + [run[|run| - 1]];
  }

  /** A backup whose point one prune, now or later, of all points would keep has never been deleted. */
  lemma {:induction false} KeptBackupsArePresent(catalog: seq<PointInTime>, keep: Keep, run: seq<Happening>, now: nat,
                                                b: PointInTime)
    requires RunOf(catalog, run) && Clock(EventsOf(run)) <= now && NoneAfter(now, Ever(EventsOf(run)))
    requires b in StoredWith(run, Survivors(keep, now, Ever(EventsOf(run))))
    ensures b in HistoryOf(catalog, FilesAfter(catalog, keep, run))
  {
    var before, last := run[..|run| - 1], run[|run| - 1];
    var ever, points := Ever(EventsOf(before)), Survivors(keep, now, Ever(EventsOf(run)));
    var files := FilesAfter(catalog, keep, before);
    EventsOfOneMore(catalog, run);
    StoredWithOneMore(run, points);
    StorageHoldsPresent(catalog, keep, before);
    hide OwnIndexes, HistoryOf, Required;
    if b in StoredWith(before, points) {
      StoredPointsAreEver(before);
      SurvivorsFade(keep, now, now, ever, Ever(EventsOf(run)));
      KeptBackupsArePresent(catalog, keep, before, now, b);
      if last.StoreBackup? {
        InHistoryWith(catalog, files, last.backup, b);
      } else if NoneAfter(last.time, Times(HistoryOf(catalog, files))) {
        KeptThroughPrune(catalog, keep, before, last.time, now, b);
      }
    } else {
      InHistoryWith(catalog, files, last.backup, b);
    }
  }

  lemma {:induction false} StoredPointsAreEver(run: seq<Happening>)
    ensures forall h :: h in run && h.StoreBackup? ==> h.backup.point in Ever(EventsOf(run))
  {
    if run != [] {
      var n := |run| - 1;
      StoredPointsAreEver(run[..n]);
      assert EventsOf(run)[..n] == EventsOf(run[..n]) && run == run[..n] + [run[n]];
    }
  }

  lemma KeptThroughPrune(catalog: seq<PointInTime>, keep: Keep, run: seq<Happening>, time: nat, now: nat,
                         b: PointInTime)
    requires RunOf(catalog, run) && Clock(EventsOf(run)) <= time <= now && NoneAfter(now, Ever(EventsOf(run)))
    requires b in HistoryOf(catalog, FilesAfter(catalog, keep, run))
    requires b.point in Survivors(keep, now, Ever(EventsOf(run)))
    requires NoneAfter(time, Times(HistoryOf(catalog, FilesAfter(catalog, keep, run))))
    ensures var files := FilesAfter(catalog, keep, run);
      b in HistoryOf(catalog, AfterPrune(HistoryOf(catalog, files), files, keep, time))
  {
    var files, events := FilesAfter(catalog, keep, run), EventsOf(run);
    var history := HistoryOf(catalog, files);
    StorageHoldsPresent(catalog, keep, run);
    RefusesForEver(keep, events, time);
    SurvivorsFade(keep, time, now, Ever(events), Ever(events));
    SurvivorsArePresent(keep, events, time);
    Sandwich(keep, time, Ever(events), Present(keep, events));
    HistoryAfterPrune(catalog, files, keep, time);
    InKept(history, Survivors(keep, time, Times(history)), b);
  }

  /**
   However often a storage is pruned in between, after a prune that does not refuse it holds the files of
   the backups that one prune of all the backups ever stored would keep.
   */
  lemma StorageIsConfluent(catalog: seq<PointInTime>, keep: Keep, run: seq<Happening>, now: nat)
    requires RunOf(catalog, run) && Clock(EventsOf(run)) <= now
    ensures
      var ever, files := Ever(EventsOf(run)), FilesAfter(catalog, keep, run + [PruneStorageAt(now)]);
      if NoneAfter(now, ever) then
        && (forall p :: p in HistoryOf(catalog, files) <==> p in StoredWith(run, Survivors(keep, now, ever)))
        && files == Required(HistoryOf(catalog, files))
      else files == FilesAfter(catalog, keep, run)
  {
    var whole := run + [PruneStorageAt(now)];
    assert whole[..|run|] == run;
    assert EventsOf(whole) == EventsOf(run) + [PruneAt(now)];
    PruningIsConfluent(keep, EventsOf(run), now);
    StorageHoldsPresent(catalog, keep, run);
    RefusesForEver(keep, EventsOf(run), now);
    StorageHoldsPresent(catalog, keep, whole);
    var ever, files := Ever(EventsOf(run)), FilesAfter(catalog, keep, whole);
    hide Survivors, OwnIndexes, Required, HistoryOf;
    if NoneAfter(now, ever) {
      forall p
        ensures p in HistoryOf(catalog, files) <==> p in StoredWith(run, Survivors(keep, now, ever))
      {
        WhoIsLeft(catalog, keep, run, now, p);
      }
    }
  }

  lemma {:induction false} OnlyStored(catalog: seq<PointInTime>, keep: Keep, run: seq<Happening>, p: PointInTime)
    requires RunOf(catalog, run) && p in HistoryOf(catalog, FilesAfter(catalog, keep, run))
    ensures exists h :: h in run && h.StoreBackup? && h.backup == p
  {
    if run == [] {
      NothingThere(catalog);
      assert false;
    }
    var before, last := run[..|run| - 1], run[|run| - 1];
    var files := FilesAfter(catalog, keep, before);
    EventsOfOneMore(catalog, run);
    assert last in run && forall h :: h in before ==> h in run;
    hide OwnIndexes, HistoryOf, Survivors;
    if p in HistoryOf(catalog, files) {
      OnlyStored(catalog, keep, before, p);
    } else if last.StoreBackup? {
      InHistoryWith(catalog, files, last.backup, p);
    } else {
      HistoryAfterPrune(catalog, files, keep, last.time);
      InKept(HistoryOf(catalog, files), Survivors(keep, last.time, Times(HistoryOf(catalog, files))), p);
    }
  }

  lemma WhoIsLeft(catalog: seq<PointInTime>, keep: Keep, run: seq<Happening>, now: nat, p: PointInTime)
    requires RunOf(catalog, run) && Clock(EventsOf(run)) <= now && NoneAfter(now, Ever(EventsOf(run)))
    ensures p in HistoryOf(catalog, FilesAfter(catalog, keep, run + [PruneStorageAt(now)]))
       <==> p in StoredWith(run, Survivors(keep, now, Ever(EventsOf(run))))
  {
    var whole, events, files := run + [PruneStorageAt(now)], EventsOf(run), FilesAfter(catalog, keep, run);
    var history := HistoryOf(catalog, files);
    assert whole[..|run|] == run;
    StorageHoldsPresent(catalog, keep, run);
    RefusesForEver(keep, events, now);
    SurvivorsArePresent(keep, events, now);
    Sandwich(keep, now, Ever(events), Present(keep, events));
    HistoryAfterPrune(catalog, files, keep, now);
    InKept(history, Survivors(keep, now, Times(history)), p);
    hide OwnIndexes, HistoryOf, Survivors, Required;
    if p in history {
      OnlyStored(catalog, keep, run, p);
    }
    if p in StoredWith(run, Survivors(keep, now, Ever(events))) {
      KeptBackupsArePresent(catalog, keep, run, now, p);
    }
  }

  /** What the prune command takes for required is what the backups with kept points need. */
  lemma RequiredIsFilesOf(history: seq<PointInTime>, kept: set<nat>, f: File)
    ensures f in Required(KeptOf(history, kept)) <==> exists p :: p in history && p.point in kept && f in p.Files()
  {
    if f in Required(KeptOf(history, kept)) {
      var p :| p in KeptOf(history, kept) && f in p.Files();
      InKept(history, kept, p);
    }
    if p :| p in history && p.point in kept && f in p.Files() {
      InKept(history, kept, p);
    }
  }

  // ---------------------------------------------------------------- fsck

  /** The index files of the points that miss something. */
  function Broken(history: seq<PointInTime>, existing: set<File>): set<File> {
    set p | p in history && !(p.Files() <= existing) :: p.filename
  }

  /** The check: what is superfluous, whether anything is lost, and whose indexes are of no use. */
  method Fsck(history: seq<PointInTime>, existing: seq<StoredFile>)
    returns (superfluous: seq<File>, broken: seq<File>, lost: bool)
    ensures forall f :: f in superfluous <==> f in Names(existing) - Required(history)
    ensures lost <==> !(Required(history) <= Names(existing))
    ensures forall f :: f in broken <==> f in Broken(history, Names(existing))
  {
    var required := {};
    assert history[..0] == [];
    for i := 0 to |history|
      invariant required == Required(history[..i])
    {
      required := AddFilesOf(history[i], required);
      assert history[..i + 1] == history[..i] + [history[i]];
    }
    assert history[..|history|] == history;
    var size;
    superfluous, size := Superfluous(existing, required);
    lost := !(required <= Names(existing));
    broken := [];
    if lost {
      broken := BrokenIndexes(history, Names(existing));
    }
  }

  method BrokenIndexes(history: seq<PointInTime>, existing: set<File>) returns (broken: seq<File>)
    ensures forall f :: f in broken <==> f in Broken(history, existing)
  {
    broken := [];
    for i := 0 to |history|
      invariant forall f :: f in broken <==> f in Broken(history[..i], existing)
    {
      var p := history[i];
      assert history[..i + 1] == history[..i] + [p];
      var missing := Misses(p, existing);
      if missing {
        broken := broken + [p.filename];
      }
    }
    assert history[..|history|] == history;
  }

  /** Whether the index or, up to the first, an archive file of a point is missing. */
  method Misses(p: PointInTime, existing: set<File>) returns (missing: bool)
    ensures missing <==> !(p.Files() <= existing)
  {
    missing := p.filename !in existing;
    if !missing {
      for i := 0 to |p.tarfiles|
        invariant !missing && forall t :: t in p.tarfiles[..i] ==> t in existing
      {
        if p.tarfiles[i] !in existing {
          missing := true;
          assert p.tarfiles[i] in p.Files();
          break;
        }
      }
      assert p.tarfiles[..|p.tarfiles|] == p.tarfiles;
    }
  }

  /** The storage after a check that deletes what is superfluous and the broken indexes. */
  function AfterFsck(catalog: seq<PointInTime>, existing: set<File>): set<File> {
    var history := HistoryOf(catalog, existing);
    existing * Required(history) - Broken(history, existing)
  }

  lemma AfterFsckIsRequired(catalog: seq<PointInTime>, existing: set<File>)
    ensures AfterFsck(catalog, existing) <= Required(HistoryOf(catalog, existing))
  {
  }

  /** The points left after a check are those that were complete, and they still are. */
  lemma FsckKeepsComplete(catalog: seq<PointInTime>, existing: set<File>, p: PointInTime)
    requires OwnIndexes(catalog) && p in catalog
    ensures var left := AfterFsck(catalog, existing);
      && (p in HistoryOf(catalog, left) <==> p.Complete(existing))
      && (p in HistoryOf(catalog, left) ==> p.Complete(left))
  {
    hide HistoryOf;
    var left, history := AfterFsck(catalog, existing), HistoryOf(catalog, existing);
    InHistory(catalog, existing, p);
    InHistory(catalog, left, p);
    if p.Complete(existing) {
      forall f | f in p.Files()
        ensures f in left
      {
        if f in Broken(history, existing) {
          var q :| q in history && !(q.Files() <= existing) && q.filename == f;
          InHistory(catalog, existing, q);
        }
      }
    }
  }

  /** After a second check a third finds nothing to do. */
  lemma FsckTwiceIsClean(catalog: seq<PointInTime>, existing: set<File>)
    requires OwnIndexes(catalog)
    ensures
      var twice := AfterFsck(catalog, AfterFsck(catalog, existing));
      var history := HistoryOf(catalog, twice);
      && twice == Required(history) && Broken(history, twice) == {}
      && forall p :: p in history <==> p in catalog && p.Complete(existing)
  {
    hide OwnIndexes, AfterFsck;
    var once := AfterFsck(catalog, existing);
    var twice := AfterFsck(catalog, once);
    var history := HistoryOf(catalog, twice);
    forall p
      ensures p in history <==> p in catalog && p.Complete(existing)
      ensures p in history <==> p in HistoryOf(catalog, once)
      ensures p in history ==> p.Complete(twice)
    {
      InHistory(catalog, twice, p);
      InHistory(catalog, once, p);
      if p in catalog {
        FsckKeepsComplete(catalog, existing, p);
        FsckKeepsComplete(catalog, once, p);
      }
    }
    AfterFsckIsRequired(catalog, once);
  }
}
