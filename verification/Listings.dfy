/**
 What a backup stores against what its index says it needs: the names of parts are written to the index as
 the first and the last of them, and pruning keeps what is read back from there. It is the same.
 */
module Listings {
  import opened Names
  import opened PartNames
  import opened Pruning
  import opened PruneRuns
  import opened Storages

  datatype Tar = Tar(info: TarInfo, dir: Dir)

  /** A backup as it is stored: its point in time, its index file, and the tars listed there. */
  datatype Backup = Backup(point: nat, filename: File, tars: seq<Tar>)

  /** Tars that have been laid out, in directories with safe names. */
  ghost predicate Listable(tar: Tar, date: DateText) {
    tar.info.Valid() && AreDates(date) && ' ' !in tar.dir.Text()
  }

  /** The index has room for the names, directory and all. */
  ghost predicate HasRoom(tar: Tar, date: DateText) {
    Fits(tar.info, date, tar.dir, 1024)
  }

  /** The files read from the index for a tar. */
  function FilesRead(tar: Tar, date: DateText): seq<File>
    requires tar.info.numParts > 0
  {
    var text := IndexText(tar.info, date, tar.dir);
    if Readable(text) then Expanded(text, date) else []
  }

  function AllRead(tars: seq<Tar>, date: DateText): seq<File>
    requires forall tar :: tar in tars ==> tar.info.numParts > 0
  {
    if tars == [] then [] else FilesRead(tars[0], date) + AllRead(tars[1..], date)
  }

  /** The files stored for a tar. */
  function AllStored(tars: seq<Tar>, date: DateText): set<File> {
    set tar, part: nat | tar in tars && part < tar.info.numParts :: FullName(tar.info.NameOf(part), date, tar.dir)
  }

  /** The backup as it is found by its index file. */
  function PointOf(b: Backup, date: DateText): PointInTime
    requires forall tar :: tar in b.tars ==> tar.info.numParts > 0
  {
    PointInTime(b.point, b.filename, AllRead(b.tars, date))
  }

  /** The files of the backup as it was stored. */
  function FilesOf(b: Backup, date: DateText): set<File> {
    {b.filename} + AllStored(b.tars, date)
  }

  ghost predicate AllListable(bs: seq<Backup>, date: DateText) {
    && (forall b, tar :: b in bs && tar in b.tars ==> Listable(tar, date) && tar.info.numParts > 0)
    && (forall b :: b in bs ==> |b.filename| < 1024)
  }

  ghost predicate AllHaveRoom(bs: seq<Backup>, date: DateText) {
    forall b, tar :: b in bs && tar in b.tars ==> HasRoom(tar, date)
  }

  function History(bs: seq<Backup>, date: DateText): (history: seq<PointInTime>)
    requires forall b, tar :: b in bs && tar in b.tars ==> tar.info.numParts > 0
    ensures |history| == |bs| && forall i :: 0 <= i < |bs| ==> history[i] == PointOf(bs[i], date)
  {
    if bs == [] then [] else [PointOf(bs[0], date)] + History(bs[1..], date)
  }

  // ---------------------------------------------------------------- what is read from the index

  lemma ListableIs(tar: Tar, date: DateText)
    requires Listable(tar, date)
    ensures tar.info.Valid() && AreDates(date) && tar.info.numParts > 0 && ' ' !in tar.dir.Text()
    ensures HasRoom(tar, date) <==> Fits(tar.info, date, tar.dir, 1024)
  {
    hide Fits, Dir.Text;
  }

  lemma FilesReadIs(tar: Tar, date: DateText)
    requires tar.info.numParts > 0 && Readable(IndexText(tar.info, date, tar.dir))
    ensures FilesRead(tar, date) == Expanded(IndexText(tar.info, date, tar.dir), date)
  {
    hide IndexText, Readable, Expanded;
  }

  /** The files that were stored for a tar are those that are read, exactly if the index has room for the names. */
  lemma StoredAreRead(tar: Tar, date: DateText)
    requires Listable(tar, date)
    ensures tar.info.numParts > 0 && (HasRoom(tar, date) <==> FilesRead(tar, date) == Stored(tar.info, date, tar.dir))
  {
    hide *;
    ListableIs(tar, date);
    if HasRoom(tar, date) {
      IndexListsStored(tar.info, date, tar.dir);
      FilesReadIs(tar, date);
    } else {
      var part := LongName(tar, date);
      InStored(tar, date, FullName(tar.info.NameOf(part), date, tar.dir));
      LongIsNotRead(tar, date, FullName(tar.info.NameOf(part), date, tar.dir));
    }
  }

  lemma LongName(tar: Tar, date: DateText) returns (part: nat)
    requires !HasRoom(tar, date)
    ensures part < tar.info.numParts && |FullName(tar.info.NameOf(part), date, tar.dir)| >= 1024
  {
    hide FullName;
    part :| part < tar.info.numParts && |FullName(tar.info.NameOf(part), date, tar.dir)| >= 1024;
  }

  /** A name that is too long for the reader's buffer is not read, whatever the tar. */
  lemma LongIsNotRead(tar: Tar, date: DateText, f: File)
    requires Listable(tar, date) && |f| >= 1024
    ensures tar.info.numParts > 0 && f !in FilesRead(tar, date)
  {
    hide *;
    ListableIs(tar, date);
    var info, dir := tar.info, tar.dir;
    var first := Written(info.NameOf(0), date, dir, 1024);
    ValidNames(info, 0);
    WrittenIs(info.NameOf(0), date, dir, 1024);
    NoSpaceInName(info.NameOf(0), date, dir);
    TextIs(info, date, dir);
    if info.numParts > 1 {
      var last := Written(info.NameOf(info.numParts - 1), date, dir, 1024);
      FindDotsAt(first, last);
      assert first + (DOTS + last) == first + DOTS + last;
    }
    OnlyShortRead(tar, date, f);
  }

  lemma TextIs(info: TarInfo, date: DateText, dir: Dir)
    requires info.numParts > 0
    ensures IndexText(info, date, dir)
         == Written(info.NameOf(0), date, dir, 1024)
            + if info.numParts > 1 then DOTS + Written(info.NameOf(info.numParts - 1), date, dir, 1024) else ""
  {
    hide Written;
  }

  lemma OnlyShortRead(tar: Tar, date: DateText, f: File)
    requires tar.info.numParts > 0 && |f| >= 1024
    requires var text := IndexText(tar.info, date, tar.dir); |text| < 1024 || FindDots(text) < |text|
    ensures f !in FilesRead(tar, date)
  {
    hide FullName, ParseFileName, FindDots, IndexText, ParentOf, RangeName;
  }

  lemma {:induction false} InAllRead(tars: seq<Tar>, date: DateText, f: File)
    requires forall tar :: tar in tars ==> tar.info.numParts > 0
    ensures f in AllRead(tars, date) <==> exists tar :: tar in tars && f in FilesRead(tar, date)
  {
    hide FilesRead;
    if tars != [] {
      InAllRead(tars[1..], date, f);
      if f in AllRead(tars, date) && f !in FilesRead(tars[0], date) {
        var tar :| tar in tars[1..] && f in FilesRead(tar, date);
        assert tar in tars;
      }
      if tar :| tar in tars && f in FilesRead(tar, date) {
        assert tar == tars[0] || tar in tars[1..];
      }
    }
  }

  lemma InStored(tar: Tar, date: DateText, f: File)
    requires tar.info.numParts > 0
    ensures f in Stored(tar.info, date, tar.dir) <==>
      exists part: nat :: part < tar.info.numParts && f == FullName(tar.info.NameOf(part), date, tar.dir)
  {
    hide FullName;
    if f in Stored(tar.info, date, tar.dir) {
      var part: nat :| part < tar.info.numParts && Stored(tar.info, date, tar.dir)[part] == f;
    }
    if part: nat :| part < tar.info.numParts && f == FullName(tar.info.NameOf(part), date, tar.dir) {
      assert Stored(tar.info, date, tar.dir)[part] == f;
    }
  }

  lemma InAllStored(tars: seq<Tar>, date: DateText, f: File)
    ensures f in AllStored(tars, date) <==> exists tar, part: nat ::
      tar in tars && part < tar.info.numParts && f == FullName(tar.info.NameOf(part), date, tar.dir)
  {
    hide FullName;
  }

  /** A backup that its index has room for needs, by that index, exactly the files that it stored. */
  lemma NeedsWhatItStored(b: Backup, date: DateText)
    requires forall tar :: tar in b.tars ==> Listable(tar, date) && HasRoom(tar, date) && tar.info.numParts > 0
    ensures PointOf(b, date).Files() == FilesOf(b, date)
  {
    hide FullName, Listable, HasRoom, FilesRead, Stored, AllStored, AllRead;
    forall f
      ensures f in AllRead(b.tars, date) <==> f in AllStored(b.tars, date)
    {
      ReadIfStored(b, date, f);
    }
  }

  lemma ReadIfStored(b: Backup, date: DateText, f: File)
    requires forall tar :: tar in b.tars ==> Listable(tar, date) && HasRoom(tar, date) && tar.info.numParts > 0
    ensures f in AllRead(b.tars, date) <==> f in AllStored(b.tars, date)
  {
    hide *;
    InAllRead(b.tars, date, f);
    InAllStored(b.tars, date, f);
    if tar :| tar in b.tars && f in FilesRead(tar, date) {
      StoredAreRead(tar, date);
      InStored(tar, date, f);
    }
    if tar, part: nat :| tar in b.tars && part < tar.info.numParts
                         && f == FullName(tar.info.NameOf(part), date, tar.dir) {
      StoredAreRead(tar, date);
      InStored(tar, date, f);
    }
  }

  // ---------------------------------------------------------------- what a prune leaves

  /** The files of some backups, shared ones too. */
  function FilesOfAll(bs: set<Backup>, date: DateText): set<File> {
    set b, f | b in bs && f in FilesOf(b, date) :: f
  }

  /** The backups with one of some points. */
  function WithPoints(bs: seq<Backup>, points: set<nat>): set<Backup> {
    set b | b in bs && b.point in points
  }

  lemma AllHaveParts(bs: seq<Backup>, date: DateText)
    requires AllListable(bs, date)
    ensures forall b, tar :: b in bs && tar in b.tars ==> Listable(tar, date) && tar.info.numParts > 0
    ensures forall b :: b in bs ==> |b.filename| < 1024
    ensures AllHaveRoom(bs, date) ==> forall b, tar :: b in bs && tar in b.tars ==> HasRoom(tar, date)
  {
    hide Listable, HasRoom;
  }

  /** What the points of a history need is what the backups with these points stored. */
  lemma RequiredIsStored(bs: seq<Backup>, date: DateText, points: set<nat>)
    requires AllListable(bs, date) && AllHaveRoom(bs, date)
    ensures Required(KeptOf(History(bs, date), points)) == FilesOfAll(WithPoints(bs, points), date)
  {
    hide *;
    AllHaveParts(bs, date);
    forall f
      ensures f in Required(KeptOf(History(bs, date), points)) <==> f in FilesOfAll(WithPoints(bs, points), date)
    {
      RequiredIsFilesOf(History(bs, date), points, f);
      InFilesOfAll(bs, date, points, f);
      if p :| p in History(bs, date) && p.point in points && f in p.Files() {
        var b := BackupOf(bs, date, p);
        NeedsWhatItStored(b, date);
        PointIs(b, date);
      }
      if b :| b in bs && b.point in points && f in FilesOf(b, date) {
        NeedsWhatItStored(b, date);
        PointIs(b, date);
        InHistoryOf(bs, date, b);
      }
    }
  }

  lemma InFilesOfAll(bs: seq<Backup>, date: DateText, points: set<nat>, f: File)
    ensures f in FilesOfAll(WithPoints(bs, points), date) <==>
      exists b :: b in bs && b.point in points && f in FilesOf(b, date)
  {
    hide FilesOf;
  }

  lemma BackupOf(bs: seq<Backup>, date: DateText, p: PointInTime) returns (b: Backup)
    requires AllListable(bs, date) && p in History(bs, date)
    ensures b in bs && PointOf(b, date) == p
  {
    hide PointOf, Listable;
    var i :| 0 <= i < |bs| && History(bs, date)[i] == p;
    b := bs[i];
  }

  lemma InHistoryOf(bs: seq<Backup>, date: DateText, b: Backup)
    requires AllListable(bs, date) && b in bs
    ensures PointOf(b, date) in History(bs, date)
  {
    hide PointOf, Listable;
    var i :| 0 <= i < |bs| && bs[i] == b;
    assert History(bs, date)[i] == PointOf(b, date);
  }

  lemma PointIs(b: Backup, date: DateText)
    requires forall tar :: tar in b.tars ==> tar.info.numParts > 0
    ensures PointOf(b, date).point == b.point && PointOf(b, date).filename == b.filename
  {
  }

  /** A prune leaves, of what is there, exactly the files that were stored for the backups that it keeps. */
  lemma PruneLeavesStored(bs: seq<Backup>, date: DateText, existing: set<File>, keep: Keep, now: nat)
    requires AllListable(bs, date) && AllHaveRoom(bs, date) && NoneAfter(now, Times(History(bs, date)))
    ensures
      var kept := Survivors(keep, now, Times(History(bs, date)));
      AfterPrune(History(bs, date), existing, keep, now) == existing * FilesOfAll(WithPoints(bs, kept), date)
  {
    RequiredIsStored(bs, date, Survivors(keep, now, Times(History(bs, date))));
    hide Required, KeptOf, FilesOfAll, WithPoints, Survivors;
  }

  /**
   A backup that a prune keeps loses none of the files that were stored for it, exactly if its index has room for
   their names: a name that was cut is not required, and its file is deleted as superfluous.
   */
  lemma PruneSparesParts(bs: seq<Backup>, date: DateText, existing: set<File>, keep: Keep, now: nat, b: Backup)
    requires AllListable(bs, date) && NoneAfter(now, Times(History(bs, date)))
    requires b in bs && b.point in Survivors(keep, now, Times(History(bs, date))) && FilesOf(b, date) <= existing
    ensures FilesOf(b, date) <= AfterPrune(History(bs, date), existing, keep, now) <==>
      forall tar :: tar in b.tars ==> HasRoom(tar, date)
  {
    hide *;
    AllHaveParts(bs, date);
    var history := History(bs, date);
    if tar :| tar in b.tars && !HasRoom(tar, date) {
      var part := LongName(tar, date);
      var f := FullName(tar.info.NameOf(part), date, tar.dir);
      PartIsFile(b, date, tar, part);
      LongIsNotRequired(bs, date, Survivors(keep, now, Times(history)), f);
      OnlyRequiredLeft(history, existing, keep, now);
    } else {
      NeedsWhatItStored(b, date);
      PointIs(b, date);
      InHistoryOf(bs, date, b);
      KeptSurvives(history, keep, now, PointOf(b, date));
      PruneIsSafe(history, existing, keep, now, PointOf(b, date));
    }
  }

  lemma PartIsFile(b: Backup, date: DateText, tar: Tar, part: nat)
    requires tar in b.tars && part < tar.info.numParts
    ensures FullName(tar.info.NameOf(part), date, tar.dir) in FilesOf(b, date)
  {
    hide FullName, AllStored;
    InAllStored(b.tars, date, FullName(tar.info.NameOf(part), date, tar.dir));
  }

  lemma LongIsNotRequired(bs: seq<Backup>, date: DateText, points: set<nat>, f: File)
    requires AllListable(bs, date) && |f| >= 1024
    ensures f !in Required(KeptOf(History(bs, date), points))
  {
    hide *;
    AllHaveParts(bs, date);
    RequiredIsFilesOf(History(bs, date), points, f);
    if p :| p in History(bs, date) && p.point in points && f in p.Files() {
      var b := BackupOf(bs, date, p);
      forall tar | tar in b.tars
        ensures f !in FilesRead(tar, date)
      {
        LongIsNotRead(tar, date, f);
      }
      InAllRead(b.tars, date, f);
      FilesOfPoint(b, date);
    }
  }

  lemma FilesOfPoint(b: Backup, date: DateText)
    requires forall tar :: tar in b.tars ==> tar.info.numParts > 0
    ensures forall f :: f in PointOf(b, date).Files() <==> f == b.filename || f in AllRead(b.tars, date)
  {
    hide AllRead;
  }

  lemma OnlyRequiredLeft(history: seq<PointInTime>, existing: set<File>, keep: Keep, now: nat)
    requires NoneAfter(now, Times(history))
    ensures AfterPrune(history, existing, keep, now) <= Required(KeptOf(history, Survivors(keep, now, Times(history))))
  {
    hide Required, KeptOf, Survivors;
  }

  lemma KeptSurvives(history: seq<PointInTime>, keep: Keep, now: nat, p: PointInTime)
    requires NoneAfter(now, Times(history)) && p in history && p.point in Survivors(keep, now, Times(history))
    ensures p in SurvivingPoints(history, keep, now)
  {
    hide Survivors;
    InKept(history, Survivors(keep, now, Times(history)), p);
  }

  /** There is no room for names in directories whose safe path alone has 1023 characters. */
  lemma DeepDirectoriesHaveNoRoom(tar: Tar, date: DateText)
    requires tar.info.numParts > 0 && |tar.dir.Text()| >= 1023
    ensures !HasRoom(tar, date)
  {
    hide AfterKind;
    assert |FullName(tar.info.NameOf(0), date, tar.dir)| >= 1024;
  }

  /** There always is in directories whose safe path has up to 823 characters. */
  lemma ShallowDirectoriesHaveRoom(tar: Tar, date: DateText)
    requires Listable(tar, date) && |tar.info.hash| <= 64 && |tar.dir.Text()| <= 824
    ensures HasRoom(tar, date)
  {
    hide FileName, Dir.Text;
    forall part: nat | part < tar.info.numParts
      ensures |FullName(tar.info.NameOf(part), date, tar.dir)| < 1024
    {
      ValidNames(tar.info, part);
      NameIsShort(tar.info.NameOf(part), date);
    }
  }

  // ---------------------------------------------------------------- runs

  /** What happens to a storage, with what is really stored. */
  datatype Step = StoreFiles(time: nat, backup: Backup) | PruneFiles(time: nat)

  /** The steps as they look to one who reads the indexes. */
  function AsRead(run: seq<Step>, date: DateText): (happenings: seq<Happening>)
    requires forall h :: h in run && h.StoreFiles? ==> forall tar :: tar in h.backup.tars ==> tar.info.numParts > 0
    ensures |happenings| == |run|
  {
    if run == [] then []
    else
      var n := |run| - 1;
      AsRead(run[..n], date) + [match run[n]
                                case StoreFiles(time, backup) => StoreBackup(time, PointOf(backup, date))
                                case PruneFiles(time) => PruneStorageAt(time)]
  }

  /** Backups of a list are stored, each with its own index, while the clock goes on. */
  ghost predicate StoresAll(bs: seq<Backup>, date: DateText, run: seq<Step>) {
    && AllListable(bs, date) && AllHaveRoom(bs, date)
    && (forall h :: h in run && h.StoreFiles? ==> h.backup in bs)
    && (forall b, tar :: b in bs && tar in b.tars ==> tar.info.numParts > 0)
    && RunOf(History(bs, date), AsRead(run, date))
  }

  /** The files in the storage: all that was stored, less what prunes deleted that read their history from it. */
  ghost function FilesLeft(bs: seq<Backup>, date: DateText, keep: Keep, run: seq<Step>): set<File>
    requires forall b, tar :: b in bs && tar in b.tars ==> tar.info.numParts > 0
  {
    if run == [] then {}
    else
      var last, files := run[|run| - 1], FilesLeft(bs, date, keep, run[..|run| - 1]);
      match last
      case StoreFiles(_, backup) => files + FilesOf(backup, date)
      case PruneFiles(now) =>
        var history := HistoryOf(History(bs, date), files);
        if NoneAfter(now, Times(history)) then AfterPrune(history, files, keep, now) else files
  }

  /** The backups that were ever stored with one of some points. */
  ghost function EverStored(run: seq<Step>, points: set<nat>): set<Backup> {
    set h | h in run && h.StoreFiles? && h.backup.point in points :: h.backup
  }

  lemma StoredHavePoints(bs: seq<Backup>, date: DateText, run: seq<Step>)
    requires AllListable(bs, date) && forall h :: h in run && h.StoreFiles? ==> h.backup in bs
    ensures forall h, tar :: h in run && h.StoreFiles? && tar in h.backup.tars ==> tar.info.numParts > 0
  {
    hide Listable;
  }

  /** It makes no difference that the files are stored and the index is read. */
  lemma {:induction false} SameFiles(bs: seq<Backup>, date: DateText, keep: Keep, run: seq<Step>)
    requires AllListable(bs, date) && AllHaveRoom(bs, date)
    requires forall h :: h in run && h.StoreFiles? ==> h.backup in bs
    requires forall h, tar :: h in run && h.StoreFiles? && tar in h.backup.tars ==> tar.info.numParts > 0
    requires forall b, tar :: b in bs && tar in b.tars ==> tar.info.numParts > 0
    ensures FilesLeft(bs, date, keep, run) == FilesAfter(History(bs, date), keep, AsRead(run, date))
  {
    hide AllListable, AllHaveRoom, AfterPrune, HistoryOf, FilesOf, PointOf, Times, NoneAfter, History;
    if run != [] {
      var n := |run| - 1;
      SameFiles(bs, date, keep, run[..n]);
      var happenings := AsRead(run, date);
      assert happenings[..n] == AsRead(run[..n], date);
      if run[n].StoreFiles? {
        AllHaveParts(bs, date);
        NeedsWhatItStored(run[n].backup, date);
      }
    }
  }

  lemma {:induction false} StoredAsRead(run: seq<Step>, date: DateText, points: set<nat>, p: PointInTime)
    requires forall h, tar :: h in run && h.StoreFiles? && tar in h.backup.tars ==> tar.info.numParts > 0
    ensures p in StoredWith(AsRead(run, date), points) <==>
      exists b :: b in EverStored(run, points)
        && (forall tar :: tar in b.tars ==> tar.info.numParts > 0) && PointOf(b, date) == p
  {
    hide PointOf, StoredWith;
    if run == [] {
      assert StoredWith([], points) == {} by { NothingStored(points); }
    } else {
      var n := |run| - 1;
      var before, happenings := EverStored(run[..n], points), AsRead(run, date);
      StoredAsRead(run[..n], date, points, p);
      StoredWithOneMore(happenings, points);
      assert happenings[..n] == AsRead(run[..n], date);
      assert run == run[..n] + [run[n]];
      if run[n].StoreFiles? {
        PointIs(run[n].backup, date);
        assert EverStored(run, points) == before + if run[n].backup.point in points then {run[n].backup} else {};
      } else {
        assert EverStored(run, points) == before;
      }
    }
  }

  lemma NothingStored(points: set<nat>)
    ensures StoredWith([], points) == {}
  {
  }

  /**
   However often a storage is pruned in between, after a prune that does not refuse it holds exactly the files that
   were stored for those backups, of all ever stored, that one prune would keep.
   */
  lemma StoredIsConfluent(bs: seq<Backup>, date: DateText, keep: Keep, run: seq<Step>, now: nat)
    requires StoresAll(bs, date, run) && Clock(EventsOf(AsRead(run, date))) <= now
    ensures
      var ever, files := Ever(EventsOf(AsRead(run, date))), FilesLeft(bs, date, keep, run + [PruneFiles(now)]);
      if NoneAfter(now, ever) then files == FilesOfAll(EverStored(run, Survivors(keep, now, ever)), date)
      else files == FilesLeft(bs, date, keep, run)
  {
    hide *;
    StoresAllIs(bs, date, run);
    var catalog, happenings, whole := History(bs, date), AsRead(run, date), run + [PruneFiles(now)];
    OnePruneMore(bs, date, run, now);
    SameFiles(bs, date, keep, run);
    SameFiles(bs, date, keep, whole);
    StorageIsConfluent(catalog, keep, happenings, now);
    var ever, files := Ever(EventsOf(happenings)), FilesLeft(bs, date, keep, whole);
    if NoneAfter(now, ever) {
      var points := Survivors(keep, now, ever);
      forall f
        ensures f in files <==> f in FilesOfAll(EverStored(run, points), date)
      {
        InRequired(HistoryOf(catalog, files), f);
        InFilesOf(run, date, points, f);
        if p :| p in HistoryOf(catalog, files) && f in p.Files() {
          StoredAsRead(run, date, points, p);
          var b :| b in EverStored(run, points)
            && (forall tar :: tar in b.tars ==> tar.info.numParts > 0) && PointOf(b, date) == p;
          EverStoredIs(bs, date, run, points, b);
          NeedsWhatItStored(b, date);
        }
        if b :| b in EverStored(run, points) && f in FilesOf(b, date) {
          EverStoredIs(bs, date, run, points, b);
          NeedsWhatItStored(b, date);
          StoredAsRead(run, date, points, PointOf(b, date));
        }
      }
    }
  }

  lemma StoresAllIs(bs: seq<Backup>, date: DateText, run: seq<Step>)
    requires StoresAll(bs, date, run)
    ensures AllListable(bs, date) && AllHaveRoom(bs, date)
    ensures forall h :: h in run && h.StoreFiles? ==> h.backup in bs
    ensures forall h, tar :: h in run && h.StoreFiles? && tar in h.backup.tars ==> tar.info.numParts > 0
    ensures forall b, tar :: b in bs && tar in b.tars ==> tar.info.numParts > 0
    ensures RunOf(History(bs, date), AsRead(run, date))
  {
    hide AllListable, AllHaveRoom, RunOf;
  }

  lemma OnePruneMore(bs: seq<Backup>, date: DateText, run: seq<Step>, now: nat)
    requires forall h, tar :: h in run && h.StoreFiles? && tar in h.backup.tars ==> tar.info.numParts > 0
    requires forall h :: h in run && h.StoreFiles? ==> h.backup in bs
    ensures var whole := run + [PruneFiles(now)];
      && (forall h, tar :: h in whole && h.StoreFiles? && tar in h.backup.tars ==> tar.info.numParts > 0)
      && (forall h :: h in whole && h.StoreFiles? ==> h.backup in bs)
      && AsRead(whole, date) == AsRead(run, date) + [PruneStorageAt(now)]
  {
    hide PointOf;
    var whole := run + [PruneFiles(now)];
    assert whole[..|run|] == run;
  }

  lemma InRequired(history: seq<PointInTime>, f: File)
    ensures f in Required(history) <==> exists p :: p in history && f in p.Files()
  {
  }

  lemma InFilesOf(run: seq<Step>, date: DateText, points: set<nat>, f: File)
    ensures f in FilesOfAll(EverStored(run, points), date) <==>
      exists b :: b in EverStored(run, points) && f in FilesOf(b, date)
  {
    hide FilesOf, EverStored;
  }

  lemma EverStoredIs(bs: seq<Backup>, date: DateText, run: seq<Step>, points: set<nat>, b: Backup)
    requires AllListable(bs, date) && AllHaveRoom(bs, date)
    requires (forall h :: h in run && h.StoreFiles? ==> h.backup in bs) && b in EverStored(run, points)
    ensures forall tar :: tar in b.tars ==> Listable(tar, date) && HasRoom(tar, date) && tar.info.numParts > 0
  {
    hide Listable, HasRoom;
  }
}
