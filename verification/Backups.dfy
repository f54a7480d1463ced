/**
 A whole backup: the entries of storage directories are put into tars, all tars are stored in one storage,
 and any file is restored from there.
 */
module Backups {
  import opened Blocks
  import opened Layout
  import Splits
  import TarKinds
  import opened Grouping
  import opened TarEntries
  import opened TarFiles
  import opened Restore
  import opened Names
  import opened PartNames
  import opened Pipeline
  import Paths
  import SafePaths
  import HardLinks
  import Planning
  import IndexEntries
  import Permissions

  // ---------------------------------------------------------------- the tars of a storage directory

  /** Which entries go into a tar, in their order. */
  function Indexes(plan: Plan, gs: seq<Grouping.Entry>, slot: Slot): (ks: seq<nat>)
    requires plan.Valid()
    ensures forall k :: k in ks ==> k < |gs|
  {
    if gs == [] then []
    else
      var n := |gs| - 1;
      Indexes(plan, gs[..n], slot) + if plan.SlotOf(gs[n]) == slot then [n] else []
  }

  ghost predicate Increasing(ks: seq<nat>) {
    forall i, j :: 0 <= i < j < |ks| ==> ks[i] < ks[j]
  }

  lemma {:induction false} IndexesAre(plan: Plan, gs: seq<Grouping.Entry>, slot: Slot)
    requires plan.Valid()
    ensures forall k: nat :: k in Indexes(plan, gs, slot) <==> k < |gs| && plan.SlotOf(gs[k]) == slot
    ensures Increasing(Indexes(plan, gs, slot))
  {
    hide Plan.SlotOf, Increasing;
    IncreasingStep([], 0);
    if gs != [] {
      var n := |gs| - 1;
      IndexesAre(plan, gs[..n], slot);
      IncreasingStep(Indexes(plan, gs[..n], slot), n);
      assert Indexes(plan, gs[..n], slot) + [] == Indexes(plan, gs[..n], slot);
    }
  }

  lemma IncreasingStep(ks: seq<nat>, n: nat)
    ensures Increasing([])
    ensures Increasing(ks) && (forall k :: k in ks ==> k < n) ==> Increasing(ks + [n])
  {
    if Increasing(ks) && forall k :: k in ks ==> k < n {
      var more := ks + [n];
      forall i, j | 0 <= i < j < |more|
        ensures more[i] < more[j]
      {
        assert ks[i] in ks;
      }
    }
  }

  /** They are the entries that grouping puts there. */
  lemma {:induction false} IndexesAreOnly(plan: Plan, gs: seq<Grouping.Entry>, slot: Slot)
    requires plan.Valid()
    ensures var ks, only := Indexes(plan, gs, slot), Only(plan, gs, slot);
      |ks| == |only| && forall k :: 0 <= k < |ks| ==> ks[k] < |gs| && only[k] == gs[ks[k]]
  {
    hide Plan.SlotOf;
    if gs != [] {
      var n := |gs| - 1;
      IndexesAreOnly(plan, gs[..n], slot);
      var ks, only := Indexes(plan, gs[..n], slot), Only(plan, gs[..n], slot);
      assert forall k :: 0 <= k < |ks| ==> only[k] == gs[..n][ks[k]] == gs[ks[k]];
    }
  }

  function EntriesIn(plan: Plan, gs: seq<Grouping.Entry>, es: seq<TarEntry>, slot: Slot): (some: seq<TarEntry>)
    requires plan.Valid() && |es| == |gs|
    ensures |some| == |Indexes(plan, gs, slot)|
  {
    var ks := Indexes(plan, gs, slot);
    seq(|ks|, k requires 0 <= k < |ks| => assert ks[k] in ks; es[ks[k]])
  }

  /** Where an entry of a tar is among the entries. */
  lemma Whence(plan: Plan, gs: seq<Grouping.Entry>, es: seq<TarEntry>, slot: Slot, e: TarEntry) returns (i: nat)
    requires plan.Valid() && |es| == |gs| && e in EntriesIn(plan, gs, es, slot)
    ensures i < |es| && es[i] == e && plan.SlotOf(gs[i]) == slot
  {
    IndexesAre(plan, gs, slot);
    hide Plan.SlotOf, Indexes;
    var ks := Indexes(plan, gs, slot);
    var k :| 0 <= k < |ks| && EntriesIn(plan, gs, es, slot)[k] == e;
    i := ks[k];
    assert i in ks;
  }

  lemma AllWhence(plan: Plan, gs: seq<Grouping.Entry>, es: seq<TarEntry>, slot: Slot)
    requires plan.Valid() && |es| == |gs|
    ensures forall e :: e in EntriesIn(plan, gs, es, slot) ==> e in es
  {
    hide EntriesIn, Plan.SlotOf;
    forall e | e in EntriesIn(plan, gs, es, slot)
      ensures e in es
    {
      var i := Whence(plan, gs, es, slot, e);
    }
  }

  /** Every entry is somewhere in the tar of its slot. */
  lemma Whither(plan: Plan, gs: seq<Grouping.Entry>, es: seq<TarEntry>, i: nat) returns (k: nat)
    requires plan.Valid() && |es| == |gs| && i < |es|
    ensures var some := EntriesIn(plan, gs, es, plan.SlotOf(gs[i])); k < |some| && some[k] == es[i]
  {
    IndexesAre(plan, gs, plan.SlotOf(gs[i]));
    hide Plan.SlotOf, Indexes;
    var ks := Indexes(plan, gs, plan.SlotOf(gs[i]));
    k :| 0 <= k < |ks| && ks[k] == i;
  }

  function KindOf(slot: Slot): TarKinds.TarContents {
    match slot
    case Taz => TarKinds.DIR_TAR
    case Small(_) => TarKinds.SMALL_FILES_TAR
    case Medium(_) => TarKinds.MEDIUM_FILES_TAR
    case Large(_) => TarKinds.SINGLE_LARGE_FILE_TAR
  }

  /** Only tars of large files that exceed the split size are cut. */
  ghost predicate OfSlot(t: TarFile, slot: Slot, splitSize: nat)
    reads t
  {
    match slot
    case Taz => t.tarContents == TarKinds.DIR_TAR && t.numParts == 1
    case Small(_) => t.tarContents == TarKinds.SMALL_FILES_TAR && t.numParts == 1
    case Medium(_) => t.tarContents == TarKinds.MEDIUM_FILES_TAR && t.numParts == 1
    case Large(_) =>
      if t.contentSize > splitSize
      then t.tarContents == TarKinds.SPLIT_LARGE_FILE_TAR && t.numParts > 1 && t.partSize == splitSize
      else t.tarContents == TarKinds.SINGLE_LARGE_FILE_TAR && t.numParts == 1
  }

  lemma OfSlotIf(t: TarFile, slot: Slot, splitSize: nat)
    requires if KindOf(slot) == TarKinds.SINGLE_LARGE_FILE_TAR && t.contentSize > splitSize
      then t.tarContents == TarKinds.SPLIT_LARGE_FILE_TAR && t.numParts > 1 && t.partSize == splitSize
      else t.tarContents == KindOf(slot) && t.numParts == 1
    ensures OfSlot(t, slot, splitSize)
  {
  }

  lemma ReadySize(t: TarFile, fs: FileSystem)
    requires t.ReadyToRead(fs)
    ensures t.contentSize == TotalOf(t.entries)
  {
    TotalIs(t);
    hide TotalOf, TarFile.Valid, TarFile.Readable;
  }

  ghost predicate NoneTwice(es: seq<TarEntry>) {
    forall i, j :: 0 <= i < j < |es| ==> es[i] != es[j]
  }

  /**
   Lays out the tars with a storage directory's contents, one for each of some slots. Laying out a tar leaves the
   others ready, as no entry is in two of them.
   */
  method LayOutDirectory(plan: Plan, gs: seq<Grouping.Entry>, es: seq<TarEntry>, slots: seq<Slot>,
                         ghost fs: FileSystem, splitSize: nat, ths: Splits.TarHeaderStyle, pad: PaddingStyle,
                         targetSize: nat)
    returns (tars: seq<TarFile>)
    requires plan.Valid() && |es| == |gs| && NoneTwice(es)
    requires Taz !in slots && forall i, j :: 0 <= i < j < |slots| ==> slots[i] != slots[j]
    requires forall slot :: slot in slots ==> CanLayOut(EntriesIn(plan, gs, es, slot), fs, KindOf(slot), splitSize, ths)
    modifies es`tarOffset
    ensures |tars| == |slots| && forall t :: t in tars ==> fresh(t)
    ensures forall j :: 0 <= j < |tars| ==>
      tars[j].entries == EntriesIn(plan, gs, es, slots[j]) && tars[j].hardLinks == [] && tars[j].ReadyToRead(fs)
    ensures forall j :: 0 <= j < |tars| ==> OnDisk(tars[j], pad, targetSize) && OfSlot(tars[j], slots[j], splitSize)
    ensures forall t :: t in tars ==> t.contentSize == TotalOf(t.entries)
    ensures forall i :: 0 <= i < |es| && plan.SlotOf(gs[i]) in slots ==>
      exists j :: 0 <= j < |tars| && slots[j] == plan.SlotOf(gs[i]) && es[i] in tars[j].entries
  {
    hide *;
    tars := [];
    for j := 0 to |slots|
      invariant |tars| == j && forall t :: t in tars ==> fresh(t)
      invariant forall slot :: slot in slots ==>
        CanLayOut(EntriesIn(plan, gs, es, slot), fs, KindOf(slot), splitSize, ths)
      invariant forall i :: 0 <= i < j ==>
        tars[i].entries == EntriesIn(plan, gs, es, slots[i]) && tars[i].hardLinks == [] && tars[i].ReadyToRead(fs)
      invariant forall i :: 0 <= i < j ==> OnDisk(tars[i], pad, targetSize) && OfSlot(tars[i], slots[i], splitSize)
    {
      var some := EntriesIn(plan, gs, es, slots[j]);
      AllWhence(plan, gs, es, slots[j]);
      forall i, e | 0 <= i < j && e in tars[i].entries
        ensures e !in some
      {
        SlotsApart(plan, gs, es, slots[i], slots[j]);
      }
      assert forall k :: 0 <= k < |some| ==> some[k] in es;
      label before:
      var t := LayOut(some, fs, KindOf(slots[j]), splitSize, ths, pad, targetSize);
      forall slot | slot in slots
        ensures CanLayOut(EntriesIn(plan, gs, es, slot), fs, KindOf(slot), splitSize, ths)
      {
        AllWhence(plan, gs, es, slot);
        var others := EntriesIn(plan, gs, es, slot);
        assert old@before(CanLayOut(others, fs, KindOf(slot), splitSize, ths));
        assert forall k :: 0 <= k < |others| ==> others[k] in es;
      }
      forall i | 0 <= i < j
        ensures tars[i].entries == EntriesIn(plan, gs, es, slots[i]) && tars[i].hardLinks == []
      {
      }
      forall i | 0 <= i < j
        ensures tars[i].ReadyToRead(fs)
      {
        var u := tars[i];
        assert old@before(u.ReadyToRead(fs));
        assert u.hardLinks == [] && u.entries == old@before(u.entries);
        assert forall k :: 0 <= k < |u.entries| ==> u.entries[k] !in some;
      }
      OfSlotIf(t, slots[j], splitSize);
      tars := tars + [t];
    }
    forall t | t in tars
      ensures t.contentSize == TotalOf(t.entries)
    {
      ReadySize(t, fs);
    }
    forall i | 0 <= i < |es| && plan.SlotOf(gs[i]) in slots
      ensures exists j :: 0 <= j < |tars| && slots[j] == plan.SlotOf(gs[i]) && es[i] in tars[j].entries
    {
      var k := Whither(plan, gs, es, i);
      var j :| 0 <= j < |slots| && slots[j] == plan.SlotOf(gs[i]);
      assert tars[j].entries[k] == es[i];
    }
  }

  /** Lays out the tar with the directories, with hard links in front of them. */
  method LayOutTaz(directories: seq<TarEntry>, links: seq<TarEntry>, ghost fs: FileSystem, splitSize: nat,
                   ths: Splits.TarHeaderStyle, pad: PaddingStyle, targetSize: nat)
    returns (t: TarFile)
    requires CanLayOut(links + directories, fs, TarKinds.DIR_TAR, splitSize, ths)
    modifies links`tarOffset, directories`tarOffset
    ensures fresh(t) && t.entries == links + directories && t.hardLinks == [] && t.ReadyToRead(fs)
    ensures t.tarContents == TarKinds.DIR_TAR && t.numParts == 1 && t.contentSize == TotalOf(t.entries)
    ensures OnDisk(t, pad, targetSize)
  {
    hide *;
    t := new TarFile(TarKinds.DIR_TAR);
    AddDirectories(t, directories, links, fs, splitSize, ths);
    QueueLinks(t, directories, links, fs, splitSize, ths);
    ghost var all := links + directories;
    assert forall k :: 0 <= k < |all| ==> all[k] in links || all[k] in directories;
    t.PrependHardLinks();
    Settle(t, all, fs, splitSize, ths, pad, targetSize);
  }

  method AddDirectories(t: TarFile, directories: seq<TarEntry>, ghost links: seq<TarEntry>, ghost fs: FileSystem,
                        ghost splitSize: nat, ghost ths: Splits.TarHeaderStyle)
    requires t.Valid() && t.entries == [] && t.hardLinks == []
    requires CanLayOut(links + directories, fs, TarKinds.DIR_TAR, splitSize, ths)
    modifies t`contents, t`offsets, t`currentTarOffset, t`mtim, t`entries, t`sizes, directories`tarOffset
    ensures t.Valid() && t.entries == directories
    ensures CanLayOut(links + directories, fs, TarKinds.DIR_TAR, splitSize, ths)
  {
    hide *;
    assert directories[..0] == [];
    for i := 0 to |directories|
      invariant t.Valid() && t.entries == directories[..i] && t.hardLinks == []
      invariant CanLayOut(links + directories, fs, TarKinds.DIR_TAR, splitSize, ths)
    {
      NextOf(links + directories, fs, splitSize, ths, links, directories, i, 0);
      t.AddEntryLast(directories[i]);
    }
    assert directories[..|directories|] == directories;
  }

  method QueueLinks(t: TarFile, ghost directories: seq<TarEntry>, links: seq<TarEntry>, ghost fs: FileSystem,
                    ghost splitSize: nat, ghost ths: Splits.TarHeaderStyle)
    requires t.Valid() && t.entries == directories && t.hardLinks == []
    requires CanLayOut(links + directories, fs, TarKinds.DIR_TAR, splitSize, ths)
    modifies t`hardLinks
    ensures t.Valid() && t.hardLinks == links
  {
    hide *;
    assert links[..0] == [];
    for i := 0 to |links|
      invariant t.Valid() && t.hardLinks == links[..i]
    {
      NextOf(links + directories, fs, splitSize, ths, links, directories, 0, i);
      t.AddHardLink(links[i]);
    }
    assert links[..|links|] == links;
  }

  lemma NextOf(all: seq<TarEntry>, fs: FileSystem, splitSize: nat, ths: Splits.TarHeaderStyle, links: seq<TarEntry>,
               directories: seq<TarEntry>, i: nat, j: nat)
    requires all == links + directories && CanLayOut(all, fs, TarKinds.DIR_TAR, splitSize, ths)
    ensures i < |directories| ==>
      && directories[i] !in directories[..i] && directories[i] !in links && directories[i].blockedSize > 0
      && directories[..i + 1] == directories[..i] + [directories[i]]
    ensures j < |links| ==>
      && links[j] !in links[..j] && links[j] !in directories && links[j].blockedSize > 0
      && links[..j + 1] == links[..j] + [links[j]]
  {
    hide TarEntry.Valid, TarEntry.Unchanged, TotalOf, Splits.MultivolHeaderSize, CeilDiv;
    if i < |directories| {
      assert all[|links| + i] == directories[i];
      assert forall k :: 0 <= k < i ==> all[|links| + k] == directories[k];
      assert forall k :: 0 <= k < |links| ==> all[k] == links[k];
    }
    if j < |links| {
      assert all[j] == links[j];
      assert forall k :: 0 <= k < |links| ==> all[k] == links[k];
      assert forall k :: 0 <= k < |directories| ==> all[|links| + k] == directories[k];
    }
  }

  lemma OneSlot(plan: Plan, gs: seq<Grouping.Entry>, es: seq<TarEntry>, a: Slot, b: Slot, e: TarEntry)
    requires plan.Valid() && |es| == |gs| && NoneTwice(es)
    requires e in EntriesIn(plan, gs, es, a) && e in EntriesIn(plan, gs, es, b)
    ensures a == b
  {
    hide Plan.SlotOf, EntriesIn;
    var i := Whence(plan, gs, es, a, e);
    var j := Whence(plan, gs, es, b, e);
    assert i == j;
  }

  lemma SlotsApart(plan: Plan, gs: seq<Grouping.Entry>, es: seq<TarEntry>, a: Slot, b: Slot)
    requires plan.Valid() && |es| == |gs| && NoneTwice(es) && a != b
    ensures forall e :: e in EntriesIn(plan, gs, es, a) ==> e !in EntriesIn(plan, gs, es, b)
  {
    hide *;
    forall e | e in EntriesIn(plan, gs, es, a)
      ensures e !in EntriesIn(plan, gs, es, b)
    {
      if e in EntriesIn(plan, gs, es, b) {
        OneSlot(plan, gs, es, a, b, e);
      }
    }
  }

  // ---------------------------------------------------------------- the storage

  /** Tars have different hashes or kinds, or are stored in different directories. */
  ghost predicate TarsApart(infos: seq<TarInfo>, dirs: seq<Dir>) {
    && |infos| == |dirs|
    && forall i, j :: 0 <= i < j < |infos| ==>
         infos[i].hash != infos[j].hash || infos[i].kind != infos[j].kind || dirs[i].Text() != dirs[j].Text()
  }

  /** Everything that storing a tar asks for. */
  ghost predicate CanStore(t: TarFile, fs: FileSystem, info: TarInfo, date: DateText, dir: Dir, bufferSize: nat,
                           writes: seq<nat>)
    reads t, t.entries, t.hardLinks
  {
    && t.ReadyToRead(fs) && t.entries != [] && NamesWork(info, date, dir) && InfoFor(t, info) && bufferSize > 0
    && forall part: nat :: part < t.numParts ==> StoresWell(t, fs, part, bufferSize, writes, 0, 0)
  }

  lemma CanStoreIs(t: TarFile, fs: FileSystem, info: TarInfo, date: DateText, dir: Dir, bufferSize: nat,
                   writes: seq<nat>)
    requires CanStore(t, fs, info, date, dir, bufferSize, writes)
    ensures t.ReadyToRead(fs) && t.entries != [] && NamesWork(info, date, dir) && InfoFor(t, info) && bufferSize > 0
    ensures forall part: nat :: part < t.numParts ==> StoresWell(t, fs, part, bufferSize, writes, 0, 0)
  {
    hide TarFile.ReadyToRead, NamesWork, InfoFor, StoresWell;
  }

  /** The parts of tars that are apart never share a name. */
  lemma NamesApart(a: TarInfo, b: TarInfo, date: DateText, dir: Dir, other: Dir)
    requires NamesWork(a, date, dir) && NamesWork(b, date, other)
    requires a.hash != b.hash || a.kind != b.kind || dir.Text() != other.Text()
    ensures forall name :: name in Stored(a, date, dir) ==> name !in Stored(b, date, other)
  {
    hide *;
    NamesWorkIs(a, date, dir);
    NamesWorkIs(b, date, other);
    forall name | name in Stored(a, date, dir)
      ensures name !in Stored(b, date, other)
    {
      if name in Stored(b, date, other) {
        var i := StoredPart(a, date, dir, name);
        var j := StoredPart(b, date, other, name);
        ValidNames(a, i);
        ValidNames(b, j);
        ParseOfFullName(a.NameOf(i), date, dir);
        ParseOfFullName(b.NameOf(j), date, other);
        SameTar(a, i, b, j, date);
      }
    }
  }

  lemma NamesWorkIs(info: TarInfo, date: DateText, dir: Dir)
    requires NamesWork(info, date, dir)
    ensures info.Valid() && AreDates(date)
  {
  }

  lemma StoredPart(info: TarInfo, date: DateText, dir: Dir, name: string) returns (part: nat)
    requires name in Stored(info, date, dir)
    ensures part < info.numParts && name == FullName(info.NameOf(part), date, dir)
  {
    hide FullName;
    part :| part < info.numParts && Stored(info, date, dir)[part] == name;
  }

  lemma SameTar(a: TarInfo, i: nat, b: TarInfo, j: nat, date: DateText)
    requires Reread(a.NameOf(i), date) == Reread(b.NameOf(j), date)
    ensures a.hash == b.hash && a.kind == b.kind
  {
  }

  lemma KeepsParts(t: TarFile, fs: FileSystem, names: seq<string>, before: Storage, others: seq<string>,
                   storage: Storage)
    requires HasParts(t, fs, names, before) && AddsTo(before, others, storage)
    requires forall name :: name in names ==> name !in others
    ensures HasParts(t, fs, names, storage)
  {
    hide TarFile.ReadyToRead, TarFile.PartBytes;
  }

  /** Stores all tars, of one storage directory or of many: none takes another's place. */
  method StoreAll(tars: seq<TarFile>, fs: FileSystem, infos: seq<TarInfo>, date: DateText, dirs: seq<Dir>,
                  bufferSize: nat, writes: seq<nat>, before: Storage)
    returns (storage: Storage)
    requires |tars| == |infos| && TarsApart(infos, dirs)
    requires forall j :: 0 <= j < |tars| ==> CanStore(tars[j], fs, infos[j], date, dirs[j], bufferSize, writes)
    ensures forall j :: 0 <= j < |tars| ==> HasParts(tars[j], fs, Stored(infos[j], date, dirs[j]), storage)
  {
    hide *;
    storage := before;
    ApartIs(infos, dirs);
    for j := 0 to |tars|
      invariant forall i :: 0 <= i < j ==> HasParts(tars[i], fs, Stored(infos[i], date, dirs[i]), storage)
    {
      CanStoreIs(tars[j], fs, infos[j], date, dirs[j], bufferSize, writes);
      ghost var was := storage;
      storage := Pipeline.Backup(tars[j], fs, infos[j], date, dirs[j], bufferSize, writes, storage);
      forall i | 0 <= i < j
        ensures HasParts(tars[i], fs, Stored(infos[i], date, dirs[i]), storage)
      {
        CanStoreIs(tars[i], fs, infos[i], date, dirs[i], bufferSize, writes);
        NamesApart(infos[i], infos[j], date, dirs[i], dirs[j]);
        KeepsParts(tars[i], fs, Stored(infos[i], date, dirs[i]), was, Stored(infos[j], date, dirs[j]), storage);
      }
    }
  }

  lemma ApartIs(infos: seq<TarInfo>, dirs: seq<Dir>)
    requires TarsApart(infos, dirs)
    ensures |infos| == |dirs|
    ensures forall i, j :: 0 <= i < j < |infos| ==>
      infos[i].hash != infos[j].hash || infos[i].kind != infos[j].kind || dirs[i].Text() != dirs[j].Text()
  {
    hide Dir.Text;
  }

  // ---------------------------------------------------------------- any file of the backup

  /**
   All tars are stored in one storage, and then any file of any of them is restored by its line in the index: it
   is the file that was there.
   */
  method BackupAndRestoreAny(tars: seq<TarFile>, fs: FileSystem, infos: seq<TarInfo>, date: DateText,
                             location: string, safes: seq<string>, storeBuffer: nat, writes: seq<nat>,
                             before: Storage, j: nat, k: nat, e: TarEntry, scanned: IndexEntries.Listed,
                             front: string, rest: string, prepend: IndexEntries.LinkText, leftover: nat,
                             restoreBuffer: nat)
    returns (readable: bool, file: seq<byte>)
    requires |tars| == |infos| == |safes| && location != "" && TarsApart(infos, SafeDirs(location, safes))
    requires forall i :: 0 <= i < |tars| ==>
      CanStore(tars[i], fs, infos[i], date, SafeDir(location, safes[i]), storeBuffer, writes)
    requires j < |tars| && (safes[j] == "" || safes[j][0] != '/')
    requires k < |tars[j].entries| && e == tars[j].entries[k] && IsFile(e)
    requires var line := ListedOf(tars[j], e, scanned, Written(infos[j].NameOf(0), date, NoDir, 256));
      line.Valid() && line.mode.kind == Permissions.Regular
    requires restoreBuffer > 0
    ensures readable <==> |scanned.path| <= 1024
    ensures readable ==> e.abspath in fs && file == fs[e.abspath]
  {
    hide *;
    var dirs := SafeDirs(location, safes);
    SafeDirsAre(location, safes);
    var storage := StoreAll(tars, fs, infos, date, dirs, storeBuffer, writes, before);
    var t, info := tars[j], infos[j];
    CanStoreIs(t, fs, info, date, dirs[j], storeBuffer, writes);
    var line := ListedOf(t, e, scanned, Written(info.NameOf(0), date, NoDir, 256));
    var index := front + IndexEntries.CookEntry(line) + rest;
    readable, file := RestoreByIndex(t, fs, k, e, index, |front|, front, rest, scanned, info, date, location,
                                     safes[j], prepend, leftover, storage, restoreBuffer);
  }

  function SafeDirs(location: string, safes: seq<string>): (dirs: seq<Dir>)
    ensures |dirs| == |safes|
  {
    seq(|safes|, i requires 0 <= i < |safes| => SafeDir(location, safes[i]))
  }

  lemma SafeDirsAre(location: string, safes: seq<string>)
    ensures forall i :: 0 <= i < |safes| ==> SafeDirs(location, safes)[i] == SafeDir(location, safes[i])
  {
  }

  /** Storage directories with different safe paths are stored in different directories. */
  lemma SafeDirsApart(location: string, a: string, b: string)
    requires a != b && location != ""
    ensures SafeDir(location, a).Text() != SafeDir(location, b).Text()
  {
    SafeDirText(location, a);
    SafeDirText(location, b);
  }

  /** What stands behind the location tells the safe path. */
  lemma SafeDirText(location: string, safe: string)
    requires location != ""
    ensures var text := SafeDir(location, safe).Text();
      && |text| == |location| + (if safe == "" then 1 else |safe| + 2)
      && text[|location| + 1..] == (if safe == "" then "" else safe + "/")
      && (safe != "" ==> text[|location| + 1..][..|safe|] == safe)
  {
    if safe != "" {
      assert (location + "/" + safe + "/")[|location| + 1..] == safe + "/";
    }
  }

  // ---------------------------------------------------------------- the tree

  /** The entries of a storage directory, as grouping sees them. */
  function Described(items: seq<HardLinks.Item>, describe: HardLinks.Item -> Grouping.Entry)
    : (gs: seq<Grouping.Entry>)
    ensures |gs| == |items|
  {
    seq(|items|, i requires 0 <= i < |items| => describe(items[i]))
  }

  lemma {:induction false} OnceAt(items: seq<HardLinks.Item>, p: Paths.Path) returns (i: nat)
    requires HardLinks.Times(items, p) == 1
    ensures i < |items| && items[i] == HardLinks.File(p)
    ensures forall j :: 0 <= j < |items| && items[j] == HardLinks.File(p) ==> j == i
  {
    var n := |items| - 1;
    assert items == items[..n] + [items[n]];
    if items[n] == HardLinks.File(p) {
      i := n;
      assert HardLinks.File(p) !in items[..n];
    } else {
      i := OnceAt(items[..n], p);
    }
  }

  lemma NotAt(items: seq<HardLinks.Item>, p: Paths.Path)
    requires HardLinks.Times(items, p) == 0
    ensures HardLinks.File(p) !in items
  {
  }

  /** Every file of the tree is in one tar of one storage directory, once: the one its place and its size ask for. */
  lemma FileInOneTar(files: seq<Paths.Path>, inodes: map<Paths.Path, nat>, storage: set<Paths.Path>,
                     home: SafePaths.Directories, entries: HardLinks.Entries, link: HardLinks.Links,
                     describe: HardLinks.Item -> Grouping.Entry, plans: map<Paths.Path, Plan>, p: Paths.Path)
    returns (s: Paths.Path, i: nat)
    requires Planning.AllHoused(files, storage, home) && p in files && p != Paths.ROOT
    requires Planning.Placement(files, inodes, storage, home, entries, link)
    requires forall d :: d in storage ==> d in plans && plans[d].Valid()
    ensures s == Planning.Place(files, inodes, storage, home, p) && s in storage && s in entries
    ensures i < |entries[s]| && entries[s][i] == HardLinks.File(p)
    ensures i in Indexes(plans[s], Described(entries[s], describe), plans[s].SlotOf(describe(HardLinks.File(p))))
    ensures
      forall d, slot, k: nat |
        d in storage && k in Indexes(plans[d], Described(entries[d], describe), slot)
        && entries[d][k] == HardLinks.File(p) ::
        d == s && k == i && slot == plans[s].SlotOf(describe(HardLinks.File(p)))
  {
    hide *;
    Planning.FilesAtHome(files, storage, home);
    Planning.PlacementGives(files, inodes, storage, home, entries, link);
    Planning.PlaceInStorage(files, storage, home, inodes, p);
    s := Planning.Place(files, inodes, storage, home, p);
    i := OnceAt(entries[s], p);
    DescribedAt(entries[s], describe, i);
    IndexesAre(plans[s], Described(entries[s], describe), plans[s].SlotOf(describe(HardLinks.File(p))));
    forall d, slot, k: nat | d in storage && k in Indexes(plans[d], Described(entries[d], describe), slot)
                             && entries[d][k] == HardLinks.File(p)
      ensures d == s && k == i && slot == plans[s].SlotOf(describe(HardLinks.File(p)))
    {
      if d != s {
        NotAt(entries[d], p);
        assert false;
      }
      IndexesAre(plans[d], Described(entries[d], describe), slot);
      DescribedAt(entries[d], describe, k);
    }
  }

  lemma DescribedAt(items: seq<HardLinks.Item>, describe: HardLinks.Item -> Grouping.Entry, i: nat)
    requires i < |items|
    ensures Described(items, describe)[i] == describe(items[i])
  {
  }
}
