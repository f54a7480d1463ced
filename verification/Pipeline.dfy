/** From the origin to the storage and back: the parts of a tar are stored, and files are restored from them. */
module Pipeline {
  import opened Blocks
  import opened Layout
  import Splits
  import TarKinds
  import opened Parts
  import opened TarEntries
  import opened TarFiles
  import opened Restore
  import opened Names
  import opened PartNames
  import IndexEntries
  import Texts
  import Permissions

  // ---------------------------------------------------------------- laying out

  ghost function TotalOf(es: seq<TarEntry>): nat
    reads es`blockedSize
  {
    if es == [] then 0 else TotalOf(es[..|es| - 1]) + es[|es| - 1].blockedSize
  }

  /** Entries that can go into a tar: none twice, their files there, and small enough to be counted. */
  ghost predicate CanLayOut(es: seq<TarEntry>, fs: FileSystem, kind: TarKinds.TarContents, splitSize: nat,
                            ths: Splits.TarHeaderStyle)
    reads es`tarpath, es`link, es`isHardLink, es`headerSize, es`blockedSize
  {
    && (forall i, j :: 0 <= i < j < |es| ==> es[i] != es[j])
    && (forall e :: e in es ==> e.Valid() && e.Unchanged(fs) && e.blockedSize > 0)
    && Splits.MultivolHeaderSize(ths) < splitSize && splitSize % 512 == 0 && TotalOf(es) < SIZE_LIMIT
    && (kind == TarKinds.SINGLE_LARGE_FILE_TAR && TotalOf(es) > splitSize ==>
          && es != [] && es[0].headerSize < splitSize
          && var header := Splits.MultivolHeaderSize(ths);
             CeilDiv(TotalOf(es) - header, splitSize - header) < UINT_LIMIT)
  }

  /** Adds entries to a tar and settles its sizes: it can then be read. */
  method LayOut(es: seq<TarEntry>, ghost fs: FileSystem, kind: TarKinds.TarContents, splitSize: nat,
                ths: Splits.TarHeaderStyle, pad: PaddingStyle, targetSize: nat)
    returns (t: TarFile)
    requires CanLayOut(es, fs, kind, splitSize, ths)
    modifies es`tarOffset
    ensures fresh(t) && t.entries == es && t.hardLinks == [] && t.ReadyToRead(fs) && t.contentSize == TotalOf(es)
    ensures if kind == TarKinds.SINGLE_LARGE_FILE_TAR && t.contentSize > splitSize
      then t.tarContents == TarKinds.SPLIT_LARGE_FILE_TAR && t.numParts > 1 && t.partSize == splitSize
      else t.tarContents == kind && t.numParts == 1 && t.partSize == t.contentSize
    ensures t.numParts > 1 ==> t.partHeaderSize == if ths == Splits.NoHeader then 0 else 512
    ensures OnDisk(t, pad, targetSize)
  {
    hide *;
    t := new TarFile(kind);
    AddEntries(t, es, fs, splitSize, ths);
    Settle(t, es, fs, splitSize, ths, pad, targetSize);
  }

  method AddEntries(t: TarFile, es: seq<TarEntry>, ghost fs: FileSystem, ghost splitSize: nat,
                    ghost ths: Splits.TarHeaderStyle)
    requires t.Valid() && t.entries == [] && t.hardLinks == [] && CanLayOut(es, fs, t.tarContents, splitSize, ths)
    modifies t`contents, t`offsets, t`currentTarOffset, t`mtim, t`entries, t`sizes, es`tarOffset
    ensures t.Valid() && t.entries == es && CanLayOut(es, fs, t.tarContents, splitSize, ths)
  {
    hide *;
    assert es[..0] == [];
    for i := 0 to |es|
      invariant t.Valid() && t.entries == es[..i] && t.hardLinks == []
      invariant CanLayOut(es, fs, t.tarContents, splitSize, ths)
    {
      NextEntry(es, fs, t.tarContents, splitSize, ths, i);
      t.AddEntryLast(es[i]);
    }
    assert es[..|es|] == es;
  }

  /** A tar with all its entries is given its parts and their sizes. */
  method Settle(t: TarFile, ghost es: seq<TarEntry>, ghost fs: FileSystem, splitSize: nat, ths: Splits.TarHeaderStyle,
                pad: PaddingStyle, targetSize: nat)
    requires t.Valid() && t.entries == es && CanLayOut(es, fs, t.tarContents, splitSize, ths)
    modifies t`contentSize, t`numParts, t`partSize, t`lastPartSize, t`partHeaderSize, t`ondiskPartSize,
      t`ondiskLastPartSize, t`tarContents
    ensures t.ReadyToRead(fs) && t.contentSize == TotalOf(es)
    ensures if old(t.tarContents) == TarKinds.SINGLE_LARGE_FILE_TAR && t.contentSize > splitSize
      then t.tarContents == TarKinds.SPLIT_LARGE_FILE_TAR && t.numParts > 1 && t.partSize == splitSize
      else t.tarContents == old(t.tarContents) && t.numParts == 1 && t.partSize == t.contentSize
    ensures t.numParts > 1 ==> t.partHeaderSize == if ths == Splits.NoHeader then 0 else 512
    ensures OnDisk(t, pad, targetSize)
  {
    hide *;
    ghost var kind := t.tarContents;
    TotalIs(t);
    EntriesLaidOut(es, fs, kind, splitSize, ths);
    t.FixSize(splitSize, ths, pad, targetSize);
    ReadyIfSettled(t, es, fs, kind, splitSize, ths);
    if kind == TarKinds.SINGLE_LARGE_FILE_TAR && t.contentSize > splitSize {
      FewParts(es, fs, kind, splitSize, ths);
      HeaderSizeIs(ths);
    } else {
      WholeIfSettled(t, fs);
    }
    OnDiskIf(t, pad, targetSize);
  }

  lemma HeaderSizeIs(ths: Splits.TarHeaderStyle)
    ensures Splits.MultivolHeaderSize(ths) == if ths == Splits.NoHeader then 0 else 512
  {
  }

  lemma FewParts(es: seq<TarEntry>, fs: FileSystem, kind: TarKinds.TarContents, splitSize: nat,
                 ths: Splits.TarHeaderStyle)
    requires CanLayOut(es, fs, kind, splitSize, ths) && kind == TarKinds.SINGLE_LARGE_FILE_TAR
    requires TotalOf(es) > splitSize
    ensures var header := Splits.MultivolHeaderSize(ths);
      header < splitSize && CeilDiv(TotalOf(es) - header, splitSize - header) < UINT_LIMIT
  {
    hide TarEntry.Valid, TarEntry.Unchanged, TotalOf, Splits.MultivolHeaderSize, CeilDiv;
  }

  /** Every part takes the room on disk that its content and the padding ask for. */
  ghost predicate OnDisk(t: TarFile, pad: PaddingStyle, targetSize: nat)
    reads t
  {
    forall part :: 0 <= part < t.numParts ==>
      t.DiskSize(part) == OnDiskSize(t.PartContentSize(part), t.tarContents, pad, targetSize)
  }

  lemma OnDiskIf(t: TarFile, pad: PaddingStyle, targetSize: nat)
    requires forall part :: 0 <= part < t.numParts ==>
      t.DiskSize(part) == OnDiskSize(t.PartContentSize(part), t.tarContents, pad, targetSize)
    ensures OnDisk(t, pad, targetSize)
  {
    hide OnDiskSize, TarFile.DiskSize, TarFile.PartContentSize;
  }

  lemma WholeIfSettled(t: TarFile, fs: FileSystem)
    requires t.ReadyToRead(fs) && t.numParts == 1
    ensures t.partSize == t.PartContentSize(0) == t.contentSize
  {
    Settled(t, fs, 0);
  }

  lemma NextEntry(es: seq<TarEntry>, fs: FileSystem, kind: TarKinds.TarContents, splitSize: nat,
                  ths: Splits.TarHeaderStyle, i: nat)
    requires CanLayOut(es, fs, kind, splitSize, ths) && i < |es|
    ensures es[i] !in es[..i] && es[i].blockedSize > 0 && es[..i + 1] == es[..i] + [es[i]]
  {
    hide TarEntry.Valid, TarEntry.Unchanged, TotalOf;
  }

  lemma EntriesLaidOut(es: seq<TarEntry>, fs: FileSystem, kind: TarKinds.TarContents, splitSize: nat,
                       ths: Splits.TarHeaderStyle)
    requires CanLayOut(es, fs, kind, splitSize, ths)
    ensures TotalOf(es) < SIZE_LIMIT && Splits.MultivolHeaderSize(ths) < splitSize
  {
    hide TarEntry.Valid, TarEntry.Unchanged, TotalOf, Splits.MultivolHeaderSize;
  }

  lemma TotalIs(t: TarFile)
    requires t.Valid()
    ensures t.currentTarOffset == TotalOf(t.entries)
  {
    LaidSizes(t);
    hide TarFile.Valid;
    SumIsTotal(t.sizes, t.entries, |t.sizes|);
    assert t.entries[..|t.sizes|] == t.entries;
  }

  lemma {:induction false} SumIsTotal(sizes: seq<nat>, es: seq<TarEntry>, k: nat)
    requires k <= |sizes| == |es| && forall i :: 0 <= i < |es| ==> sizes[i] == es[i].blockedSize
    ensures SumTo(sizes, k) == TotalOf(es[..k])
  {
    if k > 0 {
      SumIsTotal(sizes, es, k - 1);
      assert es[..k][..k - 1] == es[..k - 1];
    }
  }

  lemma ReadyIfSettled(t: TarFile, es: seq<TarEntry>, fs: FileSystem, kind: TarKinds.TarContents, splitSize: nat,
                       ths: Splits.TarHeaderStyle)
    requires CanLayOut(es, fs, kind, splitSize, ths) && t.Valid() && t.entries == es
    requires t.currentTarOffset == TotalOf(es)
    requires t.contentSize == t.currentTarOffset
    requires t.currentTarOffset <= splitSize || kind != TarKinds.SINGLE_LARGE_FILE_TAR ==> t.Fixed() && t.numParts == 1
    requires t.currentTarOffset > splitSize && kind == TarKinds.SINGLE_LARGE_FILE_TAR ==>
      && t.partSize == splitSize && t.partHeaderSize == Splits.MultivolHeaderSize(ths) < splitSize
      && (t.Fixed() <== CeilDiv(t.contentSize - t.partHeaderSize, splitSize - t.partHeaderSize) < UINT_LIMIT)
    ensures t.ReadyToRead(fs)
  {
    hide TarEntry.Valid, TarEntry.Unchanged, TotalOf, Splits.MultivolHeaderSize, CeilDiv, TarFile.Valid, TarFile.Fixed;
  }

  // ---------------------------------------------------------------- storing

  /**
   Every chunk of a part starts out right: a write may accept less than it is given, and the next chunk
   starts where the file then ends.
   */
  ghost predicate StoresWell(t: TarFile, fs: FileSystem, part: nat, bufferSize: nat, writes: seq<nat>, offset: nat,
                             turn: nat)
    requires t.ReadyToRead(fs) && part < t.numParts && bufferSize > 0
    reads t, t.entries, t.hardLinks
    decreases t.DiskSize(part) - offset
  {
    offset < t.DiskSize(part) ==>
      var read := Min(bufferSize, t.DiskSize(part) - offset);
      && t.FaithfulAt(fs, part, offset, read)
      && StoresWell(t, fs, part, bufferSize, writes, offset + Accepted(read, writes, turn), turn + 1)
  }

  /** Whole blocks always do. */
  lemma {:induction false} WholeBlocksStoreWell(t: TarFile, fs: FileSystem, part: nat, bufferSize: nat,
                                                writes: seq<nat>, offset: nat, turn: nat)
    requires t.ReadyToRead(fs) && part < t.numParts && bufferSize > 0 && bufferSize % 512 == 0
    requires (forall w :: w in writes ==> w % 512 == 0) && (offset % 512 == 0 || offset >= t.DiskSize(part))
    ensures StoresWell(t, fs, part, bufferSize, writes, offset, turn)
    decreases t.DiskSize(part) - offset
  {
    hide TarFile.ReadyToRead, TarFile.FaithfulAt, TarFile.DiskSize;
    if offset < t.DiskSize(part) {
      var read := Min(bufferSize, t.DiskSize(part) - offset);
      var n := Accepted(read, writes, turn);
      AlignedIsFaithful(t, fs, part, offset, read);
      if offset + n < t.DiskSize(part) {
        AddAligned(offset, n);
      }
      WholeBlocksStoreWell(t, fs, part, bufferSize, writes, offset + n, turn + 1);
    }
  }

  /** Writes a part's file, chunk by chunk. The file does not depend on the sizes of chunks and writes. */
  method StorePart(t: TarFile, fs: FileSystem, part: nat, bufferSize: nat, writes: seq<nat>) returns (file: seq<byte>)
    requires t.ReadyToRead(fs) && part < t.numParts
    requires bufferSize > 0 && StoresWell(t, fs, part, bufferSize, writes, 0, 0)
    ensures file == t.PartBytes(fs, part)
  {
    hide *;
    var buf := new byte[bufferSize](_ => 0);
    ghost var all := t.PartBytes(fs, part);
    file := [];
    var offset: nat, remaining: nat, turn := 0, t.DiskSize(part), 0;
    while remaining > 0
      invariant offset + remaining == |all| == t.DiskSize(part) && file == all[..offset]
      invariant t.ReadyToRead(fs) && t.PartBytes(fs, part) == all
      invariant StoresWell(t, fs, part, bufferSize, writes, offset, turn)
    {
      ChunkStoresWell(t, fs, part, bufferSize, writes, offset, turn);
      var chunk := StoreChunk(t, fs, part, buf, offset, remaining, writes, turn);
      Longer(all, file, offset, chunk);
      file := file + chunk;
      offset, remaining, turn := offset + |chunk|, remaining - |chunk|, turn + 1;
    }
  }

  lemma ChunkStoresWell(t: TarFile, fs: FileSystem, part: nat, bufferSize: nat, writes: seq<nat>, offset: nat,
                        turn: nat)
    requires t.ReadyToRead(fs) && part < t.numParts && bufferSize > 0 && offset < t.DiskSize(part)
    requires StoresWell(t, fs, part, bufferSize, writes, offset, turn)
    ensures
      var read := Min(bufferSize, t.DiskSize(part) - offset);
      && 0 < read && t.FaithfulAt(fs, part, offset, read)
      && StoresWell(t, fs, part, bufferSize, writes, offset + Accepted(read, writes, turn), turn + 1)
  {
    hide TarFile.ReadyToRead, TarFile.FaithfulAt, TarFile.DiskSize;
  }

  lemma Longer(all: seq<byte>, file: seq<byte>, offset: nat, chunk: seq<byte>)
    requires offset + |chunk| <= |all| && file == all[..offset] && chunk == all[offset..offset + |chunk|]
    ensures file + chunk == all[..offset + |chunk|]
  {
  }

  /** Produces the next chunk of a part, and writes what is accepted of it. */
  method StoreChunk(t: TarFile, fs: FileSystem, part: nat, buf: array<byte>, offset: nat, remaining: nat,
                    writes: seq<nat>, turn: nat)
    returns (chunk: seq<byte>)
    requires t.ReadyToRead(fs) && part < t.numParts && offset + remaining == t.DiskSize(part) && remaining > 0
    requires buf.Length > 0 && t.FaithfulAt(fs, part, offset, Min(buf.Length, remaining))
    modifies buf
    ensures Min(buf.Length, remaining) > 0 && |chunk| == Accepted(Min(buf.Length, remaining), writes, turn) <= remaining
    ensures chunk == t.PartBytes(fs, part)[offset..offset + |chunk|]
  {
    hide *;
    var read := if remaining > buf.Length then buf.Length else remaining;
    MinIs(buf.Length, remaining);
    ghost var all, was := t.PartBytes(fs, part), buf[..];
    var len := t.ReadVirtualTar(buf, 0, read, offset, fs, part);
    MinIs(read, remaining);
    var n := Accepted(len, writes, turn);
    InFront(all, was, buf[..], offset, len, n);
    chunk := buf[..][..n];
  }

  lemma InFront(all: seq<byte>, was: seq<byte>, now: seq<byte>, offset: nat, len: nat, n: nat)
    requires n <= len <= |was| && offset + len <= |all| && now == Splice(was, 0, all[offset..offset + len])
    ensures n <= |now| && now[..n] == all[offset..offset + n]
  {
  }

  /** How much of a write is accepted: all, unless it is told otherwise. */
  function Accepted(len: nat, writes: seq<nat>, turn: nat): (n: nat)
    requires len > 0
    ensures 0 < n <= len && (n == len || n in writes)
    ensures turn < |writes| && 0 < writes[turn] <= len ==> n == writes[turn]
  {
    if turn < |writes| && 0 < writes[turn] < len then writes[turn] else len
  }

  /** The names have the files of the parts. */
  ghost predicate HasParts(t: TarFile, fs: FileSystem, names: seq<string>, storage: Storage)
    reads t, t.entries, t.hardLinks
  {
    && t.ReadyToRead(fs) && |names| == t.numParts
    && forall part: nat :: part < t.numParts ==> names[part] in storage && storage[names[part]] == t.PartBytes(fs, part)
  }

  /** Stores every part of a tar under its own name, and touches nothing else. */
  method StoreTar(t: TarFile, fs: FileSystem, names: seq<string>, bufferSize: nat, writes: seq<nat>, before: Storage)
    returns (storage: Storage)
    requires t.ReadyToRead(fs) && |names| == t.numParts
    requires forall i, j :: 0 <= i < j < |names| ==> names[i] != names[j]
    requires bufferSize > 0
    requires forall part: nat :: part < t.numParts ==> StoresWell(t, fs, part, bufferSize, writes, 0, 0)
    ensures HasParts(t, fs, names, storage)
    ensures storage.Keys == before.Keys + (set name | name in names)
    ensures forall name :: name in before && name !in names ==> storage[name] == before[name]
  {
    hide *;
    storage := before;
    AddsNothing(before);
    for part := 0 to t.numParts
      invariant forall i: nat :: i < part ==> names[i] in storage && storage[names[i]] == t.PartBytes(fs, i)
      invariant AddsTo(before, names[..part], storage)
    {
      var file := StorePart(t, fs, part, bufferSize, writes);
      AddsOne(before, names, part, storage, file);
      storage := storage[names[part] := file];
    }
    assert names[..t.numParts] == names;
    AddsIs(before, names, storage);
    PartsAreThere(t, fs, names, storage);
  }

  /** The named files are all that a storage differs in from what it was before. */
  ghost predicate AddsTo(before: Storage, names: seq<string>, storage: Storage) {
    && storage.Keys == before.Keys + (set name | name in names)
    && forall name :: name in before && name !in names ==> storage[name] == before[name]
  }

  lemma AddsIs(before: Storage, names: seq<string>, storage: Storage)
    requires AddsTo(before, names, storage)
    ensures storage.Keys == before.Keys + (set name | name in names)
    ensures forall name :: name in before && name !in names ==> storage[name] == before[name]
  {
  }

  lemma IsAdded(before: Storage, names: seq<string>, storage: Storage)
    requires storage.Keys == before.Keys + (set name | name in names)
    requires forall name :: name in before && name !in names ==> storage[name] == before[name]
    ensures AddsTo(before, names, storage)
  {
  }

  lemma AddsNothing(before: Storage)
    ensures AddsTo(before, [], before)
  {
  }

  lemma AddsOne(before: Storage, names: seq<string>, n: nat, storage: Storage, file: seq<byte>)
    requires n < |names| && AddsTo(before, names[..n], storage)
    ensures AddsTo(before, names[..n + 1], storage[names[n] := file])
  {
    assert names[..n + 1] == names[..n] + [names[n]];
  }

  lemma PartsAreThere(t: TarFile, fs: FileSystem, names: seq<string>, storage: Storage)
    requires t.ReadyToRead(fs) && |names| == t.numParts
    requires forall i: nat :: i < t.numParts ==> names[i] in storage && storage[names[i]] == t.PartBytes(fs, i)
    ensures HasParts(t, fs, names, storage)
  {
    hide TarFile.ReadyToRead, TarFile.PartBytes;
  }

  // ---------------------------------------------------------------- what was stored can be restored

  /** The geometry that the index gives for a tar: of a tar in one piece it says nothing else. */
  ghost predicate GeometryFor(t: TarFile, g: Splits.Geometry)
    reads t
  {
    g.numParts == t.numParts && (t.numParts > 1 ==> g == t.Geo())
  }

  lemma StoredIsRestorable(t: TarFile, fs: FileSystem, names: seq<string>, storage: Storage, g: Splits.Geometry)
    requires HasParts(t, fs, names, storage) && GeometryFor(t, g)
    ensures t.Readable(fs) && Restorable(g, storage, names, t.Image(fs)) && AllWhole(g, storage, names, |t.Image(fs)|)
  {
    hide *;
    HavingParts(t, fs, names, storage);
    Settled(t, fs, 0);
    FixedIs(t);
    GeometryIs(t, g);
    var image := t.Image(fs);
    CutSizes(t.Geo(), |image|);
    if t.numParts == 1 {
      WholeFileAgrees(image, t.Geo(), t.Continuation(fs, 0), t.DiskSize(0));
      IsRestorableWhole(g, storage, names, image);
    } else {
      forall part: nat | part < t.numParts
        ensures names[part] in storage && t.Geo().PartLength(part) <= |storage[names[part]]|
        ensures Agrees(storage[names[part]], image, t.Geo(), part)
      {
        Settled(t, fs, part);
        PartFileAgrees(image, t.Geo(), part, t.Continuation(fs, part), t.DiskSize(part));
      }
      IsRestorable(g, storage, names, image);
    }
  }

  lemma GeometryIs(t: TarFile, g: Splits.Geometry)
    requires GeometryFor(t, g)
    ensures g.numParts == t.numParts == t.Geo().numParts && (t.numParts > 1 ==> g == t.Geo())
  {
  }

  lemma IsRestorableWhole(g: Splits.Geometry, storage: Storage, names: seq<string>, image: seq<byte>)
    requires |image| < SIZE_LIMIT && g.numParts == |names| == 1
    requires names[0] in storage && AgreesWhole(storage[names[0]], image) && |image| <= |storage[names[0]]|
    ensures Restorable(g, storage, names, image) && AllWhole(g, storage, names, |image|)
  {
    hide AgreesWhole;
  }

  lemma HavingParts(t: TarFile, fs: FileSystem, names: seq<string>, storage: Storage)
    requires HasParts(t, fs, names, storage)
    ensures t.ReadyToRead(fs) && |names| == t.numParts && t.numParts > 0
    ensures forall part: nat :: part < t.numParts ==>
      names[part] in storage && storage[names[part]] == t.PartBytes(fs, part)
    ensures forall name :: name in names ==> name in storage
  {
  }

  lemma FixedIs(t: TarFile)
    requires t.Fixed()
    ensures t.numParts < UINT_LIMIT && t.contentSize < SIZE_LIMIT
  {
  }

  lemma IsRestorable(g: Splits.Geometry, storage: Storage, names: seq<string>, image: seq<byte>)
    requires g.Covers(|image|) && |image| < SIZE_LIMIT && |names| == g.numParts < UINT_LIMIT
    requires forall part: nat :: part < g.numParts ==>
      && names[part] in storage && g.PartLength(part) <= |storage[names[part]]|
      && Agrees(storage[names[part]], image, g, part)
    ensures Restorable(g, storage, names, image) && AllWhole(g, storage, names, |image|)
  {
    hide Agrees;
  }

  lemma Ready(t: TarFile, fs: FileSystem, k: nat)
    requires t.ReadyToRead(fs) && k < |t.entries|
    ensures t.Valid() && t.Readable(fs) && t.entries[k].Unchanged(fs)
  {
    hide TarEntry.Valid, TarEntry.Unchanged, Laid, SumTo, Splits.Geometry.Covers;
  }

  /** A file's bytes stand in the tar behind the entry's header. */
  lemma FileInTar(t: TarFile, fs: FileSystem, k: nat, from: nat, n: nat)
    requires t.ReadyToRead(fs) && k < |t.entries| && from + n <= |t.entries[k].Value(fs).data|
    ensures
      var e := t.entries[k];
      var at := e.tarOffset + e.headerSize + from;
      at + n <= |t.Image(fs)| && t.Image(fs)[at..at + n] == e.Value(fs).data[from..from + n]
  {
    hide *;
    Ready(t, fs, k);
    ImageIs(t, fs);
    EntryStands(t, fs, k);
    DataInTar(ValuesOf(t.entries, fs), k, from, n);
  }

  /** An entry with content of its own: the whole range of its bytes is the file's. */
  lemma FilesData(t: TarFile, fs: FileSystem, k: nat)
    requires t.ReadyToRead(fs) && k < |t.entries| && IsFile(t.entries[k])
    ensures t.Valid() && t.Readable(fs)
    ensures var e := t.entries[k]; e.abspath in fs && |fs[e.abspath]| == e.size && e.Value(fs).data == fs[e.abspath]
  {
    assert t.entries[k] in t.entries;
    hide Laid, SumTo, Splits.Geometry.Covers;
  }

  ghost predicate IsFile(e: TarEntry)
    reads e
  {
    e.isRegularFile && !e.isHardLink && !e.isVirtual
  }

  /** Reads a range of a stored file: it is the same range of the file that was backed up. */
  method RestoreRange(t: TarFile, fs: FileSystem, k: nat, from: nat, n: nat, storage: Storage, names: seq<string>,
                      e: TarEntry, entry: RestoreEntry)
    returns (bytes: seq<byte>)
    requires HasParts(t, fs, names, storage) && k < |t.entries| && e == t.entries[k] && IsFile(e)
    requires e.abspath in fs && from + n <= |fs[e.abspath]| && n > 0
    requires entry.offset == e.tarOffset + e.headerSize && GeometryFor(t, entry.geo)
    ensures bytes == fs[e.abspath][from..from + n]
  {
    hide *;
    HavingParts(t, fs, names, storage);
    FilesData(t, fs, k);
    StoredIsRestorable(t, fs, names, storage, entry.geo);
    WholeIsGapless(entry.geo, storage, names, |t.Image(fs)|);
    FileInTar(t, fs, k, from, n);
    var buf := new byte[n](_ => 0);
    var got := ReadChunk(entry, from, buf, n, storage, names, t.Image(fs));
    assert got == n;
    bytes := buf[..n];
  }

  // ---------------------------------------------------------------- parts by themselves

  /**
   A later part of a file's tar, read by itself: it starts with a verified header of type 'M' with the file's name,
   which says how much of the file came before and how much is left, and the file's bytes go on behind it.
   */
  lemma PartContinues(t: TarFile, fs: FileSystem, part: nat, from: nat)
    requires t.ReadyToRead(fs) && 0 < part < t.numParts && t.partHeaderSize > 0
    requires t.entries != [] && IsFile(t.entries[0]) && from <= t.entries[0].size < 8 * 1024 * 1024 * 1024
    requires from + t.entries[0].headerSize == t.partSize + (part - 1) * (t.partSize - 512)
    ensures t.partHeaderSize == 512 && t.entries[0].abspath in fs && t.PartContentSize(part) >= 512
    ensures Continued(t.PartBytes(fs, part), t.PartContentSize(part), t.entries[0].tarpath, fs[t.entries[0].abspath],
                      from)
  {
    hide *;
    var first := t.entries[0];
    FilesData(t, fs, 0);
    HeaderIs512(t, fs);
    Settled(t, fs, part);
    PartsStart(t.Geo(), part);
    ContinuationIs(t, fs, part, from);
    HeaderLeads(t, fs, part);
    TarHeaders.MultivolContinues(t.PartBytes(fs, part), first.tarpath, from, first.size - from);
    PartDataIs(t, fs, part, from);
    ContinuedIf(t.PartBytes(fs, part), t.PartContentSize(part), first.tarpath, fs[first.abspath], from);
  }

  /** A part of so much content says where a file goes on, and goes on with it. */
  ghost predicate Continued(part: seq<byte>, content: nat, tarpath: TarHeaders.Path, bytes: seq<byte>, from: nat) {
    && from <= |bytes| && content >= 512 && TarHeaders.Continues(part, tarpath, from, |bytes| - from)
    && var n := Min(|bytes| - from, content - 512);
       512 + n <= |part| && part[512..512 + n] == bytes[from..from + n]
  }

  lemma ContinuedIf(part: seq<byte>, content: nat, tarpath: TarHeaders.Path, bytes: seq<byte>, from: nat)
    requires from <= |bytes| && content >= 512 && TarHeaders.Continues(part, tarpath, from, |bytes| - from)
    requires var n := Min(|bytes| - from, content - 512);
      512 + n <= |part| && part[512..512 + n] == bytes[from..from + n]
    ensures Continued(part, content, tarpath, bytes, from)
  {
    hide TarHeaders.Continues;
  }

  /** So does every later part of a tar that holds one file, as tars of large files do. */
  lemma LoneFileContinues(t: TarFile, fs: FileSystem, part: nat) returns (from: nat)
    requires t.ReadyToRead(fs) && 0 < part < t.numParts && t.partHeaderSize > 0
    requires |t.entries| == 1 && IsFile(t.entries[0]) && t.entries[0].size < 8 * 1024 * 1024 * 1024
    ensures from + t.entries[0].headerSize == t.partSize + (part - 1) * (t.partSize - 512)
    ensures t.partHeaderSize == 512 && t.entries[0].abspath in fs && t.PartContentSize(part) >= 512
    ensures Continued(t.PartBytes(fs, part), t.PartContentSize(part), t.entries[0].tarpath, fs[t.entries[0].abspath],
                      from)
  {
    hide *;
    var first := t.entries[0];
    HeaderIs512(t, fs);
    Settled(t, fs, part);
    PartsStart(t.Geo(), part);
    StartsInTar(t.Geo(), t.contentSize, part);
    LoneFileSize(t, fs);
    StartsInEntry(t.contentSize, t.Geo().OriginOffset(part, 512), first.headerSize + first.size);
    FirstPartHasHeader(t, fs, part);
    from := t.partSize + (part - 1) * (t.partSize - 512) - first.headerSize;
    PartContinues(t, fs, part, from);
  }

  lemma FirstPartHasHeader(t: TarFile, fs: FileSystem, part: nat)
    requires t.ReadyToRead(fs) && 0 < part < t.numParts && t.partHeaderSize == 512 <= t.partSize
    ensures t.entries != [] && t.entries[0].headerSize <= t.partSize + (part - 1) * (t.partSize - 512)
  {
    hide TarFile.Valid, TarFile.Fixed, TarFile.Readable;
    MulMonotone(0, part - 1, t.partSize - 512);
  }

  lemma PartsStart(g: Splits.Geometry, part: nat)
    requires part > 0 && g.partHeaderSize == 512 <= g.partSize
    ensures g.OriginOffset(part, 512) == g.partSize + (part - 1) * (g.partSize - 512)
  {
  }

  lemma StartsInTar(g: Splits.Geometry, total: nat, part: nat)
    requires Parts.Cut(g, total) && 0 < part < g.numParts && g.partHeaderSize == 512 && g.partSize % 512 == 0
    ensures 512 <= g.partSize && g.OriginOffset(part, 512) < total && g.OriginOffset(part, 512) % 512 == 0
  {
    Parts.CutSizes(g, total);
    Splits.PartRange(g, total, part);
    Splits.OriginInside(g, total, part, 512);
    Parts.OriginAligned(g, part, 512);
  }

  lemma StartsInEntry(total: nat, start: nat, bytes: nat)
    requires total == bytes + Fill(bytes) && total % 512 == 0 && start % 512 == 0 && start < total
    ensures start <= bytes
  {
  }

  lemma LoneFileSize(t: TarFile, fs: FileSystem)
    requires t.ReadyToRead(fs) && |t.entries| == 1 && IsFile(t.entries[0])
    ensures var bytes := t.entries[0].headerSize + t.entries[0].size; t.contentSize == bytes + Fill(bytes)
  {
    hide Splits.Geometry.Covers, SumTo, TarEntry.Header, TarEntry.Unchanged, IsNewest, TimesOf;
    LoneSum(t.sizes);
    assert t.entries[0] in t.entries;
  }

  lemma LoneSum(sizes: seq<nat>)
    ensures |sizes| == 1 ==> SumTo(sizes, 1) == sizes[0]
  {
  }

  /** What the header of a later part is made from. */
  lemma ContinuationIs(t: TarFile, fs: FileSystem, part: nat, from: nat)
    requires t.ReadyToRead(fs) && 0 < part < t.numParts && t.partHeaderSize == 512 && t.entries != []
    requires t.Geo().partHeaderSize <= t.Geo().partSize && from <= t.entries[0].size < 8 * 1024 * 1024 * 1024
    requires from + t.entries[0].headerSize == t.Geo().OriginOffset(part, 512)
    ensures t.Continuation(fs, part)
         == TarHeaders.MultivolHeader(t.entries[0].tarpath, from, t.entries[0].size - from)
  {
    hide TarFile.Valid, TarFile.Readable, TarFile.Fixed, Splits.Geometry.OriginOffset, TarHeaders.MultivolHeader;
    AfterFirstPart(t.Geo(), part);
  }

  lemma HeaderLeads(t: TarFile, fs: FileSystem, part: nat)
    requires t.ReadyToRead(fs) && 0 < part < t.numParts && t.partHeaderSize == 512
    ensures 512 <= |t.PartBytes(fs, part)| && t.PartBytes(fs, part)[..512] == t.Continuation(fs, part)
  {
    hide *;
    HeaderIs512(t, fs);
    ContinuationBytes(t, fs, part, 0, 512);
    assert t.Continuation(fs, part)[0..512] == t.Continuation(fs, part);
  }

  lemma PartDataIs(t: TarFile, fs: FileSystem, part: nat, from: nat)
    requires t.ReadyToRead(fs) && 0 < part < t.numParts && t.partHeaderSize == 512 && t.entries != []
    requires IsFile(t.entries[0]) && t.Geo().partHeaderSize <= t.Geo().partSize && from <= t.entries[0].size
    requires from + t.entries[0].headerSize == t.Geo().OriginOffset(part, 512)
    ensures t.PartContentSize(part) >= 512 && t.entries[0].abspath in fs
    ensures |fs[t.entries[0].abspath]| == t.entries[0].size
    ensures
      var n := Min(t.entries[0].size - from, t.PartContentSize(part) - 512);
      512 + n <= |t.PartBytes(fs, part)| && from + n <= t.entries[0].size
      && t.PartBytes(fs, part)[512..512 + n] == fs[t.entries[0].abspath][from..from + n]
  {
    hide *;
    Settled(t, fs, part);
    FilesData(t, fs, 0);
    HeaderIs512(t, fs);
    EntryStartsTar(t, fs);
    var g, first := t.Geo(), t.entries[0];
    PartInTar(g, t.contentSize, part);
    var n := Min(first.size - from, t.PartContentSize(part) - 512);
    MinIs(first.size - from, t.PartContentSize(part) - 512);
    PartFileContent(t.Image(fs), g, part, t.Continuation(fs, part), t.DiskSize(part), 512, 512 + n);
    FileInTar(t, fs, 0, from, n);
  }

  lemma HeaderIs512(t: TarFile, fs: FileSystem)
    requires t.ReadyToRead(fs) && t.partHeaderSize > 0
    ensures t.partHeaderSize == 512 == t.Geo().partHeaderSize
    ensures forall part: nat :: 0 < part < t.numParts ==> t.Geo().HeaderOf(part) == 512
  {
    hide Splits.Geometry.Covers, TarFile.Valid, TarFile.Readable;
  }

  /** The first entry starts the tar. */
  lemma EntryStartsTar(t: TarFile, fs: FileSystem)
    requires t.ReadyToRead(fs) && t.entries != []
    ensures t.entries[0].tarOffset == 0
  {
    hide *;
    Ready(t, fs, 0);
    EntryStands(t, fs, 0);
    FirstOffset(t, fs);
  }

  lemma FirstOffset(t: TarFile, fs: FileSystem)
    requires t.Readable(fs)
    ensures Offset(ValuesOf(t.entries, fs), 0) == 0
  {
  }

  // ---------------------------------------------------------------- the index

  /** What the names of a tar's parts are made from, and the index keeps. The time is the tar's own. */
  function InfoOf(t: TarFile, hash: string): TarInfo
    requires t.mtim.sec >= 0
    reads t
  {
    TarInfo(t.tarContents, t.mtim.sec, t.mtim.nsec, hash, t.numParts, t.partSize, t.lastPartSize, t.ondiskPartSize,
      t.ondiskLastPartSize)
  }

  function PartsOf(t: TarFile): IndexEntries.Multi
    reads t
  {
    if t.numParts <= 1 then IndexEntries.Whole
    else
      var last := t.numParts - 1;
      IndexEntries.InParts(t.numParts, t.partHeaderSize, t.PartContentSize(0), t.PartContentSize(last), t.DiskSize(0),
                           t.DiskSize(last))
  }

  /** What the index says of a file in a tar: where its bytes are, besides what the scan knows of it. */
  function ListedOf(t: TarFile, e: TarEntry, scanned: IndexEntries.Listed, tarName: string): IndexEntries.Listed
    reads t, e
  {
    scanned.(size := e.size, link := IndexEntries.NoLink, isHardLink := false, tarName := tarName,
             offset := e.tarOffset + e.headerSize, parts := PartsOf(t))
  }

  /** The geometry that restore takes from the index. Of a tar in one piece it has none: what is there is left over. */
  function GeometryFrom(parts: IndexEntries.Multi, leftover: nat): Splits.Geometry {
    match parts
    case Whole => Splits.Geometry(1, 0, 0, leftover)
    case InParts(numParts, partOffset, partSize, lastPartSize, _, _) =>
      Splits.Geometry(numParts, partSize, lastPartSize, partOffset)
  }

  lemma GeometryIsKept(t: TarFile, leftover: nat)
    requires t.numParts > 0
    ensures GeometryFor(t, GeometryFrom(PartsOf(t), leftover))
  {
  }

  /** A path of the index, looked up below the location of the storage. */
  function InStorage(location: string, tarr: string): string {
    IndexEntries.LookupPath(if tarr != "" && tarr[0] == '/' then location + tarr else location + "/" + tarr)
  }

  /** Where the storage keeps a directory: below its location, under its safe path. */
  function SafeDir(location: string, safe: string): Dir {
    Dir(if safe == "" then location else location + "/" + safe)
  }

  /** The index file is in the directory of its tars, and leads back to them. */
  lemma TarIsFound(location: string, safe: string, t: TarFileName, date: DateText)
    requires location != "" && (safe == "" || safe[0] != '/')
    ensures
      var tarr := IndexEntries.TarFrom(IndexEntries.To(safe), FullName(t, date, NoDir));
      InStorage(location, tarr) == InStorage(location, IndexEntries.LookupPath(tarr))
        == FullName(t, date, SafeDir(location, safe))
  {
    hide *;
    var name, dir := FullName(t, date, NoDir), SafeDir(location, safe);
    NameEnds(t, date, NoDir);
    InDirectory(t, date, dir);
    SafeDirIs(location, safe);
    FoundBelow(location, safe, name);
  }

  lemma FoundBelow(location: string, safe: string, name: string)
    requires location != "" && (safe == "" || safe[0] != '/')
    requires name != "" && name[|name| - 1] != '/' && name[|name| - 1] != '\n'
    ensures
      var tarr := IndexEntries.TarFrom(IndexEntries.To(safe), name);
      InStorage(location, tarr) == InStorage(location, IndexEntries.LookupPath(tarr))
        == location + "/" + (if safe == "" then "" else safe + "/") + name
  {
    var dir := location + "/" + (if safe == "" then "" else safe + "/");
    LookupKeeps(safe + "/", name);
    LookupKeeps(dir, name);
    hide IndexEntries.LookupPath;
    if safe == "" {
      assert location + ("" + "/" + name) == dir + name;
    } else {
      assert location + "/" + (safe + "/" + name) == dir + name;
    }
  }

  lemma SafeDirIs(location: string, safe: string)
    requires location != ""
    ensures SafeDir(location, safe).Text() == location + "/" + if safe == "" then "" else safe + "/"
  {
    assert safe == "" || location + "/" + safe + "/" == location + "/" + (safe + "/");
  }

  lemma LookupKeeps(front: string, name: string)
    requires name != "" && name[|name| - 1] != '/' && name[|name| - 1] != '\n'
    ensures IndexEntries.LookupPath(front + name) == front + name
  {
    assert (front + name)[|front + name| - 1] == name[|name| - 1];
  }

  // ---------------------------------------------------------------- names

  /** The files the backup lists for a tar: parts that are not empty. */
  function NotEmpty(info: TarInfo, date: DateText, dir: Dir, n: nat): seq<string>
    requires n <= info.numParts
  {
    if n == 0 then []
    else
      var before := NotEmpty(info, date, dir, n - 1);
      if info.DiskSize(n - 1) > 0 then before + [FullName(info.NameOf(n - 1), date, dir)] else before
  }

  /** The names are printed in a buffer, behind the path of the directory. */
  method ListFiles(info: TarInfo, date: DateText, dir: Dir) returns (names: seq<string>)
    requires Fits(info, date, NoDir, 256)
    ensures names == NotEmpty(info, date, dir, info.numParts)
  {
    hide FullName, Dir.Text;
    names := [];
    for i := 0 to info.numParts
      invariant names == NotEmpty(info, date, dir, i)
    {
      InDirectory(info.NameOf(i), date, dir);
      if info.DiskSize(i) > 0 {
        names := names + [dir.Text() + Written(info.NameOf(i), date, NoDir, 256)];
      }
    }
  }

  lemma InDirectory(t: TarFileName, date: DateText, dir: Dir)
    ensures FullName(t, date, dir) == dir.Text() + FullName(t, date, NoDir)
  {
  }

  lemma {:induction false} AllAreListed(info: TarInfo, date: DateText, dir: Dir, n: nat)
    requires n <= info.numParts && forall part: nat :: part < n ==> info.DiskSize(part) > 0
    ensures NotEmpty(info, date, dir, n) == Stored(info, date, dir)[..n]
  {
    hide FullName;
    if n > 0 {
      AllAreListed(info, date, dir, n - 1);
    }
  }

  /** A tar with something in it has no empty part. */
  lemma NoEmptyParts(t: TarFile, fs: FileSystem, part: nat)
    requires t.ReadyToRead(fs) && t.entries != [] && part < t.numParts
    ensures t.DiskSize(part) > 0
  {
    hide *;
    Settled(t, fs, part);
    NotNothing(t);
    SizesAreReal(t, fs);
    CutSizes(t.Geo(), t.contentSize);
    if t.numParts > 1 {
      Splits.PartRange(t.Geo(), t.contentSize, part);
    }
  }

  lemma SizesAreReal(t: TarFile, fs: FileSystem)
    requires t.ReadyToRead(fs)
    ensures t.contentSize == t.currentTarOffset && (t.numParts == 1 ==> t.PartContentSize(0) == t.contentSize)
  {
    Settled(t, fs, 0);
    EntriesKnow(t, fs);
  }

  lemma NotNothing(t: TarFile)
    requires t.Valid() && t.entries != []
    ensures t.currentTarOffset > 0
  {
    assert t.offsets[0] == 0;
    SumMonotone(t.sizes, 1, |t.sizes|);
    assert SumTo(t.sizes, 1) == t.sizes[0];
  }

  /** The parts can be named and read back: the hash has at most 256 bits, and names of parts fit their buffer. */
  ghost predicate NamesWork(info: TarInfo, date: DateText, dir: Dir) {
    && info.Valid() && AreDates(date) && |info.hash| <= 64
    && (info.numParts > 1 ==> Fits(info, date, dir, 4096))
  }

  /** Tars that can be read have such names, unless parts are too many or too large, or the directory is too deep. */
  lemma TarsCanBeNamed(t: TarFile, fs: FileSystem, hash: string, date: DateText, dir: Dir)
    requires t.ReadyToRead(fs) && t.numParts < 0x1000_0000 && AreDates(date)
    requires Texts.HexDigitsOnly(hash) && |hash| <= 64 && |dir.Text()| <= 3896
    requires forall part :: 0 <= part < t.numParts ==> t.DiskSize(part) <= Texts.LONG_MAX
    ensures t.mtim.sec >= 0 && t.mtim.nsec % 1000 == 0
    ensures InfoFor(t, InfoOf(t, hash)) && NamesWork(InfoOf(t, hash), date, dir)
    ensures forall part :: 0 <= part < t.numParts ==>
      var parsed := ParseFileName(FullName(InfoOf(t, hash).NameOf(part), date, dir));
      && parsed.Parsed? && parsed.dir == dir.Text() && parsed.name.headerHash == hash
      && SaysOf(t, parsed.name, part, date)
  {
    TimeIsKept(t, fs);
    hide TarFile.ReadyToRead;
    Settled(t, fs, 0);
    Settled(t, fs, t.numParts - 1);
    hide *;
    InfoIsValid(t, hash);
    ShortNamesFit(InfoOf(t, hash), date, dir);
    NamesWorkIf(InfoOf(t, hash), date, dir);
    forall part | 0 <= part < t.numParts
      ensures var parsed := ParseFileName(FullName(InfoOf(t, hash).NameOf(part), date, dir));
        && parsed.Parsed? && parsed.dir == dir.Text() && parsed.name.headerHash == hash
        && SaysOf(t, parsed.name, part, date)
    {
      NameSays(t, InfoOf(t, hash), date, dir, part);
    }
  }

  /** What a name says is so: the tar's kind and time, which part it is of how many, and its sizes. */
  ghost predicate SaysOf(t: TarFile, name: TarFileName, part: nat, date: DateText)
    requires part < t.numParts
    reads t
  {
    && name.kind == t.tarContents && name.sec == t.mtim.sec && name.nsec == t.mtim.nsec
    && name.partNr == part && name.numParts == t.numParts
    && name.size == t.PartContentSize(part) && name.ondiskSize == t.DiskSize(part)
    && (name.oldStyle <==> date(name.sec) == "")
  }

  lemma NameSays(t: TarFile, info: TarInfo, date: DateText, dir: Dir, part: nat)
    requires InfoFor(t, info) && info.Valid() && AreDates(date) && part < t.numParts && t.mtim.nsec % 1000 == 0
    ensures var parsed := ParseFileName(FullName(info.NameOf(part), date, dir));
      && parsed.Parsed? && parsed.dir == dir.Text() && parsed.name.headerHash == info.hash
      && SaysOf(t, parsed.name, part, date)
  {
    ValidNames(info, part);
    hide *;
    ParseOfFullName(info.NameOf(part), date, dir);
    RereadSays(t, info, date, part);
  }

  lemma RereadSays(t: TarFile, info: TarInfo, date: DateText, part: nat)
    requires InfoFor(t, info) && info.Valid() && part < t.numParts && t.mtim.nsec % 1000 == 0
    requires info.NameOf(part).Valid()
    ensures var name := Reread(info.NameOf(part), date); name.headerHash == info.hash && SaysOf(t, name, part, date)
  {
    hide Texts.HexDigitsOnly;
  }

  lemma TimeIsKept(t: TarFile, fs: FileSystem)
    requires t.ReadyToRead(fs)
    ensures t.mtim.sec >= 0 && t.mtim.nsec % 1000 == 0 && t.numParts > 0
  {
    hide Laid, SumTo;
    NewestIsWhole(t.mtim, TimesOf(t.entries));
  }

  lemma InfoIsValid(t: TarFile, hash: string)
    requires t.mtim.sec >= 0 && Texts.HexDigitsOnly(hash) && 0 < t.numParts < 0x1000_0000
    requires t.PartContentSize(0) <= Texts.LONG_MAX && t.PartContentSize(t.numParts - 1) <= Texts.LONG_MAX
    requires t.DiskSize(0) <= Texts.LONG_MAX && t.DiskSize(t.numParts - 1) <= Texts.LONG_MAX
    ensures InfoFor(t, InfoOf(t, hash)) && InfoOf(t, hash).Valid() && InfoOf(t, hash).hash == hash
  {
  }

  lemma ShortNamesFit(info: TarInfo, date: DateText, dir: Dir)
    requires info.Valid() && AreDates(date) && |info.hash| <= 64
    ensures Fits(info, date, NoDir, 256) && (|dir.Text()| <= 3896 ==> Fits(info, date, dir, 4096))
  {
    hide FileName;
    forall part: nat | part < info.numParts
      ensures |FullName(info.NameOf(part), date, NoDir)| < 200
      ensures |FullName(info.NameOf(part), date, dir)| < |dir.Text()| + 200
    {
      ValidNames(info, part);
      NameIsShort(info.NameOf(part), date);
    }
  }

  lemma NamesWorkIf(info: TarInfo, date: DateText, dir: Dir)
    requires info.Valid() && AreDates(date) && |info.hash| <= 64 && Fits(info, date, dir, 4096)
    ensures NamesWork(info, date, dir)
  {
    hide Fits;
  }

  /** The names restore reads from: the tar's file, or the names of its parts, made from that name and the index. */
  method NamesToRead(parts: IndexEntries.Multi, tarFile: string, date: DateText, ghost info: TarInfo, ghost dir: Dir)
    returns (names: seq<string>)
    requires NamesWork(info, date, dir) && tarFile == FullName(info.NameOf(0), date, dir) && SizesKept(info, parts)
    ensures names == Stored(info, date, dir)
  {
    hide FullName, TarFileName.Valid, Dir.Text, ParseFileName, RestoredName;
    match parts
    case Whole =>
      names := [tarFile];
    case InParts(numParts, _, partSize, lastPartSize, diskSize, lastDiskSize) =>
      RestoreLooksUpStored(info, date, dir, 0);
      names := [];
      for i := 0 to numParts
        invariant names == Stored(info, date, dir)[..i]
      {
        RestoreLooksUpStored(info, date, dir, i);
        var last := i + 1 == numParts;
        names := names + [RestoredName(tarFile, numParts, if last then lastPartSize else partSize,
                                       if last then lastDiskSize else diskSize, date, i)];
      }
  }

  /** The index has the sizes that names are made from. */
  ghost predicate SizesKept(info: TarInfo, parts: IndexEntries.Multi) {
    match parts
    case Whole => info.numParts == 1
    case InParts(numParts, _, partSize, lastPartSize, diskSize, lastDiskSize) =>
      && info.numParts == numParts > 1
      && forall part :: 0 <= part < numParts ==>
           && info.PartContentSize(part) == (if part + 1 == numParts then lastPartSize else partSize)
           && info.DiskSize(part) == (if part + 1 == numParts then lastDiskSize else diskSize)
  }

  lemma SizesAreKept(t: TarFile, hash: string)
    requires t.numParts > 0 && t.mtim.sec >= 0
    ensures SizesKept(InfoOf(t, hash), PartsOf(t))
  {
  }

  lemma NamesDiffer(info: TarInfo, date: DateText, dir: Dir)
    requires NamesWork(info, date, dir)
    ensures forall i, j :: 0 <= i < j < info.numParts ==> Stored(info, date, dir)[i] != Stored(info, date, dir)[j]
    ensures info.numParts > 0 && |Stored(info, date, dir)| == info.numParts
    ensures Stored(info, date, dir)[0] == FullName(info.NameOf(0), date, dir)
  {
    hide FullName;
    forall i, j | 0 <= i < j < info.numParts
      ensures Stored(info, date, dir)[i] != Stored(info, date, dir)[j]
    {
      if FullName(info.NameOf(i), date, dir) == FullName(info.NameOf(j), date, dir) {
        PartsHaveTheirOwnNames(info, date, dir, i, j);
      }
    }
  }

  // ---------------------------------------------------------------- end to end

  /** Stores a tar under its names. */
  method Backup(t: TarFile, fs: FileSystem, info: TarInfo, date: DateText, dir: Dir, bufferSize: nat, writes: seq<nat>,
                before: Storage)
    returns (storage: Storage)
    requires t.ReadyToRead(fs) && t.entries != [] && NamesWork(info, date, dir) && InfoFor(t, info)
    requires bufferSize > 0
    requires forall part: nat :: part < t.numParts ==> StoresWell(t, fs, part, bufferSize, writes, 0, 0)
    ensures HasParts(t, fs, Stored(info, date, dir), storage) && AddsTo(before, Stored(info, date, dir), storage)
    ensures |Stored(info, date, dir)| == t.numParts && forall part :: 0 <= part < t.numParts ==>
      var parsed := ParseFileName(Stored(info, date, dir)[part]);
      parsed.Parsed? && parsed.dir == dir.Text() && SaysOf(t, parsed.name, part, date)
  {
    hide *;
    NamesDiffer(info, date, dir);
    InfoForIs(t, info);
    forall part: nat | part < info.numParts
      ensures info.DiskSize(part) > 0
    {
      NoEmptyParts(t, fs, part);
    }
    AllAreListed(info, date, dir, info.numParts);
    NamesFit(info, date, dir);
    var names := ListFiles(info, date, dir);
    assert Stored(info, date, dir)[..info.numParts] == Stored(info, date, dir);
    storage := StoreTar(t, fs, names, bufferSize, writes, before);
    IsAdded(before, names, storage);
    StoredSay(t, fs, info, date, dir);
  }

  /** The names that are stored say what is so of the tar. */
  lemma StoredSay(t: TarFile, fs: FileSystem, info: TarInfo, date: DateText, dir: Dir)
    requires t.ReadyToRead(fs) && InfoFor(t, info) && NamesWork(info, date, dir)
    ensures |Stored(info, date, dir)| == t.numParts && forall part :: 0 <= part < t.numParts ==>
      var parsed := ParseFileName(Stored(info, date, dir)[part]);
      parsed.Parsed? && parsed.dir == dir.Text() && SaysOf(t, parsed.name, part, date)
  {
    TimeIsKept(t, fs);
    InfoForIs(t, info);
    hide TarFile.ReadyToRead, FullName, ParseFileName, SaysOf, Dir.Text;
    forall part | 0 <= part < t.numParts
      ensures var parsed := ParseFileName(Stored(info, date, dir)[part]);
        parsed.Parsed? && parsed.dir == dir.Text() && SaysOf(t, parsed.name, part, date)
    {
      NameSays(t, info, date, dir, part);
    }
  }

  ghost predicate InfoFor(t: TarFile, info: TarInfo)
    reads t
  {
    t.mtim.sec >= 0 && info == InfoOf(t, info.hash)
  }

  lemma InfoForIs(t: TarFile, info: TarInfo)
    requires InfoFor(t, info)
    ensures info.numParts == t.numParts
    ensures forall part :: 0 <= part < t.numParts ==> info.DiskSize(part) == t.DiskSize(part)
  {
  }

  lemma NamesFit(info: TarInfo, date: DateText, dir: Dir)
    requires NamesWork(info, date, dir)
    ensures Fits(info, date, NoDir, 256)
  {
    ShortNamesFit(info, date, dir);
  }

  /**
   Restores a file by its line in the index, from the storage that its tar was stored in. The line can be read
   unless the file's path is too long for it; then the file is the one that was backed up.
   */
  method RestoreByIndex(t: TarFile, fs: FileSystem, k: nat, e: TarEntry, index: string, at: nat, front: string,
                        rest: string, scanned: IndexEntries.Listed, info: TarInfo, date: DateText, location: string,
                        safe: string, prepend: IndexEntries.LinkText, leftover: nat, storage: Storage,
                        bufferSize: nat)
    returns (readable: bool, file: seq<byte>)
    requires t.ReadyToRead(fs) && k < |t.entries| && e == t.entries[k] && IsFile(e) && InfoFor(t, info)
    requires NamesWork(info, date, SafeDir(location, safe)) && location != "" && (safe == "" || safe[0] != '/')
    requires HasParts(t, fs, Stored(info, date, SafeDir(location, safe)), storage)
    requires var line := ListedOf(t, e, scanned, Written(info.NameOf(0), date, NoDir, 256));
      && line.Valid() && line.mode.kind == Permissions.Regular
      && index == front + IndexEntries.CookEntry(line) + rest && at == |front|
    requires bufferSize > 0
    ensures readable <==> |scanned.path| <= 1024
    ensures readable ==> e.abspath in fs && file == fs[e.abspath]
  {
    hide *;
    ghost var line := ListedOf(t, e, scanned, Written(info.NameOf(0), date, NoDir, 256));
    ghost var dir := SafeDir(location, safe);
    LineIs(t, e, scanned, info, date, dir);
    IndexEntries.FileLineIsRead(front, line, rest, prepend, IndexEntries.To(safe));
    var eaten := IndexEntries.EatEntry(index, at, prepend, IndexEntries.To(safe));
    readable, file := eaten.Entry?, [];
    if readable {
      TarIsFound(location, safe, info.NameOf(0), date);
      var tarFile := InStorage(location, IndexEntries.LookupPath(eaten.entry.tarr));
      var entry := RestoreEntry(eaten.entry.offset, GeometryFrom(eaten.entry.parts, leftover));
      HavingParts(t, fs, Stored(info, date, dir), storage);
      InfoForAgain(t, info);
      SizesAreKept(t, info.hash);
      var names := NamesToRead(eaten.entry.parts, tarFile, date, info, dir);
      GeometryIsKept(t, leftover);
      FilesData(t, fs, k);
      StoredIsRestorable(t, fs, names, storage, entry.geo);
      WholeIsGapless(entry.geo, storage, names, |t.Image(fs)|);
      FileInTar(t, fs, k, 0, e.size);
      var ok;
      ok, file := ExtractFile(entry, eaten.entry.size.n, bufferSize, storage, names, t.Image(fs));
      WholeFile(t.Image(fs), entry.offset, e.size, fs[e.abspath], file, ok);
    }
  }

  /**
   A file is backed up in its tar, in one piece or in parts, listed in the index, and restored from the storage
   by its line in the index: whatever the sizes of parts and buffers, it is the file that was there.
   */
  method BackupAndRestore(t: TarFile, fs: FileSystem, k: nat, e: TarEntry, scanned: IndexEntries.Listed, info: TarInfo,
                          date: DateText, location: string, safe: string, front: string, rest: string,
                          prepend: IndexEntries.LinkText, leftover: nat, storeBuffer: nat, writes: seq<nat>,
                          before: Storage, restoreBuffer: nat)
    returns (readable: bool, file: seq<byte>)
    requires t.ReadyToRead(fs) && k < |t.entries| && e == t.entries[k] && IsFile(e) && InfoFor(t, info)
    requires NamesWork(info, date, SafeDir(location, safe)) && location != "" && (safe == "" || safe[0] != '/')
    requires var line := ListedOf(t, e, scanned, Written(info.NameOf(0), date, NoDir, 256));
      line.Valid() && line.mode.kind == Permissions.Regular
    requires storeBuffer > 0
    requires forall part: nat :: part < t.numParts ==> StoresWell(t, fs, part, storeBuffer, writes, 0, 0)
    requires restoreBuffer > 0
    ensures readable <==> |scanned.path| <= 1024
    ensures readable ==> e.abspath in fs && file == fs[e.abspath]
  {
    hide *;
    var line := ListedOf(t, e, scanned, Written(info.NameOf(0), date, NoDir, 256));
    var storage := Backup(t, fs, info, date, SafeDir(location, safe), storeBuffer, writes, before);
    var index := front + IndexEntries.CookEntry(line) + rest;
    readable, file := RestoreByIndex(t, fs, k, e, index, |front|, front, rest, scanned, info, date, location, safe,
                                     prepend, leftover, storage, restoreBuffer);
  }

  lemma WholeFile(image: seq<byte>, at: nat, size: nat, whole: seq<byte>, file: seq<byte>, ok: bool)
    requires |whole| == size && at + size <= |image| && image[at..at + size] == whole[0..size]
    requires file <= image[at..at + size] && (ok ==> |file| == size)
    requires ok || |file| == size
    ensures file == whole
  {
  }

  lemma InfoForAgain(t: TarFile, info: TarInfo)
    requires InfoFor(t, info)
    ensures t.mtim.sec >= 0 && info == InfoOf(t, info.hash)
  {
  }

  lemma LineIs(t: TarFile, e: TarEntry, scanned: IndexEntries.Listed, info: TarInfo, date: DateText, dir: Dir)
    requires NamesWork(info, date, dir)
    ensures Written(info.NameOf(0), date, NoDir, 256) == FullName(info.NameOf(0), date, NoDir)
    ensures var name := Written(info.NameOf(0), date, NoDir, 256); var line := ListedOf(t, e, scanned, name);
      && line.size == e.size && line.offset == e.tarOffset + e.headerSize && line.parts == PartsOf(t)
      && line.path == scanned.path && line.tarName == name && !line.isHardLink
  {
    ShortNamesFit(info, date, dir);
    hide FullName;
  }
}
