/** Tar files: laying entries out, cutting a large tar in parts, and producing the bytes of a part on demand. */
module TarFiles {
  import opened Blocks
  import opened Layout
  import opened Parts
  import opened Splits
  import opened TarEntries
  import opened TarHeaders
  import opened TarKinds

  datatype PaddingStyle = NoPadding | Relative | Absolute

  /** Up to the next multiple of 1K, 10K, 100K or 1M, by size. */
  function RoundToThousandMultiple(from: nat): (to: nat)
    ensures from <= to
  {
    if from > 1_000_000 then RoundUp(from, 1_000_000)
    else if from > 100_000 then RoundUp(from, 100_000)
    else if from > 10_000 then RoundUp(from, 10_000)
    else RoundUp(from, 1000)
  }

  function RoundUp(n: nat, m: nat): (r: nat)
    requires m > 0
    ensures n <= r
  {
    if n % m == 0 then n else n + (m - n % m)
  }

  /** The size of a file on disk for some bytes of content: never smaller, and zero only for none. */
  function OnDiskSize(from: nat, kind: TarContents, padding: PaddingStyle, targetSize: nat): (to: nat)
    ensures from <= to && (from == 0 ==> to == 0)
  {
    if from == 0 then 0
    else if padding == NoPadding then from
    else if padding == Absolute && kind != INDEX_FILE && from <= targetSize then targetSize
    else RoundToThousandMultiple(from)
  }

  /** What each style of padding gives. Sizes are rounded up to units that grow with them. */
  lemma OnDiskSizeIs(from: nat, kind: TarContents, padding: PaddingStyle, targetSize: nat)
    ensures
      var to := OnDiskSize(from, kind, padding, targetSize);
      var unit := if from <= 10_000 then 1000 else if from <= 100_000 then 10_000
                  else if from <= 1_000_000 then 100_000 else 1_000_000;
      var absolute := padding == Absolute && kind != INDEX_FILE && from <= targetSize;
      && (from == 0 || padding == NoPadding ==> to == from)
      && (from > 0 && absolute ==> to == targetSize)
      && (from > 0 && padding != NoPadding && !absolute ==> to % unit == 0 && from <= to < from + unit)
  {
    RoundUpIs(from, 1000);
    RoundUpIs(from, 10_000);
    RoundUpIs(from, 100_000);
    RoundUpIs(from, 1_000_000);
    hide RoundUp;
  }

  lemma RoundUpIs(n: nat, m: nat)
    requires m > 0
    ensures RoundUp(n, m) % m == 0 && n <= RoundUp(n, m) < n + m
  {
    var q, r := DivMod(n, m);
    if r != 0 {
      MulStep(q, q + 1, m);
      DivIs(RoundUp(n, m), m, q + 1, 0);
    }
  }

  class TarFile {
    var tarContents: TarContents
    var contents: map<nat, TarEntry>
    var hardLinks: seq<TarEntry>
    var offsets: seq<nat>
    var currentTarOffset: nat
    /** The newest time of the entries, at least the epoch; parts are named after it. */
    var mtim: Time

    var contentSize: nat
    var numParts: nat
    var partSize: nat
    var lastPartSize: nat
    var partHeaderSize: nat
    var ondiskPartSize: nat
    var ondiskLastPartSize: nat

    /** The entries in the order they stand in the tar, and their sizes. */
    ghost var entries: seq<TarEntry>
    ghost var sizes: seq<nat>

    /** The entries tile [0, currentTarOffset), every entry knows its own offset, and the tar is as new as they are. */
    ghost predicate Valid()
      reads `contents, `hardLinks, `offsets, `currentTarOffset, `mtim, `entries, `sizes
      reads entries`blockedSize, entries`tarOffset, hardLinks`blockedSize
    {
      && Laid(offsets, contents, entries, sizes)
      && currentTarOffset == SumTo(sizes, |sizes|)
      && (forall i :: 0 <= i < |entries| ==> entries[i].blockedSize == sizes[i] && entries[i].tarOffset == offsets[i])
      && Distinct(entries) && Distinct(hardLinks) && (forall e :: e in entries ==> e !in hardLinks)
      && (forall e :: e in hardLinks ==> e.blockedSize > 0)
      && IsNewest(mtim, TimesOf(entries))
    }

    constructor (kind: TarContents)
      ensures Valid() && entries == [] && hardLinks == [] && tarContents == kind && contentSize == 0 && numParts == 1
    {
      tarContents, mtim := kind, EPOCH;
      contents, hardLinks, offsets, currentTarOffset := map[], [], [], 0;
      contentSize, numParts, partSize, lastPartSize, partHeaderSize := 0, 1, 0, 0, 0;
      ondiskPartSize, ondiskLastPartSize := 0, 0;
      entries, sizes := [], [];
    }

    method AddHardLink(e: TarEntry)
      requires Valid() && e !in entries && e !in hardLinks && e.blockedSize > 0
      modifies `hardLinks
      ensures Valid() && hardLinks == old(hardLinks) + [e]
    {
      DistinctLast(hardLinks, e);
      hardLinks := hardLinks + [e];
    }

    method AddEntryLast(e: TarEntry)
      requires Valid() && e !in entries && e !in hardLinks && e.blockedSize > 0
      modifies `contents, `offsets, `currentTarOffset, `mtim, `entries, `sizes, e`tarOffset
      ensures Valid() && entries == old(entries) + [e]
    {
      hide Laid, IsNewest, TimesOf, Later;
      OneMoreTime(entries, e);
      LaterIsNewest(mtim, e.mtim, TimesOf(entries));
      mtim := e.UpdateMtim(mtim);
      LaidLast(offsets, contents, entries, sizes, e, e.blockedSize);
      DistinctLast(entries, e);
      e.tarOffset := currentTarOffset;
      contents := contents[currentTarOffset := e];
      offsets := offsets + [currentTarOffset];
      currentTarOffset := currentTarOffset + e.blockedSize;
      entries, sizes := entries + [e], sizes + [e.blockedSize];
    }

    method AddEntryFirst(e: TarEntry)
      requires Valid() && e !in entries && e !in hardLinks && e.blockedSize > 0
      modifies `contents, `offsets, `currentTarOffset, `mtim, `entries, `sizes, e`tarOffset, entries`tarOffset
      ensures Valid() && entries == [e] + old(entries)
    {
      hide Laid, IsNewest, TimesOf, Later;
      OneMoreTime(entries, e);
      LaterIsNewest(mtim, e.mtim, TimesOf(entries));
      mtim := e.UpdateMtim(mtim);
      e.tarOffset := 0;
      LaidNothing();
      LaidAlone(e, e.blockedSize);
      DistinctAppend([e], entries);
      AppendShifted(map[0 := e], [0], e.blockedSize, [e], [e.blockedSize]);
      currentTarOffset := currentTarOffset + e.blockedSize;
    }

    /** Moves the pending hard links, in order, in front of everything else. */
    method PrependHardLinks()
      requires Valid()
      modifies this, hardLinks`tarOffset, entries`tarOffset
      ensures Valid() && entries == old(hardLinks + entries) && hardLinks == [] && tarContents == old(tarContents)
    {
      hide Laid, SumTo, IsNewest, TimesOf, Later;
      var prepended, fronts := SumHardLinks();
      MoreTimes(hardLinks, entries);
      var newc, newo := LayOutHardLinks(fronts);
      ghost var front := hardLinks;
      DistinctAppend(front, entries);
      hide Distinct;
      hardLinks := [];
      AppendShifted(newc, newo, prepended, front, fronts);
      currentTarOffset := currentTarOffset + prepended;
    }

    method SumHardLinks() returns (prepended: nat, ghost fronts: seq<nat>)
      ensures |fronts| == |hardLinks| && prepended == SumTo(fronts, |fronts|)
      ensures forall j :: 0 <= j < |fronts| ==> fronts[j] == hardLinks[j].blockedSize
    {
      prepended, fronts := 0, [];
      for i := 0 to |hardLinks|
        invariant |fronts| == i && prepended == SumTo(fronts, i)
        invariant forall j :: 0 <= j < i ==> fronts[j] == hardLinks[j].blockedSize
      {
        SumOneMore(fronts, hardLinks[i].blockedSize);
        fronts := fronts + [hardLinks[i].blockedSize];
        prepended := prepended + hardLinks[i].blockedSize;
      }
    }

    /** Lays the pending hard links out from offset zero. They count for the tar's time from now on. */
    method LayOutHardLinks(ghost fronts: seq<nat>) returns (newc: map<nat, TarEntry>, newo: seq<nat>)
      requires Distinct(hardLinks) && |fronts| == |hardLinks|
      requires forall i :: 0 <= i < |fronts| ==> fronts[i] == hardLinks[i].blockedSize > 0
      requires IsNewest(mtim, TimesOf(entries))
      modifies `mtim, hardLinks`tarOffset
      ensures IsNewest(mtim, TimesOf(hardLinks) + TimesOf(entries))
      ensures Laid(newo, newc, hardLinks, fronts) && |newo| == |hardLinks|
      ensures forall j :: 0 <= j < |newo| ==> hardLinks[j].tarOffset == newo[j]
    {
      hide Laid, SumTo, IsNewest, TimesOf, Later;
      var offset: nat := 0;
      NoTimes(TimesOf(entries));
      newc, newo := map[], [];
      LaidNothing();
      assert hardLinks[..0] == [] && fronts[..0] == [];
      for i := 0 to |hardLinks|
        invariant IsNewest(mtim, TimesOf(hardLinks[..i]) + TimesOf(entries))
        invariant Laid(newo, newc, hardLinks[..i], fronts[..i]) && offset == SumTo(fronts[..i], i) && |newo| == i
        invariant forall j :: 0 <= j < i ==> hardLinks[j].tarOffset == newo[j]
      {
        var te := hardLinks[i];
        LaidLast(newo, newc, hardLinks[..i], fronts[..i], te, te.blockedSize);
        OneMoreTime(hardLinks[..i], te);
        LaterIsNewest(mtim, te.mtim, TimesOf(hardLinks[..i]) + TimesOf(entries));
        mtim := te.UpdateMtim(mtim);
        assert TimesOf(hardLinks[..i]) + {te.mtim} + TimesOf(entries)
            == TimesOf(hardLinks[..i]) + TimesOf(entries) + {te.mtim};
        te.tarOffset := offset;
        newc := newc[offset := te];
        newo := newo + [offset];
        offset := offset + te.blockedSize;
        assert hardLinks[..i + 1] == hardLinks[..i] + [te] && fronts[..i + 1] == fronts[..i] + [te.blockedSize];
      }
      assert hardLinks[..|hardLinks|] == hardLinks && fronts[..|hardLinks|] == fronts;
    }

    /** The entries laid out so far go behind a front already laid out, each one moved up by the front's size. */
    method AppendShifted(frontContents: map<nat, TarEntry>, frontOffsets: seq<nat>, shift: nat,
                         ghost front: seq<TarEntry>, ghost frontSizes: seq<nat>)
      requires Laid(offsets, contents, entries, sizes) && Laid(frontOffsets, frontContents, front, frontSizes)
      requires shift == SumTo(frontSizes, |frontSizes|) && currentTarOffset == SumTo(sizes, |sizes|)
      requires Distinct(front + entries) && |front| == |frontOffsets| == |frontSizes|
      requires forall i :: 0 <= i < |entries| ==> entries[i].blockedSize == sizes[i]
      requires forall i :: 0 <= i < |front| ==>
        front[i].tarOffset == frontOffsets[i] && front[i].blockedSize == frontSizes[i]
      modifies `contents, `offsets, `entries, `sizes, entries`tarOffset
      ensures entries == front + old(entries) && sizes == frontSizes + old(sizes)
      ensures Laid(offsets, contents, entries, sizes) && currentTarOffset + shift == SumTo(sizes, |sizes|)
      ensures |entries| == |offsets|
      ensures forall i :: 0 <= i < |entries| ==>
        entries[i].tarOffset == offsets[i] && entries[i].blockedSize == sizes[i]
    {
      hide Laid, SumTo;
      LaidLengths(offsets, contents, entries, sizes);
      var newc: map<nat, TarEntry>, newo: seq<nat> := frontContents, frontOffsets;
      assert front + entries[..0] == front && frontSizes + sizes[..0] == frontSizes;
      for i := 0 to |offsets|
        modifies entries`tarOffset
        invariant Laid(newo, newc, front + entries[..i], frontSizes + sizes[..i]) && |newo| == |front| + i
        invariant forall j :: 0 <= j < |newo| ==> (front + entries)[j].tarOffset == newo[j]
      {
        LaidAt(offsets, contents, entries, sizes, i);
        SumBehind(frontSizes, sizes, i);
        var o := offsets[i] + shift;
        var te := contents[offsets[i]];
        LaidLast(newo, newc, front + entries[..i], frontSizes + sizes[..i], te, te.blockedSize);
        assert front + entries[..i] + [te] == front + entries[..i + 1];
        assert frontSizes + sizes[..i] + [te.blockedSize] == frontSizes + sizes[..i + 1];
        assert te == (front + entries)[|front| + i];
        newc := newc[o := te];
        newo := newo + [o];
        te.tarOffset := o;
      }
      SumBehind(frontSizes, sizes, |sizes|);
      assert entries[..|entries|] == entries && sizes[..|sizes|] == sizes;
      contents, offsets := newc, newo;
      entries, sizes := front + entries, frontSizes + sizes;
    }

    // -------------------------------------------------------------- sizes of parts

    function Geo(): Geometry
      reads this
    {
      Geometry(numParts, partSize, if numParts == 1 then partSize else lastPartSize, partHeaderSize)
    }

    function PartContentSize(part: nat): nat
      requires part < numParts
      reads this
    {
      if numParts == 1 then partSize
      else if part < numParts - 1 then partSize
      else lastPartSize
    }

    function DiskSize(part: nat): nat
      requires part < numParts
      reads this
    {
      if numParts == 1 then ondiskPartSize
      else if part < numParts - 1 then ondiskPartSize
      else ondiskLastPartSize
    }

    /** The sizes of the tar and its parts are settled. */
    ghost predicate Fixed()
      reads this
    {
      && contentSize == currentTarOffset && Cut(Geo(), contentSize)
      && numParts < UINT_LIMIT && contentSize < SIZE_LIMIT && (partHeaderSize == 0 || partHeaderSize == 512)
      && forall part :: 0 <= part < numParts ==> Geo().PartLength(part) <= DiskSize(part)
    }

    /** A tar of one large file that exceeds the split size is cut in parts; every other tar stays whole. */
    method FixSize(splitSize: nat, ths: TarHeaderStyle, pad: PaddingStyle, targetSize: nat)
      requires MultivolHeaderSize(ths) < splitSize && currentTarOffset < SIZE_LIMIT
      modifies `contentSize, `numParts, `partSize, `lastPartSize, `partHeaderSize, `ondiskPartSize,
        `ondiskLastPartSize, `tarContents
      ensures contentSize == currentTarOffset
      ensures currentTarOffset <= splitSize || old(tarContents) != SINGLE_LARGE_FILE_TAR ==>
        && Fixed() && numParts == 1 && tarContents == old(tarContents)
        && DiskSize(0) == OnDiskSize(contentSize, tarContents, pad, targetSize)
      ensures currentTarOffset > splitSize && old(tarContents) == SINGLE_LARGE_FILE_TAR ==>
        && partSize == splitSize && partHeaderSize == MultivolHeaderSize(ths)
        && (Fixed() && numParts > 1 <==> CeilDiv(contentSize - partHeaderSize, splitSize - partHeaderSize) < UINT_LIMIT)
        && (Fixed() ==>
              && tarContents == SPLIT_LARGE_FILE_TAR
              && forall part :: 0 <= part < numParts ==>
                   DiskSize(part) == OnDiskSize(PartContentSize(part), tarContents, pad, targetSize))
    {
      contentSize := currentTarOffset;
      if contentSize <= splitSize || tarContents != SINGLE_LARGE_FILE_TAR {
        numParts := 1;
        partSize := contentSize;
        partHeaderSize := 0;
        ondiskPartSize := OnDiskSize(partSize, tarContents, pad, targetSize);
        return;
      }
      numParts, partSize, lastPartSize, partHeaderSize := SplitParts(contentSize, splitSize, ths);
      if numParts > 1 {
        tarContents := SPLIT_LARGE_FILE_TAR;
      }
      ondiskPartSize := OnDiskSize(partSize, tarContents, pad, targetSize);
      ondiskLastPartSize := OnDiskSize(lastPartSize, tarContents, pad, targetSize);
    }

    // -------------------------------------------------------------- finding an entry

    /** The entry that covers an offset, its own offset, and which entry it is. */
    method FindTarEntry(offset: nat) returns (te: TarEntry?, o: nat, ghost k: nat)
      requires Valid() && contentSize == currentTarOffset && entries != []
      ensures offset > contentSize ==> te == null
      ensures offset < contentSize ==>
        k < |entries| && te == entries[k] && o == offsets[k] <= offset < o + te.blockedSize
    {
      hide Laid, SumTo;
      k := 0;
      LaidLengths(offsets, contents, entries, sizes);
      if offset > contentSize {
        return null, 0, 0;
      }
      LaidSorted(offsets, contents, entries, sizes);
      var i := UpperBound(offsets, offset);
      if i == |offsets| {
        o := offsets[|offsets| - 1];
      } else {
        LaidFirst(offsets, contents, entries, sizes);
        i := i - 1;
        o := offsets[i];
      }
      k := if i == |offsets| then |offsets| - 1 else i;
      LaidAt(offsets, contents, entries, sizes, k);
      LaidNext(offsets, contents, entries, sizes, k);
      te := contents[o];
    }

    // -------------------------------------------------------------- reading

    /** Every entry's file is there, unchanged since the scan. */
    ghost predicate Readable(fs: FileSystem)
      reads this, entries
    {
      forall e :: e in entries ==> e.Valid() && e.Unchanged(fs)
    }

    /** The whole tar, byte for byte. */
    ghost function Image(fs: FileSystem): seq<byte>
      requires Readable(fs)
      reads this, entries
    {
      TarImage(ValuesOf(entries, fs))
    }

    /** What the virtual reads rely on: sizes settled, files unchanged, parts cut on block boundaries. */
    ghost predicate ReadyToRead(fs: FileSystem)
      reads this, entries, hardLinks
    {
      && Valid() && Fixed() && Readable(fs)
      && (numParts > 1 ==> entries != [] && entries[0].headerSize < partSize && partSize % 512 == 0)
    }

    /** The header a part starts with, and the file offset it carries on from. */
    ghost function Continuation(fs: FileSystem, part: nat): (h: seq<byte>)
      requires ReadyToRead(fs) && part < numParts
      reads this, entries, hardLinks
      ensures |h| == Geo().HeaderOf(part)
    {
      if part == 0 || partHeaderSize == 0 then []
      else
        var first := entries[0];
        AfterFirstPart(Geo(), part);
        var fileOffset := Geo().OriginOffset(part, partHeaderSize) - first.headerSize;
        MultivolHeader(first.tarpath, fileOffset, ToSize(first.size - fileOffset))
    }

    /** A part's file on disk. */
    ghost function PartBytes(fs: FileSystem, part: nat): (f: seq<byte>)
      requires ReadyToRead(fs) && part < numParts
      reads this, entries, hardLinks
      ensures |f| == DiskSize(part)
    {
      ImageLength(this, fs);
      PartFile(Image(fs), Geo(), part, Continuation(fs, part), DiskSize(part))
    }

    /**
     A read of a part from some position on starts out right: on a block boundary, outside of the part's
     share of the tar, or in an entry that can be read from there as far as the read goes.
     */
    ghost predicate FaithfulAt(fs: FileSystem, part: nat, from: nat, size: nat)
      requires ReadyToRead(fs) && part < numParts
      reads this, entries, hardLinks
    {
      || from % 512 == 0 || from < Geo().HeaderOf(part) || Geo().PartLength(part) <= from
      || (Geo().partHeaderSize <= Geo().partSize && FaithfulIn(ValuesOf(entries, fs), Geo(), part, from, size))
    }

    /**
     Reads up to size bytes of a part. Whatever the size, the bytes are the part file's own, and there are as
     many as the file has left, if the read starts out right; see UnfaithfulTurn for reads that do not.
     */
    method ReadVirtualTar(buf: array<byte>, pos: nat, size: nat, offset: int, fs: FileSystem, part: nat)
      returns (copied: nat)
      requires ReadyToRead(fs) && part < numParts && pos + size <= buf.Length
      requires 0 <= offset < DiskSize(part) && size > 0 ==> FaithfulAt(fs, part, offset, size)
      modifies buf
      ensures copied == if offset < 0 || offset >= DiskSize(part) then 0 else Min(size, DiskSize(part) - offset)
      ensures copied > 0 ==> offset + copied <= DiskSize(part)
      ensures buf[..] == Splice(old(buf[..]), pos,
                                if copied == 0 then [] else PartBytes(fs, part)[offset..offset + copied])
    {
      hide *;
      ghost var was := buf[..];
      copied := 0;
      SpliceNothing(was, pos);
      var disksize := DiskSize(part);
      if offset < 0 || offset >= disksize {
        return;
      }
      MinIs(size, disksize - offset);
      ghost var file := PartBytes(fs, part);
      assert file[offset..offset] == [];
      var from: nat, bufsize: nat := offset, size;
      while bufsize > 0
        invariant from == offset + copied <= disksize && bufsize == size - copied
        invariant bufsize == 0 || from == disksize || FaithfulAt(fs, part, from, bufsize)
        invariant buf[..] == Splice(was, pos, file[offset..from])
      {
        if from >= disksize {
          break;
        }
        var len := ReadTurn(buf, pos + copied, bufsize, from, fs, part, file);
        SpliceTwice(was, pos, file[offset..from], file[from..from + len]);
        SliceJoins(file, offset, from, from + len);
        bufsize, copied, from := bufsize - len, copied + len, from + len;
        if from % 512 == 0 {
          AlignedIsFaithful(this, fs, part, from, bufsize);
        }
      }
    }

    /** One turn of the loop: bytes of the multivolume header, of one entry, or of the padding. */
    method ReadTurn(buf: array<byte>, at: nat, bufsize: nat, from: nat, fs: FileSystem, part: nat,
                    ghost file: seq<byte>)
      returns (len: nat)
      requires ReadyToRead(fs) && part < numParts && from < DiskSize(part) && FaithfulAt(fs, part, from, bufsize)
      requires bufsize > 0 && at + bufsize <= buf.Length && file == PartBytes(fs, part)
      modifies buf
      ensures 0 < len <= bufsize && from + len <= |file|
      ensures len == bufsize || from + len == |file| || (from + len) % 512 == 0
      ensures buf[..] == Splice(old(buf[..]), at, file[from..from + len])
    {
      hide *;
      Settled(this, fs, part);
      PartsAligned(Geo(), contentSize, part);
      var partsize := PartContentSize(part);
      var disksize := DiskSize(part);
      if part > 0 && from < partHeaderSize {
        var bytes := MultivolBytes(bufsize, from, fs, part, file);
        CopyInto(buf, at, bytes);
        len := |bytes|;
      } else if from < partsize {
        MinIs(bufsize, partsize - from);
        FaithfulCut(this, fs, part, from, bufsize, Min(bufsize, partsize - from));
        len := CopyContent(buf, at, Min(bufsize, partsize - from), from, fs, part, file);
      } else {
        len := Min(disksize - from, bufsize);
        MinIs(disksize - from, bufsize);
        CopyInto(buf, at, Zeros(len));
        PaddingBytes(this, fs, part, from, len);
      }
    }

    /** The bytes of a read that lie in the part's multivolume header. */
    method MultivolBytes(bufsize: nat, from: nat, fs: FileSystem, part: nat, ghost file: seq<byte>)
      returns (bytes: seq<byte>)
      requires from < partHeaderSize && bufsize > 0 && ReadyToRead(fs) && 0 < part < numParts
      requires file == PartBytes(fs, part)
      ensures 0 < |bytes| <= bufsize && (|bytes| == bufsize || from + |bytes| == partHeaderSize)
      ensures from + |bytes| <= |file| && bytes == file[from..from + |bytes|]
    {
      hide *;
      var len := Min(partHeaderSize - from, bufsize);
      MinIs(partHeaderSize - from, bufsize);
      Settled(this, fs, part);
      ContinuationBytes(this, fs, part, from, len);
      var th := BuildContinuation(fs, part);
      BytesOf(th);
      bytes := th.buf[from..from + len];
    }

    method BuildContinuation(fs: FileSystem, part: nat) returns (th: TarHeader)
      requires ReadyToRead(fs) && 0 < part < numParts && partHeaderSize > 0
      ensures fresh(th) && fresh(th.buf) && th.Valid() && th.Bytes() == Continuation(fs, part)
    {
      hide Readable, Laid, SumTo, Geometry.Covers, Checksummed, Put, StrN, OctalField, ChecksumVerifies, DiskSize;
      LaidLengths(offsets, contents, entries, sizes);
      LaidAt(offsets, contents, entries, sizes, 0);
      var te := contents[offsets[0]];
      AfterFirstPart(Geo(), part);
      var fileOffset := Geo().OriginOffset(part, partHeaderSize) - te.headerSize;
      th := new TarHeader();
      th.SetMultivolType(te.tarpath, fileOffset);
      th.SetSize(ToSize(te.size - fileOffset));
      th.CalculateChecksum();
    }

    /** The bytes of a read that lie in one entry of the tar. */
    method CopyContent(buf: array<byte>, at: nat, n: nat, from: nat, fs: FileSystem, part: nat, ghost file: seq<byte>)
      returns (len: nat)
      requires ReadyToRead(fs) && part < numParts && at + n <= buf.Length && n > 0
      requires Geo().HeaderOf(part) <= from && from + n <= PartContentSize(part) && FaithfulAt(fs, part, from, n)
      requires file == PartBytes(fs, part)
      modifies buf
      ensures 0 < len <= n && (len == n || (from + len) % 512 == 0) && from + len <= |file|
      ensures buf[..] == Splice(old(buf[..]), at, file[from..from + len])
    {
      hide *;
      EntriesKnow(this, fs);
      Settled(this, fs, part);
      OriginOfContent(this, fs, part, from);
      var originFrom := Geo().OriginOffset(part, from);
      var te, o, k := FindTarEntry(originFrom);
      FaithfulEntry(this, fs, part, from, n, k, originFrom - o);
      EntryContent(this, fs, part, from, n, k, te, originFrom - o, file);
      len := te.Copy(buf, at, n, originFrom - o, fs);
    }
  }

  lemma BytesOf(th: TarHeader)
    requires th.Valid()
    ensures th.buf[..] == th.Bytes()
  {
  }

  /** Every entry knows where it stands, and its file is there. */
  lemma EntriesKnow(t: TarFile, fs: FileSystem)
    requires t.ReadyToRead(fs)
    ensures t.Valid() && t.contentSize == t.currentTarOffset && |t.offsets| == |t.entries|
    ensures forall k :: 0 <= k < |t.entries| ==>
      t.entries[k].tarOffset == t.offsets[k] && t.entries[k].Valid() && t.entries[k].Unchanged(fs)
  {
    LaidSizes(t);
    hide Laid, SumTo, TarEntry.Valid, TarEntry.Unchanged, Geometry.Covers;
  }

  /** A tar ready to be read, as plain values: its image, its cut, and the file each part becomes. */
  lemma Settled(t: TarFile, fs: FileSystem, part: nat)
    requires t.ReadyToRead(fs) && part < t.numParts
    ensures t.Valid() && t.Fixed() && t.Readable(fs) && t.partHeaderSize <= t.partSize
    ensures t.numParts == 1 ==> t.PartContentSize(0) == t.contentSize
    ensures
      var image, g := t.Image(fs), t.Geo();
      && |image| == t.contentSize && |image| % 512 == 0
      && Cut(g, |image|) && g.numParts == t.numParts && g.partHeaderSize == t.partHeaderSize && g.partSize == t.partSize
      && (g.numParts > 1 ==> g.partSize % 512 == 0) && g.partHeaderSize % 512 == 0
      && g.PartLength(part) == t.PartContentSize(part) <= t.DiskSize(part)
      && |t.Continuation(fs, part)| == g.HeaderOf(part)
      && t.PartBytes(fs, part) == PartFile(image, g, part, t.Continuation(fs, part), t.DiskSize(part))
      && g.HeaderOf(part) == if part == 0 then 0 else t.partHeaderSize
  {
    hide *;
    ReadyIs(t, fs);
    SettledImage(t, fs);
    CutSizes(t.Geo(), t.contentSize);
    SettledPart(t, fs, part);
  }

  lemma ReadyIs(t: TarFile, fs: FileSystem)
    requires t.ReadyToRead(fs)
    ensures t.Valid() && t.Fixed() && t.Readable(fs) && t.contentSize == t.currentTarOffset
    ensures Cut(t.Geo(), t.contentSize)
    ensures var g := t.Geo();
      && g.numParts == t.numParts && g.partHeaderSize == t.partHeaderSize && g.partSize == t.partSize
      && (g.numParts > 1 ==> g.partSize % 512 == 0) && g.partHeaderSize % 512 == 0
  {
    hide TarFile.Valid, TarFile.Readable, Cut;
  }

  lemma SettledImage(t: TarFile, fs: FileSystem)
    requires t.Valid() && t.Readable(fs)
    ensures |t.Image(fs)| == t.currentTarOffset && |t.Image(fs)| % 512 == 0
  {
    hide TarImage, TarFile.Valid;
    ImageLength(t, fs);
    TarImageLength(ValuesOf(t.entries, fs));
    OffsetAligned(ValuesOf(t.entries, fs), |t.entries|);
  }

  lemma SettledPart(t: TarFile, fs: FileSystem, part: nat)
    requires t.ReadyToRead(fs) && part < t.numParts && Cut(t.Geo(), |t.Image(fs)|)
    requires t.numParts == 1 ==> Unsplit(t.Geo(), t.contentSize)
    ensures t.numParts == 1 ==> t.PartContentSize(0) == t.contentSize
    ensures
      var image, g := t.Image(fs), t.Geo();
      && g.PartLength(part) == t.PartContentSize(part) <= t.DiskSize(part)
      && t.PartBytes(fs, part) == PartFile(image, g, part, t.Continuation(fs, part), t.DiskSize(part))
      && g.HeaderOf(part) == if part == 0 then 0 else t.partHeaderSize
  {
    hide TarFile.Image, TarFile.Valid, TarFile.Readable, TarFile.Continuation, PartFile, Cut;
  }

  lemma PaddingBytes(t: TarFile, fs: FileSystem, part: nat, from: nat, len: nat)
    requires t.ReadyToRead(fs) && part < t.numParts
    requires t.PartContentSize(part) <= from && from + len <= t.DiskSize(part)
    ensures t.PartBytes(fs, part)[from..from + len] == Zeros(len)
  {
    hide *;
    Settled(t, fs, part);
    PartFilePadding(t.Image(fs), t.Geo(), part, t.Continuation(fs, part), t.DiskSize(part), from, from + len);
  }

  lemma ContinuationBytes(t: TarFile, fs: FileSystem, part: nat, from: nat, len: nat)
    requires t.ReadyToRead(fs) && part < t.numParts && from + len <= t.Geo().HeaderOf(part)
    ensures from + len <= t.DiskSize(part) && from + len <= |t.Continuation(fs, part)|
    ensures t.PartBytes(fs, part)[from..from + len] == t.Continuation(fs, part)[from..from + len]
  {
    hide *;
    Settled(t, fs, part);
    PartFileHeader(t.Image(fs), t.Geo(), part, t.Continuation(fs, part), t.DiskSize(part), from, from + len);
  }

  lemma OriginOfContent(t: TarFile, fs: FileSystem, part: nat, from: nat)
    requires t.ReadyToRead(fs) && part < t.numParts
    requires t.Geo().HeaderOf(part) <= from < t.PartContentSize(part)
    ensures t.Geo().partHeaderSize <= t.Geo().partSize
    ensures t.Geo().OriginOffset(part, from) < t.contentSize && t.entries != []
    ensures from % 512 == 0 ==> t.Geo().OriginOffset(part, from) % 512 == 0
  {
    hide TarFile.ReadyToRead, TarFile.Image, TarFile.PartBytes, TarFile.Continuation, TarFile.Geo,
      TarFile.PartContentSize, TarFile.DiskSize, Geometry.OriginOffset, Geometry.Covers, PartFile;
    Settled(t, fs, part);
    CutSizes(t.Geo(), t.contentSize);
    SomeEntries(t);
    if t.numParts > 1 {
      OriginInside(t.Geo(), t.contentSize, part, from);
    } else {
      FirstPartOrigin(t.Geo(), from);
    }
    if from % 512 == 0 {
      OriginAligned(t.Geo(), part, from);
    }
  }

  lemma SomeEntries(t: TarFile)
    requires t.Valid()
    ensures t.currentTarOffset > 0 ==> t.entries != []
  {
  }

  lemma FirstPartOrigin(g: Geometry, offset: nat)
    requires g.partHeaderSize <= g.partSize
    ensures g.OriginOffset(0, offset) == offset
  {
  }

  lemma AlignedIsFaithful(t: TarFile, fs: FileSystem, part: nat, from: nat, size: nat)
    requires t.ReadyToRead(fs) && part < t.numParts && (from % 512 == 0 || from < t.Geo().HeaderOf(part))
    ensures t.FaithfulAt(fs, part, from, size)
  {
    hide TarFile.ReadyToRead;
  }

  /** What lies beyond the part does not matter. */
  lemma FaithfulCut(t: TarFile, fs: FileSystem, part: nat, from: nat, size: nat, n: nat)
    requires t.ReadyToRead(fs) && part < t.numParts && t.FaithfulAt(fs, part, from, size)
    requires from < t.Geo().PartLength(part) && n == Min(size, t.Geo().PartLength(part) - from)
    ensures t.FaithfulAt(fs, part, from, n)
  {
    hide *;
    if from % 512 == 0 || from < t.Geo().HeaderOf(part) {
      AlignedIsFaithful(t, fs, part, from, n);
    } else {
      EntriesKnow(t, fs);
      FaithfulIs(t, fs, part, from, size);
      FaithfulInCut(ValuesOf(t.entries, fs), t.Geo(), part, from, size);
      MinIs(size, t.Geo().PartLength(part) - from);
      FaithfulFrom(t, fs, part, from, n);
    }
  }

  lemma FaithfulFrom(t: TarFile, fs: FileSystem, part: nat, from: nat, n: nat)
    requires t.ReadyToRead(fs) && part < t.numParts && (forall e :: e in t.entries ==> e.Unchanged(fs))
    requires t.Geo().HeaderOf(part) <= from < t.Geo().PartLength(part) && t.Geo().partHeaderSize <= t.Geo().partSize
    requires FaithfulIn(ValuesOf(t.entries, fs), t.Geo(), part, from, n)
    ensures t.FaithfulAt(fs, part, from, n)
  {
    hide TarFile.ReadyToRead, TarFile.Geo, FaithfulIn, Geometry.HeaderOf, Geometry.PartLength;
  }

  lemma FaithfulEntry(t: TarFile, fs: FileSystem, part: nat, from: nat, n: nat, k: nat, d: nat)
    requires t.ReadyToRead(fs) && part < t.numParts && t.FaithfulAt(fs, part, from, n) && k < |t.entries|
    requires t.Geo().HeaderOf(part) <= from && from + n <= t.PartContentSize(part) && n > 0
    requires t.Geo().partHeaderSize <= t.Geo().partSize
    requires t.Geo().OriginOffset(part, from) == t.entries[k].tarOffset + d && d < t.entries[k].blockedSize
    ensures t.entries[k].Unchanged(fs) && Faithful(t.entries[k].Value(fs), n, d)
  {
    hide *;
    EntriesKnow(t, fs);
    ImageIs(t, fs);
    Settled(t, fs, part);
    EntryStands(t, fs, k);
    MinIs(n, t.Geo().PartLength(part) - from);
    if from % 512 == 0 {
      OriginOfContent(t, fs, part, from);
      AddAligned(t.Geo().OriginOffset(part, from), t.entries[k].tarOffset);
      AlignedRead(t.entries[k].Value(fs), n, d);
    } else {
      FaithfulIs(t, fs, part, from, n);
      FaithfulInIs(ValuesOf(t.entries, fs), t.Geo(), part, from, n, k);
    }
  }

  lemma AlignedRead(e: Entry, n: nat, d: nat)
    requires d % 512 == 0
    ensures Faithful(e, n, d)
  {
  }

  lemma FaithfulIs(t: TarFile, fs: FileSystem, part: nat, from: nat, n: nat)
    requires t.ReadyToRead(fs) && part < t.numParts && t.FaithfulAt(fs, part, from, n)
    requires t.Geo().HeaderOf(part) <= from < t.Geo().PartLength(part) && from % 512 != 0
    requires forall e :: e in t.entries ==> e.Unchanged(fs)
    ensures t.Geo().partHeaderSize <= t.Geo().partSize && FaithfulIn(ValuesOf(t.entries, fs), t.Geo(), part, from, n)
  {
    hide TarFile.ReadyToRead, TarFile.Geo, FaithfulIn;
  }

  lemma FaithfulInIs(es: seq<Entry>, g: Geometry, part: nat, from: nat, n: nat, k: nat)
    requires g.partHeaderSize <= g.partSize && g.HeaderOf(part) <= from < g.PartLength(part)
    requires FaithfulIn(es, g, part, from, n) && k < |es| && Min(n, g.PartLength(part) - from) == n
    requires Offset(es, k) <= g.OriginOffset(part, from) < Offset(es, k) + es[k].BlockedSize()
    ensures Faithful(es[k], n, g.OriginOffset(part, from) - Offset(es, k))
  {
    hide Faithful, Offset, Entry.BlockedSize, Geometry.OriginOffset;
  }

  /** One read of the entry that covers a position of a part delivers the part's own bytes. */
  lemma EntryContent(t: TarFile, fs: FileSystem, part: nat, from: nat, n: nat, k: nat, e: TarEntry, d: nat,
                     file: seq<byte>)
    requires k < |t.entries| && e == t.entries[k] && e.Unchanged(fs) && n > 0 && Faithful(e.Value(fs), n, d)
    requires t.ReadyToRead(fs) && part < t.numParts && file == t.PartBytes(fs, part)
    requires t.Geo().HeaderOf(part) <= from && from + n <= t.PartContentSize(part)
    requires t.Geo().partHeaderSize <= t.Geo().partSize
    requires t.Geo().OriginOffset(part, from) == e.tarOffset + d && d < e.blockedSize
    ensures
      var got := CopyBytes(e.Value(fs), n, d);
      && (e.isVirtual ==> d <= |e.content|)
      && 0 < |got| <= n && (|got| == n || (from + |got|) % 512 == 0) && from + |got| <= |file|
      && got == file[from..from + |got|]
  {
    hide *;
    TurnInPart(t, fs, part, from, n, k, e, d, file);
    ContentAligned(t, fs, part, from, k, e, d);
    ReadEndsOnBlock(e, fs, n, d, from);
    MinIs(n, e.blockedSize - d);
    PieceLength(file, from, Min(n, e.blockedSize - d));
  }

  /** A part keeps the distances of the tar to block boundaries. */
  lemma ContentAligned(t: TarFile, fs: FileSystem, part: nat, from: nat, k: nat, e: TarEntry, d: nat)
    requires k < |t.entries| && e == t.entries[k] && t.ReadyToRead(fs) && part < t.numParts
    requires t.Geo().HeaderOf(part) <= from && t.Geo().partHeaderSize <= t.Geo().partSize
    requires t.Geo().OriginOffset(part, from) == e.tarOffset + d
    ensures e.Valid() && (from - d) % 512 == 0
  {
    hide *;
    EntriesKnow(t, fs);
    EntryStands(t, fs, k);
    Settled(t, fs, part);
    OriginKeepsRest(t.Geo(), part, from);
    AddAligned(e.tarOffset, e.tarOffset + d - from);
  }

  lemma PieceLength(file: seq<byte>, from: nat, m: nat)
    requires from + m <= |file|
    ensures |file[from..from + m]| == m
  {
  }

  /** A turn in an entry delivers the part's own bytes up to the entry's end, exactly if it is faithful. */
  lemma TurnInPart(t: TarFile, fs: FileSystem, part: nat, from: nat, n: nat, k: nat, e: TarEntry, d: nat,
                   file: seq<byte>)
    requires k < |t.entries| && e == t.entries[k] && e.Unchanged(fs) && n > 0
    requires t.ReadyToRead(fs) && part < t.numParts && file == t.PartBytes(fs, part)
    requires t.Geo().HeaderOf(part) <= from && from + n <= t.PartContentSize(part)
    requires t.Geo().partHeaderSize <= t.Geo().partSize
    requires t.Geo().OriginOffset(part, from) == e.tarOffset + d && d < e.blockedSize
    ensures t.Valid() && t.Readable(fs)
    ensures
      var got, m := CopyBytes(e.Value(fs), n, d), Min(n, e.blockedSize - d);
      0 < m && from + m <= |file| && (got == file[from..from + m] <==> Faithful(e.Value(fs), n, d))
  {
    hide *;
    ImageIs(t, fs);
    Settled(t, fs, part);
    EntryStands(t, fs, k);
    MinIs(n, e.blockedSize - d);
    ReadInPart(ValuesOf(t.entries, fs), t.Geo(), part, t.Continuation(fs, part), t.DiskSize(part), from, n, k, d);
  }

  /** A read that does not start out right gets other bytes than the part's from the entry it starts in, or none. */
  lemma UnfaithfulTurn(t: TarFile, fs: FileSystem, part: nat, from: nat, size: nat, file: seq<byte>)
    returns (k: nat, d: nat, n: nat)
    requires t.ReadyToRead(fs) && part < t.numParts && file == t.PartBytes(fs, part) && size > 0
    requires !t.FaithfulAt(fs, part, from, size)
    ensures k < |t.entries| && t.entries[k].Unchanged(fs) && d < t.entries[k].blockedSize
    ensures t.Geo().HeaderOf(part) <= from < t.Geo().PartLength(part) && t.Geo().partHeaderSize <= t.Geo().partSize
    ensures t.Geo().OriginOffset(part, from) == t.entries[k].tarOffset + d
    ensures n == Min(size, t.Geo().PartLength(part) - from)
    ensures
      var m := Min(n, t.entries[k].blockedSize - d);
      0 < m && from + m <= |file| && CopyBytes(t.entries[k].Value(fs), n, d) != file[from..from + m]
  {
    hide *;
    EntriesKnow(t, fs);
    ImageIs(t, fs);
    Settled(t, fs, part);
    NotFaithful(t, fs, part, from, size);
    var values, g := ValuesOf(t.entries, fs), t.Geo();
    k := UnfaithfulEntry(values, g, part, from, size);
    EntryStands(t, fs, k);
    d, n := g.OriginOffset(part, from) - Offset(values, k), Min(size, g.PartLength(part) - from);
    MinIs(size, g.PartLength(part) - from);
    TurnInPart(t, fs, part, from, n, k, t.entries[k], d, file);
  }

  lemma NotFaithful(t: TarFile, fs: FileSystem, part: nat, from: nat, size: nat)
    requires t.ReadyToRead(fs) && part < t.numParts && !t.FaithfulAt(fs, part, from, size)
    requires (forall e :: e in t.entries ==> e.Unchanged(fs)) && t.Geo().partHeaderSize <= t.Geo().partSize
    ensures t.Geo().HeaderOf(part) <= from < t.Geo().PartLength(part)
    ensures !FaithfulIn(ValuesOf(t.entries, fs), t.Geo(), part, from, size)
  {
    hide TarFile.ReadyToRead, TarFile.Geo, FaithfulIn;
  }

  lemma UnfaithfulEntry(es: seq<Entry>, g: Geometry, part: nat, from: nat, size: nat) returns (k: nat)
    requires g.partHeaderSize <= g.partSize && g.HeaderOf(part) <= from < g.PartLength(part)
    requires !FaithfulIn(es, g, part, from, size)
    ensures k < |es| && Offset(es, k) <= g.OriginOffset(part, from) < Offset(es, k) + es[k].BlockedSize()
    ensures !Faithful(es[k], Min(size, g.PartLength(part) - from), g.OriginOffset(part, from) - Offset(es, k))
  {
    hide Faithful, Offset, Entry.BlockedSize, Geometry.OriginOffset;
    k :| 0 <= k < |es| && Offset(es, k) <= g.OriginOffset(part, from) < Offset(es, k) + es[k].BlockedSize()
      && !Faithful(es[k], Min(size, g.PartLength(part) - from), g.OriginOffset(part, from) - Offset(es, k));
  }

  lemma ImageIs(t: TarFile, fs: FileSystem)
    requires t.ReadyToRead(fs)
    ensures t.Readable(fs) && (forall e :: e in t.entries ==> e.Valid() && e.Unchanged(fs))
    ensures t.Image(fs) == TarImage(ValuesOf(t.entries, fs))
  {
  }

  /** A read that gets less than it asked for stops at the entry's end, on a block boundary. */
  lemma ReadEndsOnBlock(e: TarEntry, fs: FileSystem, n: nat, d: nat, from: nat)
    requires e.Valid() && e.Unchanged(fs) && d < e.blockedSize && (from - d) % 512 == 0
    requires n > 0 && Faithful(e.Value(fs), n, d)
    ensures e.isVirtual ==> d <= |e.content|
    ensures (from + e.blockedSize - d) % 512 == 0
  {
    hide HeaderBytes, Fill;
    AddAligned(from - d, e.blockedSize);
    if e.isVirtual {
      if d % 512 == 0 {
        LastBlock(|e.content|, d);
      }
    }
  }

  lemma LastBlock(n: nat, d: nat)
    requires d < n + Fill(n) && d % 512 == 0
    ensures d <= n
  {
  }

  /** Where entry k stands, and that its cached size is the size of its bytes. */
  lemma EntryStands(t: TarFile, fs: FileSystem, k: nat)
    requires t.Valid() && t.Readable(fs) && k < |t.entries|
    ensures var values := ValuesOf(t.entries, fs); var e := t.entries[k];
      && values[k] == e.Value(fs) && values[k].BlockedSize() == e.blockedSize
      && |values[k].header| == e.headerSize
      && Offset(values, k) == e.tarOffset && e.tarOffset % 512 == 0
  {
    var values := ValuesOf(t.entries, fs);
    ValueAt(t.entries, fs, k);
    t.entries[k].ValueSizes(fs);
    LaidSizes(t);
    LaidAt(t.offsets, t.contents, t.entries, t.sizes, k);
    OffsetAligned(values, k);
    forall i | 0 <= i < |values| ensures t.sizes[i] == values[i].BlockedSize() {
      ValueAt(t.entries, fs, i);
      t.entries[i].ValueSizes(fs);
    }
    SumIsOffset(t.sizes, values, k);
  }

  ghost function ValuesOf(es: seq<TarEntry>, fs: FileSystem): (values: seq<Entry>)
    requires forall e :: e in es ==> e.Unchanged(fs)
    reads es
    ensures |values| == |es|
  {
    if es == [] then [] else [es[0].Value(fs)] + ValuesOf(es[1..], fs)
  }

  lemma {:induction false} ValueAt(es: seq<TarEntry>, fs: FileSystem, i: nat)
    requires (forall e :: e in es ==> e.Unchanged(fs)) && i < |es|
    ensures ValuesOf(es, fs)[i] == es[i].Value(fs)
  {
    hide TarEntry.Value, TarEntry.Unchanged;
    if i > 0 {
      ValueAt(es[1..], fs, i - 1);
    }
  }

  lemma ImageLength(t: TarFile, fs: FileSystem)
    requires t.Valid() && t.Readable(fs)
    ensures |t.Image(fs)| == t.currentTarOffset
  {
    hide Laid, SumTo, TarFile.Valid, TarEntry.Value, TarEntry.Valid, Entry.BlockedSize, Entry.Image;
    var values := ValuesOf(t.entries, fs);
    LaidSizes(t);
    forall i | 0 <= i < |values| ensures t.sizes[i] == values[i].BlockedSize() {
      ValueAt(t.entries, fs, i);
      t.entries[i].ValueSizes(fs);
    }
    TarImageLength(values);
    SumIsOffset(t.sizes, values, |t.sizes|);
  }

  lemma LaidSizes(t: TarFile)
    requires t.Valid()
    ensures |t.sizes| == |t.entries| == |t.offsets| && t.currentTarOffset == SumTo(t.sizes, |t.sizes|)
    ensures forall i :: 0 <= i < |t.sizes| ==> t.sizes[i] == t.entries[i].blockedSize
  {
  }

  lemma AfterFirstPart(g: Geometry, part: nat)
    requires g.partHeaderSize <= g.partSize && part > 0
    ensures g.OriginOffset(part, g.partHeaderSize) >= g.partSize
  {
    MulMonotone(0, part - 1, g.partSize - g.partHeaderSize);
  }

  /** std::lower_bound with less_equal: the first position whose value is greater. */
  method UpperBound(s: seq<nat>, x: nat) returns (i: nat)
    requires forall j, k :: 0 <= j < k < |s| ==> s[j] < s[k]
    ensures i <= |s|
    ensures forall j :: 0 <= j < i ==> s[j] <= x
    ensures forall j :: i <= j < |s| ==> x < s[j]
  {
    i := 0;
    var count: nat := |s|;
    while count > 0
      invariant i + count <= |s|
      invariant forall j :: 0 <= j < i ==> s[j] <= x
      invariant forall j :: i + count <= j < |s| ==> x < s[j]
    {
      var step := count / 2;
      if s[i + step] <= x {
        i, count := i + step + 1, count - step - 1;
      } else {
        count := step;
      }
    }
  }

  /** Offsets are sorted and gapless, and the map holds exactly them. */
  ghost predicate Laid(offsets: seq<nat>, contents: map<nat, TarEntry>, entries: seq<TarEntry>, sizes: seq<nat>) {
    && |offsets| == |entries| == |sizes|
    && (forall i {:trigger offsets[i]} :: 0 <= i < |offsets| ==>
          && sizes[i] > 0
          && offsets[i] == SumTo(sizes, i)
          && offsets[i] in contents && contents[offsets[i]] == entries[i])
    && (forall o :: o in contents ==> o in offsets)
  }

  lemma LaidLast(offsets: seq<nat>, contents: map<nat, TarEntry>, entries: seq<TarEntry>, sizes: seq<nat>,
                 e: TarEntry, size: nat)
    requires Laid(offsets, contents, entries, sizes) && size > 0
    ensures var end := SumTo(sizes, |sizes|);
      && |offsets| == |entries| == |sizes|
      && Laid(offsets + [end], contents[end := e], entries + [e], sizes + [size])
      && SumTo(sizes + [size], |sizes + [size]|) == end + size
  {
    hide *;
    var end := SumTo(sizes, |sizes|);
    LaidLengths(offsets, contents, entries, sizes);
    SumOneMore(sizes, size);
    SumOfAppend(sizes, [size], |sizes|);
    forall i | 0 <= i < |sizes|
      ensures SumTo(sizes + [size], i) == offsets[i] < end && offsets[i] in contents
      ensures contents[offsets[i]] == entries[i]
    {
      SumOfAppend(sizes, [size], i);
      LaidAt(offsets, contents, entries, sizes, i);
      LaidNext(offsets, contents, entries, sizes, i);
      SumMonotone(sizes, i + 1, |sizes|);
    }
    LaidWith(offsets, contents, entries, sizes, e, size, end);
  }

  lemma LaidWith(offsets: seq<nat>, contents: map<nat, TarEntry>, entries: seq<TarEntry>, sizes: seq<nat>,
                 e: TarEntry, size: nat, end: nat)
    requires Laid(offsets, contents, entries, sizes) && size > 0 && SumTo(sizes + [size], |sizes|) == end
    requires |offsets| == |sizes| && forall i :: 0 <= i < |sizes| ==>
      SumTo(sizes + [size], i) == offsets[i] < end && offsets[i] in contents && contents[offsets[i]] == entries[i]
    ensures Laid(offsets + [end], contents[end := e], entries + [e], sizes + [size])
  {
    hide SumTo;
    var newo, newc, es, ss := offsets + [end], contents[end := e], entries + [e], sizes + [size];
    forall i | 0 <= i < |newo|
      ensures ss[i] > 0 && newo[i] == SumTo(ss, i) && newo[i] in newc && newc[newo[i]] == es[i]
    {
      if i < |sizes| {
        assert newo[i] == offsets[i] && ss[i] == sizes[i];
      }
    }
    forall o | o in newc
      ensures o in newo
    {
      assert newo[|offsets|] == end;
      assert o != end ==> o in offsets;
    }
  }

  lemma LaidNothing()
    ensures Laid([], map[], [], []) && SumTo([], 0) == 0
  {
  }

  lemma LaidAlone(e: TarEntry, size: nat)
    requires size > 0
    ensures Laid([0], map[0 := e], [e], [size]) && SumTo([size], 1) == size
  {
    LaidLast([], map[], [], [], e, size);
    assert [] + [0] == [0] && [] + [e] == [e] && [] + [size] == [size] && map[][0 := e] == map[0 := e];
  }

  lemma SumOneMore(sizes: seq<nat>, size: nat)
    ensures SumTo(sizes + [size], |sizes| + 1) == SumTo(sizes, |sizes|) + size
  {
    SumOfAppend(sizes, [size], |sizes| + 1);
    assert SumTo([size], 1) == SumTo([size], 0) + size;
  }

  lemma LaidLengths(offsets: seq<nat>, contents: map<nat, TarEntry>, entries: seq<TarEntry>, sizes: seq<nat>)
    requires Laid(offsets, contents, entries, sizes)
    ensures |offsets| == |entries| == |sizes|
  {
  }

  lemma LaidAt(offsets: seq<nat>, contents: map<nat, TarEntry>, entries: seq<TarEntry>, sizes: seq<nat>, i: nat)
    requires Laid(offsets, contents, entries, sizes) && i < |offsets|
    ensures |offsets| == |entries| == |sizes|
    ensures offsets[i] in contents && contents[offsets[i]] == entries[i]
    ensures offsets[i] == SumTo(sizes, i) && sizes[i] > 0
  {
  }

  lemma LaidSorted(offsets: seq<nat>, contents: map<nat, TarEntry>, entries: seq<TarEntry>, sizes: seq<nat>)
    requires Laid(offsets, contents, entries, sizes)
    ensures forall j, k :: 0 <= j < k < |offsets| ==> offsets[j] < offsets[k]
  {
    forall j, k | 0 <= j < k < |offsets|
      ensures offsets[j] < offsets[k]
    {
      LaidNext(offsets, contents, entries, sizes, j);
      SumMonotone(sizes, j + 1, k);
    }
  }

  lemma LaidFirst(offsets: seq<nat>, contents: map<nat, TarEntry>, entries: seq<TarEntry>, sizes: seq<nat>)
    requires Laid(offsets, contents, entries, sizes)
    ensures offsets != [] ==> offsets[0] == 0
  {
  }

  lemma LaidNext(offsets: seq<nat>, contents: map<nat, TarEntry>, entries: seq<TarEntry>, sizes: seq<nat>, k: nat)
    requires Laid(offsets, contents, entries, sizes) && k < |offsets|
    ensures |sizes| == |offsets|
    ensures offsets[k] + sizes[k] == SumTo(sizes, k + 1) > offsets[k]
    ensures k + 1 < |offsets| ==> offsets[k] + sizes[k] == offsets[k + 1]
  {
    LaidAt(offsets, contents, entries, sizes, k);
    if k + 1 < |offsets| {
      LaidAt(offsets, contents, entries, sizes, k + 1);
    }
  }

  lemma SumBehind(front: seq<nat>, sizes: seq<nat>, i: nat)
    requires i <= |sizes|
    ensures SumTo(front + sizes[..i], |front| + i) == SumTo(front, |front|) + SumTo(sizes, i)
  {
    SumOfAppend(front, sizes[..i], |front| + i);
    assert sizes == sizes[..i] + sizes[i..];
    SumOfAppend(sizes[..i], sizes[i..], i);
  }

  lemma DistinctAppend<T>(s: seq<T>, t: seq<T>)
    requires Distinct(s) && Distinct(t) && forall x :: x in t ==> x !in s
    ensures Distinct(s + t)
  {
    forall i, j | 0 <= i < j < |s + t|
      ensures (s + t)[i] != (s + t)[j]
    {
      if i < |s| <= j {
        assert t[j - |s|] !in s;
      }
    }
  }

  lemma DistinctLast<T>(s: seq<T>, x: T)
    requires Distinct(s) && x !in s
    ensures Distinct(s + [x])
  {
  }

  ghost predicate Distinct<T>(s: seq<T>) {
    forall i, j :: 0 <= i < j < |s| ==> s[i] != s[j]
  }
}
