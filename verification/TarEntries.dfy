/** Tar entries: their cached sizes, and reading them out byte range by byte range. */
module TarEntries {
  import opened Blocks
  import opened Layout
  import opened Splits
  import opened TarHeaders

  /** The files under the origin, which do not change while they are read. */
  type FileSystem = map<string, seq<byte>>

  function Pread(fs: FileSystem, path: string, size: nat, offset: nat): seq<byte>
    requires path in fs
  {
    var bytes := fs[path];
    if offset <= |bytes| then bytes[offset..offset + Min(size, |bytes| - offset)] else []
  }

  /** The timespec of a file: seconds are 64-bit and signed. */
  datatype Timespec = Timespec(sec: int, nsec: nat)

  type Time = t: Timespec | -0x8000_0000_0000_0000 <= t.sec < 0x8000_0000_0000_0000 && t.nsec < 1_000_000_000
    witness Timespec(0, 0)

  const EPOCH: Time := Timespec(0, 0)

  /** Cut down to whole microseconds. */
  function Micros(t: Time): Time {
    Timespec(t.sec, t.nsec / 1000 * 1000)
  }

  /** A time becomes another one's if that is younger, in microseconds. */
  function Later(mtim: Time, mine: Time): Time {
    if mine.sec > mtim.sec || (mine.sec == mtim.sec && Micros(mine).nsec > Micros(mtim).nsec) then Micros(mine)
    else mtim
  }

  predicate Before(a: Time, b: Time) {
    a.sec < b.sec || (a.sec == b.sec && a.nsec < b.nsec)
  }

  /** The newest of some times and the epoch, in whole microseconds. */
  ghost predicate IsNewest(m: Time, times: set<Time>) {
    && (m == EPOCH || exists t :: t in times && m == Micros(t))
    && !Before(m, EPOCH) && (forall t :: t in times ==> !Before(m, Micros(t)))
  }

  /** There is one newest time, whatever the order in which times were looked at. */
  lemma NewestIsOne(a: Time, b: Time, times: set<Time>)
    requires IsNewest(a, times) && IsNewest(b, times)
    ensures a == b
  {
  }

  lemma LaterIsNewest(m: Time, mine: Time, times: set<Time>)
    requires IsNewest(m, times)
    ensures IsNewest(Later(m, mine), times + {mine})
  {
  }

  /** The newest of what is newest of some and of others is the newest of all. */
  lemma NewestOfBoth(m: Time, mine: Time, times: set<Time>, others: set<Time>)
    requires IsNewest(m, times) && IsNewest(mine, others)
    ensures IsNewest(Later(m, mine), times + others)
  {
    NewestIsWhole(m, times);
    NewestIsWhole(mine, others);
  }

  /** A tar's time is never before 1970, and in whole microseconds. */
  lemma NewestIsWhole(m: Time, times: set<Time>)
    requires IsNewest(m, times)
    ensures m.sec >= 0 && m.nsec % 1000 == 0
  {
  }

  /** The times of some entries. */
  function TimesOf(es: seq<TarEntry>): set<Time> {
    set e | e in es :: e.mtim
  }

  lemma OneMoreTime(es: seq<TarEntry>, e: TarEntry)
    ensures TimesOf(es + [e]) == TimesOf([e] + es) == TimesOf(es) + {e.mtim}
  {
  }

  lemma NoTimes(times: set<Time>)
    ensures TimesOf([]) + times == times
  {
  }

  lemma MoreTimes(a: seq<TarEntry>, b: seq<TarEntry>)
    ensures TimesOf(a + b) == TimesOf(a) + TimesOf(b)
  {
  }

  class TarEntry {
    const abspath: string
    const style: TarHeaderStyle
    const attributes: Header
    const isRegularFile: bool
    const size: nat
    const mtim: Time
    // The generated content of an index file; such an entry has no header.
    const isVirtual: bool
    const content: seq<byte>

    var tarpath: Path
    var link: Link
    var isHardLink: bool
    var headerSize: nat
    var blockedSize: nat
    var childrenSize: nat
    var tarOffset: nat

    /** The header bytes a read of the entry delivers. */
    function Header(): seq<byte>
      reads `tarpath, `link, `isHardLink
    {
      if isVirtual || style == NoHeader then []
      else HeaderBytes(attributes, if isRegularFile then size else 0, tarpath, link, isHardLink)
    }

    predicate HasData()
      reads `isHardLink
    {
      isVirtual || (isRegularFile && !isHardLink)
    }

    /** The cached sizes are those of the bytes a read delivers. */
    ghost predicate SizesAgree()
      reads `tarpath, `link, `isHardLink, `headerSize, `blockedSize
    {
      && headerSize == |Header()|
      && var bytes := headerSize + if HasData() then size else 0; blockedSize == bytes + Fill(bytes)
    }

    ghost predicate Valid()
      reads `tarpath, `link, `isHardLink, `headerSize, `blockedSize
    {
      SizesAgree() && (isVirtual ==> |content| == size)
    }

    /** The file is there and still has the size it had when it was scanned. */
    ghost predicate Unchanged(fs: FileSystem)
      reads `isHardLink
    {
      !isVirtual && HasData() ==> abspath in fs && |fs[abspath]| == size
    }

    ghost function Value(fs: FileSystem): Entry
      requires Unchanged(fs)
      reads `tarpath, `link, `isHardLink
    {
      Entry(Header(), if isVirtual then content else if HasData() then fs[abspath] else [])
    }

    constructor (abspath: string, tarpath: Path, link: Link, attributes: Header, isRegularFile: bool, size: nat,
                 mtim: Time, style: TarHeaderStyle)
      ensures Valid() && !isVirtual && !isHardLink && this.tarpath == tarpath && this.link == link
      ensures this.abspath == abspath && this.size == size && this.isRegularFile == isRegularFile
      ensures this.attributes == attributes && this.mtim == mtim && this.style == style && childrenSize == blockedSize
    {
      this.abspath, this.tarpath, this.link, this.attributes := abspath, tarpath, link, attributes;
      this.isRegularFile, this.size, this.mtim, this.style := isRegularFile, size, mtim, style;
      isVirtual, content, isHardLink, tarOffset := false, [], false, 0;
      new;
      UpdateSizes();
    }

    /** The entry of a generated index file. */
    constructor Virtual(content: seq<byte>, style: TarHeaderStyle)
      ensures Valid() && isVirtual && this.content == content && headerSize == 0
    {
      this.abspath, this.tarpath, this.link, this.attributes := "", [], NoLink, Zeros(512);
      this.isRegularFile, this.size, this.mtim, this.style := false, |content|, EPOCH, style;
      isVirtual, this.content, isHardLink, tarOffset := true, content, false, 0;
      headerSize := 0;
      blockedSize := |content| + Fill(|content|);
      childrenSize := |content| + Fill(|content|);
    }

    method UpdateMtim(mtim: Time) returns (updated: Time)
      ensures updated == Later(mtim, this.mtim)
    {
      updated := mtim;
      var nsec, mynsec := Micros(mtim).nsec, Micros(this.mtim).nsec;
      if this.mtim.sec > mtim.sec || (this.mtim.sec == mtim.sec && mynsec > nsec) {
        updated := Timespec(this.mtim.sec, mynsec);
      }
    }

    method UpdateSizes()
      requires !isVirtual
      modifies `headerSize, `blockedSize, `childrenSize
      ensures SizesAgree() && childrenSize == blockedSize
    {
      hide HeaderBytes, CalculateHeaderSize;
      headerSize := CalculateHeaderSize(tarpath, link, isHardLink);
      if style == NoHeader { headerSize := 0; }
      var bytes := headerSize;
      if isRegularFile && !isHardLink { bytes := bytes + size; }
      blockedSize := if bytes % 512 == 0 then bytes else bytes + 512 - bytes % 512;
      childrenSize := blockedSize;
    }

    method SetTarpath(p: Path)
      requires !isVirtual
      modifies `tarpath, `headerSize, `blockedSize, `childrenSize
      ensures Valid() && tarpath == p
    {
      tarpath := p;
      UpdateSizes();
    }

    method SetLink(l: Path)
      requires !isVirtual
      modifies `link, `headerSize, `blockedSize, `childrenSize
      ensures Valid() && link == Link(l)
    {
      link := Link(l);
      UpdateSizes();
    }

    method RewriteIntoHardLink(target: Path)
      requires !isVirtual
      modifies `link, `isHardLink, `headerSize, `blockedSize, `childrenSize
      ensures Valid() && link == Link(target) && isHardLink && !HasData()
    {
      link := Link(target);
      isHardLink := true;
      UpdateSizes();
    }

    /** The header bytes, put together in a buffer of exactly the cached header size. */
    method BuildHeader() returns (tmp: array<byte>)
      requires Valid() && headerSize > 0
      ensures fresh(tmp) && tmp[..] == Header()
    {
      hide *;
      tmp := new byte[headerSize](_ => 0);
      var th := new TarHeader.ForEntry(attributes, if isRegularFile then size else 0, tarpath, link, isHardLink);
      HeaderIs(th.Bytes());
      var p := AddLongRecords(tmp, th);
      SpliceAtEnd(tmp[..], p, th.Bytes());
      CopyInto(tmp, p, th.Bytes());
    }

    /** The records in front of the header: of a long link first, of a long path behind it. */
    method AddLongRecords(tmp: array<byte>, th: TarHeader) returns (p: nat)
      requires th.Valid() && th.buf != tmp
      requires th.numLongLinkBlocks == LinkBlocks(link, isHardLink) && th.numLongPathBlocks == LongBlocks(|tarpath|)
      requires tmp.Length == th.numLongLinkBlocks * 512 + th.numLongPathBlocks * 512 + 512
      requires forall i :: 0 <= i < tmp.Length ==> tmp[i] == 0
      modifies tmp
      ensures p == tmp.Length - 512
      ensures tmp[..p] == LinkRecord(th.Bytes(), link, isHardLink) + PathRecord(th.Bytes(), tarpath)
    {
      hide *;
      p := 0;
      ghost var main := th.Bytes();
      RecordsAre(main, tarpath, link, isHardLink);
      if th.numLongLinkBlocks > 0 {
        p := AddLongRecord(tmp, p, th, GNU_LONGLINK_TYPE, link.path, |link.path|, th.numLongLinkBlocks);
      }
      assert tmp[..p] == LinkRecord(main, link, isHardLink);
      if th.numLongPathBlocks > 0 {
        p := AddLongRecord(tmp, p, th, GNU_LONGNAME_TYPE, tarpath, |tarpath| + 1, th.numLongPathBlocks);
      }
    }

    lemma HeaderIs(main: TarHeaders.Header)
      requires Valid() && headerSize > 0
      requires main == MainHeader(attributes, if isRegularFile then size else 0, tarpath, link, isHardLink)
      ensures Header() == LinkRecord(main, link, isHardLink) + PathRecord(main, tarpath) + main
      ensures headerSize == LinkBlocks(link, isHardLink) * 512 + LongBlocks(|tarpath|) * 512 + 512
    {
      hide MainHeader, LinkRecord, PathRecord;
    }

    /** A long link or long path record, put into zeroed room at p. */
    method AddLongRecord(tmp: array<byte>, p: nat, th: TarHeader, typeflag: byte, text: Path, size: nat, blocks: nat)
      returns (next: nat)
      requires th.Valid() && th.buf != tmp
      requires blocks > 0 && |text| <= (blocks - 1) * 512 && p + blocks * 512 <= tmp.Length
      requires forall i :: p <= i < tmp.Length ==> tmp[i] == 0
      modifies tmp
      ensures next == p + blocks * 512
      ensures tmp[..next] == old(tmp[..p]) + LongRecord(th.Bytes(), typeflag, text, size, blocks)
      ensures forall i :: next <= i < tmp.Length ==> tmp[i] == 0
    {
      hide Put, Checksummed, ChecksumVerifies, OctalField, Retyped, StrN, Splice;
      ghost var was := tmp[..];
      var lh := new TarHeader();
      lh.SetLongType(th, typeflag);
      lh.SetSize(size);
      lh.CalculateChecksum();
      CopyInto(tmp, p, lh.buf[..]);
      CopyInto(tmp, p + 512, text);
      next := p + blocks * 512;
      RecordInRoom(was, p, lh.Bytes(), text, (blocks - 1) * 512, tmp[..]);
      assert tmp[..][..next] == tmp[..next] && was[..p] == old(tmp[..p]);
      assert forall i :: next <= i < tmp.Length ==> tmp[i] == tmp[..][i];
    }

    /** Reads size bytes of the entry from an offset on into the buffer; see CopyBytes for what a read delivers. */
    method Copy(buf: array<byte>, pos: nat, size: nat, from: nat, fs: FileSystem) returns (copied: nat)
      requires Valid() && Unchanged(fs) && pos + size <= buf.Length
      requires isVirtual ==> from <= |content| || blockedSize <= from
      modifies buf
      ensures copied == |CopyBytes(Value(fs), size, from)| <= size
      ensures buf[..] == Splice(old(buf[..]), pos, CopyBytes(Value(fs), size, from))
    {
      hide *;
      ghost var was, e := buf[..], Value(fs);
      ValueSizes(fs);
      copied := CopyHeader(buf, pos, size, from, fs);
      var at := from + copied;
      ghost var got := HeaderPart(e, size, from);
      if size - copied > 0 && copied < blockedSize && headerSize <= at < blockedSize {
        var bytes := ReadData(size - copied, at - headerSize, fs);
        SpliceTwice(was, pos, got, bytes);
        CopyInto(buf, pos + copied, bytes);
        got := got + bytes;
        copied := copied + |bytes|;
      }
      GotParts(e, size, from, got);
      CopyInParts(e, size, from, got);
      var remainder := Min(Fill(copied), size - copied);
      MinIs(Fill(copied), size - copied);
      SpliceTwice(was, pos, got, Zeros(remainder));
      CopyInto(buf, pos + copied, Zeros(remainder));
      copied := copied + remainder;
    }

    lemma ValueSizes(fs: FileSystem)
      requires Valid() && Unchanged(fs)
      ensures |Value(fs).header| == headerSize && Value(fs).BlockedSize() == blockedSize
      ensures isVirtual ==> headerSize == 0
    {
      hide HeaderBytes, Fill;
    }

    /** The part of the read that lies in the header. */
    method CopyHeader(buf: array<byte>, pos: nat, size: nat, from: nat, fs: FileSystem) returns (len: nat)
      requires Valid() && Unchanged(fs) && pos + size <= buf.Length
      modifies buf
      ensures len == |HeaderPart(Value(fs), size, from)|
      ensures buf[..] == Splice(old(buf[..]), pos, HeaderPart(Value(fs), size, from))
    {
      hide HeaderBytes, CalculateHeaderSize, Fill, Splice;
      SpliceNothing(buf[..], pos);
      len := 0;
      if size > 0 && from < headerSize {
        var tmp := BuildHeader();
        len := Min(headerSize - from, size);
        CopyInto(buf, pos, tmp[from..from + len]);
      }
      assert size == 0 ==> HeaderPart(Value(fs), size, from) == [];
    }

    /** The entry's data, from memory or from its file. */
    method ReadData(n: nat, from: nat, fs: FileSystem) returns (bytes: seq<byte>)
      requires Valid() && Unchanged(fs) && headerSize + from < blockedSize && n > 0
      requires isVirtual ==> from <= |content|
      ensures bytes == DataPart(Value(fs), n, from)
    {
      hide HeaderBytes, LongBlocks, LinkBlocks, Fill;
      if isVirtual {
        bytes := content[from..from + Min(|content| - from, n)];
      } else {
        bytes := Pread(fs, abspath, n, from);
      }
    }
  }

  /** A header and a text written into zeroed room. */
  lemma RecordInRoom(was: seq<byte>, p: nat, h: Header, text: Path, room: nat, now: seq<byte>)
    requires p + 512 + room <= |was| && |text| <= room
    requires forall i :: p <= i < |was| ==> was[i] == 0
    requires now == Splice(Splice(was, p, h), p + 512, text)
    ensures now[..p + 512 + room] == was[..p] + (h + StrN(text, room))
    ensures forall i :: p + 512 + room <= i < |now| ==> now[i] == 0
  {
    SpliceTwice(was, p, h, text);
    assert now[..p + 512 + room] == was[..p] + h + text + was[p + 512 + |text|..p + 512 + room];
    assert was[p + 512 + |text|..p + 512 + room] == Zeros(room - |text|);
    assert StrN(text, room) == text + Zeros(room - |text|);
  }

  /** What the header of an entry says: a hard link has the size of the file it links to, though none of its data. */
  lemma EntrySays(e: TarEntry)
    ensures e.isVirtual || e.style == NoHeader ==> e.Header() == []
    ensures !e.isVirtual && e.style != NoHeader ==>
      |e.Header()| >= 512 &&
      var h: TarHeaders.Header := e.Header()[|e.Header()| - 512..];
      var size := if e.isRegularFile then e.size else 0;
      && (ReadOctal(h, 124, 11) == size <==> size < 8 * 1024 * 1024 * 1024)
      && h[156] == (if e.isHardLink then 49 else e.attributes[156]) && Shows(h, 0, e.tarpath)
  {
    if !e.isVirtual && e.style != NoHeader {
      EndsInMain(e);
      hide *;
      HeaderSays(e.attributes, if e.isRegularFile then e.size else 0, e.tarpath, e.link, e.isHardLink);
    }
  }

  /** Only regular files have data: behind the header, up to the end of the last block. */
  lemma SizesSay(e: TarEntry)
    requires e.SizesAgree() && !e.isVirtual
    ensures e.blockedSize % 512 == 0 && (e.style == NoHeader ==> e.headerSize == 0)
    ensures e.isRegularFile && !e.isHardLink ==> e.headerSize + e.size <= e.blockedSize < e.headerSize + e.size + 512
    ensures !e.isRegularFile || e.isHardLink ==> e.blockedSize == e.headerSize
  {
    HeaderIsBlocks(e);
    hide TarEntry.Header;
  }

  lemma HeaderIsBlocks(e: TarEntry)
    ensures |e.Header()| % 512 == 0 && (e.style == NoHeader ==> e.Header() == [])
  {
    hide HeaderBytes;
  }

  lemma EndsInMain(e: TarEntry)
    requires !e.isVirtual && e.style != NoHeader
    ensures |e.Header()| >= 512
    ensures e.Header()[|e.Header()| - 512..]
         == MainHeader(e.attributes, if e.isRegularFile then e.size else 0, e.tarpath, e.link, e.isHardLink)
  {
    hide MainHeader, LinkRecord, PathRecord;
  }

  ghost function HeaderPart(e: Entry, size: nat, from: nat): (h: seq<byte>)
    ensures |h| <= size && |h| <= |e.header|
  {
    if from < |e.header| then e.header[from..from + Min(|e.header| - from, size)] else []
  }

  ghost function DataPart(e: Entry, size: nat, from: nat): (d: seq<byte>)
    ensures |d| <= size
  {
    if from <= |e.data| then e.data[from..from + Min(size, |e.data| - from)] else []
  }

  /** A read goes through the header and then the data, whichever of them it meets. */
  lemma CopyInParts(e: Entry, size: nat, from: nat, got: seq<byte>)
    requires GotOf(e, size, from, got)
    ensures CopyBytes(e, size, from) == got + Zeros(Min(Fill(|got|), size - |got|))
  {
    PartsMeet(e, size, from, got);
    hide GotOf, Zeros, Fill, HeaderPart, DataPart;
  }

  /** What has been read of an entry, header and data, without padding. */
  ghost predicate GotOf(e: Entry, size: nat, from: nat, got: seq<byte>) {
    var h := HeaderPart(e, size, from);
    got == if size > |h| && |e.header| <= from + |h| < e.BlockedSize()
           then h + DataPart(e, size - |h|, from + |h| - |e.header|) else h
  }

  lemma GotParts(e: Entry, size: nat, from: nat, got: seq<byte>)
    requires var h := HeaderPart(e, size, from);
      got == if size > |h| && |e.header| <= from + |h| < e.BlockedSize()
             then h + DataPart(e, size - |h|, from + |h| - |e.header|) else h
    ensures GotOf(e, size, from, got)
  {
    hide HeaderPart, DataPart, Entry.BlockedSize;
  }

  lemma PartsMeet(e: Entry, size: nat, from: nat, got: seq<byte>)
    requires GotOf(e, size, from, got)
    ensures got == var bytes := e.header + e.data;
      if from <= |bytes| then bytes[from..from + Min(size, |bytes| - from)] else []
  {
    hide GotOf;
    if from >= |e.header| {
      GotData(e, size, from, got);
    } else if size <= |e.header| - from {
      GotHeader(e, size, from, got);
    } else {
      GotBoth(e, size, from, got);
    }
  }

  lemma GotHeader(e: Entry, size: nat, from: nat, got: seq<byte>)
    requires GotOf(e, size, from, got) && from < |e.header| && size <= |e.header| - from
    ensures got == (e.header + e.data)[from..from + size]
  {
    hide Fill, Entry.BlockedSize, DataPart;
    SliceOfAppend(e.header, e.data, from, from + size);
  }

  lemma GotData(e: Entry, size: nat, from: nat, got: seq<byte>)
    requires GotOf(e, size, from, got) && from >= |e.header|
    ensures got == var bytes := e.header + e.data;
      if from <= |bytes| then bytes[from..from + Min(size, |bytes| - from)] else []
  {
    GotOnlyData(e, size, from, got);
    hide GotOf;
    var bytes := e.header + e.data;
    if from <= |bytes| {
      SliceOfAppend(e.header, e.data, from, from + Min(size, |bytes| - from));
    }
  }

  lemma GotOnlyData(e: Entry, size: nat, from: nat, got: seq<byte>)
    requires GotOf(e, size, from, got) && from >= |e.header|
    ensures got == DataPart(e, size, from - |e.header|)
  {
    hide *;
    BlockedAtLeast(e);
    GotIsData(e, size, from, got);
    if size == 0 || from >= e.BlockedSize() {
      NoDataPart(e, size, from - |e.header|);
    }
  }

  lemma GotIsData(e: Entry, size: nat, from: nat, got: seq<byte>)
    requires GotOf(e, size, from, got) && from >= |e.header|
    ensures got == if size > 0 && from < e.BlockedSize() then DataPart(e, size, from - |e.header|) else []
  {
    hide DataPart, Entry.BlockedSize;
    assert HeaderPart(e, size, from) == [];
  }

  lemma NoDataPart(e: Entry, size: nat, from: nat)
    requires size == 0 || from >= |e.data|
    ensures DataPart(e, size, from) == []
  {
  }

  lemma GotBoth(e: Entry, size: nat, from: nat, got: seq<byte>)
    requires GotOf(e, size, from, got) && from < |e.header| && size > |e.header| - from
    ensures got == var bytes := e.header + e.data; bytes[from..from + Min(size, |bytes| - from)]
  {
    hide *;
    GotHeaderAndData(e, size, from, got);
    AcrossTheSeam(e.header, e.data, from, size);
  }

  lemma GotHeaderAndData(e: Entry, size: nat, from: nat, got: seq<byte>)
    requires GotOf(e, size, from, got) && from < |e.header| && size > |e.header| - from
    ensures var h := |e.header| - from; got == e.header[from..] + e.data[..Min(size - h, |e.data|)]
  {
    hide *;
    var h := |e.header| - from;
    BlockedAtLeast(e);
    GotIsBoth(e, size, from, got);
    DataPartFromStart(e, size - h);
    if e.data == [] {
      assert e.data[..Min(size - h, |e.data|)] == [];
    }
  }

  lemma GotIsBoth(e: Entry, size: nat, from: nat, got: seq<byte>)
    requires GotOf(e, size, from, got) && from < |e.header| && size > |e.header| - from
    ensures got == if |e.header| < e.BlockedSize() then e.header[from..] + DataPart(e, size - (|e.header| - from), 0)
                   else e.header[from..]
  {
    hide DataPart, Entry.BlockedSize;
    assert HeaderPart(e, size, from) == e.header[from..];
  }

  lemma DataPartFromStart(e: Entry, size: nat)
    ensures Min(size, |e.data|) <= |e.data| && DataPart(e, size, 0) == e.data[..Min(size, |e.data|)]
  {
  }

  lemma BlockedAtLeast(e: Entry)
    ensures e.BlockedSize() >= |e.header| + |e.data|
    ensures |e.data| > 0 ==> |e.header| < e.BlockedSize()
  {
    hide Fill;
  }

  lemma AcrossTheSeam(a: seq<byte>, b: seq<byte>, from: nat, size: nat)
    requires from < |a| && size > |a| - from
    ensures var bytes := a + b;
      a[from..] + b[..Min(size - (|a| - from), |b|)] == bytes[from..from + Min(size, |bytes| - from)]
  {
  }
}
