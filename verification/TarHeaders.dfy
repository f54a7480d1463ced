/**
 The 512-byte tar header: its fields, its checksum, the GNU records for long paths and links,
 and a reader of such records. Paths are their C-string bytes.
 */
module TarHeaders {
  import opened Blocks

  type Path = seq<byte>
  datatype Link = NoLink | Link(path: Path)

  // Offsets of the fields this model reads or writes; see "Basic Tar Format" in the GNU tar manual.
  const NAME := 0
  const SIZE := 124
  const MTIME := 136
  const CHECKSUM := 148
  const TYPEFLAG := 156
  const LINKNAME := 157
  const OFFSET := 369

  const T_NAMELEN := 100
  const LNKTYPE: byte := 49
  const GNU_LONGNAME_TYPE: byte := 76
  const GNU_LONGLINK_TYPE: byte := 75
  const GNU_MULTIVOL_TYPE: byte := 77
  const LONGLINK_NAME: Path := [46, 47, 46, 47, 64, 76, 111, 110, 103, 76, 105, 110, 107]

  type Header = h: seq<byte> | |h| == 512 witness Zeros(512)

  // ---------------------------------------------------------------- fields

  function Put(h: Header, at: nat, field: seq<byte>): (r: Header)
    requires at + |field| <= 512
  {
    h[..at] + field + h[at + |field|..]
  }

  lemma PutKeeps(h: Header, at: nat, field: seq<byte>, lo: nat, hi: nat)
    requires at + |field| <= 512 && lo <= hi <= 512
    requires hi <= at || at + |field| <= lo
    ensures Put(h, at, field)[lo..hi] == h[lo..hi]
  {
  }

  lemma PutElsewhere(h: Header, at: nat, field: seq<byte>)
    requires at + |field| <= 512
    ensures forall i :: 0 <= i < at || at + |field| <= i < 512 ==> Put(h, at, field)[i] == h[i]
  {
  }

  lemma PutReads(h: Header, at: nat, field: seq<byte>)
    requires at + |field| <= 512
    ensures Put(h, at, field)[at..at + |field|] == field
  {
  }

  /** strncpy: cut at, or zero filled to, n bytes. */
  function StrN(s: seq<byte>, n: nat): (r: seq<byte>)
    ensures |r| == n
  {
    if |s| >= n then s[..n] else s + Zeros(n - |s|)
  }

  function Octal(v: nat): (d: seq<byte>)
    ensures |d| >= 1
  {
    if v < 8 then [48 + v] else Octal(v / 8) + [48 + v % 8]
  }

  /** snprintf with %0<width>o into width+1 bytes: the leading digits when there are too many, then NUL. */
  function OctalField(v: nat, width: nat): (f: seq<byte>)
    ensures |f| == width + 1
  {
    var d := Octal(v);
    (if |d| >= width then d[..width] else seq(width - |d|, _ => 48) + d) + [0]
  }

  function ParseOctal(d: seq<byte>): nat {
    if d == [] then 0 else 8 * ParseOctal(d[..|d| - 1]) + (if 48 <= d[|d| - 1] < 56 then d[|d| - 1] - 48 else 0)
  }

  function Pow8(k: nat): (p: nat)
    ensures p >= 1
  {
    if k == 0 then 1 else 8 * Pow8(k - 1)
  }

  lemma PowersOfEight()
    ensures Pow8(7) == 2097152 && Pow8(11) == 8589934592
  {
    assert Pow8(2) == 64;
    assert Pow8(4) == 64 * Pow8(2);
    assert Pow8(6) == 64 * Pow8(4);
    assert Pow8(8) == 64 * Pow8(6);
    assert Pow8(10) == 64 * Pow8(8);
  }

  lemma {:induction false} ParseOfOctal(v: nat)
    ensures ParseOctal(Octal(v)) == v
  {
    if v >= 8 {
      ParseOfOctal(v / 8);
      assert Octal(v)[..|Octal(v)| - 1] == Octal(v / 8);
    } else {
      assert Octal(v)[..0] == [];
    }
  }

  /** v has at most k octal digits exactly when v < 8^k. */
  lemma {:induction false} OctalLength(v: nat, k: nat)
    requires k >= 1
    ensures |Octal(v)| <= k <==> v < Pow8(k)
  {
    if v >= 8 && k > 1 {
      OctalLength(v / 8, k - 1);
    } else if v < 8 {
      assert Pow8(k) == 8 * Pow8(k - 1);
    } else {
      assert Pow8(1) == 8 * Pow8(0);
    }
  }

  lemma {:induction false} ParseOfPadding(n: nat, d: seq<byte>)
    ensures ParseOctal(seq(n, _ => 48) + d) == ParseOctal(d)
    decreases n + |d|
  {
    var s := seq(n, _ => 48 as byte) + d;
    if d != [] {
      ParseOfPadding(n, d[..|d| - 1]);
      assert s[..|s| - 1] == seq(n, _ => 48) + d[..|d| - 1];
    } else if n > 0 {
      ParseOfPadding(n - 1, []);
      assert s[..|s| - 1] == seq(n - 1, _ => 48) + [];
    }
  }

  /** Digits cut off at the right leave a smaller number. */
  lemma {:induction false} ParseOfCutOctal(v: nat, n: nat)
    requires n < |Octal(v)| && v > 0
    ensures ParseOctal(Octal(v)[..n]) < v
  {
    if v >= 8 {
      assert Octal(v)[..n] == Octal(v / 8)[..n];
      if n < |Octal(v / 8)| {
        ParseOfCutOctal(v / 8, n);
      } else {
        assert Octal(v / 8)[..n] == Octal(v / 8);
        ParseOfOctal(v / 8);
      }
    }
  }

  /** An octal field reads back as what was written exactly when the value has no more digits than the field. */
  lemma OctalFieldReadsBack(v: nat, width: nat)
    requires width >= 1
    ensures ParseOctal(OctalField(v, width)[..width]) == v <==> v < Pow8(width)
  {
    var d := Octal(v);
    OctalLength(v, width);
    ParseOfOctal(v);
    if |d| > width {
      assert OctalField(v, width)[..width] == d[..width];
      if v > 0 { ParseOfCutOctal(v, width); }
    } else if |d| == width {
      assert OctalField(v, width)[..width] == d;
    } else {
      ParseOfPadding(width - |d|, d);
      assert OctalField(v, width)[..width] == seq(width - |d|, _ => 48) + d;
    }
  }

  function ReadOctal(h: Header, at: nat, width: nat): nat
    requires at + width <= 512
  {
    ParseOctal(h[at..at + width])
  }

  // ---------------------------------------------------------------- checksum

  function Sum(s: seq<byte>): nat {
    if s == [] then 0 else Sum(s[..|s| - 1]) + s[|s| - 1]
  }

  lemma SumBound(s: seq<byte>)
    ensures Sum(s) <= 255 * |s|
  {
  }

  const SPACES: seq<byte> := [32, 32, 32, 32, 32, 32, 32, 32]

  function Checksummed(h: Header): Header {
    Put(h, CHECKSUM, OctalField(Sum(Put(h, CHECKSUM, SPACES)), 7))
  }

  /** The checksum field holds the sum of the header's bytes, the field itself counted as spaces. */
  predicate ChecksumVerifies(h: Header) {
    ReadOctal(h, CHECKSUM, 7) == Sum(Put(h, CHECKSUM, SPACES))
  }

  lemma ChecksummedVerifies(h: Header)
    ensures ChecksumVerifies(Checksummed(h))
  {
    ChecksummedReads(h);
    assert Put(Checksummed(h), CHECKSUM, SPACES) == Put(h, CHECKSUM, SPACES);
    hide Sum, OctalField;
  }

  /** The checksum is the sum of all bytes, with spaces in its own field. */
  lemma ChecksumIs(h: Header)
    ensures ReadOctal(Checksummed(h), 148, 7) == Sum(h[..148]) + 8 * 32 + Sum(h[156..])
  {
    var spaces := Put(h, CHECKSUM, SPACES);
    assert spaces == h[..148] + SPACES + h[156..];
    SumAdds(h[..148], SPACES);
    SumAdds(h[..148] + SPACES, h[156..]);
    SumOfSpaces(8);
    assert SPACES == seq(8, _ => 32);
    ChecksummedReads(h);
  }

  lemma ChecksummedReads(h: Header)
    ensures ReadOctal(Checksummed(h), 148, 7) == Sum(Put(h, CHECKSUM, SPACES))
  {
    var sum := Sum(Put(h, CHECKSUM, SPACES));
    SumBound(Put(h, CHECKSUM, SPACES));
    assert Checksummed(h)[CHECKSUM..CHECKSUM + 7] == OctalField(sum, 7)[..7];
    OctalFieldReadsBack(sum, 7);
    PowersOfEight();
  }

  lemma {:induction false} SumAdds(a: seq<byte>, b: seq<byte>)
    ensures Sum(a + b) == Sum(a) + Sum(b)
  {
    if b == [] {
      assert a + b == a;
    } else {
      var n := |b| - 1;
      SumAdds(a, b[..n]);
      assert (a + b)[..|a| + n] == a + b[..n];
    }
  }

  lemma {:induction false} SumOfSpaces(n: nat)
    ensures Sum(seq(n, _ => 32)) == n * 32
  {
    if n > 0 {
      SumOfSpaces(n - 1);
      assert seq(n, _ => 32 as byte)[..n - 1] == seq(n - 1, _ => 32);
    }
  }

  // ---------------------------------------------------------------- header sizes

  function UnRoot(link: Link): Link {
    if link.NoLink? || link.path == [] then NoLink
    else if link.path[0] != 47 then link
    else Link(link.path[1..])
  }

  /** Blocks of the record that stores a name too long for its header field. */
  function LongBlocks(len: nat): nat {
    if len <= T_NAMELEN then 0 else 2 + len / 512
  }

  /** The link whose length decides how a link is stored. */
  function MeasuredLink(link: Link, hard: bool): Link {
    if hard then UnRoot(link) else link
  }

  /** The link text that ends up in the header bytes: a link too long for its field keeps its root slash. */
  function StoredLink(link: Link, hard: bool): Link {
    if LinkBlocks(link, hard) > 0 then link else MeasuredLink(link, hard)
  }

  function PathOf(link: Link): Path {
    if link.Link? then link.path else []
  }

  function LinkBlocks(link: Link, hard: bool): nat {
    var l := MeasuredLink(link, hard);
    if l.NoLink? then 0 else LongBlocks(|l.path|)
  }

  function CalculateHeaderSize(tarpath: Path, link: Link, hard: bool): nat {
    (1 + LongBlocks(|tarpath|) + LinkBlocks(link, hard)) * 512
  }

  // ---------------------------------------------------------------- header images

  /** The header before its size and checksum are filled in. */
  function NamedHeader(attributes: Header, name: Path, linkname: Path): Header {
    Put(Put(attributes, NAME, StrN(name, 100)), LINKNAME, StrN(linkname, 100))
  }

  /** The type of a hard link is its own, not that of the file it links to. */
  function Typed(attributes: Header, hard: bool): Header {
    if hard then Put(attributes, TYPEFLAG, [LNKTYPE]) else attributes
  }

  /**
   The entry's own header. attributes holds the fields taken from the file's status (mode, owner,
   times, type flag, magic); it does not touch the fields written here.
   */
  function MainHeader(attributes: Header, size: nat, tarpath: Path, link: Link, hard: bool): Header {
    var linkname := Short(PathOf(MeasuredLink(link, hard)));
    Checksummed(Put(NamedHeader(Typed(attributes, hard), Short(tarpath), linkname), SIZE, OctalField(size, 11)))
  }

  /** A name as far as the field for it goes: names that do not fit are not put in it. */
  function Short(name: Path): (s: Path)
    ensures |s| <= T_NAMELEN && (s == name || s == [])
  {
    if |name| <= T_NAMELEN then name else []
  }

  function Retyped(main: Header, typeflag: byte): Header {
    Put(Put(Put(main, MTIME, OctalField(0, 11)), TYPEFLAG, [typeflag]), NAME, LONGLINK_NAME + [0])
  }

  /** The header of a 'K' or 'L' record: a copy of the main header, renamed, retyped, resized. */
  function LongHeader(main: Header, typeflag: byte, size: nat): Header {
    Checksummed(Put(Retyped(main, typeflag), SIZE, OctalField(size, 11)))
  }

  function LongRecord(main: Header, typeflag: byte, text: Path, size: nat, blocks: nat): (r: seq<byte>)
    requires blocks == 0 || |text| <= (blocks - 1) * 512
    ensures |r| == blocks * 512
  {
    if blocks == 0 then [] else LongHeader(main, typeflag, size) + StrN(text, (blocks - 1) * 512)
  }

  lemma LongTextFits(len: nat)
    requires LongBlocks(len) > 0
    ensures len < (LongBlocks(len) - 1) * 512
  {
  }

  /** The text of a long link fits the blocks reserved for it, although they are counted without the root slash. */
  lemma LongLinkFits(link: Link, hard: bool)
    requires LinkBlocks(link, hard) > 0
    ensures link.Link? && |link.path| <= (LinkBlocks(link, hard) - 1) * 512
  {
  }

  /** All the header bytes of an entry, in the order they are copied out: link record, path record, header. */
  function HeaderBytes(attributes: Header, size: nat, tarpath: Path, link: Link, hard: bool): (r: seq<byte>)
    ensures |r| == CalculateHeaderSize(tarpath, link, hard)
  {
    var main := MainHeader(attributes, size, tarpath, link, hard);
    LinkRecord(main, link, hard) + PathRecord(main, tarpath) + main
  }

  function LinkRecord(main: Header, link: Link, hard: bool): (r: seq<byte>)
    ensures |r| == LinkBlocks(link, hard) * 512
  {
    var k := LinkBlocks(link, hard);
    if k == 0 then []
    else
      LongLinkFits(link, hard);
      LongRecord(main, GNU_LONGLINK_TYPE, link.path, |link.path|, k)
  }

  function PathRecord(main: Header, tarpath: Path): (r: seq<byte>)
    ensures |r| == LongBlocks(|tarpath|) * 512
  {
    LongRecord(main, GNU_LONGNAME_TYPE, tarpath, |tarpath| + 1, LongBlocks(|tarpath|))
  }

  lemma RecordsAre(main: Header, tarpath: Path, link: Link, hard: bool)
    ensures LinkBlocks(link, hard) == 0 ==> LinkRecord(main, link, hard) == []
    ensures LinkBlocks(link, hard) > 0 ==>
      && link.Link? && |link.path| <= (LinkBlocks(link, hard) - 1) * 512
      && LinkRecord(main, link, hard)
         == LongRecord(main, GNU_LONGLINK_TYPE, link.path, |link.path|, LinkBlocks(link, hard))
    ensures LongBlocks(|tarpath|) == 0 ==> PathRecord(main, tarpath) == []
    ensures LongBlocks(|tarpath|) > 0 ==>
      && |tarpath| <= (LongBlocks(|tarpath|) - 1) * 512
      && PathRecord(main, tarpath)
         == LongRecord(main, GNU_LONGNAME_TYPE, tarpath, |tarpath| + 1, LongBlocks(|tarpath|))
  {
    hide LinkBlocks, LongBlocks, LongRecord;
    if LinkBlocks(link, hard) > 0 {
      LongLinkFits(link, hard);
    }
    if LongBlocks(|tarpath|) > 0 {
      LongTextFits(|tarpath|);
    }
  }

  /** The header that continues a tar in a later part. */
  function MultivolHeader(tarpath: Path, offset: nat, size: nat): Header {
    Checksummed(
      Put(Put(Put(Put(Zeros(512), OFFSET, OctalField(offset, 11)), TYPEFLAG, [GNU_MULTIVOL_TYPE]),
            NAME, StrN(tarpath, 100)), SIZE, OctalField(size, 11)))
  }

  /** The file starts with a verified header of a later part: its name, what came before it and what is left. */
  predicate Continues(file: seq<byte>, tarpath: Path, from: nat, left: nat) {
    |file| >= 512 &&
    var h: Header := file[..512];
    && ChecksumVerifies(h) && h[156] == 77 && ReadOctal(h, 369, 11) == from && ReadOctal(h, 124, 11) == left
    && forall i :: 0 <= i < 100 ==> h[i] == if i < |tarpath| then tarpath[i] else 0
  }

  lemma MultivolContinues(file: seq<byte>, tarpath: Path, from: nat, left: nat)
    requires |file| >= 512 && file[..512] == MultivolHeader(tarpath, from, left)
    requires from < 8 * 1024 * 1024 * 1024 && left < 8 * 1024 * 1024 * 1024
    ensures Continues(file, tarpath, from, left)
  {
    hide MultivolHeader, ReadOctal, ChecksumVerifies;
    MultivolSays(tarpath, from, left);
  }

  /** What the fields of such a header say, read at their places. */
  lemma MultivolSays(tarpath: Path, offset: nat, size: nat)
    ensures var h := MultivolHeader(tarpath, offset, size);
      && ChecksumVerifies(h) && h[156] == 77
      && (forall i :: 0 <= i < 100 ==> h[i] == if i < |tarpath| then tarpath[i] else 0)
      && (ReadOctal(h, 369, 11) == offset <==> offset < 8 * 1024 * 1024 * 1024)
      && (ReadOctal(h, 124, 11) == size <==> size < 8 * 1024 * 1024 * 1024)
  {
    hide OctalField, Put, StrN, Checksummed, ReadOctal, ChecksumVerifies;
    MultivolFields(OctalField(offset, 11), GNU_MULTIVOL_TYPE, StrN(tarpath, 100), OctalField(size, 11));
    var h := MultivolHeader(tarpath, offset, size);
    NumberReads(h, 369, offset);
    NumberReads(h, 124, size);
    NameReads(h, 0, tarpath);
  }

  lemma MultivolFields(offset: seq<byte>, typeflag: byte, name: seq<byte>, size: seq<byte>)
    requires |offset| == |size| == 12 && |name| == 100
    ensures var h := Checksummed(
        Put(Put(Put(Put(Zeros(512), OFFSET, offset), TYPEFLAG, [typeflag]), NAME, name), SIZE, size));
      && ChecksumVerifies(h) && h[156] == typeflag
      && h[369..381] == offset && h[0..100] == name && h[124..136] == size
  {
    hide Put, Checksummed, ChecksumVerifies;
    var a := Put(Zeros(512), OFFSET, offset);
    var b := Put(a, TYPEFLAG, [typeflag]);
    var c := Put(b, NAME, name);
    var d := Put(c, SIZE, size);
    ChecksummedVerifies(d);
    FieldStays(d, 0, 100);
    FieldStays(d, 124, 136);
    FieldStays(d, 156, 157);
    FieldStays(d, 369, 381);
    PutReads(c, SIZE, size);
    PutReads(b, NAME, name);
    PutKeeps(c, SIZE, size, 0, 100);
    PutReads(a, TYPEFLAG, [typeflag]);
    PutKeeps(b, NAME, name, 156, 157);
    PutKeeps(c, SIZE, size, 156, 157);
    PutReads(Zeros(512), OFFSET, offset);
    PutKeeps(a, TYPEFLAG, [typeflag], 369, 381);
    PutKeeps(b, NAME, name, 369, 381);
    PutKeeps(c, SIZE, size, 369, 381);
    SubField(Checksummed(d), 156, [typeflag], 1);
  }

  lemma NumberReads(h: Header, at: nat, v: nat)
    requires at + 12 <= 512 && h[at..at + 12] == OctalField(v, 11)
    ensures ReadOctal(h, at, 11) == v <==> v < 8 * 1024 * 1024 * 1024
  {
    PowersOfEight();
    OctalFieldReadsBack(v, 11);
    hide OctalField, ParseOctal, Pow8;
    SubField(h, at, OctalField(v, 11), 11);
  }

  /** A name stands in its field, or the field is empty if the name does not fit. */
  predicate Shows(h: Header, at: nat, name: Path)
    requires at + 100 <= 512
  {
    forall i :: 0 <= i < 100 ==> h[at + i] == if i < |name| <= 100 then name[i] else 0
  }

  /**
   What an entry's own header says, read at its places: name and link, if they fit their fields, the size, and all
   else as the file's status has it.
   */
  lemma HeaderSays(attributes: Header, size: nat, tarpath: Path, link: Link, hard: bool)
    ensures var h := MainHeader(attributes, size, tarpath, link, hard);
      && ChecksumVerifies(h) && (ReadOctal(h, 124, 11) == size <==> size < 8 * 1024 * 1024 * 1024)
      && Shows(h, 0, tarpath)
      && Shows(h, 157, if hard && link.Link? && link.path != [] && link.path[0] == 47 then link.path[1..]
                       else if link.Link? then link.path else [])
      && h[156] == (if hard then 49 else attributes[156])
      && (forall i :: 100 <= i < 124 || 136 <= i < 148 || 257 <= i < 512 ==> h[i] == attributes[i])
  {
    MeasuredText(link, hard);
    hide OctalField, Put, StrN, Checksummed, ReadOctal, ChecksumVerifies, Short, MeasuredLink, PathOf, Shows, Typed;
    var name, linkname := StrN(Short(tarpath), 100), StrN(Short(PathOf(MeasuredLink(link, hard))), 100);
    TypedFlag(attributes, hard);
    MainFields(Typed(attributes, hard), name, linkname, OctalField(size, 11));
    AttributesStay(Typed(attributes, hard), name, linkname, OctalField(size, 11));
    var h := MainHeader(attributes, size, tarpath, link, hard);
    NumberReads(h, 124, size);
    ShortShows(h, 0, tarpath);
    ShortShows(h, 157, PathOf(MeasuredLink(link, hard)));
  }

  lemma MeasuredText(link: Link, hard: bool)
    ensures PathOf(MeasuredLink(link, hard))
         == if hard && link.Link? && link.path != [] && link.path[0] == 47 then link.path[1..]
            else if link.Link? then link.path else []
  {
  }

  lemma MainFields(attributes: Header, name: seq<byte>, linkname: seq<byte>, size: seq<byte>)
    requires |name| == |linkname| == 100 && |size| == 12
    ensures var h := Checksummed(Put(Put(Put(attributes, NAME, name), LINKNAME, linkname), SIZE, size));
      && ChecksumVerifies(h) && h[0..100] == name && h[157..257] == linkname && h[124..136] == size
  {
    hide Put, Checksummed, ChecksumVerifies;
    var a := Put(attributes, NAME, name);
    var b := Put(a, LINKNAME, linkname);
    var c := Put(b, SIZE, size);
    ChecksummedVerifies(c);
    FieldStays(c, 0, 100);
    FieldStays(c, 124, 136);
    FieldStays(c, 157, 257);
    PutReads(b, SIZE, size);
    PutReads(a, LINKNAME, linkname);
    PutKeeps(b, SIZE, size, 157, 257);
    PutReads(attributes, NAME, name);
    PutKeeps(a, LINKNAME, linkname, 0, 100);
    PutKeeps(b, SIZE, size, 0, 100);
  }

  lemma AttributesStay(attributes: Header, name: seq<byte>, linkname: seq<byte>, size: seq<byte>)
    requires |name| == |linkname| == 100 && |size| == 12
    ensures var h := Checksummed(Put(Put(Put(attributes, NAME, name), LINKNAME, linkname), SIZE, size));
      forall i :: 100 <= i < 124 || 136 <= i < 148 || i == 156 || 257 <= i < 512 ==> h[i] == attributes[i]
  {
    var a := Put(attributes, NAME, name);
    var b := Put(a, LINKNAME, linkname);
    var c := Put(b, SIZE, size);
    var sum := OctalField(Sum(Put(c, CHECKSUM, SPACES)), 7);
    PutElsewhere(attributes, NAME, name);
    PutElsewhere(a, LINKNAME, linkname);
    PutElsewhere(b, SIZE, size);
    PutElsewhere(c, CHECKSUM, sum);
    hide Sum, OctalField, Put;
  }

  /** What the header of a long record says: the name and type of such records, no time, and the size of the text. */
  lemma LongHeaderSays(main: Header, typeflag: byte, size: nat)
    ensures var h := LongHeader(main, typeflag, size);
      && ChecksumVerifies(h) && h[156] == typeflag
      && h[..14] == [46, 47, 46, 47, 64, 76, 111, 110, 103, 76, 105, 110, 107, 0]
      && ReadOctal(h, 136, 11) == 0 && (ReadOctal(h, 124, 11) == size <==> size < 8 * 1024 * 1024 * 1024)
  {
    hide OctalField, Put, Checksummed, ReadOctal, ChecksumVerifies;
    LongFields(main, OctalField(0, 11), typeflag, OctalField(size, 11));
    var h := LongHeader(main, typeflag, size);
    NumberReads(h, 136, 0);
    NumberReads(h, 124, size);
  }

  lemma LongFields(main: Header, mtime: seq<byte>, typeflag: byte, size: seq<byte>)
    requires |mtime| == |size| == 12
    ensures var h := Checksummed(
        Put(Put(Put(Put(main, MTIME, mtime), TYPEFLAG, [typeflag]), NAME, LONGLINK_NAME + [0]), SIZE, size));
      && ChecksumVerifies(h) && h[156] == typeflag && h[136..148] == mtime && h[124..136] == size
      && h[..14] == [46, 47, 46, 47, 64, 76, 111, 110, 103, 76, 105, 110, 107, 0]
  {
    hide Put, Checksummed, ChecksumVerifies;
    var a := Put(main, MTIME, mtime);
    var b := Put(a, TYPEFLAG, [typeflag]);
    var c := Put(b, NAME, LONGLINK_NAME + [0]);
    var d := Put(c, SIZE, size);
    ChecksummedVerifies(d);
    FieldStays(d, 0, 14);
    FieldStays(d, 124, 136);
    FieldStays(d, 136, 148);
    FieldStays(d, 156, 157);
    PutReads(c, SIZE, size);
    PutReads(b, NAME, LONGLINK_NAME + [0]);
    PutKeeps(c, SIZE, size, 0, 14);
    PutReads(a, TYPEFLAG, [typeflag]);
    PutKeeps(b, NAME, LONGLINK_NAME + [0], 156, 157);
    PutKeeps(c, SIZE, size, 156, 157);
    PutReads(main, MTIME, mtime);
    PutKeeps(a, TYPEFLAG, [typeflag], 136, 148);
    PutKeeps(b, NAME, LONGLINK_NAME + [0], 136, 148);
    PutKeeps(c, SIZE, size, 136, 148);
    SubField(Checksummed(d), 156, [typeflag], 1);
  }

  /** The checksum leaves the other fields alone. */
  lemma FieldStays(h: Header, lo: nat, hi: nat)
    requires lo <= hi <= 148 || 156 <= lo <= hi <= 512
    ensures Checksummed(h)[lo..hi] == h[lo..hi]
  {
    hide Sum, OctalField;
    PutKeeps(h, CHECKSUM, OctalField(Sum(Put(h, CHECKSUM, SPACES)), 7), lo, hi);
  }

  lemma SubField(h: Header, at: nat, field: seq<byte>, n: nat)
    requires n <= |field| && at + |field| <= 512 && h[at..at + |field|] == field
    ensures h[at..at + n] == field[..n] && (n == 1 ==> h[at] == field[0])
  {
    assert h[at..at + |field|][..n] == h[at..at + n];
  }

  lemma ShortShows(h: Header, at: nat, name: Path)
    requires at + 100 <= 512 && h[at..at + 100] == StrN(Short(name), 100)
    ensures Shows(h, at, name)
  {
    NameReads(h, at, Short(name));
  }

  lemma NameReads(h: Header, at: nat, s: seq<byte>)
    requires at + 100 <= 512 && h[at..at + 100] == StrN(s, 100)
    ensures forall i :: 0 <= i < 100 ==> h[at + i] == if i < |s| then s[i] else 0
  {
    forall i | 0 <= i < 100
      ensures h[at + i] == if i < |s| then s[i] else 0
    {
      assert h[at..at + 100][i] == h[at + i];
    }
  }

  // ---------------------------------------------------------------- a reader of GNU records

  function UpToNul(s: seq<byte>): (r: seq<byte>) {
    if s == [] || s[0] == 0 then [] else [s[0]] + UpToNul(s[1..])
  }

  datatype HeaderInfo = HeaderInfo(typeflag: byte, size: nat, name: Path, linkname: Path) | BadHeader

  function ParseHeader(h: seq<byte>): HeaderInfo {
    if |h| != 512 || !ChecksumVerifies(h) then BadHeader
    else HeaderInfo(h[TYPEFLAG], ReadOctal(h, SIZE, 11),
                    UpToNul(h[NAME..NAME + 100]), UpToNul(h[LINKNAME..LINKNAME + 100]))
  }

  datatype Names = Names(path: Path, link: Path, headerBytes: nat) | NotAHeader

  /**
   A reader that collects 'K' and 'L' records until the entry's own header: each record's text is
   as long as its size field says, and the next header starts at the following block.
   */
  function ReadNames(parse: seq<byte> -> HeaderInfo, b: seq<byte>, at: nat, longPath: Link, longLink: Link): Names
    requires at <= |b|
    decreases |b| - at
  {
    if |b| - at < 512 then NotAHeader
    else
      match parse(b[at..at + 512])
      case BadHeader => NotAHeader
      case HeaderInfo(typeflag, size, name, linkname) =>
        var next := at + 512 + size + Fill(size);
        if typeflag == GNU_LONGLINK_TYPE || typeflag == GNU_LONGNAME_TYPE then
          if next > |b| then NotAHeader
          else
            var text := Link(UpToNul(b[at + 512..at + 512 + size]));
            if typeflag == GNU_LONGLINK_TYPE then ReadNames(parse, b, next, longPath, text)
            else ReadNames(parse, b, next, text, longLink)
        else
          Names(if longPath.Link? then longPath.path else name,
                if longLink.Link? then longLink.path else linkname,
                at + 512)
  }

  // ---------------------------------------------------------------- what is written is what is read

  ghost predicate CString(s: Path) {
    forall i :: 0 <= i < |s| ==> s[i] != 0
  }

  lemma {:induction false} UpToNulIs(t: seq<byte>, s: Path)
    requires CString(s) && |s| <= |t| && t[..|s|] == s && (|s| < |t| ==> t[|s|] == 0)
    ensures UpToNul(t) == s
  {
    if s != [] {
      assert t[0] == t[..|s|][0] == s[0];
      assert t[1..][..|s| - 1] == t[..|s|][1..] == s[1..];
      UpToNulIs(t[1..], s[1..]);
    }
  }

  lemma RetypedFlag(main: Header, typeflag: byte)
    ensures Retyped(main, typeflag)[TYPEFLAG] == typeflag
  {
    var timed := Put(main, MTIME, OctalField(0, 11));
    PutReads(timed, TYPEFLAG, [typeflag]);
    PutKeeps(Put(timed, TYPEFLAG, [typeflag]), NAME, LONGLINK_NAME + [0], TYPEFLAG, TYPEFLAG + 1);
  }

  lemma LongHeaderReads(main: Header, typeflag: byte, size: nat)
    requires size < Pow8(11)
    ensures var info := ParseHeader(LongHeader(main, typeflag, size));
      info.HeaderInfo? && info.typeflag == typeflag && info.size == size
  {
    var h := Put(Retyped(main, typeflag), SIZE, OctalField(size, 11));
    SizedKeepsNames(Retyped(main, typeflag), size);
    RetypedFlag(main, typeflag);
    OctalFieldReadsBack(size, 11);
    assert Checksummed(h)[SIZE..SIZE + 11] == OctalField(size, 11)[..11];
  }

  /** The entry's own header carries the names its fields have room for, and is no long record. */
  ghost predicate IsOwnHeader(info: HeaderInfo, tarpath: Path, link: Link, hard: bool) {
    && info.HeaderInfo? && info.typeflag != GNU_LONGLINK_TYPE && info.typeflag != GNU_LONGNAME_TYPE
    && (LongBlocks(|tarpath|) == 0 ==> info.name == tarpath)
    && (LinkBlocks(link, hard) == 0 ==> info.linkname == PathOf(MeasuredLink(link, hard)))
  }

  lemma NamedHeaderReads(attributes: Header, name: Path, linkname: Path)
    requires CString(name) && |name| <= 100 && CString(linkname) && |linkname| <= 100
    ensures var h := NamedHeader(attributes, name, linkname);
      && UpToNul(h[NAME..NAME + 100]) == name && UpToNul(h[LINKNAME..LINKNAME + 100]) == linkname
      && h[TYPEFLAG] == attributes[TYPEFLAG]
  {
    var named := Put(attributes, NAME, StrN(name, 100));
    PutKeeps(named, LINKNAME, StrN(linkname, 100), NAME, NAME + 100);
    PutReads(attributes, NAME, StrN(name, 100));
    PutReads(named, LINKNAME, StrN(linkname, 100));
    UpToNulIs(StrN(name, 100), name);
    UpToNulIs(StrN(linkname, 100), linkname);
  }

  /** Filling in size and checksum leaves the names and the type flag alone. */
  lemma SizedKeepsNames(named: Header, size: nat)
    ensures var h := Checksummed(Put(named, SIZE, OctalField(size, 11)));
      && ChecksumVerifies(h) && h[TYPEFLAG] == named[TYPEFLAG]
      && h[NAME..NAME + 100] == named[NAME..NAME + 100]
      && h[LINKNAME..LINKNAME + 100] == named[LINKNAME..LINKNAME + 100]
  {
    var sized := Put(named, SIZE, OctalField(size, 11));
    ChecksummedVerifies(sized);
    PutApart(named, SIZE, OctalField(size, 11));
    ChecksummedApart(sized);
  }

  /** A field leaves the names and the type flag alone that it does not reach into. */
  lemma PutApart(h: Header, at: nat, field: seq<byte>)
    requires NAME + 100 <= at && at + |field| <= TYPEFLAG
    ensures var r := Put(h, at, field);
      && r[TYPEFLAG] == h[TYPEFLAG] && r[NAME..NAME + 100] == h[NAME..NAME + 100]
      && r[LINKNAME..LINKNAME + 100] == h[LINKNAME..LINKNAME + 100]
  {
    PutKeeps(h, at, field, NAME, NAME + 100);
    PutKeeps(h, at, field, LINKNAME, LINKNAME + 100);
    PutKeeps(h, at, field, TYPEFLAG, TYPEFLAG + 1);
    assert Put(h, at, field)[TYPEFLAG] == Put(h, at, field)[TYPEFLAG..TYPEFLAG + 1][0];
    assert h[TYPEFLAG] == h[TYPEFLAG..TYPEFLAG + 1][0];
  }

  lemma ChecksummedApart(h: Header)
    ensures var r := Checksummed(h);
      && r[TYPEFLAG] == h[TYPEFLAG] && r[NAME..NAME + 100] == h[NAME..NAME + 100]
      && r[LINKNAME..LINKNAME + 100] == h[LINKNAME..LINKNAME + 100]
  {
    hide Sum, OctalField, Put;
    PutApart(h, CHECKSUM, OctalField(Sum(Put(h, CHECKSUM, SPACES)), 7));
  }

  lemma MainHeaderReads(attributes: Header, size: nat, tarpath: Path, link: Link, hard: bool)
    requires CString(tarpath) && (link.Link? ==> CString(link.path))
    requires attributes[TYPEFLAG] != GNU_LONGLINK_TYPE && attributes[TYPEFLAG] != GNU_LONGNAME_TYPE
    ensures IsOwnHeader(ParseHeader(MainHeader(attributes, size, tarpath, link, hard)), tarpath, link, hard)
  {
    var name, linkname := Short(tarpath), Short(PathOf(MeasuredLink(link, hard)));
    var typed := Typed(attributes, hard);
    TypedFlag(attributes, hard);
    NamedHeaderReads(typed, name, linkname);
    SizedKeepsNames(NamedHeader(typed, name, linkname), size);
  }

  lemma TypedFlag(attributes: Header, hard: bool)
    ensures var typed := Typed(attributes, hard);
      && typed[156] == (if hard then 49 else attributes[156])
      && forall i :: 0 <= i < 512 && i != 156 ==> typed[i] == attributes[i]
  {
  }

  /** What a reader needs to know of a long record: its header, its text, and where it sends the reader. */
  ghost predicate IsLongRecord(parse: seq<byte> -> HeaderInfo, r: seq<byte>, typeflag: byte, text: Path, size: nat) {
    && |r| >= 512 + size + Fill(size)
    && parse(r[..512]).HeaderInfo? && parse(r[..512]).typeflag == typeflag && parse(r[..512]).size == size
    && UpToNul(r[512..512 + size]) == text
  }

  lemma LongRecordIs(main: Header, typeflag: byte, text: Path, size: nat, blocks: nat)
    requires CString(text) && |text| <= size <= |text| + 1 && 0 < size < Pow8(11)
    requires blocks > 0 && size <= (blocks - 1) * 512
    ensures IsLongRecord(ParseHeader, LongRecord(main, typeflag, text, size, blocks), typeflag, text, size)
  {
    hide ParseHeader, LongHeader, StrN, UpToNul, Pow8;
    LongHeaderReads(main, typeflag, size);
    LongRecordText(LongHeader(main, typeflag, size), text, size, (blocks - 1) * 512);
  }

  lemma StrNPrefix(text: Path, size: nat, room: nat)
    requires CString(text) && |text| <= size <= |text| + 1 && size <= room
    ensures UpToNul(StrN(text, room)[..size]) == text
  {
    var t := StrN(text, room)[..size];
    assert t[..|text|] == text;
    UpToNulIs(t, text);
  }

  /** The text of a long record, as long as its size field says, is the name and perhaps one NUL. */
  lemma LongRecordText(h: Header, text: Path, size: nat, room: nat)
    requires CString(text) && |text| <= size <= |text| + 1 && size <= room
    ensures var r := h + StrN(text, room);
      r[..512] == h && UpToNul(r[512..512 + size]) == text && r[512..] == StrN(text, room)
  {
    var r := h + StrN(text, room);
    assert r[512..] == StrN(text, room);
    assert r[512..512 + size] == StrN(text, room)[..size];
    StrNPrefix(text, size, room);
  }

  /** A record whose text leaves its last block empty ends with a block of zeros. */
  lemma LongRecordEnd(main: Header, typeflag: byte, text: Path, size: nat, blocks: nat)
    requires blocks > 1 && |text| <= (blocks - 2) * 512
    ensures LongRecord(main, typeflag, text, size, blocks)[(blocks - 1) * 512..] == Zeros(512)
  {
    var body := StrN(text, (blocks - 1) * 512);
    assert (LongHeader(main, typeflag, size) + body)[(blocks - 1) * 512..] == body[(blocks - 2) * 512..];
  }

  lemma ZeroBlockIsNoHeader()
    ensures ParseHeader(Zeros(512)) == BadHeader
  {
    var blank := Put(Zeros(512), CHECKSUM, SPACES);
    ParseOfZeros(Zeros(512)[CHECKSUM..CHECKSUM + 7]);
    SumAtLeast(blank, CHECKSUM);
  }

  lemma ParseOfZeros(d: seq<byte>)
    requires forall i :: 0 <= i < |d| ==> d[i] == 0
    ensures ParseOctal(d) == 0
  {
  }

  lemma SumAtLeast(s: seq<byte>, i: nat)
    requires i < |s|
    ensures Sum(s) >= s[i]
  {
  }

  /** The size field of the link record sends the reader to the end of the record. */
  predicate LinkRecordEndsAtText(link: Link, hard: bool) {
    LinkBlocks(link, hard) == 0 || (hard && link.path[0] == 47) || |link.path| % 512 != 0
  }

  lemma LinkRecordLength(link: Link, hard: bool)
    requires LinkBlocks(link, hard) > 0
    ensures var reserved := (LinkBlocks(link, hard) - 1) * 512;
      reserved == |link.path| + Fill(|link.path|) + if LinkRecordEndsAtText(link, hard) then 0 else 512
    ensures LinkBlocks(link, hard) >= 2
  {
  }

  /** The text of a path record, counted with its NUL, fills the blocks reserved for it. */
  lemma PathRecordLength(len: nat)
    requires len > T_NAMELEN
    ensures len + 1 + Fill(len + 1) == (LongBlocks(len) - 1) * 512
  {
  }

  lemma PathRecordEnd(len: nat)
    requires LongBlocks(len) * 512 > 0
    ensures 512 + (len + 1) + Fill(len + 1) == LongBlocks(len) * 512
  {
    PathRecordLength(len);
    hide Fill;
  }

  /**
   A reader that follows the records finds the path and the link again and stops at the end of the
   header bytes, exactly when the text of a long link does not fill its last block: the record of
   such a link is given one block more than its size field admits to, and the reader stumbles on it.
   Of a hard link's text the reader finds the root slash only if the text has 102 characters or more.
   */
  lemma ReaderRecoversNames(attributes: Header, size: nat, tarpath: Path, link: Link, hard: bool, rest: seq<byte>)
    requires CString(tarpath) && (link.Link? ==> CString(link.path) && |link.path| < Pow8(11))
    requires |tarpath| + 1 < Pow8(11)
    requires attributes[156] != 75 && attributes[156] != 76
    ensures
      var rooted := hard && link.Link? && link.path != [] && link.path[0] == 47;
      var text := if link.NoLink? then [] else if rooted && |link.path| <= 101 then link.path[1..] else link.path;
      var header := HeaderBytes(attributes, size, tarpath, link, hard);
      ReadNames(ParseHeader, header + rest, 0, NoLink, NoLink) == Names(tarpath, text, |header|)
      <==> |text| <= 100 || rooted || |text| % 512 != 0
  {
    StoredText(link, hard);
    RecoveredText(link, hard);
    var main := MainHeader(attributes, size, tarpath, link, hard);
    hide MainHeader, LinkRecord, PathRecord, HeaderBytes, ParseHeader, ReadNames, CalculateHeaderSize, StoredLink,
      IsLinkRecord, IsLongRecord, IsOwnHeader, LinkRecordEndsAtText;
    var k, l := LinkRecord(main, link, hard), PathRecord(main, tarpath);
    HeaderBytesReadable(attributes, size, tarpath, link, hard);
    ZeroBlockIsNoHeader();
    assert k + l + main + rest == k + (l + main + rest);
    ReaderRecoversAround(ParseHeader, k, l, main, tarpath, link, hard, rest);
  }

  /** The text of a link in the header bytes: without a hard link's root slash, if it then fits its field. */
  lemma StoredText(link: Link, hard: bool)
    ensures PathOf(StoredLink(link, hard))
         == if link.NoLink? then []
            else if hard && link.path != [] && link.path[0] == 47 && |link.path| <= 101 then link.path[1..]
            else link.path
  {
  }

  lemma RecoveredText(link: Link, hard: bool)
    ensures
      var rooted := hard && link.Link? && link.path != [] && link.path[0] == 47;
      var text := PathOf(StoredLink(link, hard));
      LinkRecordEndsAtText(link, hard) <==> |text| <= 100 || rooted || |text| % 512 != 0
  {
  }

  /** The three pieces of the header bytes, as a reader sees them. */
  lemma HeaderBytesReadable(attributes: Header, size: nat, tarpath: Path, link: Link, hard: bool)
    requires CString(tarpath) && (link.Link? ==> CString(link.path) && |link.path| < Pow8(11))
    requires |tarpath| + 1 < Pow8(11)
    requires attributes[TYPEFLAG] != GNU_LONGLINK_TYPE && attributes[TYPEFLAG] != GNU_LONGNAME_TYPE
    ensures
      var main := MainHeader(attributes, size, tarpath, link, hard);
      var k, l := LinkRecord(main, link, hard), PathRecord(main, tarpath);
      && HeaderBytes(attributes, size, tarpath, link, hard) == k + l + main
      && IsOwnHeader(ParseHeader(main), tarpath, link, hard)
      && IsLinkRecord(ParseHeader, k, link, hard)
      && (l != [] ==> IsLongRecord(ParseHeader, l, GNU_LONGNAME_TYPE, tarpath, |tarpath| + 1))
  {
    var main := MainHeader(attributes, size, tarpath, link, hard);
    MainHeaderReads(attributes, size, tarpath, link, hard);
    LinkRecordIs(main, link, hard);
    PathRecordIs(main, tarpath);
  }

  ghost predicate IsLinkRecord(parse: seq<byte> -> HeaderInfo, r: seq<byte>, link: Link, hard: bool) {
    && |r| == LinkBlocks(link, hard) * 512
    && (r != [] ==>
          && IsLongRecord(parse, r, GNU_LONGLINK_TYPE, link.path, |link.path|)
          && (!LinkRecordEndsAtText(link, hard) ==> r[|r| - 512..] == Zeros(512)))
  }

  lemma LinkRecordIs(main: Header, link: Link, hard: bool)
    requires LinkBlocks(link, hard) > 0 ==> CString(link.path) && |link.path| < Pow8(11)
    ensures IsLinkRecord(ParseHeader, LinkRecord(main, link, hard), link, hard)
  {
    if LinkBlocks(link, hard) > 0 {
      LinkRecordLength(link, hard);
      LongRecordIs(main, GNU_LONGLINK_TYPE, link.path, |link.path|, LinkBlocks(link, hard));
      if !LinkRecordEndsAtText(link, hard) {
        LongRecordEnd(main, GNU_LONGLINK_TYPE, link.path, |link.path|, LinkBlocks(link, hard));
      }
    }
  }

  lemma PathRecordIs(main: Header, tarpath: Path)
    requires CString(tarpath) && |tarpath| + 1 < Pow8(11)
    ensures var r := PathRecord(main, tarpath);
      r != [] ==> IsLongRecord(ParseHeader, r, GNU_LONGNAME_TYPE, tarpath, |tarpath| + 1)
  {
    if |tarpath| > T_NAMELEN {
      LongRecordIs(main, GNU_LONGNAME_TYPE, tarpath, |tarpath| + 1, LongBlocks(|tarpath|));
    }
  }

  /** One step of the reader, over a long record. */
  lemma ReadLongRecord(parse: seq<byte> -> HeaderInfo, b: seq<byte>, at: nat, r: seq<byte>, typeflag: byte,
                       text: Path, size: nat, longPath: Link, longLink: Link, next: nat)
    requires IsLongRecord(parse, r, typeflag, text, size) && next == at + 512 + size + Fill(size)
    requires at + |r| <= |b| && b[at..at + |r|] == r
    requires typeflag == GNU_LONGLINK_TYPE || typeflag == GNU_LONGNAME_TYPE
    ensures next <= |b|
    ensures ReadNames(parse, b, at, longPath, longLink)
         == if typeflag == GNU_LONGLINK_TYPE then ReadNames(parse, b, next, longPath, Link(text))
            else ReadNames(parse, b, next, Link(text), longLink)
  {
    SubSlice(b, at, |r|, 0, 512);
    SubSlice(b, at, |r|, 512, 512 + size);
    hide ReadNames, Fill, UpToNul;
    ReadStep(parse, b, at, typeflag, text, size, longPath, longLink, next);
  }

  lemma ReadStep(parse: seq<byte> -> HeaderInfo, b: seq<byte>, at: nat, typeflag: byte, text: Path, size: nat,
                 longPath: Link, longLink: Link, next: nat)
    requires at + 512 + size <= next <= |b| && next == at + 512 + size + Fill(size)
    requires var info := parse(b[at..at + 512]); info.HeaderInfo? && info.typeflag == typeflag && info.size == size
    requires UpToNul(b[at + 512..at + 512 + size]) == text
    requires typeflag == GNU_LONGLINK_TYPE || typeflag == GNU_LONGNAME_TYPE
    ensures ReadNames(parse, b, at, longPath, longLink)
         == if typeflag == GNU_LONGLINK_TYPE then ReadNames(parse, b, next, longPath, Link(text))
            else ReadNames(parse, b, next, Link(text), longLink)
  {
    hide Fill, UpToNul;
  }

  /** The reader over any two records and a header: it gets through unless the link record outlasts its size field. */
  lemma ReaderRecoversAround(parse: seq<byte> -> HeaderInfo, linkRecord: seq<byte>, pathRecord: seq<byte>, main: Header,
                             tarpath: Path, link: Link, hard: bool, rest: seq<byte>)
    requires parse(Zeros(512)) == BadHeader && IsOwnHeader(parse(main), tarpath, link, hard)
    requires IsLinkRecord(parse, linkRecord, link, hard) && |pathRecord| == LongBlocks(|tarpath|) * 512
    requires pathRecord != [] ==> IsLongRecord(parse, pathRecord, GNU_LONGNAME_TYPE, tarpath, |tarpath| + 1)
    ensures ReadNames(parse, linkRecord + (pathRecord + main + rest), 0, NoLink, NoLink)
        == Names(tarpath, PathOf(StoredLink(link, hard)), CalculateHeaderSize(tarpath, link, hard))
      <==> LinkRecordEndsAtText(link, hard)
  {
    var b := linkRecord + (pathRecord + main + rest);
    assert b[|linkRecord|..] == pathRecord + main + rest && b[0..|linkRecord|] == linkRecord;
    hide *;
    Behind(b, |linkRecord|, pathRecord, main, rest);
    ReaderRecoversIn(parse, b, linkRecord, pathRecord, main, tarpath, link, hard);
  }

  lemma ReaderRecoversIn(parse: seq<byte> -> HeaderInfo, b: seq<byte>, linkRecord: seq<byte>, pathRecord: seq<byte>,
                         main: Header, tarpath: Path, link: Link, hard: bool)
    requires parse(Zeros(512)) == BadHeader && IsOwnHeader(parse(main), tarpath, link, hard)
    requires IsLinkRecord(parse, linkRecord, link, hard) && |pathRecord| == LongBlocks(|tarpath|) * 512
    requires pathRecord != [] ==> IsLongRecord(parse, pathRecord, GNU_LONGNAME_TYPE, tarpath, |tarpath| + 1)
    requires |linkRecord| + |pathRecord| + 512 <= |b| && b[0..|linkRecord|] == linkRecord
    requires b[|linkRecord|..|linkRecord| + |pathRecord|] == pathRecord
    requires b[|linkRecord| + |pathRecord|..|linkRecord| + |pathRecord| + 512] == main
    ensures ReadNames(parse, b, 0, NoLink, NoLink)
        == Names(tarpath, PathOf(StoredLink(link, hard)), CalculateHeaderSize(tarpath, link, hard))
      <==> LinkRecordEndsAtText(link, hard)
  {
    hide *;
    if LinkRecordEndsAtText(link, hard) {
      RecoversBehind(parse, b, linkRecord, pathRecord, main, tarpath, link, hard);
    } else {
      RecordsFit(parse, linkRecord, tarpath, link, hard);
      InLinkRecord(parse, b, linkRecord, link, hard);
    }
  }

  lemma RecoversBehind(parse: seq<byte> -> HeaderInfo, b: seq<byte>, linkRecord: seq<byte>, pathRecord: seq<byte>,
                       main: Header, tarpath: Path, link: Link, hard: bool)
    requires IsOwnHeader(parse(main), tarpath, link, hard) && LinkRecordEndsAtText(link, hard)
    requires IsLinkRecord(parse, linkRecord, link, hard) && |pathRecord| == LongBlocks(|tarpath|) * 512
    requires pathRecord != [] ==> IsLongRecord(parse, pathRecord, GNU_LONGNAME_TYPE, tarpath, |tarpath| + 1)
    requires |linkRecord| + |pathRecord| + 512 <= |b| && b[0..|linkRecord|] == linkRecord
    requires b[|linkRecord|..|linkRecord| + |pathRecord|] == pathRecord
    requires b[|linkRecord| + |pathRecord|..|linkRecord| + |pathRecord| + 512] == main
    ensures ReadNames(parse, b, 0, NoLink, NoLink)
         == Names(tarpath, PathOf(StoredLink(link, hard)), CalculateHeaderSize(tarpath, link, hard))
  {
    hide *;
    RecordsFit(parse, linkRecord, tarpath, link, hard);
    var longLink := if linkRecord == [] then NoLink else link;
    if linkRecord != [] {
      PastLinkRecord(parse, b, linkRecord, link, hard);
    }
    ReadPathRecordAndHeader(parse, b, |linkRecord|, pathRecord, main, tarpath, link, hard, longLink);
  }

  lemma RecordsFit(parse: seq<byte> -> HeaderInfo, r: seq<byte>, tarpath: Path, link: Link, hard: bool)
    requires IsLinkRecord(parse, r, link, hard)
    ensures r == [] <==> LinkBlocks(link, hard) == 0
    ensures r == [] ==> LinkRecordEndsAtText(link, hard)
    ensures CalculateHeaderSize(tarpath, link, hard) == |r| + LongBlocks(|tarpath|) * 512 + 512
  {
    hide IsLongRecord;
  }

  lemma PastLinkRecord(parse: seq<byte> -> HeaderInfo, b: seq<byte>, r: seq<byte>, link: Link, hard: bool)
    requires IsLinkRecord(parse, r, link, hard) && r != [] && LinkRecordEndsAtText(link, hard)
    requires |r| <= |b| && b[0..|r|] == r
    ensures ReadNames(parse, b, 0, NoLink, NoLink) == ReadNames(parse, b, |r|, NoLink, link)
  {
    LinkRecordKnown(parse, r, link, hard);
    hide *;
    ReadLongRecord(parse, b, 0, r, GNU_LONGLINK_TYPE, link.path, |link.path|, NoLink, NoLink, |r|);
  }

  lemma InLinkRecord(parse: seq<byte> -> HeaderInfo, b: seq<byte>, r: seq<byte>, link: Link, hard: bool)
    requires parse(Zeros(512)) == BadHeader && IsLinkRecord(parse, r, link, hard)
    requires r != [] && !LinkRecordEndsAtText(link, hard)
    requires |r| <= |b| && b[0..|r|] == r
    ensures ReadNames(parse, b, 0, NoLink, NoLink) == NotAHeader
  {
    LinkRecordKnown(parse, r, link, hard);
    hide *;
    ReadLongRecord(parse, b, 0, r, GNU_LONGLINK_TYPE, link.path, |link.path|, NoLink, NoLink, |r| - 512);
    SubSlice(b, 0, |r|, |r| - 512, |r|);
    StopsAtZeros(parse, b, |r| - 512, Link(link.path));
  }

  lemma LinkRecordKnown(parse: seq<byte> -> HeaderInfo, r: seq<byte>, link: Link, hard: bool)
    requires IsLinkRecord(parse, r, link, hard) && r != []
    ensures link.Link? && IsLongRecord(parse, r, GNU_LONGLINK_TYPE, link.path, |link.path|) && |r| >= 512
    ensures |r| == 512 + |link.path| + Fill(|link.path|) + if LinkRecordEndsAtText(link, hard) then 0 else 512
    ensures !LinkRecordEndsAtText(link, hard) ==> r[|r| - 512..|r|] == Zeros(512)
  {
    LinkRecordLength(link, hard);
    hide IsLongRecord, Fill, LinkRecordEndsAtText;
    assert r[|r| - 512..] == r[|r| - 512..|r|];
  }

  lemma StopsAtZeros(parse: seq<byte> -> HeaderInfo, b: seq<byte>, at: nat, longLink: Link)
    requires parse(Zeros(512)) == BadHeader && at + 512 <= |b| && b[at..at + 512] == Zeros(512)
    ensures ReadNames(parse, b, at, NoLink, longLink) == NotAHeader
  {
  }

  /** From the path record, or the header itself, the reader gets to the end. */
  lemma ReadPathRecordAndHeader(parse: seq<byte> -> HeaderInfo, b: seq<byte>, at: nat, pathRecord: seq<byte>,
                                main: Header, tarpath: Path, link: Link, hard: bool, longLink: Link)
    requires IsOwnHeader(parse(main), tarpath, link, hard)
    requires |pathRecord| == LongBlocks(|tarpath|) * 512
    requires pathRecord != [] ==> IsLongRecord(parse, pathRecord, GNU_LONGNAME_TYPE, tarpath, |tarpath| + 1)
    requires longLink == if LinkBlocks(link, hard) > 0 then link else NoLink
    requires at + |pathRecord| + 512 <= |b| && b[at..at + |pathRecord|] == pathRecord
    requires b[at + |pathRecord|..at + |pathRecord| + 512] == main
    ensures ReadNames(parse, b, at, NoLink, longLink)
         == Names(tarpath, PathOf(StoredLink(link, hard)), at + |pathRecord| + 512)
  {
    var l := |pathRecord|;
    if l > 0 {
      PathRecordEnds(parse, b, at, pathRecord, tarpath, longLink);
    }
    hide ReadNames, IsLongRecord;
    ReadHeader(parse, b, at + l, main, tarpath, link, hard, if l > 0 then Link(tarpath) else NoLink, longLink);
  }

  lemma Behind(b: seq<byte>, at: nat, first: seq<byte>, second: seq<byte>, rest: seq<byte>)
    requires at <= |b| && b[at..] == first + second + rest
    ensures at + |first| + |second| <= |b|
    ensures b[at..at + |first|] == first && b[at + |first|..at + |first| + |second|] == second
  {
    var tail := b[at..at + (|b| - at)];
    assert tail == first + second + rest;
    assert tail[0..|first|] == first && tail[|first|..|first| + |second|] == second;
    SubSlice(b, at, |b| - at, 0, |first|);
    SubSlice(b, at, |b| - at, |first|, |first| + |second|);
  }

  lemma PathRecordEnds(parse: seq<byte> -> HeaderInfo, b: seq<byte>, at: nat, r: seq<byte>, tarpath: Path,
                       longLink: Link)
    requires IsLongRecord(parse, r, GNU_LONGNAME_TYPE, tarpath, |tarpath| + 1)
    requires |r| == LongBlocks(|tarpath|) * 512 > 0 && at + |r| <= |b| && b[at..at + |r|] == r
    ensures ReadNames(parse, b, at, NoLink, longLink) == ReadNames(parse, b, at + |r|, Link(tarpath), longLink)
  {
    hide LongBlocks, Fill, ReadNames, IsLongRecord;
    PathRecordEnd(|tarpath|);
    ReadLongRecord(parse, b, at, r, GNU_LONGNAME_TYPE, tarpath, |tarpath| + 1, NoLink, longLink, at + |r|);
  }

  /** The header itself is the end. */
  lemma ReadHeader(parse: seq<byte> -> HeaderInfo, b: seq<byte>, at: nat, main: Header, tarpath: Path, link: Link,
                   hard: bool, longPath: Link, longLink: Link)
    requires at + 512 <= |b| && b[at..at + 512] == main && IsOwnHeader(parse(main), tarpath, link, hard)
    requires longPath == if LongBlocks(|tarpath|) > 0 then Link(tarpath) else NoLink
    requires longLink == if LinkBlocks(link, hard) > 0 then link else NoLink
    ensures ReadNames(parse, b, at, longPath, longLink) == Names(tarpath, PathOf(StoredLink(link, hard)), at + 512)
  {
  }

  /** The size field of a header can be read back exactly for files below 8 GiB. */
  lemma SizeFieldReadsBack(attributes: Header, size: nat, tarpath: Path, link: Link, hard: bool)
    ensures ReadOctal(MainHeader(attributes, size, tarpath, link, hard), SIZE, 11) == size
       <==> size < 8 * 1024 * 1024 * 1024
  {
    OctalFieldReadsBack(size, 11);
    var l := MeasuredLink(link, hard);
    var named := NamedHeader(Typed(attributes, hard), Short(tarpath), Short(PathOf(l)));
    assert Checksummed(Put(named, SIZE, OctalField(size, 11)))[SIZE..SIZE + 11] == OctalField(size, 11)[..11];
    PowersOfEight();
  }

  /** A file of 8 GiB. */
  lemma EightGigabytes(attributes: Header, tarpath: Path, link: Link)
    ensures ReadOctal(MainHeader(attributes, 8_589_934_592, tarpath, link, false), SIZE, 11) != 8_589_934_592
  {
    hide ReadOctal, MainHeader;
    SizeFieldReadsBack(attributes, 8_589_934_592, tarpath, link, false);
  }

  /** A symbolic link to a path of 512 bytes. */
  lemma BlockLongLink(attributes: Header, rest: seq<byte>)
    requires attributes[TYPEFLAG] != GNU_LONGLINK_TYPE && attributes[TYPEFLAG] != GNU_LONGNAME_TYPE
    ensures var link := Link(seq(512, _ => 120));
      ReadNames(ParseHeader, HeaderBytes(attributes, 0, [108], link, false) + rest, 0, NoLink, NoLink)
      != Names([108], link.path, CalculateHeaderSize([108], link, false))
  {
    var link := Link(seq(512, _ => 120));
    PowersOfEight();
    assert LinkBlocks(link, false) > 0 && !LinkRecordEndsAtText(link, false) && StoredLink(link, false) == link;
    hide ReadNames, HeaderBytes, ParseHeader, CalculateHeaderSize, Pow8;
    ReaderRecoversNames(attributes, 0, [108], link, false, rest);
  }

  lemma MainHeaderIs(attributes: Header, size: nat, tarpath: Path, link: Link, hard: bool)
    ensures MainHeader(attributes, size, tarpath, link, hard)
         == Checksummed(Put(Put(Put(Typed(attributes, hard), NAME, StrN(Short(tarpath), 100)),
                                LINKNAME, StrN(Short(PathOf(MeasuredLink(link, hard))), 100)),
                            SIZE, OctalField(size, 11)))
  {
  }

  lemma LinkLength(link: Link, hard: bool)
    ensures LinkBlocks(link, hard) == LongBlocks(|PathOf(MeasuredLink(link, hard))|)
  {
  }

  // ---------------------------------------------------------------- the header buffer

  /** The 512-byte buffer that the program fills field by field. */
  class TarHeader {
    const buf: array<byte>
    var numLongPathBlocks: nat
    var numLongLinkBlocks: nat

    ghost predicate Valid()
      reads this
    {
      buf.Length == 512
    }

    function Bytes(): Header
      requires Valid()
      reads this, buf
    {
      buf[..]
    }

    constructor ()
      ensures Valid() && fresh(buf)
      ensures Bytes() == Zeros(512) && numLongPathBlocks == numLongLinkBlocks == 0
    {
      buf := new byte[512](_ => 0);
      numLongPathBlocks, numLongLinkBlocks := 0, 0;
    }

    /** The header of an entry. */
    constructor ForEntry(attributes: Header, size: nat, tarpath: Path, link: Link, hard: bool)
      ensures Valid() && fresh(buf)
      ensures Bytes() == MainHeader(attributes, size, tarpath, link, hard)
      ensures numLongPathBlocks == LongBlocks(|tarpath|) && numLongLinkBlocks == LinkBlocks(link, hard)
    {
      buf := new byte[512](i requires 0 <= i < 512 => attributes[i]);
      numLongPathBlocks, numLongLinkBlocks := 0, 0;
      new;
      assert Bytes() == attributes;
      if hard {
        Write(TYPEFLAG, [LNKTYPE]);
      }
      assert Bytes() == Typed(attributes, hard);
      hide *;
      LinkLength(link, hard);
      numLongPathBlocks := StoreName(NAME, tarpath);
      numLongLinkBlocks := StoreName(LINKNAME, PathOf(MeasuredLink(link, hard)));
      SetSize(size);
      CalculateChecksum();
      MainHeaderIs(attributes, size, tarpath, link, hard);
    }

    /** A name that fits is stored, one that does not gets blocks of its own. */
    method StoreName(at: nat, name: Path) returns (blocks: nat)
      requires Valid() && at + 100 <= 512
      modifies buf
      ensures blocks == LongBlocks(|name|)
      ensures Bytes() == Put(old(Bytes()), at, StrN(Short(name), 100))
    {
      hide Put, StrN;
      if |name| <= T_NAMELEN {
        Write(at, StrN(name, 100));
        blocks := 0;
      } else {
        Write(at, StrN([], 100));
        blocks := 2 + |name| / 512;
      }
    }

    method Write(at: nat, field: seq<byte>)
      requires Valid() && at + |field| <= 512
      modifies buf
      ensures Bytes() == Put(old(Bytes()), at, field)
    {
      forall i | at <= i < at + |field| {
        buf[i] := field[i - at];
      }
      assert buf[..] == old(buf[..])[..at] + field + old(buf[..])[at + |field|..];
    }

    method SetSize(size: nat)
      requires Valid()
      modifies buf
      ensures Bytes() == Put(old(Bytes()), SIZE, OctalField(size, 11))
    {
      Write(SIZE, OctalField(size, 11));
    }

    /** Become the header of a long link or long path record of the given file header. */
    method SetLongType(file: TarHeader, typeflag: byte)
      requires Valid() && file.Valid() && file.buf != buf
      modifies buf
      ensures Bytes() == Retyped(file.Bytes(), typeflag)
    {
      Write(0, file.buf[..]);
      assert Bytes() == file.Bytes();
      Write(MTIME, OctalField(0, 11));
      Write(TYPEFLAG, [typeflag]);
      Write(NAME, LONGLINK_NAME + [0]);
    }

    method SetMultivolType(tarpath: Path, offset: nat)
      requires Valid()
      modifies buf
      ensures Bytes() == Put(Put(Put(old(Bytes()), OFFSET, OctalField(offset, 11)), TYPEFLAG, [GNU_MULTIVOL_TYPE]),
                             NAME, StrN(tarpath, 100))
    {
      Write(OFFSET, OctalField(offset, 11));
      Write(TYPEFLAG, [GNU_MULTIVOL_TYPE]);
      Write(NAME, StrN(tarpath, 100));
    }

    method CalculateChecksum()
      requires Valid()
      modifies buf
      ensures Bytes() == Checksummed(old(Bytes())) && ChecksumVerifies(Bytes())
    {
      ghost var was := Bytes();
      Write(CHECKSUM, SPACES);
      var checksum: nat := 0;
      for i := 0 to 512
        invariant checksum == Sum(buf[..i])
        invariant Bytes() == Put(was, CHECKSUM, SPACES)
      {
        assert buf[..i + 1][..i] == buf[..i];
        checksum := checksum + buf[i];
      }
      assert buf[..512] == buf[..];
      Write(CHECKSUM, OctalField(checksum, 7));
      assert Bytes() == Checksummed(was);
      ChecksummedVerifies(was);
    }
  }
}
