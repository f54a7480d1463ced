/** The files a tar becomes on disk: each part is its continuation header, its share of the tar, and zeros. */
module Parts {
  import opened Blocks
  import opened Layout
  import opened Splits

  ghost predicate Unsplit(g: Geometry, total: nat) {
    g == Geometry(1, total, total, 0)
  }

  ghost predicate Cut(g: Geometry, total: nat) {
    Unsplit(g, total) || g.Covers(total)
  }

  lemma CutSizes(g: Geometry, total: nat)
    requires Cut(g, total)
    ensures g.numParts >= 1 && g.partHeaderSize <= g.partSize
    ensures g.numParts == 1 ==> Unsplit(g, total)
    ensures g.numParts > 1 ==> g.Covers(total)
  {
  }

  /** Where in the tar the bytes of a part start. */
  ghost function StartOf(g: Geometry, part: nat): nat
    requires g.partHeaderSize <= g.partSize
  {
    g.OriginOffset(part, g.HeaderOf(part))
  }

  lemma PartInTar(g: Geometry, total: nat, part: nat)
    requires Cut(g, total) && part < g.numParts
    ensures g.HeaderOf(part) <= g.PartLength(part)
    ensures StartOf(g, part) + g.PartLength(part) - g.HeaderOf(part) <= total
  {
    if g.Covers(total) {
      PartRange(g, total, part);
      if part + 1 < g.numParts {
        PartRange(g, total, part + 1);
        OriginInside(g, total, part + 1, g.HeaderOf(part + 1));
      }
    }
  }

  ghost function PartFile(image: seq<byte>, g: Geometry, part: nat, header: seq<byte>, disk: nat): (f: seq<byte>)
    requires Cut(g, |image|) && part < g.numParts
    requires |header| == g.HeaderOf(part) && g.PartLength(part) <= disk
    ensures |f| == disk
  {
    PartInTar(g, |image|, part);
    var start := StartOf(g, part);
    header + image[start..start + g.PartLength(part) - g.HeaderOf(part)] + Zeros(disk - g.PartLength(part))
  }

  lemma PartFileHeader(image: seq<byte>, g: Geometry, part: nat, header: seq<byte>, disk: nat, from: nat, to: nat)
    requires Cut(g, |image|) && part < g.numParts
    requires |header| == g.HeaderOf(part) && g.PartLength(part) <= disk
    requires from <= to <= g.HeaderOf(part)
    ensures to <= disk && PartFile(image, g, part, header, disk)[from..to] == header[from..to]
  {
    PartInTar(g, |image|, part);
  }

  lemma PartFileContent(image: seq<byte>, g: Geometry, part: nat, header: seq<byte>, disk: nat, from: nat, to: nat)
    requires Cut(g, |image|) && part < g.numParts
    requires |header| == g.HeaderOf(part) && g.PartLength(part) <= disk
    requires g.HeaderOf(part) <= from <= to <= g.PartLength(part)
    ensures var at := g.OriginOffset(part, from);
      at + to - from <= |image| && PartFile(image, g, part, header, disk)[from..to] == image[at..at + to - from]
  {
    PartInTar(g, |image|, part);
    var h := g.HeaderOf(part);
    var start := StartOf(g, part);
    var n := g.PartLength(part) - h;
    var share := image[start..start + n];
    SliceInMiddle(header, share, Zeros(disk - g.PartLength(part)), from, to);
    SubSlice(image, start, n, from - h, to - h);
    assert g.OriginOffset(part, from) == start + (from - h);
  }

  lemma SliceInMiddle<T>(a: seq<T>, b: seq<T>, c: seq<T>, lo: nat, hi: nat)
    requires |a| <= lo <= hi <= |a| + |b|
    ensures (a + b + c)[lo..hi] == b[lo - |a|..hi - |a|]
  {
    SliceOfAppend(a + b, c, lo, hi);
    SliceOfAppend(a, b, lo, hi);
  }

  lemma PartFilePadding(image: seq<byte>, g: Geometry, part: nat, header: seq<byte>, disk: nat, from: nat, to: nat)
    requires Cut(g, |image|) && part < g.numParts
    requires |header| == g.HeaderOf(part) && g.PartLength(part) <= disk
    requires g.PartLength(part) <= from <= to <= disk
    ensures PartFile(image, g, part, header, disk)[from..to] == Zeros(to - from)
  {
    PartInTar(g, |image|, part);
  }

  /** A tar of whole blocks, cut in parts of whole blocks, has parts of whole blocks. */
  lemma PartsAligned(g: Geometry, total: nat, part: nat)
    requires Cut(g, total) && part < g.numParts && total % 512 == 0 && g.partHeaderSize % 512 == 0
    requires g.numParts > 1 ==> g.partSize % 512 == 0
    ensures g.PartLength(part) % 512 == 0
  {
    if part + 1 == g.numParts && part > 0 {
      var middle := (g.numParts - 2) * (g.partSize - g.partHeaderSize);
      assert g.lastPartSize == total - g.partSize - middle + g.partHeaderSize;
      hide Geometry.Covers;
      AddAligned(g.partSize, g.partHeaderSize);
      MulAligned(g.numParts - 2, g.partSize - g.partHeaderSize);
      LastAligned(total, g.partSize, middle, g.partHeaderSize);
    }
  }

  lemma LastAligned(total: int, partSize: int, middle: int, header: int)
    requires total % 512 == 0 && partSize % 512 == 0 && middle % 512 == 0 && header % 512 == 0
    ensures (total - partSize - middle + header) % 512 == 0
  {
    AddAligned(total, partSize);
    AddAligned(total - partSize, middle);
    AddAligned(total - partSize - middle, header);
  }

  /** A part's positions are as far from block boundaries as the offsets of the tar that they come from. */
  lemma OriginKeepsRest(g: Geometry, part: nat, from: nat)
    requires g.HeaderOf(part) <= from
    requires g.partHeaderSize <= g.partSize && (part > 0 ==> g.partSize % 512 == 0 && g.partHeaderSize % 512 == 0)
    ensures (g.OriginOffset(part, from) - from) % 512 == 0
  {
    if part > 0 {
      var full := (part - 1) * (g.partSize - g.partHeaderSize);
      assert g.OriginOffset(part, from) - from == g.partSize - g.partHeaderSize + full;
      hide Geometry.OriginOffset;
      AddAligned(g.partSize, g.partHeaderSize);
      MulAligned(part - 1, g.partSize - g.partHeaderSize);
      AddAligned(g.partSize - g.partHeaderSize, full);
    }
  }

  /** Block boundaries of a part come from block boundaries of the tar. */
  lemma OriginAligned(g: Geometry, part: nat, from: nat)
    requires g.HeaderOf(part) <= from && from % 512 == 0
    requires g.partHeaderSize <= g.partSize && (part > 0 ==> g.partSize % 512 == 0 && g.partHeaderSize % 512 == 0)
    ensures g.OriginOffset(part, from) % 512 == 0
  {
    hide *;
    OriginKeepsRest(g, part, from);
    AddAligned(g.OriginOffset(part, from) - from, from);
  }

  /**
   A read of the entry that covers a position of a part delivers the part's own bytes, up to the entry's
   end, exactly if it is faithful.
   */
  lemma ReadInPart(es: seq<Entry>, g: Geometry, part: nat, header: seq<byte>, disk: nat, from: nat, n: nat, k: nat,
                   d: nat)
    requires Cut(g, |TarImage(es)|) && part < g.numParts
    requires |header| == g.HeaderOf(part) && g.PartLength(part) <= disk
    requires k < |es| && d < es[k].BlockedSize() && n > 0
    requires g.HeaderOf(part) <= from && from + n <= g.PartLength(part) && g.partHeaderSize <= g.partSize
    requires g.OriginOffset(part, from) == Offset(es, k) + d
    ensures
      var got, m := CopyBytes(es[k], n, d), Min(n, es[k].BlockedSize() - d);
      0 < m && (got == PartFile(TarImage(es), g, part, header, disk)[from..from + m] <==> Faithful(es[k], n, d))
  {
    hide TarImage, Offset, CopyBytes, Entry.BlockedSize, Geometry.OriginOffset, Geometry.Covers, PartFile, Cut,
      Faithful;
    var m := Min(n, es[k].BlockedSize() - d);
    ReadInTar(es, k, n, d);
    PartFileContent(TarImage(es), g, part, header, disk, from, from + m);
  }

  /** The entry that covers a position of a part can be read faithfully from there, as far as a read goes. */
  ghost predicate FaithfulIn(es: seq<Entry>, g: Geometry, part: nat, from: nat, size: nat)
    requires g.partHeaderSize <= g.partSize && g.HeaderOf(part) <= from < g.PartLength(part)
  {
    var origin := g.OriginOffset(part, from);
    forall k :: 0 <= k < |es| && Offset(es, k) <= origin < Offset(es, k) + es[k].BlockedSize() ==>
      Faithful(es[k], Min(size, g.PartLength(part) - from), origin - Offset(es, k))
  }

  lemma FaithfulInCut(es: seq<Entry>, g: Geometry, part: nat, from: nat, size: nat)
    requires g.partHeaderSize <= g.partSize && g.HeaderOf(part) <= from < g.PartLength(part)
    ensures FaithfulIn(es, g, part, from, size) == FaithfulIn(es, g, part, from, Min(size, g.PartLength(part) - from))
  {
    hide Faithful, Offset, Geometry.OriginOffset;
  }
}
