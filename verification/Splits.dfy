/**
 How a tar larger than the split size is cut into parts, and the two offset formulas written
 on either side of the storage: the writer's (part, offset) -> tar offset, and the reader's
 tar offset -> (part, offset).
 */
module Splits {
  import opened Blocks

  datatype TarHeaderStyle = NoHeader | Simple | Full

  /** The split of one tar: what store hands to restore through the index file. */
  datatype Geometry = Geometry(numParts: nat, partSize: nat, lastPartSize: nat, partHeaderSize: nat) {

    /** Content bytes of a part, its multivolume header included. */
    function PartLength(part: nat): nat {
      if part + 1 < numParts then partSize else lastPartSize
    }

    /** Bytes at the start of a part that do not come from the tar. */
    function HeaderOf(part: nat): nat {
      if part == 0 then 0 else partHeaderSize
    }

    /** The tar is cut in at least two parts, none of them only a header, with nothing lost or repeated. */
    ghost predicate Covers(total: nat) {
      && numParts >= 2
      && partHeaderSize < lastPartSize <= partSize
      && partSize + (numParts - 2) * (partSize - partHeaderSize) + (lastPartSize - partHeaderSize) == total
    }

    /** A position of a part that holds a byte of the tar. */
    predicate IsContent(part: nat, offset: nat) {
      part < numParts && HeaderOf(part) <= offset < PartLength(part)
    }

    /** The writer's formula: where in the tar a position of a part comes from. */
    function OriginOffset(part: nat, offset: nat): nat
      requires HeaderOf(part) <= offset && partHeaderSize <= partSize
    {
      if part == 0 then offset
      else offset - partHeaderSize + partSize + (part - 1) * (partSize - partHeaderSize)
    }

    /** The reader's formula: which part, and where in it, holds an offset of the tar. */
    function FindPart(tarOffset: nat): (nat, nat)
      requires partHeaderSize < partSize
    {
      if tarOffset < partSize then (0, tarOffset)
      else
        var beyond := tarOffset - partSize;
        var data := partSize - partHeaderSize;
        var n := ToUint(beyond / data);
        (ToUint(n + 1), ToSize(beyond - n * data + partHeaderSize))
    }
  }

  function MultivolHeaderSize(ths: TarHeaderStyle): nat {
    if ths == NoHeader then 0 else T_BLOCKSIZE
  }

  /** What n parts that start with a multivolume header store. */
  function Stored(n: nat, data: nat): nat {
    n * data
  }

  /**
   The split, in the program's own 32 and 64 bit arithmetic. It covers the tar exactly when the
   number of parts needed fits the 32 bits it is kept in.
   */
  method SplitParts(total: nat, splitSize: nat, ths: TarHeaderStyle)
    returns (numParts: nat, partSize: nat, lastPartSize: nat, partHeaderSize: nat)
    requires MultivolHeaderSize(ths) < splitSize < total < SIZE_LIMIT
    ensures partSize == splitSize && partHeaderSize == MultivolHeaderSize(ths)
    ensures numParts < UINT_LIMIT && lastPartSize < SIZE_LIMIT
    ensures Geometry(numParts, partSize, lastPartSize, partHeaderSize).Covers(total)
       <==> CeilDiv(total - partHeaderSize, partSize - partHeaderSize) < UINT_LIMIT
  {
    hide ToUint, ToSize, CeilDiv, Outcome, Geometry.Covers, Stored;
    partSize := splitSize;
    partHeaderSize := if ths == NoHeader then 0 else 512;
    var data := partSize - partHeaderSize;
    var quotient := (total - partHeaderSize) / data;
    numParts := ToUint(quotient);
    var stores := ToSize(partSize + Stored(ToUint(numParts - 1), data));
    if stores == total {
      lastPartSize := partSize;
    } else {
      numParts := ToUint(numParts + 1);
      lastPartSize := ToSize(partHeaderSize + total - stores);
      LastPartAgrees(total, partSize, partHeaderSize, ToUint(quotient), data);
      var storedInLast := ToSize(total - partSize - Stored(ToUint(numParts - 2), data));
      assert lastPartSize == ToSize(storedInLast + partHeaderSize);
    }
    SplitOutcome(total, quotient, Geometry(numParts, partSize, lastPartSize, partHeaderSize));
  }

  /** What the split's arithmetic leaves in its out-parameters. */
  ghost predicate Outcome(total: nat, quotient: nat, g: Geometry)
    requires g.partHeaderSize < g.partSize
  {
    var stores := ToSize(g.partSize + Stored(ToUint(ToUint(quotient) - 1), g.partSize - g.partHeaderSize));
    && g.numParts == (if stores == total then ToUint(quotient) else ToUint(ToUint(quotient) + 1))
    && g.lastPartSize == (if stores == total then g.partSize else ToSize(g.partHeaderSize + total - stores))
  }

  lemma SplitOutcome(total: nat, quotient: nat, g: Geometry)
    requires g.partHeaderSize < g.partSize < total < SIZE_LIMIT
    requires quotient == (total - g.partHeaderSize) / (g.partSize - g.partHeaderSize)
    requires Outcome(total, quotient, g)
    ensures g.Covers(total) <==> CeilDiv(total - g.partHeaderSize, g.partSize - g.partHeaderSize) < UINT_LIMIT
  {
    SplitCounts(total, g.partSize, g.partHeaderSize, quotient);
    if CeilDiv(total - g.partHeaderSize, g.partSize - g.partHeaderSize) < UINT_LIMIT {
      assert ToUint(ToUint(quotient) - 1) == quotient - 1;
      SplitFits(total, quotient, g);
    } else if g.Covers(total) {
      CoveringCount(g, total);
    }
  }

  /** The program's own cross-check of the last part's size never fails, wrapped or not. */
  lemma LastPartAgrees(total: nat, partSize: nat, header: nat, n: nat, data: nat)
    requires n < UINT_LIMIT
    ensures ToSize(header + total - ToSize(partSize + Stored(ToUint(n - 1), data)))
         == ToSize(ToSize(total - partSize - Stored(ToUint(ToUint(n + 1) - 2), data)) + header)
  {
    hide ToUint, ToSize, Stored;
    SameCount(n);
    LastPartAgreesFor(total, partSize, header, Stored(ToUint(n - 1), data));
  }

  lemma SameCount(n: nat)
    requires n < UINT_LIMIT
    ensures ToUint(ToUint(n + 1) - 2) == ToUint(n - 1)
  {
  }

  lemma LastPartAgreesFor(total: int, partSize: int, header: int, afterFirst: int)
    ensures ToSize(header + total - ToSize(partSize + afterFirst))
         == ToSize(ToSize(total - partSize - afterFirst) + header)
  {
  }

  /** When the part count fits its 32 bits nothing wraps and the split covers the tar. */
  lemma SplitFits(total: nat, quotient: nat, g: Geometry)
    requires g.partHeaderSize < g.partSize < total < SIZE_LIMIT
    requires quotient == (total - g.partHeaderSize) / (g.partSize - g.partHeaderSize) >= 1
    requires CeilDiv(total - g.partHeaderSize, g.partSize - g.partHeaderSize) < UINT_LIMIT
    requires Outcome(total, quotient, g)
    ensures g.Covers(total)
  {
    var data := g.partSize - g.partHeaderSize;
    SplitCounts(total, g.partSize, g.partHeaderSize, quotient);
    MulStep(quotient - 1, quotient, data);
    MulStep(quotient, quotient + 1, data);
    if g.partSize + (quotient - 1) * data == total {
      MulStep(quotient - 2, quotient - 1, data);
    }
  }

  /** The quotient the program computes, against the number of parts really needed. */
  lemma SplitCounts(total: nat, partSize: nat, header: nat, quotient: nat)
    requires header < partSize < total && quotient == (total - header) / (partSize - header)
    ensures 1 <= quotient && header + quotient * (partSize - header) <= total
    ensures total < header + (quotient + 1) * (partSize - header)
    ensures CeilDiv(total - header, partSize - header)
         == if header + quotient * (partSize - header) == total then quotient else quotient + 1
    ensures header + quotient * (partSize - header) == total ==> quotient >= 2
  {
    var data := partSize - header;
    var n := total - header;
    var r := n % data;
    assert n == quotient * data + r;
    MulStep(quotient, 1, data);
    MulStep(quotient - 1, quotient, data);
    if r == 0 {
      CeilDivIs(n, data, quotient);
    } else {
      CeilDivIs(n, data, quotient + 1);
    }
  }

  /** A split that covers the tar has the least sufficient number of parts: there is only one such split. */
  lemma CoveringCount(g: Geometry, total: nat)
    requires g.Covers(total)
    ensures total >= g.partHeaderSize
    ensures g.numParts == CeilDiv(total - g.partHeaderSize, g.partSize - g.partHeaderSize)
  {
    var data := g.partSize - g.partHeaderSize;
    MulStep(g.numParts - 2, g.numParts - 1, data);
    MulStep(g.numParts - 1, g.numParts, data);
    CeilDivIs(total - g.partHeaderSize, data, g.numParts);
  }

  /**
   Parts of two blocks, one of them a header, for a tar with 2^32 blocks beyond the first: that is one
   part too many.
   */
  lemma TooManyParts(g: Geometry)
    requires g.partSize == 1024 && g.partHeaderSize == 512 && g.Covers(512 + 512 * UINT_LIMIT)
    ensures CeilDiv(512 * UINT_LIMIT, 1024 - 512) == g.numParts == UINT_LIMIT
  {
    CoveringCount(g, 512 + 512 * UINT_LIMIT);
  }

  /** The tar bytes of a part end where those of the next one start, and the last ends with the tar. */
  lemma PartRange(g: Geometry, total: nat, part: nat)
    requires g.Covers(total) && part < g.numParts
    ensures g.HeaderOf(part) < g.PartLength(part)
    ensures g.OriginOffset(part, g.HeaderOf(part)) + g.PartLength(part) - g.HeaderOf(part)
         == if part + 1 < g.numParts then g.OriginOffset(part + 1, g.partHeaderSize) else total
  {
    if 0 < part {
      MulStep(part - 1, part, g.partSize - g.partHeaderSize);
    }
  }

  /** Every content position of a part comes from inside the tar. */
  lemma OriginInside(g: Geometry, total: nat, part: nat, offset: nat)
    requires g.Covers(total) && g.IsContent(part, offset)
    ensures g.OriginOffset(part, offset) < total
  {
    var data := g.partSize - g.partHeaderSize;
    if part > 0 {
      MulStep(part - 1, g.numParts - 2, data);
      MulStep(part - 1, part, data);
    } else {
      MulStep(0, g.numParts - 2, data);
    }
  }

  /** The reader finds every content position of a part back from its offset in the tar. */
  lemma FindPartOfOrigin(g: Geometry, total: nat, part: nat, offset: nat)
    requires g.Covers(total) && total < SIZE_LIMIT && g.numParts < UINT_LIMIT
    requires g.IsContent(part, offset)
    ensures g.FindPart(g.OriginOffset(part, offset)) == (part, offset)
  {
    if part > 0 {
      OriginInside(g, total, part, offset);
      OriginBeyond(g, g.OriginOffset(part, offset), part - 1, offset - g.partHeaderSize);
    }
  }

  /** What the reader's formula gives, once the 32 and 64 bit limits are known not to matter. */
  lemma FoundPart(g: Geometry, tarOffset: nat, n: nat, full: nat)
    requires g.partHeaderSize < g.partSize <= tarOffset < SIZE_LIMIT
    requires n == (tarOffset - g.partSize) / (g.partSize - g.partHeaderSize) && n + 1 < UINT_LIMIT
    requires full == n * (g.partSize - g.partHeaderSize) <= tarOffset - g.partSize
    ensures g.FindPart(tarOffset) == (n + 1, tarOffset - g.partSize - full + g.partHeaderSize)
  {
  }

  /** Every offset of the tar is found at a content position, and that position comes from there. */
  lemma OriginOfFoundPart(g: Geometry, total: nat, tarOffset: nat)
    requires g.Covers(total) && total < SIZE_LIMIT && g.numParts < UINT_LIMIT
    requires tarOffset < total
    ensures g.IsContent(g.FindPart(tarOffset).0, g.FindPart(tarOffset).1)
    ensures g.OriginOffset(g.FindPart(tarOffset).0, g.FindPart(tarOffset).1) == tarOffset
  {
    if tarOffset >= g.partSize {
      var n, within := DivMod(tarOffset - g.partSize, g.partSize - g.partHeaderSize);
      WithinParts(g, total, n, within);
      OriginBeyond(g, tarOffset, n, within);
    }
  }

  /** An offset n whole parts and a bit beyond the first part, through both formulas. */
  lemma OriginBeyond(g: Geometry, tarOffset: nat, n: nat, within: nat)
    requires g.partHeaderSize < g.partSize && within < g.partSize - g.partHeaderSize
    requires tarOffset == g.partSize + n * (g.partSize - g.partHeaderSize) + within < SIZE_LIMIT
    requires n + 1 < UINT_LIMIT
    ensures g.FindPart(tarOffset) == (n + 1, within + g.partHeaderSize)
    ensures g.OriginOffset(n + 1, within + g.partHeaderSize) == tarOffset
  {
    hide Geometry.FindPart;
    var full := n * (g.partSize - g.partHeaderSize);
    DivIs(tarOffset - g.partSize, g.partSize - g.partHeaderSize, n, within);
    FoundPart(g, tarOffset, n, full);
  }

  /** An offset n whole parts and a bit beyond the first part lies in part n + 1. */
  lemma WithinParts(g: Geometry, total: nat, n: nat, within: nat)
    requires g.Covers(total) && within < g.partSize - g.partHeaderSize
    requires g.partSize + n * (g.partSize - g.partHeaderSize) + within < total
    ensures g.IsContent(n + 1, within + g.partHeaderSize)
  {
    MulStep(g.numParts - 2, n, g.partSize - g.partHeaderSize);
  }
}
