/** Reading files back: byte ranges of a file out of the parts of the tar that holds it. */
module Restore {
  import opened Blocks
  import opened Splits
  import opened Parts

  /** The storage: what every file in it holds. */
  type Storage = map<string, seq<byte>>

  /** pread on a file of the storage; nothing is read from a file that is not there. */
  function PreadStored(storage: Storage, name: string, size: nat, offset: nat): (bytes: seq<byte>)
    ensures |bytes| <= size
  {
    if name in storage && offset <= |storage[name]| then
      storage[name][offset..offset + Min(size, |storage[name]| - offset)]
    else []
  }

  // ---------------------------------------------------------------- what is left of a tar

  /** A file agrees with a part of a tar as far as it goes: it may have been cut short. */
  ghost predicate Agrees(file: seq<byte>, image: seq<byte>, g: Geometry, part: nat)
    requires g.Covers(|image|) && part < g.numParts
  {
    PartInTar(g, |image|, part);
    var h, m := g.HeaderOf(part), Min(|file|, g.PartLength(part));
    h < m ==> file[h..m] == image[StartOf(g, part)..StartOf(g, part) + m - h]
  }

  ghost predicate AgreesWhole(file: seq<byte>, image: seq<byte>) {
    var m := Min(|file|, |image|);
    file[..m] == image[..m]
  }

  /**
   What is still stored of a tar is right: parts may have been lost, or cut short. A tar in one piece
   has no geometry.
   */
  ghost predicate Restorable(g: Geometry, storage: Storage, names: seq<string>, image: seq<byte>) {
    && |image| < SIZE_LIMIT && g.numParts < UINT_LIMIT && |names| == g.numParts > 0
    && if g.numParts == 1 then names[0] in storage ==> AgreesWhole(storage[names[0]], image)
       else g.Covers(|image|)
            && forall part: nat :: part < g.numParts && names[part] in storage ==>
                  Agrees(storage[names[part]], image, g, part)
  }

  /** Every part is stored, in its full length. */
  ghost predicate AllWhole(g: Geometry, storage: Storage, names: seq<string>, total: nat) {
    |names| == g.numParts && forall part: nat :: part < g.numParts ==>
      names[part] in storage && (if g.numParts == 1 then total else g.PartLength(part)) <= |storage[names[part]]|
  }

  lemma PartFileAgrees(image: seq<byte>, g: Geometry, part: nat, header: seq<byte>, disk: nat)
    requires g.Covers(|image|) && part < g.numParts
    requires |header| == g.HeaderOf(part) && g.PartLength(part) <= disk
    ensures Agrees(PartFile(image, g, part, header, disk), image, g, part)
  {
    PartInTar(g, |image|, part);
    PartFileContent(image, g, part, header, disk, g.HeaderOf(part), g.PartLength(part));
  }

  lemma WholeFileAgrees(image: seq<byte>, g: Geometry, header: seq<byte>, disk: nat)
    requires Unsplit(g, |image|) && header == [] && |image| <= disk
    ensures AgreesWhole(PartFile(image, g, 0, header, disk), image)
  {
    PartFileContent(image, g, 0, header, disk, 0, |image|);
  }

  // ---------------------------------------------------------------- one turn of the loop

  /** A range that lies inside a tar that was cut in parts. */
  ghost predicate InParts(g: Geometry, names: seq<string>, total: nat, at: nat, length: nat) {
    g.Covers(total) && total < SIZE_LIMIT && |names| == g.numParts < UINT_LIMIT && at + length <= total
  }

  datatype Request = Request(part: nat, inside: nat, size: nat)

  function LengthOfPart(g: Geometry, part: nat): nat {
    if part + 1 == g.numParts then g.lastPartSize else g.partSize
  }

  /** What a turn asks for: bytes of the part that holds the offset, up to the end of that part. */
  function RequestAt(g: Geometry, names: seq<string>, ghost total: nat, at: nat, length: nat): (r: Request)
    requires InParts(g, names, total, at, length) && length > 0
    ensures g.IsContent(r.part, r.inside) && r.part < |names| && g.partHeaderSize < g.partSize
    ensures g.OriginOffset(r.part, r.inside) == at
    ensures 0 < r.size <= length && r.inside + r.size <= g.PartLength(r.part)
    ensures r.size < length ==> r.inside + r.size == g.PartLength(r.part)
  {
    OriginOfFoundPart(g, total, at);
    var (part, inside) := g.FindPart(at);
    Request(part, inside, if length + inside > LengthOfPart(g, part) then LengthOfPart(g, part) - inside else length)
  }

  function Got(storage: Storage, names: seq<string>, r: Request): (bytes: seq<byte>)
    requires r.part < |names|
    ensures |bytes| <= r.size
  {
    PreadStored(storage, names[r.part], r.size, r.inside)
  }

  /** The byte of the tar at an offset is no longer stored. */
  ghost predicate Missing(g: Geometry, storage: Storage, names: seq<string>, total: nat, at: nat) {
    if g.numParts == 1 then |names| == 1 && (names[0] in storage ==> |storage[names[0]]| <= at)
    else InParts(g, names, total, at, 1) && Got(storage, names, RequestAt(g, names, total, at, 1)) == []
  }

  lemma PreadIs(storage: Storage, name: string, size: nat, offset: nat)
    ensures PreadStored(storage, name, size, offset)
         == if name in storage && offset < |storage[name]|
            then storage[name][offset..offset + Min(size, |storage[name]| - offset)] else []
  {
  }

  lemma PartAgrees(g: Geometry, storage: Storage, names: seq<string>, image: seq<byte>, part: nat)
    requires Restorable(g, storage, names, image) && g.Covers(|image|) && part < g.numParts
    ensures part < |names| && (names[part] in storage ==> Agrees(storage[names[part]], image, g, part))
  {
    hide Agrees;
  }

  /** A turn gets the tar's bytes. */
  lemma GotIs(g: Geometry, storage: Storage, names: seq<string>, image: seq<byte>, at: nat, length: nat)
    requires Restorable(g, storage, names, image) && InParts(g, names, |image|, at, length) && length > 0
    ensures var got := Got(storage, names, RequestAt(g, names, |image|, at, length));
      at + |got| <= |image| && got == image[at..at + |got|]
  {
    var r := RequestAt(g, names, |image|, at, length);
    hide Geometry.Covers, RequestAt, Agrees, Geometry.OriginOffset, Geometry.PartLength, Restorable;
    PartAgrees(g, storage, names, image, r.part);
    RangeInside(g, |image|, r.part, r.inside, r.size);
    if names[r.part] in storage {
      FileGives(storage[names[r.part]], image, g, r.part, r.inside, r.size);
    }
  }

  /** A turn that gets less than it asks for has met the first byte that is missing. */
  lemma GotShort(g: Geometry, storage: Storage, names: seq<string>, total: nat, at: nat, length: nat)
    requires InParts(g, names, total, at, length) && length > 0
    requires var r := RequestAt(g, names, total, at, length); |Got(storage, names, r)| < r.size
    ensures Missing(g, storage, names, total, at + |Got(storage, names, RequestAt(g, names, total, at, length))|)
  {
    var r := RequestAt(g, names, total, at, length);
    var got := Got(storage, names, r);
    assert g.numParts >= 2;
    hide RequestAt, Geometry.Covers, Geometry.OriginOffset, Geometry.PartLength, Geometry.IsContent;
    ShortIsAtEnd(storage, names[r.part], r.size, r.inside);
    hide PreadStored;
    SamePart(g, names, total, r, at, |got|);
  }

  /** Behind a read that gets less than it asks for there is nothing. */
  lemma ShortIsAtEnd(storage: Storage, name: string, size: nat, offset: nat)
    requires |PreadStored(storage, name, size, offset)| < size
    ensures PreadStored(storage, name, 1, offset + |PreadStored(storage, name, size, offset)|) == []
  {
  }

  /** What a file that agrees with its part gives of a range of the part. */
  lemma FileGives(file: seq<byte>, image: seq<byte>, g: Geometry, part: nat, inside: nat, n: nat)
    requires g.Covers(|image|) && part < g.numParts && Agrees(file, image, g, part)
    requires g.HeaderOf(part) <= inside && inside + n <= g.PartLength(part)
    ensures g.partHeaderSize <= g.partSize
    ensures inside <= |file| ==>
      var m, at := Min(n, |file| - inside), g.OriginOffset(part, inside);
      at + m <= |image| && file[inside..inside + m] == image[at..at + m]
  {
    PartInTar(g, |image|, part);
    var h, start := g.HeaderOf(part), StartOf(g, part);
    var all := Min(|file|, g.PartLength(part)) - h;
    assert g.OriginOffset(part, inside) == start + (inside - h);
    if inside <= |file| && all > 0 {
      var m := Min(n, |file| - inside);
      SubSlice(file, h, all, inside - h, inside - h + m);
      SubSlice(image, start, all, inside - h, inside - h + m);
    }
  }

  lemma RangeInside(g: Geometry, total: nat, part: nat, inside: nat, n: nat)
    requires g.Covers(total) && g.IsContent(part, inside) && inside + n <= g.PartLength(part)
    ensures g.partHeaderSize <= g.partSize && g.OriginOffset(part, inside) + n <= total
  {
    PartInTar(g, total, part);
  }

  /** An offset a little further on is a little further on in the same part. */
  lemma SamePart(g: Geometry, names: seq<string>, total: nat, r: Request, at: nat, n: nat)
    requires InParts(g, names, total, at, n + 1) && g.IsContent(r.part, r.inside) && g.partHeaderSize <= g.partSize
    requires g.OriginOffset(r.part, r.inside) == at && r.inside + n < g.PartLength(r.part)
    ensures RequestAt(g, names, total, at + n, 1) == Request(r.part, r.inside + n, 1)
  {
    assert g.OriginOffset(r.part, r.inside + n) == at + n;
    FindPartOfOrigin(g, total, r.part, r.inside + n);
    hide Geometry.Covers, Geometry.FindPart, Geometry.OriginOffset;
    OriginOfFoundPart(g, total, at + n);
  }

  // ---------------------------------------------------------------- the loop

  datatype Run = Run(n: nat, buffer: seq<byte>)

  /**
   What the loop does to a stretch of the buffer: each turn goes on behind what it asked for, even if it
   got less, and only a turn that gets nothing is the last.
   */
  function ReadRun(g: Geometry, storage: Storage, names: seq<string>, ghost total: nat, at: nat, was: seq<byte>)
    : (run: Run)
    requires InParts(g, names, total, at, |was|)
    ensures |run.buffer| == |was| && run.n <= |was|
    decreases |was|
  {
    if was == [] then Run(0, [])
    else
      var r := RequestAt(g, names, total, at, |was|);
      var got := Got(storage, names, r);
      if got == [] then Run(0, was)
      else
        var rest := ReadRun(g, storage, names, total, at + r.size, was[r.size..]);
        Run(|got| + rest.n, got + was[|got|..r.size] + rest.buffer)
  }

  /** No turn of a read gets less than it asks for, but for the last one that gets anything. */
  ghost predicate Unbroken(g: Geometry, storage: Storage, names: seq<string>, total: nat, at: nat, length: nat)
    requires InParts(g, names, total, at, length)
    decreases length
  {
    length > 0 ==>
      var r := RequestAt(g, names, total, at, length);
      var got := Got(storage, names, r);
      || got == []
      || (|got| == r.size && Unbroken(g, storage, names, total, at + r.size, length - r.size))
      || (|got| < r.size && Stops(g, storage, names, total, at + r.size, length - r.size))
  }

  ghost predicate Stops(g: Geometry, storage: Storage, names: seq<string>, total: nat, at: nat, length: nat)
    requires InParts(g, names, total, at, length)
  {
    length > 0 ==> Got(storage, names, RequestAt(g, names, total, at, length)) == []
  }

  lemma StoppedRun(g: Geometry, storage: Storage, names: seq<string>, total: nat, at: nat, was: seq<byte>)
    requires InParts(g, names, total, at, |was|)
    ensures ReadRun(g, storage, names, total, at, was).n == 0 <==> Stops(g, storage, names, total, at, |was|)
    ensures Stops(g, storage, names, total, at, |was|) ==> ReadRun(g, storage, names, total, at, was) == Run(0, was)
  {
    hide InParts, RequestAt;
  }

  /** The bytes of the tar from an offset on, at the start of the stretch, and the rest as it was. */
  ghost predicate IsFront(image: seq<byte>, at: nat, was: seq<byte>, run: Run) {
    at + run.n <= |image| && run.n <= |was| && run.buffer == image[at..at + run.n] + was[run.n..]
  }

  /** One turn, and the rest. */
  lemma RunStep(g: Geometry, storage: Storage, names: seq<string>, total: nat, at: nat, was: seq<byte>)
    requires InParts(g, names, total, at, |was|) && was != []
    ensures
      var r := RequestAt(g, names, total, at, |was|);
      var got := Got(storage, names, r);
      && InParts(g, names, total, at + r.size, |was| - r.size)
      && var rest := ReadRun(g, storage, names, total, at + r.size, was[r.size..]);
         ReadRun(g, storage, names, total, at, was)
         == if got == [] then Run(0, was) else Run(|got| + rest.n, got + was[|got|..r.size] + rest.buffer)
  {
    hide RequestAt, Got, Geometry.Covers;
  }

  lemma UnbrokenStep(g: Geometry, storage: Storage, names: seq<string>, total: nat, at: nat, length: nat)
    requires InParts(g, names, total, at, length) && length > 0
    ensures
      var r := RequestAt(g, names, total, at, length);
      var got := Got(storage, names, r);
      && InParts(g, names, total, at + r.size, length - r.size)
      && (Unbroken(g, storage, names, total, at, length) <==>
            got == [] || if |got| == r.size then Unbroken(g, storage, names, total, at + r.size, length - r.size)
                         else Stops(g, storage, names, total, at + r.size, length - r.size))
  {
    hide RequestAt, Got, Geometry.Covers;
  }

  /** An unbroken read gives the tar's own bytes, all of them or up to the first that is missing. */
  lemma {:induction false} UnbrokenIsRight(g: Geometry, storage: Storage, names: seq<string>, image: seq<byte>, at: nat,
                                          was: seq<byte>)
    requires Restorable(g, storage, names, image) && InParts(g, names, |image|, at, |was|)
    requires Unbroken(g, storage, names, |image|, at, |was|)
    ensures var run := ReadRun(g, storage, names, |image|, at, was);
      IsFront(image, at, was, run) && (run.n < |was| ==> Missing(g, storage, names, |image|, at + run.n))
    decreases |was|
  {
    hide *;
    if was == [] {
      EmptyRun(g, storage, names, |image|, at);
      NoFront(image, at, []);
    } else {
      var r := RequestAt(g, names, |image|, at, |was|);
      var got, behind := Got(storage, names, r), was[r.size..];
      RunStep(g, storage, names, |image|, at, was);
      UnbrokenStep(g, storage, names, |image|, at, |was|);
      GotIs(g, storage, names, image, at, |was|);
      if |got| < r.size {
        GotShort(g, storage, names, |image|, at, |was|);
      }
      if got == [] {
        NoFront(image, at, was);
      } else if |got| == r.size {
        UnbrokenIsRight(g, storage, names, image, at + r.size, behind);
        FrontsJoin(image, at, was, r.size, ReadRun(g, storage, names, |image|, at + r.size, behind));
      } else {
        StoppedRun(g, storage, names, |image|, at + r.size, behind);
        LastFront(image, at, was, |got|, r.size);
      }
    }
  }

  lemma EmptyRun(g: Geometry, storage: Storage, names: seq<string>, total: nat, at: nat)
    requires InParts(g, names, total, at, 0)
    ensures ReadRun(g, storage, names, total, at, []) == Run(0, []) && at <= total
  {
  }

  lemma NoFront(image: seq<byte>, at: nat, was: seq<byte>)
    requires at <= |image|
    ensures IsFront(image, at, was, Run(0, was))
  {
  }

  lemma LastFront(image: seq<byte>, at: nat, was: seq<byte>, n: nat, m: nat)
    requires n <= m <= |was| && at + n <= |image|
    ensures IsFront(image, at, was, Run(n + 0, image[at..at + n] + was[n..m] + was[m..]))
  {
  }

  lemma FrontsJoin(image: seq<byte>, at: nat, was: seq<byte>, n: nat, rest: Run)
    requires n <= |was| && at + n <= |image| && IsFront(image, at + n, was[n..], rest)
    ensures IsFront(image, at, was, Run(n + rest.n, image[at..at + n] + was[n..n] + rest.buffer))
  {
    SliceJoins(image, at, at + n, at + n + rest.n);
  }

  /** Some byte that was read is not the tar's. */
  ghost predicate IsWrong(image: seq<byte>, at: nat, run: Run) {
    run.n <= |run.buffer| && at + run.n <= |image| && exists i :: 0 <= i < run.n && run.buffer[i] != image[at + i]
  }

  /** A broken read leaves a gap: there is a buffer whose old bytes then pass for the tar's. */
  lemma {:induction false} BrokenIsWrong(g: Geometry, storage: Storage, names: seq<string>, image: seq<byte>, at: nat,
                                         length: nat)
    returns (was: seq<byte>)
    requires InParts(g, names, |image|, at, length) && !Unbroken(g, storage, names, |image|, at, length)
    ensures |was| == length && IsWrong(image, at, ReadRun(g, storage, names, |image|, at, was))
    decreases length
  {
    hide *;
    if length == 0 {
      EmptyIsUnbroken(g, storage, names, |image|, at);
      return [];
    }
    var r := RequestAt(g, names, |image|, at, length);
    var got := Got(storage, names, r);
    UnbrokenStep(g, storage, names, |image|, at, length);
    RunFits(g, names, |image|, at, length);
    if |got| == r.size {
      var behind := BrokenIsWrong(g, storage, names, image, at + r.size, length - r.size);
      was := got + behind;
      assert was[r.size..] == behind;
      RunStep(g, storage, names, |image|, at, was);
      WrongBehind(image, at, got, was[|got|..r.size], ReadRun(g, storage, names, |image|, at + r.size, behind));
    } else {
      var other: byte := if image[at + |got|] == 0 then 1 else 0;
      was := seq(length, _ => other);
      RunStep(g, storage, names, |image|, at, was);
      StoppedRun(g, storage, names, |image|, at + r.size, was[r.size..]);
      WrongInGap(image, at, got, was[|got|..r.size], ReadRun(g, storage, names, |image|, at + r.size, was[r.size..]));
    }
  }

  lemma EmptyIsUnbroken(g: Geometry, storage: Storage, names: seq<string>, total: nat, at: nat)
    requires InParts(g, names, total, at, 0)
    ensures Unbroken(g, storage, names, total, at, 0)
  {
  }

  lemma WrongBehind(image: seq<byte>, at: nat, got: seq<byte>, gap: seq<byte>, rest: Run)
    requires gap == [] && IsWrong(image, at + |got|, rest)
    ensures IsWrong(image, at, Run(|got| + rest.n, got + gap + rest.buffer))
  {
    var i :| 0 <= i < rest.n && rest.buffer[i] != image[at + |got| + i];
    var buffer := got + gap + rest.buffer;
    assert buffer[|got| + i] == rest.buffer[i] && image[at + (|got| + i)] == image[at + |got| + i];
  }

  lemma WrongInGap(image: seq<byte>, at: nat, got: seq<byte>, gap: seq<byte>, rest: Run)
    requires gap != [] && rest.n > 0 && rest.n <= |rest.buffer| && at + |got| + |gap| + rest.n <= |image|
    requires gap[0] != image[at + |got|]
    ensures IsWrong(image, at, Run(|got| + rest.n, got + gap + rest.buffer))
  {
    var buffer := got + gap + rest.buffer;
    assert buffer[|got|] == gap[0];
  }

  ghost predicate IsRight(image: seq<byte>, at: nat, run: Run) {
    run.n <= |run.buffer| && at + run.n <= |image| && run.buffer[..run.n] == image[at..at + run.n]
  }

  /** A read returns the tar's own bytes, whatever the buffer held before, exactly if it is unbroken. */
  lemma ReadIsRight(g: Geometry, storage: Storage, names: seq<string>, image: seq<byte>, at: nat, length: nat)
    requires Restorable(g, storage, names, image) && InParts(g, names, |image|, at, length)
    ensures Unbroken(g, storage, names, |image|, at, length) <==>
      forall was: seq<byte> | |was| == length :: IsRight(image, at, ReadRun(g, storage, names, |image|, at, was))
  {
    hide *;
    if Unbroken(g, storage, names, |image|, at, length) {
      forall was: seq<byte> | |was| == length
        ensures IsRight(image, at, ReadRun(g, storage, names, |image|, at, was))
      {
        UnbrokenIsRight(g, storage, names, image, at, was);
        FrontIsRight(image, at, was, ReadRun(g, storage, names, |image|, at, was));
      }
    } else {
      var was := BrokenIsWrong(g, storage, names, image, at, length);
      WrongIsNotRight(image, at, ReadRun(g, storage, names, |image|, at, was));
    }
  }

  lemma FrontIsRight(image: seq<byte>, at: nat, was: seq<byte>, run: Run)
    requires IsFront(image, at, was, run)
    ensures IsRight(image, at, run)
  {
  }

  lemma WrongIsNotRight(image: seq<byte>, at: nat, run: Run)
    requires IsWrong(image, at, run)
    ensures !IsRight(image, at, run)
  {
    var i :| 0 <= i < run.n && run.buffer[i] != image[at + i];
    assert run.buffer[..run.n][i] != image[at..at + run.n][i];
  }

  lemma RunFits(g: Geometry, names: seq<string>, total: nat, at: nat, length: nat)
    requires InParts(g, names, total, at, length)
    ensures at + length <= total
  {
  }

  // ---------------------------------------------------------------- gaps

  /** Some of a part's share of the tar is still stored. */
  ghost predicate Gives(g: Geometry, storage: Storage, names: seq<string>, part: nat) {
    part < |names| && names[part] in storage && g.HeaderOf(part) < |storage[names[part]]|
  }

  ghost predicate CutShort(g: Geometry, storage: Storage, names: seq<string>, part: nat) {
    Gives(g, storage, names, part) && |storage[names[part]]| < g.PartLength(part)
  }

  /** Nothing is left behind a part of which something is missing. */
  ghost predicate Gapless(g: Geometry, storage: Storage, names: seq<string>) {
    g.numParts == 1 || forall part: nat :: CutShort(g, storage, names, part) ==> !Gives(g, storage, names, part + 1)
  }

  /** Behind the end of a part the next one begins. */
  lemma NextPart(g: Geometry, names: seq<string>, total: nat, part: nat, inside: nat, n: nat, length: nat)
    requires g.Covers(total) && g.IsContent(part, inside) && inside + n == g.PartLength(part) && length > 0
    requires g.partHeaderSize <= g.partSize && InParts(g, names, total, g.OriginOffset(part, inside) + n, length)
    ensures var r := RequestAt(g, names, total, g.OriginOffset(part, inside) + n, length);
      r.part == part + 1 && r.inside == g.HeaderOf(part + 1)
  {
    PartRange(g, total, part);
    PartEnd(g, part, inside, n);
    if part + 1 < g.numParts {
      PartRange(g, total, part + 1);
      FindPartOfOrigin(g, total, part + 1, g.HeaderOf(part + 1));
      hide Geometry.Covers, Geometry.FindPart, Geometry.OriginOffset;
      OriginOfFoundPart(g, total, g.OriginOffset(part, inside) + n);
    }
  }

  lemma PartEnd(g: Geometry, part: nat, inside: nat, n: nat)
    requires g.HeaderOf(part) <= inside && g.partHeaderSize <= g.partSize && inside + n == g.PartLength(part)
    ensures g.OriginOffset(part, inside) + n ==
      g.OriginOffset(part, g.HeaderOf(part)) + g.PartLength(part) - g.HeaderOf(part)
  {
  }

  /** Without gaps every read is unbroken. */
  lemma {:induction false} GaplessIsUnbroken(g: Geometry, storage: Storage, names: seq<string>, total: nat, at: nat,
                                             length: nat)
    requires Gapless(g, storage, names) && InParts(g, names, total, at, length)
    ensures Unbroken(g, storage, names, total, at, length)
    decreases length
  {
    hide *;
    if length == 0 {
      EmptyIsUnbroken(g, storage, names, total, at);
    } else {
      var r := RequestAt(g, names, total, at, length);
      UnbrokenStep(g, storage, names, total, at, length);
      if |Got(storage, names, r)| == r.size {
        GaplessIsUnbroken(g, storage, names, total, at + r.size, length - r.size);
      } else if Got(storage, names, r) != [] {
        StopsAtGap(g, storage, names, total, at, length);
      }
    }
  }

  lemma StopsAtGap(g: Geometry, storage: Storage, names: seq<string>, total: nat, at: nat, length: nat)
    requires Gapless(g, storage, names) && InParts(g, names, total, at, length) && length > 0
    requires var r := RequestAt(g, names, total, at, length); 0 < |Got(storage, names, r)| < r.size
    ensures var r := RequestAt(g, names, total, at, length);
      && InParts(g, names, total, at + r.size, length - r.size)
      && Stops(g, storage, names, total, at + r.size, length - r.size)
  {
    hide *;
    var r := RequestAt(g, names, total, at, length);
    UnbrokenStep(g, storage, names, total, at, length);
    InPartsIs(g, names, total, at, length);
    ContentIs(g, r.part, r.inside);
    CutAt(g, storage, names, r);
    NothingBehind(g, storage, names, r.part);
    if length > r.size {
      NextPart(g, names, total, r.part, r.inside, r.size, length - r.size);
      NothingFrom(g, storage, names, RequestAt(g, names, total, at + r.size, length - r.size));
    }
    StopsIf(g, storage, names, total, at + r.size, length - r.size);
  }

  lemma InPartsIs(g: Geometry, names: seq<string>, total: nat, at: nat, length: nat)
    requires InParts(g, names, total, at, length)
    ensures g.Covers(total) && g.numParts > 1 && |names| == g.numParts
  {
  }

  lemma ContentIs(g: Geometry, part: nat, inside: nat)
    requires g.IsContent(part, inside)
    ensures g.HeaderOf(part) <= inside < g.PartLength(part)
  {
  }

  lemma NothingBehind(g: Geometry, storage: Storage, names: seq<string>, part: nat)
    requires Gapless(g, storage, names) && g.numParts > 1 && CutShort(g, storage, names, part)
    ensures !Gives(g, storage, names, part + 1)
  {
  }

  lemma StopsIf(g: Geometry, storage: Storage, names: seq<string>, total: nat, at: nat, length: nat)
    requires InParts(g, names, total, at, length)
    requires length > 0 ==> Got(storage, names, RequestAt(g, names, total, at, length)) == []
    ensures Stops(g, storage, names, total, at, length)
  {
  }

  lemma CutAt(g: Geometry, storage: Storage, names: seq<string>, r: Request)
    requires r.part < |names| && g.HeaderOf(r.part) <= r.inside && r.inside + r.size <= g.PartLength(r.part)
    requires 0 < |Got(storage, names, r)| < r.size
    ensures CutShort(g, storage, names, r.part)
  {
    PreadIs(storage, names[r.part], r.size, r.inside);
  }

  lemma NothingFrom(g: Geometry, storage: Storage, names: seq<string>, r: Request)
    requires r.part < |names| && r.inside == g.HeaderOf(r.part) && !Gives(g, storage, names, r.part)
    ensures Got(storage, names, r) == []
  {
    PreadIs(storage, names[r.part], r.size, r.inside);
  }

  /** Across a gap there is a read that is broken: of the last byte before it and the first one behind it. */
  lemma GapIsBroken(g: Geometry, storage: Storage, names: seq<string>, total: nat) returns (at: nat, length: nat)
    requires g.Covers(total) && total < SIZE_LIMIT && |names| == g.numParts < UINT_LIMIT && !Gapless(g, storage, names)
    ensures InParts(g, names, total, at, length) && !Unbroken(g, storage, names, total, at, length)
  {
    var part: nat :| CutShort(g, storage, names, part) && Gives(g, storage, names, part + 1);
    var inside := |storage[names[part]]| - 1;
    var size := g.PartLength(part) - inside;
    at, length := AcrossTheEnd(g, names, total, part, inside, size);
    UnbrokenStep(g, storage, names, total, at, length);
    PreadIs(storage, names[part], size, inside);
    var next := RequestAt(g, names, total, at + size, 1);
    PreadIs(storage, names[part + 1], next.size, next.inside);
    hide RequestAt, PreadStored, Unbroken;
  }

  lemma AcrossTheEnd(g: Geometry, names: seq<string>, total: nat, part: nat, inside: nat, size: nat)
    returns (at: nat, length: nat)
    requires g.Covers(total) && total < SIZE_LIMIT && |names| == g.numParts < UINT_LIMIT && part + 1 < g.numParts
    requires g.IsContent(part, inside) && inside + size == g.PartLength(part)
    ensures length == size + 1 && InParts(g, names, total, at, length) && InParts(g, names, total, at + size, 1)
    ensures RequestAt(g, names, total, at, length) == Request(part, inside, size)
    ensures var next := RequestAt(g, names, total, at + size, 1);
      next.part == part + 1 && next.inside == g.HeaderOf(part + 1)
  {
    at, length := g.OriginOffset(part, inside), size + 1;
    PartRange(g, total, part);
    PartRange(g, total, part + 1);
    PartInTar(g, total, part + 1);
    PartEnd(g, part, inside, size);
    FindPartOfOrigin(g, total, part, inside);
    hide Geometry.Covers, Geometry.OriginOffset, Geometry.FindPart;
    NextPart(g, names, total, part, inside, size, 1);
  }

  /** Every read of every range returns the tar's own bytes, whatever its buffer held, exactly if there are no gaps. */
  lemma ReadsAreRight(g: Geometry, storage: Storage, names: seq<string>, image: seq<byte>)
    requires Restorable(g, storage, names, image) && g.numParts > 1
    ensures Gapless(g, storage, names) <==>
      forall at: nat, was: seq<byte> | InParts(g, names, |image|, at, |was|) ::
        IsRight(image, at, ReadRun(g, storage, names, |image|, at, was))
  {
    hide IsRight, ReadRun, Gapless, Unbroken, Geometry.Covers;
    if Gapless(g, storage, names) {
      forall at: nat, was: seq<byte> | InParts(g, names, |image|, at, |was|)
        ensures IsRight(image, at, ReadRun(g, storage, names, |image|, at, was))
      {
        GaplessIsUnbroken(g, storage, names, |image|, at, |was|);
        ReadIsRight(g, storage, names, image, at, |was|);
      }
    } else {
      var at, length := GapIsBroken(g, storage, names, |image|);
      ReadIsRight(g, storage, names, image, at, length);
    }
  }

  const TRUNCATED: Storage := map["p1" := [1, 2, 3], "p2" := [0, 5, 6]]

  lemma TruncatedIsRestorable()
    ensures
      var g, names := Geometry(2, 4, 3, 1), ["p1", "p2"];
      Restorable(g, TRUNCATED, names, [1, 2, 3, 4, 5, 6]) && !Gapless(g, TRUNCATED, names)
  {
    var g, names: seq<string> := Geometry(2, 4, 3, 1), ["p1", "p2"];
    var image: seq<byte> := [1, 2, 3, 4, 5, 6];
    assert CutShort(g, TRUNCATED, names, 0) && Gives(g, TRUNCATED, names, 1);
    assert Agrees(TRUNCATED["p1"], image, g, 0) && Agrees(TRUNCATED["p2"], image, g, 1);
  }

  lemma TruncatedRequests()
    ensures
      var g, names := Geometry(2, 4, 3, 1), ["p1", "p2"];
      && InParts(g, names, 6, 0, 6) && RequestAt(g, names, 6, 0, 6) == Request(0, 0, 4)
      && InParts(g, names, 6, 4, 2) && RequestAt(g, names, 6, 4, 2) == Request(1, 1, 2) && InParts(g, names, 6, 6, 0)
  {
  }

  /** A first part that has lost its last byte: a byte of the old buffer is read in its place. */
  lemma TruncatedPart()
    ensures
      var g, names := Geometry(2, 4, 3, 1), ["p1", "p2"];
      && Restorable(g, TRUNCATED, names, [1, 2, 3, 4, 5, 6]) && !Gapless(g, TRUNCATED, names)
      && InParts(g, names, 6, 0, 6)
      && ReadRun(g, TRUNCATED, names, 6, 0, [9, 9, 9, 9, 9, 9]) == Run(5, [1, 2, 3, 9, 5, 6])
  {
    var g, names: seq<string> := Geometry(2, 4, 3, 1), ["p1", "p2"];
    TruncatedIsRestorable();
    TruncatedRequests();
    TruncatedGot(names);
    hide *;
    var was: seq<byte> := [9, 9, 9, 9, 9, 9];
    assert was[4..] == [9, 9] && was[3..4] == [9];
    RunStep(g, TRUNCATED, names, 6, 0, was);
    TruncatedEnd(g, names);
  }

  lemma TruncatedGot(names: seq<string>)
    requires names == ["p1", "p2"]
    ensures Got(TRUNCATED, names, Request(0, 0, 4)) == [1, 2, 3] && Got(TRUNCATED, names, Request(1, 1, 2)) == [5, 6]
  {
  }

  lemma TruncatedEnd(g: Geometry, names: seq<string>)
    requires InParts(g, names, 6, 4, 2) && InParts(g, names, 6, 6, 0)
    requires RequestAt(g, names, 6, 4, 2) == Request(1, 1, 2)
    requires Got(TRUNCATED, names, Request(1, 1, 2)) == [5, 6]
    ensures ReadRun(g, TRUNCATED, names, 6, 4, [9, 9]) == Run(2, [5, 6])
  {
    hide *;
    RunStep(g, TRUNCATED, names, 6, 4, [9, 9]);
    EmptyRun(g, TRUNCATED, names, 6, 6);
  }

  /** Whole parts leave no gaps, and nothing is missing. */
  lemma WholeIsGapless(g: Geometry, storage: Storage, names: seq<string>, total: nat)
    requires AllWhole(g, storage, names, total)
    ensures Gapless(g, storage, names)
    ensures forall at: nat :: at < total ==> !Missing(g, storage, names, total, at)
  {
    forall at: nat | at < total
      ensures !Missing(g, storage, names, total, at)
    {
      if g.numParts != 1 && InParts(g, names, total, at, 1) {
        var r := RequestAt(g, names, total, at, 1);
        PreadIs(storage, names[r.part], 1, r.inside);
        hide RequestAt, PreadStored, InParts;
      }
    }
  }

  // ---------------------------------------------------------------- reading

  /** Where the loop stands: what it has done to the buffer, and what is still to come. */
  ghost predicate IsRun(was: seq<byte>, pos: nat, front: seq<byte>, behind: seq<byte>, n: nat, rest: Run, all: Run,
                        now: seq<byte>)
  {
    && pos + |front| + |behind| <= |was| && now == Splice(was, pos, front + behind)
    && all == Run(n + rest.n, front + rest.buffer)
  }

  lemma StartOfRun(was: seq<byte>, pos: nat, size: nat, all: Run)
    requires pos + size <= |was|
    ensures IsRun(was, pos, [], was[pos..pos + size], 0, all, all, was)
  {
    assert [] + was[pos..pos + size] == was[pos..pos + size] && [] + all.buffer == all.buffer;
  }

  lemma TurnOfRun(was: seq<byte>, pos: nat, front: seq<byte>, behind: seq<byte>, n: nat, got: seq<byte>, size: nat,
                  rest: Run, all: Run, now: seq<byte>)
    requires |got| <= size <= |behind|
    requires IsRun(was, pos, front, behind, n, Run(|got| + rest.n, got + behind[|got|..size] + rest.buffer), all, now)
    ensures pos + |front| + |got| <= |now|
    ensures IsRun(was, pos, front + got + behind[|got|..size], behind[size..], n + |got|, rest, all,
                  Splice(now, pos + |front|, got))
  {
    var gap := behind[|got|..size];
    assert front + got + gap + rest.buffer == front + (got + gap + rest.buffer);
    assert behind[|got|..] == gap + behind[size..];
    assert front + got + gap + behind[size..] == front + got + behind[|got|..];
    SpliceInside(was, pos, front, behind, got);
  }

  lemma SpliceInside(was: seq<byte>, pos: nat, front: seq<byte>, behind: seq<byte>, got: seq<byte>)
    requires pos + |front| + |behind| <= |was| && |got| <= |behind|
    ensures Splice(Splice(was, pos, front + behind), pos + |front|, got) ==
      Splice(was, pos, front + got + behind[|got|..])
  {
  }

  lemma EndOfRun(was: seq<byte>, pos: nat, front: seq<byte>, behind: seq<byte>, n: nat, all: Run, now: seq<byte>)
    requires IsRun(was, pos, front, behind, n, Run(0, behind), all, now)
    ensures all.n == n && pos + |all.buffer| <= |was| && now == Splice(was, pos, all.buffer)
  {
  }

  /** A file as the index describes it: where its data starts in its tar, and how the tar was cut. */
  datatype RestoreEntry = RestoreEntry(offset: nat, geo: Geometry) {
    /** Reads a range of the file from the parts. */
    method ReadParts(fileOffset: nat, buf: array<byte>, pos: nat, size: nat, storage: Storage, names: seq<string>,
                     ghost total: nat)
      returns (n: nat)
      requires InParts(geo, names, total, offset + fileOffset, size) && pos + size <= buf.Length
      modifies buf
      ensures var run := ReadRun(geo, storage, names, total, offset + fileOffset, old(buf[pos..pos + size]));
        n == run.n && buf[..] == Splice(old(buf[..]), pos, run.buffer)
    {
      hide *;
      ghost var was, behind, front: seq<byte> := buf[..], buf[pos..pos + size], [];
      ghost var all := ReadRun(geo, storage, names, total, offset + fileOffset, behind);
      n := 0;
      var tarOffset: nat, length: nat, at := offset + fileOffset, size, pos;
      StartOfRun(was, pos, size, all);
      while length > 0
        invariant InParts(geo, names, total, tarOffset, length) && |behind| == length && at == pos + |front|
        invariant IsRun(was, pos, front, behind, n, ReadRun(geo, storage, names, total, tarOffset, behind), all,
          buf[..])
      {
        var r := RequestAt(geo, names, total, tarOffset, length);
        var bytes := Got(storage, names, r);
        RunStep(geo, storage, names, total, tarOffset, behind);
        if bytes == [] {
          EndOfRun(was, pos, front, behind, n, all, buf[..]);
          return;
        }
        TurnOfRun(was, pos, front, behind, n, bytes, r.size,
                  ReadRun(geo, storage, names, total, tarOffset + r.size, behind[r.size..]), all, buf[..]);
        CopyInto(buf, at, bytes);
        front, behind := front + bytes + behind[|bytes|..r.size], behind[r.size..];
        n, length, tarOffset, at := n + |bytes|, length - r.size, tarOffset + r.size, at + r.size;
      }
      EmptyRun(geo, storage, names, total, tarOffset);
      assert behind == [];
      EndOfRun(was, pos, front, behind, n, all, buf[..]);
    }
    }

  /**
   One chunk: with one read from a tar in one piece, through the parts otherwise. Where there are no gaps
   it is the tar's own bytes, all of them or up to the first that is missing.
   */
  method ReadChunk(e: RestoreEntry, offset: nat, buf: array<byte>, read: nat, storage: Storage, names: seq<string>,
                   ghost image: seq<byte>)
    returns (n: nat)
    requires Restorable(e.geo, storage, names, image) && e.offset + offset + read <= |image|
    requires 0 < read <= buf.Length
    modifies buf
    ensures n <= read
    ensures Gapless(e.geo, storage, names) ==>
      && buf[..n] == image[e.offset + offset..e.offset + offset + n]
      && (n < read ==> Missing(e.geo, storage, names, |image|, e.offset + offset + n))
  {
    hide *;
    ghost var was := buf[..];
    var at := e.offset + offset;
    NamesAre(e.geo, storage, names, image, at, read);
    if e.geo.numParts == 1 {
      WholeTarRead(e.geo, storage, names, image, at, read);
      var bytes := PreadStored(storage, names[0], read, at);
      CopyInto(buf, 0, bytes);
      n := |bytes|;
      SplicedFront(was, bytes);
    } else {
      ghost var run := ReadRun(e.geo, storage, names, |image|, at, buf[0..read]);
      n := e.ReadParts(offset, buf, 0, read, storage, names, |image|);
      SplicedFront(was, run.buffer);
      if Gapless(e.geo, storage, names) {
        GaplessIsUnbroken(e.geo, storage, names, |image|, at, read);
        UnbrokenIsRight(e.geo, storage, names, image, at, was[0..read]);
        FrontIsRight(image, at, was[0..read], run);
        RightIs(image, at, run, buf[..]);
      }
    }
  }

  lemma SplicedFront(was: seq<byte>, s: seq<byte>)
    requires |s| <= |was|
    ensures s <= Splice(was, 0, s)
  {
  }

  lemma RightIs(image: seq<byte>, at: nat, run: Run, now: seq<byte>)
    requires IsRight(image, at, run) && run.buffer <= now
    ensures run.n <= |now| && now[..run.n] == image[at..at + run.n]
  {
  }

  lemma NamesAre(g: Geometry, storage: Storage, names: seq<string>, image: seq<byte>, at: nat, n: nat)
    requires Restorable(g, storage, names, image) && at + n <= |image|
    ensures |names| == g.numParts > 0 && (g.numParts != 1 ==> InParts(g, names, |image|, at, n))
  {
  }

  /** A tar in one piece is read at the tar's own offsets. */
  lemma WholeTarRead(g: Geometry, storage: Storage, names: seq<string>, image: seq<byte>, at: nat, n: nat)
    requires Restorable(g, storage, names, image) && g.numParts == 1 && at + n <= |image| && |names| == 1
    ensures var bytes := PreadStored(storage, names[0], n, at);
      && at + |bytes| <= |image| && bytes == image[at..at + |bytes|]
      && (|bytes| < n ==> Missing(g, storage, names, |image|, at + |bytes|))
  {
    if names[0] in storage && at <= |storage[names[0]]| {
      var file := storage[names[0]];
      var m := Min(|file|, |image|);
      var size := Min(n, |file| - at);
      assert file[0..m] == file[..m] && image[0..m] == image[..m];
      SubSlice(file, 0, m, at, at + size);
      SubSlice(image, 0, m, at, at + size);
    }
  }

  /**
   The restored file, fetched and written chunk by chunk until a chunk gets nothing. Where there are no
   gaps it is the range of the tar, the whole of it or up to the first byte that is missing.
   */
  method ExtractFile(e: RestoreEntry, size: nat, bufferSize: nat, storage: Storage, names: seq<string>,
                     ghost image: seq<byte>)
    returns (ok: bool, file: seq<byte>)
    requires Restorable(e.geo, storage, names, image) && e.offset + size <= |image| && bufferSize > 0
    ensures ok ==> |file| == size
    ensures Gapless(e.geo, storage, names) ==>
      && file <= image[e.offset..e.offset + size]
      && (!ok ==> Missing(e.geo, storage, names, |image|, e.offset + |file|))
  {
    hide *;
    ok, file := true, [];
    var buf := new byte[bufferSize](_ => 0);
    var offset: nat, remaining: nat := 0, size;
    assert image[e.offset..e.offset] == [];
    while remaining > 0
      invariant offset + remaining == size && |file| == offset
      invariant Gapless(e.geo, storage, names) ==> file == image[e.offset..e.offset + offset]
    {
      var read := if remaining > bufferSize then bufferSize else remaining;
      var n := ReadChunk(e, offset, buf, read, storage, names, image);
      if n == 0 {
        ok := false;
        break;
      }
      SliceJoins(image, e.offset, e.offset + offset, e.offset + offset + n);
      file := file + buf[..n];
      offset, remaining := offset + n, remaining - n;
    }
    if Gapless(e.geo, storage, names) {
      FrontOfRange(image, e.offset, offset, size);
    }
  }

  lemma FrontOfRange(image: seq<byte>, at: nat, n: nat, size: nat)
    requires n <= size && at + size <= |image|
    ensures image[at..at + n] <= image[at..at + size]
  {
  }
}
