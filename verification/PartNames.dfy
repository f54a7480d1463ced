/**
 The part files of a tar, named three times over: by the backup that stores them, by the index
 that lists them as "first ... last", and by the restore that reads from them.
 */
module PartNames {
  import opened Blocks
  import opened Texts
  import opened TarKinds
  import opened Names

  /** What the names of a tar's parts are made from. */
  datatype TarInfo = TarInfo(
    kind: TarContents, sec: nat, nsec: nat, hash: string, numParts: nat, partSize: nat, lastPartSize: nat,
    ondiskPartSize: nat, ondiskLastPartSize: nat) {

    function PartContentSize(part: nat): nat {
      if numParts == 1 || part + 1 < numParts then partSize else lastPartSize
    }

    function DiskSize(part: nat): nat {
      if numParts == 1 || part + 1 < numParts then ondiskPartSize else ondiskLastPartSize
    }

    function NameOf(part: nat): TarFileName {
      TarFileName(kind, sec, nsec, hash, part, numParts, PartContentSize(part), DiskSize(part), false)
    }

    /** Laid out by a backup: files are smaller than 2^63 bytes. */
    predicate Valid() {
      && 0 < numParts && NameOf(0).Valid() && NameOf(numParts - 1).Valid()
      && PartContentSize(0) <= LONG_MAX && PartContentSize(numParts - 1) <= LONG_MAX
      && DiskSize(0) <= LONG_MAX && DiskSize(numParts - 1) <= LONG_MAX
    }
  }

  /** The files the backup stores for a tar. */
  function Stored(info: TarInfo, date: DateText, dir: Dir): (names: seq<string>)
    ensures |names| == info.numParts
  {
    seq(info.numParts, part requires 0 <= part < info.numParts => FullName(info.NameOf(part), date, dir))
  }

  lemma ValidNames(info: TarInfo, part: nat)
    requires info.Valid() && part < info.numParts
    ensures info.NameOf(part).Valid() && info.PartContentSize(part) <= LONG_MAX && info.DiskSize(part) <= LONG_MAX
  {
  }

  // ---------------------------------------------------------------- names tell parts apart

  /** Names that are equal have equal fields. */
  lemma SameNameSameFields(t: TarFileName, u: TarFileName, date: DateText, dir: Dir)
    requires t.Valid() && u.Valid() && t.kind == u.kind && AreDates(date)
    requires FullName(t, date, dir) == FullName(u, date, dir)
    ensures FieldTexts(t, date) == FieldTexts(u, date)
  {
    hide *;
    FullNameIs(t, date, dir);
    FullNameIs(u, date, dir);
    FieldsOfName(t, date, dir.Text() + Marker(t.kind));
    FieldsOfName(u, date, dir.Text() + Marker(u.kind));
  }

  lemma FieldsOfName(t: TarFileName, date: DateText, front: string)
    requires t.Valid() && AreDates(date)
    ensures SplitFields(front + AfterKind(t, date), |front|, 1, SEPARATORS) == Fields(FieldTexts(t, date))
  {
    NoSeparatorInFields(t, date);
    hide FieldTexts, Joined, SplitFields;
    SplitOfJoined(front, FieldTexts(t, date), SEPARATORS, 1);
  }

  /** Two parts of a tar never share a name. */
  lemma PartsHaveTheirOwnNames(info: TarInfo, date: DateText, dir: Dir, i: nat, j: nat)
    requires info.Valid() && AreDates(date) && i < info.numParts && j < info.numParts
    requires FullName(info.NameOf(i), date, dir) == FullName(info.NameOf(j), date, dir)
    ensures i == j
  {
    hide FullName, Padded, Printed, ValueOf, MicrosAndDate;
    ValidNames(info, i);
    ValidNames(info, j);
    SameNameSameFields(info.NameOf(i), info.NameOf(j), date, dir);
    assert FieldTexts(info.NameOf(i), date)[3] == FieldTexts(info.NameOf(j), date)[3];
    ValueOfPadded(i + 1, Hex, |Printed(info.numParts, Hex)|);
    ValueOfPadded(j + 1, Hex, |Printed(info.numParts, Hex)|);
  }

  // ---------------------------------------------------------------- the index

  const DOTS := " ... "

  /** How a tar is listed in the index: its only file, or its first and its last one. */
  function IndexText(info: TarInfo, date: DateText, dir: Dir): string
    requires info.numParts > 0
  {
    var first := Written(info.NameOf(0), date, dir, 1024);
    if info.numParts > 1 then first + DOTS + Written(info.NameOf(info.numParts - 1), date, dir, 1024) else first
  }

  function FindDots(s: string): (at: nat)
    ensures at <= |s| && (at < |s| ==> at + 5 <= |s| && s[at..at + 5] == DOTS)
  {
    FindDotsFrom(s, 0)
  }

  function FindDotsFrom(s: string, from: nat): (at: nat)
    requires from <= |s|
    ensures at <= |s| && (at < |s| ==> from <= at && at + 5 <= |s| && s[at..at + 5] == DOTS)
    decreases |s| - from
  {
    if from + 5 > |s| then |s| else if s[from..from + 5] == DOTS then from else FindDotsFrom(s, from + 1)
  }

  lemma {:induction false} FindDotsIs(a: string, b: string, from: nat)
    requires ' ' !in a && from <= |a|
    ensures FindDotsFrom(a + DOTS + b, from) == |a|
    decreases |a| - from
  {
    var s := a + DOTS + b;
    if from < |a| {
      assert s[from] == a[from] != ' ';
      FindDotsIs(a, b, from + 1);
    } else {
      assert s[from..from + 5] == DOTS;
    }
  }

  lemma {:induction false} FindNoDots(s: string, from: nat)
    requires ' ' !in s && from <= |s|
    ensures FindDotsFrom(s, from) == |s|
    decreases |s| - from
  {
    if from + 5 <= |s| {
      assert s[from] != ' ';
      FindNoDots(s, from + 1);
    }
  }

  /** The directory above a path. */
  function ParentOf(path: string): Dir {
    var at := AfterSlash(path);
    if at == 0 then NoDir else Dir(path[..at - 1])
  }

  /** Part i of a range that runs from one name to another. */
  function RangeName(from: TarFileName, to: TarFileName, i: nat): TarFileName {
    if i + 1 == from.numParts then from.(partNr := i, size := to.size, ondiskSize := to.ondiskSize)
    else from.(partNr := i)
  }

  /** A line of the index that can be read: a range is read through its first and its last name. */
  predicate Readable(tarFile: string) {
    var dots := FindDots(tarFile);
    dots < |tarFile| ==> ParseFileName(tarFile[..dots]).Parsed? && ParseFileName(tarFile[dots + 5..]).Parsed?
  }

  /** The files a line of the index stands for. */
  function Expanded(tarFile: string, date: DateText): seq<string>
    requires Readable(tarFile)
  {
    var dots := FindDots(tarFile);
    if dots == |tarFile| then [tarFile]
    else RangeNames(ParseFileName(tarFile[..dots]).name, ParseFileName(tarFile[dots + 5..]).name, date,
                    ParentOf(tarFile[..dots]))
  }

  function RangeNames(from: TarFileName, to: TarFileName, date: DateText, dir: Dir): (names: seq<string>)
    ensures |names| == from.numParts
  {
    seq(from.numParts, i requires 0 <= i < from.numParts => Written(RangeName(from, to, i), date, dir, 1024))
  }

  method Expand(tarFile: string, date: DateText) returns (names: seq<string>)
    requires Readable(tarFile)
    ensures names == Expanded(tarFile, date)
  {
    hide FindDots, ParseFileName, Written, ParentOf;
    var dots := FindDots(tarFile);
    if dots == |tarFile| {
      return [tarFile];
    }
    var from, to := tarFile[..dots], tarFile[dots + 5..];
    var dir := ParentOf(from);
    var fromfile, tofile := ParseFileName(from).name, ParseFileName(to).name;
    ghost var first := fromfile;
    names := [];
    for i := 0 to fromfile.numParts
      invariant fromfile.numParts == first.numParts && names == RangeNames(first, tofile, date, dir)[..i]
      invariant i < first.numParts ==> fromfile == first.(partNr := fromfile.partNr)
    {
      fromfile := fromfile.(partNr := i);
      if i == fromfile.numParts - 1 {
        fromfile := fromfile.(size := tofile.size, ondiskSize := tofile.ondiskSize);
      }
      names := names + [Written(fromfile, date, dir, 1024)];
    }
  }

  // ---------------------------------------------------------------- the three lists agree

  /** What a reader of a tar's first name knows of the tar. */
  function Known(info: TarInfo, date: DateText, part: nat): TarFileName {
    Reread(info.NameOf(part), date)
  }

  /** Names are printed from the directory's text only. */
  lemma SameTextSameName(t: TarFileName, date: DateText, dir: Dir, other: Dir)
    requires dir.Text() == other.Text()
    ensures FullName(t, date, dir) == FullName(t, date, other)
  {
  }

  lemma ParentOfName(t: TarFileName, date: DateText, dir: Dir)
    requires t.Valid() && AreDates(date)
    ensures ParentOf(FullName(t, date, dir)).Text() == dir.Text()
  {
    hide *;
    FullNameIs(t, date, dir);
    ParseMarked(t.kind, dir.Text(), AfterKind(t, date));
    ParentIs(FullName(t, date, dir), dir);
  }

  lemma ParentIs(name: string, dir: Dir)
    requires AfterSlash(name) == |dir.Text()| && dir.Text() <= name
    ensures ParentOf(name).Text() == dir.Text()
  {
  }

  /**
   A part named from what was read back of a tar's names is named as it was stored.
   */
  lemma NamedAsStored(info: TarInfo, date: DateText, dir: Dir, part: nat, t: TarFileName, other: Dir)
    requires info.Valid() && AreDates(date) && part < info.numParts && other.Text() == dir.Text()
    requires t ==
      Known(info, date, 0).(partNr := part, size := info.PartContentSize(part), ondiskSize := info.DiskSize(part))
    ensures FullName(t, date, other) == FullName(info.NameOf(part), date, dir)
  {
    hide FullName, Padded, Printed, Dir.Text;
    SameTextSameName(t, date, other, dir);
    ValidNames(info, part);
    var stored := info.NameOf(part);
    assert FieldTexts(t, date) == FieldTexts(stored, date);
    SameFieldsSameName(t, stored, date, dir);
  }

  /** The same, printed in a buffer: a name that is cut is no part's name. */
  lemma WrittenAsStored(info: TarInfo, date: DateText, dir: Dir, part: nat, t: TarFileName, other: Dir, bufLen: nat)
    requires info.Valid() && AreDates(date) && part < info.numParts && other.Text() == dir.Text() && bufLen > 0
    requires t ==
      Known(info, date, 0).(partNr := part, size := info.PartContentSize(part), ondiskSize := info.DiskSize(part))
    ensures Written(t, date, other, bufLen) == FullName(info.NameOf(part), date, dir)
      <==> |FullName(info.NameOf(part), date, dir)| < bufLen
  {
    hide *;
    NamedAsStored(info, date, dir, part, t, other);
    ValidNames(info, part);
    ReadNameIsValid(info, date, part, t);
    WrittenIs(t, date, other, bufLen);
    if |FullName(t, date, other)| >= bufLen {
      CutNameIsAnother(t, date, other, bufLen - 1);
      ParseOfFullName(info.NameOf(part), date, dir);
    }
  }

  lemma WrittenIs(t: TarFileName, date: DateText, dir: Dir, bufLen: nat)
    requires bufLen > 0
    ensures Written(t, date, dir, bufLen)
         == if |FullName(t, date, dir)| < bufLen then FullName(t, date, dir) else FullName(t, date, dir)[..bufLen - 1]
  {
  }

  lemma ReadNameIsValid(info: TarInfo, date: DateText, part: nat, t: TarFileName)
    requires info.Valid() && part < info.numParts
    requires t ==
      Known(info, date, 0).(partNr := part, size := info.PartContentSize(part), ondiskSize := info.DiskSize(part))
    ensures t.Valid()
  {
    ValidNames(info, part);
  }

  lemma SameFieldsSameName(t: TarFileName, u: TarFileName, date: DateText, dir: Dir)
    requires t.kind == u.kind && FieldTexts(t, date) == FieldTexts(u, date)
    ensures FullName(t, date, dir) == FullName(u, date, dir)
  {
    hide FieldTexts, Joined;
  }

  /** Every name of the tar fits the buffer it is printed in. */
  ghost predicate Fits(info: TarInfo, date: DateText, dir: Dir, bufLen: nat) {
    forall part: nat :: part < info.numParts ==> |FullName(info.NameOf(part), date, dir)| < bufLen
  }

  lemma NoSpaceInName(t: TarFileName, date: DateText, dir: Dir)
    requires t.Valid() && AreDates(date) && ' ' !in dir.Text()
    ensures ' ' !in FullName(t, date, dir)
  {
    assert ' ' !in MicrosAndDate(t, date) && ' ' !in PartNumber(t) && ' ' !in SuffixType(t.kind);
    assert ' ' !in Marker(t.kind);
    hide Printed, Padded, MicrosAndDate, PartNumber, ToSize, SuffixType, Marker, Joined, Dir.Text;
    NotInJoined(' ', FieldTexts(t, date), SEPARATORS);
  }

  lemma RangeIsRead(info: TarInfo, date: DateText, dir: Dir)
    requires info.Valid() && info.numParts > 1 && AreDates(date) && Fits(info, date, dir, 1024)
    requires ' ' !in dir.Text()
    ensures
      var text := IndexText(info, date, dir);
      var dots := FindDots(text);
      && dots < |text| && text[..dots] == FullName(info.NameOf(0), date, dir)
      && ParseFileName(text[..dots]) == Parsed(dir.Text(), Known(info, date, 0))
      && ParseFileName(text[dots + 5..]) == Parsed(dir.Text(), Known(info, date, info.numParts - 1))
  {
    hide *;
    ValidNames(info, 0);
    ValidNames(info, info.numParts - 1);
    IndexTextIs(info, date, dir);
    KnownIs(info, date, 0);
    NoSpaceInName(info.NameOf(0), date, dir);
    FindDotsAt(FullName(info.NameOf(0), date, dir), FullName(info.NameOf(info.numParts - 1), date, dir));
    ParseOfFullName(info.NameOf(0), date, dir);
    ParseOfFullName(info.NameOf(info.numParts - 1), date, dir);
    KnownIs(info, date, info.numParts - 1);
  }

  /**
   The files the index lists for a tar are the files that were stored. Directories in a storage have no
   spaces in their names, see SafePaths.SafeDirectoryHasNoSpace.
   */
  lemma IndexListsStored(info: TarInfo, date: DateText, dir: Dir)
    requires info.Valid() && AreDates(date) && Fits(info, date, dir, 1024)
    requires ' ' !in dir.Text()
    ensures Readable(IndexText(info, date, dir))
    ensures Expanded(IndexText(info, date, dir), date) == Stored(info, date, dir)
  {
    hide *;
    if info.numParts > 1 {
      RangeIsRead(info, date, dir);
      RangesAgree(info, date, dir);
      ExpandedRange(info, date, dir);
    } else {
      FileListsItself(info, date, dir);
    }
  }

  lemma ExpandedRange(info: TarInfo, date: DateText, dir: Dir)
    requires info.numParts > 1
    requires
      var text := IndexText(info, date, dir); var dots := FindDots(text);
      && dots < |text| && text[..dots] == FullName(info.NameOf(0), date, dir)
      && ParseFileName(text[..dots]) == Parsed(dir.Text(), Known(info, date, 0))
      && ParseFileName(text[dots + 5..]) == Parsed(dir.Text(), Known(info, date, info.numParts - 1))
    ensures Readable(IndexText(info, date, dir))
    ensures Expanded(IndexText(info, date, dir), date)
         == RangeNames(Known(info, date, 0), Known(info, date, info.numParts - 1), date,
                       ParentOf(FullName(info.NameOf(0), date, dir)))
  {
    hide FullName, ParseFileName, Known, ParentOf, FindDots, IndexText, RangeNames, Dir.Text;
  }

  lemma RangesAgree(info: TarInfo, date: DateText, dir: Dir)
    requires info.Valid() && info.numParts > 1 && AreDates(date) && Fits(info, date, dir, 1024)
    ensures RangeNames(Known(info, date, 0), Known(info, date, info.numParts - 1), date,
                       ParentOf(FullName(info.NameOf(0), date, dir))) == Stored(info, date, dir)
  {
    hide FullName, Written, ParentOf, RangeName;
    var stored := Stored(info, date, dir);
    var names := RangeNames(Known(info, date, 0), Known(info, date, info.numParts - 1), date,
                            ParentOf(FullName(info.NameOf(0), date, dir)));
    forall part: nat | part < info.numParts
      ensures names[part] == stored[part]
    {
      RangeIsStored(info, date, dir, part);
    }
  }

  lemma FileListsItself(info: TarInfo, date: DateText, dir: Dir)
    requires info.Valid() && info.numParts <= 1 && AreDates(date) && Fits(info, date, dir, 1024)
    requires ' ' !in dir.Text()
    ensures Readable(IndexText(info, date, dir))
    ensures info.numParts == 1 && Expanded(IndexText(info, date, dir), date) == Stored(info, date, dir)
  {
    ValidNames(info, 0);
    hide FullName, FindDotsFrom, Dir.Text;
    NoSpaceInName(info.NameOf(0), date, dir);
    FindNoDots(FullName(info.NameOf(0), date, dir), 0);
    assert info.numParts == 1 && Stored(info, date, dir) == [FullName(info.NameOf(0), date, dir)];
  }

  lemma KnownIs(info: TarInfo, date: DateText, part: nat)
    ensures Known(info, date, part) == Reread(info.NameOf(part), date) && info.NameOf(part).sec == info.sec
  {
  }

  lemma DotsBetween(info: TarInfo, date: DateText, dir: Dir)
    requires info.numParts > 1 && Fits(info, date, dir, 1024)
    ensures IndexText(info, date, dir)
         == FullName(info.NameOf(0), date, dir) + " ... " + FullName(info.NameOf(info.numParts - 1), date, dir)
  {
    IndexTextIs(info, date, dir);
  }

  lemma IndexTextIs(info: TarInfo, date: DateText, dir: Dir)
    requires info.numParts > 1 && Fits(info, date, dir, 1024)
    ensures IndexText(info, date, dir)
         == FullName(info.NameOf(0), date, dir) + DOTS + FullName(info.NameOf(info.numParts - 1), date, dir)
  {
    hide FullName;
  }

  lemma FindDotsAt(first: string, last: string)
    requires ' ' !in first
    ensures var text := first + DOTS + last;
      FindDots(text) == |first| < |text| && text[..|first|] == first && text[|first| + 5..] == last
  {
    hide FindDotsFrom;
    FindDotsIs(first, last, 0);
  }

  /** Part by part, the index's range spells the stored names, exactly if the name fits. */
  lemma RangeIsStored(info: TarInfo, date: DateText, dir: Dir, part: nat)
    requires info.Valid() && info.numParts > 1 && AreDates(date) && part < info.numParts
    ensures
      var from, to := Known(info, date, 0), Known(info, date, info.numParts - 1);
      var parent := ParentOf(FullName(info.NameOf(0), date, dir));
      Written(RangeName(from, to, part), date, parent, 1024) == FullName(info.NameOf(part), date, dir)
      <==> |FullName(info.NameOf(part), date, dir)| < 1024
  {
    ValidNames(info, 0);
    ValidNames(info, info.numParts - 1);
    ParentOfName(info.NameOf(0), date, dir);
    hide FullName, Written, ParentOf, Dir.Text;
    WrittenAsStored(info, date, dir, part,
                    RangeName(Known(info, date, 0), Known(info, date, info.numParts - 1), part),
                    ParentOf(FullName(info.NameOf(0), date, dir)), 1024);
  }

  /** The name restore builds for a part, from the tar's file name and the numbers in the index. */
  function RestoredName(tarFile: string, numParts: nat, size: nat, ondiskSize: nat, date: DateText, part: nat): string
    requires ParseFileName(tarFile).Parsed?
  {
    var p := ParseFileName(tarFile);
    Written(p.name.(partNr := part, numParts := numParts, size := size, ondiskSize := ondiskSize), date,
            LookupDir(p.dir), 4096)
  }

  /** Restore looks a part up under the name it was stored with, exactly if the name fits. */
  lemma RestoreLooksUpStored(info: TarInfo, date: DateText, dir: Dir, part: nat)
    requires info.Valid() && AreDates(date) && part < info.numParts
    ensures
      var tarFile := FullName(info.NameOf(0), date, dir);
      && ParseFileName(tarFile) == Parsed(dir.Text(), Known(info, date, 0))
      && (RestoredName(tarFile, info.numParts, info.PartContentSize(part), info.DiskSize(part), date, part)
          == FullName(info.NameOf(part), date, dir)
          <==> |FullName(info.NameOf(part), date, dir)| < 4096)
  {
    ValidNames(info, 0);
    ParseOfFullName(info.NameOf(0), date, dir);
    LookedUpDir(dir);
    hide FullName, Written, ParseFileName, Dir.Text;
    var t := Known(info, date, 0).(partNr := part, size := info.PartContentSize(part),
      ondiskSize := info.DiskSize(part));
    WrittenAsStored(info, date, dir, part, t, LookupDir(dir.Text()), 4096);
  }

  // ---------------------------------------------------------------- the mounted file system

  /** The name the mounted file system builds for a part: it takes the directory of the file that is read. */
  function MountedName(tarFile: string, numParts: nat, size: nat, ondiskSize: nat, date: DateText, part: nat,
                       above: Dir): string
    requires ParseFileName(tarFile).Parsed?
  {
    var p := ParseFileName(tarFile);
    Written(p.name.(partNr := part, numParts := numParts, size := size, ondiskSize := ondiskSize), date, above, 4096)
  }

  /**
   That is the name the part was stored with, exactly if the directory of the file is the one its tar is in.
   */
  lemma MountedLooksUpStored(info: TarInfo, date: DateText, dir: Dir, part: nat, above: Dir)
    requires info.Valid() && AreDates(date) && part < info.numParts
    requires
      var t := Known(info, date, 0).(partNr := part, size := info.PartContentSize(part),
                                     ondiskSize := info.DiskSize(part));
      |FullName(t, date, above)| < 4096
    ensures
      var tarFile := FullName(info.NameOf(0), date, dir);
      && ParseFileName(tarFile) == Parsed(dir.Text(), Known(info, date, 0))
      && (MountedName(tarFile, info.numParts, info.PartContentSize(part), info.DiskSize(part), date, part, above)
          == FullName(info.NameOf(part), date, dir)
          <==> above.Text() == dir.Text())
  {
    hide *;
    ValidNames(info, 0);
    ValidNames(info, part);
    ParseOfFullName(info.NameOf(0), date, dir);
    KnownIs(info, date, 0);
    var t := Known(info, date, 0).(partNr := part, size := info.PartContentSize(part),
      ondiskSize := info.DiskSize(part));
    ReadNameIsValid(info, date, part, t);
    WrittenIs(t, date, above, 4096);
    MountedNameIs(info, date, dir, part, above);
    if above.Text() == dir.Text() {
      NamedAsStored(info, date, dir, part, t, above);
    } else if FullName(t, date, above) == FullName(info.NameOf(part), date, dir) {
      ParseOfFullName(t, date, above);
      ParseOfFullName(info.NameOf(part), date, dir);
    }
  }

  lemma MountedNameIs(info: TarInfo, date: DateText, dir: Dir, part: nat, above: Dir)
    requires part < info.numParts && info.NameOf(0).Valid()
    requires ParseFileName(FullName(info.NameOf(0), date, dir)) == Parsed(dir.Text(), Known(info, date, 0))
    ensures
      MountedName(FullName(info.NameOf(0), date, dir), info.numParts, info.PartContentSize(part), info.DiskSize(part),
                  date, part, above)
      == Written(Known(info, date, 0).(partNr := part, size := info.PartContentSize(part),
                                       ondiskSize := info.DiskSize(part)), date, above, 4096)
  {
    hide FullName, Written, ParseFileName;
  }

  /** A file in a directory below the root, in a tar in parts that is stored in the root: its parts are not found. */
  lemma MountedElsewhere(info: TarInfo, date: DateText, part: nat)
    requires info.Valid() && AreDates(date) && part < info.numParts
    ensures ParseFileName(FullName(info.NameOf(0), date, NoDir)).Parsed?
    ensures
      MountedName(FullName(info.NameOf(0), date, NoDir), info.numParts, info.PartContentSize(part),
                  info.DiskSize(part), date, part, Dir("sub"))
      != FullName(info.NameOf(part), date, NoDir)
  {
    ValidNames(info, 0);
    ParseOfFullName(info.NameOf(0), date, NoDir);
    MountedNameIs(info, date, NoDir, part, Dir("sub"));
    var t := Known(info, date, 0).(partNr := part, size := info.PartContentSize(part),
      ondiskSize := info.DiskSize(part));
    hide ParseFileName, Known, AfterKind, MountedName;
    assert FullName(t, date, Dir("sub"))[0] == 's';
    assert FullName(info.NameOf(part), date, NoDir)[0] == 'b';
  }

  lemma LookedUpDir(dir: Dir)
    ensures LookupDir(dir.Text()).Text() == dir.Text()
  {
  }
}
