/** What the columns of an index line say of an entry, written by the backup and read by the restore. */
module IndexEntries {
  import opened Blocks
  import opened Texts
  import opened Permissions
  import opened IndexLines

  datatype LinkText = NoLink | To(target: string)

  /** How the entry's tar was cut; see Geometry for the first four numbers. */
  datatype Multi = Whole | InParts(numParts: nat, partOffset: nat, partSize: nat, lastPartSize: nat,
                                   diskSize: nat, lastDiskSize: nat)

  /** What the backup knows of an entry. */
  datatype Listed = Listed(
    mode: Mode, uid: nat, gid: nat, size: nat, major: nat, minor: nat, sec: int, nsec: nat, path: string,
    link: LinkText, isHardLink: bool, tarName: string, offset: nat, parts: Multi, metaHash: string) {

    predicate IsDevice() {
      mode.kind == CharDevice || mode.kind == BlockDevice
    }

    /** What a scan delivers: no NUL in a path, sizes below 2^63; a symbolic or hard link has a target. */
    ghost predicate Valid() {
      && uid < UINT_LIMIT && gid < UINT_LIMIT && size <= LONG_MAX && major < 0x8000_0000 && minor < 0x8000_0000
      && -0x8000_0000_0000_0000 <= sec <= LONG_MAX && nsec < 1_000_000_000
      && path != "" && NUL !in path && path[|path| - 1] != '/' && path[|path| - 1] != '\n'
      && (mode.kind == SymLink || isHardLink <==> link.To?) && (link.To? ==> link.target != "" && NUL !in link.target)
      && NUL !in tarName && |tarName| <= 1024 && offset <= LONG_MAX && HexDigitsOnly(metaHash) && |metaHash| <= 64
      && (parts.InParts? ==>
            && 1 != parts.numParts < UINT_LIMIT && parts.partOffset <= LONG_MAX && parts.partSize <= LONG_MAX
            && parts.lastPartSize <= LONG_MAX && parts.diskSize <= LONG_MAX && parts.lastDiskSize <= LONG_MAX)
    }
  }

  /** A number the line may or may not say anything about. */
  datatype Number = Unsaid | Is(n: nat)

  /** What the restore learns from a line. */
  datatype IndexEntry = IndexEntry(
    mode: Mode, uid: nat, gid: nat, size: Number, major: Number, minor: Number, sec: int, nsec: nat, path: string,
    link: string, isSymLink: bool, isHardLink: bool, tarr: string, offset: nat, parts: Multi)

  datatype EatenEntry = NoEntry | Entry(entry: IndexEntry, next: nat)

  // ---------------------------------------------------------------- cooking

  function SizeText(e: Listed): string {
    if e.mode.kind == Regular then Printed(e.size, Dec)
    else if e.IsDevice() then Printed(e.major, Dec) + "," + Printed(e.minor, Dec)
    else "0"
  }

  const ARROW := " -> "
  const LINK_TO := " link to "

  /** A symbolic link is told by the kind of the file, before hard links are considered. */
  function LinkColumn(e: Listed): string {
    if e.link.NoLink? then "" else (if e.mode.kind == SymLink then ARROW else LINK_TO) + e.link.target
  }

  function MultiTexts(p: Multi): (texts: seq<string>)
    requires p.InParts?
    ensures |texts| == 6
  {
    [Printed(p.numParts, Dec), Printed(p.partOffset, Dec), Printed(p.partSize, Dec), Printed(p.lastPartSize, Dec),
     Printed(p.diskSize, Dec), Printed(p.lastDiskSize, Dec)]
  }

  const COMMAS := ",,,,,"

  function MultiColumn(p: Multi): string {
    if p.Whole? then "1" else Joined(MultiTexts(p), COMMAS)
  }

  function Columns(e: Listed): (columns: seq<string>)
    ensures |columns| == 11
  {
    [Shown(e.mode), "", Printed(e.uid, Dec) + "/" + Printed(e.gid, Dec), SizeText(e),
     Printed(ToSize(e.sec), Dec) + "." + Padded(e.nsec, Dec, 9), e.path, LinkColumn(e), e.tarName,
     Printed(e.offset, Dec), MultiColumn(e.parts), e.metaHash + "\n"]
  }

  function CookEntry(e: Listed): string {
    Line(Columns(e))
  }

  // ---------------------------------------------------------------- eating

  const LIMITS: seq<nat> := [32, 32, 32, 32, 64, 1024, 1024, 1024, 32, 128, 65]

  /** The two sides of the first c; all of the text on both sides when there is none. */
  function Before(s: string, c: char): string {
    s[..Find(s, c, 0)]
  }

  function After(s: string, c: char): string {
    var at := Find(s, c, 0);
    if at == |s| then s else s[at + 1..]
  }

  /** Path::lookup: a newline and then a slash at the end of a path are dropped. */
  function LookupPath(p: string): string {
    var q := if p != "" && p[|p| - 1] == '\n' then p[..|p| - 1] else p;
    if q != "" && q[|q| - 1] == '/' then q[..|q| - 1] else q
  }

  function PathFrom(prepend: LinkText, column: string): string {
    var name := if prepend.To? then prepend.target + "/" + column else column;
    LookupPath(if |name| > 1 && name[|name| - 1] == '/' then name[..|name| - 1] else name)
  }

  function TarFrom(prepend: LinkText, column: string): string {
    if prepend.To? && column != "" then prepend.target + "/" + column else column
  }

  /** The kind of link a column speaks of, and its target. */
  datatype ReadLink = ReadLink(target: string, sym: bool, hard: bool)

  function LinkFrom(column: string): ReadLink {
    if |column| > 4 && column[..4] == ARROW then ReadLink(column[4..], true, false)
    else if |column| > 9 && column[..9] == LINK_TO then ReadLink(column[9..], false, true)
    else ReadLink(column, false, false)
  }

  datatype ReadMulti = BadMulti | GoodMulti(parts: Multi)

  /** Numbers of at most 64 characters, separated by commas. */
  function MultiFrom(column: string): ReadMulti {
    if column == "1" then GoodMulti(Whole)
    else
      match SplitFields(column, 0, 0, COMMAS)
      case NoFields => BadMulti
      case Fields(t) => MultiFromTexts(t)
  }

  function MultiFromTexts(t: seq<string>): ReadMulti
    requires |t| == 6
  {
    if |t[0]| > 64 || |t[1]| > 64 || |t[2]| > 64 || |t[3]| > 64 || |t[4]| > 64 || t[5] == "" then BadMulti
    else
      GoodMulti(InParts(ToUint(Strtol(t[0], Dec)), Strtol(t[1], Dec), Strtol(t[2], Dec), Strtol(t[3], Dec),
                        Strtol(t[4], Dec), Strtol(t[5][..Min(|t[5]|, 64)], Dec)))
  }

  datatype ReadTime = BadTime | Time(sec: nat, nsec: nat)

  function TimeFrom(column: string): ReadTime {
    var dot := Find(column, '.', 0);
    if dot + 1 >= |column| then BadTime else Time(Strtol(column[..dot], Dec), Strtol(column[dot + 1..], Dec))
  }

  /** The size of a file, or the two numbers of a device. */
  datatype ReadSize = ReadSize(size: Number, major: Number, minor: Number)

  function SizeFrom(kind: FileKind, column: string): ReadSize {
    if kind == CharDevice || kind == BlockDevice then
      ReadSize(Unsaid, Is(Strtol(Before(column, ','), Dec)), Is(Strtol(After(column, ','), Dec)))
    else ReadSize(Is(Strtol(column, Dec)), Unsaid, Unsaid)
  }

  datatype Owner = Owner(uid: nat, gid: nat)

  function OwnerFrom(column: string): Owner {
    Owner(ToUint(Strtol(Before(column, '/'), Dec)), ToUint(Strtol(After(column, '/'), Dec)))
  }

  /** An entry from the columns of its line, as they were eaten. */
  function EntryFrom(columns: seq<string>, prepend: LinkText, safePrepend: LinkText, next: nat): EatenEntry
    requires |columns| == 11
  {
    var mode, time, parts := StringToPermission(columns[0]), TimeFrom(columns[4]), MultiFrom(columns[9]);
    if mode.BadMode? || time.BadTime? || parts.BadMulti? || columns[10] == "" then NoEntry
    else
      var owner, size, link := OwnerFrom(columns[2]), SizeFrom(mode.mode.kind, columns[3]), LinkFrom(columns[6]);
      Entry(IndexEntry(
        mode.mode, owner.uid, owner.gid, if link.sym || link.hard then Is(|link.target|) else size.size,
        size.major, size.minor, time.sec, time.nsec, PathFrom(prepend, columns[5]), link.target, link.sym, link.hard,
        TarFrom(safePrepend, columns[7]), Strtol(columns[8], Dec), parts.parts), next)
  }

  function EatEntry(v: string, i: nat, prepend: LinkText, safePrepend: LinkText): (r: EatenEntry)
    requires i <= |v|
    ensures r.Entry? ==> r.next <= |v|
  {
    match EatFields(v, i, LIMITS)
    case NotEaten => NoEntry
    case EatenFields(columns, next) => EntryFrom(columns, prepend, safePrepend, next)
  }

  // ---------------------------------------------------------------- what is cooked is what is eaten

  /** The entry a restore should learn of: a link has the length of its target for a size. */
  function Recovered(e: Listed, prepend: LinkText, safePrepend: LinkText): IndexEntry {
    IndexEntry(
      e.mode, e.uid, e.gid,
      if e.link.To? then Is(|e.link.target|) else if e.IsDevice() then Unsaid
      else Is(if e.mode.kind == Regular then e.size else 0),
      if e.IsDevice() then Is(e.major) else Unsaid, if e.IsDevice() then Is(e.minor) else Unsaid,
      e.sec, e.nsec, if prepend.To? then prepend.target + "/" + e.path else e.path,
      if e.link.To? then e.link.target else "", e.link.To? && !e.isHardLink, e.isHardLink,
      TarFrom(safePrepend, e.tarName), e.offset, e.parts)
  }

  /** What a line can hold: no long paths, no time before 1970, no hard link that is a symbolic link, not every mode. */
  ghost predicate Expressible(e: Listed) {
    && SpecialsExecute(e.mode) && |e.path| <= 1024 && |LinkColumn(e)| <= 1024 && e.sec >= 0
    && !(e.mode.kind == SymLink && e.isHardLink)
  }

  lemma TwoSides(a: string, c: char, b: string)
    requires c !in a
    ensures Before(a + [c] + b, c) == a && After(a + [c] + b, c) == b
    ensures Find(a + [c] + b, c, 0) == |a|
  {
    var s := a + [c] + b;
    assert s[|a|] == c && s[..|a|] == a && s[|a| + 1..] == b;
    FindIs(s, c, 0, |a|);
  }

  lemma SmallIsRead(v: nat)
    requires v <= LONG_MAX
    ensures Strtol(Printed(v, Dec), Dec) == v && |Printed(v, Dec)| <= 19
  {
    ValueOfPrinted(v, Dec);
    TenToThe19();
    PrintedLength(v, Dec, 19);
  }

  lemma TenToThe19()
    ensures Power(Dec, 19) == 10_000_000_000_000_000_000 && Power(Dec, 10) == 10_000_000_000
    ensures Power(Dec, 20) == 100_000_000_000_000_000_000 && Power(Dec, 9) == 1_000_000_000
  {
    assert Power(Dec, 2) == 100;
    assert Power(Dec, 4) == 100 * Power(Dec, 2);
    assert Power(Dec, 6) == 100 * Power(Dec, 4);
    assert Power(Dec, 8) == 100 * Power(Dec, 6);
    assert Power(Dec, 10) == 100 * Power(Dec, 8);
    assert Power(Dec, 12) == 100 * Power(Dec, 10);
    assert Power(Dec, 14) == 100 * Power(Dec, 12);
    assert Power(Dec, 16) == 100 * Power(Dec, 14);
    assert Power(Dec, 18) == 100 * Power(Dec, 16);
  }

  lemma WordIsRead(v: nat)
    requires v < UINT_LIMIT
    ensures ToUint(Strtol(Printed(v, Dec), Dec)) == v && |Printed(v, Dec)| <= 10
  {
    SmallIsRead(v);
    TenToThe19();
    PrintedLength(v, Dec, 10);
  }

  lemma LinkIsRead(e: Listed)
    requires e.Valid()
    ensures var link := LinkFrom(LinkColumn(e));
      link == ReadLink(if e.link.To? then e.link.target else "", e.link.To? && !e.isHardLink, e.isHardLink)
      <==> !(e.mode.kind == SymLink && e.isHardLink)
  {
    if e.link.To? {
      var column := LinkColumn(e);
      if e.mode.kind == SymLink {
        assert column[..4] == ARROW && column[4..] == e.link.target;
      } else {
        assert column[..9] == LINK_TO && column[9..] == e.link.target;
        assert column[1] == 'l';
      }
    }
  }

  lemma PathIsRead(prepend: LinkText, path: string)
    requires path != "" && path[|path| - 1] != '/' && path[|path| - 1] != '\n'
    ensures PathFrom(prepend, path) == if prepend.To? then prepend.target + "/" + path else path
  {
    var name := if prepend.To? then prepend.target + "/" + path else path;
    assert name[|name| - 1] == path[|path| - 1];
  }

  lemma MultiIsRead(p: Multi)
    requires p.InParts? ==>
      && 1 != p.numParts < UINT_LIMIT && p.partOffset <= LONG_MAX && p.partSize <= LONG_MAX
      && p.lastPartSize <= LONG_MAX && p.diskSize <= LONG_MAX && p.lastDiskSize <= LONG_MAX
    ensures MultiFrom(MultiColumn(p)) == GoodMulti(p) && |MultiColumn(p)| < 120 && NUL !in MultiColumn(p)
  {
    if p.InParts? {
      hide *;
      MultiTextsAreRead(p);
      MultiColumnIs(p, MultiTexts(p));
    }
  }

  lemma MultiColumnIs(p: Multi, t: seq<string>)
    requires p.InParts? && t == MultiTexts(p)
    requires forall i :: 0 <= i < 6 ==> t[i] != "" && |t[i]| <= 19 && DigitsOnly(t[i])
    ensures MultiFrom(MultiColumn(p)) == MultiFromTexts(t) && |MultiColumn(p)| < 120 && NUL !in MultiColumn(p)
  {
    NoCommas(t);
    JoinedLength(t, COMMAS);
    hide MultiTexts, MultiFromTexts, SplitFields, Joined, DigitsOnly;
    SplitOfJoined("", t, COMMAS, 0);
    assert "" + Joined(t, COMMAS) == Joined(t, COMMAS);
  }

  lemma NoCommas(t: seq<string>)
    requires |t| == 6 && forall i :: 0 <= i < 6 ==> DigitsOnly(t[i])
    ensures forall i :: 0 <= i < |COMMAS| ==> COMMAS[i] !in t[i]
    ensures NUL !in Joined(t, COMMAS)
  {
    NotInJoined(NUL, t, COMMAS);
  }

  lemma {:induction false} JoinedLength(texts: seq<string>, seps: string)
    requires |texts| == |seps| + 1 && forall i :: 0 <= i < |texts| ==> |texts[i]| <= 19
    ensures |texts[0]| + |seps| <= |Joined(texts, seps)| < 20 * |texts|
  {
    if seps != "" {
      JoinedLength(texts[1..], seps[1..]);
    }
  }

  lemma MultiTextsAreRead(p: Multi)
    requires p.InParts?
    requires p.numParts < UINT_LIMIT && p.partOffset <= LONG_MAX && p.partSize <= LONG_MAX
    requires p.lastPartSize <= LONG_MAX && p.diskSize <= LONG_MAX && p.lastDiskSize <= LONG_MAX
    ensures var t := MultiTexts(p);
      && (forall i :: 0 <= i < 6 ==> t[i] != "" && |t[i]| <= 19 && DigitsOnly(t[i]))
      && MultiFromTexts(t) == GoodMulti(p)
  {
    hide Printed, Strtol, ToUint, DigitsOnly;
    WordIsRead(p.numParts);
    SmallIsRead(p.partOffset);
    SmallIsRead(p.partSize);
    SmallIsRead(p.lastPartSize);
    SmallIsRead(p.diskSize);
    SmallIsRead(p.lastDiskSize);
    var last := Printed(p.lastDiskSize, Dec);
    assert last[..Min(|last|, 64)] == last;
  }

  lemma OwnerIsRead(uid: nat, gid: nat)
    requires uid < UINT_LIMIT && gid < UINT_LIMIT
    ensures var column := Printed(uid, Dec) + "/" + Printed(gid, Dec);
      OwnerFrom(column) == Owner(uid, gid) && |column| <= 32 && NUL !in column
  {
    WordIsRead(uid);
    WordIsRead(gid);
    hide Printed, Strtol, ToUint;
    TwoSides(Printed(uid, Dec), '/', Printed(gid, Dec));
  }

  lemma SizeIsRead(e: Listed)
    requires e.Valid()
    ensures SizeFrom(e.mode.kind, SizeText(e))
         == if e.IsDevice() then ReadSize(Unsaid, Is(e.major), Is(e.minor))
            else ReadSize(Is(if e.mode.kind == Regular then e.size else 0), Unsaid, Unsaid)
    ensures |SizeText(e)| <= 32 && NUL !in SizeText(e)
  {
    if e.IsDevice() {
      WordIsRead(e.major);
      WordIsRead(e.minor);
      SmallIsRead(e.major);
      SmallIsRead(e.minor);
      hide Printed, Strtol, ToUint;
      TwoSides(Printed(e.major, Dec), ',', Printed(e.minor, Dec));
    } else {
      SmallIsRead(e.size);
      SmallIsRead(0);
      assert Printed(0, Dec) == "0";
      hide Printed, Strtol, ToUint;
    }
  }

  lemma TimeIsRead(sec: int, nsec: nat)
    requires -0x8000_0000_0000_0000 <= sec <= LONG_MAX && nsec < 1_000_000_000
    ensures var column := Printed(ToSize(sec), Dec) + "." + Padded(nsec, Dec, 9);
      TimeFrom(column) == Time(if sec >= 0 then sec else LONG_MAX, nsec) && |column| <= 64 && NUL !in column
  {
    hide Printed, Padded, ValueOf, ToSize, Power;
    ValueOfPrinted(ToSize(sec), Dec);
    ValueOfPadded(nsec, Dec, 9);
    TenToThe19();
    PrintedLength(ToSize(sec), Dec, 20);
    PaddedLength(nsec, Dec, 9);
    UnsignedOf(sec);
    TwoSides(Printed(ToSize(sec), Dec), '.', Padded(nsec, Dec, 9));
  }

  lemma UnsignedOf(sec: int)
    requires -0x8000_0000_0000_0000 <= sec <= LONG_MAX
    ensures ToSize(sec) == if sec >= 0 then sec else sec + 0x1_0000_0000_0000_0000
  {
  }

  /** Which columns can be too long for a line, and that none holds the character that separates them. */
  lemma ColumnsFit(e: Listed)
    requires e.Valid()
    ensures WithinLimits(Columns(e), LIMITS) <==> |e.path| <= 1024 && |LinkColumn(e)| <= 1024
    ensures forall k :: 0 <= k < 11 ==> NUL !in Columns(e)[k]
  {
    hide *;
    ColumnTexts(e);
    ListedIs(e);
    OwnerIsRead(e.uid, e.gid);
    SizeIsRead(e);
    TimeIsRead(e.sec, e.nsec);
    SmallIsRead(e.offset);
    MultiIsRead(e.parts);
    ShownHasNoNul(e.mode);
    WithinEach(Columns(e));
  }

  /** What the parts of the proof need of a valid entry. */
  lemma ListedIs(e: Listed)
    requires e.Valid()
    ensures e.uid < UINT_LIMIT && e.gid < UINT_LIMIT && e.offset <= LONG_MAX
    ensures -0x8000_0000_0000_0000 <= e.sec <= LONG_MAX && e.nsec < 1_000_000_000
    ensures e.path != "" && e.path[|e.path| - 1] != '/' && e.path[|e.path| - 1] != '\n'
    ensures e.parts.InParts? ==>
      && 1 != e.parts.numParts < UINT_LIMIT && e.parts.partOffset <= LONG_MAX && e.parts.partSize <= LONG_MAX
      && e.parts.lastPartSize <= LONG_MAX && e.parts.diskSize <= LONG_MAX && e.parts.lastDiskSize <= LONG_MAX
    ensures NUL !in e.path && NUL !in LinkColumn(e) && NUL !in e.tarName && |e.tarName| <= 1024
    ensures NUL !in e.metaHash + "\n" && 0 < |e.metaHash + "\n"| <= 65
    ensures NUL !in Printed(e.offset, Dec) && (e.mode.kind == SymLink || e.isHardLink <==> e.link.To?)
  {
  }

  lemma ColumnTexts(e: Listed)
    ensures var c := Columns(e);
      && c[0] == Shown(e.mode) && c[1] == "" && c[2] == Printed(e.uid, Dec) + "/" + Printed(e.gid, Dec)
      && c[3] == SizeText(e) && c[4] == Printed(ToSize(e.sec), Dec) + "." + Padded(e.nsec, Dec, 9)
      && c[5] == e.path && c[6] == LinkColumn(e) && c[7] == e.tarName && c[8] == Printed(e.offset, Dec)
      && c[9] == MultiColumn(e.parts) && c[10] == e.metaHash + "\n"
  {
  }

  lemma ShownHasNoNul(m: Mode)
    ensures NUL !in Shown(m)
  {
  }

  lemma WithinEach(c: seq<string>)
    requires |c| == 11 && |c[0]| <= 32 && |c[1]| <= 32 && |c[2]| <= 32 && |c[3]| <= 32 && |c[4]| <= 64
    requires |c[7]| <= 1024 && |c[8]| <= 32 && |c[9]| <= 128 && |c[10]| <= 65
    ensures WithinLimits(c, LIMITS) <==> |c[5]| <= 1024 && |c[6]| <= 1024
  {
  }

  /** Eaten columns tell of the entry they were cooked from, exactly when nothing in them is out of a line's reach. */
  lemma ColumnsAreRead(e: Listed, prepend: LinkText, safePrepend: LinkText, next: nat)
    requires e.Valid()
    ensures EntryFrom(Columns(e), prepend, safePrepend, next) == Entry(Recovered(e, prepend, safePrepend), next)
      <==> SpecialsExecute(e.mode) && e.sec >= 0 && !(e.mode.kind == SymLink && e.isHardLink)
  {
    hide *;
    ColumnTexts(e);
    ListedIs(e);
    ModeRoundTrip(e.mode);
    OwnerIsRead(e.uid, e.gid);
    SizeIsRead(e);
    TimeIsRead(e.sec, e.nsec);
    PathIsRead(prepend, e.path);
    LinkIsRead(e);
    SmallIsRead(e.offset);
    MultiIsRead(e.parts);
    WhatIsRead(e, Columns(e), prepend, safePrepend, next);
  }

  /** The entry put together from columns whose readings are known. */
  lemma WhatIsRead(e: Listed, c: seq<string>, prepend: LinkText, safePrepend: LinkText, next: nat)
    requires |c| == 11 && c[5] == e.path && c[7] == e.tarName && c[10] != ""
    requires StringToPermission(c[0])
          == GoodMode(Mode(e.mode.kind, WithExecute(e.mode.user), WithExecute(e.mode.group), WithExecute(e.mode.other)))
    requires OwnerFrom(c[2]) == Owner(e.uid, e.gid)
    requires SizeFrom(e.mode.kind, c[3])
          == if e.IsDevice() then ReadSize(Unsaid, Is(e.major), Is(e.minor))
             else ReadSize(Is(if e.mode.kind == Regular then e.size else 0), Unsaid, Unsaid)
    requires TimeFrom(c[4]) == Time(if e.sec >= 0 then e.sec else LONG_MAX, e.nsec)
    requires PathFrom(prepend, e.path) == if prepend.To? then prepend.target + "/" + e.path else e.path
    requires LinkFrom(c[6]) ==
      ReadLink(if e.link.To? then e.link.target else "", e.link.To? && !e.isHardLink, e.isHardLink)
      <==> !(e.mode.kind == SymLink && e.isHardLink)
    requires e.mode.kind == SymLink || e.isHardLink <==> e.link.To?
    requires Strtol(c[8], Dec) == e.offset && MultiFrom(c[9]) == GoodMulti(e.parts)
    ensures EntryFrom(c, prepend, safePrepend, next) == Entry(Recovered(e, prepend, safePrepend), next)
      <==> SpecialsExecute(e.mode) && e.sec >= 0 && !(e.mode.kind == SymLink && e.isHardLink)
  {
    hide StringToPermission, TimeFrom, MultiFrom, OwnerFrom, SizeFrom, LinkFrom, PathFrom, TarFrom, Strtol;
  }

  /**
   Eating a cooked line, wherever it stands, gives the entry back and leaves off at the next line,
   exactly for entries that a line can express.
   */
  lemma LineRoundTrip(front: string, e: Listed, rest: string, prepend: LinkText, safePrepend: LinkText)
    requires e.Valid()
    ensures var eaten := EatEntry(front + CookEntry(e) + rest, |front|, prepend, safePrepend);
      && (eaten == Entry(Recovered(e, prepend, safePrepend), |front| + |CookEntry(e)|) <==> Expressible(e))
      && (eaten.Entry? ==> eaten.next == |front| + |CookEntry(e)|)
  {
    hide Columns, Recovered, WithinLimits, Line, EatFields, LinkColumn, StringToPermission, TimeFrom, MultiFrom;
    ColumnsFit(e);
    EatLine(front, Columns(e), LIMITS, rest);
    ColumnsAreRead(e, prepend, safePrepend, |front| + |CookEntry(e)|);
    assert EntryFrom(Columns(e), prepend, safePrepend, |front| + |CookEntry(e)|).Entry? ==>
      EntryFrom(Columns(e), prepend, safePrepend, |front| + |CookEntry(e)|).next == |front| + |CookEntry(e)|;
  }

  function FileAt(sec: int): Listed {
    var r := Access(true, false, false, false);
    Listed(Mode(Regular, r, r, r), 0, 0, 7, 0, 0, sec, 0, "file", NoLink, false, "tar", 512, Whole, "")
  }

  /** A file from one second before 1970. */
  lemma LineBeforeTheEpoch(rest: string)
    ensures FileAt(-1).Valid()
    ensures var e := FileAt(-1);
      EatEntry("" + CookEntry(e) + rest, 0, NoLink, NoLink) != Entry(Recovered(e, NoLink, NoLink), |CookEntry(e)|)
  {
    hide *;
    FileAtIs(-1);
    LineRoundTrip("", FileAt(-1), rest, NoLink, NoLink);
    NotBefore(FileAt(-1));
  }

  lemma FileAtIs(sec: int)
    requires -0x8000_0000_0000_0000 <= sec <= LONG_MAX
    ensures FileAt(sec).Valid() && FileAt(sec).sec == sec
  {
  }

  lemma NotBefore(e: Listed)
    ensures Expressible(e) ==> e.sec >= 0
  {
  }

  /**
   Of a file, what it takes to find its bytes is read back from every line that can be read at all: a mode or
   a time that the line cannot express do not get in the way.
   */
  lemma FileLineIsRead(front: string, e: Listed, rest: string, prepend: LinkText, safePrepend: LinkText)
    requires e.Valid() && e.mode.kind == Regular && !e.isHardLink
    ensures var eaten := EatEntry(front + CookEntry(e) + rest, |front|, prepend, safePrepend);
      && (eaten.Entry? <==> |e.path| <= 1024)
      && (eaten.Entry? ==>
            && eaten.next == |front| + |CookEntry(e)|
            && eaten.entry.size == Is(e.size) && eaten.entry.offset == e.offset
            && eaten.entry.parts == e.parts && eaten.entry.tarr == TarFrom(safePrepend, e.tarName)
            && eaten.entry.mode.kind == Regular && !eaten.entry.isSymLink && !eaten.entry.isHardLink)
  {
    hide Columns, WithinLimits, Line, EatFields, StringToPermission, TimeFrom, MultiFrom, EntryFrom, TarFrom;
    ColumnsFit(e);
    EatLine(front, Columns(e), LIMITS, rest);
    FileColumnsAreRead(e, prepend, safePrepend, |front| + |CookEntry(e)|);
  }

  lemma FileColumnsAreRead(e: Listed, prepend: LinkText, safePrepend: LinkText, next: nat)
    requires e.Valid() && e.mode.kind == Regular && !e.isHardLink
    ensures LinkColumn(e) == ""
    ensures var eaten := EntryFrom(Columns(e), prepend, safePrepend, next);
      && eaten.Entry? && eaten.next == next && eaten.entry.size == Is(e.size) && eaten.entry.offset == e.offset
      && eaten.entry.parts == e.parts && eaten.entry.tarr == TarFrom(safePrepend, e.tarName)
      && eaten.entry.mode.kind == Regular && !eaten.entry.isSymLink && !eaten.entry.isHardLink
  {
    ColumnTexts(e);
    ListedIs(e);
    ModeRoundTrip(e.mode);
    SizeIsRead(e);
    TimeIsRead(e.sec, e.nsec);
    SmallIsRead(e.offset);
    MultiIsRead(e.parts);
    hide Listed.Valid, Columns, StringToPermission, TimeFrom, MultiFrom, OwnerFrom, SizeFrom, PathFrom, TarFrom, Strtol,
      Printed, Padded, MultiColumn, SizeText, Shown, ToSize;
  }

  // ---------------------------------------------------------------- other lines

  /** A path is looked up without the slash and the newline that may follow it. */
  lemma LookupForms(p: string)
    requires p != "" && p[|p| - 1] != '/' && p[|p| - 1] != '\n'
    ensures LookupPath(p) == LookupPath(p + "/") == LookupPath(p + "\n") == LookupPath(p + "/\n") == p
  {
    var q := p + "/\n";
    assert q[|q| - 1] == '\n' && q[..|q| - 1] == p + "/" && (p + "/")[..|p|] == p && (p + "\n")[..|p|] == p;
  }

  /** The name of a tar goes behind a path, unless there is no tar. */
  lemma TarForms(dir: string, tar: string)
    ensures TarFrom(NoLink, tar) == tar && TarFrom(To(dir), "") == ""
    ensures tar != "" ==> TarFrom(To(dir), tar) == dir + "/" + tar
  {
  }

  /** Which lines of eleven columns can be read at all. */
  lemma LinesEaten(c: seq<string>, rest: string, prepend: LinkText, safePrepend: LinkText)
    requires |c| == 11 && forall k :: 0 <= k < |c| ==> NUL !in c[k]
    ensures EatEntry("" + Line(c) + rest, 0, prepend, safePrepend).Entry? <==>
      && |c[0]| <= 32 && |c[1]| <= 32 && |c[2]| <= 32 && |c[3]| <= 32 && |c[4]| <= 64 && |c[5]| <= 1024
      && |c[6]| <= 1024 && |c[7]| <= 1024 && |c[8]| <= 32 && |c[9]| <= 128 && 0 < |c[10]| <= 65
      && StringToPermission(c[0]).GoodMode? && MultiFrom(c[9]).GoodMulti?
      && c[4] != "" && '.' in c[4][..|c[4]| - 1]
  {
    hide *;
    WithinIs(c);
    EatLine("", c, LIMITS, rest);
    DottedTime(c[4]);
    EntryIs(c, "" + Line(c) + rest, prepend, safePrepend);
  }

  lemma WithinIs(c: seq<string>)
    requires |c| == 11
    ensures |LIMITS| == 11
    ensures WithinLimits(c, LIMITS) <==>
      && |c[0]| <= 32 && |c[1]| <= 32 && |c[2]| <= 32 && |c[3]| <= 32 && |c[4]| <= 64 && |c[5]| <= 1024
      && |c[6]| <= 1024 && |c[7]| <= 1024 && |c[8]| <= 32 && |c[9]| <= 128 && |c[10]| <= 65
  {
  }

  lemma EntryIs(c: seq<string>, v: string, prepend: LinkText, safePrepend: LinkText)
    requires |c| == 11 && |LIMITS| == 11
    ensures EatFields(v, 0, LIMITS) == NotEaten ==> EatEntry(v, 0, prepend, safePrepend) == NoEntry
    ensures EatFields(v, 0, LIMITS).EatenFields? && EatFields(v, 0, LIMITS).fields == c ==>
      (EatEntry(v, 0, prepend, safePrepend).Entry?
       <==> StringToPermission(c[0]).GoodMode? && MultiFrom(c[9]).GoodMulti? && TimeFrom(c[4]).Time? && c[10] != "")
  {
    hide EatFields, StringToPermission, MultiFrom, TimeFrom, OwnerFrom, SizeFrom, LinkFrom, PathFrom, TarFrom, Strtol;
  }

  lemma DottedTime(s: string)
    ensures TimeFrom(s).Time? <==> s != "" && '.' in s[..|s| - 1]
  {
    var dot := Find(s, '.', 0);
    if dot + 1 < |s| {
      assert s[..|s| - 1][dot] == '.';
    } else if s != "" {
      FindSkips(s, '.', 0);
    }
  }

  /** Which columns of six numbers can be read: the first five have their limit, the last must not be empty. */
  lemma NumbersEaten(t: seq<string>)
    requires |t| == 6 && forall i :: 0 <= i < 5 ==> ',' !in t[i]
    ensures MultiFrom(Joined(t, ",,,,,")).BadMulti? <==> t[5] == "" || exists i :: 0 <= i < 5 && |t[i]| > 64
    ensures MultiFrom(Joined(t, ",,,,,")).GoodMulti? ==>
      MultiFrom(Joined(t, ",,,,,")).parts
      == InParts(ToUint(Strtol(t[0], Dec)), Strtol(t[1], Dec), Strtol(t[2], Dec), Strtol(t[3], Dec), Strtol(t[4], Dec),
                 Strtol(t[5][..Min(|t[5]|, 64)], Dec))
  {
    hide SplitFields, Strtol, ToUint;
    SplitOfJoined("", t, COMMAS, 0);
    assert "" + Joined(t, COMMAS) == Joined(t, COMMAS);
    NotOne(t);
    hide Joined;
  }

  lemma NotOne(t: seq<string>)
    requires |t| == 6
    ensures |Joined(t, COMMAS)| >= 2
  {
    assert |Joined(t[1..], COMMAS[1..])| >= 1;
  }

  /** What the line of a file looks like. */
  lemma LineOfAFile()
    ensures CookEntry(FileAt(0))
         == Line(["-r--r--r--", "", "0/0", "7", "0.000000000", "file", "", "tar", "512", "1", "\n"])
  {
    hide *;
    var f := FileAt(0);
    FileColumns();
    ColumnTexts(f);
    LineIsOf(f, ["-r--r--r--", "", "0/0", "7", "0.000000000", "file", "", "tar", "512", "1", "\n"]);
  }

  lemma LineIsOf(e: Listed, c: seq<string>)
    requires |c| == 11 && forall i :: 0 <= i < 11 ==> Columns(e)[i] == c[i]
    ensures CookEntry(e) == Line(c)
  {
    hide Line, Columns;
    assert Columns(e) == c;
  }

  lemma FileColumns()
    ensures
      var f := FileAt(0);
      && Shown(f.mode) == "-r--r--r--" && Printed(f.uid, Dec) + "/" + Printed(f.gid, Dec) == "0/0"
      && SizeText(f) == "7" && Printed(ToSize(f.sec), Dec) + "." + Padded(f.nsec, Dec, 9) == "0.000000000"
      && f.path == "file" && LinkColumn(f) == "" && f.tarName == "tar" && Printed(f.offset, Dec) == "512"
      && MultiColumn(f.parts) == "1" && f.metaHash + "\n" == "\n"
  {
    assert Padded(0, Dec, 9) == "000000000";
  }

  /** What the columns of parts and links look like. */
  lemma ColumnsLookLike(e: Listed)
    ensures MultiColumn(InParts(3, 512, 9, 8, 7, 6)) == Joined(["3", "512", "9", "8", "7", "6"], ",,,,,")
    ensures LinkColumn(e.(link := NoLink)) == ""
    ensures LinkColumn(e.(link := To("x"))) == if e.mode.kind == SymLink then " -> x" else " link to x"
  {
    assert Printed(512, Dec) == "512";
    hide Joined;
    assert MultiTexts(InParts(3, 512, 9, 8, 7, 6)) == ["3", "512", "9", "8", "7", "6"];
  }

  // ---------------------------------------------------------------- the listing

  datatype Listing = NoListing | Listing(entries: seq<IndexEntry>, next: nat)

  /** So many entries, one line after the other. */
  function ReadEntries(v: string, i: nat, n: nat, prepend: LinkText, safePrepend: LinkText): (r: Listing)
    requires i <= |v|
    ensures r.Listing? ==> |r.entries| == n && r.next <= |v|
    decreases n
  {
    if n == 0 then Listing([], i)
    else
      match EatEntry(v, i, prepend, safePrepend)
      case NoEntry => NoListing
      case Entry(entry, next) =>
        match ReadEntries(v, next, n - 1, prepend, safePrepend)
        case NoListing => NoListing
        case Listing(rest, end) => Listing([entry] + rest, end)
  }

  /** The loop that reads the entries of an index; too few of them is an error. */
  method LoadEntries(v: string, i: nat, n: nat, prepend: LinkText, safePrepend: LinkText)
    returns (ok: bool, entries: seq<IndexEntry>, next: nat)
    requires i <= |v|
    ensures var r := ReadEntries(v, i, n, prepend, safePrepend);
      if ok then r == Listing(entries, next) else r == NoListing
  {
    hide EatEntry;
    entries, next := [], i;
    var numFiles: nat := n;
    while next < |v| && numFiles > 0
      invariant next <= |v|
      invariant match ReadEntries(v, next, numFiles, prepend, safePrepend)
        case NoListing => ReadEntries(v, i, n, prepend, safePrepend) == NoListing
        case Listing(rest, end) => ReadEntries(v, i, n, prepend, safePrepend) == Listing(entries + rest, end)
      decreases numFiles
    {
      var e := EatEntry(v, next, prepend, safePrepend);
      if e.NoEntry? {
        break;
      }
      assert forall rest: seq<IndexEntry> :: entries + ([e.entry] + rest) == entries + [e.entry] + rest;
      entries, next, numFiles := entries + [e.entry], e.next, numFiles - 1;
    }
    ok := numFiles == 0;
    if !ok && next == |v| {
      NothingToEat(v, prepend, safePrepend);
    }
    assert entries + [] == entries;
  }

  lemma NothingToEat(v: string, prepend: LinkText, safePrepend: LinkText)
    ensures EatEntry(v, |v|, prepend, safePrepend) == NoEntry
  {
  }

  function Cooked(es: seq<Listed>): string {
    if es == [] then "" else CookEntry(es[0]) + Cooked(es[1..])
  }

  function RecoveredAll(es: seq<Listed>, prepend: LinkText, safePrepend: LinkText): (r: seq<IndexEntry>)
    ensures |r| == |es|
  {
    seq(|es|, i requires 0 <= i < |es| => Recovered(es[i], prepend, safePrepend))
  }

  /** A whole listing is read back, exactly when every entry in it is one that a line can express. */
  lemma {:induction false} ListingRoundTrip(front: string, es: seq<Listed>, rest: string, prepend: LinkText,
                                            safePrepend: LinkText)
    requires forall e :: e in es ==> e.Valid()
    ensures ReadEntries(front + Cooked(es) + rest, |front|, |es|, prepend, safePrepend)
         == Listing(RecoveredAll(es, prepend, safePrepend), |front| + |Cooked(es)|)
      <==> forall e :: e in es ==> Expressible(e)
    decreases |es|
  {
    hide *;
    if es == [] {
      EmptyListing(front, es, rest, prepend, safePrepend);
    } else {
      var v, next := front + Cooked(es) + rest, front + CookEntry(es[0]);
      FirstCooked(front, es, rest);
      LineRoundTrip(front, es[0], Cooked(es[1..]) + rest, prepend, safePrepend);
      ListingRoundTrip(next, es[1..], rest, prepend, safePrepend);
      ListingStep(v, |front|, es, prepend, safePrepend, |next|, |front| + |Cooked(es)|);
    }
  }

  lemma EmptyListing(front: string, es: seq<Listed>, rest: string, prepend: LinkText, safePrepend: LinkText)
    requires es == []
    ensures ReadEntries(front + Cooked(es) + rest, |front|, |es|, prepend, safePrepend)
         == Listing(RecoveredAll(es, prepend, safePrepend), |front| + |Cooked(es)|)
  {
  }

  lemma FirstCooked(front: string, es: seq<Listed>, rest: string)
    requires es != []
    ensures var v := front + Cooked(es) + rest;
      && v == front + CookEntry(es[0]) + (Cooked(es[1..]) + rest)
      && v == (front + CookEntry(es[0])) + Cooked(es[1..]) + rest
      && |front| + |Cooked(es)| == |front + CookEntry(es[0])| + |Cooked(es[1..])|
  {
    hide CookEntry;
    Regroup(front, CookEntry(es[0]), Cooked(es[1..]), rest);
  }

  lemma Regroup(a: string, b: string, c: string, d: string)
    ensures a + (b + c) + d == a + b + (c + d) == (a + b) + c + d
  {
  }

  /** A listing is right when its first entry and the rest of it are. */
  lemma ListingStep(v: string, i: nat, es: seq<Listed>, prepend: LinkText, safePrepend: LinkText, next: nat, end: nat)
    requires es != [] && i <= |v| && next <= |v|
    requires var eaten := EatEntry(v, i, prepend, safePrepend);
      && (eaten == Entry(Recovered(es[0], prepend, safePrepend), next) <==> Expressible(es[0]))
      && (eaten.Entry? ==> eaten.next == next)
    requires ReadEntries(v, next, |es[1..]|, prepend, safePrepend) ==
      Listing(RecoveredAll(es[1..], prepend, safePrepend), end)
      <==> forall e :: e in es[1..] ==> Expressible(e)
    ensures ReadEntries(v, i, |es|, prepend, safePrepend) == Listing(RecoveredAll(es, prepend, safePrepend), end)
      <==> forall e :: e in es ==> Expressible(e)
  {
    hide EatEntry, Recovered, Expressible;
    assert forall e :: e in es <==> e == es[0] || e in es[1..];
    var first, rest := Recovered(es[0], prepend, safePrepend), RecoveredAll(es[1..], prepend, safePrepend);
    assert RecoveredAll(es, prepend, safePrepend) == [first] + rest;
    ReadStep(v, i, |es|, prepend, safePrepend, next, first, rest, end);
  }

  lemma ReadStep(v: string, i: nat, n: nat, prepend: LinkText, safePrepend: LinkText, next: nat,
                 first: IndexEntry, rest: seq<IndexEntry>, end: nat)
    requires n > 0 && i <= |v| && next <= |v|
    requires var eaten := EatEntry(v, i, prepend, safePrepend); eaten.Entry? ==> eaten.next == next
    ensures ReadEntries(v, i, n, prepend, safePrepend) == Listing([first] + rest, end)
      <==> EatEntry(v, i, prepend, safePrepend) == Entry(first, next)
           && ReadEntries(v, next, n - 1, prepend, safePrepend) == Listing(rest, end)
  {
    hide EatEntry;
    var r := ReadEntries(v, i, n, prepend, safePrepend);
    if r == Listing([first] + rest, end) {
      var others := ReadEntries(v, next, n - 1, prepend, safePrepend).entries;
      assert r.entries[0] == first && r.entries[1..] == rest == others;
    }
  }
}
